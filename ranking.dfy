/**
 * Ranking the candidates against the user profile: the candidate rows are listed, numbered
 * from 1, for the language model; the numbers in its reply that name a candidate are kept in
 * reply order, cut to top_n, mapped to candidate ids, and padded from the front of the
 * candidate list (duplicates included) up to top_n.
 *
 * The language model is a parameter: from the profile, the numbered candidate list and top_n
 * (the variable parts of the ranking prompt) to the reply text.
 */
module Ranking {
  import opened Util
  import opened Text
  import opened Catalog
  import opened Profile

  /** int() refuses a decimal string with more digits than this (sys.int_info.default_max_str_digits). */
  const MaxIntDigits: nat := 4300

  // ---------------------------------------------------------------- candidate rows

  /** df_news[df_news['news_id'].isin(candidate_ids)]: the candidate rows, in catalog order. */
  function CandidateRows(catalog: seq<Article>, candidateIds: seq<string>): (rows: seq<Article>)
    ensures |rows| <= |catalog|
  {
    if catalog == [] then []
    else
      var last := catalog[|catalog| - 1];
      CandidateRows(catalog[..|catalog| - 1], candidateIds) + if last.newsId in candidateIds then [last] else []
  }

  /** The candidate rows of consecutive stretches of the catalog come in catalog order. */
  lemma {:induction false} CandidateRowsAppend(a: seq<Article>, b: seq<Article>, candidateIds: seq<string>)
    ensures CandidateRows(a + b, candidateIds) == CandidateRows(a, candidateIds) + CandidateRows(b, candidateIds)
  {
    if b != [] {
      assert (a + b)[..|a + b| - 1] == a + b[..|b| - 1];
      CandidateRowsAppend(a, b[..|b| - 1], candidateIds);
    } else {
      assert a + b == a;
    }
  }

  /** A row is a candidate row exactly when it is in the catalog and its id is a candidate id. */
  lemma {:induction false} CandidateRowsMember(catalog: seq<Article>, candidateIds: seq<string>, a: Article)
    ensures a in CandidateRows(catalog, candidateIds) <==> a in catalog && a.newsId in candidateIds
  {
    if catalog != [] {
      var init := catalog[..|catalog| - 1];
      CandidateRowsMember(init, candidateIds, a);
      assert catalog == init + [catalog[|catalog| - 1]];
    }
  }

  /** Only which ids are candidates matters, not their order or repetition. */
  lemma {:induction false} CandidateRowsIgnoreOrder(catalog: seq<Article>, c1: seq<string>, c2: seq<string>)
    requires forall x :: x in c1 <==> x in c2
    ensures CandidateRows(catalog, c1) == CandidateRows(catalog, c2)
  {
    if catalog != [] {
      CandidateRowsIgnoreOrder(catalog[..|catalog| - 1], c1, c2);
    }
  }

  /** The news ids of some rows, in order. */
  function RowIds(rows: seq<Article>): (ids: seq<string>)
    ensures |ids| == |rows| && forall i :: 0 <= i < |rows| ==> ids[i] == rows[i].newsId
  {
    seq(|rows|, i requires 0 <= i < |rows| => rows[i].newsId)
  }

  // ---------------------------------------------------------------- reading the reply

  /**
   * [int(x) for x in re.findall(r'\d+', response)]: the digit runs as numbers, or None when
   * one run is too long for int(), which raises ValueError.
   */
  function ParsedNumbers(response: string): Option<seq<nat>>
  {
    var runs := Runs(response, IsDigit);
    if exists j :: 0 <= j < |runs| && |runs[j]| > MaxIntDigits then None
    else Some(seq(|runs|, j requires 0 <= j < |runs| => ParseNat(runs[j])))
  }

  /** The numbers that name a candidate (between 1 and n), in reply order. */
  function InRange(xs: seq<nat>, n: nat): (r: seq<nat>)
    ensures |r| <= |xs|
    ensures forall i :: 0 <= i < |r| ==> 1 <= r[i] <= n
  {
    if xs == [] then []
    else InRange(xs[..|xs| - 1], n) + if 1 <= xs[|xs| - 1] <= n then [xs[|xs| - 1]] else []
  }

  /** InRange keeps exactly the numbers between 1 and n. */
  lemma {:induction false} InRangeMember(xs: seq<nat>, n: nat, x: nat)
    ensures x in InRange(xs, n) <==> x in xs && 1 <= x <= n
  {
    if xs != [] {
      var init := xs[..|xs| - 1];
      InRangeMember(init, n, x);
      assert xs == init + [xs[|xs| - 1]];
    }
  }

  /** The ids of the candidates that 1-based numbers name. */
  function NamedIds(rows: seq<Article>, picked: seq<nat>): (ids: seq<string>)
    requires forall i :: 0 <= i < |picked| ==> 1 <= picked[i] <= |rows|
    ensures |ids| == |picked| && forall i :: 0 <= i < |picked| ==> ids[i] == rows[picked[i] - 1].newsId
  {
    seq(|picked|, i requires 0 <= i < |picked| => rows[picked[i] - 1].newsId)
  }

  /**
   * The ranked ids for the parsed reply: on the exception path the first top_n candidates;
   * otherwise the candidates named by the first top_n usable numbers, then the first
   * candidates again until there are top_n.
   */
  function Ranked(rows: seq<Article>, parsed: Option<seq<nat>>, topN: nat): seq<string>
  {
    match parsed
    case None => Take(RowIds(rows), topN)
    case Some(xs) =>
      var named := NamedIds(rows, Take(InRange(xs, |rows|), topN));
      if |named| < topN then named + Take(RowIds(rows), topN - |named|) else named
  }

  /** The ids rank_news_by_profile returns, as a value. */
  function RankedFor(
    catalog: seq<Article>, profile: UserProfile, candidateIds: seq<string>, topN: nat,
    rank: (UserProfile, string, nat) -> string): seq<string>
  {
    var rows := CandidateRows(catalog, candidateIds);
    if rows == [] then []
    else Ranked(rows, ParsedNumbers(rank(profile, Join(NumberedLines(rows), "\n"), topN)), topN)
  }

  /** The loop over the kept numbers: append the id of the candidate each one names. */
  method AppendNamed(rows: seq<Article>, picked: seq<nat>) returns (ids: seq<string>)
    requires forall i :: 0 <= i < |picked| ==> 1 <= picked[i] <= |rows|
    ensures ids == NamedIds(rows, picked)
  {
    ids := [];
    for k := 0 to |picked|
      invariant |ids| == k
      invariant forall i :: 0 <= i < k ==> ids[i] == rows[picked[i] - 1].newsId
    {
      ids := ids + [rows[picked[k] - 1].newsId];
    }
  }

  /**
   * rank_news_by_profile: [] when no catalog row is a candidate (before the model is asked);
   * otherwise the ranked ids for the model's reply to the numbered candidate list.
   */
  method RankNewsByProfile(
    catalog: seq<Article>, profile: UserProfile, candidateIds: seq<string>, topN: nat,
    rank: (UserProfile, string, nat) -> string)
    returns (ids: seq<string>)
    ensures ids == RankedFor(catalog, profile, candidateIds, topN, rank)
    ensures CandidateRows(catalog, candidateIds) == [] ==> ids == []
    ensures var rows := CandidateRows(catalog, candidateIds);
      rows != [] ==> ids == Ranked(rows, ParsedNumbers(rank(profile, Join(NumberedLines(rows), "\n"), topN)), topN)
  {
    var rows := CandidateRows(catalog, candidateIds);
    if rows == [] {
      return [];
    }
    var response := rank(profile, Join(NumberedLines(rows), "\n"), topN);
    var parsed := ParsedNumbers(response);
    if parsed.None? {
      return Take(RowIds(rows), topN);
    }
    ids := AppendNamed(rows, Take(InRange(parsed.value, |rows|), topN));
    if |ids| < topN {
      ids := ids + Take(RowIds(rows), topN - |ids|);
    }
  }

  // ---------------------------------------------------------------- properties of the ranking

  /** With k usable numbers and n candidates, there are min(top_n, k + n) ranked ids; never more than top_n. */
  lemma RankedLength(rows: seq<Article>, parsed: Option<seq<nat>>, topN: nat)
    ensures var r := Ranked(rows, parsed, topN);
      |r| <= topN
      && (parsed.None? ==> |r| == Min(topN, |rows|))
      && (parsed.Some? ==> |r| == Min(topN, |InRange(parsed.value, |rows|)| + |rows|))
  {
    if parsed.Some? {
      var k := |InRange(parsed.value, |rows|)|;
      var named := NamedIds(rows, Take(InRange(parsed.value, |rows|), topN));
      assert |named| == Min(topN, k);
      if |named| < topN {
        assert |Take(RowIds(rows), topN - |named|)| == Min(topN - k, |rows|);
        assert Ranked(rows, parsed, topN) == named + Take(RowIds(rows), topN - |named|);
      } else {
        assert Ranked(rows, parsed, topN) == named;
      }
    }
  }

  /** The k-th ranked id is the id of a candidate row. */
  lemma RankedEntryFromRows(rows: seq<Article>, parsed: Option<seq<nat>>, topN: nat, k: nat)
    requires k < |Ranked(rows, parsed, topN)|
    ensures Ranked(rows, parsed, topN)[k] in RowIds(rows)
  {
    var ids := RowIds(rows);
    match parsed
    case None =>
      assert Ranked(rows, parsed, topN)[k] == ids[k];
    case Some(xs) =>
      var picked := Take(InRange(xs, |rows|), topN);
      var named := NamedIds(rows, picked);
      if k < |named| {
        assert Ranked(rows, parsed, topN)[k] == named[k] == ids[picked[k] - 1];
      } else {
        var pad := Take(ids, topN - |named|);
        assert Ranked(rows, parsed, topN) == named + pad;
        assert Ranked(rows, parsed, topN)[k] == pad[k - |named|] == ids[k - |named|];
      }
  }

  /** Every ranked id is the id of a candidate row. */
  lemma RankedFromRows(rows: seq<Article>, parsed: Option<seq<nat>>, topN: nat)
    ensures forall k :: 0 <= k < |Ranked(rows, parsed, topN)| ==> Ranked(rows, parsed, topN)[k] in RowIds(rows)
  {
    forall k | 0 <= k < |Ranked(rows, parsed, topN)|
      ensures Ranked(rows, parsed, topN)[k] in RowIds(rows)
    {
      RankedEntryFromRows(rows, parsed, topN, k);
    }
  }

  /** The first ranked ids name the candidates the reply's usable numbers point at, in reply order. */
  lemma RankedFollowsReply(rows: seq<Article>, xs: seq<nat>, topN: nat, i: nat)
    requires i < Min(topN, |InRange(xs, |rows|)|)
    ensures var n := InRange(xs, |rows|)[i];
      1 <= n <= |rows| && Ranked(rows, Some(xs), topN)[i] == rows[n - 1].newsId
  {
  }

  /** A reply that names no candidate (no digits, or only numbers out of range) yields the first top_n candidates. */
  lemma NoUsableNumberFallsBack(rows: seq<Article>, xs: seq<nat>, topN: nat)
    requires forall j :: 0 <= j < |xs| ==> xs[j] < 1 || xs[j] > |rows|
    ensures Ranked(rows, Some(xs), topN) == Take(RowIds(rows), topN)
  {
    if InRange(xs, |rows|) != [] {
      var x := InRange(xs, |rows|)[0];
      InRangeMember(xs, |rows|, x);
    }
  }

  /** The reply "1" parses to the single number 1. */
  lemma ParseOne()
    ensures ParsedNumbers("1") == Some([1])
  {
    var s := "1";
    assert LeadLen(s, IsDigit) == 1;
    assert s[..1] == s && s[1..] == [];
    assert Runs(s, IsDigit) == [s];
    assert ParseNat(s) == 1 by {
      assert s[..0] == [];
    }
    assert !exists j :: 0 <= j < |[s]| && |[s][j]| > MaxIntDigits;
    assert ParsedNumbers(s).value[0] == 1;
    assert ParsedNumbers(s).value == [1];
  }

  /**
   * Padding does not remove duplicates: the reply "1" with top_n of at least 2 names the
   * first candidate, and the padding repeats it.
   */
  lemma PaddingRepeatsFirstCandidate(rows: seq<Article>, topN: nat)
    requires |rows| >= 1 && topN >= 2
    ensures var r := Ranked(rows, ParsedNumbers("1"), topN);
      |r| >= 2 && r[0] == rows[0].newsId && r[1] == rows[0].newsId
  {
    ParseOne();
    assert InRange([1], |rows|) == [1] by {
      assert [1][..0] == [];
    }
  }
}
