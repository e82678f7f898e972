/**
 * The whole recommendation for one user: the first behaviour row's click history, the
 * profile, a vector search seeded with the title of the last click, a random fallback pool
 * when the search gives nothing, the ranking, and the materialised result in rank order.
 *
 * The language model (twice), the embedding-and-search call and the random sample are
 * parameters; the sample is given as the catalog positions df.sample picked.
 */
module Recommender {
  import opened Util
  import opened Text
  import opened Catalog
  import opened Profile
  import opened Retrieval
  import opened Ranking

  /** The columns of one behaviour row that the recommender reads. */
  datatype Behavior = Behavior(userId: string, clickHistory: string)

  /** One entry of the result: exactly the five fields recommend returns. */
  datatype Recommendation = Recommendation(
    newsId: string, title: string, category: string, subCategory: string, abstractText: string)

  /** The query used when the last click does not resolve. */
  const DefaultQuery: string := "新闻"

  /** How many candidates the random fallback draws at most. */
  const FallbackPool: nat := 50

  /** The first behaviour row of the user (get_user_history(...).iloc[0]), or None when there is none. */
  function FirstBehavior(behaviors: seq<Behavior>, userId: string): (r: Option<Behavior>)
    ensures r.None? <==> forall i :: 0 <= i < |behaviors| ==> behaviors[i].userId != userId
    ensures r.Some? ==> r.value.userId == userId && r.value in behaviors
  {
    if behaviors == [] then None
    else if behaviors[0].userId == userId then Some(behaviors[0])
    else FirstBehavior(behaviors[1..], userId)
  }

  /** click_history_str.split() if click_history_str else []. */
  function ClickIds(b: Behavior): (clicks: seq<string>)
    ensures forall i :: 0 <= i < |clicks| ==> clicks[i] != []
  {
    if b.clickHistory == "" then [] else Words(b.clickHistory)
  }

  /** The seed query: the title of the last click, or the default query when it does not resolve. */
  function SeedQuery(catalog: seq<Article>, clicks: seq<string>): (q: string)
    requires clicks != []
    ensures Find(catalog, clicks[|clicks| - 1]).Some? ==> q == Find(catalog, clicks[|clicks| - 1]).value.title
    ensures Find(catalog, clicks[|clicks| - 1]).None? ==> q == DefaultQuery
  {
    match Find(catalog, clicks[|clicks| - 1])
    case Some(a) => a.title
    case None => DefaultQuery
  }

  /** A sample of catalog positions as df.sample(min(50, len(df))) draws it: distinct positions, that many. */
  predicate ValidSample(catalog: seq<Article>, sample: seq<nat>)
  {
    && |sample| == Min(FallbackPool, |catalog|)
    && (forall i :: 0 <= i < |sample| ==> sample[i] < |catalog|)
    && (forall i, j :: 0 <= i < j < |sample| ==> sample[i] != sample[j])
  }

  /** The news ids of the sampled rows. */
  function SampleIds(catalog: seq<Article>, sample: seq<nat>): (ids: seq<string>)
    requires forall i :: 0 <= i < |sample| ==> sample[i] < |catalog|
    ensures |ids| == |sample| && forall i :: 0 <= i < |sample| ==> ids[i] == catalog[sample[i]].newsId
  {
    seq(|sample|, i requires 0 <= i < |sample| => catalog[sample[i]].newsId)
  }

  /** The result entry for a ranked id that resolves to row a. */
  function RecommendationOf(id: string, a: Article): Recommendation
  {
    Recommendation(id, a.title, a.category, a.subCategory, a.abstractText)
  }

  /** The result entries for the ranked ids, in rank order, skipping ids that do not resolve. */
  function Materialise(catalog: seq<Article>, ids: seq<string>): seq<Recommendation>
  {
    if ids == [] then []
    else
      Materialise(catalog, ids[..|ids| - 1]) +
      match Find(catalog, ids[|ids| - 1])
      case Some(a) => [RecommendationOf(ids[|ids| - 1], a)]
      case None => []
  }

  /** The ids recommend ranks for a user with a non-empty click history. */
  function RankedForClicks(
    catalog: seq<Article>, clicks: seq<string>, topN: nat,
    complete: string -> string, search: (string, nat) -> Option<seq<Hit>>,
    rank: (UserProfile, string, nat) -> string, sample: seq<nat>): seq<string>
    requires clicks != []
    requires forall i :: 0 <= i < |sample| ==> sample[i] < |catalog|
  {
    var found := CandidatesOf(search(SeedQuery(catalog, clicks), topN * 3));
    var candidates := if found == [] then SampleIds(catalog, sample) else found;
    RankedFor(catalog, ProfileOf(catalog, clicks, complete), candidates, topN, rank)
  }

  /** What recommend returns, as a value. */
  function Recommended(
    catalog: seq<Article>, behaviors: seq<Behavior>, userId: string, topN: nat,
    complete: string -> string, search: (string, nat) -> Option<seq<Hit>>,
    rank: (UserProfile, string, nat) -> string, sample: seq<nat>): seq<Recommendation>
    requires forall i :: 0 <= i < |sample| ==> sample[i] < |catalog|
  {
    match FirstBehavior(behaviors, userId)
    case None => []
    case Some(b) =>
      var clicks := ClickIds(b);
      if clicks == [] then []
      else Materialise(catalog, RankedForClicks(catalog, clicks, topN, complete, search, rank, sample))
  }

  /** The final loop: one entry per ranked id that resolves, in rank order. */
  method MaterialiseIds(catalog: seq<Article>, ids: seq<string>) returns (result: seq<Recommendation>)
    ensures result == Materialise(catalog, ids)
  {
    result := [];
    for k := 0 to |ids|
      invariant result == Materialise(catalog, ids[..k])
    {
      assert ids[..k + 1][..k] == ids[..k];
      var news := Find(catalog, ids[k]);
      if news.Some? {
        var info := news.value;
        result := result + [Recommendation(ids[k], info.title, info.category, info.subCategory, info.abstractText)];
      }
    }
    assert ids[..|ids|] == ids;
  }

  /**
   * recommend: [] without a behaviour row or without clicks; otherwise the profile, the
   * candidates from the search seeded with the last click's title (or the sampled rows when
   * the search gives none), the ranking, and the entries of the ranked ids that resolve.
   */
  method Recommend(
    catalog: seq<Article>, behaviors: seq<Behavior>, userId: string, topN: nat,
    complete: string -> string, search: (string, nat) -> Option<seq<Hit>>,
    rank: (UserProfile, string, nat) -> string, sample: seq<nat>)
    returns (result: seq<Recommendation>)
    requires ValidSample(catalog, sample)
    ensures result == Recommended(catalog, behaviors, userId, topN, complete, search, rank, sample)
  {
    var history := FirstBehavior(behaviors, userId);
    if history.None? {
      return [];
    }
    var clicks := ClickIds(history.value);
    if clicks == [] {
      return [];
    }
    var profile := GenerateUserProfile(catalog, clicks, complete);
    var query := SeedQuery(catalog, clicks);
    var candidates := VectorSearchCandidates(query, topN * 3, search);
    if candidates == [] {
      candidates := SampleIds(catalog, sample);
    }
    var ranked := RankNewsByProfile(catalog, profile, candidates, topN, rank);
    result := MaterialiseIds(catalog, ranked);
  }

  // ---------------------------------------------------------------- properties of the result

  /** Entries follow the ids: at most one per id, in id order, each built from the row its id resolves to. */
  lemma {:induction false} MaterialiseShape(catalog: seq<Article>, ids: seq<string>)
    requires forall i :: 0 <= i < |ids| ==> Find(catalog, ids[i]).Some?
    ensures |Materialise(catalog, ids)| == |ids|
    ensures forall i :: 0 <= i < |ids| ==>
      Materialise(catalog, ids)[i] == RecommendationOf(ids[i], Find(catalog, ids[i]).value)
  {
    if ids != [] {
      var init := ids[..|ids| - 1];
      var last := ids[|ids| - 1];
      var entry := RecommendationOf(last, Find(catalog, last).value);
      assert forall i :: 0 <= i < |init| ==> init[i] == ids[i];
      MaterialiseShape(catalog, init);
      var r := Materialise(catalog, ids);
      assert r == Materialise(catalog, init) + [entry];
      forall i | 0 <= i < |ids|
        ensures r[i] == RecommendationOf(ids[i], Find(catalog, ids[i]).value)
      {
        if i < |init| {
          assert r[i] == Materialise(catalog, init)[i];
        }
      }
    }
  }

  /** Never more entries than ids. */
  lemma {:induction false} MaterialiseLength(catalog: seq<Article>, ids: seq<string>)
    ensures |Materialise(catalog, ids)| <= |ids|
  {
    if ids != [] {
      MaterialiseLength(catalog, ids[..|ids| - 1]);
    }
  }

  /** Every ranked id is the id of a catalog row, so it resolves. */
  lemma RankedForResolves(
    catalog: seq<Article>, profile: UserProfile, candidateIds: seq<string>, topN: nat,
    rank: (UserProfile, string, nat) -> string)
    ensures var ids := RankedFor(catalog, profile, candidateIds, topN, rank);
      forall i :: 0 <= i < |ids| ==> Find(catalog, ids[i]).Some? && ids[i] in candidateIds
  {
    var rows := CandidateRows(catalog, candidateIds);
    var ids := RankedFor(catalog, profile, candidateIds, topN, rank);
    if rows != [] {
      var parsed := ParsedNumbers(rank(profile, Join(NumberedLines(rows), "\n"), topN));
      RankedFromRows(rows, parsed, topN);
      forall i | 0 <= i < |ids|
        ensures Find(catalog, ids[i]).Some? && ids[i] in candidateIds
      {
        var j :| 0 <= j < |rows| && RowIds(rows)[j] == ids[i];
        CandidateRowsMember(catalog, candidateIds, rows[j]);
        var k :| 0 <= k < |catalog| && catalog[k] == rows[j];
        FindMember(catalog, k);
      }
    }
  }

  /** A user without a behaviour row, or whose first row lists no clicks, gets nothing. */
  lemma NoHistoryNoRecommendations(
    catalog: seq<Article>, behaviors: seq<Behavior>, userId: string, topN: nat,
    complete: string -> string, search: (string, nat) -> Option<seq<Hit>>,
    rank: (UserProfile, string, nat) -> string, sample: seq<nat>)
    requires ValidSample(catalog, sample)
    requires FirstBehavior(behaviors, userId).None? ||
      forall i :: 0 <= i < |FirstBehavior(behaviors, userId).value.clickHistory| ==>
        IsSpace(FirstBehavior(behaviors, userId).value.clickHistory[i])
    ensures Recommended(catalog, behaviors, userId, topN, complete, search, rank, sample) == []
  {
    if FirstBehavior(behaviors, userId).Some? {
      WordsEmpty(FirstBehavior(behaviors, userId).value.clickHistory);
    }
  }

  /**
   * Every ranked id resolves, so the result has one entry per ranked id, in rank order, each
   * with the title, category, sub-category and abstract of the first row with that id; there
   * are at most top_n entries.
   */
  lemma RecommendedInRankOrder(
    catalog: seq<Article>, clicks: seq<string>, topN: nat,
    complete: string -> string, search: (string, nat) -> Option<seq<Hit>>,
    rank: (UserProfile, string, nat) -> string, sample: seq<nat>)
    requires clicks != [] && ValidSample(catalog, sample)
    ensures var ids := RankedForClicks(catalog, clicks, topN, complete, search, rank, sample);
      var r := Materialise(catalog, ids);
      && |ids| <= topN
      && |r| == |ids|
      && forall i :: 0 <= i < |ids| ==>
           r[i].newsId == ids[i] && Find(catalog, ids[i]).Some? &&
           r[i] == RecommendationOf(ids[i], Find(catalog, ids[i]).value)
  {
    var found := CandidatesOf(search(SeedQuery(catalog, clicks), topN * 3));
    var candidates := if found == [] then SampleIds(catalog, sample) else found;
    var profile := ProfileOf(catalog, clicks, complete);
    var ids := RankedFor(catalog, profile, candidates, topN, rank);
    RankedForResolves(catalog, profile, candidates, topN, rank);
    MaterialiseShape(catalog, ids);
    var rows := CandidateRows(catalog, candidates);
    if rows != [] {
      RankedLength(rows, ParsedNumbers(rank(profile, Join(NumberedLines(rows), "\n"), topN)), topN);
    }
  }

  /** When the search yields no candidate, the pool is the sampled rows: min(50, n) distinct catalog rows. */
  lemma FallbackPoolIsSample(catalog: seq<Article>, sample: seq<nat>)
    requires ValidSample(catalog, sample)
    ensures var ids := SampleIds(catalog, sample);
      |ids| == Min(FallbackPool, |catalog|) && forall i :: 0 <= i < |ids| ==> Find(catalog, ids[i]).Some?
  {
    forall i | 0 <= i < |sample|
      ensures Find(catalog, SampleIds(catalog, sample)[i]).Some?
    {
      FindMember(catalog, sample[i]);
    }
  }
}
