/**
 * The string operations of Python that the recommender's parsers and formatters rely on:
 * strip, split, find/index, lower, re.findall over a character class, int() and str() of
 * natural numbers, and the `in` test on substrings.
 */
module Text {
  import opened Util

  /** Python's str.isspace() for one character: the set that strip() and split() use. */
  predicate IsSpace(c: char)
  {
    || c == ' '
    || ('\t' <= c <= '\r')
    || ('\U{1C}' <= c <= '\U{1F}')
    || c == '\U{85}' || c == '\U{A0}' || c == '\U{1680}'
    || ('\U{2000}' <= c <= '\U{200A}')
    || c == '\U{2028}' || c == '\U{2029}' || c == '\U{202F}' || c == '\U{205F}' || c == '\U{3000}'
  }

  predicate NotSpace(c: char)
  {
    !IsSpace(c)
  }

  /** The class \d, restricted to ASCII digits. */
  predicate IsDigit(c: char)
  {
    '0' <= c <= '9'
  }

  // ---------------------------------------------------------------- strip

  /** Python's s.lstrip(chars), with the character set given as a predicate. */
  function StripLeft(s: string, drop: char -> bool): (r: string)
    ensures |r| <= |s| && r == s[|s| - |r|..]
    ensures forall i :: 0 <= i < |s| - |r| ==> drop(s[i])
    ensures r != [] ==> !drop(r[0])
  {
    if s != [] && drop(s[0]) then
      var r := StripLeft(s[1..], drop);
      assert forall i :: 1 <= i < |s| - |r| ==> s[i] == s[1..][i - 1];
      r
    else s
  }

  /** Python's s.rstrip(chars), with the character set given as a predicate. */
  function StripRight(s: string, drop: char -> bool): (r: string)
    ensures |r| <= |s| && r == s[..|r|]
    ensures forall i :: |r| <= i < |s| ==> drop(s[i])
    ensures r != [] ==> !drop(r[|r| - 1])
  {
    if s != [] && drop(s[|s| - 1]) then StripRight(s[..|s| - 1], drop) else s
  }

  /** Python's s.strip(chars): both ends, the left one first. */
  function StripWith(s: string, drop: char -> bool): (r: string)
    ensures |r| <= |s|
    ensures r != [] ==> !drop(r[0]) && !drop(r[|r| - 1])
    ensures r == [] <==> forall i :: 0 <= i < |s| ==> drop(s[i])
  {
    var l := StripLeft(s, drop);
    var r := StripRight(l, drop);
    r
  }

  /** Python's s.strip() with no argument. */
  function Strip(s: string): string
  {
    StripWith(s, IsSpace)
  }

  lemma {:induction false} StripLeftPrefix(p: string, t: string, drop: char -> bool)
    requires forall i :: 0 <= i < |p| ==> drop(p[i])
    requires t != [] && !drop(t[0])
    ensures StripLeft(p + t, drop) == t
  {
    if p != [] {
      assert (p + t)[1..] == p[1..] + t;
      StripLeftPrefix(p[1..], t, drop);
    } else {
      assert p + t == t;
    }
  }

  lemma {:induction false} StripRightSuffix(t: string, w: string, drop: char -> bool)
    requires forall i :: 0 <= i < |w| ==> drop(w[i])
    requires t != [] && !drop(t[|t| - 1])
    ensures StripRight(t + w, drop) == t
  {
    if w != [] {
      var v := w[..|w| - 1];
      assert (t + w)[..|t + w| - 1] == t + v;
      StripRightSuffix(t, v, drop);
    } else {
      assert t + w == t;
    }
  }

  /** Stripping removes exactly a dropped prefix and a dropped suffix around a kept core. */
  lemma StripWithAround(p: string, t: string, w: string, drop: char -> bool)
    requires forall i :: 0 <= i < |p| ==> drop(p[i])
    requires forall i :: 0 <= i < |w| ==> drop(w[i])
    requires t != [] && !drop(t[0]) && !drop(t[|t| - 1])
    ensures StripWith(p + t + w, drop) == t
  {
    assert p + t + w == p + (t + w);
    StripLeftPrefix(p, t + w, drop);
    StripRightSuffix(t, w, drop);
  }

  // ---------------------------------------------------------------- split / join

  /** Index of the first occurrence of c in s. */
  function IndexOfChar(s: string, c: char): (i: nat)
    requires c in s
    ensures i < |s| && s[i] == c && c !in s[..i]
  {
    if s[0] == c then 0
    else
      assert c in s[1..] by { var k :| 0 <= k < |s| && s[k] == c; assert s[1..][k - 1] == c; }
      var j := IndexOfChar(s[1..], c);
      assert s[..j + 1] == [s[0]] + s[1..][..j];
      1 + j
  }

  /** Python's s.split(sep) for a one-character separator: always at least one part. */
  function Split(s: string, sep: char): (parts: seq<string>)
    ensures |parts| >= 1
    ensures forall i :: 0 <= i < |parts| ==> sep !in parts[i]
    decreases |s|
  {
    if sep in s then
      var i := IndexOfChar(s, sep);
      [s[..i]] + Split(s[i + 1..], sep)
    else
      [s]
  }

  /** Python's sep.join(parts). */
  function Join(parts: seq<string>, sep: string): string
  {
    if |parts| == 0 then ""
    else if |parts| == 1 then parts[0]
    else parts[0] + sep + Join(parts[1..], sep)
  }

  /** Splitting and joining back with the same separator gives back the text. */
  lemma {:induction false} JoinSplit(s: string, sep: char)
    ensures Join(Split(s, sep), [sep]) == s
    decreases |s|
  {
    if sep in s {
      var i := IndexOfChar(s, sep);
      var rest := Split(s[i + 1..], sep);
      assert Split(s, sep) == [s[..i]] + rest;
      JoinCons(s[..i], rest, [sep]);
      JoinSplit(s[i + 1..], sep);
      assert s == s[..i] + [sep] + s[i + 1..];
    }
  }

  /** Joining a first part ahead of at least one more puts the separator between them. */
  lemma JoinCons(a: string, rest: seq<string>, sep: string)
    requires |rest| >= 1
    ensures Join([a] + rest, sep) == a + sep + Join(rest, sep)
  {
    assert ([a] + rest)[1..] == rest;
  }

  /** Splitting at the first separator: the part before it, then the split of the rest. */
  lemma SplitFirst(a: string, b: string, sep: char)
    requires sep !in a
    ensures Split(a + [sep] + b, sep) == [a] + Split(b, sep)
  {
    var s := a + [sep] + b;
    assert s[|a|] == sep;
    var i := IndexOfChar(s, sep);
    assert s[..|a| + 1][|a|] == sep;
    assert i == |a| by {
      assert forall k :: 0 <= k < |a| ==> s[k] == a[k];
      assert s[i] == sep;
      assert sep !in s[..i];
    }
    assert s[..i] == a;
    assert s[i + 1..] == b;
  }

  /** Splitting undoes joining, when no part holds the separator. */
  lemma {:induction false} SplitJoin(parts: seq<string>, sep: char)
    requires |parts| >= 1
    requires forall i :: 0 <= i < |parts| ==> sep !in parts[i]
    ensures Split(Join(parts, [sep]), sep) == parts
  {
    if |parts| > 1 {
      SplitJoin(parts[1..], sep);
      SplitFirst(parts[0], Join(parts[1..], [sep]), sep);
      assert parts == [parts[0]] + parts[1..];
    }
  }

  /** A character in no part and not the separator is not in the joined text. */
  lemma {:induction false} JoinAvoids(parts: seq<string>, sep: string, c: char)
    requires forall i :: 0 <= i < |parts| ==> c !in parts[i]
    requires c !in sep
    ensures c !in Join(parts, sep)
  {
    if |parts| > 1 {
      JoinAvoids(parts[1..], sep, c);
    }
  }

  /** A joined text ends with its last part. */
  lemma {:induction false} JoinEndsWith(parts: seq<string>, sep: string)
    requires |parts| >= 1
    ensures var j, last := Join(parts, sep), parts[|parts| - 1];
      |last| <= |j| && j[|j| - |last|..] == last
  {
    if |parts| > 1 {
      JoinEndsWith(parts[1..], sep);
      var rest := Join(parts[1..], sep);
      assert Join(parts, sep) == (parts[0] + sep) + rest;
    }
  }

  // ---------------------------------------------------------------- runs of a character class

  /** Length of the longest prefix of s whose characters all satisfy keep. */
  function LeadLen(s: string, keep: char -> bool): (n: nat)
    ensures n <= |s|
    ensures forall i :: 0 <= i < n ==> keep(s[i])
    ensures n < |s| ==> !keep(s[n])
  {
    if s != [] && keep(s[0]) then 1 + LeadLen(s[1..], keep) else 0
  }

  /**
   * The maximal runs of characters that satisfy keep, left to right: re.findall of a
   * character class followed by '+'.
   */
  function Runs(s: string, keep: char -> bool): (runs: seq<string>)
    ensures forall j :: 0 <= j < |runs| ==> runs[j] != []
    ensures forall j, i :: 0 <= j < |runs| && 0 <= i < |runs[j]| ==> keep(runs[j][i])
    decreases |s|
  {
    if s == [] then []
    else if !keep(s[0]) then Runs(s[1..], keep)
    else
      var n := LeadLen(s, keep);
      [s[..n]] + Runs(s[n..], keep)
  }

  /** The characters of s that satisfy keep, in order. */
  function Filter(s: string, keep: char -> bool): string
  {
    if s == [] then [] else (if keep(s[0]) then [s[0]] else []) + Filter(s[1..], keep)
  }

  function Concat(ss: seq<string>): string
  {
    if ss == [] then [] else ss[0] + Concat(ss[1..])
  }

  lemma {:induction false} FilterAppend(a: string, b: string, keep: char -> bool)
    ensures Filter(a + b, keep) == Filter(a, keep) + Filter(b, keep)
  {
    if a != [] {
      assert (a + b)[1..] == a[1..] + b;
      FilterAppend(a[1..], b, keep);
    } else {
      assert a + b == b;
    }
  }

  lemma {:induction false} FilterAllKept(s: string, keep: char -> bool)
    requires forall i :: 0 <= i < |s| ==> keep(s[i])
    ensures Filter(s, keep) == s
  {
    if s != [] {
      FilterAllKept(s[1..], keep);
    }
  }

  /** The runs put back together are exactly the kept characters: no kept character is lost. */
  lemma {:induction false} RunsCover(s: string, keep: char -> bool)
    ensures Concat(Runs(s, keep)) == Filter(s, keep)
    decreases |s|
  {
    if s == [] {
    } else if !keep(s[0]) {
      RunsCover(s[1..], keep);
    } else {
      var n := LeadLen(s, keep);
      RunsCover(s[n..], keep);
      assert s == s[..n] + s[n..];
      FilterAppend(s[..n], s[n..], keep);
      FilterAllKept(s[..n], keep);
      assert ([s[..n]] + Runs(s[n..], keep))[1..] == Runs(s[n..], keep);
    }
  }

  /** Python's s.split() with no argument: the maximal runs of non-whitespace. */
  function Words(s: string): (ws: seq<string>)
    ensures forall j :: 0 <= j < |ws| ==> ws[j] != []
  {
    Runs(s, NotSpace)
  }

  /** s.split() is empty exactly when s consists of whitespace only. */
  lemma WordsEmpty(s: string)
    ensures Words(s) == [] <==> forall i :: 0 <= i < |s| ==> IsSpace(s[i])
  {
    RunsCover(s, NotSpace);
    FilterEmpty(s, NotSpace);
  }

  lemma {:induction false} FilterEmpty(s: string, keep: char -> bool)
    ensures Filter(s, keep) == [] <==> forall i :: 0 <= i < |s| ==> !keep(s[i])
  {
    if s != [] {
      FilterEmpty(s[1..], keep);
      if keep(s[0]) {
        assert Filter(s, keep)[0] == s[0];
      } else {
        assert forall i :: 1 <= i < |s| ==> s[i] == s[1..][i - 1];
      }
    }
  }

  lemma {:induction false} ConcatEmpty(ss: seq<string>)
    requires forall j :: 0 <= j < |ss| ==> ss[j] != []
    ensures Concat(ss) == [] <==> ss == []
  {
  }

  // ---------------------------------------------------------------- lower / find

  function LowerChar(c: char): char
  {
    if 'A' <= c <= 'Z' then (c as int + 32) as char else c
  }

  /** Python's s.lower(), restricted to ASCII letters (so it preserves the length). */
  function Lower(s: string): (r: string)
    ensures |r| == |s|
    ensures forall i :: 0 <= i < |s| ==> r[i] == LowerChar(s[i])
  {
    seq(|s|, i requires 0 <= i < |s| => LowerChar(s[i]))
  }

  /** True when pat occurs in s at position i. */
  predicate OccursAt(s: string, pat: string, i: nat)
  {
    i + |pat| <= |s| && s[i..i + |pat|] == pat
  }

  /** Python's s.find(pat, from): the first occurrence at or after from, or None for -1. */
  function FindFrom(s: string, pat: string, from: nat): (r: Option<nat>)
    ensures r.Some? ==> from <= r.value && OccursAt(s, pat, r.value)
    ensures r.Some? ==> forall j :: from <= j < r.value ==> !OccursAt(s, pat, j)
    ensures r.None? ==> forall j :: from <= j ==> !OccursAt(s, pat, j)
    decreases |s| - from
  {
    if from + |pat| > |s| then None
    else if s[from..from + |pat|] == pat then Some(from)
    else FindFrom(s, pat, from + 1)
  }

  /** Lower-casing works character by character, so it commutes with taking a prefix. */
  lemma LowerPrefix(s: string, n: nat)
    requires n <= |s|
    ensures Lower(s)[..n] == Lower(s[..n])
  {
  }

  /** A text that starts with p finds a pattern where p does, when p holds it. */
  lemma {:induction false} FindFromPrefix(s: string, p: string, pat: string, from: nat)
    requires |p| <= |s| && s[..|p|] == p
    requires FindFrom(p, pat, from).Some?
    ensures FindFrom(s, pat, from) == FindFrom(p, pat, from)
    decreases |p| - from
  {
    var first := FindFrom(p, pat, from).value;
    assert from + |pat| <= first + |pat| <= |p|;
    forall k | from <= k < from + |pat|
      ensures s[k] == p[k]
    {
      assert s[..|p|][k] == s[k];
    }
    assert s[from..from + |pat|] == p[from..from + |pat|];
    if p[from..from + |pat|] != pat {
      FindFromPrefix(s, p, pat, from + 1);
    }
  }

  /** What follows a pattern that find, lower-casing first, sees first does not move it. */
  lemma FindLowerAfter(pre: string, pat: string, s: string)
    requires |pre| + |pat| <= |s| && s[..|pre| + |pat|] == pre + pat
    requires FindFrom(Lower(pre + pat), pat, 0) == Some(|pre|)
    ensures FindFrom(Lower(s), pat, 0) == Some(|pre|)
  {
    var n := |pre| + |pat|;
    LowerPrefix(s, n);
    assert Lower(s)[..n] == Lower(pre + pat);
    FindFromPrefix(Lower(s), Lower(pre + pat), pat, 0);
  }

  /** A text made of pre and then a text that opens with pat starts with pre + pat. */
  lemma PrefixThrough(pre: string, pat: string, x: string)
    requires |pat| <= |x| && x[..|pat|] == pat
    ensures (pre + x)[..|pre| + |pat|] == pre + pat
  {
    var s := pre + x;
    forall k | 0 <= k < |pre| + |pat|
      ensures s[k] == (pre + pat)[k]
    {
      if k >= |pre| {
        assert s[k] == x[k - |pre|] == x[..|pat|][k - |pre|];
      }
    }
  }

  /** An occurrence with none before it is the one find returns. */
  /** A pattern does not occur where one of its characters disagrees with the text. */
  lemma MismatchAt(s: string, pat: string, i: nat, k: nat)
    requires k < |pat| && i + k < |s| && s[i + k] != pat[k]
    ensures !OccursAt(s, pat, i)
  {
    if i + |pat| <= |s| {
      assert s[i..i + |pat|][k] == s[i + k];
    }
  }

  lemma FindFirstAt(s: string, pat: string, i: nat)
    requires OccursAt(s, pat, i)
    requires forall j :: 0 <= j < i ==> !OccursAt(s, pat, j)
    ensures FindFrom(s, pat, 0) == Some(i)
  {
  }

  /** A one-character pattern occurs exactly where that character is. */
  lemma OccursAtChar(s: string, c: char, i: nat)
    ensures OccursAt(s, [c], i) <==> i < |s| && s[i] == c
  {
    if i < |s| && s[i] == c {
      assert s[i..i + 1] == [c];
    }
  }

  /** Python's `pat in s` for strings. */
  predicate Contains(s: string, pat: string)
  {
    FindFrom(s, pat, 0).Some?
  }

  lemma ContainsIff(s: string, pat: string)
    ensures Contains(s, pat) <==> exists i: nat :: OccursAt(s, pat, i)
  {
  }

  // ---------------------------------------------------------------- numbers

  function DigitChar(d: nat): (c: char)
    requires d < 10
    ensures IsDigit(c)
  {
    ('0' as int + d) as char
  }

  function DigitValue(c: char): (d: nat)
    requires IsDigit(c)
    ensures d < 10 && DigitChar(d) == c
  {
    c as int - '0' as int
  }

  predicate AllDigits(s: string)
  {
    forall i :: 0 <= i < |s| ==> IsDigit(s[i])
  }

  /** Python's str(n) for a natural number: decimal, no leading zeros. */
  function NatToString(n: nat): (s: string)
    ensures s != [] && AllDigits(s)
    ensures |s| > 1 ==> s[0] != '0'
  {
    if n < 10 then [DigitChar(n)] else NatToString(n / 10) + [DigitChar(n % 10)]
  }

  /** Python's int(s) for a run of ASCII digits (leading zeros allowed). */
  function ParseNat(s: string): nat
    requires AllDigits(s)
  {
    if s == [] then 0 else 10 * ParseNat(s[..|s| - 1]) + DigitValue(s[|s| - 1])
  }

  /** int(str(n)) == n. */
  lemma {:induction false} ParseNatToString(n: nat)
    ensures ParseNat(NatToString(n)) == n
  {
    var s := NatToString(n);
    if n >= 10 {
      ParseNatToString(n / 10);
      assert s[..|s| - 1] == NatToString(n / 10);
    }
  }

  /** str() is injective on natural numbers. */
  lemma NatToStringInjective(m: nat, n: nat)
    requires NatToString(m) == NatToString(n)
    ensures m == n
  {
    ParseNatToString(m);
    ParseNatToString(n);
  }
}
