/**
 * collections.Counter as the recommender uses it: counting an iterable, then most_common(n).
 *
 * A counter is the sequence of its (key, count) entries in dictionary order, which for a
 * Counter filled by update() is the order in which keys were first seen. most_common(n) is
 * the first n entries of a stable sort by descending count (heapq.nlargest and sorted with
 * reverse=True both keep equal counts in dictionary order).
 */
module Counting {
  import opened Util

  type Entry<K> = (K, nat)

  function KeysOf<K>(c: seq<Entry<K>>): (ks: seq<K>)
    ensures |ks| == |c| && forall i :: 0 <= i < |c| ==> ks[i] == c[i].0
  {
    if c == [] then [] else [c[0].0] + KeysOf(c[1..])
  }

  predicate DistinctKeys<K(==)>(c: seq<Entry<K>>)
  {
    forall i, j :: 0 <= i < j < |c| ==> c[i].0 != c[j].0
  }

  /** Position of key k among the entries of c. */
  function KeyPos<K(==)>(c: seq<Entry<K>>, k: K): nat
    requires k in KeysOf(c)
  {
    FirstIndex(KeysOf(c), k)
  }

  // ---------------------------------------------------------------- counting

  /** Counter.update([k]): increment k's count in place, or append k with count 1. */
  function Bump<K(==)>(c: seq<Entry<K>>, k: K): seq<Entry<K>>
  {
    if k in KeysOf(c) then
      var p := FirstIndex(KeysOf(c), k);
      c[p := (k, c[p].1 + 1)]
    else
      c + [(k, 1)]
  }

  /** Counter(ks), or a Counter that saw update([k]) for each k of ks in turn. */
  function Tally<K(==)>(ks: seq<K>): seq<Entry<K>>
  {
    if ks == [] then [] else Bump(Tally(ks[..|ks| - 1]), ks[|ks| - 1])
  }

  /** Each key of the counter is a key of ks, and each key of ks is in the counter. */
  predicate SameKeys<K(==)>(ks: seq<K>, c: seq<Entry<K>>)
  {
    && (forall i :: 0 <= i < |c| ==> c[i].0 in ks)
    && (forall j :: 0 <= j < |ks| ==> ks[j] in KeysOf(c))
  }

  /** Each entry's count is the number of occurrences of its key in ks. */
  predicate ExactCounts<K(==)>(ks: seq<K>, c: seq<Entry<K>>)
  {
    forall i :: 0 <= i < |c| ==> c[i].1 == multiset(ks)[c[i].0]
  }

  /** Entries are in the order in which their keys first occur in ks. */
  predicate FirstSeenOrder<K(==)>(ks: seq<K>, c: seq<Entry<K>>)
  {
    && (forall i :: 0 <= i < |c| ==> c[i].0 in ks)
    && (forall i, j :: 0 <= i < j < |c| ==> FirstIndex(ks, c[i].0) < FirstIndex(ks, c[j].0))
  }

  /** What a Counter of ks holds: every key of ks once, with its number of occurrences, first-seen first. */
  predicate CountsOf<K(==)>(ks: seq<K>, c: seq<Entry<K>>)
  {
    DistinctKeys(c) && SameKeys(ks, c) && ExactCounts(ks, c) && FirstSeenOrder(ks, c)
  }

  lemma KeyInKeysOf<K>(c: seq<Entry<K>>, i: nat)
    requires i < |c|
    ensures c[i].0 in KeysOf(c) && KeyPos(c, c[i].0) <= i
  {
    assert KeysOf(c)[i] == c[i].0;
  }

  lemma KeyPosOf<K>(c: seq<Entry<K>>, i: nat)
    requires i < |c| && DistinctKeys(c)
    ensures c[i].0 in KeysOf(c) && KeyPos(c, c[i].0) == i
  {
    KeyInKeysOf(c, i);
    var p := KeyPos(c, c[i].0);
    assert c[p].0 == c[i].0;
  }

  lemma FirstIndexKept<K>(init: seq<K>, k: K, x: K)
    requires x in init
    ensures x in init + [k] && FirstIndex(init + [k], x) == FirstIndex(init, x)
  {
    FirstIndexAppend(init, [k], x);
  }

  // ---------------------------------------------------------------- one update

  lemma {:induction false} BumpPresentKeys<K>(init: seq<K>, t: seq<Entry<K>>, k: K)
    requires SameKeys(init, t) && k in KeysOf(t)
    ensures SameKeys(init + [k], Bump(t, k))
  {
    var ks, r := init + [k], Bump(t, k);
    var p := FirstIndex(KeysOf(t), k);
    assert r == t[p := (k, t[p].1 + 1)];
    assert KeysOf(r) == KeysOf(t);
    forall i | 0 <= i < |r|
      ensures r[i].0 in ks
    {
      assert r[i].0 == t[i].0;
    }
    forall j | 0 <= j < |ks|
      ensures ks[j] in KeysOf(r)
    {
      if j < |init| { assert ks[j] == init[j]; }
    }
  }

  lemma {:induction false} BumpPresentCounts<K>(init: seq<K>, t: seq<Entry<K>>, k: K)
    requires ExactCounts(init, t) && DistinctKeys(t) && k in KeysOf(t)
    ensures ExactCounts(init + [k], Bump(t, k))
  {
    var ks, r := init + [k], Bump(t, k);
    var p := FirstIndex(KeysOf(t), k);
    assert r == t[p := (k, t[p].1 + 1)];
    assert multiset(ks) == multiset(init) + multiset{k};
    forall i | 0 <= i < |r|
      ensures r[i].1 == multiset(ks)[r[i].0]
    {
      if i != p { assert r[i] == t[i] && t[i].0 != t[p].0; }
    }
  }

  lemma {:induction false} BumpPresentOrder<K>(init: seq<K>, t: seq<Entry<K>>, k: K)
    requires FirstSeenOrder(init, t) && k in KeysOf(t)
    ensures FirstSeenOrder(init + [k], Bump(t, k))
  {
    var ks, r := init + [k], Bump(t, k);
    var p := FirstIndex(KeysOf(t), k);
    assert r == t[p := (k, t[p].1 + 1)];
    forall i | 0 <= i < |r|
      ensures r[i].0 in ks && FirstIndex(ks, r[i].0) == FirstIndex(init, t[i].0)
    {
      assert r[i].0 == t[i].0;
      FirstIndexKept(init, k, r[i].0);
    }
  }

  /** Counting a key already present bumps its count where it stands. */
  lemma {:induction false} BumpPresent<K>(init: seq<K>, t: seq<Entry<K>>, k: K)
    requires CountsOf(init, t) && k in KeysOf(t)
    ensures CountsOf(init + [k], Bump(t, k))
  {
    var p := FirstIndex(KeysOf(t), k);
    assert Bump(t, k) == t[p := (k, t[p].1 + 1)];
    BumpPresentKeys(init, t, k);
    BumpPresentCounts(init, t, k);
    BumpPresentOrder(init, t, k);
  }

  lemma {:induction false} BumpAbsentKeys<K>(init: seq<K>, t: seq<Entry<K>>, k: K)
    requires SameKeys(init, t) && k !in KeysOf(t)
    ensures SameKeys(init + [k], t + [(k, 1)])
  {
    var ks, r := init + [k], t + [(k, 1)];
    forall i | 0 <= i < |r|
      ensures r[i].0 in ks
    {
      if i < |t| { assert r[i] == t[i]; }
    }
    forall j | 0 <= j < |ks|
      ensures ks[j] in KeysOf(r)
    {
      if j < |init| {
        assert ks[j] == init[j];
        var q := FirstIndex(KeysOf(t), init[j]);
        assert KeysOf(r)[q] == init[j];
      } else {
        assert KeysOf(r)[|t|] == k;
      }
    }
  }

  lemma {:induction false} BumpAbsentCounts<K>(init: seq<K>, t: seq<Entry<K>>, k: K)
    requires ExactCounts(init, t) && SameKeys(init, t) && k !in init
    ensures ExactCounts(init + [k], t + [(k, 1)])
  {
    var ks, r := init + [k], t + [(k, 1)];
    assert multiset(ks) == multiset(init) + multiset{k};
    forall i | 0 <= i < |r|
      ensures r[i].1 == multiset(ks)[r[i].0]
    {
      if i < |t| { assert r[i] == t[i]; }
    }
  }

  lemma {:induction false} BumpAbsentOrder<K>(init: seq<K>, t: seq<Entry<K>>, k: K)
    requires FirstSeenOrder(init, t) && k !in init
    ensures FirstSeenOrder(init + [k], t + [(k, 1)])
  {
    var ks, r := init + [k], t + [(k, 1)];
    assert FirstIndex(ks, k) == |init| by {
      assert ks[|init|] == k;
    }
    forall i | 0 <= i < |r|
      ensures r[i].0 in ks && FirstIndex(ks, r[i].0) == if i < |t| then FirstIndex(init, t[i].0) else |init|
    {
      if i < |t| {
        assert r[i] == t[i];
        FirstIndexKept(init, k, r[i].0);
      }
    }
  }

  /** Counting a new key appends it with count 1, after every key seen before. */
  lemma {:induction false} BumpAbsent<K>(init: seq<K>, t: seq<Entry<K>>, k: K)
    requires CountsOf(init, t) && k !in KeysOf(t)
    ensures CountsOf(init + [k], Bump(t, k))
  {
    assert Bump(t, k) == t + [(k, 1)];
    assert k !in init;
    BumpAbsentKeys(init, t, k);
    BumpAbsentCounts(init, t, k);
    BumpAbsentOrder(init, t, k);
  }

  /** Counting is exact: the counter holds each key of ks with its multiplicity, in first-seen order. */
  lemma {:induction false} TallyCounts<K>(ks: seq<K>)
    ensures CountsOf(ks, Tally(ks))
    decreases |ks|
  {
    if ks != [] {
      var init, k := ks[..|ks| - 1], ks[|ks| - 1];
      assert ks == init + [k];
      TallyCounts(init);
      if k in KeysOf(Tally(init)) {
        BumpPresent(init, Tally(init), k);
      } else {
        BumpAbsent(init, Tally(init), k);
      }
    }
  }

  // ---------------------------------------------------------------- most_common

  predicate SortedDesc<K>(s: seq<Entry<K>>)
  {
    forall i, j :: 0 <= i < j < |s| ==> s[i].1 >= s[j].1
  }

  /** Every key of r is a key of c, and equal counts in r appear in the order their keys have in c. */
  predicate StableFrom<K(==)>(c: seq<Entry<K>>, r: seq<Entry<K>>)
  {
    && (forall i :: 0 <= i < |r| ==> r[i].0 in KeysOf(c))
    && (forall i, j :: 0 <= i < j < |r| && r[i].1 == r[j].1 ==> KeyPos(c, r[i].0) < KeyPos(c, r[j].0))
  }

  /** Where a stable descending insertion puts x: after every entry with a strictly larger count. */
  function InsertPos<K>(x: Entry<K>, s: seq<Entry<K>>): (p: nat)
    ensures p <= |s|
    ensures forall q :: 0 <= q < p ==> s[q].1 > x.1
    ensures p < |s| ==> s[p].1 <= x.1
  {
    if s == [] || s[0].1 <= x.1 then 0 else 1 + InsertPos(x, s[1..])
  }

  function Insert<K>(x: Entry<K>, s: seq<Entry<K>>): (r: seq<Entry<K>>)
    ensures |r| == |s| + 1
  {
    var p := InsertPos(x, s);
    s[..p] + [x] + s[p..]
  }

  /** Stable sort by descending count. */
  function SortDesc<K>(c: seq<Entry<K>>): seq<Entry<K>>
  {
    if c == [] then [] else Insert(c[0], SortDesc(c[1..]))
  }

  /** Counter.most_common(n) for n >= 0. */
  function MostCommon<K>(c: seq<Entry<K>>, n: nat): seq<Entry<K>>
  {
    Take(SortDesc(c), n)
  }

  lemma InsertShape<K>(x: Entry<K>, s: seq<Entry<K>>)
    ensures var p := InsertPos(x, s); var r := Insert(x, s);
      && |r| == |s| + 1 && r[p] == x
      && (forall i :: 0 <= i < p ==> r[i] == s[i])
      && (forall i :: p < i < |r| ==> r[i] == s[i - 1])
  {
  }

  lemma InsertPermutes<K>(x: Entry<K>, s: seq<Entry<K>>)
    ensures multiset(Insert(x, s)) == multiset(s) + multiset{x}
  {
    var p := InsertPos(x, s);
    var a, b := s[..p], s[p..];
    assert s == a + b;
    assert Insert(x, s) == a + ([x] + b);
  }

  lemma KeysOfTail<K>(c: seq<Entry<K>>, k: K)
    requires c != [] && DistinctKeys(c) && k in KeysOf(c[1..])
    ensures k in KeysOf(c) && k != c[0].0 && KeyPos(c, k) == 1 + KeyPos(c[1..], k)
  {
    var i := FirstIndex(KeysOf(c[1..]), k);
    assert KeysOf(c)[i + 1] == k;
    assert KeysOf(c[1..]) == KeysOf(c)[1..];
  }

  lemma MemberKey<K>(c: seq<Entry<K>>, e: Entry<K>)
    requires e in c
    ensures e.0 in KeysOf(c)
  {
    var i :| 0 <= i < |c| && c[i] == e;
    KeyInKeysOf(c, i);
  }

  lemma {:induction false} SortDescPermutes<K>(c: seq<Entry<K>>)
    ensures |SortDesc(c)| == |c| && multiset(SortDesc(c)) == multiset(c)
  {
    if c != [] {
      SortDescPermutes(c[1..]);
      InsertShape(c[0], SortDesc(c[1..]));
      InsertPermutes(c[0], SortDesc(c[1..]));
      assert c == [c[0]] + c[1..];
    }
  }

  lemma InsertSorted<K>(x: Entry<K>, s: seq<Entry<K>>)
    requires SortedDesc(s)
    ensures SortedDesc(Insert(x, s))
  {
    var p := InsertPos(x, s);
    var r := Insert(x, s);
    InsertShape(x, s);
    forall i, j | 0 <= i < j < |r|
      ensures r[i].1 >= r[j].1
    {
      if p < |s| && j > p { assert s[p].1 >= r[j].1; }
    }
  }

  lemma {:induction false} SortDescSorted<K>(c: seq<Entry<K>>)
    ensures SortedDesc(SortDesc(c))
  {
    if c != [] {
      SortDescSorted(c[1..]);
      InsertSorted(c[0], SortDesc(c[1..]));
    }
  }

  lemma SortedMember<K>(c: seq<Entry<K>>, i: nat)
    requires i < |SortDesc(c)|
    ensures SortDesc(c)[i] in c && SortDesc(c)[i].0 in KeysOf(c)
  {
    SortDescPermutes(c);
    assert SortDesc(c)[i] in multiset(c);
    MemberKey(c, SortDesc(c)[i]);
  }

  /** An entry of the tail keeps its key's place, one further along, in the whole counter. */
  lemma TailEntryKey<K>(c: seq<Entry<K>>, s: seq<Entry<K>>, q: nat)
    requires c != [] && DistinctKeys(c) && multiset(s) == multiset(c[1..]) && q < |s|
    ensures s[q].0 in KeysOf(c[1..]) && s[q].0 in KeysOf(c) && s[q].0 != c[0].0
    ensures KeyPos(c, s[q].0) == 1 + KeyPos(c[1..], s[q].0)
  {
    assert s[q] in multiset(c[1..]);
    MemberKey(c[1..], s[q]);
    KeysOfTail(c, s[q].0);
  }

  /** Every entry of the insertion is keyed by a key of the whole counter. */
  lemma InsertedKey<K>(c: seq<Entry<K>>, s: seq<Entry<K>>, i: nat)
    requires c != [] && DistinctKeys(c) && multiset(s) == multiset(c[1..]) && i <= |s|
    ensures Insert(c[0], s)[i].0 in KeysOf(c)
  {
    var p := InsertPos(c[0], s);
    InsertShape(c[0], s);
    if i == p {
      KeyInKeysOf(c, 0);
    } else {
      var si := if i < p then i else i - 1;
      assert Insert(c[0], s)[i] == s[si];
      TailEntryKey(c, s, si);
    }
  }

  lemma InsertStablePair<K>(c: seq<Entry<K>>, s: seq<Entry<K>>, i: nat, j: nat)
    requires c != [] && DistinctKeys(c) && multiset(s) == multiset(c[1..]) && StableFrom(c[1..], s)
    requires i < j <= |s| && Insert(c[0], s)[i].1 == Insert(c[0], s)[j].1
    ensures var r := Insert(c[0], s);
      r[i].0 in KeysOf(c) && r[j].0 in KeysOf(c) && KeyPos(c, r[i].0) < KeyPos(c, r[j].0)
  {
    var p := InsertPos(c[0], s);
    var r := Insert(c[0], s);
    InsertShape(c[0], s);
    assert i < p ==> r[i].1 > c[0].1;
    assert j != p;
    var sj := if j < p then j else j - 1;
    assert r[j] == s[sj];
    TailEntryKey(c, s, sj);
    if i == p {
      KeyPosOf(c, 0);
    } else {
      var si := if i < p then i else i - 1;
      assert r[i] == s[si] && si < sj;
      TailEntryKey(c, s, si);
    }
  }

  lemma InsertStable<K>(c: seq<Entry<K>>, s: seq<Entry<K>>)
    requires c != [] && DistinctKeys(c) && multiset(s) == multiset(c[1..]) && StableFrom(c[1..], s)
    ensures StableFrom(c, Insert(c[0], s))
  {
    var r := Insert(c[0], s);
    InsertShape(c[0], s);
    forall i | 0 <= i < |r|
      ensures r[i].0 in KeysOf(c)
    {
      InsertedKey(c, s, i);
    }
    forall i, j | 0 <= i < j < |r| && r[i].1 == r[j].1
      ensures KeyPos(c, r[i].0) < KeyPos(c, r[j].0)
    {
      InsertStablePair(c, s, i, j);
    }
  }

  lemma {:induction false} SortDescStable<K>(c: seq<Entry<K>>)
    requires DistinctKeys(c)
    ensures StableFrom(c, SortDesc(c))
  {
    if c != [] {
      assert DistinctKeys(c[1..]) by {
        forall i, j | 0 <= i < j < |c[1..]|
          ensures c[1..][i].0 != c[1..][j].0
        {
          assert c[1..][i] == c[i + 1] && c[1..][j] == c[j + 1];
        }
      }
      SortDescStable(c[1..]);
      SortDescPermutes(c[1..]);
      InsertStable(c, SortDesc(c[1..]));
    }
  }

  /** The i-th entry of most_common's result is an entry of the counter. */
  lemma MostCommonMember<K>(c: seq<Entry<K>>, n: nat, i: nat)
    requires i < |MostCommon(c, n)|
    ensures MostCommon(c, n)[i] in c && MostCommon(c, n)[i].0 in KeysOf(c)
  {
    assert MostCommon(c, n)[i] == SortDesc(c)[i];
    SortedMember(c, i);
  }

  /** Two entries of most_common's result: the larger count first, equal counts in counter order. */
  lemma MostCommonPair<K>(c: seq<Entry<K>>, n: nat, i: nat, j: nat)
    requires DistinctKeys(c) && i < j < |MostCommon(c, n)|
    ensures var r := MostCommon(c, n);
      && r[i].0 in KeysOf(c) && r[j].0 in KeysOf(c) && r[i].0 != r[j].0
      && (r[i].1 > r[j].1 || (r[i].1 == r[j].1 && KeyPos(c, r[i].0) < KeyPos(c, r[j].0)))
  {
    var s := SortDesc(c);
    var r := MostCommon(c, n);
    assert r[i] == s[i] && r[j] == s[j];
    SortDescSorted(c);
    SortDescStable(c);
    SortedMember(c, i);
    SortedMember(c, j);
    assert s[i].1 >= s[j].1;
    var a, b := FirstIndex(c, s[i]), FirstIndex(c, s[j]);
    KeyPosOf(c, a);
    KeyPosOf(c, b);
    assert a != b;
  }

  /** most_common keeps min(n, len) entries of the counter, each key once. */
  lemma MostCommonEntries<K>(c: seq<Entry<K>>, n: nat)
    requires DistinctKeys(c)
    ensures var r := MostCommon(c, n);
      && |r| == Min(n, |c|)
      && (forall i :: 0 <= i < |r| ==> r[i] in c && r[i].0 in KeysOf(c))
      && DistinctKeys(r)
  {
    SortDescPermutes(c);
    var r := MostCommon(c, n);
    forall i | 0 <= i < |r|
      ensures r[i] in c && r[i].0 in KeysOf(c)
    {
      MostCommonMember(c, n, i);
    }
    forall i, j | 0 <= i < j < |r|
      ensures r[i].0 != r[j].0
    {
      MostCommonPair(c, n, i, j);
    }
  }

  /** most_common lists larger counts first, and equal counts in counter order. */
  lemma MostCommonOrder<K>(c: seq<Entry<K>>, n: nat)
    requires DistinctKeys(c)
    ensures var r := MostCommon(c, n);
      && (forall i :: 0 <= i < |r| ==> r[i].0 in KeysOf(c))
      && (forall i, j :: 0 <= i < j < |r| ==>
            r[i].1 > r[j].1 || (r[i].1 == r[j].1 && KeyPos(c, r[i].0) < KeyPos(c, r[j].0)))
  {
    var r := MostCommon(c, n);
    forall i | 0 <= i < |r|
      ensures r[i].0 in KeysOf(c)
    {
      MostCommonMember(c, n, i);
    }
    forall i, j | 0 <= i < j < |r|
      ensures r[i].1 > r[j].1 || (r[i].1 == r[j].1 && KeyPos(c, r[i].0) < KeyPos(c, r[j].0))
    {
      MostCommonPair(c, n, i, j);
    }
  }

  /** An entry that most_common leaves out does not beat the j-th one it keeps. */
  lemma MostCommonBeats<K>(c: seq<Entry<K>>, n: nat, q: nat, j: nat)
    requires DistinctKeys(c) && q < |c| && c[q] !in MostCommon(c, n) && j < |MostCommon(c, n)|
    ensures var r := MostCommon(c, n);
      && c[q].0 in KeysOf(c) && r[j].0 in KeysOf(c)
      && (c[q].1 < r[j].1 || (c[q].1 == r[j].1 && KeyPos(c, r[j].0) < KeyPos(c, c[q].0)))
  {
    var s := SortDesc(c);
    var r := MostCommon(c, n);
    SortDescPermutes(c);
    SortDescSorted(c);
    SortDescStable(c);
    KeyInKeysOf(c, q);
    SortedMember(c, j);
    assert c[q] in multiset(s);
    var m :| 0 <= m < |s| && s[m] == c[q];
    assert m >= |r|;
    assert r[j] == s[j] && j < m;
    assert s[j].1 >= s[m].1;
  }

  /** No entry that most_common leaves out beats one it keeps. */
  lemma MostCommonComplete<K>(c: seq<Entry<K>>, n: nat)
    requires DistinctKeys(c)
    ensures var r := MostCommon(c, n);
      && (forall j :: 0 <= j < |r| ==> r[j].0 in KeysOf(c))
      && (forall q :: 0 <= q < |c| ==> c[q].0 in KeysOf(c))
      && (forall q, j :: 0 <= q < |c| && c[q] !in r && 0 <= j < |r| ==>
            c[q].1 < r[j].1 || (c[q].1 == r[j].1 && KeyPos(c, r[j].0) < KeyPos(c, c[q].0)))
  {
    var r := MostCommon(c, n);
    forall j | 0 <= j < |r|
      ensures r[j].0 in KeysOf(c)
    {
      MostCommonMember(c, n, j);
    }
    forall q | 0 <= q < |c|
      ensures c[q].0 in KeysOf(c)
    {
      KeyInKeysOf(c, q);
    }
    forall q, j | 0 <= q < |c| && c[q] !in r && 0 <= j < |r|
      ensures c[q].1 < r[j].1 || (c[q].1 == r[j].1 && KeyPos(c, r[j].0) < KeyPos(c, c[q].0))
    {
      MostCommonBeats(c, n, q, j);
    }
  }

  // ---------------------------------------------------------------- most_common of a count

  lemma TallyDistinct<K>(ks: seq<K>)
    ensures DistinctKeys(Tally(ks))
  {
    TallyCounts(ks);
  }

  /** An entry of Counter(ks) is a key of ks with its number of occurrences. */
  lemma TallyMember<K>(ks: seq<K>, e: Entry<K>)
    requires e in Tally(ks)
    ensures e.0 in ks && e.1 == multiset(ks)[e.0] && e.1 > 0
  {
    TallyCounts(ks);
    var q := FirstIndex(Tally(ks), e);
  }

  /** Every key of ks has an entry in Counter(ks), holding its number of occurrences. */
  lemma TallyKey<K>(ks: seq<K>, k: K)
    requires k in ks
    ensures var c := Tally(ks); k in KeysOf(c) && c[KeyPos(c, k)] == (k, multiset(ks)[k])
  {
    TallyCounts(ks);
    var j := FirstIndex(ks, k);
    assert ks[j] in KeysOf(Tally(ks));
  }

  /** Counter(ks) lists keys in the order of their first occurrence in ks. */
  lemma TallyFirstSeen<K>(ks: seq<K>, a: K, b: K)
    requires var c := Tally(ks); a in KeysOf(c) && b in KeysOf(c) && KeyPos(c, a) < KeyPos(c, b)
    ensures a in ks && b in ks && FirstIndex(ks, a) < FirstIndex(ks, b)
  {
    var c := Tally(ks);
    TallyCounts(ks);
    var i, j := KeyPos(c, a), KeyPos(c, b);
    assert c[i].0 == a && c[j].0 == b;
  }

  lemma {:induction false} DistinctKeyCount<K>(c: seq<Entry<K>>)
    requires DistinctKeys(c)
    ensures |set k | k in KeysOf(c)| == |c|
  {
    if c != [] {
      var t := c[1..];
      assert DistinctKeys(t) by {
        forall i, j | 0 <= i < j < |t|
          ensures t[i].0 != t[j].0
        {
          assert t[i] == c[i + 1] && t[j] == c[j + 1];
        }
      }
      DistinctKeyCount(t);
      assert KeysOf(c) == [c[0].0] + KeysOf(t);
      assert c[0].0 !in KeysOf(t) by {
        forall i | 0 <= i < |t|
          ensures KeysOf(t)[i] != c[0].0
        {
          assert t[i] == c[i + 1];
        }
      }
      assert (set k | k in KeysOf(c)) == (set k | k in KeysOf(t)) + {c[0].0};
    }
  }

  /** Counter(ks) has one entry per distinct key of ks. */
  lemma TallySize<K>(ks: seq<K>)
    ensures |Tally(ks)| == |set k | k in ks|
  {
    var c := Tally(ks);
    TallyCounts(ks);
    DistinctKeyCount(c);
    assert (set k | k in KeysOf(c)) == (set k | k in ks) by {
      forall k | k in KeysOf(c)
        ensures k in ks
      {
        var i := FirstIndex(KeysOf(c), k);
        assert c[i].0 == k;
      }
    }
  }

  /** A Counter is falsy exactly when it counted nothing. */
  lemma TallyEmpty<K>(ks: seq<K>)
    ensures Tally(ks) == [] <==> ks == []
  {
    if ks != [] {
      var init, k := ks[..|ks| - 1], ks[|ks| - 1];
      assert Tally(ks) == Bump(Tally(init), k);
      if k in KeysOf(Tally(init)) {
        assert |Bump(Tally(init), k)| == |Tally(init)| > 0;
      }
    }
  }

  /** Counter.update([k]) after counting ks is the count of ks + [k]. */
  lemma TallySnoc<K>(ks: seq<K>, k: K)
    ensures Tally(ks + [k]) == Bump(Tally(ks), k)
  {
    assert (ks + [k])[..|ks|] == ks;
  }

  /** most_common(n) and most_common(1) agree on their first entry (heapq.nlargest and max pick the same). */
  lemma MostCommonHead<K>(c: seq<Entry<K>>, n: nat)
    requires c != [] && n >= 1
    ensures |MostCommon(c, n)| >= 1 && |MostCommon(c, 1)| == 1
    ensures MostCommon(c, n)[0] == MostCommon(c, 1)[0]
  {
    SortDescPermutes(c);
  }

  /** r holds keys of ks with their exact, positive counts, each key once. */
  predicate CountedKeys<K(==)>(ks: seq<K>, r: seq<Entry<K>>)
  {
    && (forall i :: 0 <= i < |r| ==> r[i].0 in ks && r[i].1 == multiset(ks)[r[i].0] && r[i].1 > 0)
    && DistinctKeys(r)
  }

  /** r lists larger counts first, and equal counts in the order their keys first occur in ks. */
  predicate RankedByCount<K(==)>(ks: seq<K>, r: seq<Entry<K>>)
  {
    && (forall i :: 0 <= i < |r| ==> r[i].0 in ks)
    && (forall i, j :: 0 <= i < j < |r| ==>
          r[i].1 > r[j].1 || (r[i].1 == r[j].1 && FirstIndex(ks, r[i].0) < FirstIndex(ks, r[j].0)))
  }

  /**
   * No key of ks that r leaves out occurs more often than a key r keeps, nor as often and
   * earlier.
   */
  predicate NoneLeftOutBeats<K(==)>(ks: seq<K>, r: seq<Entry<K>>)
  {
    && (forall j :: 0 <= j < |r| ==> r[j].0 in ks)
    && (forall k, j :: k in ks && k !in KeysOf(r) && 0 <= j < |r| ==>
          multiset(ks)[k] < r[j].1 || (multiset(ks)[k] == r[j].1 && FirstIndex(ks, r[j].0) < FirstIndex(ks, k)))
  }

  lemma TallyTopCounts<K>(ks: seq<K>, n: nat)
    ensures |MostCommon(Tally(ks), n)| == Min(n, |Tally(ks)|)
    ensures CountedKeys(ks, MostCommon(Tally(ks), n))
  {
    var c := Tally(ks);
    TallyDistinct(ks);
    MostCommonEntries(c, n);
    var r := MostCommon(c, n);
    forall i | 0 <= i < |r|
      ensures r[i].0 in ks && r[i].1 == multiset(ks)[r[i].0] && r[i].1 > 0
    {
      TallyMember(ks, r[i]);
    }
  }

  lemma TallyTopOrder<K>(ks: seq<K>, n: nat)
    ensures RankedByCount(ks, MostCommon(Tally(ks), n))
  {
    var c := Tally(ks);
    TallyDistinct(ks);
    var r := MostCommon(c, n);
    forall i | 0 <= i < |r|
      ensures r[i].0 in ks
    {
      MostCommonMember(c, n, i);
      TallyMember(ks, r[i]);
    }
    forall i, j | 0 <= i < j < |r|
      ensures r[i].1 > r[j].1 || (r[i].1 == r[j].1 && FirstIndex(ks, r[i].0) < FirstIndex(ks, r[j].0))
    {
      MostCommonPair(c, n, i, j);
      if r[i].1 == r[j].1 {
        TallyFirstSeen(ks, r[i].0, r[j].0);
      }
    }
  }

  lemma TallyTopComplete<K>(ks: seq<K>, n: nat)
    ensures NoneLeftOutBeats(ks, MostCommon(Tally(ks), n))
  {
    var c := Tally(ks);
    TallyDistinct(ks);
    var r := MostCommon(c, n);
    forall j | 0 <= j < |r|
      ensures r[j].0 in ks
    {
      MostCommonMember(c, n, j);
      TallyMember(ks, r[j]);
    }
    forall k, j | k in ks && k !in KeysOf(r) && 0 <= j < |r|
      ensures multiset(ks)[k] < r[j].1 || (multiset(ks)[k] == r[j].1 && FirstIndex(ks, r[j].0) < FirstIndex(ks, k))
    {
      TallyKey(ks, k);
      var q := KeyPos(c, k);
      assert c[q] !in r;
      MostCommonBeats(c, n, q, j);
      if c[q].1 == r[j].1 {
        TallyFirstSeen(ks, r[j].0, k);
      }
    }
  }

  /**
   * Counter(ks).most_common(n): min(n, number of distinct keys) keys of ks with their exact
   * counts, by descending count with ties in first-seen order, and no key left out beats one kept.
   */
  lemma MostCommonOfTally<K>(ks: seq<K>, n: nat)
    ensures |MostCommon(Tally(ks), n)| == Min(n, |Tally(ks)|)
    ensures |Tally(ks)| == |set k | k in ks|
    ensures CountedKeys(ks, MostCommon(Tally(ks), n))
    ensures RankedByCount(ks, MostCommon(Tally(ks), n))
    ensures NoneLeftOutBeats(ks, MostCommon(Tally(ks), n))
  {
    TallyTopCounts(ks, n);
    TallyTopOrder(ks, n);
    TallyTopComplete(ks, n);
    TallySize(ks);
  }
}
