/**
 * Candidate retrieval by vector search: the seed text is embedded and searched, and the news
 * ids are read out of the hits' payloads.
 *
 * Embedding and search together are one parameter: from the query text and the limit to the
 * formatted hits, or None when either call raised.
 */
module Retrieval {
  import opened Util

  /**
   * One formatted search hit as the candidate extraction sees it: a hit without a 'payload'
   * key, a hit whose payload is None, or a hit whose payload maps field names to values.
   */
  datatype Hit = NoPayloadKey | NullPayload | Payload(fields: map<string, string>)

  const NewsIdKey: string := "news_id"

  /** The hit carries a news id in its payload. */
  predicate HasNewsId(h: Hit)
  {
    h.Payload? && NewsIdKey in h.fields
  }

  /** Testing 'news_id' in a None payload raises, which ends the extraction. */
  predicate Raises(hits: seq<Hit>)
  {
    exists i :: 0 <= i < |hits| && hits[i].NullPayload?
  }

  /** The payload news ids of the hits that carry one, in hit order. */
  function NewsIds(hits: seq<Hit>): seq<string>
  {
    if hits == [] then []
    else
      NewsIds(hits[..|hits| - 1]) +
      if HasNewsId(hits[|hits| - 1]) then [hits[|hits| - 1].fields[NewsIdKey]] else []
  }

  /** The ids of consecutive stretches of hits are the ids of each stretch, one after the other. */
  lemma {:induction false} NewsIdsAppend(a: seq<Hit>, b: seq<Hit>)
    ensures NewsIds(a + b) == NewsIds(a) + NewsIds(b)
  {
    if b != [] {
      assert (a + b)[..|a + b| - 1] == a + b[..|b| - 1];
      NewsIdsAppend(a, b[..|b| - 1]);
    } else {
      assert a + b == a;
    }
  }

  /** Every extracted id is the payload news id of some hit. */
  lemma {:induction false} NewsIdsSound(hits: seq<Hit>, k: nat)
    requires k < |NewsIds(hits)|
    ensures exists i :: 0 <= i < |hits| && HasNewsId(hits[i]) && hits[i].fields[NewsIdKey] == NewsIds(hits)[k]
  {
    var init := hits[..|hits| - 1];
    if k < |NewsIds(init)| {
      NewsIdsSound(init, k);
      var i :| 0 <= i < |init| && HasNewsId(init[i]) && init[i].fields[NewsIdKey] == NewsIds(init)[k];
      assert hits[i] == init[i];
    } else {
      assert NewsIds(hits)[k] == hits[|hits| - 1].fields[NewsIdKey];
    }
  }

  /** Every hit that carries a news id contributes it. */
  lemma {:induction false} NewsIdsComplete(hits: seq<Hit>, i: nat)
    requires i < |hits| && HasNewsId(hits[i])
    ensures hits[i].fields[NewsIdKey] in NewsIds(hits)
  {
    var init := hits[..|hits| - 1];
    if i < |init| {
      assert init[i] == hits[i];
      NewsIdsComplete(init, i);
    }
  }

  /** At most one id per hit, and exactly one per hit when every hit carries one. */
  lemma {:induction false} NewsIdsLength(hits: seq<Hit>)
    ensures |NewsIds(hits)| <= |hits|
    ensures (forall i :: 0 <= i < |hits| ==> HasNewsId(hits[i])) ==> |NewsIds(hits)| == |hits|
  {
    if hits != [] {
      var init := hits[..|hits| - 1];
      assert forall i :: 0 <= i < |init| ==> init[i] == hits[i];
      NewsIdsLength(init);
    }
  }

  /** The candidate ids for what the search returned, as a value. */
  function CandidatesOf(found: Option<seq<Hit>>): seq<string>
  {
    match found
    case None => []
    case Some(hits) => if Raises(hits) then [] else NewsIds(hits)
  }

  /**
   * vector_search_candidates: the payload news ids of the hits, in hit order, skipping hits
   * without one; [] when embedding or search raised, or when a payload is None.
   */
  method VectorSearchCandidates(query: string, limit: nat, search: (string, nat) -> Option<seq<Hit>>)
    returns (ids: seq<string>)
    ensures ids == CandidatesOf(search(query, limit))
    ensures search(query, limit).None? ==> ids == []
    ensures search(query, limit).Some? && Raises(search(query, limit).value) ==> ids == []
    ensures search(query, limit).Some? && !Raises(search(query, limit).value) ==>
      ids == NewsIds(search(query, limit).value)
  {
    var found := search(query, limit);
    if found.None? {
      return [];
    }
    var hits := found.value;
    ids := [];
    for i := 0 to |hits|
      invariant ids == NewsIds(hits[..i])
      invariant forall j :: 0 <= j < i ==> !hits[j].NullPayload?
    {
      assert hits[..i + 1][..i] == hits[..i];
      var hit := hits[i];
      if hit.NullPayload? {
        return [];
      }
      if hit.Payload? && NewsIdKey in hit.fields {
        ids := ids + [hit.fields[NewsIdKey]];
      }
    }
    assert hits[..|hits|] == hits;
  }

  /** When the search keeps to its limit, so does the candidate list. */
  lemma CandidatesWithinLimit(hits: seq<Hit>, limit: nat)
    requires |hits| <= limit
    ensures |NewsIds(hits)| <= limit
  {
    NewsIdsLength(hits);
  }
}
