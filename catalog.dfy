/**
 * The news table as the recommender reads it: one row per article, looked up by news id
 * (the first matching row wins), and the numbered one-line digest of an article that both
 * the profile prompt and the ranking prompt list.
 */
module Catalog {
  import opened Util
  import opened Text

  /** The columns of one news row that the recommender reads. */
  datatype Article = Article(newsId: string, category: string, subCategory: string, title: string, abstractText: string)

  /** A (category, sub_category) pair, the key of the category counter. */
  type Pair = (string, string)

  function PairOf(a: Article): Pair
  {
    (a.category, a.subCategory)
  }

  /** Position of the first row whose news id is id, or None when no row has it. */
  function FindIndex(catalog: seq<Article>, id: string): (r: Option<nat>)
    ensures r.None? <==> forall i :: 0 <= i < |catalog| ==> catalog[i].newsId != id
    ensures r.Some? ==> r.value < |catalog| && catalog[r.value].newsId == id
    ensures r.Some? ==> forall i :: 0 <= i < r.value ==> catalog[i].newsId != id
  {
    if catalog == [] then None
    else if catalog[0].newsId == id then Some(0)
    else
      match FindIndex(catalog[1..], id)
      case None => None
      case Some(i) => Some(i + 1)
  }

  /** df_news[df_news['news_id'] == id].iloc[0], or None when the selection is empty. */
  function Find(catalog: seq<Article>, id: string): (r: Option<Article>)
    ensures r.None? <==> forall i :: 0 <= i < |catalog| ==> catalog[i].newsId != id
    ensures r.Some? ==> r.value.newsId == id && r.value == catalog[FindIndex(catalog, id).value]
  {
    match FindIndex(catalog, id)
    case None => None
    case Some(i) => Some(catalog[i])
  }

  /** The row an id resolves to is in the table, so the id resolves to a row of any table holding that row. */
  lemma FindMember(catalog: seq<Article>, i: nat)
    requires i < |catalog|
    ensures Find(catalog, catalog[i].newsId).Some?
    ensures FindIndex(catalog, catalog[i].newsId).value <= i
  {
  }

  /** "<n>. category:<c> | sub_category:<sc> | title:<t>": one numbered line of a digest. */
  function DigestLine(n: nat, a: Article): (line: string)
    ensures |line| > |NatToString(n)| && line[..|NatToString(n)|] == NatToString(n)
    ensures line[|NatToString(n)|] == '.'
  {
    NatToString(n) + ". category:" + a.category + " | sub_category:" + a.subCategory + " | title:" + a.title
  }

  /** A digest line carries its own number: two lines with different numbers differ. */
  lemma DigestLineNumber(m: nat, a: Article, n: nat, b: Article)
    requires DigestLine(m, a) == DigestLine(n, b)
    ensures m == n
  {
    var s, t := NatToString(m), NatToString(n);
    var line := DigestLine(m, a);
    var lead := LeadLen(line, IsDigit);
    assert forall k :: 0 <= k < |s| ==> line[k] == s[k];
    assert forall k :: 0 <= k < |t| ==> line[k] == t[k];
    assert lead == |s|;
    assert lead == |t|;
    assert s == line[..|s|] == t;
    NatToStringInjective(m, n);
  }

  /** The numbered digest of a list of articles, numbered from 1: the ranking prompt's candidate list. */
  function NumberedLines(rows: seq<Article>): (lines: seq<string>)
    ensures |lines| == |rows|
    ensures forall i :: 0 <= i < |rows| ==> lines[i] == DigestLine(i + 1, rows[i])
  {
    if rows == [] then [] else NumberedLines(rows[..|rows| - 1]) + [DigestLine(|rows|, rows[|rows| - 1])]
  }
}
