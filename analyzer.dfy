/**
 * The content analysis page's computations: a keyword-list sentiment label, the Chinese-word
 * preprocessing of titles and abstracts, and the pass over a sample of news that counts words
 * and sentiment labels and picks keywords and hot topics.
 *
 * Cells are Ingest.Cell values (NaN is Missing). The random sample and the jieba word
 * segmenter are parameters. Any exception inside the analysis makes the page report failure,
 * which is None here.
 */
module Analyzer {
  import opened Util
  import opened Text
  import opened Counting
  import Ingest

  // ---------------------------------------------------------------- analyze_sentiment

  const PositiveWords: seq<string> := ["好", "棒", "赞", "优秀", "精彩", "成功", "获胜", "提升", "增长", "突破"]
  const NegativeWords: seq<string> := ["坏", "差", "糟糕", "失败", "下降", "损失", "事故", "危险", "问题", "困难"]

  const PositiveLabel: string := "积极"
  const NegativeLabel: string := "消极"
  const NeutralLabel: string := "中性"

  predicate Distinct(ws: seq<string>)
  {
    forall i, j :: 0 <= i < j < |ws| ==> ws[i] != ws[j]
  }

  /** sum(1 for w in words if w in text): how many list entries occur in text at all. */
  function Presence(words: seq<string>, text: string): (n: nat)
    ensures n <= |words|
  {
    if words == [] then 0
    else (if Contains(text, words[0]) then 1 else 0) + Presence(words[1..], text)
  }

  /** The list words that occur in text. */
  function PresentWords(words: seq<string>, text: string): set<string>
  {
    set w | w in words && Contains(text, w)
  }

  /** A label and a score: the larger of the two presence counts wins, a tie is neutral with 0. */
  function AnalyzeSentiment(text: string): (r: (string, nat))
    ensures r.0 == PositiveLabel || r.0 == NegativeLabel || r.0 == NeutralLabel
    ensures r.1 <= |PositiveWords| && r.1 <= |NegativeWords|
    ensures r.1 > 0 <==> r.0 != NeutralLabel
  {
    var t := Lower(text);
    var pos := Presence(PositiveWords, t);
    var neg := Presence(NegativeWords, t);
    if pos > neg then (PositiveLabel, pos)
    else if neg > pos then (NegativeLabel, neg)
    else (NeutralLabel, 0)
  }

  lemma DistinctTail(words: seq<string>)
    requires Distinct(words) && words != []
    ensures Distinct(words[1..]) && words[0] !in words[1..]
  {
    forall j | 0 <= j < |words[1..]|
      ensures words[1..][j] != words[0]
    {
      assert words[1..][j] == words[j + 1];
    }
  }

  lemma PresentWordsCons(words: seq<string>, text: string)
    requires words != []
    ensures PresentWords(words, text) ==
      (if Contains(text, words[0]) then {words[0]} else {}) + PresentWords(words[1..], text)
  {
    assert words == [words[0]] + words[1..];
  }

  /** Over a list without repeats, the count is the number of distinct list words present. */
  lemma {:induction false} PresenceCountsWords(words: seq<string>, text: string)
    requires Distinct(words)
    ensures Presence(words, text) == |PresentWords(words, text)|
  {
    if words != [] {
      DistinctTail(words);
      PresenceCountsWords(words[1..], text);
      PresentWordsCons(words, text);
    }
  }

  lemma PositiveWordsDistinct()
    ensures Distinct(PositiveWords)
  {
  }

  lemma NegativeWordsDistinct()
    ensures Distinct(NegativeWords)
  {
  }

  /**
   * The label compares the numbers of distinct positive and negative words found in the
   * lower-cased text, and the score is the winner's number, so repeating a word changes nothing.
   */
  lemma SentimentByPresentWords(text: string)
    ensures var p := |PresentWords(PositiveWords, Lower(text))|;
      var n := |PresentWords(NegativeWords, Lower(text))|;
      AnalyzeSentiment(text) ==
        if p > n then (PositiveLabel, p) else if n > p then (NegativeLabel, n) else (NeutralLabel, 0)
  {
    PositiveWordsDistinct();
    NegativeWordsDistinct();
    PresenceCountsWords(PositiveWords, Lower(text));
    PresenceCountsWords(NegativeWords, Lower(text));
  }

  /** Lower-casing is idempotent, so the label does not depend on the case of ASCII letters. */
  lemma SentimentIgnoresCase(text: string)
    ensures AnalyzeSentiment(Lower(text)) == AnalyzeSentiment(text)
  {
    assert Lower(Lower(text)) == Lower(text);
  }

  // ---------------------------------------------------------------- preprocess_text

  /** The character class of the regular expression: U+4E00 to U+9FA5. */
  predicate IsHan(c: char)
  {
    '\U{4E00}' <= c <= '\U{9FA5}'
  }

  const Stopwords: set<string> := {
    "的", "了", "在", "是", "我", "有", "和", "就", "不", "人", "都", "一", "一个", "上", "也", "很",
    "到", "说", "要", "去", "你", "会", "着", "没有", "看", "好", "自己", "这", "那", "们", "来", "还",
    "时候", "过", "什么", "为"
  }

  /** A segment worth keeping: longer than one character and not a stopword. */
  predicate Keep(w: string)
  {
    |w| > 1 && w !in Stopwords
  }

  /** The list comprehension over the segmenter's output. */
  function KeepWords(ws: seq<string>): (r: seq<string>)
    ensures forall w :: w in r <==> w in ws && Keep(w)
    ensures forall w :: multiset(r)[w] == if Keep(w) then multiset(ws)[w] else 0
  {
    if ws == [] then []
    else
      assert ws == [ws[0]] + ws[1..];
      (if Keep(ws[0]) then [ws[0]] else []) + KeepWords(ws[1..])
  }

  /** What preprocess_text returns: the empty string for a falsy cell, else a list of words. */
  datatype Preprocessed = EmptyString | WordList(words: seq<string>)

  /** The text handed to the segmenter: str() of the cell with every non-Han character removed. */
  function HanText(text: Ingest.Cell): string
  {
    Filter(Ingest.Str(text), IsHan)
  }

  /**
   * Only the empty string is falsy among cells (NaN is a truthy float); otherwise the Han
   * characters are segmented and the segments worth keeping are returned.
   */
  function PreprocessText(text: Ingest.Cell, segment: string -> seq<string>): (r: Preprocessed)
    ensures r.EmptyString? <==> text == Ingest.Text("")
    ensures r.WordList? ==> forall w :: w in r.words <==> w in segment(HanText(text)) && Keep(w)
  {
    if text == Ingest.Text("") then EmptyString
    else WordList(KeepWords(segment(HanText(text))))
  }

  lemma {:induction false} FilterOnlyKept(s: string, keep: char -> bool)
    ensures forall i :: 0 <= i < |Filter(s, keep)| ==> keep(Filter(s, keep)[i])
  {
    if s != [] {
      FilterOnlyKept(s[1..], keep);
    }
  }

  lemma {:induction false} ConcatPieces(ss: seq<string>, keep: char -> bool)
    requires forall i :: 0 <= i < |Concat(ss)| ==> keep(Concat(ss)[i])
    ensures forall j, i :: 0 <= j < |ss| && 0 <= i < |ss[j]| ==> keep(ss[j][i])
  {
    if ss != [] {
      var c := Concat(ss);
      assert c == ss[0] + Concat(ss[1..]);
      forall i | 0 <= i < |Concat(ss[1..])|
        ensures keep(Concat(ss[1..])[i])
      {
        assert Concat(ss[1..])[i] == c[|ss[0]| + i];
      }
      ConcatPieces(ss[1..], keep);
      forall j, i | 0 <= j < |ss| && 0 <= i < |ss[j]|
        ensures keep(ss[j][i])
      {
        if j == 0 {
          assert ss[0][i] == c[i];
        } else {
          assert ss[j] == ss[1..][j - 1];
        }
      }
    }
  }

  /**
   * When the segmenter only cuts its input into pieces, every word preprocess_text keeps is
   * made of Han characters only, is longer than one character and is not a stopword.
   */
  lemma PreprocessedWordsAreHan(text: Ingest.Cell, segment: string -> seq<string>)
    requires Concat(segment(HanText(text))) == HanText(text)
    ensures match PreprocessText(text, segment)
      case EmptyString => true
      case WordList(ws) =>
        forall j :: 0 <= j < |ws| ==> Keep(ws[j]) && forall i :: 0 <= i < |ws[j]| ==> IsHan(ws[j][i])
  {
    var pieces := segment(HanText(text));
    FilterOnlyKept(Ingest.Str(text), IsHan);
    ConcatPieces(pieces, IsHan);
    if text != Ingest.Text("") {
      var ws := KeepWords(pieces);
      forall j | 0 <= j < |ws|
        ensures Keep(ws[j]) && forall i :: 0 <= i < |ws[j]| ==> IsHan(ws[j][i])
      {
        assert ws[j] in pieces;
        var k :| 0 <= k < |pieces| && pieces[k] == ws[j];
      }
    }
  }

  /** A NaN cell is processed as the text "nan", which has no Han character at all. */
  lemma MissingHasNoHan(segment: string -> seq<string>)
    ensures HanText(Ingest.Missing) == ""
    ensures PreprocessText(Ingest.Missing, segment) == WordList(KeepWords(segment("")))
  {
    assert "nan" == ['n'] + "an" && "an" == ['a'] + "n" && "n" == ['n'] + "";
  }

  // ---------------------------------------------------------------- the pass over the sample

  /** A sampled row, with the two columns the analysis reads. */
  datatype NewsRow = NewsRow(title: Ingest.Cell, abstractText: Ingest.Cell)

  /**
   * title_words + abstract_words: two lists concatenate and two empty strings give an empty
   * string (which extends nothing); a string plus a list raises TypeError (None).
   */
  function JoinWords(a: Preprocessed, b: Preprocessed): (r: Option<seq<string>>)
    ensures r.None? <==> a.EmptyString? != b.EmptyString?
    ensures r.Some? && a.WordList? ==> r.value == a.words + b.words
    ensures r.Some? && a.EmptyString? ==> r.value == []
  {
    match (a, b)
    case (WordList(x), WordList(y)) => Some(x + y)
    case (EmptyString, EmptyString) => Some([])
    case _ => None
  }

  /** row['title'] + ' ' + str(row['abstract']): a NaN title is a float, and float + str raises. */
  function SentimentText(row: NewsRow): Option<string>
  {
    match row.title
    case Missing => None
    case Text(t) => Some(t + " " + Ingest.Str(row.abstractText))
  }

  /** One iteration: the row's words and its sentiment label, or None when the body raises. */
  function RowStep(row: NewsRow, segment: string -> seq<string>): Option<(seq<string>, string)>
  {
    match JoinWords(PreprocessText(row.title, segment), PreprocessText(row.abstractText, segment))
    case None => None
    case Some(ws) =>
      match SentimentText(row)
      case None => None
      case Some(t) => Some((ws, AnalyzeSentiment(t).0))
  }

  /** A row makes the analysis fail exactly when one of its two cells is "" and the other is not, or its title is NaN. */
  lemma RowStepFails(row: NewsRow, segment: string -> seq<string>)
    ensures RowStep(row, segment).None? <==>
      (row.title == Ingest.Text("")) != (row.abstractText == Ingest.Text("")) || row.title.Missing?
  {
  }

  /** The loop body as a function of the row alone. */
  function StepWith(segment: string -> seq<string>): NewsRow -> Option<(seq<string>, string)>
  {
    row => RowStep(row, segment)
  }

  /** all_words and sentiment_results after running step over rows, or None when an iteration raised. */
  function Gather(rows: seq<NewsRow>, step: NewsRow -> Option<(seq<string>, string)>): (r: Option<(seq<string>, seq<string>)>)
  {
    if rows == [] then Some(([], []))
    else
      match Gather(rows[..|rows| - 1], step)
      case None => None
      case Some(acc) =>
        match step(rows[|rows| - 1])
        case None => None
        case Some(out) => Some((acc.0 + out.0, acc.1 + [out.1]))
  }

  /** Once an iteration has raised, the loop's outcome stays an exception. */
  lemma {:induction false} GatherNoneExtends(rows: seq<NewsRow>, k: nat, step: NewsRow -> Option<(seq<string>, string)>)
    requires k <= |rows| && Gather(rows[..k], step).None?
    ensures Gather(rows, step).None?
    decreases |rows| - k
  {
    if k < |rows| {
      assert rows[..k + 1][..k] == rows[..k];
      GatherNoneExtends(rows, k + 1, step);
    } else {
      assert rows[..k] == rows;
    }
  }

  /** The loop raises exactly when some row's iteration raises. */
  lemma {:induction false} GatherFails(rows: seq<NewsRow>, step: NewsRow -> Option<(seq<string>, string)>)
    ensures Gather(rows, step).None? <==> exists i :: 0 <= i < |rows| && step(rows[i]).None?
    decreases |rows|
  {
    if rows != [] {
      var init := rows[..|rows| - 1];
      GatherFails(init, step);
      if Gather(init, step).None? {
        var i :| 0 <= i < |init| && step(init[i]).None?;
        assert rows[i] == init[i];
      } else if step(rows[|rows| - 1]).Some? {
        forall i | 0 <= i < |rows|
          ensures step(rows[i]).Some?
        {
          if i < |init| {
            assert rows[i] == init[i];
          }
        }
      }
    }
  }

  /** When the loop completes, there is one sentiment label per row, that row's label, in order. */
  lemma {:induction false} GatherLabels(rows: seq<NewsRow>, step: NewsRow -> Option<(seq<string>, string)>)
    requires Gather(rows, step).Some?
    ensures var labels := Gather(rows, step).value.1;
      |labels| == |rows| &&
      forall i :: 0 <= i < |rows| ==> step(rows[i]).Some? && labels[i] == step(rows[i]).value.1
    decreases |rows|
  {
    if rows != [] {
      var init := rows[..|rows| - 1];
      GatherLabels(init, step);
      forall i | 0 <= i < |init|
        ensures rows[i] == init[i]
      {
      }
    }
  }

  /** When the loop completes, all_words is the rows' word lists one after the other. */
  lemma {:induction false} GatherWords(rows: seq<NewsRow>, step: NewsRow -> Option<(seq<string>, string)>, k: nat)
    requires Gather(rows, step).Some? && k < |rows|
    ensures Gather(rows[..k], step).Some? && step(rows[k]).Some? && Gather(rows[..k + 1], step).Some?
    ensures Gather(rows[..k + 1], step).value.0 == Gather(rows[..k], step).value.0 + step(rows[k]).value.0
    ensures Gather(rows[..k + 1], step).value.0 <= Gather(rows, step).value.0
    decreases |rows|
  {
    var init := rows[..|rows| - 1];
    assert rows[..k + 1][..k] == rows[..k];
    if k + 1 == |rows| {
      assert rows[..k + 1] == rows;
    } else {
      assert init[..k] == rows[..k] && init[..k + 1] == rows[..k + 1] && init[k] == rows[k];
      GatherWords(init, step, k);
    }
  }

  /** One more iteration of the loop. */
  lemma GatherSnoc(rows: seq<NewsRow>, i: nat, step: NewsRow -> Option<(seq<string>, string)>)
    requires i < |rows| && Gather(rows[..i], step).Some?
    ensures Gather(rows[..i + 1], step) ==
      match step(rows[i])
      case None => None
      case Some(out) => Some((Gather(rows[..i], step).value.0 + out.0, Gather(rows[..i], step).value.1 + [out.1]))
  {
    assert rows[..i + 1][..i] == rows[..i];
  }

  /** The loop over the sample rows, with step as its body. */
  method GatherRows(rows: seq<NewsRow>, step: NewsRow -> Option<(seq<string>, string)>)
    returns (r: Option<(seq<string>, seq<string>)>)
    ensures r == Gather(rows, step)
  {
    var allWords: seq<string> := [];
    var sentimentResults: seq<string> := [];
    var i := 0;
    while i < |rows|
      invariant 0 <= i <= |rows|
      invariant Gather(rows[..i], step) == Some((allWords, sentimentResults))
    {
      GatherSnoc(rows, i, step);
      var out := step(rows[i]);
      if out.None? {
        GatherNoneExtends(rows, i + 1, step);
        return None;
      }
      allWords := allWords + out.value.0;
      sentimentResults := sentimentResults + [out.value.1];
      i := i + 1;
    }
    assert rows[..i] == rows;
    r := Some((allWords, sentimentResults));
  }

  // ---------------------------------------------------------------- keywords and hot topics

  const SampleCap: nat := 1000
  const KeywordCount: nat := 30
  const HotCandidates: nat := 10
  const HotThreshold: nat := 5

  /** The entries among most_common(10) whose frequency exceeds 5, in their order. */
  function HotEntries(top: seq<Entry<string>>): (r: seq<Entry<string>>)
    ensures |r| <= |top|
    ensures forall e :: e in r <==> e in top && e.1 > HotThreshold
  {
    if top == [] then []
    else
      var init := top[..|top| - 1];
      var last := top[|top| - 1];
      assert top == init + [last];
      HotEntries(init) + (if last.1 > HotThreshold then [last] else [])
  }

  /** f"{word} ({freq}次)" */
  function Topic(e: Entry<string>): string
  {
    e.0 + " (" + NatToString(e.1) + "次)"
  }

  /** The hot_topics list: one formatted topic per hot entry. */
  function HotTopics(top: seq<Entry<string>>): (r: seq<string>)
    ensures |r| == |HotEntries(top)|
    ensures forall i :: 0 <= i < |r| ==> r[i] == Topic(HotEntries(top)[i])
  {
    if top == [] then []
    else
      var last := top[|top| - 1];
      HotTopics(top[..|top| - 1]) + (if last.1 > HotThreshold then [Topic(last)] else [])
  }

  /** The loop that appends a formatted topic for each frequent enough word. */
  method CollectHotTopics(top: seq<Entry<string>>) returns (topics: seq<string>)
    ensures topics == HotTopics(top)
  {
    topics := [];
    var i := 0;
    while i < |top|
      invariant 0 <= i <= |top|
      invariant topics == HotTopics(top[..i])
    {
      assert top[..i + 1][..i] == top[..i];
      var (word, freq) := top[i];
      if freq > HotThreshold {
        topics := topics + [Topic((word, freq))];
      }
      i := i + 1;
    }
    assert top[..i] == top;
  }

  /** a comes before b in Counter(ks).most_common(): a larger count, or the same count and seen first. */
  predicate Precedes(ks: seq<string>, a: Entry<string>, b: Entry<string>)
    requires a.0 in ks && b.0 in ks
  {
    a.1 > b.1 || (a.1 == b.1 && FirstIndex(ks, a.0) < FirstIndex(ks, b.0))
  }

  lemma RankedPrefix(ks: seq<string>, top: seq<Entry<string>>, n: nat)
    requires RankedByCount(ks, top) && n <= |top|
    ensures RankedByCount(ks, top[..n])
  {
    var p := top[..n];
    forall i, j | 0 <= i < j < |p|
      ensures p[i].1 > p[j].1 || (p[i].1 == p[j].1 && FirstIndex(ks, p[i].0) < FirstIndex(ks, p[j].0))
    {
      assert p[i] == top[i] && p[j] == top[j];
    }
  }

  lemma RankedSnoc(ks: seq<string>, r: seq<Entry<string>>, last: Entry<string>)
    requires RankedByCount(ks, r) && last.0 in ks
    requires forall i :: 0 <= i < |r| ==> Precedes(ks, r[i], last)
    ensures RankedByCount(ks, r + [last])
  {
    var s := r + [last];
    forall i, j | 0 <= i < j < |s|
      ensures s[i].1 > s[j].1 || (s[i].1 == s[j].1 && FirstIndex(ks, s[i].0) < FirstIndex(ks, s[j].0))
    {
      assert s[i] == r[i];
      if j < |r| {
        assert s[j] == r[j];
      } else {
        assert Precedes(ks, r[i], last);
      }
    }
  }

  /** Keeping only some entries of a ranked list leaves it ranked. */
  lemma {:induction false} HotEntriesRanked(ks: seq<string>, top: seq<Entry<string>>)
    requires RankedByCount(ks, top)
    ensures RankedByCount(ks, HotEntries(top))
    decreases |top|
  {
    if top != [] {
      var init := top[..|top| - 1];
      var last := top[|top| - 1];
      RankedPrefix(ks, top, |top| - 1);
      HotEntriesRanked(ks, init);
      var r := HotEntries(init);
      if last.1 > HotThreshold {
        forall i | 0 <= i < |r|
          ensures Precedes(ks, r[i], last)
        {
          assert r[i] in init;
          var m :| 0 <= m < |init| && init[m] == r[i];
          assert top[m] == r[i];
        }
        RankedSnoc(ks, r, last);
      }
    }
  }

  /**
   * Hot topics over the words: at most 10 entries, each a word with its exact number of
   * occurrences above 5, larger counts first; a word of the 10 most common with more than 5
   * occurrences is never missing.
   */
  lemma HotEntriesOfWords(words: seq<string>)
    ensures var top := MostCommon(Tally(words), HotCandidates);
      var hot := HotEntries(top);
      && |hot| <= HotCandidates
      && (forall i :: 0 <= i < |hot| ==> hot[i].0 in words && hot[i].1 == multiset(words)[hot[i].0] && hot[i].1 > HotThreshold)
      && RankedByCount(words, hot)
      && (forall e :: e in top && e.1 > HotThreshold ==> e in hot)
  {
    var top := MostCommon(Tally(words), HotCandidates);
    TallyTopCounts(words, HotCandidates);
    TallyTopOrder(words, HotCandidates);
    HotEntriesRanked(words, top);
    HotEntryCounts(words, top);
  }

  /** Entries that carry their word's count keep it through the filter, and all of them exceed 5. */
  lemma HotEntryCounts(words: seq<string>, top: seq<Entry<string>>)
    requires forall i :: 0 <= i < |top| ==> top[i].0 in words && top[i].1 == multiset(words)[top[i].0]
    ensures var hot := HotEntries(top);
      forall i :: 0 <= i < |hot| ==> hot[i].0 in words && hot[i].1 == multiset(words)[hot[i].0] && hot[i].1 > HotThreshold
  {
    var hot := HotEntries(top);
    forall i | 0 <= i < |hot|
      ensures hot[i].0 in words && hot[i].1 == multiset(words)[hot[i].0] && hot[i].1 > HotThreshold
    {
      assert hot[i] in top;
      var m :| 0 <= m < |top| && top[m] == hot[i];
    }
  }

  /** What the page shows: the table size, the sample size, keywords, sentiment counts and hot topics. */
  datatype Analysis = Analysis(
    totalNews: nat,
    sampleSize: nat,
    keywords: seq<Entry<string>>,
    sentiments: seq<Entry<string>>,
    hotTopics: seq<string>)

  /** The words and labels of the analysed sample, or None when an iteration raised. */
  function SampleGathered(news: seq<NewsRow>, pick: (seq<NewsRow>, nat) -> seq<NewsRow>,
                          segment: string -> seq<string>): Option<(seq<string>, seq<string>)>
  {
    Gather(pick(news, Min(SampleCap, |news|)), StepWith(segment))
  }

  /** load_and_analyze_news on a table; pick(news, n) is df.sample(n), and None is the failure path. */
  function AnalysisOf(news: seq<NewsRow>, pick: (seq<NewsRow>, nat) -> seq<NewsRow>,
                      segment: string -> seq<string>): (r: Option<Analysis>)
    ensures r.Some? <==> SampleGathered(news, pick, segment).Some?
  {
    match SampleGathered(news, pick, segment)
    case None => None
    case Some(acc) =>
      var counts := Tally(acc.0);
      Some(Analysis(|news|, Min(SampleCap, |news|), MostCommon(counts, KeywordCount), Tally(acc.1),
                    HotTopics(MostCommon(counts, HotCandidates))))
  }

  method LoadAndAnalyze(news: seq<NewsRow>, pick: (seq<NewsRow>, nat) -> seq<NewsRow>,
                        segment: string -> seq<string>) returns (r: Option<Analysis>)
    ensures r == AnalysisOf(news, pick, segment)
  {
    var sampleSize := Min(SampleCap, |news|);
    var sample := pick(news, sampleSize);
    var gathered := GatherRows(sample, StepWith(segment));
    if gathered.None? {
      return None;
    }
    var (allWords, sentimentResults) := gathered.value;
    var wordFreq := Tally(allWords);
    var hotTopics := CollectHotTopics(MostCommon(wordFreq, HotCandidates));
    r := Some(Analysis(|news|, sampleSize, MostCommon(wordFreq, KeywordCount), Tally(sentimentResults), hotTopics));
  }

  /** The loop over the sample raises, and so the analysis is None, exactly when some sampled row raises. */
  lemma StepWithRow(segment: string -> seq<string>, row: NewsRow)
    ensures StepWith(segment)(row) == RowStep(row, segment)
  {
  }

  lemma AnalysisFails(news: seq<NewsRow>, pick: (seq<NewsRow>, nat) -> seq<NewsRow>,
                      segment: string -> seq<string>)
    ensures var rows := pick(news, Min(SampleCap, |news|));
      SampleGathered(news, pick, segment).None? <==> exists i :: 0 <= i < |rows| && RowStep(rows[i], segment).None?
  {
    var rows := pick(news, Min(SampleCap, |news|));
    var step := StepWith(segment);
    GatherFails(rows, step);
    if Gather(rows, step).None? {
      var i :| 0 <= i < |rows| && step(rows[i]).None?;
      StepWithRow(segment, rows[i]);
    } else {
      forall i | 0 <= i < |rows|
        ensures RowStep(rows[i], segment).Some?
      {
        StepWithRow(segment, rows[i]);
      }
    }
  }

  /**
   * The keywords are Counter(all_words).most_common(30): min(30, distinct words) words with
   * their exact counts, ranked, and no word left out beats one kept.
   */
  lemma AnalysisKeywords(news: seq<NewsRow>, pick: (seq<NewsRow>, nat) -> seq<NewsRow>,
                         segment: string -> seq<string>)
    requires SampleGathered(news, pick, segment).Some?
    ensures var a := AnalysisOf(news, pick, segment).value;
      var words := SampleGathered(news, pick, segment).value.0;
      && a.totalNews == |news| && a.sampleSize == Min(SampleCap, |news|)
      && |a.keywords| == Min(KeywordCount, |set w | w in words|)
      && CountedKeys(words, a.keywords) && RankedByCount(words, a.keywords) && NoneLeftOutBeats(words, a.keywords)
  {
    MostCommonOfTally(SampleGathered(news, pick, segment).value.0, KeywordCount);
  }

  /** Every sentiment entry is one of the three labels, with the number of sampled rows that got it. */
  lemma AnalysisSentiments(news: seq<NewsRow>, pick: (seq<NewsRow>, nat) -> seq<NewsRow>,
                           segment: string -> seq<string>)
    requires SampleGathered(news, pick, segment).Some?
    ensures var a := AnalysisOf(news, pick, segment).value;
      var labels := SampleGathered(news, pick, segment).value.1;
      && |labels| == |pick(news, Min(SampleCap, |news|))|
      && forall i :: 0 <= i < |a.sentiments| ==>
           (a.sentiments[i].0 == PositiveLabel || a.sentiments[i].0 == NegativeLabel || a.sentiments[i].0 == NeutralLabel)
           && a.sentiments[i].1 == multiset(labels)[a.sentiments[i].0]
  {
    var rows := pick(news, Min(SampleCap, |news|));
    var step := StepWith(segment);
    var labels := Gather(rows, step).value.1;
    GatherLabels(rows, step);
    var c := Tally(labels);
    forall i | 0 <= i < |c|
      ensures (c[i].0 == PositiveLabel || c[i].0 == NegativeLabel || c[i].0 == NeutralLabel)
           && c[i].1 == multiset(labels)[c[i].0]
    {
      assert c[i] in c;
      TallyMember(labels, c[i]);
      var k :| 0 <= k < |labels| && labels[k] == c[i].0;
      StepWithRow(segment, rows[k]);
    }
  }

  /**
   * There are at most 10 hot topics, each the formatted form of a word among the 10 most common
   * with its exact count above 5, in ranking order.
   */
  lemma AnalysisHotTopics(news: seq<NewsRow>, pick: (seq<NewsRow>, nat) -> seq<NewsRow>,
                          segment: string -> seq<string>)
    requires SampleGathered(news, pick, segment).Some?
    ensures var a := AnalysisOf(news, pick, segment).value;
      var words := SampleGathered(news, pick, segment).value.0;
      var hot := HotEntries(MostCommon(Tally(words), HotCandidates));
      && |a.hotTopics| == |hot| <= HotCandidates
      && RankedByCount(words, hot)
      && forall i :: 0 <= i < |hot| ==>
           a.hotTopics[i] == Topic(hot[i]) && hot[i].0 in words && hot[i].1 == multiset(words)[hot[i].0] && hot[i].1 > HotThreshold
  {
    HotEntriesOfWords(SampleGathered(news, pick, segment).value.0);
  }
}
