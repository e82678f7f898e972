/**
 * The user profile of the recommender: the category counter over the clicked articles, the
 * numbered digest of the first ten clicks that is handed to the language model, and the
 * parser that reads the "[topics]" and "[region]" sections back out of the model's reply.
 *
 * The language model is a parameter: a function from the digest text to the reply text.
 */
module Profile {
  import opened Util
  import opened Text
  import opened Counting
  import opened Catalog

  /** The result of analyze_user_categories: the top five pairs with counts, and the top one. */
  datatype CategoryAnalysis = CategoryAnalysis(favorite: seq<Entry<Pair>>, top: Option<Entry<Pair>>)

  /** The dictionary generate_user_profile returns. */
  datatype UserProfile = UserProfile(
    topics: seq<string>,
    regions: seq<string>,
    favorite: seq<Entry<Pair>>,
    clickHistory: seq<string>)

  /** How many clicks the digest and the stored click history keep. */
  const HistoryWindow: nat := 10

  /** How many (category, sub_category) pairs the profile keeps. */
  const FavoriteCount: nat := 5

  // ---------------------------------------------------------------- category counting

  /** The (category, sub_category) pairs of the clicks that resolve, in click order. */
  function ResolvedPairs(catalog: seq<Article>, clicks: seq<string>): seq<Pair>
  {
    if clicks == [] then []
    else
      ResolvedPairs(catalog, clicks[..|clicks| - 1]) +
      match Find(catalog, clicks[|clicks| - 1])
      case Some(a) => [PairOf(a)]
      case None => []
  }

  /** The click id resolves to an article whose (category, sub_category) is p. */
  predicate ResolvesTo(catalog: seq<Article>, id: string, p: Pair)
  {
    Find(catalog, id).Some? && PairOf(Find(catalog, id).value) == p
  }

  /** Every counted pair comes from a click that resolves to it. */
  lemma {:induction false} ResolvedPairsSound(catalog: seq<Article>, clicks: seq<string>, p: Pair)
    requires p in ResolvedPairs(catalog, clicks)
    ensures exists i :: 0 <= i < |clicks| && ResolvesTo(catalog, clicks[i], p)
  {
    var init := clicks[..|clicks| - 1];
    if p in ResolvedPairs(catalog, init) {
      ResolvedPairsSound(catalog, init, p);
      var i :| 0 <= i < |init| && ResolvesTo(catalog, init[i], p);
      assert clicks[i] == init[i];
    } else {
      assert ResolvesTo(catalog, clicks[|clicks| - 1], p);
    }
  }

  /** Every click that resolves has its pair counted. */
  lemma {:induction false} ResolvedPairsComplete(catalog: seq<Article>, clicks: seq<string>, i: nat)
    requires i < |clicks| && Find(catalog, clicks[i]).Some?
    ensures PairOf(Find(catalog, clicks[i]).value) in ResolvedPairs(catalog, clicks)
  {
    var init := clicks[..|clicks| - 1];
    var p := PairOf(Find(catalog, clicks[i]).value);
    var last := match Find(catalog, clicks[|clicks| - 1])
      case Some(a) => [PairOf(a)]
      case None => [];
    assert ResolvedPairs(catalog, clicks) == ResolvedPairs(catalog, init) + last;
    if i < |init| {
      assert init[i] == clicks[i];
      ResolvedPairsComplete(catalog, init, i);
      assert p in ResolvedPairs(catalog, init);
    } else {
      assert last == [p];
    }
  }

  /** No pair is counted exactly when no click resolves. */
  lemma {:induction false} ResolvedPairsEmpty(catalog: seq<Article>, clicks: seq<string>)
    ensures ResolvedPairs(catalog, clicks) == [] <==> forall i :: 0 <= i < |clicks| ==> Find(catalog, clicks[i]).None?
  {
    if clicks != [] {
      var init := clicks[..|clicks| - 1];
      ResolvedPairsEmpty(catalog, init);
      assert forall i :: 0 <= i < |init| ==> init[i] == clicks[i];
    }
  }

  /**
   * analyze_user_categories: count the pair of every click that resolves (over the whole click
   * history), then keep the five most common; the top pair is None exactly when nothing resolved.
   */
  method AnalyzeUserCategories(catalog: seq<Article>, clicks: seq<string>) returns (r: CategoryAnalysis)
    ensures r.favorite == MostCommon(Tally(ResolvedPairs(catalog, clicks)), FavoriteCount)
    ensures r.top.None? <==> forall i :: 0 <= i < |clicks| ==> Find(catalog, clicks[i]).None?
    ensures r.top.Some? ==> r.favorite != [] && r.top.value == r.favorite[0]
  {
    var counter: seq<Entry<Pair>> := [];
    for i := 0 to |clicks|
      invariant counter == Tally(ResolvedPairs(catalog, clicks[..i]))
    {
      assert clicks[..i + 1][..i] == clicks[..i];
      var found := Find(catalog, clicks[i]);
      if found.Some? {
        TallySnoc(ResolvedPairs(catalog, clicks[..i]), PairOf(found.value));
        counter := Bump(counter, PairOf(found.value));
      } else {
        assert ResolvedPairs(catalog, clicks[..i + 1]) == ResolvedPairs(catalog, clicks[..i]);
      }
    }
    assert clicks[..|clicks|] == clicks;
    TallyEmpty(ResolvedPairs(catalog, clicks));
    ResolvedPairsEmpty(catalog, clicks);
    var favorite := MostCommon(counter, FavoriteCount);
    if counter != [] {
      MostCommonHead(counter, FavoriteCount);
      r := CategoryAnalysis(favorite, Some(MostCommon(counter, 1)[0]));
    } else {
      r := CategoryAnalysis(favorite, None);
    }
  }

  // ---------------------------------------------------------------- digest

  /**
   * The digest records of a click window: one line per click that resolves, numbered by the
   * click's 1-based position in the window, so unresolved clicks leave gaps in the numbering.
   */
  function Digest(catalog: seq<Article>, window: seq<string>): seq<string>
  {
    if window == [] then []
    else
      Digest(catalog, window[..|window| - 1]) +
      match Find(catalog, window[|window| - 1])
      case Some(a) => [DigestLine(|window|, a)]
      case None => []
  }

  /** Each digest record is the line of some resolving click, numbered by that click's position. */
  lemma {:induction false} DigestRecordSource(catalog: seq<Article>, window: seq<string>, k: nat)
    requires k < |Digest(catalog, window)|
    ensures exists i :: (0 <= i < |window| && Find(catalog, window[i]).Some? &&
      Digest(catalog, window)[k] == DigestLine(i + 1, Find(catalog, window[i]).value))
  {
    var init := window[..|window| - 1];
    var d := Digest(catalog, init);
    if k < |d| {
      DigestRecordSource(catalog, init, k);
      var i :| 0 <= i < |init| && Find(catalog, init[i]).Some? && d[k] == DigestLine(i + 1, Find(catalog, init[i]).value);
      assert window[i] == init[i];
    } else {
      assert Digest(catalog, window)[k] == DigestLine(|window|, Find(catalog, window[|window| - 1]).value);
    }
  }

  /** Each click that resolves contributes its numbered record. */
  lemma {:induction false} DigestRecordPresent(catalog: seq<Article>, window: seq<string>, i: nat)
    requires i < |window| && Find(catalog, window[i]).Some?
    ensures DigestLine(i + 1, Find(catalog, window[i]).value) in Digest(catalog, window)
  {
    var init := window[..|window| - 1];
    var line := DigestLine(i + 1, Find(catalog, window[i]).value);
    var last := match Find(catalog, window[|window| - 1])
      case Some(a) => [DigestLine(|window|, a)]
      case None => [];
    assert Digest(catalog, window) == Digest(catalog, init) + last;
    if i < |init| {
      assert init[i] == window[i];
      DigestRecordPresent(catalog, init, i);
      assert line in Digest(catalog, init);
    } else {
      assert last == [line];
    }
  }

  /** A record numbered i + 1 is in the digest only if click i resolves. */
  lemma DigestGap(catalog: seq<Article>, window: seq<string>, i: nat, a: Article)
    requires i < |window| && DigestLine(i + 1, a) in Digest(catalog, window)
    ensures Find(catalog, window[i]).Some?
  {
    var k :| 0 <= k < |Digest(catalog, window)| && Digest(catalog, window)[k] == DigestLine(i + 1, a);
    DigestRecordSource(catalog, window, k);
    var j :| 0 <= j < |window| && Find(catalog, window[j]).Some? &&
      Digest(catalog, window)[k] == DigestLine(j + 1, Find(catalog, window[j]).value);
    DigestLineNumber(i + 1, a, j + 1, Find(catalog, window[j]).value);
  }

  /** The digest has one record per resolving click, so at most one per click. */
  lemma {:induction false} DigestLength(catalog: seq<Article>, window: seq<string>)
    ensures |Digest(catalog, window)| <= |window|
  {
    if window != [] {
      DigestLength(catalog, window[..|window| - 1]);
    }
  }

  /** The loop over the click window that appends one numbered record per resolving click. */
  method HistoricalRecords(catalog: seq<Article>, window: seq<string>) returns (records: seq<string>)
    ensures records == Digest(catalog, window)
  {
    records := [];
    for idx := 0 to |window|
      invariant records == Digest(catalog, window[..idx])
    {
      assert window[..idx + 1][..idx] == window[..idx];
      var found := Find(catalog, window[idx]);
      if found.Some? {
        records := records + [DigestLine(idx + 1, found.value)];
      }
    }
    assert window[..|window|] == window;
  }

  /** The profile generate_user_profile builds, as a value. */
  function ProfileOf(catalog: seq<Article>, clicks: seq<string>, complete: string -> string): UserProfile
  {
    var reply := complete(Join(Digest(catalog, Take(clicks, HistoryWindow)), "\n"));
    UserProfile(
      ExtractProfileSection(reply, "topics"),
      ExtractProfileSection(reply, "region"),
      MostCommon(Tally(ResolvedPairs(catalog, clicks)), FavoriteCount),
      Take(clicks, HistoryWindow))
  }

  /**
   * generate_user_profile: the digest of the first ten clicks goes to the language model, the
   * reply is parsed for topics and regions, the category counter covers every click, and the
   * profile keeps the first ten clicks.
   */
  method GenerateUserProfile(catalog: seq<Article>, clicks: seq<string>, complete: string -> string)
    returns (p: UserProfile)
    ensures p == ProfileOf(catalog, clicks, complete)
    ensures p.clickHistory == Take(clicks, HistoryWindow)
    ensures var reply := complete(Join(Digest(catalog, Take(clicks, HistoryWindow)), "\n"));
      p.topics == ExtractProfileSection(reply, "topics") && p.regions == ExtractProfileSection(reply, "region")
    ensures p.favorite == MostCommon(Tally(ResolvedPairs(catalog, clicks)), FavoriteCount)
  {
    var window := Take(clicks, HistoryWindow);
    var records := HistoricalRecords(catalog, window);
    var reply := complete(Join(records, "\n"));
    var analysis := AnalyzeUserCategories(catalog, clicks);
    p := UserProfile(
      ExtractProfileSection(reply, "topics"),
      ExtractProfileSection(reply, "region"),
      analysis.favorite,
      window);
  }

  // ---------------------------------------------------------------- section parser

  /** The characters line.strip("- ") removes. */
  predicate DashOrSpace(c: char)
  {
    c == '-' || c == ' '
  }

  /** One list item: the line without surrounding dashes and spaces, then without surrounding whitespace. */
  function Item(line: string): (item: string)
    ensures |item| <= |line|
    ensures item != [] ==> NotSpace(item[0]) && NotSpace(item[|item| - 1])
  {
    Strip(StripWith(line, DashOrSpace))
  }

  /** What one line contributes: its item when its strip() is not empty, otherwise nothing. */
  function LineItem(line: string): (items: seq<string>)
    ensures |items| <= 1
  {
    if Strip(line) != "" then [Item(line)] else []
  }

  /** The items of the lines whose strip() is not empty, in order. */
  function Items(lines: seq<string>): (items: seq<string>)
    ensures |items| <= |lines|
  {
    if lines == [] then [] else LineItem(lines[0]) + Items(lines[1..])
  }

  /** The items of two runs of lines are the items of each, in order. */
  lemma {:induction false} ItemsAppend(a: seq<string>, b: seq<string>)
    ensures Items(a + b) == Items(a) + Items(b)
  {
    if a != [] {
      var ab := a + b;
      assert ab[0] == a[0] && ab[1..] == a[1..] + b;
      var head := LineItem(a[0]);
      assert Items(ab) == head + Items(ab[1..]);
      assert Items(a) == head + Items(a[1..]);
      ItemsAppend(a[1..], b);
      assert head + (Items(a[1..]) + Items(b)) == (head + Items(a[1..])) + Items(b);
    } else {
      assert a + b == b;
    }
  }

  /** A line holding only whitespace yields no item. */
  lemma BlankLineSkipped(a: seq<string>, line: string, b: seq<string>)
    requires Strip(line) == ""
    ensures Items(a + [line] + b) == Items(a) + Items(b)
  {
    SingleLine(line);
    ItemsAppend(a + [line], b);
    ItemsAppend(a, [line]);
    assert Items(a + [line]) == Items(a);
  }

  /** A line of dashes and spaces holding at least one dash yields an empty item. */
  lemma DashLineEmptyItem(a: seq<string>, line: string, b: seq<string>)
    requires '-' in line && forall k :: 0 <= k < |line| ==> DashOrSpace(line[k])
    ensures Items(a + [line] + b) == Items(a) + [""] + Items(b)
  {
    var k :| 0 <= k < |line| && line[k] == '-';
    assert Strip(line) != "" by {
      assert !IsSpace(line[k]);
    }
    assert StripWith(line, DashOrSpace) == [];
    SingleLine(line);
    ItemsAppend(a + [line], b);
    ItemsAppend(a, [line]);
    assert Items(a + [line]) == Items(a) + [""];
  }

  /** One line's items are what it contributes. */
  lemma SingleLine(line: string)
    ensures Items([line]) == LineItem(line)
  {
    assert [line][1..] == [];
  }

  /**
   * Where a section ends: for "region" the end of the text; otherwise the next '[' after the
   * heading, or, when there is none, one before the end (find returned -1).
   */
  function SectionEnd(profile: string, section: string, start: nat): (e: nat)
    requires start < |profile|
    ensures e <= |profile|
  {
    if section == "region" then |profile|
    else
      match FindFrom(profile, "[", start + 1)
      case Some(i) => i
      case None => |profile| - 1
  }

  /**
   * _extract_profile_section: the non-blank lines after the "[section]" heading, found without
   * regard to ASCII case, each with surrounding dashes, spaces and whitespace removed; [] when
   * the heading is missing.
   */
  function ExtractProfileSection(profile: string, section: string): (items: seq<string>)
    ensures FindFrom(Lower(profile), "[" + section + "]", 0).None? ==> items == []
  {
    match FindFrom(Lower(profile), "[" + section + "]", 0)
    case None => []
    case Some(start) =>
      var text := Strip(Slice(profile, start, SectionEnd(profile, section, start)));
      Items(Split(text, '\n')[1..])
  }

  // ---------------------------------------------------------------- replies in the prompt's format

  /** The list lines "- t" the prompt asks the model to write. */
  function Bullets(ts: seq<string>): (lines: seq<string>)
    ensures |lines| == |ts|
    ensures forall i :: 0 <= i < |ts| ==> lines[i] == "- " + ts[i]
  {
    seq(|ts|, i requires 0 <= i < |ts| => "- " + ts[i])
  }

  /**
   * An item the parser gives back unchanged: one line, no '[' (which would end the section), and
   * no dash or whitespace at either end.
   */
  predicate PlainItem(t: string)
  {
    && t != [] && '\n' !in t && '[' !in t
    && NotSpace(t[0]) && NotSpace(t[|t| - 1])
    && t[0] != '-' && t[|t| - 1] != '-'
  }

  /** A section name that is its own lower-case form, on one line and without '['. */
  predicate PlainSection(section: string)
  {
    forall i :: 0 <= i < |section| ==> section[i] != '[' && section[i] != '\n' && LowerChar(section[i]) == section[i]
  }

  /** The heading line's opening: the section name in square brackets. */
  function Heading(section: string): string
  {
    "[" + section + "]"
  }

  /** Trailing spaces after a heading, as on the prompt's "[region]  " line. */
  predicate Spaces(pad: string)
  {
    forall k :: 0 <= k < |pad| ==> pad[k] == ' '
  }

  /** One section as the prompt asks for it: the "[section]" heading line, then one "- item" line per item. */
  function SectionBlock(section: string, pad: string, ts: seq<string>): string
  {
    "[" + section + "]" + pad + "\n" + Join(Bullets(ts), "\n")
  }

  /**
   * A formatted section followed by whitespace; a section other than "region" is followed by
   * the next heading's '['.
   */
  function FormattedReply(section: string, pad: string, ts: seq<string>, gap: string, rest: string): string
  {
    SectionBlock(section, pad, ts) + gap + (if section == "region" then "" else "[" + rest)
  }

  /** line.strip("- ") of a "- t" line is t. */
  lemma DashStripBullet(line: string, t: string)
    requires PlainItem(t) && line == "- " + t
    ensures StripWith(line, DashOrSpace) == t
  {
    assert line == "- " + t + "";
    StripWithAround("- ", t, "", DashOrSpace);
  }

  /** A plain item has nothing to strip. */
  lemma StripPlainItem(t: string)
    requires PlainItem(t)
    ensures Strip(t) == t
  {
    assert t == [] + t + "";
    StripWithAround([], t, "", IsSpace);
  }

  /** A "- t" line of a plain item is not blank. */
  lemma BulletNotBlank(line: string, t: string)
    requires PlainItem(t) && line == "- " + t
    ensures Strip(line) != ""
  {
    assert line[2] == t[0];
  }

  /** A "- t" line of a plain item is not blank and yields t back. */
  lemma ItemOfBullet(line: string, t: string)
    requires PlainItem(t) && line == "- " + t
    ensures Strip(line) != "" && Item(line) == t
  {
    DashStripBullet(line, t);
    StripPlainItem(t);
    BulletNotBlank(line, t);
  }

  lemma BulletsTail(ts: seq<string>)
    requires ts != []
    ensures Bullets(ts)[0] == "- " + ts[0] && Bullets(ts)[1..] == Bullets(ts[1..])
  {
  }

  /** A line that is not blank contributes its item ahead of the rest. */
  lemma ItemsCons(lines: seq<string>)
    requires lines != [] && Strip(lines[0]) != ""
    ensures Items(lines) == [Item(lines[0])] + Items(lines[1..])
  {
  }

  /** The "- t" lines of plain items yield the items back, in order. */
  lemma {:induction false} ItemsBullets(ts: seq<string>)
    requires forall i :: 0 <= i < |ts| ==> PlainItem(ts[i])
    ensures Items(Bullets(ts)) == ts
  {
    if ts != [] {
      var rest := ts[1..];
      assert ts == [ts[0]] + rest;
      var lines := Bullets(ts);
      BulletsTail(ts);
      ItemOfBullet(lines[0], ts[0]);
      ItemsCons(lines);
      forall i | 0 <= i < |rest|
        ensures PlainItem(rest[i])
      {
        assert rest[i] == ts[i + 1];
      }
      ItemsBullets(rest);
    }
  }

  /** The "[section]" heading at the start of a reply is found at position 0 of its lower-cased form. */
  lemma HeadingAtStart(profile: string, section: string)
    requires PlainSection(section)
    requires |"[" + section + "]"| <= |profile| && profile[..|section| + 2] == "[" + section + "]"
    ensures FindFrom(Lower(profile), "[" + section + "]", 0) == Some(0)
  {
    var heading := "[" + section + "]";
    forall k | 0 <= k < |heading|
      ensures Lower(profile)[k] == heading[k]
    {
      assert profile[k] == heading[k];
      if 0 < k < |heading| - 1 {
        assert heading[k] == section[k - 1];
      }
    }
    assert Lower(profile)[..|heading|] == heading;
  }

  /** The list lines of plain items, joined, hold no '[' and end in a non-space character. */
  lemma BulletsBody(ts: seq<string>)
    requires |ts| >= 1 && forall i :: 0 <= i < |ts| ==> PlainItem(ts[i])
    ensures var body := Join(Bullets(ts), "\n");
      && '[' !in body && body != [] && NotSpace(body[|body| - 1])
      && forall i :: 0 <= i < |Bullets(ts)| ==> '\n' !in Bullets(ts)[i]
  {
    var lines := Bullets(ts);
    forall i | 0 <= i < |lines|
      ensures '[' !in lines[i] && '\n' !in lines[i]
    {
      assert lines[i] == "- " + ts[i];
    }
    JoinAvoids(lines, "\n", '[');
    JoinEndsWith(lines, "\n");
    var last := lines[|lines| - 1];
    assert last == "- " + ts[|ts| - 1];
    assert last[|last| - 1] == ts[|ts| - 1][|ts[|ts| - 1]| - 1];
  }

  /** The "[section]" heading of a plain section is one line. */
  lemma HeadingOneLine(section: string)
    requires PlainSection(section)
    ensures '\n' !in "[" + section + "]"
  {
    var heading := "[" + section + "]";
    forall k | 0 <= k < |heading|
      ensures heading[k] != '\n'
    {
      if 0 < k < |heading| - 1 {
        assert heading[k] == section[k - 1];
      }
    }
  }

  /** Trailing whitespace after a text that ends in a non-space character is stripped away. */
  lemma StripGap(inner: string, gap: string)
    requires inner != [] && NotSpace(inner[0]) && NotSpace(inner[|inner| - 1])
    requires forall i :: 0 <= i < |gap| ==> IsSpace(gap[i])
    ensures Strip(inner + gap) == inner
  {
    assert inner == [] + inner;
    StripWithAround([], inner, gap, IsSpace);
  }

  /** With no '[' from position from up to e and one at e, the next '[' from there is at e. */
  lemma NextBracketAt(profile: string, from: nat, e: nat)
    requires from <= e < |profile| && profile[e] == '['
    requires forall j :: from <= j < e ==> profile[j] != '['
    ensures FindFrom(profile, "[", from) == Some(e)
  {
    var f := FindFrom(profile, "[", from);
    OccursAtChar(profile, '[', e);
    assert f.Some?;
    OccursAtChar(profile, '[', f.value);
  }

  /**
   * A formatted section opens with its '[' and holds no other, and it ends in a non-space
   * character.
   */
  lemma BlockBrackets(section: string, pad: string, ts: seq<string>)
    requires PlainSection(section) && Spaces(pad)
    requires |ts| >= 1 && forall i :: 0 <= i < |ts| ==> PlainItem(ts[i])
    ensures var block := SectionBlock(section, pad, ts);
      && block[0] == '[' && NotSpace(block[|block| - 1])
      && forall j :: 1 <= j < |block| ==> block[j] != '['
  {
    var body := Join(Bullets(ts), "\n");
    var head := "[" + section + "]" + pad + "\n";
    var block := SectionBlock(section, pad, ts);
    BulletsBody(ts);
    assert block == head + body;
    forall j | 1 <= j < |block|
      ensures block[j] != '['
    {
      if j < |section| + 1 {
        assert block[j] == section[j - 1];
      } else if j == |section| + 1 {
        assert block[j] == ']';
      } else if j < |section| + 2 + |pad| {
        assert block[j] == pad[j - |section| - 2];
      } else if j == |section| + 2 + |pad| {
        assert block[j] == '\n';
      } else {
        assert block[j] == body[j - |head|];
      }
    }
  }

  /** A formatted section opens with its heading. */
  lemma BlockHeading(section: string, pad: string, ts: seq<string>)
    ensures var block := SectionBlock(section, pad, ts);
      |Heading(section)| <= |block| && block[..|Heading(section)|] == Heading(section)
  {
    var rest := pad + "\n" + Join(Bullets(ts), "\n");
    assert SectionBlock(section, pad, ts) == Heading(section) + rest;
    assert (Heading(section) + rest)[..|Heading(section)|] == Heading(section);
  }

  /** The items parsed from a formatted section's list lines are the items it was written from. */
  lemma BlockItems(section: string, pad: string, ts: seq<string>)
    requires PlainSection(section) && Spaces(pad)
    requires |ts| >= 1 && forall i :: 0 <= i < |ts| ==> PlainItem(ts[i])
    ensures Items(Split(SectionBlock(section, pad, ts), '\n')[1..]) == ts
  {
    BlockLines(section, pad, ts);
    ItemsBullets(ts);
  }

  /** A formatted section splits into its heading line and then its list lines. */
  lemma BlockLines(section: string, pad: string, ts: seq<string>)
    requires PlainSection(section) && Spaces(pad)
    requires |ts| >= 1 && forall i :: 0 <= i < |ts| ==> PlainItem(ts[i])
    ensures Split(SectionBlock(section, pad, ts), '\n')[1..] == Bullets(ts)
  {
    var heading := "[" + section + "]";
    var body := Join(Bullets(ts), "\n");
    HeadingOneLine(section);
    assert '\n' !in heading + pad by {
      forall k | 0 <= k < |heading + pad|
        ensures (heading + pad)[k] != '\n'
      {
        if k >= |heading| {
          assert (heading + pad)[k] == pad[k - |heading|];
        } else {
          assert (heading + pad)[k] == heading[k];
        }
      }
    }
    assert SectionBlock(section, pad, ts) == (heading + pad) + ['\n'] + body;
    SplitFirst(heading + pad, body, '\n');
    BulletsBody(ts);
    SplitJoin(Bullets(ts), '\n');
  }

  /**
   * Parsing a reply that holds a section in the prompt's format, after any preamble in which
   * find does not see the heading earlier, gives back exactly the listed items: for "region"
   * (which runs to the end) and for any other section (which ends at the next '['), also with
   * spaces after the heading as on the prompt's "[region]  " line.
   */
  lemma ExtractFormattedReply(pre: string, section: string, pad: string, ts: seq<string>, gap: string, rest: string)
    requires PlainSection(section) && Spaces(pad)
    requires FindFrom(Lower(pre + Heading(section)), Heading(section), 0) == Some(|pre|)
    requires |ts| >= 1 && forall i :: 0 <= i < |ts| ==> PlainItem(ts[i])
    requires forall i :: 0 <= i < |gap| ==> IsSpace(gap[i])
    ensures ExtractProfileSection(pre + FormattedReply(section, pad, ts, gap, rest), section) == ts
  {
    var block := SectionBlock(section, pad, ts);
    var tail := if section == "region" then "" else "[" + rest;
    BlockBrackets(section, pad, ts);
    BlockHeading(section, pad, ts);
    BlockItems(section, pad, ts);
    SectionFromBlock(pre, section, block, gap, block + gap, tail, ts);
  }

  /**
   * A block that opens with the heading, holds no other '[', ends in a non-space and lists ts,
   * followed by spaces and then the tail, parses back to ts.
   */
  lemma SectionFromBlock(pre: string, section: string, block: string, gap: string, body: string, tail: string, ts: seq<string>)
    requires body == block + gap
    requires block != [] && block[0] == '[' && NotSpace(block[|block| - 1])
    requires |Heading(section)| <= |block| && block[..|Heading(section)|] == Heading(section)
    requires forall j :: 1 <= j < |block| ==> block[j] != '['
    requires Items(Split(block, '\n')[1..]) == ts
    requires FindFrom(Lower(pre + Heading(section)), Heading(section), 0) == Some(|pre|)
    requires forall i :: 0 <= i < |gap| ==> IsSpace(gap[i])
    requires section != "region" ==> tail != [] && tail[0] == '['
    requires section == "region" ==> tail == []
    ensures ExtractProfileSection(pre + (body + tail), section) == ts
  {
    BlockBody(section, block, gap, body);
    BodyItems(pre, section, body, tail);
  }

  /** A body that opens with the heading and holds no other '[' parses to the items of its stripped text. */
  lemma BodyItems(pre: string, section: string, body: string, tail: string)
    requires |Heading(section)| <= |body| && body[..|Heading(section)|] == Heading(section)
    requires FindFrom(Lower(pre + Heading(section)), Heading(section), 0) == Some(|pre|)
    requires forall j :: 1 <= j < |body| ==> body[j] != '['
    requires section != "region" ==> tail != [] && tail[0] == '['
    requires section == "region" ==> tail == []
    ensures ExtractProfileSection(pre + (body + tail), section) == Items(Split(Strip(body), '\n')[1..])
  {
    BodyLocated(pre, section, body, tail);
    ExtractAt(pre + (body + tail), section, |pre|, |pre| + |body|, body);
  }

  /** The heading that opens the body is the one found, and its section is exactly the body. */
  lemma BodyLocated(pre: string, section: string, body: string, tail: string)
    requires |Heading(section)| <= |body| && body[..|Heading(section)|] == Heading(section)
    requires FindFrom(Lower(pre + Heading(section)), Heading(section), 0) == Some(|pre|)
    requires forall j :: 1 <= j < |body| ==> body[j] != '['
    requires section != "region" ==> tail != [] && tail[0] == '['
    requires section == "region" ==> tail == []
    ensures FindFrom(Lower(pre + (body + tail)), Heading(section), 0) == Some(|pre|)
    ensures SectionEnd(pre + (body + tail), section, |pre|) == |pre| + |body|
    ensures |pre| < |pre + (body + tail)|
    ensures Slice(pre + (body + tail), |pre|, |pre| + |body|) == body
  {
    BodyFound(pre, section, body, tail);
    BodyEnd(pre, section, body, tail);
    SliceMiddle(pre, body, tail);
  }

  /** A section block followed by whitespace holds no '[' past its first character. */
  lemma BodyBrackets(block: string, gap: string)
    requires block != [] && forall j :: 1 <= j < |block| ==> block[j] != '['
    requires forall i :: 0 <= i < |gap| ==> IsSpace(gap[i])
    ensures forall j :: 1 <= j < |block + gap| ==> (block + gap)[j] != '['
  {
    forall j | 1 <= j < |block + gap|
      ensures (block + gap)[j] != '['
    {
      if j >= |block| {
        assert (block + gap)[j] == gap[j - |block|];
      }
    }
  }

  /**
   * The section parser on a reply made of a preamble, a section block with whitespace after it,
   * and a tail: the block's list lines give the items.
   */
  /** A block followed by spaces keeps the block's heading, holds no further '[' and strips to the block. */
  lemma BlockBody(section: string, block: string, gap: string, body: string)
    requires body == block + gap
    requires block != [] && NotSpace(block[0]) && NotSpace(block[|block| - 1])
    requires |Heading(section)| <= |block| && block[..|Heading(section)|] == Heading(section)
    requires forall j :: 1 <= j < |block| ==> block[j] != '['
    requires forall i :: 0 <= i < |gap| ==> IsSpace(gap[i])
    ensures |Heading(section)| <= |body| && body[..|Heading(section)|] == Heading(section)
    ensures forall j :: 1 <= j < |body| ==> body[j] != '['
    ensures Strip(body) == block
  {
    assert body[..|Heading(section)|] == block[..|Heading(section)|];
    BodyBrackets(block, gap);
    StripGap(block, gap);
  }

  /** Once the heading, the end of the section and its stripped text are known, its items follow. */
  lemma ExtractAt(profile: string, section: string, start: nat, e: nat, body: string)
    requires FindFrom(Lower(profile), Heading(section), 0) == Some(start)
    requires start < |profile| && SectionEnd(profile, section, start) == e
    requires Slice(profile, start, e) == body
    ensures ExtractProfileSection(profile, section) == Items(Split(Strip(body), '\n')[1..])
  {
  }

  /** find sees the heading that opens the body right after the preamble. */
  lemma BodyFound(pre: string, section: string, body: string, tail: string)
    requires |Heading(section)| <= |body| && body[..|Heading(section)|] == Heading(section)
    requires FindFrom(Lower(pre + Heading(section)), Heading(section), 0) == Some(|pre|)
    ensures FindFrom(Lower(pre + (body + tail)), Heading(section), 0) == Some(|pre|)
  {
    var pat := Heading(section);
    assert (body + tail)[..|pat|] == body[..|pat|];
    PrefixThrough(pre, pat, body + tail);
    FindLowerAfter(pre, pat, pre + (body + tail));
  }

  /** The section that the body opens ends where the body ends. */
  lemma BodyEnd(pre: string, section: string, body: string, tail: string)
    requires body != [] && forall j :: 1 <= j < |body| ==> body[j] != '['
    requires section != "region" ==> tail != [] && tail[0] == '['
    requires section == "region" ==> tail == []
    ensures SectionEnd(pre + (body + tail), section, |pre|) == |pre| + |body|
  {
    var profile := pre + (body + tail);
    var s := |pre|;
    if section != "region" {
      forall j | s + 1 <= j < s + |body|
        ensures profile[j] != '['
      {
        assert profile[j] == body[j - s];
      }
      assert profile[s + |body|] == tail[0];
      NextBracketAt(profile, s + 1, s + |body|);
    }
  }

  /** The two headings the prompt names. */
  lemma PromptSectionsPlain()
    ensures PlainSection("topics") && PlainSection("region")
  {
  }

  /**
   * The reply the prompt asks for: a "[topics]" list, a blank line, then a "[region]  " list and
   * a final newline.
   */
  function PromptReply(ts: seq<string>, rs: seq<string>): string
  {
    SectionBlock("topics", "", ts) + "\n\n" + SectionBlock("region", "  ", rs) + "\n"
  }

  /** In a reply in the prompt's format, find sees "[region]" first at its own heading. */
  lemma RegionHeadingFound(ts: seq<string>)
    requires |ts| >= 1 && forall i :: 0 <= i < |ts| ==> PlainItem(ts[i])
    ensures var pre := SectionBlock("topics", "", ts) + "\n\n";
      FindFrom(Lower(pre + Heading("region")), Heading("region"), 0) == Some(|pre|)
  {
    assert Heading("region") == "[region]";
    var block := SectionBlock("topics", "", ts);
    var pre := block + "\n\n";
    var x := pre + "[region]";
    var low := Lower(x);
    PromptSectionsPlain();
    BlockBrackets("topics", "", ts);
    assert x[|pre|..] == "[region]";
    assert low[|pre|..] == "[region]";
    forall j | 0 <= j < |pre|
      ensures !OccursAt(low, "[region]", j)
    {
      if j == 0 {
        assert low[1] == LowerChar(x[1]) == 't';
        MismatchAt(low, "[region]", 0, 1);
      } else {
        if j < |block| {
          assert x[j] == block[j];
        } else {
          assert x[j] == '\n';
        }
        assert low[j] != '[';
        MismatchAt(low, "[region]", j, 0);
      }
    }
    FindFirstAt(low, "[region]", |pre|);
  }

  /** A reply in the prompt's format gives back its topics and its regions. */
  lemma PromptReplyParses(ts: seq<string>, rs: seq<string>)
    requires |ts| >= 1 && forall i :: 0 <= i < |ts| ==> PlainItem(ts[i])
    requires |rs| >= 1 && forall i :: 0 <= i < |rs| ==> PlainItem(rs[i])
    ensures ExtractProfileSection(PromptReply(ts, rs), "topics") == ts
    ensures ExtractProfileSection(PromptReply(ts, rs), "region") == rs
  {
    PromptTopics(ts, rs);
    PromptRegions(ts, rs);
  }

  /** The "[topics]" section opens the reply and ends at the "[region]" heading. */
  lemma PromptTopics(ts: seq<string>, rs: seq<string>)
    requires |ts| >= 1 && forall i :: 0 <= i < |ts| ==> PlainItem(ts[i])
    ensures ExtractProfileSection(PromptReply(ts, rs), "topics") == ts
  {
    PromptSectionsPlain();
    var regions := SectionBlock("region", "  ", rs);
    var rest := regions[1..] + "\n";
    assert PromptReply(ts, rs) == "" + FormattedReply("topics", "", ts, "\n\n", rest) by {
      assert regions == "[" + regions[1..];
    }
    assert "" + Heading("topics") == Heading("topics") == "[topics]";
    HeadingAtStart("[topics]", "topics");
    ExtractFormattedReply("", "topics", "", ts, "\n\n", rest);
  }

  /** The "[region]  " section follows the topics and runs to the end of the reply. */
  lemma PromptRegions(ts: seq<string>, rs: seq<string>)
    requires |ts| >= 1 && forall i :: 0 <= i < |ts| ==> PlainItem(ts[i])
    requires |rs| >= 1 && forall i :: 0 <= i < |rs| ==> PlainItem(rs[i])
    ensures ExtractProfileSection(PromptReply(ts, rs), "region") == rs
  {
    PromptSectionsPlain();
    var pre := SectionBlock("topics", "", ts) + "\n\n";
    assert PromptReply(ts, rs) == pre + FormattedReply("region", "  ", rs, "\n", "");
    RegionHeadingFound(ts);
    ExtractFormattedReply(pre, "region", "  ", rs, "\n", "");
  }

  /**
   * When no '[' follows a section other than "region", find returns -1 and the slice stops one
   * character short of the end: a reply whose last item is t followed by one more character c
   * yields t, without c.
   */
  lemma UnterminatedSectionDropsLastCharacter(section: string, ts: seq<string>, c: char)
    requires section != "region" && PlainSection(section)
    requires |ts| >= 1 && forall i :: 0 <= i < |ts| ==> PlainItem(ts[i])
    requires c != '['
    ensures ExtractProfileSection(SectionBlock(section, "", ts) + [c], section) == ts
  {
    var block := SectionBlock(section, "", ts);
    var profile := block + [c];
    assert profile[..|section| + 2] == "[" + section + "]";
    HeadingAtStart(profile, section);
    BlockBrackets(section, "", ts);
    forall j: nat | 1 <= j
      ensures !OccursAt(profile, "[", j)
    {
      OccursAtChar(profile, '[', j);
      if j < |block| {
        assert profile[j] == block[j];
      }
    }
    assert FindFrom(profile, "[", 1).None?;
    assert SectionEnd(profile, section, 0) == |block|;
    assert Slice(profile, 0, |block|) == block + "";
    StripGap(block, "");
    BlockLines(section, "", ts);
    ItemsBullets(ts);
  }
}
