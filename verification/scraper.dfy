/** The scraper: transcript extraction from a conference page, pairing of the
    dates and titles of a yearly index page into records, and collection of
    the records of a range of years.

    HTML parsing is abstracted away: a conference page is the already-parsed
    sequence of the direct children of its `<main>` element, and an index page
    is its `dt` texts and its `div.title` elements. Fetching a page is a
    parameter `string -> Option<...>` that yields `None` when the request fails
    or the response status is an error. */
module Scraper {
  import opened Wrappers
  import opened PyStr
  import opened Config

  /** A direct child of `<main>`. Anything that is not an element (text
      between elements, comments) is a `TextNode`; an element carries its
      class list (empty when it has no class attribute) and its text. */
  datatype Node =
    | TextNode(text: string)
    | Tag(classes: seq<string>, text: string)

  /** A `div.title` element of an index page: its text and the `href` of the
      link inside it (relative to the site root). */
  datatype TitleDiv = TitleDiv(text: string, href: string)

  /** The parts of a yearly index page the scraper reads: the texts of its
      `dt` elements and its `div.title` elements, each in page order. */
  datatype IndexPage = IndexPage(dates: seq<string>, titles: seq<TitleDiv>)

  /** One press conference: one row of the exported table. */
  datatype Record = Record(date: string, title: string, link: string, text: string)

  /** A failed request, naming the URL that was requested; or the error for
      an output path whose extension is neither csv nor json. */
  datatype Error = HttpError(url: string) | ValueError(message: string)

  type Fetch<T> = string -> Option<T>

  function Min(a: int, b: int): int {
    if a <= b then a else b
  }

  // ---------------------------------------------------------------------------
  // Transcript text (get_conference_text)
  // ---------------------------------------------------------------------------

  /** Some class of the element is one of the excluded classes. */
  predicate Excluded(classes: seq<string>) {
    exists i :: 0 <= i < |classes| && classes[i] in EXCLUDED_CLASSES
  }

  /** The child contributes a block: it is an element and none of its classes
      is excluded. */
  predicate Kept(n: Node) {
    n.Tag? && !Excluded(n.classes)
  }

  /** What one child adds to the blocks: its stripped text when kept. */
  function Contribution(n: Node): (blocks: seq<string>)
    ensures |blocks| <= 1
    ensures blocks != [] <==> Kept(n)
  {
    if Kept(n) then [Strip(n.text)] else []
  }

  /** The text blocks of `<main>`: the loop over the children appends each
      child's contribution in turn. */
  function Blocks(children: seq<Node>): (blocks: seq<string>)
    ensures |blocks| <= |children|
    decreases |children|
  {
    if |children| == 0 then []
    else Blocks(children[..|children| - 1]) + Contribution(children[|children| - 1])
  }

  /** The blocks joined by newlines: the text before trimming. It holds every
      block's characters and one newline between each two blocks. */
  function RawText(children: seq<Node>): (text: string)
    ensures Blocks(children) == [] ==> text == ""
    ensures Blocks(children) != [] ==>
              |text| == TotalLength(Blocks(children)) + |Blocks(children)| - 1
  {
    Join(Blocks(children), "\n")
  }

  /** The marker trim, for a start marker `start` and an end marker `end`:
      the text after the last split occurrence of `start` if there is one;
      otherwise the text before the first occurrence of `end` if there is one;
      otherwise the text unchanged. `TrimMarkersSpec` says what is kept. */
  function TrimMarkers(text: string, start: string, end: string): (r: string)
    requires UniqueHead(start) && |end| > 0
    ensures |r| <= |text|
  {
    if Contains(text, start) then AfterLastSplit(text, start)
    else if Contains(text, end) then BeforeFirstSplit(text, end)
    else text
  }

  /** With the start marker present, the trim keeps what follows its last
      occurrence; with only the end marker present, the proper prefix before
      its first occurrence; with neither, the whole text. */
  lemma TrimMarkersSpec(text: string, start: string, end: string)
    requires UniqueHead(start) && |end| > 0
    ensures var r := TrimMarkers(text, start, end);
      && (Contains(text, start) ==>
            && IsSuffix(start + r, text)
            && !Contains(r, start)
            && forall j :: |text| - |r| - |start| < j ==> !OccursAt(text, start, j))
      && (!Contains(text, start) && Contains(text, end) ==>
            && IsPrefix(r + end, text)
            && !Contains(r, end)
            && forall j :: 0 <= j < |r| ==> !OccursAt(text, end, j))
      && (!Contains(text, start) && !Contains(text, end) ==> r == text)
  {
  }

  /** `text.split(sep)[-1]` when `sep` occurs: what follows the last
      occurrence of `sep`. */
  function AfterLastSplit(text: string, sep: string): (r: string)
    requires UniqueHead(sep) && Contains(text, sep)
    ensures IsSuffix(sep + r, text)
    ensures !Contains(r, sep)
    ensures forall j :: |text| - |r| - |sep| < j ==> !OccursAt(text, sep, j)
  {
    var pieces := Split(text, sep);
    SplitLast(text, sep);
    SplitLastIsAfterLastOccurrence(text, sep);
    pieces[|pieces| - 1]
  }

  /** `text.split(sep)[0]` when `sep` occurs: what precedes the first
      occurrence of `sep`. */
  function BeforeFirstSplit(text: string, sep: string): (r: string)
    requires |sep| > 0 && Contains(text, sep)
    ensures IsPrefix(r + sep, text)
    ensures !Contains(r, sep)
    ensures forall j :: 0 <= j < |r| ==> !OccursAt(text, sep, j)
  {
    SplitFirst(text, sep);
    Split(text, sep)[0]
  }

  /** The trim with the configured markers; `TrimSpec` says what it keeps. */
  function Trim(text: string): (r: string)
    ensures |r| <= |text|
  {
    MarkersWellFormed();
    TrimMarkers(text, START_TAG, END_TAG)
  }

  /** `get_conference_text` once the page is parsed: trim the joined blocks. */
  function ConferenceText(children: seq<Node>): (r: string)
    ensures Blocks(children) == [] ==> r == ""
    ensures |r| <= |RawText(children)|
  {
    Trim(RawText(children))
  }

  /** `get_conference_text(link)`: fetch the page, then extract its text. */
  function GetConferenceText(link: string, fetchMain: Fetch<seq<Node>>): (r: Result<string, Error>)
    ensures r.Failure? <==> fetchMain(link).None?
    ensures r.Failure? ==> r.error == HttpError(link)
  {
    match fetchMain(link)
    case None => Failure(HttpError(link))
    case Some(children) => Success(ConferenceText(children))
  }

  // ---------------------------------------------------------------------------
  // Records of one year (get_year_conferences)
  // ---------------------------------------------------------------------------

  /** The absolute link of a title: the site root followed by the `href`. */
  function Link(div: TitleDiv): (link: string)
    ensures IsPrefix(ROOT_URL, link) && link[|ROOT_URL|..] == div.href
  {
    ROOT_URL + div.href
  }

  /** The loop over `zip(dates, titles)`: one record per pair, in page order,
      stopping at the shorter list; the first failing transcript fetch ends it. */
  function PairRecords(dates: seq<string>, titles: seq<TitleDiv>, fetchMain: Fetch<seq<Node>>)
    : (r: Result<seq<Record>, Error>)
    ensures r.Success? ==> |r.value| == Min(|dates|, |titles|)
    decreases |dates|
  {
    if |dates| == 0 || |titles| == 0 then Success([])
    else
      var link := Link(titles[0]);
      var text :- GetConferenceText(link, fetchMain);
      var rest :- PairRecords(dates[1..], titles[1..], fetchMain);
      Success([Record(Strip(dates[0]), Strip(titles[0].text), link, text)] + rest)
  }

  /** `get_year_conferences(year)`: fetch the year's index page, then pair it. */
  function GetYearConferences(year: int, fetchIndex: Fetch<IndexPage>, fetchMain: Fetch<seq<Node>>)
    : (r: Result<seq<Record>, Error>)
    ensures fetchIndex(IndexUrlYear(year)).None? ==> r == Failure(HttpError(IndexUrlYear(year)))
  {
    var url := IndexUrlYear(year);
    match fetchIndex(url)
    case None => Failure(HttpError(url))
    case Some(page) => PairRecords(page.dates, page.titles, fetchMain)
  }

  // ---------------------------------------------------------------------------
  // Records of a range of years (get_all_conferences)
  // ---------------------------------------------------------------------------

  /** The loop over `range(start, end + 1)`: each year's records appended in
      ascending year order; the first failing year ends it. */
  function CollectYears(start: int, end: int, perYear: int -> Result<seq<Record>, Error>)
    : (r: Result<seq<Record>, Error>)
    ensures start > end ==> r == Success([])
    decreases end - start
  {
    if start > end then Success([])
    else
      var prev :- CollectYears(start, end - 1, perYear);
      var recs :- perYear(end);
      Success(prev + recs)
  }

  /** `get_all_conferences(start_year, end_year)`: `None` for an argument
      that was not passed. The start year then defaults to `MIN_YEAR`; the
      end year defaults to the current year, which is a parameter. */
  function GetAllConferences(startYear: Option<int>, endYear: Option<int>, currentYear: int,
                             fetchIndex: Fetch<IndexPage>, fetchMain: Fetch<seq<Node>>)
    : (r: Result<seq<Record>, Error>)
    ensures startYear.GetOr(MIN_YEAR) > endYear.GetOr(currentYear) ==> r == Success([])
  {
    CollectYears(startYear.GetOr(MIN_YEAR), endYear.GetOr(currentYear),
                 year => GetYearConferences(year, fetchIndex, fetchMain))
  }
}

/** What the scraper's functions promise: how each child of `<main>` feeds the
    transcript, how index entries pair into records, and how the years of a
    range are put together. */
module ScraperProofs {
  import opened Wrappers
  import opened PyStr
  import opened Config
  import opened Scraper

  // ---------------------------------------------------------------------------
  // Children of <main>
  // ---------------------------------------------------------------------------

  /** The blocks of consecutive runs of children are the concatenation of the
      runs' blocks: each child is looked at on its own, in order. */
  lemma {:induction false} BlocksAppend(a: seq<Node>, b: seq<Node>)
    ensures Blocks(a + b) == Blocks(a) + Blocks(b)
    decreases |b|
  {
    if |b| == 0 {
      assert a + b == a;
    } else {
      var b', n := b[..|b| - 1], b[|b| - 1];
      calc {
        Blocks(a + b);
        { assert a + b == (a + b') + [n]; }
        Blocks((a + b') + [n]);
        { BlocksSnoc(a + b', n); }
        Blocks(a + b') + Contribution(n);
        { BlocksAppend(a, b'); }
        (Blocks(a) + Blocks(b')) + Contribution(n);
        Blocks(a) + (Blocks(b') + Contribution(n));
        { BlocksSnoc(b', n); assert b' + [n] == b; }
        Blocks(a) + Blocks(b);
      }
    }
  }

  /** Appending one child appends its contribution. */
  lemma BlocksSnoc(c: seq<Node>, n: Node)
    ensures Blocks(c + [n]) == Blocks(c) + Contribution(n)
  {
    assert (c + [n])[..|c|] == c;
  }

  /** A single child yields its stripped text when kept, nothing otherwise. */
  lemma BlocksSingle(n: Node)
    ensures Blocks([n]) == if Kept(n) then [Strip(n.text)] else []
  {
    BlocksSnoc([], n);
    assert [] + [n] == [n];
  }

  /** Inserting a child anywhere adds exactly its own contribution at that
      place and changes nothing else. */
  lemma BlocksInsert(a: seq<Node>, n: Node, b: seq<Node>)
    ensures Blocks(a + [n] + b) == Blocks(a) + Blocks([n]) + Blocks(b)
  {
    BlocksAppend(a, [n]);
    BlocksAppend(a + [n], b);
  }

  /** Pages with the same blocks have the same transcript. */
  lemma SameBlocksSameText(x: seq<Node>, y: seq<Node>)
    requires Blocks(x) == Blocks(y)
    ensures ConferenceText(x) == ConferenceText(y)
  {
    assert RawText(x) == RawText(y);
  }

  /** A child that is not kept leaves the blocks and the transcript as they
      would be without it. */
  lemma DroppedChildContributesNothing(a: seq<Node>, n: Node, b: seq<Node>)
    requires !Kept(n)
    ensures Blocks(a + [n] + b) == Blocks(a + b)
    ensures ConferenceText(a + [n] + b) == ConferenceText(a + b)
  {
    DroppedChildLeavesBlocks(a, n, b);
    SameBlocksSameText(a + [n] + b, a + b);
  }

  /** The blocks part of `DroppedChildContributesNothing`. */
  lemma DroppedChildLeavesBlocks(a: seq<Node>, n: Node, b: seq<Node>)
    requires !Kept(n)
    ensures Blocks(a + [n] + b) == Blocks(a + b)
  {
    BlocksSingle(n);
    EmptySingleLeavesBlocks(a, n, b);
  }

  /** A child whose own blocks are empty leaves the blocks around it as they
      are. */
  lemma EmptySingleLeavesBlocks(a: seq<Node>, n: Node, b: seq<Node>)
    requires Blocks([n]) == []
    ensures Blocks(a + [n] + b) == Blocks(a + b)
  {
    BlocksInsert(a, n, b);
    BlocksAppend(a, b);
    EmptyMiddle(Blocks(a + [n] + b), Blocks(a + b), Blocks(a), Blocks([n]), Blocks(b));
  }

  /** Dropping an empty middle part of a concatenation changes nothing. */
  lemma EmptyMiddle(whole: seq<string>, outer: seq<string>, x: seq<string>, m: seq<string>, y: seq<string>)
    requires whole == x + m + y && outer == x + y && m == []
    ensures whole == outer
  {
    assert x + m == x;
  }

  /** A child that is not an element (text, comment) never contributes. */
  lemma TextNodeContributesNothing(a: seq<Node>, t: string, b: seq<Node>)
    ensures Blocks(a + [TextNode(t)] + b) == Blocks(a + b)
    ensures ConferenceText(a + [TextNode(t)] + b) == ConferenceText(a + b)
  {
    DroppedChildContributesNothing(a, TextNode(t), b);
  }

  /** An element with an excluded class never contributes, wherever it sits. */
  lemma ExcludedTagContributesNothing(a: seq<Node>, classes: seq<string>, t: string, b: seq<Node>)
    requires Excluded(classes)
    ensures Blocks(a + [Tag(classes, t)] + b) == Blocks(a + b)
    ensures ConferenceText(a + [Tag(classes, t)] + b) == ConferenceText(a + b)
  {
    DroppedChildContributesNothing(a, Tag(classes, t), b);
  }

  /** An element without excluded classes contributes exactly its stripped
      text, between the blocks of the children before and after it. */
  lemma KeptTagContributesItsText(a: seq<Node>, classes: seq<string>, t: string, b: seq<Node>)
    requires !Excluded(classes)
    ensures Blocks(a + [Tag(classes, t)] + b) == Blocks(a) + [Strip(t)] + Blocks(b)
  {
    BlocksInsert(a, Tag(classes, t), b);
    BlocksSingle(Tag(classes, t));
  }

  /** Every block is the stripped text of a kept child. */
  lemma {:induction false} BlockOrigin(children: seq<Node>, k: int)
    requires 0 <= k < |Blocks(children)|
    ensures exists j :: 0 <= j < |children| && Kept(children[j]) && Blocks(children)[k] == Strip(children[j].text)
    decreases |children|
  {
    var init := children[..|children| - 1];
    var last := children[|children| - 1];
    if k < |Blocks(init)| {
      BlockOrigin(init, k);
      var j :| 0 <= j < |init| && Kept(init[j]) && Blocks(init)[k] == Strip(init[j].text);
      assert init[j] == children[j];
    } else {
      assert Kept(last) && Blocks(children)[k] == Strip(last.text);
    }
  }

  /** With no kept child at all there is no block, and the transcript is empty. */
  lemma NoKeptChildNoText(children: seq<Node>)
    requires forall j :: 0 <= j < |children| ==> !Kept(children[j])
    ensures Blocks(children) == []
    ensures RawText(children) == ""
    ensures ConferenceText(children) == ""
  {
    if Blocks(children) != [] {
      BlockOrigin(children, 0);
      assert false;
    }
  }

  /** The configured trim: with the start marker present, what follows its
      last occurrence; else, with the end marker present, what precedes its
      first occurrence; else the whole text. */
  lemma TrimSpec(text: string)
    ensures var r := Trim(text);
      && (Contains(text, START_TAG) ==>
            && IsSuffix(START_TAG + r, text)
            && !Contains(r, START_TAG)
            && forall j :: |text| - |r| - |START_TAG| < j ==> !OccursAt(text, START_TAG, j))
      && (!Contains(text, START_TAG) && Contains(text, END_TAG) ==>
            && IsPrefix(r + END_TAG, text)
            && !Contains(r, END_TAG)
            && forall j :: 0 <= j < |r| ==> !OccursAt(text, END_TAG, j))
      && (!Contains(text, START_TAG) && !Contains(text, END_TAG) ==> r == text)
  {
    MarkersWellFormed();
    TrimMarkersSpec(text, START_TAG, END_TAG);
  }

  /** The transcript is the configured trim of the newline-joined blocks: with
      the start marker present it is what follows the marker's last
      occurrence, even when the end marker is present too. */
  lemma ConferenceTextTrims(children: seq<Node>)
    ensures var raw := Join(Blocks(children), "\n"); var r := ConferenceText(children);
      && (Contains(raw, START_TAG) ==> IsSuffix(START_TAG + r, raw) && !Contains(r, START_TAG))
      && (!Contains(raw, START_TAG) && Contains(raw, END_TAG) ==>
            IsPrefix(r + END_TAG, raw) && |r| < |raw| && !Contains(r, END_TAG))
      && (!Contains(raw, START_TAG) && !Contains(raw, END_TAG) ==> r == raw)
  {
    MarkersWellFormed();
    TrimSpec(RawText(children));
  }

  // ---------------------------------------------------------------------------
  // Index pairing
  // ---------------------------------------------------------------------------

  /** The transcript fetches of the first `n` titles all succeed. */
  predicate FetchedUpTo(titles: seq<TitleDiv>, fetchMain: Fetch<seq<Node>>, n: int)
    requires n <= |titles|
  {
    forall k :: 0 <= k < n ==> fetchMain(Link(titles[k])).Some?
  }

  /** The `k`-th record pairs the `k`-th date with the `k`-th title, and its
      text is what the page at its own link yields. */
  predicate PairedAt(dates: seq<string>, titles: seq<TitleDiv>, fetchMain: Fetch<seq<Node>>,
                     recs: seq<Record>, k: int)
    requires 0 <= k < |dates| && 0 <= k < |titles| && k < |recs|
  {
    && recs[k].date == Strip(dates[k])
    && recs[k].title == Strip(titles[k].text)
    && recs[k].link == ROOT_URL + titles[k].href
    && GetConferenceText(recs[k].link, fetchMain) == Success(recs[k].text)
  }

  /** One step of the pairing loop: the record of the first pair goes in
      front of the records of the remaining pairs. */
  lemma PairRecordsStep(dates: seq<string>, titles: seq<TitleDiv>, fetchMain: Fetch<seq<Node>>)
    requires |dates| > 0 && |titles| > 0
    ensures var link := Link(titles[0]);
            var r, r' := PairRecords(dates, titles, fetchMain), PairRecords(dates[1..], titles[1..], fetchMain);
      && (fetchMain(link).None? ==> r == Failure(HttpError(link)))
      && (fetchMain(link).Some? && r'.Failure? ==> r == Failure(r'.error))
      && (fetchMain(link).Some? && r'.Success? ==>
            r == Success([Record(Strip(dates[0]), Strip(titles[0].text), link,
                                 ConferenceText(fetchMain(link).value))] + r'.value))
  {
  }

  /** Pairing succeeds exactly when the transcript fetches of the first
      `min(#dates, #titles)` titles all succeed. */
  lemma {:induction false} PairRecordsSucceeds(dates: seq<string>, titles: seq<TitleDiv>, fetchMain: Fetch<seq<Node>>)
    ensures PairRecords(dates, titles, fetchMain).Success? <==> FetchedUpTo(titles, fetchMain, Min(|dates|, |titles|))
    decreases |dates|
  {
    if |dates| > 0 && |titles| > 0 {
      PairRecordsStep(dates, titles, fetchMain);
      PairRecordsSucceeds(dates[1..], titles[1..], fetchMain);
      ShiftFetched(titles, fetchMain, Min(|dates|, |titles|));
    }
  }

  /** A successful pairing yields one record per pair, the `k`-th record
      built from the `k`-th date and the `k`-th title. */
  lemma {:induction false} PairRecordsSuccess(dates: seq<string>, titles: seq<TitleDiv>, fetchMain: Fetch<seq<Node>>)
    ensures var r := PairRecords(dates, titles, fetchMain); var n := Min(|dates|, |titles|);
      && (r.Success? <==> FetchedUpTo(titles, fetchMain, n))
      && (r.Success? ==> |r.value| == n && forall k :: 0 <= k < n ==> PairedAt(dates, titles, fetchMain, r.value, k))
    decreases |dates|
  {
    PairRecordsSucceeds(dates, titles, fetchMain);
    var r := PairRecords(dates, titles, fetchMain);
    if |dates| > 0 && |titles| > 0 && r.Success? {
      var n := Min(|dates|, |titles|);
      var dates', titles' := dates[1..], titles[1..];
      PairRecordsStep(dates, titles, fetchMain);
      PairRecordsSuccess(dates', titles', fetchMain);
      var recs' := PairRecords(dates', titles', fetchMain).value;
      forall k | 0 <= k < n
        ensures PairedAt(dates, titles, fetchMain, r.value, k)
      {
        if k > 0 {
          PairedShift(dates, titles, fetchMain, r.value[0], recs', k);
        }
      }
    }
  }

  /** The pairing of the remaining pairs, shifted by one, is the pairing of
      the whole from the second pair on. */
  lemma PairedShift(dates: seq<string>, titles: seq<TitleDiv>, fetchMain: Fetch<seq<Node>>,
                    rec: Record, recs': seq<Record>, k: int)
    requires 0 < k < |dates| && k < |titles| && k - 1 < |recs'|
    requires PairedAt(dates[1..], titles[1..], fetchMain, recs', k - 1)
    ensures PairedAt(dates, titles, fetchMain, [rec] + recs', k)
  {
    assert dates[1..][k - 1] == dates[k] && titles[1..][k - 1] == titles[k];
    assert ([rec] + recs')[k] == recs'[k - 1];
  }

  /** The first `n` titles are fetched when the first is and the `n - 1`
      after it are. */
  lemma ShiftFetched(titles: seq<TitleDiv>, fetchMain: Fetch<seq<Node>>, n: int)
    requires 0 < n <= |titles|
    ensures FetchedUpTo(titles, fetchMain, n) <==>
              fetchMain(Link(titles[0])).Some? && FetchedUpTo(titles[1..], fetchMain, n - 1)
  {
    assert forall k :: 0 <= k < n - 1 ==> titles[1..][k] == titles[k + 1];
    if fetchMain(Link(titles[0])).Some? && FetchedUpTo(titles[1..], fetchMain, n - 1) {
      forall k | 0 <= k < n
        ensures fetchMain(Link(titles[k])).Some?
      {
        if k > 0 {
          assert titles[1..][k - 1] == titles[k];
        }
      }
    }
  }

  /** A failed pairing fails with the link of the first title whose
      transcript fetch fails. */
  lemma {:induction false} PairRecordsFailure(dates: seq<string>, titles: seq<TitleDiv>, fetchMain: Fetch<seq<Node>>)
    ensures var r := PairRecords(dates, titles, fetchMain); var n := Min(|dates|, |titles|);
      r.Failure? ==> exists k :: 0 <= k < n && FetchedUpTo(titles, fetchMain, k)
                                && fetchMain(Link(titles[k])).None?
                                && r.error == HttpError(Link(titles[k]))
    decreases |dates|
  {
    var r := PairRecords(dates, titles, fetchMain);
    var n := Min(|dates|, |titles|);
    if r.Failure? {
      var link := Link(titles[0]);
      if fetchMain(link).None? {
        assert FetchedUpTo(titles, fetchMain, 0);
      } else {
        var dates', titles' := dates[1..], titles[1..];
        PairRecordsFailure(dates', titles', fetchMain);
        var r' := PairRecords(dates', titles', fetchMain);
        var k' :| 0 <= k' < n - 1 && FetchedUpTo(titles', fetchMain, k')
                  && fetchMain(Link(titles'[k'])).None? && r'.error == HttpError(Link(titles'[k']));
        assert titles'[k'] == titles[k' + 1];
        ShiftFetched(titles, fetchMain, k' + 1);
      }
    }
  }

  /** A year's records: a failed index fetch fails with the index URL;
      otherwise the index entries are paired as `PairRecordsSuccess` states, and
      every record's link lies under the site root. */
  lemma GetYearConferencesSpec(year: int, fetchIndex: Fetch<IndexPage>, fetchMain: Fetch<seq<Node>>)
    ensures var r := GetYearConferences(year, fetchIndex, fetchMain);
      && (fetchIndex(IndexUrlYear(year)).None? ==> r == Failure(HttpError(IndexUrlYear(year))))
      && (fetchIndex(IndexUrlYear(year)).Some? ==>
            var page := fetchIndex(IndexUrlYear(year)).value;
            r == PairRecords(page.dates, page.titles, fetchMain))
      && (r.Success? ==> forall k :: 0 <= k < |r.value| ==> IsPrefix(ROOT_URL, r.value[k].link))
  {
    var r := GetYearConferences(year, fetchIndex, fetchMain);
    if fetchIndex(IndexUrlYear(year)).Some? {
      var page := fetchIndex(IndexUrlYear(year)).value;
      PairRecordsSuccess(page.dates, page.titles, fetchMain);
      if r.Success? {
        forall k | 0 <= k < |r.value|
          ensures IsPrefix(ROOT_URL, r.value[k].link)
        {
          assert PairedAt(page.dates, page.titles, fetchMain, r.value, k);
          assert r.value[k].link[..|ROOT_URL|] == ROOT_URL;
        }
      }
    }
  }

  /** A year fails only with an HTTP error: its index fetch or one of its
      transcript fetches failed. */
  lemma YearErrorsAreHttp(year: int, fetchIndex: Fetch<IndexPage>, fetchMain: Fetch<seq<Node>>)
    ensures var r := GetYearConferences(year, fetchIndex, fetchMain);
      r.Failure? ==> r.error.HttpError?
  {
    if fetchIndex(IndexUrlYear(year)).Some? {
      var page := fetchIndex(IndexUrlYear(year)).value;
      PairRecordsFailure(page.dates, page.titles, fetchMain);
    }
  }

  // ---------------------------------------------------------------------------
  // Year ranges
  // ---------------------------------------------------------------------------

  /** The concatenation of a sequence of record sequences, first to last. */
  function Concat(ss: seq<seq<Record>>): seq<Record>
    decreases |ss|
  {
    if |ss| == 0 then [] else ss[0] + Concat(ss[1..])
  }

  function SumLengths(ss: seq<seq<Record>>): nat
    decreases |ss|
  {
    if |ss| == 0 then 0 else |ss[0]| + SumLengths(ss[1..])
  }

  /** The per-year record sequences for `start..end`, ascending. */
  function YearSeqs(start: int, end: int, perYear: int -> Result<seq<Record>, Error>): (ss: seq<seq<Record>>)
    ensures |ss| == if start > end then 0 else end - start + 1
  {
    if start > end then [] else seq(end - start + 1, i => perYear(start + i).GetOr([]))
  }

  lemma {:induction false} ConcatLength(ss: seq<seq<Record>>)
    ensures |Concat(ss)| == SumLengths(ss)
    decreases |ss|
  {
    if |ss| > 0 {
      ConcatLength(ss[1..]);
    }
  }

  lemma {:induction false} ConcatSnoc(ss: seq<seq<Record>>, x: seq<Record>)
    ensures Concat(ss + [x]) == Concat(ss) + x
    decreases |ss|
  {
    if |ss| == 0 {
      assert Concat([x]) == x + Concat([]);
    } else {
      assert (ss + [x])[1..] == ss[1..] + [x];
      ConcatSnoc(ss[1..], x);
    }
  }

  /** All years of `start..end` fetched successfully. */
  predicate AllYearsOk(start: int, end: int, perYear: int -> Result<seq<Record>, Error>) {
    forall y :: start <= y <= end ==> perYear(y).Success?
  }

  /** Collecting a year range succeeds exactly when every year of
      `start..end` succeeds, and then yields the per-year records concatenated
      in ascending year order, as many as the years have together (none when
      `start > end`); otherwise it fails with the error of the earliest
      failing year. */
  lemma {:induction false} CollectYearsSpec(start: int, end: int, perYear: int -> Result<seq<Record>, Error>)
    ensures var r := CollectYears(start, end, perYear);
      && (r.Success? <==> AllYearsOk(start, end, perYear))
      && (r.Success? ==> r.value == Concat(YearSeqs(start, end, perYear)))
      && (r.Success? ==> |r.value| == SumLengths(YearSeqs(start, end, perYear)))
      && (r.Failure? ==> exists y :: start <= y <= end && AllYearsOk(start, y - 1, perYear)
                                     && perYear(y) == Failure(r.error))
    decreases end - start
  {
    var r := CollectYears(start, end, perYear);
    if start <= end {
      CollectYearsSpec(start, end - 1, perYear);
      var prev := CollectYears(start, end - 1, perYear);
      var ss := YearSeqs(start, end, perYear);
      var ss' := YearSeqs(start, end - 1, perYear);
      if prev.Success? && perYear(end).Success? {
        assert forall i :: 0 <= i < |ss'| ==> ss[i] == ss'[i];
        assert start + |ss'| == end;
        assert ss[|ss'|] == perYear(start + |ss'|).GetOr([]) == perYear(end).value;
        assert ss == ss' + [perYear(end).value];
        ConcatSnoc(ss', perYear(end).value);
      } else if prev.Success? {
        assert AllYearsOk(start, end - 1, perYear);
      }
      if r.Success? {
        ConcatLength(ss);
      }
    }
  }

  /** `get_all_conferences` with an argument left out is the call with its
      default passed: `MIN_YEAR` for the start year, the current year for the
      end year. */
  lemma GetAllConferencesDefaults(startYear: Option<int>, endYear: Option<int>, currentYear: int,
                                  fetchIndex: Fetch<IndexPage>, fetchMain: Fetch<seq<Node>>)
    ensures GetAllConferences(None, endYear, currentYear, fetchIndex, fetchMain)
            == GetAllConferences(Some(MIN_YEAR), endYear, currentYear, fetchIndex, fetchMain)
    ensures GetAllConferences(startYear, None, currentYear, fetchIndex, fetchMain)
            == GetAllConferences(startYear, Some(currentYear), currentYear, fetchIndex, fetchMain)
  {
  }

  /** Collecting fails only with an HTTP error: the run of years stops at a
      failed request, never at anything else. */
  lemma AllConferencesErrorsAreHttp(startYear: Option<int>, endYear: Option<int>, currentYear: int,
                                    fetchIndex: Fetch<IndexPage>, fetchMain: Fetch<seq<Node>>)
    ensures var r := GetAllConferences(startYear, endYear, currentYear, fetchIndex, fetchMain);
      r.Failure? ==> r.error.HttpError?
  {
    var start, end := startYear.GetOr(MIN_YEAR), endYear.GetOr(currentYear);
    var perYear := year => GetYearConferences(year, fetchIndex, fetchMain);
    CollectYearsSpec(start, end, perYear);
    var r := CollectYears(start, end, perYear);
    if r.Failure? {
      var y :| start <= y <= end && AllYearsOk(start, y - 1, perYear) && perYear(y) == Failure(r.error);
      YearErrorsAreHttp(y, fetchIndex, fetchMain);
    }
  }
}
