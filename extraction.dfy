/**
 * The detail-page half of the scraper: `safe_get_text`, the pieces of
 * `get_goodreads_book_data` that turn the texts of one book page into a record,
 * and its all-or-nothing error contract (any exception gives the empty record).
 *
 * The browser is replaced by data: a `DetailPage` lists, for every selector the
 * scraper uses, the matching elements in document order, as they stand once
 * the page is loaded, scrolled and its genre list expanded.
 */
module Extraction {
  import opened Wrappers
  import opened Text

  /** The `attr` value that makes `safe_get_text` read visible text rather than an attribute. */
  const TextAttr: string := "text"

  /** What the ratings count is read in front of. */
  const RatingsWord: string := "ratings"

  /** What a paragraph must mention to give the page count. */
  const PagesWord: string := "pages"

  /** What the author names are joined with. */
  const AuthorSeparator: string := ", "

  /** One element found on a page: its visible text and its attributes. */
  datatype Element = Element(text: string, attributes: map<string, string>)

  /** The exceptions the record assembly can run into. */
  datatype Failure =
    | Timeout          // a WebDriverWait ran out
    | NoSuchElement    // find_element matched nothing
    | ValueError       // float() or int() refused its text
    | IndexError       // text.split()[0] on a text without a token
    | NavigationFailed // driver.get raised

  /**
   * A book's detail page. `loads` says that `driver.get` succeeded and
   * `readyInTime` that the page reported readyState "complete" within the wait
   * after the scroll; the wait for the title succeeds when a title element
   * exists. Each other field lists the elements one selector matches.
   */
  datatype DetailPage = DetailPage(
    loads: bool,
    readyInTime: bool,
    titles: seq<Element>,
    genres: seq<Element>,
    authors: seq<Element>,
    ratings: seq<Element>,
    ratingMetas: seq<Element>,
    paragraphs: seq<Element>)

  /** The record of one book. */
  datatype BookInfo = BookInfo(
    title: string,
    author: string,
    rating: real,
    genres: seq<string>,
    pages: Option<nat>,
    ratingsCount: nat)

  // ---------------------------------------------------------------------------
  // safe_get_text
  // ---------------------------------------------------------------------------

  /** `el.get_attribute(name)`: `None` when the element has no such attribute. */
  function GetAttribute(el: Element, name: string): Option<string> {
    if name in el.attributes then Some(el.attributes[name]) else None
  }

  /** What `safe_get_text` reads from one element: its stripped text, or the attribute as is. */
  function ReadElement(el: Element, attr: string): Option<string> {
    if attr == TextAttr then Some(Strip(el.text)) else GetAttribute(el, attr)
  }

  /** Python truthiness of an optional string: present and not empty. */
  predicate Truthy(v: Option<string>) {
    v.Some? && v.value != []
  }

  /**
   * `safe_get_text(..., multiple=True)`: the readings of the elements that are
   * truthy, in element order. Texts come out stripped and never empty.
   */
  function SafeGetAll(elements: seq<Element>, attr: string): (r: seq<string>)
    ensures |r| <= |elements|
    ensures forall k | 0 <= k < |r| :: r[k] != []
    ensures attr == TextAttr ==> forall k | 0 <= k < |r| :: IsStripped(r[k])
  {
    if elements == [] then []
    else
      var v := ReadElement(elements[0], attr);
      var rest := SafeGetAll(elements[1..], attr);
      if Truthy(v) then [v.value] + rest else rest
  }

  /**
   * The filter keeps element order: the readings of a run of elements followed
   * by another are those of the first run, then those of the second.
   */
  lemma {:induction false} SafeGetAllAppend(a: seq<Element>, b: seq<Element>, attr: string)
    ensures SafeGetAll(a + b, attr) == SafeGetAll(a, attr) + SafeGetAll(b, attr)
    decreases |a|
  {
    if a == [] {
      assert a + b == b;
    } else {
      SafeGetAllAppend(a[1..], b, attr);
      assert (a + b)[1..] == a[1..] + b;
      assert (a + b)[0] == a[0];
    }
  }

  /** An element whose reading is falsy leaves no trace; a truthy one leaves exactly its reading. */
  lemma SafeGetAllOne(a: seq<Element>, el: Element, b: seq<Element>, attr: string)
    ensures SafeGetAll(a + [el] + b, attr) == SafeGetAll(a, attr) + Kept(el, attr) + SafeGetAll(b, attr)
  {
    SafeGetAllAppend(a + [el], b, attr);
    SafeGetAllAppend(a, [el], attr);
    assert [el][1..] == [];
    assert SafeGetAll([el], attr) == Kept(el, attr);
  }

  /** What one element contributes: its reading when truthy, nothing otherwise. */
  function Kept(el: Element, attr: string): seq<string> {
    var v := ReadElement(el, attr);
    if Truthy(v) then [v.value] else []
  }

  /**
   * `safe_get_text(..., multiple=False)`: the reading of the first matching
   * element; `find_element` raises when nothing matches.
   */
  function SafeGetOne(elements: seq<Element>, attr: string): (r: Result<Option<string>, Failure>)
    ensures r.Err? <==> elements == []
    ensures r.Err? ==> r.error == NoSuchElement
    ensures r.Ok? && attr == TextAttr ==> r.value.Some? && IsStripped(r.value.value)
  {
    if elements == [] then Err(NoSuchElement) else Ok(ReadElement(elements[0], attr))
  }

  /** When the first element reads truthy, the single reading is the first of the multiple ones. */
  lemma OneIsFirstOfAll(elements: seq<Element>, attr: string)
    requires elements != [] && Truthy(ReadElement(elements[0], attr))
    ensures SafeGetAll(elements, attr) != []
    ensures SafeGetOne(elements, attr) == Ok(Some(SafeGetAll(elements, attr)[0]))
  {
  }

  // ---------------------------------------------------------------------------
  // The ratings count
  // ---------------------------------------------------------------------------

  /** The text before the first "ratings", stripped, with its commas removed, read as an integer. */
  function RatingsCount(text: string): (r: Option<nat>)
    ensures r.Some? ==> Split(text, RatingsWord)[0] != []
  {
    ParseNat(RemoveChar(Strip(Split(text, RatingsWord)[0]), ','))
  }

  /**
   * A count written in comma-separated digit groups, then " ratings" and
   * anything else, reads as the value of all the digits together.
   */
  lemma RatingsCountGrouped(groups: seq<string>, rest: string)
    requires groups != []
    requires forall k | 0 <= k < |groups| :: IsDigits(groups[k])
    ensures RatingsCount(Join(",", groups) + " " + RatingsWord + rest) == ParseNat(Concat(groups))
    ensures ParseNat(Concat(groups)).Some?
  {
    assert forall k | 0 <= k < |groups| :: ',' !in groups[k] by {
      forall k | 0 <= k < |groups| ensures ',' !in groups[k] {
        assert forall i | 0 <= i < |groups[k]| :: IsDigit(groups[k][i]);
      }
    }
    JoinGroups(groups);
    RatingsCountBeforeWord(Join(",", groups), rest);
    RemoveCommaJoin(groups);
    ConcatDigits(groups);
  }

  /** Text free of `r` and stripped, then " ratings": the count is read from that text alone. */
  lemma RatingsCountBeforeWord(g: string, rest: string)
    requires IsStripped(g) && 'r' !in g
    ensures RatingsCount(g + " " + RatingsWord + rest) == ParseNat(RemoveChar(g, ','))
  {
    SplitFirstPiece(g + " ", RatingsWord, rest);
    StripTrailing(g, " ");
  }

  /** Comma-joined digit groups hold no `r`, start and end with a digit. */
  lemma {:induction false} JoinGroups(groups: seq<string>)
    requires groups != []
    requires forall k | 0 <= k < |groups| :: IsDigits(groups[k])
    ensures var g := Join(",", groups); 'r' !in g && g != [] && IsDigit(g[0]) && IsDigit(g[|g| - 1])
    ensures IsStripped(Join(",", groups))
    decreases |groups|
  {
    var g := Join(",", groups);
    assert IsDigit(groups[0][0]);
    if |groups| > 1 {
      JoinGroups(groups[1..]);
      var t := Join(",", groups[1..]);
      assert g == groups[0] + "," + t;
      assert g[|g| - 1] == t[|t| - 1];
      assert 'r' !in groups[0] by {
        assert forall i | 0 <= i < |groups[0]| :: IsDigit(groups[0][i]);
      }
    } else {
      assert forall i | 0 <= i < |g| :: IsDigit(g[i]);
    }
  }

  /** Digit groups run together are digits. */
  lemma {:induction false} ConcatDigits(groups: seq<string>)
    requires groups != []
    requires forall k | 0 <= k < |groups| :: IsDigits(groups[k])
    ensures IsDigits(Concat(groups))
    decreases |groups|
  {
    var last := groups[|groups| - 1];
    var init := groups[..|groups| - 1];
    if init != [] {
      ConcatDigits(init);
    } else {
      assert Concat(init) == [];
    }
    var c := Concat(groups);
    assert c == Concat(init) + last;
    assert forall i | 0 <= i < |c| :: IsDigit(c[i]) by {
      forall i | 0 <= i < |c| ensures IsDigit(c[i]) {
        if i < |Concat(init)| {
          assert c[i] == Concat(init)[i];
        } else {
          assert c[i] == last[i - |Concat(init)|];
        }
      }
    }
  }

  /** The ratings line as the site shows it: "12,345 ratings" gives 12345. */
  lemma RatingsCountExample()
    ensures RatingsCount("12,345 ratings") == Some(12345)
  {
    var groups := ["12", "345"];
    ExampleGroups(groups);
    RatingsCountGrouped(groups, "");
    ExampleText();
    ParseExample();
  }

  lemma ExampleGroups(groups: seq<string>)
    requires groups == ["12", "345"]
    ensures forall k | 0 <= k < |groups| :: IsDigits(groups[k])
    ensures Join(",", groups) == "12,345" && Concat(groups) == "12345"
  {
    ExampleDigits();
    ExampleJoin(groups);
    ExampleConcat(groups);
  }

  lemma ExampleJoin(groups: seq<string>)
    requires groups == ["12", "345"]
    ensures Join(",", groups) == "12,345"
  {
    assert groups[1..] == ["345"];
    assert Join(",", groups) == "12" + "," + "345";
  }

  lemma ExampleConcat(groups: seq<string>)
    requires groups == ["12", "345"]
    ensures Concat(groups) == "12345"
  {
    var first := groups[..1];
    assert first == ["12"] && first[..0] == [];
    assert Concat(first) == "12";
    assert Concat(groups) == Concat(first) + "345";
  }

  lemma ExampleDigits()
    ensures IsDigits("12") && IsDigits("345")
  {
  }

  lemma ExampleText()
    ensures "12,345" + " " + RatingsWord + "" == "12,345 ratings"
  {
  }

  lemma ParseExample()
    ensures ParseNat("12345") == Some(12345)
  {
    var s := "12345";
    assert s[..4] == "1234" && s[..4][..3] == "123" && s[..4][..3][..2] == "12";
    assert s[..4][..3][..2][..1] == "1" && s[..4][..3][..2][..1][..0] == "";
    assert DigitsValue("1") == 1;
    assert DigitsValue("12") == 12;
    assert DigitsValue("123") == 123;
    assert DigitsValue("1234") == 1234;
  }

  /** The singular "1 rating" holds no "ratings": the whole text reaches int() and is refused. */
  lemma SingleRatingRefused()
    ensures RatingsCount("1 rating") == None
  {
    var s := "1 rating";
    assert !OccursAt(s, RatingsWord, 0) by { assert s[0] != RatingsWord[0]; assert s[0..7][0] == s[0]; }
    assert !OccursAt(s, RatingsWord, 1) by { assert s[1] != RatingsWord[0]; assert s[1..8][0] == s[1]; }
    assert IndexOf(s, RatingsWord).None?;
    assert IsStripped(s);
    StripCore([], s, []);
    assert [] + s + [] == s;
    RemoveAbsent(s, ',');
    assert !IsDigit(s[1]);
  }

  // ---------------------------------------------------------------------------
  // The page count
  // ---------------------------------------------------------------------------

  /** The paragraph text the scan looks at: stripped, then lower-cased. */
  function ScanText(p: Element): string {
    Lower(Strip(p.text))
  }

  predicate MentionsPages(p: Element) {
    Contains(ScanText(p), PagesWord)
  }

  /** `int(text.split()[0])` on the text of the paragraph that mentions pages. */
  function PagesToken(text: string): (r: Result<Option<nat>, Failure>)
    ensures r != Ok(None)
  {
    match FirstToken(text)
    case None => Err(IndexError)
    case Some(token) =>
      match ParseNat(token)
      case None => Err(ValueError)
      case Some(n) => Ok(Some(n))
  }

  /** A run of digits followed by nothing or whitespace reads as the value of the digits. */
  lemma PagesOfDigits(d: string, rest: string)
    requires IsDigits(d) && (rest == [] || IsSpace(rest[0]))
    ensures PagesToken(d + rest) == Ok(Some(DigitsValue(d)))
  {
    FirstTokenOf(d, rest);
  }

  /** The usual paragraph: "352 pages" gives 352. */
  lemma Pages352()
    ensures PagesToken("352 pages") == Ok(Some(352))
  {
    var d := "352";
    assert IsDigits(d);
    PagesOfDigits(d, " pages");
    assert d + " pages" == "352 pages";
    assert d[..2] == "35" && "35"[..1] == "3" && "3"[..0] == [];
    assert DigitsValue(d) == 352;
  }

  /** A text that mentions pages has a first token, so reading it never meets an IndexError. */
  lemma MentionHasToken(text: string)
    requires Contains(text, PagesWord)
    ensures PagesToken(text) != Err(IndexError)
  {
    var j := IndexOf(text, PagesWord).value;
    assert text[j..j + 5][0] == text[j];
    assert !IsSpace(text[j]);
  }

  /**
   * The page count of a detail page: the first paragraph that mentions pages
   * decides it, and without one it is `None`.
   */
  function PageCount(paragraphs: seq<Element>): (r: Result<Option<nat>, Failure>)
    ensures r != Ok(None) ==> exists j | 0 <= j < |paragraphs| :: MentionsPages(paragraphs[j])
  {
    if paragraphs == [] then Ok(None)
    else if MentionsPages(paragraphs[0]) then PagesToken(ScanText(paragraphs[0]))
    else
      var r := PageCount(paragraphs[1..]);
      assert r != Ok(None) ==> exists j | 0 <= j < |paragraphs| :: MentionsPages(paragraphs[j]) by {
        if r != Ok(None) {
          var j :| 0 <= j < |paragraphs| - 1 && MentionsPages(paragraphs[1..][j]);
          assert paragraphs[1..][j] == paragraphs[j + 1];
        }
      }
      r
  }

  /** Only the first paragraph that mentions pages counts; whatever follows it is ignored. */
  lemma {:induction false} PageCountFirstMention(paragraphs: seq<Element>, i: nat)
    requires i < |paragraphs| && MentionsPages(paragraphs[i])
    requires forall j | 0 <= j < i :: !MentionsPages(paragraphs[j])
    ensures PageCount(paragraphs) == PagesToken(ScanText(paragraphs[i]))
    decreases i
  {
    if i > 0 {
      PageCountFirstMention(paragraphs[1..], i - 1);
    }
  }

  /** The page count is `None` exactly when no paragraph mentions pages. */
  lemma {:induction false} PageCountNone(paragraphs: seq<Element>)
    ensures PageCount(paragraphs) == Ok(None) <==> forall j | 0 <= j < |paragraphs| :: !MentionsPages(paragraphs[j])
    decreases |paragraphs|
  {
    if paragraphs != [] {
      var rest := paragraphs[1..];
      PageCountNone(rest);
      if MentionsPages(paragraphs[0]) {
        assert PageCount(paragraphs) != Ok(None);
      } else {
        assert PageCount(paragraphs) == PageCount(rest);
        assert forall j | 1 <= j < |paragraphs| :: paragraphs[j] == rest[j - 1];
      }
    }
  }

  /** One paragraph of the scan: the count is decided here or by the paragraphs after it. */
  lemma ScanStep(paragraphs: seq<Element>, i: nat)
    requires i < |paragraphs|
    ensures PageCount(paragraphs[i..]) ==
      if MentionsPages(paragraphs[i]) then PagesToken(ScanText(paragraphs[i])) else PageCount(paragraphs[i + 1..])
  {
    assert paragraphs[i..][0] == paragraphs[i];
    assert paragraphs[i..][1..] == paragraphs[i + 1..];
  }

  /** The paragraph loop: the first paragraph that mentions pages gives the count, then the scan stops. */
  method ScanPageCount(paragraphs: seq<Element>) returns (pages: Result<Option<nat>, Failure>)
    ensures pages == PageCount(paragraphs)
  {
    for i := 0 to |paragraphs|
      invariant PageCount(paragraphs[i..]) == PageCount(paragraphs)
    {
      var text := Lower(Strip(paragraphs[i].text));
      ScanStep(paragraphs, i);
      if Contains(text, PagesWord) {
        return PagesToken(text);
      }
    }
    assert paragraphs[|paragraphs|..] == [];
    return Ok(None);
  }

  // ---------------------------------------------------------------------------
  // The record
  // ---------------------------------------------------------------------------

  /** An optional value, or the given failure when it is absent. */
  function OrFail<T>(v: Option<T>, e: Failure): (r: Result<T, Failure>)
    ensures r.Ok? <==> v.Some?
  {
    match v
    case None => Err(e)
    case Some(x) => Ok(x)
  }

  /**
   * The try block of `get_goodreads_book_data`, step by step; the first
   * exception ends it. `parseFloat` is Python's `float()` on the rating text,
   * `None` where it raises.
   */
  function Extract(page: DetailPage, parseFloat: string -> Option<real>): (r: Result<BookInfo, Failure>)
    ensures r.Ok? ==> page.loads && page.readyInTime && page.titles != [] && page.ratings != [] && page.ratingMetas != []
  {
    if !page.loads then Err(NavigationFailed)
    else if page.titles == [] || !page.readyInTime then Err(Timeout)
    else
      var genres := SafeGetAll(page.genres, TextAttr);
      var title := Strip(page.titles[0].text);
      var authors := SafeGetAll(page.authors, TextAttr);
      var ratingText :- SafeGetOne(page.ratings, TextAttr);
      var rating :- OrFail(parseFloat(ratingText.value), ValueError);
      var metaText :- SafeGetOne(page.ratingMetas, TextAttr);
      var ratingsCount :- OrFail(RatingsCount(metaText.value), ValueError);
      var pages :- PageCount(page.paragraphs);
      Ok(BookInfo(title, Join(AuthorSeparator, authors), rating, genres, pages, ratingsCount))
  }

  /** The record returned: the book's fields, or the empty record `{}` (`None`) after any exception. */
  function Record(page: DetailPage, parseFloat: string -> Option<real>): (r: Option<BookInfo>)
    ensures r.Some? ==> page.loads && page.readyInTime && page.titles != []
    ensures !page.loads || !page.readyInTime || page.titles == [] || page.ratings == [] || page.ratingMetas == [] ==> r.None?
  {
    match Extract(page, parseFloat)
    case Ok(info) => Some(info)
    case Err(_) => None
  }

  /** Every way the record can fail. */
  predicate Fails(page: DetailPage, parseFloat: string -> Option<real>) {
    || !page.loads
    || page.titles == []
    || !page.readyInTime
    || page.ratings == []
    || parseFloat(Strip(page.ratings[0].text)).None?
    || page.ratingMetas == []
    || RatingsCount(Strip(page.ratingMetas[0].text)).None?
    || PageCount(page.paragraphs).Err?
  }

  /**
   * All or nothing: the record is empty exactly when one of the failures
   * happens, and otherwise holds every field read from the page.
   */
  lemma RecordAllOrNothing(page: DetailPage, parseFloat: string -> Option<real>)
    ensures Record(page, parseFloat).None? <==> Fails(page, parseFloat)
    ensures Record(page, parseFloat).Some? ==>
      var info := Record(page, parseFloat).value;
      && info.title == Strip(page.titles[0].text)
      && info.author == Join(AuthorSeparator, SafeGetAll(page.authors, TextAttr))
      && Some(info.rating) == parseFloat(Strip(page.ratings[0].text))
      && info.genres == SafeGetAll(page.genres, TextAttr)
      && Ok(info.pages) == PageCount(page.paragraphs)
      && Some(info.ratingsCount) == RatingsCount(Strip(page.ratingMetas[0].text))
  {
  }

  /** The genres of a record are stripped and never empty. */
  lemma RecordGenresClean(page: DetailPage, parseFloat: string -> Option<real>)
    requires Record(page, parseFloat).Some?
    ensures forall k | 0 <= k < |Record(page, parseFloat).value.genres| ::
      var g := Record(page, parseFloat).value.genres[k]; g != [] && IsStripped(g)
  {
    RecordAllOrNothing(page, parseFloat);
    var genres := SafeGetAll(page.genres, TextAttr);
    assert forall k | 0 <= k < |genres| :: genres[k] != [] && IsStripped(genres[k]);
  }

  /** An unreadable page token empties the whole record, not just its page count. */
  lemma PagesFailureAbortsRecord(page: DetailPage, parseFloat: string -> Option<real>, i: nat)
    requires i < |page.paragraphs| && MentionsPages(page.paragraphs[i])
    requires forall j | 0 <= j < i :: !MentionsPages(page.paragraphs[j])
    requires PagesToken(ScanText(page.paragraphs[i])).Err?
    ensures Record(page, parseFloat) == None
  {
    PageCountFirstMention(page.paragraphs, i);
    RecordAllOrNothing(page, parseFloat);
  }

  /**
   * `get_goodreads_book_data(driver, url)` on the page at `url`: the record,
   * or `None` for the empty record `{}`; it never raises.
   */
  method GetBookData(page: DetailPage, parseFloat: string -> Option<real>) returns (info: Option<BookInfo>)
    ensures info == Record(page, parseFloat)
  {
    if !page.loads || page.titles == [] || !page.readyInTime {
      return None;
    }
    var genres := SafeGetAll(page.genres, TextAttr);
    var title := Strip(page.titles[0].text);
    var authors := SafeGetAll(page.authors, TextAttr);
    var author := Join(AuthorSeparator, authors);
    if page.ratings == [] {
      return None;
    }
    var rating := parseFloat(Strip(page.ratings[0].text));
    if rating.None? || page.ratingMetas == [] {
      return None;
    }
    var ratingsCount := RatingsCount(Strip(page.ratingMetas[0].text));
    if ratingsCount.None? {
      return None;
    }
    var pages := ScanPageCount(page.paragraphs);
    if pages.Err? {
      return None;
    }
    info := Some(BookInfo(title, author, rating.value, genres, pages.value, ratingsCount.value));
  }
}
