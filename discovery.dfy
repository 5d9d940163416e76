/**
 * Book id discovery (`get_top_goodreads_book_ids`): the listing is walked page
 * by page; every link whose href names a book page contributes the book's
 * numeric id, duplicates are skipped (the first sighting wins) and the walk
 * stops, in the middle of a page if need be, once enough ids are collected.
 *
 * The browser is replaced by data: `listing[k]` is the sequence of `href`
 * attributes of the book links on listing page k + 1, in document order.
 */
module Discovery {
  import opened Wrappers
  import opened Text

  /** The path segment that marks a link to a book page. */
  const BookPath: string := "/book/show/"

  // ---------------------------------------------------------------------------
  // One link
  // ---------------------------------------------------------------------------

  /**
   * The id one link contributes: the piece of the href after the first
   * `/book/show/` (and before a second one), cut at its first `.`, read as an
   * integer when it is all digits. `None` when the link is skipped.
   */
  function BookIdOf(href: string): (r: Option<nat>)
    ensures r.Some? ==> Contains(href, BookPath)
  {
    if Contains(href, BookPath) then
      var part := Split(Split(href, BookPath)[1], ".")[0];
      if IsDigits(part) then Some(DigitsValue(part)) else None
    else None
  }

  /** When `pat` first occurs right after `prefix`, the second piece of the split starts after it. */
  lemma SecondPiece(prefix: string, pat: string, rest: string)
    requires pat != [] && IndexOf(prefix + pat, pat) == Some(|prefix|)
    ensures |Split(prefix + pat + rest, pat)| >= 2 && Split(prefix + pat + rest, pat)[1] == Split(rest, pat)[0]
  {
    var s := prefix + pat + rest;
    assert s == (prefix + pat) + rest;
    IndexOfExtend(prefix + pat, pat, rest);
    assert s[|prefix| + |pat|..] == rest;
  }

  /** A prefix free of the first separator character stays inside the first piece. */
  lemma FirstPieceKeeps(w: string, s: string, sep: string)
    requires sep != [] && sep[0] !in w && w <= s
    ensures w <= Split(s, sep)[0]
  {
    match IndexOf(s, sep)
    case None =>
    case Some(i) =>
      assert i >= |w|;
      assert s[..i][..|w|] == w;
  }

  /** Digits followed by nothing or by a `.` are what is left once the text is cut at `/book/show/` and at `.`. */
  lemma DigitsPiece(digits: string, tail: string)
    requires IsDigits(digits)
    requires tail == [] || tail[0] == '.'
    ensures Split(Split(digits + tail, BookPath)[0], ".")[0] == digits
  {
    var rest := digits + tail;
    var piece := Split(rest, BookPath)[0];
    assert forall i | 0 <= i < |digits| :: IsDigit(digits[i]);
    if tail == [] {
      assert rest == digits;
      NotContains(digits, BookPath);
      assert piece == digits;
      NotContains(digits, ".");
    } else {
      var w := digits + ".";
      assert w <= rest;
      FirstPieceKeeps(w, rest, BookPath);
      var u := piece[|w|..];
      assert piece == digits + "." + u;
      IndexOfAfter(digits, ".", u);
      assert piece[..|digits|] == digits;
    }
  }

  /**
   * The ids links actually carry: after the first `/book/show/`, a run of digits
   * ended by a `.` (or by the end of the href) yields the value of those digits.
   */
  lemma BookIdOfLink(prefix: string, digits: string, tail: string)
    requires IndexOf(prefix + BookPath, BookPath) == Some(|prefix|)
    requires IsDigits(digits)
    requires tail == [] || tail[0] == '.'
    ensures BookIdOf(prefix + BookPath + digits + tail) == Some(DigitsValue(digits))
  {
    var rest := digits + tail;
    assert prefix + BookPath + digits + tail == prefix + BookPath + rest;
    SecondPiece(prefix, BookPath, rest);
    DigitsPiece(digits, tail);
  }

  /** The href of the book page for id `n`, as the site renders ids, yields `n` back. */
  lemma BookIdOfShown(prefix: string, n: nat, tail: string)
    requires IndexOf(prefix + BookPath, BookPath) == Some(|prefix|)
    requires tail == [] || tail[0] == '.'
    ensures BookIdOf(prefix + BookPath + ShowNat(n) + tail) == Some(n)
  {
    ParseShowNat(n);
    BookIdOfLink(prefix, ShowNat(n), tail);
  }

  /**
   * A link whose id segment has a character other than a digit before any `.`
   * (a slug such as `123-title`) contributes nothing.
   */
  lemma BookIdOfSlug(prefix: string, digits: string, c: char, tail: string)
    requires IndexOf(prefix + BookPath, BookPath) == Some(|prefix|)
    requires forall i | 0 <= i < |digits| :: IsDigit(digits[i])
    requires !IsDigit(c) && c != '.' && c != '/'
    ensures BookIdOf(prefix + BookPath + digits + [c] + tail) == None
  {
    var rest := digits + [c] + tail;
    assert prefix + BookPath + digits + [c] + tail == prefix + BookPath + rest;
    SecondPiece(prefix, BookPath, rest);
    var w := digits + [c];
    assert w <= rest;
    FirstPieceKeeps(w, rest, BookPath);
    var piece := Split(rest, BookPath)[0];
    FirstPieceKeeps(w, piece, ".");
    var part := Split(piece, ".")[0];
    assert part[|digits|] == c;
  }

  // ---------------------------------------------------------------------------
  // Specification: first-seen deduplication
  // ---------------------------------------------------------------------------

  predicate Distinct(xs: seq<nat>) {
    forall i, j | 0 <= i < j < |xs| :: xs[i] != xs[j]
  }

  /** The distinct values of `xs`, each kept where it is first seen. */
  function Dedup(xs: seq<nat>): (r: seq<nat>)
    ensures |r| <= |xs|
    decreases |xs|
  {
    if xs == [] then []
    else
      var prev := Dedup(xs[..|xs| - 1]);
      var x := xs[|xs| - 1];
      if x in prev then prev else prev + [x]
  }

  /** Deduplication keeps each value of the input once and nothing else. */
  lemma {:induction false} DedupSpec(xs: seq<nat>)
    ensures Distinct(Dedup(xs))
    ensures forall x :: x in Dedup(xs) <==> x in xs
    decreases |xs|
  {
    if xs != [] {
      var init := xs[..|xs| - 1];
      DedupSpec(init);
      assert xs == init + [xs[|xs| - 1]];
    }
  }

  /** The position of the first occurrence of `x` in `xs`. */
  function FirstIndex(xs: seq<nat>, x: nat): (k: nat)
    requires x in xs
    ensures k < |xs| && xs[k] == x
    ensures forall j | 0 <= j < k :: xs[j] != x
  {
    if xs[0] == x then 0 else 1 + FirstIndex(xs[1..], x)
  }

  lemma FirstIndexPrefix(xs: seq<nat>, ys: seq<nat>, x: nat)
    requires x in xs
    ensures x in xs + ys && FirstIndex(xs + ys, x) == FirstIndex(xs, x)
  {
    var k := FirstIndex(xs, x);
    assert (xs + ys)[k] == x;
    forall j | 0 <= j < k ensures (xs + ys)[j] != x { assert (xs + ys)[j] == xs[j]; }
  }

  /** Deduplication keeps first-seen order: earlier kept values were first seen earlier. */
  lemma {:induction false} DedupFirstSeen(xs: seq<nat>)
    ensures forall x | x in Dedup(xs) :: x in xs
    ensures forall i, j | 0 <= i < j < |Dedup(xs)| ::
      FirstIndex(xs, Dedup(xs)[i]) < FirstIndex(xs, Dedup(xs)[j])
    decreases |xs|
  {
    DedupSpec(xs);
    if xs != [] {
      var init := xs[..|xs| - 1];
      var x := xs[|xs| - 1];
      assert xs == init + [x];
      DedupFirstSeen(init);
      DedupSpec(init);
      var prev := Dedup(init);
      FirstSeenAppend(init, x, prev);
      assert Dedup(xs) == if x in init then prev else prev + [x];
    }
  }

  /**
   * Ids kept in first-seen order stay in that order when one more id is seen,
   * and an id never seen before can follow them.
   */
  lemma FirstSeenAppend(init: seq<nat>, x: nat, prev: seq<nat>)
    requires forall y | y in prev :: y in init
    requires forall i, j | 0 <= i < j < |prev| :: FirstIndex(init, prev[i]) < FirstIndex(init, prev[j])
    ensures forall i, j | 0 <= i < j < |prev| :: FirstIndex(init + [x], prev[i]) < FirstIndex(init + [x], prev[j])
    ensures x !in init ==> forall i, j | 0 <= i < j < |prev + [x]| ::
      FirstIndex(init + [x], (prev + [x])[i]) < FirstIndex(init + [x], (prev + [x])[j])
  {
    var xs := init + [x];
    forall y | y in prev
      ensures FirstIndex(xs, y) == FirstIndex(init, y) < |init|
    {
      FirstIndexPrefix(init, [x], y);
    }
    if x !in init {
      var r := prev + [x];
      assert FirstIndex(xs, x) == |init|;
      forall i, j | 0 <= i < j < |r|
        ensures FirstIndex(xs, r[i]) < FirstIndex(xs, r[j])
      {
        assert r[i] == prev[i];
        if j < |prev| {
          assert r[j] == prev[j];
        }
      }
    }
  }

  /** Deduplicating a longer input only appends to the result. */
  lemma {:induction false} DedupExtends(xs: seq<nat>, ys: seq<nat>)
    ensures Dedup(xs) <= Dedup(xs + ys)
    decreases |ys|
  {
    if ys != [] {
      var init := ys[..|ys| - 1];
      DedupExtends(xs, init);
      var z := xs + ys;
      assert z[..|z| - 1] == xs + init;
      assert Dedup(xs + init) <= Dedup(z);
    } else {
      assert xs + ys == xs;
    }
  }

  /** Looking at more links only appends to the deduplicated ids. */
  lemma DedupLinkIdsExtends(a: seq<string>, b: seq<string>)
    requires a <= b
    ensures Dedup(LinkIds(a)) <= Dedup(LinkIds(b))
  {
    LinkIdsExtends(a, b);
    var x := LinkIds(a);
    var y := LinkIds(b);
    assert y == x + y[|x|..];
    DedupExtends(x, y[|x|..]);
  }

  /** The first `n` elements of `s` (all of it when it is shorter, none when `n <= 0`). */
  function Take(s: seq<nat>, n: int): (r: seq<nat>)
    ensures r <= s
    ensures |r| == if n <= 0 then 0 else if n < |s| then n else |s|
  {
    if n <= 0 then [] else if n < |s| then s[..n] else s
  }

  // ---------------------------------------------------------------------------
  // Specification: the ids of the links, in order
  // ---------------------------------------------------------------------------

  /** The ids the links carry, in link order, before deduplication. */
  function LinkIds(hrefs: seq<string>): (r: seq<nat>)
    ensures |r| <= |hrefs|
    decreases |hrefs|
  {
    if hrefs == [] then []
    else
      var prev := LinkIds(hrefs[..|hrefs| - 1]);
      match BookIdOf(hrefs[|hrefs| - 1])
      case None => prev
      case Some(x) => prev + [x]
  }

  /** An id is among the link ids exactly when some link carries it. */
  lemma {:induction false} LinkIdsSound(hrefs: seq<string>, x: nat)
    ensures x in LinkIds(hrefs) <==> exists k | 0 <= k < |hrefs| :: BookIdOf(hrefs[k]) == Some(x)
    decreases |hrefs|
  {
    if hrefs != [] {
      var init := hrefs[..|hrefs| - 1];
      LinkIdsSound(init, x);
      assert forall k | 0 <= k < |init| :: init[k] == hrefs[k];
      if BookIdOf(hrefs[|hrefs| - 1]) == Some(x) {
        assert x in LinkIds(hrefs);
      }
    }
  }

  lemma {:induction false} LinkIdsExtends(a: seq<string>, b: seq<string>)
    requires a <= b
    ensures LinkIds(a) <= LinkIds(b)
    decreases |b|
  {
    if |a| < |b| {
      LinkIdsExtends(a, b[..|b| - 1]);
    } else {
      assert a == b;
    }
  }

  /** The first `n` distinct ids of the listing, in first-seen order. */
  function TopIds(pages: seq<seq<string>>, n: int): (r: seq<nat>)
    ensures r <= Dedup(LinkIds(Concat(pages)))
    ensures n >= 0 ==> |r| <= n
  {
    Take(Dedup(LinkIds(Concat(pages))), n)
  }

  /** The ids found on the first pages are where the ids of the whole listing start. */
  lemma TopIdsExtend(pages: seq<seq<string>>, k: nat)
    requires k <= |pages|
    ensures Dedup(LinkIds(Concat(pages[..k]))) <= Dedup(LinkIds(Concat(pages)))
  {
    ConcatExtends(pages, k);
    DedupLinkIdsExtends(Concat(pages[..k]), Concat(pages));
  }

  /** Every discovered id is carried by a link on some listing page. */
  lemma TopIdsFromLinks(pages: seq<seq<string>>, n: int, x: nat)
    requires x in TopIds(pages, n)
    ensures exists k | 0 <= k < |Concat(pages)| :: BookIdOf(Concat(pages)[k]) == Some(x)
  {
    DedupSpec(LinkIds(Concat(pages)));
    LinkIdsSound(Concat(pages), x);
  }

  // ---------------------------------------------------------------------------
  // The discovery loop
  // ---------------------------------------------------------------------------

  /** One step of the walk: the ids after looking at one more link. */
  lemma DedupStep(hrefs: seq<string>, h: string)
    ensures Dedup(LinkIds(hrefs + [h])) == Visit(Dedup(LinkIds(hrefs)), BookIdOf(h))
  {
    var s := hrefs + [h];
    assert s[..|s| - 1] == hrefs;
    match BookIdOf(h)
    case None =>
    case Some(x) =>
      var ids := LinkIds(hrefs) + [x];
      assert ids[..|ids| - 1] == LinkIds(hrefs);
  }

  /** The ids in hand after looking at one more link. */
  function Visit(ids: seq<nat>, id: Option<nat>): seq<nat> {
    match id
    case None => ids
    case Some(x) => if x in ids then ids else ids + [x]
  }

  /** Looking at link `j` of the current page. */
  lemma LinkStep(before: seq<string>, links: seq<string>, j: nat)
    requires j < |links|
    ensures Dedup(LinkIds(before + links[..j + 1])) == Visit(Dedup(LinkIds(before + links[..j])), BookIdOf(links[j]))
  {
    assert before + links[..j + 1] == (before + links[..j]) + [links[j]];
    DedupStep(before + links[..j], links[j]);
  }

  /** Once `n` ids are in hand after link `j - 1`, the rest of the page cannot change the first `n`. */
  lemma StopMidPage(before: seq<string>, links: seq<string>, j: nat, n: int)
    requires j <= |links| && |Dedup(LinkIds(before + links[..j]))| == n
    ensures Dedup(LinkIds(before + links[..j])) == Take(Dedup(LinkIds(before + links)), n)
  {
    assert before + links[..j] <= before + links;
    DedupLinkIdsExtends(before + links[..j], before + links);
  }

  /** Loading the next listing page appends its links to those seen so far. */
  lemma NextPage(listing: seq<seq<string>>, page: nat)
    requires page < |listing|
    ensures Concat(listing[..page + 1]) == Concat(listing[..page]) + listing[page]
    ensures listing[..page + 1][..page] == listing[..page]
  {
    assert listing[..page + 1][..page] == listing[..page];
  }

  /** The walk may end once every page is used or `n` ids are in hand: nothing later changes them. */
  lemma WalkComplete(listing: seq<seq<string>>, page: nat, n: int)
    requires page <= |listing|
    requires page == |listing| || |Take(Dedup(LinkIds(Concat(listing[..page]))), n)| >= n
    ensures Take(Dedup(LinkIds(Concat(listing[..page]))), n) == TopIds(listing, n)
    ensures |TopIds(listing, n)| < n <==> |Dedup(LinkIds(Concat(listing)))| < n
  {
    TopIdsExtend(listing, page);
    if page == |listing| {
      assert listing[..page] == listing;
    } else {
      var d := Dedup(LinkIds(Concat(listing[..page])));
      var all := Dedup(LinkIds(Concat(listing)));
      assert |d| >= n;
      assert d == all[..|d|];
    }
  }

  /**
   * The inner loop of the walk over one listing page: `ids` are the distinct ids
   * of the links seen before the page, fewer than `maxBooks`; links are visited
   * in order and the page is left as soon as `maxBooks` ids are in hand.
   */
  method ScanListingPage(ghost before: seq<string>, links: seq<string>, ids: seq<nat>, maxBooks: int)
    returns (found: seq<nat>)
    requires ids == Dedup(LinkIds(before)) && |ids| < maxBooks
    ensures found == Take(Dedup(LinkIds(before + links)), maxBooks)
  {
    found := ids;
    assert before + links[..0] == before;
    for j := 0 to |links|
      invariant found == Dedup(LinkIds(before + links[..j]))
      invariant |found| < maxBooks
    {
      LinkStep(before, links, j);
      var id := BookIdOf(links[j]);
      if id.Some? && id.value !in found {
        found := found + [id.value];
        if |found| >= maxBooks {
          StopMidPage(before, links, j + 1, maxBooks);
          return;
        }
      }
    }
    assert links[..|links|] == links;
  }

  /**
   * `get_top_goodreads_book_ids(driver, max_books)` over the listing pages.
   * `ids` are the first `maxBooks` distinct ids in first-seen order; `fetched`
   * counts the listing pages loaded. When `exhausted`, every page was used up
   * with fewer than `maxBooks` ids: the source would go on to request page
   * `|listing| + 1` and beyond, which lie outside the data.
   */
  method TopBookIds(listing: seq<seq<string>>, maxBooks: int)
    returns (ids: seq<nat>, fetched: nat, exhausted: bool)
    ensures ids == TopIds(listing, maxBooks)
    ensures Distinct(ids)
    ensures |ids| <= maxBooks || ids == []
    ensures exhausted <==> |Dedup(LinkIds(Concat(listing)))| < maxBooks
    ensures !exhausted && maxBooks >= 0 ==> |ids| == maxBooks
    ensures fetched <= |listing| && (exhausted ==> fetched == |listing|)
    ensures ids == Take(Dedup(LinkIds(Concat(listing[..fetched]))), maxBooks)
    ensures fetched > 0 ==> |Dedup(LinkIds(Concat(listing[..fetched - 1])))| < maxBooks
  {
    ids := [];
    var page := 0;
    while |ids| < maxBooks && page < |listing|
      invariant page <= |listing|
      invariant ids == Take(Dedup(LinkIds(Concat(listing[..page]))), maxBooks)
      invariant page > 0 ==> |Dedup(LinkIds(Concat(listing[..page - 1])))| < maxBooks
      decreases |listing| - page
    {
      ghost var before := Concat(listing[..page]);
      NextPage(listing, page);
      ids := ScanListingPage(before, listing[page], ids, maxBooks);
      page := page + 1;
    }
    fetched := page;
    exhausted := |ids| < maxBooks;
    WalkComplete(listing, page, maxBooks);
    DedupSpec(LinkIds(Concat(listing)));
  }
}
