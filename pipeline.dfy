/**
 * The scraper's main run: discover the top book ids, then for every id, in
 * order, fetch its detail page, turn the record into a CSV row (the genre list
 * joined with ", ") and append the row to the output file.
 *
 * The browser is replaced by data: the listing pages, and `site`, which gives
 * the detail page found at the URL built from a book id. The CSV file is a
 * `CsvSink` holding its header and the rows written so far.
 */
module Pipeline {
  import opened Wrappers
  import opened Text
  import opened Discovery
  import opened Extraction

  /** How many ids the run asks the listing for. */
  const CrawlSize: int := 150

  /** What the genres of a record are joined with in its row. */
  const GenreSeparator: string := ", "

  /**
   * One CSV row. The empty record `{}` gives a row whose cells are all empty;
   * a missing page count leaves its cell empty.
   */
  datatype Row =
    | EmptyRow
    | BookRow(title: string, author: string, rating: real, genres: string, pages: Option<nat>, ratingsCount: nat)

  /** The row `writer.writerow(info)` writes once a list of genres has been joined with ", ". */
  function ToRow(info: Option<BookInfo>): (row: Row)
    ensures row.EmptyRow? <==> info.None?
    ensures info.Some? ==> row.genres == Join(GenreSeparator, info.value.genres)
  {
    match info
    case None => EmptyRow
    case Some(b) => BookRow(b.title, b.author, b.rating, Join(GenreSeparator, b.genres), b.pages, b.ratingsCount)
  }

  /** The results for a sequence of ids, computed one id after the other. */
  function MapIds<T>(ids: seq<nat>, f: nat -> T): seq<T> {
    if ids == [] then [] else MapIds(ids[..|ids| - 1], f) + [f(ids[|ids| - 1])]
  }

  lemma {:induction false} MapIdsLength<T>(ids: seq<nat>, f: nat -> T)
    ensures |MapIds(ids, f)| == |ids|
    decreases |ids|
  {
    if ids != [] {
      MapIdsLength(ids[..|ids| - 1], f);
    }
  }

  lemma {:induction false} MapIdsAt<T>(ids: seq<nat>, f: nat -> T, i: nat)
    requires i < |ids|
    ensures i < |MapIds(ids, f)| && MapIds(ids, f)[i] == f(ids[i])
    decreases |ids|
  {
    var init := ids[..|ids| - 1];
    MapIdsLength(init, f);
    if i < |init| {
      MapIdsAt(init, f, i);
      assert init[i] == ids[i];
    }
  }

  /** The row written for an id: that of the record read from the id's detail page. */
  function RowOf(site: nat -> DetailPage, parseFloat: string -> Option<real>): nat -> Row {
    (id: nat) => ToRow(Record(site(id), parseFloat))
  }

  /** The rows of the per-id loop. */
  function RowsFor(ids: seq<nat>, site: nat -> DetailPage, parseFloat: string -> Option<real>): seq<Row> {
    MapIds(ids, RowOf(site, parseFloat))
  }

  /** Exactly one row per id, in id order, and an empty record still gives its (empty) row. */
  lemma RowsForEachId(ids: seq<nat>, site: nat -> DetailPage, parseFloat: string -> Option<real>)
    ensures |RowsFor(ids, site, parseFloat)| == |ids|
    ensures forall i | 0 <= i < |ids| :: RowsFor(ids, site, parseFloat)[i] == ToRow(Record(site(ids[i]), parseFloat))
  {
    MapIdsLength(ids, RowOf(site, parseFloat));
    forall i | 0 <= i < |ids|
      ensures RowsFor(ids, site, parseFloat)[i] == ToRow(Record(site(ids[i]), parseFloat))
    {
      MapIdsAt(ids, RowOf(site, parseFloat), i);
    }
  }

  /** An empty record still gives its row, an empty one, and only an empty record does. */
  lemma EmptyRecordRow(ids: seq<nat>, site: nat -> DetailPage, parseFloat: string -> Option<real>, i: nat)
    requires i < |ids|
    ensures i < |RowsFor(ids, site, parseFloat)|
    ensures RowsFor(ids, site, parseFloat)[i].EmptyRow? <==> Record(site(ids[i]), parseFloat).None?
  {
    RowsForEachId(ids, site, parseFloat);
  }

  /** The output file: the header line written when it is opened, then the rows in the order written. */
  class CsvSink {
    const fieldnames: seq<string>
    var rows: seq<Row>

    /** Opening the file with `csv.DictWriter` and writing the header. */
    constructor (fieldnames: seq<string>)
      ensures this.fieldnames == fieldnames && rows == []
    {
      this.fieldnames := fieldnames;
      rows := [];
    }

    /** `writer.writerow(row)`: the row is appended after those already written. */
    method WriteRow(row: Row)
      modifies this
      ensures rows == old(rows) + [row]
    {
      rows := rows + [row];
    }
  }

  /**
   * The per-id loop of `main`: one row per id, appended in id order after the
   * rows already in the file.
   */
  method WriteBookRows(ids: seq<nat>, site: nat -> DetailPage, parseFloat: string -> Option<real>, sink: CsvSink)
    modifies sink
    ensures sink.rows == old(sink.rows) + RowsFor(ids, site, parseFloat)
  {
    for i := 0 to |ids|
      invariant sink.rows == old(sink.rows) + RowsFor(ids[..i], site, parseFloat)
    {
      var info := GetBookData(site(ids[i]), parseFloat);
      var row := ToRow(info);
      assert ids[..i + 1][..i] == ids[..i];
      sink.WriteRow(row);
    }
    assert ids[..|ids|] == ids;
  }

  /**
   * `main`: the header, then the ids of the first 150 books of the listing and
   * one row per id. When the listing runs out of pages before 150 distinct ids
   * are found, the source keeps requesting further pages and never reaches the
   * row loop; the model then ends with the header alone.
   */
  method Crawl(fieldnames: seq<string>, listing: seq<seq<string>>, site: nat -> DetailPage,
               parseFloat: string -> Option<real>)
    returns (sink: CsvSink, ids: seq<nat>)
    ensures fresh(sink) && sink.fieldnames == fieldnames
    ensures ids == TopIds(listing, CrawlSize)
    ensures |Dedup(LinkIds(Concat(listing)))| < CrawlSize ==> sink.rows == []
    ensures |Dedup(LinkIds(Concat(listing)))| >= CrawlSize ==>
      |ids| == CrawlSize && sink.rows == RowsFor(ids, site, parseFloat)
  {
    sink := new CsvSink(fieldnames);
    var fetched, exhausted;
    ids, fetched, exhausted := TopBookIds(listing, CrawlSize);
    if exhausted {
      return;
    }
    WriteBookRows(ids, site, parseFloat, sink);
  }
}
