/**
 * The dashboard's reading of the CSV: the genres cell of each book is split
 * on commas into its list of genres (`genres_list`, whose length is
 * `n_genres`), and the genre distribution counts every genre over all books
 * with a dictionary accumulator.
 */
module Dashboard {
  import opened Wrappers
  import opened Text
  import opened Extraction
  import opened Pipeline

  /** What the genres cell is split on. */
  const Comma: string := ","

  /** `[g.strip() for g in str(x).split(",")]`: the genres of one cell. */
  function GenresList(cell: string): (r: seq<string>)
    ensures |r| == |Split(cell, Comma)|
    ensures forall k | 0 <= k < |r| :: IsStripped(r[k])
  {
    var pieces := Split(cell, Comma);
    seq(|pieces|, k requires 0 <= k < |pieces| => Strip(pieces[k]))
  }

  /** `n_genres`: one more than the number of commas in the cell, so never below 1. */
  lemma NGenres(cell: string)
    ensures |GenresList(cell)| == multiset(cell)[','] + 1
    ensures |GenresList(cell)| >= 1
  {
    SplitCount(cell, ',');
  }

  /** The comma pieces of a ", "-join: the first genre, then each later genre after a blank. */
  lemma JoinedPieces(genres: seq<string>)
    requires genres != []
    requires forall k | 0 <= k < |genres| :: ',' !in genres[k]
    ensures Split(Join(", ", genres), Comma) == [genres[0]] + Padded(" ", genres[1..])
  {
    assert Join(", ", genres) == "" + Join([','] + " ", genres) by {
      assert [','] + " " == ", ";
    }
    assert Comma == [','];
    SplitJoinChar(',', " ", "", genres);
    assert "" + genres[0] == genres[0];
  }

  /**
   * Splitting on ", "-joined genres gives them back: a non-empty list of
   * stripped genres without commas survives the join of the scraper and the
   * split of the dashboard unchanged.
   */
  lemma GenresRoundTrip(genres: seq<string>)
    requires genres != []
    requires forall k | 0 <= k < |genres| :: IsStripped(genres[k]) && ',' !in genres[k]
    ensures GenresList(Join(", ", genres)) == genres
  {
    JoinedPieces(genres);
    var pieces := Split(Join(", ", genres), Comma);
    var r := GenresList(Join(", ", genres));
    forall k | 0 <= k < |genres|
      ensures r[k] == genres[k]
    {
      StripPiece(genres[k]);
      if k > 0 {
        assert pieces[k] == " " + genres[k] by {
          assert pieces[k] == Padded(" ", genres[1..])[k - 1];
          assert genres[1..][k - 1] == genres[k];
        }
      }
    }
  }

  /** A stripped genre, with or without the blank the join put in front, strips to itself. */
  lemma StripPiece(g: string)
    requires IsStripped(g)
    ensures Strip(g) == g && Strip(" " + g) == g
  {
    StripCore("", g, "");
    assert "" + g + "" == g;
    StripCore(" ", g, "");
    assert " " + g + "" == " " + g;
  }

  /** pandas reads a missing CSV cell as NaN, and `str(NaN)` is this text. */
  const Missing: string := "nan"

  /** The cell texts `read_csv` reads as NaN by default (pandas 2.x): the empty cell and the usual NA spellings. */
  const NaValues: set<string> := {
    "", "#N/A", "#N/A N/A", "#NA", "-1.#IND", "-1.#QNAN", "-NaN", "-nan",
    "1.#IND", "1.#QNAN", "<NA>", "N/A", "NA", "NULL", "NaN", "None", "n/a",
    "nan", "null"
  }

  /** The genres cell of a row as pandas reads it back: the empty row leaves it empty. */
  function GenresCell(row: Row): string {
    match row
    case EmptyRow => ""
    case BookRow(_, _, _, genres, _, _) => genres
  }

  /** `str(x)` of the cell pandas read: `"nan"` for a cell read as NaN, the cell itself otherwise. */
  function CellText(cell: string): (text: string)
    ensures cell in NaValues ==> text == Missing
    ensures cell !in NaValues ==> text == cell
    ensures text != []
  {
    if cell in NaValues then Missing else cell
  }

  /** A cell read as NaN gives the single genre `"nan"`. */
  lemma NaCellReadAsNan(cell: string)
    requires cell in NaValues
    ensures GenresList(CellText(cell)) == [Missing]
  {
    SplitNoSep(Missing, ',');
    assert Comma == [','];
    StripPiece(Missing);
  }

  /**
   * What the scraper writes the dashboard reads back: the genres of a record
   * with at least one genre, none of which holds a comma, are the genre list
   * the dashboard builds from the record's row, unless the joined genres
   * happen to spell one of pandas' NA texts.
   */
  lemma CrawledGenresRecovered(page: DetailPage, parseFloat: string -> Option<real>)
    requires Record(page, parseFloat).Some?
    requires Record(page, parseFloat).value.genres != []
    requires forall k | 0 <= k < |Record(page, parseFloat).value.genres| :: ',' !in Record(page, parseFloat).value.genres[k]
    requires Join(", ", Record(page, parseFloat).value.genres) !in NaValues
    ensures GenresList(CellText(GenresCell(ToRow(Record(page, parseFloat))))) == Record(page, parseFloat).value.genres
  {
    var genres := Record(page, parseFloat).value.genres;
    RecordGenresClean(page, parseFloat);
    GenresRoundTrip(genres);
  }

  /**
   * A book without genres, and the empty record's row, still have one genre
   * for the dashboard, "nan", and so an `n_genres` of 1.
   */
  lemma NoGenresReadAsNan(info: Option<BookInfo>)
    requires info.None? || info.value.genres == []
    ensures GenresList(CellText(GenresCell(ToRow(info)))) == [Missing]
  {
    assert GenresCell(ToRow(info)) in NaValues;
    NaCellReadAsNan(GenresCell(ToRow(info)));
  }

  // ---------------------------------------------------------------------------
  // The genre distribution
  // ---------------------------------------------------------------------------

  /** `counts` holds, for each genre seen, how often it was seen, and no other key. */
  ghost predicate Tallies(counts: map<string, nat>, seen: seq<string>) {
    && (forall g :: g in counts <==> g in seen)
    && (forall g | g in counts :: counts[g] == multiset(seen)[g])
  }

  /** The sum of all the counts. */
  ghost function Total(counts: map<string, nat>): nat
    decreases |counts|
  {
    if counts == map[] then 0
    else
      var g :| g in counts;
      assert |counts - {g}| < |counts| by {
        assert (counts - {g}).Keys == counts.Keys - {g};
      }
      counts[g] + Total(counts - {g})
  }

  /** The sum does not depend on which key it starts from. */
  lemma {:induction false} TotalRemove(counts: map<string, nat>, g: string)
    requires g in counts
    ensures Total(counts) == counts[g] + Total(counts - {g})
    decreases |counts|
  {
    var h :| h in counts && Total(counts) == counts[h] + Total(counts - {h});
    if h != g {
      var both := counts - {h} - {g};
      assert (counts - {h}).Keys == counts.Keys - {h};
      assert (counts - {g}).Keys == counts.Keys - {g};
      TotalRemove(counts - {h}, g);
      TotalRemove(counts - {g}, h);
      assert counts - {g} - {h} == both;
    }
  }

  /** Counting one more genre: the tally follows the genres seen, and the sum grows by one. */
  lemma TallyStep(counts: map<string, nat>, seen: seq<string>, g: string)
    requires Tallies(counts, seen)
    ensures Tallies(counts[g := (if g in counts then counts[g] else 0) + 1], seen + [g])
    ensures Total(counts[g := (if g in counts then counts[g] else 0) + 1]) == Total(counts) + 1
  {
    var next := counts[g := (if g in counts then counts[g] else 0) + 1];
    assert multiset(seen + [g]) == multiset(seen) + multiset{g};
    TotalRemove(next, g);
    if g in counts {
      TotalRemove(counts, g);
      assert next - {g} == counts - {g};
    } else {
      assert next - {g} == counts;
    }
  }

  /** The number of genres over all books: the sum of `n_genres`. */
  function SumLengths(lists: seq<seq<string>>): (n: nat)
    ensures n == |Concat(lists)|
  {
    if lists == [] then 0 else SumLengths(lists[..|lists| - 1]) + |lists[|lists| - 1]|
  }

  /**
   * The `genre_counts` loop: for every book's genre list, in turn, and every
   * genre in it, the genre's count goes up by one (starting from 0).
   */
  method CountGenres(lists: seq<seq<string>>) returns (counts: map<string, nat>)
    ensures forall g :: g in counts <==> exists i, k | 0 <= i < |lists| && 0 <= k < |lists[i]| :: lists[i][k] == g
    ensures forall g | g in counts :: counts[g] == multiset(Concat(lists))[g] && counts[g] >= 1
    ensures Total(counts) == SumLengths(lists)
  {
    counts := map[];
    for i := 0 to |lists|
      invariant Tallies(counts, Concat(lists[..i])) && Total(counts) == |Concat(lists[..i])|
    {
      counts := CountList(counts, Concat(lists[..i]), lists[i]);
      assert lists[..i + 1][..i] == lists[..i];
    }
    assert lists[..|lists|] == lists;
    ConcatMembers(lists);
  }

  /** The inner loop: each genre of one book's list is counted once more. */
  method CountList(counts: map<string, nat>, ghost seen: seq<string>, genreList: seq<string>)
    returns (next: map<string, nat>)
    requires Tallies(counts, seen)
    ensures Tallies(next, seen + genreList)
    ensures Total(next) == Total(counts) + |genreList|
  {
    next := counts;
    for k := 0 to |genreList|
      invariant Tallies(next, seen + genreList[..k]) && Total(next) == Total(counts) + k
    {
      var g := genreList[k];
      TallyStep(next, seen + genreList[..k], g);
      next := next[g := (if g in next then next[g] else 0) + 1];
      PrefixStep(genreList, k);
      assert seen + genreList[..k + 1] == seen + genreList[..k] + [g];
    }
    assert genreList[..|genreList|] == genreList;
  }

  /** One more element of a prefix. */
  lemma PrefixStep<T>(xs: seq<T>, k: nat)
    requires k < |xs|
    ensures xs[..k + 1] == xs[..k] + [xs[k]]
  {
  }

  /** A genre occurs in the flattened lists exactly when it occurs in one of them. */
  lemma {:induction false} ConcatMembers(lists: seq<seq<string>>)
    ensures forall g :: g in Concat(lists) <==> exists i, k | 0 <= i < |lists| && 0 <= k < |lists[i]| :: lists[i][k] == g
    decreases |lists|
  {
    if lists != [] {
      var init := lists[..|lists| - 1];
      var last := lists[|lists| - 1];
      ConcatMembers(init);
      forall g
        ensures g in Concat(lists) <==> exists i, k | 0 <= i < |lists| && 0 <= k < |lists[i]| :: lists[i][k] == g
      {
        if g in Concat(lists) {
          if g in Concat(init) {
            var i, k :| 0 <= i < |init| && 0 <= k < |init[i]| && init[i][k] == g;
            assert lists[i] == init[i];
          } else {
            var k :| 0 <= k < |last| && last[k] == g;
            assert lists[|lists| - 1][k] == g;
          }
        }
        if exists i, k | 0 <= i < |lists| && 0 <= k < |lists[i]| :: lists[i][k] == g {
          var i, k :| 0 <= i < |lists| && 0 <= k < |lists[i]| && lists[i][k] == g;
          if i < |init| {
            assert init[i][k] == g;
          } else {
            assert last[k] == g;
          }
        }
      }
    }
  }
}
