# Goodreads scraper and genre dashboard: a verified model

This project models the core of a small Goodreads pipeline in Dafny. A
scraper walks the pages of a "best books" listing and collects the ids of
the first books it finds. It then reads each book's detail page into a
record and writes one CSV row per book. A Streamlit dashboard reads the CSV
back, splits each book's genres cell into a list and counts the genres.

The browser is replaced by data:

- a listing is a sequence of pages, each the sequence of `href` values its
  book links carry;
- a detail page (`Extraction.DetailPage`) lists, for each selector the
  scraper uses, the elements it matches, plus two flags: whether
  `driver.get` succeeded and whether the page became ready in time;
- `float()` on the rating text is a parameter `parseFloat`, which may refuse
  its text;
- the site is a parameter `site` that maps a book id to its detail page.

The modules follow the program:

- `Wrappers`: `Option` and `Result`.
- `Text`: the Python string operations the code relies on (`strip`, `in`,
  `split(sep)`, `split()[0]`, `join`, `lower`, `replace(",", "")`,
  `isdigit` and `int`), with their laws. Both `in` and `split(sep)` rest on
  one substring search, `Text.IndexOf`.
- `Discovery`: `get_top_goodreads_book_ids`, the id of a link, and
  first-seen deduplication.
- `Extraction`: `safe_get_text` and the body of `get_goodreads_book_data`,
  with the ratings count, the page-count scan and the all-or-nothing error
  contract.
- `Pipeline`: the per-id row loop of `main`, writing to a `CsvSink` class.
- `Dashboard`: the genres split of `load_data` and the `genre_counts` loop.

Some behaviours of the code as written show up in the lemmas:

- A link whose id is followed by a `-` slug (`/book/show/123-title`)
  contributes no id, because the piece before the first `.` is not all
  digits (`Discovery.BookIdOfSlug`).
- A ratings text in the singular, `"1 rating"`, does not contain
  `"ratings"`. `int()` then refuses it and the whole record becomes `{}`
  (`Extraction.SingleRatingRefused`).
- When the listing runs out of pages before `max_books` distinct ids are
  found, the source keeps requesting further pages without bound. The
  model reports this as `exhausted`. `Pipeline.Crawl` then ends with the
  header alone.
- A book without genres, and the empty record's row, reach the dashboard
  as one genre, `"nan"`. This is because pandas reads the empty cell as
  NaN and `str(NaN)` is `"nan"` (`Dashboard.NoGenresReadAsNan`). The same
  happens to a genres cell that spells one of pandas' default NA texts,
  such as `"None"` or `"NA"` (`Dashboard.NaCellReadAsNan`).

## Model

| member | source | states |
|---|---|---|
| Discovery.TopBookIds | scripts/.py:148-174 | the ids are the first `max_books` distinct link ids of the listing, in first-seen order, and pairwise distinct; exactly `max_books` of them unless the listing runs out, which happens exactly when the whole listing holds fewer distinct ids; the pages fetched are those needed and no more |
| Discovery.ScanListingPage | scripts/.py:160-169 | the link loop of one page leaves the first `max_books` distinct ids of all links seen so far, breaking as soon as it has them |
| Discovery.WalkComplete | scripts/.py:154-172 | stopping once every page is used, or once `max_books` ids are in hand, gives the same ids as the whole listing would; fewer than `max_books` ids exactly when the listing has fewer distinct ids |
| Discovery.StopMidPage | scripts/.py:168-169 | breaking in the middle of a page loses nothing: the rest of the page cannot change the first `max_books` ids |
| Discovery.BookIdOf | scripts/.py:164-166 | a link yields an id only when it contains `/book/show/` |
| Discovery.Dedup | scripts/.py:166-167 | deduplication never lengthens the ids |
| Discovery.LinkIds | scripts/.py:162-167 | each link contributes at most one id |
| Discovery.TopIds | scripts/.py:151-172 | the ids kept are where the deduplicated link ids of the listing start, and at most `max_books` of them |
| Discovery.DedupStep | scripts/.py:163-167 | one link either adds its id at the end (a new digit id) or leaves the ids unchanged |
| Discovery.BookIdOfLink | scripts/.py:164-166 | a link holding `/book/show/`, then digits, then nothing or a `.`, yields the value of the digits |
| Discovery.BookIdOfShown | scripts/.py:164-166 | the link of a book with id `n`, written in decimal, yields `n` back |
| Discovery.BookIdOfSlug | scripts/.py:165-166 | digits followed by any character other than a digit, `.` or `/` yield no id |
| Discovery.DedupSpec | scripts/.py:166-167 | the deduplicated ids are pairwise distinct and are exactly the ids seen |
| Discovery.DedupFirstSeen | scripts/.py:166-167 | deduplicated ids keep first-seen order: an earlier id was first seen earlier |
| Discovery.DedupExtends | scripts/.py:166-167 | seeing more ids only appends to the deduplicated ids |
| Discovery.LinkIdsSound | scripts/.py:162-167 | an id is collected exactly when some link carries it |
| Discovery.TopIdsFromLinks | scripts/.py:162-167 | every discovered id comes from a link on some listing page |
| Discovery.TopIdsExtend | scripts/.py:151-172 | the ids found on the first pages are where the ids of the whole listing start |
| Extraction.SafeGetAll | scripts/.py:74-86 | multiple mode keeps at most one value per element, never an empty one, and in text mode only stripped texts |
| Extraction.SafeGetAllOne | scripts/.py:81-86 | each element contributes its stripped text or attribute when that is non-empty, and nothing otherwise, in element order |
| Extraction.SafeGetAllAppend | scripts/.py:81-86 | the values of two runs of elements are those of each, in order |
| Extraction.SafeGetOne | scripts/.py:76-87 | single mode fails with NoSuchElement exactly when no element matches; in text mode it returns a stripped text |
| Extraction.OneIsFirstOfAll | scripts/.py:74-87 | single mode reads the first element, the first value multiple mode keeps when that element is non-empty |
| Extraction.RatingsCount | scripts/.py:120 | a count is read only when the text before the first `"ratings"` is non-empty |
| Extraction.RatingsCountGrouped | scripts/.py:120 | a ratings text of comma-grouped digit groups before `" ratings"` gives the number the groups spell once the commas are removed |
| Extraction.RatingsCountExample | scripts/.py:120 | `"12,345 ratings"` gives 12345 |
| Extraction.SingleRatingRefused | scripts/.py:120 | `"1 rating"` gives no count, so `int()` raises |
| Extraction.PagesToken | scripts/.py:127 | reading the first token never yields "no page count": it is a number or a failure |
| Extraction.PagesOfDigits | scripts/.py:127 | a text that starts with digits followed by nothing or whitespace gives the value of those digits |
| Extraction.Pages352 | scripts/.py:127 | `"352 pages"` gives 352 |
| Extraction.MentionHasToken | scripts/.py:126-127 | a text that mentions pages has a first token, so `split()[0]` cannot raise IndexError |
| Extraction.PageCount | scripts/.py:122-128 | a page count (or a failure) comes only from a paragraph that mentions pages |
| Extraction.PageCountFirstMention | scripts/.py:124-128 | only the first paragraph whose lowercased stripped text contains `pages` decides the page count, through its first token |
| Extraction.PageCountNone | scripts/.py:122-128 | the page count is `None` exactly when no paragraph mentions pages |
| Extraction.ScanPageCount | scripts/.py:122-128 | the paragraph loop with its `break` computes that page count |
| Extraction.Extract | scripts/.py:109-145 | a book is read only from a page that loaded in time, with a title, a rating and a ratings element |
| Extraction.Record | scripts/.py:109-145 | a record is returned only for a page that loaded in time with a title; a page that fails to load, times out or lacks a title, rating or ratings element gives `{}` |
| Extraction.RecordAllOrNothing | scripts/.py:109-145 | the record is empty exactly when the page fails to load, times out, lacks the rating or ratings element, or has an unreadable rating, ratings count or page token; otherwise it holds every field as read from the page, with the authors joined by `", "` |
| Extraction.RecordGenresClean | scripts/.py:114 | the genres of a record are stripped and non-empty |
| Extraction.PagesFailureAbortsRecord | scripts/.py:124-145 | an unreadable page token empties the whole record, not only its page count |
| Extraction.GetBookData | scripts/.py:109-145 | the function returns that record and never raises |
| Pipeline.ToRow | scripts/.py:197-201 | the empty record gives the empty row, and only it does; a record's genres are joined with `", "` |
| Pipeline.RowsForEachId | scripts/.py:193-201 | exactly one row per id, in id order, each from that id's detail page |
| Pipeline.EmptyRecordRow | scripts/.py:197-201 | an id whose record is empty still gets a row, the empty one |
| Pipeline.CsvSink.constructor | scripts/.py:186-187 | the file starts with its header and no rows |
| Pipeline.CsvSink.WriteRow | scripts/.py:201 | `writerow` appends the row after those already written |
| Pipeline.WriteBookRows | scripts/.py:193-202 | the loop appends the rows of all ids, in id order, after the rows already written |
| Pipeline.Crawl | scripts/.py:185-202 | the run uses the first 150 ids of the listing and writes their rows; a listing with fewer distinct ids leaves only the header |
| Dashboard.GenresList | dashboard/app.py:12-14 | a cell gives one genre per comma-separated piece, each stripped |
| Dashboard.NGenres | dashboard/app.py:15 | `n_genres` is the number of commas plus one, so never below 1 |
| Dashboard.GenresRoundTrip | dashboard/app.py:12-14 | splitting the `", "`-join of a non-empty list of stripped, comma-free genres gives the list back |
| Dashboard.CellText | dashboard/app.py:13 | `str(x)` of a cell pandas read as NaN is `"nan"`; any other cell is its own text; never empty |
| Dashboard.NaCellReadAsNan | dashboard/app.py:11-14 | a genres cell pandas reads as NaN gives the single genre `"nan"` |
| Dashboard.CrawledGenresRecovered | dashboard/app.py:12-14 | the genre list the dashboard reads from a record's row is the record's genres, when there is at least one, none holds a comma and their join is not a pandas NA text |
| Dashboard.NoGenresReadAsNan | dashboard/app.py:11-15 | a row without genres reads back as the single genre `"nan"` |
| Dashboard.CountGenres | dashboard/app.py:46-49 | the keys are exactly the genres that occur; each count is the genre's number of occurrences over all lists and at least 1; the counts add up to the number of genres |
| Dashboard.CountList | dashboard/app.py:48-49 | the inner loop counts each genre of one list once more and raises the total by the list's length |
| Dashboard.TallyStep | dashboard/app.py:49 | `genre_counts.get(g, 0) + 1` keeps the counts equal to the occurrences seen and raises their total by one |
| Dashboard.SumLengths | dashboard/app.py:15 | the sum of `n_genres` over the books is the number of genres over all books |
| Text.Strip | scripts/.py:81 | `strip()` returns a text with no whitespace at either end, no longer than its input |
| Text.StripMargins | scripts/.py:81 | what `strip()` removes is whitespace at the two ends |
| Text.StripIdempotent | scripts/.py:81 | stripping twice is stripping once |
| Text.Split | scripts/.py:165 | `split(sep)` gives at least one piece, and two or more exactly when the separator occurs |
| Text.JoinSplit | scripts/.py:165 | joining the pieces of a split with its separator gives the text back |
| Text.SplitCount | dashboard/app.py:13 | splitting on a character gives one piece more than its occurrences |
| Text.SplitJoinChar | dashboard/app.py:13 | splitting a join on its separator character gives the joined pieces back, each padded as in the separator |
| Text.IndexOf | scripts/.py:164-165 | the search behind `in` and `split(sep)` finds the first occurrence, or none when there is none |
| Text.Contains | scripts/.py:164 | `in` holds exactly when the pattern occurs somewhere |
| Text.FirstToken | scripts/.py:127 | `split()[0]` fails exactly on an all-whitespace text and otherwise starts with a non-space |
| Text.FirstTokenSpec | scripts/.py:127 | the text is whitespace, then the token, then nothing or whitespace; the token holds no whitespace |
| Text.FirstTokenOf | scripts/.py:127 | a word without whitespace followed by nothing or whitespace is the first token |
| Text.Lower | scripts/.py:125 | `lower()` keeps the length and lowers each character |
| Text.RemoveChar | scripts/.py:120 | `replace(",", "")` leaves no comma and never lengthens the text |
| Text.Join | scripts/.py:117 | a join of a non-empty list begins with its first string |
| Text.ParseNat | scripts/.py:166 | `isdigit()` and `int()` succeed exactly on a non-empty run of ASCII digits |
| Text.RemoveCommaJoin | scripts/.py:120 | removing the commas from a comma-join gives the pieces one after the other |
| Text.ParseShowNat | scripts/.py:166 | `int()` reads back the decimal digits of a number |

## Left out

- Selenium is not modelled: the driver set-up, `driver.get`, the waits, `execute_script`, the scroll and the click on the "show more" button. A detail page is its elements as they stand after those steps, with a flag for a failed navigation and one for a page that did not become ready in time. The wait for the title succeeds when a title element exists.
- The listing's readiness wait is not modelled: a listing page is its links.
- `float()` on the rating text is the parameter `parseFloat`. Floating-point parsing is not modelled.
- Configuration loading (yaml, dotenv), logging, `os.makedirs` and path building are not modelled.
- The CSV file is the row sequence of `CsvSink`. Quoting, encoding and `file.flush()` are not modelled, and neither are `DictWriter` errors for unexpected keys.
- Building the detail URL with `.format` is folded into the `site` parameter, which maps an id to its page.
- `enumerate` and the progress log in the row loop are not modelled, because they do not change the rows.
- Pandas is modelled only as far as the genres cell: a cell pandas reads as NaN gives `"nan"`. `read_csv`, type inference, `sort_values`, `head(15)`, `mean`, `corr` and `groupby` are not modelled.
- Streamlit, matplotlib and seaborn are not modelled, because they are user interface.
- Dashboard.CellText: the NA texts are those of pandas 2.x's default `na_values`; other versions or a `na_values` argument would change the set, and `keep_default_na` is not modelled.
- Text.Lower: `str.lower()` is modelled on ASCII letters only. Other letters are left as they are.
- Text.ParseNat: `int()` and `isdigit()` accept ASCII digits only. Signs, surrounding whitespace, underscores and non-ASCII digits are treated as refusal.
- An `href` attribute that is missing (`None`) would raise `TypeError` in the `in` test. This is not modelled: every link carries a string.
- Discovery.TopBookIds: on a listing with too few distinct ids, the source never returns. The model reports this as `exhausted` and does not promise a result that the source never delivers.
