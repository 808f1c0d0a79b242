# dk-sort, modelled in Dafny

dk-sort is a browser content script for Daily Kos live update pages. It re-sorts
the page's live update entries by their epoch time, oldest or newest first, as
chosen with two radio buttons. It shows how many entries there are. It also
offers the entries as a CSV download with one row per entry: ISO 8601 time,
packed plain text and raw html.

This project models the computing core of `dk-sort.js` and proves properties of it:

- `sorting.dfy` (module `Sorting`): the comparator `mode * (a.t - b.t)`.
  - `SortSeq` is the order `sort` leaves as a value: a stable insertion sort,
    because `Array.prototype.sort` is stable.
  - `Sort` sorts an array in place and is proved to leave exactly `SortSeq`
    of the old contents.
  - Lemmas prove the result is ordered, is a permutation and is idempotent.
    Mode 1 gives non-decreasing times and mode -1 non-increasing ones, one
    the reverse of the other. Tie order cannot be seen in the timestamps.
- `packing.dfy` (module `Packing`): `pack`, the global replace of
  `[\s\r]*\n[\s\r]*` by a line feed.
  - It is written as "each maximal whitespace run that holds a line feed
    becomes one line feed". Leftmost, greedy matching gives exactly that.
  - Lemmas prove it keeps every non-whitespace character in order, leaves
    text without a line feed alone, yields a packed string, fixes every
    packed string, and is idempotent.
- `csv.dfy` (module `Csv`): `csv_cell`, `CSV_COLS`, the rows of `get_csv_rows`,
  and the text `encode_rows` builds before encoding: it receives the list
  `[CSV_COLS].concat(rows)` and joins it with `"\n"`.
- `csv_reader.dfy` (module `CsvReader`): a CSV reader following section 2 of
  RFC 4180, with a line feed as record separator.
  - It is the partner of the writer: a cell, a line, the header and the
    whole export read back as exactly the values written.
- `csv_name.dfy` (module `CsvName`): `get_csv_name`, the date regular
  expression's replace and the file name template around it.
- `page.dfy` (module `Page`): `get_mode` as a function of the checked radio
  button, and the class `LivePage`.
  - `LivePage` holds the entry slots as an array, the counter element (absent
    until the panel is drawn) and the checked button.
  - Its methods are `refresh`, which permutes the slots in place, the mode
    click and the panel drawing.
  - Its function `Download` gives the file the download button hands to
    `download_file`.
- `wrappers.dfy` (module `Wrappers`): `Option`.

Where the code and its comments differ, the model follows the code:

- `get_mode` (`dk-sort.js:140-143`): the comment says that with no checked
  button the mode defaults to "oldest first". The code yields -1, which is
  newest first. `Page.NoPanelMode` states what the code does.
  - No button is checked only before the panel is drawn, and then the
    refresh throws before writing (below). So the page is never reordered
    under this default; only a discarded sorted copy is.
  - `Page.LivePage.PanelConsistent` (a counter implies a checked button)
    holds from the start and after every method. `Page.LivePage.Refresh`
    proves that with no checked button it writes nothing.
- `refresh` (`dk-sort.js:207-224`): the comment says it is called on init.
  - At that call (`dk-sort.js:290`) the panel is not drawn yet, so
    `document.querySelector(S.count)` is `null`.
  - The assignment to its `textContent` then throws before any entry is
    written, and the same holds for every timer tick until the panel exists.
  - `Page.LivePage.Refresh` returns `ok == false` and changes nothing in that
    case. `Page.Start` states it for the first call.

## Model

| member | source | states |
|---|---|---|
| Sorting.Compare | dk-sort.js:147 | the comparator's value is the difference of the records' mode-signed times, so it orders by `mode * t` |
| Sorting.SortSeq | dk-sort.js:146-149 | the sorted sequence has the input's length and every pair of records is in order under the comparator |
| Sorting.SortPermutation | dk-sort.js:146-149 | the sorted sequence holds exactly the input's records (same multiset) |
| Sorting.SortOrderedIsIdentity | dk-sort.js:146-149 | an already ordered sequence is left as it is |
| Sorting.SortIdempotent | dk-sort.js:146-149 | sorting twice under one mode gives what sorting once gives |
| Sorting.OrderedDirection | dk-sort.js:140-147 | under mode 1 the times of an ordered sequence never decrease; under mode -1 they never increase |
| Sorting.ModesAreReverse | dk-sort.js:146-149 | newest-first lists the timestamps of oldest-first in reverse |
| Sorting.OrderedPermutationTimes | dk-sort.js:146-149 | any ordered permutation of the input has the same timestamp sequence as the sort, so tie order is invisible in the times |
| Sorting.SortRelabel | dk-sort.js:161-177 | replacing each record's payload by a function of the record and sorting commutes, so the rows follow the order of the records |
| Sorting.Sort | dk-sort.js:146-149 | the array afterwards holds `SortSeq` of its old contents |
| Packing.Pack | dk-sort.js:159 | packing never makes the text longer |
| Packing.WsRun | dk-sort.js:159 | the run found is all whitespace and maximal |
| Packing.PackKeepsVisible | dk-sort.js:159 | the non-whitespace characters of the packed text are those of the input, in order |
| Packing.PackWithoutNewline | dk-sort.js:159 | a text with no line feed is left unchanged, whatever other whitespace it holds |
| Packing.PackIsPacked | dk-sort.js:159 | in packed text no line feed has whitespace next to it |
| Packing.PackPacked | dk-sort.js:159 | a text with every line feed standing alone is left unchanged |
| Packing.PackIdempotent | dk-sort.js:159 | `pack(pack(s)) == pack(s)` |
| Csv.CsvCols | dk-sort.js:123 | the header is `time_utc,text,html` |
| Csv.Escape | dk-sort.js:138 | escaping adds one character per double quote of the value |
| Csv.EscapeDoublesQuotes | dk-sort.js:138 | the escaped text holds twice as many double quotes as the value |
| Csv.CsvCell | dk-sort.js:138 | the cell starts and ends with a quote, is the value's length plus its quote count plus two long, and is `""` for the empty value |
| Csv.JoinLength | dk-sort.js:182 | the joined text is every string once plus one separator between each pair of neighbours, in length; a single string is returned as it is |
| Csv.RowValues | dk-sort.js:169-173 | a row has three values |
| Csv.GetCsvRows | dk-sort.js:161-178 | one row per entry, row `i` being the row of the `i`-th entry in sorted order |
| CsvReader.CsvCellRoundTrip | dk-sort.js:138 | reading a cell back gives the original value and stops right after the closing quote |
| CsvReader.LineRoundTrip | dk-sort.js:173 | `vs.map(csv_cell).join(',')` reads back as exactly the values, one field per cell, in order |
| CsvReader.RowRoundTrip | dk-sort.js:169-173 | an entry's row string reads back as exactly three fields: its ISO time, its packed text and its html |
| CsvReader.HeaderRoundTrip | dk-sort.js:123 | the header reads back as the three column names |
| CsvReader.LinesRoundTrip | dk-sort.js:181-182 | rows joined by line feeds read back as the records, in order |
| Csv.ExportText | dk-sort.js:181-182 | the text begins with the header; with rows, a line feed follows it and then the rows joined by line feeds; without rows it is the header alone |
| CsvReader.ExportRoundTrip | dk-sort.js:242 | the exported text reads back as the header and, for each entry in sorted order, its time, packed text and html |
| CsvName.ReplaceDate | dk-sort.js:153-155 | a time matching the expression becomes a 15-character stamp; any other text is returned unchanged |
| CsvName.GetCsvName | dk-sort.js:151-156 | the name is `dk-sort-entries-`, then the stamp, then `.csv` |
| CsvName.StampShape | dk-sort.js:153-155 | the stamp is `YYYYMMDD-HHMMSS`: a hyphen at position 8 and the matched digits everywhere else |
| CsvName.NameLength | dk-sort.js:151-156 | a matching time gives a 35-character name |
| CsvName.NameWithoutMatch | dk-sort.js:155 | a time the expression does not match appears unchanged between prefix and suffix |
| CsvName.NameIdentifiesSecond | dk-sort.js:153-155 | two matching times give the same name if and only if they agree up to the seconds |
| CsvName.NameExample | dk-sort.js:151-156 | `2024-03-05T07:08:09.123Z` gives `dk-sort-entries-20240305-070809.csv` |
| Page.GetMode | dk-sort.js:143 | the mode is 1 or -1 |
| Page.ModeDirection | dk-sort.js:140-143 | the mode is 1 exactly when `asc` is checked; entries then go oldest first, otherwise newest first |
| Page.NoPanelMode | dk-sort.js:140-143 | with no checked button the mode is -1 and the copy a refresh sorts is newest first; the page itself is not reordered then, see `Page.LivePage.Refresh` |
| Page.CopyOf | dk-sort.js:211 | `Array.from` over the entries gives a fresh array holding the same records in the same order |
| Page.WriteBack | dk-sort.js:220-223 | after the `forEach`, slot `i` holds record `i` of the sorted copy, for every slot |
| Page.LivePage.DrawPanel | dk-sort.js:252-285 | after drawing, the counter shows `?`, the oldest-first button is checked, and a counter implies a checked button |
| Page.LivePage.Refresh | dk-sort.js:207-224 | with a counter: the slots hold the sorted entries, ordered and a permutation of the old ones, and the counter shows their number; without one: nothing changes; a counter-implies-checked page stays so, and with no checked button nothing is written |
| Page.LivePage.ClickMode | dk-sort.js:227-232 | after a click on a mode button that button is checked; with a counter the entries are then sorted by its mode and counted, without one they stay as they were |
| Page.LivePage.RefreshTwice | dk-sort.js:207-224 | a second refresh keeps the entries and the count the first one left |
| Page.LivePage.Download | dk-sort.js:238-243 | the file is named by `get_csv_name`, typed `text/csv`, and its text reads back as header plus sorted entry records |
| Page.RowsFollowRefresh | dk-sort.js:161-178 | after a refresh under a mode, the rows exported under that mode follow the page order |
| Page.Start | dk-sort.js:288-290 | the initial refresh fails for lack of a counter and leaves the entries in page order, with no counter and no checked button |

## Left out

- Timers are not modelled: `setInterval` with its 3000 ms delay, the 500 ms
  panel poll and the 10 ms `setTimeout` of the mode handler. `ClickMode`
  refreshes at once.
- DOM rendering is not modelled beyond the counter and the checked button:
  the panel's html templates, styles, the About dialog and the attaching of
  event listeners.
- `download_file` is not modelled: the data URL, the temporary anchor and
  its click. `Download` returns the name, type and text it would be given.
- `encode_rows`: the UTF-8 encoding by `TextEncoder` and the base64 step by
  `btoa` are left out. The model stops at the joined text.
- `iso8601` and `now` (`Date.prototype.toISOString`) are parameters, and
  the RangeError for times out of range is not modelled.
- An element's `textContent` is a parameter, a function of its html.
- `et` (`+e.dataset.epochTime`) is a JavaScript number. The model uses
  integers, so NaN, fractions, infinities and the inconsistent comparator
  NaN would cause are not modelled.
- `CsvCell`: `(v || '').toString()` matters only for values that are not
  strings. Every value here is a string, for which it is the value itself.
- Strings are sequences of Unicode scalar values. JavaScript's UTF-16 code
  units and lone surrogates are not modelled.
- Entries added by the page between refreshes are not modelled: the number
  of slots is fixed.
- `Pack` is written from the regular expression's leftmost-greedy meaning
  as argued in `packing.dfy`. There is no model of a regular expression
  engine.
- `ReplaceDate` is written the same way from the date expression's meaning.
