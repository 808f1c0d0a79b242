/**
 * The CSV side of dk-sort.js: quoting a cell (`csv_cell`), building one row
 * per entry (`get_csv_rows`), the header `CSV_COLS`, and the line-feed join
 * that `encode_rows` applies before the text is UTF-8 encoded and base64'd.
 *
 * `iso8601` (Date.prototype.toISOString) and an element's `textContent`
 * are not modelled; they are passed in as functions.
 */
module Csv {
  import opened Sorting
  import opened Packing

  /** The summed length of the strings. */
  function TotalLength(xs: seq<string>): nat {
    if xs == [] then 0 else |xs[0]| + TotalLength(xs[1..])
  }

  /** `arr.join(sep)`: every string once, in order, with one separator between neighbours. */
  function Join(xs: seq<string>, sep: string): (r: string)
    ensures |xs| == 1 ==> r == xs[0]
  {
    if |xs| == 0 then "" else if |xs| == 1 then xs[0] else xs[0] + sep + Join(xs[1..], sep)
  }

  /** The joined text holds every string once and one separator between each pair of neighbours. */
  lemma {:induction false} JoinLength(xs: seq<string>, sep: string)
    ensures |Join(xs, sep)| == TotalLength(xs) + (if xs == [] then 0 else (|xs| - 1) * |sep|)
  {
    if |xs| > 1 {
      JoinLength(xs[1..], sep);
    }
  }

  lemma JoinCons(x: string, xs: seq<string>, sep: string)
    requires xs != []
    ensures Join([x] + xs, sep) == x + sep + Join(xs, sep)
  {
    assert ([x] + xs)[1..] == xs;
  }

  /** The column names of the header row. */
  const Columns: seq<string> := ["time_utc", "text", "html"]

  /** `CSV_COLS`. */
  function CsvCols(): (r: string)
    ensures r == "time_utc,text,html"
  {
    JoinCons("time_utc", ["text", "html"], ",");
    JoinCons("text", ["html"], ",");
    assert Columns == ["time_utc"] + ["text", "html"];
    assert ["text", "html"] == ["text"] + ["html"];
    Join(Columns, ",")
  }

  /** How many double quotes `v` holds. */
  function Quotes(v: string): (n: nat)
    ensures n <= |v|
  {
    if v == [] then 0 else (if v[0] == '"' then 1 else 0) + Quotes(v[1..])
  }

  /** `replaceAll('"', '""')`. */
  function Escape(v: string): (e: string)
    ensures |e| == |v| + Quotes(v)
  {
    if v == [] then [] else (if v[0] == '"' then "\"\"" else [v[0]]) + Escape(v[1..])
  }

  /** Every quote of the value becomes two, and no other quote appears. */
  lemma {:induction false} EscapeDoublesQuotes(v: string)
    ensures Quotes(Escape(v)) == 2 * Quotes(v)
  {
    if v != [] {
      EscapeDoublesQuotes(v[1..]);
      QuotesConcat(if v[0] == '"' then "\"\"" else [v[0]], Escape(v[1..]));
    }
  }

  lemma {:induction false} QuotesConcat(a: string, b: string)
    ensures Quotes(a + b) == Quotes(a) + Quotes(b)
  {
    if a == [] {
      assert a + b == b;
    } else {
      assert (a + b)[1..] == a[1..] + b;
      QuotesConcat(a[1..], b);
    }
  }

  /** `csv_cell`: the value between double quotes, its own quotes doubled. */
  function CsvCell(v: string): (c: string)
    ensures |c| == |v| + Quotes(v) + 2
    ensures c[0] == '"' && c[|c| - 1] == '"'
    ensures v == [] ==> c == "\"\""
  {
    "\"" + Escape(v) + "\""
  }

  /** `vs.map(csv_cell)`. */
  function Cells(vs: seq<string>): (cs: seq<string>)
    ensures |cs| == |vs|
    ensures forall i :: 0 <= i < |vs| ==> cs[i] == CsvCell(vs[i])
  {
    seq(|vs|, i requires 0 <= i < |vs| => CsvCell(vs[i]))
  }

  /** `vs.map(csv_cell).join(',')`. */
  function Line(vs: seq<string>): string {
    Join(Cells(vs), ",")
  }

  /** The three values of an entry's row: its ISO time, its packed text and its html. */
  function RowValues(e: Timed<string>, iso: int -> string, textOf: string -> string): (vs: seq<string>)
    ensures |vs| == 3
  {
    [iso(e.t), Pack(textOf(e.val)), e.val]
  }

  /** The row string `s` built for an entry. */
  function Row(e: Timed<string>, iso: int -> string, textOf: string -> string): string {
    Line(RowValues(e, iso, textOf))
  }

  /**
   * `get_csv_rows(mode)`: `{t, s}` pairs are sorted by `t` and their `s`
   * kept. Row `i` is the row of the `i`-th entry in sorted order, the same
   * order a refresh gives the entry slots.
   */
  function GetCsvRows(entries: seq<Timed<string>>, mode: int, iso: int -> string, textOf: string -> string): (rows: seq<string>)
    ensures |rows| == |entries|
    ensures forall i :: 0 <= i < |rows| ==> rows[i] == Row(SortSeq(entries, mode)[i], iso, textOf)
  {
    var row := (e: Timed<string>) => Row(e, iso, textOf);
    SortRelabel(entries, row, mode);
    Vals(SortSeq(Relabel(entries, row), mode))
  }

  /**
   * The text `encode_rows` builds, by joining with line feeds the list
   * `[CSV_COLS].concat(rows)` it receives from the download handler, before
   * encoding it.
   */
  function ExportText(rows: seq<string>): (text: string)
    ensures |text| >= |CsvCols()| && text[..|CsvCols()|] == CsvCols()
    ensures rows == [] ==> text == CsvCols()
    ensures rows != [] ==> |text| > |CsvCols()| && text[|CsvCols()|] == '\n' && text[|CsvCols()| + 1..] == Join(rows, "\n")
  {
    var header := CsvCols();
    if rows == [] then
      assert [header] + rows == [header];
      Join([header] + rows, "\n")
    else
      JoinCons(header, rows, "\n");
      assert (header + "\n" + Join(rows, "\n"))[|header| + 1..] == Join(rows, "\n");
      Join([header] + rows, "\n")
  }
}
