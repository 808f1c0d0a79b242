/**
 * A reader for the CSV the script writes, after section 2 of RFC 4180 with
 * a bare line feed as the record separator: a field is either quoted (a
 * doubled quote inside standing for one quote) or bare (read up to the
 * next comma or line feed). It is the partner that the writer's round-trip
 * lemmas are stated against.
 */
module CsvReader {
  import opened Wrappers
  import opened Sorting
  import opened Csv

  /** Reads the rest of a quoted field, after its opening quote, through its closing quote. */
  function ParseQuoted(s: string): (r: Option<(string, string)>)
    ensures r.Some? ==> |r.value.1| < |s|
    decreases |s|
  {
    if s == [] then
      None
    else if s[0] == '"' then
      if |s| > 1 && s[1] == '"' then
        match ParseQuoted(s[2..])
        case None => None
        case Some((v, rest)) => Some(("\"" + v, rest))
      else
        Some(("", s[1..]))
    else
      match ParseQuoted(s[1..])
      case None => None
      case Some((v, rest)) => Some(([s[0]] + v, rest))
  }

  /** The length of the bare field `s` starts with. */
  function BareLength(s: string): (n: nat)
    ensures n <= |s|
    ensures n < |s| ==> s[n] == ',' || s[n] == '\n'
  {
    if s == [] || s[0] == ',' || s[0] == '\n' then 0 else 1 + BareLength(s[1..])
  }

  /** Reads one field; returns its value and what follows it. */
  function ParseField(s: string): (r: Option<(string, string)>)
    ensures r.Some? ==> |r.value.1| <= |s|
    ensures r.Some? && |r.value.1| == |s| && s != [] ==> s[0] == ',' || s[0] == '\n'
  {
    if s != [] && s[0] == '"' then
      ParseQuoted(s[1..])
    else
      var n := BareLength(s);
      Some((s[..n], s[n..]))
  }

  /** Reads one record: fields separated by commas, ended by a line feed or the end of the text. */
  function ParseRecord(s: string): (r: Option<(seq<string>, string)>)
    ensures r.Some? ==> |r.value.0| > 0 && |r.value.1| <= |s|
    ensures r.Some? && s != [] ==> |r.value.1| < |s|
    decreases |s|
  {
    match ParseField(s)
    case None => None
    case Some((f, rest)) =>
      if rest == [] then
        Some(([f], []))
      else if rest[0] == '\n' then
        Some(([f], rest[1..]))
      else if rest[0] == ',' then
        match ParseRecord(rest[1..])
        case None => None
        case Some((fs, tail)) => Some(([f] + fs, tail))
      else
        None
  }

  /** Reads a whole text as a sequence of records. */
  function ParseRecords(s: string): (r: Option<seq<seq<string>>>)
    decreases |s|
  {
    if s == [] then
      Some([])
    else
      match ParseRecord(s)
      case None => None
      case Some((fs, rest)) =>
        match ParseRecords(rest)
        case None => None
        case Some(more) => Some([fs] + more)
  }

  /** What is left after a record's terminator. */
  function AfterTerminator(ending: string): string {
    if ending == [] then [] else ending[1..]
  }

  predicate Terminator(ending: string) {
    ending == [] || ending[0] == '\n'
  }

  lemma {:induction false} ParseQuotedEscape(v: string, rest: string)
    requires rest == [] || rest[0] != '"'
    ensures ParseQuoted(Escape(v) + "\"" + rest) == Some((v, rest))
  {
    var s := Escape(v) + "\"" + rest;
    if v == [] {
      assert s == "\"" + rest;
      assert s[1..] == rest;
    } else {
      ParseQuotedEscape(v[1..], rest);
      var tail := Escape(v[1..]) + "\"" + rest;
      if v[0] == '"' {
        assert s == "\"\"" + tail;
        assert s[2..] == tail;
      } else {
        assert s == [v[0]] + tail;
        assert s[1..] == tail;
      }
      assert v == [v[0]] + v[1..];
    }
  }

  /** Reading a quoted cell back gives the value it was made from, and stops right after it. */
  lemma CsvCellRoundTrip(v: string, rest: string)
    requires rest == [] || rest[0] != '"'
    ensures ParseField(CsvCell(v) + rest) == Some((v, rest))
  {
    var s := CsvCell(v) + rest;
    assert s[1..] == Escape(v) + "\"" + rest;
    ParseQuotedEscape(v, rest);
  }

  lemma RecordEnds(s: string, f: string, ending: string)
    requires ParseField(s) == Some((f, ending))
    requires Terminator(ending)
    ensures ParseRecord(s) == Some(([f], AfterTerminator(ending)))
  {
  }

  lemma RecordContinues(s: string, f: string, t: string, fs: seq<string>, tail: string)
    requires ParseField(s) == Some((f, "," + t))
    requires ParseRecord(t) == Some((fs, tail))
    ensures ParseRecord(s) == Some(([f] + fs, tail))
  {
    assert ("," + t)[1..] == t;
  }

  lemma LineCons(vs: seq<string>)
    requires |vs| > 1
    ensures Line(vs) == CsvCell(vs[0]) + "," + Line(vs[1..])
  {
    var qs := Cells(vs);
    assert qs == [qs[0]] + qs[1..];
    assert qs[1..] == Cells(vs[1..]);
    JoinCons(qs[0], qs[1..], ",");
  }

  lemma LineOfOne(vs: seq<string>, ending: string)
    requires |vs| == 1
    requires Terminator(ending)
    ensures ParseRecord(Line(vs) + ending) == Some((vs, AfterTerminator(ending)))
  {
    assert Line(vs) == CsvCell(vs[0]);
    CsvCellRoundTrip(vs[0], ending);
    RecordEnds(Line(vs) + ending, vs[0], ending);
    assert [vs[0]] == vs;
  }

  lemma Associate(a: string, b: string, c: string, d: string)
    ensures a + b + c + d == a + (b + (c + d))
  {
  }

  lemma LineSplit(vs: seq<string>, ending: string)
    requires |vs| > 1
    ensures Line(vs) + ending == CsvCell(vs[0]) + ("," + (Line(vs[1..]) + ending))
  {
    LineCons(vs);
    Associate(CsvCell(vs[0]), ",", Line(vs[1..]), ending);
  }

  lemma LineOfMore(vs: seq<string>, ending: string)
    requires |vs| > 1
    requires ParseRecord(Line(vs[1..]) + ending) == Some((vs[1..], AfterTerminator(ending)))
    ensures ParseRecord(Line(vs) + ending) == Some((vs, AfterTerminator(ending)))
  {
    var tail := Line(vs[1..]) + ending;
    LineSplit(vs, ending);
    CsvCellRoundTrip(vs[0], "," + tail);
    RecordContinues(Line(vs) + ending, vs[0], tail, vs[1..], AfterTerminator(ending));
    assert [vs[0]] + vs[1..] == vs;
  }

  /** Reading a line of quoted cells gives back the values, one field per cell. */
  lemma {:induction false} LineRoundTrip(vs: seq<string>, ending: string)
    requires |vs| > 0
    requires Terminator(ending)
    ensures ParseRecord(Line(vs) + ending) == Some((vs, AfterTerminator(ending)))
  {
    if |vs| == 1 {
      LineOfOne(vs, ending);
    } else {
      LineRoundTrip(vs[1..], ending);
      LineOfMore(vs, ending);
    }
  }

  /** An entry's row string reads back as its three values: ISO time, packed text and html. */
  lemma RowRoundTrip(e: Timed<string>, iso: int -> string, textOf: string -> string)
    ensures ParseRecord(Row(e, iso, textOf)) == Some((RowValues(e, iso, textOf), []))
  {
    var vs := RowValues(e, iso, textOf);
    LineRoundTrip(vs, []);
    assert Line(vs) + [] == Line(vs);
  }

  /** A field that can be written bare: no comma, line feed or double quote. */
  predicate Bare(v: string) {
    forall i :: 0 <= i < |v| ==> v[i] != ',' && v[i] != '\n' && v[i] != '"'
  }

  lemma {:induction false} BareLengthOf(v: string, rest: string)
    requires Bare(v)
    requires rest == [] || rest[0] == ',' || rest[0] == '\n'
    ensures BareLength(v + rest) == |v|
  {
    if v != [] {
      assert (v + rest)[1..] == v[1..] + rest;
      BareLengthOf(v[1..], rest);
    } else {
      assert v + rest == rest;
    }
  }

  lemma BareFieldRoundTrip(v: string, rest: string)
    requires Bare(v)
    requires rest == [] || rest[0] == ',' || rest[0] == '\n'
    ensures ParseField(v + rest) == Some((v, rest))
  {
    var s := v + rest;
    BareLengthOf(v, rest);
    assert s[..|v|] == v && s[|v|..] == rest;
    assert v != [] ==> s[0] == v[0];
  }

  /** Reading a line of bare fields joined by commas gives back the fields. */
  lemma {:induction false} BareLineRoundTrip(vs: seq<string>, ending: string)
    requires |vs| > 0
    requires forall i :: 0 <= i < |vs| ==> Bare(vs[i])
    requires Terminator(ending)
    ensures ParseRecord(Join(vs, ",") + ending) == Some((vs, AfterTerminator(ending)))
  {
    if |vs| == 1 {
      BareFieldRoundTrip(vs[0], ending);
      RecordEnds(vs[0] + ending, vs[0], ending);
      assert [vs[0]] == vs;
    } else {
      var tail := Join(vs[1..], ",") + ending;
      JoinCons(vs[0], vs[1..], ",");
      assert vs == [vs[0]] + vs[1..];
      assert Join(vs, ",") + ending == vs[0] + ("," + tail);
      BareFieldRoundTrip(vs[0], "," + tail);
      BareLineRoundTrip(vs[1..], ending);
      RecordContinues(Join(vs, ",") + ending, vs[0], tail, vs[1..], AfterTerminator(ending));
    }
  }

  /** Reading the header line gives back the three column names. */
  lemma HeaderRoundTrip(ending: string)
    requires Terminator(ending)
    ensures ParseRecord(CsvCols() + ending) == Some((Columns, AfterTerminator(ending)))
  {
    assert Bare(Columns[0]) && Bare(Columns[1]) && Bare(Columns[2]);
    BareLineRoundTrip(Columns, ending);
    assert CsvCols() == Join(Columns, ",");
  }

  /** The lines of a sequence of records, each a line of quoted cells. */
  function Lines(recs: seq<seq<string>>): (ls: seq<string>)
    ensures |ls| == |recs|
    ensures forall i :: 0 <= i < |recs| ==> ls[i] == Line(recs[i])
  {
    seq(|recs|, i requires 0 <= i < |recs| => Line(recs[i]))
  }

  lemma LineNonEmpty(vs: seq<string>)
    requires |vs| > 0
    ensures |Line(vs)| > 0
  {
    LineRoundTrip(vs, []);
  }

  lemma RecordsCons(s: string, fs: seq<string>, rest: string, more: seq<seq<string>>)
    requires s != []
    requires ParseRecord(s) == Some((fs, rest))
    requires ParseRecords(rest) == Some(more)
    ensures ParseRecords(s) == Some([fs] + more)
  {
  }

  lemma LinesOfOne(recs: seq<seq<string>>)
    requires |recs| == 1 && |recs[0]| > 0
    ensures ParseRecords(Join(Lines(recs), "\n")) == Some(recs)
  {
    var s := Line(recs[0]);
    assert Join(Lines(recs), "\n") == s;
    LineRoundTrip(recs[0], []);
    LineNonEmpty(recs[0]);
    assert s + [] == s;
    RecordsCons(s, recs[0], [], []);
    assert [recs[0]] + [] == recs;
  }

  lemma LinesSplit(recs: seq<seq<string>>)
    requires |recs| > 1
    ensures Join(Lines(recs), "\n") == Line(recs[0]) + ("\n" + Join(Lines(recs[1..]), "\n"))
  {
    var ls := Lines(recs);
    assert ls == [ls[0]] + ls[1..];
    assert ls[1..] == Lines(recs[1..]);
    JoinCons(ls[0], ls[1..], "\n");
  }

  lemma LinesOfMore(recs: seq<seq<string>>)
    requires |recs| > 1 && |recs[0]| > 0
    requires ParseRecords(Join(Lines(recs[1..]), "\n")) == Some(recs[1..])
    ensures ParseRecords(Join(Lines(recs), "\n")) == Some(recs)
  {
    var tail := Join(Lines(recs[1..]), "\n");
    LinesSplit(recs);
    LineRoundTrip(recs[0], "\n" + tail);
    assert ("\n" + tail)[1..] == tail;
    LineNonEmpty(recs[0]);
    RecordsCons(Join(Lines(recs), "\n"), recs[0], tail, recs[1..]);
    assert [recs[0]] + recs[1..] == recs;
  }

  /** Reading quoted lines joined by line feeds gives back every record, in order. */
  lemma {:induction false} LinesRoundTrip(recs: seq<seq<string>>)
    requires forall i :: 0 <= i < |recs| ==> |recs[i]| > 0
    ensures ParseRecords(Join(Lines(recs), "\n")) == Some(recs)
  {
    if |recs| == 1 {
      LinesOfOne(recs);
    } else if |recs| > 1 {
      LinesRoundTrip(recs[1..]);
      LinesOfMore(recs);
    }
  }

  /** The records of entries in the given order: one row of three values per entry. */
  function RowRecords(es: seq<Timed<string>>, iso: int -> string, textOf: string -> string): (recs: seq<seq<string>>)
    ensures |recs| == |es|
    ensures forall i :: 0 <= i < |es| ==> recs[i] == RowValues(es[i], iso, textOf)
  {
    seq(|es|, i requires 0 <= i < |es| => RowValues(es[i], iso, textOf))
  }

  /**
   * The exported text reads back as the header followed by one record of
   * exactly three fields per entry: ISO time, packed text and html, in the
   * order the sort mode gives.
   */
  lemma ExportRoundTrip(entries: seq<Timed<string>>, mode: int, iso: int -> string, textOf: string -> string)
    ensures ParseRecords(ExportText(GetCsvRows(entries, mode, iso, textOf)))
         == Some([Columns] + RowRecords(SortSeq(entries, mode), iso, textOf))
  {
    var rows := GetCsvRows(entries, mode, iso, textOf);
    var recs := RowRecords(SortSeq(entries, mode), iso, textOf);
    assert ParseRecords(Join(rows, "\n")) == Some(recs) by {
      assert rows == Lines(recs);
      LinesRoundTrip(recs);
    }
    var header := CsvCols();
    assert header != [];
    if rows == [] {
      assert ExportText(rows) == header + [] by {
        assert [header] + rows == [header];
      }
      HeaderRoundTrip([]);
      RecordsCons(header + [], Columns, [], []);
      assert recs == [];
    } else {
      var tail := Join(rows, "\n");
      assert ExportText(rows) == header + ("\n" + tail) by {
        JoinCons(header, rows, "\n");
      }
      HeaderRoundTrip("\n" + tail);
      assert ("\n" + tail)[1..] == tail;
      RecordsCons(header + ("\n" + tail), Columns, tail, recs);
    }
  }
}
