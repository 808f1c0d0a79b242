/**
 * The page side of dk-sort.js: the checked sort-mode radio button read by
 * `get_mode`, the entry counter, the live update entries refreshed in place
 * by `refresh`, and the file the download button hands to `download_file`.
 *
 * An entry slot holds the entry's epoch time (`data-epoch-time`) and its
 * `innerHTML`. The page itself, not the script, adds new entries between
 * refreshes; the slots are fixed during a refresh.
 */
module Page {
  import opened Wrappers
  import opened Sorting
  import opened Csv
  import opened CsvReader
  import opened CsvName

  /** `get_mode`, given the value of the checked sort-mode radio button, if there is one. */
  function GetMode(checked: Option<string>): (m: int)
    ensures m == 1 || m == -1
  {
    if checked == Some("asc") then 1 else -1
  }

  /**
   * The mode sorts oldest first exactly when the `asc` button is checked,
   * and newest first otherwise, also when no button is checked at all.
   */
  lemma ModeDirection(checked: Option<string>, s: seq<Timed<string>>)
    ensures GetMode(checked) == 1 <==> checked == Some("asc")
    ensures checked == Some("asc") ==> NonDecreasing(Times(SortSeq(s, GetMode(checked))))
    ensures checked != Some("asc") ==> NonIncreasing(Times(SortSeq(s, GetMode(checked))))
  {
    OrderedDirection(SortSeq(s, GetMode(checked)), GetMode(checked));
  }

  /**
   * With no checked button `get_mode` is -1, and the copy a refresh sorts is
   * newest first. That happens only before the panel is drawn, when the
   * refresh throws before writing, so the page is never reordered under
   * this default (see `LivePage.Refresh`).
   */
  lemma NoPanelMode(s: seq<Timed<string>>)
    ensures GetMode(None) == -1
    ensures NonIncreasing(Times(SortSeq(s, GetMode(None))))
  {
    ModeDirection(None, s);
  }

  /** The text of the `#dk-sort-count` element: `?` as drawn, then the count a refresh writes. */
  datatype CountText = Unknown | Count(n: nat)

  /** The file handed to `download_file`: its name, its type and its text before encoding. */
  datatype File = File(name: string, mime: string, text: string)

  /** The values of the sort-mode radio buttons. */
  const ModeKeys: seq<string> := ["asc", "desc"]

  /** `Array.from` over the entries: a fresh array with the same records. */
  method CopyOf(a: array<Timed<string>>) returns (b: array<Timed<string>>)
    ensures fresh(b)
    ensures b[..] == a[..]
  {
    b := new Timed<string>[a.Length];
    forall i | 0 <= i < a.Length {
      b[i] := a[i];
    }
  }

  /** The `forEach` of `refresh`: slot `i` gets record `i` of the sorted copy. */
  method WriteBack(slots: array<Timed<string>>, sorted: array<Timed<string>>)
    requires slots != sorted && slots.Length == sorted.Length
    modifies slots
    ensures slots[..] == sorted[..]
  {
    for i := 0 to slots.Length
      invariant forall k :: 0 <= k < i ==> slots[k] == sorted[k]
    {
      slots[i] := sorted[i];
    }
  }

  class LivePage {
    /** The live update entry elements, in page order. */
    var entries: array<Timed<string>>
    /** The counter element, absent until the panel is drawn. */
    var counter: Option<CountText>
    /** The value of the checked sort-mode radio button, if any. */
    var checked: Option<string>

    /** The counter and the radio buttons are drawn together, and a checked button stays checked. */
    predicate PanelConsistent()
      reads this
    {
      counter.Some? ==> checked.Some?
    }

    /** A page with the given entries, before the panel is drawn. */
    constructor (slots: seq<Timed<string>>)
      ensures fresh(entries)
      ensures entries[..] == slots
      ensures counter == None && checked == None
      ensures PanelConsistent()
    {
      entries := new Timed<string>[|slots|](i requires 0 <= i < |slots| => slots[i]);
      counter := None;
      checked := None;
    }

    /** The panel `ui_init` draws: the counter shows `?` and the oldest-first button is checked. */
    method DrawPanel()
      modifies this`counter, this`checked
      ensures counter == Some(Unknown)
      ensures checked == Some(ModeKeys[0])
      ensures PanelConsistent()
    {
      counter := Some(Unknown);
      checked := Some(ModeKeys[0]);
    }

    /**
     * `refresh`: the entries are read and sorted under the current mode,
     * the counter gets their number, and each slot is given the sorted
     * entry at its position. Without a counter element the assignment to
     * its `textContent` throws before any slot is written; `ok` is false
     * and nothing changes.
     */
    method Refresh() returns (ok: bool)
      modifies entries, this`counter
      ensures ok <==> old(counter).Some?
      ensures ok ==> entries[..] == SortSeq(old(entries[..]), GetMode(checked))
      ensures ok ==> Ordered(entries[..], GetMode(checked))
      ensures ok ==> multiset(entries[..]) == multiset(old(entries[..]))
      ensures ok ==> counter == Some(Count(entries.Length))
      ensures !ok ==> entries[..] == old(entries[..]) && counter == old(counter)
      ensures PanelConsistent() <==> old(PanelConsistent())
      ensures PanelConsistent() && checked == None ==> !ok
    {
      var mode := GetMode(checked);
      ghost var before := entries[..];
      var sorted := CopyOf(entries);
      Sort(sorted, mode);
      if counter == None {
        return false;
      }
      counter := Some(Count(entries.Length));
      WriteBack(entries, sorted);
      SortPermutation(before, mode);
      ok := true;
    }

    /**
     * A click on a sort-mode button: it becomes checked and the entries are
     * refreshed under its mode.
     */
    method ClickMode(key: string) returns (ok: bool)
      modifies entries, this`counter, this`checked
      ensures checked == Some(key)
      ensures ok <==> old(counter).Some?
      ensures ok ==> entries[..] == SortSeq(old(entries[..]), GetMode(Some(key)))
      ensures ok ==> counter == Some(Count(entries.Length))
      ensures !ok ==> entries[..] == old(entries[..]) && counter == old(counter)
      ensures PanelConsistent()
    {
      checked := Some(key);
      ok := Refresh();
    }

    /** A second refresh right after a first one changes nothing. */
    method RefreshTwice() returns (first: bool, second: bool)
      modifies entries, this`counter
      ensures first == second
      ensures first ==> entries[..] == SortSeq(old(entries[..]), GetMode(checked))
      ensures first ==> counter == Some(Count(entries.Length))
      ensures !first ==> entries[..] == old(entries[..]) && counter == old(counter)
    {
      first := Refresh();
      ghost var once := entries[..];
      second := Refresh();
      if first {
        SortIdempotent(old(entries[..]), GetMode(checked));
        assert entries[..] == SortSeq(once, GetMode(checked));
      }
    }

    /**
     * The download button: `get_csv_name` for the given time, type
     * `text/csv`, and the header and sorted rows joined by line feeds. The
     * text reads back as the header and one record per entry.
     */
    function Download(now: string, iso: int -> string, textOf: string -> string): (f: File)
      reads this, entries
      ensures f.name == GetCsvName(now) && f.mime == "text/csv"
      ensures ParseRecords(f.text) == Some([Columns] + RowRecords(SortSeq(entries[..], GetMode(checked)), iso, textOf))
    {
      ExportRoundTrip(entries[..], GetMode(checked), iso, textOf);
      File(GetCsvName(now), "text/csv", ExportText(GetCsvRows(entries[..], GetMode(checked), iso, textOf)))
    }
  }

  /**
   * After a refresh under a mode, the rows exported under that mode list
   * the entries in page order.
   */
  lemma RowsFollowRefresh(s: seq<Timed<string>>, mode: int, iso: int -> string, textOf: string -> string)
    ensures forall i :: 0 <= i < |s| ==>
      GetCsvRows(SortSeq(s, mode), mode, iso, textOf)[i] == Row(SortSeq(s, mode)[i], iso, textOf)
  {
    SortIdempotent(s, mode);
  }

  /**
   * The start of the script: `ui_init` only sets a timer, so the first
   * `refresh` finds no counter element yet and throws, leaving the entries
   * in page order.
   */
  method Start(slots: seq<Timed<string>>) returns (page: LivePage, ok: bool)
    ensures fresh(page)
    ensures !ok
    ensures page.entries[..] == slots && page.counter == None && page.checked == None
    ensures page.PanelConsistent()
  {
    page := new LivePage(slots);
    ok := page.Refresh();
  }
}
