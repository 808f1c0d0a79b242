/**
 * `get_csv_name` of dk-sort.js: the current ISO 8601 time is rewritten by
 * `replace` with the regular expression
 * `^(\d{4})-(\d{2})-(\d{2})T(\d{2}):(\d{2}):(\d{2}).*$` and the template
 * `$1$2$3-$4$5$6`, then placed in `dk-sort-entries-${ts}.csv`.
 *
 * The expression has no flags, so `^` and `$` are the ends of the whole
 * text, `\d` is an ASCII digit and `.` is any character but a line
 * terminator. When it matches, the match is the whole text; when it does
 * not, `replace` returns the text unchanged. The clock is a parameter.
 */
module CsvName {

  /** `\d`. */
  predicate IsDigit(c: char) {
    '0' <= c <= '9'
  }

  /** The characters `.` does not match: LineTerminator of ECMAScript. */
  predicate IsLineTerminator(c: char) {
    c == '\n' || c == '\r' || c == '\U{2028}' || c == '\U{2029}'
  }

  /** The positions of the six captured groups' digits in a matching text. */
  predicate DigitAt(i: int) {
    (0 <= i < 4) || (5 <= i < 7) || (8 <= i < 10) || (11 <= i < 13) || (14 <= i < 16) || (17 <= i < 19)
  }

  /** The text matches the date expression. */
  predicate Matches(s: string) {
    && |s| >= 19
    && (forall i :: 0 <= i < 19 && DigitAt(i) ==> IsDigit(s[i]))
    && s[4] == '-' && s[7] == '-' && s[10] == 'T' && s[13] == ':' && s[16] == ':'
    && (forall i :: 19 <= i < |s| ==> !IsLineTerminator(s[i]))
  }

  /** `now.replace(DATE_RE, '$1$2$3-$4$5$6')`. */
  function ReplaceDate(s: string): (r: string)
    ensures Matches(s) ==> |r| == 15
    ensures !Matches(s) ==> r == s
  {
    if Matches(s) then
      s[0..4] + s[5..7] + s[8..10] + "-" + s[11..13] + s[14..16] + s[17..19]
    else
      s
  }

  const Prefix: string := "dk-sort-entries-"
  const Suffix: string := ".csv"

  /** `get_csv_name()`, with the current time passed in. */
  function GetCsvName(now: string): (name: string)
    ensures |name| == |Prefix| + |ReplaceDate(now)| + |Suffix|
    ensures name[..|Prefix|] == Prefix
    ensures name[|name| - |Suffix|..] == Suffix
  {
    Prefix + ReplaceDate(now) + Suffix
  }

  /** Where the `k`-th character of the stamp comes from in the matched time. */
  function Source(k: int): int {
    if k < 4 then k else if k < 6 then k + 1 else if k < 11 then k + 2
    else if k < 13 then k + 3 else k + 4
  }

  /** The inverse of `Source` on the digit positions of a time. */
  function Target(i: int): int {
    if i < 4 then i else if i < 7 then i - 1 else if i < 13 then i - 2
    else if i < 16 then i - 3 else i - 4
  }

  /** The stamp character by character: a hyphen at 8, elsewhere a digit taken from the time. */
  function Stamp(s: string): (r: string)
    requires |s| >= 19
    ensures |r| == 15
  {
    seq(15, k requires 0 <= k < 15 => if k == 8 then '-' else s[Source(k)])
  }

  /** The template `$1$2$3-$4$5$6` spells out the stamp. */
  lemma TemplateIsStamp(s: string)
    requires |s| >= 19
    ensures s[0..4] + s[5..7] + s[8..10] + "-" + s[11..13] + s[14..16] + s[17..19] == Stamp(s)
  {
    var date := s[0..4] + s[5..7] + s[8..10];
    var time := s[11..13] + s[14..16] + s[17..19];
    assert date == Stamp(s)[..8];
    assert time == Stamp(s)[9..];
    assert s[0..4] + s[5..7] + s[8..10] + "-" + s[11..13] + s[14..16] + s[17..19] == date + "-" + time;
    assert Stamp(s) == Stamp(s)[..8] + "-" + Stamp(s)[9..];
  }

  /**
   * For a matching time the stamp is `YYYYMMDD-HHMMSS`: fifteen characters,
   * a hyphen in the middle and every other one the time's digit at its place.
   */
  lemma StampShape(s: string)
    requires Matches(s)
    ensures |ReplaceDate(s)| == 15
    ensures ReplaceDate(s)[8] == '-'
    ensures forall k :: 0 <= k < 15 && k != 8 ==> DigitAt(Source(k)) && ReplaceDate(s)[k] == s[Source(k)]
    ensures forall k :: 0 <= k < 15 && k != 8 ==> IsDigit(ReplaceDate(s)[k])
  {
    TemplateIsStamp(s);
  }

  /** A matching time gives a name of 35 characters: prefix, stamp and suffix. */
  lemma NameLength(now: string)
    requires Matches(now)
    ensures |GetCsvName(now)| == 35
  {
  }

  /** A time the expression does not match is kept as it is between prefix and suffix. */
  lemma NameWithoutMatch(now: string)
    requires !Matches(now)
    ensures GetCsvName(now) == Prefix + now + Suffix
  {
  }

  lemma SameStamp(a: string, b: string)
    requires Matches(a) && Matches(b)
    ensures Stamp(a) == Stamp(b) <==> a[..19] == b[..19]
  {
    if Stamp(a) == Stamp(b) {
      forall i | 0 <= i < 19
        ensures a[i] == b[i]
      {
        if DigitAt(i) {
          assert Source(Target(i)) == i;
          assert Stamp(a)[Target(i)] == Stamp(b)[Target(i)];
        }
      }
    }
  }

  /**
   * Two matching times give the same name exactly when they agree up to
   * the seconds: the name keeps the date and time and drops the rest.
   */
  lemma NameIdentifiesSecond(a: string, b: string)
    requires Matches(a) && Matches(b)
    ensures GetCsvName(a) == GetCsvName(b) <==> a[..19] == b[..19]
  {
    TemplateIsStamp(a);
    TemplateIsStamp(b);
    SameStamp(a, b);
    assert ReplaceDate(a) == GetCsvName(a)[|Prefix|..|Prefix| + 15];
    assert ReplaceDate(b) == GetCsvName(b)[|Prefix|..|Prefix| + 15];
  }

  const ExampleTime: string := "2024-03-05T07:08:09.123Z"

  lemma ExampleMatches()
    ensures Matches(ExampleTime)
  {
    var s := ExampleTime;
    assert forall i :: 0 <= i < 19 && DigitAt(i) ==> IsDigit(s[i]);
    assert forall i :: 19 <= i < |s| ==> !IsLineTerminator(s[i]);
  }

  lemma ExampleStamp()
    ensures Stamp(ExampleTime) == "20240305-070809"
  {
  }

  /** The name of a download made at 07:08:09.123 UTC on 5 March 2024. */
  lemma NameExample()
    ensures GetCsvName(ExampleTime) == "dk-sort-entries-20240305-070809.csv"
  {
    ExampleMatches();
    ExampleStamp();
    TemplateIsStamp(ExampleTime);
  }
}
