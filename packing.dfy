/**
 * `pack` of dk-sort.js: a global replace of the regular expression
 * `[\s\r]*\n[\s\r]*` by a single line feed.
 *
 * With leftmost, greedy matching a match can only start at the first
 * character of a maximal whitespace run that contains a line feed, and it
 * then extends to the end of that run. So the replacement turns every
 * maximal whitespace run containing a `\n` into a single `\n` and leaves
 * everything else alone, which is how `Pack` is written.
 */
module Packing {

  /** The characters of the class `\s` in ECMAScript: WhiteSpace and LineTerminator. */
  predicate IsWhitespace(c: char) {
    || c == '\t' || c == '\n' || c == '\U{000B}' || c == '\U{000C}' || c == '\r' || c == ' '
    || c == '\U{00A0}' || c == '\U{1680}' || ('\U{2000}' <= c <= '\U{200A}')
    || c == '\U{2028}' || c == '\U{2029}' || c == '\U{202F}' || c == '\U{205F}'
    || c == '\U{3000}' || c == '\U{FEFF}'
  }

  predicate AllWhitespace(s: string) {
    forall i :: 0 <= i < |s| ==> IsWhitespace(s[i])
  }

  /** The length of the whitespace run that `s` starts with. */
  function WsRun(s: string): (n: nat)
    ensures n <= |s|
    ensures AllWhitespace(s[..n])
    ensures n == |s| || !IsWhitespace(s[n])
  {
    if s == [] || !IsWhitespace(s[0]) then 0 else 1 + WsRun(s[1..])
  }

  function Pack(s: string): (r: string)
    ensures |r| <= |s|
    decreases |s|
  {
    if s == [] then
      []
    else if !IsWhitespace(s[0]) then
      [s[0]] + Pack(s[1..])
    else
      var n := WsRun(s);
      (if '\n' in s[..n] then "\n" else s[..n]) + Pack(s[n..])
  }

  /** The non-whitespace characters of `s`, in order. */
  function Visible(s: string): (r: string)
    ensures |r| <= |s|
  {
    if s == [] then [] else (if IsWhitespace(s[0]) then [] else [s[0]]) + Visible(s[1..])
  }

  lemma {:induction false} VisibleConcat(a: string, b: string)
    ensures Visible(a + b) == Visible(a) + Visible(b)
  {
    if a != [] {
      assert (a + b)[0] == a[0];
      assert (a + b)[1..] == a[1..] + b;
      VisibleConcat(a[1..], b);
      var head := if IsWhitespace(a[0]) then [] else [a[0]];
      assert Visible(a + b) == head + Visible(a[1..] + b);
      assert Visible(a) == head + Visible(a[1..]);
    } else {
      assert a + b == b;
    }
  }

  lemma {:induction false} VisibleOfWhitespace(s: string)
    requires AllWhitespace(s)
    ensures Visible(s) == []
  {
    if s != [] {
      VisibleOfWhitespace(s[1..]);
    }
  }

  /** Packing keeps every non-whitespace character, in order, and adds none. */
  lemma {:induction false} PackKeepsVisible(s: string)
    ensures Visible(Pack(s)) == Visible(s)
    decreases |s|
  {
    if s != [] {
      if !IsWhitespace(s[0]) {
        PackKeepsVisible(s[1..]);
        VisibleConcat([s[0]], Pack(s[1..]));
      } else {
        var n := WsRun(s);
        var run := if '\n' in s[..n] then "\n" else s[..n];
        PackKeepsVisible(s[n..]);
        VisibleConcat(run, Pack(s[n..]));
        VisibleConcat(s[..n], s[n..]);
        assert s == s[..n] + s[n..];
        VisibleOfWhitespace(run);
        VisibleOfWhitespace(s[..n]);
      }
    }
  }

  /** A string without any line feed is left as it is. */
  lemma {:induction false} PackWithoutNewline(s: string)
    requires '\n' !in s
    ensures Pack(s) == s
    decreases |s|
  {
    if s != [] {
      if !IsWhitespace(s[0]) {
        PackWithoutNewline(s[1..]);
      } else {
        var n := WsRun(s);
        PackWithoutNewline(s[n..]);
        assert s == s[..n] + s[n..];
      }
    }
  }

  /** Every line feed stands alone, with no whitespace on either side. */
  predicate Packed(r: string) {
    forall i :: 0 <= i < |r| && r[i] == '\n' ==>
      (i == 0 || !IsWhitespace(r[i - 1])) && (i + 1 == |r| || !IsWhitespace(r[i + 1]))
  }

  lemma PackedConcat(a: string, b: string)
    requires Packed(a) && Packed(b)
    requires a != [] && b != [] && a[|a| - 1] == '\n' ==> !IsWhitespace(b[0])
    requires a != [] && b != [] && b[0] == '\n' ==> !IsWhitespace(a[|a| - 1])
    ensures Packed(a + b)
  {
    var r := a + b;
    forall i | 0 <= i < |r| && r[i] == '\n'
      ensures (i == 0 || !IsWhitespace(r[i - 1])) && (i + 1 == |r| || !IsWhitespace(r[i + 1]))
    {
      if i < |a| {
        assert r[i] == a[i];
        if i + 1 < |a| { assert r[i + 1] == a[i + 1]; }
      } else {
        assert r[i] == b[i - |a|];
        if i > |a| { assert r[i - 1] == b[i - |a| - 1]; }
      }
    }
  }

  lemma PackedSuffix(r: string, k: nat)
    requires Packed(r) && k <= |r|
    ensures Packed(r[k..])
  {
    var t := r[k..];
    forall i | 0 <= i < |t| && t[i] == '\n'
      ensures (i == 0 || !IsWhitespace(t[i - 1])) && (i + 1 == |t| || !IsWhitespace(t[i + 1]))
    {
      assert t[i] == r[k + i];
    }
  }

  /** The result of packing no longer starts with whitespace when its input does not. */
  lemma PackStartsVisible(s: string)
    requires s == [] || !IsWhitespace(s[0])
    ensures Pack(s) == [] || !IsWhitespace(Pack(s)[0])
  {
  }

  /** Packing leaves no line feed next to other whitespace. */
  lemma {:induction false} PackIsPacked(s: string)
    ensures Packed(Pack(s))
    decreases |s|
  {
    if s != [] {
      if !IsWhitespace(s[0]) {
        PackIsPacked(s[1..]);
        PackedConcat([s[0]], Pack(s[1..]));
      } else {
        var n := WsRun(s);
        var run := if '\n' in s[..n] then "\n" else s[..n];
        PackIsPacked(s[n..]);
        PackStartsVisible(s[n..]);
        assert Packed(run);
        PackedConcat(run, Pack(s[n..]));
      }
    }
  }

  /** In a packed string, a whitespace run that starts without a line feed has none. */
  lemma {:induction false} PackedRunWithoutNewline(r: string)
    requires Packed(r) && r != [] && IsWhitespace(r[0]) && r[0] != '\n'
    ensures '\n' !in r[..WsRun(r)]
    decreases |r|
  {
    if |r| > 1 && IsWhitespace(r[1]) {
      PackedSuffix(r, 1);
      PackedRunWithoutNewline(r[1..]);
      assert r[..WsRun(r)] == [r[0]] + r[1..][..WsRun(r[1..])];
    } else {
      assert r[..WsRun(r)] == [r[0]];
    }
  }

  /** A packed string is a fixed point of packing. */
  lemma {:induction false} PackPacked(r: string)
    requires Packed(r)
    ensures Pack(r) == r
    decreases |r|
  {
    if r != [] {
      var n := WsRun(r);
      if !IsWhitespace(r[0]) {
        PackedSuffix(r, 1);
        PackPacked(r[1..]);
      } else if r[0] == '\n' {
        assert |r| == 1 || !IsWhitespace(r[1]);
        assert r[1..] == [] || !IsWhitespace(r[1..][0]);
        assert n == 1;
        assert r[..n] == "\n";
        PackedSuffix(r, 1);
        PackPacked(r[1..]);
        assert r == r[..1] + r[1..];
      } else {
        PackedRunWithoutNewline(r);
        PackedSuffix(r, n);
        PackPacked(r[n..]);
        assert r == r[..n] + r[n..];
      }
    }
  }

  /** `pack(pack(s)) == pack(s)`. */
  lemma PackIdempotent(s: string)
    ensures Pack(Pack(s)) == Pack(s)
  {
    PackIsPacked(s);
    PackPacked(Pack(s));
  }
}
