/**
 * The sorter of dk-sort.js: records carrying a numeric epoch timestamp `t`
 * are ordered by the comparator `mode * (a.t - b.t)`, where the mode is +1
 * (oldest first) or -1 (newest first).
 *
 * `SortSeq` is the order as a value (used where the script only computes,
 * as for the CSV rows); `Sort` is the in-place sort of an array, proved to
 * leave exactly `SortSeq` of the old contents behind.
 */
module Sorting {

  /** A record with the timestamp the comparator reads and a payload it ignores. */
  datatype Timed<V> = Timed(t: int, val: V)

  /** The key that the comparator effectively orders by. */
  function Key<V>(x: Timed<V>, mode: int): int {
    mode * x.t
  }

  /** The comparator passed to Array.prototype.sort: negative or zero keeps `a` first. */
  function Compare<V>(a: Timed<V>, b: Timed<V>, mode: int): (c: int)
    ensures c == Key(a, mode) - Key(b, mode)
  {
    mode * (a.t - b.t)
  }

  /** No pair of records is out of order under the comparator. */
  predicate Ordered<V>(s: seq<Timed<V>>, mode: int) {
    forall i, j :: 0 <= i < j < |s| ==> Key(s[i], mode) <= Key(s[j], mode)
  }

  /** The timestamps of a sequence of records, in order. */
  function Times<V>(s: seq<Timed<V>>): (ts: seq<int>)
    ensures |ts| == |s|
  {
    seq(|s|, i requires 0 <= i < |s| => s[i].t)
  }

  /** The keys of a sequence of records under a mode, in order. */
  function Keys<V>(s: seq<Timed<V>>, mode: int): (ks: seq<int>)
    ensures |ks| == |s|
  {
    seq(|s|, i requires 0 <= i < |s| => Key(s[i], mode))
  }

  predicate NonDecreasing(xs: seq<int>) {
    forall i, j :: 0 <= i < j < |xs| ==> xs[i] <= xs[j]
  }

  predicate NonIncreasing(xs: seq<int>) {
    forall i, j :: 0 <= i < j < |xs| ==> xs[i] >= xs[j]
  }

  /** Inserts `x` before the first element it does not compare greater than. */
  function Insert<V>(x: Timed<V>, s: seq<Timed<V>>, mode: int): (r: seq<Timed<V>>)
    ensures |r| == |s| + 1
  {
    if s == [] || Compare(x, s[0], mode) <= 0 then
      [x] + s
    else
      [s[0]] + Insert(x, s[1..], mode)
  }

  lemma {:induction false} InsertPermutation<V>(x: Timed<V>, s: seq<Timed<V>>, mode: int)
    ensures multiset(Insert(x, s, mode)) == multiset(s) + multiset{x}
  {
    if s != [] && Compare(x, s[0], mode) > 0 {
      InsertPermutation(x, s[1..], mode);
      assert s == [s[0]] + s[1..];
    }
  }

  lemma {:induction false} InsertOrdered<V>(x: Timed<V>, s: seq<Timed<V>>, mode: int)
    requires Ordered(s, mode)
    ensures Ordered(Insert(x, s, mode), mode)
  {
    if s != [] && Compare(x, s[0], mode) > 0 {
      assert Ordered(s[1..], mode);
      InsertOrdered(x, s[1..], mode);
      InsertPermutation(x, s[1..], mode);
      var tail := Insert(x, s[1..], mode);
      forall k | 0 <= k < |tail| ensures Key(s[0], mode) <= Key(tail[k], mode) {
        assert tail[k] in multiset(tail);
        if tail[k] != x {
          assert tail[k] in multiset(s[1..]);
          var m :| 0 <= m < |s[1..]| && s[1..][m] == tail[k];
          assert s[1..][m] == s[m + 1];
        }
      }
      assert Insert(x, s, mode) == [s[0]] + tail;
    }
  }

  /**
   * The order `sort(es, mode)` leaves behind: a stable insertion sort, each
   * record placed before the later-sorted records it does not exceed.
   */
  function SortSeq<V>(s: seq<Timed<V>>, mode: int): (r: seq<Timed<V>>)
    ensures |r| == |s|
    ensures Ordered(r, mode)
  {
    if s == [] then
      []
    else
      var rest := SortSeq(s[1..], mode);
      InsertOrdered(s[0], rest, mode);
      Insert(s[0], rest, mode)
  }

  /** The sorted sequence is a permutation of the input. */
  lemma {:induction false} SortPermutation<V>(s: seq<Timed<V>>, mode: int)
    ensures multiset(SortSeq(s, mode)) == multiset(s)
  {
    if s != [] {
      SortPermutation(s[1..], mode);
      InsertPermutation(s[0], SortSeq(s[1..], mode), mode);
      assert s == [s[0]] + s[1..];
    }
  }

  /** Sorting an already ordered sequence changes nothing. */
  lemma {:induction false} SortOrderedIsIdentity<V>(s: seq<Timed<V>>, mode: int)
    requires Ordered(s, mode)
    ensures SortSeq(s, mode) == s
  {
    if s != [] {
      assert Ordered(s[1..], mode);
      SortOrderedIsIdentity(s[1..], mode);
      assert s == [s[0]] + s[1..];
    }
  }

  /** `sort(sort(E, m), m) == sort(E, m)`. */
  lemma SortIdempotent<V>(s: seq<Timed<V>>, mode: int)
    ensures SortSeq(SortSeq(s, mode), mode) == SortSeq(s, mode)
  {
    SortOrderedIsIdentity(SortSeq(s, mode), mode);
  }

  /** Under mode 1 the timestamps end up non-decreasing, under mode -1 non-increasing. */
  lemma OrderedDirection<V>(s: seq<Timed<V>>, mode: int)
    requires Ordered(s, mode)
    ensures mode == 1 ==> NonDecreasing(Times(s))
    ensures mode == -1 ==> NonIncreasing(Times(s))
  {
    forall i, j | 0 <= i < j < |s|
      ensures mode == 1 ==> Times(s)[i] <= Times(s)[j]
      ensures mode == -1 ==> Times(s)[i] >= Times(s)[j]
    {
      assert Key(s[i], mode) <= Key(s[j], mode);
    }
  }

  /** Replaces each record's payload by `f` of the record, keeping its timestamp. */
  function Relabel<V, W>(s: seq<Timed<V>>, f: Timed<V> -> W): (r: seq<Timed<W>>)
    ensures |r| == |s|
    ensures forall i :: 0 <= i < |s| ==> r[i] == Timed(s[i].t, f(s[i]))
  {
    seq(|s|, i requires 0 <= i < |s| => Timed(s[i].t, f(s[i])))
  }

  /** The payloads of a sequence of records, in order. */
  function Vals<V>(s: seq<Timed<V>>): (vs: seq<V>)
    ensures |vs| == |s|
    ensures forall i :: 0 <= i < |s| ==> vs[i] == s[i].val
  {
    seq(|s|, i requires 0 <= i < |s| => s[i].val)
  }

  lemma {:induction false} InsertRelabel<V, W>(x: Timed<V>, s: seq<Timed<V>>, f: Timed<V> -> W, mode: int)
    ensures Insert(Timed(x.t, f(x)), Relabel(s, f), mode) == Relabel(Insert(x, s, mode), f)
  {
    var fx := Timed(x.t, f(x));
    if s == [] || Compare(x, s[0], mode) <= 0 {
      assert Relabel([x] + s, f) == [fx] + Relabel(s, f);
    } else {
      assert Relabel(s, f)[1..] == Relabel(s[1..], f);
      InsertRelabel(x, s[1..], f, mode);
      var tail := Insert(x, s[1..], mode);
      assert Relabel([s[0]] + tail, f) == [Relabel(s, f)[0]] + Relabel(tail, f);
    }
  }

  /** The comparator reads only `t`: sorting commutes with rewriting payloads. */
  lemma {:induction false} SortRelabel<V, W>(s: seq<Timed<V>>, f: Timed<V> -> W, mode: int)
    ensures SortSeq(Relabel(s, f), mode) == Relabel(SortSeq(s, mode), f)
  {
    if s != [] {
      var rs := Relabel(s, f);
      assert rs[0] == Timed(s[0].t, f(s[0]));
      assert rs[1..] == Relabel(s[1..], f);
      SortRelabel(s[1..], f, mode);
      InsertRelabel(s[0], SortSeq(s[1..], mode), f, mode);
    }
  }

  lemma RemoveAt<T>(s: seq<T>, k: nat)
    requires k < |s|
    ensures multiset(s[..k] + s[k + 1..]) == multiset(s) - multiset{s[k]}
  {
    assert s == s[..k] + [s[k]] + s[k + 1..];
  }

  /** A position holding an element of the sequence. */
  lemma {:induction false} IndexOf<T>(s: seq<T>, x: T) returns (k: nat)
    requires x in multiset(s)
    ensures k < |s| && s[k] == x
  {
    if s[0] == x {
      k := 0;
    } else {
      assert s == [s[0]] + s[1..];
      assert x in multiset(s[1..]);
      k := IndexOf(s[1..], x);
      k := k + 1;
    }
  }

  /** The keys of a sequence with one record taken out, and of the whole. */
  lemma KeysSplice<V>(s: seq<Timed<V>>, k: nat, mode: int)
    requires k < |s|
    ensures Keys(s, mode) == Keys(s[..k], mode) + [Key(s[k], mode)] + Keys(s[k + 1..], mode)
    ensures Keys(s[..k] + s[k + 1..], mode) == Keys(s[..k], mode) + Keys(s[k + 1..], mode)
  {
  }

  /** Taking the first record out of one sequence and the same record out of its permutation. */
  lemma TailPermutation<T>(a: seq<T>, b: seq<T>, k: nat)
    requires multiset(a) == multiset(b)
    requires a != [] && k < |b| && b[k] == a[0]
    ensures multiset(a[1..]) == multiset(b[..k] + b[k + 1..])
  {
    RemoveAt(a, 0);
    RemoveAt(b, k);
    assert a[..0] + a[1..] == a[1..];
  }

  lemma MultisetMiddle<T>(xs: seq<T>, ys: seq<T>, zs: seq<T>, x: T)
    requires multiset(xs) == multiset(ys + zs)
    ensures multiset([x] + xs) == multiset(ys + [x] + zs)
  {
  }

  /** Taking the same record out of two sequences whose remaining keys agree leaves their keys agreeing. */
  lemma KeysPermutationStep<V>(a: seq<Timed<V>>, b: seq<Timed<V>>, k: nat, mode: int)
    requires a != [] && k < |b| && b[k] == a[0]
    requires multiset(Keys(a[1..], mode)) == multiset(Keys(b[..k] + b[k + 1..], mode))
    ensures multiset(Keys(a, mode)) == multiset(Keys(b, mode))
  {
    KeysSplice(a, 0, mode);
    KeysSplice(b, k, mode);
    assert a[..0] == [] && a[..0] + a[1..] == a[1..];
    MultisetMiddle(Keys(a[1..], mode), Keys(b[..k], mode), Keys(b[k + 1..], mode), Key(a[0], mode));
  }

  /** Permuting the records permutes their keys. */
  lemma {:induction false} KeysPermutation<V>(a: seq<Timed<V>>, b: seq<Timed<V>>, mode: int)
    requires multiset(a) == multiset(b)
    ensures multiset(Keys(a, mode)) == multiset(Keys(b, mode))
    decreases |a|
  {
    if a == [] {
      assert |b| == |multiset(b)| == 0;
    } else {
      assert a[0] in multiset(b) by {
        assert a[0] in multiset(a);
      }
      var k := IndexOf(b, a[0]);
      var rest := b[..k] + b[k + 1..];
      TailPermutation(a, b, k);
      KeysPermutation(a[1..], rest, mode);
      KeysPermutationStep(a, b, k, mode);
    }
  }

  /** Two non-decreasing integer sequences with the same elements are equal. */
  lemma {:induction false} SortedIntsUnique(xs: seq<int>, ys: seq<int>)
    requires multiset(xs) == multiset(ys)
    requires NonDecreasing(xs) && NonDecreasing(ys)
    ensures xs == ys
    decreases |xs|
  {
    if xs == [] {
      assert |ys| == |multiset(ys)| == 0;
    } else {
      assert |ys| == |multiset(ys)| == |xs| > 0;
      assert xs[0] in multiset(ys) && ys[0] in multiset(xs);
      assert xs[0] == ys[0];
      assert xs == [xs[0]] + xs[1..];
      assert ys == [ys[0]] + ys[1..];
      assert multiset(xs[1..]) == multiset(xs) - multiset{xs[0]};
      assert multiset(ys[1..]) == multiset(ys) - multiset{ys[0]};
      SortedIntsUnique(xs[1..], ys[1..]);
    }
  }

  /**
   * Tie order is not promised, but it cannot be observed in the keys: any
   * ordered permutation of the input has the key sequence `SortSeq` has.
   */
  lemma OrderedPermutationKeys<V>(s: seq<Timed<V>>, r: seq<Timed<V>>, mode: int)
    requires multiset(r) == multiset(s)
    requires Ordered(r, mode)
    ensures Keys(r, mode) == Keys(SortSeq(s, mode), mode)
  {
    var q := SortSeq(s, mode);
    SortPermutation(s, mode);
    KeysPermutation(r, q, mode);
    SortedIntsUnique(Keys(r, mode), Keys(q, mode));
  }

  /** Under either sign, any ordered permutation has the timestamps `SortSeq` has. */
  lemma OrderedPermutationTimes<V>(s: seq<Timed<V>>, r: seq<Timed<V>>, mode: int)
    requires mode == 1 || mode == -1
    requires multiset(r) == multiset(s)
    requires Ordered(r, mode)
    ensures Times(r) == Times(SortSeq(s, mode))
  {
    var q := SortSeq(s, mode);
    OrderedPermutationKeys(s, r, mode);
    forall i | 0 <= i < |r| ensures Times(r)[i] == Times(q)[i] {
      assert Keys(r, mode)[i] == Keys(q, mode)[i];
    }
  }

  function Reverse<T>(s: seq<T>): (r: seq<T>)
    ensures |r| == |s|
    ensures forall i :: 0 <= i < |s| ==> r[i] == s[|s| - 1 - i]
  {
    seq(|s|, i requires 0 <= i < |s| => s[|s| - 1 - i])
  }

  lemma {:induction false} ReversePermutation<T>(s: seq<T>)
    ensures multiset(Reverse(s)) == multiset(s)
  {
    if s != [] {
      ReversePermutation(s[1..]);
      assert Reverse(s) == Reverse(s[1..]) + [s[0]];
      assert s == [s[0]] + s[1..];
    }
  }

  /** Newest-first lists the timestamps of oldest-first backwards. */
  lemma ModesAreReverse<V>(s: seq<Timed<V>>)
    ensures Times(SortSeq(s, -1)) == Reverse(Times(SortSeq(s, 1)))
  {
    var asc := SortSeq(s, 1);
    var rev := Reverse(asc);
    ReversePermutation(asc);
    SortPermutation(s, 1);
    forall i, j | 0 <= i < j < |rev| ensures Key(rev[i], -1) <= Key(rev[j], -1) {
      assert Key(asc[|asc| - 1 - j], 1) <= Key(asc[|asc| - 1 - i], 1);
    }
    OrderedPermutationTimes(s, rev, -1);
    assert Times(rev) == Reverse(Times(asc));
  }

  /** `Insert` passes over exactly the leading records that `x` compares greater than. */
  lemma {:induction false} InsertSplit<V>(x: Timed<V>, done: seq<Timed<V>>, rest: seq<Timed<V>>, mode: int)
    requires forall k :: 0 <= k < |done| ==> Compare(x, done[k], mode) > 0
    requires rest == [] || Compare(x, rest[0], mode) <= 0
    ensures Insert(x, done + rest, mode) == done + [x] + rest
  {
    if done != [] {
      assert (done + rest)[1..] == done[1..] + rest;
      InsertSplit(x, done[1..], rest, mode);
    }
  }

  /**
   * One step of `Sort`: the record at `i` moves right past the records after
   * it that it compares greater than, stopping at the first it does not.
   */
  method InsertAt<V>(a: array<Timed<V>>, i: nat, mode: int) returns (ghost j: nat)
    requires i < a.Length
    modifies a
    ensures i <= j < a.Length
    ensures forall k :: i < k <= j ==> Compare(old(a[i]), old(a[k]), mode) > 0
    ensures j + 1 < a.Length ==> Compare(old(a[i]), old(a[j + 1]), mode) <= 0
    ensures a[..] == old(a[..i]) + old(a[i + 1..j + 1]) + [old(a[i])] + old(a[j + 1..])
  {
    var x := a[i];
    var p := i;
    while p + 1 < a.Length && Compare(x, a[p + 1], mode) > 0
      invariant i <= p < a.Length
      invariant forall k :: 0 <= k < i ==> a[k] == old(a[k])
      invariant forall k :: i <= k < p ==> a[k] == old(a[k + 1])
      invariant a[p] == x
      invariant forall k :: p < k < a.Length ==> a[k] == old(a[k])
      invariant forall k :: i < k <= p ==> Compare(x, old(a[k]), mode) > 0
    {
      a[p] := a[p + 1];
      a[p + 1] := x;
      p := p + 1;
    }
    j := p;
    ghost var want := old(a[..i]) + old(a[i + 1..j + 1]) + [x] + old(a[j + 1..]);
    forall k | 0 <= k < a.Length ensures a[k] == want[k] {
      if k < i {
        assert want[k] == old(a[k]);
      } else if k < j {
        assert want[k] == old(a[k + 1]);
      } else if k > j {
        assert want[k] == old(a[k]);
      }
    }
    assert a[..] == want;
  }

  /** After inserting the record at `i` into the sorted suffix, the suffix from `i` is sorted. */
  lemma SortStep<V>(orig: seq<Timed<V>>, i: nat, before: seq<Timed<V>>, j: nat, after: seq<Timed<V>>, mode: int)
    requires i <= j < |before| == |orig|
    requires before[i] == orig[i]
    requires before[i + 1..] == SortSeq(orig[i + 1..], mode)
    requires forall k :: i < k <= j ==> Compare(before[i], before[k], mode) > 0
    requires j + 1 < |before| ==> Compare(before[i], before[j + 1], mode) <= 0
    requires after == before[..i] + before[i + 1..j + 1] + [before[i]] + before[j + 1..]
    ensures after[..i] == before[..i]
    ensures after[i..] == SortSeq(orig[i..], mode)
  {
    var x, done, rest := before[i], before[i + 1..j + 1], before[j + 1..];
    assert Insert(x, before[i + 1..], mode) == done + [x] + rest by {
      assert before[i + 1..] == done + rest;
      InsertSplit(x, done, rest, mode);
    }
    assert SortSeq(orig[i..], mode) == Insert(x, SortSeq(orig[i + 1..], mode), mode) by {
      assert orig[i..][1..] == orig[i + 1..];
    }
    assert after[..i] == before[..i] && after[i..] == done + [x] + rest by {
      assert |before[..i]| == i;
    }
  }

  /**
   * `sort(es, mode)`: sorts the array in place. Records are inserted from
   * the right into the already sorted suffix, which is `SortSeq` exactly.
   */
  method Sort<V>(a: array<Timed<V>>, mode: int)
    modifies a
    ensures a[..] == SortSeq(old(a[..]), mode)
  {
    ghost var orig := a[..];
    var i := a.Length;
    while i > 0
      invariant 0 <= i <= a.Length
      invariant a[..i] == orig[..i]
      invariant a[i..] == SortSeq(orig[i..], mode)
    {
      i := i - 1;
      ghost var before := a[..];
      assert before[i + 1..] == a[i + 1..];
      ghost var j := InsertAt(a, i, mode);
      SortStep(orig, i, before, j, a[..], mode);
    }
    assert orig[0..] == orig;
  }
}
