/** Bytes and the one memory operation every driver here is made of: replacing a slice of a
    flat memory. */
module Bytes {

  type byte = x: int | 0 <= x < 256

  datatype Option<+T> = None | Some(value: T)

  /** The sequence with an element in front, if there is one. */
  function Then<T>(first: Option<T>, rest: seq<T>): seq<T> {
    if first.Some? then [first.value] + rest else rest
  }

  function Min(a: int, b: int): (r: int)
    ensures r <= a && r <= b && (r == a || r == b)
  {
    if a <= b then a else b
  }

  /** The memory `m` with the bytes `d` put at `off`. */
  function Store(m: seq<byte>, off: nat, d: seq<byte>): (r: seq<byte>)
    requires off + |d| <= |m|
    ensures |r| == |m|
    ensures forall x :: 0 <= x < |m| ==> r[x] == if off <= x < off + |d| then d[x - off] else m[x]
  {
    m[..off] + d + m[off + |d|..]
  }

  /** Storing `a` and then `b` right behind it is storing `a + b`. */
  lemma StoreAppend(m: seq<byte>, off: nat, a: seq<byte>, b: seq<byte>)
    requires off + |a| + |b| <= |m|
    ensures Store(Store(m, off, a), off + |a|, b) == Store(m, off, a + b)
  {
  }

  /** Storing the next byte and then what is left of `d[..n]` is storing what was left. */
  lemma StoreHead(m: seq<byte>, off: nat, d: seq<byte>, i: nat, n: nat)
    requires i < n <= |d| && off + n <= |m|
    ensures Store(m[off + i := d[i]], off + i + 1, d[i + 1..n]) == Store(m, off + i, d[i..n])
  {
  }

  /** The copy loop's step: with the first `i` bytes in place, the next one goes behind them. */
  lemma StoreNext(m: seq<byte>, off: nat, d: seq<byte>, i: nat)
    requires i < |d| && off + i < |m|
    ensures Store(m, off, d[..i])[off + i := d[i]] == Store(m, off, d[..i + 1])
  {
  }

  lemma StoreNothing(m: seq<byte>, off: nat)
    requires off <= |m|
    ensures Store(m, off, []) == m
  {
  }

  lemma Assoc<T>(a: seq<T>, b: seq<T>, c: seq<T>)
    ensures (a + b) + c == a + (b + c)
  {
  }

  /** Two slices that meet. */
  lemma SliceOn(m: seq<byte>, a: nat, b: nat, c: nat)
    requires a <= b <= c <= |m|
    ensures m[a..b] + m[b..c] == m[a..c]
  {
  }

  /** The pieces of `ds` one after the other. */
  function Concat(ds: seq<seq<byte>>): seq<byte> {
    if ds == [] then [] else ds[0] + Concat(ds[1..])
  }

  lemma {:induction false} ConcatAppend(a: seq<seq<byte>>, b: seq<seq<byte>>)
    ensures Concat(a + b) == Concat(a) + Concat(b)
  {
    if a == [] {
      assert a + b == b;
    } else {
      assert (a + b)[0] == a[0] && (a + b)[1..] == a[1..] + b;
      ConcatAppend(a[1..], b);
    }
  }

  /** A prefix of the pieces, extended by the next one. */
  lemma ConcatSnoc(ds: seq<seq<byte>>, k: nat)
    requires k < |ds|
    ensures Concat(ds[..k + 1]) == Concat(ds[..k]) + ds[k]
  {
    assert ds[..k + 1] == ds[..k] + [ds[k]];
    ConcatAppend(ds[..k], [ds[k]]);
    assert Concat([ds[k]]) == ds[k];
  }
}
