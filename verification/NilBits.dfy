/**
  Nil bitmaps of the typed arrays (lib/sp_array.h:53-151): one bit for each
  physical slot, in whole 64-bit words, and the bound below which no bit is set.
 */
module NilBits {
  datatype Option<+T> = None | Some(value: T)

  type Bitmap = seq<bool>

  /** SP_NIL_LO_NONE, UINT32_MAX. */
  const NONE: nat := 0xFFFF_FFFF

  /** Bits in the words of a bitmap for cap slots. */
  function Room(cap: nat): (r: nat)
    ensures cap <= r
  {
    64 * ((cap + 63) / 64)
  }

  predicate NilBit(nb: Option<Bitmap>, k: int) {
    nb.Some? && 0 <= k < |nb.value| && nb.value[k]
  }

  function Blank(n: nat): (b: Bitmap)
    ensures |b| == n && forall k :: 0 <= k < n ==> !b[k]
  {
    seq(n, k => false)
  }

  method ClearRange(b: Bitmap, from: nat, to: nat) returns (r: Bitmap)
    requires to <= |b|
    ensures |r| == |b| && forall k :: 0 <= k < |b| ==> r[k] == (b[k] && !(from <= k < to))
  {
    r := b;
    var i := from;
    while i < to
      invariant from <= i && |r| == |b|
      invariant forall k :: 0 <= k < |b| ==> r[k] == (b[k] && !(from <= k < i && k < to))
    {
      r := r[i := false];
      i := i + 1;
    }
  }

  /** Single bits up to a word boundary, whole words, single bits again. */
  method SetRange(b: Bitmap, from: nat, to: nat) returns (r: Bitmap)
    requires to <= |b|
    ensures |r| == |b| && forall k :: 0 <= k < |b| ==> r[k] == (b[k] || from <= k < to)
  {
    r := b;
    var i := from;
    while i < to && i % 64 != 0
      invariant from <= i && (i <= to || i == from) && |r| == |b|
      invariant forall k :: 0 <= k < |b| ==> r[k] == (b[k] || from <= k < i)
    {
      r := r[i := true];
      i := i + 1;
    }
    while i + 64 <= to
      invariant from <= i && (i <= to || i == from) && |r| == |b|
      invariant forall k :: 0 <= k < |b| ==> r[k] == (b[k] || from <= k < i)
    {
      r := r[..i] + seq(64, k => true) + r[i + 64..];
      i := i + 64;
    }
    while i < to
      invariant from <= i && (i <= to || i == from) && |r| == |b|
      invariant forall k :: 0 <= k < |b| ==> r[k] == (b[k] || from <= k < i)
    {
      r := r[i := true];
      i := i + 1;
    }
  }

  /** sp_nilbits_next: the lowest set bit at or above from. */
  method NextBit(b: Bitmap, from: nat) returns (p: int)
    ensures p == -1 <==> forall k :: from <= k < |b| ==> !b[k]
    ensures p != -1 ==> from <= p < |b| && b[p] && forall k :: from <= k < p ==> !b[k]
  {
    var i := from;
    while i < |b|
      invariant from <= i
      invariant forall k :: from <= k < i && k < |b| ==> !b[k]
    {
      if b[i] { return i; }
      i := i + 1;
    }
    return -1;
  }

  /** sp_nilbits_move: through a second bitmap, so the two spans may overlap. */
  method MoveBits(b: Bitmap, from: nat, to: nat, n: nat) returns (r: Bitmap)
    requires from + n <= |b| && to + n <= |b|
    ensures |r| == |b|
    ensures forall k :: 0 <= k < |b| ==>
      r[k] == if to <= k < to + n then b[from + (k - to)] else b[k] && !(from <= k < from + n)
  {
    if from == to || n == 0 { return b; }
    var t := Blank(|b|);
    for i := 0 to n
      invariant |t| == |b|
      invariant forall k :: 0 <= k < |b| ==> t[k] == (to <= k < to + i && b[from + (k - to)])
    {
      if b[from + i] {
        t := t[to + i := true];
      }
    }
    r := ClearRange(b, from, from + n);
    r := ClearRange(r, to, to + n);
    r := seq(|b|, k requires 0 <= k < |r| && |t| == |r| => r[k] || t[k]);
  }

  /** No bit is set below the bound, none at all if the bound is NONE after a rescan. */
  ghost predicate LowBound(b: Bitmap, lo: nat) {
    forall k :: 0 <= k < |b| && b[k] ==> lo <= k
  }

  /** sp_nil_lo_up: lo's own word first, then the words above it. */
  method NilLoUp(b: Bitmap, lo: nat) returns (lo': nat)
    requires lo <= NONE && LowBound(b, lo)
    ensures lo' <= NONE && LowBound(b, lo')
    ensures lo' == NONE <==> forall k :: 0 <= k < |b| ==> !b[k]
  {
    var end := 64 * (lo / 64) + 64;
    var p := NextBit(if end <= |b| then b[..end] else b, lo);
    if p != -1 && end - 1 != NONE {
      assert forall k :: 0 <= k < p ==> !b[k];
      return p;
    }
    p := NextBit(b, lo);
    if p < 0 { return NONE; }
    return if p >= NONE then NONE - 1 else p;
  }
}
