/**
  Integer arrays with nil elements (lib/sp_array.h:153-249, lib/sp_array.c):
  a window into a buffer, and a bitmap that exists once a nil has been stored.
  Every operation is proved against the plain operation on a sequence of
  optional integers.
 */
module IntArrays {
  import opened Arith
  import opened NilBits
  import opened Growth

  datatype Outcome = Done | FrozenError | IndexError

  /** The element in physical slot k. */
  function Slot(data: seq<int>, nb: Option<Bitmap>, k: int): Option<int>
    requires 0 <= k < |data|
  {
    if NilBit(nb, k) then None else Some(data[k])
  }

  function View(data: seq<int>, start: nat, len: nat, nb: Option<Bitmap>): (v: seq<Option<int>>)
    requires start + len <= |data|
    ensures |v| == len && forall i :: 0 <= i < len ==> v[i] == Slot(data, nb, start + i)
  {
    seq(len, i requires 0 <= i < len => Slot(data, nb, start + i))
  }

  lemma NoBits(nb: Option<Bitmap>)
    requires nb.None?
    ensures forall k :: !NilBit(nb, k)
  {
  }

  /** Sized to the buffer, clear outside the window, and clear below the bound. */
  ghost predicate BitsOk(nb: Option<Bitmap>, cap: nat, lo: nat, from: nat, end: nat) {
    && lo <= NONE
    && (nb.Some? ==>
      && |nb.value| == Room(cap)
      && forall k :: NilBit(nb, k) ==> from <= k < end && lo <= k)
  }

  /** Bit k after n bits have moved from one place to another. */
  ghost predicate MovedBit(nb: Option<Bitmap>, from: nat, to: nat, n: nat, k: int) {
    if to <= k < to + n then NilBit(nb, from + (k - to)) else NilBit(nb, k) && !(from <= k < from + n)
  }

  function Nils(n: nat): (s: seq<Option<int>>)
    ensures |s| == n && forall i :: 0 <= i < n ==> s[i] == None
  {
    seq(n, i => None)
  }

  function Values(s: seq<int>): (t: seq<Option<int>>)
    ensures |t| == |s| && forall i :: 0 <= i < |s| ==> t[i] == Some(s[i])
  {
    seq(|s|, i requires 0 <= i < |s| => Some(s[i]))
  }

  lemma ValuesNone(s: seq<int>)
    requires s == []
    ensures Values(s) == []
  {
  }

  lemma ValuesStep(e: seq<Option<int>>, s: seq<int>, i: nat)
    requires i < |s|
    ensures e + Values(s[..i + 1]) == e + Values(s[..i]) + [Some(s[i])]
  {
  }

  /** s[i] = x, with nils in the gap when i is past the end. */
  function Stored(s: seq<Option<int>>, i: nat, x: Option<int>): seq<Option<int>> {
    if i < |s| then s[i := x] else s + Nils(i - |s|) + [x]
  }

  /** s[at, n] = t: the span is cut off at the end of s, a gap before at is nils. */
  function Spliced(s: seq<Option<int>>, at: nat, n: nat, t: seq<Option<int>>): seq<Option<int>> {
    if at > |s| then s + Nils(at - |s|) + t
    else s[..at] + t + s[if at + n > |s| then |s| else at + n..]
  }

  function Inserted(s: seq<Option<int>>, i: nat, x: Option<int>): seq<Option<int>> {
    if i <= |s| then s[..i] + [x] + s[i..] else s + Nils(i - |s|) + [x]
  }

  // What the three leave at every index.

  lemma StoredAt(s: seq<Option<int>>, i: nat, x: Option<int>)
    ensures var r := Stored(s, i, x);
      && |r| == (if i < |s| then |s| else i + 1)
      && forall k :: 0 <= k < |r| ==> r[k] == if k == i then x else if k < |s| then s[k] else None
  {
  }

  lemma InsertedAt(s: seq<Option<int>>, i: nat, x: Option<int>)
    ensures var r := Inserted(s, i, x);
      && |r| == (if i <= |s| then |s| + 1 else i + 1)
      && r[i] == x
      && (forall k :: 0 <= k < i ==> r[k] == if k < |s| then s[k] else None)
      && forall k :: i < k < |r| ==> r[k] == s[k - 1]
  {
    if i <= |s| {
      ThreeParts(s[..i], [x], s[i..]);
    } else {
      ThreeParts(s, Nils(i - |s|), [x]);
    }
  }

  /** m of the elements from at on give way to t; a gap before at is nils. */
  lemma SplicedAt(s: seq<Option<int>>, at: nat, n: nat, t: seq<Option<int>>)
    ensures var r := Spliced(s, at, n, t);
      var m := if at >= |s| then 0 else if at + n <= |s| then n else |s| - at;
      && |r| == (if at <= |s| then |s| - m else at) + |t|
      && (forall k :: 0 <= k < at ==> r[k] == if k < |s| then s[k] else None)
      && (forall k :: at <= k < at + |t| ==> r[k] == t[k - at])
      && forall k :: at + |t| <= k < |r| ==> r[k] == s[k - |t| + m]
  {
    if at > |s| {
      ThreeParts(s, Nils(at - |s|), t);
    } else {
      ThreeParts(s[..at], t, s[if at + n > |s| then |s| else at + n..]);
    }
  }

  /** Three sequences in a row, index by index. */
  lemma ThreeParts(a: seq<Option<int>>, b: seq<Option<int>>, c: seq<Option<int>>)
    ensures var r := a + b + c;
      && |r| == |a| + |b| + |c|
      && (forall k :: 0 <= k < |a| ==> r[k] == a[k])
      && (forall k :: |a| <= k < |a| + |b| ==> r[k] == b[k - |a|])
      && forall k :: |a| + |b| <= k < |r| ==> r[k] == c[k - |a| - |b|]
  {
  }

  /** Inserting into a sequence padded to the position, through a scratch element at its end. */
  lemma InsertedPadded(s: seq<Option<int>>, t: seq<Option<int>>, i: nat, y: Option<int>, x: Option<int>)
    requires t == s + Nils(if i > |s| then i - |s| else 0)
    ensures (t + [y])[..i] + [x] + (t + [y])[i..|t|] == Inserted(s, i, x)
  {
    assert (t + [y])[..i] == t[..i] && (t + [y])[i..|t|] == t[i..];
    if i >= |s| {
      assert t[..i] == t && t[i..] == [];
      assert s[..i - (i - |s|)] == s;
    } else {
      assert t == s;
    }
  }

  function Reversed(s: seq<Option<int>>): (t: seq<Option<int>>)
    ensures |t| == |s| && forall i :: 0 <= i < |s| ==> t[i] == s[|s| - 1 - i]
  {
    seq(|s|, i requires 0 <= i < |s| => s[|s| - 1 - i])
  }

  lemma OpenedView(d: seq<int>, nb: Option<Bitmap>, d': seq<int>, nb': Option<Bitmap>, start: nat, len: nat,
      i: nat, v: int)
    requires start + len <= |d| && i < len
    requires |d'| == |d| && d'[start + i] == v
    requires forall p :: start <= p < start + len && p != start + i ==> d'[p] == d[if p < start + i then p else p - 1]
    requires !NilBit(nb', start + i)
    requires forall k :: start <= k < start + len && k != start + i ==>
      NilBit(nb', k) == NilBit(nb, if k < start + i then k else k - 1)
    ensures View(d', start, len, nb') == View(d, start, len, nb)[..i] + [Some(v)] + View(d, start, len, nb)[i..len - 1]
  {
    hide NilBit;
    var V, W := View(d, start, len, nb), View(d', start, len, nb');
    assert W[..i] == V[..i];
    assert W[i] == Some(v);
    forall k | i < k < len ensures W[k] == V[k - 1] {
      assert NilBit(nb', start + k) == NilBit(nb, start + k - 1);
    }
    assert W[i + 1..] == V[i..len - 1];
  }

  lemma ClosedView(d: seq<int>, nb: Option<Bitmap>, d': seq<int>, nb': Option<Bitmap>, start: nat, len: nat, i: nat)
    requires start + len <= |d| && i < len
    requires |d'| == |d|
    requires forall p :: start <= p < start + len - 1 ==> d'[p] == d[if p < start + i then p else p + 1]
    requires forall k :: start <= k < start + len - 1 ==>
      NilBit(nb', k) == NilBit(nb, if k < start + i then k else k + 1)
    ensures View(d', start, len - 1, nb') == View(d, start, len, nb)[..i] + View(d, start, len, nb)[i + 1..]
  {
    hide NilBit;
    var r := View(d, start, len, nb)[..i] + View(d, start, len, nb)[i + 1..];
    forall k | 0 <= k < len - 1 ensures View(d', start, len - 1, nb')[k] == r[k] {
      assert NilBit(nb', start + k) == NilBit(nb, if k < i then start + k else start + k + 1);
      assert d'[start + k] == d[if k < i then start + k else start + k + 1];
    }
  }

  /** The bits after a span has been moved down and the vacated end cleared. */
  lemma CutKeeps(nb: Option<Bitmap>, mid: Option<Bitmap>, nb': Option<Bitmap>, start: nat, len: nat, from: nat, n: nat)
    requires from + n <= len && forall k :: NilBit(nb, k) ==> start <= k < start + len
    requires forall k :: NilBit(mid, k) == MovedBit(nb, start + from + n, start + from, len - from - n, k)
    requires forall k :: NilBit(nb', k) == (NilBit(mid, k) && !(start + len - n <= k < start + len))
    ensures forall k :: NilBit(nb', k) ==> start <= k < start + len - n
    ensures forall k :: start <= k < start + len - n ==>
      NilBit(nb', k) == NilBit(nb, if k < start + from then k else k + n)
  {
    hide NilBit;
    forall k ensures NilBit(nb', k) ==> start <= k < start + len - n {
      if NilBit(nb', k) { assert NilBit(mid, k); }
    }
    forall k | start <= k < start + len - n
      ensures NilBit(nb', k) == NilBit(nb, if k < start + from then k else k + n) {
      assert NilBit(nb', k) == NilBit(mid, k);
    }
  }

  lemma SlidView(d: seq<int>, nb: Option<Bitmap>, d': seq<int>, nb': Option<Bitmap>, start: nat, len: nat)
    requires start + len <= |d| && d' == d[start..start + len] + d[len..]
    requires forall k :: 0 <= k < len ==> NilBit(nb', k) == NilBit(nb, start + k)
    ensures |d'| == |d| && View(d', 0, len, nb') == View(d, start, len, nb)
  {
    hide NilBit;
  }

  lemma RotatedView(d: seq<int>, d': seq<int>, start: nat, len: nat, n: nat)
    requires start + len <= |d| && n <= len
      && d' == d[..start] + (d[start + n..start + len] + d[start..start + n]) + d[start + len..]
    ensures View(d', start, len, Option.None)
      == View(d, start, len, Option.None)[n..] + View(d, start, len, Option.None)[..n]
  {
    var V, W := View(d, start, len, Option.None), View(d', start, len, Option.None);
    forall k | 0 <= k < len ensures W[k] == (V[n..] + V[..n])[k] {
      assert d'[start + k] == if k < len - n then d[start + k + n] else d[start + k + n - len];
    }
  }

  lemma CutView(d: seq<int>, nb: Option<Bitmap>, d': seq<int>, nb': Option<Bitmap>, start: nat, len: nat,
      from: nat, n: nat)
    requires start + len <= |d| && from + n <= len && |d'| == |d|
    requires forall p :: 0 <= p < start + from ==> d'[p] == d[p]
    requires forall p :: start + from <= p < start + len - n ==> d'[p] == d[p + n]
    requires forall k :: start <= k < start + len - n ==>
      NilBit(nb', k) == NilBit(nb, if k < start + from then k else k + n)
    ensures View(d', start, len - n, nb') == View(d, start, len, nb)[..from] + View(d, start, len, nb)[from + n..]
  {
    hide NilBit;
    var r := View(d, start, len, nb)[..from] + View(d, start, len, nb)[from + n..];
    forall k | 0 <= k < len - n ensures View(d', start, len - n, nb')[k] == r[k] {
      assert NilBit(nb', start + k) == NilBit(nb, if k < from then start + k else start + k + n);
    }
  }

  lemma NoNils(d: seq<int>, start: nat, len: nat, nb: Option<Bitmap>)
    requires start + len <= |d| && nb.None?
    ensures forall i :: 0 <= i < len ==> View(d, start, len, nb)[i].Some?
  {
  }

  /** The nils of a tail marked after its values have been pushed. */
  lemma Refilled(a: seq<Option<int>>, tail: seq<int>, p: seq<Option<int>>, r: seq<Option<int>>)
    requires |p| == |tail| && |r| == |a| + |p| && forall i :: 0 <= i < |p| && p[i].Some? ==> p[i].value == tail[i]
    requires forall k :: 0 <= k < |r| ==>
      r[k] == if |a| <= k < |a| + |p| && p[k - |a|].None? then None else (a + Values(tail))[k]
    ensures r == a + p
  {
    forall k | 0 <= k < |r| ensures r[k] == (a + p)[k] {
    }
  }

  lemma TailPairs(d: seq<int>, start: nat, len: nat, nb: Option<Bitmap>, from: nat, tail: seq<int>, p: seq<Option<int>>)
    requires start + len <= |d| && from <= len
    requires tail == d[start + from..start + len] && p == View(d, start, len, nb)[from..]
    ensures |p| == |tail| && forall i :: 0 <= i < |p| && p[i].Some? ==> p[i].value == tail[i]
  {
    hide NilBit;
    forall i | 0 <= i < |p| && p[i].Some? ensures p[i].value == tail[i] {
      assert p[i] == Slot(d, nb, start + from + i);
    }
  }

  lemma SplicedSize(e: seq<Option<int>>, at: nat, n: nat, t: seq<Option<int>>)
    ensures at + |t| <= |Spliced(e, at, n, t)|
  {
  }

  /** Marking the nils of a spliced block after splicing its values. */
  lemma SplicedNils(e: seq<Option<int>>, at: nat, n: nat, vals: seq<int>, p: seq<Option<int>>, r: seq<Option<int>>)
    requires |vals| == |p| && forall i :: 0 <= i < |p| && p[i].Some? ==> p[i].value == vals[i]
    requires |r| == |Spliced(e, at, n, Values(vals))|
    requires forall k :: 0 <= k < |r| ==>
      r[k] == if at <= k < at + |p| && p[k - at].None? then None else Spliced(e, at, n, Values(vals))[k]
    ensures r == Spliced(e, at, n, p)
  {
    var f, g := Spliced(e, at, n, Values(vals)), Spliced(e, at, n, p);
    SplicedSize(e, at, n, p);
    forall k | 0 <= k < |r| ensures r[k] == g[k] {
      if at <= k < at + |p| {
        assert f[k] == Values(vals)[k - at] && g[k] == p[k - at];
      }
    }
  }

  /** Bit k after n bits of another bitmap have been copied to end. */
  ghost predicate AppendedBit(nb: Option<Bitmap>, end: nat, sb: Option<Bitmap>, ss: nat, n: nat, k: int) {
    NilBit(nb, k) || (end <= k < end + n && NilBit(sb, ss + (k - end)))
  }

  lemma AppendedView(d: seq<int>, nb: Option<Bitmap>, start: nat, len: nat, sd: seq<int>, sb: Option<Bitmap>,
      ss: nat, n: nat,
                     d': seq<int>, nb': Option<Bitmap>)
    requires start + len + n <= |d| && ss + n <= |sd|
    requires d' == d[..start + len] + sd[ss..ss + n] + d[start + len + n..]
    requires forall k :: NilBit(nb, k) ==> k < start + len
    requires forall k :: NilBit(nb', k) == AppendedBit(nb, start + len, sb, ss, n, k)
    ensures View(d', start, len + n, nb') == View(d, start, len, nb) + View(sd, ss, n, sb)
  {
    hide NilBit;
    var r := View(d, start, len, nb) + View(sd, ss, n, sb);
    forall k | 0 <= k < len + n ensures View(d', start, len + n, nb')[k] == r[k] {
      assert d'[start + k] == if k < len then d[start + k] else sd[ss + k - len];
      assert k >= len ==> NilBit(nb', start + k) == NilBit(sb, ss + (k - len));
    }
  }

  /** Rotation to the left, by any count. */
  function Rotated(s: seq<Option<int>>, n: int): seq<Option<int>> {
    if s == [] then s else var k := n % |s|; s[k..] + s[..k]
  }

  /** Element i after the rotation is the one n places further on, around the end. */
  lemma RotatedAt(s: seq<Option<int>>, n: int)
    requires s != []
    ensures var r := Rotated(s, n); |r| == |s| && forall i :: 0 <= i < |s| ==> r[i] == s[(i + n) % |s|]
  {
    forall i | 0 <= i < |s| ensures Rotated(s, n)[i] == s[(i + n) % |s|] {
      AroundEnd(i, n, |s|);
    }
  }

  lemma AroundEnd(i: int, n: int, m: int)
    requires 0 <= i < m
    ensures 0 <= n % m < m && (i + n) % m == if i < m - n % m then i + n % m else i + n % m - m
  {
    var q, k := n / m, n % m;
    assert n == m * q + k;
    if i < m - k {
      RemainderIs(i + n, m, q, i + k);
    } else {
      assert m * (q + 1) == m * q + m;
      RemainderIs(i + n, m, q + 1, i + k - m);
    }
  }

  /** The C operator n % m, which truncates. */
  function CRem(n: int, m: int): int
    requires m > 0
  {
    if n >= 0 then n % m else -((-n) % m)
  }

  /** The count that rotate! rotates by. */
  function Count(n: int, m: int): int
    requires m > 0
  {
    if n < 0 || n >= m then (CRem(n, m) + m) % m else n
  }

  lemma CountIsFloor(n: int, m: int)
    requires m > 0
    ensures Count(n, m) == n % m && 0 <= n % m < m
  {
    if n < 0 {
      var q, r := (-n) / m, (-n) % m;
      assert -n == m * q + r;
      assert m * (-q) == -(m * q);
      if r == 0 {
        RemainderIs(n, m, -q, 0);
        RemainderIs(m, m, 1, 0);
      } else {
        assert m * (-q - 1) == -(m * q) - m;
        RemainderIs(n, m, -q - 1, m - r);
        RemainderIs(m - r, m, 0, m - r);
      }
    } else if n >= m {
      RemainderIs(n % m + m, m, 1, n % m);
    } else {
      RemainderIs(n, m, 0, n);
    }
  }

  class IntArray {
    var data: seq<int>
    var start: nat
    var len: nat
    var bits: Option<Bitmap>
    var nilLo: nat
    var frozen: bool

    ghost predicate Valid()
      reads this
    {
      start + len <= |data| && BitsOk(bits, |data|, nilLo, start, start + len)
    }

    ghost function Elems(): (s: seq<Option<int>>)
      requires Valid()
      reads this
    {
      View(data, start, len, bits)
    }

    ghost function Form(): Shape
      reads this
    {
      Shape(start, len, |data|)
    }

    /** sp_IntArray_new. */
    constructor ()
      ensures Valid() && Elems() == [] && !frozen && bits.None? && Form() == FRESH && |data| == 16
    {
      data, start, len, bits, nilLo, frozen := seq(16, i => 0), 0, 0, None, 0, false;
    }

    /** SP_INT_NILFREE_LEN: a leading span that can be read without the bitmap. */
    function NilFreeLen(): (n: nat)
      requires Valid()
      reads this
      ensures n <= len && forall i :: 0 <= i < n ==> Elems()[i] == Some(data[start + i])
    {
      if bits.None? then len
      else if nilLo <= start then 0
      else if nilLo - start < len then nilLo - start else len
    }

    /** sp_IntArray_oget: a negative index counts from the end, outside is nil. */
    function Get(i: int): (x: Option<int>)
      requires Valid()
      reads this
      ensures x == var j := if i < 0 then i + len else i; if 0 <= j < len then Elems()[j] else None
    {
      var j := if i < 0 then i + len else i;
      if j < 0 || j >= len then None
      else if NilBit(bits, start + j) then None else Some(data[start + j])
    }

    // ----- the buffer and the bitmap -----

    /** sp_IntArray_set_cap for a larger buffer: the new slots hold anything. */
    method SetCap(nc: nat)
      requires Valid() && nc >= |data|
      modifies this`data, this`bits
      ensures Valid() && |data| == nc && bits.Some? == old(bits.Some?)
      ensures forall k :: 0 <= k < old(|data|) ==> data[k] == old(data[k])
      ensures forall k :: NilBit(bits, k) == NilBit(old(bits), k)
      ensures Elems() == old(Elems())
    {
      ghost var oc := |data|;
      data := data + seq(nc - |data|, i => 0);
      if bits.Some? {
        bits := Some(bits.value + Blank(Room(nc) - |bits.value|));
      }
      assert forall k :: NilBit(bits, k) == NilBit(old(bits), k);
      assert Elems() == old(Elems());
    }

    /** The bitmap comes into being: SP_NILBITS_NEW_A. */
    method BlankBits()
      requires bits.None?
      modifies this`bits, this`nilLo
      ensures bits.Some? && |bits.value| == Room(|data|) && nilLo == NONE && forall k :: !NilBit(bits, k)
    {
      nilLo := NONE;
      bits := Some(Blank(Room(|data|)));
    }

    method NewBits()
      requires Valid() && bits.None?
      modifies this`bits, this`nilLo
      ensures Valid() && bits.Some? && Elems() == old(Elems()) && forall k :: !NilBit(bits, k)
    {
      BlankBits();
      assert Elems() == old(Elems());
    }

    /** SP_NILBIT_SET_A. */
    method MarkNil(p: nat, ghost end: nat)
      requires bits.Some? && start <= p < end <= |data| && BitsOk(bits, |data|, nilLo, start, end)
      modifies this`bits, this`nilLo
      ensures bits.Some? && BitsOk(bits, |data|, nilLo, start, end)
      ensures forall k :: NilBit(bits, k) == (NilBit(old(bits), k) || k == p)
    {
      if p < nilLo { nilLo := p; }
      bits := Some(bits.value[p := true]);
      assert forall k :: NilBit(bits, k) == (NilBit(old(bits), k) || k == p);
    }

    /** SP_NILBIT_SET_A inside the window. */
    method SetBit(p: nat)
      requires Valid() && bits.Some? && start <= p < start + len
      modifies this`bits, this`nilLo
      ensures Valid() && bits.Some?
      ensures forall k :: NilBit(bits, k) == (NilBit(old(bits), k) || k == p)
      ensures Elems() == old(Elems())[p - start := None]
    {
      MarkNil(p, start + len);
      assert Elems() == old(Elems())[p - start := None];
    }

    /** SP_NILBITS_SET_RANGE_A above the window. */
    method MarkNils(from: nat, end: nat)
      requires bits.Some? && start <= from < end <= |data| && BitsOk(bits, |data|, nilLo, start, end)
      modifies this`bits, this`nilLo
      ensures bits.Some? && BitsOk(bits, |data|, nilLo, start, end)
      ensures forall k :: NilBit(bits, k) == (NilBit(old(bits), k) || from <= k < end)
    {
      if from < nilLo { nilLo := from; }
      var b := SetRange(bits.value, from, end);
      bits := Some(b);
      assert forall k :: NilBit(bits, k) == (NilBit(old(bits), k) || from <= k < end);
    }

    /** Bits [from, end) cleared; the bound stays. */
    method ClearBits(from: nat, end: nat)
      requires bits.Some? && end <= |bits.value|
      modifies this`bits
      ensures bits.Some? && |bits.value| == |old(bits).value|
      ensures forall k :: NilBit(bits, k) == (NilBit(old(bits), k) && !(from <= k < end))
    {
      var b := ClearRange(bits.value, from, end);
      bits := Some(b);
      assert forall k :: NilBit(bits, k) == (NilBit(old(bits), k) && !(from <= k < end));
    }

    /** SP_NILBITS_MOVE_A. */
    method MoveNils(from: nat, to: nat, n: nat)
      requires bits.Some? && |bits.value| == Room(|data|) && from + n <= |data| && to + n <= |data|
      modifies this`bits, this`nilLo
      ensures bits.Some? && |bits.value| == Room(|data|) && nilLo == 0
      ensures forall k :: NilBit(bits, k) == MovedBit(old(bits), from, to, n, k)
    {
      var b := MoveBits(bits.value, from, to, n);
      bits, nilLo := Some(b), 0;
      forall k ensures NilBit(bits, k) == MovedBit(old(bits), from, to, n, k) {
        if 0 <= k < |b| { assert b[k] == NilBit(bits, k); }
      }
    }

    /**
      sp_IntArray_clr_nil: bit pi cleared (its slot may just have left the
      window), the bound raised to the lowest nil left, the bitmap dropped when
      there is none.
     */
    method ClearNil(pi: nat)
      requires start + len <= |data| && pi < |data| && bits.Some?
      requires nilLo <= NONE && |bits.value| == Room(|data|)
      requires forall k :: NilBit(bits, k) ==> (start <= k < start + len || k == pi) && nilLo <= k
      modifies this`bits, this`nilLo
      ensures Valid() && forall k :: NilBit(bits, k) == (NilBit(old(bits), k) && k != pi)
    {
      var b := bits.value[pi := false];
      bits := Some(b);
      assert forall k :: NilBit(bits, k) == (NilBit(old(bits), k) && k != pi);
      assert forall k :: 0 <= k < |b| && b[k] ==> NilBit(bits, k);
      if pi >= nilLo && !b[nilLo] {
        nilLo := NilLoUp(b, nilLo);
        if nilLo == NONE {
          bits := None;
        }
      }
    }

    /** The bits of the window moved to the front. */
    method SlideBits()
      requires Valid()
      modifies this`bits, this`nilLo
      ensures BitsOk(bits, |data|, nilLo, 0, len) && bits.Some? == old(bits.Some?)
      ensures forall k :: 0 <= k < len ==> NilBit(bits, k) == NilBit(old(bits), start + k)
    {
      hide Room, NilBit;
      if bits.Some? {
        MoveNils(start, 0, len);
      } else {
        NoBits(bits);
      }
    }

    /** The window slid home. */
    method Slide()
      requires Valid()
      modifies this`data, this`start, this`bits, this`nilLo
      ensures Valid() && Form() == Shape(0, len, old(|data|)) && bits.Some? == old(bits.Some?)
      ensures Elems() == old(Elems())
    {
      hide View, Slot, BitsOk, NilBit;
      ghost var cap := |data|;
      data := data[start..start + len] + data[len..];
      assert |data| == cap;
      SlideBits();
      start := 0;
      SlidView(old(data), old(bits), data, bits, old(start), len);
    }

    /** sp_IntArray_push_grow; moved counts the slots it copies. */
    method PushGrow() returns (ghost moved: nat)
      requires Valid() && start + len >= |data|
      modifies this`data, this`start, this`bits, this`nilLo
      ensures Valid() && Elems() == old(Elems()) && bits.Some? == old(bits.Some?)
      ensures Form() == Grown(old(Form())) && start + len < |data| && moved == Moved(old(Form()))
      ensures start == 0 && len == old(len)
      ensures |data| == if old(start) > 0 && old(|data|) >= 2 * len then old(|data|) else 2 * old(|data|) + 1
      ensures moved == (if old(start) > 0 then len else 0) + if |data| == old(|data|) then 0 else old(|data|)
    {
      moved := 0;
      if start > 0 {
        moved := moved + len;
        Slide();
        if |data| - len >= len { return; }
      }
      moved := moved + |data|;
      SetCap(|data| * 2 + 1);
    }

    // ----- push, pop, shift, unshift -----

    /** sp_IntArray_push; moved counts the slots that growing copied. */
    method Push(v: int) returns (o: Outcome, ghost moved: nat)
      requires Valid()
      modifies this
      ensures Valid() && frozen == old(frozen) && bits.Some? == old(bits.Some?)
      ensures moved == if frozen then 0 else Cost(old(Form()), Growth.Step.Push)
      ensures o == if frozen then FrozenError else Done
      ensures Elems() == if frozen then old(Elems()) else old(Elems()) + [Some(v)]
      ensures !frozen ==> Form() == Next(old(Form()), Growth.Step.Push)
      ensures !frozen && old(start + len < |data|) ==> |data| == old(|data|) && start == old(start) && moved == 0
      ensures !frozen && old(start + len >= |data|) ==>
        && |data| == (if old(start) > 0 && old(|data|) >= 2 * old(len) then old(|data|) else 2 * old(|data|) + 1)
        && moved == (if old(start) > 0 then old(len) else 0) + if |data| == old(|data|) then 0 else old(|data|)
    {
      o, moved := Done, 0;
      if frozen { return FrozenError, 0; }
      if start + len >= |data| { moved := PushGrow(); }
      AddEnd(v);
    }

    method AddEnd(v: int)
      requires Valid() && start + len < |data|
      modifies this`data, this`len
      ensures Valid() && len == old(len) + 1 && |data| == old(|data|) && Elems() == old(Elems()) + [Some(v)]
    {
      hide Room;
      data := data[start + len := v];
      len := len + 1;
      assert Elems() == old(Elems()) + [Some(v)];
    }

    method PushNil() returns (o: Outcome)
      requires Valid()
      modifies this
      ensures Valid() && frozen == old(frozen)
      ensures o == if frozen then FrozenError else Done
      ensures Elems() == if frozen then old(Elems()) else old(Elems()) + [None]
    {
      ghost var moved;
      o, moved := Push(0);
      if frozen { return; }
      MakeNil(len - 1);
    }

    method PushOpt(x: Option<int>) returns (o: Outcome)
      requires Valid()
      modifies this
      ensures Valid() && frozen == old(frozen)
      ensures o == if frozen then FrozenError else Done
      ensures Elems() == if frozen then old(Elems()) else old(Elems()) + [x]
    {
      if x.None? { o := PushNil(); } else { ghost var moved; o, moved := Push(x.value); }
    }

    /** sp_IntArray_take_cold: what left slot pi, its bit cleared behind it. */
    method Take(pi: nat) returns (x: Option<int>)
      requires start + len <= |data| && pi < |data| && !(start <= pi < start + len)
      requires BitsOk(bits, |data|, nilLo, if pi < start then pi else start, if pi < start then start + len else pi + 1)
      requires forall k :: NilBit(bits, k) ==> start <= k < start + len || k == pi
      modifies this`bits, this`nilLo
      ensures Valid() && x == Slot(data, old(bits), pi)
      ensures forall k :: start <= k < start + len ==> NilBit(bits, k) == NilBit(old(bits), k)
    {
      if bits.Some? && bits.value[pi] {
        ClearNil(pi);
        return None;
      }
      return Some(data[pi]);
    }

    /** sp_IntArray_pop_o. */
    method Pop() returns (x: Option<int>, o: Outcome)
      requires Valid()
      modifies this
      ensures Valid() && frozen == old(frozen)
      ensures o == if frozen && old(len) > 0 then FrozenError else Done
      ensures old(len) == 0 || frozen ==> x == None && Elems() == old(Elems())
      ensures old(len) > 0 && !frozen ==> old(Elems()) == Elems() + [x]
      ensures !frozen ==> Form() == Next(old(Form()), Growth.Step.Pop)
    {
      if len == 0 { return None, Done; }
      if frozen { return None, FrozenError; }
      len := len - 1;
      x := Take(start + len);
      assert old(Elems()) == Elems() + [x];
      return x, Done;
    }

    /** sp_IntArray_shift_o. */
    method Shift() returns (x: Option<int>, o: Outcome)
      requires Valid()
      modifies this
      ensures Valid() && frozen == old(frozen)
      ensures o == if frozen && old(len) > 0 then FrozenError else Done
      ensures old(len) == 0 || frozen ==> x == None && Elems() == old(Elems())
      ensures old(len) > 0 && !frozen ==> old(Elems()) == [x] + Elems()
      ensures !frozen ==> Form() == Next(old(Form()), Growth.Step.Shift)
    {
      if len == 0 { return None, Done; }
      if frozen { return None, FrozenError; }
      start, len := start + 1, len - 1;
      x := Take(start - 1);
      assert old(Elems()) == [x] + Elems();
      return x, Done;
    }

    method Unshift(v: int) returns (o: Outcome)
      requires Valid()
      modifies this
      ensures Valid() && frozen == old(frozen)
      ensures o == if frozen then FrozenError else Done
      ensures Elems() == if frozen then old(Elems()) else [Some(v)] + old(Elems())
    {
      if frozen { return FrozenError; }
      if start > 0 {
        start, len := start - 1, len + 1;
        data := data[start := v];
        assert Elems() == [Some(v)] + old(Elems());
      } else {
        if len + 1 > |data| { SetCap(|data| * 2 + 1); }
        OpenFront(v);
      }
      return Done;
    }

    /** unshift on a window at the buffer's start: the elements move up by one. */
    method OpenFront(v: int)
      requires Valid() && start == 0 && len < |data|
      modifies this`data, this`len, this`bits, this`nilLo
      ensures Valid() && Elems() == [Some(v)] + old(Elems())
    {
      data := [v] + data[..len] + data[len + 1..];
      if bits.Some? { MoveNils(0, 1, len); }
      len := len + 1;
      assert Elems() == [Some(v)] + old(Elems());
    }

    method UnshiftNil() returns (o: Outcome)
      requires Valid()
      modifies this
      ensures Valid() && frozen == old(frozen)
      ensures o == if frozen then FrozenError else Done
      ensures Elems() == if frozen then old(Elems()) else [None] + old(Elems())
    {
      o := Unshift(0);
      if frozen { return; }
      if bits.None? { NewBits(); }
      SetBit(start);
    }

    // ----- stores -----

    /** The gap slots past the end become nils, up to position i. */
    method FillGap(i: nat)
      requires Valid() && i > len && start + i <= |data|
      modifies this`data, this`len, this`bits, this`nilLo
      ensures Valid() && |data| == old(|data|) && len == i && Elems() == old(Elems()) + Nils(i - old(len))
    {
      hide Room, NilBit;
      if bits.None? { NewBits(); }
      MarkNils(start + len, start + i);
      ghost var n := len;
      while i > len
        invariant n <= len <= i && |data| == old(|data|)
        invariant forall k :: 0 <= k < start + n ==> data[k] == old(data[k])
        decreases i - len
        modifies this`data, this`len
      {
        data := data[start + len := 0];
        len := len + 1;
      }
      assert Elems() == old(Elems()) + Nils(i - old(len));
    }

    /** The slot just past the window takes v and joins it. */
    method PutLast(v: int)
      requires Valid() && start + len < |data|
      modifies this`data, this`len, this`bits
      ensures Valid() && len == old(len) + 1 && Elems() == old(Elems()) + [Some(v)]
    {
      hide Room, NilBit;
      data := data[start + len := v];
      len := len + 1;
      if bits.Some? { ClearBits(start + len - 1, start + len); } else { NoBits(bits); }
      assert Elems() == old(Elems()) + [Some(v)];
    }

    /** sp_IntArray_set_slow at or past the end. */
    method SetSlow(i: nat, v: int)
      requires Valid() && i >= len
      modifies this`data, this`len, this`bits, this`nilLo
      ensures Valid() && len == i + 1 && Elems() == Stored(old(Elems()), i, Some(v))
    {
      while start + i >= |data|
        invariant Valid() && Elems() == old(Elems()) && len == old(len)
        decreases start + i - |data|
      {
        SetCap(|data| * 2 + 1);
      }
      if i > len { FillGap(i); }
      PutLast(v);
    }

    /** sp_IntArray_set and sp_IntArray_set_cold. */
    method Set(i: int, v: int) returns (o: Outcome)
      requires Valid()
      modifies this
      ensures Valid() && frozen == old(frozen)
      ensures var j := if i < 0 then i + old(len) else i;
        o == (if frozen then FrozenError else if j < 0 then IndexError else Done)
        && Elems() == if o == Done then Stored(old(Elems()), j, Some(v)) else old(Elems())
    {
      if frozen { return FrozenError; }
      var j := if i < 0 then i + len else i;
      if j < 0 { return IndexError; }
      if j < len {
        data := data[start + j := v];
        if bits.Some? { ClearNil(start + j); }
        assert Elems() == Stored(old(Elems()), j, Some(v));
      } else {
        SetSlow(j, v);
      }
      return Done;
    }

    /** sp_IntArray_set_nil. */
    method SetNil(i: int) returns (o: Outcome)
      requires Valid()
      modifies this
      ensures Valid() && frozen == old(frozen)
      ensures var j := if i < 0 then i + old(len) else i;
        o == (if frozen then FrozenError else if j < 0 then IndexError else Done)
        && Elems() == if o == Done then Stored(old(Elems()), j, None) else old(Elems())
    {
      if frozen { return FrozenError; }
      var j := if i < 0 then i + len else i;
      if j < 0 { return IndexError; }
      if j >= len {
        SetSlow(j, 0);
      } else {
        data := data[start + j := 0];
      }
      MakeNil(j);
      assert Elems() == Stored(old(Elems()), j, None);
      return Done;
    }

    /** The nil bit of element j, in a bitmap made when there is none. */
    method MakeNil(j: nat)
      requires Valid() && j < len
      modifies this`bits, this`nilLo
      ensures Valid() && Elems() == old(Elems())[j := None]
    {
      if bits.None? { NewBits(); }
      SetBit(start + j);
    }

    // ----- insert, delete_at -----

    /** Nils pushed until the length is n. */
    method PadTo(n: int)
      requires Valid() && !frozen
      modifies this
      ensures Valid() && !frozen
      ensures Elems() == old(Elems()) + Nils(if n > old(len) then n - old(len) else 0)
    {
      while len < n
        invariant Valid() && !frozen && old(len) <= len && (len <= n || len == old(len))
        invariant Elems() == old(Elems()) + Nils(len - old(len))
        decreases n - len
      {
        var o := PushNil();
      }
    }

    /** The loop that moves slots a .. b - 2 up by one. */
    method ShiftUp(a: nat, b: nat)
      requires a < b <= |data|
      modifies this`data
      ensures |data| == old(|data|)
      ensures forall p :: 0 <= p < |data| ==> data[p] == old(data)[if a < p < b then p - 1 else p]
    {
      var j := b - 1;
      while j > a
        invariant a <= j < b && |data| == old(|data|)
        invariant forall p :: j < p < b ==> data[p] == old(data)[p - 1]
        invariant forall p :: 0 <= p <= j || b <= p < |data| ==> data[p] == old(data)[p]
      {
        data := data[j := data[j - 1]];
        j := j - 1;
      }
    }

    /** The bits from position i on move up by one. */
    method OpenBits(i: nat)
      requires Valid() && i < len && !NilBit(bits, start + len - 1)
      modifies this`bits, this`nilLo
      ensures Valid() && !NilBit(bits, start + i)
      ensures forall k :: start <= k < start + len && k != start + i ==>
        NilBit(bits, k) == NilBit(old(bits), if k < start + i then k else k - 1)
    {
      hide Room, NilBit;
      if bits.Some? {
        MoveNils(start + i, start + i + 1, len - 1 - i);
      } else {
        NoBits(bits);
      }
    }

    /** The elements from i on move up by one, and v takes their place. */
    method OpenAt(i: nat, v: int)
      requires Valid() && i < len && !NilBit(bits, start + len - 1)
      modifies this`data, this`bits, this`nilLo
      ensures Valid()
      ensures Elems() == old(Elems())[..i] + [Some(v)] + old(Elems())[i..len - 1]
    {
      hide View, Slot, BitsOk, NilBit;
      ShiftUp(start + i, start + len);
      OpenBits(i);
      data := data[start + i := v];
      OpenedView(old(data), old(bits), data, bits, start, len, i, v);
    }

    /** sp_IntArray_insert. */
    method Insert(i: int, v: int) returns (o: Outcome)
      requires Valid()
      modifies this
      ensures Valid() && frozen == old(frozen)
      ensures var j := if i < 0 then i + old(len) + 1 else i;
        o == (if frozen then FrozenError else if j < 0 then IndexError else Done)
        && Elems() == if o == Done then Inserted(old(Elems()), j, Some(v)) else old(Elems())
    {
      if frozen { return FrozenError; }
      var j := if i < 0 then i + len + 1 else i;
      if j < 0 { return IndexError; }
      PadTo(j);
      ghost var s := Elems();
      PushAndOpen(j, v);
      InsertedPadded(old(Elems()), s, j, Some(0), Some(v));
      return Done;
    }

    /** A scratch element at the end makes room for the move. */
    method PushAndOpen(i: nat, v: int)
      requires Valid() && !frozen && i <= len
      modifies this
      ensures Valid() && !frozen
      ensures var t := old(Elems()) + [Some(0)]; Elems() == t[..i] + [Some(v)] + t[i..|t| - 1]
    {
      ghost var moved;
      var o;
      o, moved := Push(0);
      assert Elems()[len - 1] == Some(0);
      OpenAt(i, v);
    }

    /** sp_IntArray_insert_nil. */
    method InsertNil(i: int) returns (o: Outcome)
      requires Valid()
      modifies this
      ensures Valid() && frozen == old(frozen)
      ensures var j := if i < 0 then i + old(len) + 1 else i;
        o == (if frozen then FrozenError else if j < 0 then IndexError else Done)
        && Elems() == if o == Done then Inserted(old(Elems()), j, None) else old(Elems())
    {
      var j := if i < 0 then i + len + 1 else i;
      o := Insert(i, 0);
      if o != Done { return; }
      MakeNil(j);
      assert Elems() == Inserted(old(Elems()), j, None);
    }

    /** The loop that moves slots a + 1 .. b - 1 down by one. */
    method ShiftDown(a: nat, b: nat)
      requires a < b <= |data|
      modifies this`data
      ensures |data| == old(|data|)
      ensures forall p :: 0 <= p < |data| ==> data[p] == old(data)[if a <= p < b - 1 then p + 1 else p]
    {
      var k := a;
      while k < b - 1
        invariant a <= k <= b - 1 && |data| == old(|data|)
        invariant forall p :: a <= p < k ==> data[p] == old(data)[p + 1]
        invariant forall p :: 0 <= p < a || k <= p < |data| ==> data[p] == old(data)[p]
      {
        data := data[k := data[k + 1]];
        k := k + 1;
      }
    }

    /** Bit i cleared, the bits above it moved down by one. */
    method CloseBits(i: nat)
      requires Valid() && i < len
      modifies this`bits, this`nilLo
      ensures BitsOk(bits, |data|, nilLo, start, start + len - 1)
      ensures forall k :: start <= k < start + len - 1 ==>
        NilBit(bits, k) == NilBit(old(bits), if k < start + i then k else k + 1)
    {
      hide Room, NilBit;
      if bits.Some? {
        ClearBits(start + i, start + i + 1);
        MoveNils(start + i + 1, start + i, len - i - 1);
      } else {
        NoBits(bits);
      }
    }

    /** The elements above i move down by one. */
    method CloseAt(i: nat)
      requires Valid() && i < len
      modifies this`data, this`len, this`bits, this`nilLo
      ensures Valid() && Elems() == old(Elems())[..i] + old(Elems())[i + 1..]
    {
      hide View, Slot, BitsOk, NilBit;
      ShiftDown(start + i, start + len);
      CloseBits(i);
      len := len - 1;
      ClosedView(old(data), old(bits), data, bits, start, old(len), i);
    }

    /** sp_IntArray_delete_at_o: nothing happens outside the array. */
    method DeleteAt(i: int) returns (x: Option<int>, o: Outcome)
      requires Valid()
      modifies this
      ensures Valid() && frozen == old(frozen)
      ensures var j := if i < 0 then i + old(len) else i;
        if 0 <= j < old(len) && !frozen
        then o == Done && x == old(Elems())[j] && Elems() == old(Elems())[..j] + old(Elems())[j + 1..]
        else o == (if 0 <= j < old(len) then FrozenError else Done) && x == None && Elems() == old(Elems())
    {
      var j := if i < 0 then i + len else i;
      if j < 0 || j >= len { return None, Done; }
      if frozen { return None, FrozenError; }
      x := Get(j);
      CloseAt(j);
      return x, Done;
    }

    // ----- reverse!, rotate! -----

    /** ia_pack. */
    method Pack() returns (p: seq<Option<int>>)
      requires Valid()
      ensures p == Elems()
    {
      p := [];
      for i := 0 to len
        invariant p == Elems()[..i]
      {
        p := p + [Get(i)];
      }
    }

    /** ia_unpack: the pairs become the window, the rest of the old window is dropped. */
    method Unpack(p: seq<Option<int>>)
      requires Valid() && |p| <= len
      modifies this`data, this`len, this`bits, this`nilLo
      ensures Valid() && Elems() == p && |data| == old(|data|)
    {
      hide Room, NilBit;
      if bits.Some? { ClearBits(start, start + len); } else { NoBits(bits); }
      for i := 0 to |p|
        invariant Valid() && len == old(len) && |data| == old(|data|)
        invariant Elems()[..i] == p[..i]
        invariant forall k :: NilBit(bits, k) ==> k < start + i
      {
        ghost var s := Elems();
        PutPair(i, p[i]);
        assert p[..i + 1] == p[..i] + [p[i]];
        assert Elems()[..i + 1] == s[..i] + [p[i]];
      }
      ghost var s := Elems();
      len := |p|;
      assert Elems() == s[..|p|];
    }

    /** One pair written to a position whose bit is clear. */
    method PutPair(i: nat, x: Option<int>)
      requires Valid() && i < len && !NilBit(bits, start + i)
      modifies this`data, this`bits, this`nilLo
      ensures Valid() && |data| == old(|data|) && Elems() == old(Elems())[i := x]
      ensures forall k :: NilBit(bits, k) ==> NilBit(old(bits), k) || k == start + i
    {
      hide Room, NilBit;
      data := data[start + i := if x.Some? then x.value else 0];
      ghost var s := Elems();
      assert s == old(Elems())[i := s[i]];
      if x.None? {
        if bits.None? { NewBits(); }
        SetBit(start + i);
      }
    }

    /** The swaps of reverse! on slots a .. b - 1. */
    method SwapAll(a: nat, b: nat)
      requires a <= b <= |data|
      modifies this`data
      ensures |data| == old(|data|)
      ensures forall k :: a <= k < b ==> data[k] == old(data)[a + b - 1 - k]
    {
      var i, j := a, b - 1;
      while i < j
        invariant a <= i <= j + 1 && i + j == a + b - 1 && |data| == old(|data|)
        invariant forall k :: a <= k < i || j < k < b ==> data[k] == old(data)[a + b - 1 - k]
        invariant forall k :: i <= k <= j ==> data[k] == old(data)[k]
      {
        data := data[i := data[j]][j := data[i]];
        i, j := i + 1, j - 1;
      }
    }

    /** sp_IntArray_reverse_bang. */
    method Reverse() returns (o: Outcome)
      requires Valid()
      modifies this
      ensures Valid() && frozen == old(frozen)
      ensures o == if frozen then FrozenError else Done
      ensures Elems() == if frozen then old(Elems()) else Reversed(old(Elems()))
    {
      if frozen { return FrozenError; }
      if bits.Some? {
        var p := Pack();
        p := ReversePairs(p);
        Unpack(p);
      } else {
        SwapAll(start, start + len);
        assert Elems() == Reversed(old(Elems()));
      }
      return Done;
    }

    /** The first n elements follow the last one; the window moves up by n. */
    method RotateWindow(n: nat)
      requires Valid() && bits.None? && n <= len && start + len + n <= |data|
      modifies this`data, this`start
      ensures Valid() && Elems() == old(Elems())[n..] + old(Elems())[..n]
    {
      data := data[..start + len] + data[start..start + n] + data[start + len + n..];
      start := start + n;
      assert Elems() == old(Elems())[n..] + old(Elems())[..n];
    }

    /** The rotation inside the window: the shorter side goes through a temporary. */
    method RotateInPlace(n: nat)
      requires Valid() && bits.None? && 0 < n < len
      modifies this`data
      ensures Valid() && Elems() == old(Elems())[n..] + old(Elems())[..n]
    {
      hide View, Slot;
      RotateSlots(start, start + len, n);
      RotatedView(old(data), data, start, len, n);
    }

    /** Slots d .. e - 1 rotated by two block moves. */
    method RotateSlots(d: nat, e: nat, n: nat)
      requires d + n <= e <= |data|
      modifies this`data
      ensures data == old(data)[..d] + (old(data)[d + n..e] + old(data)[d..d + n]) + old(data)[e..]
    {
      var rest := e - d - n;
      if n <= rest {
        var t := data[d..d + n];
        data := data[..d] + data[d + n..e] + data[d + rest..];
        data := data[..d + rest] + t + data[e..];
      } else {
        var t := data[d + n..e];
        data := data[..d + rest] + data[d..d + n] + data[e..];
        data := data[..d] + t + data[d + rest..];
      }
    }

    /** A new buffer with headroom for the rotation. */
    method Headroom(n: nat)
      requires Valid() && bits.None?
      modifies this`data, this`start
      ensures Valid() && Elems() == old(Elems()) && start == 0 && |data| == 2 * len + n
    {
      data := data[start..start + len] + seq(len + n, i => 0);
      start := 0;
      assert Elems() == old(Elems());
    }

    /** sp_IntArray_rotate_bang; room says whether the larger buffer could be allocated. */
    method Rotate(n: int, room: bool) returns (o: Outcome)
      requires Valid()
      modifies this
      ensures Valid() && frozen == old(frozen)
      ensures o == if frozen then FrozenError else Done
      ensures Elems() == if frozen then old(Elems()) else Rotated(old(Elems()), n)
    {
      if frozen { return FrozenError; }
      if len == 0 { return Done; }
      hide View, Count;
      CountIsFloor(n, len);
      RotateBy(Count(n, len), room);
      return Done;
    }

    method RotateBy(k: nat, room: bool)
      requires Valid() && k < len
      modifies this
      ensures Valid() && frozen == old(frozen) && Elems() == old(Elems())[k..] + old(Elems())[..k]
    {
      if k == 0 { return; }
      if bits.Some? {
        var p := Pack();
        var q := RotatePairs(p, k);
        Unpack(q);
        return;
      }
      if start + len + k > |data| && len + k <= |data| && start > 0 { Slide(); }
      if start + len + k > |data| && len + k > |data| && len <= 256 {
        if room { Headroom(k); }
      }
      if start + len + k <= |data| {
        RotateWindow(k);
      } else {
        RotateInPlace(k);
      }
    }

    // ----- splice, concat, slice! -----

    /** Plain values pushed one by one. */
    method PushAll(src: seq<int>)
      requires Valid() && !frozen
      modifies this
      ensures Valid() && !frozen && bits.Some? == old(bits.Some?) && Elems() == old(Elems()) + Values(src)
    {
      hide View, BitsOk, NilBit, Values;
      ValuesNone(src[..0]);
      ghost var e := Elems();
      assert e + [] == e;
      for i := 0 to |src|
        invariant Valid() && !frozen && bits.Some? == old(bits.Some?)
        invariant Elems() == e + Values(src[..i])
      {
        ValuesStep(e, src, i);
        var o;
        ghost var moved;
        o, moved := Push(src[i]);
      }
      assert src[..|src|] == src;
    }

    /** The bits of the nils in p set, from position at on. */
    method SetNils(at: nat, p: seq<Option<int>>)
      requires Valid() && (bits.None? ==> forall i :: 0 <= i < |p| ==> p[i].Some?) && at + |p| <= len
      modifies this`bits, this`nilLo
      ensures Valid() && |Elems()| == |old(Elems())|
      ensures forall k :: 0 <= k < len ==>
        Elems()[k] == if at <= k < at + |p| && p[k - at].None? then None else old(Elems())[k]
    {
      hide View, NilBit;
      for i := 0 to |p|
        invariant Valid() && bits.Some? == old(bits.Some?)
        invariant forall k :: 0 <= k < len ==>
          Elems()[k] == if at <= k < at + i && p[k - at].None? then None else old(Elems())[k]
      {
        if p[i].None? { SetBit(start + at + i); }
      }
    }

    /** Everything from position s on leaves the window. */
    method Truncate(s: nat)
      requires Valid() && s <= len
      modifies this`len, this`bits
      ensures Valid() && len == s && bits.Some? == old(bits.Some?) && Elems() == old(Elems())[..s]
    {
      hide Room, NilBit;
      if bits.Some? { ClearBits(start + s, start + len); } else { NoBits(bits); }
      len := s;
      assert Elems() == old(Elems())[..s];
    }

    /** The equal-length overwrite. */
    method Overwrite(s: nat, src: seq<int>)
      requires Valid() && s + |src| <= len
      modifies this`data, this`bits
      ensures Valid() && Elems() == old(Elems())[..s] + Values(src) + old(Elems())[s + |src|..]
    {
      hide Room, NilBit;
      if bits.Some? { ClearBits(start + s, start + s + |src|); } else { NoBits(bits); }
      data := data[..start + s] + src + data[start + s + |src|..];
      assert Elems() == old(Elems())[..s] + Values(src) + old(Elems())[s + |src|..];
    }

    /** The source and the saved tail pushed, then the tail's nils marked. */
    method Refill(src: seq<int>, tail: seq<int>, p: seq<Option<int>>)
      requires Valid() && !frozen && |p| == |tail| && forall i :: 0 <= i < |p| && p[i].Some? ==> p[i].value == tail[i]
      requires bits.None? ==> forall i :: 0 <= i < |p| ==> p[i].Some?
      modifies this
      ensures Valid() && !frozen && Elems() == old(Elems()) + Values(src) + p
    {
      hide NilBit, View, BitsOk;
      ghost var e := Elems();
      PushAll(src);
      var at := len;
      PushAll(tail);
      SetNils(at, p);
      Refilled(e + Values(src), tail, p, Elems());
    }

    /** The tail saved as values and nils, cut, and pushed again after the source. */
    method Resplice(s: nat, n: nat, src: seq<int>)
      requires Valid() && s + n <= len && !frozen
      modifies this
      ensures Valid() && !frozen && Elems() == old(Elems())[..s] + Values(src) + old(Elems())[s + n..]
    {
      hide NilBit, View, BitsOk;
      var tail := data[start + s + n..start + len];
      var p := Pack();
      p := p[s + n..];
      if bits.None? { NoNils(data, start, len, bits); }
      TailPairs(data, start, len, bits, s + n, tail, p);
      Truncate(s);
      Refill(src, tail, p);
    }

    /** sp_IntArray_splice: plain values. The source may be part of the array itself. */
    method Splice(at: int, n: int, src: seq<int>) returns (o: Outcome)
      requires Valid()
      modifies this
      ensures Valid() && frozen == old(frozen)
      ensures var s := if at < 0 then at + old(len) else at;
        o == (if frozen then FrozenError else if n < 0 || s < 0 then IndexError else Done)
        && Elems() == if o == Done then Spliced(old(Elems()), s, n, Values(src)) else old(Elems())
    {
      if frozen { return FrozenError; }
      var s := if at < 0 then at + len else at;
      if n < 0 { return IndexError; }
      if s < 0 { return IndexError; }
      if s > len {
        PadTo(s);
        PushAll(src);
        return Done;
      }
      var m := if s + n > len then len - s else n;
      if m == |src| {
        Overwrite(s, src);
      } else {
        Resplice(s, m, src);
      }
      return Done;
    }

    /** sp_IntArray_splice_o: a whole array, nils included; it may be this array. */
    method SpliceArray(at: int, n: int, src: IntArray?) returns (o: Outcome)
      requires Valid() && (src != null ==> src.Valid())
      modifies this
      ensures Valid() && frozen == old(frozen)
      ensures var s := if at < 0 then at + old(len) else at;
        o == (if frozen then FrozenError else if n < 0 || s < 0 then IndexError else Done)
        && Elems() == if o == Done then Spliced(old(Elems()), s, n, if src == null then [] else old(src.Elems()))
          else old(Elems())
    {
      if src == null {
        o := Splice(at, n, []);
        assert Values([]) == [];
      } else if src.bits.None? {
        ghost var e := src.Elems();
        var vals := src.data[src.start..src.start + src.len];
        assert Values(vals) == e;
        o := Splice(at, n, vals);
      } else {
        var p := src.Pack();
        o := SplicePairs(at, n, p);
      }
    }

    /** Values first, then the nils among them. */
    method SplicePairs(at: int, n: int, p: seq<Option<int>>) returns (o: Outcome)
      requires Valid()
      modifies this
      ensures Valid() && frozen == old(frozen)
      ensures var s := if at < 0 then at + old(len) else at;
        o == (if frozen then FrozenError else if n < 0 || s < 0 then IndexError else Done)
        && Elems() == if o == Done then Spliced(old(Elems()), s, n, p) else old(Elems())
    {
      hide View, NilBit, BitsOk, Spliced;
      ghost var e := Elems();
      var vals := seq(|p|, i requires 0 <= i < |p| => if p[i].Some? then p[i].value else 0);
      var s := if at < 0 then at + len else at;
      o := Splice(at, n, vals);
      if o == Done {
        if bits.None? { NewBits(); }
        SplicedSize(e, s, n, Values(vals));
        SetNils(s, p);
        SplicedNils(e, s, n, vals, p, Elems());
      }
    }

    /** Room for n more elements: slide home, then reallocate if that is not enough. */
    method Reserve(n: nat)
      requires Valid()
      modifies this`data, this`start, this`bits, this`nilLo
      ensures Valid() && Elems() == old(Elems()) && start + len + n <= |data| && bits.Some? == old(bits.Some?)
    {
      if start + len + n > |data| {
        if start > 0 { Slide(); }
        if len + n > |data| { SetCap((len + n) * 2 + 1); }
      }
    }

    /** sp_IntArray_append_o: one block copy, each nil with its bit; src may be this array. */
    method Append(src: IntArray?) returns (o: Outcome)
      requires Valid() && (src != null ==> src.Valid())
      modifies this
      ensures Valid() && frozen == old(frozen)
      ensures o == if src != null && frozen then FrozenError else Done
      ensures Elems() == if src == null || frozen then old(Elems()) else old(Elems()) + old(src.Elems())
    {
      if src == null { return Done; }
      if frozen { return FrozenError; }
      var n := src.len;
      if n == 0 { assert src.Elems() == []; return Done; }
      ghost var e, f := Elems(), src.Elems();
      Reserve(n);
      assert src.Elems() == f;
      AppendBlock(src, n);
      return Done;
    }

    method AppendBlock(src: IntArray, n: nat)
      requires Valid() && src.Valid() && n == src.len && start + len + n <= |data|
      modifies this`data, this`len, this`bits, this`nilLo
      ensures Valid() && Elems() == old(Elems()) + old(src.Elems())
    {
      ghost var nb, sb, ss := bits, src.bits, src.start;
      var end := start + len;
      data := data[..end] + src.data[src.start..src.start + n] + data[end + n..];
      AppendBits(src, n);
      len := len + n;
      AppendedView(old(data), nb, start, old(len), old(src.data), sb, ss, n, data, bits);
    }

    /** The bits of the copied block, read while they are being set. */
    method AppendBits(src: IntArray, n: nat)
      requires start + len + n <= |data| && BitsOk(bits, |data|, nilLo, start, start + len)
      requires src.start + n <= |src.data| && BitsOk(src.bits, |src.data|, src.nilLo, src.start, src.start + n)
      requires src == this ==> n == len
      modifies this`bits, this`nilLo
      ensures BitsOk(bits, |data|, nilLo, start, start + len + n)
      ensures forall k :: NilBit(bits, k) == AppendedBit(old(bits), start + len, old(src.bits), src.start, n, k)
    {
      hide Room, NilBit;
      if src.bits.None? { NoBits(src.bits); return; }
      for i := 0 to n
        invariant BitsOk(bits, |data|, nilLo, start, start + len + n)
        invariant src != this ==> src.bits == old(src.bits)
        invariant src == this ==> bits.Some?
        invariant forall k :: NilBit(bits, k) == AppendedBit(old(bits), start + len, old(src.bits), src.start, i, k)
      {
        assert NilBit(src.bits, src.start + i) == NilBit(old(src.bits), src.start + i);
        if NilBit(src.bits, src.start + i) {
          if bits.None? { NoBits(bits); BlankBits(); }
          MarkNil(start + len + i, start + len + n);
        }
      }
    }

    /** The loop that moves slots a + n .. b - 1 down by n. */
    method ShiftDownBy(a: nat, b: nat, n: nat)
      requires a + n <= b <= |data|
      modifies this`data
      ensures |data| == old(|data|)
      ensures forall p :: 0 <= p < a ==> data[p] == old(data)[p]
      ensures forall p :: a <= p < b - n ==> data[p] == old(data)[p + n]
    {
      var k := a;
      while k + n < b
        invariant a <= k <= b - n && |data| == old(|data|)
        invariant forall p :: a <= p < k ==> data[p] == old(data)[p + n]
        invariant forall p :: 0 <= p < a || k <= p < |data| ==> data[p] == old(data)[p]
      {
        data := data[k := data[k + n]];
        k := k + 1;
      }
    }

    /** The bits of a removed span: the ones above it move down, what is left at the end is cleared. */
    method CutBits(from: nat, n: nat)
      requires Valid() && from + n <= len
      modifies this`bits, this`nilLo
      ensures BitsOk(bits, |data|, nilLo, start, start + len - n)
      ensures forall k :: start <= k < start + len - n ==>
        NilBit(bits, k) == NilBit(old(bits), if k < start + from then k else k + n)
    {
      hide Room, NilBit;
      if bits.Some? {
        MoveNils(start + from + n, start + from, len - from - n);
        ghost var mid := bits;
        ClearBits(start + len - n, start + len);
        CutKeeps(old(bits), mid, bits, start, len, from, n);
      } else {
        NoBits(bits);
      }
    }

    /** Removal at the front: the window moves up. */
    method CutFront(n: nat)
      requires Valid() && n <= len
      modifies this`start, this`len, this`bits
      ensures Valid() && Elems() == old(Elems())[n..]
    {
      hide Room, NilBit;
      if bits.Some? { ClearBits(start, start + n); } else { NoBits(bits); }
      start, len := start + n, len - n;
      assert Elems() == old(Elems())[n..];
    }

    /** Removal elsewhere: the elements above move down. */
    method CutInside(from: nat, n: nat)
      requires Valid() && from + n <= len
      modifies this`data, this`len, this`bits, this`nilLo
      ensures Valid() && Elems() == old(Elems())[..from] + old(Elems())[from + n..]
    {
      hide View, Slot, BitsOk, NilBit;
      ShiftDownBy(start + from, start + len, n);
      CutBits(from, n);
      len := len - n;
      CutView(old(data), old(bits), data, bits, start, old(len), from, n);
    }

    method Cut(from: nat, n: nat)
      requires Valid() && from + n <= len
      modifies this`data, this`start, this`len, this`bits, this`nilLo
      ensures Valid() && Elems() == old(Elems())[..from] + old(Elems())[from + n..]
    {
      hide View;
      if from == 0 {
        CutFront(n);
        assert old(Elems())[..0] + old(Elems())[n..] == old(Elems())[n..];
      } else {
        CutInside(from, n);
      }
    }

    /** sp_IntArray_slice_bang: null stands for nil. */
    method SliceOut(from: int, n: int) returns (r: IntArray?, o: Outcome)
      requires Valid()
      modifies this
      ensures Valid() && frozen == old(frozen)
      ensures o == if frozen then FrozenError else Done
      ensures var f := if from < 0 then from + old(len) else from;
        if frozen || f < 0 || f > old(len) || n < 0 then r == null && Elems() == old(Elems())
        else
          var m := if f + n > old(len) then old(len) - f else n;
          && r != null && fresh(r) && r.Valid() && !r.frozen
          && r.Elems() == old(Elems())[f..f + m]
          && Elems() == old(Elems())[..f] + old(Elems())[f + m..]
    {
      if frozen { return null, FrozenError; }
      var f := if from < 0 then from + len else from;
      if f < 0 || f > len { return null, Done; }
      if n < 0 { return null, Done; }
      var m := if f + n > len then len - f else n;
      var t := CopyOf(f, m);
      Cut(f, m);
      return t, Done;
    }

    /** The span pushed one by one onto a new array. */
    method CopyOf(f: nat, m: nat) returns (t: IntArray)
      requires Valid() && f + m <= len
      ensures fresh(t) && t.Valid() && !t.frozen && t.Elems() == Elems()[f..f + m]
    {
      t := new IntArray();
      for i := 0 to m
        invariant fresh(t) && t.Valid() && !t.frozen && t.Elems() == Elems()[f..f + i]
        modifies t
      {
        var u := t.PushOpt(Get(f + i));
      }
    }
  }

  /** The pairs of a packed window reversed by swaps. */
  method ReversePairs(p: seq<Option<int>>) returns (r: seq<Option<int>>)
    ensures r == Reversed(p)
  {
    r := p;
    var i, j := 0, |p| - 1;
    while i < j
      invariant 0 <= i <= j + 1 && i + j == |p| - 1 && |r| == |p|
      invariant forall k :: 0 <= k < i || j < k < |p| ==> r[k] == p[|p| - 1 - k]
      invariant forall k :: i <= k <= j ==> r[k] == p[k]
    {
      r := r[i := r[j]][j := r[i]];
      i, j := i + 1, j - 1;
    }
  }

  method RotatePairs(p: seq<Option<int>>, n: nat) returns (q: seq<Option<int>>)
    requires n < |p|
    ensures q == p[n..] + p[..n]
  {
    q := [];
    for i := 0 to |p|
      invariant q == (p[n..] + p[..n])[..i]
    {
      if i + n >= |p| { RemainderIs(i + n, |p|, 1, i + n - |p|); } else { RemainderIs(i + n, |p|, 0, i + n); }
      ghost var r := p[n..] + p[..n];
      assert r[..i + 1] == r[..i] + [r[i]];
      q := q + [p[(i + n) % |p|]];
    }
  }
}
