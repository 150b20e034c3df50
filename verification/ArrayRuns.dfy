/**
  Whole runs of operations on an Integer array (lib/sp_array.h, lib/sp_array.c):
  whatever slides, grows, wraps around or drops its bitmap on the way, the
  elements are those of the plain operations on a sequence of optional integers.
 */
module ArrayRuns {
  import opened NilBits
  import opened IntArrays

  datatype Op =
    | Append(x: Option<int>)
    | Pop
    | Shift
    | Prepend(x: Option<int>)
    | Store(i: int, x: Option<int>)
    | Insert(i: int, x: Option<int>)
    | DeleteAt(i: int)
    | Reverse
    | Rotate(n: int, room: bool)
    | Splice(at: int, n: int, src: seq<int>)
    | SpliceArray(at: int, n: int, other: Elements)
    | SpliceSelf(at: int, n: int)
    | Concat(other: Elements)
    | ConcatSelf
    | SliceOut(at: int, n: int)

  type Elements = seq<Option<int>>

  /** A negative index counts from the end. */
  function From(i: int, n: nat): int {
    if i < 0 then i + n else i
  }

  /** The plain operation; where the array raises, nothing changes. */
  function Applied(s: Elements, op: Op): Elements {
    match op
    case Append(x) => s + [x]
    case Pop => if s == [] then s else s[..|s| - 1]
    case Shift => if s == [] then s else s[1..]
    case Prepend(x) => [x] + s
    case Store(i, x) => if From(i, |s|) < 0 then s else Stored(s, From(i, |s|), x)
    case Insert(i, x) => if From(i, |s| + 1) < 0 then s else Inserted(s, From(i, |s| + 1), x)
    case DeleteAt(i) =>
      var j := From(i, |s|);
      if 0 <= j < |s| then s[..j] + s[j + 1..] else s
    case Reverse => Reversed(s)
    case Rotate(n, _) => Rotated(s, n)
    case Splice(at, n, src) => if n < 0 || From(at, |s|) < 0 then s else Spliced(s, From(at, |s|), n, Values(src))
    case SpliceArray(at, n, other) => if n < 0 || From(at, |s|) < 0 then s else Spliced(s, From(at, |s|), n, other)
    case SpliceSelf(at, n) => if n < 0 || From(at, |s|) < 0 then s else Spliced(s, From(at, |s|), n, s)
    case Concat(other) => s + other
    case ConcatSelf => s + s
    case SliceOut(at, n) =>
      var f := From(at, |s|);
      if f < 0 || f > |s| || n < 0 then s else s[..f] + s[if f + n > |s| then |s| else f + n..]
  }

  function AppliedAll(s: Elements, ops: seq<Op>): Elements {
    if ops == [] then s else Applied(AppliedAll(s, ops[..|ops| - 1]), ops[|ops| - 1])
  }

  /** The operations that are not described index by index elsewhere. */
  lemma AppliedMeans(s: Elements, x: Option<int>, other: Elements)
    ensures Applied(s, Append(x)) == s + [x] && Applied(s, Prepend(x)) == [x] + s
    ensures s != [] ==> Applied(s, Pop) + [s[|s| - 1]] == s && [s[0]] + Applied(s, Shift) == s
    ensures s == [] ==> Applied(s, Pop) == [] && Applied(s, Shift) == []
    ensures Applied(s, Concat(other)) == s + other && Applied(s, ConcatSelf) == s + s
    ensures |Applied(s, Reverse)| == |s| && forall i :: 0 <= i < |s| ==> Applied(s, Reverse)[i] == s[|s| - 1 - i]
  {
  }

  /** At an index i, counted from the end when it is negative; out of reach nothing changes. */
  lemma AppliedAtIndex(s: Elements, i: int, x: Option<int>)
    ensures 0 <= i ==> Applied(s, Store(i, x)) == Stored(s, i, x) && Applied(s, Insert(i, x)) == Inserted(s, i, x)
    ensures -|s| <= i < 0 ==> Applied(s, Store(i, x)) == Stored(s, |s| + i, x)
    ensures -|s| - 1 <= i < 0 ==> Applied(s, Insert(i, x)) == Inserted(s, |s| + 1 + i, x)
    ensures i < -|s| ==> Applied(s, Store(i, x)) == s && Applied(s, DeleteAt(i)) == s
    ensures i < -|s| - 1 ==> Applied(s, Insert(i, x)) == s
    ensures 0 <= i < |s| ==> Applied(s, DeleteAt(i)) == s[..i] + s[i + 1..]
    ensures -|s| <= i < 0 ==> Applied(s, DeleteAt(i)) == s[..|s| + i] + s[|s| + i + 1..]
    ensures i >= |s| ==> Applied(s, DeleteAt(i)) == s
  {
    hide Stored, Inserted;
  }

  /** Rotation, and n elements from i on replaced. */
  lemma AppliedBlock(s: Elements, i: int, n: int, t: seq<int>, other: Elements, room: bool)
    ensures Applied(s, Rotate(n, room)) == Rotated(s, n)
    ensures n < 0 || i < -|s| ==>
      Applied(s, Splice(i, n, t)) == s && Applied(s, SpliceArray(i, n, other)) == s && Applied(s, SpliceSelf(i, n)) == s
    ensures n >= 0 && i >= -|s| ==>
      var at := if i < 0 then |s| + i else i;
      && Applied(s, Splice(i, n, t)) == Spliced(s, at, n, Values(t))
      && Applied(s, SpliceArray(i, n, other)) == Spliced(s, at, n, other)
      && Applied(s, SpliceSelf(i, n)) == Spliced(s, at, n, s)
  {
    hide Spliced, Rotated, Values;
  }

  /** An array with the given elements, as the second operand of an operation. */
  method Build(s: Elements) returns (b: IntArray)
    ensures fresh(b) && b.Valid() && !b.frozen && b.Elems() == s
  {
    hide View, BitsOk, NilBit;
    b := new IntArray();
    assert s[..0] == [];
    for i := 0 to |s|
      invariant fresh(b) && b.Valid() && !b.frozen && b.Elems() == s[..i]
    {
      assert s[..i + 1] == s[..i] + [s[i]];
      var o := b.PushOpt(s[i]);
    }
    assert s[..|s|] == s;
  }

  /** Operations at the ends. */
  method PerformEnd(a: IntArray, op: Op)
    requires a.Valid() && !a.frozen && (op.Append? || op.Pop? || op.Shift? || op.Prepend?)
    modifies a
    ensures a.Valid() && !a.frozen && a.Elems() == Applied(old(a.Elems()), op)
  {
    hide View, BitsOk, NilBit;
    ghost var s := a.Elems();
    match op
    case Append(x) => var o := a.PushOpt(x);
    case Pop => var x, o := a.Pop(); assert s != [] ==> s[..|s| - 1] == a.Elems();
    case Shift => var x, o := a.Shift(); assert s != [] ==> s[1..] == a.Elems();
    case Prepend(x) => if x.None? { var o := a.UnshiftNil(); } else { var o := a.Unshift(x.value); }
  }

  /** Operations at an index. */
  method PerformAt(a: IntArray, op: Op)
    requires a.Valid() && !a.frozen && (op.Store? || op.Insert?)
    modifies a
    ensures a.Valid() && !a.frozen && a.Elems() == Applied(old(a.Elems()), op)
  {
    hide View, BitsOk, NilBit, Stored, Inserted;
    match op
    case Store(i, x) => if x.None? { var o := a.SetNil(i); } else { var o := a.Set(i, x.value); }
    case Insert(i, x) => if x.None? { var o := a.InsertNil(i); } else { var o := a.Insert(i, x.value); }
  }

  /** Operations that take elements out. */
  method PerformCut(a: IntArray, op: Op)
    requires a.Valid() && !a.frozen && (op.DeleteAt? || op.SliceOut?)
    modifies a
    ensures a.Valid() && !a.frozen && a.Elems() == Applied(old(a.Elems()), op)
  {
    hide View, BitsOk, NilBit;
    match op
    case DeleteAt(i) => var x, o := a.DeleteAt(i);
    case SliceOut(at, n) => var r, o := a.SliceOut(at, n);
  }

  /** Operations on the whole window. */
  method PerformBlock(a: IntArray, op: Op)
    requires a.Valid() && !a.frozen
    requires op.Reverse? || op.Rotate? || op.Splice? || op.SpliceSelf? || op.ConcatSelf?
    modifies a
    ensures a.Valid() && !a.frozen && a.Elems() == Applied(old(a.Elems()), op)
  {
    hide View, BitsOk, NilBit, Rotated, Reversed, Spliced;
    match op
    case Reverse => var o := a.Reverse();
    case Rotate(n, room) => var o := a.Rotate(n, room);
    case Splice(at, n, src) => var o := a.Splice(at, n, src);
    case SpliceSelf(at, n) => var o := a.SpliceArray(at, n, a);
    case ConcatSelf => var o := a.Append(a);
  }

  /** Operations with a second array. */
  method PerformWith(a: IntArray, op: Op)
    requires a.Valid() && !a.frozen && (op.SpliceArray? || op.Concat?)
    modifies a
    ensures a.Valid() && !a.frozen && a.Elems() == Applied(old(a.Elems()), op)
  {
    hide View, BitsOk, NilBit, Spliced;
    var b := Build(op.other);
    match op
    case SpliceArray(at, n, _) => var o := a.SpliceArray(at, n, b);
    case Concat(_) => var o := a.Append(b);
  }

  /** One operation on the array. */
  method Perform(a: IntArray, op: Op)
    requires a.Valid() && !a.frozen
    modifies a
    ensures a.Valid() && !a.frozen && a.Elems() == Applied(old(a.Elems()), op)
  {
    hide Applied, View, BitsOk, NilBit;
    if op.Append? || op.Pop? || op.Shift? || op.Prepend? {
      PerformEnd(a, op);
    } else if op.Store? || op.Insert? {
      PerformAt(a, op);
    } else if op.DeleteAt? || op.SliceOut? {
      PerformCut(a, op);
    } else if op.SpliceArray? || op.Concat? {
      PerformWith(a, op);
    } else {
      PerformBlock(a, op);
    }
  }

  /** Over every run, the elements are what the plain operations make of them. */
  method Run(a: IntArray, ops: seq<Op>)
    requires a.Valid() && !a.frozen
    modifies a
    ensures a.Valid() && !a.frozen && a.Elems() == AppliedAll(old(a.Elems()), ops)
  {
    hide Applied;
    ghost var s := a.Elems();
    assert ops[..0] == [];
    for i := 0 to |ops|
      invariant a.Valid() && !a.frozen && a.Elems() == AppliedAll(s, ops[..i])
    {
      assert ops[..i + 1][..i] == ops[..i];
      Perform(a, ops[i]);
    }
    assert ops[..|ops|] == ops;
  }

  /**
    A run of pushes, pops and shifts: the slots that growing copies are those of
    the cost model, so at most four for each push when the array starts fresh.
   */
  method Queue(a: IntArray, run: seq<Growth.Step>, values: seq<int>) returns (ghost moved: nat)
    requires a.Valid() && !a.frozen && |values| == |run|
    modifies a
    ensures a.Valid() && !a.frozen
    ensures a.Form() == Growth.Final(old(a.Form()), run) && moved == Growth.TotalMoved(old(a.Form()), run)
    ensures moved <= Growth.Credit(old(a.Form())) + 4 * Growth.Pushes(run)
    ensures old(a.Form()) == Growth.FRESH ==> moved <= 4 * Growth.Pushes(run)
  {
    hide View, BitsOk, NilBit, Growth.Next, Growth.Cost;
    moved := 0;
    ghost var s := a.Form();
    assert run[..0] == [];
    for i := 0 to |run|
      invariant a.Valid() && !a.frozen
      invariant a.Form() == Growth.Final(s, run[..i]) && moved == Growth.TotalMoved(s, run[..i])
    {
      assert run[..i + 1] == run[..i] + [run[i]];
      Growth.RunSnoc(s, run[..i], run[i]);
      ghost var m := QueueStep(a, run[i], values[i]);
      moved := moved + m;
    }
    assert run[..|run|] == run;
    Growth.RunPays(s, run);
  }

  method QueueStep(a: IntArray, op: Growth.Step, v: int) returns (ghost moved: nat)
    requires a.Valid() && !a.frozen
    modifies a
    ensures a.Valid() && !a.frozen
    ensures a.Form() == Growth.Next(old(a.Form()), op) && moved == Growth.Cost(old(a.Form()), op)
  {
    hide View, BitsOk, NilBit;
    moved := 0;
    match op
    case Push =>
      var o;
      o, moved := a.Push(v);
    case Pop => var x, o := a.Pop();
    case Shift => var x, o := a.Shift();
  }
}
