/**
  The amortized growth of an Integer array's buffer (lib/sp_array.h:159-173 and
  189-190). A shape is where the live window sits in the buffer; a push into a
  full buffer slides the window home, and reallocates unless the slide freed at
  least as many slots as there are elements.
 */
module Growth {
  datatype Shape = Shape(start: nat, len: nat, cap: nat)

  ghost predicate Fits(s: Shape) {
    s.start + s.len <= s.cap
  }

  /** The shape after sp_IntArray_push_grow on a full buffer. */
  function Grown(s: Shape): Shape {
    if s.start > 0 && s.cap - s.len >= s.len then Shape(0, s.len, s.cap)
    else Shape(0, s.len, 2 * s.cap + 1)
  }

  /** Slots it moves: the slid window, and the whole old buffer when it reallocates. */
  function Moved(s: Shape): nat {
    (if s.start > 0 then s.len else 0)
    + (if s.start > 0 && s.cap - s.len >= s.len then 0 else s.cap)
  }

  datatype Step = Push | Pop | Shift

  /** One operation; popping or shifting an empty array changes nothing. */
  function Next(s: Shape, op: Step): (t: Shape)
    requires Fits(s)
    ensures Fits(t)
  {
    match op
    case Push =>
      var g := if s.start + s.len >= s.cap then Grown(s) else s;
      g.(len := g.len + 1)
    case Pop => if s.len == 0 then s else s.(len := s.len - 1)
    case Shift => if s.len == 0 then s else s.(start := s.start + 1, len := s.len - 1)
  }

  function Cost(s: Shape, op: Step): nat {
    if op == Push && s.start + s.len >= s.cap then Moved(s) else 0
  }

  /** sp_IntArray_new. */
  const FRESH: Shape := Shape(0, 0, 16)

  function Final(s: Shape, run: seq<Step>): (t: Shape)
    requires Fits(s)
    ensures Fits(t)
    decreases |run|
  {
    if run == [] then s else Final(Next(s, run[0]), run[1..])
  }

  function TotalMoved(s: Shape, run: seq<Step>): nat
    requires Fits(s)
    decreases |run|
  {
    if run == [] then 0 else Cost(s, run[0]) + TotalMoved(Next(s, run[0]), run[1..])
  }

  function Pushes(run: seq<Step>): nat {
    if run == [] then 0 else (if run[0] == Push then 1 else 0) + Pushes(run[1..])
  }

  /** The pushes of a run, counted. */
  lemma {:induction false} PushesCounted(run: seq<Step>)
    ensures Pushes(run) == multiset(run)[Push]
  {
    if run != [] {
      PushesCounted(run[1..]);
      assert run == [run[0]] + run[1..];
    }
  }

  /** What the operations so far have paid towards the next move. */
  function Credit(s: Shape): nat {
    var e := 4 * (s.start + s.len) - 2 * s.cap;
    if e > 0 then e else 0
  }

  lemma StepPays(s: Shape, op: Step)
    requires Fits(s)
    ensures Cost(s, op) + Credit(Next(s, op)) <= Credit(s) + if op == Push then 4 else 0
  {
  }

  /** From any shape: the moves are paid by four a push and the credit at the start. */
  lemma {:induction false} RunPays(s: Shape, run: seq<Step>)
    requires Fits(s)
    ensures TotalMoved(s, run) + Credit(Final(s, run)) <= Credit(s) + 4 * Pushes(run)
    decreases |run|
  {
    if run != [] {
      StepPays(s, run[0]);
      RunPays(Next(s, run[0]), run[1..]);
    }
  }

  /** Over every run on a fresh array, at most four slots are moved per push. */
  lemma AmortizedGrowth(run: seq<Step>)
    ensures TotalMoved(FRESH, run) <= 4 * Pushes(run)
  {
    RunPays(FRESH, run);
  }

  lemma {:induction false} RunSnoc(s: Shape, run: seq<Step>, op: Step)
    requires Fits(s)
    ensures Final(s, run + [op]) == Next(Final(s, run), op)
    ensures TotalMoved(s, run + [op]) == TotalMoved(s, run) + Cost(Final(s, run), op)
    decreases |run|
  {
    if run == [] {
      assert run + [op] == [op];
      assert [op][1..] == [];
    } else {
      assert (run + [op])[1..] == run[1..] + [op];
      RunSnoc(Next(s, run[0]), run[1..], op);
    }
  }

  /** Growing always leaves room for one more element. */
  lemma GrownHasRoom(s: Shape)
    requires Fits(s)
    ensures Grown(s).start + Grown(s).len < Grown(s).cap
  {
  }
}
