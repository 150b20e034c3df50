/**
  The two-generation string lists (lib/sp_alloc.c:852-903, 978-1024 and
  1091-1205): every sweep empties the young list, moving what is marked to the
  old list; a major sweep also walks the old list. Marks accumulate until the
  sweep that resets them. Majors come on an adaptive schedule. What the
  collector marks, and what the slab strings weigh, are inputs.
 */
module StringHeap {
  import opened Arith

  // The tag bytes of a list string.
  const PLAIN: int := 0xfe
  const PLAIN_MARKED: int := 0xfc
  const FROZEN: int := 0xf1
  const KEY: int := 0xfa
  const KEY_MARKED: int := 0xf8

  datatype Str = Str(id: int, size: nat, tag: int)

  predicate Survives(s: Str) {
    s.tag == PLAIN_MARKED || s.tag == FROZEN || s.tag == KEY_MARKED
  }

  function Unmarked(s: Str): Str {
    if s.tag == PLAIN_MARKED then s.(tag := PLAIN)
    else if s.tag == KEY_MARKED then s.(tag := KEY) else s
  }

  function Total(s: seq<Str>): nat {
    if s == [] then 0 else Total(s[..|s| - 1]) + s[|s| - 1].size
  }

  /** What a sweep keeps of a list, in order, marks reset. */
  function Kept(s: seq<Str>): seq<Str> {
    if s == [] then []
    else Kept(s[..|s| - 1]) + if Survives(s[|s| - 1]) then [Unmarked(s[|s| - 1])] else []
  }

  function Reverse(s: seq<Str>): (r: seq<Str>)
    ensures |r| == |s| && forall i :: 0 <= i < |s| ==> r[i] == s[|s| - 1 - i]
  {
    seq(|s|, i requires 0 <= i < |s| => s[|s| - 1 - i])
  }

  lemma {:induction false} TotalAppend(s: seq<Str>, t: seq<Str>)
    ensures Total(s + t) == Total(s) + Total(t)
    decreases |t|
  {
    if t == [] {
      assert s + t == s;
    } else {
      assert (s + t)[..|s + t| - 1] == s + t[..|t| - 1];
      TotalAppend(s, t[..|t| - 1]);
    }
  }

  lemma {:induction false} TotalReverse(s: seq<Str>)
    ensures Total(Reverse(s)) == Total(s)
  {
    if s != [] {
      var n := |s| - 1;
      TotalReverse(s[..n]);
      assert Reverse(s) == [s[n]] + Reverse(s[..n]);
      TotalAppend([s[n]], Reverse(s[..n]));
      assert [s[n]][..0] == [];
    }
  }

  /** What is kept of one string: a marked one without its mark, a frozen one as it is. */
  lemma KeptOne(s: Str)
    ensures Kept([s]) ==
      if s.tag == 0xfc then [Str(s.id, s.size, 0xfe)]
      else if s.tag == 0xf8 then [Str(s.id, s.size, 0xfa)]
      else if s.tag == 0xf1 then [s] else []
    ensures Total([s]) == s.size && Kept([]) == [] && Total([]) == 0
  {
    assert [s][..0] == [];
  }

  /** String by string, in order. */
  lemma {:induction false} KeptAppend(s: seq<Str>, t: seq<Str>)
    ensures Kept(s + t) == Kept(s) + Kept(t)
    decreases |t|
  {
    if t == [] {
      assert s + t == s;
    } else {
      assert (s + t)[..|s + t| - 1] == s + t[..|t| - 1];
      KeptAppend(s, t[..|t| - 1]);
    }
  }

  lemma KeptStep(s: seq<Str>, k: nat)
    requires k < |s|
    ensures Kept(s[..k + 1]) == Kept(s[..k]) + if Survives(s[k]) then [Unmarked(s[k])] else []
    ensures Total(s[..k + 1]) == Total(s[..k]) + s[k].size
  {
    assert s[..k + 1][..k] == s[..k];
  }

  lemma {:induction false} TotalPrefix(s: seq<Str>, k: nat)
    requires k <= |s|
    ensures Total(s[..k]) <= Total(s)
  {
    assert s == s[..k] + s[k..];
    TotalAppend(s[..k], s[k..]);
  }

  // ----- the gate and the schedule -----

  const INTERVAL: nat := 8
  const INTERVAL_MAX: nat := 128
  const SIZE_MAX: nat := 0xFFFF_FFFF_FFFF_FFFF

  function SatMul(v: nat, k: nat): nat {
    if v * k > SIZE_MAX then SIZE_MAX else v * k
  }

  /** interval and cycle drive the schedule; floor is the least backstop. */
  datatype State = State(young: seq<Str>, older: seq<Str>, oldBytes: nat, cycle: nat, interval: nat, threshold: nat)

  /** SPINEL_GC_STR_MAJOR: fixed holds the policy still, sched is off for the size gate. */
  datatype Config = Config(fixed: bool, sched: bool, floor: nat)

  /** What one collection brings: whether the young trigger is passed, and the slab strings' share. */
  datatype Cycle = Cycle(over: bool, minorOnly: bool, slabBefore: nat, slabAfter: nat, slabPromoted: nat)

  predicate OnSchedule(st: State)
    requires st.interval > 0
  {
    st.cycle % st.interval == 0
  }

  /** sp_str_sweep_begin's decision, before a minor-only collection overrides it. */
  predicate Scheduled(st: State, cf: Config, c: Cycle)
    requires st.interval > 0
  {
    (cf.sched && OnSchedule(st)) || c.slabBefore + st.oldBytes > st.threshold
  }

  predicate IsMajor(st: State, cf: Config, c: Cycle)
    requires st.interval > 0
  {
    c.over && !c.minorOnly && Scheduled(st, cf, c)
  }

  function Halved(i: nat): nat {
    if i > INTERVAL then i / 2 else i
  }

  function Doubled(i: nat): nat {
    if i < INTERVAL_MAX then i * 2 else i
  }

  /** What a major kept of the old set it walked: not what the same sweep promoted. */
  function KeptBytes(after: nat, promoted: nat): nat {
    if after > promoted then after - promoted else 0
  }

  /** The backstop after a major: twice what it kept, and at least the floor. */
  function Backstop(kept: nat, floor: nat): nat {
    if SatMul(kept, 2) < floor then floor else SatMul(kept, 2)
  }

  /** The interval after a major: shorter when forced, else by the ratio of what it kept. */
  function Adapted(interval: nat, forced: bool, before: nat, kept: nat): nat {
    if forced then Halved(interval)
    else if before == 0 then interval
    else if kept > before - before / 4 then Doubled(interval)
    else if kept < before / 2 then Halved(interval)
    else interval
  }

  ghost predicate GoodInterval(i: nat) {
    i == 8 || i == 16 || i == 32 || i == 64 || i == 128
  }

  /** The counter equals the old list's bytes; the schedule is sane. */
  ghost predicate Valid(st: State) {
    st.oldBytes == Total(st.older) && GoodInterval(st.interval) && st.cycle < 0x1_0000_0000
  }

  /** The lists after a sweep. */
  function Swept(st: State, major: bool): State {
    var was := if major then Kept(st.older) else st.older;
    var now := Reverse(Kept(st.young)) + was;
    st.(young := [], older := now, oldBytes := Total(now))
  }

  /** One collection: gate, sweep, re-aim. */
  function Collected(st: State, cf: Config, c: Cycle): State
    requires st.interval > 0
  {
    if !c.over then st
    else
      var major := IsMajor(st, cf, c);
      var s := Swept(st, major);
      var t := if cf.sched then s.(cycle := (st.cycle + 1) % 0x1_0000_0000) else s;
      if !major then t
      else
        var kept := KeptBytes(c.slabAfter + t.oldBytes, Total(Kept(st.young)) + c.slabPromoted);
        var forced := !OnSchedule(st);
        t.(interval := if cf.fixed || !cf.sched then st.interval
                       else Adapted(st.interval, forced, c.slabBefore + st.oldBytes, kept),
           threshold := if cf.fixed then st.threshold else Backstop(kept, cf.floor))
  }

  lemma CollectedValid(st: State, cf: Config, c: Cycle)
    requires Valid(st)
    ensures Valid(Collected(st, cf, c))
  {
    hide Kept, Total, Reverse;
  }

  /** What a collection keeps of the old set it walked. */
  function KeptBy(st: State, cf: Config, c: Cycle): nat
    requires st.interval > 0
  {
    KeptBytes(c.slabAfter + Swept(st, IsMajor(st, cf, c)).oldBytes, Total(Kept(st.young)) + c.slabPromoted)
  }

  /**
    What a collection does to the policy. A minor leaves it alone. A major lets
    the old generation double before one is forced, and moves the interval by at
    most one doubling inside 8 to 128: up exactly when it came on schedule and
    more than three quarters survived, down exactly when it was forced or less
    than half survived.
   */
  lemma Retuned(st: State, cf: Config, c: Cycle)
    requires Valid(st)
    ensures var t := Collected(st, cf, c); var k := KeptBy(st, cf, c); var before := c.slabBefore + st.oldBytes;
      var adapts := IsMajor(st, cf, c) && !cf.fixed; var onSchedule := st.cycle % st.interval == 0;
      && (!adapts ==> t.interval == st.interval && t.threshold == st.threshold)
      && (adapts ==> t.threshold >= cf.floor && (t.threshold >= 2 * k || t.threshold >= 0xFFFF_FFFF_FFFF_FFFF))
      && (adapts && t.threshold > cf.floor ==> t.threshold <= 2 * k)
      && GoodInterval(t.interval) && t.interval <= 2 * st.interval && st.interval <= 2 * t.interval
      && (t.interval > st.interval <==>
            adapts && cf.sched && onSchedule && st.interval < 128 && before > 0 && k > before - before / 4)
      && (t.interval < st.interval <==>
            adapts && cf.sched && st.interval > 8 && (!onSchedule || k < before / 2))
  {
    hide Kept, Total, Reverse;
  }

  /** What is kept is what the major left of the old list and of the old slab strings: promotions do not count. */
  lemma KeptIsOld(st: State, cf: Config, c: Cycle)
    requires Valid(st) && IsMajor(st, cf, c)
    ensures var n := c.slabAfter + Total(Kept(st.older));
      KeptBy(st, cf, c) == if n > c.slabPromoted then n - c.slabPromoted else 0
  {
    hide Kept, Total, Reverse;
    TotalReverse(Kept(st.young));
    TotalAppend(Reverse(Kept(st.young)), Kept(st.older));
  }

  // ----- runs -----

  datatype Event =
    | Alloc(s: Str)
    | MarkThese(ids: set<int>)
    | Freeze(id: int)
    | Collect(c: Cycle)

  function MarkedBy(s: Str, ids: set<int>): Str {
    if s.id !in ids then s
    else if s.tag == PLAIN then s.(tag := PLAIN_MARKED)
    else if s.tag == KEY then s.(tag := KEY_MARKED) else s
  }

  function FrozenBy(s: Str, id: int): Str {
    if s.id == id then s.(tag := FROZEN) else s
  }

  /** The function f on every string of a list. */
  function Mapped(s: seq<Str>, f: Str -> Str): (t: seq<Str>)
    ensures |t| == |s| && forall i :: 0 <= i < |s| ==> t[i] == f(s[i])
  {
    seq(|s|, i requires 0 <= i < |s| => f(s[i]))
  }

  function Next(st: State, cf: Config, e: Event): State
    requires st.interval > 0
  {
    match e
    case Alloc(s) => st.(young := [s] + st.young)
    case MarkThese(ids) => st.(young := Mapped(st.young, s => MarkedBy(s, ids)),
      older := Mapped(st.older, s => MarkedBy(s, ids)))
    case Freeze(id) => st.(young := Mapped(st.young, s => FrozenBy(s, id)),
      older := Mapped(st.older, s => FrozenBy(s, id)))
    case Collect(c) => Collected(st, cf, c)
  }

  /** Each event, string by string. */
  lemma NextMeans(st: State, cf: Config, s: Str, ids: set<int>, id: int)
    requires st.interval > 0
    ensures Next(st, cf, Alloc(s)).young == [s] + st.young && Next(st, cf, Alloc(s)).older == st.older
    ensures var t := Next(st, cf, MarkThese(ids));
      && |t.young| == |st.young| && (forall i :: 0 <= i < |st.young| ==> Marks(st.young[i], t.young[i], ids))
      && |t.older| == |st.older| && (forall i :: 0 <= i < |st.older| ==> Marks(st.older[i], t.older[i], ids))
    ensures var t := Next(st, cf, Freeze(id));
      && |t.young| == |st.young| && (forall i :: 0 <= i < |st.young| ==> Freezes(st.young[i], t.young[i], id))
      && |t.older| == |st.older| && (forall i :: 0 <= i < |st.older| ==> Freezes(st.older[i], t.older[i], id))
  {
  }

  /** y is x after the mark phase reached the strings of ids. */
  ghost predicate Marks(x: Str, y: Str, ids: set<int>) {
    && y.id == x.id && y.size == x.size
    && (x.id !in ids ==> y.tag == x.tag)
    && (x.id in ids && x.tag == 0xfe ==> y.tag == 0xfc)
    && (x.id in ids && x.tag == 0xfa ==> y.tag == 0xf8)
    && (x.tag != 0xfe && x.tag != 0xfa ==> y.tag == x.tag)
  }

  ghost predicate Freezes(x: Str, y: Str, id: int) {
    y.id == x.id && y.size == x.size && y.tag == if x.id == id then 0xf1 else x.tag
  }

  lemma {:induction false} TotalMapped(s: seq<Str>, f: Str -> Str)
    requires forall x: Str :: f(x).size == x.size
    ensures Total(Mapped(s, f)) == Total(s)
  {
    if s != [] {
      TotalMapped(s[..|s| - 1], f);
      assert Mapped(s, f)[..|s| - 1] == Mapped(s[..|s| - 1], f);
    }
  }

  /** The byte counter is exact after every step. */
  lemma NextValid(st: State, cf: Config, e: Event)
    requires Valid(st)
    ensures Valid(Next(st, cf, e))
  {
    match e
    case Alloc(s) =>
    case MarkThese(ids) => TotalMapped(st.older, s => MarkedBy(s, ids));
    case Freeze(id) => TotalMapped(st.older, s => FrozenBy(s, id));
    case Collect(c) => CollectedValid(st, cf, c);
  }

  function Final(st: State, cf: Config, run: seq<Event>): (t: State)
    requires Valid(st)
    ensures Valid(t)
    decreases |run|
  {
    if run == [] then st
    else
      NextValid(st, cf, run[0]);
      Final(Next(st, cf, run[0]), cf, run[1..])
  }

  /** Major sweeps in a run. */
  function Majors(st: State, cf: Config, run: seq<Event>): nat
    requires Valid(st)
    decreases |run|
  {
    if run == [] then 0
    else
      NextValid(st, cf, run[0]);
      (if run[0].Collect? && IsMajor(st, cf, run[0].c) then 1 else 0) + Majors(Next(st, cf, run[0]), cf, run[1..])
  }

  /** Sweeps in a run: collections that passed the gate. */
  function Sweeps(run: seq<Event>): nat {
    if run == [] then 0 else (if run[0].Collect? && run[0].c.over then 1 else 0) + Sweeps(run[1..])
  }

  /** The sweeps of a run, counted one by one. */
  lemma {:induction false} SweepsSnoc(run: seq<Event>, e: Event)
    ensures Sweeps([]) == 0
    ensures Sweeps(run + [e]) == Sweeps(run) + if e.Collect? && e.c.over then 1 else 0
    decreases |run|
  {
    if run == [] {
      assert run + [e] == [e];
      assert [e][1..] == [];
    } else {
      assert (run + [e])[1..] == run[1..] + [e];
      SweepsSnoc(run[1..], e);
    }
  }

  ghost predicate Has(st: State, s: Str) {
    s in st.young || s in st.older
  }

  /** Exactly the marked and the frozen strings are kept, the marks taken off. */
  lemma KeptHas(s: seq<Str>, x: Str)
    ensures x in Kept(s) <==>
      || (x.tag == 0xfe && Str(x.id, x.size, 0xfc) in s)
      || (x.tag == 0xfa && Str(x.id, x.size, 0xf8) in s)
      || (x.tag == 0xf1 && x in s)
  {
    KeptFrom(s, x);
    if x.tag == 0xfe && Str(x.id, x.size, 0xfc) in s { assert Unmarked(Str(x.id, x.size, 0xfc)) == x; }
    if x.tag == 0xfa && Str(x.id, x.size, 0xf8) in s { assert Unmarked(Str(x.id, x.size, 0xf8)) == x; }
  }

  lemma {:induction false} KeptFrom(s: seq<Str>, x: Str)
    ensures x in Kept(s) <==> exists y :: y in s && Survives(y) && x == Unmarked(y)
  {
    if s != [] {
      var n := |s| - 1;
      KeptFrom(s[..n], x);
      assert s == s[..n] + [s[n]];
      if x in Kept(s[..n]) {
        var y :| y in s[..n] && Survives(y) && x == Unmarked(y);
        assert y in s;
      }
      if y :| y in s && Survives(y) && x == Unmarked(y) {
        assert y in s[..n] || y == s[n];
      }
    }
  }

  lemma ReverseHas(s: seq<Str>, x: Str)
    ensures x in Reverse(s) <==> x in s
  {
    if x in s {
      var i :| 0 <= i < |s| && s[i] == x;
      assert Reverse(s)[|s| - 1 - i] == x;
    }
  }

  /** What is there after a sweep, and where it comes from. */
  lemma SweptHas(st: State, major: bool, x: Str)
    ensures Has(Swept(st, major), x) <==>
      (exists y :: y in st.young && Survives(y) && x == Unmarked(y))
      || (if major then exists y :: y in st.older && Survives(y) && x == Unmarked(y) else x in st.older)
  {
    KeptFrom(st.young, x);
    KeptFrom(st.older, x);
    ReverseHas(Kept(st.young), x);
  }

  lemma SurvivorStays(st: State, cf: Config, c: Cycle, s: Str)
    requires Valid(st) && Has(st, s) && Survives(s)
    ensures Has(Collected(st, cf, c), s) || Has(Collected(st, cf, c), Unmarked(s))
  {
    if c.over {
      var major := IsMajor(st, cf, c);
      SweptHas(st, major, s);
      SweptHas(st, major, Unmarked(s));
    }
  }

  /** No string marked or frozen at a sweep is freed by it; one that the sweep visits loses its mark. */
  lemma MarkedSurvive(st: State, cf: Config, c: Cycle, s: Str)
    requires Valid(st) && Has(st, s) && (s.tag == 0xfc || s.tag == 0xf8 || s.tag == 0xf1)
    ensures var t := Collected(st, cf, c);
      Has(t, s) || Has(t, Str(s.id, s.size, if s.tag == 0xfc then 0xfe else 0xfa))
    ensures c.over && (s in st.young || IsMajor(st, cf, c)) ==>
      Has(Collected(st, cf, c), Str(s.id, s.size, if s.tag == 0xfc then 0xfe else if s.tag == 0xf8 then 0xfa else 0xf1))
  {
    SurvivorStays(st, cf, c, s);
    if c.over { SweptHas(st, IsMajor(st, cf, c), Unmarked(s)); }
  }

  /**
    Marking and then collecting, whatever the collection is: a string that was
    marked is still there, and after a sweep that visits it it has its old tag.
   */
  lemma MarkThenCollect(st: State, cf: Config, ids: set<int>, c: Cycle, s: Str)
    requires Valid(st) && Has(st, s) && s.id in ids && (s.tag == 0xfe || s.tag == 0xfa || s.tag == 0xf1)
    ensures Valid(Next(st, cf, MarkThese(ids)))
    ensures var t := Next(Next(st, cf, MarkThese(ids)), cf, Collect(c));
      && (exists x :: Has(t, x) && x.id == s.id && x.size == s.size)
      && (c.over && (s in st.young || IsMajor(Next(st, cf, MarkThese(ids)), cf, c)) ==> Has(t, s))
  {
    NextValid(st, cf, MarkThese(ids));
    MappedHas(st, x => MarkedBy(x, ids), s);
    var m := Next(st, cf, MarkThese(ids));
    var y := MarkedBy(s, ids);
    if s in st.young { MappedYoung(st, ids, s); }
    MarkedSurvive(m, cf, c, y);
  }

  lemma MappedYoung(st: State, ids: set<int>, s: Str)
    requires s in st.young
    ensures MarkedBy(s, ids) in Mapped(st.young, x => MarkedBy(x, ids))
  {
    var i :| 0 <= i < |st.young| && st.young[i] == s;
    assert Mapped(st.young, x => MarkedBy(x, ids))[i] == MarkedBy(s, ids);
  }

  /** Every unmarked young string is freed by the sweep; so is every unmarked old one by a major. */
  lemma UnmarkedFreed(st: State, cf: Config, c: Cycle, x: Str)
    requires Valid(st) && c.over && Has(Collected(st, cf, c), x)
    ensures
      || (x.tag == 0xfe && Has(st, Str(x.id, x.size, 0xfc)))
      || (x.tag == 0xfa && Has(st, Str(x.id, x.size, 0xf8)))
      || (x.tag == 0xf1 && Has(st, x))
      || (x in st.older && !IsMajor(st, cf, c))
  {
    var t := Collected(st, cf, c);
    KeptHas(st.young, x);
    KeptHas(st.older, x);
    ReverseHas(Kept(st.young), x);
  }

  /**
    Past the backstop, or on schedule, a collection over the young trigger is a
    major unless it is minor-only, and then nothing unmarked is left.
   */
  lemma MajorFreesUnmarked(st: State, cf: Config, c: Cycle)
    requires Valid(st) && c.over && !c.minorOnly
    requires c.slabBefore + st.oldBytes > st.threshold || (cf.sched && st.cycle % st.interval == 0)
    ensures IsMajor(st, cf, c)
    ensures forall x :: Has(Collected(st, cf, c), x) ==>
      || (x.tag == 0xfe && Has(st, Str(x.id, x.size, 0xfc)))
      || (x.tag == 0xfa && Has(st, Str(x.id, x.size, 0xf8)))
      || (x.tag == 0xf1 && Has(st, x))
  {
    forall x | Has(Collected(st, cf, c), x) {
      UnmarkedFreed(st, cf, c, x);
    }
  }

  /** Every other collection leaves the old list as it is, behind what it promotes. */
  lemma MinorKeepsOld(st: State, cf: Config, c: Cycle)
    requires Valid(st)
    requires !c.over || c.minorOnly
      || (c.slabBefore + st.oldBytes <= st.threshold && !(cf.sched && st.cycle % st.interval == 0))
    ensures !IsMajor(st, cf, c) && (!c.over ==> Collected(st, cf, c) == st)
    ensures var t := Collected(st, cf, c); |st.older| <= |t.older| && t.older[|t.older| - |st.older|..] == st.older
  {
  }

  lemma FrozenStays(st: State, cf: Config, e: Event, s: Str)
    requires Valid(st) && Has(st, s) && s.tag == FROZEN
    ensures Has(Next(st, cf, e), s)
  {
    match e
    case Alloc(n) => assert s in st.young ==> s in [n] + st.young;
    case MarkThese(ids) => MappedHas(st, x => MarkedBy(x, ids), s);
    case Freeze(id) => MappedHas(st, x => FrozenBy(x, id), s);
    case Collect(c) => SurvivorStays(st, cf, c, s);
  }

  lemma MappedHas(st: State, f: Str -> Str, s: Str)
    requires Has(st, s)
    ensures Has(st.(young := Mapped(st.young, f), older := Mapped(st.older, f)), f(s))
  {
    if s in st.young {
      var i :| 0 <= i < |st.young| && st.young[i] == s;
      assert Mapped(st.young, f)[i] == f(s);
    } else {
      var i :| 0 <= i < |st.older| && st.older[i] == s;
      assert Mapped(st.older, f)[i] == f(s);
    }
  }

  /** Over every run, a 0xf1 string is never freed. */
  lemma {:induction false} FrozenForever(st: State, cf: Config, run: seq<Event>, s: Str)
    requires Valid(st) && Has(st, s) && s.tag == 0xf1
    ensures Has(Final(st, cf, run), s)
    decreases |run|
  {
    if run != [] {
      NextValid(st, cf, run[0]);
      FrozenStays(st, cf, run[0], s);
      FrozenForever(Next(st, cf, run[0]), cf, run[1..], s);
    }
  }

  // ----- reclamation -----

  ghost predicate Absent(st: State, id: int) {
    forall s :: Has(st, s) ==> s.id != id
  }

  ghost predicate NoneMarked(st: State, id: int) {
    forall s :: Has(st, s) && s.id == id ==> !Survives(s)
  }

  ghost predicate NotFrozen(st: State, id: int) {
    forall s :: Has(st, s) && s.id == id ==> s.tag != FROZEN
  }

  /** How many majors a string that is not marked again can outlive. */
  ghost function Rank(st: State, id: int): nat {
    if Absent(st, id) then 0 else if NoneMarked(st, id) then 1 else 2
  }

  predicate Touches(e: Event, id: int) {
    match e
    case Alloc(s) => s.id == id
    case MarkThese(ids) => id in ids
    case Freeze(i) => i == id
    case Collect(_) => false
  }

  lemma SweepRank(st: State, major: bool, id: int)
    requires NotFrozen(st, id)
    ensures NotFrozen(Swept(st, major), id)
    ensures Rank(Swept(st, major), id) <= (if major && Rank(st, id) > 0 then Rank(st, id) - 1 else Rank(st, id))
  {
    hide Kept, Reverse;
    var t := Swept(st, major);
    forall x | Has(t, x) && x.id == id
      ensures x.tag != FROZEN && !Absent(st, id) && (major ==> !NoneMarked(st, id) && !Survives(x))
      ensures Survives(x) ==> !NoneMarked(st, id)
    {
      SweptHas(st, major, x);
    }
  }

  /** Without a mark, a freeze or a new string of that name, the rank only falls. */
  lemma QuietStep(st: State, cf: Config, e: Event, id: int)
    requires Valid(st) && NotFrozen(st, id) && !Touches(e, id)
    ensures NotFrozen(Next(st, cf, e), id)
    ensures Rank(Next(st, cf, e), id)
         <= (if e.Collect? && IsMajor(st, cf, e.c) && Rank(st, id) > 0 then Rank(st, id) - 1 else Rank(st, id))
  {
    var t := Next(st, cf, e);
    if e.Collect? {
      if e.c.over {
        var s := Swept(st, IsMajor(st, cf, e.c));
        SweepRank(st, IsMajor(st, cf, e.c), id);
        assert t.young == s.young && t.older == s.older;
        SameStrings(s, t, id);
      }
    } else {
      forall x | Has(t, x) && x.id == id ensures Has(st, x) {
        QuietHas(st, cf, e, x);
      }
    }
  }

  lemma SameStrings(s: State, t: State, id: int)
    requires t.young == s.young && t.older == s.older
    ensures NotFrozen(t, id) == NotFrozen(s, id) && Rank(t, id) == Rank(s, id)
  {
    assert forall x :: Has(t, x) == Has(s, x);
  }

  lemma QuietHas(st: State, cf: Config, e: Event, x: Str)
    requires Valid(st) && !e.Collect? && !Touches(e, x.id) && Has(Next(st, cf, e), x)
    ensures Has(st, x)
  {
    match e
    case Alloc(s) =>
      assert x in [s] + st.young ==> x == s || x in st.young;
    case MarkThese(ids) => MappedFrom(st, y => MarkedBy(y, ids), x);
    case Freeze(id) => MappedFrom(st, y => FrozenBy(y, id), x);
  }

  lemma MappedFrom(st: State, f: Str -> Str, x: Str)
    requires Has(st.(young := Mapped(st.young, f), older := Mapped(st.older, f)), x)
    requires forall y: Str :: f(y).id == y.id && (y.id == x.id ==> f(y) == y)
    ensures Has(st, x)
  {
    if x in Mapped(st.young, f) {
      var i :| 0 <= i < |st.young| && Mapped(st.young, f)[i] == x;
      assert f(st.young[i]) == x;
    } else {
      var i :| 0 <= i < |st.older| && Mapped(st.older, f)[i] == x;
      assert f(st.older[i]) == x;
    }
  }

  ghost predicate Quiet(run: seq<Event>, id: int) {
    forall i :: 0 <= i < |run| ==> !Touches(run[i], id)
  }

  lemma {:induction false} QuietRun(st: State, cf: Config, run: seq<Event>, id: int)
    requires Valid(st) && NotFrozen(st, id) && Quiet(run, id)
    ensures Rank(Final(st, cf, run), id)
      <= if Rank(st, id) > Majors(st, cf, run) then Rank(st, id) - Majors(st, cf, run) else 0
    decreases |run|
  {
    if run != [] {
      hide Rank, NotFrozen, Collected, IsMajor;
      NextValid(st, cf, run[0]);
      QuietStep(st, cf, run[0], id);
      QuietRun(Next(st, cf, run[0]), cf, run[1..], id);
    }
  }

  /** No event of the run allocates, marks or freezes a string of that name. */
  lemma QuietMeans(run: seq<Event>, id: int)
    ensures Quiet(run, id) <==> forall i :: 0 <= i < |run| ==>
      match run[i]
      case Alloc(s) => s.id != id
      case MarkThese(ids) => id !in ids
      case Freeze(j) => j != id
      case Collect(_) => true
  {
  }

  /** A string that is never marked again is gone by the second major sweep. */
  lemma GoneBySecondMajor(st: State, cf: Config, run: seq<Event>, id: int)
    requires Valid(st) && forall s :: Has(st, s) && s.id == id ==> s.tag != 0xf1
    requires Quiet(run, id) && Majors(st, cf, run) >= 2
    ensures forall s :: Has(Final(st, cf, run), s) ==> s.id != id
  {
    QuietRun(st, cf, run, id);
  }

  // ----- the cadence -----

  /** Sweeps before the next scheduled major. */
  function ToGo(st: State): nat
    requires st.interval > 0
  {
    (st.interval - st.cycle % st.interval) % st.interval
  }

  /** How often each interval goes into 2^32. */
  function Laps(i: nat): nat {
    if i == 8 then 0x2000_0000 else if i == 16 then 0x1000_0000 else if i == 32 then 0x800_0000
    else if i == 64 then 0x400_0000 else 0x200_0000
  }

  lemma LapsExact(i: nat)
    requires GoodInterval(i)
    ensures i * Laps(i) == 0x1_0000_0000
  {
  }

  /** Counting up to a multiple w of i and starting again keeps the remainders in step. */
  lemma NextRemainder(cycle: nat, i: nat, w: nat, k: nat)
    requires i > 0 && w == i * k && cycle < w
    ensures var r := cycle % i; (cycle + 1) % w % i == if r + 1 == i then 0 else r + 1
  {
    var q, r := cycle / i, cycle % i;
    assert cycle == i * q + r;
    if cycle + 1 == w {
      RemainderIs(w, w, 1, 0);
      assert i * (k - 1) == i * k - i;
      RemainderIs(cycle, i, k - 1, i - 1);
      RemainderIs(0, i, 0, 0);
    } else {
      RemainderIs(cycle + 1, w, 0, cycle + 1);
      if r + 1 == i {
        assert i * (q + 1) == i * q + i;
        RemainderIs(cycle + 1, i, q + 1, 0);
      } else {
        RemainderIs(cycle + 1, i, q, r + 1);
      }
    }
  }

  /** The cycle counter wraps at 2^32, a multiple of every interval, so the schedule does not jump. */
  lemma CycleStep(st: State, cycle': nat)
    requires Valid(st) && cycle' == (st.cycle + 1) % 0x1_0000_0000
    ensures var d := ToGo(st); ToGo(st.(cycle := cycle')) == if d == 0 then st.interval - 1 else d - 1
    ensures ToGo(st) == 0 <==> OnSchedule(st)
  {
    hide GoodInterval, Laps;
    LapsExact(st.interval);
    assert st.interval > 0 by { Positive(st.interval); }
    NextRemainder(st.cycle, st.interval, 0x1_0000_0000, Laps(st.interval));
    Away(st.interval, st.cycle % st.interval);
    Away(st.interval, cycle' % st.interval);
  }

  lemma Positive(i: nat)
    requires GoodInterval(i)
    ensures 0 < i <= INTERVAL_MAX
  {
  }

  lemma Away(i: nat, r: nat)
    requires 0 <= r < i
    ensures (i - r) % i == if r == 0 then 0 else i - r
  {
    if r == 0 { RemainderIs(i, i, 1, 0); } else { RemainderIs(i - r, i, 0, i - r); }
  }

  /** A scheduled major that a minor-only collection takes away: the cycle has moved on already. */
  predicate Skips(st: State, cf: Config, e: Event)
    requires st.interval > 0
  {
    e.Collect? && e.c.over && e.c.minorOnly && OnSchedule(st)
  }

  /** Scheduled majors lost to minor-only collections in a run. */
  function Skipped(st: State, cf: Config, run: seq<Event>): nat
    requires Valid(st)
    decreases |run|
  {
    if run == [] then 0
    else
      NextValid(st, cf, run[0]);
      (if Skips(st, cf, run[0]) then 1 else 0) + Skipped(Next(st, cf, run[0]), cf, run[1..])
  }

  lemma CadenceStep(st: State, cf: Config, e: Event)
    requires Valid(st) && cf.sched && e.Collect? && e.c.over
    ensures Valid(Next(st, cf, e))
    ensures 1 + ToGo(Next(st, cf, e)) <= ToGo(st) + if IsMajor(st, cf, e.c) || Skips(st, cf, e) then INTERVAL_MAX else 0
  {
    var c := e.c;
    CollectedValid(st, cf, c);
    CycleStep(st, (st.cycle + 1) % 0x1_0000_0000);
    hide Kept, Total, Reverse;
    var t := Collected(st, cf, c);
    if IsMajor(st, cf, c) {
      assert ToGo(t) < t.interval <= INTERVAL_MAX;
    }
  }

  /**
    Over every run with the schedule on: a major, or one taken away by a
    minor-only collection, in any INTERVAL_MAX sweeps, however the interval adapts.
   */
  lemma {:induction false} Cadence(st: State, cf: Config, run: seq<Event>)
    requires Valid(st) && cf.sched
    ensures Sweeps(run) + ToGo(Final(st, cf, run))
      <= ToGo(st) + 128 * (Majors(st, cf, run) + Skipped(st, cf, run))
    decreases |run|
  {
    if run != [] {
      hide Collected, IsMajor, Skips;
      var e := run[0];
      NextValid(st, cf, e);
      if e.Collect? && e.c.over {
        CadenceStep(st, cf, e);
      } else {
        QuietCadence(st, cf, e);
      }
      Cadence(Next(st, cf, e), cf, run[1..]);
    }
  }

  lemma QuietCadence(st: State, cf: Config, e: Event)
    requires Valid(st) && !(e.Collect? && e.c.over)
    ensures ToGo(Next(st, cf, e)) == ToGo(st) && !(e.Collect? && IsMajor(st, cf, e.c)) && !Skips(st, cf, e)
  {
  }

  /** Over every run: gone after 2 * INTERVAL_MAX sweeps and INTERVAL_MAX more for each major taken away. */
  lemma GoneInTime(st: State, cf: Config, run: seq<Event>, id: int)
    requires Valid(st) && forall s :: Has(st, s) && s.id == id ==> s.tag != 0xf1
    requires Quiet(run, id) && cf.sched && Sweeps(run) >= 128 * (2 + Skipped(st, cf, run))
    ensures forall s :: Has(Final(st, cf, run), s) ==> s.id != id
  {
    Cadence(st, cf, run);
    assert ToGo(st) < INTERVAL_MAX;
    GoneBySecondMajor(st, cf, run, id);
  }

  /** The allowance is needed: minor-only collections never make a major, and an old string stays, marked or not. */
  lemma {:induction false} MinorOnlyKeeps(st: State, cf: Config, run: seq<Event>, s: Str)
    requires Valid(st) && s in st.older && Quiet(run, s.id)
    requires forall i :: 0 <= i < |run| && run[i].Collect? ==> run[i].c.minorOnly
    ensures Majors(st, cf, run) == 0 && s in Final(st, cf, run).older
    decreases |run|
  {
    if run != [] {
      var e := run[0];
      NextValid(st, cf, e);
      assert e.Collect? ==> e.c.minorOnly;
      assert !Touches(e, s.id);
      OldStays(st, cf, e, s);
      MinorOnlyKeeps(Next(st, cf, e), cf, run[1..], s);
    }
  }

  lemma OldStays(st: State, cf: Config, e: Event, s: Str)
    requires Valid(st) && (e.Collect? ==> e.c.minorOnly) && s in st.older && !Touches(e, s.id)
    ensures s in Next(st, cf, e).older
  {
    var i :| 0 <= i < |st.older| && st.older[i] == s;
    match e
    case Alloc(_) =>
    case MarkThese(ids) => assert Mapped(st.older, x => MarkedBy(x, ids))[i] == s;
    case Freeze(id) => assert Mapped(st.older, x => FrozenBy(x, id))[i] == s;
    case Collect(_) =>
  }

  /** Without minor-only collections nothing is taken away, and 2 * INTERVAL_MAX sweeps are enough. */
  lemma {:induction false} NothingSkipped(st: State, cf: Config, run: seq<Event>)
    requires Valid(st) && forall i :: 0 <= i < |run| && run[i].Collect? ==> !run[i].c.minorOnly
    ensures Skipped(st, cf, run) == 0
    decreases |run|
  {
    if run != [] {
      NextValid(st, cf, run[0]);
      NothingSkipped(Next(st, cf, run[0]), cf, run[1..]);
    }
  }
}
