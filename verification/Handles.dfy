/**
  Canonical C extension handles (lib/sp_cext.c): a weak open-addressed table
  from values to handles, nested arenas that pin the handles they return, one
  arena context per fiber, and the sweep that deletes dead handles and rebuilds
  the table. Everything is proved for an arbitrary hash function.
 */
module Handles {
  import opened NilBits
  import opened IntSets

  type Addr = int

  /** What makes two values the same handle: tag, class and payload. */
  datatype Key = Key(tag: int, cls: int, payload: nat)

  datatype Handle = Handle(value: Key, pins: nat, marked: nat)

  type Heap = map<Addr, Handle>
  type Table = seq<Option<Addr>>

  // ----- the table -----

  ghost predicate InTable(t: Table, a: Addr) {
    exists i :: 0 <= i < |t| && t[i] == Some(a)
  }

  ghost predicate Backed(t: Table, heap: Heap) {
    forall i :: 0 <= i < |t| && t[i].Some? ==> t[i].value in heap
  }

  /** At most one slot for a value. */
  ghost predicate OnePerValue(t: Table, heap: Heap)
    requires Backed(t, heap)
  {
    forall i, j ::
      0 <= i < |t| && 0 <= j < |t| && t[i].Some? && t[j].Some? && heap[t[i].value].value == heap[t[j].value].value
      ==> i == j
  }

  /** No free slot between a value's home and its handle. */
  ghost predicate Probed(t: Table, heap: Heap, hash: Key -> nat)
    requires Backed(t, heap)
  {
    forall i, j ::
      0 <= i < |t| && 0 <= j < |t| && t[i].Some? && Nearer(hash(heap[t[i].value].value) % |t|, j, i, |t|)
      ==> t[j].Some?
  }

  ghost predicate TableOk(t: Table, heap: Heap, hash: Key -> nat) {
    Backed(t, heap) && OnePerValue(t, heap) && Probed(t, heap, hash)
  }

  function Used(t: Table): (u: seq<bool>)
    ensures |u| == |t| && forall i :: 0 <= i < |t| ==> u[i] == t[i].Some?
  {
    seq(|t|, i requires 0 <= i < |t| => t[i].Some?)
  }

  /** The handles of the table are those of the heap. */
  ghost predicate SameHandles(t: Table, heap: Heap) {
    forall a: Addr :: a in heap <==> InTable(t, a)
  }

  // ----- references -----

  /** A saved arena context; None stands for an errinfo that needs no handle. */
  datatype Context = Context(entries: seq<Addr>, depth: nat, errinfo: Option<Addr>)

  const EMPTY := Context([], 0, None)

  ghost function ErrRefs(e: Option<Addr>, a: Addr): nat {
    if e == Some(a) then 1 else 0
  }

  /** References to a from one context. */
  ghost function ContextRefs(c: Context, a: Addr): nat {
    multiset(c.entries)[a] + ErrRefs(c.errinfo, a)
  }

  ghost function SavedRefs(cs: seq<Context>, a: Addr): nat {
    if cs == [] then 0 else SavedRefs(cs[..|cs| - 1], a) + ContextRefs(cs[|cs| - 1], a)
  }

  lemma {:induction false} RefsUpdate(cs: seq<Context>, i: nat, c: Context, a: Addr)
    requires i < |cs|
    ensures SavedRefs(cs[i := c], a) + ContextRefs(cs[i], a) == SavedRefs(cs, a) + ContextRefs(c, a)
  {
    var n := |cs| - 1;
    if i < n {
      RefsUpdate(cs[..n], i, c, a);
      assert cs[i := c][..n] == cs[..n][i := c];
    } else {
      assert cs[i := c][..n] == cs[..n];
    }
  }

  lemma RefsAdded(cs: seq<Context>, c: Context, a: Addr)
    ensures SavedRefs(cs + [c], a) == SavedRefs(cs, a) + ContextRefs(c, a)
  {
    assert (cs + [c])[..|cs|] == cs;
  }

  /** slot(): where a value is, or the free slot that ends its probe. */
  method FindSlot(t: Table, heap: Heap, hash: Key -> nat, k: Key) returns (i: nat)
    requires |t| > 0 && Count(Used(t)) < |t| && TableOk(t, heap, hash)
    ensures i < |t| && (t[i].Some? ==> heap[t[i].value].value == k)
    ensures t[i].None? ==> forall j :: 0 <= j < |t| && t[j].Some? ==> heap[t[j].value].value != k
    ensures forall j :: 0 <= j < |t| && Nearer(hash(k) % |t|, j, i, |t|) ==> t[j].Some?
  {
    hide Used, Count;
    ghost var u := FreeSlot(Used(t));
    var h, cap := hash(k) % |t|, |t|;
    i := h;
    while t[i].Some? && heap[t[i].value].value != k
      invariant i < cap
      invariant forall j :: 0 <= j < cap && Nearer(h, j, i, cap) ==> t[j].Some? && heap[t[j].value].value != k
      decreases Dist(h, u, cap) - Dist(h, i, cap)
    {
      assert Dist(h, i, cap) < Dist(h, u, cap) by {
        if Nearer(h, u, i, cap) { assert false; }
      }
      i := if i + 1 == cap then 0 else i + 1;
    }
    if t[i].None? {
      forall j | 0 <= j < |t| && t[j].Some? ensures heap[t[j].value].value != k {
        assert i == j || Nearer(h, i, j, cap) || Nearer(h, j, i, cap);
        if heap[t[j].value].value == k { assert false; }
      }
    }
  }

  /** A handle put where the probe for its value ended. */
  lemma PutHandle(t: Table, heap: Heap, hash: Key -> nat, i: nat, a: Addr)
    requires TableOk(t, heap, hash) && a in heap && i < |t| && t[i].None?
    requires forall j :: 0 <= j < |t| && t[j].Some? ==> heap[t[j].value].value != heap[a].value
    requires forall j :: 0 <= j < |t| && Nearer(hash(heap[a].value) % |t|, j, i, |t|) ==> t[j].Some?
    ensures TableOk(t[i := Some(a)], heap, hash) && Count(Used(t[i := Some(a)])) == Count(Used(t)) + 1
    ensures forall b: Addr :: InTable(t[i := Some(a)], b) <==> InTable(t, b) || b == a
  {
    hide Used, Count, Nearer;
    var t' := t[i := Some(a)];
    CountSet(Used(t), i);
    assert Used(t)[i := true] == Used(t');
    assert t'[i] == Some(a);
    forall b: Addr ensures InTable(t', b) <==> InTable(t, b) || b == a {
      if InTable(t, b) {
        var j :| 0 <= j < |t| && t[j] == Some(b);
        assert t'[j] == Some(b);
      }
    }
  }

  lemma EmptyTable(n: nat, heap: Heap, hash: Key -> nat)
    ensures var t: Table := seq(n, i => None);
      TableOk(t, heap, hash) && Count(Used(t)) == 0 && forall a: Addr :: !InTable(t, a)
  {
    var t: Table := seq(n, i => None);
    CountBlank(Used(t));
  }

  lemma CountPrefix(t: Table, i: nat)
    requires i < |t|
    ensures Count(Used(t[..i + 1])) == Count(Used(t[..i])) + if t[i].Some? then 1 else 0
  {
    assert Used(t[..i + 1])[..i] == Used(t[..i]);
  }

  lemma {:induction false} CountWhole(t: Table, i: nat)
    requires i <= |t|
    ensures Count(Used(t[..i])) <= Count(Used(t))
    decreases |t| - i
  {
    if i == |t| {
      assert t[..i] == t;
    } else {
      CountPrefix(t, i);
      CountWhole(t, i + 1);
    }
  }

  lemma InPrefix(t: Table, i: nat)
    requires i < |t|
    ensures forall a: Addr :: InTable(t[..i + 1], a) <==> InTable(t[..i], a) || (t[i].Some? && t[i].value == a)
  {
    forall a: Addr ensures InTable(t[..i + 1], a) <==> InTable(t[..i], a) || (t[i].Some? && t[i].value == a) {
      if InTable(t[..i], a) {
        var j :| 0 <= j < i && t[..i][j] == Some(a);
        assert t[..i + 1][j] == Some(a);
      }
      if t[i] == Some(a) { assert t[..i + 1][i] == Some(a); }
      if InTable(t[..i + 1], a) {
        var j :| 0 <= j < i + 1 && t[..i + 1][j] == Some(a);
        if j < i { assert t[..i][j] == Some(a); }
      }
    }
  }

  /** The handle in slot i has a value that no handle before it has. */
  lemma NewValue(old_t: Table, t: Table, heap: Heap, i: nat)
    requires Backed(old_t, heap) && OnePerValue(old_t, heap) && i < |old_t| && old_t[i].Some?
    requires forall a: Addr :: InTable(t, a) <==> InTable(old_t[..i], a)
    requires Backed(t, heap)
    ensures forall j :: 0 <= j < |t| && t[j].Some? ==> heap[t[j].value].value != heap[old_t[i].value].value
  {
    forall j | 0 <= j < |t| && t[j].Some? ensures heap[t[j].value].value != heap[old_t[i].value].value {
      assert InTable(t, t[j].value);
      var k :| 0 <= k < i && old_t[..i][k] == Some(t[j].value);
      assert old_t[k] == Some(t[j].value);
    }
  }

  /** rehash(): every handle of the old table, probed into an empty one. */
  method Rebuild(old_t: Table, heap: Heap, hash: Key -> nat, n: nat) returns (t: Table)
    requires Backed(old_t, heap) && OnePerValue(old_t, heap) && Count(Used(old_t)) < n
    ensures |t| == n && TableOk(t, heap, hash) && Count(Used(t)) == Count(Used(old_t))
    ensures forall a: Addr :: InTable(t, a) <==> InTable(old_t, a)
  {
    hide Used, Count, Probed, OnePerValue, InTable, Nearer;
    t := seq(n, i => None);
    EmptyTable(n, heap, hash);
    CountBlank(Used(old_t[..0]));
    NoneInEmpty(old_t[..0]);
    for i := 0 to |old_t|
      invariant |t| == n && TableOk(t, heap, hash) && Count(Used(t)) == Count(Used(old_t[..i]))
      invariant forall a: Addr :: InTable(t, a) <==> InTable(old_t[..i], a)
    {
      ghost var s := t;
      CountPrefix(old_t, i);
      CountWhole(old_t, i + 1);
      InPrefix(old_t, i);
      if old_t[i].Some? {
        var a := old_t[i].value;
        NewValue(old_t, t, heap, i);
        var j := FindSlot(t, heap, hash, heap[a].value);
        PutHandle(t, heap, hash, j, a);
        t := t[j := Some(a)];
      }
      forall b: Addr ensures InTable(t, b) <==> InTable(old_t[..i + 1], b) {
        assert InTable(old_t[..i + 1], b) <==> InTable(old_t[..i], b) || (old_t[i].Some? && old_t[i].value == b);
        assert InTable(s, b) <==> InTable(old_t[..i], b);
        assert old_t[i].Some? ==> (InTable(t, b) <==> InTable(s, b) || b == old_t[i].value);
        assert old_t[i].None? ==> t == s;
      }
    }
    assert old_t[..|old_t|] == old_t;
  }

  lemma NoneInEmpty(t: Table)
    requires t == []
    ensures forall a: Addr :: !InTable(t, a)
  {
  }

  // ----- pin counts -----

  /** Each pin count is the number of references from the contexts; nothing else is referenced. */
  ghost predicate PinsExact(heap: Heap, cs: seq<Context>) {
    forall a: Addr :: SavedRefs(cs, a) == if a in heap then heap[a].pins else 0
  }

  function Pinned(heap: Heap, a: Addr): Heap
    requires a in heap
  {
    heap[a := heap[a].(pins := heap[a].pins + 1)]
  }

  function Unpinned(heap: Heap, a: Addr): Heap
    requires a in heap && heap[a].pins > 0
  {
    heap[a := heap[a].(pins := heap[a].pins - 1)]
  }

  /** c holds one reference to a more than d does. */
  ghost predicate OneMore(c: Context, d: Context, a: Addr) {
    forall b: Addr :: ContextRefs(c, b) == ContextRefs(d, b) + if b == a then 1 else 0
  }

  lemma OneMoreEntry(c: Context, a: Addr)
    ensures OneMore(c.(entries := c.entries + [a]), c, a)
  {
  }

  lemma OneMoreErr(c: Context, a: Addr)
    requires c.errinfo == Some(a)
    ensures OneMore(c, c.(errinfo := None), a)
  {
  }

  /** A reference at the end of the arena counts as much as one in errinfo. */
  lemma ErrForEntry(entries: seq<Addr>, depth: nat, v: Option<Addr>)
    ensures var c := Context(if v.Some? then entries + [v.value] else entries, depth, None);
      forall b: Addr :: ContextRefs(Context(entries, depth, v), b) == ContextRefs(c, b)
  {
  }

  lemma PinStep(heap: Heap, cs: seq<Context>, i: nat, c: Context, a: Addr)
    requires PinsExact(heap, cs) && i < |cs| && a in heap && OneMore(c, cs[i], a)
    ensures PinsExact(Pinned(heap, a), cs[i := c])
  {
    hide SavedRefs, ContextRefs;
    forall b: Addr
      ensures SavedRefs(cs[i := c], b) == if b in Pinned(heap, a) then Pinned(heap, a)[b].pins else 0
    {
      RefsUpdate(cs, i, c, b);
    }
  }

  lemma UnpinStep(heap: Heap, cs: seq<Context>, i: nat, c: Context, a: Addr)
    requires PinsExact(heap, cs) && i < |cs| && OneMore(cs[i], c, a)
    ensures a in heap && heap[a].pins > 0 && PinsExact(Unpinned(heap, a), cs[i := c])
  {
    hide SavedRefs, ContextRefs;
    RefsUpdate(cs, i, c, a);
    forall b: Addr
      ensures SavedRefs(cs[i := c], b) == if b in Unpinned(heap, a) then Unpinned(heap, a)[b].pins else 0
    {
      RefsUpdate(cs, i, c, b);
    }
  }

  /** Two heaps with the same handles and values; pins and marks may differ. */
  ghost predicate SameValues(heap: Heap, heap': Heap) {
    heap.Keys == heap'.Keys && forall a: Addr :: a in heap && a in heap' ==> heap[a].value == heap'[a].value
  }

  lemma TableKept(t: Table, heap: Heap, heap': Heap, hash: Key -> nat)
    requires TableOk(t, heap, hash) && SameHandles(t, heap) && SameValues(heap, heap')
    ensures TableOk(t, heap', hash) && SameHandles(t, heap')
  {
    hide InTable, Nearer;
    assert Backed(t, heap');
    forall i | 0 <= i < |t| && t[i].Some? ensures heap'[t[i].value].value == heap[t[i].value].value {
      var a := t[i].value;
      assert a in heap && a in heap';
    }
    assert OnePerValue(t, heap');
    assert Probed(t, heap', hash);
  }

  // ----- values -----

  datatype RbVal = Nil | Bool(b: bool) | Int(i: int) | Sym(id: nat) | Boxed(k: Key)

  /** A VALUE: a special constant, or the address of a handle. */
  datatype VALUE = Special(v: RbVal) | Ref(a: Addr)

  const INT_TAG: int := 0
  const FIXNUM_MAX: int := 0x3FFF_FFFF_FFFF_FFFF
  const FIXNUM_MIN: int := -0x4000_0000_0000_0000

  /** Integers are 64-bit; a boxed value is not an Integer. */
  predicate Proper(v: RbVal) {
    match v
    case Int(i) => -0x8000_0000_0000_0000 <= i <= 0x7FFF_FFFF_FFFF_FFFF
    case Boxed(k) => k.tag != INT_TAG
    case _ => true
  }

  predicate IsSpecial(v: RbVal) {
    match v
    case Int(i) => FIXNUM_MIN <= i <= FIXNUM_MAX
    case Boxed(_) => false
    case _ => true
  }

  function KeyOf(v: RbVal): Key
    requires !IsSpecial(v)
  {
    match v
    case Int(i) => Key(INT_TAG, 0, i % 0x1_0000_0000_0000_0000)
    case Boxed(k) => k
  }

  /** The value stored in a handle. */
  function FromKey(k: Key): RbVal {
    if k.tag != INT_TAG then Boxed(k)
    else if k.payload < 0x8000_0000_0000_0000 then Int(k.payload) else Int(k.payload - 0x1_0000_0000_0000_0000)
  }

  lemma KeyRoundTrip(v: RbVal)
    requires Proper(v) && !IsSpecial(v)
    ensures FromKey(KeyOf(v)) == v
  {
  }

  datatype Mark = Mark(handles: nat, depth: nat)

  // Value tags and class numbers (lib/sp_gc.h:20-46, lib/sp_types.h:219).
  const STR_TAG: int := 1
  const OBJ_TAG: int := 5
  const CLASS_TAG: int := 7
  const BIGINT_TAG: int := 9
  const CLASS_BY_NAME: int := 0x7F00_0000
  const FOREIGN_PTR: int := -25
  const REGEX: int := -33
  const ARGF: int := -51

  /** sp_gc_hdr of an object; the bits of a slab string; a string by its tag byte. */
  datatype Header = Header(marked: nat, aged: bool)
  datatype SlabBits = SlabBits(marked: bool, aged: bool)
  datatype Text = Text(tag: int, owner: Option<Header>, slab: Option<SlabBits>)

  /** What the collector left behind the pointers. */
  datatype World = World(headerAt: nat -> Header, textAt: nat -> Text)

  /** Whether the object sweep to come keeps an object. */
  predicate ObjectKept(h: Header, gen: nat, full: bool) {
    h.marked == gen || (!full && h.aged)
  }

  /** Whether the string sweep to come keeps a string. */
  predicate TextKept(t: Text, gen: nat, full: bool) {
    if t.tag == 0xff || t.tag == 0xfb || t.tag == 0xf1 then true
    else if t.tag == 0xfd then t.owner.None? || ObjectKept(t.owner.value, gen, full)
    else if t.slab.Some? then t.slab.value.marked || (!full && t.slab.value.aged)
    else t.tag == 0xfc || t.tag == 0xf8 || !full
  }

  predicate IsObject(k: Key) {
    (k.tag == OBJ_TAG && k.cls != FOREIGN_PTR && k.cls != REGEX && k.cls != ARGF) || k.tag == BIGINT_TAG
  }

  predicate IsText(k: Key) {
    k.tag == STR_TAG || (k.tag == CLASS_TAG && k.cls == CLASS_BY_NAME)
  }

  /** live(): pinned, a class, kept by the heap it lives in, or else marked itself. */
  predicate Live(h: Handle, gen: nat, full: bool, w: World) {
    var k := h.value;
    if h.pins > 0 || (k.tag == CLASS_TAG && k.cls != CLASS_BY_NAME) then true
    else if IsObject(k) then k.payload != 0 && ObjectKept(w.headerAt(k.payload), gen, full)
    else if IsText(k) then k.payload != 0 && TextKept(w.textAt(k.payload), gen, full)
    else h.marked == gen
  }

  // The same families spelled out: objects but for foreign pointers, regular
  // expressions and ARGF, and big integers; strings and classes by name.

  ghost predicate ByHeader(k: Key) {
    k.tag == 9 || (k.tag == 5 && k.cls != -25 && k.cls != -33 && k.cls != -51)
  }

  ghost predicate ByText(k: Key) {
    k.tag == 1 || (k.tag == 7 && k.cls == 0x7F00_0000)
  }

  /** A list string that is neither immortal, owned nor marked. */
  ghost predicate ByMinor(tag: int) {
    tag != 0xff && tag != 0xfb && tag != 0xf1 && tag != 0xfd && tag != 0xfc && tag != 0xf8
  }

  /** What live() answers, case by case. */
  lemma LiveMeans(h: Handle, gen: nat, full: bool, w: World)
    ensures var k := h.value;
      && (h.pins > 0 || (k.tag == 7 && k.cls != 0x7F00_0000) ==> Live(h, gen, full, w))
      && (h.pins == 0 && ByHeader(k) ==>
           (Live(h, gen, full, w) <==>
             k.payload != 0 && (w.headerAt(k.payload).marked == gen || (!full && w.headerAt(k.payload).aged))))
      && (h.pins == 0 && !ByHeader(k) && !ByText(k) && k.tag != 7 ==> (Live(h, gen, full, w) <==> h.marked == gen))
    ensures var k := h.value; var t := w.textAt(k.payload);
      h.pins == 0 && ByText(k) ==>
        && (k.payload == 0 ==> !Live(h, gen, full, w))
        && (k.payload != 0 && (t.tag == 0xff || t.tag == 0xfb || t.tag == 0xf1) ==> Live(h, gen, full, w))
        && (k.payload != 0 && t.tag == 0xfd ==>
             (Live(h, gen, full, w) <==> t.owner.None? || t.owner.value.marked == gen || (!full && t.owner.value.aged)))
        && (k.payload != 0 && t.slab.Some? && t.tag != 0xff && t.tag != 0xfb && t.tag != 0xf1 && t.tag != 0xfd ==>
             (Live(h, gen, full, w) <==> t.slab.value.marked || (!full && t.slab.value.aged)))
        && (k.payload != 0 && t.slab.None? && (t.tag == 0xfc || t.tag == 0xf8) ==> Live(h, gen, full, w))
        && (k.payload != 0 && t.slab.None? && ByMinor(t.tag) ==> (Live(h, gen, full, w) <==> !full))
  {
  }

  /** A data object is known by the class its wrapper records. */
  function Rewritten(v: RbVal, wrapped: Option<int>): RbVal {
    if wrapped.Some? && v.Boxed? && v.k.tag == OBJ_TAG && v.k.payload != 0 && v.k.cls >= 0
    then Boxed(v.k.(cls := wrapped.value)) else v
  }

  class Extension {
    const hash: Key -> nat
    var heap: Heap
    var table: Table
    var count: nat
    var arena: seq<Addr>
    var depth: nat
    var errinfo: Option<Addr>
    var saved: seq<Context>
    var current: nat

    /** The running fiber's context in place of its stale saved copy. */
    ghost function Contexts(): seq<Context>
      requires current < |saved|
      reads this
    {
      saved[current := Context(arena, depth, errinfo)]
    }

    ghost predicate Valid()
      reads this
    {
      && TableOk(table, heap, hash) && SameHandles(table, heap)
      && count == Count(Used(table)) && (|table| == 0 || (|table| >= 32 && 2 * count < |table|))
      && current < |saved| && PinsExact(heap, Contexts())
    }

    /** Before the first conversion: no table, one fiber. */
    constructor (h: Key -> nat)
      ensures Valid() && heap == map[] && arena == [] && depth == 0 && errinfo == None && current == 0
    {
      hash, heap, table, count := h, map[], [], 0;
      arena, depth, errinfo, saved, current := [], 0, None, [EMPTY], 0;
      new;
      assert saved[..0] == [];
    }

    // ----- conversion -----

    /** pin(): outside every arena nothing is pinned. */
    method Pin(a: Addr)
      requires Valid() && a in heap
      modifies this`heap, this`arena
      ensures Valid() && SameValues(old(heap), heap)
      ensures arena == if depth == 0 then old(arena) else old(arena) + [a]
    {
      hide SavedRefs, TableOk, SameHandles, Used, Count;
      if depth == 0 { return; }
      ghost var cs := Contexts();
      arena := arena + [a];
      PinStep(heap, cs, current, Context(arena, depth, errinfo), a);
      assert cs[current := Context(arena, depth, errinfo)] == Contexts();
      TableKept(table, heap, Pinned(heap, a), hash);
      heap := Pinned(heap, a);
    }

    /** Room for one more handle: under half full even with it. */
    method Grow()
      requires Valid()
      modifies this`table
      ensures Valid() && 2 * (count + 1) < |table|
    {
      hide SavedRefs, Used, Count, Probed, OnePerValue, InTable;
      if |table| == 0 {
        CountBlank(Used(table));
        table := Rebuild(table, heap, hash, 32);
      }
      if (count + 1) * 2 >= |table| { table := Rebuild(table, heap, hash, |table| * 2); }
    }

    /** The canonical handle of a value; addr is where a new one would be allocated. */
    method Canonical(k: Key, addr: Addr) returns (a: Addr)
      requires Valid() && 2 * (count + 1) < |table| && addr !in heap
      modifies this`heap, this`table, this`count
      ensures Valid() && a in heap && heap[a].value == k
      ensures (forall b: Addr :: b in old(heap) ==> b in heap && heap[b] == old(heap[b]))
      ensures (forall b: Addr :: b in heap && heap[b].value == k ==> b == a)
      ensures heap.Keys == old(heap.Keys) + {a}
    {
      hide SavedRefs, Used, Count, Nearer;
      var i := FindSlot(table, heap, hash, k);
      if table[i].Some? {
        a := table[i].value;
      } else {
        a := addr;
        ghost var h := heap;
        heap := heap[a := Handle(k, 0, 0)];
        Allocated(table, h, heap, hash, a);
        PutHandle(table, heap, hash, i, a);
        table := table[i := Some(a)];
        count := count + 1;
      }
      OneHandle(table, heap, hash, a);
    }

    /** sp_cext_value; wrapped is the class a data object's wrapper records. */
    method Convert(value: RbVal, wrapped: Option<int>, addr: Addr) returns (r: VALUE)
      requires Valid() && Proper(value) && addr !in heap
      modifies this`heap, this`table, this`count, this`arena
      ensures Valid()
      ensures var v := Rewritten(value, wrapped);
        IsSpecial(v) ==> r == Special(v) && heap == old(heap) && arena == old(arena)
      ensures var v := Rewritten(value, wrapped);
        !IsSpecial(v) ==>
        && r.Ref? && r.a in heap && FromKey(heap[r.a].value) == v
        && (forall b: Addr :: b in heap && heap[b].value == KeyOf(v) ==> b == r.a)
        && (forall b: Addr :: b in old(heap) ==> b in heap && heap[b].value == old(heap)[b].value)
        && arena == (if depth == 0 then old(arena) else old(arena) + [r.a])
      // A wrapped data object carries the recorded class; every other boxed value is kept as it is.
      ensures value.Boxed? ==> r.Ref? && r.a in heap
      ensures value.Boxed? ==>
        heap[r.a].value == if wrapped.Some? && value.k.tag == 5 && value.k.payload != 0 && value.k.cls >= 0
          then Key(5, wrapped.value, value.k.payload) else value.k
      // nil, booleans, symbols and 63-bit integers need no handle; other integers get one.
      ensures value.Nil? || value.Bool? || value.Sym? ==> r == Special(value)
      ensures value.Int? ==> (r == Special(value) <==> -0x4000_0000_0000_0000 <= value.i < 0x4000_0000_0000_0000)
    {
      var v := Rewritten(value, wrapped);
      if IsSpecial(v) { return Special(v); }
      hide SavedRefs, Used, Count, TableOk, SameHandles, PinsExact;
      KeyRoundTrip(v);
      Grow();
      var a := Canonical(KeyOf(v), addr);
      Pin(a);
      return Ref(a);
    }

    /** sp_cext_rbval. */
    function Value(r: VALUE): RbVal
      requires r.Ref? ==> r.a in heap
      reads this
    {
      match r
      case Special(v) => v
      case Ref(a) => FromKey(heap[a].value)
    }

    /** sp_cext_set_errinfo. */
    method SetErrinfo(v: Option<Addr>)
      requires Valid() && (v.Some? ==> v.value in heap)
      modifies this`heap, this`errinfo
      ensures Valid() && errinfo == v && SameValues(old(heap), heap)
    {
      hide SavedRefs, ContextRefs, OneMore, PinsExact, TableOk, SameHandles, Used, Count;
      // the new reference stands in the arena until the old one is gone
      ghost var cs, now := Contexts(), Context(arena, depth, errinfo);
      ghost var mid := if v.Some? then Context(arena + [v.value], depth, errinfo) else now;
      if v.Some? {
        OneMoreEntry(now, v.value);
        PinStep(heap, cs, current, mid, v.value);
        TableKept(table, heap, Pinned(heap, v.value), hash);
        heap := Pinned(heap, v.value);
      }
      assert PinsExact(heap, cs[current := mid]) by { assert v.None? ==> cs[current := mid] == cs; }
      if errinfo.Some? {
        OneMoreErr(mid, errinfo.value);
        UnpinStep(heap, cs[current := mid], current, mid.(errinfo := None), errinfo.value);
        TableKept(table, heap, Unpinned(heap, errinfo.value), hash);
        heap := Unpinned(heap, errinfo.value);
      }
      ghost var gone := mid.(errinfo := None);
      assert cs[current := mid][current := gone] == cs[current := gone];
      errinfo := v;
      ErrForEntry(arena, depth, v);
      SameRefs(heap, cs[current := gone], current, Context(arena, depth, v));
      assert cs[current := gone][current := Context(arena, depth, v)] == Contexts();
    }

    // ----- arenas -----

    method Enter() returns (m: Mark)
      requires Valid()
      modifies this`depth
      ensures Valid() && m == Mark(|arena|, old(depth)) && depth == old(depth) + 1
    {
      m := Mark(|arena|, depth);
      ghost var cs := Contexts();
      depth := depth + 1;
      SameRefs(heap, cs, current, Context(arena, depth, errinfo));
      assert cs[current := Context(arena, depth, errinfo)] == Contexts();
    }

    /** sp_cext_arena_restore; false is the abort. */
    method Restore(m: Mark) returns (ok: bool)
      requires Valid()
      modifies this`heap, this`arena, this`depth
      ensures Valid() && SameValues(old(heap), heap)
      ensures ok == (m.depth <= old(depth) && m.handles <= |old(arena)|)
      ensures ok ==> arena == old(arena)[..m.handles] && depth == m.depth
      ensures !ok ==> heap == old(heap) && arena == old(arena) && depth == old(depth)
    {
      hide SavedRefs, TableOk, SameHandles, Used, Count, PinsExact;
      if m.depth > depth || m.handles > |arena| { return false; }
      while |arena| > m.handles
        invariant Valid() && SameValues(old(heap), heap)
        invariant m.handles <= |arena| <= |old(arena)| && arena == old(arena)[..|arena|]
      {
        PopPin();
      }
      ghost var cs := Contexts();
      depth := m.depth;
      SameRefs(heap, cs, current, Context(arena, depth, errinfo));
      assert cs[current := Context(arena, depth, errinfo)] == Contexts();
      return true;
    }

    method PopPin()
      requires Valid() && |arena| > 0
      modifies this`heap, this`arena
      ensures Valid() && SameValues(old(heap), heap) && arena == old(arena)[..|old(arena)| - 1]
    {
      hide SavedRefs, TableOk, SameHandles, Used, Count;
      ghost var cs := Contexts();
      var n := |arena| - 1;
      var a := arena[n];
      assert arena == arena[..n] + [a];
      UnpinStep(heap, cs, current, Context(arena[..n], depth, errinfo), a);
      assert cs[current := Context(arena[..n], depth, errinfo)]
        == saved[current := Context(arena[..n], depth, errinfo)];
      TableKept(table, heap, Unpinned(heap, a), hash);
      heap := Unpinned(heap, a);
      arena := arena[..n];
    }

    // ----- fibers -----

    /** A new fiber has a zeroed context. */
    method NewFiber() returns (id: nat)
      requires Valid()
      modifies this`saved
      ensures Valid() && id == old(|saved|) && saved == old(saved) + [EMPTY]
    {
      ghost var cs := Contexts();
      id := |saved|;
      saved := saved + [EMPTY];
      assert Contexts() == cs + [EMPTY];
      NoNewRefs(heap, cs);
    }

    /** sp_cext_arena_context_save for the running fiber. */
    method Save()
      requires Valid()
      modifies this`saved
      ensures Valid() && saved == Contexts() == old(Contexts())
    {
      hide PinsExact;
      ghost var cs := Contexts();
      saved := saved[current := Context(arena, depth, errinfo)];
      assert saved == cs && Contexts() == cs;
    }

    /** sp_cext_arena_context_load: the running fiber's context has been saved. */
    method Load(id: nat)
      requires Valid() && id < |saved| && saved[current] == Context(arena, depth, errinfo)
      modifies this`arena, this`depth, this`errinfo, this`current
      ensures Valid() && current == id && Context(arena, depth, errinfo) == saved[id]
    {
      hide PinsExact;
      ghost var cs := Contexts();
      assert cs == saved;
      assert PinsExact(heap, saved);
      var c := saved[id];
      arena, depth, errinfo, current := c.entries, c.depth, c.errinfo, id;
      assert Contexts() == saved;
    }

    /** sp_cext_arena_context_dispose of a fiber that is not running. */
    method Dispose(id: nat)
      requires Valid() && id < |saved| && id != current
      modifies this`heap, this`saved
      ensures Valid() && SameValues(old(heap), heap) && saved == old(saved)[id := EMPTY]
    {
      hide SavedRefs, TableOk, SameHandles, Used, Count, PinsExact;
      var c := saved[id];
      for i := 0 to |c.entries|
        invariant Valid() && SameValues(old(heap), heap)
        invariant saved == old(saved)[id := Context(c.entries[i..], c.depth, c.errinfo)]
      {
        assert c.entries[i..] == [c.entries[i]] + c.entries[i + 1..];
        ReleaseOne(id, c.entries[i], Context(c.entries[i + 1..], c.depth, c.errinfo));
      }
      assert c.entries[|c.entries|..] == [];
      if c.errinfo.Some? {
        ReleaseOne(id, c.errinfo.value, Context([], c.depth, None));
      }
      ghost var cs := Contexts();
      saved := saved[id := EMPTY];
      SameRefs(heap, cs, id, EMPTY);
      assert cs[id := EMPTY] == Contexts();
    }

    /** One reference of a saved context given up; the ghost of the context shrinks with it. */
    method ReleaseOne(id: nat, a: Addr, c: Context)
      requires Valid() && id < |saved| && id != current && OneMore(saved[id], c, a)
      modifies this`heap, this`saved
      ensures Valid() && SameValues(old(heap), heap) && saved == old(saved)[id := c]
    {
      hide SavedRefs, TableOk, SameHandles, Used, Count;
      ghost var cs := Contexts();
      UnpinStep(heap, cs, id, c, a);
      TableKept(table, heap, Unpinned(heap, a), hash);
      heap := Unpinned(heap, a);
      saved := saved[id := c];
      assert cs[id := c] == Contexts();
    }

    // ----- collection -----

    /** sp_cext_mark_roots: every pinned handle and every registered one is marked. */
    method MarkRoots(gen: nat, globals: seq<Option<Addr>>)
      requires Valid() && forall i :: 0 <= i < |globals| && globals[i].Some? ==> globals[i].value in heap
      modifies this`heap
      ensures Valid() && SamePins(old(heap), heap)
      ensures forall a: Addr :: a in heap && (heap[a].pins > 0 || Some(a) in globals) ==> heap[a].marked == gen
      ensures forall a: Addr :: a in heap && heap[a].pins == 0 && Some(a) !in globals ==> heap[a] == old(heap)[a]
    {
      hide SavedRefs, OnePerValue, Probed, Used, Count, PinsExact;
      var h := StampPinned(table, heap, gen);
      h := StampGlobals(h, globals, gen);
      TableKept(table, heap, h, hash);
      PinsKept(heap, h, Contexts());
      heap := h;
    }

    /** sp_cext_sweep_handles: exactly the live handles stay, unmarked, and all can be found. */
    method Sweep(gen: nat, full: bool, w: World)
      requires Valid()
      modifies this`heap, this`table, this`count
      ensures Valid()
      ensures forall a: Addr :: a in heap <==> a in old(heap) && Live(old(heap)[a], gen, full, w)
      ensures forall a: Addr :: a in heap ==> heap[a] == old(heap)[a].(marked := 0)
      // Pinned handles and numbered classes stay.
      ensures forall a: Addr :: a in old(heap) ==> var h := old(heap)[a];
        h.pins > 0 || (h.value.tag == 7 && h.value.cls != 0x7F00_0000) ==> a in heap
      // Objects and big integers go by their own header.
      ensures forall a: Addr :: a in old(heap) ==> var h := old(heap)[a]; var k := h.value;
        h.pins == 0 && ByHeader(k) ==>
        (a in heap <==>
          k.payload != 0 && (w.headerAt(k.payload).marked == gen || (!full && w.headerAt(k.payload).aged)))
      // Strings and classes by name go by the tag byte, the owner or the slab.
      ensures forall a: Addr :: a in old(heap) ==> var h := old(heap)[a]; var k := h.value;
        h.pins == 0 && ByText(k) ==>
        var t := w.textAt(k.payload);
        && (k.payload == 0 ==> a !in heap)
        && (k.payload != 0 && (t.tag == 0xff || t.tag == 0xfb || t.tag == 0xf1) ==> a in heap)
        && (k.payload != 0 && t.tag == 0xfd ==>
             (a in heap <==> t.owner.None? || t.owner.value.marked == gen || (!full && t.owner.value.aged)))
        && (k.payload != 0 && t.slab.Some? && t.tag != 0xff && t.tag != 0xfb && t.tag != 0xf1 && t.tag != 0xfd ==>
             (a in heap <==> t.slab.value.marked || (!full && t.slab.value.aged)))
        && (k.payload != 0 && t.slab.None? && (t.tag == 0xfc || t.tag == 0xf8) ==> a in heap)
        && (k.payload != 0 && t.slab.None? && ByMinor(t.tag) ==> (a in heap <==> !full))
      // Everything else goes by its own mark.
      ensures forall a: Addr :: a in old(heap) ==> var h := old(heap)[a]; var k := h.value;
        h.pins == 0 && !ByHeader(k) && !ByText(k) && k.tag != 7 ==> (a in heap <==> h.marked == gen)
    {
      hide SavedRefs, Used, Count, Probed, OnePerValue, InTable, Live;
      ghost var h0 := heap;
      forall a: Addr | a in heap {
        LiveMeans(heap[a], gen, full, w);
      }
      var t, h, c, changed := SweepSlots(table, heap, count, gen, full, w);
      SurvivorPins(heap, h, Contexts(), gen, full, w);
      if changed {
        t := Rebuild(t, h, hash, |t|);
      } else {
        assert heap.Keys == h.Keys by { assert forall a: Addr :: a in heap <==> a in h; }
        TableKept(table, heap, h, hash);
      }
      table, heap, count := t, h, c;
    }
  }

  function Stamped(heap: Heap, a: Addr, gen: nat): Heap
    requires a in heap
  {
    heap[a := heap[a].(marked := gen)]
  }

  /** The same handles, values and pin counts; marks may differ. */
  ghost predicate SamePins(heap: Heap, heap': Heap) {
    && SameValues(heap, heap')
    && forall a: Addr :: a in heap ==> heap[a].pins == heap'[a].pins
  }

  /** The pinned handles of the table marked. */
  method StampPinned(t: Table, h0: Heap, gen: nat) returns (h: Heap)
    requires Backed(t, h0) && SameHandles(t, h0)
    ensures SamePins(h0, h)
    ensures forall a: Addr :: a in h ==> h[a] == if h0[a].pins > 0 then h0[a].(marked := gen) else h0[a]
  {
    h := h0;
    for i := 0 to |t|
      invariant SamePins(h0, h)
      invariant forall a: Addr :: a in h ==> h[a] == h0[a] || (h0[a].pins > 0 && h[a] == h0[a].(marked := gen))
      invariant forall j :: 0 <= j < i && t[j].Some? && h0[t[j].value].pins > 0 ==> h[t[j].value].marked == gen
    {
      if t[i].Some? && h[t[i].value].pins > 0 {
        h := Stamped(h, t[i].value, gen);
      }
    }
    forall a: Addr | a in h && h0[a].pins > 0 ensures h[a].marked == gen {
      var j :| 0 <= j < |t| && t[j] == Some(a);
    }
  }

  /** The handles that registered addresses hold marked. */
  method StampGlobals(h0: Heap, globals: seq<Option<Addr>>, gen: nat) returns (h: Heap)
    requires forall i :: 0 <= i < |globals| && globals[i].Some? ==> globals[i].value in h0
    ensures SamePins(h0, h)
    ensures forall a: Addr :: a in h ==> h[a] == if Some(a) in globals then h0[a].(marked := gen) else h0[a]
  {
    h := h0;
    for i := 0 to |globals|
      invariant SamePins(h0, h)
      invariant forall a: Addr :: a in h ==> h[a] == if Some(a) in globals[..i] then h0[a].(marked := gen) else h0[a]
    {
      assert globals[..i + 1] == globals[..i] + [globals[i]];
      if globals[i].Some? {
        assert globals[i].value in h;
        h := Stamped(h, globals[i].value, gen);
      }
    }
    assert globals[..|globals|] == globals;
  }

  lemma PinsKept(heap: Heap, heap': Heap, cs: seq<Context>)
    requires PinsExact(heap, cs) && SamePins(heap, heap')
    ensures PinsExact(heap', cs)
  {
    hide SavedRefs;
  }

  /** The walk of the sweep: dead handles freed and their slots emptied, live ones unmarked. */
  method SweepSlots(t0: Table, h0: Heap, c0: nat, gen: nat, full: bool, w: World)
      returns (t: Table, h: Heap, c: nat, changed: bool)
    requires Backed(t0, h0) && OnePerValue(t0, h0) && SameHandles(t0, h0) && c0 == Count(Used(t0))
    ensures |t| == |t0| && Backed(t, h) && OnePerValue(t, h) && SameHandles(t, h)
    ensures c == Count(Used(t)) <= c0 && (if changed then |t| > 0 else t == t0)
    ensures forall a: Addr :: a in h <==> a in h0 && Live(h0[a], gen, full, w)
    ensures forall a: Addr :: a in h ==> h[a] == h0[a].(marked := 0)
  {
    hide Used, Count, Live, Walked, OnePerValue, SameHandles;
    t, h, c, changed := t0, h0, c0, false;
    WalkStart(t0, h0, gen, full, w);
    for i := 0 to |t0|
      invariant |t| == |t0| && Walked(t0, h0, t, h, i, gen, full, w)
      invariant c == Count(Used(t)) <= c0 && (if changed then |t| > 0 else t == t0)
    {
      WalkAt(t0, h0, t, h, i, gen, full, w);
      if t[i].Some? {
        var a := t[i].value;
        if !Live(h[a], gen, full, w) {
          FreeStep(t0, h0, t, h, i, gen, full, w);
          ClearCount(t, i);
          h := h - {a};
          t := t[i := None];
          c := c - 1;
          changed := true;
        } else {
          KeepStep(t0, h0, t, h, i, gen, full, w);
          h := Stamped(h, a, 0);
        }
      } else {
        SkipStep(t0, h0, t, h, i, gen, full, w);
      }
    }
    WalkDone(t0, h0, t, h, gen, full, w);
  }

  /** After i slots of the sweep. */
  ghost predicate Walked(t0: Table, h0: Heap, t: Table, h: Heap, i: nat, gen: nat, full: bool, w: World) {
    && |t| == |t0| && Backed(t0, h0)
    && (forall j :: i <= j < |t| ==> t[j] == t0[j])
    && (forall j :: 0 <= j < i && j < |t| ==>
        t[j] == if t0[j].Some? && Live(h0[t0[j].value], gen, full, w) then t0[j] else None)
    && SameHandles(t, h)
    && (forall j :: 0 <= j < |t| && t[j].Some? ==>
        t[j].value in h && h[t[j].value] == if j < i then h0[t[j].value].(marked := 0) else h0[t[j].value])
  }

  lemma WalkStart(t0: Table, h0: Heap, gen: nat, full: bool, w: World)
    requires Backed(t0, h0) && SameHandles(t0, h0)
    ensures Walked(t0, h0, t0, h0, 0, gen, full, w)
  {
    hide Live, InTable;
  }

  lemma WalkAt(t0: Table, h0: Heap, t: Table, h: Heap, i: nat, gen: nat, full: bool, w: World)
    requires Walked(t0, h0, t, h, i, gen, full, w) && i < |t0|
    ensures |t| == |t0| && t[i] == t0[i] && (t[i].Some? ==> t[i].value in h)
  {
    hide Live, InTable;
  }

  lemma SkipStep(t0: Table, h0: Heap, t: Table, h: Heap, i: nat, gen: nat, full: bool, w: World)
    requires Walked(t0, h0, t, h, i, gen, full, w) && i < |t0| && t[i].None?
    ensures Walked(t0, h0, t, h, i + 1, gen, full, w)
  {
    hide Live, InTable;
  }

  lemma FreeStep(t0: Table, h0: Heap, t: Table, h: Heap, i: nat, gen: nat, full: bool, w: World)
    requires Backed(t0, h0) && OnePerValue(t0, h0) && Walked(t0, h0, t, h, i, gen, full, w)
    requires i < |t| && t[i].Some? && !Live(h[t[i].value], gen, full, w)
    ensures Walked(t0, h0, t[i := None], h - {t[i].value}, i + 1, gen, full, w)
  {
    hide Live;
    var a, t', h' := t[i].value, t[i := None], h - {t[i].value};
    forall j | 0 <= j < |t| && t[j] == Some(a) ensures j == i {
      assert t0[j] == Some(a) && t0[i] == Some(a);
    }
    forall b: Addr ensures b in h' <==> InTable(t', b) {
      if b in h' {
        var j :| 0 <= j < |t| && t[j] == Some(b);
        assert t'[j] == Some(b);
      }
      if InTable(t', b) {
        var j :| 0 <= j < |t'| && t'[j] == Some(b);
        assert t[j] == Some(b);
      }
    }
  }

  lemma KeepStep(t0: Table, h0: Heap, t: Table, h: Heap, i: nat, gen: nat, full: bool, w: World)
    requires Backed(t0, h0) && OnePerValue(t0, h0) && Walked(t0, h0, t, h, i, gen, full, w)
    requires i < |t| && t[i].Some? && Live(h[t[i].value], gen, full, w)
    ensures Walked(t0, h0, t, Stamped(h, t[i].value, 0), i + 1, gen, full, w)
  {
    hide Live, InTable;
    forall j | 0 <= j < |t| && t[j] == t[i] ensures j == i {
      assert t0[j] == t0[i];
    }
  }

  lemma WalkDone(t0: Table, h0: Heap, t: Table, h: Heap, gen: nat, full: bool, w: World)
    requires Backed(t0, h0) && OnePerValue(t0, h0) && SameHandles(t0, h0) && Walked(t0, h0, t, h, |t|, gen, full, w)
    ensures Backed(t, h) && OnePerValue(t, h) && SameHandles(t, h)
    ensures forall a: Addr :: a in h <==> a in h0 && Live(h0[a], gen, full, w)
    ensures forall a: Addr :: a in h ==> h[a] == h0[a].(marked := 0)
  {
    hide Live;
    forall a: Addr ensures a in h <==> a in h0 && Live(h0[a], gen, full, w) {
      if a in h {
        var j :| 0 <= j < |t| && t[j] == Some(a);
        assert t0[j] == Some(a);
        assert InTable(t0, a);
      }
      if a in h0 && Live(h0[a], gen, full, w) {
        var j :| 0 <= j < |t0| && t0[j] == Some(a);
        assert t[j] == Some(a);
        assert InTable(t, a);
      }
    }
    forall a: Addr | a in h ensures h[a] == h0[a].(marked := 0) {
      var j :| 0 <= j < |t| && t[j] == Some(a);
    }
  }

  lemma ClearCount(t: Table, i: nat)
    requires i < |t| && t[i].Some?
    ensures Count(Used(t)) == Count(Used(t[i := None])) + 1
  {
    var t' := t[i := None];
    CountSet(Used(t'), i);
    assert Used(t')[i := true] == Used(t);
  }

  /** A freed handle had no pins, so no reference is lost. */
  lemma SurvivorPins(h0: Heap, h: Heap, cs: seq<Context>, gen: nat, full: bool, w: World)
    requires PinsExact(h0, cs)
    requires forall a: Addr :: a in h <==> a in h0 && Live(h0[a], gen, full, w)
    requires forall a: Addr :: a in h ==> h[a] == h0[a].(marked := 0)
    ensures PinsExact(h, cs)
  {
    hide SavedRefs;
    forall a: Addr ensures SavedRefs(cs, a) == if a in h then h[a].pins else 0 {
    }
  }

  lemma SameRefs(heap: Heap, cs: seq<Context>, i: nat, c: Context)
    requires PinsExact(heap, cs) && i < |cs| && forall b: Addr :: ContextRefs(c, b) == ContextRefs(cs[i], b)
    ensures PinsExact(heap, cs[i := c])
  {
    hide SavedRefs, ContextRefs;
    forall b: Addr ensures SavedRefs(cs[i := c], b) == SavedRefs(cs, b) {
      RefsUpdate(cs, i, c, b);
    }
  }

  lemma NoNewRefs(heap: Heap, cs: seq<Context>)
    requires PinsExact(heap, cs)
    ensures PinsExact(heap, cs + [EMPTY])
  {
    forall b: Addr ensures SavedRefs(cs + [EMPTY], b) == SavedRefs(cs, b) {
      RefsAdded(cs, EMPTY, b);
    }
  }

  /** A handle that is not in the table yet does not disturb it. */
  lemma Allocated(t: Table, h: Heap, h': Heap, hash: Key -> nat, a: Addr)
    requires TableOk(t, h, hash) && a !in h && a in h' && h' == h[a := h'[a]]
    ensures TableOk(t, h', hash)
  {
    hide Nearer;
  }

  lemma OneHandle(t: Table, heap: Heap, hash: Key -> nat, a: Addr)
    requires TableOk(t, heap, hash) && SameHandles(t, heap) && a in heap
    ensures forall b: Addr :: b in heap && heap[b].value == heap[a].value ==> b == a
  {
    hide Nearer;
    forall b: Addr | b in heap && heap[b].value == heap[a].value ensures b == a {
      var i :| 0 <= i < |t| && t[i] == Some(a);
      var j :| 0 <= j < |t| && t[j] == Some(b);
    }
  }

  // ----- every run -----

  lemma {:induction false} ContextCounts(cs: seq<Context>, i: nat, a: Addr)
    requires i < |cs|
    ensures ContextRefs(cs[i], a) <= SavedRefs(cs, a)
  {
    var n := |cs| - 1;
    if i < n {
      ContextCounts(cs[..n], i, a);
    }
  }

  /** In a valid state every arena entry and errinfo, of every fiber, is a live pinned handle. */
  lemma NoDangling(e: Extension, i: nat, a: Addr)
    requires e.Valid() && i < |e.saved|
    requires a in e.Contexts()[i].entries || e.Contexts()[i].errinfo == Some(a)
    ensures a in e.heap && e.heap[a].pins > 0
  {
    ContextCounts(e.Contexts(), i, a);
    assert a in e.Contexts()[i].entries ==> a in multiset(e.Contexts()[i].entries);
  }

  /** What an extension, the scheduler and the collector can do. */
  datatype Event =
    | Converts(v: RbVal, wrapped: Option<int>, addr: Addr)
    | Enters
    | Restores(m: Mark)
    | SetsErrinfo(r: VALUE)
    | StartsFiber
    | SwitchesTo(id: nat)
    | EndsFiber(id: nat)
    | Marks(gen: nat, globals: seq<Option<Addr>>)
    | Sweeps(gen: nat, full: bool, w: World)

  /** An event that the rules of the interface allow in this state. */
  predicate Allowed(e: Extension, ev: Event)
    reads e
  {
    match ev
    case Converts(v, _, addr) => Proper(v) && addr !in e.heap
    case SetsErrinfo(v) => v.Ref? ==> v.a in e.heap
    case SwitchesTo(id) => id < |e.saved|
    case EndsFiber(id) => id < |e.saved| && id != e.current
    case Marks(_, globals) => forall i :: 0 <= i < |globals| && globals[i].Some? ==> globals[i].value in e.heap
    case _ => true
  }

  /** Which events a run skips. */
  lemma AllowedMeans(e: Extension, ev: Event)
    ensures ev.Enters? || ev.Restores? || ev.StartsFiber? || ev.Sweeps? ==> Allowed(e, ev)
    ensures ev.Converts? ==> (Allowed(e, ev) <==> Proper(ev.v) && ev.addr !in e.heap)
    ensures ev.SetsErrinfo? ==> (Allowed(e, ev) <==> (ev.r.Ref? ==> ev.r.a in e.heap))
    ensures ev.SwitchesTo? ==> (Allowed(e, ev) <==> ev.id < |e.saved|)
    ensures ev.EndsFiber? ==> (Allowed(e, ev) <==> ev.id < |e.saved| && ev.id != e.current)
    ensures ev.Marks? ==> (Allowed(e, ev) <==>
      forall i :: 0 <= i < |ev.globals| && ev.globals[i].Some? ==> ev.globals[i].value in e.heap)
  {
  }

  /** One event: the state stays valid, and only a sweep frees a handle, and only an unpinned one. */
  method Step(e: Extension, ev: Event)
    requires e.Valid() && Allowed(e, ev)
    modifies e
    ensures e.Valid()
    ensures forall a: Addr :: a in old(e.heap) && (old(e.heap)[a].pins > 0 || !ev.Sweeps?) ==>
      a in e.heap && e.heap[a].value == old(e.heap)[a].value
  {
    match ev
    case Converts(v, wrapped, addr) => var r := e.Convert(v, wrapped, addr);
    case Enters => var m := e.Enter();
    case Restores(m) => var ok := e.Restore(m);
    case SetsErrinfo(v) => e.SetErrinfo(if v.Ref? then Some(v.a) else None);
    case StartsFiber => var id := e.NewFiber();
    case SwitchesTo(id) => e.Save(); e.Load(id);
    case EndsFiber(id) => e.Dispose(id);
    case Marks(gen, globals) => e.MarkRoots(gen, globals);
    case Sweeps(gen, full, w) => e.Sweep(gen, full, w);
  }

  /** a was a pinned handle in each of these heaps. */
  ghost predicate PinnedThrough(trace: seq<Heap>, a: Addr) {
    forall i :: 0 <= i < |trace| ==> a in trace[i] && trace[i][a].pins > 0
  }

  /**
    Over every run (events the interface forbids are skipped) the state stays
    valid, every reference of every fiber is to a live pinned handle, and a
    handle pinned at every event is still there with its value.
   */
  method Run(e: Extension, run: seq<Event>) returns (ghost trace: seq<Heap>)
    requires e.Valid()
    modifies e
    ensures e.Valid() && |trace| == |run| && (run != [] ==> trace[0] == old(e.heap))
    ensures forall i, a: Addr ::
      0 <= i < |e.saved| && (a in e.Contexts()[i].entries || e.Contexts()[i].errinfo == Some(a)) ==>
      a in e.heap && e.heap[a].pins > 0
    ensures forall a: Addr :: a in old(e.heap) && PinnedThrough(trace, a) ==>
      a in e.heap && e.heap[a].value == old(e.heap)[a].value
  {
    trace := [];
    for i := 0 to |run|
      invariant e.Valid() && |trace| == i && (i > 0 ==> trace[0] == old(e.heap)) && (i == 0 ==> e.heap == old(e.heap))
      invariant forall a: Addr :: a in old(e.heap) && PinnedThrough(trace, a) ==>
        a in e.heap && e.heap[a].value == old(e.heap)[a].value
    {
      ghost var t, h := trace, e.heap;
      trace := trace + [h];
      forall a: Addr | PinnedThrough(trace, a) ensures PinnedThrough(t, a) && a in h && h[a].pins > 0 {
        Shorter(t, h, a);
      }
      if Allowed(e, run[i]) {
        Step(e, run[i]);
      }
    }
    forall i, a: Addr | 0 <= i < |e.saved| && (a in e.Contexts()[i].entries || e.Contexts()[i].errinfo == Some(a))
      ensures a in e.heap && e.heap[a].pins > 0
    {
      NoDangling(e, i, a);
    }
  }

  lemma Shorter(t: seq<Heap>, h: Heap, a: Addr)
    requires PinnedThrough(t + [h], a)
    ensures PinnedThrough(t, a) && a in h && h[a].pins > 0
  {
    assert (t + [h])[|t|] == h;
    forall i | 0 <= i < |t| ensures a in t[i] && t[i][a].pins > 0 {
      assert (t + [h])[i] == t[i];
    }
  }
}
