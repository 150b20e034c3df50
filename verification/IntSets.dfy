/**
  The open-addressed set behind uniq, uniq!, &, | and - (lib/sp_array.c:411-472
  and 498-548). Every hashed route is proved to give the element sequence of the
  linear-scan route, and every probe to end, because the table is never more
  than half full.
 */
module IntSets {
  const LINEAR: nat := 16

  /** The hash: the upper half of a wrapped 64-bit product, reduced to the table. */
  function Home(v: int, cap: nat): (h: nat)
    requires cap > 0
    ensures h < cap
  {
    ((v * 11400714819323198485) % 0x1_0000_0000_0000_0000 / 0x1_0000_0000) % cap
  }

  /** Steps from slot h to slot i, going up and around. */
  function Dist(h: nat, i: nat, cap: nat): int {
    if i >= h then i - h else i - h + cap
  }

  /** Going up from h, slot j comes before slot i. */
  predicate Nearer(h: nat, j: nat, i: nat, cap: nat) {
    Dist(h, j, cap) < Dist(h, i, cap)
  }

  function Count(used: seq<bool>): nat {
    if used == [] then 0 else Count(used[..|used| - 1]) + if used[|used| - 1] then 1 else 0
  }

  lemma {:induction false} CountSet(used: seq<bool>, i: nat)
    requires i < |used| && !used[i]
    ensures Count(used[i := true]) == Count(used) + 1
  {
    var n := |used| - 1;
    if i < n {
      CountSet(used[..n], i);
      assert used[i := true][..n] == used[..n][i := true];
    } else {
      assert used[i := true][..n] == used[..n];
    }
  }

  lemma {:induction false} CountBlank(used: seq<bool>)
    requires forall i :: 0 <= i < |used| ==> !used[i]
    ensures Count(used) == 0
  {
    if used != [] { CountBlank(used[..|used| - 1]); }
  }

  /** A table that is not full has a free slot. */
  lemma {:induction false} FreeSlot(used: seq<bool>) returns (u: nat)
    requires Count(used) < |used|
    ensures u < |used| && !used[u]
  {
    var n := |used| - 1;
    if !used[n] {
      u := n;
    } else {
      u := FreeSlot(used[..n]);
    }
  }

  /** The slots from a key's home to the key are all in use. */
  ghost predicate Reachable(keys: seq<int>, used: seq<bool>) {
    && |keys| == |used| > 0
    && forall i, j ::
      0 <= i < |used| && 0 <= j < |used| && used[i] && Nearer(Home(keys[i], |used|), j, i, |used|) ==> used[j]
  }

  ghost predicate Distinct(keys: seq<int>, used: seq<bool>) {
    && |keys| == |used|
    && forall i, j :: 0 <= i < |used| && 0 <= j < |used| && used[i] && used[j] && keys[i] == keys[j] ==> i == j
  }

  ghost predicate Holds(keys: seq<int>, used: seq<bool>, v: int) {
    |keys| == |used| && exists i :: 0 <= i < |used| && used[i] && keys[i] == v
  }

  class IntSet {
    var keys: seq<int>
    var used: seq<bool>

    /** Every key once, every key findable, at most half full. */
    ghost predicate Valid()
      reads this
    {
      |keys| == |used| > 0 && Reachable(keys, used) && Distinct(keys, used) && 2 * Count(used) <= |used|
    }

    ghost predicate Has(v: int)
      reads this
    {
      Holds(keys, used, v)
    }

    /** sp_iset_init. */
    constructor (n: nat)
      ensures Valid() && |used| >= 2 * n && Count(used) == 0 && forall v :: !Has(v)
    {
      var cap := 32;
      while cap < 2 * n
        invariant cap >= 32
        decreases 2 * n - cap
      {
        cap := 2 * cap;
      }
      keys, used := seq(cap, i => 0), seq(cap, i => false);
      new;
      CountBlank(used);
    }

    /** sp_iset_slot: the key's slot, or the free slot that ends its probe. */
    method Find(v: int) returns (i: nat)
      requires Valid()
      ensures i < |used| && (used[i] <==> Has(v)) && (used[i] ==> keys[i] == v)
      ensures forall j :: 0 <= j < |used| && Nearer(Home(v, |used|), j, i, |used|) ==> used[j]
    {
      hide Home;
      ghost var u := FreeSlot(used);
      var h, cap := Home(v, |used|), |used|;
      i := h;
      while used[i] && keys[i] != v
        invariant i < cap
        invariant forall j :: 0 <= j < cap && Nearer(h, j, i, cap) ==> used[j] && keys[j] != v
        decreases Dist(h, u, cap) - Dist(h, i, cap)
      {
        assert Dist(h, i, cap) < Dist(h, u, cap) by {
          if Nearer(h, u, i, cap) { assert false; }
        }
        i := if i + 1 == cap then 0 else i + 1;
      }
      if !used[i] {
        NotHeld(keys, used, v, i);
      }
    }

    /** sp_iset_add: true when v was not in the set yet. */
    method Add(v: int) returns (added: bool)
      requires Valid() && 2 * (Count(used) + 1) <= |used|
      modifies this
      ensures Valid() && |used| == old(|used|) && added == !old(Has(v))
      ensures Count(used) == old(Count(used)) + if added then 1 else 0
      ensures forall w :: Has(w) == (old(Has(w)) || w == v)
    {
      hide Home, Count, Reachable, Distinct;
      var i := Find(v);
      if used[i] { return false; }
      CountSet(used, i);
      Placed(keys, used, i, v);
      used := used[i := true];
      keys := keys[i := v];
      return true;
    }

    method Contains(v: int) returns (b: bool)
      requires Valid()
      ensures b == Has(v)
    {
      var i := Find(v);
      b := used[i];
    }
  }

  /** A probe that ends at a free slot has passed every place the key could be. */
  lemma NotHeld(keys: seq<int>, used: seq<bool>, v: int, i: nat)
    requires Reachable(keys, used) && i < |used| && !used[i]
    requires forall j :: 0 <= j < |used| && Nearer(Home(v, |used|), j, i, |used|) ==> keys[j] != v
    ensures !Holds(keys, used, v)
  {
    hide Home;
    var h, cap := Home(v, |used|), |used|;
    forall j | 0 <= j < cap && used[j] ensures keys[j] != v {
      assert i == j || Nearer(h, i, j, cap) || Nearer(h, j, i, cap);
      if keys[j] == v { assert false; }
    }
  }

  /** A key put where its probe ended keeps the table in order. */
  lemma Placed(keys: seq<int>, used: seq<bool>, i: nat, v: int)
    requires Reachable(keys, used) && Distinct(keys, used) && i < |used| && !used[i] && !Holds(keys, used, v)
    requires forall j :: 0 <= j < |used| && Nearer(Home(v, |used|), j, i, |used|) ==> used[j]
    ensures Reachable(keys[i := v], used[i := true]) && Distinct(keys[i := v], used[i := true])
    ensures forall w :: Holds(keys[i := v], used[i := true], w) == (Holds(keys, used, w) || w == v)
  {
    hide Home;
    var k', u' := keys[i := v], used[i := true];
    forall w ensures Holds(k', u', w) == (Holds(keys, used, w) || w == v) {
      if Holds(keys, used, w) {
        var j :| 0 <= j < |used| && used[j] && keys[j] == w;
        assert u'[j] && k'[j] == w;
      }
      assert u'[i] && k'[i] == v;
    }
  }

  // ----- the set operations -----

  function WithFirst(u: seq<int>, x: int): seq<int> {
    if x in u then u else u + [x]
  }

  /** u, then the elements of s that are in neither u nor the part of s before them. */
  function Firsts(u: seq<int>, s: seq<int>): seq<int> {
    if s == [] then u else WithFirst(Firsts(u, s[..|s| - 1]), s[|s| - 1])
  }

  /** First occurrences, in order. */
  function Uniq(s: seq<int>): seq<int> {
    Firsts([], s)
  }

  ghost predicate NoRepeat(u: seq<int>) {
    forall i, j :: 0 <= i < j < |u| ==> u[i] != u[j]
  }

  /** What is kept: every element of either, once each, u itself in front. */
  lemma {:induction false} FirstsAre(u: seq<int>, s: seq<int>)
    ensures u <= Firsts(u, s) && forall x :: x in Firsts(u, s) <==> x in u || x in s
    ensures NoRepeat(u) ==> NoRepeat(Firsts(u, s))
  {
    if s != [] {
      var n := |s| - 1;
      FirstsAre(u, s[..n]);
      assert s == s[..n] + [s[n]];
    }
  }

  /** An element is kept at its first position: those before it are the firsts before it. */
  lemma {:induction false} FirstsPrefix(u: seq<int>, s: seq<int>, k: nat)
    requires k <= |s|
    ensures Firsts(u, s[..k]) <= Firsts(u, s)
    decreases |s|
  {
    if k == |s| {
      assert s[..k] == s;
    } else {
      var n := |s| - 1;
      FirstsPrefix(u, s[..n], k);
      assert s[..n][..k] == s[..k];
    }
  }

  lemma FirstsStep(u: seq<int>, s: seq<int>, k: nat)
    requires k < |s|
    ensures Firsts(u, s[..k + 1]) == WithFirst(Firsts(u, s[..k]), s[k])
  {
    assert s[..k + 1][..k] == s[..k];
  }

  lemma {:induction false} FirstsAppend(u: seq<int>, a: seq<int>, b: seq<int>)
    ensures Firsts(Firsts(u, a), b) == Firsts(u, a + b)
    decreases |b|
  {
    if b == [] {
      assert a + b == a;
    } else {
      var n := |b| - 1;
      FirstsAppend(u, a, b[..n]);
      assert (a + b)[..|a| + n] == a + b[..n];
    }
  }

  /** The elements of s that are in t. */
  function Kept(s: seq<int>, t: seq<int>): (u: seq<int>)
    ensures forall x :: x in u <==> x in s && x in t
  {
    if s == [] then []
    else
      var x := s[|s| - 1];
      assert s == s[..|s| - 1] + [x];
      Kept(s[..|s| - 1], t) + if x in t then [x] else []
  }

  /** The elements of s that are not in t, repetitions included. */
  function Without(s: seq<int>, t: seq<int>): (u: seq<int>)
    ensures forall x :: x in u <==> x in s && x !in t
  {
    if s == [] then []
    else
      var x := s[|s| - 1];
      assert s == s[..|s| - 1] + [x];
      Without(s[..|s| - 1], t) + if x in t then [] else [x]
  }

  // Element by element, in order.

  lemma NoneKept(t: seq<int>)
    ensures Kept([], t) == [] && Without([], t) == []
  {
  }

  lemma {:induction false} KeptStep(s: seq<int>, t: seq<int>, k: nat)
    requires k < |s|
    ensures Kept(s[..k + 1], t) == Kept(s[..k], t) + if s[k] in t then [s[k]] else []
    ensures Without(s[..k + 1], t) == Without(s[..k], t) + if s[k] in t then [] else [s[k]]
  {
    assert s[..k + 1][..k] == s[..k];
  }

  /** include? on plain values. */
  method Include(s: seq<int>, v: int) returns (b: bool)
    ensures b == (v in s)
  {
    for i := 0 to |s|
      invariant v !in s[..i]
    {
      if s[i] == v { return true; }
    }
    return false;
  }

  /** sp_iset_add_all into a table made for t. */
  method SetOf(t: seq<int>) returns (m: IntSet)
    ensures fresh(m) && m.Valid() && forall v :: m.Has(v) <==> v in t
  {
    m := new IntSet(|t|);
    for i := 0 to |t|
      invariant m.Valid() && |m.used| >= 2 * |t| && Count(m.used) <= i
      invariant forall v :: m.Has(v) <==> v in t[..i]
    {
      var added := m.Add(t[i]);
      assert t[..i + 1] == t[..i] + [t[i]];
    }
    assert t[..|t|] == t;
  }

  /** Each element appended the first time it is seen; seen holds what out holds. */
  method AppendFirsts(seen: IntSet, out: seq<int>, s: seq<int>) returns (r: seq<int>)
    requires seen.Valid() && |seen.used| >= 2 * (Count(seen.used) + |s|) && forall v :: seen.Has(v) <==> v in out
    modifies seen
    ensures seen.Valid() && |seen.used| == old(|seen.used|) && Count(seen.used) <= old(Count(seen.used)) + |s|
    ensures (forall v :: seen.Has(v) <==> v in r) && r == Firsts(out, s)
  {
    hide Count, Firsts, Holds;
    r := out;
    FirstsNone(out, s[..0]);
    for i := 0 to |s|
      invariant seen.Valid() && |seen.used| == old(|seen.used|) && Count(seen.used) <= old(Count(seen.used)) + i
      invariant (forall v :: seen.Has(v) <==> v in r) && r == Firsts(out, s[..i])
    {
      FirstsStep(out, s, i);
      var added := seen.Add(s[i]);
      if added { r := r + [s[i]]; }
    }
    assert s[..|s|] == s;
  }

  lemma FirstsNone(u: seq<int>, s: seq<int>)
    requires s == []
    ensures Firsts(u, s) == u
  {
  }

  /** The linear form. */
  method ScanFirsts(out: seq<int>, s: seq<int>) returns (r: seq<int>)
    ensures r == Firsts(out, s)
  {
    r := out;
    for i := 0 to |s|
      invariant r == Firsts(out, s[..i])
    {
      FirstsStep(out, s, i);
      var found := Include(r, s[i]);
      if !found { r := r + [s[i]]; }
    }
    assert s[..|s|] == s;
  }

  /** sp_IntArray_uniq without nils. */
  method UniqValues(s: seq<int>) returns (r: seq<int>)
    ensures r == Uniq(s)
  {
    if |s| > LINEAR {
      var t := new IntSet(|s|);
      r := AppendFirsts(t, [], s);
    } else {
      r := ScanFirsts([], s);
    }
  }

  /** sp_IntArray_union without nils. */
  method UnionValues(a: seq<int>, b: seq<int>) returns (r: seq<int>)
    ensures r == Uniq(a + b)
  {
    var n := |a| + |b|;
    FirstsAppend([], a, b);
    if n > LINEAR {
      var seen := new IntSet(n);
      r := AppendFirsts(seen, [], a);
      r := AppendFirsts(seen, r, b);
    } else {
      r := ScanFirsts([], a);
      r := ScanFirsts(r, b);
    }
  }

  /** sp_setop_hashes. */
  predicate Hashes(scanned: nat, probes: nat) {
    scanned > LINEAR && probes > LINEAR
  }

  /** sp_IntArray_intersect without nils. */
  method IntersectValues(a: seq<int>, b: seq<int>) returns (r: seq<int>)
    ensures r == Uniq(Kept(a, b))
  {
    if Hashes(|b|, |a|) {
      r := IntersectHashed(a, b);
      return;
    }
    r := [];
    for i := 0 to |a|
      invariant r == Uniq(Kept(a[..i], b))
    {
      KeptUniqStep(a, b, i);
      var inB := Include(b, a[i]);
      var inR := Include(r, a[i]);
      if inB && !inR { r := r + [a[i]]; }
    }
    assert a[..|a|] == a;
  }

  method IntersectHashed(a: seq<int>, b: seq<int>) returns (r: seq<int>)
    ensures r == Uniq(Kept(a, b))
  {
    var inB := SetOf(b);
    var seen := new IntSet(|a|);
    hide Count, Firsts, Kept, Holds, Reachable, Distinct;
    r := [];
    KeptNone(a[..0], b);
    for i := 0 to |a|
      invariant inB.Valid() && forall v :: inB.Has(v) <==> v in b
      invariant fresh(seen) && seen.Valid() && |seen.used| >= 2 * |a| && Count(seen.used) <= i
      invariant (forall v :: seen.Has(v) <==> v in r) && r == Uniq(Kept(a[..i], b))
      modifies seen
    {
      KeptUniqStep(a, b, i);
      r := MeetStep(inB, seen, r, a[i]);
    }
    assert a[..|a|] == a;
  }

  /** One element of &: kept when it is in the one set and new to the other. */
  method MeetStep(inB: IntSet, seen: IntSet, r: seq<int>, v: int) returns (r': seq<int>)
    requires inB.Valid() && seen.Valid() && inB != seen && 2 * (Count(seen.used) + 1) <= |seen.used|
    requires forall w :: seen.Has(w) <==> w in r
    modifies seen
    ensures seen.Valid() && |seen.used| == old(|seen.used|) && Count(seen.used) <= old(Count(seen.used)) + 1
    ensures r' == if inB.Has(v) && v !in r then r + [v] else r
    ensures forall w :: seen.Has(w) <==> w in r'
  {
    hide Count, Holds, Reachable, Distinct;
    r' := r;
    var has := inB.Contains(v);
    if has {
      var added := seen.Add(v);
      if added { r' := r + [v]; }
    }
  }

  lemma KeptNone(a: seq<int>, b: seq<int>)
    requires a == []
    ensures Uniq(Kept(a, b)) == []
  {
  }

  lemma KeptUniqStep(a: seq<int>, b: seq<int>, i: nat)
    requires i < |a|
    ensures var u := Uniq(Kept(a[..i], b));
      Uniq(Kept(a[..i + 1], b)) == if a[i] in b && a[i] !in u then u + [a[i]] else u
  {
    var k := Kept(a[..i], b);
    KeptStep(a, b, i);
    if a[i] in b {
      assert (k + [a[i]])[..|k|] == k;
    } else {
      assert k + [] == k;
    }
  }

  /** sp_IntArray_difference without nils. */
  method DifferenceValues(a: seq<int>, b: seq<int>) returns (r: seq<int>)
    ensures r == Without(a, b)
  {
    r := [];
    if Hashes(|b|, |a|) {
      var inB := SetOf(b);
      for i := 0 to |a|
        invariant inB.Valid() && forall v :: inB.Has(v) <==> v in b
        invariant r == Without(a[..i], b)
      {
        KeptStep(a, b, i);
        var has := inB.Contains(a[i]);
        if !has { r := r + [a[i]]; }
      }
    } else {
      for i := 0 to |a|
        invariant r == Without(a[..i], b)
      {
        KeptStep(a, b, i);
        var has := Include(b, a[i]);
        if !has { r := r + [a[i]]; }
      }
    }
    assert a[..|a|] == a;
  }

  /** sp_IntArray_uniq_bang without nils: in place, the kept prefix grows behind the scan. */
  method UniqInPlace(d: array<int>) returns (w: nat)
    modifies d
    ensures w <= d.Length && d[..w] == Uniq(old(d[..]))
  {
    if d.Length <= LINEAR {
      w := UniqScan(d);
    } else {
      w := UniqHashed(d);
    }
  }

  method UniqScan(d: array<int>) returns (w: nat)
    modifies d
    ensures w <= d.Length && d[..w] == Uniq(old(d[..]))
  {
    hide Firsts;
    w := 0;
    ghost var s := d[..];
    FirstsNone([], s[..0]);
    for i := 0 to d.Length
      invariant w <= i && d[..w] == Firsts([], s[..i]) && d[i..] == s[i..]
    {
      FirstsStep([], s, i);
      assert d[i] == d[i..][0] == s[i];
      var found := Include(d[..w], d[i]);
      if !found { w := PutNext(d, w, i); }
      assert d[i + 1..] == s[i + 1..];
    }
    assert s[..d.Length] == s;
  }

  method UniqHashed(d: array<int>) returns (w: nat)
    modifies d
    ensures w <= d.Length && d[..w] == Uniq(old(d[..]))
  {
    hide Count, Firsts, Holds;
    w := 0;
    ghost var s := d[..];
    FirstsNone([], s[..0]);
    var t := new IntSet(d.Length);
    for i := 0 to d.Length
      invariant w <= i && d[..w] == Firsts([], s[..i]) && d[i..] == s[i..]
      invariant fresh(t) && t.Valid() && |t.used| >= 2 * d.Length && Count(t.used) <= i
      invariant forall v :: t.Has(v) <==> v in d[..w]
      modifies t, d
    {
      FirstsStep([], s, i);
      assert d[i] == d[i..][0] == s[i];
      var added := t.Add(d[i]);
      if added { w := PutNext(d, w, i); }
      assert d[i + 1..] == s[i + 1..];
    }
    assert s[..d.Length] == s;
  }

  /** d[w++] = d[i]. */
  method PutNext(d: array<int>, w: nat, i: nat) returns (w': nat)
    requires w <= i < d.Length
    modifies d
    ensures w' == w + 1 && d[..w'] == old(d[..w]) + [old(d[i])] && d[i + 1..] == old(d[i + 1..])
  {
    d[w] := d[i];
    w' := w + 1;
  }
}
