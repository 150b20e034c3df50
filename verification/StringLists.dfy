/**
  The string lists as they are in memory (lib/sp_alloc.c:852-903, 978-1024 and
  1091-1250, single-threaded build): headers linked by `next`, rewired and their
  mark bytes reset while the sweeps walk them.
 */
module StringLists {
  import opened StringHeap

  /** sp_str_hdr with the tag byte that follows it. */
  class Header {
    const id: int
    const size: nat
    var tag: int
    var next: Header?

    constructor (id: int, size: nat, tag: int, next: Header?)
      ensures this.id == id && this.size == size && this.tag == tag && this.next == next
    {
      this.id, this.size, this.tag, this.next := id, size, tag, next;
    }

    function Read(): Str
      reads this
    {
      Str(id, size, tag)
    }
  }

  /** ns are the headers reached from head, in order, each once. */
  ghost predicate Linked(head: Header?, ns: seq<Header>)
    reads ns
  {
    && head == First(ns)
    && (forall i :: 0 <= i < |ns| ==> ns[i].next == First(ns[i + 1..]))
    && Distinct(ns)
  }

  ghost predicate Distinct(ns: seq<Header>) {
    forall i, j :: 0 <= i < j < |ns| ==> ns[i] != ns[j]
  }

  ghost function First(ns: seq<Header>): Header? {
    if ns == [] then null else ns[0]
  }

  ghost function Strings(ns: seq<Header>): (s: seq<Str>)
    reads ns
    ensures |s| == |ns| && forall i :: 0 <= i < |ns| ==> s[i] == ns[i].Read()
  {
    seq(|ns|, i requires 0 <= i < |ns| reads ns => ns[i].Read())
  }

  /** Header h unlinked nodes hold the strings they held. */
  ghost predicate Within(ks: seq<Header>, ns: seq<Header>) {
    forall h :: h in ks ==> h in ns
  }

  /** A survivor unmarked and put in front of a list. */
  method KeepFront(h: Header, keep: Header?, ghost ks: seq<Header>)
    requires Linked(keep, ks) && h !in ks
    modifies h
    ensures Linked(h, [h] + ks) && Strings([h] + ks) == [Unmarked(old(h.Read()))] + old(Strings(ks))
  {
    hide Linked, Strings, Distinct, Unmarked;
    ghost var K, was := Strings(ks), h.Read();
    h.tag := Unmarked(h.Read()).tag;
    h.next := keep;
    assert Linked(keep, ks) && Strings(ks) == K;
    LinkFront(h, ks);
    StringsAppend([h], ks);
    Shown(h, was);
    OneString(h);
  }

  lemma OneString(h: Header)
    ensures Strings([h]) == [h.Read()]
  {
  }

  lemma EmptyHead(head: Header?, ns: seq<Header>)
    requires Linked(head, ns)
    ensures head == null <==> ns == []
  {
  }

  lemma RestFirst(ns: seq<Header>, i: nat)
    requires i < |ns|
    ensures First(ns[i..]) == ns[i]
  {
  }

  /** The headers from position i on are as the sweep found them. */
  ghost predicate Unvisited(ns: seq<Header>, S: seq<Str>, i: nat)
    reads ns
  {
    && |S| == |ns|
    && forall j :: i <= j < |ns| ==> ns[j].next == First(ns[j + 1..]) && ns[j].Read() == S[j]
  }

  ghost function Last(ns: seq<Header>): Header? {
    if ns == [] then null else ns[|ns| - 1]
  }

  /** One header of the young walk: kept in front, or freed. */
  method YoungStep(h: Header, keep: Header?, tail: Header?, ghost ns: seq<Header>, ghost S: seq<Str>, ghost i: nat,
      ghost ks: seq<Header>)
      returns (next: Header?, keep': Header?, tail': Header?, ghost ks': seq<Header>)
    requires i < |ns| && h == ns[i] && Unvisited(ns, S, i) && h !in ns[i + 1..] && h !in ks
    requires Linked(keep, ks) && tail == Last(ks)
    modifies h
    ensures next == First(ns[i + 1..]) && Unvisited(ns, S, i + 1)
    ensures Linked(keep', ks') && tail' == Last(ks') && ks' == (if Survives(S[i]) then [h] + ks else ks)
    ensures Strings(ks') == (if Survives(S[i]) then [Unmarked(S[i])] else []) + old(Strings(ks))
  {
    hide Survives, Unmarked, Linked;
    forall j | i + 1 <= j < |ns| ensures ns[j] != h {
      assert ns[j] == ns[i + 1..][j - i - 1];
    }
    next, keep', tail', ks' := h.next, keep, tail, ks;
    assert [] + Strings(ks) == Strings(ks);
    if Survives(h.Read()) {
      EmptyHead(keep, ks);
      KeepFront(h, keep, ks);
      if keep == null { tail' := h; }
      keep', ks' := h, [h] + ks;
    }
  }

  /** sp_str_sweep_young: the survivors go to the front of a new list, one by one. */
  method SweepYoung(head: Header?, ghost ns: seq<Header>)
      returns (keep: Header?, tail: Header?, moved: nat, held: nat, ghost ks: seq<Header>)
    requires Linked(head, ns)
    modifies ns
    ensures Linked(keep, ks) && Within(ks, ns) && tail == Last(ks)
    ensures Strings(ks) == Reverse(Kept(old(Strings(ns)))) && moved == Total(Strings(ks))
      && held == Total(old(Strings(ns)))
  {
    hide Kept, Total, Reverse, Survives, Unmarked, Linked, Unvisited, Distinct, Within, Strings;
    ghost var S := Strings(ns);
    var h := head;
    keep, tail, moved, held, ks := null, null, 0, 0, [];
    ghost var i := 0;
    YoungStart(head, ns);
    while h != null
      invariant 0 <= i <= |ns| && Distinct(ns) && |S| == |ns|
      invariant YoungWalk(ns, S, i, h, keep, tail, ks) && moved == Total(Strings(ks)) && held == Total(S[..i])
      decreases |ns| - i
    {
      YoungAt(ns, S, i, h, keep, tail, ks);
      KeptOn(S, i);
      held := held + h.size;
      if Survives(h.Read()) { moved := moved + h.size; }
      h, keep, tail, ks := YoungStep(h, keep, tail, ns, S, i, ks);
      i := i + 1;
    }
    YoungDone(ns, S, i, keep, tail, ks);
  }

  /** The young walk before header i: the survivors so far, in front order. */
  ghost predicate YoungWalk(ns: seq<Header>, S: seq<Str>, i: nat, h: Header?, keep: Header?, tail: Header?,
      ks: seq<Header>)
    requires i <= |ns| && |S| == |ns|
    reads ns, ks
  {
    && h == First(ns[i..]) && Unvisited(ns, S, i) && Linked(keep, ks) && Within(ks, ns[..i]) && tail == Last(ks)
    && Strings(ks) == Reverse(Kept(S[..i]))
  }

  lemma YoungStart(head: Header?, ns: seq<Header>)
    requires Linked(head, ns)
    ensures Distinct(ns) && YoungWalk(ns, Strings(ns), 0, head, null, null, []) && Total(Strings([])) == 0
      && Total(Strings(ns)[..0]) == 0
  {
    NoneYet(Strings(ns)[..0]);
    assert ns[0..] == ns;
  }

  lemma YoungAt(ns: seq<Header>, S: seq<Str>, i: nat, h: Header?, keep: Header?, tail: Header?, ks: seq<Header>)
    requires i <= |ns| && |S| == |ns| && YoungWalk(ns, S, i, h, keep, tail, ks) && h != null && Distinct(ns)
    ensures i < |ns| && h == ns[i] && h.Read() == S[i] && h !in ks && h !in ns[i + 1..]
    ensures Within(ks, ns[..i + 1]) && Within([ns[i]] + ks, ns[..i + 1])
  {
    hide Linked, Kept, Reverse;
    assert i < |ns|;
    RestFirst(ns, i);
    OnceOnly(ns, i, ns[i], ks);
  }

  lemma YoungDone(ns: seq<Header>, S: seq<Str>, i: nat, keep: Header?, tail: Header?, ks: seq<Header>)
    requires i <= |ns| && |S| == |ns| && YoungWalk(ns, S, i, null, keep, tail, ks)
    ensures i == |ns| && S[..i] == S && Linked(keep, ks) && Within(ks, ns) && tail == Last(ks)
      && Strings(ks) == Reverse(Kept(S))
  {
    hide Linked, Kept, Reverse;
    assert i == |ns|;
    assert S[..i] == S && ns[..i] == ns;
  }

  lemma OnceOnly(ns: seq<Header>, i: nat, h: Header, ks: seq<Header>)
    requires i < |ns| && h == ns[i] && Within(ks, ns[..i]) && Distinct(ns)
    ensures h !in ks && h !in ns[i + 1..] && Within(ks, ns[..i + 1]) && Within([h] + ks, ns[..i + 1])
  {
    assert forall g :: g in ns[..i] ==> g in ns[..i + 1];
    assert ns[..i + 1][i] == h;
  }

  /** What one more string adds to the survivors, in front order, and to the bytes. */
  lemma KeptOn(S: seq<Str>, i: nat)
    requires i < |S|
    ensures Reverse(Kept(S[..i + 1])) == (if Survives(S[i]) then [Unmarked(S[i])] else []) + Reverse(Kept(S[..i]))
    ensures Total(Reverse(Kept(S[..i + 1]))) == Total(Reverse(Kept(S[..i]))) + if Survives(S[i]) then S[i].size else 0
    ensures Total(S[..i + 1]) == Total(S[..i]) + S[i].size
  {
    hide Kept, Total, Reverse, Survives, Unmarked;
    KeptStep(S, i);
    PushedFront(Kept(S[..i]), Unmarked(S[i]));
    UnmarkedSize(S[i]);
    assert Kept(S[..i]) + [] == Kept(S[..i]);
    assert [] + Reverse(Kept(S[..i])) == Reverse(Kept(S[..i]));
  }

  lemma NoneYet(s: seq<Str>)
    requires s == []
    ensures Reverse(Kept(s)) == [] && Total(s) == 0
  {
  }

  lemma UnmarkedSize(s: Str)
    ensures Unmarked(s).size == s.size
  {
  }

  lemma PushedFront(k: seq<Str>, s: Str)
    ensures Reverse(k + [s]) == [s] + Reverse(k) && Total([s] + Reverse(k)) == s.size + Total(Reverse(k))
  {
    TotalAppend([s], Reverse(k));
    assert [s][..0] == [];
  }

  // ----- the old list, in place -----

  /** The old walk before header i: the list is the survivors so far and everything not yet visited. */
  ghost predicate OldWalk(ns: seq<Header>, S: seq<Str>, i: nat, head: Header?, prev: Header?, ks: seq<Header>)
    requires i <= |ns| && |S| == |ns|
    reads ns, ks
  {
    && Linked(head, ks + ns[i..]) && Within(ks, ns[..i]) && prev == Last(ks)
    && Strings(ks) == Kept(S[..i]) && Strings(ns[i..]) == S[i..]
  }

  lemma OldStart(head: Header?, ns: seq<Header>)
    requires Linked(head, ns)
    ensures OldWalk(ns, Strings(ns), 0, head, null, [])
  {
    assert [] + ns[0..] == ns && ns[0..] == ns;
  }

  /** What *pp reads: the header to visit, or null at the end. */
  lemma OldAt(ns: seq<Header>, S: seq<Str>, i: nat, head: Header?, prev: Header?, ks: seq<Header>)
    requires i <= |ns| && |S| == |ns| && OldWalk(ns, S, i, head, prev, ks)
    ensures (if prev == null then head else prev.next) == First(ns[i..])
    ensures i < |ns| ==> First(ns[i..]) == ns[i] && ns[i].Read() == S[i] && ns[i].next == First(ns[i + 1..])
  {
    hide Kept, Distinct, Within;
    var L := ks + ns[i..];
    if ks != [] {
      assert L[|ks| - 1] == prev && L[|ks|..] == ns[i..];
    } else {
      assert L == ns[i..];
    }
    if i < |ns| {
      assert L[|ks|] == ns[i] && L[|ks| + 1..] == ns[i + 1..];
      assert Strings(ns[i..])[0] == S[i..][0];
    }
  }

  /** A survivor unmarked where it is. */
  method OldKeep(h: Header, ghost ns: seq<Header>, ghost S: seq<Str>, ghost i: nat, ghost head: Header?,
      ghost prev: Header?, ghost ks: seq<Header>)
    requires i < |ns| && |S| == |ns| && OldWalk(ns, S, i, head, prev, ks) && h == ns[i] && Survives(S[i])
    modifies h
    ensures OldWalk(ns, S, i + 1, head, h, ks + [h])
  {
    hide Survives, Unmarked, Kept, Total;
    OldAt(ns, S, i, head, prev, ks);
    Apart(ns, i, ks);
    KeptStep(S, i);
    ghost var K := Strings(ks);
    h.tag := Unmarked(h.Read()).tag;
    assert ks + ns[i..] == (ks + [h]) + ns[i + 1..];
    assert Strings(ks) == K;
    assert Strings(ks + [h]) == Strings(ks) + [h.Read()];
    assert S[i..][1..] == S[i + 1..];
    assert Strings(ns[i + 1..]) == S[i + 1..];
    Shown(h, S[i]);
  }

  lemma Shown(h: Header, s: Str)
    requires h.id == s.id && h.size == s.size && h.tag == Unmarked(s).tag
    ensures h.Read() == Unmarked(s)
  {
  }

  /** The header to visit is in neither part of the list around it. */
  lemma Apart(ns: seq<Header>, i: nat, ks: seq<Header>)
    requires i < |ns| && Distinct(ks + ns[i..]) && Within(ks, ns[..i])
    ensures ns[i] !in ks && ns[i] !in ns[i + 1..] && Within(ks, ns[..i + 1]) && Within(ks + [ns[i]], ns[..i + 1])
    ensures Distinct(ks + ns[i + 1..])
  {
    var L := ks + ns[i..];
    assert L[|ks|] == ns[i];
    forall j | 0 <= j < |ks| ensures ks[j] != ns[i] { assert L[j] == ks[j]; }
    forall j | i + 1 <= j < |ns| ensures ns[j] != ns[i] { assert L[|ks| + j - i] == ns[j]; }
    assert forall g :: g in ns[..i] ==> g in ns[..i + 1];
    assert ns[..i + 1][i] == ns[i];
    var M := ks + ns[i + 1..];
    forall j, k | 0 <= j < k < |M| ensures M[j] != M[k] {
      assert M[j] == L[if j < |ks| then j else j + 1] && M[k] == L[if k < |ks| then k else k + 1];
    }
  }

  lemma JoinDistinct(a: seq<Header>, b: seq<Header>)
    requires Distinct(a) && Distinct(b) && forall h :: h in a ==> h !in b
    ensures Distinct(a + b)
  {
    var L := a + b;
    forall i, j | 0 <= i < j < |L| ensures L[i] != L[j] {
      if i < |a| <= j { assert L[i] in a && L[j] in b; }
    }
  }

  lemma NotLast(ns: seq<Header>, j: nat)
    requires Distinct(ns) && j < |ns| - 1
    ensures ns[j] != ns[|ns| - 1]
  {
  }

  /** Every header but the last points at the next one, the last one at head. */
  ghost predicate Chained(ks: seq<Header>, head: Header?)
    reads ks
  {
    && (forall i :: 0 <= i < |ks| - 1 ==> ks[i].next == ks[i + 1])
    && (ks != [] ==> ks[|ks| - 1].next == head)
  }

  lemma JoinLinked(ks: seq<Header>, os: seq<Header>, head: Header?)
    requires Chained(ks, head) && Linked(head, os) && Distinct(ks) && forall h :: h in ks ==> h !in os
    ensures Linked(First(ks + os), ks + os)
  {
    JoinDistinct(ks, os);
    hide Distinct;
    var L := ks + os;
    forall j | 0 <= j < |L| ensures L[j].next == First(L[j + 1..]) {
      if j + 1 < |ks| {
        assert ks[j].next == ks[j + 1];
        assert L[j + 1..][0] == ks[j + 1];
      } else if j + 1 == |ks| {
        assert ks[j].next == head;
        assert L[j + 1..] == os;
      } else {
        var k := j - |ks|;
        assert os[k].next == First(os[k + 1..]);
        assert L[j + 1..] == os[k + 1..];
      }
    }
  }

  /** A header in front of the list it points at. */
  lemma LinkFront(h: Header, ks: seq<Header>)
    requires Linked(h.next, ks) && h !in ks
    ensures Linked(h, [h] + ks)
  {
    JoinLinked([h], ks, h.next);
  }

  /** The last header of a chain pointed at another list. */
  method Relink(tail: Header, target: Header?, ghost ks: seq<Header>, ghost os: seq<Header>, ghost was: Header?)
    requires Chained(ks, was) && Distinct(ks) && tail == Last(ks) && Linked(target, os)
    requires forall h :: h in ks ==> h !in os
    modifies tail
    ensures Chained(ks, target) && Linked(target, os)
    ensures Strings(ks) == old(Strings(ks)) && Strings(os) == old(Strings(os))
  {
    ghost var K, O := Strings(ks), Strings(os);
    forall i | 0 <= i < |ks| - 1 ensures ks[i] != tail { NotLast(ks, i); }
    hide Distinct, Linked;
    assert tail == ks[|ks| - 1] && tail in ks;
    tail.next := target;
    assert Strings(ks) == K;
    assert Strings(os) == O && Linked(target, os);
  }

  /** The two parts of a list. */
  lemma SplitLinked(head: Header?, ks: seq<Header>, os: seq<Header>)
    requires Linked(head, ks + os)
    ensures Chained(ks, First(os)) && Linked(First(os), os) && Distinct(ks) && forall h :: h in ks ==> h !in os
    ensures ks != [] ==> head == First(ks)
  {
    var L := ks + os;
    forall i | 0 <= i < |ks| - 1 ensures ks[i].next == ks[i + 1] {
      assert L[i] == ks[i] && L[i + 1..][0] == ks[i + 1];
    }
    if ks != [] {
      assert L[|ks| - 1] == ks[|ks| - 1] && L[|ks|..] == os;
    }
    forall i | 0 <= i < |os| ensures os[i].next == First(os[i + 1..]) {
      assert L[|ks| + i] == os[i] && L[|ks| + i + 1..] == os[i + 1..];
    }
    forall i, j | 0 <= i < j < |os| ensures os[i] != os[j] {
      assert L[|ks| + i] == os[i] && L[|ks| + j] == os[j];
    }
    forall i, j | 0 <= i < j < |ks| ensures ks[i] != ks[j] {
      assert L[i] == ks[i] && L[j] == ks[j];
    }
    forall i, j | 0 <= i < |ks| && 0 <= j < |os| ensures ks[i] != os[j] {
      assert L[i] == ks[i] && L[|ks| + j] == os[j];
    }
  }

  /** A dead header taken out: *pp = h->next. */
  method OldFree(h: Header, head: Header?, prev: Header?, ghost ns: seq<Header>, ghost S: seq<Str>, ghost i: nat,
      ghost ks: seq<Header>)
      returns (head': Header?)
    requires i < |ns| && |S| == |ns| && OldWalk(ns, S, i, head, prev, ks) && h == ns[i] && !Survives(S[i])
    modifies prev
    ensures OldWalk(ns, S, i + 1, head', prev, ks)
  {
    hide Survives, Unmarked, Kept, Total, Distinct;
    OldAt(ns, S, i, head, prev, ks);
    Apart(ns, i, ks);
    KeptStep(S, i);
    ghost var os := ns[i + 1..];
    assert Strings(os) == S[i..][1..];
    assert ks + ns[i..] == (ks + [h]) + os;
    SplitLinked(head, ks, ns[i..]);
    SplitLinked(head, ks + [h], os);
    assert forall g :: g in ks ==> g in ks + [h];
    head' := head;
    if prev == null {
      head' := h.next;
    } else {
      Relink(prev, h.next, ks, os, h);
    }
    JoinLinked(ks, os, First(os));
    assert ks == [] ==> ks + os == os;
    assert S[i..][1..] == S[i + 1..];
  }

  /** sp_str_sweep_old: dead headers unlinked, survivors unmarked where they are. */
  method SweepOld(head0: Header?, bytes: nat, ghost ns: seq<Header>)
      returns (head: Header?, left: nat, ghost ks: seq<Header>)
    requires Linked(head0, ns) && bytes == Total(Strings(ns))
    modifies ns
    ensures Linked(head, ks) && Within(ks, ns) && Strings(ks) == Kept(old(Strings(ns))) && left == Total(Strings(ks))
  {
    hide Kept, Total, Survives, Unmarked, Linked, Within, Strings, Distinct;
    ghost var S := Strings(ns);
    OldStart(head0, ns);
    head, left, ks := head0, bytes, [];
    var prev: Header? := null;
    ghost var i := 0;
    NoBytes(S[..0]);
    while (if prev == null then head else prev.next) != null
      invariant 0 <= i <= |ns| && |S| == |ns| && OldWalk(ns, S, i, head, prev, ks)
      invariant prev != null ==> prev in ns
      invariant Total(S[..i]) <= bytes && left == Total(Kept(S[..i])) + (bytes - Total(S[..i])) && bytes == Total(S)
      decreases |ns| - i
    {
      OldAt(ns, S, i, head, prev, ks);
      assert i < |ns|;
      var h: Header := if prev == null then head else prev.next;
      KeptStep(S, i);
      TotalPrefix(S, i + 1);
      KeptTotal(Kept(S[..i]), S[i]);
      if Survives(h.Read()) {
        OldKeep(h, ns, S, i, head, prev, ks);
        prev, ks := h, ks + [h];
      } else {
        head := OldFree(h, head, prev, ns, S, i, ks);
        left := left - h.size;
      }
      i := i + 1;
    }
    OldAt(ns, S, i, head, prev, ks);
    OldDone(ns, S, i, head, prev, ks);
  }

  lemma NoBytes(s: seq<Str>)
    requires s == []
    ensures Total(s) == 0 && Kept(s) == []
  {
  }

  lemma KeptTotal(k: seq<Str>, s: Str)
    ensures Total(k + [Unmarked(s)]) == Total(k) + s.size && k + [] == k
  {
    TotalAppend(k, [Unmarked(s)]);
    assert [Unmarked(s)][..0] == [];
  }

  lemma OldDone(ns: seq<Header>, S: seq<Str>, i: nat, head: Header?, prev: Header?, ks: seq<Header>)
    requires i <= |ns| && |S| == |ns| && OldWalk(ns, S, i, head, prev, ks) && First(ns[i..]) == null
    ensures i == |ns| && S[..i] == S && Linked(head, ks) && Within(ks, ns) && Strings(ks) == Kept(S)
  {
    hide Kept, Distinct, Within;
    assert i == |ns|;
    assert ks + ns[i..] == ks && S[..i] == S && ns[..i] == ns;
  }

  lemma LinkedChain(head: Header?, ks: seq<Header>)
    requires Linked(head, ks)
    ensures Chained(ks, null) && Distinct(ks) && head == First(ks)
  {
    forall i | 0 <= i < |ks| - 1 ensures ks[i].next == ks[i + 1] {
      assert ks[i + 1..][0] == ks[i + 1];
    }
  }

  lemma StringsAppend(a: seq<Header>, b: seq<Header>)
    ensures Strings(a + b) == Strings(a) + Strings(b)
  {
  }

  /** sp_str_sweep_young_apply: the survivors' tail takes the old list. */
  method Join(keep: Header?, tail: Header?, older: Header?, ghost ks: seq<Header>, ghost os: seq<Header>)
      returns (head: Header?)
    requires Linked(keep, ks) && tail == Last(ks) && Linked(older, os) && forall h :: h in ks ==> h !in os
    modifies tail
    ensures Linked(head, ks + os) && Strings(ks + os) == old(Strings(ks)) + old(Strings(os))
  {
    hide Distinct;
    LinkedChain(keep, ks);
    StringsAppend(ks, os);
    head := older;
    if keep != null {
      Relink(tail, older, ks, os, null);
      head := keep;
      JoinLinked(ks, os, older);
      StringsAppend(ks, os);
    } else {
      assert ks + os == os;
    }
  }

  lemma NothingLinked()
    ensures Linked(null, []) && Strings([]) == []
  {
  }

  /** The young list swept and its survivors put in front of the old list. */
  method PromoteList(young: Header?, older: Header?, ghost ys: seq<Header>, ghost os: seq<Header>)
      returns (head: Header?, moved: nat, ghost ks: seq<Header>)
    requires Linked(young, ys) && Linked(older, os) && forall h :: h in ys ==> h !in os
    modifies ys
    ensures Linked(head, ks + os) && Within(ks, ys)
    ensures Strings(ks + os) == Reverse(Kept(old(Strings(ys)))) + old(Strings(os))
      && moved == Total(Reverse(Kept(old(Strings(ys)))))
  {
    hide Kept, Total, Reverse, Distinct;
    ghost var O := Strings(os);
    assert forall i :: 0 <= i < |os| ==> os[i] in os && os[i] !in ys;
    var keep, tail, held;
    keep, tail, moved, held, ks := SweepYoung(young, ys);
    assert Linked(older, os) && Strings(os) == O;
    assert tail != null ==> tail in ks;
    head := Join(keep, tail, older, ks, os);
  }

  // ----- the process -----

  /** The two lists and the schedule of one process, in the single-threaded build. */
  class Lists {
    const cf: Config
    var young: Header?
    var older: Header?
    var oldBytes: nat
    var cycle: nat
    var interval: nat
    var threshold: nat
    var forced: bool
    var gateOld: nat
    ghost var youngs: seq<Header>
    ghost var olds: seq<Header>

    /** The lists are well formed and share no header. */
    ghost predicate Formed()
      reads this, youngs, olds
    {
      Linked(young, youngs) && Linked(older, olds) && forall h :: h in youngs ==> h !in olds
    }

    ghost function Now(): State
      reads this, youngs, olds
    {
      State(Strings(youngs), Strings(olds), oldBytes, cycle, interval, threshold)
    }

    constructor (config: Config)
      ensures Formed() && Now() == State([], [], 0, 0, INTERVAL, config.floor) && Valid(Now()) && cf == config
    {
      cf := config;
      young, older, oldBytes, cycle, interval, threshold := null, null, 0, 0, INTERVAL, config.floor;
      forced, gateOld := false, 0;
      youngs, olds := [], [];
    }

    /** A new string goes to the front of the young list. */
    method Allocate(s: Str)
      requires Formed() && interval > 0
      modifies this`young, this`youngs
      ensures Formed() && Now() == Next(old(Now()), cf, Alloc(s))
      ensures fresh(young) && youngs == [young] + old(youngs)
    {
      hide Linked, Strings, Distinct;
      ghost var ks := youngs;
      var h := new Header(s.id, s.size, s.tag, young);
      OneString(h);
      young := h;
      youngs := [h] + youngs;
      LinkFront(h, ks);
      StringsAppend([h], ks);
    }

    /** sp_str_sweep_begin. */
    method Begin(c: Cycle) returns (run: bool, major: bool)
      requires interval > 0
      modifies this`cycle, this`forced, this`gateOld
      ensures run == c.over && (run ==> major == Scheduled(old(Now()), cf, c))
      ensures cycle == if run && cf.sched then (old(cycle) + 1) % 0x1_0000_0000 else old(cycle)
      ensures run ==> gateOld == c.slabBefore + oldBytes
      ensures run && cf.sched && major ==> forced == !OnSchedule(old(Now()))
    {
      if !c.over { return false, false; }
      gateOld := c.slabBefore + oldBytes;
      if !cf.sched {
        major := c.slabBefore + oldBytes > threshold;
      } else {
        var sched := cycle % interval == 0;
        cycle := (cycle + 1) % 0x1_0000_0000;
        forced := false;
        if !sched && c.slabBefore + oldBytes > threshold {
          sched := true;
          forced := true;
        }
        major := sched;
      }
      return true, major;
    }

    /** sp_str_sweep_gen: the old list on a major, then the young survivors spliced in front of it. */
    method SweepGen(major: bool) returns (promoted: nat)
      requires Formed() && Valid(Now())
      modifies this`young, this`older, this`oldBytes, this`youngs, this`olds, youngs, olds
      ensures Formed() && Now() == Swept(old(Now()), major) && promoted == Total(Kept(old(Now().young)))
      ensures Within(olds, old(youngs) + old(olds)) && youngs == []
    {
      hide Kept, Total, Reverse, Linked, Strings, Distinct;
      if major { SweepOlds(); }
      promoted := Promote();
    }

    method SweepOlds()
      requires Formed() && oldBytes == Total(Strings(olds))
      modifies this`older, this`oldBytes, this`olds, olds
      ensures Formed() && Strings(olds) == Kept(old(Strings(olds))) && oldBytes == Total(Strings(olds))
      ensures Strings(youngs) == old(Strings(youngs)) && Within(olds, old(olds))
    {
      hide Kept, Total, Linked, Strings, Distinct;
      ghost var Y := Strings(youngs);
      assert forall i :: 0 <= i < |youngs| ==> youngs[i] in youngs && youngs[i] !in olds;
      older, oldBytes, olds := SweepOld(older, oldBytes, olds);
      assert Strings(youngs) == Y && Linked(young, youngs);
    }

    /** sp_str_sweep_young_into. */
    method Promote() returns (moved: nat)
      requires Formed() && oldBytes == Total(Strings(olds))
      modifies this`young, this`older, this`oldBytes, this`youngs, this`olds, youngs
      ensures Formed() && youngs == [] && oldBytes == Total(Strings(olds)) && moved == Total(Kept(old(Strings(youngs))))
      ensures Strings(olds) == Reverse(Kept(old(Strings(youngs)))) + old(Strings(olds))
      ensures Within(olds, old(youngs) + old(olds))
    {
      hide Kept, Total, Reverse, Distinct, Linked, Strings;
      ghost var O, Y := Strings(olds), Strings(youngs);
      ghost var ks;
      older, moved, ks := PromoteList(young, older, youngs, olds);
      TotalReverse(Kept(Y));
      TotalAppend(Reverse(Kept(Y)), O);
      NothingLinked();
      young, youngs, olds := null, [], ks + olds;
      oldBytes := oldBytes + moved;
    }

    /** sp_str_sweep_end: the backstop and the interval, re-aimed by a major. */
    method End(major: bool, promoted: nat, c: Cycle)
      modifies this`threshold, this`interval
      ensures var kept := KeptBytes(c.slabAfter + oldBytes, promoted + c.slabPromoted);
        && threshold == (if major && !cf.fixed then Backstop(kept, cf.floor) else old(threshold))
        && interval == if major && !cf.fixed && cf.sched then Adapted(old(interval), forced, gateOld, kept)
          else old(interval)
      ensures GoodInterval(old(interval)) ==>
        GoodInterval(interval) && interval <= 2 * old(interval) && old(interval) <= 2 * interval
      ensures major && !cf.fixed ==> threshold >= cf.floor
    {
      if major {
        var after, moved := c.slabAfter + oldBytes, promoted + c.slabPromoted;
        var kept := if after > moved then after - moved else 0;
        if !cf.fixed {
          threshold := SatMul(kept, 2);
          if threshold < cf.floor { threshold := cf.floor; }
          if cf.sched {
            if forced {
              if interval > INTERVAL { interval := interval / 2; }
            } else if gateOld > 0 {
              if kept > gateOld - gateOld / 4 {
                if interval < INTERVAL_MAX { interval := interval * 2; }
              } else if kept < gateOld / 2 {
                if interval > INTERVAL { interval := interval / 2; }
              }
            }
          }
        }
      }
    }

    /** sp_str_sweep_gated. */
    method SweepGated(c: Cycle) returns (major: bool)
      requires Formed() && Valid(Now())
      modifies this, youngs, olds
      ensures Formed() && Valid(Now()) && Now() == Collected(old(Now()), cf, c) && major == IsMajor(old(Now()), cf, c)
    {
      hide Kept, Total, Reverse, SatMul, Linked, Strings, Distinct, Adapted, Backstop, KeptBytes;
      var run;
      run, major := Begin(c);
      if !run { return false; }
      if c.minorOnly { major := false; }
      var promoted := SweepGen(major);
      End(major, promoted, c);
      CollectedValid(old(Now()), cf, c);
    }
  }
}
