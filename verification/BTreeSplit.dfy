/**
  Putting an entry with its left subtree into a node, splitting a node around its
  middle entry, and pushing the root down: what each does to the in-order list,
  the block numbers in use and the soundness of the picture.
*/
module BTreeSplit {
  import opened IndexBlock
  import opened BTreeShape
  import opened BTreeOrder
  import opened BTreeDirty

  /** `s` put before slot `p`. */
  function Ins(ss: seq<Slot>, p: nat, s: Slot): seq<Slot>
    requires p <= |ss|
  {
    ss[..p] + [s] + ss[p..]
  }

  lemma InsEnts(ss: seq<Slot>, p: nat, s: Slot)
    requires p <= |ss|
    ensures Ents(Ins(ss, p, s)) == Ents(ss)[..p] + [s.ent] + Ents(ss)[p..]
  {
  }

  lemma InsFlat(ss: seq<Slot>, p: nat, s: Slot)
    requires p <= |ss|
    ensures FlatS(Ins(ss, p, s)) == FlatS(ss[..p]) + FlatSlot(s) + FlatS(ss[p..])
  {
    FlatConcat(ss[..p] + [s], ss[p..]);
    FlatConcat(ss[..p], [s]);
    FlatOne(s);
  }

  lemma FootOne(s: Slot)
    ensures FootS([s]) == FootSlot(s)
  {
    assert FootS([s]) == FootSlot(s) + FootS([s][1..]);
  }

  lemma InsFoot(ss: seq<Slot>, p: nat, s: Slot)
    requires p <= |ss|
    ensures FootS(Ins(ss, p, s)) == FootS(ss) + FootSlot(s)
  {
    hide FootS, FootSlot;
    FootConcat(ss[..p] + [s], ss[p..]);
    FootConcat(ss[..p], [s]);
    FootConcat(ss[..p], ss[p..]);
    assert ss == ss[..p] + ss[p..];
    FootOne(s);
  }

  lemma InsAll(ss: seq<Slot>, p: nat, s: Slot, m: Heap, h: nat, dirty: bool)
    requires p <= |ss| && h >= 1
    ensures GoodSlots(m, ss, h) && GoodSlot(m, s, h) ==> GoodSlots(m, Ins(ss, p, s), h)
    ensures FullSlots(ss, h - 1) && FullSlot(s, h - 1) ==> FullSlots(Ins(ss, p, s), h - 1)
    ensures DirtySlots(ss, dirty) && DirtySlot(s, dirty) ==> DirtySlots(Ins(ss, p, s), dirty)
  {
  }

  /** An entry on its way into the node in focus, with the subtree left of it. */
  ghost predicate PendOk(m: Heap, ie: IndexEntry, lk: Node, h: nat) {
    && h >= 1 && EntryOk(ie, h >= 2) && !ie.isEnd
    && GoodSlot(m, Slot(Strip(ie), lk), h) && FullSlot(Slot(Strip(ie), lk), h - 1) && DirtyOk(lk)
  }

  // ----- inserting without a split -----

  function InsZip(z: Zip, p: nat, s: Slot): Zip
    requires z.focus.Node? && p <= |z.focus.slots|
  {
    z.(focus := z.focus.(slots := Ins(z.focus.slots, p, s)))
  }

  /** The in-order list once the pending entry and its subtree are in place before entry `p`. */
  ghost function WithPending(z: Zip, p: nat, s: Slot): seq<KV>
    requires z.focus.Node? && p <= |z.focus.slots|
  {
    Lead(z, p) + FlatSlot(s) + Tail(z, p)
  }

  lemma InsContents(z: Zip, p: nat, s: Slot)
    requires z.focus.Node? && p <= |z.focus.slots|
    ensures Contents(InsZip(z, p, s)) == WithPending(z, p, s)
    ensures Lead(InsZip(z, p, s), p) == Lead(z, p)
  {
    InsFlat(z.focus.slots, p, s);
    assert Ins(z.focus.slots, p, s)[..p] == z.focus.slots[..p];
    Sandwich(LeftOf(z.path), FlatS(z.focus.slots[..p]), FlatSlot(s), FlatS(z.focus.slots[p..]), RightOf(z.path));
  }

  lemma Sandwich<T>(l: seq<T>, a: seq<T>, s: seq<T>, b: seq<T>, r: seq<T>)
    ensures l + (a + s + b) + r == (l + a) + s + (b + r)
  {
  }

  lemma InsUsed(z: Zip, p: nat, s: Slot)
    requires z.focus.Node? && p <= |z.focus.slots|
    ensures Used(InsZip(z, p, s)) == Used(z) + Foot(s.kid)
  {
    InsFoot(z.focus.slots, p, s);
  }

  /** The heap after block `z.focus.vbn` was rewritten with new entries. */
  lemma InsOk(m: Heap, m': Heap, z: Zip, p: nat, s: Slot)
    requires ZipOk(m, z) && p < |z.focus.slots| && GoodSlot(m, s, z.h) && s.ent.Ent?
    requires Agree(m, m', FootS(z.focus.slots)) && Agree(m, m', FootP(z.path)) && Agree(m, m', Foot(s.kid))
    requires Holds(m', InsZip(z, p, s).focus)
    ensures ZipOk(m', InsZip(z, p, s))
  {
    var z' := InsZip(z, p, s);
    FocusFramed(m, m', z);
    SlotFramed(m, m', s, z.h);
    InsAll(z.focus.slots, p, s, m', z.h, true);
    SameChild(m', z.path, z.h, z.focus, z'.focus);
  }

  lemma FocusFramed(m: Heap, m': Heap, z: Zip)
    requires ZipOk(m, z) && Agree(m, m', FootS(z.focus.slots)) && Agree(m, m', FootP(z.path))
    ensures GoodSlots(m', z.focus.slots, z.h) && PathOk(m', z.path, z.h, z.focus)
  {
    assert GoodSlots(m, z.focus.slots, z.h);
    SlotsFramed(m, m', z.focus.slots, z.h);
    PathFramed(m, m', z.path, z.h, z.focus);
  }

  lemma InsSound(z: Zip, p: nat, s: Slot)
    requires FullZip(z) && DirtyZip(z) && p < |z.focus.slots|
    requires FullSlot(s, z.h - 1) && DirtyOk(s.kid) && (s.kid.Node? ==> z.focus.dirty)
    ensures FullZip(InsZip(z, p, s)) && DirtyZip(InsZip(z, p, s))
  {
    InsAll(z.focus.slots, p, s, map[], z.h, z.focus.dirty);
    DirtySameChild(z.path, z.focus, InsZip(z, p, s).focus);
  }

  // ----- the state of an insertion -----

  /** A sound table, but for an entry (and the subtree left of it) still to be placed at the cursor. */
  ghost predicate Inserting(m: Heap, z: Zip, p: int, ie: IndexEntry, lk: Node, free: set<Vbn>, all: set<Vbn>) {
    && ZipOk(m, z) && FullZip(z) && DirtyZip(z) && Owned(Used(z) + Foot(lk), free, all)
    && 0 <= p < |z.focus.slots| && PendOk(m, ie, lk, z.h) && (lk.Node? ==> z.focus.dirty)
  }

  /** The pending entry was inserted into its block: the table is whole again, but for dirtiness above. */
  lemma Placed(m: Heap, m': Heap, z: Zip, p: nat, ie: IndexEntry, lk: Node, free: set<Vbn>, all: set<Vbn>)
    requires Inserting(m, z, p, ie, lk, free, all) && z.focus.vbn in m'
    requires m' == m[z.focus.vbn := m[z.focus.vbn].(ib := m'[z.focus.vbn].ib)]
    requires var ib, ib' := m[z.focus.vbn].ib, m'[z.focus.vbn].ib;
             && Chained(ib') && ib'.large == ib.large && ib'.allocSize == ib.allocSize && ib'.realSize <= ib'.allocSize
             && View(ib') == View(ib)[..p] + [Strip(ie)] + View(ib)[p..]
    ensures var zi := InsZip(z, p, Slot(Strip(ie), lk));
            && ZipOk(m', zi) && FullZip(zi) && DirtyZip(zi) && Owned(Used(zi) + multiset{}, free, all)
            && Contents(zi) == WithPending(z, p, Slot(Strip(ie), lk)) && zi.focus.Node? && zi.focus.vbn == z.focus.vbn
            && |zi.focus.slots| == |z.focus.slots| + 1 && zi.path == z.path
  {
    hide FootS, FootP, FullPath, FullSlots, DirtyPath, GoodSlot, PathOk, GoodFrame, Owned, Foot, Agree, View, Flat;
    var s := Slot(Strip(ie), lk);
    FootNode(z.focus);
    Apart(FootP(z.path), z.focus.vbn, FootS(z.focus.slots), Foot(lk), free, all);
    InsEnts(z.focus.slots, p, s);
    InsUsed(z, p, s);
    assert Used(InsZip(z, p, s)) + multiset{} == Used(z) + Foot(lk);
    InsOk(m, m', z, p, s);
    InsSound(z, p, s);
    InsContents(z, p, s);
  }

  function RootSlots(path: Path, focus: Node): nat {
    match path
    case Top => if focus.Node? then |focus.slots| else 0
    case Up(above, f) => RootSlots(above, f.node)
  }

  /** Bounds the blocks an insertion may still take: a root with entries can be pushed down once. */
  function Measure(z: Zip): nat {
    Depth(z.path) + (if RootSlots(z.path, z.focus) <= 1 then 0 else 2)
  }

  lemma {:induction false} RePathRoot(p: Path, p': Path, n: Node, n': Node)
    requires RePath(p, p') && n.Node? && n'.Node? && |n.slots| == |n'.slots|
    ensures RootSlots(p', n') == RootSlots(p, n)
    decreases p
  {
    if p.Up? {
      RePathRoot(p.above, p'.above, p.f.node, p'.f.node);
    }
  }

  lemma PendFramed(m: Heap, m': Heap, ie: IndexEntry, lk: Node, h: nat)
    requires PendOk(m, ie, lk, h) && Agree(m, m', Foot(lk))
    ensures PendOk(m', ie, lk, h)
  {
    SlotFramed(m, m', Slot(Strip(ie), lk), h);
  }

  // ----- pushing the root down -----

  /** The root's entries in a new block `vbn`, the only child of an otherwise empty root. */
  function PushedDown(z: Zip, vbn: Vbn): Zip
    requires z.focus.Node?
  {
    var n := Node(vbn, z.focus.large, true, BLOCK_SIZE, z.focus.slots);
    Zip(z.path, z.focus.(large := true, slots := [Slot(End(vbn), n)]), z.h + 1)
  }

  lemma PushedDownOk(m: Heap, m': Heap, z: Zip, vbn: Vbn)
    requires ZipOk(m, z) && z.path.Top? && z.h < TREE_MAX_DEPTH
    requires Agree(m, m', FootS(z.focus.slots)) && vbn in m' && z.focus.vbn in m' && vbn != z.focus.vbn
    requires m'[vbn] == Cached(m[z.focus.vbn].ib.(allocSize := BLOCK_SIZE), true)
    requires m'[z.focus.vbn].dirty == z.focus.dirty && Chained(m'[z.focus.vbn].ib) && m'[z.focus.vbn].ib.large
    requires m'[z.focus.vbn].ib.allocSize == ROOT_SIZE && View(m'[z.focus.vbn].ib) == [End(vbn)]
    ensures ZipOk(m', PushedDown(z, vbn)) && DirtyPath(PushedDown(z, vbn).path, PushedDown(z, vbn).focus)
  {
    var z' := PushedDown(z, vbn);
    FocusFramed(m, m', z);
    assert Good(m', z'.focus.slots[0].kid, z.h);
    TotalLenOne(End(vbn), true);
    assert Ents(z'.focus.slots) == [End(vbn)];
    assert GoodSlots(m', z'.focus.slots, z'.h);
  }

  /** The writes of `reparent_root` before the root is made dirty. */
  lemma RootWritten(m: Heap, m': Heap, z: Zip, p: int, vbn: Vbn, ie: IndexEntry, lk: Node, free: set<Vbn>,
                    all: set<Vbn>)
    requires Inserting(m, z, p, ie, lk, free, all) && z.path.Top? && z.h < TREE_MAX_DEPTH && vbn in free
    requires z.focus.vbn in m && z.focus.vbn in m' && Chained(m'[z.focus.vbn].ib) && m'[z.focus.vbn].ib.large
    requires m'[z.focus.vbn].ib.allocSize == m[z.focus.vbn].ib.allocSize && View(m'[z.focus.vbn].ib) == [End(vbn)]
    requires m' == m[vbn := Cached(m[z.focus.vbn].ib.(allocSize := BLOCK_SIZE), true)]
                    [z.focus.vbn := m[z.focus.vbn].(ib := m'[z.focus.vbn].ib)]
    ensures ZipOk(m', PushedDown(z, vbn)) && DirtyPath(PushedDown(z, vbn).path, PushedDown(z, vbn).focus)
    ensures Owned(Used(PushedDown(z, vbn)) + Foot(lk), free - {vbn}, all)
    ensures PendOk(m', ie, lk, z.h) && |free - {vbn}| == |free| - 1
    ensures vbn != 0 && PushedDown(z, vbn).focus.Node? && PushedDown(z, vbn).focus.vbn == z.focus.vbn
    ensures PushedDown(z, vbn).path == z.path
  {
    FootNode(z.focus);
    Apart(FootP(z.path), z.focus.vbn, FootS(z.focus.slots), Foot(lk), free, all);
    PushedDownOk(m, m', z, vbn);
    PushedDownUsed(z, vbn, Foot(lk), free, all);
    PendFramed(m, m', ie, lk, z.h);
  }

  lemma PushedDownUsed(z: Zip, vbn: Vbn, held: multiset<Vbn>, free: set<Vbn>, all: set<Vbn>)
    requires z.focus.Node? && Owned(Used(z) + held, free, all) && vbn in free
    ensures Owned(Used(PushedDown(z, vbn)) + held, free - {vbn}, all)
    ensures Contents(PushedDown(z, vbn)) == Contents(z)
  {
    var n := PushedDown(z, vbn).focus.slots[0];
    FootOne(n);
    FlatOne(n);
    assert FlatSlot(n) == Flat(n.kid) + [];
    Taken(Used(z) + held, vbn, free, all);
    var f, s := FootP(z.path), FootS(z.focus.slots);
    assert f + (multiset{z.focus.vbn} + (multiset{vbn} + s)) + held
           == f + (multiset{z.focus.vbn} + s) + held + multiset{vbn};
  }

  /** A block number moves from the free ones to those in use. */
  lemma Taken(used: multiset<Vbn>, vbn: Vbn, free: set<Vbn>, all: set<Vbn>)
    requires Owned(used, free, all) && vbn in free
    ensures Owned(used + multiset{vbn}, free - {vbn}, all)
  {
    assert multiset(free - {vbn}) + multiset{vbn} == multiset(free);
    assert used + multiset{vbn} + multiset(free - {vbn}) == used + multiset(free);
  }

  /** The cursor goes down with the entries: the insertion can go on one level lower. */
  lemma PushedDownSound(m: Heap, z: Zip, z2: Zip, vbn: Vbn, p: int, ie: IndexEntry, lk: Node, free: set<Vbn>,
                        all: set<Vbn>)
    requires z.path.Top? && z.h >= 1 && z.focus.Node? && FullZip(z) && DirtyZip(z) && 0 <= p < |z.focus.slots|
    requires |z.focus.slots| >= 2
    requires Redirtied(PushedDown(z, vbn), z2) && ZipOk(m, z2) && Owned(Used(z2) + Foot(lk), free, all)
    requires PendOk(m, ie, lk, z.h)
    ensures z2.focus.Node? && 0 < |z2.focus.slots| && z2.h >= 1
    ensures var z' := Push(z2, 0);
            && Inserting(m, z', p, ie, lk, free, all) && z'.focus.slots == z.focus.slots
            && WithPending(z', p, Slot(Strip(ie), lk)) == WithPending(z, p, Slot(Strip(ie), lk))
            && RootSlots(z'.path, z'.focus) == 1 && Depth(z'.path) == 1 && z'.path.above.Top? && z'.h == z.h
            && z'.focus.Node? && z'.focus.vbn == vbn && Lead(z', p) == Lead(z, p)
            && SameBlock(z, z', p)
  {
    assert z2.path.Top? && z2.focus.slots == PushedDown(z, vbn).focus.slots;
    PushOk(m, z2, 0);
    PushUsed(z2, 0);
    PushFlat(z2, 0);
    assert z2.focus.slots[..0] == [] && z2.focus.slots[1..] == [];
    assert LeftOf(Push(z2, 0).path) == [] && RightOf(Push(z2, 0).path) == [];
    PushedDownShape(z, z2, vbn);
  }

  lemma PushedDownShape(z: Zip, z2: Zip, vbn: Vbn)
    requires z.path.Top? && z.h >= 1 && z.focus.Node? && FullZip(z) && DirtyZip(z) && |z.focus.slots| >= 2
    requires Redirtied(PushedDown(z, vbn), z2)
    ensures FullZip(Push(z2, 0)) && DirtyZip(Push(z2, 0))
  {
    var z' := Push(z2, 0);
    var f, n := z'.path.f.node, z'.focus;
    assert f.slots == [Slot(End(vbn), Nil)];
    assert FullSlots(f.slots, z.h) && DirtySlots(f.slots, true);
    forall i | 0 <= i < |n.slots| ensures DirtySlot(n.slots[i], true) {
      SlotDirty(z.focus, i);
    }
    assert DirtyOk(f) && DirtyOk(n);
    assert FullPath(z'.path, z'.h);
    assert DirtyPath(z'.path, n);
  }

  // ----- splitting -----

  /** What stays left of the middle entry; END takes over its child. */
  function Base(ss: seq<Slot>, mid: nat): seq<Slot>
    requires mid < |ss|
  {
    ss[..mid] + [Slot(End(ss[mid].ent.vbn), ss[mid].kid)]
  }

  function SplitLeft(ss: seq<Slot>, mid: nat, p: nat, s: Slot): seq<Slot>
    requires mid < |ss| && p < |ss|
  {
    if p <= mid then Ins(Base(ss, mid), p, s) else Base(ss, mid)
  }

  function SplitRight(ss: seq<Slot>, mid: nat, p: nat, s: Slot): seq<Slot>
    requires mid < |ss| && p < |ss|
  {
    if p > mid then Ins(ss[mid+1..], p - mid - 1, s) else ss[mid+1..]
  }

  lemma BaseEnts(ss: seq<Slot>, mid: nat)
    requires mid < |ss|
    ensures Ents(Base(ss, mid)) == Ents(ss)[..mid] + [End(Ents(ss)[mid].vbn)]
    ensures Ents(ss[mid+1..]) == Ents(ss)[mid+1..]
  {
  }

  lemma BaseFlat(ss: seq<Slot>, mid: nat)
    requires mid < |ss|
    ensures FlatS(Base(ss, mid)) == FlatS(ss[..mid]) + Flat(ss[mid].kid)
  {
    FlatConcat(ss[..mid], [Slot(End(ss[mid].ent.vbn), ss[mid].kid)]);
    FlatOne(Slot(End(ss[mid].ent.vbn), ss[mid].kid));
  }

  /** Splitting loses nothing and puts the pending entry in its place. */
  lemma SplitFlat(ss: seq<Slot>, mid: nat, p: nat, s: Slot)
    requires mid < |ss| && p < |ss|
    ensures FlatS(SplitLeft(ss, mid, p, s)) + Pay(ss[mid].ent) + FlatS(SplitRight(ss, mid, p, s))
            == FlatS(ss[..p]) + FlatSlot(s) + FlatS(ss[p..])
  {
    if p <= mid {
      SplitFlatLeft(ss, mid, p, s);
    } else {
      SplitFlatRight(ss, mid, p, s);
    }
  }

  lemma SplitFlatLeft(ss: seq<Slot>, mid: nat, p: nat, s: Slot)
    requires p <= mid < |ss|
    ensures FlatS(SplitLeft(ss, mid, p, s)) + Pay(ss[mid].ent) + FlatS(SplitRight(ss, mid, p, s))
            == FlatS(ss[..p]) + FlatSlot(s) + FlatS(ss[p..])
  {
    var b := Base(ss, mid);
    var t := ss[p..];
    assert b[..p] == ss[..p] && b[p..] == Base(t, mid - p);
    InsFlat(b, p, s);
    BaseFlat(t, mid - p);
    FlatAt(t, mid - p);
    assert t[mid - p + 1..] == ss[mid+1..];
    Shift(FlatS(ss[..p]), FlatSlot(s), FlatS(t[..mid - p]), Flat(ss[mid].kid), Pay(ss[mid].ent), FlatS(ss[mid+1..]));
  }

  lemma Shift<T>(a: seq<T>, s: seq<T>, b: seq<T>, k: seq<T>, e: seq<T>, c: seq<T>)
    ensures (a + s + (b + k)) + e + c == a + s + (b + ((k + e) + c))
  {
  }

  lemma SplitFlatRight(ss: seq<Slot>, mid: nat, p: nat, s: Slot)
    requires mid < p < |ss|
    ensures FlatS(SplitLeft(ss, mid, p, s)) + Pay(ss[mid].ent) + FlatS(SplitRight(ss, mid, p, s))
            == FlatS(ss[..p]) + FlatSlot(s) + FlatS(ss[p..])
  {
    hide FlatS, Flat, Pay;
    var t := ss[mid+1..];
    assert t[..p - mid - 1] == ss[mid+1..p] && t[p - mid - 1..] == ss[p..];
    InsFlat(t, p - mid - 1, s);
    BaseFlat(ss, mid);
    var u := ss[..p];
    FlatAt(u, mid);
    assert u[..mid] == ss[..mid] && u[mid+1..] == ss[mid+1..p] && u[mid] == ss[mid];
    Shift2(FlatS(ss[..mid]), Flat(ss[mid].kid), Pay(ss[mid].ent), FlatS(ss[mid+1..p]), FlatSlot(s), FlatS(ss[p..]));
  }

  lemma Shift2<T>(a: seq<T>, k: seq<T>, e: seq<T>, b: seq<T>, s: seq<T>, c: seq<T>)
    ensures (a + k) + e + (b + s + c) == (a + ((k + e) + b)) + s + c
  {
  }

  lemma SplitFoot(ss: seq<Slot>, mid: nat, p: nat, s: Slot)
    requires mid < |ss| && p < |ss|
    ensures FootS(SplitLeft(ss, mid, p, s)) + FootS(SplitRight(ss, mid, p, s)) == FootS(ss) + Foot(s.kid)
  {
    hide FootS;
    var e := Slot(End(ss[mid].ent.vbn), ss[mid].kid);
    FootConcat(ss[..mid], [e]);
    FootAt(ss, mid);
    FootOne(e);
    assert FootS(Base(ss, mid)) + FootS(ss[mid+1..]) == FootS(ss);
    if p <= mid {
      InsFoot(Base(ss, mid), p, s);
    } else {
      InsFoot(ss[mid+1..], p - mid - 1, s);
    }
  }

  lemma SplitAll(ss: seq<Slot>, mid: nat, p: nat, s: Slot, m: Heap, h: nat)
    requires mid < |ss| && p < |ss| && h >= 1
    ensures GoodSlots(m, ss, h) && GoodSlot(m, s, h) ==>
              GoodSlots(m, SplitLeft(ss, mid, p, s), h) && GoodSlots(m, SplitRight(ss, mid, p, s), h)
    ensures FullSlots(ss, h - 1) && FullSlot(s, h - 1) ==>
              FullSlots(SplitLeft(ss, mid, p, s), h - 1) && FullSlots(SplitRight(ss, mid, p, s), h - 1)
    ensures DirtySlots(ss, true) && DirtySlot(s, true) ==>
              DirtySlots(SplitLeft(ss, mid, p, s), true) && DirtySlots(SplitRight(ss, mid, p, s), true)
  {
    BaseAll(ss, mid, m, h);
    if p <= mid {
      InsAll(Base(ss, mid), p, s, m, h, true);
    } else {
      InsAll(ss[mid+1..], p - mid - 1, s, m, h, true);
    }
  }

  lemma BaseAll(ss: seq<Slot>, mid: nat, m: Heap, h: nat)
    requires mid < |ss| && h >= 1
    ensures GoodSlots(m, ss, h) ==> GoodSlots(m, Base(ss, mid), h) && GoodSlots(m, ss[mid+1..], h)
    ensures FullSlots(ss, h - 1) ==> FullSlots(Base(ss, mid), h - 1) && FullSlots(ss[mid+1..], h - 1)
    ensures DirtySlots(ss, true) ==> DirtySlots(Base(ss, mid), true) && DirtySlots(ss[mid+1..], true)
  {
    if GoodSlots(m, ss, h) {
      assert GoodSlot(m, ss[mid], h);
    }
    if FullSlots(ss, h - 1) {
      assert FullSlot(ss[mid], h - 1);
    }
    if DirtySlots(ss, true) {
      assert DirtySlot(ss[mid], true);
    }
  }

  lemma ZipFramed(m: Heap, m': Heap, z: Zip)
    requires ZipOk(m, z) && Agree(m, m', Used(z))
    ensures ZipOk(m', z)
  {
    AgreeSum(m, m', FootP(z.path), Foot(z.focus));
    GoodFramed(m, m', z.focus, z.h);
    PathFramed(m, m', z.path, z.h, z.focus);
  }

  /** The pending entry does not fit even into a block of full size. */
  predicate NeedsSplit(z: Zip, len: nat) {
    z.focus.Node? && ViewSize(Ents(z.focus.slots), z.focus.large) + len > BLOCK_SIZE
  }

  /** The same entries in focus, and the same list before the cursor. */
  ghost predicate SameBlock(z: Zip, z': Zip, p: int) {
    && z.focus.Node? && z'.focus.Node? && 0 <= p < |z.focus.slots|
    && z'.h == z.h && z'.focus.slots == z.focus.slots && z'.focus.large == z.focus.large && Lead(z', p) == Lead(z, p)
  }

  lemma SameNeeds(z: Zip, z': Zip, p: int, len: nat)
    requires SameBlock(z, z', p)
    ensures z'.h == z.h && 0 <= p < |z.focus.slots| == |z'.focus.slots| && Lead(z', p) == Lead(z, p)
    ensures NeedsSplit(z', len) <==> NeedsSplit(z, len)
  {
  }

  /** An insertion that could not push the root down drops the run it was carrying. */
  ghost predicate LosesRun(l: seq<KV>, target: seq<KV>) {
    exists i, j :: 0 <= i <= j <= |target| && l == target[..i] + target[j..]
  }

  lemma CarriedRun(z: Zip, p: nat, s: Slot)
    requires z.focus.Node? && p < |z.focus.slots|
    ensures LosesRun(Contents(z), WithPending(z, p, s))
  {
    LeadTail(z, p);
    var t, i := WithPending(z, p, s), |Lead(z, p)|;
    var j := i + |FlatSlot(s)|;
    assert t[..i] == Lead(z, p) && t[j..] == Tail(z, p);
    assert Contents(z) == t[..i] + t[j..];
  }

  /** The block numbers of a subtree. */
  ghost function Numbers(n: Node): set<Vbn> {
    set v | v in Foot(n)
  }

  /** A table whose pending entry is given up is sound, but for the blocks of the subtree lost with it. */
  lemma Abandoned(m: Heap, z: Zip, p: int, ie: IndexEntry, lk: Node, free: set<Vbn>, all: set<Vbn>)
    requires Inserting(m, z, p, ie, lk, free, all)
    ensures Sound(m, z, free, all - Numbers(lk))
  {
    var used, lost, f, a: multiset<Vbn> := Used(z), Foot(lk), multiset(free), multiset(all);
    forall v: Vbn ensures (used + f)[v] == multiset(all - Numbers(lk))[v] {
      assert (used + lost + f)[v] == a[v];
      assert v in Numbers(lk) <==> lost[v] > 0;
    }
    assert used + f == multiset(all - Numbers(lk));
  }

  /** What the size test of an insertion compares. */
  lemma SizeTest(m: Heap, z: Zip, p: int, ie: IndexEntry, lk: Node, free: set<Vbn>, all: set<Vbn>)
    requires Inserting(m, z, p, ie, lk, free, all)
    ensures z.focus.vbn in m && m[z.focus.vbn].ib.realSize == ViewSize(Ents(z.focus.slots), z.focus.large)
    ensures m[z.focus.vbn].ib.allocSize == if z.path.Top? then ROOT_SIZE else BLOCK_SIZE
    ensures |z.focus.slots| == 1 ==> m[z.focus.vbn].ib.realSize + ie.len <= m[z.focus.vbn].ib.allocSize
    ensures z.path.Top? ==> RootSlots(z.path, z.focus) == |z.focus.slots|
  {
    if |z.focus.slots| == 1 {
      assert Ents(z.focus.slots) == [z.focus.slots[0].ent];
      TotalLenOne(z.focus.slots[0].ent, z.focus.large);
      assert EndLast(Ents(z.focus.slots));
      EntLenBounds(Strip(ie), z.focus.large);
    }
  }

  /** Taking a new block for the right half, or for the pushed-down root, disturbs nothing. */
  lemma NewBlock(m: Heap, z: Zip, p: int, ie: IndexEntry, lk: Node, vbn: Vbn, c: Cached, free: set<Vbn>, all: set<Vbn>)
    requires Inserting(m, z, p, ie, lk, free, all) && vbn in free
    ensures ZipOk(m[vbn := c], z) && PendOk(m[vbn := c], ie, lk, z.h)
    ensures Owned(Used(z) + (multiset{vbn} + Foot(lk)), free - {vbn}, all)
    ensures vbn != 0 && vbn != z.focus.vbn && |free - {vbn}| == |free| - 1
  {
    hide ZipOk, Foot, FootS, FootP, DirtyZip, DirtyOk, Agree, Chained, ViewSize;
    FootNode(z.focus);
    Apart(FootP(z.path), z.focus.vbn, FootS(z.focus.slots), Foot(lk), free, all);
    ZipFramed(m, m[vbn := c], z);
    PendFramed(m, m[vbn := c], ie, lk, z.h);
    Taken(Used(z) + Foot(lk), vbn, free, all);
    assert Used(z) + (multiset{vbn} + Foot(lk)) == Used(z) + Foot(lk) + multiset{vbn};
  }

  /** What making the path dirty leaves as it was for the split. */
  lemma DirtyForSplit(m: Heap, m1: Heap, z0: Zip, z: Zip, p: int, ie: IndexEntry, lk: Node, vbn: Vbn)
    requires FullZip(z0) && DirtyZip(z0) && z0.focus.Node? && Redirtied(z0, z) && PendOk(m, ie, lk, z0.h)
    requires Agree(m, m1, multiset{vbn} + Foot(lk)) && vbn in m && 0 <= p <= |z0.focus.slots|
    ensures FullZip(z) && DirtyZip(z) && z.focus.dirty && z.focus.slots == z0.focus.slots && z.h == z0.h
    ensures z.focus.large == z0.focus.large && z.focus.alloc == z0.focus.alloc
    ensures PendOk(m1, ie, lk, z.h) && vbn in m1 && m1[vbn] == m[vbn]
    ensures RootSlots(z.path, z.focus) == RootSlots(z0.path, z0.focus) && Depth(z.path) == Depth(z0.path)
    ensures WithPending(z, p, Slot(Strip(ie), lk)) == WithPending(z0, p, Slot(Strip(ie), lk))
    ensures z0.path.Up? ==> z.path.Up? && RootSlots(z.path.above, z.path.f.node) == RootSlots(z0.path, z0.focus)
                            && z.path.f.node.Node?
  {
    AgreeSum(m, m1, multiset{vbn}, Foot(lk));
    assert vbn in multiset{vbn};
    PendFramed(m, m1, ie, lk, z0.h);
    RedirtiedContents(z0, z);
    RedirtiedFull(z0, z);
    forall i | 0 <= i < |z0.focus.slots| ensures DirtyOk(z0.focus.slots[i].kid) {
      SlotDirty(z0.focus, i);
    }
    RedirtiedDirty(z0, z);
    RePathRoot(z0.path, z.path, z0.focus, z.focus);
  }

  /** The block in focus, before it is split: where its middle entry is, and that the halves have room. */
  lemma SplitRoom(m: Heap, z: Zip, p: int, ie: IndexEntry, lk: Node, mid: nat, free: set<Vbn>, all: set<Vbn>)
    requires Inserting(m, z, p, ie, lk, free, all) && z.path.Up?
    requires z.focus.vbn in m && m[z.focus.vbn].ib.realSize + ie.len > m[z.focus.vbn].ib.allocSize
    requires mid < |Ents(z.focus.slots)| && IsMiddle(Ents(z.focus.slots), z.focus.large, mid)
    ensures var es, large := Ents(z.focus.slots), z.focus.large;
            && 0 < mid < |z.focus.slots| - 2 && es[mid].Ent? && z.focus.alloc == BLOCK_SIZE
            && ViewSize(es[..mid] + [End(es[mid].vbn)], large) + ie.len <= BLOCK_SIZE
            && ViewSize(es[mid+1..], large) + ie.len <= BLOCK_SIZE
    ensures ie.len == EntLen(Strip(ie), z.focus.large) <= ENTRY_MAX_SIZE
  {
    forall i | 0 <= i < |z.focus.slots| ensures EntOk(Ents(z.focus.slots)[i]) {
      SlotGood(m, z.focus, z.h, i);
    }
    EntLenBounds(Strip(ie), z.focus.large);
    MiddleSplits(Ents(z.focus.slots), z.focus.large, mid);
  }

  // ----- the two halves in the heap -----

  function LeftHalf(n: Node, mid: nat, p: nat, s: Slot): Node
    requires n.Node? && mid < |n.slots| && p < |n.slots|
  {
    n.(dirty := true, slots := SplitLeft(n.slots, mid, p, s))
  }

  function RightHalf(n: Node, mid: nat, p: nat, s: Slot, vbn: Vbn): Node
    requires n.Node? && mid < |n.slots| && p < |n.slots|
  {
    n.(vbn := vbn, dirty := true, slots := SplitRight(n.slots, mid, p, s))
  }

  lemma HalvesUsed(n: Node, mid: nat, p: nat, s: Slot, vbn: Vbn)
    requires n.Node? && mid < |n.slots| && p < |n.slots|
    ensures Foot(RightHalf(n, mid, p, s, vbn)) + Foot(LeftHalf(n, mid, p, s)) == Foot(n) + multiset{vbn} + Foot(s.kid)
  {
    SplitFoot(n.slots, mid, p, s);
    var l, r := FootS(SplitLeft(n.slots, mid, p, s)), FootS(SplitRight(n.slots, mid, p, s));
    assert (multiset{vbn} + r) + (multiset{n.vbn} + l) == multiset{n.vbn} + (l + r) + multiset{vbn};
  }

  lemma HalvesGood(m: Heap, m': Heap, n: Node, h: nat, mid: nat, p: nat, s: Slot, vbn: Vbn)
    requires h >= 1 && Good(m, n, h) && GoodSlot(m, s, h) && mid < |n.slots| && p < |n.slots|
    requires Agree(m, m', FootS(n.slots)) && Agree(m, m', Foot(s.kid))
    requires Holds(m', LeftHalf(n, mid, p, s)) && Holds(m', RightHalf(n, mid, p, s, vbn))
    ensures Good(m', LeftHalf(n, mid, p, s), h) && Good(m', RightHalf(n, mid, p, s, vbn), h)
  {
    assert GoodSlots(m, n.slots, h);
    SlotsFramed(m, m', n.slots, h);
    SlotFramed(m, m', s, h);
    SplitAll(n.slots, mid, p, s, m', h);
  }

  /** Block contents after the split, as entries. */
  lemma HalvesViews(ss: seq<Slot>, mid: nat, p: nat, s: Slot)
    requires mid < |ss| && p < |ss|
    ensures var base, tail := Ents(ss)[..mid] + [End(Ents(ss)[mid].vbn)], Ents(ss)[mid+1..];
            && Ents(SplitLeft(ss, mid, p, s)) == (if p <= mid then base[..p] + [s.ent] + base[p..] else base)
            && Ents(SplitRight(ss, mid, p, s)) ==
                 if p > mid then tail[..p - mid - 1] + [s.ent] + tail[p - mid - 1..] else tail
  {
    BaseEnts(ss, mid);
    if p <= mid {
      InsEnts(Base(ss, mid), p, s);
    } else {
      InsEnts(ss[mid+1..], p - mid - 1, s);
    }
  }

  /** The parent, its link now leading to the right half. */
  function SplitZip(path: Path, right: Node, h: nat): Zip
    requires path.Up? && path.f.node.Node? && path.f.pos < |path.f.node.slots| && right.Node?
  {
    var f := path.f;
    Zip(path.above, f.node.(slots := Relink(SetKid(f.node.slots, f.pos, right), f.pos, right.vbn)), h + 1)
  }

  lemma RightThere(m: Heap, n: Node, h: nat)
    requires h >= 1 && Good(m, n, h)
    ensures n.Node?
  {
  }

  lemma SplitZipOk(m: Heap, m': Heap, path: Path, left: Node, right: Node, h: nat)
    requires h >= 1 && path.Up? && PathOk(m, path, h, left) && Good(m, right, h) && right.alloc == BLOCK_SIZE
    requires Agree(m, m', FootS(path.f.node.slots)) && Agree(m, m', FootP(path.above)) && Agree(m, m', Foot(right))
    requires Holds(m', SplitZip(path, right, h).focus)
    ensures ZipOk(m', SplitZip(path, right, h))
  {
    hide PathOk, GoodSlot, Foot, FootS, FootP, Holds, GoodFrame;
    var f := path.f;
    FrameOf(m, path, h, left);
    RightThere(m, right, h);
    var n := SplitZip(path, right, h).focus;
    GoodFramed(m, m', right, h);
    PathFramed(m, m', path.above, h + 1, f.node);
    SameChild(m', path.above, h + 1, f.node, n);
    ParentSlots(m, m', f, right, h);
  }

  lemma ParentSlots(m: Heap, m': Heap, f: Frame, right: Node, h: nat)
    requires h >= 1 && GoodFrame(m, f, h + 1) && Agree(m, m', FootS(f.node.slots))
    requires right.Node? && Good(m', right, h) && right.alloc == BLOCK_SIZE
    ensures GoodSlots(m', Relink(SetKid(f.node.slots, f.pos, right), f.pos, right.vbn), h + 1)
  {
    var ss := Relink(SetKid(f.node.slots, f.pos, right), f.pos, right.vbn);
    forall i | 0 <= i < |ss| ensures GoodSlot(m', ss[i], h + 1) {
      if i != f.pos {
        assert GoodSlot(m, f.node.slots[i], h + 1);
        AgreeSlot(m, m', f.node.slots, i);
        SlotFramed(m, m', f.node.slots[i], h + 1);
      }
    }
  }

  lemma SplitZipRoot(path: Path, right: Node, h: nat)
    requires path.Up? && path.f.node.Node? && path.f.pos < |path.f.node.slots| && right.Node?
    ensures var z := SplitZip(path, right, h);
            && RootSlots(z.path, z.focus) == RootSlots(path.above, path.f.node)
            && z.h == h + 1 && Depth(z.path) + 1 == Depth(path)
  {
  }

  lemma SplitZipUsed(path: Path, right: Node, h: nat)
    requires path.Up? && path.f.node.Node? && path.f.pos < |path.f.node.slots| && right.Node?
    requires path.f.node.slots[path.f.pos].kid.Nil?
    ensures Used(SplitZip(path, right, h)) == FootP(path) + Foot(right)
  {
    var f := path.f;
    PopUsed(Zip(path, right, h));
    RelinkFoot(SetKid(f.node.slots, f.pos, right), f.pos, right.vbn);
  }

  lemma SplitZipFlat(path: Path, right: Node, h: nat, s: Slot)
    requires path.Up? && path.f.node.Node? && path.f.pos < |path.f.node.slots| && right.Node?
    requires path.f.node.slots[path.f.pos].kid.Nil?
    ensures WithPending(SplitZip(path, right, h), path.f.pos, s)
            == LeftOf(path) + FlatSlot(s) + (Flat(right) + RightOf(path))
  {
    var f := path.f;
    var z0 := Pop(Zip(path, right, h));
    PopLead(Zip(path, right, h));
    RelinkFlat(z0.focus.slots, f.pos, right.vbn);
    LeadTail(z0, f.pos);
    PopPush(Zip(path, right, h));
    PushLead(z0, f.pos);
  }

  lemma SplitZipSound(path: Path, child: Node, right: Node, h: nat)
    requires h >= 1 && path.Up? && path.f.node.Node? && path.f.pos < |path.f.node.slots|
    requires path.f.node.slots[path.f.pos].kid.Nil? && FullPath(path, h) && DirtyPath(path, child) && child.dirty
             && right.Node? && DirtyOk(right)
    requires Full(right, h)
    ensures FullZip(SplitZip(path, right, h)) && DirtyZip(SplitZip(path, right, h))
    ensures SplitZip(path, right, h).focus.dirty
  {
    var f := path.f;
    var n := SplitZip(path, right, h).focus;
    forall i | 0 <= i < |n.slots| ensures FullSlot(n.slots[i], h) && DirtySlot(n.slots[i], true) {
      if i != f.pos {
        assert FullSlot(f.node.slots[i], h);
        SlotDirty(f.node, i);
      }
    }
    DirtySameChild(path.above, f.node, n);
  }

  lemma HalvesSound(n: Node, h: nat, mid: nat, p: nat, s: Slot, vbn: Vbn)
    requires n.Node? && h >= 1 && FullSlots(n.slots, h - 1) && DirtyOk(n) && 0 < mid < |n.slots| - 2 && p < |n.slots|
    requires FullSlot(s, h - 1) && DirtyOk(s.kid)
    ensures Full(LeftHalf(n, mid, p, s), h) && Full(RightHalf(n, mid, p, s, vbn), h)
    ensures DirtyOk(LeftHalf(n, mid, p, s)) && DirtyOk(RightHalf(n, mid, p, s, vbn))
  {
    forall i | 0 <= i < |n.slots| ensures DirtySlot(n.slots[i], true) {
      SlotDirty(n, i);
    }
    SplitAll(n.slots, mid, p, s, map[], h);
  }

  /** The in-order list is the same with the middle entry pending one level up. */
  lemma SplitPending(z: Zip, right: Node, left: Node, mid: nat, p: nat, s: Slot, s': Slot, vbn: Vbn)
    requires CanPop(z) && z.focus.Node? && mid < |z.focus.slots| && p < |z.focus.slots|
    requires right == RightHalf(z.focus, mid, p, s, vbn) && left == LeftHalf(z.focus, mid, p, s)
    requires s'.kid == left && Pay(s'.ent) == Pay(z.focus.slots[mid].ent)
    ensures WithPending(SplitZip(z.path, right, z.h), z.path.f.pos, s') == WithPending(z, p, s)
  {
    var ss := z.focus.slots;
    SplitZipFlat(z.path, right, z.h, s');
    SplitFlat(ss, mid, p, s);
    Joined(LeftOf(z.path), Flat(left), Pay(s'.ent), Flat(right), RightOf(z.path));
    Sandwich(LeftOf(z.path), FlatS(ss[..p]), FlatSlot(s), FlatS(ss[p..]), RightOf(z.path));
  }

  lemma Joined<T>(l: seq<T>, a: seq<T>, e: seq<T>, b: seq<T>, r: seq<T>)
    ensures l + (a + e) + (b + r) == l + (a + e + b) + r
  {
  }

  // ----- where a split leaves the pending entry -----

  /** The place the pending entry will take in the list. */
  ghost function PendRank(z: Zip, p: nat, lk: Node): nat
    requires z.focus.Node? && p < |z.focus.slots|
  {
    |Lead(z, p)| + |Flat(lk)|
  }

  /** From one pending entry to the next, promoted one: it lies behind the subtree the pending entry
      was put before, or ahead of everything that came before the pending entry. */
  ghost predicate Passed(z: Zip, p: nat, lk: Node, z': Zip, p': nat, lk': Node) {
    && z.focus.Node? && p < |z.focus.slots| && z'.focus.Node? && p' < |z'.focus.slots|
    && |Lead(z', p')| <= |Lead(z, p)|
    && var q, q', f := PendRank(z, p, lk), PendRank(z', p', lk'), |Flat(z.focus.slots[p].kid)|;
       || q' >= q + 1 + f
       || (q' + 1 <= |Lead(z, p)| && q' + |Flat(z'.focus.slots[p'].kid)| >= q + f)
  }

  /** Place `k` and the places around it lie within one of the two subtrees beside the pending entry. */
  ghost predicate Clear(z: Zip, p: nat, lk: Node, k: nat) {
    && z.focus.Node? && p < |z.focus.slots|
    && var q := PendRank(z, p, lk);
       || (|Lead(z, p)| < k && k + 1 < q)
       || (q + 1 < k && k < q + |Flat(z.focus.slots[p].kid)|)
  }

  /** The pending entry itself goes to place `k`, and neither subtree beside it is empty. */
  ghost predicate Here(z: Zip, p: nat, lk: Node, k: nat) {
    && z.focus.Node? && p < |z.focus.slots|
    && k == PendRank(z, p, lk) && |Flat(lk)| >= 1 && |Flat(z.focus.slots[p].kid)| >= 1
  }

  lemma PassedClear(z: Zip, p: nat, lk: Node, z': Zip, p': nat, lk': Node, k: nat)
    requires Passed(z, p, lk, z', p', lk') && (Here(z, p, lk, k) || Clear(z, p, lk, k))
    ensures Clear(z', p', lk', k)
  {
  }

  lemma SplitPassed(z: Zip, right: Node, left: Node, mid: nat, p: nat, s: Slot, vbn: Vbn)
    requires CanPop(z) && z.focus.Node? && mid < |z.focus.slots| - 1 && p < |z.focus.slots|
    requires right == RightHalf(z.focus, mid, p, s, vbn) && left == LeftHalf(z.focus, mid, p, s)
    requires s.ent.Ent? && z.focus.slots[mid].ent.Ent?
    ensures Passed(z, p, s.kid, SplitZip(z.path, right, z.h), z.path.f.pos, left)
  {
    var ss := z.focus.slots;
    SplitZipLead(z.path, right, z.h);
    FlatAt(ss, p);
    if p <= mid {
      LeftHalfRank(ss, mid, p, s);
    } else {
      RightHalfRank(ss, mid, p, s);
    }
  }

  lemma SplitZipLead(path: Path, right: Node, h: nat)
    requires path.Up? && path.f.node.Node? && path.f.pos < |path.f.node.slots| && right.Node?
    requires path.f.node.slots[path.f.pos].kid.Nil?
    ensures Lead(SplitZip(path, right, h), path.f.pos) == LeftOf(path)
    ensures SplitZip(path, right, h).focus.slots[path.f.pos].kid == right
  {
    var z0 := Pop(Zip(path, right, h));
    PopLead(Zip(path, right, h));
    RelinkFlat(z0.focus.slots, path.f.pos, right.vbn);
  }

  lemma LeftHalfRank(ss: seq<Slot>, mid: nat, p: nat, s: Slot)
    requires p <= mid < |ss| && s.ent.Ent?
    ensures |FlatS(SplitLeft(ss, mid, p, s))| >= |FlatS(ss[..p])| + |Flat(s.kid)| + 1 + |Flat(ss[p].kid)|
  {
    var b := Base(ss, mid);
    assert b[..p] == ss[..p];
    InsFlat(b, p, s);
    FlatAt(b, p);
    assert b[p].kid == ss[p].kid;
  }

  lemma RightHalfRank(ss: seq<Slot>, mid: nat, p: nat, s: Slot)
    requires mid < p < |ss| && ss[mid].ent.Ent?
    ensures |FlatS(SplitLeft(ss, mid, p, s))| + 1 <= |FlatS(ss[..p])|
    ensures |FlatS(SplitLeft(ss, mid, p, s))| + 1 + |FlatS(SplitRight(ss, mid, p, s))|
            == |FlatS(ss[..p])| + |FlatSlot(s)| + |FlatS(ss[p..])|
  {
    SplitFlat(ss, mid, p, s);
    BaseFlat(ss, mid);
    FlatAt(ss[..p], mid);
    assert ss[..p][..mid] == ss[..mid];
  }

  /** What a split has to establish: `m1` before it, `m2` with both halves written, `m3` with the
      parent's link set. */
  ghost predicate HalfWrites(m1: Heap, m2: Heap, z: Zip, mid: nat, p: nat, s: Slot, vbn: Vbn) {
    && z.focus.Node? && 0 < mid < |z.focus.slots| - 2 && p < |z.focus.slots|
    && z.focus.vbn in m2 && m2 == m1[z.focus.vbn := m2[z.focus.vbn]]
    && Holds(m2, LeftHalf(z.focus, mid, p, s)) && Holds(m2, RightHalf(z.focus, mid, p, s, vbn))
  }

  ghost predicate SplitWrites(m1: Heap, m2: Heap, m3: Heap, z: Zip, mid: nat, p: nat, s: Slot, vbn: Vbn) {
    && HalfWrites(m1, m2, z, mid, p, s, vbn)
    && z.path.Up? && z.path.f.node.Node? && z.path.f.pos < |z.path.f.node.slots|
    && z.path.f.node.vbn in m3 && m3 == m2[z.path.f.node.vbn := m3[z.path.f.node.vbn]]
    && Holds(m3, SplitZip(z.path, RightHalf(z.focus, mid, p, s, vbn), z.h).focus)
  }

  lemma SplitHalves(m1: Heap, m2: Heap, z: Zip, mid: nat, p: nat, s: Slot, vbn: Vbn, free: set<Vbn>, all: set<Vbn>)
    requires ZipOk(m1, z) && GoodSlot(m1, s, z.h) && HalfWrites(m1, m2, z, mid, p, s, vbn)
    requires Owned(Used(z) + (multiset{vbn} + Foot(s.kid)), free, all)
    ensures Good(m2, LeftHalf(z.focus, mid, p, s), z.h) && Good(m2, RightHalf(z.focus, mid, p, s, vbn), z.h)
    ensures PathOk(m2, z.path, z.h, LeftHalf(z.focus, mid, p, s))
    ensures z.path.Up? ==> z.path.f.node.Node? && z.path.f.node.vbn != z.focus.vbn
  {
    hide Foot, FootS, FootP, GoodSlot, Agree, Owned, RightHalf, View, Chained, Ents;
    var above, below, held := FootP(z.path), FootS(z.focus.slots), multiset{vbn} + Foot(s.kid);
    FootNode(z.focus);
    Apart(above, z.focus.vbn, below, held, free, all);
    HalvesGood(m1, m2, z.focus, z.h, mid, p, s, vbn);
    PathFramed(m1, m2, z.path, z.h, z.focus);
    SameChild(m2, z.path, z.h, z.focus, LeftHalf(z.focus, mid, p, s));
    if z.path.Up? {
      FootNode(z.path.f.node);
    }
  }

  lemma SumSplit(a: multiset<Vbn>, r: multiset<Vbn>, l: multiset<Vbn>, n: multiset<Vbn>, v: multiset<Vbn>,
                 k: multiset<Vbn>)
    requires r + l == n + v + k
    ensures a + r + l == a + n + (v + k) && a + (l + r) == a + r + l
  {
    assert a + r + l == a + (r + l);
    assert a + n + (v + k) == a + (n + v + k);
  }

  lemma SplitOwned(z: Zip, mid: nat, p: nat, s: Slot, vbn: Vbn, free: set<Vbn>, all: set<Vbn>)
    requires z.path.Up? && z.path.f.node.Node? && z.path.f.pos < |z.path.f.node.slots|
    requires z.path.f.node.slots[z.path.f.pos].kid.Nil?
    requires z.focus.Node? && mid < |z.focus.slots| && p < |z.focus.slots|
    requires Owned(Used(z) + (multiset{vbn} + Foot(s.kid)), free, all)
    ensures var l, r := LeftHalf(z.focus, mid, p, s), RightHalf(z.focus, mid, p, s, vbn);
            && Owned(Used(SplitZip(z.path, r, z.h)) + Foot(l), free, all)
            && z.path.f.node.vbn !in FootP(z.path.above) && z.path.f.node.vbn !in FootS(z.path.f.node.slots)
            && z.path.f.node.vbn !in Foot(l) && z.path.f.node.vbn !in Foot(r)
  {
    var l, r := LeftHalf(z.focus, mid, p, s), RightHalf(z.focus, mid, p, s, vbn);
    var f := z.path.f;
    HalvesUsed(z.focus, mid, p, s, vbn);
    SplitZipUsed(z.path, r, z.h);
    SumSplit(FootP(z.path), Foot(r), Foot(l), Foot(z.focus), multiset{vbn}, Foot(s.kid));
    FootNode(f.node);
    Apart(FootP(z.path.above), f.node.vbn, FootS(f.node.slots), Foot(l) + Foot(r), free, all);
  }

  lemma SplitFacts(m1: Heap, m2: Heap, m3: Heap, z: Zip, mid: nat, p: nat, s: Slot, vbn: Vbn, free: set<Vbn>,
                   all: set<Vbn>)
    requires SplitWrites(m1, m2, m3, z, mid, p, s, vbn)
    requires ZipOk(m1, z) && FullZip(z) && DirtyZip(z)
    requires Owned(Used(z) + (multiset{vbn} + Foot(s.kid)), free, all)
    ensures z.focus.Node? && 0 < mid < |z.focus.slots| - 2 && p < |z.focus.slots|
    ensures var l, r := LeftHalf(z.focus, mid, p, s), RightHalf(z.focus, mid, p, s, vbn); var f := z.path.f;
            && z.h >= 1 && CanPop(z) && f.node.slots[f.pos].kid.Nil?
            && FullPath(z.path, z.h) && FullSlots(z.focus.slots, z.h - 1) && DirtyPath(z.path, z.focus)
            && DirtyOk(z.focus)
            && Agree(m2, m3, FootS(f.node.slots)) && Agree(m2, m3, FootP(z.path.above))
            && Agree(m2, m3, Foot(l)) && Agree(m2, m3, Foot(r))
            && Holds(m3, SplitZip(z.path, r, z.h).focus) && z.focus.alloc == BLOCK_SIZE
            && f.pos < |SplitZip(z.path, r, z.h).focus.slots| && SplitZip(z.path, r, z.h).h == z.h + 1
  {
    hide Good, PathOk, GoodFrame, Agree, Foot, FootS, FootP, Owned, LeftHalf, RightHalf, FullPath, DirtyPath, DirtyOk,
      Holds;
    var f := z.path.f;
    FrameOf(m1, z.path, z.h, z.focus);
    SplitOwned(z, mid, p, s, vbn, free, all);
    Written(m2, m3, f.node.vbn, FootS(f.node.slots));
    Written(m2, m3, f.node.vbn, FootP(z.path.above));
    Written(m2, m3, f.node.vbn, Foot(LeftHalf(z.focus, mid, p, s)));
    Written(m2, m3, f.node.vbn, Foot(RightHalf(z.focus, mid, p, s, vbn)));
  }

  lemma EntFacts(m: Heap, z: Zip, i: nat)
    requires ZipOk(m, z) && i < |z.focus.slots|
    ensures EntOk(z.focus.slots[i].ent)
  {
    SlotGood(m, z.focus, z.h, i);
  }

  lemma HalfNodes(n: Node, mid: nat, p: nat, s: Slot, vbn: Vbn)
    requires n.Node? && mid < |n.slots| && p < |n.slots|
    ensures LeftHalf(n, mid, p, s).Node? && LeftHalf(n, mid, p, s).vbn == n.vbn
    ensures LeftHalf(n, mid, p, s).alloc == n.alloc
    ensures RightHalf(n, mid, p, s, vbn).Node? && RightHalf(n, mid, p, s, vbn).alloc == n.alloc
    ensures RightHalf(n, mid, p, s, vbn).vbn == vbn
  {
  }

  /** After a split the insertion goes on in the parent, with the middle entry pending. */
  lemma SplitDone(m1: Heap, m2: Heap, m3: Heap, z: Zip, mid: nat, p: nat, ie: IndexEntry, lk: Node, ie': IndexEntry,
                  vbn: Vbn, free: set<Vbn>, all: set<Vbn>)
    requires SplitWrites(m1, m2, m3, z, mid, p, Slot(Strip(ie), lk), vbn)
    requires ZipOk(m1, z) && FullZip(z) && DirtyZip(z) && z.focus.dirty && PendOk(m1, ie, lk, z.h)
    requires Owned(Used(z) + (multiset{vbn} + Foot(lk)), free, all)
    requires EntryOk(ie', true) && !ie'.isEnd && z.focus.slots[mid].ent.Ent?
    requires Strip(ie') == z.focus.slots[mid].ent.(vbn := z.focus.vbn)
    ensures var s := Slot(Strip(ie), lk);
            var l, r := LeftHalf(z.focus, mid, p, s), RightHalf(z.focus, mid, p, s, vbn);
            var z' := SplitZip(z.path, r, z.h);
            && Inserting(m3, z', z.path.f.pos, ie', l, free, all)
            && WithPending(z', z.path.f.pos, Slot(Strip(ie'), l)) == WithPending(z, p, s)
  {
    hide ZipOk, Good, PathOk, FullZip, FullPath, Full, FullSlots, DirtyZip, DirtyPath, DirtyOk, Owned, Used, SplitZip,
      LeftHalf, RightHalf, WithPending, Foot, HalfWrites;
    var s := Slot(Strip(ie), lk);
    SplitFacts(m1, m2, m3, z, mid, p, s, vbn, free, all);
    HalfNodes(z.focus, mid, p, s, vbn);
    EntFacts(m1, z, mid);
    var s' := Slot(Strip(ie'), LeftHalf(z.focus, mid, p, s));
    var r := RightHalf(z.focus, mid, p, s, vbn);
    SplitHalves(m1, m2, z, mid, p, s, vbn, free, all);
    SplitOwned(z, mid, p, s, vbn, free, all);
    SplitZipOk(m2, m3, z.path, s'.kid, r, z.h);
    GoodFramed(m2, m3, s'.kid, z.h);
    HalvesSound(z.focus, z.h, mid, p, s, vbn);
    SplitZipSound(z.path, z.focus, r, z.h);
    SplitPending(z, r, s'.kid, mid, p, s, s', vbn);
  }

  /** Entries of the two blocks a split makes of entries `es`, with `e` pending before position `p`. */
  function LeftView(es: seq<Ent>, mid: nat, p: nat, e: Ent): seq<Ent>
    requires mid < |es| && p < |es|
  {
    var base := es[..mid] + [End(es[mid].vbn)];
    if p <= mid then base[..p] + [e] + base[p..] else base
  }

  function RightView(es: seq<Ent>, mid: nat, p: nat, e: Ent): seq<Ent>
    requires mid < |es| && p < |es|
  {
    var tail := es[mid+1..];
    if p > mid then tail[..p - mid - 1] + [e] + tail[p - mid - 1..] else tail
  }

  lemma ViewSizes(es: seq<Ent>, mid: nat, p: nat, e: Ent, large: bool, room: nat)
    requires mid < |es| && p < |es|
    requires ViewSize(es[..mid] + [End(es[mid].vbn)], large) + EntLen(e, large) <= room
    requires ViewSize(es[mid+1..], large) + EntLen(e, large) <= room
    ensures ViewSize(LeftView(es, mid, p, e), large) <= room && ViewSize(RightView(es, mid, p, e), large) <= room
  {
    if p <= mid {
      InsertedSize(es[..mid] + [End(es[mid].vbn)], e, p, large);
    } else {
      InsertedSize(es[mid+1..], e, p - mid - 1, large);
    }
  }

  /** The first block of a split: the entries after the middle, the pending one among them if it belongs there. */
  method TailBlock(ib: IndexBlock, mid: nat, ie: IndexEntry, p: nat) returns (newIb: IndexBlock, src: IndexBlock)
    requires Chained(ib) && mid < |ib.entries| - 1 && p < |ib.entries| && EntryOk(ie, ib.large) && !ie.isEnd
    ensures Chained(newIb) && newIb.large == ib.large && newIb.allocSize == ib.allocSize
    ensures View(newIb) == RightView(View(ib), mid, p, Strip(ie))
    ensures |src.entries| == |ib.entries| && ChainedUpTo(src, mid) && View(src) == View(ib)
    ensures src.large == ib.large && src.allocSize == ib.allocSize && src.entries[mid] == ib.entries[mid]
  {
    hide Strip, Chained;
    newIb, src := CopyIbTail(ib, mid);
    if mid < p {
      newIb := InsertIe(newIb, ie, p - mid - 1);
    }
  }

  /** The second: the entries before the middle. */
  method HeadBlock(src: IndexBlock, mid: nat, ie: IndexEntry, p: nat) returns (cut: IndexBlock)
    requires mid < |src.entries| - 1 && ChainedUpTo(src, mid) && p < |src.entries|
    requires EntryOk(ie, src.large) && !ie.isEnd
    ensures Chained(cut) && cut.large == src.large && cut.allocSize == src.allocSize
    ensures View(cut) == LeftView(View(src), mid, p, Strip(ie))
  {
    cut := CutIbTail(src, mid);
    if mid >= p {
      cut := InsertIe(cut, ie, p);
    }
  }

  /** The two blocks written by a split are the two halves. */
  lemma WroteHalves(m: Heap, n: Node, mid: nat, p: nat, s: Slot, vbn: Vbn)
    requires n.Node? && mid < |n.slots| && p < |n.slots| && n.vbn in m && vbn in m && n.vbn != vbn
    requires m[n.vbn].dirty && m[vbn].dirty
    requires var es, l, r := Ents(n.slots), m[n.vbn].ib, m[vbn].ib;
             && Chained(l) && l.large == n.large && l.allocSize == n.alloc && View(l) == LeftView(es, mid, p, s.ent)
             && Chained(r) && r.large == n.large && r.allocSize == n.alloc && View(r) == RightView(es, mid, p, s.ent)
             && ViewSize(View(l), n.large) <= n.alloc && ViewSize(View(r), n.large) <= n.alloc
    ensures Holds(m, LeftHalf(n, mid, p, s)) && Holds(m, RightHalf(n, mid, p, s, vbn))
  {
    HalvesViews(n.slots, mid, p, s);
  }

  lemma WroteParent(m: Heap, m': Heap, path: Path, left: Node, right: Node, h: nat)
    requires h >= 1 && path.Up? && PathOk(m, path, h, left) && right.Node?
    requires var v := path.f.node.vbn;
             && v in m' && m'[v] == m[v].(ib := m'[v].ib) && Chained(m'[v].ib) && m'[v].ib.large
             && m'[v].ib.allocSize == m[v].ib.allocSize
             && path.f.pos < |View(m[v].ib)|
             && View(m'[v].ib) == View(m[v].ib)[path.f.pos := View(m[v].ib)[path.f.pos].(vbn := right.vbn)]
    ensures Holds(m', SplitZip(path, right, h).focus)
  {
    var f := path.f;
    var ss := SetKid(f.node.slots, f.pos, right);
    var e := ss[f.pos].ent.(vbn := right.vbn);
    SetKidOutside(f.node.slots, f.pos, right);
    assert Ents(Relink(ss, f.pos, right.vbn)) == Ents(ss)[f.pos := e];
    ReplacedSize(Ents(ss), f.pos, e, true);
  }
}
