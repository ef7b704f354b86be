/**
  Taking an entry out of a node, freeing the blocks this empties, and giving the
  entry that separated them a new place: what each does to the picture.
*/
module BTreeRemove {
  import opened IndexBlock
  import opened BTreeShape
  import opened BTreeOrder
  import opened BTreeDirty
  import opened BTreeSplit

  /** Slots without slot `p`. */
  function Out(ss: seq<Slot>, p: nat): seq<Slot>
    requires p < |ss|
  {
    ss[..p] + ss[p+1..]
  }

  lemma OutEnts(ss: seq<Slot>, p: nat)
    requires p < |ss|
    ensures Ents(Out(ss, p)) == Ents(ss)[..p] + Ents(ss)[p+1..]
  {
  }

  lemma OutFlat(ss: seq<Slot>, p: nat)
    requires p < |ss|
    ensures FlatS(Out(ss, p)) == FlatS(ss[..p]) + FlatS(ss[p+1..])
    ensures Out(ss, p)[..p] == ss[..p] && Out(ss, p)[p..] == ss[p+1..]
  {
    FlatConcat(ss[..p], ss[p+1..]);
  }

  lemma OutFoot(ss: seq<Slot>, p: nat)
    requires p < |ss|
    ensures FootS(Out(ss, p)) + Foot(ss[p].kid) == FootS(ss)
  {
    FootAt(ss, p);
    FootConcat(ss[..p], ss[p+1..]);
    SumOut(FootS(ss[..p]), FootSlot(ss[p]), FootS(ss[p+1..]));
  }

  lemma SumOut(a: multiset<Vbn>, k: multiset<Vbn>, b: multiset<Vbn>)
    ensures a + b + k == a + (k + b)
  {
  }

  // ----- the picture with a block rewritten -----

  function WithSlots(z: Zip, ss: seq<Slot>): Zip
    requires z.focus.Node?
  {
    z.(focus := z.focus.(slots := ss))
  }

  /** A sound table, but that the leaf in focus may be empty and blocks `held` are set aside. */
  ghost predicate Loose(m: Heap, z: Zip, held: multiset<Vbn>, free: set<Vbn>, all: set<Vbn>) {
    && ZipOk(m, z) && DirtyZip(z) && Owned(Used(z) + held, free, all)
    && FullSlots(z.focus.slots, z.h - 1) && FullPath(z.path, z.h)
  }

  lemma LooseSound(m: Heap, z: Zip, free: set<Vbn>, all: set<Vbn>)
    requires z.focus.Node?
    ensures Sound(m, z, free, all) <==>
              Loose(m, z, multiset{}, free, all) && (z.path.Up? && z.h == 1 ==> |z.focus.slots| >= 2)
  {
    assert Used(z) + multiset{} == Used(z);
  }

  /** A table whose child at entry `p` of the node in focus is gone. */
  ghost predicate Hollow(m: Heap, z: Zip, p: int, free: set<Vbn>, all: set<Vbn>) {
    && z.h >= 2 && z.focus.Node? && 0 <= p < |z.focus.slots|
    && GoodFrame(m, Frame(z.focus, p), z.h) && PathOk(m, z.path, z.h, z.focus)
    && DirtyZip(z) && Owned(Used(z), free, all)
    && FullSlots(z.focus.slots, z.h - 1) && FullPath(z.path, z.h)
  }

  /** Slots that are sound, full and consistently dirty whatever the rest of the block is. */
  ghost predicate SlotsSound(m: Heap, ss: seq<Slot>, h: nat, dirty: bool) {
    h >= 1 && GoodSlots(m, ss, h) && FullSlots(ss, h - 1) && DirtySlots(ss, dirty)
  }

  /** The block in focus rewritten with other slots. */
  lemma Rewritten(m: Heap, m': Heap, z: Zip, ss: seq<Slot>, held: multiset<Vbn>, free: set<Vbn>, all: set<Vbn>)
    requires z.focus.Node? && z.h >= 1 && PathOk(m, z.path, z.h, z.focus) && z.focus.large == (z.h >= 2)
    requires SlotsSound(m, ss, z.h, z.focus.dirty) && DirtyPath(z.path, z.focus) && FullPath(z.path, z.h)
    requires Owned(Used(z), free, all) && FootS(ss) + held == FootS(z.focus.slots)
    requires z.focus.vbn in m' && m' == m[z.focus.vbn := m'[z.focus.vbn]] && Holds(m', WithSlots(z, ss).focus)
    ensures Loose(m', WithSlots(z, ss), held, free, all)
  {
    var z' := WithSlots(z, ss);
    RewrittenUsed(z, ss, held);
    RewrittenAgree(m, m', z, ss, held, free, all);
    SlotsFramed(m, m', ss, z.h);
    PathFramed(m, m', z.path, z.h, z.focus);
    SameChild(m', z.path, z.h, z.focus, z'.focus);
    DirtySameChild(z.path, z.focus, z'.focus);
  }

  lemma RewrittenUsed(z: Zip, ss: seq<Slot>, held: multiset<Vbn>)
    requires z.focus.Node? && FootS(ss) + held == FootS(z.focus.slots)
    ensures Used(WithSlots(z, ss)) + held == Used(z)
  {
    var a, v, s: multiset<Vbn> := FootP(z.path), multiset{z.focus.vbn}, FootS(ss);
    assert a + (v + s) + held == a + (v + (s + held));
  }

  lemma RewrittenAgree(m: Heap, m': Heap, z: Zip, ss: seq<Slot>, held: multiset<Vbn>, free: set<Vbn>, all: set<Vbn>)
    requires z.focus.Node? && Owned(Used(z), free, all) && FootS(ss) + held == FootS(z.focus.slots)
    requires z.focus.vbn in m' && m' == m[z.focus.vbn := m'[z.focus.vbn]]
    ensures Agree(m, m', FootS(ss)) && Agree(m, m', FootP(z.path)) && Agree(m, m', held)
  {
    FootNode(z.focus);
    assert Used(z) + multiset{} == Used(z);
    Apart(FootP(z.path), z.focus.vbn, FootS(z.focus.slots), multiset{}, free, all);
    AgreeSum(m, m', FootS(ss), held);
  }

  // ----- taking an entry out -----

  /** All slots but `p` are sound. */
  ghost predicate OthersSound(m: Heap, ss: seq<Slot>, h: nat, dirty: bool, p: nat) {
    h >= 1 && FullSlots(ss, h - 1) && DirtySlots(ss, dirty)
    && forall i :: 0 <= i < |ss| && i != p ==> GoodSlot(m, ss[i], h)
  }

  lemma OutSound(m: Heap, ss: seq<Slot>, h: nat, dirty: bool, p: nat)
    requires p < |ss| && OthersSound(m, ss, h, dirty, p)
    ensures SlotsSound(m, Out(ss, p), h, dirty)
  {
    var o := Out(ss, p);
    forall i | 0 <= i < |o| ensures GoodSlot(m, o[i], h) && FullSlot(o[i], h - 1) && DirtySlot(o[i], dirty) {
      var j := if i < p then i else i + 1;
      assert o[i] == ss[j] && FullSlot(ss[j], h - 1) && DirtySlot(ss[j], dirty);
    }
  }

  /** The last child is gone: END takes over the child of the entry before it. */
  lemma BaseSound(m: Heap, ss: seq<Slot>, h: nat, dirty: bool)
    requires |ss| >= 2 && h >= 2 && OthersSound(m, ss, h, dirty, |ss| - 1)
    ensures SlotsSound(m, Base(ss, |ss| - 2), h, dirty)
  {
    var p: nat := |ss| - 2;
    var b := Base(ss, p);
    forall i | 0 <= i < |b| ensures GoodSlot(m, b[i], h) && FullSlot(b[i], h - 1) && DirtySlot(b[i], dirty) {
      assert GoodSlot(m, ss[i], h) && FullSlot(ss[i], h - 1) && DirtySlot(ss[i], dirty);
    }
  }

  /** Removing an entry shrinks the block. */
  lemma OutHolds(m: Heap, m': Heap, n: Node, p: nat)
    requires Holds(m, n) && p < |n.slots|
    requires n.vbn in m' && m'[n.vbn].dirty == n.dirty && Chained(m'[n.vbn].ib)
    requires m'[n.vbn].ib.large == n.large && m'[n.vbn].ib.allocSize == n.alloc
    requires View(m'[n.vbn].ib) == View(m[n.vbn].ib)[..p] + View(m[n.vbn].ib)[p+1..]
    ensures Holds(m', n.(slots := Out(n.slots, p)))
  {
    OutEnts(n.slots, p);
    RemovedSize(Ents(n.slots), p, n.large);
  }

  /** A sound table, but for what lies below entry `p` of the node in focus. */
  ghost predicate Open(m: Heap, z: Zip, p: int, free: set<Vbn>, all: set<Vbn>) {
    && z.focus.Node? && z.h >= 1 && 0 <= p < |z.focus.slots| && PathOk(m, z.path, z.h, z.focus)
    && Holds(m, z.focus) && z.focus.large == (z.h >= 2)
    && OthersSound(m, z.focus.slots, z.h, z.focus.dirty, p) && DirtyPath(z.path, z.focus) && FullPath(z.path, z.h)
    && Owned(Used(z), free, all)
  }

  /** An entry is gone from the block in focus; the subtree left of it is set aside. */
  lemma TakenOut(m: Heap, m': Heap, z: Zip, p: nat, free: set<Vbn>, all: set<Vbn>)
    requires Open(m, z, p, free, all)
    requires z.focus.vbn in m' && m' == m[z.focus.vbn := m[z.focus.vbn].(ib := m'[z.focus.vbn].ib)]
    requires var ib, ib' := m[z.focus.vbn].ib, m'[z.focus.vbn].ib;
             && Chained(ib') && ib'.large == ib.large && ib'.allocSize == ib.allocSize
             && View(ib') == View(ib)[..p] + View(ib)[p+1..]
    ensures Loose(m', WithSlots(z, Out(z.focus.slots, p)), Foot(z.focus.slots[p].kid), free, all)
    ensures Agree(m, m', Foot(z.focus.slots[p].kid))
    ensures Contents(WithSlots(z, Out(z.focus.slots, p))) == Lead(z, p) + Tail(z, p + 1)
    ensures Lead(WithSlots(z, Out(z.focus.slots, p)), p) == Lead(z, p)
    ensures Tail(WithSlots(z, Out(z.focus.slots, p)), p) == Tail(z, p + 1)
  {
    hide ZipOk, PathOk, Good, Owned, Used, Foot, FootS, FlatS, FullSlots, FullPath, DirtyPath, Loose;
    OutSound(m, z.focus.slots, z.h, z.focus.dirty, p);
    OutFoot(z.focus.slots, p);
    OutHolds(m, m', z.focus, p);
    Rewritten(m, m', z, Out(z.focus.slots, p), Foot(z.focus.slots[p].kid), free, all);
    RewrittenAgree(m, m', z, Out(z.focus.slots, p), Foot(z.focus.slots[p].kid), free, all);
    OutContents(z, p);
  }

  lemma OutContents(z: Zip, p: nat)
    requires z.focus.Node? && p < |z.focus.slots|
    ensures Contents(WithSlots(z, Out(z.focus.slots, p))) == Lead(z, p) + Tail(z, p + 1)
    ensures Lead(WithSlots(z, Out(z.focus.slots, p)), p) == Lead(z, p)
    ensures Tail(WithSlots(z, Out(z.focus.slots, p)), p) == Tail(z, p + 1)
  {
    OutFlat(z.focus.slots, p);
    Assoc(LeftOf(z.path), FlatS(z.focus.slots[..p]), FlatS(z.focus.slots[p+1..]), RightOf(z.path));
  }

  /** What is known of the slots around an entry of a sound table. */
  lemma SoundOthers(m: Heap, z: Zip, p: nat, free: set<Vbn>, all: set<Vbn>)
    requires Sound(m, z, free, all) && p < |z.focus.slots|
    ensures Open(m, z, p, free, all)
  {
    forall i | 0 <= i < |z.focus.slots| ensures GoodSlot(m, z.focus.slots[i], z.h) {
      SlotGood(m, z.focus, z.h, i);
    }
  }

  lemma HollowOthers(m: Heap, z: Zip, p: nat, free: set<Vbn>, all: set<Vbn>)
    requires Hollow(m, z, p, free, all)
    ensures Open(m, z, p, free, all)
    ensures z.focus.slots[p].kid.Nil? && EntOk(z.focus.slots[p].ent) && z.h >= 2 && z.focus.large
    ensures forall i :: 0 <= i < |z.focus.slots| ==> EntOk(z.focus.slots[i].ent)
    ensures EndLast(Ents(z.focus.slots))
  {
    forall i | 0 <= i < |z.focus.slots| ensures EntOk(z.focus.slots[i].ent) {
      if i != p {
        assert GoodSlot(m, z.focus.slots[i], z.h);
      }
    }
  }

  /** Making the path dirty keeps a table as loose as it was. */
  lemma RedirtiedLoose(m: Heap, m': Heap, z: Zip, z': Zip, held: multiset<Vbn>, free: set<Vbn>, free': set<Vbn>,
                       all: set<Vbn>)
    requires Loose(m, z, held, free, all) && Redirtied(z, z')
    requires ZipOk(m', z') && Owned(Used(z') + held, free', all)
    ensures Loose(m', z', held, free', all) && Contents(z') == Contents(z) && z'.focus.dirty
    ensures z'.focus.Node? && z'.focus.slots == z.focus.slots && z'.h == z.h && z'.focus.large == z.focus.large
    ensures LeftOf(z'.path) == LeftOf(z.path) && RightOf(z'.path) == RightOf(z.path) && Depth(z'.path) == Depth(z.path)
    ensures RootSlots(z'.path, z'.focus) == RootSlots(z.path, z.focus)
    ensures z'.path.Up? <==> z.path.Up?
  {
    RedirtiedContents(z, z');
    RePathFull(z.path, z'.path, z.h);
    RePathRoot(z.path, z'.path, z.focus, z'.focus);
    forall i | 0 <= i < |z.focus.slots| ensures DirtyOk(z.focus.slots[i].kid) {
      SlotDirty(z.focus, i);
    }
    RedirtiedDirty(z, z');
  }

  // ----- freeing empty blocks -----

  /** The node in focus has no entries and no child: its block can be freed. */
  ghost predicate Emptied(m: Heap, z: Zip, free: set<Vbn>, all: set<Vbn>) {
    && z.h >= 1 && z.focus.Node? && FlatS(z.focus.slots) == [] && FootS(z.focus.slots) == multiset{}
    && PathOk(m, z.path, z.h, z.focus) && FullPath(z.path, z.h) && DirtyPath(z.path, z.focus)
    && Owned(Used(z), free, all)
  }

  lemma LooseEmptied(m: Heap, z: Zip, free: set<Vbn>, all: set<Vbn>)
    requires Loose(m, z, multiset{}, free, all) && z.h == 1 && |z.focus.slots| == 1
    ensures Emptied(m, z, free, all)
  {
    SlotGood(m, z.focus, z.h, 0);
    assert EndLast(Ents(z.focus.slots));
    OnlyEnd(z.focus.slots);
    assert Used(z) + multiset{} == Used(z);
  }

  lemma {:induction false} OnlyEnd(ss: seq<Slot>)
    requires |ss| == 1 && ss[0].kid.Nil? && EndLast(Ents(ss))
    ensures FlatS(ss) == [] && FootS(ss) == multiset{}
  {
    assert ss == [ss[0]] && Ents(ss)[0] == ss[0].ent;
    FlatOne(ss[0]);
    FootOne(ss[0]);
  }

  lemma HollowEmptied(m: Heap, z: Zip, free: set<Vbn>, all: set<Vbn>)
    requires Hollow(m, z, 0, free, all) && |z.focus.slots| == 1
    ensures Emptied(m, z, free, all)
  {
    OnlyEnd(z.focus.slots);
  }

  /** The parent's picture once the child in focus is gone. */
  function Orphaned(z: Zip): Zip
    requires z.path.Up?
  {
    Zip(z.path.above, z.path.f.node, z.h + 1)
  }

  lemma Freed(m: Heap, z: Zip, free: set<Vbn>, all: set<Vbn>)
    requires Emptied(m, z, free, all) && z.path.Up?
    ensures CanPop(z) && Pop(z).focus.Node? && z.focus.vbn !in free
    ensures Hollow(m - {z.focus.vbn}, Orphaned(z), z.path.f.pos, free + {z.focus.vbn}, all)
    ensures Contents(Orphaned(z)) == Contents(z)
    ensures Pop(z).focus.(slots := SetKid(Pop(z).focus.slots, z.path.f.pos, Nil)) == z.path.f.node
  {
    hide Good, GoodSlot, FootP, Owned, Flat, FlatS, Holds, PathOk, GoodFrame, Agree;
    var f, m' := z.path.f, m - {z.focus.vbn};
    FrameOf(m, z.path, z.h, z.focus);
    FreedUsed(m, z, free, all);
    FrameFramed(m, m', f, z.h + 1);
    PathFramed(m, m', z.path.above, z.h + 1, f.node);
    PopPush(z);
    OrphanedFlat(z);
  }

  lemma FreedUsed(m: Heap, z: Zip, free: set<Vbn>, all: set<Vbn>)
    requires z.path.Up? && z.focus.Node? && FootS(z.focus.slots) == multiset{} && Owned(Used(z), free, all)
    ensures z.focus.vbn !in free && Owned(Used(Orphaned(z)), free + {z.focus.vbn}, all)
    ensures Agree(m, m - {z.focus.vbn}, Foot(z.path.f.node)) && Agree(m, m - {z.focus.vbn}, FootP(z.path.above))
  {
    var v, none: multiset<Vbn> := z.focus.vbn, multiset{};
    FootNode(z.focus);
    assert Used(z) + none == FootP(z.path) + (multiset{v} + none) + none;
    Apart(FootP(z.path), v, none, none, free, all);
    AgreeSum(m, m - {v}, FootP(z.path.above), Foot(z.path.f.node));
    Released(FootP(z.path), v, free, all);
  }

  lemma Released(used: multiset<Vbn>, v: Vbn, free: set<Vbn>, all: set<Vbn>)
    requires Owned(used + multiset{v}, free, all) && v !in free
    ensures Owned(used, free + {v}, all)
  {
    assert multiset(free + {v}) == multiset(free) + multiset{v};
    assert used + multiset{v} + multiset(free) == used + multiset(free + {v});
  }

  lemma OrphanedFlat(z: Zip)
    requires z.path.Up? && z.focus.Node? && FlatS(z.focus.slots) == []
    requires var f := z.path.f; f.node.Node? && f.pos < |f.node.slots|
    ensures Contents(Orphaned(z)) == Contents(z)
  {
    var f := z.path.f;
    FlatAt(f.node.slots, f.pos);
    Closed(LeftOf(z.path.above), FlatS(f.node.slots[..f.pos]), FlatS(f.node.slots[f.pos..]), RightOf(z.path.above));
  }

  lemma Closed<T>(l: seq<T>, a: seq<T>, b: seq<T>, r: seq<T>)
    ensures (l + a) + [] + (b + r) == l + (a + b) + r
  {
  }

  /** The empty root becomes a leaf. */
  lemma MadeSmall(m: Heap, m': Heap, z: Zip, free: set<Vbn>, all: set<Vbn>)
    requires Hollow(m, z, 0, free, all) && z.path.Top? && |z.focus.slots| == 1
    requires z.focus.vbn in m' && m' == m[z.focus.vbn := m[z.focus.vbn].(ib := m'[z.focus.vbn].ib)]
    requires var ib, ib' := m[z.focus.vbn].ib, m'[z.focus.vbn].ib;
             Chained(ib') && View(ib') == [End(0)] && !ib'.large && ib'.allocSize == ib.allocSize
    ensures var z' := Zip(Top, z.focus.(large := false, slots := [Slot(End(0), Nil)]), 1);
            Loose(m', z', multiset{}, free, all) && Contents(z') == Contents(z) && z'.path.Top?
  {
    var s := Slot(End(0), Nil);
    var z' := Zip(Top, z.focus.(large := false, slots := [s]), 1);
    OnlyEnd(z.focus.slots);
    assert Ents([s]) == [End(0)];
    OnlyEnd([s]);
    TotalLenOne(End(0), false);
    assert GoodSlot(m', s, 1) && FullSlot(s, 0) && DirtySlot(s, z.focus.dirty);
    assert DirtySlots([s], z.focus.dirty) && DirtyOk(z'.focus);
    assert Used(z) + multiset{} == Used(z);
    assert Used(z') == Used(z);
  }

  /** The last child is gone, and END has taken over the child of the entry before it. */
  lemma Closing(m: Heap, m': Heap, z: Zip, free: set<Vbn>, all: set<Vbn>)
    requires z.focus.Node? && Hollow(m, z, |z.focus.slots| - 1, free, all) && |z.focus.slots| >= 2
    requires z.focus.vbn in m' && m' == m[z.focus.vbn := m[z.focus.vbn].(ib := m'[z.focus.vbn].ib)]
    requires var ib, ib', q := m[z.focus.vbn].ib, m'[z.focus.vbn].ib, |View(m[z.focus.vbn].ib)| - 2;
             && q == |z.focus.slots| - 2 && Chained(ib') && ib'.large == ib.large && ib'.allocSize == ib.allocSize
             && View(ib') == View(ib)[..q] + [End(View(ib)[q].vbn)]
    ensures Loose(m', WithSlots(z, Base(z.focus.slots, |z.focus.slots| - 2)), multiset{}, free, all)
    ensures ClosedAt(z, WithSlots(z, Base(z.focus.slots, |z.focus.slots| - 2)))
  {
    hide ZipOk, PathOk, Good, Owned, Used, Foot, FootS, FlatS, FullSlots, FullPath, DirtyPath, Loose, ClosedAt;
    var ss := z.focus.slots;
    var q: nat := |ss| - 2;
    HollowOthers(m, z, q + 1, free, all);
    BaseSound(m, ss, z.h, z.focus.dirty);
    BaseFoot(ss);
    BaseHolds(m, m', z.focus);
    Rewritten(m, m', z, Base(ss, q), multiset{}, free, all);
    BaseContents(z);
  }

  /** `z'` is `z` with its last entry before END taken out and END leading where that entry led. */
  ghost predicate ClosedAt(z: Zip, z': Zip) {
    && z.focus.Node? && |z.focus.slots| >= 2 && z'.focus.Node? && |z'.focus.slots| == |z.focus.slots| - 1
    && var q: nat := |z.focus.slots| - 2;
       && z.focus.slots[q].ent.Ent?
       && Contents(z) == Upto(z', q) + Pay(z.focus.slots[q].ent) + RightOf(z'.path)
       && Contents(z') == Upto(z', q) + RightOf(z'.path)
  }

  lemma BaseFoot(ss: seq<Slot>)
    requires |ss| >= 2 && ss[|ss| - 1].kid.Nil?
    ensures FootS(Base(ss, |ss| - 2)) + multiset{} == FootS(ss)
  {
    var q: nat := |ss| - 2;
    var e := Slot(End(ss[q].ent.vbn), ss[q].kid);
    FootConcat(ss[..q], [e]);
    FootOne(e);
    FootAt(ss, q);
    assert ss[q+1..] == [ss[q+1]];
    FootOne(ss[q+1]);
  }

  lemma BaseHolds(m: Heap, m': Heap, n: Node)
    requires Holds(m, n) && |n.slots| >= 2
    requires n.vbn in m' && m'[n.vbn].dirty == n.dirty && Chained(m'[n.vbn].ib)
    requires m'[n.vbn].ib.large == n.large && m'[n.vbn].ib.allocSize == n.alloc
    requires var v, q := View(m[n.vbn].ib), |n.slots| - 2;
             q < |v| && View(m'[n.vbn].ib) == v[..q] + [End(v[q].vbn)]
    ensures Holds(m', n.(slots := Base(n.slots, |n.slots| - 2)))
  {
    var q: nat := |n.slots| - 2;
    var es := Ents(n.slots);
    BaseEnts(n.slots, q);
    TotalLenAt(es, q, n.large);
    TotalLenConcat(es[..q], [End(es[q].vbn)], n.large);
    TotalLenOne(End(es[q].vbn), n.large);
  }

  lemma BaseContents(z: Zip)
    requires z.focus.Node? && |z.focus.slots| >= 2 && EndLast(Ents(z.focus.slots))
    requires z.focus.slots[|z.focus.slots| - 1].kid.Nil?
    ensures ClosedAt(z, WithSlots(z, Base(z.focus.slots, |z.focus.slots| - 2)))
  {
    var ss := z.focus.slots;
    var q: nat := |ss| - 2;
    var z' := WithSlots(z, Base(ss, q));
    assert Ents(ss)[q] == ss[q].ent && Ents(ss)[q+1] == ss[q+1].ent;
    BaseFlat(ss, q);
    FlatAt(ss, q);
    assert ss[q+1..] == [ss[q+1]];
    FlatOne(ss[q+1]);
    UptoEnd(z', q);
    Sealed(LeftOf(z.path), FlatS(ss[..q]), Flat(ss[q].kid), Pay(ss[q].ent), RightOf(z.path));
  }

  lemma Sealed<T>(l: seq<T>, a: seq<T>, k: seq<T>, e: seq<T>, r: seq<T>)
    ensures l + (a + ((k + e) + ([] + []))) + r == (l + (a + k)) + e + r
  {
  }

  // ----- the separator in its new leaf -----

  lemma LeafPend(m: Heap, z: Zip, p: nat, ie: IndexEntry, free: set<Vbn>, all: set<Vbn>)
    requires Sound(m, z, free, all) && z.h == 1 && p < |z.focus.slots|
    requires EntryOk(ie, false) && !ie.isEnd && EntOk(Strip(ie))
    ensures Inserting(m, z, p, ie, Nil, free, all)
  {
    assert Used(z) + Foot(Nil) == Used(z);
  }

  /** A leaf entry placed where the list splits into `u` and the rest. */
  lemma LeafPending(z: Zip, p: nat, e: Ent, u: seq<KV>)
    requires z.focus.Node? && p < |z.focus.slots| && e.Ent? && Lead(z, p) == u
    ensures |u| <= |Contents(z)| && Contents(z) == u + Contents(z)[|u|..]
    ensures WithPending(z, p, Slot(e, Nil)) == u + Pay(e) + Contents(z)[|u|..]
  {
    LeadTail(z, p);
    assert Contents(z)[|u|..] == Tail(z, p);
    assert FlatSlot(Slot(e, Nil)) == Pay(e);
  }

  lemma {:induction false} NonEmptyFlat(m: Heap, n: Node, h: nat)
    requires h >= 1 && Good(m, n, h) && Full(n, h)
    ensures |Flat(n)| >= 1
  {
    SlotGood(m, n, h, 0);
    FlatAt(n.slots, 0);
    assert EndLast(Ents(n.slots)) && Ents(n.slots)[0] == n.slots[0].ent;
    if h >= 2 {
      SlotFull(n.slots, h - 1, 0);
      NonEmptyFlat(m, n.slots[0].kid, h - 1);
    }
  }

  lemma KidFlat(m: Heap, z: Zip, p: nat, free: set<Vbn>, all: set<Vbn>)
    requires Sound(m, z, free, all) && z.h >= 2 && p < |z.focus.slots|
    ensures |Flat(z.focus.slots[p].kid)| >= 1
  {
    SlotGood(m, z.focus, z.h, p);
    SlotFull(z.focus.slots, z.h - 1, p);
    NonEmptyFlat(m, z.focus.slots[p].kid, z.h - 1);
  }

  lemma {:induction false} MeasureBound(m: Heap, z: Zip)
    requires ZipOk(m, z)
    ensures Measure(z) < TREE_MAX_DEPTH + 2
  {
    DepthBound(m, z.path, z.h, z.focus);
  }

  // ----- replacing an entry by its successor -----

  /** The list without its entry `i`. */
  function Without(l: seq<KV>, i: nat): seq<KV>
    requires i < |l|
  {
    l[..i] + l[i+1..]
  }

  /** The list with entry `r` replaced by the one after it, which is then there twice. */
  function Doubled(l: seq<KV>, r: nat): (d: seq<KV>)
    requires r + 1 < |l|
    ensures |d| == |l|
  {
    l[r := l[r + 1]]
  }

  /** The list holds no entry twice. */
  ghost predicate Distinct(l: seq<KV>) {
    forall i, j :: 0 <= i < j < |l| ==> l[i] != l[j]
  }

  /** Removing either copy of the successor completes the removal, and removing anything else does not. */
  lemma DoubledWithout(l: seq<KV>, r: nat, j: nat)
    requires r + 1 < |l| && j < |l|
    ensures j == r || j == r + 1 ==> Without(Doubled(l, r), j) == Without(l, r)
    ensures Distinct(l) && j != r && j != r + 1 ==> Without(Doubled(l, r), j) != Without(l, r)
  {
    var d := Doubled(l, r);
    if j == r || j == r + 1 {
      assert Without(d, j) == Without(l, r);
    } else if Distinct(l) {
      var i := if j < r then r - 1 else r;
      assert Without(d, j)[i] == l[r + 1] && Without(d, j)[i + 1] == l[r + 1];
      assert Without(l, r)[i] != Without(l, r)[i + 1];
    }
  }

  /** With the current entry out, its successor does not fit in its place. */
  ghost predicate ReplacementSplits(z: Zip, p: int)
    requires z.focus.Node? && p < |z.focus.slots|
  {
    && 0 <= p && Rank(z, p) + 1 < |Contents(z)|
    && var succ := Contents(z)[Rank(z, p) + 1];
       ViewSize(Ents(z.focus.slots), true) + EntLen(Ent(succ.key, succ.value, 0), true)
       > BLOCK_SIZE + EntLen(z.focus.slots[p].ent, true)
  }

  /** Removing entry `p` goes wrong: it is in an inner block and its replacement makes the block split. */
  ghost predicate Misplaces(z: Zip, p: int)
    requires z.focus.Node? && p < |z.focus.slots|
  {
    z.h >= 2 && ReplacementSplits(z, p)
  }

  /** A successor no longer than the entry it replaces never makes the block split. */
  lemma ShortReplacement(m: Heap, z: Zip, p: nat)
    requires ZipOk(m, z) && p < |z.focus.slots| && Rank(z, p) + 1 < |Contents(z)|
    requires var e, succ := z.focus.slots[p].ent, Contents(z)[Rank(z, p) + 1];
             e.Ent? && |succ.key| + |succ.value| <= |e.key| + |e.value|
    ensures !Misplaces(z, p)
  {
  }

  /** The successor with the old entry's child is ready to go where the old entry was. */
  lemma NodePend(m: Heap, m': Heap, z: Zip, z': Zip, p: nat, succ: IndexEntry, free: set<Vbn>, free': set<Vbn>,
                 all: set<Vbn>)
    requires Sound(m, z, free, all) && z.h >= 2 && p < |z.focus.slots| - 1
    requires Loose(m', z', Foot(z.focus.slots[p].kid), free', all) && z'.h == z.h && z'.focus.Node? && z'.focus.dirty
    requires Agree(m, m', Foot(z.focus.slots[p].kid)) && p < |z'.focus.slots|
    requires EntryOk(succ, true) && !succ.isEnd && EntOk(Strip(succ)) && succ.vbn == z.focus.slots[p].ent.vbn
    ensures Inserting(m', z', p, succ, z.focus.slots[p].kid, free', all) && ZipOk(m', z')
  {
    hide Good, Agree, DirtyPath, PathOk, FullPath, Owned, Full, DirtyOk, Foot;
    NodePendSlot(m, m', z, p, succ, free, all);
    LooseParts(m', z', Foot(z.focus.slots[p].kid), free', all);
  }

  lemma LooseParts(m: Heap, z: Zip, held: multiset<Vbn>, free: set<Vbn>, all: set<Vbn>)
    requires Loose(m, z, held, free, all) && z.h >= 2
    ensures ZipOk(m, z) && FullZip(z) && DirtyZip(z) && Owned(Used(z) + held, free, all)
  {
  }

  lemma NodePendSlot(m: Heap, m': Heap, z: Zip, p: nat, succ: IndexEntry, free: set<Vbn>, all: set<Vbn>)
    requires Sound(m, z, free, all) && z.h >= 2 && p < |z.focus.slots| - 1 && Agree(m, m', Foot(z.focus.slots[p].kid))
    requires EntryOk(succ, true) && !succ.isEnd && EntOk(Strip(succ)) && succ.vbn == z.focus.slots[p].ent.vbn
    ensures PendOk(m', succ, z.focus.slots[p].kid, z.h)
  {
    hide Agree, DirtyPath, PathOk, FullPath, Owned, Foot;
    var lk := z.focus.slots[p].kid;
    SlotGood(m, z.focus, z.h, p);
    SlotFull(z.focus.slots, z.h - 1, p);
    SlotDirty(z.focus, p);
    GoodFramed(m, m', lk, z.h - 1);
    assert GoodSlot(m', Slot(Strip(succ), lk), z.h);
  }

  /** What inserting the successor in place of entry `p` amounts to. */
  lemma Replacing(z: Zip, z': Zip, p: nat, succ: Ent, len: nat)
    requires z.focus.Node? && z'.focus.Node? && p < |z.focus.slots| - 1 && z'.focus.slots == Out(z.focus.slots, p)
    requires z'.focus.large && z.focus.large && succ.Ent? && len == EntLen(succ, true)
    requires Lead(z', p) == Lead(z, p) && Tail(z', p) == Tail(z, p + 1) && z.focus.slots[p].ent.Ent?
    requires Rank(z, p) + 1 < |Contents(z)| && Contents(z)[Rank(z, p) + 1] == KV(succ.key, succ.value)
    ensures p < |z'.focus.slots| && z'.focus.slots[p].kid == z.focus.slots[p + 1].kid
    ensures WithPending(z', p, Slot(succ, z.focus.slots[p].kid)) == Doubled(Contents(z), Rank(z, p))
    ensures PendRank(z', p, z.focus.slots[p].kid) == Rank(z, p)
    ensures Lead(z', p) + Flat(z.focus.slots[p].kid) == Upto(z, p)
    ensures NeedsSplit(z', len) <==> ReplacementSplits(z, p)
  {
    RankNext(z, p);
    var u, kv, was, t := Upto(z, p), KV(succ.key, succ.value), Pay(z.focus.slots[p].ent)[0], Tail(z, p + 1);
    ReplacedAt(u, was, kv, t);
    assert FlatSlot(Slot(succ, z.focus.slots[p].kid)) == Flat(z.focus.slots[p].kid) + [kv];
    AssocLead(Lead(z, p), Flat(z.focus.slots[p].kid), [kv]);
    OutEnts(z.focus.slots, p);
    RemovedSize(Ents(z.focus.slots), p, true);
  }

  lemma ReplacedAt<T>(u: seq<T>, x: T, y: T, t: seq<T>)
    ensures (u + [x] + t)[|u| := y] == u + [y] + t
  {
  }

  /** The entry the walk has come to is the successor. */
  lemma SuccFacts(z0: Zip, p: int, z: Zip, q: int)
    requires z0.focus.Node? && 0 <= p < |z0.focus.slots| && z.focus.Node? && 0 <= q < |z.focus.slots|
    requires AtEntry(z, q) && Rank(z, q) == Following(z0, p) && Contents(z) == Contents(z0)
    ensures Rank(z0, p) + 1 < |Contents(z0)| && z.focus.slots[q].ent.Ent?
    ensures Contents(z0)[Rank(z0, p) + 1] == KV(z.focus.slots[q].ent.key, z.focus.slots[q].ent.value)
  {
  }
}
