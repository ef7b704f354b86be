/**
  What the cached blocks of a table mean.

  `Node` is the picture of a subtree: a block together with the subtrees its
  entries lead to.  A `Zip` is the picture of a whole table seen from its
  cursor: the node in focus and, above it, one `Frame` for each block of the
  cache stack, a node with a hole where the cursor went down.  `Good` and
  `PathOk` tie a picture to the blocks of a heap; `Flat` is the in-order list of
  a picture, `Foot` the block numbers it occupies.
*/
module BTreeShape {
  import opened IndexBlock

  const TREE_MAX_DEPTH := 16

  datatype Slot = Slot(ent: Ent, kid: Node)
  datatype Node = Nil | Node(vbn: Vbn, large: bool, dirty: bool, alloc: nat, slots: seq<Slot>)
  datatype Frame = Frame(node: Node, pos: nat)
  datatype Path = Top | Up(above: Path, f: Frame)
  datatype Zip = Zip(path: Path, focus: Node, h: nat)

  /** A block in the cache: its content and whether it differs from the disk. */
  datatype Cached = Cached(ib: IndexBlock, dirty: bool)
  type Heap = map<Vbn, Cached>

  function Ents(ss: seq<Slot>): (es: seq<Ent>)
    ensures |es| == |ss| && forall i :: 0 <= i < |ss| ==> es[i] == ss[i].ent
  {
    seq(|ss|, i requires 0 <= i < |ss| => ss[i].ent)
  }

  // ----- in-order contents -----

  function Pay(e: Ent): seq<KV> {
    if e.Ent? then [KV(e.key, e.value)] else []
  }

  function Flat(n: Node): seq<KV>
  {
    if n.Nil? then [] else FlatS(n.slots)
  }

  function FlatSlot(s: Slot): seq<KV> {
    Flat(s.kid) + Pay(s.ent)
  }

  function FlatS(ss: seq<Slot>): seq<KV> {
    if ss == [] then [] else FlatSlot(ss[0]) + FlatS(ss[1..])
  }

  lemma {:induction false} FlatConcat(a: seq<Slot>, b: seq<Slot>)
    ensures FlatS(a + b) == FlatS(a) + FlatS(b)
  {
    if a == [] {
      assert a + b == b;
    } else {
      assert (a + b)[1..] == a[1..] + b;
      FlatConcat(a[1..], b);
    }
  }

  lemma FlatOne(s: Slot)
    ensures FlatS([s]) == FlatSlot(s)
  {
    assert FlatS([s]) == FlatSlot(s) + FlatS([s][1..]);
  }

  lemma FlatAt(ss: seq<Slot>, i: nat)
    requires i < |ss|
    ensures FlatS(ss) == FlatS(ss[..i]) + FlatS(ss[i..])
    ensures FlatS(ss[i..]) == FlatSlot(ss[i]) + FlatS(ss[i+1..])
    ensures FlatS(ss[..i+1]) == FlatS(ss[..i]) + FlatSlot(ss[i])
  {
    assert ss == ss[..i] + ss[i..];
    FlatConcat(ss[..i], ss[i..]);
    assert ss[i..][1..] == ss[i+1..];
    assert ss[..i+1] == ss[..i] + [ss[i]];
    FlatConcat(ss[..i], [ss[i]]);
    FlatOne(ss[i]);
  }

  /** Contents left of a frame's hole, and from the hole's entry on. */
  function FrameLeft(f: Frame): seq<KV> {
    if f.node.Node? && f.pos < |f.node.slots| then FlatS(f.node.slots[..f.pos]) else []
  }

  function FrameRight(f: Frame): seq<KV> {
    if f.node.Node? && f.pos < |f.node.slots| then FlatS(f.node.slots[f.pos..]) else []
  }

  function LeftOf(path: Path): seq<KV> {
    match path
    case Top => []
    case Up(above, f) => LeftOf(above) + FrameLeft(f)
  }

  function RightOf(path: Path): seq<KV> {
    match path
    case Top => []
    case Up(above, f) => FrameRight(f) + RightOf(above)
  }

  /** The in-order list of the whole table. */
  function Contents(z: Zip): seq<KV> {
    LeftOf(z.path) + Flat(z.focus) + RightOf(z.path)
  }

  // ----- block numbers in use -----

  function Foot(n: Node): multiset<Vbn> {
    if n.Nil? then multiset{} else multiset{n.vbn} + FootS(n.slots)
  }

  function FootSlot(s: Slot): multiset<Vbn> {
    Foot(s.kid)
  }

  function FootS(ss: seq<Slot>): multiset<Vbn> {
    if ss == [] then multiset{} else FootSlot(ss[0]) + FootS(ss[1..])
  }

  function FootP(path: Path): multiset<Vbn> {
    match path
    case Top => multiset{}
    case Up(above, f) => FootP(above) + Foot(f.node)
  }

  function Used(z: Zip): multiset<Vbn> {
    FootP(z.path) + Foot(z.focus)
  }

  /** Every block number is used once or free, and together they are `all`. */
  ghost predicate Owned(used: multiset<Vbn>, free: set<Vbn>, all: set<Vbn>) {
    used + multiset(free) == multiset(all) && 0 !in all
  }

  lemma FootNode(n: Node)
    requires n.Node?
    ensures Foot(n) == multiset{n.vbn} + FootS(n.slots)
  {
  }

  lemma {:induction false} FootConcat(a: seq<Slot>, b: seq<Slot>)
    ensures FootS(a + b) == FootS(a) + FootS(b)
  {
    if a == [] {
      assert a + b == b;
    } else {
      assert (a + b)[1..] == a[1..] + b;
      FootConcat(a[1..], b);
    }
  }

  lemma {:induction false} LeafFoot(ss: seq<Slot>)
    requires forall i :: 0 <= i < |ss| ==> ss[i].kid.Nil?
    ensures FootS(ss) == multiset{}
  {
    if ss != [] {
      assert FootSlot(ss[0]) == multiset{};
      LeafFoot(ss[1..]);
    }
  }

  lemma FootAt(ss: seq<Slot>, i: nat)
    requires i < |ss|
    ensures FootS(ss) == FootS(ss[..i]) + FootS(ss[i..])
    ensures FootS(ss[i..]) == FootSlot(ss[i]) + FootS(ss[i+1..])
  {
    assert ss == ss[..i] + ss[i..];
    FootConcat(ss[..i], ss[i..]);
    assert ss[i..][1..] == ss[i+1..];
  }

  /** Putting another kid in a slot. */
  function SetKid(ss: seq<Slot>, i: nat, kid: Node): seq<Slot>
    requires i < |ss|
  {
    ss[i := ss[i].(kid := kid)]
  }

  lemma SetKidOutside(ss: seq<Slot>, i: nat, kid: Node)
    requires i < |ss|
    ensures SetKid(ss, i, kid)[..i] == ss[..i] && SetKid(ss, i, kid)[i+1..] == ss[i+1..]
    ensures Ents(SetKid(ss, i, kid)) == Ents(ss)
  {
  }

  lemma FootSetKid(ss: seq<Slot>, i: nat, kid: Node)
    requires i < |ss|
    ensures FootS(SetKid(ss, i, kid)) + Foot(ss[i].kid) == FootS(ss) + Foot(kid)
  {
    FootAt(ss, i);
    FootAt(SetKid(ss, i, kid), i);
    SetKidOutside(ss, i, kid);
  }

  // ----- a picture and the heap -----

  /** Block `n.vbn` of the heap is the block pictured by `n`. */
  ghost predicate Holds(m: Heap, n: Node) {
    && n.Node? && n.vbn in m && m[n.vbn].dirty == n.dirty
    && Chained(m[n.vbn].ib)
    && m[n.vbn].ib.large == n.large && m[n.vbn].ib.allocSize == n.alloc
    && View(m[n.vbn].ib) == Ents(n.slots)
    && ViewSize(Ents(n.slots), n.large) <= n.alloc
  }

  /** The slot's entry leads to its kid. */
  ghost predicate LinkOk(s: Slot, h: nat) {
    if h <= 1 then s.ent.vbn == 0
    else s.kid.Node? && s.ent.vbn == s.kid.vbn && s.kid.alloc == BLOCK_SIZE
  }

  /** `n` pictures the subtree of height `h` (a leaf has height 1) at block `n.vbn`. */
  ghost predicate Good(m: Heap, n: Node, h: nat)
    decreases h, 2
  {
    if h == 0 then n.Nil?
    else Holds(m, n) && n.large == (h >= 2) && GoodSlots(m, n.slots, h)
  }

  ghost predicate GoodSlots(m: Heap, ss: seq<Slot>, h: nat)
    requires h >= 1
    decreases h, 1
  {
    forall i :: 0 <= i < |ss| ==> GoodSlot(m, ss[i], h)
  }

  ghost predicate GoodSlot(m: Heap, s: Slot, h: nat)
    requires h >= 1
    decreases h, 0
  {
    EntOk(s.ent) && LinkOk(s, h) && Good(m, s.kid, h - 1)
  }

  /** The entry at the hole of a frame. */
  function HoleEnt(f: Frame): Ent
    requires f.node.Node? && f.pos < |f.node.slots|
  {
    f.node.slots[f.pos].ent
  }

  /** A large node whose kid at `f.pos` is missing. */
  ghost predicate GoodFrame(m: Heap, f: Frame, h: nat) {
    && h >= 2 && Holds(m, f.node) && f.node.large
    && f.pos < |f.node.slots| && f.node.slots[f.pos].kid.Nil? && EntOk(HoleEnt(f))
    && forall i :: 0 <= i < |f.node.slots| && i != f.pos ==> GoodSlot(m, f.node.slots[i], h)
  }

  /** The frames above `child`, a node of height `h`, down from the root. */
  ghost predicate PathOk(m: Heap, path: Path, h: nat, child: Node) {
    && child.Node?
    && match path
       case Top => child.alloc == ROOT_SIZE && h <= TREE_MAX_DEPTH
       case Up(above, f) =>
         && GoodFrame(m, f, h + 1) && HoleEnt(f).vbn == child.vbn && child.alloc == BLOCK_SIZE
         && PathOk(m, above, h + 1, f.node)
  }

  /** The cursor's surroundings are exactly as pictured. */
  ghost predicate ZipOk(m: Heap, z: Zip) {
    z.h >= 1 && Good(m, z.focus, z.h) && PathOk(m, z.path, z.h, z.focus)
  }

  // ----- no empty leaves -----

  /** No leaf of the subtree, whose leaves are `h` levels down, holds just END. */
  ghost predicate Full(n: Node, h: nat) {
    n.Node? ==> (h <= 1 ==> |n.slots| >= 2) && FullSlots(n.slots, if h == 0 then 0 else h - 1)
  }

  ghost predicate FullSlot(s: Slot, h: nat) {
    Full(s.kid, h)
  }

  ghost predicate FullSlots(ss: seq<Slot>, h: nat) {
    forall i :: 0 <= i < |ss| ==> FullSlot(ss[i], h)
  }

  ghost predicate FullPath(path: Path, h: nat) {
    match path
    case Top => true
    case Up(above, f) => f.node.Node? && FullSlots(f.node.slots, h) && FullPath(above, h + 1)
  }

  /** No leaf is empty, except a root without children. */
  ghost predicate FullZip(z: Zip) {
    && z.h >= 1 && z.focus.Node? && FullSlots(z.focus.slots, z.h - 1) && FullPath(z.path, z.h)
    && (z.path.Up? && z.h == 1 ==> |z.focus.slots| >= 2)
  }

  // ----- dirtiness -----

  ghost predicate KidClean(s: Slot, dirty: bool) {
    s.kid.Node? && s.kid.dirty ==> dirty
  }

  /** Below a clean block everything is clean. */
  ghost predicate DirtyOk(n: Node) {
    n.Node? ==> DirtySlots(n.slots, n.dirty)
  }

  ghost predicate DirtySlot(s: Slot, dirty: bool) {
    KidClean(s, dirty) && DirtyOk(s.kid)
  }

  ghost predicate DirtySlots(ss: seq<Slot>, dirty: bool) {
    forall i :: 0 <= i < |ss| ==> DirtySlot(ss[i], dirty)
  }

  ghost predicate DirtyPath(path: Path, child: Node) {
    && child.Node?
    && match path
       case Top => true
       case Up(above, f) =>
         && f.node.Node? && (child.dirty ==> f.node.dirty)
         && DirtyOk(f.node) && DirtyPath(above, f.node)
  }

  ghost predicate DirtyZip(z: Zip) {
    DirtyOk(z.focus) && DirtyPath(z.path, z.focus)
  }

  /** What `Good` says of one slot. */
  lemma SlotGood(m: Heap, n: Node, h: nat, i: nat)
    requires h >= 1 && Good(m, n, h) && i < |n.slots|
    ensures GoodSlot(m, n.slots[i], h)
    ensures EntOk(n.slots[i].ent) && LinkOk(n.slots[i], h) && Good(m, n.slots[i].kid, h - 1)
  {
    assert GoodSlots(m, n.slots, h);
    assert GoodSlot(m, n.slots[i], h);
  }

  lemma SlotDirty(n: Node, i: nat)
    requires n.Node? && DirtyOk(n) && i < |n.slots|
    ensures KidClean(n.slots[i], n.dirty) && DirtyOk(n.slots[i].kid)
  {
    assert DirtySlots(n.slots, n.dirty);
    assert DirtySlot(n.slots[i], n.dirty);
  }

  // ----- framing -----

  /** The blocks of `foot` are untouched. */
  ghost predicate Agree(m: Heap, m': Heap, foot: multiset<Vbn>) {
    forall v :: v in foot && v in m ==> v in m' && m[v] == m'[v]
  }

  lemma AgreeSum(m: Heap, m': Heap, a: multiset<Vbn>, b: multiset<Vbn>)
    ensures Agree(m, m', a + b) <==> Agree(m, m', a) && Agree(m, m', b)
  {
    forall v | v in a ensures v in a + b {}
    forall v | v in b ensures v in a + b {}
  }

  lemma AgreeSlot(m: Heap, m': Heap, ss: seq<Slot>, i: nat)
    requires i < |ss| && Agree(m, m', FootS(ss))
    ensures Agree(m, m', Foot(ss[i].kid))
  {
    FootAt(ss, i);
    AgreeSum(m, m', FootS(ss[..i]), FootS(ss[i..]));
    AgreeSum(m, m', FootSlot(ss[i]), FootS(ss[i+1..]));
  }

  lemma HoldsFramed(m: Heap, m': Heap, n: Node)
    requires Holds(m, n) && Agree(m, m', Foot(n))
    ensures Holds(m', n) && Agree(m, m', FootS(n.slots))
  {
    AgreeSum(m, m', multiset{n.vbn}, FootS(n.slots));
    assert n.vbn in multiset{n.vbn};
  }

  lemma {:induction false} GoodFramed(m: Heap, m': Heap, n: Node, h: nat)
    requires Good(m, n, h) && Agree(m, m', Foot(n))
    ensures Good(m', n, h)
    decreases h, 2
  {
    if h > 0 {
      HoldsFramed(m, m', n);
      SlotsFramed(m, m', n.slots, h);
    }
  }

  lemma {:induction false} SlotFramed(m: Heap, m': Heap, s: Slot, h: nat)
    requires h >= 1 && GoodSlot(m, s, h) && Agree(m, m', Foot(s.kid))
    ensures GoodSlot(m', s, h)
    decreases h, 0
  {
    GoodFramed(m, m', s.kid, h - 1);
  }

  lemma {:induction false} SlotsFramed(m: Heap, m': Heap, ss: seq<Slot>, h: nat)
    requires h >= 1 && GoodSlots(m, ss, h) && Agree(m, m', FootS(ss))
    ensures GoodSlots(m', ss, h)
    decreases h, 1
  {
    forall i | 0 <= i < |ss| ensures GoodSlot(m', ss[i], h) {
      AgreeSlot(m, m', ss, i);
      SlotFramed(m, m', ss[i], h);
    }
  }

  lemma FrameFramed(m: Heap, m': Heap, f: Frame, h: nat)
    requires GoodFrame(m, f, h) && Agree(m, m', Foot(f.node))
    ensures GoodFrame(m', f, h)
  {
    HoldsFramed(m, m', f.node);
    forall i | 0 <= i < |f.node.slots| && i != f.pos ensures GoodSlot(m', f.node.slots[i], h) {
      AgreeSlot(m, m', f.node.slots, i);
      SlotFramed(m, m', f.node.slots[i], h);
    }
  }

  lemma {:induction false} PathFramed(m: Heap, m': Heap, path: Path, h: nat, child: Node)
    requires PathOk(m, path, h, child) && Agree(m, m', FootP(path))
    ensures PathOk(m', path, h, child)
    decreases path
  {
    if path.Up? {
      AgreeSum(m, m', FootP(path.above), Foot(path.f.node));
      FrameFramed(m, m', path.f, h + 1);
      PathFramed(m, m', path.above, h + 1, path.f.node);
    }
  }

  // ----- moving the cursor one level -----

  function Push(z: Zip, p: nat): Zip
    requires z.focus.Node? && p < |z.focus.slots| && z.h >= 1
  {
    Zip(Up(z.path, Frame(z.focus.(slots := SetKid(z.focus.slots, p, Nil)), p)), z.focus.slots[p].kid, z.h - 1)
  }

  predicate CanPop(z: Zip) {
    z.path.Up? && z.path.f.node.Node? && z.path.f.pos < |z.path.f.node.slots|
    && z.path.f.node.slots[z.path.f.pos].kid.Nil?
  }

  function Pop(z: Zip): Zip
    requires CanPop(z)
  {
    Zip(z.path.above, z.path.f.node.(slots := SetKid(z.path.f.node.slots, z.path.f.pos, z.focus)), z.h + 1)
  }

  lemma PopPush(z: Zip)
    requires CanPop(z)
    ensures Push(Pop(z), z.path.f.pos) == z
  {
    var f := z.path.f;
    assert SetKid(SetKid(f.node.slots, f.pos, z.focus), f.pos, Nil) == f.node.slots;
  }

  lemma PushOk(m: Heap, z: Zip, p: nat)
    requires ZipOk(m, z) && z.h >= 2 && p < |z.focus.slots|
    ensures ZipOk(m, Push(z, p))
  {
    var f := Push(z, p).path.f;
    SlotGood(m, z.focus, z.h, p);
    FrameGood(m, z.focus, z.h, p);
    SameChild(m, z.path, z.h, z.focus, f.node);
  }

  lemma FrameGood(m: Heap, n: Node, h: nat, p: nat)
    requires h >= 2 && Good(m, n, h) && p < |n.slots|
    ensures GoodFrame(m, Frame(n.(slots := SetKid(n.slots, p, Nil)), p), h)
  {
    SlotGood(m, n, h, p);
    SetKidOutside(n.slots, p, Nil);
    forall i | 0 <= i < |n.slots| && i != p ensures GoodSlot(m, SetKid(n.slots, p, Nil)[i], h) {
      SlotGood(m, n, h, i);
    }
  }

  lemma SameChild(m: Heap, path: Path, h: nat, child: Node, child': Node)
    requires PathOk(m, path, h, child)
    requires child'.Node? && child'.vbn == child.vbn && child'.alloc == child.alloc
    ensures PathOk(m, path, h, child')
  {
  }

  /** What a sound path says of its last frame. */
  lemma FrameOf(m: Heap, path: Path, h: nat, child: Node)
    requires PathOk(m, path, h, child) && path.Up?
    ensures GoodFrame(m, path.f, h + 1) && HoleEnt(path.f).vbn == child.vbn && child.alloc == BLOCK_SIZE
    ensures PathOk(m, path.above, h + 1, path.f.node) && path.f.node.Node?
    ensures path.f.pos < |path.f.node.slots| && path.f.node.slots[path.f.pos].kid.Nil?
  {
  }

  /** A write outside a footprint does not touch it. */
  lemma Written(m: Heap, m': Heap, v: Vbn, foot: multiset<Vbn>)
    requires v in m' && m' == m[v := m'[v]] && v !in foot
    ensures Agree(m, m', foot)
  {
  }

  lemma PopOk(m: Heap, z: Zip)
    requires ZipOk(m, z) && z.path.Up?
    ensures CanPop(z) && ZipOk(m, Pop(z))
  {
    var f := z.path.f;
    var z' := Pop(z);
    SetKidOutside(f.node.slots, f.pos, z.focus);
    forall i | 0 <= i < |z'.focus.slots| ensures GoodSlot(m, z'.focus.slots[i], z'.h) {
      if i != f.pos {
        assert GoodSlot(m, f.node.slots[i], z.h + 1);
      }
    }
    SameChild(m, z.path.above, z'.h, f.node, z'.focus);
  }

  lemma SumSwap(a: multiset<Vbn>, v: Vbn, s: multiset<Vbn>, k: multiset<Vbn>, s': multiset<Vbn>)
    requires s' + multiset{} == s + k
    ensures a + (multiset{v} + s) + k == a + (multiset{v} + s')
  {
    assert s' == s + k;
  }

  lemma PushUsed(z: Zip, p: nat)
    requires z.focus.Node? && p < |z.focus.slots| && z.h >= 1
    ensures Used(Push(z, p)) == Used(z)
  {
    var slots := z.focus.slots;
    FootSetKid(slots, p, Nil);
    SumSwap(FootP(z.path), z.focus.vbn, FootS(SetKid(slots, p, Nil)), Foot(slots[p].kid), FootS(slots));
  }

  lemma PopUsed(z: Zip)
    requires CanPop(z)
    ensures Used(Pop(z)) == Used(z)
  {
    PopPush(z);
    PushUsed(Pop(z), z.path.f.pos);
  }

  lemma PushFlat(z: Zip, p: nat)
    requires z.focus.Node? && p < |z.focus.slots| && z.h >= 1
    ensures LeftOf(Push(z, p).path) == LeftOf(z.path) + FlatS(z.focus.slots[..p])
    ensures RightOf(Push(z, p).path) == Pay(z.focus.slots[p].ent) + FlatS(z.focus.slots[p+1..]) + RightOf(z.path)
    ensures Contents(Push(z, p)) == Contents(z)
  {
    FrameFlat(z.focus, p);
    FlatAt(z.focus.slots, p);
    var left, right := FlatS(z.focus.slots[..p]), FlatS(z.focus.slots[p+1..]);
    Regroup(LeftOf(z.path), left, Flat(z.focus.slots[p].kid), Pay(z.focus.slots[p].ent), right, RightOf(z.path));
  }

  lemma FrameFlat(n: Node, p: nat)
    requires n.Node? && p < |n.slots|
    ensures FrameLeft(Frame(n.(slots := SetKid(n.slots, p, Nil)), p)) == FlatS(n.slots[..p])
    ensures FrameRight(Frame(n.(slots := SetKid(n.slots, p, Nil)), p)) == Pay(n.slots[p].ent) + FlatS(n.slots[p+1..])
  {
    SetKidOutside(n.slots, p, Nil);
    FlatAt(SetKid(n.slots, p, Nil), p);
    assert FlatSlot(SetKid(n.slots, p, Nil)[p]) == [] + Pay(n.slots[p].ent);
  }

  lemma Regroup<T>(l: seq<T>, a: seq<T>, k: seq<T>, e: seq<T>, b: seq<T>, r: seq<T>)
    ensures (l + a) + k + ((e + b) + r) == l + (a + ((k + e) + b)) + r
  {
  }

  lemma PopFlat(z: Zip)
    requires CanPop(z)
    ensures Contents(Pop(z)) == Contents(z)
  {
    PopPush(z);
    PushFlat(Pop(z), z.path.f.pos);
  }

  lemma PushDirty(z: Zip, p: nat)
    requires DirtyZip(z) && p < |z.focus.slots| && z.h >= 1 && z.focus.slots[p].kid.Node?
    ensures DirtyZip(Push(z, p))
  {
    SlotDirty(z.focus, p);
    SetKidDirty(z.focus.slots, p, Nil, z.focus.dirty);
    DirtySameChild(z.path, z.focus, Push(z, p).path.f.node);
  }

  lemma DirtySameChild(path: Path, child: Node, child': Node)
    requires DirtyPath(path, child) && child'.Node? && (child'.dirty ==> child.dirty)
    ensures DirtyPath(path, child')
  {
  }

  lemma SetKidDirty(ss: seq<Slot>, p: nat, kid: Node, dirty: bool)
    requires DirtySlots(ss, dirty) && p < |ss| && DirtyOk(kid) && (kid.Node? && kid.dirty ==> dirty)
    ensures DirtySlots(SetKid(ss, p, kid), dirty)
  {
    forall i | 0 <= i < |ss|
      ensures DirtySlot(SetKid(ss, p, kid)[i], dirty)
    {
      assert DirtySlot(ss[i], dirty);
    }
  }

  lemma PopDirty(z: Zip)
    requires DirtyZip(z) && CanPop(z)
    ensures DirtyZip(Pop(z))
  {
    SetKidDirty(z.path.f.node.slots, z.path.f.pos, z.focus, z.path.f.node.dirty);
    DirtySameChild(z.path.above, z.path.f.node, Pop(z).focus);
  }

  lemma SlotFull(ss: seq<Slot>, h: nat, i: nat)
    requires FullSlots(ss, h) && i < |ss|
    ensures Full(ss[i].kid, h)
    ensures ss[i].kid.Node? ==> (h <= 1 ==> |ss[i].kid.slots| >= 2)
    ensures ss[i].kid.Node? ==> FullSlots(ss[i].kid.slots, if h == 0 then 0 else h - 1)
  {
    assert FullSlot(ss[i], h);
  }

  lemma PushFull(z: Zip, p: nat)
    requires FullZip(z) && z.h >= 2 && p < |z.focus.slots| && z.focus.slots[p].kid.Node?
    ensures FullZip(Push(z, p))
  {
    SlotFull(z.focus.slots, z.h - 1, p);
    forall i | 0 <= i < |z.focus.slots| ensures FullSlot(SetKid(z.focus.slots, p, Nil)[i], z.h - 1) {
      assert FullSlot(z.focus.slots[i], z.h - 1);
    }
  }

  lemma PopFull(z: Zip)
    requires FullZip(z) && CanPop(z)
    ensures FullZip(Pop(z))
  {
    var f := z.path.f;
    forall i | 0 <= i < |f.node.slots| ensures FullSlot(Pop(z).focus.slots[i], z.h) {
      assert FullSlot(f.node.slots[i], z.h);
    }
  }

  // ----- a sound picture of the whole table -----

  ghost predicate Sound(m: Heap, z: Zip, free: set<Vbn>, all: set<Vbn>) {
    ZipOk(m, z) && FullZip(z) && DirtyZip(z) && Owned(Used(z), free, all)
  }

  lemma PushSound(m: Heap, z: Zip, p: nat, free: set<Vbn>, all: set<Vbn>)
    requires Sound(m, z, free, all) && z.h >= 2 && p < |z.focus.slots|
    ensures Sound(m, Push(z, p), free, all) && Contents(Push(z, p)) == Contents(z)
  {
    SlotGood(m, z.focus, z.h, p);
    PushOk(m, z, p);
    PushFull(z, p);
    PushDirty(z, p);
    PushUsed(z, p);
    PushFlat(z, p);
  }

  lemma PopSound(m: Heap, z: Zip, free: set<Vbn>, all: set<Vbn>)
    requires Sound(m, z, free, all) && z.path.Up?
    ensures CanPop(z) && Sound(m, Pop(z), free, all) && Contents(Pop(z)) == Contents(z)
  {
    PopOk(m, z);
    PopFull(z);
    PopDirty(z);
    PopUsed(z);
    PopFlat(z);
  }

  /** The picture seen from the root. */
  function FromRoot(z: Zip): Zip
    decreases z.path
  {
    if CanPop(z) then FromRoot(Pop(z)) else z
  }

  lemma {:induction false} FromRootSound(m: Heap, z: Zip, free: set<Vbn>, all: set<Vbn>)
    requires Sound(m, z, free, all)
    ensures Sound(m, FromRoot(z), free, all) && Contents(FromRoot(z)) == Contents(z)
    ensures FromRoot(z).path.Top? && FromRoot(z).h == z.h + Depth(z.path)
    decreases z.path
  {
    if z.path.Up? {
      PopSound(m, z, free, all);
      FromRootSound(m, Pop(z), free, all);
    }
  }

  function Depth(path: Path): nat {
    match path
    case Top => 0
    case Up(above, _) => Depth(above) + 1
  }

  /** The cache stack and position stack a path stands for. */
  function Vbns(path: Path): (s: seq<Vbn>)
    ensures |s| == Depth(path)
  {
    match path
    case Top => []
    case Up(above, f) => Vbns(above) + [if f.node.Node? then f.node.vbn else 0]
  }

  function Positions(path: Path): (s: seq<nat>)
    ensures |s| == Depth(path)
  {
    match path
    case Top => []
    case Up(above, f) => Positions(above) + [f.pos]
  }

  lemma {:induction false} DepthBound(m: Heap, path: Path, h: nat, child: Node)
    requires PathOk(m, path, h, child)
    ensures Depth(path) + h <= TREE_MAX_DEPTH
    decreases path
  {
    if path.Up? {
      DepthBound(m, path.above, h + 1, path.f.node);
    }
  }
}
