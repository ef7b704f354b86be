/**
  Copy-on-write of the path under the cursor: every clean block from the one in
  focus up to the root moves to a new block number, and each parent's link is
  rewritten to follow.
*/
module BTreeDirty {
  import opened IndexBlock
  import opened BTreeShape

  /** The same frames, now dirty, with block numbers and hole links changed only. */
  ghost predicate RePath(p: Path, p': Path)
    decreases p
  {
    match p
    case Top => p'.Top?
    case Up(above, f) =>
      && p'.Up? && p'.f.pos == f.pos && f.node.Node? && p'.f.node.Node? && f.pos < |f.node.slots|
      && p'.f.node.dirty && p'.f.node.large == f.node.large && p'.f.node.alloc == f.node.alloc
      && |p'.f.node.slots| == |f.node.slots| && f.node.slots[f.pos].kid.Nil?
      && p'.f.node.slots == Relink(f.node.slots, f.pos, p'.f.node.slots[f.pos].ent.vbn)
      && RePath(above, p'.above)
  }

  /** What `set_ib_dirty` does to the table as seen from the cursor. */
  ghost predicate Redirtied(z: Zip, z': Zip) {
    && z'.h == z.h && z.focus.Node? && z'.focus.Node?
    && z'.focus == z.focus.(vbn := z'.focus.vbn, dirty := true)
    && RePath(z.path, z'.path)
  }

  function Relink(ss: seq<Slot>, i: nat, vbn: Vbn): seq<Slot>
    requires i < |ss|
  {
    ss[i := ss[i].(ent := ss[i].ent.(vbn := vbn))]
  }

  lemma RelinkFlat(ss: seq<Slot>, i: nat, vbn: Vbn)
    requires i < |ss|
    ensures FlatS(Relink(ss, i, vbn)) == FlatS(ss)
    ensures FlatS(Relink(ss, i, vbn)[i..]) == FlatS(ss[i..])
    ensures Relink(ss, i, vbn)[..i] == ss[..i]
  {
    var ss' := Relink(ss, i, vbn);
    assert ss'[..i] == ss[..i] && ss'[i+1..] == ss[i+1..];
    FlatAt(ss, i);
    FlatAt(ss', i);
    assert FlatSlot(ss'[i]) == FlatSlot(ss[i]);
  }

  lemma RelinkFoot(ss: seq<Slot>, i: nat, vbn: Vbn)
    requires i < |ss|
    ensures FootS(Relink(ss, i, vbn)) == FootS(ss)
  {
    var ss' := Relink(ss, i, vbn);
    assert ss'[..i] == ss[..i] && ss'[i+1..] == ss[i+1..];
    FootAt(ss, i);
    FootAt(ss', i);
  }

  lemma {:induction false} RePathSame(p: Path, p': Path)
    requires RePath(p, p')
    ensures LeftOf(p') == LeftOf(p) && RightOf(p') == RightOf(p)
    ensures Depth(p') == Depth(p) && Positions(p') == Positions(p)
    decreases p
  {
    if p.Up? {
      RePathSame(p.above, p'.above);
      RelinkFlat(p.f.node.slots, p.f.pos, p'.f.node.slots[p.f.pos].ent.vbn);
    }
  }

  lemma {:induction false} RePathFull(p: Path, p': Path, h: nat)
    requires RePath(p, p') && FullPath(p, h)
    ensures FullPath(p', h)
    decreases p
  {
    if p.Up? {
      RePathFull(p.above, p'.above, h + 1);
      forall i | 0 <= i < |p'.f.node.slots| ensures FullSlot(p'.f.node.slots[i], h) {
        assert FullSlot(p.f.node.slots[i], h);
      }
    }
  }

  lemma RedirtiedContents(z: Zip, z': Zip)
    requires Redirtied(z, z')
    ensures Contents(z') == Contents(z) && LeftOf(z'.path) == LeftOf(z.path) && RightOf(z'.path) == RightOf(z.path)
    ensures Depth(z'.path) == Depth(z.path) && Positions(z'.path) == Positions(z.path)
  {
    RePathSame(z.path, z'.path);
  }

  lemma RedirtiedFull(z: Zip, z': Zip)
    requires Redirtied(z, z') && FullZip(z)
    ensures FullZip(z')
  {
    RePathFull(z.path, z'.path, z.h);
  }

  /** With the whole path dirty, blocks below it may be clean or dirty as they like. */
  ghost predicate KidsDirtyOk(ss: seq<Slot>) {
    forall i :: 0 <= i < |ss| ==> DirtyOk(ss[i].kid)
  }

  lemma {:induction false} RePathDirty(p: Path, p': Path, child: Node, child': Node)
    requires RePath(p, p') && DirtyPath(p, child) && child'.Node?
    ensures DirtyPath(p', child')
    decreases p
  {
    if p.Up? {
      forall i | 0 <= i < |p'.f.node.slots| ensures DirtySlot(p'.f.node.slots[i], true) {
        SlotDirty(p.f.node, i);
      }
      RePathDirty(p.above, p'.above, p.f.node, p'.f.node);
    }
  }

  lemma RedirtiedDirty(z: Zip, z': Zip)
    requires Redirtied(z, z') && DirtyPath(z.path, z.focus) && KidsDirtyOk(z.focus.slots)
    ensures DirtyZip(z')
  {
    RePathDirty(z.path, z'.path, z.focus, z'.focus);
    forall i | 0 <= i < |z'.focus.slots| ensures DirtySlot(z'.focus.slots[i], true) {
      assert DirtyOk(z.focus.slots[i].kid);
    }
  }

  // ----- one level -----

  /** Block `cur`, sound but for the link at `skip` (none if negative), which still leads to the old
      number of the kid there. */
  ghost predicate Half(m: Heap, above: Path, cur: Node, h: nat, skip: int) {
    && h >= 1 && Holds(m, cur) && cur.large == (h >= 2) && PathOk(m, above, h, cur)
    && skip < |cur.slots|
    && (forall i :: 0 <= i < |cur.slots| && i != skip ==> GoodSlot(m, cur.slots[i], h))
    && (skip >= 0 ==>
          && h >= 2 && EntOk(cur.slots[skip].ent) && cur.slots[skip].kid.Node?
          && cur.slots[skip].kid.alloc == BLOCK_SIZE && Good(m, cur.slots[skip].kid, h - 1))
  }

  function Mended(cur: Node, skip: int, vbn: Vbn): Node
    requires cur.Node? && skip < |cur.slots| && (skip >= 0 ==> cur.slots[skip].kid.Node?)
  {
    cur.(vbn := vbn, dirty := true,
         slots := if skip < 0 then cur.slots else Relink(cur.slots, skip, cur.slots[skip].kid.vbn))
  }

  lemma MendedFoot(cur: Node, skip: int, vbn: Vbn)
    requires cur.Node? && skip < |cur.slots| && (skip >= 0 ==> cur.slots[skip].kid.Node?)
    ensures Foot(Mended(cur, skip, vbn)) == multiset{vbn} + FootS(cur.slots)
    ensures Mended(cur, skip, vbn).alloc == cur.alloc
  {
    if skip >= 0 {
      RelinkFoot(cur.slots, skip, cur.slots[skip].kid.vbn);
    }
  }

  lemma MendedSize(cur: Node, skip: int, vbn: Vbn)
    requires cur.Node? && skip < |cur.slots| && (skip >= 0 ==> cur.slots[skip].kid.Node?)
    ensures ViewSize(Ents(Mended(cur, skip, vbn).slots), cur.large) == ViewSize(Ents(cur.slots), cur.large)
    ensures skip < 0 ==> Ents(Mended(cur, skip, vbn).slots) == Ents(cur.slots)
    ensures skip >= 0 ==> Ents(Mended(cur, skip, vbn).slots)
                          == Ents(cur.slots)[skip := Ents(cur.slots)[skip].(vbn := cur.slots[skip].kid.vbn)]
  {
    if skip >= 0 {
      var e := cur.slots[skip].ent.(vbn := cur.slots[skip].kid.vbn);
      assert Ents(Mended(cur, skip, vbn).slots) == Ents(cur.slots)[skip := e];
      ReplacedSize(Ents(cur.slots), skip, e, cur.large);
    }
  }

  lemma HalfFramed(m: Heap, m': Heap, above: Path, cur: Node, h: nat, skip: int)
    requires Half(m, above, cur, h, skip)
    requires Agree(m, m', FootS(cur.slots)) && Agree(m, m', FootP(above))
    ensures PathOk(m', above, h, cur)
    ensures forall i :: 0 <= i < |cur.slots| && i != skip ==> GoodSlot(m', cur.slots[i], h)
    ensures skip >= 0 ==> Good(m', cur.slots[skip].kid, h - 1)
  {
    hide Foot, FootS, FootP, Agree, View, Ents, Chained, ViewSize, Good, GoodSlot, PathOk, GoodFrame, Holds;
    PathFramed(m, m', above, h, cur);
    forall i | 0 <= i < |cur.slots| && i != skip ensures GoodSlot(m', cur.slots[i], h) {
      AgreeSlot(m, m', cur.slots, i);
      SlotFramed(m, m', cur.slots[i], h);
    }
    if skip >= 0 {
      AgreeSlot(m, m', cur.slots, skip);
      GoodFramed(m, m', cur.slots[skip].kid, h - 1);
    }
  }

  /** The block rewritten under number `vbn` is sound again. */
  lemma LevelDone(m: Heap, m': Heap, above: Path, cur: Node, h: nat, skip: int, vbn: Vbn)
    requires Half(m, above, cur, h, skip)
    requires Agree(m, m', FootS(cur.slots)) && Agree(m, m', FootP(above))
    requires vbn in m' && m'[vbn].dirty && Chained(m'[vbn].ib)
    requires m'[vbn].ib.large == cur.large && m'[vbn].ib.allocSize == cur.alloc
    requires View(m'[vbn].ib) == Ents(Mended(cur, skip, vbn).slots)
    ensures Good(m', Mended(cur, skip, vbn), h) && PathOk(m', above, h, cur)
  {
    hide FootS, FootP, View, Ents, Chained, ViewSize;
    HalfFramed(m, m', above, cur, h, skip);
    MendedSize(cur, skip, vbn);
    var n := Mended(cur, skip, vbn);
    forall i | 0 <= i < |n.slots| ensures GoodSlot(m', n.slots[i], h) {
      if i != skip {
        assert n.slots[i] == cur.slots[i];
      }
    }
  }

  lemma HalfHere(m: Heap, above: Path, cur: Node, h: nat, skip: int)
    requires Half(m, above, cur, h, skip)
    ensures Holds(m, cur) && skip < |cur.slots| && (skip >= 0 ==> cur.large && cur.slots[skip].kid.Node?)
    ensures cur.vbn in m && |m[cur.vbn].ib.entries| == |cur.slots|
  {
  }

  /** Up to the parent, whose link to the moved block is now stale. */
  lemma ParentHalf(m: Heap, above: Path, was: Node, n: Node, h: nat)
    requires above.Up? && PathOk(m, above, h, was) && Good(m, n, h) && h >= 1 && n.alloc == was.alloc
    ensures above.f.node.Node? && above.f.pos < |above.f.node.slots|
    ensures Half(m, above.above, above.f.node.(slots := SetKid(above.f.node.slots, above.f.pos, n)), h + 1, above.f.pos)
  {
    hide GoodSlot, GoodSlots, View, Chained;
    var f := above.f;
    var cur := f.node.(slots := SetKid(f.node.slots, f.pos, n));
    SetKidOutside(f.node.slots, f.pos, n);
    SameChild(m, above.above, h + 1, f.node, cur);
    forall i | 0 <= i < |cur.slots| && i != f.pos ensures GoodSlot(m, cur.slots[i], h + 1) {
      assert GoodSlot(m, f.node.slots[i], h + 1);
    }
  }

  // ----- the path below the current level -----

  /** `n'` is `n` with the blocks along the positions `ps` moved. */
  ghost predicate Along(n: Node, n': Node, ps: seq<nat>)
    decreases ps
  {
    && n.Node? && n'.Node? && n'.dirty && n'.large == n.large && n'.alloc == n.alloc
    && |n'.slots| == |n.slots|
    && if ps == [] then n'.slots == n.slots
       else
         var p := ps[0];
         && p < |n.slots| && n'.slots[p].kid.Node?
         && n'.slots == Relink(SetKid(n.slots, p, n'.slots[p].kid), p, n'.slots[p].kid.vbn)
         && Along(n.slots[p].kid, n'.slots[p].kid, ps[1..])
  }

  function Descend(z: Zip, ps: seq<nat>): Zip
    decreases ps
  {
    if ps != [] && z.focus.Node? && ps[0] < |z.focus.slots| && z.h >= 1
    then Descend(Push(z, ps[0]), ps[1..]) else z
  }

  /** The block numbers below `n` along `ps`. */
  function VbnsBelow(n: Node, ps: seq<nat>): seq<Vbn>
    decreases ps
  {
    if ps != [] && n.Node? && ps[0] < |n.slots| && n.slots[ps[0]].kid.Node?
    then [n.slots[ps[0]].kid.vbn] + VbnsBelow(n.slots[ps[0]].kid, ps[1..]) else []
  }

  lemma {:induction false} DescendOk(m: Heap, z: Zip, ps: seq<nat>, n: Node)
    requires ZipOk(m, z) && z.h > |ps| && Along(n, z.focus, ps)
    ensures ZipOk(m, Descend(z, ps)) && Used(Descend(z, ps)) == Used(z)
    decreases ps
  {
    if ps != [] {
      var p := ps[0];
      PushOk(m, z, p);
      PushUsed(z, p);
      DescendOk(m, Push(z, p), ps[1..], n.slots[p].kid);
    }
  }

  lemma {:induction false} DescendStack(z: Zip, ps: seq<nat>, n: Node)
    requires z.h > |ps| && Along(n, z.focus, ps)
    ensures Descend(z, ps).focus.Node?
    ensures Vbns(Descend(z, ps).path) + [Descend(z, ps).focus.vbn]
            == Vbns(z.path) + ([z.focus.vbn] + VbnsBelow(z.focus, ps))
    ensures Positions(Descend(z, ps).path) == Positions(z.path) + ps
    ensures Depth(Descend(z, ps).path) == Depth(z.path) + |ps|
    decreases ps
  {
    if ps != [] {
      var p := ps[0];
      DescendStack(Push(z, p), ps[1..], n.slots[p].kid);
      assert Vbns(Push(z, p).path) == Vbns(z.path) + [z.focus.vbn];
      assert Positions(Push(z, p).path) == Positions(z.path) + [p];
    }
  }

  lemma {:induction false} DescendRelated(z: Zip, z': Zip, ps: seq<nat>)
    requires z'.h == z.h > |ps| && RePath(z.path, z'.path) && Along(z.focus, z'.focus, ps)
    ensures Redirtied(Descend(z, ps), Descend(z', ps))
    decreases ps
  {
    if ps != [] {
      PushRelated(z, z', ps);
      DescendRelated(Push(z, ps[0]), Push(z', ps[0]), ps[1..]);
    }
  }

  lemma PushRelated(z: Zip, z': Zip, ps: seq<nat>)
    requires z'.h == z.h >= 1 && ps != [] && RePath(z.path, z'.path) && Along(z.focus, z'.focus, ps)
    ensures RePath(Push(z, ps[0]).path, Push(z', ps[0]).path)
  {
    var p := ps[0];
    var a, a' := z.focus.slots, z'.focus.slots;
    assert SetKid(a', p, Nil) == Relink(SetKid(a, p, Nil), p, a'[p].ent.vbn);
  }

  lemma {:induction false} AllDirty(m: Heap, p: Path, h: nat, child: Node)
    requires PathOk(m, p, h, child) && DirtyPath(p, child) && child.dirty
    ensures RePath(p, p)
    decreases p
  {
    if p.Up? {
      AllDirty(m, p.above, h + 1, p.f.node);
      assert Relink(p.f.node.slots, p.f.pos, p.f.node.slots[p.f.pos].ent.vbn) == p.f.node.slots;
    }
  }

  /** One level up: the old picture is popped, the moved child hangs below the next block. */
  lemma ParentAlong(zo: Zip, n: Node, ps: seq<nat>)
    requires CanPop(zo) && zo.h >= 1 && Along(zo.focus, n, ps)
    ensures var f := zo.path.f;
            var cur := f.node.(slots := SetKid(f.node.slots, f.pos, n));
            && cur == Pop(zo).focus.(slots := SetKid(Pop(zo).focus.slots, f.pos, n))
            && Pop(zo).focus.slots[f.pos].kid == zo.focus
            && Descend(Pop(zo), [f.pos] + ps) == Descend(zo, ps)
            && VbnsBelow(cur, [f.pos] + ps) == [n.vbn] + VbnsBelow(n, ps)
  {
    var f := zo.path.f;
    PopPush(zo);
    assert ([f.pos] + ps)[1..] == ps;
    assert SetKid(SetKid(f.node.slots, f.pos, zo.focus), f.pos, n) == SetKid(f.node.slots, f.pos, n);
  }

  lemma MendedAlong(n: Node, cur: Node, skip: int, ps: seq<nat>, vbn: Vbn)
    requires n.Node? && cur.Node? && skip < |cur.slots|
    requires skip < 0 ==> ps == [] && cur == n
    requires skip >= 0 ==>
               && ps != [] && ps[0] == skip < |n.slots| && cur.slots[skip].kid.Node?
               && cur == n.(slots := SetKid(n.slots, skip, cur.slots[skip].kid))
               && Along(n.slots[skip].kid, cur.slots[skip].kid, ps[1..])
    ensures Along(n, Mended(cur, skip, vbn), ps)
    ensures VbnsBelow(Mended(cur, skip, vbn), ps) == VbnsBelow(cur, ps)
  {
  }

  // ----- the climb -----

  /** How far the climb from cursor `z0` has come: `cur` is next, below `above`; the positions `ps`
      lead from it back down to the cursor; `zo` is the old picture seen from this level. */
  datatype Climb = Climb(above: Path, cur: Node, h: nat, skip: int, ps: seq<nat>, zo: Zip)

  ghost predicate Climbing(c: Climb, z0: Zip) {
    && c.cur.Node? && c.zo.focus.Node? && c.zo.path == c.above && c.zo.h == c.h >= 1
    && Descend(c.zo, c.ps) == z0 && c.h > |c.ps| && c.skip < |c.cur.slots|
    && (c.skip < 0 ==> c.ps == [] && c.cur == c.zo.focus)
    && (c.skip >= 0 ==>
          && c.ps != [] && c.ps[0] == c.skip < |c.zo.focus.slots| && c.cur.slots[c.skip].kid.Node?
          && c.cur == c.zo.focus.(slots := SetKid(c.zo.focus.slots, c.skip, c.cur.slots[c.skip].kid))
          && Along(c.zo.focus.slots[c.skip].kid, c.cur.slots[c.skip].kid, c.ps[1..]))
  }

  function Parent(c: Climb, n: Node): Climb
    requires CanPop(c.zo) && c.zo.path == c.above
  {
    var f := c.above.f;
    Climb(c.above.above, f.node.(slots := SetKid(f.node.slots, f.pos, n)), c.h + 1, f.pos, [f.pos] + c.ps, Pop(c.zo))
  }

  /** The block numbers from the root to the cursor. */
  function Stack(above: Path, n: Node, ps: seq<nat>): seq<Vbn>
    requires n.Node?
  {
    Vbns(above) + ([n.vbn] + VbnsBelow(n, ps))
  }

  lemma ClimbUp(m: Heap, c: Climb, z0: Zip, vbn: Vbn)
    requires Climbing(c, z0) && c.above.Up? && DirtyPath(c.above, c.cur)
    requires Good(m, Mended(c.cur, c.skip, vbn), c.h) && PathOk(m, c.above, c.h, c.cur)
    ensures CanPop(c.zo) && c.zo.path == c.above
    ensures var c' := Parent(c, Mended(c.cur, c.skip, vbn));
            && ClimbAt(c') && Depth(c'.above) + 1 == Depth(c.above) && c'.cur.slots[c'.skip].kid.vbn == vbn
    ensures var n := Mended(c.cur, c.skip, vbn); var c' := Parent(c, n);
            && Climbing(c', z0) && Half(m, c'.above, c'.cur, c'.h, c'.skip) && c'.skip >= 0
            && FootP(c'.above) + Foot(c'.cur) == FootP(c.above) + Foot(n)
            && DirtyPath(c'.above, c'.cur)
            && Stack(c'.above, c'.cur, c'.ps) == Stack(c.above, n, c.ps)
            && c'.above == c.above.above && c.above.f.node.Node? && c'.cur.dirty == c.above.f.node.dirty
            && Positions(c'.above) + c'.ps == Positions(c.above) + c.ps
  {
    hide Good, Foot, FootP, Stack, Positions, GoodSlot, Holds, ViewSize;
    var n := Mended(c.cur, c.skip, vbn);
    var f := c.above.f;
    MendedAlong(c.zo.focus, c.cur, c.skip, c.ps, vbn);
    ParentHalf(m, c.above, c.cur, n, c.h);
    ParentAlong(c.zo, n, c.ps);
    PopUsed(Zip(c.above, n, c.h));
    ParentDirty(c.above, c.cur, Parent(c, n).cur);
    ParentStack(c.above, n, c.ps, Parent(c, n).cur);
  }

  lemma ParentDirty(above: Path, child: Node, n: Node)
    requires above.Up? && DirtyPath(above, child) && n.Node? && n.dirty == above.f.node.dirty
    ensures DirtyPath(above.above, n)
  {
    DirtySameChild(above.above, above.f.node, n);
  }

  lemma ParentStack(above: Path, n: Node, ps: seq<nat>, cur: Node)
    requires above.Up? && n.Node? && above.f.node.Node? && cur.Node? && cur.vbn == above.f.node.vbn
    requires VbnsBelow(cur, [above.f.pos] + ps) == [n.vbn] + VbnsBelow(n, ps)
    ensures Stack(above.above, cur, [above.f.pos] + ps) == Stack(above, n, ps)
    ensures Positions(above.above) + ([above.f.pos] + ps) == Positions(above) + ps
  {
    hide VbnsBelow;
    assert Vbns(above) == Vbns(above.above) + [above.f.node.vbn]
        && Positions(above) == Positions(above.above) + [above.f.pos];
    hide Vbns, Positions;
    Shift(Vbns(above.above), above.f.node.vbn, [n.vbn] + VbnsBelow(n, ps));
    Shift(Positions(above.above), above.f.pos, ps);
  }

  lemma Shift<T>(a: seq<T>, x: T, b: seq<T>)
    ensures a + ([x] + b) == (a + [x]) + b
  {
  }

  lemma ClimbStart(m: Heap, z: Zip)
    requires ZipOk(m, z)
    ensures Climbing(Climb(z.path, z.focus, z.h, -1, [], z), z) && z.focus.Node?
    ensures Half(m, z.path, z.focus, z.h, -1)
    ensures Stack(z.path, z.focus, []) == Vbns(z.path) + [z.focus.vbn]
    ensures Positions(z.path) + [] == Positions(z.path)
  {
    forall i | 0 <= i < |z.focus.slots| ensures GoodSlot(m, z.focus.slots[i], z.h) {
      SlotGood(m, z.focus, z.h, i);
    }
  }

  lemma ClimbDone(m: Heap, c: Climb, z0: Zip, vbn: Vbn)
    requires Climbing(c, z0) && DirtyPath(c.above, c.cur)
    requires Good(m, Mended(c.cur, c.skip, vbn), c.h) && PathOk(m, c.above, c.h, c.cur)
    requires c.above.Top? || (c.cur.dirty && vbn == c.cur.vbn)
    ensures var n := Mended(c.cur, c.skip, vbn); var z := Descend(Zip(c.above, n, c.h), c.ps);
            && ZipOk(m, z) && Used(z) == FootP(c.above) + Foot(n) && Redirtied(z0, z)
            && Vbns(z.path) + [z.focus.vbn] == Stack(c.above, n, c.ps)
            && Positions(z.path) == Positions(c.above) + c.ps
  {
    var n := Mended(c.cur, c.skip, vbn);
    var z1 := Zip(c.above, n, c.h);
    MendedAlong(c.zo.focus, c.cur, c.skip, c.ps, vbn);
    if c.above.Up? {
      SameChild(m, c.above, c.h, c.cur, n);
      AllDirty(m, c.above, c.h, c.cur);
    }
    DescendOk(m, z1, c.ps, c.zo.focus);
    DescendStack(z1, c.ps, c.zo.focus);
    DescendRelated(c.zo, z1, c.ps);
  }

  ghost predicate ClimbAt(c: Climb) {
    c.cur.Node? && 0 <= c.skip < |c.cur.slots| && c.cur.slots[c.skip].kid.Node?
    && c.ps != [] && c.ps[0] == c.skip
  }

  lemma ClimbHere(c: Climb, z0: Zip)
    requires Climbing(c, z0)
    ensures c.cur.Node? && c.skip < |c.cur.slots| && (c.skip >= 0 ==> ClimbAt(c))
    ensures |Stack(c.above, c.cur, c.ps)| > Depth(c.above)
    ensures Stack(c.above, c.cur, c.ps)[Depth(c.above)] == c.cur.vbn
    ensures c.skip >= 0 ==> (Positions(c.above) + c.ps)[Depth(c.above)] == c.skip
  {
  }

  lemma MendedStack(c: Climb, z0: Zip, vbn: Vbn)
    requires Climbing(c, z0)
    ensures Depth(c.above) < |Stack(c.above, c.cur, c.ps)|
    ensures Stack(c.above, Mended(c.cur, c.skip, vbn), c.ps)
            == Stack(c.above, c.cur, c.ps)[Depth(c.above) := vbn]
  {
    MendedAlong(c.zo.focus, c.cur, c.skip, c.ps, vbn);
  }

  // ----- ownership -----

  /** A block's own number, a free one and those of its surroundings are all different. */
  lemma Apart(above: multiset<Vbn>, vbn: Vbn, below: multiset<Vbn>, held: multiset<Vbn>, free: set<Vbn>,
              all: set<Vbn>)
    requires Owned(above + (multiset{vbn} + below) + held, free, all)
    ensures vbn !in above && vbn !in below && vbn !in held && vbn !in free && vbn != 0
    ensures forall v :: v in free ==> v !in above && v !in below && v !in held && v != 0
  {
    var u: multiset<Vbn> := above + (multiset{vbn} + below) + held;
    var f: multiset<Vbn> := multiset(free);
    var a: multiset<Vbn> := multiset(all);
    assert u + f == a;
    assert u[vbn] + f[vbn] == a[vbn];
    forall v | v in free ensures v in all && u[v] == 0 {
      assert f[v] == 1;
      assert u[v] + f[v] == a[v];
    }
  }

  /** One level's block under its new number, or still under its own if it was dirty already. */
  lemma LevelWritten(m: Heap, m': Heap, above: Path, cur: Node, h: nat, skip: int, vbn: Vbn, held: multiset<Vbn>,
                     free: set<Vbn>, free': set<Vbn>, all: set<Vbn>)
    requires Half(m, above, cur, h, skip) && Owned(FootP(above) + Foot(cur) + held, free, all)
    requires cur.Node? && if cur.dirty then vbn == cur.vbn && free' == free
               else vbn in free && free' == free - {vbn} + {cur.vbn}
    requires vbn in m' && forall v :: v in m && v != cur.vbn && v != vbn ==> v in m' && m'[v] == m[v]
    requires m'[vbn].dirty && Chained(m'[vbn].ib) && m'[vbn].ib.large == cur.large && m'[vbn].ib.allocSize == cur.alloc
    requires skip < |cur.slots| && (skip >= 0 ==> cur.slots[skip].kid.Node?)
             && View(m'[vbn].ib) == Ents(Mended(cur, skip, vbn).slots)
    ensures Good(m', Mended(cur, skip, vbn), h) && PathOk(m', above, h, cur) && Agree(m, m', held)
    ensures Owned(FootP(above) + Foot(Mended(cur, skip, vbn)) + held, free', all) && |free'| == |free| && vbn != 0
    ensures !cur.dirty ==> vbn != cur.vbn
  {
    hide Half, Good, PathOk, Foot, FootS, FootP, Owned, Chained, View, Ents, Mended;
    FootNode(cur);
    Apart(FootP(above), cur.vbn, FootS(cur.slots), held, free, all);
    if !cur.dirty {
      Swapped(FootP(above), cur.vbn, vbn, FootS(cur.slots), held, free, all);
    }
    MendedFoot(cur, skip, vbn);
    LevelDone(m, m', above, cur, h, skip, vbn);
  }

  lemma Swapped(above: multiset<Vbn>, was: Vbn, now: Vbn, below: multiset<Vbn>, held: multiset<Vbn>, free: set<Vbn>,
                all: set<Vbn>)
    requires Owned(above + (multiset{was} + below) + held, free, all) && now in free
    ensures Owned(above + (multiset{now} + below) + held, free - {now} + {was}, all)
    ensures |free - {now} + {was}| == |free|
  {
    Apart(above, was, below, held, free, all);
    var free' := free - {now} + {was};
    assert multiset(free') + multiset{now} == multiset(free) + multiset{was};
    var rest := above + below + held;
    assert above + (multiset{was} + below) + held == rest + multiset{was};
    assert above + (multiset{now} + below) + held == rest + multiset{now};
    assert rest + multiset{now} + multiset(free') == rest + multiset{was} + multiset(free);
  }
}
