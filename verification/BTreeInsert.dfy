/**
  The course of an insertion, from one pending entry to the next: which insertions reach the root, and what
  stays the same on the way.
*/
module BTreeInsert {
  import opened IndexBlock
  import opened BTreeShape
  import opened BTreeOrder
  import opened BTreeDirty
  import opened BTreeSplit
  import opened BTreeCrowd

  /** An entry of `len` bytes does not fit in `n`, and what its split promotes does not fit above, up to the
      root.  `path` is the way from the root to `n`. */
  ghost predicate Overflows(path: Path, n: Node, len: nat)
    decreases path
  {
    && n.Node? && ViewSize(Ents(n.slots), n.large) + len > n.alloc
    && (path.Up? ==> exists mid: nat :: Promotes(n, mid) && Overflows(path.above, path.f.node, PromotedLen(n, mid)))
  }

  predicate Promotes(n: Node, mid: nat) {
    n.Node? && mid < |n.slots| && IsMiddle(Ents(n.slots), n.large, mid)
  }

  /** The size of entry `mid` in an inner block. */
  function PromotedLen(n: Node, mid: nat): nat
    requires n.Node? && mid < |n.slots|
  {
    EntLen(n.slots[mid].ent, true)
  }

  lemma {:induction false} TotalLenGrows(es: seq<Ent>, i: nat, j: nat, large: bool)
    requires i <= j <= |es|
    ensures TotalLen(es[..i], large) <= TotalLen(es[..j], large)
  {
    if i < j {
      TotalLenGrows(es, i, j - 1, large);
      TotalLenAt(es, j - 1, large);
    }
  }

  /** A block has one middle entry. */
  lemma OneMiddle(n: Node, i: nat, j: nat)
    requires Promotes(n, i) && Promotes(n, j)
    ensures i == j
  {
    var es := Ents(n.slots);
    if i < j {
      TotalLenGrows(es, i + 1, j, n.large);
    } else if j < i {
      TotalLenGrows(es, j + 1, i, n.large);
    }
  }

  /** What is promoted decides, if the entry does not fit. */
  lemma OverflowsUp(path: Path, n: Node, len: nat, mid: nat)
    requires path.Up? && Promotes(n, mid) && ViewSize(Ents(n.slots), n.large) + len > n.alloc
    ensures Overflows(path, n, len) <==> Overflows(path.above, path.f.node, PromotedLen(n, mid))
  {
    forall i: nat | Promotes(n, i) ensures i == mid {
      OneMiddle(n, i, mid);
    }
  }

  /** Blocks with entries of the same sizes. */
  ghost predicate SameSizes(n: Node, n': Node) {
    && n.Node? && n'.Node? && n'.large == n.large && n'.alloc == n.alloc && |n'.slots| == |n.slots|
    && forall i :: 0 <= i < |n.slots| ==> n'.slots[i].ent == n.slots[i].ent.(vbn := n'.slots[i].ent.vbn)
  }

  lemma {:induction false} SameTotal(es: seq<Ent>, es': seq<Ent>, large: bool)
    requires |es'| == |es| && forall i :: 0 <= i < |es| ==> es'[i] == es[i].(vbn := es'[i].vbn)
    ensures TotalLen(es', large) == TotalLen(es, large)
  {
    if es != [] {
      SameTotal(es[1..], es'[1..], large);
    }
  }

  lemma SameMiddle(n: Node, n': Node, mid: nat)
    requires SameSizes(n, n') && Promotes(n, mid)
    ensures Promotes(n', mid) && PromotedLen(n', mid) == PromotedLen(n, mid)
  {
    var es, es' := Ents(n.slots), Ents(n'.slots);
    SameTotal(es, es', n.large);
    SameTotal(es[..mid], es'[..mid], n.large);
    SameTotal(es[..mid + 1], es'[..mid + 1], n.large);
  }

  lemma {:induction false} SamePath(path: Path, n: Node, path': Path, n': Node, len: nat)
    requires SameSizes(n, n') && RePath(path, path') && Overflows(path, n, len)
    ensures Overflows(path', n', len)
    decreases path
  {
    SameTotal(Ents(n.slots), Ents(n'.slots), n.large);
    if path.Up? {
      var mid: nat :| Promotes(n, mid) && Overflows(path.above, path.f.node, PromotedLen(n, mid));
      SameMiddle(n, n', mid);
      SamePath(path.above, path.f.node, path'.above, path'.f.node, PromotedLen(n, mid));
    }
  }

  lemma {:induction false} PathSame(path: Path, n: Node, path': Path, n': Node, len: nat)
    requires SameSizes(n, n') && RePath(path, path') && Overflows(path', n', len)
    ensures Overflows(path, n, len)
    decreases path
  {
    SameTotal(Ents(n.slots), Ents(n'.slots), n.large);
    if path.Up? {
      var mid: nat :| Promotes(n', mid) && Overflows(path'.above, path'.f.node, PromotedLen(n', mid));
      SameMiddle(n', n, mid);
      PathSame(path.above, path.f.node, path'.above, path'.f.node, PromotedLen(n, mid));
    }
  }

  /** Making the path dirty changes no size. */
  lemma RedirtiedOverflows(z: Zip, z': Zip, len: nat)
    requires Redirtied(z, z')
    ensures Overflows(z'.path, z'.focus, len) <==> Overflows(z.path, z.focus, len)
  {
    if Overflows(z.path, z.focus, len) {
      SamePath(z.path, z.focus, z'.path, z'.focus, len);
    } else if Overflows(z'.path, z'.focus, len) {
      PathSame(z.path, z.focus, z'.path, z'.focus, len);
    }
  }

  /** Nor does linking the right half to the entry the cursor came through. */
  lemma SplitOverflows(path: Path, right: Node, h: nat, len: nat)
    requires path.Up? && path.f.node.Node? && path.f.pos < |path.f.node.slots| && right.Node?
    ensures var z := SplitZip(path, right, h);
            Overflows(z.path, z.focus, len) <==> Overflows(path.above, path.f.node, len)
  {
    var n, n' := path.f.node, SplitZip(path, right, h).focus;
    SameTotal(Ents(n.slots), Ents(n'.slots), n.large);
    forall mid: nat | Promotes(n, mid) ensures Promotes(n', mid) && PromotedLen(n', mid) == PromotedLen(n, mid) {
      SameMiddle(n, n', mid);
    }
    forall mid: nat | Promotes(n', mid) ensures Promotes(n, mid) && PromotedLen(n, mid) == PromotedLen(n', mid) {
      SameMiddle(n', n, mid);
    }
  }

  /** A split leaves the question to the block above. */
  lemma SplitDecides(z0: Zip, z1: Zip, right: Node, mid: nat, len: nat)
    requires Redirtied(z0, z1) && z1.path.Up? && z1.path.f.node.Node? && z1.path.f.pos < |z1.path.f.node.slots|
    requires Promotes(z1.focus, mid) && ViewSize(Ents(z1.focus.slots), z1.focus.large) + len > z1.focus.alloc
    requires right.Node?
    ensures var z := SplitZip(z1.path, right, z1.h);
            Overflows(z0.path, z0.focus, len) <==> Overflows(z.path, z.focus, PromotedLen(z1.focus, mid))
  {
    hide Redirtied, SplitZip, Overflows, IsMiddle;
    RedirtiedOverflows(z0, z1, len);
    OverflowsUp(z1.path, z1.focus, len, mid);
    SplitOverflows(z1.path, right, z1.h, PromotedLen(z1.focus, mid));
  }

  lemma SameLead(z0: Zip, z: Zip, p: int)
    requires z0.focus.Node? && z.focus.Node? && z.focus.slots == z0.focus.slots && Redirtied(z0, z)
    requires 0 <= p < |z0.focus.slots|
    ensures Lead(z, p) == Lead(z0, p)
  {
    RedirtiedContents(z0, z);
  }

  lemma PassedSame(z0: Zip, z1: Zip, p: nat, lk: Node, z': Zip, p': nat, lk': Node)
    requires z0.focus.Node? && z1.focus.Node? && z1.focus.slots == z0.focus.slots && p < |z0.focus.slots|
    requires Lead(z0, p) == Lead(z1, p) && Passed(z1, p, lk, z', p', lk')
    ensures Passed(z0, p, lk, z', p', lk')
  {
  }

  /** From the block that is split to the one above. */
  lemma SplitCourse(z0: Zip, z1: Zip, right: Node, left: Node, mid: nat, p: nat, s: Slot, vbn: Vbn, len: nat)
    requires Redirtied(z0, z1) && CanPop(z1) && z1.path.f.pos < |z1.path.f.node.slots| && z1.focus.Node?
    requires mid < |z1.focus.slots| - 1 && p < |z1.focus.slots| && s.ent.Ent? && z1.focus.slots[mid].ent.Ent?
    requires Promotes(z1.focus, mid) && ViewSize(Ents(z1.focus.slots), z1.focus.large) + len > z1.focus.alloc
    requires right == RightHalf(z1.focus, mid, p, s, vbn) && left == LeftHalf(z1.focus, mid, p, s)
    ensures var z := SplitZip(z1.path, right, z1.h);
            && Passed(z0, p, s.kid, z, z1.path.f.pos, left)
            && RootSlots(z.path, z.focus) == RootSlots(z1.path.above, z1.path.f.node)
            && z.h == z1.h + 1 && Depth(z.path) + 1 == Depth(z1.path)
            && (Overflows(z.path, z.focus, PromotedLen(z1.focus, mid)) <==> Overflows(z0.path, z0.focus, len))
  {
    hide Overflows, IsMiddle, Passed, Lead, RePath, SplitZip, RootSlots, SplitLeft, SplitRight;
    SplitZipRoot(z1.path, right, z1.h);
    SplitPassed(z1, right, left, mid, p, s, vbn);
    SameLead(z0, z1, p);
    PassedSame(z0, z1, p, s.kid, SplitZip(z1.path, right, z1.h), z1.path.f.pos, left);
    SplitDecides(z0, z1, right, mid, len);
  }

  // ----- the pending entries of one insertion -----

  /** An entry to be put before slot `p` of the block in focus, with the subtree left of it. */
  datatype Pending = Pending(z: Zip, p: int, ie: IndexEntry, lk: Node)

  predicate Placeable(w: Pending) {
    w.z.focus.Node? && 0 <= w.p < |w.z.focus.slots|
  }

  /** The list once the entry is in place. */
  ghost function Aim(w: Pending): seq<KV>
    requires Placeable(w)
  {
    WithPending(w.z, w.p, Slot(Strip(w.ie), w.lk))
  }

  function LevelsOf(w: Pending): nat {
    w.z.h + Depth(w.z.path)
  }

  ghost predicate Overflowing(w: Pending) {
    Overflows(w.z.path, w.z.focus, w.ie.len)
  }

  /** How the pending entry `w` of an insertion that began with `g` relates to it.  The root may have been pushed
      down once, unless the table was `deep`. */
  ghost predicate Underway(g: Pending, w: Pending, split: bool, deep: bool) {
    && Placeable(g) && Placeable(w) && Aim(w) == Aim(g)
    && (if split then NeedsSplit(g.z, g.ie.len) && w.z.h > g.z.h
        else w.ie == g.ie && w.lk == g.lk && w.p == g.p && SameBlock(g.z, w.z, g.p))
    && var k := PendRank(g.z, g.p, g.lk);
       && (Here(g.z, g.p, g.lk, k) ==>
             if split then Clear(w.z, w.p, w.lk, k) else Here(w.z, w.p, w.lk, k))
       && (Roomy(Aim(g), LevelsOf(g)) ==> LevelsOf(w) == LevelsOf(g))
       && if LevelsOf(w) == LevelsOf(g) then Overflowing(w) <==> Overflowing(g)
          else LevelsOf(w) == LevelsOf(g) + 1 && RootSlots(w.z.path, w.z.focus) <= 1 && Overflowing(g) && !deep
  }

  lemma UnderwayStart(g: Pending, deep: bool)
    requires Placeable(g)
    ensures Underway(g, g, false, deep)
  {
  }

  lemma UnderwaySplit(g: Pending, w: Pending, w': Pending, split: bool, deep: bool)
    requires Underway(g, w, split, deep) && Placeable(w') && Aim(w') == Aim(w)
    requires Passed(w.z, w.p, w.lk, w'.z, w'.p, w'.lk) && NeedsSplit(w.z, w.ie.len) && w'.z.h == w.z.h + 1
    requires LevelsOf(w') == LevelsOf(w) && RootSlots(w'.z.path, w'.z.focus) == RootSlots(w.z.path, w.z.focus)
    requires Overflowing(w') <==> Overflowing(w)
    ensures Underway(g, w', true, deep)
  {
    hide Overflows, Roomy, LosesRun, WithPending, RootSlots, Passed, Clear, Here, PendRank;
    var k := PendRank(g.z, g.p, g.lk);
    if Here(g.z, g.p, g.lk, k) {
      PassedClear(w.z, w.p, w.lk, w'.z, w'.p, w'.lk, k);
    }
    if !split {
      SameNeeds(g.z, w.z, g.p, g.ie.len);
    }
  }

  lemma UnderwayPushed(g: Pending, w: Pending, w': Pending, split: bool, deep: bool)
    requires Underway(g, w, split, deep) && Placeable(w') && Aim(w') == Aim(w)
    requires w'.ie == w.ie && w'.lk == w.lk && w'.p == w.p && SameBlock(w.z, w'.z, w.p)
    requires LevelsOf(w') == LevelsOf(w) + 1 && RootSlots(w'.z.path, w'.z.focus) == 1
    requires RootSlots(w.z.path, w.z.focus) > 1
    requires Overflowing(w) && !deep && !Roomy(Aim(w), LevelsOf(w))
    ensures Underway(g, w', split, deep)
  {
    hide Overflows, Roomy, LosesRun, WithPending, RootSlots, NeedsSplit;
  }

  /** Where the last pending entry lands. */
  lemma UnderwayPlaced(g: Pending, w: Pending, z: Zip, split: bool, deep: bool)
    requires Underway(g, w, split, deep) && !NeedsSplit(w.z, w.ie.len) && !Overflowing(w)
    requires z.focus.Node? && w.p < |z.focus.slots| && Upto(z, w.p) == Lead(w.z, w.p) + Flat(w.lk)
    ensures Aim(w) == Aim(g) && (split <==> NeedsSplit(g.z, g.ie.len))
    ensures !split ==> w.p == g.p && w.lk == g.lk && w.z.h == g.z.h && Lead(w.z, w.p) == Lead(g.z, g.p)
    ensures split ==> w.z.h > g.z.h
    ensures split && |Flat(g.lk)| >= 1 && |Flat(g.z.focus.slots[g.p].kid)| >= 1 ==>
              var k := PendRank(g.z, g.p, g.lk); Rank(z, w.p) != k && Rank(z, w.p) + 1 != k
    ensures Overflowing(g) ==> !deep
    ensures LevelsOf(w) <= LevelsOf(g) + 1 && (Roomy(Aim(g), LevelsOf(g)) ==> LevelsOf(w) == LevelsOf(g))
  {
    hide Overflows, Roomy, WithPending, RootSlots, Flat, Lead, Upto;
    if !split {
      SameNeeds(g.z, w.z, g.p, g.ie.len);
    }
  }

  lemma UnderwayRefused(g: Pending, w: Pending, split: bool, deep: bool)
    requires Underway(g, w, split, deep) && Overflowing(w) && RootSlots(w.z.path, w.z.focus) > 1
    requires !Roomy(Aim(w), LevelsOf(w))
    ensures Overflowing(g) && Aim(w) == Aim(g) && LevelsOf(w) == LevelsOf(g) && !Roomy(Aim(g), LevelsOf(g))
  {
  }
}
