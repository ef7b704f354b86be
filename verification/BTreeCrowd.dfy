/**
  How many entries of at most eight bytes of key and value it takes to fill a block: what keeps the tables
  of extents from growing, and their removals from going wrong, as long as they are not crowded.
*/
module BTreeCrowd {
  import opened IndexBlock
  import opened BTreeShape
  import opened BTreeOrder
  import opened BTreeSplit
  import opened BTreeRemove

  const NUM_MAX_SIZE := 8

  /** So many entries may crowd a root that is a leaf, and any other table. */
  const LEAF_CROWD := 147
  const CROWD := 220

  /** Keys and values are numbers. */
  predicate Small(l: seq<KV>) {
    forall i :: 0 <= i < |l| ==> |l[i].key| <= NUM_MAX_SIZE && |l[i].value| <= NUM_MAX_SIZE
  }

  /** Too few entries to crowd a table of so many levels. */
  predicate Roomy(l: seq<KV>, levels: nat) {
    Small(l) && |l| < if levels == 1 then LEAF_CROWD else CROWD
  }

  predicate SmallEnts(es: seq<Ent>) {
    forall i :: 0 <= i < |es| && es[i].Ent? ==> |es[i].key| <= NUM_MAX_SIZE && |es[i].value| <= NUM_MAX_SIZE
  }

  function UnitSize(large: bool): nat {
    if large then 33 else 25
  }

  lemma {:induction false} SmallSize(es: seq<Ent>, large: bool)
    requires SmallEnts(es)
    ensures TotalLen(es, large) <= UnitSize(large) * |es|
  {
    if es != [] {
      assert forall i :: 0 <= i < |es[1..]| ==> es[1..][i] == es[i + 1];
      SmallSize(es[1..], large);
    }
  }

  /** Every entry stands for itself, and in an inner block for the subtree left of it as well. */
  lemma {:induction false} SlotsCount(ss: seq<Slot>, inner: bool)
    requires forall i :: 0 <= i < |ss| ==> ss[i].ent.Ent? && (inner ==> |Flat(ss[i].kid)| >= 1)
    ensures |FlatS(ss)| >= if inner then 2 * |ss| else |ss|
  {
    if ss != [] {
      assert forall i :: 0 <= i < |ss[1..]| ==> ss[1..][i] == ss[i + 1];
      SlotsCount(ss[1..], inner);
      FlatAt(ss, 0);
      assert ss[0..] == ss;
    }
  }

  lemma SlotCount(m: Heap, n: Node, h: nat, i: nat)
    requires h >= 1 && Good(m, n, h) && FullSlots(n.slots, h - 1) && i < |n.slots|
    ensures n.slots[i].ent.End? <==> i == |n.slots| - 1
    ensures h >= 2 ==> |Flat(n.slots[i].kid)| >= 1
  {
    hide Flat, View;
    assert EndLast(Ents(n.slots)) && n.slots[i].ent == Ents(n.slots)[i];
    SlotGood(m, n, h, i);
    if h >= 2 {
      assert FullSlot(n.slots[i], h - 1);
      NonEmptyFlat(m, n.slots[i].kid, h - 1);
    }
  }

  /** A block stands for its entries and its subtrees. */
  lemma BlockCount(m: Heap, n: Node, h: nat)
    requires h >= 1 && Good(m, n, h) && FullSlots(n.slots, h - 1)
    ensures |n.slots| >= 1 && |Flat(n)| >= if h >= 2 then 2 * |n.slots| - 1 else |n.slots| - 1
  {
    var ss := n.slots;
    assert EndLast(Ents(ss));
    var e := |ss| - 1;
    forall i | 0 <= i < |ss| ensures (ss[i].ent.End? <==> i == e) && (h >= 2 ==> |Flat(ss[i].kid)| >= 1) {
      SlotCount(m, n, h, i);
    }
    hide Good, FlatS, FullSlots;
    SlotsCount(ss[..e], h >= 2);
    FlatAt(ss, e);
    assert ss[e + 1..] == [];
  }

  /** The entries of a block are entries of the list. */
  lemma BlockSmall(n: Node, l: seq<KV>, a: seq<KV>, b: seq<KV>)
    requires n.Node? && l == a + Flat(n) + b && Small(l)
    ensures SmallEnts(Ents(n.slots))
  {
    forall i | 0 <= i < |n.slots| && n.slots[i].ent.Ent?
      ensures |n.slots[i].ent.key| <= NUM_MAX_SIZE && |n.slots[i].ent.value| <= NUM_MAX_SIZE
    {
      FlatAt(n.slots, i);
      var k := |a| + |FlatS(n.slots[..i])| + |Flat(n.slots[i].kid)|;
      assert l[k] == Pay(n.slots[i].ent)[0];
    }
  }

  /** An entry that does not fit in the root, which is in focus, makes a crowded table. */
  lemma RootCrowded(m: Heap, z: Zip, p: int, ie: IndexEntry, lk: Node, free: set<Vbn>, all: set<Vbn>)
    requires Inserting(m, z, p, ie, lk, free, all) && z.path.Top?
    requires z.focus.vbn in m && m[z.focus.vbn].ib.realSize + ie.len > ROOT_SIZE
    ensures !Roomy(WithPending(z, p, Slot(Strip(ie), lk)), z.h)
  {
    hide Inserting, Good, PathOk, Foot, Owned;
    RootParts(m, z, p, ie, lk, free, all);
    var s, ss, large := Slot(Strip(ie), lk), z.focus.slots, z.focus.large;
    var l := WithPending(z, p, s);
    BlockCount(m, z.focus, z.h);
    if Small(l) {
      PendingSmall(z, p, s);
      BlockSmall(z.focus, Contents(z), LeftOf(z.path), RightOf(z.path));
      SmallSize(Ents(ss), large);
      assert |Contents(z)| == |Flat(z.focus)|;
    }
  }

  lemma RootParts(m: Heap, z: Zip, p: int, ie: IndexEntry, lk: Node, free: set<Vbn>, all: set<Vbn>)
    requires Inserting(m, z, p, ie, lk, free, all) && z.path.Top? && z.focus.vbn in m
    ensures z.h >= 1 && z.focus.Node? && Good(m, z.focus, z.h) && FullSlots(z.focus.slots, z.h - 1)
            && 0 <= p < |z.focus.slots|
    ensures m[z.focus.vbn].ib.realSize == FIRST_ENTRY_OFF + TotalLen(Ents(z.focus.slots), z.focus.large)
    ensures z.focus.large == (z.h >= 2) && ie.len == EntLen(Strip(ie), z.focus.large) && Strip(ie).Ent?
    ensures z.h >= 2 ==> |Flat(lk)| >= 1
    ensures LeftOf(z.path) == [] == RightOf(z.path)
  {
    hide Owned, View, Chained, Foot, TotalLen, Full;
    SizeTest(m, z, p, ie, lk, free, all);
    if z.h >= 2 {
      NonEmptyFlat(m, lk, z.h - 1);
    }
  }

  /** The list with an entry pending is longer by the entry and its subtree, and both are small. */
  lemma PendingSmall(z: Zip, p: nat, s: Slot)
    requires z.focus.Node? && p < |z.focus.slots| && s.ent.Ent? && Small(WithPending(z, p, s))
    ensures Small(Contents(z)) && |s.ent.key| <= NUM_MAX_SIZE && |s.ent.value| <= NUM_MAX_SIZE
    ensures |WithPending(z, p, s)| == |Contents(z)| + |Flat(s.kid)| + 1
  {
    hide Contents, Lead, Tail, Flat;
    LeadTail(z, p);
    var l, a, f := WithPending(z, p, s), Lead(z, p), FlatSlot(s);
    assert l == a + f + Tail(z, p) && Contents(z) == a + Tail(z, p);
    assert l[|a| + |f| - 1] == f[|f| - 1] == KV(s.ent.key, s.ent.value);
    forall i | 0 <= i < |Contents(z)|
      ensures |Contents(z)[i].key| <= NUM_MAX_SIZE && |Contents(z)[i].value| <= NUM_MAX_SIZE
    {
      assert Contents(z)[i] == l[if i < |a| then i else i + |f|];
    }
  }

  /** So does a removal that goes wrong. */
  lemma SlipCrowded(m: Heap, z: Zip, p: nat)
    requires ZipOk(m, z) && z.focus.Node? && FullSlots(z.focus.slots, z.h - 1) && p < |z.focus.slots|
             && z.focus.slots[p].ent.Ent?
    requires Small(Contents(z)) && Misplaces(z, p)
    ensures |Contents(z)| >= CROWD
  {
    hide Good, PathOk, Rank, FullSlots, FlatS;
    RankNext(z, p);
    BlockCount(m, z.focus, z.h);
    BlockSmall(z.focus, Contents(z), LeftOf(z.path), RightOf(z.path));
    SmallSize(Ents(z.focus.slots), true);
  }

  lemma RoomyLevels(l: seq<KV>, levels: nat)
    ensures levels != 1 ==> (Roomy(l, levels) <==> Roomy(l, 2))
    ensures Roomy(l, 1) ==> Roomy(l, levels)
  {
  }

  /** A removal, right or wrong, makes no table crowded. */
  lemma RoomyEdits(l: seq<KV>, r: nat, j: nat)
    requires r < |l|
    ensures Roomy(l, 2) ==> Roomy(Without(l, r), 2)
    ensures Roomy(l, 2) && r + 1 < |l| && j < |l| ==> Roomy(Doubled(l, r), 2) && Roomy(Without(Doubled(l, r), j), 2)
  {
  }
}
