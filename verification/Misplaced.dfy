/**
  A table on which removing a key goes wrong.  Its root is nearly full of long entries; the first, a
  short one, has a long successor, which does not fit in its place without a split.
*/
module Misplaced {
  import opened IndexBlock
  import opened BTreeShape
  import opened BTreeOrder
  import opened BTreeRemove
  import opened Collate
  import opened KeyOrder
  import opened BTree

  /** The chain of entries that says `es`. */
  function Chain(es: seq<Ent>, large: bool, prev: nat): seq<IndexEntry> {
    if es == [] then []
    else
      var e := es[0];
      var n := EntLen(e, large);
      var ie := if e.Ent? then IndexEntry(n, prev, e.key, e.value, large, false, false, e.vbn)
                else IndexEntry(n, prev, [], [], large, true, false, e.vbn);
      [ie] + Chain(es[1..], large, n)
  }

  lemma {:induction false} ChainSays(es: seq<Ent>, large: bool, prev: nat)
    requires !large ==> forall i :: 0 <= i < |es| ==> es[i].vbn == 0
    ensures var c := Chain(es, large, prev); |c| == |es| && EntriesOk(c, large) && Threaded(prev, c) && Strips(c) == es
  {
    hide TotalLen;
    if es != [] {
      var c := Chain(es, large, prev);
      ChainSays(es[1..], large, EntLen(es[0], large));
      assert c[1..] == Chain(es[1..], large, EntLen(es[0], large));
      assert Strip(c[0]) == es[0] && Strips(c[1..]) == es[1..];
      forall i | 0 <= i < |es| ensures Strip(c[i]) == es[i] && EntryOk(c[i], large) {
        if i > 0 {
          assert c[1..][i - 1] == c[i] && Strips(c[1..])[i - 1] == es[1..][i - 1];
        }
      }
    }
  }

  /** The cached block a node pictures. */
  function Block(n: Node): Cached
    requires n.Node?
  {
    var es := Ents(n.slots);
    Cached(IndexBlock(n.alloc, ViewSize(es, n.large), n.large, BeginEntry(), Chain(es, n.large, ENTRY_HEAD_SIZE)),
        n.dirty)
  }

  lemma BlockHolds(m: Heap, n: Node)
    requires n.Node? && n.vbn in m && m[n.vbn] == Block(n) && EndLast(Ents(n.slots))
    requires !n.large ==> forall i :: 0 <= i < |n.slots| ==> n.slots[i].ent.vbn == 0
    requires ViewSize(Ents(n.slots), n.large) <= n.alloc
    ensures Holds(m, n)
  {
    ChainSays(Ents(n.slots), n.large, ENTRY_HEAD_SIZE);
  }

  // ----- the table -----

  function Long(): (b: Bytes)
    ensures |b| == VALUE_MAX_SIZE
  {
    seq(VALUE_MAX_SIZE, _ => 0)
  }

  function Leaf(vbn: Vbn, key: uint8, value: Bytes): (n: Node)
    ensures n.Node? && n.vbn == vbn && n.alloc == BLOCK_SIZE && n.dirty
  {
    Node(vbn, false, true, BLOCK_SIZE, [Slot(Ent([key], value, 0), Nil), Slot(End(0), Nil)])
  }

  function Root(): Node {
    Node(1, true, true, ROOT_SIZE,
         [Slot(Ent([2], [], 2), Leaf(2, 1, [])), Slot(Ent([4], Long(), 3), Leaf(3, 3, Long())),
          Slot(Ent([6], Long(), 4), Leaf(4, 5, [])), Slot(Ent([8], Long(), 5), Leaf(5, 7, [])),
          Slot(End(6), Leaf(6, 9, []))])
  }

  function Blocks(): Heap {
    map[1 := Block(Root()), 2 := Block(Leaf(2, 1, [])), 3 := Block(Leaf(3, 3, Long())), 4 := Block(Leaf(4, 5, [])),
        5 := Block(Leaf(5, 7, [])), 6 := Block(Leaf(6, 9, []))]
  }

  function Entries(): seq<KV> {
    [KV([1], []), KV([2], []), KV([3], Long()), KV([4], Long()), KV([5], []), KV([6], Long()), KV([7], []),
     KV([8], Long()), KV([9], [])]
  }

  lemma LeafGood(m: Heap, vbn: Vbn, key: uint8, value: Bytes)
    requires vbn in m && m[vbn] == Block(Leaf(vbn, key, value)) && |value| <= VALUE_MAX_SIZE
    ensures Good(m, Leaf(vbn, key, value), 1)
  {
    var n := Leaf(vbn, key, value);
    var a, b := n.slots[0], n.slots[1];
    assert Ents(n.slots) == [a.ent, b.ent];
    TotalLenAt(Ents(n.slots), 0, false);
    assert Ents(n.slots)[..0] == [] && Ents(n.slots)[1..] == [b.ent];
    TotalLenOne(b.ent, false);
    BlockHolds(m, n);
    assert GoodSlot(m, a, 1) && GoodSlot(m, b, 1);
  }

  lemma LeafShape(vbn: Vbn, key: uint8, value: Bytes)
    ensures Full(Leaf(vbn, key, value), 1) && DirtyOk(Leaf(vbn, key, value))
    ensures Flat(Leaf(vbn, key, value)) == [KV([key], value)] && Foot(Leaf(vbn, key, value)) == multiset{vbn}
  {
    var n := Leaf(vbn, key, value);
    var a, b := n.slots[0], n.slots[1];
    assert FullSlot(a, 0) && FullSlot(b, 0) && DirtySlot(a, true) && DirtySlot(b, true);
    FlatAt(n.slots, 0);
    FootAt(n.slots, 0);
    assert n.slots[..0] == [] && n.slots[1..] == [b];
    FlatOne(b);
    assert FootS([b]) == FootSlot(b) + FootS([b][1..]);
  }

  lemma RootSize()
    ensures ViewSize(Ents(Root().slots), true) == FIRST_ENTRY_OFF + 18 + 3 * 1042 + 17
  {
    var es := Ents(Root().slots);
    TotalLenAt(es, 0, true);
    TotalLenAt(es[1..], 0, true);
    TotalLenAt(es[2..], 0, true);
    TotalLenAt(es[3..], 0, true);
    assert es[1..][1..] == es[2..] && es[2..][1..] == es[3..] && es[3..][1..] == [es[4]];
    TotalLenOne(es[4], true);
    assert forall s: seq<Ent> :: s[..0] == [];
  }

  lemma LeavesGood()
    ensures var m := Blocks();
            && Good(m, Leaf(2, 1, []), 1) && Good(m, Leaf(3, 3, Long()), 1) && Good(m, Leaf(4, 5, []), 1)
            && Good(m, Leaf(5, 7, []), 1) && Good(m, Leaf(6, 9, []), 1)
  {
    var m := Blocks();
    LeafGood(m, 2, 1, []);
    LeafGood(m, 3, 3, Long());
    LeafGood(m, 4, 5, []);
    LeafGood(m, 5, 7, []);
    LeafGood(m, 6, 9, []);
  }

  lemma SlotOver(m: Heap, e: Ent, kid: Node)
    requires EntOk(e) && kid.Node? && kid.vbn == e.vbn && kid.alloc == BLOCK_SIZE && Good(m, kid, 1)
    ensures GoodSlot(m, Slot(e, kid), 2)
  {
  }

  lemma RootSlots()
    ensures GoodSlots(Blocks(), Root().slots, 2)
  {
    hide Blocks, Good, Long, GoodSlot;
    var m := Blocks();
    LeavesGood();
    assert |Long()| == VALUE_MAX_SIZE;
    SlotOver(m, Ent([2], [], 2), Leaf(2, 1, []));
    SlotOver(m, Ent([4], Long(), 3), Leaf(3, 3, Long()));
    SlotOver(m, Ent([6], Long(), 4), Leaf(4, 5, []));
    SlotOver(m, Ent([8], Long(), 5), Leaf(5, 7, []));
    SlotOver(m, End(6), Leaf(6, 9, []));
  }

  lemma RootGood()
    ensures Good(Blocks(), Root(), 2)
  {
    RootHolds();
    RootSlots();
  }

  lemma RootHolds()
    ensures Holds(Blocks(), Root())
  {
    hide Long, Leaf;
    RootSize();
    var es := Ents(Root().slots);
    assert |es| == 5 && es[0].Ent? && es[1].Ent? && es[2].Ent? && es[3].Ent? && es[4] == End(6);
    BlockHolds(Blocks(), Root());
  }

  lemma CleanSlot(e: Ent, vbn: Vbn, key: uint8, value: Bytes)
    ensures FullSlot(Slot(e, Leaf(vbn, key, value)), 1) && DirtySlot(Slot(e, Leaf(vbn, key, value)), true)
  {
    hide Full, DirtyOk;
    LeafShape(vbn, key, value);
  }

  lemma RootClean()
    ensures FullSlots(Root().slots, 1) && DirtySlots(Root().slots, true)
  {
    hide Long, Leaf, FullSlot, DirtySlot;
    CleanSlot(Ent([2], [], 2), 2, 1, []);
    CleanSlot(Ent([4], Long(), 3), 3, 3, Long());
    CleanSlot(Ent([6], Long(), 4), 4, 5, []);
    CleanSlot(Ent([8], Long(), 5), 5, 7, []);
    CleanSlot(End(6), 6, 9, []);
  }

  lemma RootShape()
    ensures FootS(Root().slots) == multiset{2, 3, 4, 5, 6} && FlatS(Root().slots) == Entries()
  {
    RootFlat();
    RootFoot();
  }

  lemma RootFlat()
    ensures FlatS(Root().slots) == Entries()
  {
    hide Long, Leaf, Flat, Foot;
    LeafShape(2, 1, []);
    LeafShape(3, 3, Long());
    LeafShape(4, 5, []);
    LeafShape(5, 7, []);
    LeafShape(6, 9, []);
  }

  lemma RootFoot()
    ensures FootS(Root().slots) == multiset{2, 3, 4, 5, 6}
  {
    hide Long, Leaf, Foot;
    LeafShape(2, 1, []);
    LeafShape(3, 3, Long());
    LeafShape(4, 5, []);
    LeafShape(5, 7, []);
    LeafShape(6, 9, []);
    var ss := Root().slots;
    FiveFoot(ss[0], ss[1], ss[2], ss[3], ss[4]);
  }

  lemma FiveFoot(a: Slot, b: Slot, c: Slot, d: Slot, e: Slot)
    ensures FootS([a, b, c, d, e]) == Foot(a.kid) + Foot(b.kid) + Foot(c.kid) + Foot(d.kid) + Foot(e.kid)
  {
    hide FootS, Foot;
    FootConcat([a, b, c], [d, e]);
    FootConcat([a, b], [c]);
    FootConcat([a], [b]);
    FootConcat([d], [e]);
    OneFoot(a);
    OneFoot(b);
    OneFoot(c);
    OneFoot(d);
    OneFoot(e);
    assert [a, b, c, d, e] == [a, b, c] + [d, e] && [a, b, c] == [a, b] + [c] && [a, b] == [a] + [b]
        && [d, e] == [d] + [e];
  }

  lemma OneFoot(s: Slot)
    ensures FootS([s]) == Foot(s.kid)
  {
    assert [s][1..] == [] && FootS([]) == multiset{};
  }

  function Picture(): Zip {
    Zip(Top, Root(), 2)
  }

  lemma TableSound(free: set<Vbn>)
    requires forall v :: 0 <= v <= 6 ==> v !in free
    ensures Sound(Blocks(), Picture(), free, free + {1, 2, 3, 4, 5, 6}) && Contents(Picture()) == Entries()
  {
    hide Blocks, Good, FootS, FlatS, FullSlots, DirtySlots, Entries;
    RootGood();
    RootClean();
    RootShape();
    var z, all := Picture(), free + {1, 2, 3, 4, 5, 6};
    assert Used(z) == multiset{1} + multiset{2, 3, 4, 5, 6};
    assert Used(z) + multiset(free) == multiset(all);
  }

  lemma EntriesOrdered(fold: Fold)
    ensures Ordered(U64, fold, Entries())
  {
    var l := Entries();
    forall k: uint8 ensures LittleEndian([k]) == k {
      assert LittleEndian([k]) == k + 256 * LittleEndian([k][1..]);
    }
    forall i | 0 <= i < |l| ensures l[i].key == [i + 1] && KeyOk(U64, l[i]) {
    }
  }

  /** Key 2 is found at the first entry of the root, and removing it removes another entry. */
  lemma Misplacing(fold: Fold, free: set<Vbn>)
    requires forall v :: 0 <= v <= 6 ==> v !in free
    ensures Sound(Blocks(), Picture(), free, free + {1, 2, 3, 4, 5, 6})
    ensures Contents(Picture()) == Entries() && Ordered(U64, fold, Entries())
    ensures Rank(Picture(), 0) == 1 && Entries()[1] == KV([2], []) && Misplaces(Picture(), 0)
  {
    hide Sound, Blocks, Ordered, Foot, FootS;
    TableSound(free);
    EntriesOrdered(fold);
    SecondEntry();
  }

  lemma SecondEntry()
    ensures Rank(Picture(), 0) == 1 && Entries()[1] == KV([2], []) && Misplaces(Picture(), 0)
  {
    hide Rank, Foot, FootS, FlatS;
    RankSecond();
    RootSize();
    RootShape();
    assert Contents(Picture()) == Entries();
  }

  lemma RankSecond()
    ensures Rank(Picture(), 0) == 1
  {
    hide Foot, FootS;
    LeafShape(2, 1, []);
    LeadStart(Picture());
    assert Upto(Picture(), 0) == [] + [KV([1], [])];
  }

  /** Removing the entry with key 2 at the cursor does not remove it from the list: it leaves the entry with key
      3 there twice, and takes out entry `j`. */
  method RemoveSecond(t: Table) returns (ret: Status, ghost j: nat)
    requires t.rule == U64 && t.blocks == Blocks() && t.z == Picture() && t.Stacked() && t.position == 0
    requires (forall v :: 0 <= v <= 6 ==> v !in t.free) && t.all == t.free + {1, 2, 3, 4, 5, 6}
    requires |t.free| >= 2 * (TREE_MAX_DEPTH + 2)
    modifies t
    ensures ret == Ok && t.Valid() && t.List() != Without(Entries(), 1)
    ensures j < |Entries()| && j != 1 && j != 2 && t.List() == Without(Doubled(Entries(), 1), j)
  {
    hide ZipOk;
    SecondHere(t);
    hide *;
    ret, j := t.TreeRemoveIe();
    DoubledWithout(Entries(), 1, j);
  }

  lemma SecondHere(t: Table)
    requires t.rule == U64 && t.blocks == Blocks() && t.z == Picture() && t.Stacked() && t.position == 0
    requires (forall v :: 0 <= v <= 6 ==> v !in t.free) && t.all == t.free + {1, 2, 3, 4, 5, 6}
    ensures t.Valid() && t.Levels() == 2 && t.z.focus.Node? && |t.z.focus.slots| == 5
    ensures t.List() == Entries() && |Entries()| == 9
    ensures Rank(t.z, 0) == 1 && Misplaces(t.z, 0) && Distinct(Entries())
  {
    hide Sound, Contents, Blocks, Entries, Rank, Misplaces, Picture, Ordered;
    Misplacing(t.fold, t.free);
    FiveSlots();
    NineEntries(t.fold);
  }

  lemma FiveSlots()
    ensures Picture().focus.Node? && |Picture().focus.slots| == 5 && Picture().h == 2 && Depth(Picture().path) == 0
  {
  }

  lemma NineEntries(fold: Fold)
    ensures |Entries()| == 9 && Distinct(Entries())
  {
    hide Ordered, Distinct;
    EntriesOrdered(fold);
    WithoutOrdered(U64, fold, Entries(), 1);
  }
}
