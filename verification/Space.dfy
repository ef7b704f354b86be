/**
  The space managers of a container.  User objects draw on `sm`; the tree that records what is free in
  `sm` draws on `bsm`; the tree behind `bsm` draws on one spare block.

  Each manager keeps its free extents in a table, by start and length.
*/
module Space {
  import opened IndexBlock
  import opened BTreeShape
  import opened BTreeOrder
  import opened BTreeSplit
  import opened BTreeRemove
  import opened BTreeCrowd
  import opened Collate
  import opened KeyOrder
  import opened BTree
  import opened Extents

  const NO_FREE_BLOCKS := -400016       // -INDEX_ERR_NO_FREE_BLOCKS
  const KEY_EXIST := -400032            // -INDEX_ERR_KEY_EXIST
  const ERR_REPARENT := -400040         // -INDEX_ERR_REPARENT
  const MAX_BLK_NUM := 10
  const MIN_BLK_NUM := 3

  /** The numbers a table may need for one insertion, and for one allocation: a removal and two
      insertions. */
  const INSERT_NEEDS := TREE_MAX_DEPTH + 2
  const ALLOC_NEEDS := 4 * INSERT_NEEDS
  const RESERVE_NEEDS := (MIN_BLK_NUM + 3) * ALLOC_NEEDS

  /** What has gone wrong with a manager's table: nothing; a removal that took out another entry, at the
      place recorded; or the table refused to get deeper. */
  datatype Lapse =
    | Fine
    | Slipped(blocks: Heap, free: set<Vbn>, all: set<Vbn>, fold: Fold, at: Zip, p: nat)
    | TooDeep

  /** A recorded slip is a removal, from a sound and ordered table of extents, of an entry whose successor
      does not fit in its place. */
  ghost predicate Genuine(lapse: Lapse) {
    lapse.Slipped? ==> Slippery(lapse.blocks, lapse.free, lapse.all, lapse.fold, lapse.at, lapse.p)
  }

  ghost predicate Slippery(m: Heap, free: set<Vbn>, all: set<Vbn>, fold: Fold, at: Zip, p: nat) {
    && Sound(m, at, free, all) && Ordered(Extent, fold, Contents(at))
    && at.focus.Node? && p < |at.focus.slots| && at.focus.slots[p].ent.Ent? && Misplaces(at, p)
  }

  /** A slip needs a table of three levels and a block that is full but for a few bytes. */
  lemma SlipNeeds(lapse: Lapse)
    requires Genuine(lapse) && lapse.Slipped?
    ensures lapse.at.path.Up? && lapse.at.h + Depth(lapse.at.path) >= 3
    ensures lapse.at.focus.Node? && ViewSize(Ents(lapse.at.focus.slots), true) > BLOCK_SIZE - 14
  {
    SlipIsDeep(lapse.blocks, lapse.at, lapse.p);
  }

  /** How many extents a table holds, its levels, and the most levels it has or remembers. */
  datatype Size = Size(extents: nat, levels: nat, reach: nat)

  /** What a call does to the size that inserts at most `n` extents more than it removes, and makes the table
      at most `k` levels deeper. */
  ghost predicate Steady(s: Size, s': Size, n: nat, k: nat, failed: bool) {
    && s'.extents <= s.extents + n && s'.levels <= s.levels + k && s'.reach <= s.reach + k
    && (failed ==> s.reach + k > TREE_MAX_DEPTH)
    && (s.extents + n < CROWD && s.reach < TREE_MAX_DEPTH ==> !failed && s'.reach < TREE_MAX_DEPTH)
    && (s.extents + n < LEAF_CROWD && s.levels == 1 ==> !failed && s'.levels == 1)
  }

  /** A table with room for `n` extents more: it will not slip, and not refuse to get deeper. */
  ghost predicate Calm(s: Size, n: nat) {
    || (s.extents + n < CROWD && s.reach < TREE_MAX_DEPTH)
    || (s.extents + n < LEAF_CROWD && s.levels == 1)
  }

  /** A table that one allocation can neither make slip nor make too deep. */
  ghost predicate Low(s: Size) {
    s.levels <= 2 && s.reach + 4 <= TREE_MAX_DEPTH
  }

  /** A manager's past: its table's size, what has gone wrong, and the tables it has allocated from. */
  datatype Past = Past(size: Size, lapse: Lapse, history: seq<Heap>)

  /** What calls do to a manager that together insert `n` extents more than they remove.  A lapse is recorded
      once, a slip only of a table allocated from in one of these calls. */
  ghost predicate Kept(s: Past, s': Past, n: nat, k: nat) {
    && Steady(s.size, s'.size, n, k, s.lapse.Fine? && s'.lapse.TooDeep?)
    && s.history <= s'.history && (!s.lapse.Fine? ==> s'.lapse == s.lapse)
    && (s.lapse.Fine? && s'.lapse.Slipped? ==>
          s.size.extents + n >= CROWD && s'.lapse.blocks in s'.history[|s.history|..])
  }

  lemma KeptSame(s: Past, n: nat, k: nat)
    ensures Kept(s, s, n, k)
  {
  }

  lemma KeptOn(s: Past, s1: Past, s2: Past, n1: nat, k1: nat, n2: nat, k2: nat)
    requires Kept(s, s1, n1, k1) && Kept(s1, s2, n2, k2)
    ensures Kept(s, s2, n1 + n2, k1 + k2)
  {
    assert s1.history[|s.history|..] <= s2.history[|s.history|..];
    assert s2.history[|s.history|..][|s1.history| - |s.history|..] == s2.history[|s1.history|..];
  }

  lemma KeptMore(s: Past, s': Past, n: nat, k: nat, n': nat, k': nat)
    requires Kept(s, s', n, k) && n <= n' && k <= k'
    ensures Kept(s, s', n', k')
  {
  }

  /** While there is room nothing goes wrong, and what is not used of it is left. */
  lemma KeptCalm(s: Past, s': Past, n: nat, k: nat, m: nat)
    requires Kept(s, s', n, k) && s.lapse.Fine? && Calm(s.size, n + m)
    ensures s'.lapse.Fine? && Calm(s'.size, m)
  {
  }

  class SpaceManager {
    /** The table of free space. */
    const obj: Table
    var firstFreeBlock: nat
    var totalFreeBlocks: nat

    ghost var lapse: Lapse

    /** The tables the manager has had at the start of each allocation. */
    ghost var history: seq<Heap>

    ghost function Free(): seq<Ext>
      reads obj
    {
      Exts(obj.List())
    }

    ghost function Levels(): nat
      reads obj
    {
      obj.Levels()
    }

    ghost function SizeNow(): Size
      reads obj
    {
      Size(|Free()|, obj.Levels(), if obj.maxDepth < obj.Levels() then obj.Levels() else obj.maxDepth + 1)
    }

    ghost function Now(): Past
      reads this, obj
    {
      Past(SizeNow(), lapse, history)
    }

    /** The table can be searched. */
    ghost predicate Searchable()
      reads obj
    {
      && obj.rule == Extent && obj.Valid() && Loosely(Extent, obj.fold, obj.List())
      && Ends(obj.List())
    }

    /** The table can be searched, and every length fits the 32-bit arithmetic of the allocator.  If nothing has
        gone wrong, it is ordered and the count is right. */
    ghost predicate Valid()
      reads this, obj
    {
      && Genuine(lapse) && firstFreeBlock <= BLOCK_LIMIT && Searchable() && Short(Free())
      && (lapse.Fine? ==> obj.Sorted() && Sorted(Free()) && totalFreeBlocks == Total(Free()))
    }

    // ----- the table -----

    /** A table of one level needs no block but its root. */
    lemma OneBlock()
      requires Searchable() && Levels() == 1
      ensures obj.all == obj.free + {obj.rootVbn}
    {
      hide Ends, Exts, Good, PathOk;
      assert obj.z.path.Top? && obj.cacheStack == [obj.z.focus.vbn];
      FootNode(obj.z.focus);
      obj.LeafFacts();
      LeafFoot(obj.z.focus.slots);
      forall v: Vbn ensures v in obj.all <==> v in obj.free || v == obj.rootVbn {
        assert multiset(obj.all)[v] == Used(obj.z)[v] + multiset(obj.free)[v];
      }
    }

    /** A range as a key and a value of the table. */
    method Encoded(addr: nat, len: nat) returns (a: Bytes, l: Bytes)
      requires Searchable() && len >= 1 && addr + len < TWO_64
      ensures KeyOk(Extent, KV(a, l)) && LittleEndian(a) == addr && LittleEndian(l) == len && |l| <= U64_MAX_SIZE
      ensures obj.Guides(a, l)
    {
      a := U64ToBstr(addr);
      l := U64ToBstr(len);
      LooseMonotone(Extent, obj.fold, obj.List(), KV(a, l));
    }

    lemma ListSorted()
      requires Searchable() && obj.Sorted()
      ensures Sorted(Free())
    {
      var q := KV([1], [1]);
      assert LittleEndian([1]) == 1 + 256 * LittleEndian([]);
      TableExtents(obj.fold, obj.List(), q);
    }

    /** What it means that some entry compares equal to a range. */
    lemma Overlaps(q: KV)
      requires Searchable() && KeyOk(Extent, q)
      ensures var a := LittleEndian(q.key); var b := a + LittleEndian(q.value);
              && (forall i :: 0 <= i < |Free()| ==>
                    (Cmp(Extent, obj.fold, obj.List()[i], q) == 0 <==> Meets(Free()[i], a, b)))
              && ((exists kv :: kv in obj.List() && Cmp(Extent, obj.fold, kv, q) == 0) <==>
                    Blocks(Free()) * Range(a, b) != {})
    {
      TableOverlaps(obj.fold, obj.List(), q);
    }

    /** Inserts an extent, unless it overlaps one that is there. */
    method FreeSpace(addr: nat, len: nat) returns (ret: int, ghost at: nat)
      requires Searchable() && len >= 1 && addr + len <= BLOCK_LIMIT && |obj.free| >= INSERT_NEEDS
      modifies obj
      ensures ret == 0 || ret == KEY_EXIST || ret == ERR_REPARENT
      ensures ret != ERR_REPARENT ==> (ret == KEY_EXIST <==> Blocks(old(Free())) * Range(addr, addr + len) != {})
      ensures Searchable() && |obj.free| + INSERT_NEEDS >= old(|obj.free|) && (old(obj.Sorted()) ==> obj.Sorted())
      ensures old(Short(Free())) && len < TWO_31 ==> Short(Free())
      ensures obj.all <= old(obj.all) && (ret != ERR_REPARENT ==> obj.all == old(obj.all))
      ensures Steady(old(SizeNow()), SizeNow(), 1, 1, ret == ERR_REPARENT)
      ensures ret == KEY_EXIST ==> Free() == old(Free())
      ensures ret == 0 ==>
                at <= |old(Free())| && FitsAt(old(Free()), at, Ext(addr, len))
                    && Free() == Insert(old(Free()), at, Ext(addr, len))
    {
      hide Blocks, Range, Sound, Ordered, Contents, Cmp, Below, Above, Monotone, Insert, Loosely, Ends, Keyed;
      var a, l := Encoded(addr, len);
      ghost var kv, f := KV(a, l), obj.List();
      Overlaps(kv);
      var status;
      ghost var leaf, p;
      status, at, leaf, p := obj.IndexInsertKey(a, l);
      ghost var target := With(f, at, kv);
      EntriesSmall(f, at, kv);
      RoomyLevels(target, old(Levels()));
      if status == KeyExist {
        return KEY_EXIST, at;
      }
      InsertLoose(Extent, obj.fold, f, at, kv);
      TableEdits(f, at, kv, 0);
      EndsEdits(f, at, kv, 0);
      ShortEdits(Exts(f), 0, 0, false, Ext(addr, len), at);
      if status == ErrReparent {
        RunLoose(Extent, obj.fold, obj.List(), target);
        RunEdits(obj.List(), target);
        return ERR_REPARENT, at;
      }
      TableSides(obj.fold, f, kv, at);
      ret := 0;
    }

    /** Goes to the extent the request is served from. */
    method Seek(startBlk: nat, blkCnt: nat) returns (any: bool, start: nat)
      requires Searchable() && 1 <= blkCnt < TWO_32 && startBlk <= BLOCK_LIMIT
      modifies obj`depth, obj`cacheStack, obj`positionStack, obj`position, obj`maxDepth, obj`z
      ensures Searchable() && obj.List() == old(obj.List())
      ensures Levels() == old(Levels()) && SizeNow().reach <= old(SizeNow().reach)
      ensures any <==> Free() != []
      ensures any ==>
                && 0 <= obj.position < |obj.z.focus.slots| - 1 && AtEntry(obj.z, obj.position)
                && Serves(Free(), Rank(obj.z, obj.position), startBlk, blkCnt)
                && var e := Free()[Rank(obj.z, obj.position)];
                   start == if Meets(e, startBlk, startBlk + blkCnt) then startBlk else e.addr
    {
      hide Sound, Ordered, Contents, Cmp, Below, Above, Monotone, Rank, Serves, AtEntry, Loosely, Ends, Exts, NumOk,
        Meets, LittleEndian, ProbeFor, Blocks;
      var a, l := Encoded(startBlk, blkCnt);
      ghost var kv, f := KV(a, l), obj.List();
      Overlaps(kv);
      start := startBlk;
      var status := obj.IndexSearchKey(a, l);
      ghost var r := Rank(obj.z, obj.position);
      if status == Ok {
        RankEntry(obj.z, obj.position);
        ServesSearch(Free(), true, r, startBlk, blkCnt);
        return true, start;
      }
      TableSides(obj.fold, f, kv, r);
      ServesSearch(Free(), false, r, startBlk, blkCnt);
      var ie := obj.CurrentIe();
      if ie.isEnd {
        status := obj.WalkTree(GetFirst);
        if status != Ok {
          return false, start;
        }
      }
      RankEntry(obj.z, obj.position);
      ie := obj.CurrentIe();
      start := EntryAddr(ie);
      any := true;
    }

    lemma RankEntry(z: Zip, p: nat)
      requires Searchable() && z == obj.z && p < |z.focus.slots| && AtEntry(z, p)
      ensures Rank(z, p) < |obj.List()| == |Free()|
      ensures z.focus.slots[p].ent.Ent?
              && obj.List()[Rank(z, p)] == KV(z.focus.slots[p].ent.key, z.focus.slots[p].ent.value)
      ensures KeyOk(Extent, obj.List()[Rank(z, p)])
    {
    }

    /** The start of an extent. */
    method EntryAddr(ie: IndexEntry) returns (addr: nat)
      requires NumOk(ie.key)
      ensures addr == LittleEndian(ie.key)
    {
      addr := BstrToU64(ie.key);
    }

    /** Where a search leads. */
    lemma ServesSearch(l: seq<Ext>, found: bool, at: nat, a: nat, n: nat)
      requires n >= 1 && forall k :: 0 <= k < |l| ==> l[k].len >= 1
      requires found ==> at < |l| && Meets(l[at], a, a + n)
      requires !found ==>
                 && at <= |l| && (forall k :: 0 <= k < at ==> EndOf(l[k]) <= a)
                 && (forall k :: at <= k < |l| ==> a + n <= l[k].addr)
      ensures l != [] ==> Serves(l, if at == |l| then 0 else at, a, n)
      ensures !found && l != [] ==> !Meets(l[if at == |l| then 0 else at], a, a + n)
    {
      if !found {
        forall k | 0 <= k < |l| ensures !Meets(l[k], a, a + n) {
        }
        if at < |l| {
          assert a + n <= l[at].addr;
        }
      }
    }

    /** Takes the current extent out of the table.  It goes wrong exactly if the removal is misplaced. */
    method TakeExtent() returns (ret: int, ghost j: nat)
      requires Searchable() && 0 <= obj.position < |obj.z.focus.slots| - 1 && AtEntry(obj.z, obj.position)
      requires |obj.free| >= 2 * INSERT_NEEDS
      modifies obj
      ensures ret == 0 || ret == ERR_REPARENT
      ensures Searchable() && |obj.free| + 2 * INSERT_NEEDS >= old(|obj.free|) && (old(Short(Free())) ==> Short(Free()))
      ensures obj.all <= old(obj.all) && (ret == 0 ==> obj.all == old(obj.all))
      ensures Steady(old(SizeNow()), SizeNow(), 0, 2, ret != 0)
      ensures old(Misplaces(obj.z, obj.position)) ==> old(|Free()|) >= CROWD && old(Levels()) >= 3
      ensures ret == 0 ==>
                var l, i, slip := old(Free()), old(Rank(obj.z, obj.position)), old(Misplaces(obj.z, obj.position));
                Slipping(l, i, j, slip) && Free() == Left(l, i, j, slip)
      ensures ret == 0 && old(obj.Sorted()) ==>
                && (obj.Sorted() || old(Misplaces(obj.z, obj.position)))
                && (Free() == Remove(old(Free()), old(Rank(obj.z, obj.position))) <==>
                      !old(Misplaces(obj.z, obj.position)))
    {
      hide Sound, Ordered, Contents, Cmp, Rank, Loosely, Misplaces, Without, Doubled, Remove, Slip, Exts, Ends, KeyOk,
        LosesRun, Keyed, Short, Sorted;
      ghost var l, f, i, slip := obj.List(), Free(), Rank(obj.z, obj.position), Misplaces(obj.z, obj.position);
      ghost var sorted := obj.Sorted();
      var status;
      if sorted {
        ListSorted();
        WithoutOrdered(Extent, obj.fold, l, i);
      }
      SlipSize();
      ListSmall();
      status, j := obj.TreeRemoveIe();
      if status == Ok && !slip {
        j := 0;
      }
      Edited(l, i, j);
      ListLength();
      if status != Ok {
        ghost var target := if LosesRun(obj.List(), Without(l, i)) then Without(l, i)
          else if LosesRun(obj.List(), Doubled(l, i)) then Doubled(l, i) else Without(Doubled(l, i), j);
        RunLoose(Extent, obj.fold, obj.List(), target);
        RunEdits(obj.List(), target);
        return ERR_REPARENT, j;
      }
      TableEdits(l, i, l[i], j);
      if sorted && slip {
        SlipBlocks(f, i, j);
      }
      ret := 0;
    }

    /** What a removal may leave can be searched. */
    lemma Edited(l: seq<KV>, i: nat, j: nat)
      requires Loosely(Extent, obj.fold, l) && Ends(l) && i < |l|
      ensures Loosely(Extent, obj.fold, Without(l, i)) && Ends(Without(l, i)) && |Without(l, i)| <= |l|
      ensures Short(Exts(l)) ==> Short(Exts(Without(l, i)))
      ensures i + 1 < |l| ==> Fit(l, Doubled(l, i))
      ensures i + 1 < |l| && j < |l| ==> Fit(l, Without(Doubled(l, i), j))
    {
      hide Loosely, Keyed;
      RemoveLoose(Extent, obj.fold, l, i, if j < |l| then j else 0);
      if i + 1 < |l| {
        DoubledLoose(Extent, obj.fold, l, i);
        DoubledEdits(l, i);
        EndsEdits(l, i, l[i], if j < |l| then j else 0);
        TableEdits(l, i, l[i], if j < |l| then j else 0);
        ShortSlip(Exts(l), i, if j < |l| then j else 0);
      } else {
        EndsEdits(l, i, l[i], 0);
        TableEdits(l, i, l[i], 0);
        ShortSlip(Exts(l), i, 0);
      }
    }

    ghost predicate Fit(l: seq<KV>, l': seq<KV>) {
      && Loosely(Extent, obj.fold, l') && Ends(l') && |l'| <= |l| && (Short(Exts(l)) ==> Short(Exts(l')))
    }

    lemma ListSmall()
      requires Searchable()
      ensures Small(obj.List()) && |Free()| == |obj.List()|
    {
      if obj.List() != [] {
        EntriesSmall(obj.List(), 0, obj.List()[0]);
      }
    }

    lemma ListLength()
      requires obj.Valid()
      ensures |Free()| == |obj.List()| && Levels() >= 1
    {
      obj.LeafFacts();
    }

    /** Only a crowded table of three levels slips. */
    lemma SlipSize()
      requires Searchable() && 0 <= obj.position < |obj.z.focus.slots| - 1 && AtEntry(obj.z, obj.position)
      ensures Misplaces(obj.z, obj.position) ==> |Free()| >= CROWD && Levels() >= 3
    {
      hide Good, PathOk, Rank, Ends, Owned, DirtyZip;
      if Misplaces(obj.z, obj.position) {
        ListSmall();
        SlipIsDeep(obj.blocks, obj.z, obj.position);
        SlipCrowded(obj.blocks, obj.z, obj.position);
      }
    }

    /** Inserts what is left of an extent around the run taken from it.  `err` is the error of the table, if
        there was one. */
    method PutRests(start: nat, blkCnt: nat, addr: nat, len: nat, ghost l: seq<Ext>, ghost i: nat, ghost j: nat,
                    ghost slip: bool, ghost sorted: bool)
      returns (ret: int, first: nat, sane: bool, ghost err: int)
      requires Searchable() && |obj.free| >= 2 * INSERT_NEEDS && blkCnt >= 1 && 1 <= len < TWO_32
               && addr + len <= BLOCK_LIMIT
      requires sorted ==> Sorted(l) && Slipping(l, i, j, slip) && Free() == Left(l, i, j, slip)
      requires sorted ==> l[i].addr == addr && addr + len <= EndOf(l[i])
      modifies obj
      ensures sane <==> start < addr + len
      ensures sane ==> first == if start <= addr then addr else start
      ensures err == 0 || (sane && (err == KEY_EXIST || err == ERR_REPARENT) && ret == err)
      ensures Searchable() && |obj.free| + 2 * INSERT_NEEDS >= old(|obj.free|) && (old(obj.Sorted()) ==> obj.Sorted())
      ensures old(Short(Free())) && len < TWO_31 ==> Short(Free())
      ensures obj.all <= old(obj.all) && (err != ERR_REPARENT ==> obj.all == old(obj.all))
      ensures Steady(old(SizeNow()), SizeNow(), 2, 2, err == ERR_REPARENT)
      ensures sane && err == 0 ==>
                var end := addr + len;
                var b := if first + blkCnt < end then first + blkCnt else end;
                && first < b && ret == Int32(b - first) && (sorted ==> CarvedOut(l, i, j, slip, first, b, end, Free()))
      ensures sorted ==> err != KEY_EXIST
    {
      hide Searchable, Sorted, Slipping, Left, CarvedOut, Blocks, Range, Insert, FitsAt, Short, Ordered;
      ret, first, sane, err := 0, 0, true, 0;
      var end := addr + len;
      ghost var f, k, m := Free(), 0, 0;
      if start <= addr {
        first := addr;
        var endBlk := first + blkCnt;
        if endBlk < end {
          if sorted {
            RestFree(l, i, j, slip, endBlk, end);
          }
          ret, k := FreeSpace(endBlk, end - endBlk);
          if ret < 0 {
            return ret, first, sane, ret;
          }
          if sorted {
            CarvedOne(l, i, j, slip, first, endBlk, end, k, Ext(endBlk, end - endBlk));
          }
          ret := Int32(endBlk - addr);
        } else {
          if sorted {
            CarvedNone(l, i, j, slip, end);
          }
          ret := Int32(len);
        }
        return;
      }
      if start >= end {
        sane := false;
        return;
      }
      first := start;
      var endBlk := start + blkCnt;
      if sorted {
        RestFree(l, i, j, slip, addr, start);
      }
      ret, k := FreeSpace(addr, start - addr);
      if ret < 0 {
        return ret, first, sane, ret;
      }
      ghost var f' := Free();
      if endBlk < end {
        if sorted {
          SecondRestFree(l, i, j, slip, start, endBlk, end, k);
        }
        ret, m := FreeSpace(endBlk, end - endBlk);
        if ret < 0 {
          return ret, first, sane, ret;
        }
        if sorted {
          CarvedTwo(l, i, j, slip, start, endBlk, end, k, m, f');
        }
        ret := Int32(blkCnt);
      } else {
        if sorted {
          CarvedOne(l, i, j, slip, start, end, end, k, Ext(addr, start - addr));
        }
        ret := Int32(end - start);
      }
    }

    /** Takes up to `blkCnt` blocks at or near `startBlk`.  `i` is the extent they come from, entry `p` of the
        block in focus of `at`; its length is read into 32 bits, and the number of blocks is returned as a
        signed 32-bit number.  If the removal of the extent is misplaced, extent `j` is lost with it.  Not
        `sane` if an assertion of the code fails on the way. */
    method AllocSpace(startBlk: nat, blkCnt: nat)
      returns (ret: int, first: nat, sane: bool, ghost err: int, ghost at: Zip, ghost p: nat, ghost i: nat,
          ghost j: nat)
      requires Searchable() && 1 <= blkCnt < TWO_32 && startBlk <= BLOCK_LIMIT && |obj.free| >= ALLOC_NEEDS
      modifies obj
      ensures err == 0 || ((err == KEY_EXIST || err == ERR_REPARENT) && ret == err)
      ensures Searchable() && |obj.free| + ALLOC_NEEDS >= old(|obj.free|) && (old(Short(Free())) ==> Short(Free()))
      ensures obj.all <= old(obj.all) && (err != ERR_REPARENT ==> obj.all == old(obj.all))
      ensures Steady(old(SizeNow()), SizeNow(), 1, 4, err == ERR_REPARENT)
      ensures old(Free()) == [] ==>
                ret == NO_FREE_BLOCKS && sane && err == 0 && Free() == [] && obj.List() == old(obj.List())
      ensures old(Free()) != [] ==>
                && Sound(old(obj.blocks), at, old(obj.free), old(obj.all)) && Contents(at) == old(obj.List())
                && at.focus.Node? && p < |at.focus.slots| && at.focus.slots[p].ent.Ent? && Rank(at, p) == i
                && at.h + Depth(at.path) == old(Levels())
                && (Misplaces(at, p) ==> old(|Free()|) >= CROWD && old(Levels()) >= 3)
                && i < |old(Free())| && Serves(old(Free()), i, startBlk, blkCnt)
      ensures old(Free()) != [] ==>
                var e := old(Free())[i]; var end := e.addr + Narrow(e.len);
                var inside := Meets(e, startBlk, startBlk + blkCnt) && e.addr < startBlk;
                && (sane <==> Narrow(e.len) != 0 && (inside ==> startBlk < end))
                && (sane && err == 0 ==>
                      && first == (if inside then startBlk else e.addr)
                      && var b := if first + blkCnt < end then first + blkCnt else end;
                         && e.addr <= first < b && ret == Int32(b - first)
                         && (old(obj.Sorted()) ==>
                               && Slipping(old(Free()), i, j, Misplaces(at, p)) && (obj.Sorted() || Misplaces(at, p))
                               && CarvedOut(old(Free()), i, j, Misplaces(at, p), first, b, end, Free())))
      ensures old(obj.Sorted()) ==> err != KEY_EXIST
    {
      hide Sound, Ordered, Contents, Cmp, Rank, Loosely, Misplaces, Sorted, Left, Slipping, CarvedOut, Blocks, Range,
        Serves, AtEntry, Remove, Short;
      first, sane, err, at, p, i, j := 0, true, 0, obj.z, 0, 0, 0;
      var any, start := Seek(startBlk, blkCnt);
      if !any {
        return NO_FREE_BLOCKS, first, sane, err, at, p, i, j;
      }
      at, p, i := obj.z, obj.position, Rank(obj.z, obj.position);
      RankEntry(at, p);
      SlipSize();
      var ie := obj.CurrentIe();
      var addr := EntryAddr(ie);
      var len := BstrToU64(ie.value);
      len := len % TWO_32;
      sane, ret := false, 0;
      if len == 0 {
        return;
      }
      ret, first, sane, err, j := AllocFrom(start, blkCnt, addr, len, i, Misplaces(at, p));
    }

    /** Takes the current extent out, and puts back what is left of it. */
    method AllocFrom(start: nat, blkCnt: nat, addr: nat, len: nat, ghost i: nat, ghost slip: bool)
      returns (ret: int, first: nat, sane: bool, ghost err: int, ghost j: nat)
      requires Searchable() && obj.z.focus.Node? && 0 <= obj.position < |obj.z.focus.slots| - 1
               && AtEntry(obj.z, obj.position)
      requires i == Rank(obj.z, obj.position) < |Free()| && slip == Misplaces(obj.z, obj.position)
      requires addr == Free()[i].addr && 1 <= len == Narrow(Free()[i].len)
      requires blkCnt >= 1 && |obj.free| >= ALLOC_NEEDS
      requires 0 < |Free()|
      modifies obj
      ensures sane <==> start < addr + len
      ensures slip ==> old(|Free()|) >= CROWD && old(Levels()) >= 3
      ensures err == 0 || ((err == KEY_EXIST || err == ERR_REPARENT) && ret == err)
      ensures Searchable() && |obj.free| + ALLOC_NEEDS >= old(|obj.free|) && (old(Short(Free())) ==> Short(Free()))
      ensures obj.all <= old(obj.all) && (err != ERR_REPARENT ==> obj.all == old(obj.all))
      ensures Steady(old(SizeNow()), SizeNow(), 1, 4, err == ERR_REPARENT)
      ensures sane && err == 0 ==>
                var l, end := old(Free()), addr + len;
                var b := if first + blkCnt < end then first + blkCnt else end;
                && first == (if start <= addr then addr else start) && first < b && ret == Int32(b - first)
                && (old(obj.Sorted()) ==>
                      && Slipping(l, i, j, slip) && (obj.Sorted() || slip)
                      && CarvedOut(l, i, j, slip, first, b, end, Free()))
      ensures old(obj.Sorted()) ==> err != KEY_EXIST
    {
      hide Searchable, Sound, Ordered, Contents, Rank, Misplaces, Sorted, Left, Slipping, CarvedOut, Blocks, Range,
        AtEntry, Remove, Short, Exts;
      ghost var l, sorted := Free(), obj.Sorted();
      NoneEmpty();
      if sorted {
        ListSorted();
      }
      if Short(l) {
        ShortAt(l, i);
      }
      sane, first, err := start < addr + len, 0, 0;
      ret, j := TakeExtent();
      if ret < 0 {
        err := ret;
        return;
      }
      LeftLength(l, i, j, slip);
      ret, first, sane, err := PutRests(start, blkCnt, addr, len, l, i, j, slip, sorted);
    }

    // ----- the manager -----

    /** Takes up to `blkCnt` blocks.  Refused only when nothing is free.  The free blocks lose exactly these
        blocks, if and only if the removal of their extent from the table is not misplaced. */
    method SmAllocSpace(blkCnt: nat) returns (ret: int, first: nat)
      requires Valid() && 1 <= blkCnt < TWO_32 && |obj.free| >= ALLOC_NEEDS
      modifies this, obj
      ensures Valid() && |obj.free| + ALLOC_NEEDS >= old(|obj.free|) && (!old(lapse).Fine? ==> lapse == old(lapse))
      ensures ret == NO_FREE_BLOCKS || ret == KEY_EXIST || ret == ERR_REPARENT
              || (1 <= ret <= blkCnt && first + ret <= BLOCK_LIMIT)
      ensures ret > 0 ==>
                && Served(old(Free()), old(firstFreeBlock), blkCnt, first, ret) && firstFreeBlock == first + ret
                && totalFreeBlocks == if old(totalFreeBlocks) < ret then old(totalFreeBlocks)
                      else old(totalFreeBlocks) - ret
      ensures ret == NO_FREE_BLOCKS ==>
                totalFreeBlocks == 0 && firstFreeBlock == if old(totalFreeBlocks) == 0 then old(firstFreeBlock) else 0
      ensures ret < 0 && ret != NO_FREE_BLOCKS ==>
                firstFreeBlock == old(firstFreeBlock) && totalFreeBlocks == old(totalFreeBlocks)
      ensures old(lapse).Fine? ==>
                ret != KEY_EXIST && (lapse.TooDeep? <==> ret == ERR_REPARENT)
                && (ret == NO_FREE_BLOCKS <==> Blocks(old(Free())) == {})
      ensures old(lapse).Fine? && ret == NO_FREE_BLOCKS ==> lapse.Fine? && Blocks(Free()) == {}
      ensures old(lapse).Fine? && ret > 0 ==>
                && Range(first, first + ret) <= Blocks(old(Free()))
                && (lapse.Fine? <==> Blocks(Free()) == Blocks(old(Free())) - Range(first, first + ret))
                && (lapse.Fine? ==> totalFreeBlocks + ret == old(totalFreeBlocks))
                && Nearest(Blocks(old(Free())), old(firstFreeBlock), blkCnt, first)
      ensures old(lapse).Fine? && lapse.Slipped? ==>
                && lapse.blocks == old(obj.blocks) && Contents(lapse.at) == old(obj.List())
                && lapse.at.h + Depth(lapse.at.path) == old(Levels()) >= 3 && old(|Free()|) >= CROWD
      ensures history == old(history) + [old(obj.blocks)] && Kept(old(Now()), Now(), 1, 4)
      ensures old(lapse).Fine? && (Calm(old(SizeNow()), 1) || Low(old(SizeNow()))) ==> lapse.Fine?
    {
      hide Sound, Contents, Rank, Misplaces, Sorted, Slipping, CarvedOut, Blocks, Range, Serves, Carve, Total, Short,
        Searchable, Ordered, Exts, Keyed, Meets, EndOf, TakenFrom;
      history := history + [obj.blocks];
      if totalFreeBlocks == 0 {
        if lapse.Fine? {
          EmptyMeans();
        }
        return NO_FREE_BLOCKS, 0;
      }
      ghost var m, free, all, fine := obj.blocks, obj.free, obj.all, lapse.Fine?;
      if fine {
        EmptyMeans();
      }
      ghost var at, p;
      ret, first, at, p := AllocShort(blkCnt);
      if ret == NO_FREE_BLOCKS {
        firstFreeBlock, totalFreeBlocks := 0, 0;
      }
      if ret > 0 {
        firstFreeBlock := first + ret;
        if totalFreeBlocks >= ret {
          totalFreeBlocks := totalFreeBlocks - ret;
        }
      }
      if fine {
        if ret > 0 {
          ServedNearest(old(Free()), old(firstFreeBlock), blkCnt, first, ret);
        }
        if ret == ERR_REPARENT {
          lapse := TooDeep;
        } else if ret > 0 && Misplaces(at, p) {
          lapse := Slipped(m, free, all, obj.fold, at, p);
        }
      }
    }

    /** An allocation while all extents have less than 2^31 blocks: no assertion of the allocator fails then.
        The extent taken from is entry `p` of the block in focus of `at`. */
    method AllocShort(blkCnt: nat) returns (ret: int, first: nat, ghost at: Zip, ghost p: nat)
      requires Searchable() && Short(Free()) && 1 <= blkCnt < TWO_32 && firstFreeBlock <= BLOCK_LIMIT
      requires |obj.free| >= ALLOC_NEEDS
      modifies obj
      ensures obj.rule == Extent
      ensures ret == NO_FREE_BLOCKS || ret == KEY_EXIST || ret == ERR_REPARENT
              || (1 <= ret <= blkCnt && first + ret <= BLOCK_LIMIT)
      ensures Searchable() && Short(Free()) && |obj.free| + ALLOC_NEEDS >= old(|obj.free|)
      ensures Steady(old(SizeNow()), SizeNow(), 1, 4, ret == ERR_REPARENT)
      ensures ret == NO_FREE_BLOCKS <==> old(Free()) == []
      ensures ret == NO_FREE_BLOCKS ==> Free() == [] && (old(obj.Sorted()) ==> obj.Sorted())
      ensures ret > 0 ==>
                && Sound(old(obj.blocks), at, old(obj.free), old(obj.all)) && Contents(at) == old(obj.List())
                && at.focus.Node? && p < |at.focus.slots| && at.focus.slots[p].ent.Ent?
                && at.h + Depth(at.path) == old(Levels())
                && (Misplaces(at, p) ==> old(|Free()|) >= CROWD && old(Levels()) >= 3)
                && TakenFrom(old(Free()), Rank(at, p), firstFreeBlock, blkCnt, first, ret)
      ensures old(obj.Sorted()) ==> ret != KEY_EXIST
      ensures ret > 0 && old(obj.Sorted()) ==>
                && Range(first, first + ret) <= Blocks(old(Free()))
                && (!Misplaces(at, p) <==> Blocks(Free()) == Blocks(old(Free())) - Range(first, first + ret))
                && (!Misplaces(at, p) ==>
                      obj.Sorted() && Sorted(Free()) && Total(Free()) + ret == Total(old(Free())))
    {
      hide Sound, Contents, Rank, Misplaces, Sorted, Slipping, CarvedOut, Blocks, Range, Serves, Carve, Total, Short,
        Searchable, Ordered, Exts, Keyed;
      ghost var l := Free();
      NoneEmpty();
      if obj.Sorted() {
        ListSorted();
      }
      var sane;
      ghost var err, i, j;
      ret, first, sane, err, at, p, i, j := AllocSpace(firstFreeBlock, blkCnt);
      if l != [] {
        Within(l, i, firstFreeBlock, blkCnt);
        if ret > 0 && old(obj.Sorted()) {
          Taken(l, i, j, Misplaces(at, p), first, first + ret, Free());
        }
      }
    }

    lemma NoneEmpty()
      requires Searchable()
      ensures obj.rule == Extent && forall i :: 0 <= i < |Free()| ==>
                Free()[i].len >= 1 && EndOf(Free()[i]) <= BLOCK_LIMIT
    {
      forall i | 0 <= i < |Free()| ensures Free()[i].len >= 1 && EndOf(Free()[i]) <= BLOCK_LIMIT {
        assert KeyOk(Extent, obj.List()[i]);
      }
    }

    lemma EmptyMeans()
      requires Searchable() && Sorted(Free()) && totalFreeBlocks == Total(Free())
      ensures totalFreeBlocks == 0 <==> Free() == []
      ensures Blocks(Free()) == {} <==> Free() == []
    {
      TotalIsSize(Free());
      if Free() != [] {
        InBlocks(Free(), Free()[0].addr);
      }
    }

    /** Below 2^31 no assertion of the allocator fails, and the run lies in the extent. */
    lemma Within(l: seq<Ext>, i: nat, start: nat, cnt: nat)
      requires Short(l) && i < |l| && l[i].len >= 1
      ensures Narrow(l[i].len) == l[i].len && l[i].addr + Narrow(l[i].len) == EndOf(l[i])
      ensures Meets(l[i], start, start + cnt) ==> start < EndOf(l[i])
      ensures forall n: nat :: n <= l[i].len ==> Int32(n) == n
    {
    }

    /** What an allocation takes and what it leaves. */
    lemma Taken(l: seq<Ext>, i: nat, j: nat, slip: bool, a: nat, b: nat, f: seq<Ext>)
      requires Sorted(l) && Short(l) && Slipping(l, i, j, slip) && l[i].addr <= a < b <= EndOf(l[i])
      requires CarvedOut(l, i, j, slip, a, b, EndOf(l[i]), f)
      ensures Range(a, b) <= Blocks(l)
      ensures !slip <==> Blocks(f) == Blocks(l) - Range(a, b)
      ensures !slip ==> Sorted(f) && Total(f) + (b - a) == Total(l)
    {
      hide Blocks, Range, Sorted, Total, Carve, Slip;
      CarveSmall(l, i, a, b);
      if slip {
        SlipBlocks(l, i, j);
        CarveParts(l, i, a, b, EndOf(l[i]));
      }
    }

    /** Gives blocks back.  A range that overlaps free blocks is refused. */
    method SmFreeSpace(startBlk: nat, blkCnt: nat) returns (ret: int)
      requires Valid() && 1 <= blkCnt < TWO_31 && startBlk + blkCnt <= BLOCK_LIMIT && |obj.free| >= INSERT_NEEDS
      modifies this, obj
      ensures Valid() && |obj.free| + INSERT_NEEDS >= old(|obj.free|) && history == old(history)
      ensures lapse == if old(lapse).Fine? && ret == ERR_REPARENT then TooDeep else old(lapse)
      ensures ret == 0 || ret == KEY_EXIST || ret == ERR_REPARENT
      ensures ret != ERR_REPARENT ==>
                (ret == KEY_EXIST <==> Blocks(old(Free())) * Range(startBlk, startBlk + blkCnt) != {})
      ensures ret == KEY_EXIST ==> Free() == old(Free())
      ensures firstFreeBlock == old(firstFreeBlock) && (ret != 0 ==> totalFreeBlocks == old(totalFreeBlocks))
      ensures ret == 0 ==>
                && Blocks(Free()) == Blocks(old(Free())) + Range(startBlk, startBlk + blkCnt)
                && totalFreeBlocks == old(totalFreeBlocks) + blkCnt
      ensures Kept(old(Now()), Now(), 1, 1)
    {
      hide Sound, Contents, Blocks, Range, Sorted, Total, Short, Searchable, Insert, Slippery, Ordered, FitsAt, Exts;
      ghost var l, at := Free(), 0;
      ret, at := FreeSpace(startBlk, blkCnt);
      if lapse.Fine? {
        ListSorted();
        if ret == ERR_REPARENT {
          lapse := TooDeep;
        }
      }
      if ret >= 0 {
        InsertBlocks(l, at, Ext(startBlk, blkCnt));
        totalFreeBlocks := totalFreeBlocks + blkCnt;
      }
    }

    // ----- making a manager -----

    constructor Empty(fold: Fold, rootVbn: Vbn, supply: set<Vbn>)
      requires rootVbn != 0 && 0 !in supply && rootVbn !in supply
      ensures Valid() && lapse == Fine && Free() == [] && fresh(obj) && obj.free == supply
    {
      hide Sound, Contents;
      obj := new Table(Extent, fold, rootVbn, supply);
      firstFreeBlock, totalFreeBlocks, lapse, history := 0, 0, Fine, [];
    }

    /** A new manager has all of its blocks in one extent. */
    constructor (fold: Fold, rootVbn: Vbn, supply: set<Vbn>, start: nat, cnt: nat)
      requires rootVbn != 0 && 0 !in supply && rootVbn !in supply && |supply| >= INSERT_NEEDS
      requires 1 <= cnt < TWO_31 && start + cnt <= BLOCK_LIMIT
      ensures Valid() && lapse == Fine && Blocks(Free()) == Range(start, start + cnt) && fresh(obj)
      ensures firstFreeBlock == start && totalFreeBlocks == cnt && history == []
      ensures |obj.free| + INSERT_NEEDS >= |supply|
    {
      hide Sound, Contents, Range, Exts, Slippery, Table.Valid;
      obj := new Table(Extent, fold, rootVbn, supply);
      firstFreeBlock, totalFreeBlocks, lapse, history := 0, 0, Fine, [];
      new;
      var ret := SmFreeSpace(start, cnt);
      firstFreeBlock := start;
    }
  }

  /** The two tiers of free space and the spare block at one moment. */
  datatype Tiers = Tiers(sm: Past, bsm: Past, s: seq<Ext>, b: seq<Ext>, spare: nat, from: nat, total: nat)

  /** What filling the reserve has done with `n` allocations, `m` of them for the space tree. */
  ghost predicate Filling(a: Tiers, z: Tiers, n: nat, m: nat) {
    && Kept(a.sm, z.sm, n, 4 * n) && Kept(a.bsm, z.bsm, m, m)
    && (z.sm.lapse.Fine? && z.bsm.lapse.Fine? ==>
          Reserved(Blocks(a.s), Blocks(a.b), a.spare, Blocks(z.s), Blocks(z.b), z.spare))
    && (z.total <= MAX_BLK_NUM || z.total == a.total)
    && (n == 0 ==> z == a) && (m == 0 ==> z.bsm == a.bsm && z.b == a.b && z.total == a.total)
  }

  lemma FillingStart(a: Tiers)
    ensures Filling(a, a, 0, 0)
  {
    ReservedNone(Blocks(a.s), Blocks(a.b), a.spare);
  }

  lemma FillingSpare(a: Tiers, z: Tiers)
    requires a.spare == 0 && Kept(a.sm, z.sm, 1, 4) && z.bsm == a.bsm && z.b == a.b && z.total == a.total
    requires z.sm.lapse.Fine? && z.bsm.lapse.Fine? ==>
               if z.spare == 0 then Blocks(z.s) == Blocks(a.s)
               else z.spare in Blocks(a.s) && Blocks(z.s) == Blocks(a.s) - {z.spare}
    ensures Filling(a, z, 1, 0)
  {
    hide Blocks, Kept;
    KeptSame(a.bsm, 0, 0);
    if z.spare == 0 {
      ReservedNone(Blocks(a.s), Blocks(a.b), 0);
    } else if z.sm.lapse.Fine? && z.bsm.lapse.Fine? {
      ReservedSpare(Blocks(a.s), Blocks(a.b), z.spare);
    }
  }

  lemma FillingRound(a: Tiers, z: Tiers, z': Tiers, n: nat, m: nat, start: nat, cnt: nat, failed: bool)
    requires Filling(a, z, n, m) && Kept(z.sm, z'.sm, 1, 4) && Kept(z.bsm, z'.bsm, 1, 1) && z'.spare == z.spare
    requires if failed then z'.total == z.total else z'.total <= MAX_BLK_NUM
    requires z'.sm.lapse.Fine? && z'.bsm.lapse.Fine? ==>
               && z.sm.lapse.Fine? && z.bsm.lapse.Fine?
               && if failed then Blocks(z'.s) == Blocks(z.s) && Blocks(z'.b) == Blocks(z.b)
                  else Range(start, start + cnt) <= Blocks(z.s)
                       && Blocks(z'.s) == Blocks(z.s) - Range(start, start + cnt)
                       && Blocks(z'.b) == Blocks(z.b) + Range(start, start + cnt)
    ensures Filling(a, z', n + 1, m + 1)
  {
    hide Blocks, Kept, Reserved, Range;
    KeptOn(a.sm, z.sm, z'.sm, n, 4 * n, 1, 4);
    KeptOn(a.bsm, z.bsm, z'.bsm, m, m, 1, 1);
    if z'.sm.lapse.Fine? && z'.bsm.lapse.Fine? && !failed {
      ReservedMore(Blocks(a.s), Blocks(a.b), a.spare, Blocks(z.s), Blocks(z.b), z.spare, Range(start, start + cnt));
    }
  }

  lemma FillingEnds(a: Tiers, z: Tiers, n: nat, m: nat)
    requires Filling(a, z, n, m) && n <= 5 && m <= 4
    ensures Kept(a.sm, z.sm, 5, 20) && Kept(a.bsm, z.bsm, 4, 4)
    ensures z.sm.lapse.Fine? && z.bsm.lapse.Fine? ==>
              Reserved(Blocks(a.s), Blocks(a.b), a.spare, Blocks(z.s), Blocks(z.b), z.spare)
    ensures z.total <= MAX_BLK_NUM || z.total == a.total
    ensures (n == 0 ==> z == a) && (m == 0 ==> z.bsm == a.bsm && z.b == a.b && z.total == a.total)
  {
    hide Blocks, Kept, Reserved;
    KeptMore(a.sm, z.sm, n, 4 * n, 5, 20);
    KeptMore(a.bsm, z.bsm, m, m, 4, 4);
  }

  /** Who asks for space: the base tree behind `bsm`, the space tree behind `sm`, or any other object. */
  datatype Owner = BaseTree | SpaceTree | Other

  class Container {
    const sm: SpaceManager
    const bsm: SpaceManager
    var baseBlk: nat                    // 0: none

    /** The blocks each owner holds, and all blocks there are. */
    ghost var held: map<Owner, set<nat>>
    ghost const all: set<nat>

    /** Nothing has gone wrong with either table so far. */
    ghost predicate Exact()
      reads sm, bsm
    {
      sm.lapse.Fine? && bsm.lapse.Fine?
    }

    /** As long as nothing has gone wrong every block is in exactly one place. */
    ghost predicate Valid()
      reads this, sm, bsm, sm.obj, bsm.obj
    {
      && sm != bsm && sm.obj != bsm.obj && sm.Valid() && bsm.Valid()
      && BaseTree in held && SpaceTree in held && Other in held
      && (Exact() ==>
            Parted(Blocks(sm.Free()), Blocks(bsm.Free()), baseBlk, held[BaseTree], held[SpaceTree], held[Other], all))
    }

    /** A fresh container: all of its blocks are free in `sm`. */
    constructor (fold: Fold, smRoot: Vbn, smSupply: set<Vbn>, bsmRoot: Vbn, bsmSupply: set<Vbn>, start: nat, cnt: nat)
      requires smRoot != 0 && 0 !in smSupply && smRoot !in smSupply && |smSupply| >= INSERT_NEEDS
      requires bsmRoot != 0 && 0 !in bsmSupply && bsmRoot !in bsmSupply
      requires 1 <= start && 1 <= cnt < TWO_31 && start + cnt <= BLOCK_LIMIT
      ensures Valid() && Exact() && all == Range(start, start + cnt) && fresh(sm) && fresh(bsm)
      ensures baseBlk == 0 && held[BaseTree] == held[SpaceTree] == held[Other] == {}
      ensures Blocks(sm.Free()) == all && bsm.Free() == [] && sm.firstFreeBlock == start
    {
      hide SpaceManager.Searchable, Short, Genuine, Sound, Contents, Exts, Ordered, Total, Sorted;
      var s := new SpaceManager(fold, smRoot, smSupply, start, cnt);
      var b := new SpaceManager.Empty(fold, bsmRoot, bsmSupply);
      sm, bsm, baseBlk := s, b, 0;
      held := map[BaseTree := {}, SpaceTree := {}, Other := {}];
      all := Range(start, start + cnt);
    }

    /** Makes sure that there is a spare block for the base tree, and free blocks for the space tree.  If
        it fails nothing is left in `sm`. */
    method ReserveBaseSpace() returns (ret: int)
      requires Valid() && |sm.obj.free| >= RESERVE_NEEDS && |bsm.obj.free| >= RESERVE_NEEDS
      modifies this, sm, bsm, sm.obj, bsm.obj
      ensures Valid() && held == old(held) && ret <= 0 && (ret == 0 ==> |sm.obj.free| >= ALLOC_NEEDS)
      ensures ret == 0 ==> bsm.totalFreeBlocks > MIN_BLK_NUM
      ensures Exact() ==>
                && (ret == 0 || ret == NO_FREE_BLOCKS) && (ret == 0 ==> baseBlk != 0)
                && (ret != 0 ==> Blocks(sm.Free()) == {})
                && Reserved(old(Blocks(sm.Free())), old(Blocks(bsm.Free())), old(baseBlk),
                            Blocks(sm.Free()), Blocks(bsm.Free()), baseBlk)
      ensures bsm.totalFreeBlocks <= MAX_BLK_NUM || bsm.totalFreeBlocks == old(bsm.totalFreeBlocks)
      ensures Kept(old(sm.Now()), sm.Now(), 5, 20) && Kept(old(bsm.Now()), bsm.Now(), 4, 4)
      ensures old(bsm.totalFreeBlocks) > MIN_BLK_NUM ==>
                bsm.Now() == old(bsm.Now()) && bsm.Free() == old(bsm.Free())
      ensures old(baseBlk != 0 && bsm.totalFreeBlocks > MIN_BLK_NUM) ==>
                && ret == 0 && sm.Now() == old(sm.Now())
                && sm.Free() == old(sm.Free()) && sm.firstFreeBlock == old(sm.firstFreeBlock)
    {
      hide Blocks, Range, Sorted, Total, Parted, SpaceManager.Searchable, Short, Genuine, Sound, Contents, Exts,
        Ordered, Kept, Steady, Calm, Low, SpaceManager.SizeNow, SpaceManager.Free, Table.List, Table.Sorted, Reserved,
        Filling;
      ghost var a, n, m := Standing(), 0, 0;
      FillingStart(a);
      if baseBlk == 0 {
        ret := ReserveBlock();
        FillingSpare(a, Standing());
        n := 1;
        if ret < 0 {
          FillingEnds(a, Standing(), n, m);
          return;
        }
      }
      ret, n, m := FillBase(a, n);
      FillingEnds(a, Standing(), n, m);
    }

    /** Moves blocks from `sm` to `bsm` until there are enough. */
    method FillBase(ghost a: Tiers, ghost n0: nat) returns (ret: int, ghost n: nat, ghost m: nat)
      requires Valid() && Filling(a, Standing(), n0, 0) && n0 <= 1 && (Exact() ==> baseBlk != 0)
      requires |sm.obj.free| >= (MIN_BLK_NUM + 2) * ALLOC_NEEDS && |bsm.obj.free| >= RESERVE_NEEDS
      modifies this, sm, bsm, sm.obj, bsm.obj
      ensures Valid() && held == old(held) && baseBlk == old(baseBlk) && ret <= 0
      ensures ret == 0 ==> |sm.obj.free| >= ALLOC_NEEDS && bsm.totalFreeBlocks > MIN_BLK_NUM
      ensures Exact() ==> baseBlk != 0 && (ret == 0 || (ret == NO_FREE_BLOCKS && Blocks(sm.Free()) == {}))
      ensures Filling(a, Standing(), n, m) && n == n0 + m && m <= 4
      ensures old(bsm.totalFreeBlocks) > MIN_BLK_NUM ==> ret == 0 && m == 0
    {
      hide Blocks, Range, Sorted, Total, Parted, SpaceManager.Searchable, Short, Genuine, Sound, Contents, Exts,
        Ordered, Kept, Steady, Calm, Low, SpaceManager.SizeNow, SpaceManager.Free, Table.List, Table.Sorted, Reserved,
        Filling;
      n, m := n0, 0;
      while bsm.totalFreeBlocks <= MIN_BLK_NUM
        invariant Valid() && held == old(held) && baseBlk == old(baseBlk) && Filling(a, Standing(), n, m)
        invariant |sm.obj.free| >= ALLOC_NEEDS && |sm.obj.free| >= (MIN_BLK_NUM + 2 - bsm.totalFreeBlocks) * ALLOC_NEEDS
        invariant |bsm.obj.free| >= (MIN_BLK_NUM + 2 - bsm.totalFreeBlocks) * INSERT_NEEDS
        invariant n == n0 + m && m <= 4 && m <= bsm.totalFreeBlocks && (Exact() ==> baseBlk != 0)
        invariant old(bsm.totalFreeBlocks) > MIN_BLK_NUM ==> m == 0 && bsm.totalFreeBlocks == old(bsm.totalFreeBlocks)
        decreases MAX_BLK_NUM - bsm.totalFreeBlocks
      {
        ghost var z := Standing();
        ghost var start, cnt;
        ret, start, cnt := MoveBlocks();
        FillingRound(a, z, Standing(), n, m, start, cnt, ret < 0);
        n, m := n + 1, m + 1;
        if ret < 0 {
          return;
        }
      }
      ret := 0;
    }

    ghost function Standing(): Tiers
      reads this, sm, bsm, sm.obj, bsm.obj
    {
      Tiers(sm.Now(), bsm.Now(), sm.Free(), bsm.Free(), baseBlk, sm.firstFreeBlock, bsm.totalFreeBlocks)
    }

    /** Takes a spare block from `sm`. */
    method ReserveBlock() returns (ret: int)
      requires Valid() && baseBlk == 0 && |sm.obj.free| >= ALLOC_NEEDS
      modifies this, sm, sm.obj
      ensures Valid() && held == old(held) && |sm.obj.free| + ALLOC_NEEDS >= old(|sm.obj.free|)
      ensures Kept(old(sm.Now()), sm.Now(), 1, 4)
      ensures Exact() ==> if ret < 0 then ret == NO_FREE_BLOCKS && Blocks(sm.Free()) == {} else baseBlk != 0
      ensures ret < 0 ==> baseBlk == 0 && (Exact() ==> Blocks(sm.Free()) == old(Blocks(sm.Free())))
      ensures ret >= 0 ==> Served(old(sm.Free()), old(sm.firstFreeBlock), 1, baseBlk, 1)
      ensures Exact() && ret >= 0 ==>
                baseBlk in old(Blocks(sm.Free())) && Blocks(sm.Free()) == old(Blocks(sm.Free())) - {baseBlk}
    {
      hide Blocks, Range, Sorted, Total, Parted, SpaceManager.Searchable, Short, Genuine, Sound, Contents, Exts,
        Ordered, Kept, Steady, Calm, Low, SpaceManager.SizeNow;
      var first;
      ghost var s := Blocks(sm.Free());
      ret, first := sm.SmAllocSpace(1);
      if ret < 0 {
        return;
      }
      if Exact() {
        RangeOne(first);
        SpaceToSpare(s, Blocks(bsm.Free()), held[BaseTree], held[SpaceTree], held[Other], first, all);
      }
      baseBlk := first;
    }

    /** Moves some blocks from `sm` to `bsm`. */
    method MoveBlocks() returns (ret: int, ghost start: nat, ghost n: nat)
      requires Valid() && bsm.totalFreeBlocks <= MIN_BLK_NUM
      requires |sm.obj.free| >= ALLOC_NEEDS && |bsm.obj.free| >= INSERT_NEEDS
      modifies this, sm, bsm, sm.obj, bsm.obj
      ensures Valid() && held == old(held) && baseBlk == old(baseBlk)
      ensures |sm.obj.free| + ALLOC_NEEDS >= old(|sm.obj.free|) && |bsm.obj.free| + INSERT_NEEDS >= old(|bsm.obj.free|)
      ensures if ret >= 0 then bsm.totalFreeBlocks > old(bsm.totalFreeBlocks)
              else bsm.totalFreeBlocks == old(bsm.totalFreeBlocks)
      ensures Exact() ==> old(Exact()) && (ret < 0 ==> ret == NO_FREE_BLOCKS && Blocks(sm.Free()) == {})
      ensures Exact() && ret < 0 ==>
                Blocks(sm.Free()) == old(Blocks(sm.Free())) && Blocks(bsm.Free()) == old(Blocks(bsm.Free()))
      ensures ret >= 0 ==>
                && Served(old(sm.Free()), old(sm.firstFreeBlock), MAX_BLK_NUM - old(bsm.totalFreeBlocks), start, n)
                && bsm.totalFreeBlocks == old(bsm.totalFreeBlocks) + n
                && Blocks(bsm.Free()) == old(Blocks(bsm.Free())) + Range(start, start + n)
      ensures Exact() && ret >= 0 ==>
                && Range(start, start + n) <= old(Blocks(sm.Free()))
                && Blocks(sm.Free()) == old(Blocks(sm.Free())) - Range(start, start + n)
      ensures Kept(old(sm.Now()), sm.Now(), 1, 4) && Kept(old(bsm.Now()), bsm.Now(), 1, 1)
    {
      hide Blocks, Range, Sorted, Total, Parted, SpaceManager.Searchable, Short, Genuine, Sound, Contents, Exts,
        Ordered, Kept, Steady, Calm, Low, SpaceManager.SizeNow;
      KeptSame(bsm.Now(), 1, 1);
      start, n := 0, 0;
      var blkCnt, first := MAX_BLK_NUM - bsm.totalFreeBlocks, 0;
      ghost var s, b := Blocks(sm.Free()), Blocks(bsm.Free());
      ret, first := sm.SmAllocSpace(blkCnt);
      if ret < 0 {
        return;
      }
      blkCnt := ret;
      start, n := first, blkCnt;
      ghost var r := Range(first, first + blkCnt);
      if Exact() {
        PartsApart(s, b, baseBlk, held[BaseTree], held[SpaceTree], held[Other], all);
      }
      ret := bsm.SmFreeSpace(first, blkCnt);
      if Exact() {
        SpaceToBase(s, b, baseBlk, held[BaseTree], held[SpaceTree], held[Other], r, all);
      }
    }

    /** Gives `owner` up to `blkCnt` blocks. */
    method OfsAllocSpace(owner: Owner, blkCnt: nat) returns (ret: int, first: nat, ghost mid: seq<Ext>, ghost from: nat)
      requires Valid() && 1 <= blkCnt < TWO_32 && (owner == BaseTree ==> baseBlk != 0 && blkCnt == 1)
      requires |sm.obj.free| >= RESERVE_NEEDS && |bsm.obj.free| >= RESERVE_NEEDS
      modifies this, sm, bsm, sm.obj, bsm.obj
      ensures Valid() && Kept(old(sm.Now()), sm.Now(), 6, 24) && Kept(old(bsm.Now()), bsm.Now(), 4, 4)
      ensures Exact() ==> ret == NO_FREE_BLOCKS || 1 <= ret <= blkCnt
      ensures held == if ret > 0 then old(held)[owner := old(held)[owner] + Range(first, first + ret)] else old(held)
      ensures Exact() && ret == NO_FREE_BLOCKS ==> Blocks(if owner == SpaceTree then bsm.Free() else sm.Free()) == {}
      ensures owner == SpaceTree ==> mid == old(bsm.Free()) && from == old(bsm.firstFreeBlock)
      ensures owner == Other && old(baseBlk != 0 && bsm.totalFreeBlocks > MIN_BLK_NUM) ==>
                mid == old(sm.Free()) && from == old(sm.firstFreeBlock)
      ensures owner == Other && old(bsm.totalFreeBlocks) > MIN_BLK_NUM ==> bsm.Free() == old(bsm.Free())
      ensures owner == Other && Exact() ==>
                Reserved(old(Blocks(sm.Free())), old(Blocks(bsm.Free())), old(baseBlk),
                         Blocks(mid), Blocks(bsm.Free()), baseBlk)
      ensures ret > 0 && owner != BaseTree ==> Served(mid, from, blkCnt, first, ret)
      ensures Exact() && ret > 0 && owner != BaseTree ==>
                && Range(first, first + ret) <= Blocks(mid)
                && Blocks(if owner == SpaceTree then bsm.Free() else sm.Free())
                    == Blocks(mid) - Range(first, first + ret)
      ensures Exact() && ret != NO_FREE_BLOCKS && owner == Other ==> baseBlk != 0 && bsm.totalFreeBlocks > MIN_BLK_NUM
      ensures owner == BaseTree ==>
                && ret == 1 && first == old(baseBlk) && baseBlk == 0
                && sm.Free() == old(sm.Free()) && bsm.Free() == old(bsm.Free())
                && sm.Now() == old(sm.Now()) && bsm.Now() == old(bsm.Now())
                && held == old(held)[BaseTree := old(held)[BaseTree] + Range(first, first + 1)]
                && sm.obj.free == old(sm.obj.free) && bsm.obj.free == old(bsm.obj.free)
      ensures owner == SpaceTree ==>
                baseBlk == old(baseBlk) && sm.Free() == old(sm.Free()) && sm.Now() == old(sm.Now())
      ensures old(Exact()) && Calm(old(sm.SizeNow()), 6) && Calm(old(bsm.SizeNow()), 4) ==>
                Exact() && Calm(sm.SizeNow(), 0) && Calm(bsm.SizeNow(), 0)
      ensures old(bsm.SizeNow().levels == 1 && bsm.SizeNow().extents + 4 < LEAF_CROWD) ==>
                bsm.obj.all == bsm.obj.free + {bsm.obj.rootVbn}
      ensures old(Exact()) && owner == SpaceTree && (Calm(old(bsm.SizeNow()), 1) || Low(old(bsm.SizeNow()))) ==> Exact()
      ensures owner == Other && old(Exact()) && old(baseBlk != 0 && bsm.totalFreeBlocks > MIN_BLK_NUM) ==>
                (Calm(old(sm.SizeNow()), 1) || Low(old(sm.SizeNow())) ==> Exact())
    {
      hide Blocks, Range, Sorted, Total, Parted, SpaceManager.Searchable, Short, Genuine, Sound, Contents, Exts,
        Ordered, Kept, Steady, Calm, Low, SpaceManager.SizeNow, Ends, Keyed, SpaceManager.Free, Table.Sorted,
        Table.Valid;
      ghost var x, y, z, s0, b0 := held[BaseTree], held[SpaceTree], held[Other], sm.Now(), bsm.Now();
      KeptSame(s0, 6, 24);
      KeptSame(b0, 4, 4);
      mid, from := bsm.Free(), bsm.firstFreeBlock;
      if owner == BaseTree {
        first := baseBlk;
        RangeOne(first);
        if Exact() {
          SpareToBaseTree(Blocks(sm.Free()), Blocks(bsm.Free()), baseBlk, x, y, z, 0, all);
        }
        baseBlk := 0;
        held := held[BaseTree := x + {first}];
        StaysCalm(s0, b0);
        return blkCnt, first, mid, from;
      }
      if owner == SpaceTree {
        ghost var b := Blocks(bsm.Free());
        ret, first := bsm.SmAllocSpace(blkCnt);
        KeptMore(b0, bsm.Now(), 1, 4, 4, 4);
        if ret > 0 {
          if Exact() {
            BaseToSpaceTree(Blocks(sm.Free()), b, baseBlk, x, y, z, Range(first, first + ret), all);
          }
          held := held[SpaceTree := y + Range(first, first + ret)];
        }
        StaysCalm(s0, b0);
        return;
      }
      ret, first, mid, from := AllocOther(blkCnt);
      StaysCalm(s0, b0);
    }

    /** Gives a user object up to `blkCnt` blocks, once there are enough for the space tree. */
    method AllocOther(blkCnt: nat) returns (ret: int, first: nat, ghost mid: seq<Ext>, ghost from: nat)
      requires Valid() && 1 <= blkCnt < TWO_32
      requires |sm.obj.free| >= RESERVE_NEEDS && |bsm.obj.free| >= RESERVE_NEEDS
      modifies this, sm, bsm, sm.obj, bsm.obj
      ensures Valid() && Kept(old(sm.Now()), sm.Now(), 6, 24) && Kept(old(bsm.Now()), bsm.Now(), 4, 4)
      ensures Exact() ==> ret == NO_FREE_BLOCKS || 1 <= ret <= blkCnt
      ensures held == if ret > 0 then old(held)[Other := old(held)[Other] + Range(first, first + ret)] else old(held)
      ensures Exact() && ret == NO_FREE_BLOCKS ==> Blocks(sm.Free()) == {}
      ensures Exact() && ret != NO_FREE_BLOCKS ==> baseBlk != 0 && bsm.totalFreeBlocks > MIN_BLK_NUM
      ensures old(baseBlk != 0 && bsm.totalFreeBlocks > MIN_BLK_NUM) ==>
                mid == old(sm.Free()) && from == old(sm.firstFreeBlock)
      ensures old(bsm.totalFreeBlocks) > MIN_BLK_NUM ==> bsm.Free() == old(bsm.Free())
      ensures Exact() ==>
                Reserved(old(Blocks(sm.Free())), old(Blocks(bsm.Free())), old(baseBlk),
                         Blocks(mid), Blocks(bsm.Free()), baseBlk)
      ensures ret > 0 ==> Served(mid, from, blkCnt, first, ret)
      ensures Exact() && ret > 0 ==>
                Range(first, first + ret) <= Blocks(mid) && Blocks(sm.Free()) == Blocks(mid) - Range(first, first + ret)
      ensures old(Exact()) && old(baseBlk != 0 && bsm.totalFreeBlocks > MIN_BLK_NUM) ==>
                (Calm(old(sm.SizeNow()), 1) || Low(old(sm.SizeNow())) ==> Exact())
    {
      hide Blocks, Range, Sorted, Total, Parted, SpaceManager.Searchable, Short, Genuine, Sound, Contents, Exts,
        Ordered, Kept, Steady, Calm, Low, SpaceManager.SizeNow;
      ghost var s0 := sm.Now();
      ret := ReserveBaseSpace();
      ghost var s1 := sm.Now();
      KeptMore(s0, s1, 5, 20, 6, 24);
      first, mid, from := 0, sm.Free(), sm.firstFreeBlock;
      if ret < 0 {
        return;
      }
      ghost var s := Blocks(sm.Free());
      ret, first := sm.SmAllocSpace(blkCnt);
      KeptOn(s0, s1, sm.Now(), 5, 20, 1, 4);
      if ret > 0 {
        if Exact() {
          SpaceToOther(s, Blocks(bsm.Free()), baseBlk, held[BaseTree], held[SpaceTree], held[Other],
              Range(first, first + ret), all);
        }
        held := held[Other := held[Other] + Range(first, first + ret)];
      }
    }

    /** Room enough before means that nothing has gone wrong after, and a base table with few extents is still
        one block. */
    lemma StaysCalm(s0: Past, b0: Past)
      requires bsm.Searchable() && Kept(s0, sm.Now(), 6, 24) && Kept(b0, bsm.Now(), 4, 4)
      ensures s0.lapse.Fine? && b0.lapse.Fine? && Calm(s0.size, 6) && Calm(b0.size, 4) ==>
                Exact() && Calm(sm.SizeNow(), 0) && Calm(bsm.SizeNow(), 0)
      ensures Exact() ==> s0.lapse.Fine? && b0.lapse.Fine?
      ensures b0.size.levels == 1 && b0.size.extents + 4 < LEAF_CROWD ==>
                bsm.obj.all == bsm.obj.free + {bsm.obj.rootVbn}
    {
      hide Steady, Calm, SpaceManager.SizeNow;
      StaysOne(b0);
      if s0.lapse.Fine? && b0.lapse.Fine? && Calm(s0.size, 6) && Calm(b0.size, 4) {
        KeptCalm(s0, sm.Now(), 6, 24, 0);
        KeptCalm(b0, bsm.Now(), 4, 4, 0);
      }
    }

    lemma StaysOne(b0: Past)
      requires bsm.Searchable() && Kept(b0, bsm.Now(), 4, 4)
      ensures b0.size.levels == 1 && b0.size.extents + 4 < LEAF_CROWD ==>
                bsm.obj.all == bsm.obj.free + {bsm.obj.rootVbn}
    {
      hide SpaceManager.Searchable, Exts, Contents;
      if b0.size.levels == 1 && b0.size.extents + 4 < LEAF_CROWD {
        bsm.OneBlock();
      }
    }

    /** Takes blocks back that `owner` holds.  As long as nothing has gone wrong this is never refused. */
    method OfsFreeSpace(owner: Owner, startBlk: nat, blkCnt: nat) returns (ret: int)
      requires Valid() && 1 <= blkCnt < TWO_31 && startBlk + blkCnt <= BLOCK_LIMIT
      requires Range(startBlk, startBlk + blkCnt) <= held[owner] && (owner == BaseTree ==> baseBlk == 0 && blkCnt == 1)
      requires |sm.obj.free| >= INSERT_NEEDS && |bsm.obj.free| >= INSERT_NEEDS
      modifies this, sm, bsm, sm.obj, bsm.obj
      ensures Valid() && Kept(old(sm.Now()), sm.Now(), 1, 1) && Kept(old(bsm.Now()), bsm.Now(), 1, 1)
      ensures Exact() ==> ret == 0 && old(Exact())
      ensures held == if ret == 0 then old(held)[owner := old(held)[owner] - Range(startBlk, startBlk + blkCnt)]
                      else old(held)
      ensures owner == BaseTree ==>
                && ret == 0 && baseBlk == startBlk && sm.Free() == old(sm.Free()) && bsm.Free() == old(bsm.Free())
                && sm.Now() == old(sm.Now()) && bsm.Now() == old(bsm.Now())
      ensures owner == SpaceTree ==>
                && baseBlk == old(baseBlk) && sm.Free() == old(sm.Free()) && sm.Now() == old(sm.Now())
                && (ret == 0 ==>
                      Blocks(bsm.Free()) == old(Blocks(bsm.Free())) + Range(startBlk, startBlk + blkCnt))
      ensures owner == Other ==>
                && baseBlk == old(baseBlk) && bsm.Free() == old(bsm.Free()) && bsm.Now() == old(bsm.Now())
                && (ret == 0 ==> Blocks(sm.Free()) == old(Blocks(sm.Free())) + Range(startBlk, startBlk + blkCnt))
      ensures old(Exact()) && Calm(old(sm.SizeNow()), 1) && Calm(old(bsm.SizeNow()), 1) ==>
                Exact() && Calm(sm.SizeNow(), 0) && Calm(bsm.SizeNow(), 0)
      ensures old(Exact()) && old(sm.SizeNow()).reach < TREE_MAX_DEPTH && old(bsm.SizeNow()).reach < TREE_MAX_DEPTH ==>
                Exact()
    {
      hide Blocks, Range, Sorted, Total, Parted, SpaceManager.Searchable, Short, Genuine, Sound, Contents, Exts,
        Ordered, Kept, Steady, Calm, Low, SpaceManager.SizeNow;
      ghost var s, b, x, y, z := Blocks(sm.Free()), Blocks(bsm.Free()), held[BaseTree], held[SpaceTree], held[Other];
      ghost var r, s0, b0 := Range(startBlk, startBlk + blkCnt), sm.Now(), bsm.Now();
      KeptSame(s0, 1, 1);
      KeptSame(b0, 1, 1);
      if Exact() {
        PartsApart(s, b, baseBlk, x, y, z, all);
      }
      match owner {
        case BaseTree =>
          RangeOne(startBlk);
          if Exact() {
            SpareToBaseTree(s, b, 0, x, y, z, startBlk, all);
          }
          baseBlk := startBlk;
          held := held[BaseTree := x - r];
          ret := 0;
        case SpaceTree =>
          ret := bsm.SmFreeSpace(startBlk, blkCnt);
          if ret == 0 {
            if Exact() {
              BaseToSpaceTree(s, b, baseBlk, x, y, z, r, all);
            }
            held := held[SpaceTree := y - r];
          }
        case Other =>
          ret := sm.SmFreeSpace(startBlk, blkCnt);
          if ret == 0 {
            if Exact() {
              SpaceToOther(s, b, baseBlk, x, y, z, r, all);
            }
            held := held[Other := z - r];
          }
      }
      FreeCalm(s0, sm.Now());
      FreeCalm(b0, bsm.Now());
    }

    lemma FreeCalm(s: Past, s': Past)
      requires Kept(s, s', 1, 1)
      ensures s.lapse.Fine? && Calm(s.size, 1) ==> s'.lapse.Fine? && Calm(s'.size, 0)
      ensures s.lapse.Fine? && s.size.reach < TREE_MAX_DEPTH ==> !s'.lapse.TooDeep?
      ensures s'.lapse.Fine? ==> s.lapse.Fine?
    {
    }

    /** Copying the single block of a base tree before a change: the spare block becomes its root, and
        the old root the spare block. */
    method MoveBaseRoot(root: nat) returns (vbn: nat)
      requires Valid() && baseBlk != 0 && held[BaseTree] == {root} && root < BLOCK_LIMIT
      requires |sm.obj.free| >= RESERVE_NEEDS && |bsm.obj.free| >= RESERVE_NEEDS
      modifies this, sm, bsm, sm.obj, bsm.obj
      ensures Valid() && vbn == old(baseBlk) && baseBlk == root
      ensures Exact() ==> held == old(held)[BaseTree := {vbn}]
      ensures sm.Free() == old(sm.Free()) && bsm.Free() == old(bsm.Free())
      ensures sm.Now() == old(sm.Now()) && bsm.Now() == old(bsm.Now())
    {
      hide Blocks, Range, Sorted, Total, Parted, SpaceManager.Searchable, Short, Genuine, Sound, Contents, Exts,
        Ordered, Kept, Steady, Calm, Low, SpaceManager.SizeNow;
      if Exact() {
        PartsApart(Blocks(sm.Free()), Blocks(bsm.Free()), baseBlk, held[BaseTree], held[SpaceTree], held[Other], all);
      }
      var ret;
      RangeOne(baseBlk);
      RangeOne(root);
      ghost var mid, from;
      ret, vbn, mid, from := OfsAllocSpace(BaseTree, 1);
      ret := OfsFreeSpace(BaseTree, root, 1);
    }
  }
}
