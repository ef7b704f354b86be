/**
  The variable-length B-tree behind a table object: its cached blocks, the block
  numbers it may take, and the handle's cursor.
*/
module BTree {
  import opened IndexBlock
  import opened BTreeShape
  import opened BTreeOrder
  import opened BTreeDirty
  import opened BTreeCopy
  import opened BTreeSplit
  import opened BTreeRemove
  import opened BTreeCrowd
  import opened BTreeInsert
  import opened Collate
  import opened KeyOrder

  datatype Status = Ok | GettoBegin | KeyNotFound | KeyExist | ErrRoot | ErrNextEntry | ErrReparent | ErrEndEntry

  datatype Walk = GetFirst | GetLast | GetNext | GetPrev

  class Table {
    /** The collation rule of the keys. */
    const rule: Rule
    const fold: Fold

    /** The table's cached blocks, and the block numbers its allocator may hand out. */
    var blocks: Heap
    var free: set<Vbn>
    var rootVbn: Vbn

    /** The cursor: the blocks from the root down, the entry taken in each, and the current entry
        (-1 is BEGIN).  `maxDepth` remembers the depth of the last leaf reached. */
    var maxDepth: nat
    var depth: nat
    var cacheStack: seq<Vbn>
    var positionStack: seq<nat>
    var position: int

    /** The table as seen from the cursor, and every block number it owns or may take. */
    ghost var z: Zip
    ghost var all: set<Vbn>

    /** The block numbers given back so far. */
    ghost var given: seq<Vbn>

    /** An empty table: its root is a leaf. */
    constructor (rule: Rule, fold: Fold, rootVbn: Vbn, free: set<Vbn>)
      requires rootVbn != 0 && 0 !in free && rootVbn !in free
      ensures Valid() && List() == [] && z.h == 1 && z.path.Top?
      ensures this.rule == rule && this.fold == fold && this.free == free && maxDepth == 0
    {
      this.rule, this.fold, this.rootVbn, this.free := rule, fold, rootVbn, free;
      maxDepth, depth, position := 0, 0, 0;
      cacheStack, positionStack := [rootVbn], [];
      z := Zip(Top, Node(rootVbn, false, true, ROOT_SIZE, [Slot(End(0), Nil)]), 1);
      all, given := free + {rootVbn}, [];
      blocks := map[];
      new;
      var ib := InitIb(false, ROOT_SIZE);
      blocks := map[rootVbn := Cached(ib, true)];
      EmptyTable(blocks, rootVbn, free);
    }

    ghost function Stored(): Store
      reads this
    {
      Store(blocks, free, given)
    }

    ghost predicate Stacked()
      reads this
    {
      && z.focus.Node?
      && cacheStack == Vbns(z.path) + [z.focus.vbn] && positionStack == Positions(z.path)
      && depth == Depth(z.path) && rootVbn == cacheStack[0]
    }

    ghost predicate Valid()
      reads this
    {
      && Sound(blocks, z, free, all) && Stacked()
      && -1 <= position < |z.focus.slots|
    }

    /** The in-order list of all keys and values. */
    ghost function List(): seq<KV>
      reads this
    {
      Contents(z)
    }

    /** The levels of the table. */
    ghost function Levels(): nat
      reads this
    {
      z.h + Depth(z.path)
    }

    /** The block in focus is cached as pictured. */
    lemma Focused()
      requires Valid()
      ensures cacheStack[depth] == z.focus.vbn && z.focus.vbn in blocks && z.h >= 1
      ensures Holds(blocks, z.focus) && z.focus.large == (z.h >= 2)
      ensures EndLast(Ents(z.focus.slots))
      ensures |blocks[z.focus.vbn].ib.entries| == |z.focus.slots| >= 1
    {
    }

    /** The current entry as pictured. */
    lemma Current()
      requires Valid() && 0 <= position
      ensures cacheStack[depth] == z.focus.vbn && z.focus.vbn in blocks
      ensures |blocks[z.focus.vbn].ib.entries| == |z.focus.slots|
      ensures var ie := blocks[z.focus.vbn].ib.entries[position];
              Strip(ie) == z.focus.slots[position].ent && EntryOk(ie, z.focus.large)
      ensures z.h >= 1 && z.focus.large == (z.h >= 2)
      ensures z.focus.slots[position].ent.End? <==> position == |z.focus.slots| - 1
      ensures z.h >= 2 ==> z.focus.slots[position].kid.Node? &&
                           z.focus.slots[position].ent.vbn == z.focus.slots[position].kid.vbn
      ensures z.h == 1 ==> z.focus.slots[position].kid.Nil?
    {
      hide Sound;
      Focused();
      assert Ents(z.focus.slots)[position] == View(blocks[z.focus.vbn].ib)[position];
      KidHere();
    }

    lemma KidHere()
      requires Valid() && 0 <= position
      ensures z.h >= 2 ==> z.focus.slots[position].kid.Node? &&
                           z.focus.slots[position].ent.vbn == z.focus.slots[position].kid.vbn
      ensures z.h == 1 ==> z.focus.slots[position].kid.Nil?
    {
      SlotGood(blocks, z.focus, z.h, position);
    }

    method CurrentIe() returns (ie: IndexEntry)
      requires Valid()
      ensures position >= 0 ==>
                Strip(ie) == z.focus.slots[position].ent && EntryOk(ie, z.focus.large)
      ensures position < 0 ==> ie == BeginEntry()
      ensures z.focus.large == (z.h >= 2)
      ensures ie.isEnd <==> position == |z.focus.slots| - 1
      ensures ie.isNode <==> position >= 0 && z.h >= 2
    {
      hide Sound;
      Focused();
      if position < 0 {
        ie := blocks[cacheStack[depth]].ib.begin;
      } else {
        Current();
        ie := blocks[cacheStack[depth]].ib.entries[position];
      }
    }

    // ----- cursor moves -----

    method GetLastIe()
      requires Valid()
      modifies `position
      ensures Valid() && position == |z.focus.slots| - 1
    {
      hide Sound;
      Focused();
      position := |blocks[cacheStack[depth]].ib.entries| - 1;
    }

    method ResetCacheStack(last: bool)
      requires Valid()
      modifies `depth, `cacheStack, `positionStack, `position, `z
      ensures Valid() && z == FromRoot(old(z)) && z.path.Top? && List() == old(List())
      ensures position == if last then |z.focus.slots| - 1 else 0
      ensures z.h == old(Levels())
    {
      hide Sound;
      FromRootSound(blocks, z, free, all);
      FromRootVbn(z);
      z := FromRoot(z);
      cacheStack := [rootVbn];
      positionStack := [];
      depth := 0;
      position := 0;
      NonEmpty(blocks, z, free, all);
      if last {
        GetLastIe();
      }
    }

    method PushCacheStack(last: bool)
      requires Valid() && position >= 0 && z.h >= 2
      modifies `depth, `cacheStack, `positionStack, `position, `maxDepth, `z
      ensures Valid() && z == Push(old(z), old(position)) && List() == old(List())
      ensures position == if last then |z.focus.slots| - 1 else 0
      ensures maxDepth == if z.h == 1 then depth else old(maxDepth)
    {
      hide Sound, Contents;
      DepthSound(blocks, z, free, all);
      assert depth < TREE_MAX_DEPTH - 1;        // the depth check never fires
      Current();
      var vbn := blocks[cacheStack[depth]].ib.entries[position].vbn;
      PushSound(blocks, z, position, free, all);
      z := Push(z, position);
      positionStack := positionStack + [position];
      depth := depth + 1;
      cacheStack := cacheStack + [vbn];
      position := 0;
      NonEmpty(blocks, z, free, all);
      if !blocks[vbn].ib.large && maxDepth != depth {
        maxDepth := depth;
      }
      if last {
        GetLastIe();
      }
    }

    /** The byte the cursor is at in its block; BEGIN lies just before the first entry. */
    ghost function BytePos(): int
      requires Valid()
      reads this
    {
      Focused();
      if position < 0 then FIRST_ENTRY_OFF - ENTRY_HEAD_SIZE else Offset(blocks[z.focus.vbn].ib, position)
    }

    /** The entries of the block in focus. */
    ghost function Entries(): (s: seq<IndexEntry>)
      requires Valid()
      reads this
      ensures |s| == |z.focus.slots|
    {
      Focused();
      blocks[z.focus.vbn].ib.entries
    }

    /** Stepping within the block, by the bytes an entry says. */
    lemma Navigates()
      requires Valid() && position >= 0
      ensures var ib := blocks[z.focus.vbn].ib; var e := Entries()[position];
              && |ib.entries| == |Entries()| && BytePos() + e.len == Offset(ib, position + 1)
              && BytePos() - e.prevLen == if position == 0 then FIRST_ENTRY_OFF - ENTRY_HEAD_SIZE
                    else Offset(ib, position - 1)
    {
      hide Sound, Offset, EntLen, Chained;
      Focused();
      ChainNavigates(blocks[z.focus.vbn].ib, position);
    }

    method GetPrevIe() returns (ret: Status)
      requires Valid()
      modifies `position
      ensures Valid() && position == if old(position) < 0 then -1 else old(position) - 1
      ensures old(position) >= 0 ==> BytePos() == old(BytePos() - Entries()[position].prevLen)
      ensures ret == if position < 0 then GettoBegin else Ok
    {
      hide Sound;
      if position >= 0 {
        Navigates();
        position := position - 1;
      }
      ret := if position < 0 then GettoBegin else Ok;
    }

    method GetNextIe() returns (ret: Status)
      requires Valid()
      modifies `position
      ensures ret == if old(position) == |z.focus.slots| - 1 then ErrNextEntry else Ok
      ensures Valid() && position == if ret == Ok then old(position) + 1 else old(position)
      ensures ret == Ok && old(position) >= 0 ==> BytePos() == old(BytePos() + Entries()[position].len)
    {
      hide Sound;
      Focused();
      if position >= 0 {
        Navigates();
      }
      if position == |blocks[cacheStack[depth]].ib.entries| - 1 {
        return ErrNextEntry;
      }
      position := position + 1;
      ret := Ok;
    }

    /** Back to the parent block and the entry taken there. */
    method PopLevel()
      requires Stacked() && CanPop(z)
      modifies `depth, `cacheStack, `positionStack, `position, `z
      ensures Stacked() && z == Pop(old(z)) && position == old(z).path.f.pos
    {
      ghost var above := Vbns(z.path.above);
      assert cacheStack == above + [z.path.f.node.vbn, z.focus.vbn];
      z := Pop(z);
      depth := depth - 1;
      cacheStack := cacheStack[..depth + 1];
      position := positionStack[depth];
      positionStack := positionStack[..depth];
    }

    method PopCacheStack(prev: bool) returns (ret: Status)
      requires Valid()
      modifies `depth, `cacheStack, `positionStack, `position, `z
      ensures Valid() && List() == old(List())
      ensures old(z).path.Top? ==> ret == ErrRoot && z == old(z) && position == old(position)
      ensures old(z).path.Up? ==>
                && CanPop(old(z)) && z == Pop(old(z)) && old(z).path.f.pos < |z.focus.slots|
                && position == old(z).path.f.pos - (if prev then 1 else 0)
                && ret == if position < 0 then GettoBegin else Ok
    {
      hide Sound, Contents;
      if depth == 0 {
        return ErrRoot;
      }
      PopSound(blocks, z, free, all);
      PopLevel();
      ret := Ok;
      if prev {
        ret := GetPrevIe();
      }
    }

    // ----- walks -----

    lemma LeafFacts()
      requires Valid()
      ensures z.h >= 1 && |z.focus.slots| >= 1
      ensures z.h == 1 && z.path.Up? ==> |z.focus.slots| >= 2
      ensures z.h == 1 ==> forall i :: 0 <= i < |z.focus.slots| ==> z.focus.slots[i].kid.Nil?
      ensures forall i :: 0 <= i < |z.focus.slots| - 1 ==> z.focus.slots[i].ent.Ent?
      ensures z.focus.slots[|z.focus.slots| - 1].ent.End?
    {
      forall i | 0 <= i < |z.focus.slots| ensures z.h == 1 ==> z.focus.slots[i].kid.Nil? {
        SlotGood(blocks, z.focus, z.h, i);
      }
      forall i | 0 <= i < |z.focus.slots| ensures z.focus.slots[i].ent == Ents(z.focus.slots)[i] {
      }
      assert EndLast(Ents(z.focus.slots));
    }

    lemma PopRanks()
      requires Valid()
      ensures z.path.Up? ==>
                && CanPop(z)
                && Rank(z, -1) == (if z.path.f.pos == 0 then Rank(Pop(z), -1) else Rank(Pop(z), z.path.f.pos - 1) + 1)
                && Rank(z, |z.focus.slots| - 1) == Rank(Pop(z), z.path.f.pos)
      ensures z.path.Top? ==> Rank(z, -1) == 0 && Rank(z, |z.focus.slots| - 1) == |Contents(z)|
    {
      hide Rank, Contents, Sound;
      LeafFacts();
      if z.path.Up? {
        ParentEntries();
        PopBack(z);
        PopForward(z);
      } else {
        RootRanks(z);
      }
    }

    /** Before its last entry the parent has no END. */
    lemma ParentEntries()
      requires Valid() && z.path.Up?
      ensures CanPop(z) && z.path.f.node.slots[|z.path.f.node.slots| - 1].ent.End?
      ensures forall i :: 0 <= i < |z.path.f.node.slots| - 1 ==> z.path.f.node.slots[i].ent.Ent?
    {
      hide Good, GoodSlot, Foot, FootP, Flat;
      var ss := z.path.f.node.slots;
      assert EndLast(Ents(ss));
      assert forall i :: 0 <= i < |ss| ==> ss[i].ent == Ents(ss)[i];
    }

    /** Down to a leaf: along the first entries, or along the last ones. */
    method GoDown(last: bool)
      requires Valid() && position >= 0
      modifies `depth, `cacheStack, `positionStack, `position, `maxDepth, `z
      ensures Valid() && List() == old(List()) && z.h == 1 && 0 <= position
      ensures old(z.h) == 1 ==> z == old(z) && position == old(position) && maxDepth == old(maxDepth)
      ensures old(z.h) > 1 ==>
                z.path.Up? && position == (if last then |z.focus.slots| - 1 else 0) && maxDepth == depth
      ensures last ==> Upto(z, position) == old(Upto(z, position))
      ensures !last ==> Lead(z, position) == old(Lead(z, position))
      ensures Levels() == old(Levels()) && (maxDepth == old(maxDepth) || maxDepth < Levels())
      ensures UpTo(z, old(z.h)) == old(z) && UpPos(z, position, old(z.h)) == old(position)
    {
      hide Sound, Contents, Lead, Upto, UpTo, UpPos, FlatS, EntryOk;
      var ie := CurrentIe();
      LeafFacts();
      AtHeight(z, position);
      while ie.isNode
        invariant Valid() && List() == old(List()) && 0 <= position && z.h >= 1
        invariant ie.isNode <==> z.h >= 2
        invariant z.h == old(z.h) ==> z == old(z) && position == old(position) && maxDepth == old(maxDepth)
        invariant z.h < old(z.h) ==> z.path.Up? && position == if last then |z.focus.slots| - 1 else 0
        invariant z.h < old(z.h) && z.h == 1 ==> maxDepth == depth
        invariant z.h <= old(z.h)
        invariant last ==> Upto(z, position) == old(Upto(z, position))
        invariant !last ==> Lead(z, position) == old(Lead(z, position))
        invariant Levels() == old(Levels())
        invariant UpTo(z, old(z.h)) == old(z) && UpPos(z, position, old(z.h)) == old(position)
        decreases z.h
      {
        Current();
        ghost var zp, p := z, position;
        PushCacheStack(last);
        LeafFacts();
        PushLead(zp, p);
        PushUpto(zp, p);
        PushBack(zp, p, position, old(z.h));
        ie := CurrentIe();
      }
    }

    /** From an edge of a leaf, or out of it, to the entry the cursor stands for. */
    method LeaveEdge(back: bool, lastEntry: bool) returns (ret: Status)
      requires Valid() && (!back ==> position >= 0) && (lastEntry ==> back)
      requires position == |z.focus.slots| - 1 ==> z.h == 1
      modifies `depth, `cacheStack, `positionStack, `position, `z
      ensures Valid() && List() == old(List())
      ensures ret == Ok || ret == ErrRoot
      ensures ret == Ok && !lastEntry ==> 0 <= position < |z.focus.slots| - 1
      ensures !back && ret == Ok ==> Rank(z, position) == old(Rank(z, position))
      ensures !back && ret == ErrRoot ==> |List()| == old(Rank(z, position))
      ensures back && !lastEntry && ret == Ok ==> Rank(z, position) + 1 == old(Edge(z, position))
      ensures back && ret == ErrRoot ==> old(Edge(z, position)) == 0
      ensures lastEntry || 0 <= old(position) < old(|z.focus.slots| - 1) ==>
                ret == Ok && z == old(z) && position == old(position)
      ensures Levels() == old(Levels())
    {
      hide Sound, Contents, Lead, Upto, Rank;
      ghost var goal := if back then Edge(z, position) else Rank(z, position);
      var ie := CurrentIe();
      LeafFacts();
      while ie.isEnd || ie.isBegin
        invariant Valid() && List() == old(List())
        invariant ie.isEnd <==> position == |z.focus.slots| - 1
        invariant ie.isBegin <==> position < 0
        invariant !back ==> position >= 0 && Rank(z, position) == goal
        invariant back && ie.isEnd ==> z.h == 1
        invariant back ==> goal == Edge(z, position)
        invariant Levels() == old(Levels())
        invariant lastEntry || !(old(position) < 0 || old(position) == old(|z.focus.slots| - 1)) ==>
                    z == old(z) && position == old(position)
        decreases z.path
      {
        LeafFacts();
        if back {
          if lastEntry {
            break;
          }
          ret := StepBack();
          if ret == Ok {
            return;
          }
        }
        ret := LeaveBlock(back);
        if ret == ErrRoot {
          return;
        }
        ie := CurrentIe();
      }
      ret := Ok;
    }

    /** Back from an edge of a block: from the end of a leaf to the entry before it, or else to BEGIN. */
    method StepBack() returns (ret: Status)
      requires Valid() && (position >= 0 ==> position == |z.focus.slots| - 1 && z.h == 1)
      modifies `position
      ensures Valid()
      ensures ret == Ok ==> 0 <= position < |z.focus.slots| - 1 && Rank(z, position) + 1 == old(Edge(z, position))
      ensures ret != Ok ==> position == -1 && Rank(z, position) == old(Edge(z, position))
    {
      hide Sound, Contents, Rank;
      LeafFacts();
      if position >= 0 {
        LeafRank(z, position);
      }
      ret := GetPrevIe();
    }

    /** From an edge of a block up to the parent: forwards to the entry the cursor came through, backwards to
        the one before it. */
    method LeaveBlock(back: bool) returns (ret: Status)
      requires Valid() && position == if back then -1 else |z.focus.slots| - 1
      modifies `depth, `cacheStack, `positionStack, `position, `z
      ensures Valid() && List() == old(List()) && Levels() == old(Levels())
      ensures ret == ErrRoot <==> old(z).path.Top?
      ensures ret == ErrRoot ==> z == old(z) && position == old(position)
      ensures ret == ErrRoot ==> old(Rank(z, position)) == if back then 0 else |List()|
      ensures ret != ErrRoot ==>
                && z.h > old(z.h) && Depth(z.path) < old(Depth(z.path)) && z.path == old(z).path.above
                && (back ==> position < |z.focus.slots| - 1 && Edge(z, position) == old(Rank(z, position)))
                && (!back ==> position >= 0 && Rank(z, position) == old(Rank(z, position)))
    {
      hide Sound, Contents, Lead, Upto, Rank, Stacked;
      PopRanks();
      ret := PopCacheStack(back);
      LeafFacts();
    }

    /** Stops at the entry the cursor stands for.  Forwards that is the entry at the cursor's place in
        the list; backwards, from an edge of a block or a subtree, the entry just before it. */
    method GetCurrentIe(back: bool, lastEntry: bool) returns (ret: Status)
      requires Valid() && (!back ==> position >= 0)
      requires lastEntry ==> back && position >= 0 && z.h >= 2
      modifies `depth, `cacheStack, `positionStack, `position, `maxDepth, `z
      ensures Valid() && List() == old(List())
      ensures ret == Ok || ret == ErrRoot
      ensures ret == Ok && !lastEntry ==> 0 <= position < |z.focus.slots| - 1
      ensures !back && ret == Ok ==> Rank(z, position) == old(|Lead(z, position)|)
      ensures !back && ret == ErrRoot ==> |List()| == old(|Lead(z, position)|)
      ensures back && !lastEntry && ret == Ok ==> Rank(z, position) + 1 == old(Goal(z, position))
      ensures back && ret == ErrRoot ==> old(Goal(z, position)) == 0
      ensures lastEntry ==> ret == Ok && z.h == 1 && z.path.Up? && position == |z.focus.slots| - 1
                            && Upto(z, position) == old(Upto(z, position))
      ensures !back && old(z.h) >= 2 ==> ret == Ok && z.h == 1 && z.path.Up? && position == 0
                                         && Lead(z, position) == old(Lead(z, position))
      ensures Levels() == old(Levels()) && (maxDepth == old(maxDepth) || maxDepth < Levels())
      ensures old(z.h) >= 2 && (lastEntry || !back) ==> maxDepth == depth
      ensures !back && old(z.h) >= 2 ==> UpTo(z, old(z.h)) == old(z) && UpPos(z, position, old(z.h)) == old(position)
    {
      hide Sound, Contents, Lead, Upto, Rank, UpTo, UpPos;
      LeafFacts();
      if position >= 0 {
        UptoRank(z, position);
        GoDown(back);
        UptoRank(z, position);
        LeafFacts();
        LeafRank(z, position);
      }
      ret := LeaveEdge(back, lastEntry);
    }

    /** Puts the cursor where `GetCurrentIe` should start from to make a step. */
    method StartStep(flag: Walk) returns (ret: Status)
      requires Valid()
      modifies `depth, `cacheStack, `positionStack, `position, `z
      ensures Valid() && List() == old(List())
      ensures Levels() == old(Levels())
      ensures ret == ErrNextEntry <==> flag.GetNext? && old(position == |z.focus.slots| - 1)
      ensures ret == ErrNextEntry ==> z == old(z) && position == old(position)
      ensures flag.GetFirst? || flag.GetNext? ==> position >= 0
      ensures ret == Ok || ret == ErrNextEntry
      ensures flag.GetNext? && ret == Ok ==> z == old(z) && position == old(position) + 1
      ensures ret != ErrNextEntry && (flag.GetFirst? || flag.GetNext?) ==>
                |Lead(z, position)| == if flag.GetFirst? then 0 else old(Following(z, position))
      ensures flag.GetLast? || flag.GetPrev? ==>
                Goal(z, position) == if flag.GetLast? then |List()| else old(Rank(z, position))
    {
      hide Sound, Contents, Lead, Upto, Rank, Flat, LeftOf, RightOf;
      ret := Ok;
      LeafFacts();
      if flag.GetFirst? || flag.GetLast? {
        ResetCacheStack(flag.GetLast?);
        LeafFacts();
        RootRanks(z);
        LeadStart(z);
      } else {
        var ie := CurrentIe();
        if flag.GetPrev? {
          if !ie.isNode {
            if position >= 0 {
              LeafRank(z, position);
            }
            var _ := GetPrevIe();
          }
        } else if ie.isEnd {
          ret := ErrNextEntry;
        } else {
          LeadStart(z);
          if position >= 0 {
            RankNext(z, position);
          }
          var _ := GetNextIe();
        }
      }
    }

    /** One step of a walk: to an end of the list, or to the neighbour of the current place. */
    method WalkTree(flag: Walk) returns (ret: Status)
      requires Valid()
      modifies `depth, `cacheStack, `positionStack, `position, `maxDepth, `z
      ensures Valid() && List() == old(List())
      ensures ret == Ok || ret == ErrRoot || ret == ErrNextEntry
      ensures ret == Ok ==> 0 <= position < |z.focus.slots| - 1 && AtEntry(z, position)
      ensures flag == GetFirst ==> if ret == Ok then Rank(z, position) == 0 else |List()| == 0
      ensures flag == GetLast ==> if ret == Ok then Rank(z, position) + 1 == |List()| else |List()| == 0
      ensures flag == GetPrev ==> if ret == Ok then Rank(z, position) + 1 == old(Rank(z, position))
                                  else old(Rank(z, position)) == 0
      ensures ret == ErrNextEntry <==> flag == GetNext && old(position == |z.focus.slots| - 1)
      ensures ret == ErrNextEntry ==> z == old(z) && position == old(position)
      ensures flag == GetNext && ret == Ok ==> Rank(z, position) == old(Following(z, position))
      ensures flag == GetNext && ret == ErrRoot ==> |List()| == old(Following(z, position))
      ensures Levels() == old(Levels()) && (maxDepth == old(maxDepth) || maxDepth < Levels())
      ensures flag == GetNext && old(z.h >= 2 && position < |z.focus.slots| - 1) ==>
                && ret == Ok && z.h == 1 && maxDepth == depth
                && UpTo(z, old(z.h)) == old(z) && UpPos(z, position, old(z.h)) == old(position) + 1
    {
      hide Sound, Contents, Lead, Upto, Rank, Goal, Following, AtEntry, UpTo, UpPos;
      ret := StartStep(flag);
      if ret == ErrNextEntry {
        return;
      }
      ret := GetCurrentIe(flag.GetLast? || flag.GetPrev?, false);
      if ret == Ok {
        LeafFacts();
        RankNext(z, position);
      }
    }

    /** Hands every entry to the callback, here collected in order of visit. */
    method IndexWalkAll(reverse: bool) returns (visited: seq<KV>)
      requires Valid()
      modifies `depth, `cacheStack, `positionStack, `position, `maxDepth, `z
      ensures Valid() && List() == old(List())
      ensures visited == if reverse then Reversed(List()) else List()
      ensures old(Sorted()) ==> InWalkOrder(rule, fold, visited, reverse)
    {
      hide Sound, Contents, Rank, Visited, Ordered, Precedes, Keyed, Reversed, KeyOk, Cmp;
      visited := [];
      var ret := WalkTree(if reverse then GetLast else GetFirst);
      if ret == Ok {
        VisitedFirst(List(), Rank(z, position), reverse);
      }
      while ret == Ok
        invariant Valid() && List() == old(List())
        invariant ret == Ok || ret == ErrRoot
        invariant ret == Ok ==> 0 <= position < |z.focus.slots| - 1 && AtEntry(z, position)
        invariant ret == Ok ==> visited == Visited(List(), Rank(z, position), reverse)
        invariant ret != Ok ==> visited == if reverse then Reversed(List()) else List()
        decreases ret == Ok,
                  if ret != Ok || position < 0 then 0
                  else if reverse then Rank(z, position) else |List()| - Rank(z, position)
      {
        var ie := CurrentIe();
        VisitedNext(List(), Rank(z, position), reverse);
        visited := visited + [KV(ie.key, ie.value)];
        ret := WalkTree(if reverse then GetPrev else GetNext);
      }
      if Sorted() {
        WalkOrder(rule, fold, List(), visited, reverse);
      }
    }

    // ----- search -----

    /** The list is in the order of the table's keys. */
    ghost predicate Sorted()
      reads this
    {
      Ordered(rule, fold, List())
    }

    ghost function Seeking(key: Bytes, value: Bytes): Probe
      reads this
    {
      ProbeFor(rule, fold, KV(key, value))
    }

    /** All a search relies on: the key cuts the list in two.  In a sorted table every key does. */
    ghost predicate Guides(key: Bytes, value: Bytes)
      reads this
    {
      Keyed(rule, List()) && Monotone(Seeking(key, value), List())
    }

    lemma SortedGuides(key: Bytes, value: Bytes)
      requires Sorted() && ProbeOk(rule, KV(key, value))
      ensures Guides(key, value)
    {
      OrderedMonotone(rule, fold, List(), KV(key, value));
    }

    /** Goes down from the root until an entry compares equal or a leaf is exhausted. */
    method SearchKeyInternal(key: Bytes, value: Bytes) returns (ret: Status)
      requires Valid() && Guides(key, value) && ProbeOk(rule, KV(key, value))
      modifies `depth, `cacheStack, `positionStack, `position, `maxDepth, `z
      ensures Valid() && List() == old(List()) && 0 <= position
      ensures ret == Ok || ret == KeyNotFound
      ensures maxDepth == old(maxDepth) || maxDepth < Levels()
      ensures z.path.Top? ==> maxDepth == old(maxDepth)
      ensures ret == Ok ==>
                && position < |z.focus.slots| - 1 && z.focus.slots[position].ent.Ent?
                && Seeking(key, value)(Pay(z.focus.slots[position].ent)[0]) == 0
      ensures ret == KeyNotFound ==>
                z.h == 1 && Below(Seeking(key, value), Lead(z, position))
                    && Above(Seeking(key, value), Tail(z, position))
      ensures z.path.Up? && z.h == 1 ==> maxDepth == depth
      ensures Levels() == old(Levels())
    {
      hide Sound, Contents, Lead, Tail, After, Monotone, Below, Above, FlatS, LeftOf, RightOf, Keyed, Cmp, ProbeOk;
      ghost var cmp := Seeking(key, value);
      ResetCacheStack(false);
      RootLead(z);
      while true
        invariant Valid() && List() == old(List()) && position == 0
        invariant Below(cmp, Lead(z, 0)) && Above(cmp, RightOf(z.path))
        invariant maxDepth == old(maxDepth) || (maxDepth == depth && z.h == 1 && z.path.Up?)
        invariant z.path.Up? && z.h == 1 ==> maxDepth == depth
        invariant Levels() == old(Levels())
        decreases z.h
      {
        var found := ScanBlock(key, value);
        if found {
          return Ok;
        }
        var ie := CurrentIe();
        if !ie.isNode {
          Current();
          LeafTail(z, position);
          return KeyNotFound;
        }
        Current();
        PushLead(z, position);
        PushCacheStack(false);
      }
    }

    /** The search within the block in focus: stops at an equal entry, or at the first larger one. */
    method ScanBlock(key: Bytes, value: Bytes) returns (found: bool)
      requires Valid() && position == 0 && Guides(key, value) && ProbeOk(rule, KV(key, value))
      requires Below(Seeking(key, value), Lead(z, 0)) && Above(Seeking(key, value), RightOf(z.path))
      modifies `position
      ensures Valid() && 0 <= position
      ensures found ==>
                && position < |z.focus.slots| - 1 && z.focus.slots[position].ent.Ent?
                && Seeking(key, value)(Pay(z.focus.slots[position].ent)[0]) == 0
      ensures !found ==> Below(Seeking(key, value), Lead(z, position)) && Above(Seeking(key, value), After(z, position))
    {
      hide Sound, Contents, Lead, Tail, After, Monotone, Below, Above, FlatS, LeftOf, RightOf, Keyed, Cmp, ProbeOk,
        KeyOk;
      ghost var cmp := Seeking(key, value);
      var ie := CurrentIe();
      LeafFacts();
      while !ie.isEnd
        invariant Valid() && 0 <= position
        invariant Strip(ie) == z.focus.slots[position].ent
        invariant ie.isEnd <==> position == |z.focus.slots| - 1
        invariant Below(cmp, Lead(z, position))
        decreases |z.focus.slots| - position
      {
        SearchStep(cmp, z, position);
        EntryKey(rule, z, position);
        var ret := CollateKey(rule, fold, KV(ie.key, ie.value), key, value);
        if ret > 0 {
          return false;
        }
        if ret == 0 {
          return true;
        }
        var _ := GetNextIe();
        ie := CurrentIe();
      }
      EndAfter(z, position);
      return false;
    }

    /** From the end of a leaf up to the next larger entry, if there is one. */
    method GetToNearKey()
      requires Valid() && 0 <= position
      modifies `depth, `cacheStack, `positionStack, `position, `z
      ensures Valid() && List() == old(List()) && 0 <= position && Rank(z, position) == old(Rank(z, position))
      ensures position < |z.focus.slots| - 1 || (z.path.Top? && Rank(z, position) == |List()|)
      ensures Levels() == old(Levels())
    {
      hide Sound, Contents, Rank;
      var ie := CurrentIe();
      LeafFacts();
      PopRanks();
      while ie.isEnd
        invariant Valid() && List() == old(List()) && 0 <= position && Rank(z, position) == old(Rank(z, position))
        invariant ie.isEnd <==> position == |z.focus.slots| - 1
        invariant Levels() == old(Levels())
        decreases z.path
      {
        PopRanks();
        var ret := PopCacheStack(false);
        if ret != Ok {
          break;
        }
        ie := CurrentIe();
      }
    }

    /** Looks a key up.  If it is absent the cursor is on the next larger entry, or at the end. */
    method IndexSearchKey(key: Bytes, value: Bytes) returns (ret: Status)
      requires Valid() && Guides(key, value) && ProbeOk(rule, KV(key, value))
      modifies `depth, `cacheStack, `positionStack, `position, `maxDepth, `z
      ensures Valid() && List() == old(List()) && 0 <= position && Rank(z, position) <= |List()|
      ensures ret == Ok || ret == KeyNotFound
      ensures ret == Ok ==>
                && position < |z.focus.slots| - 1 && AtEntry(z, position)
                && Cmp(rule, fold, List()[Rank(z, position)], KV(key, value)) == 0
      ensures ret == KeyNotFound ==>
                && Below(Seeking(key, value), List()[..Rank(z, position)])
                && Above(Seeking(key, value), List()[Rank(z, position)..])
                && (position < |z.focus.slots| - 1 <==> Rank(z, position) < |List()|)
                && (position < |z.focus.slots| - 1 ==> AtEntry(z, position))
      ensures Levels() == old(Levels()) && (maxDepth == old(maxDepth) || maxDepth < Levels())
      ensures ret == Ok ==> (z.path.Up? && z.h == 1 ==> maxDepth == depth)
    {
      hide Sound, Contents, Lead, Tail, Below, Above, Rank, AtEntry, Cmp, ProbeOk, Ordered, Upto;
      ret := SearchKeyInternal(key, value);
      LeafFacts();
      if ret == KeyNotFound {
        LeafLead();
        LeafCut(z, position);
        GetToNearKey();
        LeafFacts();
      }
      RankBound(z, position);
      if position < |z.focus.slots| - 1 {
        RankNext(z, position);
      }
    }

    // ----- copy on write -----

    method AllocBlock() returns (vbn: Vbn)
      requires free != {}
      modifies `free
      ensures vbn in old(free) && free == old(free) - {vbn}
    {
      vbn :| vbn in free;
      free := free - {vbn};
    }

    method FreeBlock(vbn: Vbn)
      modifies `free, `given
      ensures free == old(free) + {vbn} && given == old(given) + [vbn]
    {
      free := free + {vbn};
      given := given + [vbn];
    }

    /** One level of `SetIbDirty`: moves a clean block to a new number, and gives the entry at `skip`
        the new number of the block below it. */
    method DirtyLevel(d: nat, vbn: Vbn, ghost above: Path, ghost cur: Node, ghost h: nat, ghost skip: int,
                      ghost held: multiset<Vbn>) returns (newVbn: Vbn, stop: bool)
      requires d < |cacheStack| && cur.Node? && cacheStack[d] == cur.vbn && Half(blocks, above, cur, h, skip)
      requires skip >= 0 ==> d < |positionStack| && positionStack[d] == skip && vbn == cur.slots[skip].kid.vbn != 0
      requires skip < 0 ==> vbn == 0
      requires Owned(FootP(above) + Foot(cur) + held, free, all) && free != {}
      modifies `blocks, `free, `given, `rootVbn, `cacheStack
      ensures stop == cur.dirty && (stop ==> newVbn == cur.vbn) && newVbn != 0
      ensures cacheStack == old(cacheStack)[d := newVbn]
      ensures rootVbn == if d == 0 then newVbn else old(rootVbn)
      ensures Good(blocks, Mended(cur, skip, newVbn), h) && PathOk(blocks, above, h, cur)
      ensures Owned(FootP(above) + Foot(Mended(cur, skip, newVbn)) + held, free, all) && |free| == old(|free|)
      ensures Agree(old(blocks), blocks, held)
      ensures if cur.dirty then free == old(free) && given == old(given)
              else newVbn in old(free) && newVbn != cur.vbn && free == old(free) - {newVbn} + {cur.vbn}
                   && given == old(given) + [cur.vbn] && cur.vbn !in blocks
      ensures newVbn in blocks && blocks[newVbn].dirty && CopyOnWrite(old(Stored()), Stored())
      ensures forall v :: v in blocks && v != newVbn ==> v in old(blocks) && blocks[v] == old(blocks)[v]
    {
      hide Half, Good, PathOk, Foot, FootS, FootP, Owned, Mended, Chained, View, Ents, CopyOnWrite, TotalLen, Agree;
      ghost var m, f0 := blocks, free;
      HalfHere(m, above, cur, h, skip);
      var oldVbn := cacheStack[d];
      newVbn := oldVbn;
      if !blocks[oldVbn].dirty {
        newVbn := AllocBlock();
        blocks := (blocks - {oldVbn})[newVbn := blocks[oldVbn]];
      }
      cacheStack := cacheStack[d := newVbn];
      if d == 0 {
        rootVbn := newVbn;
      }
      MendedSize(cur, skip, newVbn);
      if vbn != 0 {
        var ib := SetIeVbn(blocks[newVbn].ib, positionStack[d], vbn);
        blocks := blocks[newVbn := blocks[newVbn].(ib := ib)];
      }
      stop := blocks[newVbn].dirty;
      if !stop {
        blocks := blocks[newVbn := blocks[newVbn].(dirty := true)];
        FreeBlock(oldVbn);
      }
      LevelWritten(m, blocks, above, cur, h, skip, newVbn, held, f0, free, all);
      CowLevel(old(Stored()), Stored(), oldVbn, newVbn);
    }

    /** Makes every block from the one in focus up to the root dirty.  A dirty block stays where it is; a clean
        one is copied to another number, and its own is given back. */
    method SetIbDirty(ghost held: multiset<Vbn>)
      requires ZipOk(blocks, z) && Stacked() && DirtyPath(z.path, z.focus)
      requires Owned(Used(z) + held, free, all) && free != {}
      modifies `blocks, `free, `given, `rootVbn, `cacheStack, `z
      ensures ZipOk(blocks, z) && Stacked() && Redirtied(old(z), z)
      ensures Owned(Used(z) + held, free, all) && |free| == old(|free|)
      ensures Agree(old(blocks), blocks, held)
      ensures PathCopied(old(Before(Stored(), cacheStack)), cacheStack, Stored())
    {
      hide ZipOk, PathOk, Good, Half, Owned, Foot, FootP, Climbing, Redirtied, DirtyPath, Along, Mended, Parent,
        Stack, Descend, Tracked, PathCopied, CopyOnWrite, Dirts, Positions, View, Chained, Holds;
      ghost var c := Climb(z.path, z.focus, z.h, -1, [], z);
      ghost var was := Before(Stored(), cacheStack);
      ClimbStart(blocks, z);
      TrackStart(z, Stored());
      var d, vbn := depth, 0;
      while true
        invariant d == Depth(c.above) && d <= depth && Climbing(c, z) && z == old(z)
        invariant Half(blocks, c.above, c.cur, c.h, c.skip) && DirtyPath(c.above, c.cur) && c.cur.Node?
        invariant cacheStack == Stack(c.above, c.cur, c.ps) && |cacheStack| > 0 && rootVbn == cacheStack[0]
        invariant positionStack == Positions(c.above) + c.ps
        invariant Owned(FootP(c.above) + Foot(c.cur) + held, free, all) && |free| == old(|free|)
        invariant Agree(old(blocks), blocks, held)
        invariant Tracked(was, c.above, c.cur.dirty, cacheStack, Stored())
        invariant c.skip < 0 ==> vbn == 0
        invariant c.skip >= 0 ==> ClimbAt(c) && vbn == c.cur.slots[c.skip].kid.vbn != 0
        decreases d
      {
        ClimbHere(c, z);
        ghost var now, s := cacheStack, Stored();
        var newVbn, stop := DirtyLevel(d, vbn, c.above, c.cur, c.h, c.skip, held);
        MendedStack(c, z, newVbn);
        TrackLevel(was, c, z, now, s, cacheStack, Stored(), newVbn);
        if stop || d == 0 {
          ClimbDone(blocks, c, z, newVbn);
          z := Descend(Zip(c.above, Mended(c.cur, c.skip, newVbn), c.h), c.ps);
          break;
        }
        ClimbUp(blocks, c, z, newVbn);
        c := Parent(c, Mended(c.cur, c.skip, newVbn));
        vbn := newVbn;
        d := d - 1;
      }
    }

    // ----- insertion -----

    /** Puts an entry that fits before the current one, and makes the path dirty. */
    method PlaceIe(ie: IndexEntry, ghost lk: Node)
      requires Stacked() && Inserting(blocks, z, position, ie, lk, free, all) && free != {}
      requires blocks[z.focus.vbn].ib.realSize + ie.len <= blocks[z.focus.vbn].ib.allocSize
      modifies `blocks, `free, `given, `rootVbn, `cacheStack, `z
      ensures Valid() && |free| == old(|free|)
      ensures Redirtied(InsZip(old(z), position, Slot(Strip(ie), lk)), z)
      ensures List() == old(WithPending(z, position, Slot(Strip(ie), lk)))
      ensures z.h == old(z.h) && Upto(z, position) == old(Lead(z, position)) + Flat(lk)
      ensures Levels() == old(Levels()) && z.focus.slots[position].ent == Strip(ie)
      ensures CopyOnWrite(old(Stored()), Stored())
    {
      hide CopyOnWrite, PathCopied, ZipOk, PathOk, Good, FullZip, DirtyPath, Owned, Foot, FootS, FootP, WithPending,
        Contents, Redirtied, FlatS, PendOk, Inserting, Chained, View, Ents, InsZip, Used;
      ghost var m, s := blocks, Slot(Strip(ie), lk);
      InsertFacts(ie, lk);
      var vbn := cacheStack[depth];
      var ib := InsertIe(blocks[vbn].ib, ie, position);
      blocks := blocks[vbn := blocks[vbn].(ib := ib)];
      Placed(m, blocks, z, position, ie, lk, free, all);
      ghost var zi := InsZip(z, position, s);
      z := zi;
      SetIbDirty(multiset{});
      CowPath(old(Stored()), Cached(ib, m[vbn].dirty), old(cacheStack), depth, cacheStack, Stored());
      RedirtiedSound(zi);
      PlacedAt(old(z), z, position, s);
    }

    lemma InsertFacts(ie: IndexEntry, lk: Node)
      requires Stacked() && Inserting(blocks, z, position, ie, lk, free, all)
      ensures cacheStack[depth] == z.focus.vbn && z.focus.vbn in blocks
      ensures Chained(blocks[z.focus.vbn].ib) && blocks[z.focus.vbn].ib.large == z.focus.large == (z.h >= 2)
      ensures |blocks[z.focus.vbn].ib.entries| == |z.focus.slots| && 0 <= position < |z.focus.slots|
      ensures EntryOk(ie, z.focus.large) && !ie.isEnd && z.h >= 1
    {
    }

    lemma RedirtiedSound(zi: Zip)
      requires ZipOk(blocks, z) && FullZip(zi) && DirtyZip(zi) && Redirtied(zi, z)
      requires Owned(Used(z) + multiset{}, free, all)
      ensures Sound(blocks, z, free, all) && Contents(z) == Contents(zi)
      ensures z.focus.Node? && zi.focus.Node? && |z.focus.slots| == |zi.focus.slots|
    {
      RedirtiedContents(zi, z);
      RedirtiedFull(zi, z);
      forall i | 0 <= i < |zi.focus.slots| ensures DirtyOk(zi.focus.slots[i].kid) {
        SlotDirty(zi.focus, i);
      }
      RedirtiedDirty(zi, z);
      assert Used(z) + multiset{} == Used(z);
    }

    /** Moves the root's entries into a new block of full size, one level down. */
    method ReparentRoot(ghost ie: IndexEntry, ghost lk: Node) returns (ret: Status)
      requires Stacked() && Inserting(blocks, z, position, ie, lk, free, all) && |free| >= 2
      requires depth == 0 && |z.focus.slots| >= 2 && z.h <= maxDepth + 1
      modifies `blocks, `free, `given, `rootVbn, `depth, `cacheStack, `positionStack, `z
      ensures ret == Ok <==> maxDepth < TREE_MAX_DEPTH - 1
      ensures ret == Ok ==>
                && Stacked() && Inserting(blocks, z, position, ie, lk, free, all) && |free| == old(|free|) - 1
                && WithPending(z, position, Slot(Strip(ie), lk)) == old(WithPending(z, position, Slot(Strip(ie), lk)))
                && RootSlots(z.path, z.focus) == 1 && Depth(z.path) == 1 && z.h == old(z.h)
                && SameBlock(old(z), z, position)
      ensures ret != Ok ==>
                ret == ErrReparent && blocks == old(blocks) && z == old(z) && free == old(free) && Stacked()
      ensures CopyOnWrite(old(Stored()), Stored())
    {
      hide CopyOnWrite, PathCopied, RootMoved, ZipOk, Good, PathOk, FullZip, DirtyZip, DirtyPath, Owned, Used, Foot,
        Inserting, PendOk, WithPending, PushedDown, Push, Redirtied, Chained, GoodSlot, GoodSlots, Agree, Ents, FlatS,
        RootSlots, EntryOk, Strip, SameBlock, GoodFrame, FullPath, DirtyOk, LeftOf, Positions, View, EntLen;
      CowSame(Stored());
      if maxDepth >= TREE_MAX_DEPTH - 1 {
        return ErrReparent;
      }
      ghost var zi, s0, was := z, Stored(), cacheStack;
      RootFacts(ie, lk);
      var vbn := NewRoot(ie, lk);
      ghost var m1, s1 := blocks, Stored();
      SetIbDirty(Foot(lk));
      CowRoot(s0, s1, vbn, was, cacheStack, Stored());
      PendFramed(m1, blocks, ie, lk, zi.h);
      PushedDownSound(blocks, zi, z, vbn, position, ie, lk, free, all);
      PushedStack(z);
      z := Push(z, 0);
      positionStack := positionStack + [0];
      depth := depth + 1;
      cacheStack := cacheStack + [vbn];
      ret := Ok;
    }

    /** Moves the root's entries to a new block, and makes the root lead to it. */
    method NewRoot(ghost ie: IndexEntry, ghost lk: Node) returns (vbn: Vbn)
      requires Stacked() && Inserting(blocks, z, position, ie, lk, free, all) && free != {}
      requires depth == 0 && z.h < TREE_MAX_DEPTH
      modifies `blocks, `free, `given, `z
      ensures Stacked() && z == PushedDown(old(z), vbn) && ZipOk(blocks, z) && DirtyPath(z.path, z.focus)
      ensures Owned(Used(z) + Foot(lk), free, all) && PendOk(blocks, ie, lk, old(z.h)) && |free| == old(|free|) - 1
      ensures cacheStack == old(cacheStack) && cacheStack != []
              && RootMoved(old(Stored()), Stored(), vbn, cacheStack[0])
    {
      hide ZipOk, Good, PathOk, FullZip, DirtyZip, DirtyPath, Owned, Used, Foot, Inserting, PendOk, Chained,
        PushedDown;
      ghost var m := blocks;
      RootFacts(ie, lk);
      var root := cacheStack[depth];
      vbn := AllocBlock();
      blocks := blocks[vbn := Cached(blocks[root].ib.(allocSize := BLOCK_SIZE), true)];
      var oldIb := InitIb(true, blocks[root].ib.allocSize);
      oldIb := SetIeVbn(oldIb, 0, vbn);
      blocks := blocks[root := blocks[root].(ib := oldIb)];
      RootWritten(m, blocks, z, position, vbn, ie, lk, old(free), all);
      z := PushedDown(z, vbn);
    }

    lemma RootFacts(ie: IndexEntry, lk: Node)
      requires Stacked() && Inserting(blocks, z, position, ie, lk, free, all) && depth == 0
      ensures cacheStack[depth] == z.focus.vbn && z.focus.vbn in blocks && z.path.Top? && z.h >= 1
      ensures FullZip(z) && DirtyZip(z) && 0 <= position < |z.focus.slots| && PendOk(blocks, ie, lk, z.h)
      ensures z.focus.vbn !in free
    {
      FootNode(z.focus);
      Apart(FootP(z.path), z.focus.vbn, FootS(z.focus.slots), Foot(lk), free, all);
    }

    /** Back to the parent, where the entry the cursor came through is made to lead to `right`. */
    method LinkRight(ghost right: Node, ghost left: Node, newVbn: Vbn)
      requires Stacked() && z.path.Up? && z.h >= 1 && PathOk(blocks, z.path, z.h, left)
      requires right.Node? && right.vbn == newVbn && z.path.f.node.vbn != z.focus.vbn
      modifies `blocks, `depth, `cacheStack, `positionStack, `position, `z
      ensures CanPop(old(z)) && Stacked() && z == SplitZip(old(z).path, right, old(z).h)
              && position == old(z).path.f.pos
      ensures old(z).path.f.node.vbn in blocks
      ensures blocks == old(blocks)[old(z).path.f.node.vbn := blocks[old(z).path.f.node.vbn]]
      ensures Holds(blocks, z.focus)
      ensures blocks[old(z).path.f.node.vbn].dirty == old(blocks[z.path.f.node.vbn].dirty)
    {
      hide CopyOnWrite, PathOk, View, Chained, Holds;
      ghost var m, path, h := blocks, z.path, z.h;
      ParentFacts(left);
      PopLevel();
      var vbn := cacheStack[depth];
      var ib := SetIeVbn(blocks[vbn].ib, position, newVbn);
      blocks := blocks[vbn := blocks[vbn].(ib := ib)];
      WroteParent(m, blocks, path, left, right, h);
      z := SplitZip(path, right, h);
    }

    lemma ParentFacts(left: Node)
      requires Stacked() && z.path.Up? && z.h >= 1 && PathOk(blocks, z.path, z.h, left)
      ensures CanPop(z)
      ensures var v := z.path.f.node.vbn;
              && v in blocks && Chained(blocks[v].ib) && blocks[v].ib.large
              && z.path.f.pos < |blocks[v].ib.entries| && |View(blocks[v].ib)| == |blocks[v].ib.entries|
    {
    }

    /** Splits the block in focus around its middle entry, which becomes the entry to insert in the
        parent; the pending entry goes into the half it belongs to. */
    method SplitIb(ie: IndexEntry, ghost lk: Node) returns (newIe: IndexEntry, ghost left: Node)
      requires Stacked() && Inserting(blocks, z, position, ie, lk, free, all) && z.path.Up? && |free| >= 2
      requires blocks[z.focus.vbn].ib.realSize + ie.len > blocks[z.focus.vbn].ib.allocSize
      modifies `blocks, `free, `given, `rootVbn, `depth, `cacheStack, `positionStack, `position, `z
      ensures Stacked() && Inserting(blocks, z, position, newIe, left, free, all) && |free| == old(|free|) - 1
      ensures WithPending(z, position, Slot(Strip(newIe), left)) == old(WithPending(z, position, Slot(Strip(ie), lk)))
      ensures Depth(z.path) + 1 == old(Depth(z.path)) && z.h == old(z.h) + 1
      ensures RootSlots(z.path, z.focus) == old(RootSlots(z.path, z.focus))
      ensures Passed(old(z), old(position), lk, z, position, left)
      ensures Overflows(z.path, z.focus, newIe.len) <==> old(Overflows(z.path, z.focus, ie.len))
      ensures CopyOnWrite(old(Stored()), Stored())
    {
      hide CopyOnWrite, PathCopied, ZipOk, Good, PathOk, FullZip, DirtyZip, DirtyPath, Owned, Used, Foot, FootS,
        Inserting, PendOk, WithPending, Redirtied, Chained, View, Ents, LeftHalf, RightHalf, SplitZip, IsMiddle,
        LeftView, RightView, ViewSize, Holds, RootSlots, Passed, Overflows, Positions, RePath, EndLast, LeftOf,
        GoodSlot, GoodSlots;
      ghost var z0, s := z, Slot(Strip(ie), lk);
      SplitReady(ie, lk);
      var vbn := cacheStack[depth];
      var mid := GetMiddleIe(blocks[vbn].ib);
      SplitRoom(blocks, z, position, ie, lk, mid, free, all);
      ViewSizes(Ents(z.focus.slots), mid, position, s.ent, z.focus.large, BLOCK_SIZE);
      var newVbn, src := NewTail(mid, ie, lk);
      ghost var m, s1 := blocks, Stored();
      SetIbDirty(multiset{newVbn} + Foot(lk));
      DirtyForSplit(m, blocks, z0, z, position, ie, lk, newVbn);
      AfterDirty(newVbn, lk);
      ghost var now, s2 := cacheStack, Stored();
      vbn := cacheStack[depth];
      newIe := DumpIeAddVbn(src.entries[mid], vbn);
      ghost var m1, z1 := blocks, z;
      CutHead(src, mid, ie, lk, newVbn);
      ghost var m2 := blocks;
      left := Promote(m1, z0, mid, ie, lk, newIe, newVbn);
      CowSplit(old(Stored()), s1, old(cacheStack), now, s2, newVbn, vbn, z1.path.f.node.vbn, m2, Stored());
    }

    /** Back to the parent, where the middle entry is pending now. */
    method Promote(ghost m: Heap, ghost z0: Zip, ghost mid: nat, ghost ie: IndexEntry, ghost lk: Node,
                   ghost newIe: IndexEntry, newVbn: Vbn)
      returns (ghost left: Node)
      requires Stacked() && z.path.Up? && z.focus.Node? && 0 <= position < |z.focus.slots| && mid < |z.focus.slots| - 1
      requires var s := Slot(Strip(ie), lk);
               && HalfWrites(m, blocks, z, mid, position, s, newVbn)
               && PathOk(blocks, z.path, z.h, LeftHalf(z.focus, mid, position, s))
      requires z.path.f.node.Node? && z.path.f.node.vbn != z.focus.vbn && z.h >= 1
      requires ZipOk(m, z) && FullZip(z) && DirtyZip(z) && z.focus.dirty && PendOk(m, ie, lk, z.h)
      requires Owned(Used(z) + (multiset{newVbn} + Foot(lk)), free, all)
      requires EntryOk(newIe, true) && !newIe.isEnd && z.focus.slots[mid].ent.Ent? && Strip(ie).Ent?
      requires Strip(newIe) == z.focus.slots[mid].ent.(vbn := z.focus.vbn)
      requires Redirtied(z0, z) && Promotes(z.focus, mid)
      requires ViewSize(Ents(z.focus.slots), z.focus.large) + ie.len > z.focus.alloc
      modifies `blocks, `depth, `cacheStack, `positionStack, `position, `z
      ensures Stacked() && Inserting(blocks, z, position, newIe, left, free, all)
      ensures WithPending(z, position, Slot(Strip(newIe), left)) == old(WithPending(z, position, Slot(Strip(ie), lk)))
      ensures Depth(z.path) + 1 == old(Depth(z.path)) && z.h == old(z.h) + 1
      ensures RootSlots(z.path, z.focus) == old(RootSlots(z.path.above, z.path.f.node))
      ensures Passed(z0, old(position), lk, z, position, left)
      ensures Overflows(z.path, z.focus, newIe.len) <==> Overflows(z0.path, z0.focus, ie.len)
      ensures var par := old(z.path.f.node.vbn);
              && par in old(blocks) && old(blocks)[par].dirty && par in blocks && blocks[par].dirty
              && blocks == old(blocks)[par := blocks[par]]
    {
      hide ZipOk, Good, PathOk, FullZip, DirtyZip, DirtyPath, Owned, Used, Foot, FootS, Inserting, PendOk,
        WithPending, Redirtied, Chained, View, Ents, LeftHalf, RightHalf, SplitZip, IsMiddle, ViewSize, Holds,
        RootSlots, Passed, Overflows, Positions, RePath, EndLast, LeftOf, GoodSlot, GoodSlots;
      ghost var m2, z1, p, s := blocks, z, position, Slot(Strip(ie), lk);
      left := LeftHalf(z1.focus, mid, p, s);
      ghost var right := RightHalf(z1.focus, mid, p, s, newVbn);
      HalfNodes(z1.focus, mid, p, s, newVbn);
      ParentDirtied(m2, z0, z1, z1.h, left);
      LinkRight(right, left, newVbn);
      SplitDone(m, m2, blocks, z1, mid, p, ie, lk, newIe, newVbn, free, all);
      SplitCourse(z0, z1, right, left, mid, p, s, newVbn, ie.len);
    }

    /** Puts the entries after the middle one in a new block, the pending one among them if it belongs there. */
    method NewTail(mid: nat, ie: IndexEntry, ghost lk: Node) returns (newVbn: Vbn, src: IndexBlock)
      requires Stacked() && Inserting(blocks, z, position, ie, lk, free, all) && free != {}
      requires mid < |z.focus.slots| - 1
      modifies `blocks, `free
      ensures z.focus.vbn in old(blocks) && newVbn in old(free) && newVbn in blocks && free == old(free) - {newVbn}
      ensures blocks == old(blocks)[newVbn := blocks[newVbn]] && blocks[newVbn].dirty
      ensures var ib, was := blocks[newVbn].ib, old(blocks)[z.focus.vbn].ib;
              && Chained(ib) && ib.large == was.large && ib.allocSize == was.allocSize
              && View(ib) == RightView(View(was), mid, position, Strip(ie))
              && |src.entries| == |was.entries| && ChainedUpTo(src, mid) && View(src) == View(was)
              && src.large == was.large && src.allocSize == was.allocSize && src.entries[mid] == was.entries[mid]
      ensures ZipOk(blocks, z) && PendOk(blocks, ie, lk, z.h) && newVbn != 0 && newVbn != z.focus.vbn
      ensures Owned(Used(z) + (multiset{newVbn} + Foot(lk)), free, all) && |free| == old(|free|) - 1
    {
      hide ZipOk, PendOk, Owned, Used, Foot, Inserting, Chained, ChainedUpTo, View, RightView;
      SplitReady(ie, lk);
      newVbn := AllocBlock();
      var newIb;
      newIb, src := TailBlock(blocks[cacheStack[depth]].ib, mid, ie, position);
      NewBlock(blocks, z, position, ie, lk, newVbn, Cached(newIb, true), old(free), all);
      blocks := blocks[newVbn := Cached(newIb, true)];
    }

    /** Leaves the entries before the middle one in the block in focus, with the pending one if it belongs there. */
    method CutHead(src: IndexBlock, mid: nat, ie: IndexEntry, ghost lk: Node, newVbn: Vbn)
      requires ZipOk(blocks, z) && Stacked() && z.focus.dirty && newVbn in blocks && blocks[newVbn].dirty
      requires z.focus.vbn in blocks && blocks[z.focus.vbn].dirty && newVbn != z.focus.vbn
      requires 0 < mid < |z.focus.slots| - 2 && 0 <= position < |z.focus.slots|
      requires |src.entries| == |z.focus.slots| && ChainedUpTo(src, mid) && View(src) == Ents(z.focus.slots)
      requires src.large == z.focus.large && src.allocSize == z.focus.alloc == BLOCK_SIZE
      requires EntryOk(ie, src.large) && !ie.isEnd && PendOk(blocks, ie, lk, z.h)
      requires var r := blocks[newVbn].ib;
               && Chained(r) && r.large == z.focus.large && r.allocSize == z.focus.alloc
               && View(r) == RightView(Ents(z.focus.slots), mid, position, Strip(ie))
      requires var es, large := Ents(z.focus.slots), z.focus.large;
               && ViewSize(LeftView(es, mid, position, Strip(ie)), large) <= BLOCK_SIZE
               && ViewSize(RightView(es, mid, position, Strip(ie)), large) <= BLOCK_SIZE
      requires Owned(Used(z) + (multiset{newVbn} + Foot(lk)), free, all)
      modifies `blocks
      ensures var s := Slot(Strip(ie), lk);
              && HalfWrites(old(blocks), blocks, z, mid, position, s, newVbn)
              && PathOk(blocks, z.path, z.h, LeftHalf(z.focus, mid, position, s))
      ensures z.path.Up? ==> z.path.f.node.Node? && z.path.f.node.vbn != z.focus.vbn
      ensures z.focus.vbn in blocks && blocks[z.focus.vbn].dirty
      ensures blocks == old(blocks)[z.focus.vbn := blocks[z.focus.vbn]]
    {
      hide Good, PathOk, Owned, Used, Foot, Chained, ChainedUpTo, View, LeftView, RightView, LeftHalf, RightHalf,
        ViewSize, Holds, Ents;
      ghost var m := blocks;
      var vbn := cacheStack[depth];
      var cut := HeadBlock(src, mid, ie, position);
      blocks := blocks[vbn := blocks[vbn].(ib := cut)];
      WroteHalves(blocks, z.focus, mid, position, Slot(Strip(ie), lk), newVbn);
      SplitHalves(m, blocks, z, mid, position, Slot(Strip(ie), lk), newVbn, free, all);
    }

    lemma AfterDirty(newVbn: Vbn, lk: Node)
      requires ZipOk(blocks, z) && Stacked() && z.focus.dirty
      requires Owned(Used(z) + (multiset{newVbn} + Foot(lk)), free, all)
      ensures cacheStack[depth] == z.focus.vbn && z.focus.vbn in blocks && blocks[z.focus.vbn].dirty
      ensures z.focus.vbn != newVbn
    {
      FootNode(z.focus);
      Apart(FootP(z.path), z.focus.vbn, FootS(z.focus.slots), multiset{newVbn} + Foot(lk), free, all);
    }

    lemma SplitReady(ie: IndexEntry, lk: Node)
      requires Stacked() && Inserting(blocks, z, position, ie, lk, free, all)
      ensures cacheStack[depth] == z.focus.vbn && z.focus.vbn in blocks
      ensures var ib := blocks[z.focus.vbn].ib;
              && Chained(ib) && ib.large == z.focus.large == (z.h >= 2) && ib.allocSize == z.focus.alloc
              && View(ib) == Ents(z.focus.slots) && |ib.entries| == |z.focus.slots| == |View(ib)|
              && forall i :: 0 <= i < |ib.entries| ==>
                    EntryOk(ib.entries[i], ib.large) && Strip(ib.entries[i]) == View(ib)[i]
      ensures 0 <= position < |z.focus.slots| && EntryOk(ie, z.focus.large) && !ie.isEnd && z.h >= 1
      ensures FullZip(z) && DirtyZip(z) && PendOk(blocks, ie, lk, z.h) && DirtyPath(z.path, z.focus)
    {
    }

    /** Inserts the entry before the current one, splitting blocks and pushing the root down until it
        fits.  Without a split the cursor ends on the entry, otherwise on the last entry promoted. */
    method TreeInsertIe(newIe: IndexEntry, ghost lk: Node) returns (ret: Status, ghost split: bool)
      requires Stacked() && Inserting(blocks, z, position, newIe, lk, free, all) && |free| > Measure(z)
      requires RootSlots(z.path, z.focus) > 1 ==> z.h + Depth(z.path) <= maxDepth + 1
      modifies `blocks, `free, `given, `all, `rootVbn, `depth, `cacheStack, `positionStack, `position, `z
      ensures ret == Ok || ret == ErrReparent
      ensures ret == ErrReparent <==>
                old(Overflows(z.path, z.focus, newIe.len)) && maxDepth >= TREE_MAX_DEPTH - 1
      ensures Valid() && all <= old(all)
      ensures ret == Ok ==> all == old(all) && List() == old(WithPending(z, position, Slot(Strip(newIe), lk)))
      ensures Levels() <= old(Levels()) + 1
      ensures Roomy(old(WithPending(z, position, Slot(Strip(newIe), lk))), old(Levels())) ==>
                ret == Ok && Levels() == old(Levels())
      ensures |free| + old(Measure(z)) >= old(|free|) && (ret == Ok ==> 0 <= position < |z.focus.slots| - 1)
      ensures ret == Ok ==> (split <==> old(NeedsSplit(z, newIe.len)))
      ensures ret == Ok && !split ==>
                z.h == old(z.h) && Upto(z, position) == old(Lead(z, position)) + Flat(lk)
      ensures ret == Ok && split ==> z.h > old(z.h)
      ensures ret == Ok && split && |Flat(lk)| >= 1 && old(|Flat(z.focus.slots[position].kid)|) >= 1 ==>
                var k := old(PendRank(z, position, lk)); Rank(z, position) != k && Rank(z, position) + 1 != k
      ensures ret == ErrReparent ==> LosesRun(List(), old(WithPending(z, position, Slot(Strip(newIe), lk))))
      ensures CopyOnWrite(old(Stored()), Stored())
    {
      hide CopyOnWrite, Inserting, WithPending, Lead, Upto, RootSlots, LosesRun, ViewSize, Contents, FlatSlot, Sound,
        Passed, Here, Clear, PendRank, Rank, ZipOk, Good, View, Ents, Chained, SameBlock, Roomy, Overflows,
        NeedsSplit, Underway, Positions, PendOk, FullZip, Measure, Redirtied, Flat, TotalLen, Owned, Used, Foot,
        GoodSlot;
      PendingFacts(newIe, lk);
      ghost var g, w := Pending(z, position, newIe, lk), Pending(z, position, newIe, lk);
      ghost var deep := maxDepth >= TREE_MAX_DEPTH - 1;
      UnderwayStart(g, deep);
      var ie := newIe;
      ghost var left := lk;
      split := false;
      CowSame(Stored());
      while true
        invariant Stacked() && Inserting(blocks, z, position, ie, left, free, all) && all == old(all)
        invariant w == Pending(z, position, ie, left) && Underway(g, w, split, deep)
        invariant CopyOnWrite(old(Stored()), Stored())
        invariant |free| > Measure(z) && |free| + old(Measure(z)) >= old(|free|) + Measure(z)
        invariant RootSlots(z.path, z.focus) > 1 ==> z.h + Depth(z.path) <= maxDepth + 1
        decreases Measure(z)
      {
        PendingFacts(ie, left);
        var ib := blocks[cacheStack[depth]].ib;
        if ib.realSize + ie.len <= ib.allocSize {
          Settle(ie, left, g, split, deep, old(Stored()));
          return Ok, split;
        }
        ret, ie, left, split := Advance(ie, left, g, split, deep, old(Stored()));
        if ret != Ok {
          GiveUp(ie, left);
          return ErrReparent, split;
        }
        w := Pending(z, position, ie, left);
      }
    }

    /** The end of the insertion that began with `g` in a table stored as `s`: the pending entry fits. */
    method Settle(ie: IndexEntry, ghost lk: Node, ghost g: Pending, ghost split: bool, ghost deep: bool, ghost s: Store)
      requires Stacked() && Inserting(blocks, z, position, ie, lk, free, all) && free != {}
      requires blocks[z.focus.vbn].ib.realSize + ie.len <= blocks[z.focus.vbn].ib.allocSize
      requires Underway(g, Pending(z, position, ie, lk), split, deep) && Placeable(g) && CopyOnWrite(s, Stored())
      modifies `blocks, `free, `given, `rootVbn, `cacheStack, `z
      ensures Valid() && CopyOnWrite(s, Stored()) && |free| == old(|free|) && position < |z.focus.slots| - 1
      ensures List() == Aim(g) && (split <==> NeedsSplit(g.z, g.ie.len)) && (Overflowing(g) ==> !deep)
      ensures Levels() <= LevelsOf(g) + 1 && (Roomy(Aim(g), LevelsOf(g)) ==> Levels() == LevelsOf(g))
      ensures if split then z.h > g.z.h
              else position == g.p && z.h == g.z.h && Upto(z, position) == Lead(g.z, g.p) + Flat(g.lk)
      ensures split && |Flat(g.lk)| >= 1 && |Flat(g.z.focus.slots[g.p].kid)| >= 1 ==>
                var k := PendRank(g.z, g.p, g.lk); Rank(z, position) != k && Rank(z, position) + 1 != k
    {
      hide CopyOnWrite, Inserting, WithPending, Lead, Upto, RootSlots, ViewSize, Contents, FlatSlot, Sound, Passed,
        Here, Clear, PendRank, Rank, ZipOk, Good, View, Ents, Chained, SameBlock, Roomy, Overflows, NeedsSplit,
        Underway, Positions, PendOk, FullZip, Measure, Redirtied, Flat, TotalLen, Owned, Used, Foot, GoodSlot;
      PendingFacts(ie, lk);
      ghost var w, s1 := Pending(z, position, ie, lk), Stored();
      PlaceIe(ie, lk);
      CowOn(s, s1, Stored());
      PlacedReal();
      UnderwayPlaced(g, w, z, split, deep);
    }

    /** One step of the insertion that began with `g` in a table stored as `s`. */
    method Advance(ie: IndexEntry, ghost lk: Node, ghost g: Pending, ghost split: bool, ghost deep: bool,
                   ghost s: Store)
      returns (ret: Status, ie': IndexEntry, ghost left: Node, ghost split': bool)
      requires Stacked() && Inserting(blocks, z, position, ie, lk, free, all) && |free| > Measure(z)
      requires RootSlots(z.path, z.focus) > 1 ==> z.h + Depth(z.path) <= maxDepth + 1
      requires z.focus.vbn in blocks && blocks[z.focus.vbn].ib.realSize + ie.len > blocks[z.focus.vbn].ib.allocSize
      requires Underway(g, Pending(z, position, ie, lk), split, deep) && deep == (maxDepth >= TREE_MAX_DEPTH - 1)
      requires CopyOnWrite(s, Stored()) && Placeable(g)
      modifies `blocks, `free, `given, `rootVbn, `depth, `cacheStack, `positionStack, `position, `z
      ensures (ret == Ok || ret == ErrReparent) && Stacked() && CopyOnWrite(s, Stored())
      ensures Inserting(blocks, z, position, ie', left, free, all) && Placeable(Pending(z, position, ie', left))
      ensures ret == Ok ==>
                && Underway(g, Pending(z, position, ie', left), split', deep)
                && |free| > Measure(z) && |free| + old(Measure(z)) >= old(|free|) + Measure(z)
                && Measure(z) < old(Measure(z))
                && (RootSlots(z.path, z.focus) > 1 ==> z.h + Depth(z.path) <= maxDepth + 1)
      ensures ret != Ok ==>
                && deep && Overflowing(g) && z == old(z) && free == old(free) && Levels() == LevelsOf(g)
                && !Roomy(Aim(g), LevelsOf(g)) && LosesRun(List(), Aim(g))
    {
      hide CopyOnWrite, Inserting, WithPending, Lead, Upto, RootSlots, LosesRun, ViewSize, Contents, FlatSlot, Sound,
        Passed, Here, Clear, PendRank, Rank, ZipOk, Good, View, Ents, Chained, SameBlock, Roomy, Overflows,
        NeedsSplit, Underway, Positions, PendOk, FullZip, Redirtied, Flat, TotalLen, Owned, Used, Foot, GoodSlot;
      PendingFacts(ie, lk);
      ghost var w, s1 := Pending(z, position, ie, lk), Stored();
      ghost var rose;
      ret, ie', left, rose := MakeRoom(ie, lk);
      CowOn(s, s1, Stored());
      PendingFacts(ie', left);
      split' := split;
      if ret != Ok {
        UnderwayRefused(g, w, split, deep);
      } else if rose {
        UnderwaySplit(g, w, Pending(z, position, ie', left), split, deep);
        split' := true;
      } else {
        UnderwayPushed(g, w, Pending(z, position, ie', left), split, deep);
      }
    }

    /** What is known of a pending entry, and of the size test. */
    lemma PendingFacts(ie: IndexEntry, lk: Node)
      requires Stacked() && Inserting(blocks, z, position, ie, lk, free, all)
      ensures Placeable(Pending(z, position, ie, lk)) && Strip(ie).Ent?
      ensures cacheStack[depth] == z.focus.vbn && z.focus.vbn in blocks
      ensures var ib := blocks[z.focus.vbn].ib;
              ib.realSize + ie.len <= ib.allocSize ==>
                !NeedsSplit(z, ie.len) && !Overflows(z.path, z.focus, ie.len)
    {
      SizeTest(blocks, z, position, ie, lk, free, all);
    }

    /** The pending entry is dropped.  The blocks of its subtree are no longer the table's. */
    ghost method GiveUp(ie: IndexEntry, left: Node)
      requires Stacked() && Inserting(blocks, z, position, ie, left, free, all)
      modifies `all
      ensures Valid() && all == old(all) - Numbers(left)
    {
      Abandoned(blocks, z, position, ie, left, free, all);
      all := all - Numbers(left);
    }

    /** Pushes the root down, if it is the block in focus, or else splits the block in focus. */
    method MakeRoom(ie: IndexEntry, ghost lk: Node)
      returns (ret: Status, ie': IndexEntry, ghost left: Node, ghost rose: bool)
      requires Stacked() && Inserting(blocks, z, position, ie, lk, free, all) && |free| > Measure(z)
      requires RootSlots(z.path, z.focus) > 1 ==> z.h + Depth(z.path) <= maxDepth + 1
      requires z.focus.vbn in blocks && blocks[z.focus.vbn].ib.realSize + ie.len > blocks[z.focus.vbn].ib.allocSize
      modifies `blocks, `free, `given, `rootVbn, `depth, `cacheStack, `positionStack, `position, `z
      ensures ret == Ok || ret == ErrReparent
      ensures ret == ErrReparent ==>
                maxDepth >= TREE_MAX_DEPTH - 1
                    && old(Overflows(z.path, z.focus, ie.len) && RootSlots(z.path, z.focus) > 1)
      ensures ret == Ok && rose ==> (Overflows(z.path, z.focus, ie'.len) <==> old(Overflows(z.path, z.focus, ie.len)))
      ensures ret == Ok && !rose ==> maxDepth < TREE_MAX_DEPTH - 1 && old(Overflows(z.path, z.focus, ie.len))
      ensures ret == Ok ==>
                && Stacked() && Inserting(blocks, z, position, ie', left, free, all)
                && WithPending(z, position, Slot(Strip(ie'), left))
                      == old(WithPending(z, position, Slot(Strip(ie), lk)))
                && Measure(z) < old(Measure(z)) && |free| + old(Measure(z)) >= old(|free|) + Measure(z)
                && (RootSlots(z.path, z.focus) > 1 ==> z.h + Depth(z.path) <= maxDepth + 1)
      ensures ret == Ok && rose ==> z.h == old(z.h) + 1 && old(NeedsSplit(z, ie.len))
      ensures ret == Ok && rose ==>
                Levels() == old(Levels()) && RootSlots(z.path, z.focus) == old(RootSlots(z.path, z.focus))
      ensures ret == Ok && !rose ==>
                Levels() == old(Levels()) + 1 && RootSlots(z.path, z.focus) == 1 < old(RootSlots(z.path, z.focus))
      ensures Roomy(old(WithPending(z, position, Slot(Strip(ie), lk))), old(Levels())) ==> ret == Ok && rose
      ensures ret != Ok ==>
                && Stacked() && Inserting(blocks, z, position, ie, lk, free, all) && ie' == ie && left == lk
                && z == old(z) && position == old(position) && free == old(free)
      ensures ret == Ok && rose ==> Passed(old(z), old(position), lk, z, position, left)
      ensures ret == Ok && !rose ==>
                ie' == ie && left == lk && position == old(position) && SameBlock(old(z), z, position)
      ensures ret == ErrReparent ==> LosesRun(List(), old(WithPending(z, position, Slot(Strip(ie), lk))))
      ensures CopyOnWrite(old(Stored()), Stored())
    {
      hide CopyOnWrite, Inserting, WithPending, Lead, RootSlots, LosesRun, ViewSize, Contents, FlatSlot, Passed,
        ZipOk, Good, View, Ents, Chained, SameBlock, Roomy, Overflows;
      SizeTest(blocks, z, position, ie, lk, free, all);
      SplitReady(ie, lk);
      ie', left, rose := ie, lk, depth > 0;
      CowSame(Stored());
      if depth == 0 {
        RootOverflows(ie, lk);
        RootCrowded(blocks, z, position, ie, lk, free, all);
        ret := ReparentRoot(ie, lk);
        if ret != Ok {
          CarriedRun(z, position, Slot(Strip(ie), lk));
        }
      } else {
        ie', left := SplitIb(ie, lk);
        ret := Ok;
      }
    }

    lemma RootOverflows(ie: IndexEntry, lk: Node)
      requires Stacked() && Inserting(blocks, z, position, ie, lk, free, all) && z.path.Top?
      requires z.focus.vbn in blocks && blocks[z.focus.vbn].ib.realSize + ie.len > blocks[z.focus.vbn].ib.allocSize
      ensures Overflows(z.path, z.focus, ie.len)
    {
    }

    lemma PlacedReal()
      requires Valid() && 0 <= position && z.focus.slots[position].ent.Ent?
      ensures position < |z.focus.slots| - 1
    {
      hide ZipOk, Owned, Used, FullZip, DirtyZip, Positions, Sound, Stacked;
      LeafFacts();
    }

    // ----- removal -----

    lemma OpenFacts(p: int)
      requires Stacked() && Open(blocks, z, p, free, all)
      ensures cacheStack[depth] == z.focus.vbn && z.focus.vbn in blocks && z.h >= 1
      ensures var ib := blocks[z.focus.vbn].ib;
              && Chained(ib) && ib.large == z.focus.large == (z.h >= 2)
              && |ib.entries| == |z.focus.slots| == |View(ib)|
              && forall i :: 0 <= i < |ib.entries| ==>
                   EntryOk(ib.entries[i], ib.large) && Strip(ib.entries[i]) == View(ib)[i] == z.focus.slots[i].ent
      ensures EndLast(Ents(z.focus.slots))
    {
    }

    /** Removes entry `p` of the block in focus and makes the path dirty.  The subtree left of the
        entry, if there is one, is set aside. */
    method TakeOut(p: nat)
      requires Stacked() && Open(blocks, z, p, free, all) && p < |z.focus.slots| - 1 && free != {}
      modifies `blocks, `free, `given, `rootVbn, `cacheStack, `z
      ensures Stacked() && Loose(blocks, z, Foot(old(z).focus.slots[p].kid), free, all)
      ensures |free| == old(|free|) && Agree(old(blocks), blocks, Foot(old(z).focus.slots[p].kid))
      ensures z.focus.Node? && z.focus.slots == Out(old(z).focus.slots, p) && z.h == old(z.h) && z.focus.dirty
      ensures z.focus.large == old(z.focus.large) && Depth(z.path) == old(Depth(z.path))
      ensures Contents(z) == old(Lead(z, p) + Tail(z, p + 1))
      ensures Lead(z, p) == old(Lead(z, p)) && Tail(z, p) == old(Tail(z, p + 1))
      ensures z.path.Up? <==> old(z).path.Up?
      ensures CopyOnWrite(old(Stored()), Stored())
    {
      hide CopyOnWrite, PathCopied, Open, Loose, Out, WithSlots, Foot, FootS, Redirtied, Contents, Lead, Tail,
        Chained, View, Ents, EndLast, EntryOk;
      OpenFacts(p);
      ghost var m, zi, ss := blocks, z, z.focus.slots;
      var vbn := cacheStack[depth];
      var ib := RemoveIe(blocks[vbn].ib, p);
      blocks := blocks[vbn := blocks[vbn].(ib := ib)];
      TakenOut(m, blocks, z, p, free, all);
      ghost var m1, zo, held := blocks, WithSlots(z, Out(ss, p)), Foot(ss[p].kid);
      OutFacts(zi, p);
      z := zo;
      LooseFacts(blocks, z, held, free, all);
      ghost var f1 := free;
      SetIbDirty(held);
      CowPath(old(Stored()), Cached(ib, m[vbn].dirty), old(cacheStack), depth, cacheStack, Stored());
      RedirtiedLoose(m1, blocks, zo, z, held, f1, free, all);
      SamePlaces(zo, z, p);
    }

    /** Frees the blocks that a removal left without entries, from the leaf in focus upwards.  Answers
        whether a block above has lost its child so; an emptied root is a leaf again. */
    method CheckRemovedIb() returns (orphan: bool)
      requires Stacked() && Loose(blocks, z, multiset{}, free, all) && z.h == 1 && free != {}
      requires 0 <= position < |z.focus.slots|
      modifies `blocks, `free, `given, `rootVbn, `depth, `cacheStack, `positionStack, `position, `z
      ensures Stacked() && List() == old(List()) && |free| >= old(|free|)
      ensures Levels() <= old(Levels()) && (orphan ==> Levels() == old(Levels()))
      ensures !orphan ==> Valid()
      ensures orphan ==> Hollow(blocks, z, position, free, all) && |z.focus.slots| >= 2
      ensures CopyOnWrite(old(Stored()), Stored())
    {
      hide CopyOnWrite, Loose, Hollow, Emptied, Contents, Sound, Redirtied, FootS, FlatS, ZipOk, GoodSlots, Chained,
        GoodSlot, Good, DirtyZip;
      LooseFacts(blocks, z, multiset{}, free, all);
      LooseHere();
      CowSame(Stored());
      LooseSound(blocks, z, free, all);
      var first := blocks[cacheStack[depth]].ib.entries[0];
      if !first.isEnd {
        return false;
      }
      if depth == 0 {
        return false;
      }
      LooseEmptied(blocks, z, free, all);
      while true
        invariant Stacked() && Emptied(blocks, z, free, all) && List() == old(List())
        invariant CopyOnWrite(old(Stored()), Stored())
        invariant depth > 0 && |free| >= old(|free|) && Levels() == old(Levels())
        decreases depth
      {
        ghost var s := Stored();
        DropBlock();
        CowOn(old(Stored()), s, Stored());
        HollowHere();
        first := blocks[cacheStack[depth]].ib.entries[0];
        if !first.isEnd {
          return true;
        }
        if depth == 0 {
          s := Stored();
          ShrinkRoot();
          CowOn(old(Stored()), s, Stored());
          return false;
        }
        HollowEmptied(blocks, z, free, all);
      }
    }

    /** Frees the block in focus, which has no entries, and goes back to its parent. */
    method DropBlock()
      requires Stacked() && Emptied(blocks, z, free, all) && depth > 0
      modifies `blocks, `free, `given, `depth, `cacheStack, `positionStack, `position, `z
      ensures Stacked() && Hollow(blocks, z, position, free, all) && List() == old(List())
      ensures |free| >= old(|free|) && Levels() == old(Levels()) && CopyOnWrite(old(Stored()), Stored())
      ensures depth == old(depth) - 1 && blocks == old(blocks) - old({z.focus.vbn})
      ensures free == old(free) + old({z.focus.vbn})
    {
      hide CopyOnWrite, Hollow, Emptied, Contents;
      Freed(blocks, z, free, all);
      ghost var zo := z;
      var vbn := cacheStack[depth];
      FreeBlock(vbn);
      blocks := blocks - {vbn};
      CowFree(old(Stored()), vbn);
      PopLevel();
      z := z.(focus := zo.path.f.node);
    }

    /** The root has lost its last entry and child: it becomes a leaf. */
    method ShrinkRoot()
      requires Stacked() && Hollow(blocks, z, position, free, all) && position == 0 && depth == 0
      requires |z.focus.slots| == 1 && free != {}
      modifies `blocks, `free, `given, `rootVbn, `cacheStack, `z
      ensures Valid() && List() == old(List()) && |free| == old(|free|) && Levels() == 1
      ensures CopyOnWrite(old(Stored()), Stored())
    {
      hide CopyOnWrite, PathCopied, Loose, Hollow, Contents, Sound, Redirtied, Chained, View;
      HollowHere();
      ghost var m := blocks;
      var vbn := cacheStack[depth];
      var ib := MakeIbSmall(blocks[vbn].ib);
      blocks := blocks[vbn := blocks[vbn].(ib := ib)];
      MadeSmall(m, blocks, z, free, all);
      ghost var m1, zo, f1 := blocks, Zip(Top, z.focus.(large := false, slots := [Slot(End(0), Nil)]), 1), free;
      z := zo;
      LooseFacts(blocks, z, multiset{}, free, all);
      SetIbDirty(multiset{});
      CowPath(old(Stored()), Cached(ib, m[vbn].dirty), old(cacheStack), depth, cacheStack, Stored());
      RedirtiedLoose(m1, blocks, zo, z, multiset{}, f1, free, all);
      LooseSound(blocks, z, free, all);
    }

    lemma LooseHere()
      requires Stacked() && Loose(blocks, z, multiset{}, free, all)
      ensures cacheStack[depth] == z.focus.vbn && z.focus.vbn in blocks
      ensures var ib := blocks[z.focus.vbn].ib;
              |ib.entries| == |z.focus.slots| >= 1 && (ib.entries[0].isEnd <==> |z.focus.slots| == 1)
      ensures depth > 0 <==> z.path.Up?
    {
      var ib := blocks[z.focus.vbn].ib;
      assert View(ib)[0] == Strip(ib.entries[0]);
    }

    lemma HollowHere()
      requires Stacked() && Hollow(blocks, z, position, free, all)
      ensures cacheStack[depth] == z.focus.vbn && z.focus.vbn in blocks && Chained(blocks[z.focus.vbn].ib)
      ensures var ib := blocks[z.focus.vbn].ib;
              |ib.entries| == |z.focus.slots| >= 1 && (ib.entries[0].isEnd <==> |z.focus.slots| == 1)
      ensures depth > 0 <==> z.path.Up?
      ensures 0 <= position < |z.focus.slots| && z.h >= 2
    {
      var ib := blocks[z.focus.vbn].ib;
      assert View(ib)[0] == Strip(ib.entries[0]);
    }

    /** Takes the entry that separated the lost child from its neighbour out of the parent.  `u` is
        what precedes it in the list. */
    method TakeSeparator() returns (ie: IndexEntry, isEnd: bool, ghost u: seq<KV>)
      requires Stacked() && Hollow(blocks, z, position, free, all) && |z.focus.slots| >= 2 && free != {}
      modifies `blocks, `free, `given, `rootVbn, `cacheStack, `position, `z
      ensures Valid() && position >= 0 && z.h == old(z.h) >= 2 && |free| == old(|free|) && Levels() == old(Levels())
      ensures EntryOk(ie, false) && !ie.isEnd && EntOk(Strip(ie))
      ensures isEnd ==> position == |z.focus.slots| - 1
      ensures u == if isEnd then Upto(z, position) else Lead(z, position)
      ensures |u| <= |List()| && old(List()) == u + [KV(ie.key, ie.value)] + List()[|u|..]
      ensures CopyOnWrite(old(Stored()), Stored())
    {
      hide CopyOnWrite, Loose, Hollow, Contents, Sound, Lead, Tail, Upto, Chained, View, Open, Foot, Out, PathOk,
        GoodFrame, Ents;
      HollowHere();
      HollowOthers(blocks, z, position, free, all);
      OpenFacts(position);
      ghost var z0 := z;
      var ents := blocks[cacheStack[depth]].ib.entries;
      isEnd := ents[position].isEnd;
      var sep := if isEnd then position - 1 else position;
      SepFacts(ents, sep);
      ie := DumpIeDelVbn(ents[sep]);
      if isEnd {
        CloseEnd(sep);
        position := sep;
        u := Upto(z, position);
        ClosedSplit(z0, z, u);
      } else {
        TakeOut(sep);
        OutLength(z, z0, sep);
        NilFoot();
        u := Lead(z, position);
        OutSplit(z0, z, position, u);
      }
      LooseSound(blocks, z, free, all);
    }

    lemma SepFacts(ents: seq<IndexEntry>, sep: int)
      requires Stacked() && Hollow(blocks, z, position, free, all) && |z.focus.slots| >= 2
      requires z.focus.vbn in blocks && ents == blocks[z.focus.vbn].ib.entries
      requires position < |ents| && sep == if ents[position].isEnd then position - 1 else position
      ensures 0 <= sep < |z.focus.slots| - 1 && sep < |ents| && EntryOk(ents[sep], true) && !ents[sep].isEnd
      ensures Strip(ents[sep]) == z.focus.slots[sep].ent && EntOk(Strip(ents[sep]))
      ensures ents[position].isEnd <==> position == |z.focus.slots| - 1
    {
      HollowOthers(blocks, z, position, free, all);
      OpenFacts(position);
      assert Ents(z.focus.slots)[sep] == z.focus.slots[sep].ent;
      assert Ents(z.focus.slots)[position] == z.focus.slots[position].ent;
    }

    /** END has lost its child: it takes over the child of the entry before it, which goes. */
    method CloseEnd(prev: nat)
      requires Stacked() && Hollow(blocks, z, position, free, all) && free != {}
      requires position == |z.focus.slots| - 1 && prev == position - 1
      modifies `blocks, `free, `given, `rootVbn, `cacheStack, `z
      ensures Stacked() && Loose(blocks, z, multiset{}, free, all) && z.h == old(z.h) && |free| == old(|free|)
      ensures ClosedAt(old(z), z)
      ensures CopyOnWrite(old(Stored()), Stored())
    {
      hide CopyOnWrite, PathCopied, Loose, Hollow, Chained, Redirtied, ClosedAt, Base, WithSlots, Open, ZipOk,
        GoodSlot, Used, FullPath, DirtyPath, Agree, Strips, Ents, PathOk;
      HollowOthers(blocks, z, position, free, all);
      OpenFacts(position);
      ghost var m, z0 := blocks, z;
      var vbn := cacheStack[depth];
      var ib := SetIeVbn(blocks[vbn].ib, position, blocks[vbn].ib.entries[prev].vbn);
      CloseView(View(blocks[vbn].ib), blocks[vbn].ib.entries[prev].vbn);
      SetLength(View(blocks[vbn].ib), View(ib), |ib.entries|);
      ib := RemoveIe(ib, prev);
      blocks := blocks[vbn := blocks[vbn].(ib := ib)];
      Closing(m, blocks, z, free, all);
      ghost var m1, zo, f1 := blocks, WithSlots(z, Base(z.focus.slots, prev)), free;
      WithFacts(z, Base(z.focus.slots, prev));
      z := zo;
      LooseFacts(blocks, z, multiset{}, free, all);
      SetIbDirty(multiset{});
      CowPath(old(Stored()), Cached(ib, m[vbn].dirty), old(cacheStack), depth, cacheStack, Stored());
      RedirtiedLoose(m1, blocks, zo, z, multiset{}, f1, free, all);
      ClosedDirty(z0, zo, z);
    }

    /** Removes the current entry of a leaf. */
    method RemoveLeaf() returns (ret: Status)
      requires Valid() && z.h == 1 && 0 <= position < |z.focus.slots| - 1 && |free| >= TREE_MAX_DEPTH + 2
      modifies `blocks, `free, `given, `all, `rootVbn, `maxDepth, `depth, `cacheStack, `positionStack, `position, `z
      ensures ret == Ok || (ret == ErrReparent && old(Levels()) >= TREE_MAX_DEPTH)
      ensures Valid() && all <= old(all) && (ret == Ok ==> all == old(all))
      ensures ret == Ok ==> List() == old(Lead(z, position) + Tail(z, position + 1))
      ensures |free| + TREE_MAX_DEPTH + 2 >= old(|free|)
      ensures Levels() <= old(Levels()) + 1 && (maxDepth == old(maxDepth) || maxDepth < old(Levels()))
      ensures Roomy(old(Lead(z, position) + Tail(z, position + 1)), 2) ==> ret == Ok && Levels() <= old(Levels())
      ensures old(Levels()) == 1 ==> ret == Ok && Levels() == 1
      ensures ret != Ok ==> LosesRun(List(), old(Lead(z, position) + Tail(z, position + 1)))
      ensures CopyOnWrite(old(Stored()), Stored())
    {
      hide CopyOnWrite, Sound, Contents, Lead, Tail, Upto, Loose, Hollow, Open, Out, Foot, Measure, Inserting,
        LosesRun, RootSlots, Roomy;
      SoundOthers(blocks, z, position, free, all);
      Current();
      TakeOut(position);
      ghost var target := List();
      OutLength(z, old(z), position);
      NilFoot();
      ghost var s := Stored();
      var orphan := CheckRemovedIb();
      CowOn(old(Stored()), s, Stored());
      if !orphan {
        LeafFacts();
        return Ok;
      }
      s := Stored();
      ret := Reinsert();
      CowOn(old(Stored()), s, Stored());
    }

    /** Takes the separator whose child is gone out, and inserts it again in the leaf beside it. */
    method Reinsert() returns (ret: Status)
      requires Stacked() && Hollow(blocks, z, position, free, all) && |z.focus.slots| >= 2
      requires |free| >= TREE_MAX_DEPTH + 2
      modifies `blocks, `free, `given, `all, `rootVbn, `maxDepth, `depth, `cacheStack, `positionStack, `position, `z
      ensures ret == Ok || (ret == ErrReparent && old(Levels()) >= TREE_MAX_DEPTH)
      ensures Valid() && all <= old(all) && (ret == Ok ==> all == old(all))
      ensures if ret == Ok then List() == old(List()) else LosesRun(List(), old(List()))
      ensures |free| + TREE_MAX_DEPTH + 2 >= old(|free|)
      ensures Levels() <= old(Levels()) + 1 && maxDepth < old(Levels()) && old(Levels()) >= 2
      ensures Roomy(old(List()), 2) ==> ret == Ok && Levels() == old(Levels())
      ensures CopyOnWrite(old(Stored()), Stored())
    {
      hide CopyOnWrite, Sound, Contents, Lead, Tail, Upto, Loose, Hollow, Foot, Measure, Inserting, LosesRun,
        RootSlots, Roomy, View, Ents, ZipOk, DirtyZip, Overflows, Rank;
      var ie, isEnd;
      ghost var u;
      ie, isEnd, u := TakeSeparator();
      var _ := GetCurrentIe(isEnd, isEnd);
      LeafFacts();
      LeafLead();
      LeafPend(blocks, z, position, ie, free, all);
      LeafPending(z, position, Strip(ie), u);
      MeasureBound(blocks, z);
      RoomyLevels(List(), Levels());
      ghost var split, s := false, Stored();
      ghost var target := WithPending(z, position, Slot(Strip(ie), Nil));
      RoomyLevels(target, Levels());
      ret, split := TreeInsertIe(ie, Nil);
      CowOn(old(Stored()), s, Stored());
    }

    /** Walks to the successor of the current entry of an inner block, makes the entry that is to
        replace it, with its child link, and comes back. */
    method Replacement() returns (succIe: IndexEntry)
      requires Valid() && z.h >= 2 && 0 <= position < |z.focus.slots| - 1
      modifies `maxDepth, `depth, `cacheStack, `positionStack, `position, `z
      ensures Valid() && z == old(z) && position == old(position) && z.h + Depth(z.path) == maxDepth + 1
      ensures EntryOk(succIe, true) && !succIe.isEnd && EntOk(Strip(succIe))
      ensures succIe.vbn == z.focus.slots[position].ent.vbn
      ensures Rank(z, position) + 1 < |List()|
      ensures List()[Rank(z, position) + 1] == KV(succIe.key, succIe.value)
    {
      hide Sound, Contents, Rank, Following, AtEntry, UpTo, UpPos, Owned, Used, DirtyPath, EntryOk;
      ghost var z0, p := z, position;
      Current();
      var d := depth;
      var ie := CurrentIe();
      var vbn := ie.vbn;
      var ret := WalkTree(GetNext);
      ie := CurrentIe();
      CurrentOk();
      succIe := DumpIeAddVbn(ie, vbn);
      SuccFacts(z0, p, z, position);
      while depth > d
        invariant Valid() && List() == old(List()) && depth >= d && 0 <= position
        invariant UpTo(z, z0.h) == z0 && UpPos(z, position, z0.h) == p + 1
        invariant z.h + Depth(z.path) == z0.h + d && maxDepth + 1 == z0.h + d
        decreases depth
      {
        PopSound(blocks, z, free, all);
        UpStep(z, position, z0.h);
        ret := PopCacheStack(false);
      }
      AtHeight(z, position);
      position := position - 1;
    }

    /** Removes the entry after the current one, which is in a leaf. */
    method RemoveNext() returns (ret: Status, ghost j: nat)
      requires Valid() && z.h >= 2 && 0 <= position < |z.focus.slots| - 1 && |free| >= TREE_MAX_DEPTH + 2
      modifies `blocks, `free, `given, `all, `rootVbn, `maxDepth, `depth, `cacheStack, `positionStack, `position, `z
      ensures ret == Ok || (ret == ErrReparent && old(Levels()) >= TREE_MAX_DEPTH)
      ensures j == old(Rank(z, position)) + 1 < |old(List())|
      ensures Valid() && all <= old(all) && (ret == Ok ==> all == old(all))
      ensures |free| + TREE_MAX_DEPTH + 2 >= old(|free|) && (ret == Ok ==> List() == Without(old(List()), j))
      ensures Levels() <= old(Levels()) + 1 && (maxDepth == old(maxDepth) || maxDepth < old(Levels()))
      ensures Roomy(Without(old(List()), j), 2) ==> ret == Ok && Levels() <= old(Levels())
      ensures ret != Ok ==> LosesRun(List(), Without(old(List()), j))
      ensures CopyOnWrite(old(Stored()), Stored())
    {
      hide CopyOnWrite, Sound, Contents, Rank, Following, AtEntry, Without, UpTo, UpPos, Lead, Tail, LosesRun;
      j := Rank(z, position) + 1;
      FollowingHere(z, position);
      ret := WalkTree(GetNext);
      LeafFacts();
      LeafWithout();
      ret := RemoveLeaf();
    }

    /** Replaces the current entry of an inner block by its successor, and removes the successor's old
        copy from its leaf.  Inserting the replacement may split the block; the walk to the next entry
        then starts from the entry promoted last, and removes another entry than the old copy. */
    method RemoveNode() returns (ret: Status, ghost split: bool, ghost j: nat)
      requires Valid() && z.h >= 2 && 0 <= position < |z.focus.slots| - 1 && |free| >= 2 * (TREE_MAX_DEPTH + 2)
      modifies `blocks, `free, `given, `all, `rootVbn, `maxDepth, `depth, `cacheStack, `positionStack, `position, `z
      ensures ret == Ok || (ret == ErrReparent && old(Levels()) >= TREE_MAX_DEPTH - 1)
      ensures Valid() && all <= old(all) && (ret == Ok ==> all == old(all))
      ensures ret == Ok ==> (split <==> old(ReplacementSplits(z, position)))
      ensures Levels() <= old(Levels()) + 2 && (maxDepth <= old(maxDepth) || maxDepth <= old(Levels()))
      ensures Roomy(old(List()), 2) ==>
                ret == Ok && Levels() <= old(Levels()) && (maxDepth <= old(maxDepth) || maxDepth < old(Levels()))
      ensures |free| + 2 * (TREE_MAX_DEPTH + 2) >= old(|free|)
      ensures ret == Ok ==>
                var l, r := old(List()), old(Rank(z, position));
                && r + 1 < |l| && j < |l| && List() == Without(Doubled(l, r), j)
                && if split then j != r && j != r + 1 else j == r + 1
      ensures ret != Ok ==>
                var l, r := old(List()), old(Rank(z, position));
                && r + 1 < |l| && j < |l|
                && (LosesRun(List(), Doubled(l, r)) || LosesRun(List(), Without(Doubled(l, r), j)))
      ensures CopyOnWrite(old(Stored()), Stored())
    {
      hide CopyOnWrite, Sound, Contents, Lead, Tail, Upto, Rank, Loose, Open, Foot, Inserting, Measure, RootSlots,
        LosesRun, NeedsSplit, ReplacementSplits, WithPending, PendRank, Without, Doubled, Out, Agree, ZipOk, GoodSlot,
        Roomy, Owned, Used, Ents, Good, View;
      var succIe := Replacement();
      SoundOthers(blocks, z, position, free, all);
      KidFlat(blocks, z, position, free, all);
      KidFlat(blocks, z, position + 1, free, all);
      Current();
      ghost var m, f, z0, lk := blocks, free, z, z.focus.slots[position].kid;
      ghost var p := position;
      TakeOut(position);
      OutLength(z, z0, p);
      NodePend(m, blocks, z0, z, position, succIe, f, free, all);
      MeasureBound(blocks, z);
      Replacing(z0, z, position, Strip(succIe), succIe.len);
      j := 0;
      RoomyEdits(Contents(z0), Rank(z0, p), Rank(z0, p) + 1);
      RoomyLevels(Doubled(Contents(z0), Rank(z0, p)), Levels());
      ghost var s := Stored();
      ret, split := TreeInsertIe(succIe, lk);
      CowOn(old(Stored()), s, Stored());
      if ret == Ok {
        RankIs(z, position, z0, p);
        s := Stored();
        ret, j := RemoveNext();
        CowOn(old(Stored()), s, Stored());
        RoomyEdits(Contents(z0), Rank(z0, p), j);
      }
    }

    /** The current entry is within the key and value limits. */
    lemma CurrentOk()
      requires Valid() && 0 <= position
      ensures EntOk(z.focus.slots[position].ent)
    {
      EntFacts(blocks, z, position);
    }

    /** Removing the current entry of a leaf from the list. */
    lemma LeafWithout()
      requires Valid() && z.h == 1 && 0 <= position < |z.focus.slots| - 1
      ensures Rank(z, position) < |List()|
      ensures Lead(z, position) + Tail(z, position + 1) == Without(List(), Rank(z, position))
    {
      hide Good, PathOk, Owned, Contents, Sound, Lead, Tail;
      LeafFacts();
      LeafLead();
      RankNext(z, position);
    }

    lemma LeafLead()
      requires Valid() && z.h == 1 && 0 <= position
      ensures Lead(z, position) == Upto(z, position) && ZipOk(blocks, z)
    {
      KidHere();
    }

    // ----- the table -----

    /** Goes to the entry that compares equal, or to the place in a leaf where the key belongs. */
    method Locate(key: Bytes, value: Bytes) returns (found: bool)
      requires Valid() && Guides(key, value) && ProbeOk(rule, KV(key, value))
      modifies `depth, `cacheStack, `positionStack, `position, `maxDepth, `z
      ensures Valid() && List() == old(List()) && Levels() == old(Levels()) && 0 <= position < |z.focus.slots|
      ensures maxDepth == old(maxDepth) || maxDepth < Levels()
      ensures (z.path.Top? ==> maxDepth == old(maxDepth)) && (z.path.Up? && z.h == 1 ==> maxDepth == depth)
      ensures found <==> exists kv :: kv in List() && Cmp(rule, fold, kv, KV(key, value)) == 0
      ensures found ==>
                && position < |z.focus.slots| - 1 && z.focus.slots[position].ent.Ent?
                && Rank(z, position) < |List()| && Cmp(rule, fold, List()[Rank(z, position)], KV(key, value)) == 0
      ensures !found ==>
                && z.h == 1 && |Lead(z, position)| <= |List()|
                && Below(Seeking(key, value), List()[..|Lead(z, position)|])
                && Above(Seeking(key, value), List()[|Lead(z, position)|..])
    {
      hide Sound, Contents, Lead, Tail, Rank, Below, Above, Cmp, ProbeOk, Keyed;
      var ret := SearchKeyInternal(key, value);
      LeafFacts();
      found := ret == Ok;
      if found {
        RankNext(z, position);
      } else {
        LeafLead();
        LeafCut(z, position);
        NoMatch(Seeking(key, value), List(), |Lead(z, position)|);
      }
    }

    /** Inserts a pair, unless an entry compares equal to it (for extents: overlaps it). */
    method IndexInsertKey(key: Bytes, value: Bytes)
      returns (ret: Status, ghost i: nat, ghost at: Zip, ghost p: nat)
      requires Valid() && Guides(key, value) && KeyOk(rule, KV(key, value)) && |free| >= TREE_MAX_DEPTH + 2
      requires |key| <= KEY_MAX_SIZE && |value| <= VALUE_MAX_SIZE
      modifies `blocks, `free, `given, `all, `rootVbn, `maxDepth, `depth, `cacheStack, `positionStack, `position, `z
      ensures ret == Ok || ret == KeyExist || ret == ErrReparent
      ensures ret == KeyExist <==> exists kv :: kv in old(List()) && Cmp(rule, fold, kv, KV(key, value)) == 0
      ensures ret == KeyExist ==>
                List() == old(List()) && blocks == old(blocks) && free == old(free)
                    && rootVbn == old(rootVbn)
      ensures ret != KeyExist ==>
                && Sound(old(blocks), at, old(free), old(all)) && Contents(at) == old(List())
                && at.h == 1 && at.focus.Node? && p < |at.focus.slots| && |Lead(at, p)| == i
                && (ret == ErrReparent <==>
                      && Overflows(at.path, at.focus, ENTRY_HEAD_SIZE + |key| + |value|)
                      && AtLimit(old(maxDepth), old(Levels())))
      ensures Valid() && all <= old(all) && (ret != ErrReparent ==> all == old(all)) && (old(Sorted()) ==> Sorted())
      ensures |free| + TREE_MAX_DEPTH + 2 >= old(|free|)
      ensures i <= |old(List())| && Levels() <= old(Levels()) + 1
              && (maxDepth == old(maxDepth) || maxDepth < old(Levels()))
      ensures Roomy(With(old(List()), i, KV(key, value)), old(Levels())) ==>
                ret != ErrReparent && Levels() == old(Levels())
      ensures ret != KeyExist ==>
                Below(Seeking(key, value), old(List())[..i]) && Above(Seeking(key, value), old(List())[i..])
      ensures ret == ErrReparent ==> LosesRun(List(), With(old(List()), i, KV(key, value)))
      ensures ret == Ok ==>
                List() == With(old(List()), i, KV(key, value))
      ensures ret == Ok && old(Sorted()) ==>
                (rule != Extent ==>
                      MapOf(rule, fold, List())
                          == MapOf(rule, fold, old(List()))[Canon(rule, fold, key) := KV(key, value)])
      ensures CopyOnWrite(old(Stored()), Stored())
    {
      hide CopyOnWrite, Sound, Contents, Lead, Tail, Rank, Upto, Below, Above, Cmp, Ordered, WithPending, Inserting,
        With, MapOf, Canon, LosesRun, Measure, RootSlots, Fits, ZipOk, GoodSlot, GoodSlots, GoodFrame, Holds, Owned,
        Used, FootS, Overflows, PendOk, PathOk, DirtyPath, View, Ents, Good, DirtyZip, PendRank, NumOk, TotalLen,
        ViewSize, Positions, Keyed;
      i, at, p := 0, z, 0;
      CowSame(Stored());
      var found := Locate(key, value);
      if found {
        return KeyExist, i, at, p;
      }
      i, at, p := |Lead(z, position)|, z, position;
      ghost var l := List();
      var ie := IndexEntry(ENTRY_HEAD_SIZE + |key| + |value|, 0, key, value, false, false, false, 0);
      ret := InsertInLeaf(ie);
      InsertLeaves(rule, fold, l, i, KV(key, value), List(), ret == Ok);
    }

    /** Inserts an entry at the cursor, in a leaf. */
    method InsertInLeaf(ie: IndexEntry) returns (ret: Status)
      requires Valid() && z.h == 1 && 0 <= position && EntryOk(ie, false) && !ie.isEnd && EntOk(Strip(ie))
      requires |free| >= TREE_MAX_DEPTH + 2 && (z.path.Up? ==> maxDepth == depth)
      modifies `blocks, `free, `given, `all, `rootVbn, `depth, `cacheStack, `positionStack, `position, `z
      ensures ret == Ok || ret == ErrReparent
      ensures ret == ErrReparent <==>
                old(Overflows(z.path, z.focus, ie.len)) && maxDepth >= TREE_MAX_DEPTH - 1
      ensures Valid() && all <= old(all) && (ret == Ok ==> all == old(all))
      ensures |free| + TREE_MAX_DEPTH + 2 >= old(|free|) && Levels() <= old(Levels()) + 1
      ensures old(|Lead(z, position)|) <= |old(List())|
      ensures var target := With(old(List()), old(|Lead(z, position)|), KV(ie.key, ie.value));
              && (if ret == Ok then List() == target else LosesRun(List(), target))
              && (Roomy(target, old(Levels())) ==> ret == Ok && Levels() == old(Levels()))
      ensures CopyOnWrite(old(Stored()), Stored())
    {
      hide CopyOnWrite, Sound, Contents, Lead, Tail, WithPending, Inserting, With, LosesRun, Measure, RootSlots,
        ZipOk, Roomy, Overflows, EntryOk;
      LeafReady(ie);
      ghost var split;
      ret, split := TreeInsertIe(ie, Nil);
    }

    /** An entry is pending at the cursor, in a leaf. */
    lemma LeafReady(ie: IndexEntry)
      requires Valid() && z.h == 1 && 0 <= position && EntryOk(ie, false) && !ie.isEnd && EntOk(Strip(ie))
      ensures Inserting(blocks, z, position, ie, Nil, free, all) && Measure(z) <= TREE_MAX_DEPTH + 1
      ensures |Lead(z, position)| <= |List()|
              && WithPending(z, position, Slot(Strip(ie), Nil))
                  == With(List(), |Lead(z, position)|, KV(ie.key, ie.value))
    {
      hide Contents, With, WithPending, Lead, Inserting, EntryOk;
      LeafPend(blocks, z, position, ie, free, all);
      LeafWith(z, position, Strip(ie));
      MeasureBound(blocks, z);
    }

    /** Removes the current entry, in a leaf or in an inner block. */
    method TreeRemoveIe() returns (ret: Status, ghost j: nat)
      requires Valid() && |free| >= 2 * (TREE_MAX_DEPTH + 2)
      modifies `blocks, `free, `given, `all, `rootVbn, `maxDepth, `depth, `cacheStack, `positionStack, `position, `z
      ensures ret == ErrEndEntry <==> old(position < 0 || position == |z.focus.slots| - 1)
      ensures ret == ErrEndEntry ==> blocks == old(blocks) && z == old(z) && free == old(free)
      ensures ret == Ok || ret == ErrEndEntry || (ret == ErrReparent && old(Levels()) >= TREE_MAX_DEPTH - 1)
      ensures Valid() && all <= old(all) && (ret != ErrReparent ==> all == old(all))
      ensures |free| + 2 * (TREE_MAX_DEPTH + 2) >= old(|free|)
      ensures Levels() <= old(Levels()) + 2 && (maxDepth <= old(maxDepth) || maxDepth <= old(Levels()))
      ensures Roomy(old(List()), 2) ==>
                && ret != ErrReparent && Levels() <= old(Levels())
                && (maxDepth <= old(maxDepth) || maxDepth < old(Levels()))
      ensures ret == Ok ==>
                var l, r := old(List()), old(Rank(z, position));
                && r < |l|
                && (!old(Misplaces(z, position)) ==> List() == Without(l, r))
                && (old(Misplaces(z, position)) ==>
                      r + 1 < |l| && j < |l| && j != r && j != r + 1 && List() == Without(Doubled(l, r), j))
      ensures ret == ErrReparent ==>
                var l, r := old(List()), old(Rank(z, position));
                && r < |l|
                && (LosesRun(List(), Without(l, r))
                    || (r + 1 < |l| && j < |l|
                        && (LosesRun(List(), Doubled(l, r)) || LosesRun(List(), Without(Doubled(l, r), j)))))
      ensures CopyOnWrite(old(Stored()), Stored())
    {
      hide CopyOnWrite, Sound, Contents, Rank, Without, Doubled, ReplacementSplits, Lead, Tail, LosesRun, Roomy;
      j := 0;
      CowSame(Stored());
      var ie := CurrentIe();
      LeafFacts();
      if ie.isEnd || ie.isBegin {
        return ErrEndEntry, j;
      }
      if ie.isNode {
        ghost var l, r, split := List(), Rank(z, position), false;
        ret, split, j := RemoveNode();
        if ret == Ok && !split {
          DoubledWithout(l, r, j);
        }
        if ret == Ok {
          DoubledLength(l, r);
        }
        return;
      }
      LeafWithout();
      RoomyEdits(List(), Rank(z, position), 0);
      ret := RemoveLeaf();
    }

    /** Removes a key.  `at` and `p` are where the search found it.  If the removal is misplaced the successor
        stays twice, and entry `j` goes instead. */
    method IndexRemoveKey(key: Bytes) returns (ret: Status, ghost at: Zip, ghost p: nat, ghost j: nat)
      requires Valid() && Guides(key, []) && ProbeOk(rule, KV(key, [])) && |free| >= 2 * (TREE_MAX_DEPTH + 2)
      modifies `blocks, `free, `given, `all, `rootVbn, `maxDepth, `depth, `cacheStack, `positionStack, `position, `z
      ensures ret == Ok || ret == KeyNotFound || (ret == ErrReparent && old(Levels()) >= TREE_MAX_DEPTH - 1)
      ensures Valid() && all <= old(all) && (ret != ErrReparent ==> all == old(all))
      ensures |free| + 2 * (TREE_MAX_DEPTH + 2) >= old(|free|)
      ensures Levels() <= old(Levels()) + 2 && (maxDepth <= old(maxDepth) || maxDepth <= old(Levels()))
      ensures Roomy(old(List()), 2) ==>
                && ret != ErrReparent && Levels() <= old(Levels())
                && (maxDepth <= old(maxDepth) || maxDepth < old(Levels()))
      ensures ret == KeyNotFound <==> forall kv :: kv in old(List()) ==> Cmp(rule, fold, kv, KV(key, [])) != 0
      ensures ret == KeyNotFound ==>
                List() == old(List()) && blocks == old(blocks) && free == old(free)
                    && rootVbn == old(rootVbn)
      ensures ret == Ok ==>
                && at.focus.Node? && p < |at.focus.slots| - 1
                && Sound(old(blocks), at, old(free), old(all)) && Contents(at) == old(List())
                && Rank(at, p) < |old(List())|
                && Cmp(rule, fold, old(List())[Rank(at, p)], KV(key, [])) == 0
                && (!Misplaces(at, p) ==> List() == Without(old(List()), Rank(at, p)))
                && (Misplaces(at, p) ==>
                      var l, r := old(List()), Rank(at, p);
                      r + 1 < |l| && j < |l| && j != r && j != r + 1 && List() == Without(Doubled(l, r), j))
      ensures ret == Ok && old(Sorted()) ==>
                && (List() == Without(old(List()), Rank(at, p)) <==> !Misplaces(at, p))
                && (!Misplaces(at, p) ==> Sorted())
                && (!Misplaces(at, p) && rule != Extent ==>
                      MapOf(rule, fold, List()) == MapOf(rule, fold, old(List())) - {Canon(rule, fold, key)})
      ensures ret == ErrReparent ==>
                && at.focus.Node? && p < |at.focus.slots| && Contents(at) == old(List())
                && var l, r := old(List()), Rank(at, p);
                   && r < |l| && Cmp(rule, fold, l[r], KV(key, [])) == 0
                   && (LosesRun(List(), Without(l, r))
                       || (r + 1 < |l| && j < |l|
                           && (LosesRun(List(), Doubled(l, r)) || LosesRun(List(), Without(Doubled(l, r), j)))))
      ensures CopyOnWrite(old(Stored()), Stored())
    {
      hide CopyOnWrite, Roomy, Sound, Contents, Lead, Tail, Rank, Upto, Below, Above, Cmp, Ordered, Without, Doubled,
        MapOf, Canon, Misplaces, LosesRun, View, Ents, GoodSlot, ViewSize, Keyed;
      ghost var sorted := Sorted();
      CowSame(Stored());
      var found := Locate(key, []);
      at, p, j := z, position, 0;
      if !found {
        return KeyNotFound, at, p, j;
      }
      ghost var l, r := List(), Rank(z, position);
      if sorted {
        WithoutOrdered(rule, fold, l, r);
        if rule != Extent {
          RemoveMap(rule, fold, l, r);
          CanonEqual(rule, fold, l[r], KV(key, []));
        }
      }
      ret, j := TreeRemoveIe();
      if ret == Ok && Misplaces(at, p) {
        DoubledWithout(l, r, j);
      }
    }
  }

  /** A table of so many levels refuses to get deeper.  A table of one level remembers an earlier depth. */
  predicate AtLimit(maxDepth: nat, levels: nat) {
    if levels == 1 then maxDepth >= TREE_MAX_DEPTH - 1 else levels >= TREE_MAX_DEPTH
  }

  lemma LooseFacts(m: Heap, z: Zip, held: multiset<Vbn>, free: set<Vbn>, all: set<Vbn>)
    requires Loose(m, z, held, free, all)
    ensures ZipOk(m, z) && DirtyPath(z.path, z.focus) && Owned(Used(z) + held, free, all) && z.focus.Node?
  {
  }

  lemma OutFacts(z: Zip, p: nat)
    requires z.focus.Node? && p < |z.focus.slots|
    ensures var z' := WithSlots(z, Out(z.focus.slots, p));
            && z'.path == z.path && z'.h == z.h && z'.focus.Node? && z'.focus.slots == Out(z.focus.slots, p)
            && z'.focus.vbn == z.focus.vbn && z'.focus.large == z.focus.large && p <= |z'.focus.slots|
  {
  }

  lemma WithFacts(z: Zip, ss: seq<Slot>)
    requires z.focus.Node?
    ensures var z' := WithSlots(z, ss);
            && z'.path == z.path && z'.h == z.h && z'.focus.Node? && z'.focus.slots == ss && z'.focus.vbn == z.focus.vbn
  {
  }

  lemma OutLength(z: Zip, z0: Zip, p: nat)
    requires z.focus.Node? && z0.focus.Node? && p < |z0.focus.slots| - 1 && z.focus.slots == Out(z0.focus.slots, p)
    ensures p < |z.focus.slots|
  {
  }

  lemma SamePlaces(z: Zip, z': Zip, p: nat)
    requires z.focus.Node? && z'.focus.Node? && z.focus.slots == z'.focus.slots && p <= |z.focus.slots|
    requires LeftOf(z'.path) == LeftOf(z.path) && RightOf(z'.path) == RightOf(z.path)
    ensures Lead(z', p) == Lead(z, p) && Tail(z', p) == Tail(z, p)
  {
  }

  lemma UpStep(z: Zip, p: int, h: nat)
    requires z.h < h && CanPop(z)
    ensures UpTo(Pop(z), h) == UpTo(z, h) && UpPos(Pop(z), z.path.f.pos, h) == UpPos(z, p, h)
  {
  }

  lemma FollowingHere(z: Zip, p: int)
    requires z.focus.Node? && 0 <= p < |z.focus.slots|
    ensures Following(z, p) == Rank(z, p) + 1
  {
  }

  lemma RankIs(z: Zip, p: int, z0: Zip, p0: int)
    requires z.focus.Node? && z0.focus.Node? && 0 <= p < |z.focus.slots| && 0 <= p0 < |z0.focus.slots|
    ensures Upto(z, p) == Upto(z0, p0) ==> Rank(z, p) == Rank(z0, p0)
  {
  }

  lemma EmptyTable(m: Heap, vbn: Vbn, free: set<Vbn>)
    requires vbn in m && m[vbn].dirty && Chained(m[vbn].ib) && !m[vbn].ib.large && m[vbn].ib.allocSize == ROOT_SIZE
    requires View(m[vbn].ib) == [End(0)] && vbn !in free && vbn != 0 && 0 !in free
    ensures var z := Zip(Top, Node(vbn, false, true, ROOT_SIZE, [Slot(End(0), Nil)]), 1);
            Sound(m, z, free, free + {vbn}) && Contents(z) == []
  {
    var s := Slot(End(0), Nil);
    assert Ents([s]) == [End(0)];
    OnlyEnd([s]);
    TotalLenOne(End(0), false);
    assert GoodSlot(m, s, 1) && FullSlot(s, 0) && DirtySlot(s, true);
    assert multiset(free + {vbn}) == multiset(free) + multiset{vbn};
  }

  /** The key of an entry of an ordered list is fit for the rule. */
  lemma EntryKey(rule: Rule, z: Zip, p: nat)
    requires z.focus.Node? && p < |z.focus.slots| && z.focus.slots[p].ent.Ent? && Keyed(rule, Contents(z))
    ensures ProbeOk(rule, KV(z.focus.slots[p].ent.key, z.focus.slots[p].ent.value))
  {
    RankNext(z, p);
  }

  lemma EndAfter(z: Zip, p: nat)
    requires z.focus.Node? && p == |z.focus.slots| - 1 && z.focus.slots[p].ent.End?
    ensures After(z, p) == RightOf(z.path)
  {
    assert z.focus.slots[p + 1..] == [];
  }

  /** At a leaf the list falls into what lies before the cursor and the rest. */
  lemma LeafCut(z: Zip, p: nat)
    requires z.focus.Node? && p < |z.focus.slots| && Lead(z, p) == Upto(z, p)
    ensures |Lead(z, p)| <= |Contents(z)| && Rank(z, p) == |Lead(z, p)|
    ensures Contents(z)[..|Lead(z, p)|] == Lead(z, p) && Contents(z)[|Lead(z, p)|..] == Tail(z, p)
  {
    LeadTail(z, p);
  }

  lemma LeafWith(z: Zip, p: nat, e: Ent)
    requires z.focus.Node? && p < |z.focus.slots| && e.Ent?
    ensures |Lead(z, p)| <= |Contents(z)|
    ensures WithPending(z, p, Slot(e, Nil)) == With(Contents(z), |Lead(z, p)|, KV(e.key, e.value))
  {
    LeadTail(z, p);
    assert Contents(z)[..|Lead(z, p)|] == Lead(z, p) && Contents(z)[|Lead(z, p)|..] == Tail(z, p);
    assert FlatSlot(Slot(e, Nil)) == [KV(e.key, e.value)];
  }

  lemma RankBound(z: Zip, p: nat)
    requires z.focus.Node? && p < |z.focus.slots|
    ensures Rank(z, p) <= |Contents(z)|
    ensures z.focus.slots[p].ent.Ent? ==> Rank(z, p) < |Contents(z)|
  {
    LeadTail(z, p);
  }

  lemma DoubledLength(l: seq<KV>, r: nat)
    requires r < |l|
    ensures r + 1 < |l| ==> |Doubled(l, r)| == |l|
  {
  }

  lemma NilFoot()
    ensures Foot(Nil) == multiset{}
  {
  }

  lemma SetLength(v: seq<Ent>, v': seq<Ent>, n: nat)
    requires |v| == |v'| == n
    ensures n == |v|
  {
  }

  /** Giving END the vbn of the entry before it and then removing that entry. */
  lemma CloseView(v: seq<Ent>, vbn: Vbn)
    requires EndLast(v) && |v| >= 2 && v[|v| - 2].vbn == vbn
    ensures var q: nat, w := |v| - 2, v[|v| - 1 := End(vbn)];
            w[..q] + w[q+1..] == v[..q] + [End(vbn)]
  {
  }

  lemma ClosedDirty(z0: Zip, zo: Zip, z: Zip)
    requires ClosedAt(z0, zo) && z.focus.Node? && zo.focus.Node? && z.focus.slots == zo.focus.slots
    requires Contents(z) == Contents(zo) && LeftOf(z.path) == LeftOf(zo.path) && RightOf(z.path) == RightOf(zo.path)
    ensures ClosedAt(z0, z)
  {
  }

  lemma ClosedSplit(z0: Zip, z: Zip, u: seq<KV>)
    requires ClosedAt(z0, z) && u == Upto(z, |z.focus.slots| - 1)
    ensures |u| <= |Contents(z)|
    ensures Contents(z0) == u + Pay(z0.focus.slots[|z0.focus.slots| - 2].ent) + Contents(z)[|u|..]
  {
    assert Contents(z)[|u|..] == RightOf(z.path);
  }

  lemma OutSplit(z0: Zip, z: Zip, p: nat, u: seq<KV>)
    requires z0.focus.Node? && z.focus.Node? && p < |z0.focus.slots| && z0.focus.slots[p].kid.Nil?
    requires p <= |z.focus.slots| && u == Lead(z, p) == Lead(z0, p) && Tail(z, p) == Tail(z0, p + 1)
    requires Contents(z) == Lead(z0, p) + Tail(z0, p + 1)
    ensures |u| <= |Contents(z)|
    ensures Contents(z0) == u + Pay(z0.focus.slots[p].ent) + Contents(z)[|u|..]
  {
    LeadTail(z0, p);
    LeafTail(z0, p);
    assert Contents(z)[|u|..] == Tail(z0, p + 1);
    AssocLead(u, Pay(z0.focus.slots[p].ent), Tail(z0, p + 1));
  }

  /** What placing the pending entry makes of its place. */

  lemma AtHeight(z: Zip, p: int)
    ensures UpTo(z, z.h) == z && UpPos(z, p, z.h) == p
  {
  }

  lemma PlacedAt(z0: Zip, z: Zip, p: nat, s: Slot)
    requires z0.focus.Node? && p < |z0.focus.slots| && Redirtied(InsZip(z0, p, s), z)
    ensures z.focus.Node? && p < |z.focus.slots| && z.h == z0.h && z.focus.slots[p].ent == s.ent
    ensures Upto(z, p) == Lead(z0, p) + Flat(s.kid)
  {
    RedirtiedContents(InsZip(z0, p, s), z);
    InsContents(z0, p, s);
    assert z.focus.slots == Ins(z0.focus.slots, p, s);
  }

  lemma PushedStack(z: Zip)
    requires z.focus.Node? && 0 < |z.focus.slots| && z.h >= 1
    ensures Vbns(Push(z, 0).path) == Vbns(z.path) + [z.focus.vbn]
            && Positions(Push(z, 0).path) == Positions(z.path) + [0]
    ensures Depth(Push(z, 0).path) == Depth(z.path) + 1
  {
  }

  lemma {:induction false} FromRootVbn(z: Zip)
    requires z.focus.Node?
    ensures FromRoot(z).focus.Node?
    ensures FromRoot(z).path.Top? ==> (Vbns(z.path) + [z.focus.vbn])[0] == FromRoot(z).focus.vbn
    decreases z.path
  {
    if CanPop(z) {
      FromRootVbn(Pop(z));
    }
  }
}
