# A verified model of the object store

The store keeps every object as a table: a B-tree with keys and values of variable length, in blocks of
a volume.  This project models five of its parts in Dafny and proves what they are for.

**The B-tree** (`IndexBlock`, `BTreeShape`, `BTreeOrder`, `BTreeDirty`, `BTreeCopy`, `BTreeSplit`, `BTreeRemove`,
`BTreeCrowd`, `BTreeInsert`, `KeyOrder`, `BTree`, `Misplaced`).  Keys live in inner blocks too; each entry carries the number of its
left child, and END that of the last child.  `IndexBlock` is the doubly threaded chain of entries within
one block, by their lengths.  `BTree.Table` is the tree as the code has it: a heap of cached blocks by
number, and a cursor made of a stack of blocks, a stack of positions and a current position, which
search, walk, insertion and removal move step by step.  Its ghost field `z` is the picture of the whole
table seen from the cursor - the subtree in focus and the path above it - and `Sound` says that the heap
is exactly that picture: links, levels, lengths, no empty leaf, dirty blocks only below dirty blocks,
every block number used once or free.  `List()` is the in-order list of the picture.  The main results
are `Table.IndexInsertKey`, `Table.IndexRemoveKey`, `Table.IndexWalkAll` and `Table.SetIbDirty`; all of
them speak of every table that can be reached, for all four collation rules at once, and `KeyOrder.MapOf`
reads the list as a finite map.

**Copy-on-write.**  Before a block is changed every block from it up to the root is made dirty, and a
clean one is copied to another number first.  `Table.SetIbDirty` says which numbers the path gets, one
exchange for each clean block; `BTreeCopy.CopyOnWrite`, which every insertion and removal keeps, says that
no clean block in use is overwritten before its number has been given back, and that whatever is clean
afterwards was not written at all.

**The depth limit.**  An insertion is refused exactly if the entry fits in no block on the way up, each
block passing on its middle entry (`BTreeInsert.Overflows`), and the table is at the depth limit; a
removal is refused only in a table of at least `TREE_MAX_DEPTH - 1` levels.  A refused operation has
given up a run of entries and the subtree that held them: the table it leaves is sound, and after an
insertion in order, but the blocks of that subtree are no longer its own: the ghost set `all` of a table
shrinks then, and only then.

**Removal is not always right.**  Removing an entry of an inner block puts its successor in its place.
When the successor is so much longer that the block has to split, the cursor is left on the entry
promoted by the split, and the step that should lead to the successor's old copy leads elsewhere: another
entry is removed, and the successor stays in the table twice.  `Table.IndexRemoveKey` states the exact
condition: the result is the old list without the key if and only if not `Misplaces`, which depends only
on lengths that are known before the removal.  `Misplaced.Misplacing` is a table on which it fails, and
`Misplaced.RemoveSecond` removes from it; `BTreeRemove.ShortReplacement` shows that equal lengths are
always safe.

**The AVL tree** (`AvlShape`, `AvlRotate`, `AvlEdit`, `Avl`).  `Avl.AvlTree` works on node objects with
child, parent, index and balance fields, changed in the order the code changes them: one mirrored
rotation, iterative insertion and removal with the exchange through a placeholder, walks by parent
links, and destruction in post-order with a cookie.  A picture (a tree, and the path to a place in it)
ties the fields of all nodes to the in-order list.

**The space managers** (`Extents`, `Space`).  Extents of free blocks in three tiers: ordinary objects
draw on `sm`, the tree behind `sm` on `bsm`, and the tree behind `bsm` on one spare block.  Each manager
works on a `BTree.Table` of its own, by the same searches, removals and insertions as the code, and
inherits what they promise.  Taking an extent out is a removal, so it goes wrong exactly when `Misplaces`
holds of its place: another extent is lost then, and its successor is free twice.  A manager records the
first such slip, with the table it happened to, or that its table refused to get deeper, in `lapse`;
`Space.Container.Valid` says that every block is in exactly one place as long as neither table has a
lapse (`Exact`), and every operation keeps it.

When a table keeps free of lapses is counted in `BTreeCrowd`: an extent takes at most 33 bytes, so that a
slip, or a split of the root, needs at least 220 extents, and a split of a root that is a leaf 147.
`Space.Calm` says of the size of a table that it has room for so many extents more, and
`Space.Container.OfsAllocSpace` and `OfsFreeSpace` conclude from the sizes before a call that every block
is in exactly one place after it; `Space.Low` does the same for a single allocation from the levels
alone.  `Space.SlipNeeds` shows what else a slip takes: at least three levels, and a block full but for
less than 14 bytes.

**The ping-pong block** (`PingPong`).  Numbered copies in rotating slots, stamped in head and foot.
`PingPong.Volume.Valid` holds after any number of updates, torn ones included, and says what each slot
holds; from it recovery finds the newest whole image, also across the wrap of the 16-bit number.

**Collation, encodings and the metadata cache** (`Collate`, `MetadataCache`).  `Collate.Precedes` says for
each rule what comes before what, apart from any comparison; `KeyOrder.OrderedMeans` and
`Table.IndexWalkAll` say that tables are in that order.

`dafny verify dfyconfig.toml` checks the whole project.

## Assumptions

- Memory allocation and disk access succeed; the ping-pong model alone has writes that stop half-way.
- A key has 1 to 256 bytes and a value at most 1024 (`include/ofs_tree.h:57-58`).  The index functions do
  not check this, and the room a split leaves depends on it.
- The numbers the allocator hands out are not zero and not cached, and there are enough of them: one
  operation needs at most `TREE_MAX_DEPTH + 2`, a removal twice that.  The tables of the space managers
  have supplies of their own.
- That the tiers of free space neither lose nor double a block holds while their tables of extents are
  `Calm`, as the contracts of the container say; in a larger table it holds as long as no removal of an
  extent is misplaced and no table is at the depth limit.
- Blocks have 4096 bytes, the area for the root in its inode 3722.
- Extents end below block 2^63, and free extents are shorter than 2^31 blocks.  The allocator reads a
  length into 32 bits and returns a count as a signed number; `Extents.NarrowingLoses` shows what happens
  otherwise.
- The number of ping-pong slots is at least 2 and divides 65536, and the first block written is
  numbered 0.
- Upper-casing is any function from bytes to ranks.

Where comments and code disagree the model follows the code: `sm_alloc_space` announces 0 for "no free
block" (`object_system/ofs_space_manager.c:209-211`) but returns the error NO_FREE_BLOCKS.  `remove_ie`
moves overlapping bytes with `memcpy`, which is read here as an overlapping move.

## Model

| member | source | states |
|---|---|---|
| `IndexBlock.ChainNavigates` | object_system/ofs_btree.c:664-694 | In a block with a sound chain, stepping by an entry's length and back by the next entry's `prev_len` returns to the same entry, the first entry points back to BEGIN, and END is the one entry with no way on |
| `IndexBlock.OffsetIsPrefixSize` | object_system/ofs_btree.c:623-647 | The byte offset of an entry is the header size plus the sizes of the entries before it, so positions in the sequence stand for byte positions in the block |
| `IndexBlock.OffsetsOrder` | object_system/ofs_btree.c:623-647 | Offsets are strictly increasing in the position: two positions name the same bytes only if they are equal |
| `IndexBlock.InitIb` | object_system/ofs_btree.c:256-300 | A fresh block has a sound chain and holds just END, with the node flag exactly in a large block |
| `IndexBlock.MakeIbSmall` | object_system/ofs_btree.c:303-327 | Makes any block an empty leaf block with a sound chain |
| `IndexBlock.InsertIe` | object_system/ofs_btree.c:679-694 | Inserts one entry before a position: the entries are the old ones with it in place, the chain stays sound, and the used size grows by its length |
| `IndexBlock.RemoveIe` | object_system/ofs_btree.c:664-677 | Takes one entry out: the entries are the old ones without it, the chain stays sound although the entry that follows gets its `prev_len` before everything moves down |
| `IndexBlock.DumpIeAddVbn` | object_system/ofs_btree.c:697-723 | A copy with a child link keeps key and value, grows by the size of a link, and is fit for an inner block |
| `IndexBlock.DumpIeDelVbn` | object_system/ofs_btree.c:726-751 | A copy without a child link keeps key and value, shrinks by the size of a link, and is fit for a leaf |
| `IndexBlock.CopyIbTail` | object_system/ofs_btree.c:754-773 | The new block holds exactly the entries after the middle one and has a sound chain of its own; the source keeps its entries, and its chain stays sound up to the middle |
| `IndexBlock.CutIbTail` | object_system/ofs_btree.c:776-798 | What is left is the entries before the cut and an END that keeps the cut entry's child link, with a sound chain, even though the tail was disturbed before |
| `IndexBlock.GetMiddleIe` | object_system/ofs_btree.c:597-620 | The byte midpoint is a real entry with at least half the bytes up to its end and less than half before it |
| `IndexBlock.MiddleSplits` | object_system/ofs_btree.c:597-620 | For all entry sizes within the key and value limits, the midpoint of a block that overflows leaves at least one entry on each side, and either half has room for the pending entry |
| `BTreeShape.PushSound` | object_system/ofs_btree.c:149-197 | Going down into a child leaves the picture of the whole table sound: exact links and levels, no empty leaf, dirty blocks below dirty blocks only, and every block number owned once |
| `BTreeShape.PopSound` | object_system/ofs_btree.c:229-254 | So does going back up |
| `BTreeShape.PopPush` | object_system/ofs_btree.c:149-254 | Going up and down again at the same entry is the same place |
| `BTreeShape.PushFlat` | object_system/ofs_btree.c:149-197 | Going down does not change the in-order list of the table |
| `BTreeShape.DepthBound` | object_system/ofs_btree.c:157-161 | In a sound table a path and the height below it never exceed the maximal depth, so no leaf is deeper than TREE_MAX_DEPTH - 1 |
| `BTreeShape.GoodFramed` | object_system/ofs_btree.c:46-108 | A subtree is sound after any change of blocks outside its own |
| `BTreeOrder.SearchStep` | object_system/ofs_btree.c:474-532 | A monotone probe that is above everything before an entry and compares with that entry cuts the whole list there: larger excludes all that follows, smaller all that precedes, subtree included |
| `BTreeOrder.LeadTail` | object_system/ofs_btree.c:380-435 | At any entry, what lies before it and what lies from it on are together the whole list |
| `BTreeOrder.RankNext` | object_system/ofs_btree.c:380-471 | A real entry stands in the list at its place, after everything to its left and before everything to its right |
| `BTreeOrder.PopForward` | object_system/ofs_btree.c:229-254 | Leaving a block at its END leads to the place of the entry in the parent the cursor came through |
| `BTreeOrder.PopBack` | object_system/ofs_btree.c:229-254 | Leaving a block at its BEGIN leads to the entry just before it, or on to the BEGIN above |
| `BTreeOrder.VisitedNext` | object_system/ofs_btree.c:1389-1425 | One more step of a walk in either direction extends what has been visited by exactly the neighbour in the list |
| `KeyOrder.OrderedMonotone` | object_system/ofs_btree.c:474-532 | In a list ordered by any of the rules a search key finds smaller, then equal, then larger entries: one statement for exact keys and for overlap of extents |
| `KeyOrder.OrderedMeans` | object_system/ofs_collate.c:382-417 | A table is ordered exactly if its binary keys or numbers ascend, its strings are in dictionary order once folded, its extents lie one above the other |
| `KeyOrder.InsertOrdered` | object_system/ofs_btree.c:1244-1301 | An entry put where its key belongs leaves the list strictly ordered |
| `KeyOrder.WithoutOrdered` | object_system/ofs_btree.c:1197-1224 | A list with an entry taken out is still strictly ordered, and an ordered list holds nothing twice |
| `KeyOrder.RunOrdered` | object_system/ofs_btree.c:932-973 | A list that has lost a run of entries in a refused insertion is still strictly ordered |
| `KeyOrder.Separated` | object_system/ofs_btree.c:474-532 | Every key below an entry lies strictly between the entry before and the entry itself |
| `KeyOrder.OneMatch` | object_system/ofs_btree.c:474-532 | At most one entry of an ordered list compares equal to a key looked for |
| `KeyOrder.MapDomain` | object_system/ofs_btree.c:474-532 | The map of a list has exactly the keys of its entries, up to equality under the rule |
| `KeyOrder.MapAt` | object_system/ofs_btree.c:474-532 | ... and leads each of them to its entry |
| `KeyOrder.InsertMap` | object_system/ofs_btree.c:1244-1301 | Inserting into the ordered list is the update of the map |
| `KeyOrder.RemoveMap` | object_system/ofs_btree.c:1197-1224 | Taking an entry out of the ordered list is taking its key out of the map |
| `KeyOrder.SearchMap` | object_system/ofs_btree.c:474-532 | A key is in the map exactly if some entry of the list compares equal to it, and then leads to that entry |
| `BTreeDirty.AllDirty` | object_system/ofs_btree.c:93-96 | Above a dirty block every block on the path is dirty: why the climb may stop at the first one |
| `BTreeDirty.ClimbDone` | object_system/ofs_btree.c:46-108 | When the climb stops, the table seen from the cursor is the one it started with, with the blocks on the path dirty and possibly renumbered |
| `BTreeDirty.RedirtiedContents` | object_system/ofs_btree.c:46-108 | A table whose path has been made dirty holds the same in-order list |
| `BTreeDirty.RedirtiedDirty` | object_system/ofs_btree.c:46-108 | ... and still has dirty blocks below dirty blocks only |
| `BTreeDirty.LevelWritten` | object_system/ofs_btree.c:62-106 | One level of the climb: the block under its new number leads to the new number of the block below, the old number is free again, and exactly as many numbers are free as before |
| `BTreeDirty.Swapped` | object_system/ofs_btree.c:62-106 | Exchanging a used number for a free one keeps every number either used once or free |
| `BTreeSplit.InsContents` | object_system/ofs_btree.c:679-694 | Inserting an entry and the subtree left of it into a block puts both at their place in the list of the whole table |
| `BTreeSplit.SplitRoom` | object_system/ofs_btree.c:823-867 | When the pending entry does not fit, the block has a middle entry with entries on both sides, and the half that receives the pending entry has room |
| `BTreeSplit.HalvesViews` | object_system/ofs_btree.c:823-858 | The entries of the two halves, wherever the pending entry goes |
| `BTreeSplit.HalvesGood` | object_system/ofs_btree.c:823-858 | Both halves are sound subtrees of the same height |
| `BTreeSplit.HalvesUsed` | object_system/ofs_btree.c:823-858 | The halves own exactly the block numbers of the block, the new one, and those of the pending subtree |
| `BTreeSplit.SplitPending` | object_system/ofs_btree.c:801-868 | The list with the promoted entry pending at the parent is the list with the original entry pending before |
| `BTreeSplit.SplitDone` | object_system/ofs_btree.c:801-868 | After a split the table is again one with a single entry pending, at the parent |
| `BTreeSplit.PushedDownSound` | object_system/ofs_btree.c:871-930 | After the root has been pushed down, the same entry is pending at the same place of an otherwise sound table |
| `BTreeSplit.Abandoned` | object_system/ofs_btree.c:956-968 | A table whose pending entry is given up is sound, but for the blocks of the subtree that is lost with it |
| `BTreeInsert.OneMiddle` | object_system/ofs_btree.c:597-620 | A block has one byte midpoint, so what a split promotes is determined by the block |
| `BTreeInsert.SplitDecides` | object_system/ofs_btree.c:801-868 | Whether an insertion reaches the root is the same question before a split, for the pending entry, and after it, for the entry promoted to the parent |
| `BTreeInsert.UnderwayPlaced` | object_system/ofs_btree.c:932-973 | However many splits it took, the entry placed last completes the list the insertion aims at; after a split the cursor is neither at the entry first inserted nor at the one before it |
| `BTreeCrowd.BlockCount` | object_system/ofs_btree.c:597-620 | A leaf holds as many entries of the list as the block has, an inner block at least twice as many and one less |
| `BTreeCrowd.RootCrowded` | object_system/ofs_btree.c:941-968 | An entry that does not fit in the root makes a table of at least 220 entries of up to eight bytes of key and value, or of 147 if the root is a leaf |
| `BTreeCrowd.SlipCrowded` | object_system/ofs_btree.c:1139-1178 | A removal can be misplaced only in a table of at least 220 such entries |
| `BTree.Table.constructor` | object_system/ofs_object_manager.c:299-299 | A new table is sound and empty |
| `BTree.Table.GetLastIe` | object_system/ofs_btree.c:110-125 | The cursor moves to the END entry of its block |
| `BTree.Table.ResetCacheStack` | object_system/ofs_btree.c:127-146 | The cursor returns to the root, at its first or last place |
| `BTree.Table.PushCacheStack` | object_system/ofs_btree.c:149-197 | The cursor goes down into the child of its entry; the list of the table is unchanged and the depth stays within bounds |
| `BTree.Table.GetPrevIe` | object_system/ofs_btree.c:200-226 | Back by one entry: by as many bytes as its `prev_len` says; reaching BEGIN is reported, and no format error can occur in a sound table |
| `BTree.Table.GetNextIe` | object_system/ofs_btree.c:330-348 | On by one entry: by as many bytes as its length says; refused exactly at END, with nothing changed |
| `BTree.Table.PopCacheStack` | object_system/ofs_btree.c:229-254 | Back to the entry in the parent the cursor came through, or just before it; refused only at the root |
| `BTree.Table.GetCurrentIe` | object_system/ofs_btree.c:380-435 | Down to the edge of the subtree at the cursor and up out of exhausted blocks: stops at exactly the entry the cursor's place in the list stands for, or at the root when there is none |
| `BTree.Table.WalkTree` | object_system/ofs_btree.c:437-471 | One step of a walk goes to the first, the last, the next or the previous place of the list, and reports the root exactly when there is none |
| `BTree.Table.IndexWalkAll` | object_system/ofs_btree.c:1389-1425 | A forward walk visits exactly the in-order list once, a backward walk exactly its reverse; both end. In an ordered table every entry visited comes before the next ones in the sense of the rule, or behind them |
| `BTree.Table.SearchKeyInternal` | object_system/ofs_btree.c:474-532 | Stops at an entry that compares equal, or in a leaf with every smaller entry of the table before and every larger one after |
| `BTree.Table.ScanBlock` | object_system/ofs_btree.c:491-524 | Within a block: stops at an equal entry, or at the first larger one |
| `BTree.Table.GetToNearKey` | object_system/ofs_btree.c:535-556 | From the end of a leaf to the next larger entry, without changing the place in the list |
| `BTree.Table.IndexSearchKey` | object_system/ofs_btree.c:558-578 | Found exactly if the key is in the table; an absent key leaves the cursor where it would belong |
| `BTree.Table.Locate` | object_system/ofs_btree.c:474-532 | An entry that compares equal is found exactly if there is one; otherwise the place in a leaf where the key belongs |
| `BTree.Table.DirtyLevel` | object_system/ofs_btree.c:62-106 | One level: a clean block moves to a number that was free and not its own, its old number is free afterwards and no longer cached, and nothing else changes but the parent link; a dirty block keeps its number, and no number is taken or given |
| `BTree.Table.SetIbDirty` | object_system/ofs_btree.c:46-108 | Every block on the cursor path is dirty and the table's contents and shape are unchanged. The dirty blocks of the path keep their numbers; each clean one, from the lowest up, moves to a number that is free when its turn comes and gives its own back; no clean block is overwritten |
| `BTreeCopy.CopiedNumbers` | object_system/ofs_btree.c:60-103 | What the climb does, block by block: a dirty block keeps its number, a clean one gets another, free before or given up by a clean block below; as many numbers are given back as the path has clean blocks, and those not taken again are free |
| `BTreeCopy.CowOn` | object_system/ofs_btree.c:46-108 | What holds of single operations holds of any sequence: a clean block in use stays as it is until its number has been given back, and what is clean in the end has not been written |
| `BTreeCopy.CowPath` | object_system/ofs_btree.c:46-108 | The block in focus may be written before the path is made dirty: the write goes to the copy |
| `BTree.Table.PlaceIe` | object_system/ofs_btree.c:941-955 | The pending entry goes into the block in focus: the table is sound again and its list is the old one with the entry in place |
| `BTree.Table.ReparentRoot` | object_system/ofs_btree.c:871-930 | The root's entries move to a new block below it and the same entry is pending there; refused exactly at the depth limit, with nothing changed |
| `BTree.Table.SplitIb` | object_system/ofs_btree.c:801-868 | The block is split around its middle entry, the pending entry goes to its half, and the middle entry is now pending at the parent with the left half as its child; the list to come is the same, and no clean block is overwritten |
| `BTree.Table.NewTail` | object_system/ofs_btree.c:814-831 | A new block holds exactly the entries after the middle one, with the pending entry if it belongs there |
| `BTree.Table.CutHead` | object_system/ofs_btree.c:850-856 | The block in focus holds exactly the entries before the middle one, with the pending entry if it belongs there |
| `BTree.Table.Promote` | object_system/ofs_btree.c:858-867 | Back in the parent, whose link leads to the new block, the middle entry is pending with the old block as its child |
| `BTree.Table.MakeRoom` | object_system/ofs_btree.c:956-968 | Either way makes progress: the measure of what can still happen falls, the list to come is the same, and so is the question whether the insertion reaches the root. Refused only there, at the depth limit, with nothing changed |
| `BTree.Table.TreeInsertIe` | object_system/ofs_btree.c:932-973 | The loop ends; the list is the old one with the entry in its place, for every cascade of splits and pushing down the root, which adds at most one level. Refused exactly if the entry overflows every block up to the root and the depth remembered is at the limit; in any case the table is sound afterwards, after a refusal without the blocks of the subtree it gave up |
| `BTree.Table.Advance` | object_system/ofs_btree.c:956-968 | One round of the loop that does not end it: an entry is pending one level up, or at the same place below the pushed-down root, the list aimed at is the same and the measure falls |
| `BTree.Table.Settle` | object_system/ofs_btree.c:941-955 | The round that ends it: the list is the one aimed at, and there was a split exactly if the first entry did not fit in its block |
| `BTree.Table.TakeOut` | object_system/ofs_btree.c:1033-1050 | The current entry is out of its block; a leaf may be left empty |
| `BTree.Table.CheckRemovedIb` | object_system/ofs_btree.c:975-1026 | Frees the chain of blocks that became empty, up to any ancestor: either the table is sound again, or the cursor is at the entry whose child is gone; the list is unchanged |
| `BTree.Table.DropBlock` | object_system/ofs_btree.c:992-1010 | The empty block in focus is given back, and the cursor is at the entry above that led to it; the list is unchanged |
| `BTree.Table.ShrinkRoot` | object_system/ofs_btree.c:1017-1021 | A root without entries becomes an empty leaf, and the table is sound |
| `BTree.Table.TakeSeparator` | object_system/ofs_btree.c:1059-1083 | The entry whose child was freed is taken out of its block to be inserted again below; when it is END, the entry before it takes END's place |
| `BTree.Table.RemoveLeaf` | object_system/ofs_btree.c:1028-1100 | Removing the current entry of a leaf leaves a sound table with exactly the old list minus that entry, through empty chains and the reinserted separator; refused only in a table of TREE_MAX_DEPTH levels, which is sound then as well but lacks a run of entries |
| `BTree.Table.Reinsert` | object_system/ofs_btree.c:1059-1099 | The separator above a freed block is inserted again below: the list is the same, in a table at most one level deeper; refused only in a table of TREE_MAX_DEPTH levels, whose list then lacks one run |
| `BTree.Table.Replacement` | object_system/ofs_btree.c:1102-1137 | The replacement has the key and value of the next entry in the list and the child of the entry it replaces, and the cursor is back at that entry |
| `BTree.Table.RemoveNext` | object_system/ofs_btree.c:1159-1178 | Walks to the next entry and removes exactly it; refused only in a table of TREE_MAX_DEPTH levels, when the list loses a run as well |
| `BTree.Table.RemoveNode` | object_system/ofs_btree.c:1102-1179 | The entry is replaced by its successor, and one entry of the list is removed: the successor's old copy if the replacement fits, and never it or the new copy if the replacement makes the block split. Refused only in a table of at least TREE_MAX_DEPTH - 1 levels; the table is sound then too, and its list is the one after the replacement, or after the removal, but for a lost run |
| `BTree.Table.TreeRemoveIe` | object_system/ofs_btree.c:1181-1195 | Removes the current entry, or refuses END and BEGIN with nothing changed; the list is exactly the old one without the entry, unless the replacement splits the block, when the successor stays twice and another entry goes. Never fails below TREE_MAX_DEPTH - 1 levels; the table is sound in every case |
| `BTree.Table.IndexInsertKey` | object_system/ofs_btree.c:1244-1301 | A present key is reported exactly when it is present and the table is unchanged; otherwise the list is the old one with the pair in its place, still ordered if it was, and the map is updated at that key. Refused exactly if the pair overflows every block from the leaf where it belongs up to the root and the table was at the depth limit before; a sound and ordered table is left even then. No clean block is overwritten before its number has been given back |
| `BTree.Table.InsertInLeaf` | object_system/ofs_btree.c:1290-1300 | The entry goes into the list at the cursor, in a leaf; refused exactly if it overflows every block up to the root and the depth remembered is at the limit |
| `BTree.Table.SortedGuides` | object_system/ofs_btree.c:474-532 | An ordered table guides the search for any key fit for its rule |
| `BTree.Table.IndexRemoveKey` | object_system/ofs_btree.c:1197-1224 | In every table that guides a search for the key, those left by a misplaced removal included: an absent key is reported exactly when it is absent and the table is unchanged; otherwise, in an ordered table, the list is the old one without exactly that entry if and only if it is not an entry of an inner block whose successor does not fit in its place; if it is, the successor stays twice and another entry goes. With fewer than TREE_MAX_DEPTH - 1 levels before it never fails. No clean block is overwritten before its number has been given back |
| `BTreeRemove.ShortReplacement` | object_system/ofs_btree.c:1139-1157 | A successor no longer than the entry it replaces always fits |
| `BTreeRemove.DoubledWithout` | object_system/ofs_btree.c:1139-1178 | After the replacement, removing either copy of the successor completes the removal, and removing anything else does not |
| `BTreeRemove.Freed` | object_system/ofs_btree.c:992-1010 | Freeing an empty block leaves a table with a hole and the same list |
| `BTreeRemove.OutContents` | object_system/ofs_btree.c:664-677 | The list without the payload of the entry taken out |
| `Misplaced.Misplacing` | object_system/ofs_btree.c:1139-1178 | A concrete sound and ordered table, within all size limits, whose second entry is in the root and has a successor that does not fit in its place |
| `Misplaced.RemoveSecond` | object_system/ofs_btree.c:1181-1195 | Removing that entry from that table succeeds and leaves a sound table whose list is not the old one without it: the successor is there twice and another entry is gone |
| `AvlShape.ZipFlat` | public/avl.c:139-179 | The in-order list of the tree seen from any place: what is left of it, its subtree, what is right of it |
| `AvlShape.ZipBalanced` | public/avl.c:314-568 | A balanced subtree in surroundings that are balanced for its height makes a balanced tree, with the balance stored in every node the difference of its heights |
| `AvlEdit.UnzipBalanced` | public/avl.c:314-568 | Conversely, every subtree of a balanced tree is balanced and its surroundings are, for its height |
| `AvlShape.SizeBound` | public/avl.c:258-296 | A balanced tree of height h has at least Fib(h + 2) - 1 nodes |
| `AvlShape.OnePlace` | public/avl.c:139-179 | A node of the tree has one place in its in-order list |
| `AvlRotate.RotatedBalanced` | public/avl.c:314-479 | A rotation of a subtree that leans by two restores balance, and its height falls by one exactly unless the child was in balance |
| `AvlRotate.RotatedFlat` | public/avl.c:314-479 | A rotation keeps the in-order list and the set of nodes |
| `AvlRotate.SingleLinked` | public/avl.c:350-406 | The writes of a single rotation realise it: child, parent and index of every node in the whole tree |
| `AvlRotate.DoubleLinked` | public/avl.c:408-478 | So do the writes of a double rotation |
| `Avl.AvlTree.Rotation` | public/avl.c:314-479 | On a node of new balance -2 or 2 the tree has the rotated subtree in place, and the answer is true exactly if it became lower |
| `Avl.AvlTree.SingleRotation` | public/avl.c:350-406 | The pointer writes of case 1 |
| `Avl.AvlTree.DoubleRotation` | public/avl.c:408-478 | The pointer writes of case 2 |
| `Avl.AvlTree.Find` | public/avl.c:258-296 | Finds a node that compares equal, or the hole with all smaller nodes to its left and all larger ones to its right; the number n of comparisons is that of the nodes on the way, at most the height, and Fib(n + 2) - 1 at most the number of nodes |
| `Avl.AvlTree.End` | public/avl.c:186-217 | The first or the last node of the in-order list |
| `Avl.AvlTree.Walk` | public/avl.c:139-179 | The exact in-order neighbour, by links alone |
| `Avl.AvlTree.Nearest` | public/avl.c:229-245 | The node just before or just after a hole |
| `Avl.AvlTree.Insert` | public/avl.c:493-568 | The tree keeps all of its invariant - links, stored balances, node count - its list is the old one with the node in the hole, and the rotation routine is called at most once |
| `Avl.AvlTree.AddLeaf` | public/avl.c:493-525 | A new leaf hangs in the hole |
| `Avl.AvlTree.InsertHere` | public/avl.c:583-637 | The list is the old one with the node right before or right after the given one |
| `Avl.AvlTree.Add` | public/avl.c:643-660 | The list is the old one with the node between the smaller and the larger ones |
| `AvlEdit.Grown` | public/avl.c:527-567 | One step up after a subtree has become higher: what the stored balance says of the heights, and when a rotation is due |
| `AvlEdit.Shrunk` | public/avl.c:789-827 | One step up after a subtree has become lower |
| `Avl.AvlTree.Remove` | public/avl.c:686-829 | Deletes exactly the given node: the list is the old one without it, the set of nodes loses just that node, and links, stored balances and the node count are right again |
| `Avl.AvlTree.SwapNeighbour` | public/avl.c:709-755 | A node with two children changes places with its neighbour on the taller side, the left one if both are as high; the list misses just that node, and a placeholder with at most one child is left to remove |
| `Avl.AvlTree.NextNode` | public/avl.c:713-721 | Down one side and then the other: the in-order neighbour, which has no child on the far side |
| `Avl.AvlTree.Exchange` | public/avl.c:723-755 | The writes of the exchange through the placeholder realise it, also when the neighbour is a child of the node |
| `AvlEdit.ExchangeList` | public/avl.c:709-755 | The list after the exchange misses just the removed node |
| `AvlEdit.ExchangeBalanced` | public/avl.c:709-755 | The exchange keeps every stored balance right |
| `AvlEdit.ExchangeDone` | public/avl.c:723-755 | The writes, in their order, amount to replacing two nodes by two others in a well-linked tree |
| `Avl.AvlTree.Bypass` | public/avl.c:757-787 | A node with at most one child is unlinked |
| `Avl.AvlTree.Lowered` | public/avl.c:789-827 | One step of the rebalancing loop after a removal |
| `Avl.AvlTree.WalkAll` | public/avl.c:1055-1082 | Every node is visited once and in order until the callback ends the walk, even when it removes the node it is shown; what remains is the list without the removed nodes |
| `Avl.AvlTree.DestroyNodes` | public/avl.c:963-1053 | Hands out the nodes one per call, each off the tree, then reports the end with root and count cleared |
| `Avl.AvlTree.CheckRightSide` | public/avl.c:1025-1049 | After a left subtree, on to the first node of the right one; balance makes the asserted shapes true |
| `Avl.AvlTree.DestroyNext` | public/avl.c:984-1023 | One call after the first: cuts the last node off its parent and goes on |
| `Avl.AvlTree.Destroy` | public/avl.c:963-1053 | All calls together hand out every node once, in post-order |
| `Extents.TableExtents` | object_system/ofs_space_manager.c:43-82 | A table ordered by the extent rule is a list of disjoint ascending extents, and a search key compares equal to exactly the extents it overlaps |
| `KeyOrder.LooseMonotone` | object_system/ofs_btree.c:474-532 | A search is guided as well by a list in which entries stand twice |
| `KeyOrder.RemoveLoose` | object_system/ofs_btree.c:1139-1178 | A removal that goes wrong leaves such a list |
| `KeyOrder.RunLoose` | object_system/ofs_btree.c:932-973 | So is a list with entries standing twice, when it has lost a run |
| `Extents.TableEdits` | object_system/ofs_space_manager.c:84-156 | Inserting into the table inserts into the list of extents, removing removes, and a removal that goes wrong puts the next extent twice and loses another |
| `Extents.TableOverlaps` | object_system/ofs_space_manager.c:57-82 | An entry of the table compares equal to a range exactly if it shares a block with it, and some entry does exactly if some block of the range is free |
| `Extents.TableSides` | object_system/ofs_space_manager.c:57-82 | The entries a search leaves on either side lie below and above the range |
| `Extents.SlipBlocks` | object_system/ofs_space_manager.c:98-98 | A removal that goes wrong loses exactly the blocks of another extent |
| `Extents.SlipIsDeep` | object_system/ofs_space_manager.c:98-98 | Removing an extent can go wrong only in a block below the root and above the leaves that is full but for less than 14 bytes, so never in a table of two levels |
| `Extents.TotalIsSize` | object_system/ofs_space_manager.c:161-172 | In an ascending list of disjoint extents the summed lengths are the number of free blocks |
| `Extents.InBlocks` | object_system/ofs_space_manager.c:43-159 | A block is free exactly if some extent covers it |
| `Extents.CarveSorted` | object_system/ofs_space_manager.c:84-156 | Carving a run out of an extent leaves disjoint ascending extents |
| `Extents.CarveBlocks` | object_system/ofs_space_manager.c:84-156 | Carving loses exactly the run, and what lies behind the end the extent was taken to have |
| `Extents.NarrowingLoses` | object_system/ofs_space_manager.c:93-93 | Reading the length into 32 bits loses free blocks exactly if the length does not fit |
| `Space.SpaceManager.Seek` | object_system/ofs_space_manager.c:57-91 | The cursor of the table goes to an extent that overlaps the request if there is one, else to the next above, else to the lowest; nothing is found exactly if nothing is free |
| `Space.SpaceManager.FreeSpace` | object_system/ofs_space_manager.c:161-172 | Inserts a range into the table: refused, with nothing changed, exactly if it overlaps a free extent; fails otherwise only at the depth limit, never in a table with room for one extent more |
| `Space.SpaceManager.TakeExtent` | object_system/ofs_space_manager.c:98-103 | Removes the current extent from the table: the extents are the old ones without it if and only if the removal is not misplaced, which takes at least 220 extents in three levels; fails only near the depth limit |
| `Space.SpaceManager.PutRests` | object_system/ofs_space_manager.c:105-158 | Inserts what is left around the run: the extent is carved, or else another is lost with it, by how the removal went; adds at most two extents and two levels, and fails only if the levels before are that close to the limit |
| `Space.SpaceManager.AllocSpace` | object_system/ofs_space_manager.c:43-159 | The run comes from the extent found; the extents left are the old ones with the run carved out if and only if the removal of that extent from the table is not misplaced, and otherwise the blocks of another extent are lost as well; says exactly when an assertion of the code would fail; one extent more at most, and no error while the table has room for it or its depth is four below the limit |
| `Space.SpaceManager.AllocShort` | object_system/ofs_space_manager.c:43-159 | With lengths below 2^31 no assertion fails: the run is the one asked for, cut off only at the end of the extent it comes from, and the free blocks lose exactly the run if and only if the removal is not misplaced; the errors and the growth of the table are bounded as for the allocation it calls |
| `Space.SpaceManager.SmAllocSpace` | object_system/ofs_space_manager.c:212-253 | Between 1 and the wanted number of blocks, all of them free before; refused exactly when nothing is free. The run starts at the first free block noted, or where the extent starts that the search leads to; it is shorter than wanted only if that extent ends there, and the first free block noted is then the one behind it. The free blocks lose exactly these, and the count is right, if and only if no slip is recorded, and a recorded slip is a misplaced removal from this very table, when it had at least three levels and 220 extents. With room for an extent more, or two levels and the depth limit four away, nothing goes wrong |
| `Extents.ServedNearest` | object_system/ofs_space_manager.c:43-159 | The run begins within the range asked for if any block of it is free, else at the first free block behind it, else at the first free block of all, and every block of it was free |
| `Space.SlipNeeds` | object_system/ofs_space_manager.c:98-98 | A recorded slip was in a table of at least three levels, at a block full but for less than 14 bytes |
| `Space.SpaceManager.constructor` | object_system/ofs_space_manager.c:174-194 | A new manager has all of its blocks in one extent |
| `Space.SpaceManager.SmFreeSpace` | object_system/ofs_space_manager.c:255-268 | Gives a range back with the count right; refused, with nothing changed, exactly if it overlaps free space; an error of the table only if that was at the depth limit before |
| `Space.SpaceManager.OneBlock` | object_system/ofs_space_manager.c:270-308 | A table of one level owns no block but its root and its free ones |
| `Space.KeptOn` | object_system/ofs_space_manager.c:212-268 | What two calls do to a manager, one after the other: the growth of its table and the errors it may have add up, and a slip is one of a table allocated from in between |
| `Space.KeptCalm` | object_system/ofs_space_manager.c:212-268 | From a table with room for the extents the calls insert nothing has gone wrong after them, and the room left over is still there |
| `Space.Container.constructor` | object_system/ofs_space_manager.c:183-194 | A fresh container has all of its blocks free in the top tier and none in the one below |
| `Space.Container.ReserveBaseSpace` | object_system/ofs_space_manager.c:270-308 | Ends after at most five allocations; as long as nothing has gone wrong with a table: on success there is a spare block and more than MIN_BLK_NUM blocks for the space tree, on failure nothing is left in the top tier. What leaves the top tier is the spare block, if there was none, or free in the tier below, and nothing is done where enough is there. What it may do to the sizes of both tables is bounded, so that tables with that much room stay right |
| `Space.Container.ReserveBlock` | object_system/ofs_space_manager.c:276-286 | A block of the top tier becomes the spare block, and the tier loses just that block; or nothing is left there |
| `Space.Container.MoveBlocks` | object_system/ofs_space_manager.c:288-305 | One round: a run, as long as is missing to MAX_BLK_NUM or ending with an extent, leaves the top tier and is free in the one below, which counts it |
| `Space.Container.FillBase` | object_system/ofs_space_manager.c:288-305 | The rounds together: at most four, none if there are enough blocks already |
| `Space.Container.OfsAllocSpace` | object_system/ofs_space_manager.c:314-341 | The blocks come from the tier of their owner: the run lies in its free space and is what was asked for, or ends with an extent, and that space loses just the run; an ordinary object's allocation fills the reserve first. If both tables have room before the call for the few extents it may add, or for one allocation if at most one is made, or have at most two levels then: the free set of each tier, the spare block and the blocks each owner holds are disjoint after it, with the same union as before; the owner gains exactly the returned run. A base table of one block with fewer than 143 extents is one block afterwards |
| `Space.Container.AllocOther` | object_system/ofs_space_manager.c:314-341 | The branch for ordinary objects, after the reserve has been filled: the run leaves the top tier and nothing else does |
| `Space.Container.OfsFreeSpace` | object_system/ofs_space_manager.c:343-360 | Giving back: the blocks are free in the tier of their owner, the other tier is untouched, and the owner holds them no more. It is not refused for blocks the owner holds as long as nothing has gone wrong: with room for one extent, or below the depth limit, every block is in exactly one place afterwards |
| `Space.Container.MoveBaseRoot` | object_system/ofs_space_manager.c:314-360 | With a base tree of one block, taking a block and giving the old root back swaps the spare block and the root |
| `Extents.PartsApart` | object_system/ofs_space_manager.c:270-360 | What the sum over all places says: no block is in two of them, and none is block 0 |
| `PingPong.AssembleBlock` | object_system/ofs_block_rw.c:42-55 | The block in memory becomes its stamped form |
| `PingPong.FixupBlock` | object_system/ofs_block_rw.c:57-79 | Restores a block exactly if head and foot agree, else leaves it alone |
| `PingPong.VerifyBlock` | object_system/ofs_block_rw.c:81-109 | Accepts exactly a block with the identifier, the size, and a used size between the header and the size, both included |
| `PingPong.LegalReadBack` | object_system/ofs_block_rw.c:42-168 | What is written of any block with the right identifier and sizes is accepted when it is read, and restored but for its number and the kept foot |
| `PingPong.StampedRestored` | object_system/ofs_block_rw.c:42-79 | Stamping then restoring gives the block back but for its number, which goes up, and the kept foot |
| `PingPong.StampSlot` | object_system/ofs_block_rw.c:205-205 | The slot computed from the 16-bit number is the slot of the write, however often the number has wrapped |
| `PingPong.Rounds` | object_system/ofs_block_rw.c:278-345 | Within one round of the slots the stamps count up without a wrap, and the stamps of different rounds differ |
| `PingPong.FirstCopyWhole` | object_system/ofs_block_rw.c:189-237 | The first copy, of which only the used bytes are written, is whole exactly if those cover the foot or the foot happens to read as the number |
| `PingPong.SequenceEnds` | object_system/ofs_block_rw.c:291-312 | The first loop of the recovery stops at the newest whole copy or at a torn attempt at the next |
| `PingPong.GetLastCorrectBlock` | object_system/ofs_block_rw.c:278-345 | Over every state that updates can reach, the newest fully written image is found and restored |
| `PingPong.Volume.constructor` | object_system/ofs_block_rw.c:189-237 | The first write of a block numbered 0 |
| `PingPong.Volume.UpdateBlockPingpong` | object_system/ofs_block_rw.c:239-276 | A whole write makes its image the newest; a write torn anywhere leaves the newest image as it was, in a slot the next write does not touch |
| `PingPong.Volume.ReadBlockPingpong` | object_system/ofs_block_rw.c:347-395 | Reading gets the used bytes of the newest whole image back, with a head that is ready for the next update |
| `Collate.CollateBinary` | object_system/ofs_collate.c:69-116 | Equals the comparison of the two byte strings as big-endian numbers of any length |
| `Collate.CollateString` | object_system/ofs_collate.c:124-209 | Equals lexicographic comparison after folding each character, for one- and two-byte characters |
| `Collate.CmpLexLess` | object_system/ofs_collate.c:170-206 | A string is less exactly if at the first difference its letter is the smaller one once folded, or if it ends where the other goes on |
| `Collate.CmpLexSym` | object_system/ofs_collate.c:170-209 | The string order is antisymmetric |
| `Collate.CmpLexTrans` | object_system/ofs_collate.c:170-209 | ... and transitive |
| `Collate.CmpLexEqual` | object_system/ofs_collate.c:170-209 | Strings compare equal exactly if they are equal letter by letter once folded |
| `Collate.BstrToU64` | object_system/ofs_collate.c:212-228 | Reads up to eight bytes as the little-endian number they spell |
| `Collate.U64Size` | object_system/ofs_collate.c:231-254 | The least number of bytes, at least one, that holds the number |
| `Collate.U64ToBstr` | object_system/ofs_collate.c:257-275 | Decodes back to the number, and no other non-empty string that does is shorter |
| `Collate.CollateU64` | object_system/ofs_collate.c:284-300 | Compares the numbers |
| `Collate.CollateExtent` | object_system/ofs_collate.c:351-378 | The comparison with 64-bit wrap-around of the ends; the order of extents if they end within 64 bits |
| `Collate.ExtentOrder` | object_system/ofs_collate.c:351-378 | Extents compare equal exactly if they share a block, and less exactly if every block of one lies below every block of the other |
| `Collate.ExtentToExtentPair` | object_system/ofs_collate.c:302-330 | One byte for the size of the start, the start, the length, each with as few bytes as it needs: decodes back, and no other pair that does is shorter; nothing for an extent of no blocks |
| `Collate.ExtentPairToExtent` | object_system/ofs_collate.c:332-343 | Decodes what was packed, and reports a pair too short |
| `Collate.CollateKey` | object_system/ofs_collate.c:382-417 | The comparison a table's rule stands for, which is the order the rule names |
| `Collate.CmpPrecedes` | object_system/ofs_collate.c:382-417 | Under every rule a key compares less exactly if it comes before the other: as a big-endian or little-endian number, in dictionary order, with all its blocks below, or by its start if no length is given |
| `Collate.CmpSym` | object_system/ofs_collate.c:382-417 | Every rule is antisymmetric on keys fit for it |
| `Collate.CmpTrans` | object_system/ofs_collate.c:382-417 | Every rule is transitive against any key looked for, extents without a length included |
| `Collate.CanonEqual` | object_system/ofs_collate.c:382-417 | Keys compare equal exactly if they have the same canonical form |
| `MetadataCache.ObjectInfo.InsertObjCache` | object_system/ofs_metadata_cache.c:60-70 | The block is in both indexes, which are otherwise as before and in order |
| `MetadataCache.ObjectInfo.RemoveObjCache` | object_system/ofs_metadata_cache.c:72-82 | The block is in neither index, which are otherwise as before and in order |
| `MetadataCache.ObjectInfo.ChangeObjCacheVbn` | object_system/ofs_metadata_cache.c:85-90 | Both indexes stay in order and hold the same blocks under the new number |
| `MetadataCache.ObjectInfo.ReleaseObjCache` | object_system/ofs_metadata_cache.c:172-188 | A dirty block only leaves its object and is marked; any other leaves both indexes and is freed |
| `MetadataCache.ObjectInfo.ReleaseObjAllCache` | object_system/ofs_metadata_cache.c:190-197 | After the walk every dirty block waits in the container's index, every other one is freed, and other objects' blocks are untouched |
| `MetadataCache.ObjectInfo.IndexBlockRead2` | object_system/ofs_metadata_cache.c:201-246 | The cached block of a number; one read from the disk is good exactly if its head has the identifier, the size and a used size within it and its stamps agree, and else stays cached but empty |
| `MetadataCache.ObjectInfo.ReadBack` | object_system/ofs_metadata_cache.c:201-246 | A block with the right identifier and sizes, full ones included, that has been written under its number and is no longer cached is read back as it was, but for its number of updates and the word that keeps the foot |
| `MetadataCache.ObjectInfo.CloseAndFlush` | object_system/ofs_metadata_cache.c:190-197 | Releasing an object and flushing leaves on the disk, at its number, the content of every dirty block, and none was freed unwritten |
| `MetadataCache.Container.UpdateBlockFixup` | object_system/ofs_block_rw.c:111-139 | The disk holds the stamped block at its number, and the block in memory is restored |
| `MetadataCache.Container.FlushFsDirtyCache` | object_system/ofs_metadata_cache.c:286-318 | A dirty block is written, and freed if released; any other is left alone |
| `MetadataCache.Container.FlushFsCache` | object_system/ofs_metadata_cache.c:321-351 | Every dirty block of the container is written once, the released ones are freed after that, and the rest of the disk is as before |
| `MetadataCache.OmitAscending` | object_system/ofs_metadata_cache.c:72-82 | An index stays in order without a block |
| `MetadataCache.AvlAdd` | object_system/ofs_metadata_cache.c:60-70 | An index with a block added is in order and gives the old one back when it is taken out |

## Left out

- BTree.Table.TreeInsertIe: at the depth limit the failed insertion has already split blocks below; which run of entries its list lacks then (`LosesRun`) is not said.
- BTree.Table.ReparentRoot: it refuses by the depth of the last leaf reached below the root, which is out of date once the table has shrunk to its root; the contract names that field and not the depth of the table.
- BTree.Table.RemoveLeaf: for a removal that is refused only a necessary condition is stated, on the levels before; the exact one is that of `BTree.Table.TreeInsertIe` for the table in the middle of the removal.
- BTree.Table.RemoveNext: the same.
- BTree.Table.RemoveNode: the same.
- BTree.Table.TreeRemoveIe: the same.
- BTree.Table.IndexRemoveKey: which other entry goes when the replacement splits the block is not stated, only that it is neither copy of the successor, because it depends on how far the split went; for a refusal the same as for `BTree.Table.RemoveLeaf`.
- BTree.Table.CheckRemovedIb: freed blocks leave the heap at once; the code keeps an empty cache entry under the freed number, which the assumption on handed-out numbers makes unobservable.
- BTree.Table.SetIbDirty: the cached block moves within the model's heap in one step; re-keying it in the two indexes of the cache is `MetadataCache.ObjectInfo.ChangeObjCacheVbn`.
- PingPong.Volume.constructor: the very first write is not torn; a volume whose formatting was cut off has nothing to recover.
- Misplaced.RemoveSecond: that a sequence of insertions leads to the table is not shown.
- PingPong.GetLastCorrectBlock: slots that were never written by the protocol, or are damaged other than by a torn write, are not considered.
- Space.SpaceManager.SmAllocSpace: of a manager whose table has slipped it says only that the table can still be searched and what may be returned, because its free space no longer is what it should be.
- Space.Container.OfsAllocSpace: for tables that are neither `Calm` nor `Low` before a call it says only what holds if nothing has gone wrong after it; changes of the space tree and the base tree that an allocation sets off inside itself appear as separate allocations by the owners `SpaceTree` and `BaseTree`, in any order; the block numbers of these trees come from supplies given in advance.
- Space.Container.OfsFreeSpace: giving back blocks the owner does not hold is left to the callers, who do not do it.
- MetadataCache.ObjectInfo.CloseAndFlush: reopening the object before the flush, which would not find its released dirty blocks, is not modelled.
- MetadataCache.Container.FlushFsCache: the update of the superblock at the end of a flush is left to the ping-pong model.
- Positions in a block are ordinal numbers of entries; `IndexBlock.OffsetIsPrefixSize` and `IndexBlock.OffsetsOrder` relate them to the byte offsets the code uses.
- A copied END entry left in a dangling pointer: after `remove_ie` in the END case the code goes on with the shifted END, which is what the model names.
- The two-byte string rule is not one of the rules of a table: its caller passes byte lengths to a loop that counts characters, which reads behind the keys. The loop itself is `Collate.CollateString`.
- os_collate_binary reads one byte behind a string of zeros before it stops at the length; the byte does not influence the result and is not modelled.
- index_update_value, index_get_total_key and index_get_target_key: removal and insertion, or walks, over again.
- The walk flags that add or remove the block of a key (`INDEX_ADD_BLOCK`, `INDEX_REMOVE_BLOCK`): page handling by the caller's callback.
- avl_update, avl_update_lt and avl_update_gt: a removal and an insertion when a key has changed.
- Packing of parent, index and balance into one pointer word, and offsets of links within the caller's structure.
- The indexes of the metadata cache are in-order lists there; the AVL model says why they may be.
- Crash consistency of the whole store, which its own documentation lists as not done.
- Containers, objects, names, reference counts, locks, logging, commands, server and tools.
