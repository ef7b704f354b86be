/**
  One index block of the B-tree: a chain of variable-length entries, threaded
  forwards by `len` and backwards by `prevLen`, from a BEGIN entry kept in the
  block header to an END entry that is always last.

  Node edits are modelled on the entry sequence: an entry pointer is an ordinal
  into `entries`, and `Offset` gives the byte offset it stands for.
*/
module IndexBlock {
  type uint8 = x: int | 0 <= x < 0x100
  type Bytes = seq<uint8>
  type Vbn = nat

  datatype KV = KV(key: Bytes, value: Bytes)

  const ENTRY_HEAD_SIZE := 9          // sizeof(index_entry_t), packed
  const FIRST_ENTRY_OFF := 33         // sizeof(index_block_t), packed
  const VBN_SIZE := 8
  const KEY_MAX_SIZE := 256
  const VALUE_MAX_SIZE := 1024
  const ENTRY_MAX_SIZE := 1297        // head + longest key + longest value + vbn
  const BLOCK_SIZE := 4096
  const ROOT_SIZE := 3722             // the root lives in the attribute area of its inode

  /** An entry as it lies in the block.  A leaf entry has no vbn field; here it is 0. */
  datatype IndexEntry = IndexEntry(len: nat, prevLen: nat, key: Bytes, value: Bytes,
                                   isNode: bool, isEnd: bool, isBegin: bool, vbn: Vbn)

  datatype IndexBlock = IndexBlock(allocSize: nat, realSize: nat, large: bool,
                                   begin: IndexEntry, entries: seq<IndexEntry>)

  /** What an entry says, with its place in the chain left out. */
  datatype Ent = Ent(key: Bytes, value: Bytes, vbn: Vbn) | End(vbn: Vbn)

  function EntLen(e: Ent, large: bool): nat {
    ENTRY_HEAD_SIZE + (if e.Ent? then |e.key| + |e.value| else 0) + (if large then VBN_SIZE else 0)
  }

  function TotalLen(es: seq<Ent>, large: bool): nat {
    if es == [] then 0 else EntLen(es[0], large) + TotalLen(es[1..], large)
  }

  /** The bytes a block with these entries occupies. */
  function ViewSize(es: seq<Ent>, large: bool): nat {
    FIRST_ENTRY_OFF + TotalLen(es, large)
  }

  predicate EntOk(e: Ent) {
    e.Ent? ==> 1 <= |e.key| <= KEY_MAX_SIZE && |e.value| <= VALUE_MAX_SIZE
  }

  function Strip(ie: IndexEntry): Ent {
    if ie.isEnd then End(ie.vbn) else Ent(ie.key, ie.value, ie.vbn)
  }

  function Strips(ies: seq<IndexEntry>): (es: seq<Ent>)
    ensures |es| == |ies|
    ensures forall i :: 0 <= i < |es| ==> es[i] == Strip(ies[i])
  {
    seq(|ies|, i requires 0 <= i < |ies| => Strip(ies[i]))
  }

  function View(ib: IndexBlock): (es: seq<Ent>) {
    Strips(ib.entries)
  }

  function BeginEntry(): IndexEntry {
    IndexEntry(ENTRY_HEAD_SIZE, 0, [], [], false, false, true, 0)
  }

  /** One entry's own fields agree with each other and with the kind of its block. */
  predicate EntryOk(ie: IndexEntry, large: bool) {
    && ie.isNode == large && !ie.isBegin
    && (ie.isEnd ==> ie.key == [] && ie.value == [])
    && (!large ==> ie.vbn == 0)
    && ie.len == ENTRY_HEAD_SIZE + |ie.key| + |ie.value| + (if large then VBN_SIZE else 0)
  }

  predicate EntriesOk(ies: seq<IndexEntry>, large: bool) {
    forall i :: 0 <= i < |ies| ==> EntryOk(ies[i], large)
  }

  /** Each entry records the length of the one before it; `prev` is what precedes the first. */
  predicate Threaded(prev: nat, ies: seq<IndexEntry>)
    decreases ies
  {
    ies == [] || (ies[0].prevLen == prev && Threaded(ies[0].len, ies[1..]))
  }

  function LastLen(prev: nat, ies: seq<IndexEntry>): nat {
    if ies == [] then prev else ies[|ies| - 1].len
  }

  /** END appears once and last. */
  predicate EndLast(es: seq<Ent>) {
    && |es| >= 1 && es[|es| - 1].End?
    && forall i :: 0 <= i < |es| - 1 ==> es[i].Ent?
  }

  /** The doubly threaded length chain of a whole block. */
  predicate Chained(ib: IndexBlock) {
    && ib.begin == BeginEntry()
    && EntriesOk(ib.entries, ib.large)
    && Threaded(ib.begin.len, ib.entries)
    && EndLast(View(ib))
    && ib.realSize == ViewSize(View(ib), ib.large)
  }

  // ----- concatenation -----

  lemma {:induction false} TotalLenConcat(a: seq<Ent>, b: seq<Ent>, large: bool)
    ensures TotalLen(a + b, large) == TotalLen(a, large) + TotalLen(b, large)
  {
    if a == [] {
      assert a + b == b;
    } else {
      assert (a + b)[1..] == a[1..] + b;
      TotalLenConcat(a[1..], b, large);
    }
  }

  lemma {:induction false} ThreadedConcat(prev: nat, a: seq<IndexEntry>, b: seq<IndexEntry>)
    ensures Threaded(prev, a + b) <==> Threaded(prev, a) && Threaded(LastLen(prev, a), b)
    decreases a
  {
    if a == [] {
      assert a + b == b;
    } else {
      assert (a + b)[1..] == a[1..] + b;
      ThreadedConcat(a[0].len, a[1..], b);
    }
  }

  lemma EndLastSplice(es: seq<Ent>, p: nat, run: seq<Ent>, q: nat)
    requires p <= q < |es| && EndLast(es) && forall i :: 0 <= i < |run| ==> run[i].Ent?
    ensures EndLast(es[..p] + run + es[q..])
  {
  }

  lemma TotalLenOne(e: Ent, large: bool)
    ensures TotalLen([e], large) == EntLen(e, large)
  {
    assert TotalLen([e], large) == EntLen(e, large) + TotalLen([], large);
  }

  lemma TotalLenAt(a: seq<Ent>, i: nat, large: bool)
    requires i < |a|
    ensures TotalLen(a, large) == TotalLen(a[..i], large) + EntLen(a[i], large) + TotalLen(a[i+1..], large)
    ensures TotalLen(a[..i+1], large) == TotalLen(a[..i], large) + EntLen(a[i], large)
    ensures TotalLen(a[i..], large) == EntLen(a[i], large) + TotalLen(a[i+1..], large)
  {
    assert a == a[..i+1] + a[i+1..] && a[..i+1] == a[..i] + [a[i]] && a[i..] == [a[i]] + a[i+1..];
    TotalLenConcat(a[..i+1], a[i+1..], large);
    TotalLenConcat(a[..i], [a[i]], large);
    TotalLenConcat([a[i]], a[i+1..], large);
    TotalLenOne(a[i], large);
  }

  /** Entry `i` split out of a chain. */
  lemma ChainAt(prev: nat, ies: seq<IndexEntry>, i: nat)
    requires i < |ies| && Threaded(prev, ies)
    ensures Threaded(prev, ies[..i]) && ies[i].prevLen == LastLen(prev, ies[..i])
    ensures Threaded(ies[i].len, ies[i+1..])
  {
    ThreadedConcat(prev, ies[..i], ies[i..]);
    assert ies == ies[..i] + ies[i..];
    assert ies[i..][1..] == ies[i+1..];
  }

  /** A chain with entry `i` replaced or extended in place. */
  lemma ChainJoin(prev: nat, a: seq<IndexEntry>, ie: IndexEntry, b: seq<IndexEntry>)
    requires Threaded(prev, a) && ie.prevLen == LastLen(prev, a) && Threaded(ie.len, b)
    ensures Threaded(prev, a + [ie] + b)
  {
    assert ([ie] + b)[1..] == b;
    ThreadedConcat(prev, a, [ie] + b);
    assert a + [ie] + b == a + ([ie] + b);
  }

  // ----- offsets -----

  /** Byte offset of entry `i` from the start of the block. */
  function Offset(ib: IndexBlock, i: nat): nat
    requires i <= |ib.entries|
  {
    if i == 0 then FIRST_ENTRY_OFF else Offset(ib, i - 1) + ib.entries[i - 1].len
  }

  lemma {:induction false} OffsetIsPrefixSize(ib: IndexBlock, i: nat)
    requires EntriesOk(ib.entries, ib.large) && i <= |ib.entries|
    ensures Offset(ib, i) == ViewSize(View(ib)[..i], ib.large)
  {
    if i > 0 {
      OffsetIsPrefixSize(ib, i - 1);
      TotalLenAt(View(ib), i - 1, ib.large);
    }
  }

  /** GET_NEXT_IE and GET_PREV_IE move between neighbouring offsets and undo each other,
      BEGIN lies just before the first entry, and END, and only END, reaches to `realSize`. */
  lemma ChainNavigates(ib: IndexBlock, i: nat)
    requires Chained(ib) && i < |ib.entries|
    ensures Offset(ib, i) + ib.entries[i].len == Offset(ib, i + 1)
    ensures i > 0 ==> Offset(ib, i) - ib.entries[i].prevLen == Offset(ib, i - 1)
    ensures i == 0 ==> Offset(ib, i) - ib.entries[i].prevLen == FIRST_ENTRY_OFF - ENTRY_HEAD_SIZE
    ensures ib.entries[i].isEnd <==> Offset(ib, i + 1) == ib.realSize
  {
    assert ib.entries[i].prevLen == LastLen(ib.begin.len, ib.entries[..i]) by {
      ChainAt(ib.begin.len, ib.entries, i);
    }
    OffsetIsPrefixSize(ib, i + 1);
    RestLen(View(ib), i, ib.large);
    assert View(ib)[i] == Strip(ib.entries[i]);
  }

  lemma RestLen(es: seq<Ent>, i: nat, large: bool)
    requires EndLast(es) && i < |es|
    ensures TotalLen(es, large) == TotalLen(es[..i+1], large) + TotalLen(es[i+1..], large)
    ensures es[i].End? <==> TotalLen(es[i+1..], large) == 0
  {
    TotalLenAt(es, i, large);
    if i + 1 < |es| {
      TotalLenAt(es[i+1..], 0, large);
    } else {
      assert es[i+1..] == [];
    }
  }

  /** The order of byte offsets is the order of ordinals, so comparing entry
      pointers (as the split does) compares ordinals. */
  lemma {:induction false} OffsetsOrder(ib: IndexBlock, i: nat, j: nat)
    requires Chained(ib) && i < j <= |ib.entries|
    ensures Offset(ib, i) < Offset(ib, j)
  {
    if i < j - 1 {
      OffsetsOrder(ib, i, j - 1);
    }
  }

  // ----- node edits -----

  method InitIb(large: bool, allocSize: nat) returns (ib: IndexBlock)
    ensures Chained(ib) && View(ib) == [End(0)]
    ensures ib.large == large && ib.allocSize == allocSize
  {
    var realSize := FIRST_ENTRY_OFF + ENTRY_HEAD_SIZE + (if large then VBN_SIZE else 0);
    var ie := IndexEntry(ENTRY_HEAD_SIZE + (if large then VBN_SIZE else 0), ENTRY_HEAD_SIZE,
                         [], [], large, true, false, 0);
    ib := IndexBlock(allocSize, realSize, large, BeginEntry(), [ie]);
    assert View(ib) == [End(0)];
    TotalLenOne(End(0), large);
  }

  /** Turns the emptied root into a block without children. */
  method MakeIbSmall(ib: IndexBlock) returns (ib': IndexBlock)
    requires Chained(ib)
    ensures Chained(ib') && View(ib') == [End(0)]
    ensures !ib'.large && ib'.allocSize == ib.allocSize
  {
    var ie := IndexEntry(ENTRY_HEAD_SIZE, ENTRY_HEAD_SIZE, [], [], false, true, false, 0);
    ib' := ib.(realSize := FIRST_ENTRY_OFF + ENTRY_HEAD_SIZE, large := false,
               begin := BeginEntry(), entries := [ie]);
    assert View(ib') == [End(0)];
    TotalLenOne(End(0), false);
  }

  lemma {:induction false} ReplacedSize(es: seq<Ent>, pos: nat, e: Ent, large: bool)
    requires pos < |es| && EntLen(e, large) == EntLen(es[pos], large)
    ensures ViewSize(es[pos := e], large) == ViewSize(es, large)
  {
    TotalLenAt(es, pos, large);
    TotalLenAt(es[pos := e], pos, large);
    assert es[pos := e][..pos] == es[..pos] && es[pos := e][pos+1..] == es[pos+1..];
  }

  method SetIeVbn(ib: IndexBlock, pos: nat, vbn: Vbn) returns (ib': IndexBlock)
    requires Chained(ib) && ib.large && pos < |ib.entries|
    ensures Chained(ib') && ib'.large && ib'.allocSize == ib.allocSize
    ensures View(ib') == View(ib)[pos := View(ib)[pos].(vbn := vbn)]
  {
    var ie := ib.entries[pos].(vbn := vbn);
    ib' := ib.(entries := ib.entries[pos := ie]);
    ReplacedSize(View(ib), pos, View(ib)[pos].(vbn := vbn), true);
    assert View(ib') == View(ib)[pos := View(ib)[pos].(vbn := vbn)];
    assert Threaded(ib.begin.len, ib'.entries) by {
      assert ib'.entries == ib.entries[..pos] + [ie] + ib.entries[pos+1..];
      ChainAt(ib.begin.len, ib.entries, pos);
      ChainJoin(ib.begin.len, ib.entries[..pos], ie, ib.entries[pos+1..]);
    }
  }

  /** `next` is the entry after `pos`, re-threaded to skip it. */
  lemma RemovedChain(prev: nat, ies: seq<IndexEntry>, next: IndexEntry, pos: nat)
    requires pos + 1 < |ies| && Threaded(prev, ies)
    requires next == ies[pos + 1].(prevLen := ies[pos].prevLen)
    ensures Threaded(prev, ies[..pos] + [next] + ies[pos+2..])
  {
    ChainAt(prev, ies, pos);
    ChainAt(prev, ies, pos + 1);
    ChainJoin(prev, ies[..pos], next, ies[pos+2..]);
  }

  /** Re-threading an entry does not change what it says. */
  lemma Rethreaded(ies: seq<IndexEntry>, i: nat, prevLen: nat, large: bool)
    requires i < |ies| && EntriesOk(ies, large)
    ensures Strips(ies[i := ies[i].(prevLen := prevLen)]) == Strips(ies)
    ensures EntriesOk(ies[i := ies[i].(prevLen := prevLen)], large)
  {
  }

  lemma RemovedView(ies: seq<IndexEntry>, next: IndexEntry, pos: nat, large: bool)
    requires pos + 1 < |ies| && EntriesOk(ies, large) && EndLast(Strips(ies))
    requires next == ies[pos + 1].(prevLen := ies[pos].prevLen)
    ensures EntriesOk(ies[..pos] + [next] + ies[pos+2..], large)
    ensures Strips(ies[..pos] + [next] + ies[pos+2..]) == Strips(ies)[..pos] + Strips(ies)[pos+1..]
    ensures EndLast(Strips(ies[..pos] + [next] + ies[pos+2..]))
  {
    EndLastSplice(Strips(ies), pos, [], pos + 1);
    assert Strips(ies)[..pos] + [] + Strips(ies)[pos+1..] == Strips(ies)[..pos] + Strips(ies)[pos+1..];
  }

  method RemoveIe(ib: IndexBlock, pos: nat) returns (ib': IndexBlock)
    requires Chained(ib) && pos < |ib.entries| - 1
    ensures Chained(ib') && ib'.large == ib.large && ib'.allocSize == ib.allocSize
    ensures View(ib') == View(ib)[..pos] + View(ib)[pos+1..]
  {
    var ie := ib.entries[pos];
    var next := ib.entries[pos + 1].(prevLen := ie.prevLen);
    RemovedSize(View(ib), pos, ib.large);
    ib' := ib.(realSize := ib.realSize - ie.len,
               entries := ib.entries[..pos] + [next] + ib.entries[pos+2..]);
    RemovedView(ib.entries, next, pos, ib.large);
    RemovedChain(ib.begin.len, ib.entries, next, pos);
  }

  lemma RemovedSize(es: seq<Ent>, pos: nat, large: bool)
    requires pos < |es|
    ensures ViewSize(es, large) == ViewSize(es[..pos] + es[pos+1..], large) + EntLen(es[pos], large)
  {
    TotalLenAt(es, pos, large);
    TotalLenConcat(es[..pos], es[pos+1..], large);
  }

  lemma InsertedChain(prev: nat, ies: seq<IndexEntry>, ie: IndexEntry, at: IndexEntry, pos: nat)
    requires pos < |ies| && Threaded(prev, ies)
    requires ie.prevLen == ies[pos].prevLen && at == ies[pos].(prevLen := ie.len)
    ensures Threaded(prev, ies[..pos] + [ie, at] + ies[pos+1..])
  {
    ChainAt(prev, ies, pos);
    ChainJoin(ie.len, [], at, ies[pos+1..]);
    assert [] + [at] + ies[pos+1..] == [at] + ies[pos+1..];
    ChainJoin(prev, ies[..pos], ie, [at] + ies[pos+1..]);
    assert ies[..pos] + [ie, at] + ies[pos+1..] == ies[..pos] + [ie] + ([at] + ies[pos+1..]);
  }

  lemma InsertedView(ies: seq<IndexEntry>, ie: IndexEntry, at: IndexEntry, pos: nat, large: bool)
    requires pos < |ies| && EntriesOk(ies, large) && EndLast(Strips(ies))
    requires EntryOk(ie, large) && !ie.isEnd && at == ies[pos].(prevLen := ie.len)
    ensures EntriesOk(ies[..pos] + [ie, at] + ies[pos+1..], large)
    ensures Strips(ies[..pos] + [ie, at] + ies[pos+1..]) == Strips(ies)[..pos] + [Strip(ie)] + Strips(ies)[pos..]
    ensures EndLast(Strips(ies[..pos] + [ie, at] + ies[pos+1..]))
  {
    EndLastSplice(Strips(ies), pos, [Strip(ie)], pos);
  }

  method InsertIe(ib: IndexBlock, ie: IndexEntry, pos: nat) returns (ib': IndexBlock)
    requires Chained(ib) && pos < |ib.entries|
    requires EntryOk(ie, ib.large) && !ie.isEnd
    ensures Chained(ib') && ib'.large == ib.large && ib'.allocSize == ib.allocSize
    ensures View(ib') == View(ib)[..pos] + [Strip(ie)] + View(ib)[pos..]
    ensures ib'.realSize == ib.realSize + ie.len
  {
    var at := ib.entries[pos];
    var newIe := ie.(prevLen := at.prevLen);
    at := at.(prevLen := ie.len);
    ib' := ib.(realSize := ib.realSize + ie.len,
               entries := ib.entries[..pos] + [newIe, at] + ib.entries[pos+1..]);
    InsertedView(ib.entries, newIe, at, pos, ib.large);
    InsertedChain(ib.begin.len, ib.entries, newIe, at, pos);
    InsertedSize(View(ib), Strip(ie), pos, ib.large);
  }

  lemma InsertedSize(es: seq<Ent>, e: Ent, pos: nat, large: bool)
    requires pos <= |es|
    ensures ViewSize(es[..pos] + [e] + es[pos..], large) == ViewSize(es, large) + EntLen(e, large)
  {
    TotalLenConcat(es[..pos], es[pos..], large);
    assert es == es[..pos] + es[pos..];
    TotalLenConcat(es[..pos] + [e], es[pos..], large);
    TotalLenConcat(es[..pos], [e], large);
    TotalLenOne(e, large);
  }

  /** A copy of the entry that carries a child link. */
  method DumpIeAddVbn(ie: IndexEntry, vbn: Vbn) returns (newIe: IndexEntry)
    requires EntryOk(ie, ie.isNode) && !ie.isEnd
    ensures EntryOk(newIe, true) && Strip(newIe) == Ent(ie.key, ie.value, vbn) && !newIe.isEnd
  {
    var size := ie.len;
    if !ie.isNode {
      size := size + VBN_SIZE;
    }
    newIe := ie.(len := size, isNode := true, vbn := vbn);
  }

  /** A copy of the entry without its child link. */
  method DumpIeDelVbn(ie: IndexEntry) returns (newIe: IndexEntry)
    requires EntryOk(ie, ie.isNode) && !ie.isEnd
    ensures EntryOk(newIe, false) && Strip(newIe) == Ent(ie.key, ie.value, 0) && !newIe.isEnd
  {
    var size := ie.len;
    if ie.isNode {
      size := size - VBN_SIZE;
    }
    newIe := ie.(len := size, isNode := false, vbn := 0);
  }

  /** A source block whose tail has been copied out: sound only as far as `mid`. */
  predicate ChainedUpTo(ib: IndexBlock, mid: nat)
    requires mid < |ib.entries|
  {
    && ib.begin == BeginEntry()
    && EntriesOk(ib.entries, ib.large)
    && Threaded(ib.begin.len, ib.entries[..mid+1])
    && EndLast(View(ib))
  }

  /** Copies the entries after `mid` into a new block.  The first copied entry is re-threaded
      in the source before the copy, so the source's own chain is good only up to `mid`. */
  method CopyIbTail(src: IndexBlock, mid: nat) returns (dst: IndexBlock, src': IndexBlock)
    requires Chained(src) && mid < |src.entries| - 1
    ensures Chained(dst) && dst.large == src.large && dst.allocSize == src.allocSize
    ensures View(dst) == View(src)[mid+1..]
    ensures |src'.entries| == |src.entries| && ChainedUpTo(src', mid) && View(src') == View(src)
    ensures src'.large == src.large && src'.allocSize == src.allocSize
    ensures src'.entries[mid] == src.entries[mid]
  {
    dst := InitIb(src.large, src.allocSize);
    var next := src.entries[mid + 1].(prevLen := ENTRY_HEAD_SIZE);
    src' := src.(entries := src.entries[mid + 1 := next]);
    Rethreaded(src.entries, mid + 1, ENTRY_HEAD_SIZE, src.large);
    HeadThreaded(src.begin.len, src.entries, mid);
    TailThreaded(src.begin.len, src.entries, mid + 1);
    TailLen(src, mid + 1);
    TailView(src.entries, src'.entries, mid + 1, src.large);
    var tailSize := src.realSize - Offset(src, mid + 1);
    dst := dst.(entries := src'.entries[mid+1..], realSize := tailSize + FIRST_ENTRY_OFF);
  }

  lemma HeadThreaded(prev: nat, ies: seq<IndexEntry>, mid: nat)
    requires mid + 1 < |ies| && Threaded(prev, ies)
    ensures Threaded(prev, ies[mid + 1 := ies[mid + 1].(prevLen := ENTRY_HEAD_SIZE)][..mid+1])
  {
    ChainAt(prev, ies, mid + 1);
    assert ies[mid + 1 := ies[mid + 1].(prevLen := ENTRY_HEAD_SIZE)][..mid+1] == ies[..mid+1];
  }

  lemma TailView(ies: seq<IndexEntry>, ies': seq<IndexEntry>, i: nat, large: bool)
    requires i < |ies| && EntriesOk(ies, large) && EndLast(Strips(ies))
    requires ies' == ies[i := ies[i].(prevLen := ENTRY_HEAD_SIZE)]
    ensures EntriesOk(ies'[i..], large) && Strips(ies'[i..]) == Strips(ies)[i..]
    ensures EndLast(Strips(ies)[i..])
  {
    Rethreaded(ies, i, ENTRY_HEAD_SIZE, large);
    assert Strips(ies'[i..]) == Strips(ies')[i..];
  }

  lemma TailThreaded(prev: nat, ies: seq<IndexEntry>, i: nat)
    requires i < |ies| && Threaded(prev, ies)
    ensures Threaded(ENTRY_HEAD_SIZE, ies[i := ies[i].(prevLen := ENTRY_HEAD_SIZE)][i..])
  {
    ChainAt(prev, ies, i);
    assert ies[i := ies[i].(prevLen := ENTRY_HEAD_SIZE)][i..][1..] == ies[i+1..];
  }

  lemma TailLen(ib: IndexBlock, i: nat)
    requires Chained(ib) && i <= |ib.entries|
    ensures ib.realSize - Offset(ib, i) == TotalLen(View(ib)[i..], ib.large)
  {
    hide TotalLen, Offset;
    TotalLenConcat(View(ib)[..i], View(ib)[i..], ib.large);
    assert View(ib) == View(ib)[..i] + View(ib)[i..];
    OffsetIsPrefixSize(ib, i);
  }

  /** Puts END where entry `pos` was; END takes over that entry's child. */
  method CutIbTail(src: IndexBlock, pos: nat) returns (ib: IndexBlock)
    requires pos < |src.entries| - 1 && ChainedUpTo(src, pos)
    ensures Chained(ib) && ib.large == src.large && ib.allocSize == src.allocSize
    ensures View(ib) == View(src)[..pos] + [End(View(src)[pos].vbn)]
  {
    var last := src.entries[|src.entries| - 1];
    var ie := src.entries[pos];
    if last.isNode {
      last := last.(vbn := ie.vbn);
    }
    last := last.(prevLen := if pos == 0 then src.begin.len else src.entries[pos - 1].len);
    ib := src.(entries := src.entries[..pos] + [last], realSize := last.len + Offset(src, pos));
    assert View(src)[|View(src)| - 1] == Strip(src.entries[|src.entries| - 1]);
    CutView(src, last, pos);
  }

  lemma CutView(src: IndexBlock, last: IndexEntry, pos: nat)
    requires pos < |src.entries| - 1 && ChainedUpTo(src, pos)
    requires EntryOk(last, src.large) && last.isEnd && last.vbn == src.entries[pos].vbn
    requires last.prevLen == LastLen(src.begin.len, src.entries[..pos])
    ensures EntriesOk(src.entries[..pos] + [last], src.large)
    ensures Strips(src.entries[..pos] + [last]) == View(src)[..pos] + [End(View(src)[pos].vbn)]
    ensures Threaded(src.begin.len, src.entries[..pos] + [last])
    ensures last.len + Offset(src, pos) == ViewSize(View(src)[..pos] + [End(View(src)[pos].vbn)], src.large)
  {
    CutThreaded(src.begin.len, src.entries, last, pos);
    OffsetIsPrefixSize(src, pos);
    TotalLenConcat(View(src)[..pos], [End(View(src)[pos].vbn)], src.large);
    TotalLenOne(End(View(src)[pos].vbn), src.large);
  }

  lemma CutThreaded(prev: nat, ies: seq<IndexEntry>, last: IndexEntry, pos: nat)
    requires pos < |ies| && Threaded(prev, ies[..pos+1]) && last.prevLen == LastLen(prev, ies[..pos])
    ensures Threaded(prev, ies[..pos] + [last])
  {
    ChainAt(prev, ies[..pos+1], pos);
    assert ies[..pos+1][..pos] == ies[..pos];
    ChainJoin(prev, ies[..pos], last, []);
    assert ies[..pos] + [last] == ies[..pos] + [last] + [];
  }

  // ----- choosing the middle -----

  /** The byte midpoint falls into entry `mid`, or past every entry but END. */
  predicate IsMiddle(es: seq<Ent>, large: bool, mid: nat)
    requires mid < |es|
  {
    var half := TotalLen(es, large) / 2;
    && (mid > 0 ==> TotalLen(es[..mid], large) < half)
    && (mid < |es| - 1 ==> half <= TotalLen(es[..mid+1], large))
  }

  method GetMiddleIe(ib: IndexBlock) returns (mid: nat)
    requires Chained(ib)
    ensures mid < |ib.entries| && IsMiddle(View(ib), ib.large, mid)
  {
    ghost var es := View(ib);
    ghost var half := (ib.realSize - FIRST_ENTRY_OFF) / 2;
    var midPos := (ib.realSize - FIRST_ENTRY_OFF) / 2;
    mid := 0;
    while !ib.entries[mid].isEnd
      invariant mid < |ib.entries|
      invariant midPos == half - TotalLen(es[..mid], ib.large)
      invariant mid > 0 ==> midPos > 0
      decreases |ib.entries| - mid
    {
      TotalLenAt(es, mid, ib.large);
      assert es[mid] == Strip(ib.entries[mid]);
      if midPos > ib.entries[mid].len {
        midPos := midPos - ib.entries[mid].len;
        mid := mid + 1;
      } else {
        return;
      }
    }
    assert es[mid].End?;
  }

  lemma EntLenBounds(e: Ent, large: bool)
    requires EntOk(e)
    ensures ENTRY_HEAD_SIZE <= EntLen(e, large) <= ENTRY_MAX_SIZE
    ensures e.End? ==> EntLen(e, large) <= ENTRY_HEAD_SIZE + VBN_SIZE
  {
  }

  /** A block too full for one more entry is cut by its byte midpoint at a real entry, with at
      least one entry on either side and room for any entry in either half. */
  lemma MiddleSplits(es: seq<Ent>, large: bool, mid: nat)
    requires EndLast(es) && (forall i :: 0 <= i < |es| ==> EntOk(es[i]))
    requires BLOCK_SIZE - ENTRY_MAX_SIZE < ViewSize(es, large) <= BLOCK_SIZE
    requires mid < |es| && IsMiddle(es, large, mid)
    ensures 0 < mid < |es| - 2
    ensures ViewSize(es[..mid] + [End(es[mid].vbn)], large) + ENTRY_MAX_SIZE <= BLOCK_SIZE
    ensures ViewSize(es[mid+1..], large) + ENTRY_MAX_SIZE <= BLOCK_SIZE
  {
    TotalLenAt(es, mid, large);
    EntLenBounds(es[mid], large);
    TotalLenConcat(es[..mid], [End(es[mid].vbn)], large);
    TotalLenOne(End(es[mid].vbn), large);
    if mid >= |es| - 2 {
      TailSize(es, mid, large);
    }
  }

  lemma TailSize(es: seq<Ent>, mid: nat, large: bool)
    requires EndLast(es) && |es| - 2 <= mid < |es|
    ensures TotalLen(es[mid+1..], large) <= ENTRY_HEAD_SIZE + VBN_SIZE
    ensures mid == |es| - 1 ==> TotalLen(es[mid+1..], large) == 0
  {
    if mid == |es| - 2 {
      assert es[mid+1..] == [es[mid+1]];
      TotalLenOne(es[mid+1], large);
    }
  }
}
