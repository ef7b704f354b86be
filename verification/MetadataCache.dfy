/**
  The write-back cache of metadata blocks.  A cached block is in two indexes by block number, that of its
  object and that of the container; releasing an object leaves its dirty blocks in the container's index
  until a flush has written them.

  The two indexes are AVL trees; here each is its in-order list, which is what `Avl` proves of adding,
  removing, and walking with removal.
*/
module MetadataCache {
  import opened PingPong

  type Vbn = nat

  datatype State = Empty | Clean | Dirty

  class BlockCache {
    var vbn: Vbn
    var state: State
    var flush: bool             // released by its object
    var ib: Words

    constructor (vbn: Vbn, ib: Words)
      ensures this.vbn == vbn && this.ib == ib && state == Empty && !flush
    {
      this.vbn, this.ib, state, flush := vbn, ib, Empty, false;
    }
  }

  /** In ascending order of block numbers. */
  ghost predicate Ascending(l: seq<BlockCache>)
    reads l
  {
    forall i, j :: 0 <= i < j < |l| ==> l[i].vbn < l[j].vbn
  }

  ghost predicate Absent(l: seq<BlockCache>, vbn: Vbn)
    reads l
  {
    forall c :: c in l ==> c.vbn != vbn
  }

  function Elems(l: seq<BlockCache>): (s: set<BlockCache>)
    ensures (forall c :: c in s ==> c in l) && (forall c :: c in l ==> c in s)
  {
    set c | c in l
  }

  /** The list without a block. */
  function Omit(l: seq<BlockCache>, c: BlockCache): (r: seq<BlockCache>)
    ensures (forall x :: x in r ==> x in l && x != c) && (forall x :: x in l ==> x == c || x in r)
  {
    if l == [] then [] else if l[|l| - 1] == c then Omit(l[..|l| - 1], c) else Omit(l[..|l| - 1], c) + [l[|l| - 1]]
  }

  lemma {:induction false} OmitMembers(l: seq<BlockCache>, c: BlockCache)
    requires c !in l
    ensures Omit(l, c) == l
  {
    if l != [] {
      var n: nat := |l| - 1;
      OmitMembers(l[..n], c);
      assert l == l[..n] + [l[n]];
    }
  }

  lemma {:induction false} OmitAscending(l: seq<BlockCache>, c: BlockCache)
    requires Ascending(l)
    ensures Ascending(Omit(l, c))
  {
    if l != [] {
      var n: nat := |l| - 1;
      OmitAscending(l[..n], c);
      forall x | x in l[..n] ensures x.vbn < l[n].vbn {
        var i :| 0 <= i < n && l[..n][i] == x;
        assert l[i] == x;
      }
      var o := Omit(l[..n], c);
      forall i | 0 <= i < |o| ensures o[i].vbn < l[n].vbn {
        assert o[i] in o;
      }
    }
  }

  /** What removing a block from an index leaves. */
  method AvlRemove(l: seq<BlockCache>, c: BlockCache) returns (r: seq<BlockCache>)
    requires Ascending(l) && c in l
    ensures r == Omit(l, c) && Ascending(r)
  {
    OmitAscending(l, c);
    r := [];
    var i := 0;
    while i < |l|
      invariant i <= |l| && r == Omit(l[..i], c)
    {
      assert l[..i + 1][..i] == l[..i];
      if l[i] != c {
        r := r + [l[i]];
      }
      i := i + 1;
    }
    assert l[..|l|] == l;
  }

  /** What adding a block to an index makes of it. */
  method AvlAdd(l: seq<BlockCache>, c: BlockCache) returns (r: seq<BlockCache>)
    requires Ascending(l) && Absent(l, c.vbn)
    ensures Ascending(r) && c in r && c !in l && Omit(r, c) == l && Elems(r) == Elems(l) + {c}
  {
    var i := 0;
    while i < |l| && l[i].vbn < c.vbn
      invariant i <= |l| && forall k :: 0 <= k < i ==> l[k].vbn < c.vbn
    {
      i := i + 1;
    }
    r := l[..i] + [c] + l[i..];
    forall a, b | 0 <= a < b < |r| ensures r[a].vbn < r[b].vbn {
      assert r[a] == if a < i then l[a] else if a == i then c else l[a - 1];
      assert r[b] == if b < i then l[b] else if b == i then c else l[b - 1];
    }
    OmitInserted(l, c, i);
  }

  lemma {:induction false} OmitInserted(l: seq<BlockCache>, c: BlockCache, i: nat)
    requires i <= |l| && c !in l
    ensures Omit(l[..i] + [c] + l[i..], c) == l
    decreases |l| - i
  {
    var r := l[..i] + [c] + l[i..];
    if i == |l| {
      assert r[..|r| - 1] == l;
      OmitMembers(l, c);
    } else {
      var n: nat := |l| - 1;
      assert r[..|r| - 1] == l[..n][..i] + [c] + l[..n][i..];
      OmitInserted(l[..n], c, i);
      assert l == l[..n] + [l[n]];
    }
  }

  /** An object's cached blocks, in a container whose other blocks are none of its business. */
  class ObjectInfo {
    const ct: Container
    var caches: seq<BlockCache>

    constructor (ct: Container)
      ensures this.ct == ct && caches == []
    {
      this.ct, caches := ct, [];
    }

    ghost predicate Valid()
      reads this, ct, caches, ct.metadataCache
    {
      Ascending(caches) && Ascending(ct.metadataCache) && forall c :: c in caches ==> c in ct.metadataCache
    }

    method InsertObjCache(cache: BlockCache)
      requires Valid() && Absent(ct.metadataCache, cache.vbn)
      modifies `caches, ct`metadataCache
      ensures Valid() && cache in caches && cache in ct.metadataCache
      ensures Omit(caches, cache) == old(caches) && Omit(ct.metadataCache, cache) == old(ct.metadataCache)
    {
      caches := AvlAdd(caches, cache);
      ct.metadataCache := AvlAdd(ct.metadataCache, cache);
    }

    method RemoveObjCache(cache: BlockCache)
      requires Valid() && cache in caches
      modifies `caches, ct`metadataCache
      ensures Valid() && caches == Omit(old(caches), cache) && ct.metadataCache == Omit(old(ct.metadataCache), cache)
    {
      caches := AvlRemove(caches, cache);
      ct.metadataCache := AvlRemove(ct.metadataCache, cache);
    }

    /** Gives a cached block another number.  It is in neither index while its number changes, so both
        stay in order, and both hold the same blocks as before. */
    method ChangeObjCacheVbn(cache: BlockCache, newVbn: Vbn)
      requires Valid() && cache in caches && Absent(ct.metadataCache, newVbn)
      modifies `caches, ct`metadataCache, cache`vbn
      ensures Valid() && cache.vbn == newVbn
      ensures Elems(caches) == old(Elems(caches)) && Elems(ct.metadataCache) == old(Elems(ct.metadataCache))
      ensures Omit(caches, cache) == old(Omit(caches, cache))
      ensures Omit(ct.metadataCache, cache) == old(Omit(ct.metadataCache, cache))
    {
      RemoveObjCache(cache);
      cache.vbn := newVbn;
      InsertObjCache(cache);
    }

    /** A block leaves the cache, unless it has still to be written: then it only leaves this object. */
    method ReleaseObjCache(cache: BlockCache)
      requires Valid() && cache in caches
      modifies `caches, ct`metadataCache, ct`freed, cache`flush
      ensures Valid() && caches == Omit(old(caches), cache)
      ensures cache.state == Dirty ==>
                cache.flush && ct.metadataCache == old(ct.metadataCache) && ct.freed == old(ct.freed)
      ensures cache.state != Dirty ==>
                && cache.flush == old(cache.flush) && ct.metadataCache == Omit(old(ct.metadataCache), cache)
                && ct.freed == old(ct.freed) + {cache}
    {
      if cache.state == Dirty {
        cache.flush := true;
        caches := AvlRemove(caches, cache);
      } else {
        RemoveObjCache(cache);
        ct.freed := ct.freed + {cache};
      }
    }

    /** The cached block of this number, read from the disk if it is not cached yet.  A block that fails
        its checks stays cached, but empty. */
    method IndexBlockRead2(vbn: Vbn, blkId: nat) returns (cache: BlockCache, ok: bool)
      requires Valid() && (Absent(caches, vbn) ==> Absent(ct.metadataCache, vbn) && vbn in ct.disk)
      modifies `caches, ct`metadataCache
      ensures Valid() && cache in caches && cache.vbn == vbn
      ensures !old(Absent(caches, vbn)) ==> ok && caches == old(caches) && ct.metadataCache == old(ct.metadataCache)
      ensures old(Absent(caches, vbn)) ==>
                && fresh(cache) && Omit(caches, cache) == old(caches)
                && Omit(ct.metadataCache, cache) == old(ct.metadataCache)
                && (ok <==> BlkId(ct.disk[vbn]) == blkId && AllocSize(ct.disk[vbn]) == ct.blockSize
                            && HEAD_SIZE <= RealSize(ct.disk[vbn]) <= ct.blockSize && Whole(ct.disk[vbn]))
                && if ok then cache.state == Clean && cache.ib == Restored(ct.disk[vbn]) else cache.state == Empty
    {
      hide Whole, Restored, Omit, BlkId, AllocSize, RealSize;
      var i := 0;
      while i < |caches| && caches[i].vbn != vbn
        invariant i <= |caches| && forall k :: 0 <= k < i ==> caches[k].vbn != vbn
      {
        i := i + 1;
      }
      if i < |caches| {
        return caches[i], true;
      }
      var ib := ct.disk[vbn];
      cache := new BlockCache(vbn, ib);
      InsertObjCache(cache);
      ok := Verifies(ib, blkId, ct.blockSize) && Whole(ib);
      if ok {
        cache.ib := Restored(ib);
        cache.state := Clean;
      }
    }

    /** A legal block that has been written under its number and is no longer cached is read back as it was, but
        for its number of updates and the word that keeps the foot. */
    method ReadBack(cache: BlockCache, blkId: nat) returns (again: BlockCache, ok: bool)
      requires Valid() && Absent(ct.metadataCache, cache.vbn) && cache !in ct.metadataCache
      requires Legal(cache.ib, blkId) && 2 * |cache.ib| == ct.blockSize
      modifies `caches, ct`metadataCache, ct`disk, cache`ib
      ensures Valid() && ok && again in caches && again.vbn == cache.vbn && again.state == Clean
      ensures var b := old(cache.ib); again.ib == b[FIXUP := Foot(b)][SEQ := Next(b[SEQ])]
      ensures ct.disk.Keys == old(ct.disk.Keys) + {cache.vbn}
      ensures forall v :: v in old(ct.disk) && v != cache.vbn ==> ct.disk[v] == old(ct.disk)[v]
    {
      LegalReadBack(cache.ib, blkId);
      ct.UpdateBlockFixup(cache);
      again, ok := IndexBlockRead2(cache.vbn, blkId);
    }

    /** The release has come to position `i` of the object's list. */
    ghost predicate Releasing(m: Snapshot, l: seq<BlockCache>, i: nat, gone: set<BlockCache>)
      requires i <= |l|
      reads this, ct, caches, ct.metadataCache, m.Keys, l
    {
      && Valid() && Ascending(l) && caches == l[i..] && (forall c :: c in l ==> c in m)
      && (forall c :: c in m ==> c.vbn == m[c].vbn && c.state == m[c].state && c.ib == m[c].ib)
      && (forall k :: 0 <= k < i ==> Released(m, l[k]))
      && (forall c :: c in m && c !in l ==> c in ct.metadataCache && c.flush == m[c].flush)
      && (forall c :: c in ct.metadataCache ==> c in m)
      && (forall c :: c in gone ==> c in ct.freed)
      && (forall c :: c in ct.freed ==> c in gone || (c in l && m[c].state != Dirty))
    }

    ghost predicate Released(m: Snapshot, c: BlockCache)
      requires c in m
      reads ct, c
    {
      if m[c].state == Dirty then c in ct.metadataCache && c.flush else c !in ct.metadataCache && c in ct.freed
    }

    method ReleaseOne(l: seq<BlockCache>, i: nat, ghost m: Snapshot, ghost gone: set<BlockCache>)
      requires i < |l| && Releasing(m, l, i, gone)
      modifies `caches, ct`metadataCache, ct`freed, (l[i] as BlockCache)`flush
      ensures Releasing(m, l, i + 1, gone)
    {
      hide Omit;
      assert l[i] == l[i..][0] && l[i..][1..] == l[i + 1..];
      OmitFirst(l[i..]);
      forall k | 0 <= k < |l| && k != i ensures l[k] != l[i] {
        assert k < i || i < k;
      }
      ReleaseObjCache(l[i]);
    }

    /** Releases all blocks of the object: clean ones are freed, dirty ones wait for a flush.  `m` is what
        the container's blocks held before. */
    method ReleaseObjAllCache() returns (ghost m: Snapshot)
      requires Valid()
      modifies `caches, ct`metadataCache, ct`freed, caches
      ensures m == old(SnapshotOf(ct.metadataCache))
      ensures Releasing(m, old(caches), |old(caches)|, old(ct.freed))
    {
      m := SnapshotOf(ct.metadataCache);
      ghost var gone := ct.freed;
      var l := caches;
      assert l[0..] == l;
      for i := 0 to |l|
        invariant l == old(caches) && Releasing(m, l, i, gone)
      {
        ReleaseOne(l, i, m, gone);
      }
    }

    /** After the object is released and the container flushed, the disk holds the content of every block
        that was dirty, and no such block was freed unwritten. */
    method CloseAndFlush() returns (ghost m: Snapshot)
      requires Valid()
      modifies `caches, caches, ct, Elems(ct.metadataCache)
      ensures m == old(SnapshotOf(ct.metadataCache)) && caches == []
      ensures forall c :: c in m && m[c].state == Dirty ==> m[c].vbn in ct.disk && ct.disk[m[c].vbn] == Stamped(m[c].ib)
      ensures forall c :: c in old(caches) ==> c in ct.freed && c !in ct.metadataCache
      ensures forall c :: c in ct.freed ==>
                c in old(ct.freed) || (c in m && (m[c].state == Dirty ==> m[c].vbn in ct.disk))
    {
      hide Omit, Stamped, Restored, Ascending;
      m := ReleaseObjAllCache();
      ghost var l := ct.metadataCache;
      ghost var frame := old(Elems(ct.metadataCache));
      assert Elems(ct.metadataCache) <= frame by {
        forall c | c in ct.metadataCache ensures c in frame {
          assert c in m;
        }
      }
      ghost var m2 := ct.FlushFsCache();
      forall c | c in m && m[c].state == Dirty ensures m[c].vbn in ct.disk && ct.disk[m[c].vbn] == Stamped(m[c].ib) {
        assert c in l;
      }
    }
  }

  lemma NotBefore(l: seq<BlockCache>, i: nat)
    requires Ascending(l) && i < |l|
    ensures l[i] !in l[..i]
  {
  }

  lemma OmitFirst(l: seq<BlockCache>)
    requires Ascending(l) && l != []
    ensures Omit(l, l[0]) == l[1..] && Ascending(l[1..])
    decreases |l|
  {
    hide Omit;
    var n: nat := |l| - 1;
    if n == 0 {
      OmitOnly(l);
    } else {
      OmitFirst(l[..n]);
      OmitLast(l, n);
      assert l[..n][0] == l[0];
      assert l[1..] == l[..n][1..] + [l[n]];
    }
  }

  lemma OmitOnly(l: seq<BlockCache>)
    requires |l| == 1
    ensures Omit(l, l[0]) == l[1..] == []
  {
    assert Omit(l[..0], l[0]) == [];
  }

  lemma OmitLast(l: seq<BlockCache>, n: nat)
    requires Ascending(l) && 0 < n == |l| - 1
    ensures l[n] != l[0] && Omit(l, l[0]) == Omit(l[..n], l[..n][0]) + [l[n]]
  {
  }

  class Container {
    const blockSize: nat
    var metadataCache: seq<BlockCache>
    var disk: map<Vbn, Words>

    /** The cached blocks that have been freed. */
    ghost var freed: set<BlockCache>

    constructor (blockSize: nat, disk: map<Vbn, Words>)
      ensures metadataCache == [] && this.blockSize == blockSize && this.disk == disk && freed == {}
    {
      this.blockSize, metadataCache, this.disk, freed := blockSize, [], disk, {};
    }

    /** Stamps the block, writes it under its number, and restores it. */
    method UpdateBlockFixup(cache: BlockCache)
      modifies `disk, cache`ib
      ensures disk == old(disk)[cache.vbn := Stamped(old(cache.ib))] && cache.ib == Restored(Stamped(old(cache.ib)))
    {
      var stamped := Stamped(cache.ib);
      disk := disk[cache.vbn := stamped];
      cache.ib := Restored(stamped);
    }

    /** Writes a dirty block, and frees it if its object has released it. */
    method FlushFsDirtyCache(cache: BlockCache)
      requires Ascending(metadataCache) && cache in metadataCache
      modifies this, cache`ib, cache`state
      ensures Ascending(metadataCache)
      ensures old(cache.state) != Dirty ==>
                && cache.state == old(cache.state) && cache.ib == old(cache.ib) && disk == old(disk)
                && metadataCache == old(metadataCache) && freed == old(freed)
      ensures old(cache.state) == Dirty ==>
                && disk == old(disk)[cache.vbn := Stamped(old(cache.ib))]
                && cache.ib == Restored(Stamped(old(cache.ib)))
                && if cache.flush then metadataCache == Omit(old(metadataCache), cache) && freed == old(freed) + {cache}
                   else metadataCache == old(metadataCache) && freed == old(freed) && cache.state == Clean
    {
      if cache.state != Dirty {
        return;
      }
      UpdateBlockFixup(cache);
      if cache.flush {
        metadataCache := AvlRemove(metadataCache, cache);
        freed := freed + {cache};
        return;
      }
      cache.state := Clean;
    }

    /** A block that had the fields `m[c]` has been dealt with by a flush. */
    ghost predicate Flushed(m: Snapshot, c: BlockCache)
      requires c in m
      reads this, c
    {
      && (m[c].state == Dirty ==>
            && m[c].vbn in disk && disk[m[c].vbn] == Stamped(m[c].ib)
            && if m[c].flush then c !in metadataCache && c in freed else c in metadataCache && c.state == Clean)
      && (m[c].state != Dirty ==> c in metadataCache && c.state == m[c].state && c.ib == m[c].ib)
    }

    /** It has not been dealt with yet. */
    ghost predicate Waiting(m: Snapshot, c: BlockCache)
      requires c in m
      reads this, c
    {
      c in metadataCache && c.state == m[c].state && c.ib == m[c].ib
    }

    /** The flush has come to position `i` of the list. */
    ghost predicate Flushing(m: Snapshot, l: seq<BlockCache>, i: nat, before: map<Vbn, Words>, gone: set<BlockCache>)
      requires i <= |l|
      reads this, l, metadataCache
    {
      && Ascending(l) && Ascending(metadataCache)
      && (forall c :: c in l ==> c in m && c.vbn == m[c].vbn && c.flush == m[c].flush)
      && (forall k :: 0 <= k < i ==> Flushed(m, l[k]))
      && (forall k :: i <= k < |l| ==> Waiting(m, l[k]))
      && (forall c :: c in metadataCache ==> c in l)
      && (forall c :: c in freed ==> c in gone || (c in l && m[c].state == Dirty && m[c].flush))
      && (forall c :: c in gone ==> c in freed)
      && (forall v :: v in before && (forall c :: c in l && m[c].state == Dirty ==> m[c].vbn != v) ==>
            v in disk && disk[v] == before[v])
    }

    method FlushOne(l: seq<BlockCache>, i: nat, ghost m: Snapshot, ghost before: map<Vbn, Words>,
                    ghost gone: set<BlockCache>)
      requires i < |l| && Flushing(m, l, i, before, gone)
      modifies this, l[i]
      ensures Flushing(m, l, i + 1, before, gone)
    {
      hide Stamped, Restored, Omit;
      assert Waiting(m, l[i]);
      FlushFsDirtyCache(l[i]);
      forall k | 0 <= k < |l| && k != i ensures l[k] != l[i] && l[k].vbn != l[i].vbn {
        assert k < i || i < k;
      }
    }

    /** Writes every dirty block of the container once. */
    method FlushFsCache() returns (ghost m: Snapshot)
      requires Ascending(metadataCache)
      modifies this, Elems(metadataCache)
      ensures m == old(SnapshotOf(metadataCache))
      ensures Flushing(m, old(metadataCache), |old(metadataCache)|, old(disk), old(freed))
    {
      m := SnapshotOf(metadataCache);
      ghost var before, gone := disk, freed;
      var l := metadataCache;
      for i := 0 to |l|
        invariant l == old(metadataCache) && Flushing(m, l, i, before, gone)
      {
        FlushOne(l, i, m, before, gone);
      }
    }
  }

  /** The fields of cached blocks at one moment. */
  datatype Fields = Fields(vbn: Vbn, state: State, flush: bool, ib: Words)
  type Snapshot = map<BlockCache, Fields>

  ghost function SnapshotOf(l: seq<BlockCache>): (m: Snapshot)
    reads l
  {
    map c | c in l :: Fields(c.vbn, c.state, c.flush, c.ib)
  }
}
