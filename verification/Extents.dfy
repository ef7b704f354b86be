/**
  Free space as a list of disjoint extents in ascending order: what it means as a set of blocks, and
  what allocating from it and freeing into it do.
*/
module Extents {
  import opened IndexBlock
  import opened BTreeShape
  import opened BTreeOrder
  import opened BTreeSplit
  import opened BTreeRemove
  import opened BTreeCrowd
  import opened Collate
  import opened KeyOrder

  datatype Ext = Ext(addr: nat, len: nat)

  const TWO_31 := 0x8000_0000
  const TWO_32 := 0x1_0000_0000
  const BLOCK_LIMIT := 0x8000_0000_0000_0000    // block numbers stay below 2^63

  function EndOf(e: Ext): nat {
    e.addr + e.len
  }

  /** The blocks from `a` up to but not including `b`. */
  function Range(a: nat, b: nat): (r: set<nat>)
    ensures forall x :: x in r <==> a <= x < b
    decreases b
  {
    if a >= b then {} else Range(a, b - 1) + {b - 1}
  }

  function Blocks(l: seq<Ext>): set<nat> {
    if l == [] then {} else Blocks(l[..|l| - 1]) + Range(l[|l| - 1].addr, EndOf(l[|l| - 1]))
  }

  function Total(l: seq<Ext>): nat {
    if l == [] then 0 else Total(l[..|l| - 1]) + l[|l| - 1].len
  }

  /** Ascending, disjoint, none empty. */
  ghost predicate Sorted(l: seq<Ext>) {
    && (forall i :: 0 <= i < |l| ==> l[i].len >= 1 && EndOf(l[i]) <= BLOCK_LIMIT)
    && (forall i, j :: 0 <= i < j < |l| ==> EndOf(l[i]) <= l[j].addr)
  }

  lemma {:induction false} InBlocks(l: seq<Ext>, b: nat)
    ensures b in Blocks(l) <==> exists i :: 0 <= i < |l| && l[i].addr <= b < EndOf(l[i])
  {
    if l != [] {
      var n: nat := |l| - 1;
      InBlocks(l[..n], b);
      if b in Blocks(l[..n]) {
        var i :| 0 <= i < n && l[..n][i].addr <= b < EndOf(l[..n][i]);
        assert l[i] == l[..n][i];
      } else if exists i :: 0 <= i < |l| && l[i].addr <= b < EndOf(l[i]) {
        var i :| 0 <= i < |l| && l[i].addr <= b < EndOf(l[i]);
        if i < n {
          assert l[..n][i] == l[i];
        }
      }
    }
  }

  lemma {:induction false} BlocksConcat(a: seq<Ext>, b: seq<Ext>)
    ensures Blocks(a + b) == Blocks(a) + Blocks(b) && Total(a + b) == Total(a) + Total(b)
  {
    if b == [] {
      assert a + b == a;
    } else {
      assert (a + b)[..|a + b| - 1] == a + b[..|b| - 1];
      BlocksConcat(a, b[..|b| - 1]);
    }
  }

  lemma BlocksOne(e: Ext)
    ensures Blocks([e]) == Range(e.addr, EndOf(e)) && Total([e]) == e.len
  {
    assert [e][..0] == [];
  }

  lemma RangeSize(a: nat, b: nat)
    requires a <= b
    ensures |Range(a, b)| == b - a
    decreases b - a
  {
    if a < b {
      RangeSize(a, b - 1);
      assert Range(a, b) == Range(a, b - 1) + {b - 1};
    } else {
      assert Range(a, b) == {};
    }
  }

  /** In an ascending list every block is counted once. */
  lemma {:induction false} TotalIsSize(l: seq<Ext>)
    requires Sorted(l)
    ensures Total(l) == |Blocks(l)|
  {
    if l != [] {
      var n: nat := |l| - 1;
      TotalIsSize(l[..n]);
      RangeSize(l[n].addr, EndOf(l[n]));
      forall b | b in Blocks(l[..n]) ensures b !in Range(l[n].addr, EndOf(l[n])) {
        InBlocks(l[..n], b);
      }
      assert Blocks(l[..n]) !! Range(l[n].addr, EndOf(l[n]));
    }
  }

  /** The extent shares a block with the range. */
  predicate Meets(e: Ext, a: nat, b: nat) {
    e.addr < b && a < EndOf(e)
  }

  lemma MeetsBlocks(l: seq<Ext>, a: nat, b: nat)
    requires (forall i :: 0 <= i < |l| ==> l[i].len >= 1) && a < b
    ensures (exists i :: 0 <= i < |l| && Meets(l[i], a, b)) <==> Blocks(l) * Range(a, b) != {}
  {
    if i :| 0 <= i < |l| && Meets(l[i], a, b) {
      var x := if l[i].addr < a then a else l[i].addr;
      InBlocks(l, x);
      assert x in Blocks(l) * Range(a, b);
    }
    if Blocks(l) * Range(a, b) != {} {
      var x :| x in Blocks(l) * Range(a, b);
      InBlocks(l, x);
      var i :| 0 <= i < |l| && l[i].addr <= x < EndOf(l[i]);
      assert Meets(l[i], a, b);
    }
  }

  // ----- the extents of a table -----

  /** What the table of free space holds. */
  function Exts(l: seq<KV>): (e: seq<Ext>)
    ensures |e| == |l| && forall i :: 0 <= i < |l| ==> e[i] == Ext(LittleEndian(l[i].key), LittleEndian(l[i].value))
  {
    seq(|l|, i requires 0 <= i < |l| => Ext(LittleEndian(l[i].key), LittleEndian(l[i].value)))
  }

  /** All blocks lie below the limit. */
  ghost predicate Ends(l: seq<KV>) {
    forall i :: 0 <= i < |l| ==> EndOf(Exts(l)[i]) <= BLOCK_LIMIT
  }

  /** A table ordered by the extent rule holds ascending disjoint extents, and a search key compares
      equal to the entries it overlaps. */
  lemma TableExtents(fold: Fold, l: seq<KV>, q: KV)
    requires Ordered(Extent, fold, l) && ProbeOk(Extent, q) && q.value != [] && LittleEndian(q.value) >= 1
    requires Ends(l)
    ensures Sorted(Exts(l))
    ensures forall i :: 0 <= i < |l| ==>
              (Cmp(Extent, fold, l[i], q) == 0 <==>
                 Meets(Exts(l)[i], LittleEndian(q.key), LittleEndian(q.key) + LittleEndian(q.value)))
  {
    forall i, j | 0 <= i < j < |l| ensures EndOf(Exts(l)[i]) <= Exts(l)[j].addr {
      assert Cmp(Extent, fold, l[i], l[j]) < 0;
    }
  }

  lemma EqualMeets(fold: Fold, kv: KV, q: KV)
    requires KeyOk(Extent, kv) && KeyOk(Extent, q)
    ensures var a := LittleEndian(q.key); var b := a + LittleEndian(q.value);
            Cmp(Extent, fold, kv, q) == 0 <==> Meets(Ext(LittleEndian(kv.key), LittleEndian(kv.value)), a, b)
    ensures LittleEndian(q.value) >= 1 && LittleEndian(kv.value) >= 1
  {
  }

  /** Some entry compares equal to a range if and only if some block of it is free. */
  lemma TableOverlaps(fold: Fold, l: seq<KV>, q: KV)
    requires Keyed(Extent, l) && KeyOk(Extent, q)
    ensures var a := LittleEndian(q.key); var b := a + LittleEndian(q.value);
            && (forall i :: 0 <= i < |l| ==> (Cmp(Extent, fold, l[i], q) == 0 <==> Meets(Exts(l)[i], a, b)))
            && ((exists kv :: kv in l && Cmp(Extent, fold, kv, q) == 0) <==> Blocks(Exts(l)) * Range(a, b) != {})
  {
    hide Blocks, Range, Cmp, KeyOk, Meets;
    var e, a := Exts(l), LittleEndian(q.key);
    var b := a + LittleEndian(q.value);
    EqualMeets(fold, q, q);
    forall i | 0 <= i < |l| ensures (Cmp(Extent, fold, l[i], q) == 0 <==> Meets(e[i], a, b)) && e[i].len >= 1 {
      EqualMeets(fold, l[i], q);
    }
    MeetsBlocks(e, a, b);
    if kv :| kv in l && Cmp(Extent, fold, kv, q) == 0 {
      var i :| 0 <= i < |l| && l[i] == kv;
      assert Meets(e[i], a, b);
    }
    if i :| 0 <= i < |e| && Meets(e[i], a, b) {
      assert l[i] in l;
    }
  }

  /** The entries a search key leaves on either side lie below and above its range, and the others overlap it. */
  lemma TableSides(fold: Fold, l: seq<KV>, q: KV, i: nat)
    requires Keyed(Extent, l) && ProbeOk(Extent, q) && q.value != [] && LittleEndian(q.value) >= 1 && i <= |l|
    requires Below(ProbeFor(Extent, fold, q), l[..i]) && Above(ProbeFor(Extent, fold, q), l[i..])
    ensures forall k :: 0 <= k < i ==> EndOf(Exts(l)[k]) <= LittleEndian(q.key)
    ensures forall k :: i <= k < |l| ==> LittleEndian(q.key) + LittleEndian(q.value) <= Exts(l)[k].addr
  {
    var cmp := ProbeFor(Extent, fold, q);
    forall k | 0 <= k < i ensures EndOf(Exts(l)[k]) <= LittleEndian(q.key) {
      assert cmp(l[..i][k]) < 0;
    }
    forall k | i <= k < |l| ensures LittleEndian(q.key) + LittleEndian(q.value) <= Exts(l)[k].addr {
      assert cmp(l[i..][k - i]) > 0;
    }
  }

  /** Inserting into the table inserts into the list of extents; removing removes; and a removal that goes
      wrong, which puts the next extent twice and loses another, does just that. */
  lemma TableEdits(l: seq<KV>, i: nat, kv: KV, j: nat)
    requires i <= |l|
    ensures Exts(With(l, i, kv)) == Insert(Exts(l), i, Ext(LittleEndian(kv.key), LittleEndian(kv.value)))
    ensures i < |l| ==> Exts(Without(l, i)) == Remove(Exts(l), i)
    ensures i + 1 < |l| && j < |l| ==> Exts(Without(Doubled(l, i), j)) == Slip(Exts(l), i, j)
  {
  }

  // ----- editing -----

  function Insert(l: seq<Ext>, i: nat, e: Ext): seq<Ext>
    requires i <= |l|
  {
    l[..i] + [e] + l[i..]
  }

  function Remove(l: seq<Ext>, i: nat): seq<Ext>
    requires i < |l|
  {
    l[..i] + l[i+1..]
  }

  lemma EndsEdits(l: seq<KV>, i: nat, kv: KV, j: nat)
    requires Ends(l) && i <= |l|
    ensures LittleEndian(kv.key) + LittleEndian(kv.value) <= BLOCK_LIMIT ==> Ends(With(l, i, kv))
    ensures i < |l| ==> Ends(Without(l, i))
    ensures i + 1 < |l| && j < |l| ==> Ends(Without(Doubled(l, i), j))
  {
    forall k | 0 <= k < |l| ensures LittleEndian(l[k].key) + LittleEndian(l[k].value) <= BLOCK_LIMIT {
      assert EndOf(Exts(l)[k]) <= BLOCK_LIMIT;
    }
    assert forall x :: x in With(l, i, kv) ==> x in l || x == kv;
    assert i < |l| ==> forall x :: x in Without(l, i) ==> x in l;
    assert i + 1 < |l| && j < |l| ==> forall x :: x in Without(Doubled(l, i), j) ==> x in l;
  }

  lemma DoubledEdits(l: seq<KV>, i: nat)
    requires i + 1 < |l|
    ensures |Doubled(l, i)| == |l| && (Ends(l) ==> Ends(Doubled(l, i)))
    ensures Short(Exts(l)) ==> Short(Exts(Doubled(l, i)))
  {
    forall k | 0 <= k < |l| ensures Exts(Doubled(l, i))[k] == Exts(l)[if k == i then i + 1 else k] {
    }
  }

  lemma ShortSlip(l: seq<Ext>, i: nat, j: nat)
    requires i < |l| && j < |l|
    ensures Short(l) ==> Short(Remove(l, i)) && (i + 1 < |l| ==> Short(Slip(l, i, j)))
  {
  }

  lemma LeftLength(l: seq<Ext>, i: nat, j: nat, slip: bool)
    requires Slipping(l, i, j, slip)
    ensures |Left(l, i, j, slip)| == |l| - 1
  {
  }

  /** A table that has lost a run of entries. */
  lemma RunEdits(l: seq<KV>, target: seq<KV>)
    requires LosesRun(l, target)
    ensures |l| <= |target| && (Ends(target) ==> Ends(l)) && (Short(Exts(target)) ==> Short(Exts(l)))
  {
    var i, j :| 0 <= i <= j <= |target| && l == target[..i] + target[j..];
    forall k | 0 <= k < |l| ensures Exts(l)[k] == Exts(target)[if k < i then k else k + (j - i)] {
    }
  }

  /** Keys and values of extents are numbers. */
  lemma EntriesSmall(l: seq<KV>, i: nat, kv: KV)
    requires Keyed(Extent, l) && KeyOk(Extent, kv) && i <= |l|
    ensures Small(l) && Small(With(l, i, kv))
  {
  }

  /** What a removal at `i` that goes wrong at `j` leaves. */
  function Slip(l: seq<Ext>, i: nat, j: nat): seq<Ext>
    requires i + 1 < |l| && j < |l|
  {
    Remove(l[i := l[i + 1]], j)
  }

  /** The blocks of another extent are lost then. */
  lemma SlipBlocks(l: seq<Ext>, i: nat, j: nat)
    requires Sorted(l) && i + 1 < |l| && j < |l| && j != i && j != i + 1
    ensures Blocks(Slip(l, i, j)) == Blocks(Remove(l, i)) - Range(l[j].addr, EndOf(l[j]))
    ensures l[j].addr in Blocks(Remove(l, i)) && l[j].addr in Range(l[j].addr, EndOf(l[j]))
    ensures Slip(l, i, j) != Remove(l, i)
  {
    hide Blocks;
    var s, r := Slip(l, i, j), Remove(l, i);
    var j' := if j < i then j else j - 1;
    assert r[j'] == l[j];
    InBlocks(r, l[j].addr);
    forall b: nat ensures b in Blocks(s) <==> b in Blocks(r) && !(l[j].addr <= b < EndOf(l[j])) {
      InBlocks(s, b);
      InBlocks(r, b);
      if k :| 0 <= k < |s| && s[k].addr <= b < EndOf(s[k]) {
        var _, k' := SlipAt(l, i, j, k);
      }
      if k :| 0 <= k < |r| && r[k].addr <= b < EndOf(r[k]) {
        if k != j' {
          var _ := SlipFrom(l, i, j, k);
        }
      }
    }
    assert forall b :: b in Blocks(s) <==> b in Blocks(r) - Range(l[j].addr, EndOf(l[j]));
  }

  /** An extent of the one list, found in the other. */
  lemma SlipAt(l: seq<Ext>, i: nat, j: nat, k: nat) returns (a: nat, k': nat)
    requires Sorted(l) && i + 1 < |l| && j < |l| && j != i && j != i + 1 && k < |l| - 1
    ensures a < |l| && a != j && k' < |l| - 1 && Slip(l, i, j)[k] == l[a] == Remove(l, i)[k']
    ensures EndOf(l[a]) <= l[j].addr || EndOf(l[j]) <= l[a].addr
  {
    a := if k < j then k else k + 1;
    a := if a == i then i + 1 else a;
    k' := if a < i then a else a - 1;
  }

  lemma SlipFrom(l: seq<Ext>, i: nat, j: nat, k: nat) returns (k': nat)
    requires Sorted(l) && i + 1 < |l| && j < |l| && j != i && j != i + 1 && k < |l| - 1
    requires k != if j < i then j else j - 1
    ensures k' < |l| - 1 && Remove(l, i)[k] == Slip(l, i, j)[k']
    ensures var e := Remove(l, i)[k]; EndOf(e) <= l[j].addr || EndOf(l[j]) <= e.addr
  {
    var a := if k < i then k else k + 1;
    assert Remove(l, i)[k] == l[a] && a != j;
    k' := if a < j then a else a - 1;
  }

  /** Removing an extent of a table goes wrong only in a nearly full block below the root and above the
      leaves. */
  lemma SlipIsDeep(m: Heap, z: Zip, p: nat)
    requires ZipOk(m, z) && p < |z.focus.slots| && z.focus.slots[p].ent.Ent? && Keyed(Extent, Contents(z))
             && Misplaces(z, p)
    ensures z.path.Up? && z.h + Depth(z.path) >= 3 && ViewSize(Ents(z.focus.slots), true) > BLOCK_SIZE - 14
  {
    RankNext(z, p);
    var e, succ := z.focus.slots[p].ent, Contents(z)[Rank(z, p) + 1];
    assert KeyOk(Extent, KV(e.key, e.value)) && KeyOk(Extent, succ);
  }

  /** The extent may stand at position `i`. */
  ghost predicate FitsAt(l: seq<Ext>, i: nat, e: Ext)
    requires i <= |l|
  {
    && e.len >= 1 && EndOf(e) <= BLOCK_LIMIT
    && (forall k :: 0 <= k < i ==> EndOf(l[k]) <= e.addr)
    && (forall k :: i <= k < |l| ==> EndOf(e) <= l[k].addr)
  }

  lemma InsertSorted(l: seq<Ext>, i: nat, e: Ext)
    requires Sorted(l) && i <= |l| && FitsAt(l, i, e)
    ensures Sorted(Insert(l, i, e))
  {
    var w := Insert(l, i, e);
    forall a, b | 0 <= a < b < |w| ensures EndOf(w[a]) <= w[b].addr {
      assert w[a] == if a < i then l[a] else if a == i then e else l[a - 1];
      assert w[b] == if b < i then l[b] else if b == i then e else l[b - 1];
    }
  }

  lemma InsertBlocks(l: seq<Ext>, i: nat, e: Ext)
    requires i <= |l|
    ensures Blocks(Insert(l, i, e)) == Blocks(l) + Range(e.addr, EndOf(e)) && Total(Insert(l, i, e)) == Total(l) + e.len
  {
    BlocksConcat(l[..i] + [e], l[i..]);
    BlocksConcat(l[..i], [e]);
    BlocksConcat(l[..i], l[i..]);
    assert l == l[..i] + l[i..];
    BlocksOne(e);
  }

  /** What a removal takes away. */
  lemma RemoveFacts(l: seq<Ext>, i: nat)
    requires Sorted(l) && i < |l|
    ensures Blocks(l) == Blocks(Remove(l, i)) + Range(l[i].addr, EndOf(l[i]))
    ensures Blocks(Remove(l, i)) !! Range(l[i].addr, EndOf(l[i])) && Total(l) == Total(Remove(l, i)) + l[i].len
  {
    hide Total, Range, Blocks, Sorted;
    InsertBack(l, i);
    InsertBlocks(Remove(l, i), i, l[i]);
    forall b | b in Blocks(Remove(l, i)) ensures b !in Range(l[i].addr, EndOf(l[i])) {
      RemoveApart(l, i, b);
    }
  }

  lemma InsertBack(l: seq<Ext>, i: nat)
    requires i < |l|
    ensures i <= |Remove(l, i)| == |l| - 1 && l == Insert(Remove(l, i), i, l[i])
  {
  }

  lemma RemoveApart(l: seq<Ext>, i: nat, b: nat)
    requires Sorted(l) && i < |l| && b in Blocks(Remove(l, i))
    ensures !(l[i].addr <= b < EndOf(l[i]))
  {
    hide Blocks;
    var r := Remove(l, i);
    InBlocks(r, b);
    var k :| 0 <= k < |r| && r[k].addr <= b < EndOf(r[k]);
    assert r[k] == l[if k < i then k else k + 1];
  }

  lemma RemoveSorted(l: seq<Ext>, i: nat)
    requires Sorted(l) && i < |l|
    ensures Sorted(Remove(l, i)) && FitsAt(Remove(l, i), i, l[i])
  {
    var r := Remove(l, i);
    forall a, b | 0 <= a < b < |r| ensures EndOf(r[a]) <= r[b].addr {
      assert r[a] == l[if a < i then a else a + 1] && r[b] == l[if b < i then b else b + 1];
    }
  }

  // ----- allocating -----

  /** A 64-bit length read into 32 bits, and 32 bits returned as a signed number. */
  function Narrow(n: nat): (r: nat)
    ensures r < TWO_32 && (r == n <==> n < TWO_32)
  {
    n % TWO_32
  }

  function Int32(n: nat): (r: int)
    requires n < TWO_32
    ensures r == n <==> n < TWO_31
  {
    if n < TWO_31 then n else n - TWO_32
  }

  /** Extent `i` replaced by what is left of it around the run `[a, b)`, when it is taken to end at `end`. */
  function Carve(l: seq<Ext>, i: nat, a: nat, b: nat, end: nat): seq<Ext>
    requires i < |l| && l[i].addr <= a <= b <= end
  {
    var r := Remove(l, i);
    var left := if l[i].addr < a then Insert(r, i, Ext(l[i].addr, a - l[i].addr)) else r;
    if b < end then Insert(left, if l[i].addr < a then i + 1 else i, Ext(b, end - b)) else left
  }

  lemma CarveSorted(l: seq<Ext>, i: nat, a: nat, b: nat, end: nat)
    requires Sorted(l) && i < |l| && l[i].addr <= a < b <= end <= EndOf(l[i])
    ensures Sorted(Carve(l, i, a, b, end))
    ensures forall e :: e in Carve(l, i, a, b, end) ==> e in l || e.len < l[i].len
  {
    hide Insert, Remove, Sorted, FitsAt;
    var r, p, q := Remove(l, i), Ext(l[i].addr, a - l[i].addr), Ext(b, end - b);
    InsertBack(l, i);
    RemoveSorted(l, i);
    InsertMembers(r, i, l[i]);
    if l[i].addr < a {
      FitsWithin(r, i, l[i], p);
      InsertSorted(r, i, p);
      InsertMembers(r, i, p);
      InsertLength(r, i, p);
      FitsAfter(r, i, l[i], p, q);
      if b < end {
        InsertSorted(Insert(r, i, p), i + 1, q);
        InsertMembers(Insert(r, i, p), i + 1, q);
      }
    } else if b < end {
      FitsWithin(r, i, l[i], q);
      InsertSorted(r, i, q);
      InsertMembers(r, i, q);
    }
  }

  lemma FitsWithin(l: seq<Ext>, i: nat, e: Ext, p: Ext)
    requires i <= |l| && FitsAt(l, i, e) && e.addr <= p.addr && EndOf(p) <= EndOf(e) && p.len >= 1
    ensures FitsAt(l, i, p)
  {
  }

  lemma FitsAfter(l: seq<Ext>, i: nat, e: Ext, p: Ext, q: Ext)
    requires i <= |l| && FitsAt(l, i, e) && e.addr <= p.addr && EndOf(p) <= q.addr && EndOf(q) <= EndOf(e)
    ensures i + 1 <= |Insert(l, i, p)| && (q.len >= 1 ==> FitsAt(Insert(l, i, p), i + 1, q))
  {
  }

  lemma InsertMembers(l: seq<Ext>, i: nat, e: Ext)
    requires i <= |l|
    ensures forall x :: x in Insert(l, i, e) <==> x == e || x in l
  {
    assert l == l[..i] + l[i..];
  }

  /** Nothing is lost but the run and what lies behind the end the extent was taken to have. */
  lemma CarveBlocks(l: seq<Ext>, i: nat, a: nat, b: nat, end: nat)
    requires Sorted(l) && i < |l| && l[i].addr <= a <= b <= end <= EndOf(l[i])
    ensures var left := Blocks(Carve(l, i, a, b, end));
            && left !! Range(a, b) && left !! Range(end, EndOf(l[i])) && Range(a, b) !! Range(end, EndOf(l[i]))
            && left + Range(a, b) + Range(end, EndOf(l[i])) == Blocks(l)
    ensures Total(Carve(l, i, a, b, end)) + (b - a) + (EndOf(l[i]) - end) == Total(l)
  {
    hide Blocks, Total, Range, Remove, Insert, Sorted;
    var r, e := Remove(l, i), l[i];
    RemoveFacts(l, i);
    InsertBack(l, i);
    var p := Ext(e.addr, a - e.addr);
    if e.addr < a {
      InsertBlocks(r, i, p);
    }
    var left := if e.addr < a then Insert(r, i, p) else r;
    if b < end {
      InsertLength(r, i, p);
      InsertBlocks(left, if e.addr < a then i + 1 else i, Ext(b, end - b));
    }
  }

  lemma InsertLength(l: seq<Ext>, i: nat, e: Ext)
    requires i <= |l|
    ensures |Insert(l, i, e)| == |l| + 1
  {
  }

  /** Reading the length into 32 bits loses free blocks exactly if the length does not fit. */
  lemma NarrowingLoses(l: seq<Ext>, i: nat, a: nat, b: nat)
    requires Sorted(l) && i < |l| && l[i].addr <= a <= b <= l[i].addr + Narrow(l[i].len)
    ensures Blocks(Carve(l, i, a, b, l[i].addr + Narrow(l[i].len))) + Range(a, b) == Blocks(l) <==> l[i].len < TWO_32
  {
    hide Blocks, Carve;
    var end := l[i].addr + Narrow(l[i].len);
    CarveBlocks(l, i, a, b, end);
    if l[i].len >= TWO_32 {
      assert end in Range(end, EndOf(l[i]));
    } else {
      assert Range(end, EndOf(l[i])) == {};
    }
  }

  /** The extent an allocation request is served from: one that overlaps it, else the next above, else
      the lowest. */
  ghost predicate Serves(l: seq<Ext>, i: nat, start: nat, cnt: nat)
    requires i < |l|
  {
    if exists k :: 0 <= k < |l| && Meets(l[k], start, start + cnt) then Meets(l[i], start, start + cnt)
    else if exists k :: 0 <= k < |l| && start + cnt <= l[k].addr then
      start + cnt <= l[i].addr && forall k :: 0 <= k < i ==> l[k].addr < start
    else i == 0
  }

  /** The run `[first, first + n)` answers a request for `cnt` blocks at `start` out of extent `i`: it begins at
      `start` if that lies in the extent and else where the extent does, and it is short only if the extent
      ends there. */
  ghost predicate TakenFrom(l: seq<Ext>, i: nat, start: nat, cnt: nat, first: nat, n: nat) {
    && i < |l| && Serves(l, i, start, cnt)
    && first == (if l[i].addr <= start < EndOf(l[i]) then start else l[i].addr)
    && 1 <= n <= cnt && first + n <= EndOf(l[i]) && (n == cnt || first + n == EndOf(l[i]))
  }

  ghost predicate Served(l: seq<Ext>, start: nat, cnt: nat, first: nat, n: nat) {
    exists i: nat :: TakenFrom(l, i, start, cnt, first, n)
  }

  /** Where the run begins, in terms of blocks alone: within the range asked for if any block of it is free, else
      at the first free block behind it, else at the first free block of all. */
  ghost predicate Nearest(s: set<nat>, start: nat, cnt: nat, first: nat) {
    && first in s
    && if s * Range(start, start + cnt) != {} then start <= first < start + cnt
       else if exists v :: v in s && v >= start then first >= start && forall v :: v in s && v >= start ==> first <= v
       else forall v :: v in s ==> first <= v
  }

  lemma Holder(l: seq<Ext>, v: nat) returns (k: nat)
    requires v in Blocks(l)
    ensures k < |l| && l[k].addr <= v < EndOf(l[k])
  {
    InBlocks(l, v);
    k :| 0 <= k < |l| && l[k].addr <= v < EndOf(l[k]);
  }

  /** If the range is not free, the extent that serves lies behind it if any does, and is the first there. */
  lemma ServesBehind(l: seq<Ext>, i: nat, start: nat, cnt: nat, v: nat)
    requires Sorted(l) && i < |l| && Serves(l, i, start, cnt) && v in Blocks(l) && cnt >= 1
    requires forall k :: 0 <= k < |l| ==> !Meets(l[k], start, start + cnt)
    ensures v >= start ==> start + cnt <= l[i].addr
    ensures v >= start || l[i].addr < start ==> l[i].addr <= v
  {
    var k := Holder(l, v);
    assert !Meets(l[k], start, start + cnt) && !Meets(l[i], start, start + cnt);
  }

  lemma ServedNearest(l: seq<Ext>, start: nat, cnt: nat, first: nat, n: nat)
    requires Sorted(l) && Served(l, start, cnt, first, n) && cnt >= 1
    ensures Nearest(Blocks(l), start, cnt, first) && Range(first, first + n) <= Blocks(l)
  {
    hide Blocks, Range, Serves;
    var i: nat :| TakenFrom(l, i, start, cnt, first, n);
    RangeFree(l, i, first, n);
    MeetsBlocks(l, start, start + cnt);
    if Blocks(l) * Range(start, start + cnt) != {} {
      ServesHere(l, i, start, cnt);
    } else {
      forall v | v in Blocks(l)
        ensures v >= start ==> start + cnt <= l[i].addr
        ensures v >= start || l[i].addr < start ==> l[i].addr <= v
      {
        ServesBehind(l, i, start, cnt, v);
      }
      assert !Meets(l[i], start, start + cnt);
    }
  }

  lemma ServesHere(l: seq<Ext>, i: nat, start: nat, cnt: nat)
    requires i < |l| && Serves(l, i, start, cnt) && exists k :: 0 <= k < |l| && Meets(l[k], start, start + cnt)
    ensures Meets(l[i], start, start + cnt)
  {
  }

  lemma RangeFree(l: seq<Ext>, i: nat, first: nat, n: nat)
    requires i < |l| && l[i].addr <= first && first + n <= EndOf(l[i])
    ensures Range(first, first + n) <= Blocks(l) && (n >= 1 ==> first in Blocks(l))
  {
    forall v | first <= v < first + n ensures v in Blocks(l) {
      InBlocks(l, v);
    }
  }

  /** There is only one place for an extent. */
  lemma OnePlace(l: seq<Ext>, i: nat, j: nat, e: Ext)
    requires Sorted(l) && i <= |l| && j <= |l| && FitsAt(l, i, e) && FitsAt(l, j, e)
    ensures i == j
  {
    NotBefore(l, i, j, e);
    NotBefore(l, j, i, e);
  }

  lemma NotBefore(l: seq<Ext>, i: nat, j: nat, e: Ext)
    requires Sorted(l) && i <= |l| && j <= |l| && FitsAt(l, i, e) && FitsAt(l, j, e)
    ensures j <= i
  {
    if i < |l| {
      assert EndOf(e) <= l[i].addr && l[i].len >= 1;
    }
  }

  /** Where an extent fits, none of its blocks is free yet. */
  lemma FitsFree(l: seq<Ext>, i: nat, e: Ext)
    requires i <= |l| && FitsAt(l, i, e)
    ensures Blocks(l) * Range(e.addr, EndOf(e)) == {}
  {
    hide Blocks;
    forall b | b in Blocks(l) ensures b !in Range(e.addr, EndOf(e)) {
      InBlocks(l, b);
      var k :| 0 <= k < |l| && l[k].addr <= b < EndOf(l[k]);
      assert k < i || k >= i;
    }
  }

  /** The rest of a removed extent can be put back. */
  lemma PutBack(l: seq<Ext>, i: nat, a: nat, b: nat)
    requires Sorted(l) && i < |l| && l[i].addr <= a < b <= EndOf(l[i])
    ensures Sorted(Remove(l, i)) && i <= |Remove(l, i)| && FitsAt(Remove(l, i), i, Ext(a, b - a))
    ensures Blocks(Remove(l, i)) * Range(a, b) == {} && b <= BLOCK_LIMIT
  {
    hide Blocks, Range, Insert, Remove;
    RemoveSorted(l, i);
    InsertBack(l, i);
    FitsWithin(Remove(l, i), i, l[i], Ext(a, b - a));
    FitsFree(Remove(l, i), i, Ext(a, b - a));
  }

  /** So can two rests around a run. */
  lemma PutBackTwo(l: seq<Ext>, i: nat, a: nat, b: nat, end: nat)
    requires Sorted(l) && i < |l| && l[i].addr < a <= b < end <= EndOf(l[i])
    ensures var w := Insert(Remove(l, i), i, Ext(l[i].addr, a - l[i].addr));
            && Sorted(w) && i + 1 <= |w| && FitsAt(w, i + 1, Ext(b, end - b)) && Blocks(w) * Range(b, end) == {}
  {
    hide Blocks, Range, Insert, Remove;
    PutBack(l, i, l[i].addr, a);
    RemoveSorted(l, i);
    InsertBack(l, i);
    var p := Ext(l[i].addr, a - l[i].addr);
    InsertSorted(Remove(l, i), i, p);
    FitsAfter(Remove(l, i), i, l[i], p, Ext(b, end - b));
    FitsFree(Insert(Remove(l, i), i, p), i + 1, Ext(b, end - b));
  }

  // ----- carving after a removal that may have gone wrong -----

  ghost predicate Slipping(l: seq<Ext>, i: nat, j: nat, slip: bool) {
    i < |l| && (slip ==> i + 1 < |l| && j < |l| && j != i && j != i + 1)
  }

  /** The list when extent `i` has been taken out. */
  ghost function Left(l: seq<Ext>, i: nat, j: nat, slip: bool): seq<Ext>
    requires Slipping(l, i, j, slip)
  {
    if slip then Slip(l, i, j) else Remove(l, i)
  }

  /** The outcome of an allocation: the extent carved, or else another extent lost with it. */
  ghost predicate CarvedOut(l: seq<Ext>, i: nat, j: nat, slip: bool, a: nat, b: nat, end: nat, f: seq<Ext>)
    requires Slipping(l, i, j, slip) && l[i].addr <= a <= b <= end
  {
    if slip then Blocks(f) == Blocks(Carve(l, i, a, b, end)) - Range(l[j].addr, EndOf(l[j]))
    else f == Carve(l, i, a, b, end)
  }

  lemma CarveParts(l: seq<Ext>, i: nat, a: nat, b: nat, end: nat)
    requires i < |l| && l[i].addr <= a <= b <= end
    ensures Blocks(Carve(l, i, a, b, end)) == Blocks(Remove(l, i)) + Range(l[i].addr, a) + Range(b, end)
  {
    hide Blocks, Range, Insert, Remove;
    var r, p := Remove(l, i), Ext(l[i].addr, a - l[i].addr);
    InsertBack(l, i);
    if l[i].addr < a {
      InsertBlocks(r, i, p);
      InsertLength(r, i, p);
    } else {
      RangeEmpty(a);
    }
    var left := if l[i].addr < a then Insert(r, i, p) else r;
    if b < end {
      InsertBlocks(left, if l[i].addr < a then i + 1 else i, Ext(b, end - b));
    } else {
      RangeEmpty(b);
    }
  }

  /** No block of the extent taken out is left. */
  lemma LeftFree(l: seq<Ext>, i: nat, j: nat, slip: bool)
    requires Sorted(l) && Slipping(l, i, j, slip)
    ensures forall b :: b in Blocks(Left(l, i, j, slip)) ==> !(l[i].addr <= b < EndOf(l[i]))
    ensures Blocks(Left(l, i, j, slip)) == Blocks(Remove(l, i)) - if slip then Range(l[j].addr, EndOf(l[j])) else {}
    ensures slip ==> EndOf(l[i]) <= l[j].addr || EndOf(l[j]) <= l[i].addr
  {
    hide Blocks, Slip, Remove;
    if slip {
      SlipBlocks(l, i, j);
    }
    forall b | b in Blocks(Left(l, i, j, slip)) ensures !(l[i].addr <= b < EndOf(l[i])) {
      RemoveApart(l, i, b);
    }
  }

  /** What the blocks come to, once what is left around the run has been inserted again. */
  lemma SlipCarved(l: seq<Ext>, i: nat, j: nat, a: nat, b: nat, end: nat, f: seq<Ext>)
    requires Sorted(l) && Slipping(l, i, j, true) && l[i].addr <= a <= b <= end <= EndOf(l[i])
    requires Blocks(f) == Blocks(Left(l, i, j, true)) + Range(l[i].addr, a) + Range(b, end)
    ensures CarvedOut(l, i, j, true, a, b, end, f)
  {
    hide Blocks, Slip, Remove, Carve;
    LeftFree(l, i, j, true);
    CarveParts(l, i, a, b, end);
  }

  /** Nothing was left, ... */
  lemma CarvedNone(l: seq<Ext>, i: nat, j: nat, slip: bool, end: nat)
    requires Sorted(l) && Slipping(l, i, j, slip) && l[i].addr <= end <= EndOf(l[i])
    ensures CarvedOut(l, i, j, slip, l[i].addr, end, end, Left(l, i, j, slip))
  {
    hide Blocks, Slip, Sorted;
    RangeEmpty(end);
    RangeEmpty(l[i].addr);
    if slip {
      SlipCarved(l, i, j, l[i].addr, end, end, Left(l, i, j, true));
    }
  }

  /** ... or one rest, on either side, ... */
  lemma CarvedOne(l: seq<Ext>, i: nat, j: nat, slip: bool, a: nat, b: nat, end: nat, k: nat, e: Ext)
    requires Sorted(l) && Slipping(l, i, j, slip) && l[i].addr <= a < b <= end <= EndOf(l[i])
    requires if a == l[i].addr then b < end && e == Ext(b, end - b) else b == end && e == Ext(l[i].addr, a - l[i].addr)
    requires k <= |Left(l, i, j, slip)| && FitsAt(Left(l, i, j, slip), k, e)
    ensures CarvedOut(l, i, j, slip, a, b, end, Insert(Left(l, i, j, slip), k, e))
  {
    hide Blocks, Slip, Sorted, FitsAt, Range;
    RangeEmpty(a);
    RangeEmpty(b);
    if slip {
      InsertBlocks(Left(l, i, j, true), k, e);
      SlipCarved(l, i, j, a, b, end, Insert(Left(l, i, j, true), k, e));
    } else {
      PutBack(l, i, e.addr, EndOf(e));
      OnePlace(Remove(l, i), i, k, e);
    }
  }

  /** ... or two. */
  lemma CarvedTwo(l: seq<Ext>, i: nat, j: nat, slip: bool, a: nat, b: nat, end: nat, k: nat, m: nat, f: seq<Ext>)
    requires Sorted(l) && Slipping(l, i, j, slip) && l[i].addr < a < b < end <= EndOf(l[i])
    requires k <= |Left(l, i, j, slip)| && FitsAt(Left(l, i, j, slip), k, Ext(l[i].addr, a - l[i].addr))
    requires f == Insert(Left(l, i, j, slip), k, Ext(l[i].addr, a - l[i].addr))
    requires m <= |f| && FitsAt(f, m, Ext(b, end - b))
    ensures CarvedOut(l, i, j, slip, a, b, end, Insert(f, m, Ext(b, end - b)))
  {
    hide Blocks, Slip, Sorted, FitsAt, Range, Insert, Remove;
    var e, e' := Ext(l[i].addr, a - l[i].addr), Ext(b, end - b);
    if slip {
      InsertBlocks(Left(l, i, j, true), k, e);
      InsertBlocks(f, m, e');
      SlipCarved(l, i, j, a, b, end, Insert(f, m, e'));
    } else {
      PutBack(l, i, e.addr, a);
      OnePlace(Remove(l, i), i, k, e);
      PutBackTwo(l, i, a, b, end);
      OnePlace(f, i + 1, m, e');
    }
  }

  /** The rest of the extent meets nothing that is left. */
  lemma RestFree(l: seq<Ext>, i: nat, j: nat, slip: bool, a: nat, b: nat)
    requires Sorted(l) && Slipping(l, i, j, slip) && l[i].addr <= a && b <= EndOf(l[i])
    ensures Blocks(Left(l, i, j, slip)) * Range(a, b) == {}
  {
    hide Blocks, Left, Sorted;
    LeftFree(l, i, j, slip);
  }

  lemma SecondRestFree(l: seq<Ext>, i: nat, j: nat, slip: bool, a: nat, b: nat, end: nat, k: nat)
    requires Sorted(l) && Slipping(l, i, j, slip) && l[i].addr < a <= b && end <= EndOf(l[i])
             && k <= |Left(l, i, j, slip)|
    ensures Blocks(Insert(Left(l, i, j, slip), k, Ext(l[i].addr, a - l[i].addr))) * Range(b, end) == {}
  {
    hide Blocks, Left, Sorted, Insert;
    RestFree(l, i, j, slip, b, end);
    InsertBlocks(Left(l, i, j, slip), k, Ext(l[i].addr, a - l[i].addr));
  }

  /** Lengths below 2^31 stay so. */
  ghost predicate Short(l: seq<Ext>) {
    forall i :: 0 <= i < |l| ==> l[i].len < TWO_31
  }

  lemma ShortAt(l: seq<Ext>, i: nat)
    requires Short(l) && i < |l|
    ensures l[i].len < TWO_31
  {
  }

  lemma ShortEdits(l: seq<Ext>, i: nat, j: nat, slip: bool, e: Ext, k: nat)
    ensures Short(l) && Slipping(l, i, j, slip) ==> Short(Left(l, i, j, slip))
    ensures Short(l) && k <= |l| && e.len < TWO_31 ==> Short(Insert(l, k, e))
  {
  }

  /** What an allocation from an extent of less than 2^31 blocks comes to. */
  lemma CarveSmall(l: seq<Ext>, i: nat, a: nat, b: nat)
    requires Sorted(l) && i < |l| && l[i].addr <= a < b <= EndOf(l[i]) && l[i].len < TWO_31
    ensures Narrow(l[i].len) == l[i].len && Int32(b - a) == b - a
    ensures var c := Carve(l, i, a, b, EndOf(l[i]));
            && Sorted(c) && Total(c) + (b - a) == Total(l)
            && Range(a, b) <= Blocks(l) && Blocks(c) == Blocks(l) - Range(a, b)
            && forall e :: e in c ==> e in l || e.len < TWO_31
  {
    hide Blocks, Total, Range, Carve, Sorted;
    CarveSorted(l, i, a, b, EndOf(l[i]));
    CarveBlocks(l, i, a, b, EndOf(l[i]));
    RangeEmpty(EndOf(l[i]));
  }

  lemma RangeEmpty(a: nat)
    ensures Range(a, a) == {}
  {
  }

  // ----- blocks shared out -----

  function Spare(b: nat): multiset<nat> {
    if b == 0 then multiset{} else multiset{b}
  }

  /** Every block is in one place: free in `s`, free in `b`, the spare one, or held by one of three. */
  ghost predicate Parted(s: set<nat>, b: set<nat>, spare: nat, x: set<nat>, y: set<nat>, z: set<nat>, all: set<nat>) {
    && multiset(s) + multiset(b) + Spare(spare) + multiset(x) + multiset(y) + multiset(z) == multiset(all)
    && 0 !in all
  }

  lemma MultisetMinus(s: set<nat>, r: set<nat>)
    requires r <= s
    ensures multiset(s) == multiset(s - r) + multiset(r)
  {
    forall v: nat ensures multiset(s)[v] == (multiset(s - r) + multiset(r))[v] {
    }
  }

  lemma MultisetPlus(s: set<nat>, r: set<nat>)
    requires s !! r
    ensures multiset(s + r) == multiset(s) + multiset(r)
  {
    forall v: nat ensures multiset(s + r)[v] == (multiset(s) + multiset(r))[v] {
    }
  }

  /** Blocks in one place are in no other. */
  lemma PartsApart(s: set<nat>, b: set<nat>, spare: nat, x: set<nat>, y: set<nat>, z: set<nat>, all: set<nat>)
    requires Parted(s, b, spare, x, y, z, all)
    ensures s !! b && s !! x && s !! y && s !! z && b !! x && b !! y && b !! z && x !! y && x !! z && y !! z
    ensures spare != 0 ==> spare !in s && spare !in b && spare !in x && spare !in y && spare !in z
    ensures 0 !in s && 0 !in b && 0 !in x && 0 !in y && 0 !in z
  {
    forall v: nat
      ensures One(s, v) + One(b, v) + Spare(spare)[v] + One(x, v) + One(y, v) + One(z, v) == One(all, v)
    {
      assert (multiset(s) + multiset(b) + Spare(spare) + multiset(x) + multiset(y) + multiset(z))[v]
          == multiset(all)[v];
    }
    Apart(s, b, x, y, z, all);
  }

  function One(s: set<nat>, v: nat): (n: nat)
    ensures n == multiset(s)[v]
  {
    if v in s then 1 else 0
  }

  lemma Apart(s: set<nat>, b: set<nat>, x: set<nat>, y: set<nat>, z: set<nat>, all: set<nat>)
    requires 0 !in all && forall v: nat :: One(s, v) + One(b, v) + One(x, v) + One(y, v) + One(z, v) <= One(all, v)
    ensures s !! b && s !! x && s !! y && s !! z && b !! x && b !! y && b !! z && x !! y && x !! z && y !! z
    ensures 0 !in s && 0 !in b && 0 !in x && 0 !in y && 0 !in z
  {
    forall v: nat | v in s ensures v !in b && v !in x && v !in y && v !in z && v != 0 {
      assert One(s, v) + One(b, v) + One(x, v) + One(y, v) + One(z, v) <= One(all, v);
    }
    forall v: nat | v in b ensures v !in x && v !in y && v !in z && v != 0 {
      assert One(s, v) + One(b, v) + One(x, v) + One(y, v) + One(z, v) <= One(all, v);
    }
    forall v: nat | v in x ensures v !in y && v !in z && v != 0 {
      assert One(s, v) + One(b, v) + One(x, v) + One(y, v) + One(z, v) <= One(all, v);
    }
    forall v: nat | v in y ensures v !in z && v != 0 {
      assert One(s, v) + One(b, v) + One(x, v) + One(y, v) + One(z, v) <= One(all, v);
    }
    assert One(s, 0) + One(b, 0) + One(x, 0) + One(y, 0) + One(z, 0) <= One(all, 0);
  }

  /** Blocks `r` move from `s` to `t`. */
  lemma Moved(s: set<nat>, t: set<nat>, rest: multiset<nat>, r: set<nat>, all: set<nat>)
    requires multiset(s) + multiset(t) + rest == multiset(all) && r <= s
    ensures multiset(s - r) + multiset(t + r) + rest == multiset(all) && t !! r
  {
    forall v: nat | v in t ensures v !in s {
      assert (multiset(s) + multiset(t) + rest)[v] == multiset(all)[v] <= 1;
      assert multiset(t)[v] == 1;
    }
    MultisetMinus(s, r);
    MultisetPlus(t, r);
    assert multiset(s - r) + (multiset(t) + multiset(r)) + rest == multiset(s - r) + multiset(r) + multiset(t) + rest;
  }

  lemma RangeOne(a: nat)
    ensures Range(a, a + 1) == {a}
  {
  }

  /** What filling the reserve does: blocks leave `s`, one of them becomes the spare block if there was none, and
      all others are free in `b`. */
  ghost predicate Reserved(s: set<nat>, b: set<nat>, spare: nat, s': set<nat>, b': set<nat>, spare': nat) {
    var took := if spare == 0 && spare' != 0 then {spare'} else {};
    && s' <= s && took <= s - s' && (spare != 0 ==> spare' == spare)
    && b' == b + (s - s' - took)
  }

  lemma ReservedNone(s: set<nat>, b: set<nat>, spare: nat)
    ensures Reserved(s, b, spare, s, b, spare)
  {
  }

  lemma ReservedSpare(s: set<nat>, b: set<nat>, spare: nat)
    requires spare in s && spare != 0
    ensures Reserved(s, b, 0, s - {spare}, b, spare)
  {
    assert s - (s - {spare}) == {spare};
  }

  lemma ReservedMore(s: set<nat>, b: set<nat>, spare: nat, s1: set<nat>, b1: set<nat>, spare1: nat, r: set<nat>)
    requires Reserved(s, b, spare, s1, b1, spare1) && r <= s1
    ensures Reserved(s, b, spare, s1 - r, b1 + r, spare1)
  {
  }

  lemma SpaceToBase(s: set<nat>, b: set<nat>, spare: nat, x: set<nat>, y: set<nat>, z: set<nat>, r: set<nat>,
                    all: set<nat>)
    requires Parted(s, b, spare, x, y, z, all) && r <= s
    ensures Parted(s - r, b + r, spare, x, y, z, all)
  {
    Moved(s, b, Spare(spare) + multiset(x) + multiset(y) + multiset(z), r, all);
  }

  lemma SpaceToSpare(s: set<nat>, b: set<nat>, x: set<nat>, y: set<nat>, z: set<nat>, f: nat, all: set<nat>)
    requires Parted(s, b, 0, x, y, z, all) && f in s
    ensures f != 0 && Parted(s - {f}, b, f, x, y, z, all)
  {
    PartsApart(s, b, 0, x, y, z, all);
    MultisetMinus(s, {f});
    assert Spare(f) == multiset({f});
  }

  /** Between `s` and the blocks of other objects. */
  lemma SpaceToOther(s: set<nat>, b: set<nat>, spare: nat, x: set<nat>, y: set<nat>, z: set<nat>, r: set<nat>,
                     all: set<nat>)
    requires Parted(s, b, spare, x, y, z, all)
    ensures r <= s ==> Parted(s - r, b, spare, x, y, z + r, all)
    ensures r <= z ==> Parted(s + r, b, spare, x, y, z - r, all)
  {
    var rest := multiset(b) + Spare(spare) + multiset(x) + multiset(y);
    assert multiset(s) + multiset(z) + rest == multiset(z) + multiset(s) + rest == multiset(all);
    if r <= s {
      Moved(s, z, rest, r, all);
    }
    if r <= z {
      Moved(z, s, rest, r, all);
    }
  }

  /** Between `b` and the blocks of the space tree. */
  lemma BaseToSpaceTree(s: set<nat>, b: set<nat>, spare: nat, x: set<nat>, y: set<nat>, z: set<nat>, r: set<nat>,
                        all: set<nat>)
    requires Parted(s, b, spare, x, y, z, all)
    ensures r <= b ==> Parted(s, b - r, spare, x, y + r, z, all)
    ensures r <= y ==> Parted(s, b + r, spare, x, y - r, z, all)
  {
    var rest := multiset(s) + Spare(spare) + multiset(x) + multiset(z);
    assert multiset(b) + multiset(y) + rest == multiset(y) + multiset(b) + rest == multiset(all);
    if r <= b {
      Moved(b, y, rest, r, all);
    }
    if r <= y {
      Moved(y, b, rest, r, all);
    }
  }

  /** Between the spare block and the blocks of the base tree. */
  lemma SpareToBaseTree(s: set<nat>, b: set<nat>, spare: nat, x: set<nat>, y: set<nat>, z: set<nat>, f: nat,
                        all: set<nat>)
    requires Parted(s, b, spare, x, y, z, all)
    ensures spare != 0 ==> Parted(s, b, 0, x + {spare}, y, z, all)
    ensures spare == 0 && f in x ==> f != 0 && Parted(s, b, f, x - {f}, y, z, all)
  {
    PartsApart(s, b, spare, x, y, z, all);
    if spare != 0 {
      MultisetPlus(x, {spare});
    } else if f in x {
      MultisetMinus(x, {f});
      assert Spare(f) == multiset({f});
    }
  }
}
