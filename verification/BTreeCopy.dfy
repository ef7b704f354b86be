/**
  Copy-on-write: which numbers the blocks on the cursor's path get, and that no clean block of a table is
  ever overwritten.
*/
module BTreeCopy {
  import opened IndexBlock
  import opened BTreeShape
  import opened BTreeOrder
  import opened BTreeDirty

  /** The blocks of a table, the numbers that are free, and those given back so far. */
  datatype Store = Store(m: Heap, free: set<Vbn>, given: seq<Vbn>)

  // ----- no clean block is overwritten -----

  /** What a table may do to its blocks: a clean block that is in use stays as it is until its number has been given
      back; and what is not dirty afterwards has not been written.  Only numbers given back become free. */
  ghost predicate CopyOnWrite(s: Store, s': Store) {
    && s.given <= s'.given
    && (forall v :: v in s.m && !s.m[v].dirty && v !in s.free ==>
          (v in s'.m && s'.m[v] == s.m[v]) || v in s'.given[|s.given|..])
    && (forall v :: v in s'.m && !s'.m[v].dirty ==> v in s.m && s'.m[v] == s.m[v])
    && (forall v :: v in s'.free ==> v in s.free || v in s'.given[|s.given|..])
  }

  lemma CowSame(s: Store)
    ensures CopyOnWrite(s, s)
  {
  }

  lemma CowOn(s: Store, s1: Store, s2: Store)
    requires CopyOnWrite(s, s1) && CopyOnWrite(s1, s2)
    ensures CopyOnWrite(s, s2)
  {
    var g, n := s2.given[|s.given|..], |s1.given| - |s.given|;
    assert s1.given[|s.given|..] == g[..n] && s2.given[|s1.given|..] == g[n..];
    assert forall v :: v in g[..n] || v in g[n..] ==> v in g;
  }

  /** Writing a dirty block, or a new one. */
  lemma CowWrite(s: Store, v: Vbn, c: Cached, taken: bool)
    requires c.dirty && if taken then v in s.free else v in s.m && s.m[v].dirty
    ensures CopyOnWrite(s, Store(s.m[v := c], if taken then s.free - {v} else s.free, s.given))
  {
  }

  /** Giving a block back. */
  lemma CowFree(s: Store, v: Vbn)
    ensures CopyOnWrite(s, Store(s.m - {v}, s.free + {v}, s.given + [v]))
  {
    assert (s.given + [v])[|s.given|..] == [v];
  }

  /** One block of a climb, moved from `was` to `now` if it was clean. */
  lemma CowLevel(s: Store, s': Store, was: Vbn, now: Vbn)
    requires was in s.m && now in s'.m && s'.m[now].dirty && s'.m.Keys <= s.m.Keys + {now}
    requires forall v :: v in s.m && v != was && v != now ==> v in s'.m && s'.m[v] == s.m[v]
    requires if s.m[was].dirty then now == was && s'.free == s.free && s'.given == s.given
             else now in s.free && was !in s'.m && s'.free == s.free - {now} + {was} && s'.given == s.given + [was]
    ensures CopyOnWrite(s, s')
  {
    assert s'.given[|s.given|..] == if s.m[was].dirty then [] else [was];
  }

  // ----- the numbers on the path -----

  /** Which blocks of a path are dirty, from the root down. */
  function Dirts(path: Path): (s: seq<bool>)
    ensures |s| == Depth(path)
  {
    match path
    case Top => []
    case Up(above, f) => Dirts(above) + [f.node.Node? && f.node.dirty]
  }

  /** Which of the blocks with these numbers are dirty. */
  function DirtyIn(m: Heap, vs: seq<Vbn>): (s: seq<bool>)
    ensures |s| == |vs|
  {
    seq(|vs|, d requires 0 <= d < |vs| => vs[d] in m && m[vs[d]].dirty)
  }

  /** The picture says which of the cached blocks on the path are dirty. */
  lemma {:induction false} DirtsHeld(m: Heap, path: Path, h: nat, child: Node, d: nat)
    requires PathOk(m, path, h, child) && d < Depth(path)
    ensures Vbns(path)[d] in m && m[Vbns(path)[d]].dirty == Dirts(path)[d]
    decreases path
  {
    if d < Depth(path.above) {
      DirtsHeld(m, path.above, h + 1, path.f.node, d);
    }
  }

  lemma {:induction false} DirtyAbove(path: Path, child: Node, d: nat)
    requires DirtyPath(path, child) && child.dirty && d < Depth(path)
    ensures Dirts(path)[d]
    decreases path
  {
    if d < Depth(path.above) {
      DirtyAbove(path.above, path.f.node, d);
    }
  }

  /** What is free once the blocks numbered `was` have moved to `now`, the last of them first. */
  function FreeAfter(free: set<Vbn>, was: seq<Vbn>, now: seq<Vbn>): set<Vbn>
    requires |was| == |now|
  {
    if was == [] then free else FreeAfter(free, was[1..], now[1..]) - {now[0]} + {was[0]}
  }

  /** Each of them moves to another number that is free when its turn comes. */
  ghost predicate Moved(free: set<Vbn>, was: seq<Vbn>, now: seq<Vbn>)
    requires |was| == |now|
  {
    was == []
    || (now[0] in FreeAfter(free, was[1..], now[1..]) && now[0] != was[0] && Moved(free, was[1..], now[1..]))
  }

  /** A table and the numbers on its cursor's path before the path is made dirty. */
  datatype Before = Before(store: Store, was: seq<Vbn>)

  /** Copy-on-write of the path, whose blocks are numbered `now` afterwards: the dirty ones stay where they are, and
      below them each clean one moves and gives its number back, the lowest first. */
  ghost predicate Copied(b: Before, now: seq<Vbn>, s: Store) {
    var dirty := DirtyIn(b.store.m, b.was);
    exists k :: 0 <= k <= |b.was| && (forall d :: 0 <= d < k ==> dirty[d]) && CopiedBelow(b, now, k, s)
  }

  ghost predicate CopiedBelow(b: Before, now: seq<Vbn>, k: nat, s: Store) {
    var was, dirty := b.was, DirtyIn(b.store.m, b.was);
    && k <= |was| == |now| && (forall d :: k <= d < |was| ==> !dirty[d])
    && now[..k] == was[..k] && Moved(b.store.free, was[k..], now[k..])
    && s.free == FreeAfter(b.store.free, was[k..], now[k..]) && s.given == b.store.given + Reversed(was[k..])
  }

  /** The blocks numbered `was` from position `d` on are gone or dirty. */
  ghost predicate Soiled(m: Heap, was: seq<Vbn>, d: nat) {
    forall e :: d <= e < |was| && was[e] in m ==> m[was[e]].dirty
  }

  /** Block by block: a dirty block keeps its number; a clean one gets another, which was free before or was
      given up by a clean block further down.  As many numbers are given back as there are clean blocks, and they
      are free unless taken again. */
  lemma CopiedNumbers(b: Before, now: seq<Vbn>, s: Store)
    requires Copied(b, now, s)
    ensures |now| == |b.was| && b.store.given <= s.given
    ensures var was, dirty, free := b.was, DirtyIn(b.store.m, b.was), b.store.free;
            && (forall d :: 0 <= d < |was| ==>
                  if dirty[d] then now[d] == was[d]
                  else now[d] != was[d]
                       && (now[d] in free || exists e :: d < e < |was| && !dirty[e] && was[e] == now[d]))
            && (forall v :: v in s.free ==> v in free || exists d :: 0 <= d < |was| && !dirty[d] && was[d] == v)
            && (forall d :: 0 <= d < |was| && !dirty[d] && (forall e :: 0 <= e < d ==> now[e] != was[d]) ==>
                  was[d] in s.free)
            && (forall d :: 0 <= d < |was| && !dirty[d] ==> was[d] in s.given[|b.store.given|..])
    ensures |s.given| - |b.store.given| == CountClean(DirtyIn(b.store.m, b.was))
  {
    hide CopiedBelow;
    var dirty, was, free := DirtyIn(b.store.m, b.was), b.was, b.store.free;
    var k :| 0 <= k <= |was| && (forall d :: 0 <= d < k ==> dirty[d]) && CopiedBelow(b, now, k, s);
    CopiedCount(b, now, k, s);
    forall d | 0 <= d < |was|
      ensures if dirty[d] then now[d] == was[d]
              else now[d] != was[d]
                   && (now[d] in free || exists e :: d < e < |was| && !dirty[e] && was[e] == now[d])
      ensures !dirty[d] ==> was[d] in s.given[|b.store.given|..]
      ensures !dirty[d] && (forall e :: 0 <= e < d ==> now[e] != was[d]) ==> was[d] in s.free
    {
      CopiedAt(b, now, k, s, d);
    }
    forall v | v in s.free && v !in free ensures exists d :: 0 <= d < |was| && !dirty[d] && was[d] == v {
      CopiedFree(b, now, k, s, v);
    }
  }

  lemma CopiedCount(b: Before, now: seq<Vbn>, k: nat, s: Store)
    requires CopiedBelow(b, now, k, s) && forall d :: 0 <= d < k ==> DirtyIn(b.store.m, b.was)[d]
    ensures |now| == |b.was| && k <= |now| && b.store.given <= s.given
    ensures |s.given| - |b.store.given| == CountClean(DirtyIn(b.store.m, b.was))
    ensures forall d :: k <= d < |b.was| ==> !DirtyIn(b.store.m, b.was)[d]
  {
    hide Moved, FreeAfter;
    CleanLast(DirtyIn(b.store.m, b.was), k);
  }

  lemma CopiedAt(b: Before, now: seq<Vbn>, k: nat, s: Store, d: nat)
    requires CopiedBelow(b, now, k, s) && d < |b.was|
    ensures d < k ==> now[d] == b.was[d]
    ensures d >= k ==>
              && now[d] != b.was[d] && b.was[d] in s.given[|b.store.given|..]
              && (now[d] in b.store.free
                  || exists e :: d < e < |b.was| && !DirtyIn(b.store.m, b.was)[e] && b.was[e] == now[d])
              && ((forall e :: 0 <= e < d ==> now[e] != b.was[d]) ==> b.was[d] in s.free)
  {
    hide Moved, FreeAfter, DirtyIn, Reversed;
    var was := b.was;
    var w, n := was[k..], now[k..];
    if d < k {
      assert now[d] == now[..k][d] == was[..k][d];
    } else {
      MovedAt(b.store.free, w, n, d - k);
      assert w[d - k] == was[d] && n[d - k] == now[d];
      assert Reversed(w)[|w| - 1 - (d - k)] == was[d] && s.given[|b.store.given|..] == Reversed(w);
      if now[d] !in b.store.free {
        var e :| d - k < e < |w| && w[e] == n[d - k];
        assert was[k + e] == now[d];
      }
      if forall e :: 0 <= e < d ==> now[e] != was[d] {
        forall e | 0 <= e < d - k ensures n[e] != w[d - k] {
          assert n[e] == now[k + e];
        }
      }
    }
  }

  lemma CopiedFree(b: Before, now: seq<Vbn>, k: nat, s: Store, v: Vbn)
    requires CopiedBelow(b, now, k, s) && v in s.free && v !in b.store.free
    ensures exists d :: 0 <= d < |b.was| && !DirtyIn(b.store.m, b.was)[d] && b.was[d] == v
  {
    hide Moved, FreeAfter, DirtyIn;
    var w := b.was[k..];
    FreedFrom(b.store.free, w, now[k..], v);
    var d :| 0 <= d < |w| && w[d] == v;
    assert b.was[k + d] == v;
  }

  function CountClean(dirty: seq<bool>): nat {
    if dirty == [] then 0 else CountClean(dirty[1..]) + (if dirty[0] then 0 else 1)
  }

  lemma {:induction false} CleanLast(dirty: seq<bool>, k: nat)
    requires k <= |dirty| && (forall d :: 0 <= d < k ==> dirty[d]) && (forall d :: k <= d < |dirty| ==> !dirty[d])
    ensures CountClean(dirty) == |dirty| - k
  {
    if dirty != [] {
      CleanLast(dirty[1..], if k > 0 then k - 1 else 0);
    }
  }

  lemma {:induction false} MovedAt(free: set<Vbn>, was: seq<Vbn>, now: seq<Vbn>, d: nat)
    requires |was| == |now| && Moved(free, was, now) && d < |was|
    ensures now[d] != was[d] && (now[d] in free || exists e :: d < e < |was| && was[e] == now[d])
    ensures (forall e :: 0 <= e < d ==> now[e] != was[d]) ==> was[d] in FreeAfter(free, was, now)
    decreases d
  {
    if d > 0 {
      MovedAt(free, was[1..], now[1..], d - 1);
      assert was[1..][d - 1] == was[d] && now[1..][d - 1] == now[d];
      if now[d] !in free {
        var e :| d - 1 < e < |was[1..]| && was[1..][e] == now[d];
        assert was[e + 1] == now[d];
      }
      if forall e :: 0 <= e < d ==> now[e] != was[d] {
        assert forall e :: 0 <= e < d - 1 ==> now[1..][e] == now[e + 1];
        assert now[0] != was[d];
      }
    } else if now[0] !in free {
      FreedFrom(free, was[1..], now[1..], now[0]);
      var e :| 0 <= e < |was[1..]| && was[1..][e] == now[0];
      assert was[e + 1] == now[0];
    }
  }

  lemma {:induction false} FreedFrom(free: set<Vbn>, was: seq<Vbn>, now: seq<Vbn>, v: Vbn)
    requires |was| == |now| && v in FreeAfter(free, was, now) && v !in free
    ensures exists e :: 0 <= e < |was| && was[e] == v
    decreases |was|
  {
    if v != was[0] {
      FreedFrom(free, was[1..], now[1..], v);
      var e :| 0 <= e < |was[1..]| && was[1..][e] == v;
      assert was[e + 1] == v;
    }
  }

  // ----- the climb -----

  /** One level up: a clean block moves once those below it have. */
  lemma MovedUp(b: Before, now: seq<Vbn>, d: nat, s: Store, s': Store, v: Vbn)
    requires d < |b.was| && CopiedBelow(b, now, d + 1, s) && !DirtyIn(b.store.m, b.was)[d]
    requires v in s.free && v != b.was[d] && s'.free == s.free - {v} + {b.was[d]} && s'.given == s.given + [b.was[d]]
    ensures CopiedBelow(b, now[d := v], d, s')
  {
    var was, now' := b.was, now[d := v];
    assert was[d..][1..] == was[d + 1..] && now'[d..][1..] == now[d + 1..];
    assert now'[..d] == now[..d + 1][..d] == was[..d + 1][..d] == was[..d];
  }

  lemma CopiedHere(c: Climb, z0: Zip, b: Before, now: seq<Vbn>, s: Store)
    requires Climbing(c, z0) && now == Stack(c.above, c.cur, c.ps) && CopiedBelow(b, now, Depth(c.above) + 1, s)
    ensures Depth(c.above) < |b.was| && b.was[Depth(c.above)] == c.cur.vbn
    ensures forall e :: 0 <= e < Depth(c.above) ==> b.was[e] == Vbns(c.above)[e]
  {
    var d, was := Depth(c.above), b.was;
    assert was[d] == was[..d + 1][d] == now[..d + 1][d] == now[d];
    forall e | 0 <= e < d ensures was[e] == Vbns(c.above)[e] {
      assert was[e] == was[..d + 1][e] == now[..d + 1][e] == now[e];
    }
  }

  lemma CopiedAll(b: Before, now: seq<Vbn>, s: Store)
    requires CopiedBelow(b, now, 0, s)
    ensures Copied(b, now, s)
  {
  }

  /** The climb stops at a dirty block, or above the root. */
  lemma CopiedStop(m: Heap, above: Path, cur: Node, h: nat, b: Before, now: seq<Vbn>, s: Store)
    requires PathOk(m, above, h, cur) && DirtyPath(above, cur) && cur.dirty && Depth(above) < |b.was|
    requires DirtyIn(b.store.m, b.was)[..Depth(above) + 1] == Dirts(above) + [cur.dirty]
    requires CopiedBelow(b, now, Depth(above) + 1, s)
    requires forall e :: 0 <= e < Depth(above) ==> b.was[e] == Vbns(above)[e]
    ensures Copied(b, now, s)
    ensures Soiled(m, b.was, Depth(above)) ==> Soiled(m, b.was, 0)
  {
    hide PathOk, DirtyPath, Moved;
    var d, was, dirty := Depth(above), b.was, DirtyIn(b.store.m, b.was);
    forall e | 0 <= e < d ensures dirty[e] && was[e] in m && m[was[e]].dirty {
      DirtsHeld(m, above, h, cur, e);
      DirtyAbove(above, cur, e);
      assert dirty[e] == dirty[..d + 1][e];
    }
    assert dirty[d] == dirty[..d + 1][d];
  }

  lemma SoiledLevel(m: Heap, m': Heap, was: seq<Vbn>, d: nat, vbn: Vbn)
    requires Soiled(m, was, d + 1) && d < |was|
    requires vbn in m' && m'[vbn].dirty && (was[d] in m' ==> was[d] == vbn)
    requires forall v :: v in m' && v != vbn ==> v in m && m'[v] == m[v]
    ensures Soiled(m', was, d)
  {
  }

  /** The climb has done its work on all blocks below the next one, which hangs below `above` and is dirty or
      not. */
  ghost predicate Tracked(b: Before, above: Path, dirty: bool, now: seq<Vbn>, s: Store) {
    && Depth(above) < |b.was| && DirtyIn(b.store.m, b.was)[..Depth(above) + 1] == Dirts(above) + [dirty]
    && CopyOnWrite(b.store, s) && Soiled(s.m, b.was, Depth(above) + 1) && CopiedBelow(b, now, Depth(above) + 1, s)
  }

  /** It has done all of it. */
  ghost predicate PathCopied(b: Before, now: seq<Vbn>, s: Store) {
    Copied(b, now, s) && CopyOnWrite(b.store, s) && Soiled(s.m, b.was, 0)
  }

  lemma TrackStart(z: Zip, s: Store)
    requires ZipOk(s.m, z)
    ensures var was := Vbns(z.path) + [z.focus.vbn];
            z.focus.Node? && Tracked(Before(s, was), z.path, z.focus.dirty, was, s)
  {
    hide PathOk;
    var was := Vbns(z.path) + [z.focus.vbn];
    forall d | 0 <= d < Depth(z.path) ensures DirtyIn(s.m, was)[d] == Dirts(z.path)[d] {
      assert was[d] == Vbns(z.path)[d];
      DirtsHeld(s.m, z.path, z.h, z.focus, d);
    }
    assert DirtyIn(s.m, was) == Dirts(z.path) + [z.focus.dirty];
    CowSame(s);
  }

  /** One level of the climb, which makes `now` and `s` what they are with a prime. */
  lemma TrackLevel(b: Before, c: Climb, z0: Zip, now: seq<Vbn>, s: Store, now': seq<Vbn>, s': Store, vbn: Vbn)
    requires c.cur.Node? && Tracked(b, c.above, c.cur.dirty, now, s) && Climbing(c, z0)
    requires now == Stack(c.above, c.cur, c.ps) && CopyOnWrite(s, s')
    requires DirtyPath(c.above, c.cur) && PathOk(s'.m, c.above, c.h, c.cur)
    requires Depth(c.above) < |now| && now' == now[Depth(c.above) := vbn]
    requires if c.cur.dirty then vbn == c.cur.vbn && s'.free == s.free && s'.given == s.given
             else vbn in s.free && vbn != c.cur.vbn && s'.free == s.free - {vbn} + {c.cur.vbn}
                  && s'.given == s.given + [c.cur.vbn] && c.cur.vbn !in s'.m
    requires vbn in s'.m && s'.m[vbn].dirty && forall v :: v in s'.m && v != vbn ==> v in s.m && s'.m[v] == s.m[v]
    ensures c.cur.dirty || c.above.Top? ==> PathCopied(b, now', s')
    ensures !c.cur.dirty && c.above.Up? ==>
              Tracked(b, c.above.above, c.above.f.node.Node? && c.above.f.node.dirty, now', s')
  {
    hide PathOk, DirtyPath, Moved, Climbing, CopyOnWrite, Soiled, CopiedBelow, Copied, DirtyIn;
    var d, dirty := Depth(c.above), DirtyIn(b.store.m, b.was);
    CopiedHere(c, z0, b, now, s);
    SoiledLevel(s.m, s'.m, b.was, d, vbn);
    CowOn(b.store, s, s');
    if c.cur.dirty {
      assert now' == now;
      CopiedSame(b, now, d + 1, s, s');
      CopiedStop(s'.m, c.above, c.cur, c.h, b, now, s');
    } else {
      assert dirty[d] == dirty[..d + 1][d];
      MovedUp(b, now, d, s, s', vbn);
      if d == 0 {
        CopiedAll(b, now', s');
      } else {
        assert dirty[..d] == dirty[..d + 1][..d] == Dirts(c.above);
      }
    }
  }

  lemma CopiedSame(b: Before, now: seq<Vbn>, k: nat, s: Store, s': Store)
    requires CopiedBelow(b, now, k, s) && s'.free == s.free && s'.given == s.given
    ensures CopiedBelow(b, now, k, s')
  {
  }

  /** A block on the path may be written before the path is made dirty. */
  lemma CowPath(s: Store, c: Cached, was: seq<Vbn>, d: nat, now: seq<Vbn>, s': Store)
    requires d < |was| && was[d] in s.m && c.dirty == s.m[was[d]].dirty
    requires PathCopied(Before(Store(s.m[was[d] := c], s.free, s.given), was), now, s')
    ensures CopyOnWrite(s, s')
  {
    hide Copied;
    var m1 := s.m[was[d] := c];
    CopiedNumbers(Before(Store(m1, s.free, s.given), was), now, s');
    assert !c.dirty ==> !DirtyIn(m1, was)[d];
  }

  lemma CowDone(b: Before, now: seq<Vbn>, s: Store)
    requires PathCopied(b, now, s)
    ensures CopyOnWrite(b.store, s)
  {
  }

  /** The root `r` has been written, and its entries are in a new block `v`. */
  ghost predicate RootMoved(s: Store, s1: Store, v: Vbn, r: Vbn) {
    && v in s.free && r in s.m && r != v && v in s1.m && r in s1.m
    && s1.m[v].dirty && s1.m[r].dirty == s.m[r].dirty
    && s1 == Store(s.m[v := s1.m[v]][r := s1.m[r]], s.free - {v}, s.given)
  }

  /** So may the root, when its entries have moved to a new block. */
  lemma CowRoot(s: Store, s1: Store, v: Vbn, was: seq<Vbn>, now: seq<Vbn>, s': Store)
    requires was != [] && RootMoved(s, s1, v, was[0]) && PathCopied(Before(s1, was), now, s')
    ensures CopyOnWrite(s, s')
  {
    hide CopyOnWrite, PathCopied;
    var s2 := Store(s.m[v := s1.m[v]], s.free - {v}, s.given);
    CowWrite(s, v, s1.m[v], true);
    CowPath(s2, s1.m[was[0]], was, 0, now, s');
    CowOn(s, s2, s');
  }

  /** Above a path made dirty the parent is dirty. */
  lemma ParentDirtied(m: Heap, z0: Zip, z: Zip, h: nat, child: Node)
    requires Redirtied(z0, z) && z.path.Up? && PathOk(m, z.path, h, child)
    ensures z.path.f.node.Node? && z.path.f.node.vbn in m && m[z.path.f.node.vbn].dirty
  {
    DirtsHeld(m, z.path, h, child, Depth(z.path) - 1);
  }

  /** A split writes a new block, makes the path dirty, and then writes the block in focus and its parent. */
  lemma CowSplit(s: Store, s1: Store, was: seq<Vbn>, now: seq<Vbn>, s2: Store, new1: Vbn, v: Vbn, par: Vbn, m: Heap,
                 s': Store)
    requires new1 in s.free && new1 in s1.m && s1.m[new1].dirty
    requires s1 == Store(s.m[new1 := s1.m[new1]], s.free - {new1}, s.given) && PathCopied(Before(s1, was), now, s2)
    requires v in s2.m && s2.m[v].dirty && v in m && m[v].dirty && m == s2.m[v := m[v]]
    requires par in m && m[par].dirty && par in s'.m && s'.m[par].dirty
    requires s' == Store(m[par := s'.m[par]], s2.free, s2.given)
    ensures CopyOnWrite(s, s')
  {
    hide CopyOnWrite, PathCopied;
    CowWrite(s, new1, s1.m[new1], true);
    CowDone(Before(s1, was), now, s2);
    CowOn(s, s1, s2);
    var s3 := Store(m, s2.free, s2.given);
    CowWrite(s2, v, m[v], false);
    CowOn(s, s2, s3);
    CowWrite(s3, par, s'.m[par], false);
    CowOn(s, s3, s');
  }
}
