/**
  Places in the in-order list of a table: what lies before and after the cursor,
  how a cursor move changes that, and how a search key cuts the list in two.
*/
module BTreeOrder {
  import opened IndexBlock
  import opened BTreeShape

  /** How an entry compares with the key looked for: negative if smaller. */
  type Probe = KV -> int

  ghost predicate Below(cmp: Probe, l: seq<KV>) {
    forall i :: 0 <= i < |l| ==> cmp(l[i]) < 0
  }

  ghost predicate Above(cmp: Probe, l: seq<KV>) {
    forall i :: 0 <= i < |l| ==> cmp(l[i]) > 0
  }

  /** Along the list the probe never falls back: smaller, then equal, then larger entries. */
  ghost predicate Monotone(cmp: Probe, l: seq<KV>) {
    forall i, j :: 0 <= i < j < |l| ==>
      (cmp(l[j]) < 0 ==> cmp(l[i]) < 0) && (cmp(l[i]) > 0 ==> cmp(l[j]) > 0)
  }

  lemma MonotoneAround(cmp: Probe, a: seq<KV>, x: KV, b: seq<KV>)
    requires Monotone(cmp, a + [x] + b)
    ensures cmp(x) < 0 ==> Below(cmp, a + [x])
    ensures cmp(x) > 0 ==> Above(cmp, [x] + b)
  {
    var l := a + [x] + b;
    assert l[|a|] == x;
    forall i | 0 <= i < |a| ensures cmp(x) < 0 ==> cmp(a[i]) < 0 {
      assert l[i] == a[i];
    }
    forall i | 0 <= i < |b| ensures cmp(x) > 0 ==> cmp(b[i]) > 0 {
      assert l[|a| + 1 + i] == b[i];
    }
  }

  /** What lies before the subtree of entry `p` of the node in focus, and the rest. */
  ghost function Lead(z: Zip, p: nat): seq<KV>
    requires z.focus.Node? && p <= |z.focus.slots|
  {
    LeftOf(z.path) + FlatS(z.focus.slots[..p])
  }

  ghost function Tail(z: Zip, p: nat): seq<KV>
    requires z.focus.Node? && p <= |z.focus.slots|
  {
    FlatS(z.focus.slots[p..]) + RightOf(z.path)
  }

  /** What lies after the subtree of entry `p`: the entry itself and all beyond it. */
  ghost function After(z: Zip, p: nat): seq<KV>
    requires z.focus.Node? && p < |z.focus.slots|
  {
    Pay(z.focus.slots[p].ent) + FlatS(z.focus.slots[p+1..]) + RightOf(z.path)
  }

  lemma LeadTail(z: Zip, p: nat)
    requires z.focus.Node? && p < |z.focus.slots|
    ensures Contents(z) == Lead(z, p) + Tail(z, p)
    ensures Tail(z, p) == Flat(z.focus.slots[p].kid) + After(z, p)
    ensures Lead(z, p + 1) == Lead(z, p) + (Flat(z.focus.slots[p].kid) + Pay(z.focus.slots[p].ent))
    ensures After(z, p) == Pay(z.focus.slots[p].ent) + Tail(z, p + 1)
  {
    var slots := z.focus.slots;
    FlatAt(slots, p);
    Assoc(LeftOf(z.path), FlatS(slots[..p]), FlatS(slots[p..]), RightOf(z.path));
    AssocTail(Flat(slots[p].kid), Pay(slots[p].ent), FlatS(slots[p+1..]), RightOf(z.path));
    AssocLead(LeftOf(z.path), FlatS(slots[..p]), FlatSlot(slots[p]));
  }

  lemma AssocTail<T>(k: seq<T>, e: seq<T>, b: seq<T>, r: seq<T>)
    ensures ((k + e) + b) + r == k + ((e + b) + r)
    ensures (e + b) + r == e + (b + r)
  {
  }

  lemma AssocLead<T>(l: seq<T>, a: seq<T>, s: seq<T>)
    ensures l + (a + s) == (l + a) + s
  {
  }

  lemma Assoc<T>(l: seq<T>, a: seq<T>, b: seq<T>, r: seq<T>)
    ensures (l + a) + (b + r) == l + (a + b) + r
  {
  }

  lemma PushLead(z: Zip, p: nat)
    requires z.focus.Node? && p < |z.focus.slots| && z.h >= 1 && z.focus.slots[p].kid.Node?
    ensures Lead(Push(z, p), 0) == Lead(z, p)
    ensures RightOf(Push(z, p).path) == After(z, p)
  {
    PushFlat(z, p);
    assert FlatS(z.focus.slots[p].kid.slots[..0]) == [];
  }

  lemma LeafTail(z: Zip, p: nat)
    requires z.focus.Node? && p < |z.focus.slots| && z.focus.slots[p].kid.Nil?
    ensures Tail(z, p) == After(z, p)
  {
    LeadTail(z, p);
    assert Tail(z, p) == [] + After(z, p);
  }

  lemma RootLead(z: Zip)
    requires z.focus.Node? && z.path.Top?
    ensures forall cmp :: Below(cmp, Lead(z, 0)) && Above(cmp, RightOf(z.path))
  {
    assert z.focus.slots[..0] == [];
  }

  lemma NonEmpty(m: Heap, z: Zip, free: set<Vbn>, all: set<Vbn>)
    requires Sound(m, z, free, all)
    ensures z.focus.Node? && |z.focus.slots| >= 1 && z.focus.vbn in m
    ensures m[z.focus.vbn].ib.large == (z.h >= 2) && z.h >= 1
  {
  }

  lemma DepthSound(m: Heap, z: Zip, free: set<Vbn>, all: set<Vbn>)
    requires Sound(m, z, free, all)
    ensures Depth(z.path) + z.h <= TREE_MAX_DEPTH
  {
    DepthBound(m, z.path, z.h, z.focus);
  }

  /** One comparison of the search: past a smaller entry, or everything from a larger one on. */
  lemma SearchStep(cmp: Probe, z: Zip, p: nat)
    requires z.focus.Node? && p < |z.focus.slots| && z.focus.slots[p].ent.Ent?
    requires Monotone(cmp, Contents(z))
    ensures var kv := Pay(z.focus.slots[p].ent)[0];
            && (cmp(kv) < 0 ==> Below(cmp, Lead(z, p + 1)))
            && (cmp(kv) > 0 ==> Above(cmp, After(z, p)))
  {
    var kv := Pay(z.focus.slots[p].ent)[0];
    var k := Flat(z.focus.slots[p].kid);
    LeadTail(z, p);
    Around(Lead(z, p), k, kv, Tail(z, p + 1));
    MonotoneAround(cmp, Lead(z, p) + k, kv, Tail(z, p + 1));
    AssocLead(Lead(z, p), k, [kv]);
  }

  lemma Around<T>(a: seq<T>, k: seq<T>, x: T, b: seq<T>)
    ensures a + (k + ([x] + b)) == (a + k) + [x] + b
  {
  }

  /** Everything before entry `p` of the node in focus, its subtree included. */
  ghost function Upto(z: Zip, p: nat): seq<KV>
    requires z.focus.Node? && p < |z.focus.slots|
  {
    Lead(z, p) + Flat(z.focus.slots[p].kid)
  }

  /** The place of a cursor in the in-order list; at BEGIN, the place of the subtree in focus. */
  ghost function Rank(z: Zip, p: int): nat
    requires z.focus.Node? && p < |z.focus.slots|
  {
    if p < 0 then |LeftOf(z.path)| else |Upto(z, p)|
  }

  /** The place a backward step reaches one past: an edge's own place, or just after a real entry. */
  ghost function Edge(z: Zip, p: int): nat
    requires z.focus.Node? && p < |z.focus.slots|
  {
    if p < 0 || p == |z.focus.slots| - 1 then Rank(z, p) else Rank(z, p) + 1
  }

  /** Where a backward move from the cursor is heading: one past the entry it will stop at. */
  ghost function Goal(z: Zip, p: int): nat
    requires z.focus.Node? && p < |z.focus.slots|
  {
    if p >= 0 && z.h >= 2 then Rank(z, p) else Edge(z, p)
  }

  /** The place a forward step from the cursor reaches. */
  ghost function Following(z: Zip, p: int): nat
    requires z.focus.Node? && p < |z.focus.slots|
  {
    if p < 0 then Rank(z, p) else Rank(z, p) + 1
  }

  /** The cursor is on a real entry, which is the one at its place in the list. */
  ghost predicate AtEntry(z: Zip, p: nat)
    requires z.focus.Node? && p < |z.focus.slots|
  {
    && z.focus.slots[p].ent.Ent? && Rank(z, p) < |Contents(z)|
    && Contents(z)[Rank(z, p)] == KV(z.focus.slots[p].ent.key, z.focus.slots[p].ent.value)
  }

  lemma UptoRank(z: Zip, p: nat)
    requires z.focus.Node? && p < |z.focus.slots|
    ensures Rank(z, p) == |Upto(z, p)|
  {
  }

  lemma RankNext(z: Zip, p: nat)
    requires z.focus.Node? && p < |z.focus.slots| && z.focus.slots[p].ent.Ent?
    ensures |Lead(z, p + 1)| == Rank(z, p) + 1
    ensures Rank(z, p) < |Contents(z)|
    ensures AtEntry(z, p) && Contents(z)[Rank(z, p)] == Pay(z.focus.slots[p].ent)[0]
    ensures Contents(z) == Upto(z, p) + [Pay(z.focus.slots[p].ent)[0]] + Tail(z, p + 1)
  {
    LeadTail(z, p);
    Around(Lead(z, p), Flat(z.focus.slots[p].kid), Pay(z.focus.slots[p].ent)[0], Tail(z, p + 1));
  }

  lemma LeadStart(z: Zip)
    requires z.focus.Node?
    ensures Lead(z, 0) == LeftOf(z.path)
    ensures |z.focus.slots| > 0 ==> Rank(z, -1) == |Lead(z, 0)|
  {
    assert z.focus.slots[..0] == [];
  }

  lemma UptoEnd(z: Zip, p: nat)
    requires z.focus.Node? && p == |z.focus.slots| - 1 && z.focus.slots[p].ent.End?
    ensures Upto(z, p) == LeftOf(z.path) + Flat(z.focus)
    ensures Contents(z) == Upto(z, p) + RightOf(z.path)
  {
    var k := Flat(z.focus.slots[p].kid);
    FlatAt(z.focus.slots, p);
    assert z.focus.slots[..p+1] == z.focus.slots;
    assert k + [] == k;
    AssocLead(LeftOf(z.path), FlatS(z.focus.slots[..p]), k);
  }

  lemma PopLead(z: Zip)
    requires CanPop(z) && z.focus.Node?
    ensures Lead(Pop(z), z.path.f.pos) == LeftOf(z.path)
    ensures Upto(Pop(z), z.path.f.pos) == LeftOf(z.path) + Flat(z.focus)
  {
    PopPush(z);
    PushFlat(Pop(z), z.path.f.pos);
  }

  lemma PushUpto(z: Zip, p: nat)
    requires z.focus.Node? && p < |z.focus.slots| && z.h >= 1
    requires var n := z.focus.slots[p].kid; n.Node? && |n.slots| >= 1 && n.slots[|n.slots| - 1].ent.End?
    ensures Upto(Push(z, p), |z.focus.slots[p].kid.slots| - 1) == Upto(z, p)
  {
    var z' := Push(z, p);
    UptoEnd(z', |z'.focus.slots| - 1);
    PushFlat(z, p);
  }

  /** In a leaf, and stepping back in it or out of it. */
  lemma LeafRank(z: Zip, p: nat)
    requires z.focus.Node? && p < |z.focus.slots| && z.focus.slots[p].kid.Nil?
    ensures Rank(z, p) == |Lead(z, p)|
    ensures p > 0 && z.focus.slots[p - 1].ent.Ent? ==> Rank(z, p) == Rank(z, p - 1) + 1
    ensures p == 0 ==> Rank(z, p) == Rank(z, -1)
  {
    LeadStart(z);
    if p > 0 && z.focus.slots[p - 1].ent.Ent? {
      RankNext(z, p - 1);
    }
  }

  lemma PopBack(z: Zip)
    requires CanPop(z) && z.focus.Node?
    requires z.path.f.pos > 0 ==> z.path.f.node.slots[z.path.f.pos - 1].ent.Ent?
    ensures Rank(z, -1) == if z.path.f.pos == 0 then Rank(Pop(z), -1) else Rank(Pop(z), z.path.f.pos - 1) + 1
  {
    PopLead(z);
    LeadStart(Pop(z));
    if z.path.f.pos > 0 {
      RankNext(Pop(z), z.path.f.pos - 1);
    }
  }

  lemma PopForward(z: Zip)
    requires CanPop(z) && z.focus.Node? && |z.focus.slots| >= 1
    requires z.focus.slots[|z.focus.slots| - 1].ent.End?
    ensures Rank(z, |z.focus.slots| - 1) == Rank(Pop(z), z.path.f.pos)
  {
    PopLead(z);
    UptoEnd(z, |z.focus.slots| - 1);
  }

  lemma RootRanks(z: Zip)
    requires z.path.Top? && z.focus.Node? && |z.focus.slots| >= 1
    requires z.focus.slots[|z.focus.slots| - 1].ent.End?
    ensures Rank(z, -1) == 0 && Rank(z, |z.focus.slots| - 1) == |Contents(z)|
    ensures LeftOf(z.path) == []
  {
    UptoEnd(z, |z.focus.slots| - 1);
  }

  function Reversed<T>(s: seq<T>): (r: seq<T>)
    ensures |r| == |s| && forall i :: 0 <= i < |s| ==> r[i] == s[|s| - 1 - i]
  {
    if s == [] then [] else Reversed(s[1..]) + [s[0]]
  }

  /** What a walk has visited when it stands at place `r`. */
  ghost function Visited(l: seq<KV>, r: nat, reverse: bool): seq<KV>
    requires r < |l|
  {
    if reverse then Reversed(l[r+1..]) else l[..r]
  }

  lemma VisitedNext(l: seq<KV>, r: nat, reverse: bool)
    requires r < |l|
    ensures var v := Visited(l, r, reverse) + [l[r]];
            && (!reverse ==> v == if r + 1 < |l| then Visited(l, r + 1, false) else l)
            && (reverse ==> v == if r > 0 then Visited(l, r - 1, true) else Reversed(l))
  {
    assert l[r..][1..] == l[r+1..];
    assert Reversed(l[r..]) == Reversed(l[r+1..]) + [l[r]];
    assert l[0..] == l;
  }

  lemma VisitedFirst(l: seq<KV>, r: nat, reverse: bool)
    requires r < |l| && (if reverse then r + 1 == |l| else r == 0)
    ensures Visited(l, r, reverse) == []
  {
  }

  /** The picture as seen from height `h`, and the entry the cursor went down through there. */
  function UpTo(z: Zip, h: nat): Zip
    decreases z.path
  {
    if z.h < h && CanPop(z) then UpTo(Pop(z), h) else z
  }

  function UpPos(z: Zip, p: int, h: nat): int
    decreases z.path
  {
    if z.h < h && CanPop(z) then UpPos(Pop(z), z.path.f.pos, h) else p
  }

  lemma PushBack(z: Zip, p: nat, q: int, h: nat)
    requires z.focus.Node? && p < |z.focus.slots| && 1 <= z.h <= h
    ensures UpTo(Push(z, p), h) == UpTo(z, h) && UpPos(Push(z, p), q, h) == UpPos(z, p, h)
  {
    var ss := z.focus.slots;
    assert SetKid(SetKid(ss, p, Nil), p, ss[p].kid) == ss;
    assert Pop(Push(z, p)) == z;
  }
}
