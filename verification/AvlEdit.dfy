/**
  Insertion into a hole, removal of a node with at most one child, one node taking another's place,
  and what each step of rebalancing does to the picture.
*/
module AvlEdit {
  import opened AvlShape
  import opened AvlRotate

  // ----- rebalancing -----

  /** The node above the hole gets a new balance and joins the subtree. */
  function Rejoined(p: Path, bal: int, f: Tree): Tree
    requires p.Step?
  {
    Mk(p.n, bal, p.side, f, p.sib)
  }

  lemma Rebalanced(m: Mem, p: Path, f: Tree, root: AvlNode?, bal: int, s: set<AvlNode>)
    requires p.Step? && Placed(m, p, f, root, s) && p.n in m
    ensures Placed(m[p.n := m[p.n].(balance := bal)], p.above, Rejoined(p, bal, f), root, s)
  {
    hide Linked, PathLinked, Foot, FootP;
    var m' := m[p.n := m[p.n].(balance := bal)];
    PathParts(m, p, root, Ptr(f));
    StepApart(p, f, s);
    LinkedFramed(m, m', f, p.n, p.side);
    LinkedFramed(m, m', p.sib, p.n, 1 - p.side);
    PathFramed(m, m', p.above, root, p.n);
    MkLinked(m', p.n, p.side, f, p.sib, PathPtr(p.above), PathSide(p.above));
    MkFoot(p.n, bal, p.side, f, p.sib);
    FootStep(p);
    Regrouped(FootP(p.above), multiset{p.n}, Foot(f), Foot(p.sib));
  }

  lemma Regrouped(p: multiset<AvlNode>, n: multiset<AvlNode>, f: multiset<AvlNode>, s: multiset<AvlNode>)
    ensures n + (s + p) + f == p + (n + f + s)
  {
  }

  /** The node above the hole occurs nowhere else. */
  lemma StepApart(p: Path, f: Tree, s: set<AvlNode>)
    requires p.Step? && Exactly(FootP(p) + Foot(f), s)
    ensures p.n !in Foot(f) && p.n !in Foot(p.sib) && p.n !in FootP(p.above) && p.n in s
  {
    hide Foot, FootP;
    FootStep(p);
    Regrouped(FootP(p.above), multiset{p.n}, Foot(f), Foot(p.sib));
    Apart(FootP(p.above), p.n, Foot(f), Foot(p.sib), s);
  }

  /** The node above the hole joins the subtree unchanged. */
  lemma JoinedPlaced(m: Mem, p: Path, f: Tree, root: AvlNode?, s: set<AvlNode>)
    requires p.Step? && Placed(m, p, f, root, s)
    ensures Placed(m, p.above, Joined(p, f), root, s)
  {
    UpLinked(m, p, f, root);
    UpFoot(p, f);
  }

  /** What the node above the hole stores. */
  lemma StepFields(m: Mem, p: Path, f: Tree, root: AvlNode?, s: set<AvlNode>)
    requires p.Step? && Placed(m, p, f, root, s)
    ensures p.side <= 1 && p.n in m && p.n in s && m[p.n].balance == p.bal && m[p.n].parent == PathPtr(p.above)
    ensures |m[p.n].child| == 2 && m[p.n].child[p.side] == Ptr(f)
    ensures p.above.Step? ==> m[p.n].index == p.above.side
  {
    StepApart(p, f, s);
  }

  /** A subtree has grown by one level below a node of balance `p.bal`. */
  lemma Grown(p: Path, f: Tree, h: nat)
    requires p.Step? && Balanced(f) && H(f) == h + 1 && PathBalanced(p, h)
    ensures var bal := p.bal + Weight(p.side); var f' := Rejoined(p, bal, f);
            && (bal == 0 ==> Balanced(f') && PathBalanced(p.above, H(f')))
            && (bal != 0 && p.bal == 0 ==>
                  Balanced(f') && H(f') == H(f) + 1 && PathBalanced(p.above, H(f)) && f'.bal != 0)
            && (bal != 0 && p.bal != 0 ==>
                  (bal == 2 || bal == -2) && p.side == (if bal < 0 then 0 else 1)
                  && Leaning(Joined(p, f), p.side) && PathBalanced(p.above, H(f)))
    ensures -1 <= p.bal <= 1
  {
    hide H, Balanced;
    PathParted(p, h);
    var bal := p.bal + Weight(p.side);
    if bal == 0 || p.bal == 0 {
      MkBalanced(p.n, p.side, f, p.sib, bal);
    } else {
      MkKid(p.n, p.bal, p.side, f, p.sib);
      HighBin(f);
    }
  }

  lemma MkKid(n: AvlNode, bal: int, i: nat, a: Tree, b: Tree)
    requires i <= 1
    ensures Kid(Mk(n, bal, i, a, b), i) == a && Kid(Mk(n, bal, i, a, b), 1 - i) == b
  {
  }

  /** A subtree has shrunk by one level below a node of balance `p.bal`. */
  lemma Shrunk(p: Path, f: Tree, h: nat)
    requires p.Step? && Balanced(f) && H(f) + 1 == h && PathBalanced(p, h)
    ensures var bal := p.bal - Weight(p.side); var f' := Rejoined(p, bal, f);
            && (p.bal == 0 ==> Balanced(f') && PathBalanced(p.above, H(f')))
            && (p.bal != 0 && bal == 0 ==> Balanced(f') && PathBalanced(p.above, H(f') + 1))
            && (p.bal != 0 && bal != 0 ==>
                  (bal == 2 || bal == -2) && 1 - p.side == (if bal < 0 then 0 else 1)
                  && Leaning(Joined(p, f), 1 - p.side) && Kid(Joined(p, f), 1 - p.side) == p.sib
                  && PathBalanced(p.above, H(p.sib) + 1))
    ensures p.side <= 1 && -1 <= p.bal <= 1
  {
    hide H, Balanced;
    PathParted(p, h);
    var bal := p.bal - Weight(p.side);
    if p.bal == 0 || bal == 0 {
      MkBalanced(p.n, p.side, f, p.sib, bal);
    } else {
      MkKid(p.n, p.bal, p.side, f, p.sib);
      HighBin(p.sib);
      assert 1 - (1 - p.side) == p.side;
    }
  }

  lemma HighBin(t: Tree)
    ensures H(t) > 0 ==> t.Bin?
  {
  }

  lemma PathParted(p: Path, h: nat)
    requires p.Step? && PathBalanced(p, h)
    ensures p.side <= 1 && p.bal == Weight(p.side) * (h - H(p.sib)) && -1 <= p.bal <= 1 && Balanced(p.sib)
    ensures PathBalanced(p.above, 1 + Max(h, H(p.sib)))
  {
  }

  // ----- insertion -----

  /** A new leaf in the hole. */
  lemma LeafPlaced(m: Mem, m': Mem, p: Path, n: AvlNode, root: AvlNode?, root': AvlNode?, s: set<AvlNode>)
    requires Placed(m, p, Nil, root, s) && n !in s && n in m'
    requires m'[n].child == [null, null] && m'[n].balance == 0 && m'[n].parent == PathPtr(p)
    requires p.Step? ==> m'[n].index == p.side
    requires Relinked(m, m', p, root, root', n) && SameBut(m, m', {n, PathPtr(p)})
    ensures Placed(m', p, Bin(n, 0, Nil, Nil), root', s + {n})
  {
    hide FootP, PathLinked;
    assert Foot(Nil) == multiset{};
    OnceEach(FootP(p), multiset{}, s);
    assert FootP(p) + multiset{} == FootP(p);
    if p.Step? {
      FootStep(p);
      SplitOnce(FootP(p), p.n, Foot(p.sib) + FootP(p.above));
    }
    PathRelinked(m, m', p, root, root', null, n);
    assert Foot(Bin(n, 0, Nil, Nil)) == multiset{n};
    assert FootP(p) + multiset{n} == multiset(s) + multiset{n} == multiset(s + {n});
    assert Exactly(FootP(p) + Foot(Bin(n, 0, Nil, Nil)), s + {n});
    assert Linked(m', Bin(n, 0, Nil, Nil), PathPtr(p), PathSide(p));
  }

  // ----- removal of a node with at most one child -----

  predicate Sparse(d: Tree) {
    d.Bin? && (d.l.Nil? || d.r.Nil?)
  }

  function OnlyKid(d: Tree): Tree
    requires d.Bin?
  {
    if d.l.Bin? then d.l else d.r
  }

  lemma SparseFacts(d: Tree)
    requires Sparse(d) && Balanced(d)
    ensures H(d) == H(OnlyKid(d)) + 1 && Balanced(OnlyKid(d))
  {
  }

  /** The only child takes the node's place. */
  lemma Bypassed(m: Mem, m': Mem, p: Path, d: Tree, root: AvlNode?, root': AvlNode?, which: nat, s: set<AvlNode>)
    requires Placed(m, p, d, root, s) && Sparse(d) && Balanced(d) && (p.Step? ==> which == p.side)
    requires var k := OnlyKid(d);
             && (k.Bin? ==> k.n in m && k.n in m' && m'[k.n] == m[k.n].(parent := PathPtr(p), index := which))
             && Relinked(m, m', p, root, root', Ptr(k)) && SameBut(m, m', {d.n, Ptr(k), PathPtr(p)})
    ensures Placed(m', p, OnlyKid(d), root', s - {d.n})
  {
    hide PathLinked, Linked, Foot, FootP, Balanced;
    var k, side := OnlyKid(d), if d.l.Bin? then 0 else 1;
    SparseApart(p, d, s);
    KidLinked(m, d, PathPtr(p), PathSide(p), side);
    Reparented(m, m', k, d.n, side, PathPtr(p), which);
    AtRoot(m', k, PathPtr(p), which, PathSide(p));
    PathRelinked(m, m', p, root, root', d.n, Ptr(k));
    SparseFoot(p, d, s);
  }

  lemma AtRoot(m: Mem, t: Tree, parent: AvlNode?, i: nat, j: nat)
    requires Linked(m, t, parent, i) && (parent != null ==> i == j)
    ensures Linked(m, t, parent, j)
  {
  }

  lemma SparseFoot(p: Path, d: Tree, s: set<AvlNode>)
    requires Exactly(FootP(p) + Foot(d), s) && Sparse(d)
    ensures Exactly(FootP(p) + Foot(OnlyKid(d)), s - {d.n}) && d.n in s
  {
    hide FootP;
    var k: multiset<AvlNode> := Foot(OnlyKid(d));
    assert Foot(d) == multiset{d.n} + k;
    assert FootP(p) + (multiset{d.n} + k) == FootP(p) + k + multiset{d.n};
    assert d.n in multiset(s);
    assert multiset(s - {d.n}) + multiset{d.n} == multiset(s);
    Cancel(FootP(p) + k, multiset(s - {d.n}), d.n);
  }

  lemma Cancel(a: multiset<AvlNode>, b: multiset<AvlNode>, n: AvlNode)
    requires a + multiset{n} == b + multiset{n}
    ensures a == b
  {
    forall v: AvlNode ensures a[v] == b[v] {
      assert (a + multiset{n})[v] == (b + multiset{n})[v];
    }
  }

  /** The node taken out and its child's root are apart from all that is left. */
  lemma SparseApart(p: Path, d: Tree, s: set<AvlNode>)
    requires Exactly(FootP(p) + Foot(d), s) && Sparse(d)
    ensures var k := OnlyKid(d);
            && (k.Bin? ==>
                  k.n != d.n && k.n !in FootP(p)
                      && (forall v :: v in Foot(k.l) + Foot(k.r) ==> v != d.n && v != k.n && v != PathPtr(p)))
            && (p.Step? ==>
                  p.n != d.n && forall v :: v in Foot(p.sib) + FootP(p.above) ==> v != d.n && v != p.n && v != Ptr(k))
  {
    hide FootP, Foot;
    var k := OnlyKid(d);
    KidsFoot(d, 0);
    NilFoot();
    assert FootP(p) + (multiset{d.n} + Foot(k) + multiset{}) == FootP(p) + Foot(d);
    Apart(FootP(p), d.n, Foot(k), multiset{}, s);
    HasRoot(k);
    HasStep(p);
    KidLeft(d);
    RestApart(p, d, k, s);
  }

  lemma KidLeft(d: Tree)
    requires d.Bin?
    ensures Foot(OnlyKid(d)) <= Foot(d)
  {
  }

  lemma NilFoot()
    ensures Foot(Nil) == multiset{}
  {
  }

  // ----- one node taking another's place -----

  /** The fields after `now` has taken the place of `was`, below `up` and above `l` and `r`. */
  function Replaced(m: Mem, was: AvlNode, now: AvlNode, up: AvlNode?, side: nat, l: AvlNode?, r: AvlNode?): Mem
    requires was in m && (l != null ==> l in m) && (r != null ==> r in m)
    requires up != null ==> up in m && side < |m[up].child|
  {
    var m1 := m[now := m[was]];
    var m2 := if up != null then m1[up := m[up].(child := m[up].child[side := now])] else m1;
    var m3 := if l != null then m2[l := m[l].(parent := now)] else m2;
    var m4 := if r != null then m3[r := m[r].(parent := now)] else m3;
    m4 - {was}
  }

  /** The fields after `now` has taken the place of the root of `f`, which drops out. */
  function Taken(m: Mem, p: Path, f: Tree, now: AvlNode): Mem
    requires f.Bin? && f.n in m && (f.l.Bin? ==> f.l.n in m) && (f.r.Bin? ==> f.r.n in m)
    requires p.Step? ==> p.n in m && p.side < |m[p.n].child|
  {
    Replaced(m, f.n, now, PathPtr(p), PathSide(p), Ptr(f.l), Ptr(f.r))
  }

  lemma TakenPlaced(m: Mem, p: Path, f: Tree, root: AvlNode?, now: AvlNode, s: set<AvlNode>)
    requires f.Bin? && Placed(m, p, f, root, s) && now !in s
    ensures f.n in m && (f.l.Bin? ==> f.l.n in m) && (f.r.Bin? ==> f.r.n in m)
    ensures p.Step? ==> p.n in m && p.side < |m[p.n].child|
    ensures Placed(Taken(m, p, f, now), p, Bin(now, f.bal, f.l, f.r), if p.Top? then now else root, s - {f.n} + {now})
  {
    hide PathLinked, Linked, Foot, FootP, Exactly, Taken;
    TakenThere(m, p, f, root);
    TakenApart(p, f, now, s);
    TakenKids(m, p, f, now, s);
    TakenPath(m, p, f, root, now, s);
    TakenNode(m, p, f, now);
    MkLinked(Taken(m, p, f, now), now, 0, f.l, f.r, PathPtr(p), PathSide(p));
    TakenFoot(p, f, now, s);
  }

  /** The nodes around are there. */
  lemma TakenThere(m: Mem, p: Path, f: Tree, root: AvlNode?)
    requires f.Bin? && Linked(m, f, PathPtr(p), PathSide(p)) && PathLinked(m, p, root, f.n)
    ensures f.n in m && (f.l.Bin? ==> f.l.n in m) && (f.r.Bin? ==> f.r.n in m)
    ensures p.Step? ==> p.n in m && p.side < |m[p.n].child|
    ensures Linked(m, f.l, f.n, 0) && Linked(m, f.r, f.n, 1)
    ensures m[f.n].child == [Ptr(f.l), Ptr(f.r)] && m[f.n].parent == PathPtr(p) && m[f.n].balance == f.bal
    ensures p.Step? ==> m[f.n].index == p.side
  {
    hide PathLinked, Linked;
    KidLinked(m, f, PathPtr(p), PathSide(p), 0);
    RootThere(m, f.l, f.n, 0);
    RootThere(m, f.r, f.n, 1);
    if p.Step? {
      PathParts(m, p, root, f.n);
    }
  }

  lemma TakenKids(m: Mem, p: Path, f: Tree, now: AvlNode, s: set<AvlNode>)
    requires f.Bin? && f.n in m && (f.l.Bin? ==> f.l.n in m) && (f.r.Bin? ==> f.r.n in m)
    requires p.Step? ==> p.n in m && p.side < |m[p.n].child|
    requires Linked(m, f.l, f.n, 0) && Linked(m, f.r, f.n, 1) && Exactly(FootP(p) + Foot(f), s) && now !in s
    ensures Linked(Taken(m, p, f, now), f.l, now, 0) && Linked(Taken(m, p, f, now), f.r, now, 1)
  {
    hide Linked, Foot, FootP, Exactly;
    TakenApart(p, f, now, s);
    SubFramed(m, Taken(m, p, f, now), f.l, f.n, 0, now);
    SubFramed(m, Taken(m, p, f, now), f.r, f.n, 1, now);
  }

  lemma TakenPath(m: Mem, p: Path, f: Tree, root: AvlNode?, now: AvlNode, s: set<AvlNode>)
    requires f.Bin? && f.n in m && (f.l.Bin? ==> f.l.n in m) && (f.r.Bin? ==> f.r.n in m)
    requires p.Step? ==> p.n in m && p.side < |m[p.n].child|
    requires PathLinked(m, p, root, f.n) && Exactly(FootP(p) + Foot(f), s) && now !in s
    ensures PathLinked(Taken(m, p, f, now), p, if p.Top? then now else root, now)
  {
    hide PathLinked, Foot, FootP, Exactly;
    TakenApart(p, f, now, s);
    PathRelinked(m, Taken(m, p, f, now), p, root, if p.Top? then now else root, f.n, now);
  }

  lemma TakenNode(m: Mem, p: Path, f: Tree, now: AvlNode)
    requires f.Bin? && f.n in m && (f.l.Bin? ==> f.l.n in m) && (f.r.Bin? ==> f.r.n in m) && f.n != now
    requires p.Step? ==> p.n in m && p.side < |m[p.n].child| && p.n != now
    requires (f.l.Bin? ==> f.l.n != now) && (f.r.Bin? ==> f.r.n != now)
    ensures now in Taken(m, p, f, now) && Taken(m, p, f, now)[now] == m[f.n]
  {
  }

  lemma SubFramed(m: Mem, m': Mem, t: Tree, parent: AvlNode, index: nat, parent': AvlNode)
    requires Linked(m, t, parent, index)
    requires t.Bin? ==> t.n in m && t.n in m' && m'[t.n] == m[t.n].(parent := parent')
    requires t.Bin? ==> Agree(m, m', Foot(t.l) + Foot(t.r))
    ensures Linked(m', t, parent', index)
  {
    hide Foot;
    if t.Bin? {
      Reparented(m, m', t, parent, index, parent', index);
    }
  }

  lemma TakenApart(p: Path, f: Tree, now: AvlNode, s: set<AvlNode>)
    requires f.Bin? && Exactly(FootP(p) + Foot(f), s) && now !in s
    ensures var changed := {f.n, now, Ptr(f.l), Ptr(f.r), PathPtr(p)};
            && (f.l.Bin? ==> f.l.n != f.n && f.l.n != now && f.l.n != Ptr(f.r) && f.l.n != PathPtr(p)
                             && forall v :: v in Foot(f.l.l) + Foot(f.l.r) ==> v !in changed)
            && (f.r.Bin? ==> f.r.n != f.n && f.r.n != now && f.r.n != PathPtr(p)
                             && forall v :: v in Foot(f.r.l) + Foot(f.r.r) ==> v !in changed)
            && (p.Step? ==> p.n != f.n && p.n != now && forall v :: v in Foot(p.sib) + FootP(p.above) ==> v !in changed)
            && f.n != now && f.n in s
  {
    hide Foot, FootP, Exactly;
    KidApart(p, f, 0, now, s);
    KidApart(p, f, 1, now, s);
    AboveApart(p, f, now, s);
  }

  lemma KidApart(p: Path, f: Tree, i: nat, now: AvlNode, s: set<AvlNode>)
    requires f.Bin? && i <= 1 && Exactly(FootP(p) + Foot(f), s) && now !in s
    ensures var k, o := Kid(f, i), Kid(f, 1 - i);
            k.Bin? ==>
              && k.n != f.n && k.n != now && k.n != Ptr(o) && k.n != PathPtr(p)
              && forall v :: v in Foot(k.l) + Foot(k.r) ==> v !in {f.n, now, Ptr(k), Ptr(o), PathPtr(p)}
  {
    hide Foot, FootP;
    var k, o := Kid(f, i), Kid(f, 1 - i);
    if k.Bin? {
      KidsFoot(f, i);
      KidsFoot(k, 0);
      HasRoot(o);
      HasStep(p);
      var a: multiset<AvlNode> := Foot(k.l) + Foot(k.r);
      Apart4(FootP(p), f.n, k.n, a, Foot(o), Foot(k), Foot(f), s);
    }
  }

  /** In a tree without repetition, a node's subtree is apart from the rest. */
  lemma Apart4(p: multiset<AvlNode>, n: AvlNode, k: AvlNode, a: multiset<AvlNode>, o: multiset<AvlNode>,
               kf: multiset<AvlNode>, f: multiset<AvlNode>, s: set<AvlNode>)
    requires kf == multiset{k} + a && f == multiset{n} + kf + o && Exactly(p + f, s)
    ensures k != n && k in s && n in s && k !in o && k !in p && n !in a && k !in a
    ensures forall v :: v in a ==> v in s && v !in o && v !in p
  {
    var all: multiset<AvlNode> := p + f;
    forall v: AvlNode ensures all[v] == p[v] + (if v == n then 1 else 0) + (if v == k then 1 else 0) + a[v] + o[v] {
    }
    forall v: AvlNode ensures all[v] == if v in s then 1 else 0 {
      assert all[v] == multiset(s)[v];
    }
  }

  lemma AboveApart(p: Path, f: Tree, now: AvlNode, s: set<AvlNode>)
    requires f.Bin? && Exactly(FootP(p) + Foot(f), s) && now !in s
    ensures f.n != now && f.n in s
    ensures p.Step? ==>
              && p.n != f.n && p.n != now
              && forall v :: v in Foot(p.sib) + FootP(p.above) ==> v !in {f.n, now, Ptr(f.l), Ptr(f.r), PathPtr(p)}
  {
    hide Foot, FootP;
    KidsFoot(f, 0);
    Apart(FootP(p), f.n, Foot(f.l), Foot(f.r), s);
    HasRoot(f.l);
    HasRoot(f.r);
    HasStep(p);
    KidFoot(f, 0);
    KidFoot(f, 1);
    RestApart(p, f, f.l, s);
    RestApart(p, f, f.r, s);
  }

  lemma TakenFoot(p: Path, f: Tree, now: AvlNode, s: set<AvlNode>)
    requires f.Bin? && Exactly(FootP(p) + Foot(f), s) && now !in s
    ensures Exactly(FootP(p) + Foot(Bin(now, f.bal, f.l, f.r)), s - {f.n} + {now})
  {
    hide FootP, Exactly, Foot;
    KidsFoot(f, 0);
    KidsFoot(Bin(now, f.bal, f.l, f.r), 0);
    SwapOne(FootP(p), Foot(f.l), Foot(f.r), f.n, now, s);
  }

  lemma SwapOne(a: multiset<AvlNode>, b: multiset<AvlNode>, c: multiset<AvlNode>, n: AvlNode, v: AvlNode,
                s: set<AvlNode>)
    requires Exactly(a + (multiset{n} + b + c), s) && v !in s
    ensures Exactly(a + (multiset{v} + b + c), s - {n} + {v})
  {
    var k := a + b + c;
    assert a + (multiset{n} + b + c) == k + multiset{n};
    assert n in multiset(s);
    assert multiset(s - {n}) + multiset{n} == multiset(s);
    Cancel(k, multiset(s - {n}), n);
    assert a + (multiset{v} + b + c) == k + multiset{v};
    assert multiset(s - {n} + {v}) == multiset(s - {n}) + multiset{v};
  }

  // ----- paths within paths -----

  /** `seg` leads on from where `base` ends. */
  function Append(seg: Path, base: Path): Path {
    if seg.Top? then base else Step(Append(seg.above, base), seg.n, seg.bal, seg.side, seg.sib)
  }

  lemma {:induction false} AppendZip(seg: Path, base: Path, t: Tree)
    ensures Zip(Append(seg, base), t) == Zip(base, Zip(seg, t))
    decreases seg
  {
    if seg.Step? {
      AppendZip(seg.above, base, Mk(seg.n, seg.bal, seg.side, t, seg.sib));
    }
  }

  lemma {:induction false} AppendFlat(seg: Path, base: Path)
    ensures LeftOf(Append(seg, base)) == LeftOf(base) + LeftOf(seg)
    ensures RightOf(Append(seg, base)) == RightOf(seg) + RightOf(base)
    decreases seg
  {
    if seg.Step? {
      AppendFlat(seg.above, base);
      if seg.side == 0 {
        assert [seg.n] + Flat(seg.sib) + (RightOf(seg.above) + RightOf(base))
            == [seg.n] + Flat(seg.sib) + RightOf(seg.above) + RightOf(base);
      } else {
        assert (LeftOf(base) + LeftOf(seg.above)) + Flat(seg.sib) + [seg.n]
            == LeftOf(base) + (LeftOf(seg.above) + Flat(seg.sib) + [seg.n]);
      }
    }
  }

  /** Up along a stretch of the path. */
  lemma {:induction false} Risen(m: Mem, seg: Path, base: Path, t: Tree, root: AvlNode?, s: set<AvlNode>)
    requires Placed(m, Append(seg, base), t, root, s)
    ensures Placed(m, base, Zip(seg, t), root, s)
    decreases seg
  {
    if seg.Step? {
      JoinedPlaced(m, Append(seg, base), t, root, s);
      Risen(m, seg.above, base, Mk(seg.n, seg.bal, seg.side, t, seg.sib), root, s);
    }
  }

  /** And down again. */
  lemma {:induction false} Sunk(m: Mem, seg: Path, base: Path, t: Tree, root: AvlNode?, s: set<AvlNode>)
    requires Placed(m, base, Zip(seg, t), root, s) && Sides(seg)
    ensures Placed(m, Append(seg, base), t, root, s)
    decreases seg
  {
    if seg.Step? {
      var t' := Mk(seg.n, seg.bal, seg.side, t, seg.sib);
      Sunk(m, seg.above, base, t', root, s);
      MkKid(seg.n, seg.bal, seg.side, t, seg.sib);
      DownPlaced(m, Append(seg.above, base), t', root, seg.side, s);
    }
  }

  predicate Sides(p: Path) {
    p.Step? ==> p.side <= 1 && Sides(p.above)
  }

  lemma DownPlaced(m: Mem, p: Path, t: Tree, root: AvlNode?, i: nat, s: set<AvlNode>)
    requires t.Bin? && i <= 1 && Placed(m, p, t, root, s)
    ensures Placed(m, Down(p, t, i), Kid(t, i), root, s)
  {
    DownLinked(m, p, t, root, i);
    DownFoot(p, t, i);
  }

  lemma {:induction false} AppendBalanced(seg: Path, base: Path, h: nat, n: AvlNode, n': AvlNode)
    requires base.Step? && PathBalanced(Append(seg, base), h)
    ensures PathBalanced(Append(seg, base.(n := n')), h)
    decreases seg
  {
    if seg.Step? {
      AppendBalanced(seg.above, base, 1 + Max(h, H(seg.sib)), n, n');
    }
  }

  // ----- from the whole tree to a place in it and back -----

  lemma {:induction false} UnzipBalanced(p: Path, f: Tree)
    requires Sides(p) && Balanced(Zip(p, f))
    ensures PathBalanced(p, H(f)) && Balanced(f)
    decreases p
  {
    hide H, Balanced;
    if p.Step? {
      var t := Mk(p.n, p.bal, p.side, f, p.sib);
      UnzipBalanced(p.above, t);
      UnzipStep(p, f);
    }
  }

  lemma UnzipStep(p: Path, f: Tree)
    requires p.Step? && p.side <= 1
    requires var t := Mk(p.n, p.bal, p.side, f, p.sib); Balanced(t) && PathBalanced(p.above, H(t))
    ensures PathBalanced(p, H(f)) && Balanced(f)
  {
    hide H, Balanced;
    KidBalanced(Mk(p.n, p.bal, p.side, f, p.sib), p.side);
    MkKid(p.n, p.bal, p.side, f, p.sib);
  }

  lemma {:induction false} AppendTop(p: Path)
    ensures Append(p, Top) == p
  {
    if p.Step? {
      AppendTop(p.above);
    }
  }

  /** A place in the picture of the whole tree. */
  lemma Unzipped(m: Mem, t: Tree, root: AvlNode?, s: set<AvlNode>, p: Path, f: Tree)
    requires Placed(m, Top, t, root, s) && Balanced(t) && Sides(p) && Zip(p, f) == t
    ensures Placed(m, p, f, root, s) && Balanced(f) && PathBalanced(p, H(f))
    ensures Flat(t) == LeftOf(p) + Flat(f) + RightOf(p)
  {
    AppendTop(p);
    Sunk(m, p, Top, f, root, s);
    UnzipBalanced(p, f);
    ZipFlat(p, f);
  }

  lemma Zipped(m: Mem, p: Path, f: Tree, root: AvlNode?, s: set<AvlNode>)
    requires Placed(m, p, f, root, s) && Balanced(f) && PathBalanced(p, H(f))
    ensures Placed(m, Top, Zip(p, f), root, s) && Balanced(Zip(p, f))
    ensures Flat(Zip(p, f)) == LeftOf(p) + Flat(f) + RightOf(p)
  {
    AppendTop(p);
    Risen(m, p, Top, f, root, s);
    ZipBalanced(p, f);
    ZipFlat(p, f);
  }

  lemma RejoinFlat(p: Path, bal: int, f: Tree)
    requires p.Step? && p.side <= 1
    ensures LeftOf(p.above) + Flat(Rejoined(p, bal, f)) + RightOf(p.above) == LeftOf(p) + Flat(f) + RightOf(p)
  {
    MkFlat(p.n, bal, p.side, f, p.sib);
    if p.side == 0 {
      Assoc(LeftOf(p.above), Flat(f), [p.n], Flat(p.sib), RightOf(p.above));
    } else {
      Assoc(LeftOf(p.above), Flat(p.sib), [p.n], Flat(f), RightOf(p.above));
    }
  }

  /** What the node at the root of a subtree stores. */
  lemma RootFields(m: Mem, p: Path, f: Tree, root: AvlNode?, s: set<AvlNode>)
    requires f.Bin? && Placed(m, p, f, root, s)
    ensures f.n in m && f.n in s && m[f.n].child == [Ptr(f.l), Ptr(f.r)] && m[f.n].balance == f.bal
    ensures m[f.n].parent == PathPtr(p) && (p.Step? ==> m[f.n].index == p.side)
  {
    assert f.n in FootP(p) + Foot(f);
    assert f.n in multiset(s);
  }

  // ----- search -----

  /** Along the list a search value never falls back: it is larger, then equal, then smaller. */
  ghost predicate Descending(cmp: AvlNode -> int, l: seq<AvlNode>) {
    forall i, j :: 0 <= i < j < |l| ==> (cmp(l[j]) > 0 ==> cmp(l[i]) > 0) && (cmp(l[i]) < 0 ==> cmp(l[j]) < 0)
  }

  ghost predicate Larger(cmp: AvlNode -> int, l: seq<AvlNode>) {
    forall i :: 0 <= i < |l| ==> cmp(l[i]) > 0
  }

  ghost predicate Smaller(cmp: AvlNode -> int, l: seq<AvlNode>) {
    forall i :: 0 <= i < |l| ==> cmp(l[i]) < 0
  }

  lemma Beside(cmp: AvlNode -> int, a: seq<AvlNode>, n: AvlNode, b: seq<AvlNode>)
    requires Descending(cmp, a + [n] + b)
    ensures cmp(n) > 0 ==> Larger(cmp, a + [n])
    ensures cmp(n) < 0 ==> Smaller(cmp, [n] + b)
  {
    var l := a + [n] + b;
    assert l[|a|] == n;
    forall i | 0 <= i < |a| ensures cmp(n) > 0 ==> cmp(a[i]) > 0 {
      assert l[i] == a[i];
    }
    forall i | 0 <= i < |b| ensures cmp(n) < 0 ==> cmp(b[i]) < 0 {
      assert l[|a| + 1 + i] == b[i];
    }
  }

  /** One comparison: everything on the other side is out of the question. */
  lemma FindStep(cmp: AvlNode -> int, p: Path, f: Tree)
    requires f.Bin? && Descending(cmp, LeftOf(p) + Flat(f) + RightOf(p)) && cmp(f.n) != 0
    requires Larger(cmp, LeftOf(p)) && Smaller(cmp, RightOf(p))
    ensures var p' := Down(p, f, if cmp(f.n) < 0 then 0 else 1); Larger(cmp, LeftOf(p')) && Smaller(cmp, RightOf(p'))
  {
    Assoc2(LeftOf(p), Flat(f.l), [f.n], Flat(f.r), RightOf(p));
    Beside(cmp, LeftOf(p) + Flat(f.l), f.n, Flat(f.r) + RightOf(p));
  }

  lemma Assoc2<T>(a: seq<T>, b: seq<T>, n: seq<T>, c: seq<T>, d: seq<T>)
    ensures a + (b + n + c) + d == (a + b) + n + (c + d)
    ensures n + (c + d) == n + c + d && (a + b) + n == a + b + n
  {
  }

  // ----- chains of one side -----

  predicate AllSide(p: Path, i: nat) {
    p.Step? ==> p.side == i && AllSide(p.above, i)
  }

  lemma {:induction false} EdgeFlat(p: Path, i: nat)
    requires i <= 1 && AllSide(p, i)
    ensures i == 0 ==> LeftOf(p) == []
    ensures i == 1 ==> RightOf(p) == []
    ensures Sides(p)
  {
    if p.Step? {
      EdgeFlat(p.above, i);
    }
  }

  /** The entry before (0) or after (1) position `i`. */
  function Neighbour(l: seq<AvlNode>, i: nat, dir: nat): AvlNode?
    requires i < |l|
  {
    if dir == 0 then (if i > 0 then l[i - 1] else null) else (if i + 1 < |l| then l[i + 1] else null)
  }

  /** The list with position `i` left out. */
  function Dropped(l: seq<AvlNode>, i: nat): seq<AvlNode>
    requires i < |l|
  {
    l[..i] + l[i+1..]
  }

  function Put(l: seq<AvlNode>, i: nat, n: AvlNode): seq<AvlNode>
    requires i <= |l|
  {
    l[..i] + [n] + l[i..]
  }

  /** Where the root of a subtree stands in the list. */
  lemma RootPlace(p: Path, f: Tree, l: seq<AvlNode>)
    requires f.Bin? && l == LeftOf(p) + Flat(f) + RightOf(p)
    ensures var i := |LeftOf(p)| + |Flat(f.l)|;
            && i < |l| && l[i] == f.n && i + 1 + |Flat(f.r)| + |RightOf(p)| == |l|
            && l[..i] == LeftOf(p) + Flat(f.l) && l[i+1..] == Flat(f.r) + RightOf(p)
  {
    Assoc2(LeftOf(p), Flat(f.l), [f.n], Flat(f.r), RightOf(p));
  }

  lemma DownFlat(p: Path, f: Tree, i: nat)
    requires f.Bin? && i <= 1
    ensures LeftOf(Down(p, f, i)) == if i == 0 then LeftOf(p) else LeftOf(p) + Flat(f.l) + [f.n]
    ensures RightOf(Down(p, f, i)) == if i == 0 then [f.n] + Flat(f.r) + RightOf(p) else RightOf(p)
  {
  }

  /** The end of a chain of right children, say, below the left child of `f`: the neighbour of `f.n`. */
  lemma ChainEnd(t: Tree, p: Path, f: Tree, dir: nat, seg: Path, g: Tree)
    requires dir <= 1 && f.Bin? && g.Bin? && AllSide(seg, 1 - dir) && Kid(g, 1 - dir).Nil?
    requires Zip(Append(seg, Down(p, f, dir)), g) == t && Zip(p, f) == t
    ensures var i := |LeftOf(p)| + |Flat(f.l)|; i < |Flat(t)| && Flat(t)[i] == f.n && Neighbour(Flat(t), i, dir) == g.n
    ensures |LeftOf(Down(Append(seg, Down(p, f, dir)), g, 1 - dir))| == |LeftOf(p)| + |Flat(f.l)| + dir
  {
    hide Zip, Append, LeftOf, RightOf, Flat, AllSide, Sides, Down;
    var q := Append(seg, Down(p, f, dir));
    PlaceIn(p, f, t);
    PlaceIn(q, g, t);
    ChainSides(p, f, dir, seg, g);
  }

  /** A subtree's place in the list of the whole tree. */
  lemma PlaceIn(p: Path, f: Tree, t: Tree)
    requires f.Bin? && Zip(p, f) == t
    ensures var i := |LeftOf(p)| + |Flat(f.l)|;
            i < |Flat(t)| && Flat(t)[i] == f.n && i + 1 + |Flat(f.r)| + |RightOf(p)| == |Flat(t)|
  {
    hide Zip, LeftOf, RightOf, Flat;
    ZipFlat(p, f);
    RootPlace(p, f, Flat(t));
  }

  lemma ChainSides(p: Path, f: Tree, dir: nat, seg: Path, g: Tree)
    requires dir <= 1 && f.Bin? && g.Bin? && AllSide(seg, 1 - dir) && Kid(g, 1 - dir).Nil?
    ensures var q := Append(seg, Down(p, f, dir));
            && (dir == 0 ==> |RightOf(q)| == 1 + |Flat(f.r)| + |RightOf(p)| && |Flat(g.r)| == 0)
            && (dir == 1 ==> |LeftOf(q)| == |LeftOf(p)| + |Flat(f.l)| + 1 && |Flat(g.l)| == 0)
            && |LeftOf(Down(q, g, 1 - dir))| == |LeftOf(q)| + if dir == 0 then |Flat(g.l)| + 1 else 0
  {
    hide Append, LeftOf, RightOf, Flat, AllSide, Sides, Down;
    EdgeFlat(seg, 1 - dir);
    AppendFlat(seg, Down(p, f, dir));
    DownFlat(p, f, dir);
    DownFlat(Append(seg, Down(p, f, dir)), g, 1 - dir);
    NilFlat();
  }

  lemma NilFlat()
    ensures Flat(Nil) == []
  {
  }

  /** A subtree all of whose nodes lie on one side of the neighbour looked for. */
  ghost predicate EdgeOf(t: Tree, q: Path, i: nat, dir: nat) {
    && i < |Flat(t)|
    && (dir == 0 ==> i == |LeftOf(q)|)
    && (dir == 1 ==> i + 1 + |RightOf(q)| == |Flat(t)|)
  }

  lemma EdgeStart(t: Tree, p: Path, f: Tree, dir: nat)
    requires dir <= 1 && f.Bin? && Kid(f, dir).Nil? && Zip(p, f) == t
    ensures EdgeOf(t, p, |LeftOf(p)| + |Flat(f.l)|, dir)
  {
    ZipFlat(p, f);
    RootPlace(p, f, Flat(t));
  }

  lemma EdgeUp(t: Tree, q: Path, g: Tree, i: nat, dir: nat)
    requires dir <= 1 && EdgeOf(t, q, i, dir) && Zip(q, g) == t
    ensures q.Top? ==> Neighbour(Flat(t), i, dir) == null
    ensures q.Step? && q.side == 1 - dir && q.side <= 1 ==> Neighbour(Flat(t), i, dir) == q.n
    ensures q.Step? && q.side == dir ==> EdgeOf(t, q.above, i, dir) && Zip(q.above, Joined(q, g)) == t
  {
    ZipFlat(q, g);
    if q.Step? && q.side == 1 - dir {
      if dir == 0 {
        assert LeftOf(q)[|LeftOf(q)| - 1] == q.n;
      } else {
        assert RightOf(q)[0] == q.n;
        assert Flat(t)[|LeftOf(q) + Flat(g)|] == RightOf(q)[0];
      }
    }
  }

  /** A node's place is its only one. */
  lemma PlaceOf(m: Mem, t: Tree, root: AvlNode?, s: set<AvlNode>, p: Path, f: Tree)
    requires Placed(m, Top, t, root, s) && f.Bin? && Zip(p, f) == t
    ensures forall i :: 0 <= i < |Flat(t)| && Flat(t)[i] == f.n ==> i == |LeftOf(p)| + |Flat(f.l)|
  {
    ZipFlat(p, f);
    RootPlace(p, f, Flat(t));
    assert FootP(Top) + Foot(t) == Foot(t);
    forall i | 0 <= i < |Flat(t)| && Flat(t)[i] == f.n ensures i == |LeftOf(p)| + |Flat(f.l)| {
      OnePlace(t, s, i, |LeftOf(p)| + |Flat(f.l)|);
    }
  }

  /** Every node of the tree is somewhere in the picture. */
  lemma {:induction false} Found(p: Path, t: Tree, n: AvlNode) returns (q: Path, f: Tree)
    requires n in Foot(t) && Sides(p)
    ensures f.Bin? && f.n == n && Zip(q, f) == Zip(p, t) && Sides(q)
    decreases t
  {
    if t.n == n {
      q, f := p, t;
    } else {
      var i := if n in Foot(t.l) then 0 else 1;
      MkKids(t, i);
      q, f := Found(Down(p, t, i), Kid(t, i), n);
    }
  }

  lemma LeafHeight(n: AvlNode)
    ensures Balanced(Bin(n, 0, Nil, Nil)) && H(Bin(n, 0, Nil, Nil)) == 1 && H(Nil) == 0
    ensures Flat(Bin(n, 0, Nil, Nil)) == [n] && Flat(Nil) == []
  {
  }

  lemma TopBalanced(h: nat)
    ensures PathBalanced(Top, h)
  {
  }

  lemma LedLike(m: Mem, m1: Mem, m2: Mem, p: Path, n: AvlNode, root: AvlNode?, root': AvlNode?)
    requires SameBut(m, m1, {n}) && n in m1 && n !in m
    requires p.Step? ==> p.n in m && p.side < |m[p.n].child| && p.n in m1 && p.side < |m1[p.n].child|
    requires m2 == Led(m1, PathPtr(p), PathSide(p), n) && root' == if p.Top? then n else root
    ensures Relinked(m, m2, p, root, root', n) && SameBut(m, m2, {n, PathPtr(p)}) && n in m2 && m2[n] == m1[n]
  {
  }

  /** The writes that take a node with at most one child out. */
  lemma BypassWrites(m: Mem, m1: Mem, m2: Mem, p: Path, d: Tree, root: AvlNode?, root': AvlNode?, which: nat,
                     s: set<AvlNode>)
    requires Placed(m, p, d, root, s) && Sparse(d) && Balanced(d) && (p.Step? ==> which == p.side)
    requires var k := Ptr(OnlyKid(d));
             && (k != null ==> k in m) && m1 == Hung(m, k, PathPtr(p), which)
             && (p.Step? ==> p.n in m1 && which < |m1[p.n].child|)
             && m2 == Led(m1, PathPtr(p), which, k) - {d.n} && root' == if p.Top? then k else root
    ensures Placed(m2, p, OnlyKid(d), root', s - {d.n})
  {
    hide PathLinked, Linked, Foot, FootP, Balanced;
    SparseApart(p, d, s);
    HasStep(p);
    if p.Step? {
      PathParts(m, p, root, d.n);
    }
    Bypassed(m, m2, p, d, root, root', which, s);
  }

  lemma OnlyKidThere(m: Mem, p: Path, d: Tree, root: AvlNode?, s: set<AvlNode>)
    requires Placed(m, p, d, root, s) && Sparse(d)
    ensures OnlyKid(d).Bin? ==> OnlyKid(d).n in m && OnlyKid(d).n in s
  {
    hide Foot, FootP;
    var k := OnlyKid(d);
    HasRoot(k);
    KidLeft(d);
    AllIn(FootP(p) + Foot(d), s);
    KidLinked(m, d, PathPtr(p), PathSide(p), 0);
    RootThere(m, d.l, d.n, 0);
    RootThere(m, d.r, d.n, 1);
    assert k.Bin? ==> k.n in FootP(p) + Foot(d);
  }

  // ----- a node and its neighbour change places -----

  /** Below `d` on side `left`, along the chain `seg` of the other side, the subtree `f` of the neighbour. */
  ghost predicate NextTo(d: Tree, left: nat, seg: Path, f: Tree) {
    && left <= 1 && d.Bin? && f.Bin? && Zip(seg, f) == Kid(d, left) && AllSide(seg, 1 - left) && Kid(f, 1 - left).Nil?
  }

  /** The neighbour's old place, taken by `tmp`. */
  function Stand(f: Tree, left: nat, tmp: AvlNode): Tree
    requires f.Bin?
  {
    Mk(tmp, f.bal, left, Kid(f, left), Nil)
  }

  /** The path to it, with the neighbour in the place of `d.n`. */
  function Through(p: Path, d: Tree, left: nat, seg: Path, node: AvlNode): Path
    requires left <= 1 && d.Bin?
  {
    Append(seg, Step(p, node, d.bal, left, Kid(d, 1 - left)))
  }

  /** The neighbour's place taken by `tmp`, as seen from `d`. */
  function Halfway(d: Tree, left: nat, seg: Path, f: Tree, tmp: AvlNode): Tree
    requires left <= 1 && d.Bin? && f.Bin?
  {
    Mk(d.n, d.bal, left, Zip(seg, Stand(f, left, tmp)), Kid(d, 1 - left))
  }

  /** First `tmp` takes the neighbour's place ... */
  lemma ExchangeFirst(m: Mem, p: Path, d: Tree, left: nat, seg: Path, f: Tree, root: AvlNode?, tmp: AvlNode,
                      s: set<AvlNode>)
    requires NextTo(d, left, seg, f) && Placed(m, p, d, root, s) && tmp !in s
    ensures Placed(m, Append(seg, Down(p, d, left)), f, root, s) && f.n in s
    ensures var q := Append(seg, Down(p, d, left));
            && f.n in m && (f.l.Bin? ==> f.l.n in m) && (f.r.Bin? ==> f.r.n in m) && q.Step? && q.n in m
            && q.side < |m[q.n].child|
            && Placed(Taken(m, q, f, tmp), p, Halfway(d, left, seg, f, tmp), root, s - {f.n} + {tmp})
  {
    hide Placed, Taken;
    var q := Append(seg, Down(p, d, left));
    EdgeFlat(seg, 1 - left);
    DownPlaced(m, p, d, root, left, s);
    Sunk(m, seg, Down(p, d, left), f, root, s);
    RootFields(m, q, f, root, s);
    TakenPlaced(m, q, f, root, tmp, s);
    MkKids(f, left);
    var m1 := Taken(m, q, f, tmp);
    Risen(m1, seg, Down(p, d, left), Stand(f, left, tmp), root, s - {f.n} + {tmp});
    JoinedPlaced(m1, Down(p, d, left), Zip(seg, Stand(f, left, tmp)), root, s - {f.n} + {tmp});
  }

  /** ... then the neighbour takes the place of `d.n`. */
  lemma ExchangeSecond(m: Mem, p: Path, d: Tree, left: nat, seg: Path, f: Tree, root: AvlNode?, tmp: AvlNode,
                       node: AvlNode, s: set<AvlNode>)
    requires left <= 1 && d.Bin? && f.Bin? && AllSide(seg, 1 - left)
    requires Placed(m, p, Halfway(d, left, seg, f, tmp), root, s) && node !in s
    ensures var d1 := Halfway(d, left, seg, f, tmp);
            && d1.n in m && (d1.l.Bin? ==> d1.l.n in m) && (d1.r.Bin? ==> d1.r.n in m)
            && (p.Step? ==> p.n in m && p.side < |m[p.n].child|)
            && Placed(Taken(m, p, d1, node), Through(p, d, left, seg, node), Stand(f, left, tmp),
                      if p.Top? then node else root, s - {d.n} + {node})
  {
    hide Placed, Taken;
    var d1 := Halfway(d, left, seg, f, tmp);
    TakenPlaced(m, p, d1, root, node, s);
    var m2, root2, s2 := Taken(m, p, d1, node), if p.Top? then node else root, s - {d.n} + {node};
    var d2 := Bin(node, d1.bal, d1.l, d1.r);
    MkKid(d.n, d.bal, left, Zip(seg, Stand(f, left, tmp)), Kid(d, 1 - left));
    DownPlaced(m2, p, d2, root2, left, s2);
    EdgeFlat(seg, 1 - left);
    Sunk(m2, seg, Down(p, d2, left), Stand(f, left, tmp), root2, s2);
  }

  /** The nodes touched by the exchange are different. */
  lemma ExchangeApart(p: Path, d: Tree, left: nat, seg: Path, f: Tree, s: set<AvlNode>)
    requires NextTo(d, left, seg, f) && Exactly(FootP(p) + Foot(d), s)
    ensures var r, x, l := Ptr(Kid(d, 1 - left)), Ptr(Kid(f, left)), Ptr(Kid(d, left));
            var q := if seg.Top? then d.n else seg.n;
            && d.n in s && f.n in s && d.n != f.n && l != null && l in s && q in s
            && (r != null ==> r in s && r != d.n && r != f.n && r != l && r != q && r != x)
            && (x != null ==> x in s && x != d.n && x != f.n && x != q)
            && (p.Step? ==> p.n in s && p.n != d.n && p.n != f.n && p.n != l && p.n != q && p.n != r && p.n != x)
            && (seg.Top? ==> l == f.n) && (seg.Step? ==> l != f.n && l != d.n && q != d.n && q != f.n && l != x)
  {
    hide Foot, FootP;
    var c := Kid(d, left);
    KidsFoot(d, left);
    ZipFoot(seg, f);
    KidsFoot(f, left);
    NilFoot();
    var a, x, b: multiset<AvlNode> := FootP(seg), Foot(Kid(f, left)), Foot(Kid(d, 1 - left));
    assert FootP(p) + Foot(d) == FootP(p) + (multiset{d.n} + (multiset{f.n} + a + x) + b);
    SixApart(FootP(p), d.n, f.n, a, x, b, s);
    HasRoot(Kid(f, left));
    HasRoot(Kid(d, 1 - left));
    HasStep(p);
    HasStep(seg);
    TopOf(seg, f);
    AllIn(FootP(p) + Foot(d), s);
    assert forall v :: v in b ==> v in FootP(p) + Foot(d);
    assert forall v :: v in a ==> v in FootP(p) + Foot(d);
  }

  lemma AllIn(u: multiset<AvlNode>, s: set<AvlNode>)
    requires Exactly(u, s)
    ensures forall v :: v in u ==> v in s
  {
    forall v | v in u ensures v in s {
      assert multiset(s)[v] > 0;
    }
  }

  lemma {:induction false} TopOf(seg: Path, f: Tree)
    requires f.Bin?
    ensures Zip(seg, f).Bin?
    ensures seg.Top? ==> Zip(seg, f).n == f.n
    ensures seg.Step? ==> Zip(seg, f).n in FootP(seg)
    decreases seg
  {
    if seg.Step? {
      TopOf(seg.above, Mk(seg.n, seg.bal, seg.side, f, seg.sib));
    }
  }

  /** What the fields touched by the exchange say. */
  lemma ExchangeFields(m: Mem, p: Path, d: Tree, left: nat, seg: Path, f: Tree, root: AvlNode?, s: set<AvlNode>)
    requires NextTo(d, left, seg, f) && Placed(m, p, d, root, s)
    ensures d.n in m && |m[d.n].child| == 2 && m[d.n].child[left] == Ptr(Kid(d, left))
            && m[d.n].child[1 - left] == Ptr(Kid(d, 1 - left))
    ensures m[d.n].parent == PathPtr(p)
    ensures p.Step? ==> m[d.n].index == p.side && p.n in m && |m[p.n].child| == 2 && p.side <= 1
    ensures f.n in m && |m[f.n].child| == 2 && m[f.n].child[left] == Ptr(Kid(f, left)) && m[f.n].child[1 - left] == null
    ensures m[f.n].parent == (if seg.Top? then d.n else seg.n) && m[f.n].index == (if seg.Top? then left else 1 - left)
    ensures var q := if seg.Top? then d.n else seg.n; q in m && |m[q].child| == 2
    ensures Kid(d, left).Bin? && Kid(d, left).n in m
    ensures (Kid(d, 1 - left).Bin? ==> Kid(d, 1 - left).n in m) && (Kid(f, left).Bin? ==> Kid(f, left).n in m)
  {
    hide Foot, FootP;
    EdgeFlat(seg, 1 - left);
    DownPlaced(m, p, d, root, left, s);
    Sunk(m, seg, Down(p, d, left), f, root, s);
    var q := Append(seg, Down(p, d, left));
    TopOf(seg, f);
    ExchangeKids(m, p, d, left, root, s);
    ExchangeKids(m, q, f, left, root, s);
    StepFields(m, q, f, root, s);
    if p.Step? {
      StepFields(m, p, d, root, s);
    }
  }

  lemma ExchangeKids(m: Mem, p: Path, d: Tree, left: nat, root: AvlNode?, s: set<AvlNode>)
    requires left <= 1 && d.Bin? && Placed(m, p, d, root, s)
    ensures d.n in m && |m[d.n].child| == 2 && m[d.n].child[left] == Ptr(Kid(d, left))
            && m[d.n].child[1 - left] == Ptr(Kid(d, 1 - left))
    ensures m[d.n].parent == PathPtr(p) && (p.Step? ==> m[d.n].index == p.side)
    ensures Kid(d, left).Bin? ==> Kid(d, left).n in m
    ensures Kid(d, 1 - left).Bin? ==> Kid(d, 1 - left).n in m
  {
    KidLinked(m, d, PathPtr(p), PathSide(p), left);
    RootThere(m, Kid(d, left), d.n, left);
    RootThere(m, Kid(d, 1 - left), d.n, 1 - left);
  }

  /** The writes of the exchange, in their order, amount to the two steps above. */
  lemma ExchangeDone(m: Mem, m3: Mem, p: Path, d: Tree, left: nat, seg: Path, f: Tree, root: AvlNode?, tmp: AvlNode,
                     s: set<AvlNode>)
    requires NextTo(d, left, seg, f) && Placed(m, p, d, root, s) && tmp !in s && tmp !in m && Kid(d, 1 - left).Bin?
    requires ExchangeWrites(m, m3, d.n, f.n, left, tmp)
    ensures Placed(m3, Through(p, d, left, seg, f.n), Stand(f, left, tmp), if p.Top? then f.n
              else root, s - {d.n} + {tmp})
  {
    hide Placed, Linked, PathLinked, Foot, FootP, Taken;
    var q := Append(seg, Down(p, d, left));
    ExchangeFields(m, p, d, left, seg, f, root, s);
    ExchangeApart2(p, d, left, seg, f, root, m, s);
    ExchangeFirst(m, p, d, left, seg, f, root, tmp, s);
    ExchangeSecond(Taken(m, q, f, tmp), p, d, left, seg, f, root, tmp, f.n, s - {f.n} + {tmp});
    assert s - {f.n} + {tmp} - {d.n} + {f.n} == s - {d.n} + {tmp};
    ExchangeSame(m, m3, p, d, left, seg, f, root, tmp, s);
  }

  lemma ExchangeApart2(p: Path, d: Tree, left: nat, seg: Path, f: Tree, root: AvlNode?, m: Mem, s: set<AvlNode>)
    requires NextTo(d, left, seg, f) && Placed(m, p, d, root, s)
    ensures d.n in s && f.n in s && d.n != f.n
  {
    hide Foot, FootP;
    ExchangeApart(p, d, left, seg, f, s);
  }

  lemma ExchangeSame(m: Mem, m3: Mem, p: Path, d: Tree, left: nat, seg: Path, f: Tree, root: AvlNode?, tmp: AvlNode,
                     s: set<AvlNode>)
    requires NextTo(d, left, seg, f) && Placed(m, p, d, root, s) && tmp !in s && tmp !in m && Kid(d, 1 - left).Bin?
    requires ExchangeWrites(m, m3, d.n, f.n, left, tmp)
    requires var q := Append(seg, Down(p, d, left));
             && f.n in m && (f.l.Bin? ==> f.l.n in m) && (f.r.Bin? ==> f.r.n in m) && q.Step? && q.n in m
             && q.side < |m[q.n].child|
    requires var m', d1 := Taken(m, Append(seg, Down(p, d, left)), f, tmp), Halfway(d, left, seg, f, tmp);
             && d1.n in m' && (d1.l.Bin? ==> d1.l.n in m') && (d1.r.Bin? ==> d1.r.n in m')
             && (p.Step? ==> p.n in m' && p.side < |m'[p.n].child|)
    ensures m3 == Taken(Taken(m, Append(seg, Down(p, d, left)), f, tmp), p, Halfway(d, left, seg, f, tmp), f.n)
  {
    hide Placed, Linked, PathLinked, Foot, FootP, ExchangeWrites, Replaced, Zip;
    ExchangeFields(m, p, d, left, seg, f, root, s);
    PlacedExactly(m, p, d, root, s);
    ExchangeApart(p, d, left, seg, f, s);
    HalfwayKids(p, d, left, seg, f, tmp);
    var q := Append(seg, Down(p, d, left));
    ExchangeRefs(m, m3, d.n, f.n, left, Kid(d, 1 - left).n, Ptr(Kid(f, left)), tmp, Ptr(Kid(d, left)),
                 if seg.Top? then d.n else seg.n, q.side, PathPtr(p), PathSide(p));
    assert Taken(m, q, f, tmp) == Replaced(m, f.n, tmp, PathPtr(q), q.side, Ptr(f.l), Ptr(f.r));
  }

  lemma HalfwayKids(p: Path, d: Tree, left: nat, seg: Path, f: Tree, tmp: AvlNode)
    requires NextTo(d, left, seg, f)
    ensures var q := Append(seg, Down(p, d, left));
            q.Step? && PathPtr(q) == (if seg.Top? then d.n else seg.n)
                && q.side == (if seg.Top? then left else 1 - left)
    ensures var d1 := Halfway(d, left, seg, f, tmp);
            && d1.n == d.n && Ptr(Kid(d1, 1 - left)) == Ptr(Kid(d, 1 - left))
            && Ptr(Kid(d1, left)) == if seg.Top? then tmp else Ptr(Kid(d, left))
    ensures Ptr(f.l) == (if left == 0 then Ptr(Kid(f, left)) else null)
            && Ptr(f.r) == if left == 0 then null else Ptr(Kid(f, left))
  {
    TopSame(seg, f, Stand(f, left, tmp));
  }

  /** `tmp` a copy of `node`, and `node` a copy of `data`. */
  function Copied(m: Mem, data: AvlNode, node: AvlNode, left: nat, tmp: AvlNode): Mem
    requires data in m && node in m && left < |m[data].child|
  {
    m[node := m[data].(child := if m[data].child[left] == node then m[data].child[left := tmp]
        else m[data].child)][tmp := m[node]]
  }

  ghost predicate CanTakeOver(m: Mem, node: AvlNode) {
    && node in m && |m[node].child| == 2 && m[node].child[0] in m && m[node].child[1] in m
    && m[node].child[0] != m[node].child[1]
    && (m[node].parent != null ==>
          m[node].parent in m && m[node].parent != node && m[node].index < |m[m[node].parent].child|)
  }

  /** `node` made the child of its parent, and the parent of its two children. */
  function TookOver(m: Mem, node: AvlNode, left: nat): Mem
    requires CanTakeOver(m, node) && left <= 1
  {
    var m1 := Led(m, m[node].parent, m[node].index, node);
    var l, r := m[node].child[left], m[node].child[1 - left];
    m1[l := m1[l].(parent := node)][r := m1[r].(parent := node)]
  }

  ghost predicate CanStandIn(m: Mem, tmp: AvlNode) {
    && tmp in m && |m[tmp].child| == 2 && (m[tmp].child[0] != null ==> m[tmp].child[0] in m)
    && (m[tmp].child[1] != null ==> m[tmp].child[1] in m)
    && m[tmp].parent != null && m[tmp].parent in m && m[tmp].parent != tmp && m[tmp].index < |m[m[tmp].parent].child|
  }

  /** `tmp` made the child of its parent, and the parent of its only child. */
  function StoodIn(m: Mem, tmp: AvlNode): Mem
    requires CanStandIn(m, tmp)
  {
    var q, x := m[tmp].parent, if m[tmp].child[1] != null then m[tmp].child[1] else m[tmp].child[0];
    var m' := m[q := m[q].(child := m[q].child[m[tmp].index := tmp])];
    if x == null then m' else m'[x := m'[x].(parent := tmp)]
  }

  /** The writes of the exchange, which takes `data` out. */
  ghost predicate ExchangeWrites(m: Mem, m3: Mem, data: AvlNode, node: AvlNode, left: nat, tmp: AvlNode) {
    && left <= 1 && data in m && node in m && |m[data].child| == 2
    && var c := Copied(m, data, node, left, tmp);
    && CanTakeOver(c, node)
    && var m2 := TookOver(c, node, left);
    && CanStandIn(m2, tmp) && m3 == StoodIn(m2, tmp) - {data}
  }

  /** What is in each node once the exchange is done. */
  ghost predicate Exchanged(m: Mem, m3: Mem, data: AvlNode, node: AvlNode, left: nat, r: AvlNode, x: AvlNode?,
                            tmp: AvlNode, l: AvlNode, q: AvlNode, side: nat, up: AvlNode?, upSide: nat)
    requires data in m && node in m && r in m && l in m && q in m && (x != null ==> x in m) && (up != null ==> up in m)
    requires left < |m[data].child| && (up != null ==> upSide < |m[up].child|) && side < |m[q].child|
  {
    && m3.Keys == m.Keys + {tmp} - {data} && {tmp, node, r} <= m3.Keys
    && m3[tmp] == m[node].(parent := if l == node then node else q)
    && m3[node] == (if l == node then m[data].(child := m[data].child[left := tmp]) else m[data])
    && m3[r] == m[r].(parent := node)
    && (x != null ==> x in m3 && m3[x] == m[x].(parent := tmp))
    && (up != null ==> up in m3 && m3[up] == m[up].(child := m[up].child[upSide := node]))
    && (l != node ==> l in m3 && q in m3)
    && (l != node && l != q ==> m3[l] == m[l].(parent := node) && m3[q] == m[q].(child := m[q].child[side := tmp]))
    && (l != node && l == q ==> m3[l] == m[l].(parent := node, child := m[l].child[side := tmp]))
    && forall v :: v in m3 && v !in {tmp, node, r, l, q, x, up} ==> v in m && m3[v] == m[v]
  }

  /** The places of the nodes in the exchange. */
  ghost predicate ExchangePlan(m: Mem, data: AvlNode, node: AvlNode, left: nat, r: AvlNode, x: AvlNode?, tmp: AvlNode,
                               l: AvlNode, q: AvlNode, side: nat, up: AvlNode?, upSide: nat)
  {
    && data != node && tmp !in m && data in m && node in m && l in m && q in m && r in m && (x != null ==> x in m)
    && (up != null ==> up in m)
    && r != data && r != node && r != l && r != q && r != x && (x != null ==> x != data && x != node && x != q)
    && (up != null ==> up != data && up != node && up != l && up != q && up != r && up != x)
    && (if l == node then q == data && side == left else l != data && q != data && q != node && l != x)
    && left <= 1 && |m[data].child| == 2 && m[data].child[left] == l && m[data].child[1 - left] == r
    && m[data].parent == up
    && (up != null ==> m[data].index == upSide < |m[up].child|)
    && m[node].parent == q && m[node].index == side && |m[q].child| == 2 && side <= 1
    && |m[node].child| == 2 && m[node].child[left] == x && m[node].child[1 - left] == null
  }

  lemma WritesExchanged(m: Mem, m3: Mem, data: AvlNode, node: AvlNode, left: nat, r: AvlNode, x: AvlNode?,
                        tmp: AvlNode, l: AvlNode, q: AvlNode, side: nat, up: AvlNode?, upSide: nat)
    requires ExchangeWrites(m, m3, data, node, left, tmp)
    requires ExchangePlan(m, data, node, left, r, x, tmp, l, q, side, up, upSide)
    ensures Exchanged(m, m3, data, node, left, r, x, tmp, l, q, side, up, upSide)
  {
  }

  lemma ReplacedExchanged(m: Mem, data: AvlNode, node: AvlNode, left: nat, r: AvlNode, x: AvlNode?, tmp: AvlNode,
                          l: AvlNode, q: AvlNode, side: nat, up: AvlNode?, upSide: nat)
    requires ExchangePlan(m, data, node, left, r, x, tmp, l, q, side, up, upSide)
    ensures var l' := if l == node then tmp else l;
            var z := Replaced(m, node, tmp, q, side, if left == 0 then x else null, if left == 0 then null else x);
            && data in z && l' in z && r in z && (up != null ==> up in z && upSide < |z[up].child|)
            && Exchanged(m,
                  Replaced(z, data, node, up, upSide, if left == 0 then l' else r, if left == 0 then r else l'),
                         data, node, left, r, x, tmp, l, q, side, up, upSide)
  {
    var l' := if l == node then tmp else l;
    var a, b := if left == 0 then x else null, if left == 0 then null else x;
    var z := Replaced(m, node, tmp, q, side, a, b);
    assert z.Keys == m.Keys + {tmp} - {node} && z[tmp] == m[node] && z[r] == m[r];
    assert z[data] == if l == node then m[data].(child := m[data].child[left := tmp]) else m[data];
    assert q != data ==> z[q] == m[q].(child := m[q].child[side := tmp]);
    assert l' != tmp && l' != q ==> z[l'] == m[l'];
    assert x != null ==> z[x] == m[x].(parent := tmp);
    assert up != null ==> z[up] == m[up];
    assert forall v :: v in z && v !in {tmp, data, q, x} ==> z[v] == m[v];
    var a', b' := if left == 0 then l' else r, if left == 0 then r else l';
    SecondExchanged(m, z, data, node, left, r, x, tmp, l, q, side, up, upSide, l', a', b');
  }

  lemma SecondExchanged(m: Mem, z: Mem, data: AvlNode, node: AvlNode, left: nat, r: AvlNode, x: AvlNode?,
                        tmp: AvlNode, l: AvlNode, q: AvlNode, side: nat, up: AvlNode?, upSide: nat, l': AvlNode,
                        a: AvlNode, b: AvlNode)
    requires ExchangePlan(m, data, node, left, r, x, tmp, l, q, side, up, upSide)
    requires l' == (if l == node then tmp else l) && (if left == 0 then a == l' && b == r else a == r && b == l')
    requires z.Keys == m.Keys + {tmp} - {node} && z[tmp] == m[node] && z[r] == m[r]
    requires z[data] == if l == node then m[data].(child := m[data].child[left := tmp]) else m[data]
    requires q != data ==> z[q] == m[q].(child := m[q].child[side := tmp])
    requires l' != tmp && l' != q ==> z[l'] == m[l']
    requires x != null ==> z[x] == m[x].(parent := tmp)
    requires up != null ==> z[up] == m[up]
    requires forall v :: v in z && v !in {tmp, data, q, x} ==> z[v] == m[v]
    ensures Exchanged(m, Replaced(z, data, node, up, upSide, a, b), data, node, left, r, x, tmp, l, q, side, up, upSide)
  {
  }

  lemma ExchangedOnce(m: Mem, a: Mem, b: Mem, data: AvlNode, node: AvlNode, left: nat, r: AvlNode, x: AvlNode?,
                      tmp: AvlNode, l: AvlNode, q: AvlNode, side: nat, up: AvlNode?, upSide: nat)
    requires ExchangePlan(m, data, node, left, r, x, tmp, l, q, side, up, upSide)
    requires Exchanged(m, a, data, node, left, r, x, tmp, l, q, side, up, upSide)
    requires Exchanged(m, b, data, node, left, r, x, tmp, l, q, side, up, upSide)
    ensures a == b
  {
    assert a.Keys == b.Keys;
    forall v | v in a ensures a[v] == b[v] {
    }
  }

  lemma ExchangeRefs(m: Mem, m3: Mem, data: AvlNode, node: AvlNode, left: nat, r: AvlNode, x: AvlNode?, tmp: AvlNode,
                     l: AvlNode, q: AvlNode, side: nat, up: AvlNode?, upSide: nat)
    requires ExchangeWrites(m, m3, data, node, left, tmp)
    requires ExchangePlan(m, data, node, left, r, x, tmp, l, q, side, up, upSide)
    ensures var l' := if l == node then tmp else l;
            var z := Replaced(m, node, tmp, q, side, if left == 0 then x else null, if left == 0 then null else x);
            && data in z && l' in z && r in z && (up != null ==> up in z && upSide < |z[up].child|)
            && m3 == Replaced(z, data, node, up, upSide, if left == 0 then l' else r, if left == 0 then r else l')
  {
    WritesExchanged(m, m3, data, node, left, r, x, tmp, l, q, side, up, upSide);
    ReplacedExchanged(m, data, node, left, r, x, tmp, l, q, side, up, upSide);
    var l' := if l == node then tmp else l;
    var z := Replaced(m, node, tmp, q, side, if left == 0 then x else null, if left == 0 then null else x);
    var w := Replaced(z, data, node, up, upSide, if left == 0 then l' else r, if left == 0 then r else l');
    hide Replaced, Exchanged, ExchangePlan, ExchangeWrites;
    ExchangedOnce(m, m3, w, data, node, left, r, x, tmp, l, q, side, up, upSide);
  }

  lemma {:induction false} TopSame(seg: Path, f: Tree, f': Tree)
    requires f.Bin? && f'.Bin?
    ensures Zip(seg, f).Bin? && Zip(seg, f').Bin?
    ensures seg.Step? ==> Zip(seg, f).n == Zip(seg, f').n
    decreases seg
  {
    if seg.Step? {
      TopSame(seg.above, Mk(seg.n, seg.bal, seg.side, f, seg.sib), Mk(seg.n, seg.bal, seg.side, f', seg.sib));
    }
  }

  lemma PlacedExactly(m: Mem, p: Path, d: Tree, root: AvlNode?, s: set<AvlNode>)
    requires Placed(m, p, d, root, s)
    ensures Exactly(FootP(p) + Foot(d), s)
  {
  }

  lemma ExchangeBalanced(p: Path, d: Tree, left: nat, seg: Path, f: Tree, tmp: AvlNode)
    requires NextTo(d, left, seg, f) && Balanced(f) && PathBalanced(Append(seg, Down(p, d, left)), H(f))
    ensures PathBalanced(Through(p, d, left, seg, f.n), H(Stand(f, left, tmp))) && Balanced(Stand(f, left, tmp))
    ensures Sparse(Stand(f, left, tmp))
  {
    AppendBalanced(seg, Down(p, d, left), H(f), d.n, f.n);
    KidBalanced(f, left);
    MkBalanced(tmp, left, Kid(f, left), Nil, f.bal);
  }

  /** The list misses just `d.n`. */
  lemma ExchangeList(p: Path, d: Tree, left: nat, seg: Path, f: Tree, tmp: AvlNode)
    requires NextTo(d, left, seg, f)
    ensures var q := Through(p, d, left, seg, f.n);
            LeftOf(q) + Flat(OnlyKid(Stand(f, left, tmp))) + RightOf(q)
                == LeftOf(p) + Flat(d.l) + (Flat(d.r) + RightOf(p))
  {
    hide LeftOf, RightOf, Zip;
    EdgeFlat(seg, 1 - left);
    var base := Step(p, f.n, d.bal, left, Kid(d, 1 - left));
    AppendFlat(seg, base);
    ZipFlat(seg, f);
    BaseFlat(p, f.n, d.bal, left, Kid(d, 1 - left));
    StandFlat(f, left, tmp);
    var x := Flat(Kid(f, left));
    if left == 0 {
      Exchange0(LeftOf(p), LeftOf(seg), x, [f.n], Flat(d.r), RightOf(p));
    } else {
      Exchange1(LeftOf(p), Flat(d.l), [f.n], x, RightOf(seg), RightOf(p));
    }
  }

  lemma BaseFlat(p: Path, n: AvlNode, bal: int, left: nat, sib: Tree)
    ensures LeftOf(Step(p, n, bal, left, sib)) == if left == 0 then LeftOf(p) else LeftOf(p) + Flat(sib) + [n]
    ensures RightOf(Step(p, n, bal, left, sib)) == if left == 0 then [n] + Flat(sib) + RightOf(p) else RightOf(p)
  {
  }

  lemma StandFlat(f: Tree, left: nat, tmp: AvlNode)
    requires left <= 1 && f.Bin? && Kid(f, 1 - left).Nil?
    ensures Flat(OnlyKid(Stand(f, left, tmp))) == Flat(Kid(f, left))
    ensures Flat(f) == if left == 0 then Flat(Kid(f, left)) + [f.n] else [f.n] + Flat(Kid(f, left))
  {
    assert Flat(Nil) == [];
  }

  lemma Exchange0<T>(p: seq<T>, s: seq<T>, x: seq<T>, n: seq<T>, r: seq<T>, q: seq<T>)
    ensures (p + s) + x + ([] + (n + r + q)) == p + (s + (x + n) + []) + (r + q)
  {
  }

  lemma Exchange1<T>(p: seq<T>, l: seq<T>, n: seq<T>, x: seq<T>, s: seq<T>, q: seq<T>)
    ensures ((p + l + n) + []) + x + (s + q) == p + l + (([] + (n + x) + s) + q)
  {
  }

  /** The nodes of the exchange are where the picture has them. */
  lemma ExchangePlanned(m: Mem, p: Path, d: Tree, left: nat, seg: Path, f: Tree, root: AvlNode?, tmp: AvlNode,
                        s: set<AvlNode>)
    requires NextTo(d, left, seg, f) && Placed(m, p, d, root, s) && Kid(d, 1 - left).Bin? && tmp !in m
    ensures Kid(d, left).Bin?
    ensures ExchangePlan(m, d.n, f.n, left, Kid(d, 1 - left).n, Ptr(Kid(f, left)), tmp, Ptr(Kid(d, left)),
                         if seg.Top? then d.n else seg.n, if seg.Top? then left else 1 - left, PathPtr(p), PathSide(p))
  {
    hide Placed, Linked, PathLinked, Foot, FootP, Zip;
    ExchangeFields(m, p, d, left, seg, f, root, s);
    PlacedExactly(m, p, d, root, s);
    ExchangeApart(p, d, left, seg, f, s);
  }

  /** What the writes of the exchange rely on. */
  lemma ExchangeReady(m: Mem, data: AvlNode, node: AvlNode, left: nat, r: AvlNode, x: AvlNode?, tmp: AvlNode,
                      l: AvlNode, q: AvlNode, side: nat, up: AvlNode?, upSide: nat)
    requires ExchangePlan(m, data, node, left, r, x, tmp, l, q, side, up, upSide)
    ensures var c := Copied(m, data, node, left, tmp);
            CanTakeOver(c, node) && c[node].parent == up && CanStandIn(TookOver(c, node, left), tmp)
  {
  }

  lemma LedNode(c: Mem, m1: Mem, parent: AvlNode?, which: nat, node: AvlNode, tmp: AvlNode, left: nat)
    requires parent != null ==> parent in c && which < |c[parent].child|
    requires m1 == Led(c, parent, which, node) && node in c && tmp in c && parent != node && parent != tmp
    ensures m1.Keys == c.Keys && m1[node] == c[node] && m1[tmp] == c[tmp]
    ensures forall v :: v in c ==> |m1[v].child| == |c[v].child|
  {
  }

  // ----- walking the whole tree while nodes are removed -----

  /** The nodes of a list the callback leaves in the tree. */
  function Kept(removes: AvlNode -> bool, l: seq<AvlNode>): seq<AvlNode> {
    if l == [] then []
    else if removes(l[|l| - 1]) then Kept(removes, l[..|l| - 1]) else Kept(removes, l[..|l| - 1]) + [l[|l| - 1]]
  }

  lemma KeptStep(removes: AvlNode -> bool, l: seq<AvlNode>, i: nat)
    requires i < |l|
    ensures var k := Kept(removes, l[..i]); var f := k + l[i..];
            && |k| < |f| && f[|k|] == l[i] && Neighbour(f, |k|, 1) == (if i + 1 < |l| then l[i + 1] else null)
            && Kept(removes, l[..i + 1]) + l[i + 1..] == if removes(l[i]) then Dropped(f, |k|) else f
  {
    assert l[..i + 1][..i] == l[..i];
    assert l[i..] == [l[i]] + l[i + 1..];
  }

  // ----- post-order destruction -----

  function Post(t: Tree): seq<AvlNode> {
    if t.Nil? then [] else Post(t.l) + Post(t.r) + [t.n]
  }

  /** What is still to be visited after the node at the hole: right subtrees not yet seen, and the
      nodes above. */
  function Rest(p: Path): seq<AvlNode> {
    if p.Top? then [] else (if p.side == 0 then Post(p.sib) else []) + [p.n] + Rest(p.above)
  }

  lemma {:induction false} PostFoot(t: Tree)
    ensures multiset(Post(t)) == Foot(t)
  {
    if t.Bin? {
      PostFoot(t.l);
      PostFoot(t.r);
    }
  }

  /** Left subtrees above are gone; right subtrees still to be visited are whole. */
  predicate Doomed(p: Path) {
    p.Step? ==> (if p.side == 1 then p.sib.Nil? else Balanced(p.sib)) && Doomed(p.above)
  }

  /** The tree while it is being destroyed: `s` are the nodes not yet handed out, `x` the last one that was. */
  ghost predicate Dying(m: Mem, p: Path, root: AvlNode?, x: AvlNode?, s: set<AvlNode>) {
    PathLinked(m, p, root, x) && Doomed(p) && Exactly(FootP(p), s)
  }

  /** The subtree at a hole of a dying tree. */
  ghost predicate Next(m: Mem, p: Path, f: Tree, root: AvlNode?, s: set<AvlNode>) {
    Placed(m, p, f, root, s) && Doomed(p) && Balanced(f)
  }

  lemma NextLeft(m: Mem, p: Path, f: Tree, root: AvlNode?, s: set<AvlNode>)
    requires Next(m, p, f, root, s) && f.Bin?
    ensures Next(m, Down(p, f, 0), f.l, root, s)
    ensures Post(f.l) + Rest(Down(p, f, 0)) == Post(f) + Rest(p)
  {
    hide PathLinked, Linked, Foot, FootP;
    DownPlaced(m, p, f, root, 0, s);
    assert Post(f.l) + (Post(f.r) + [f.n] + Rest(p)) == (Post(f.l) + Post(f.r) + [f.n]) + Rest(p);
  }

  /** A node without a left child: its right child, if it has one, is a leaf and comes first. */
  lemma NextRight(m: Mem, p: Path, f: Tree, root: AvlNode?, s: set<AvlNode>)
    requires Next(m, p, f, root, s) && f.Bin? && f.l.Nil?
    ensures f.r.Bin? ==>
              && f.bal == 1 && f.r.l.Nil? && f.r.r.Nil? && Next(m, Step(p, f.n, f.bal, 1, Nil), f.r, root, s)
              && [f.r.n] + Rest(Step(p, f.n, f.bal, 1, Nil)) == Post(f) + Rest(p)
    ensures f.r.Nil? ==> f.bal <= 0 && [f.n] + Rest(p) == Post(f) + Rest(p)
  {
    hide PathLinked, Linked, Foot, FootP;
    DownPlaced(m, p, f, root, 1, s);
    if f.r.Bin? {
      LowTree(f.r);
      assert Post(f.r) == [] + [] + [f.r.n];
      assert Post(f) == [] + Post(f.r) + [f.n];
      assert [f.r.n] + ([] + [f.n] + Rest(p)) == ([] + [f.r.n] + [f.n]) + Rest(p);
    } else {
      assert Post(f) == [] + [] + [f.n];
    }
  }

  lemma LowTree(t: Tree)
    requires t.Bin? && H(t) <= 1
    ensures t.l.Nil? && t.r.Nil?
  {
  }

  /** Handing out a leaf. */
  lemma HandOut(m: Mem, p: Path, f: Tree, root: AvlNode?, s: set<AvlNode>)
    requires Next(m, p, f, root, s) && f.Bin? && f.l.Nil? && f.r.Nil?
    ensures f.n in s && f.n !in FootP(p) && Exactly(FootP(p), s - {f.n})
    ensures Dying(m - {f.n}, p, root, f.n, s - {f.n})
  {
    hide PathLinked, FootP;
    NilFoot();
    KidsFoot(f, 0);
    assert FootP(p) + (multiset{f.n} + multiset{} + multiset{}) == FootP(p) + Foot(f);
    Apart(FootP(p), f.n, multiset{}, multiset{}, s);
    assert FootP(p) + multiset{f.n} == multiset(s);
    assert multiset(s - {f.n}) + multiset{f.n} == multiset(s);
    Cancel(FootP(p), multiset(s - {f.n}), f.n);
    PathFramed(m, m - {f.n}, p, root, f.n);
  }

  /** Cutting the last node handed out off its parent. */
  lemma CutOff(m: Mem, p: Path, root: AvlNode?, x: AvlNode?, s: set<AvlNode>)
    requires Dying(m, p, root, x, s) && p.Step?
    ensures p.side <= 1 && p.n in m && p.n in s && |m[p.n].child| == 2 && p.n !in FootP(p.above)
    ensures p.side == 1 ==> p.sib.Nil?
    ensures m[p.n].child[1 - p.side] == Ptr(p.sib) && m[p.n].parent == PathPtr(p.above) && m[p.n].balance == p.bal
    ensures p.above.Step? ==> m[p.n].index == p.above.side
    ensures var m' := m[p.n := m[p.n].(child := m[p.n].child[p.side := null])];
            && PathLinked(m', p.above, root, p.n) && Doomed(p.above)
            && (p.sib.Nil? ==> Dying(m' - {p.n}, p.above, root, p.n, s - {p.n}) && Rest(p) == [p.n] + Rest(p.above))
            && (p.side == 0 ==> Next(m', Step(p.above, p.n, p.bal, 1, Nil), p.sib, root, s))
    ensures p.side == 0 ==> Rest(p) == Post(p.sib) + Rest(Step(p.above, p.n, p.bal, 1, Nil))
  {
    hide PathLinked, Linked, Foot, FootP, Balanced, Post, Exactly, Rest;
    PathParts(m, p, root, x);
    CutRest(p);
    CutApart(p, s);
    var m' := m[p.n := m[p.n].(child := m[p.n].child[p.side := null])];
    LinkedFramed(m, m', p.sib, p.n, 1 - p.side);
    PathFramed(m, m', p.above, root, p.n);
    NilPost();
    if p.sib.Nil? {
      CutFoot(p, s);
      PathFramed(m', m' - {p.n}, p.above, root, p.n);
    }
    if p.side == 0 {
      PathMade(m', Step(p.above, p.n, p.bal, 1, Nil), root, Ptr(p.sib));
      StepFoot(p);
    }
  }

  lemma CutRest(p: Path)
    requires p.Step?
    ensures p.sib.Nil? ==> Rest(p) == [p.n] + Rest(p.above)
    ensures p.side == 0 ==> Rest(p) == Post(p.sib) + Rest(Step(p.above, p.n, p.bal, 1, Nil))
  {
    NilPost();
    assert Post(p.sib) + [p.n] + Rest(p.above) == Post(p.sib) + ([] + [p.n] + Rest(p.above));
  }

  lemma CutApart(p: Path, s: set<AvlNode>)
    requires p.Step? && Exactly(FootP(p), s)
    ensures p.n !in Foot(p.sib) && p.n !in FootP(p.above) && p.n in s
  {
    hide Foot, FootP;
    FootStep(p);
    var none: multiset<AvlNode> := multiset{};
    assert none + (multiset{p.n} + Foot(p.sib) + FootP(p.above)) == FootP(p);
    Apart(none, p.n, Foot(p.sib), FootP(p.above), s);
  }

  lemma CutFoot(p: Path, s: set<AvlNode>)
    requires p.Step? && p.sib.Nil? && Exactly(FootP(p), s) && p.n in s
    ensures Exactly(FootP(p.above), s - {p.n})
  {
    FootStep(p);
    NilFoot();
    assert FootP(p.above) + multiset{p.n} == FootP(p);
    assert multiset(s - {p.n}) + multiset{p.n} == multiset(s);
    Cancel(FootP(p.above), multiset(s - {p.n}), p.n);
  }

  lemma NilPost()
    ensures Post(Nil) == []
  {
  }

  lemma StepFoot(p: Path)
    requires p.Step?
    ensures FootP(Step(p.above, p.n, p.bal, 1, Nil)) + Foot(p.sib) == FootP(p)
  {
  }

  /** Down the left edge of a whole tree. */
  lemma {:induction false} LeftEdge(m: Mem, p: Path, f: Tree, root: AvlNode?, s: set<AvlNode>)
    returns (q: Path, g: Tree)
    requires Next(m, p, f, root, s) && f.Bin?
    ensures Next(m, q, g, root, s) && g.Bin? && g.l.Nil? && Post(g) + Rest(q) == Post(f) + Rest(p)
    ensures |Flat(f)| > 0 && Flat(f)[0] == g.n
    decreases f
  {
    if f.l.Nil? {
      assert Flat(f) == [] + [f.n] + Flat(f.r);
      q, g := p, f;
    } else {
      NextLeft(m, p, f, root, s);
      q, g := LeftEdge(m, Down(p, f, 0), f.l, root, s);
    }
  }

  lemma CountPost(t: Tree)
    ensures |Post(t)| == |Flat(t)|
  {
    PostFoot(t);
    FlatFoot(t);
    assert |multiset(Post(t))| == |Post(t)|;
  }

  lemma NextFields(m: Mem, p: Path, f: Tree, root: AvlNode?, s: set<AvlNode>)
    requires Next(m, p, f, root, s) && f.Bin?
    ensures f.n in m && f.n in s && m[f.n].child == [Ptr(f.l), Ptr(f.r)] && m[f.n].balance == f.bal
    ensures m[f.n].parent == PathPtr(p) && (p.Step? ==> m[f.n].index == p.side)
  {
    RootFields(m, p, f, root, s);
  }

  lemma NoneLeft(u: multiset<AvlNode>, s: set<AvlNode>)
    requires Exactly(u, s)
    ensures u == multiset{} ==> s == {}
  {
    forall v | v in s ensures v in u {
      assert v in multiset(s);
    }
  }

  /** What a dying tree's fields say right above the hole. */
  lemma DyingFields(m: Mem, p: Path, root: AvlNode?, x: AvlNode?, s: set<AvlNode>)
    requires Dying(m, p, root, x, s)
    ensures p.Top? ==> s == {}
    ensures p.Step? ==> p.side <= 1 && p.n in m && |m[p.n].child| == 2 && m[p.n].child[p.side] == x
  {
    NoneLeft(FootP(p), s);
  }
}
