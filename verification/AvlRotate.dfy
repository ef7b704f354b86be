/**
  What a rotation does to the picture of a subtree, and why the pointer writes of the rotation
  routine realise it.
*/
module AvlRotate {
  import opened AvlShape

  /** A node's child on side `left`, which is there when the tree leans that way. */
  predicate Leaning(t: Tree, left: nat) {
    && left <= 1 && t.Bin? && Kid(t, left).Bin?
    && Balanced(Kid(t, left)) && Balanced(Kid(t, 1 - left)) && H(Kid(t, left)) == H(Kid(t, 1 - left)) + 2
  }

  /** The subtree after the rotation. */
  function Rotated(t: Tree, left: nat): Tree
    requires Leaning(t, left)
  {
    var right := 1 - left;
    var c, b := Kid(t, left), Kid(t, right);
    var cb := c.bal + Weight(right);
    if c.bal != Weight(right) then
      Mk(c.n, cb, left, Kid(c, left), Mk(t.n, -cb, left, Kid(c, right), b))
    else
      InnerThere(t, left);
      var g := Kid(c, right);
      Mk(g.n, 0, left,
         Mk(c.n, if g.bal == Weight(right) then Weight(left) else 0, left, Kid(c, left), Kid(g, left)),
         Mk(t.n, if g.bal == Weight(left) then Weight(right) else 0, left, Kid(g, right), b))
  }

  /** A child leaning inwards has an inner child. */
  lemma InnerThere(t: Tree, left: nat)
    requires Leaning(t, left) && Kid(t, left).bal == Weight(1 - left)
    ensures Kid(Kid(t, left), 1 - left).Bin? && Balanced(Kid(Kid(t, left), 1 - left))
  {
    KidBalanced(Kid(t, left), left);
  }

  /** A rotation restores balance, and lowers the subtree unless the child was in balance. */
  lemma RotatedBalanced(t: Tree, left: nat)
    requires Leaning(t, left)
    ensures Balanced(Rotated(t, left))
    ensures H(Rotated(t, left)) == H(Kid(t, left)) + (if Kid(t, left).bal == 0 then 1 else 0)
    ensures H(t) == H(Kid(t, left)) + 1
  {
    MkHeight(t, left);
    if Kid(t, left).bal != Weight(1 - left) {
      SingleBalanced(t, left);
    } else {
      DoubleBalanced(t, left);
    }
  }

  lemma SingleBalanced(t: Tree, left: nat)
    requires Leaning(t, left) && Kid(t, left).bal != Weight(1 - left)
    ensures Balanced(Rotated(t, left))
    ensures H(Rotated(t, left)) == H(Kid(t, left)) + (if Kid(t, left).bal == 0 then 1 else 0)
  {
    hide H, Balanced;
    var right := 1 - left;
    var c, b := Kid(t, left), Kid(t, right);
    KidBalanced(c, left);
    var cb := c.bal + Weight(right);
    MkBalanced(t.n, left, Kid(c, right), b, -cb);
    MkBalanced(c.n, left, Kid(c, left), Mk(t.n, -cb, left, Kid(c, right), b), cb);
  }

  lemma DoubleHeights(left: nat, b: nat, a: nat, g: nat, x: nat, y: nat, cb: int, gb: int)
    requires left <= 1 && 1 + Max(a, g) == b + 2 && cb == Weight(1 - left) == Weight(left) * (a - g)
    requires g == 1 + Max(x, y) && gb == Weight(left) * (x - y) && -1 <= gb <= 1
    ensures var right := 1 - left;
            var l, r := if gb == Weight(right) then Weight(left) else 0,
                if gb == Weight(left) then Weight(right) else 0;
            && l == Weight(left) * (a - x) && r == Weight(left) * (y - b) && -1 <= l <= 1 && -1 <= r <= 1
            && 1 + Max(a, x) == b + 1 && 1 + Max(y, b) == b + 1 && 1 + Max(b + 1, b + 1) == 1 + Max(a, g)
            && Weight(left) * 0 == 0
  {
  }

  lemma DoubleShape(t: Tree, left: nat)
    requires Leaning(t, left) && Kid(t, left).bal == Weight(1 - left)
    ensures var right := 1 - left; var c := Kid(t, left);
            Kid(c, right).Bin? &&
            var g := Kid(c, right);
            Rotated(t, left) == Mk(g.n, 0, left,
              Mk(c.n, if g.bal == Weight(right) then Weight(left) else 0, left, Kid(c, left), Kid(g, left)),
              Mk(t.n, if g.bal == Weight(left) then Weight(right) else 0, left, Kid(g, right), Kid(t, right)))
  {
    InnerThere(t, left);
  }

  lemma DoubleBalanced(t: Tree, left: nat)
    requires Leaning(t, left) && Kid(t, left).bal == Weight(1 - left)
    ensures Balanced(Rotated(t, left)) && H(Rotated(t, left)) == H(Kid(t, left))
  {
    hide H, Balanced, Rotated, Mk;
    var right := 1 - left;
    var c, b := Kid(t, left), Kid(t, right);
    KidBalanced(c, left);
    InnerThere(t, left);
    var g := Kid(c, right);
    KidBalanced(g, left);
    var x := if g.bal == Weight(right) then Weight(left) else 0;
    var y := if g.bal == Weight(left) then Weight(right) else 0;
    var l, r := Mk(c.n, x, left, Kid(c, left), Kid(g, left)), Mk(t.n, y, left, Kid(g, right), b);
    DoubleShape(t, left);
    hide Kid, Weight, Max, Leaning;
    DoubleHeights(left, H(b), H(Kid(c, left)), H(g), H(Kid(g, left)), H(Kid(g, right)), c.bal, g.bal);
    MkBalanced(c.n, left, Kid(c, left), Kid(g, left), x);
    MkBalanced(t.n, left, Kid(g, right), b, y);
    MkBalanced(g.n, left, l, r, 0);
  }

  lemma MkHeight(t: Tree, i: nat)
    requires t.Bin? && i <= 1
    ensures H(t) == 1 + Max(H(Kid(t, i)), H(Kid(t, 1 - i)))
  {
  }

  lemma MkFlat(n: AvlNode, bal: int, i: nat, a: Tree, b: Tree)
    requires i <= 1
    ensures Flat(Mk(n, bal, i, a, b)) == if i == 0 then Flat(a) + [n] + Flat(b) else Flat(b) + [n] + Flat(a)
  {
  }

  lemma Assoc3<T>(a: seq<T>, x: seq<T>, b: seq<T>, y: seq<T>, c: seq<T>)
    ensures (a + x + b) + y + c == a + x + (b + y + c)
  {
  }

  /** The in-order list and the nodes stay the same. */
  lemma RotatedFlat(t: Tree, left: nat)
    requires Leaning(t, left)
    ensures Flat(Rotated(t, left)) == Flat(t) && Foot(Rotated(t, left)) == Foot(t)
  {
    hide H, Balanced, Flat, Foot;
    var right := 1 - left;
    var c, b := Kid(t, left), Kid(t, right);
    var cb := c.bal + Weight(right);
    var a, x := Kid(c, left), Kid(c, right);
    MkKids(t, left);
    MkKids(c, left);
    if c.bal != Weight(right) {
      SingleFlat(t.n, c.n, t.bal, c.bal, -cb, cb, left, a, x, b);
    } else {
      InnerThere(t, left);
      var g := x;
      MkKids(g, left);
      var u := if g.bal == Weight(right) then Weight(left) else 0;
      var v := if g.bal == Weight(left) then Weight(right) else 0;
      SingleFlat(c.n, g.n, c.bal, g.bal, u, 0, right, Kid(g, right), Kid(g, left), a);
      SingleFlat(t.n, g.n, t.bal, 0, v, 0, left, Mk(c.n, u, left, a, Kid(g, left)), Kid(g, right), b);
      SameKid(t.n, t.bal, left, c, Mk(g.n, 0, left, Mk(c.n, u, left, a, Kid(g, left)), Kid(g, right)), b);
    }
  }

  lemma SameKid(n: AvlNode, bal: int, i: nat, a: Tree, a': Tree, b: Tree)
    requires i <= 1 && Flat(a) == Flat(a') && Foot(a) == Foot(a')
    ensures Flat(Mk(n, bal, i, a, b)) == Flat(Mk(n, bal, i, a', b))
            && Foot(Mk(n, bal, i, a, b)) == Foot(Mk(n, bal, i, a', b))
  {
  }

  /** The child on side `i` becomes the root. */
  lemma SingleFlat(n: AvlNode, c: AvlNode, nb: int, cb: int, nb': int, cb': int, i: nat, a: Tree, x: Tree, b: Tree)
    requires i <= 1
    ensures var t, t' := Mk(n, nb, i, Mk(c, cb, i, a, x), b), Mk(c, cb', i, a, Mk(n, nb', i, x, b));
            Flat(t) == Flat(t') && Foot(t) == Foot(t')
    ensures Mk(c, cb, 1 - i, x, a) == Mk(c, cb, i, a, x)
  {
    SingleFoot(n, c, nb, cb, nb', cb', i, a, x, b);
    MkMirror(c, cb, i, a, x);
    hide Flat, Foot, Mk;
    MkFlat(n, nb, i, Mk(c, cb, i, a, x), b);
    MkFlat(c, cb, i, a, x);
    MkFlat(c, cb', i, a, Mk(n, nb', i, x, b));
    MkFlat(n, nb', i, x, b);
    Assoc3(Flat(a), [c], Flat(x), [n], Flat(b));
    Assoc3(Flat(b), [n], Flat(x), [c], Flat(a));
  }

  lemma MkMirror(n: AvlNode, bal: int, i: nat, a: Tree, b: Tree)
    requires i <= 1
    ensures Mk(n, bal, 1 - i, b, a) == Mk(n, bal, i, a, b)
  {
  }

  lemma SingleFoot(n: AvlNode, c: AvlNode, nb: int, cb: int, nb': int, cb': int, i: nat, a: Tree, x: Tree, b: Tree)
    ensures Foot(Mk(n, nb, i, Mk(c, cb, i, a, x), b)) == Foot(Mk(c, cb', i, a, Mk(n, nb', i, x, b)))
  {
    hide Foot, Mk;
    MkFoot(n, nb, i, Mk(c, cb, i, a, x), b);
    MkFoot(c, cb, i, a, x);
    MkFoot(c, cb', i, a, Mk(n, nb', i, x, b));
    MkFoot(n, nb', i, x, b);
    assert multiset{n} + (multiset{c} + Foot(a) + Foot(x)) + Foot(b)
        == multiset{c} + Foot(a) + (multiset{n} + Foot(x) + Foot(b));
  }

  // ----- the pointer writes -----

  /** The subtree `t` in its surroundings: nodes `s`, fields `m`. */
  ghost predicate Placed(m: Mem, p: Path, t: Tree, root: AvlNode?, s: set<AvlNode>) {
    && Linked(m, t, PathPtr(p), PathSide(p)) && PathLinked(m, p, root, Ptr(t))
    && Exactly(FootP(p) + Foot(t), s)
  }

  /** The node above the hole, or the root field, was made to lead to `c`. */
  ghost predicate Relinked(m: Mem, m': Mem, p: Path, root: AvlNode?, root': AvlNode?, c: AvlNode?) {
    if p.Top? then root' == c
    else p.n in m && p.n in m' && p.side < |m[p.n].child| && root' == root
         && m'[p.n] == m[p.n].(child := m[p.n].child[p.side := c])
  }

  ghost predicate SameBut(m: Mem, m': Mem, changed: set<AvlNode?>) {
    forall v :: v in m && v !in changed ==> v in m' && m'[v] == m[v]
  }

  lemma PathRelinked(m: Mem, m': Mem, p: Path, root: AvlNode?, root': AvlNode?, c: AvlNode?, c': AvlNode?)
    requires PathLinked(m, p, root, c) && Relinked(m, m', p, root, root', c')
    requires p.Step? ==> Agree(m, m', Foot(p.sib) + FootP(p.above))
    ensures PathLinked(m', p, root', c')
  {
    if p.Step? {
      hide Linked, PathLinked, Foot, FootP;
      AgreeSum(m, m', Foot(p.sib), FootP(p.above));
      PathParts(m, p, root, c);
      SideSet(p.side, c, Ptr(p.sib), c');
      LinkedFramed(m, m', p.sib, p.n, 1 - p.side);
      PathFramed(m, m', p.above, root, p.n);
      PathMade(m', p, root', c');
    }
  }

  lemma SideSet(side: nat, c: AvlNode?, sib: AvlNode?, c': AvlNode?)
    requires side <= 1
    ensures (if side == 0 then [c, sib] else [sib, c])[side := c'] == if side == 0 then [c', sib] else [sib, c']
  {
  }

  lemma PathParts(m: Mem, p: Path, root: AvlNode?, c: AvlNode?)
    requires p.Step? && PathLinked(m, p, root, c)
    ensures p.side <= 1 && p.n in m && m[p.n].parent == PathPtr(p.above)
            && (p.above.Step? ==> m[p.n].index == p.above.side)
    ensures m[p.n].child == (if p.side == 0 then [c, Ptr(p.sib)] else [Ptr(p.sib), c]) && m[p.n].balance == p.bal
    ensures Linked(m, p.sib, p.n, 1 - p.side) && PathLinked(m, p.above, root, p.n)
  {
  }

  lemma PathMade(m: Mem, p: Path, root: AvlNode?, c: AvlNode?)
    requires p.Step? && p.side <= 1 && p.n in m && m[p.n].parent == PathPtr(p.above)
    requires p.above.Step? ==> m[p.n].index == p.above.side
    requires m[p.n].child == (if p.side == 0 then [c, Ptr(p.sib)] else [Ptr(p.sib), c]) && m[p.n].balance == p.bal
    requires Linked(m, p.sib, p.n, 1 - p.side) && PathLinked(m, p.above, root, p.n)
    ensures PathLinked(m, p, root, c)
  {
  }

  /** Four groups of nodes without a node in common. */
  ghost predicate Groups(p: multiset<AvlNode>, a: multiset<AvlNode>, x: multiset<AvlNode>, b: multiset<AvlNode>) {
    p !! a && p !! x && p !! b && a !! x && a !! b && x !! b
  }

  ghost predicate Outside(n: AvlNode, p: multiset<AvlNode>, a: multiset<AvlNode>, x: multiset<AvlNode>,
                          b: multiset<AvlNode>) {
    n !in p && n !in a && n !in x && n !in b
  }

  lemma SingleApart(p: Path, t: Tree, i: nat, s: set<AvlNode>)
    requires i <= 1 && t.Bin? && Kid(t, i).Bin? && Exactly(FootP(p) + Foot(t), s)
    ensures var c, b := Kid(t, i), Kid(t, 1 - i); var a, x := Kid(c, i), Kid(c, 1 - i);
            && t.n in s && c.n in s && t.n != c.n && (x.Bin? ==> x.n in s && x.n != t.n && x.n != c.n)
            && (p.Step? ==> p.n in s && p.n != t.n && p.n != c.n && (x.Bin? ==> p.n != x.n))
            && Groups(FootP(p), Foot(a), Foot(x), Foot(b))
            && Outside(t.n, FootP(p), Foot(a), Foot(x), Foot(b)) && Outside(c.n, FootP(p), Foot(a), Foot(x), Foot(b))
  {
    var c, b := Kid(t, i), Kid(t, 1 - i);
    var a, x := Kid(c, i), Kid(c, 1 - i);
    MkKids(t, i);
    MkKids(c, i);
    MkFoot(t.n, t.bal, i, c, b);
    MkFoot(c.n, c.bal, i, a, x);
    SixApart(FootP(p), t.n, c.n, Foot(a), Foot(x), Foot(b), s);
    HasRoot(x);
    HasStep(p);
  }

  lemma HasRoot(t: Tree)
    ensures t.Bin? ==> t.n in Foot(t)
  {
  }

  lemma HasStep(p: Path)
    ensures p.Step? ==> p.n in FootP(p)
  {
  }

  lemma SixApart(p: multiset<AvlNode>, n: AvlNode, c: AvlNode, a: multiset<AvlNode>, x: multiset<AvlNode>,
                 b: multiset<AvlNode>, s: set<AvlNode>)
    requires Exactly(p + (multiset{n} + (multiset{c} + a + x) + b), s)
    ensures n != c && n in s && c in s && Groups(p, a, x, b) && Outside(n, p, a, x, b) && Outside(c, p, a, x, b)
    ensures forall v :: v in x || v in p ==> v in s
  {
    var all: multiset<AvlNode> := p + (multiset{n} + (multiset{c} + a + x) + b);
    forall v: AvlNode
      ensures p[v] + (if v == n then 1 else 0) + (if v == c then 1 else 0) + a[v] + x[v] + b[v]
                == (if v in s then 1 else 0)
    {
      assert all[v] == multiset(s)[v];
    }
    assert p[n] + 1 + (if n == c then 1 else 0) + a[n] + x[n] + b[n] == (if n in s then 1 else 0);
    assert p[c] + (if n == c then 1 else 0) + 1 + a[c] + x[c] + b[c] == (if c in s then 1 else 0);
  }

  /** What the writes of a single rotation leave in the fields. */
  ghost predicate SingleWrites(m: Mem, m': Mem, p: Path, t: Tree, root: AvlNode?, root': AvlNode?, left: nat)
    requires Leaning(t, left) && Kid(t, left).bal != Weight(1 - left)
  {
    var right := 1 - left;
    var n, c, x, cb := t.n, Kid(t, left).n, Kid(Kid(t, left), right), Kid(t, left).bal + Weight(right);
    && n in m && n in m' && c in m && c in m' && |m[n].child| == 2 && |m[c].child| == 2
    && m'[n] == Cell(m[n].child[left := Ptr(x)], c, right, -cb)
    && m'[c] == Cell(m[c].child[right := n], m[n].parent, m[n].index, cb)
    && (x.Bin? ==> x.n in m && x.n in m' && m'[x.n] == m[x.n].(parent := n, index := left))
    && Relinked(m, m', p, root, root', c)
    && SameBut(m, m', {n, c, Ptr(x), PathPtr(p)})
  }

  lemma SingleLinked(m: Mem, m': Mem, p: Path, t: Tree, root: AvlNode?, root': AvlNode?, left: nat, s: set<AvlNode>)
    requires Leaning(t, left) && Kid(t, left).bal != Weight(1 - left) && Placed(m, p, t, root, s)
    requires SingleWrites(m, m', p, t, root, root', left)
    ensures Placed(m', p, Rotated(t, left), root', s)
  {
    hide Linked, PathLinked, Foot, FootP, Balanced, H, Flat, Kid;
    var right := 1 - left;
    var c, b := Kid(t, left), Kid(t, right);
    var a, x := Kid(c, left), Kid(c, right);
    var cb := c.bal + Weight(right);
    KidLinked(m, t, PathPtr(p), PathSide(p), left);
    KidLinked(m, c, t.n, left, left);
    SingleApart(p, t, left, s);
    SingleFramed(m, m', p, t, left, s);
    LinkedFramed(m, m', a, c.n, left);
    LinkedFramed(m, m', b, t.n, right);
    Reparented(m, m', x, c.n, right, t.n, left);
    MkLinked(m', t.n, left, x, b, c.n, right);
    MkLinked(m', c.n, left, a, Mk(t.n, -cb, left, x, b), PathPtr(p), PathSide(p));
    PathRelinked(m, m', p, root, root', t.n, c.n);
    RotatedFlat(t, left);
  }

  lemma SingleFramed(m: Mem, m': Mem, p: Path, t: Tree, left: nat, s: set<AvlNode>)
    requires left <= 1 && t.Bin? && Kid(t, left).Bin? && Exactly(FootP(p) + Foot(t), s)
    requires var x := Kid(Kid(t, left), 1 - left);
             SameBut(m, m', {t.n, Kid(t, left).n, Ptr(x), PathPtr(p)})
    ensures var c, b := Kid(t, left), Kid(t, 1 - left); var a, x := Kid(c, left), Kid(c, 1 - left);
            && Agree(m, m', Foot(a)) && Agree(m, m', Foot(b)) && (x.Bin? ==> Agree(m, m', Foot(x.l) + Foot(x.r)))
            && (p.Step? ==> Agree(m, m', Foot(p.sib) + FootP(p.above)))
  {
    hide Foot, FootP, Exactly, Agree, SameBut;
    SingleApart(p, t, left, s);
    var c, b := Kid(t, left), Kid(t, 1 - left);
    var a, x := Kid(c, left), Kid(c, 1 - left);
    var changed := {t.n, c.n, Ptr(x), PathPtr(p)};
    KidFoot(t, left);
    KidFoot(c, 1 - left);
    HasRoot(x);
    HasStep(p);
    RestApart(p, t, x, s);
    Untouched(m, m', changed, Foot(a));
    Untouched(m, m', changed, Foot(b));
    if x.Bin? {
      Untouched(m, m', changed, Foot(x.l) + Foot(x.r));
    }
    if p.Step? {
      Untouched(m, m', changed, Foot(p.sib) + FootP(p.above));
    }
  }

  /** Nothing but `changed` is touched, so nothing in `a` is. */
  lemma Untouched(m: Mem, m': Mem, changed: set<AvlNode?>, a: multiset<AvlNode>)
    requires SameBut(m, m', changed) && forall v :: v in a ==> v !in changed
    ensures Agree(m, m', a)
  {
  }

  lemma FootRoot(t: Tree)
    requires t.Bin?
    ensures Foot(t) == multiset{t.n} + (Foot(t.l) + Foot(t.r))
  {
  }

  lemma FootStep(p: Path)
    requires p.Step?
    ensures FootP(p) == multiset{p.n} + (Foot(p.sib) + FootP(p.above))
  {
  }

  lemma SplitOnce(u: multiset<AvlNode>, n: AvlNode, rest: multiset<AvlNode>)
    requires u == multiset{n} + rest && u[n] <= 1
    ensures n !in rest && forall v :: v in rest ==> v in u
  {
    assert u[n] == 1 + rest[n];
  }

  lemma OnceEach(a: multiset<AvlNode>, b: multiset<AvlNode>, s: set<AvlNode>)
    requires Exactly(a + b, s)
    ensures forall v :: v in a ==> a[v] <= 1
    ensures forall v :: v in b ==> b[v] <= 1
  {
    var all: multiset<AvlNode> := a + b;
    forall v: AvlNode ensures a[v] + b[v] <= 1 {
      assert all[v] == multiset(s)[v];
    }
  }

  /** A subtree's root, and the node above a hole, are not met again further on. */
  lemma RestApart(p: Path, t: Tree, x: Tree, s: set<AvlNode>)
    requires Exactly(FootP(p) + Foot(t), s) && Foot(x) <= Foot(t)
    ensures x.Bin? ==> x.n !in Foot(x.l) + Foot(x.r) && forall v :: v in Foot(x.l) + Foot(x.r) ==> v in Foot(x)
    ensures p.Step? ==>
              p.n !in Foot(p.sib) + FootP(p.above) && forall v :: v in Foot(p.sib) + FootP(p.above) ==> v in FootP(p)
  {
    hide Foot, FootP;
    OnceEach(FootP(p), Foot(t), s);
    if x.Bin? {
      FootRoot(x);
      assert Foot(x)[x.n] <= Foot(t)[x.n];
      SplitOnce(Foot(x), x.n, Foot(x.l) + Foot(x.r));
    }
    if p.Step? {
      FootStep(p);
      SplitOnce(FootP(p), p.n, Foot(p.sib) + FootP(p.above));
    }
  }

  lemma KidFoot(t: Tree, i: nat)
    requires t.Bin? && i <= 1
    ensures Foot(Kid(t, i)) <= Foot(t)
  {
  }

  // ----- the double rotation -----

  lemma DoubleApart(p: Path, t: Tree, i: nat, s: set<AvlNode>)
    requires i <= 1 && t.Bin? && Kid(t, i).Bin? && Kid(Kid(t, i), 1 - i).Bin? && Exactly(FootP(p) + Foot(t), s)
    ensures var c, b := Kid(t, i), Kid(t, 1 - i); var a, g := Kid(c, i), Kid(c, 1 - i);
            var x, y := Kid(g, i), Kid(g, 1 - i);
            && t.n in s && c.n in s && g.n in s && t.n != c.n && t.n != g.n && c.n != g.n
            && (x.Bin? ==> x.n in s && x.n != t.n && x.n != c.n && x.n != g.n && (y.Bin? ==> x.n != y.n))
            && (y.Bin? ==> y.n in s && y.n != t.n && y.n != c.n && y.n != g.n)
            && (p.Step? ==> p.n in s && p.n != t.n && p.n != c.n && p.n != g.n
                            && (x.Bin? ==> p.n != x.n) && (y.Bin? ==> p.n != y.n))
            && Groups(FootP(p), Foot(a) + Foot(b), Foot(x), Foot(y))
            && Outside(t.n, FootP(p), Foot(a) + Foot(b), Foot(x), Foot(y))
            && Outside(c.n, FootP(p), Foot(a) + Foot(b), Foot(x), Foot(y))
            && Outside(g.n, FootP(p), Foot(a) + Foot(b), Foot(x), Foot(y))
  {
    hide Foot, FootP;
    var c, b := Kid(t, i), Kid(t, 1 - i);
    var a, g := Kid(c, i), Kid(c, 1 - i);
    var x, y := Kid(g, i), Kid(g, 1 - i);
    KidsFoot(t, i);
    KidsFoot(c, i);
    KidsFoot(g, i);
    SevenApart(FootP(p), t.n, c.n, g.n, Foot(a), Foot(x), Foot(y), Foot(b), s);
    HasRoot(x);
    HasRoot(y);
    HasStep(p);
  }

  lemma KidsFoot(t: Tree, i: nat)
    requires t.Bin? && i <= 1
    ensures Foot(t) == multiset{t.n} + Foot(Kid(t, i)) + Foot(Kid(t, 1 - i))
  {
  }

  lemma SevenApart(p: multiset<AvlNode>, n: AvlNode, c: AvlNode, g: AvlNode, a: multiset<AvlNode>,
                   x: multiset<AvlNode>, y: multiset<AvlNode>, b: multiset<AvlNode>, s: set<AvlNode>)
    requires Exactly(p + (multiset{n} + (multiset{c} + a + (multiset{g} + x + y)) + b), s)
    ensures n != c && n != g && c != g && n in s && c in s && g in s && Groups(p, a + b, x, y)
    ensures Outside(n, p, a + b, x, y) && Outside(c, p, a + b, x, y) && Outside(g, p, a + b, x, y)
    ensures forall v :: v in x || v in y || v in p ==> v in s
  {
    var all: multiset<AvlNode> := p + (multiset{n} + (multiset{c} + a + (multiset{g} + x + y)) + b);
    forall v: AvlNode
      ensures p[v] + (if v == n then 1 else 0) + (if v == c then 1 else 0) + (if v == g then 1 else 0) + a[v] + x[v]
                + y[v] + b[v]
              == (if v in s then 1 else 0)
    {
      assert all[v] == multiset(s)[v];
    }
    assert p[n] + 1 + (if n == c then 1 else 0) + (if n == g then 1 else 0) + a[n] + x[n] + y[n] + b[n]
        == (if n in s then 1 else 0);
    assert p[c] + (if n == c then 1 else 0) + 1 + (if c == g then 1 else 0) + a[c] + x[c] + y[c] + b[c]
        == (if c in s then 1 else 0);
    assert p[g] + (if n == g then 1 else 0) + (if c == g then 1 else 0) + 1 + a[g] + x[g] + y[g] + b[g]
        == (if g in s then 1 else 0);
  }

  /** What the writes of a double rotation leave in the fields. */
  ghost predicate DoubleWrites(m: Mem, m': Mem, p: Path, t: Tree, root: AvlNode?, root': AvlNode?, left: nat)
    requires Leaning(t, left) && Kid(t, left).bal == Weight(1 - left) && Kid(Kid(t, left), 1 - left).Bin?
  {
    var right := 1 - left;
    var c := Kid(t, left);
    var g := Kid(c, right);
    var x, y := Kid(g, left), Kid(g, right);
    && t.n in m && t.n in m' && c.n in m && c.n in m' && g.n in m && g.n in m'
    && |m[t.n].child| == 2 && |m[c.n].child| == 2 && |m[g.n].child| == 2
    && m'[t.n] == Cell(m[t.n].child[left := Ptr(y)], g.n, right, if g.bal == Weight(left) then Weight(right) else 0)
    && m'[c.n] == Cell(m[c.n].child[right := Ptr(x)], g.n, left, if g.bal == Weight(right) then Weight(left) else 0)
    && m'[g.n] == Cell(m[g.n].child[left := c.n][right := t.n], m[t.n].parent, m[t.n].index, 0)
    && (x.Bin? ==> x.n in m && x.n in m' && m'[x.n] == m[x.n].(parent := c.n, index := right))
    && (y.Bin? ==> y.n in m && y.n in m' && m'[y.n] == m[y.n].(parent := t.n, index := left))
    && Relinked(m, m', p, root, root', g.n)
    && SameBut(m, m', {t.n, c.n, g.n, Ptr(x), Ptr(y), PathPtr(p)})
  }

  lemma DoubleFramed(m: Mem, m': Mem, p: Path, t: Tree, left: nat, s: set<AvlNode>)
    requires left <= 1 && t.Bin? && Kid(t, left).Bin? && Kid(Kid(t, left), 1 - left).Bin?
             && Exactly(FootP(p) + Foot(t), s)
    requires var c := Kid(t, left); var g := Kid(c, 1 - left);
             SameBut(m, m', {t.n, c.n, g.n, Ptr(Kid(g, left)), Ptr(Kid(g, 1 - left)), PathPtr(p)})
    ensures var c, b := Kid(t, left), Kid(t, 1 - left); var a, g := Kid(c, left), Kid(c, 1 - left);
            var x, y := Kid(g, left), Kid(g, 1 - left);
            && Agree(m, m', Foot(a) + Foot(b)) && (x.Bin? ==> Agree(m, m', Foot(x.l) + Foot(x.r)))
            && (y.Bin? ==> Agree(m, m', Foot(y.l) + Foot(y.r)))
            && (p.Step? ==> Agree(m, m', Foot(p.sib) + FootP(p.above)))
  {
    hide Foot, FootP, Exactly, Agree, SameBut;
    DoubleApart(p, t, left, s);
    var c, b := Kid(t, left), Kid(t, 1 - left);
    var a, g := Kid(c, left), Kid(c, 1 - left);
    var x, y := Kid(g, left), Kid(g, 1 - left);
    var changed := {t.n, c.n, g.n, Ptr(x), Ptr(y), PathPtr(p)};
    KidFoot(t, left);
    KidFoot(c, 1 - left);
    KidFoot(g, left);
    KidFoot(g, 1 - left);
    HasRoot(x);
    HasRoot(y);
    HasStep(p);
    RestApart(p, t, x, s);
    RestApart(p, t, y, s);
    Untouched(m, m', changed, Foot(a) + Foot(b));
    if x.Bin? {
      Untouched(m, m', changed, Foot(x.l) + Foot(x.r));
    }
    if y.Bin? {
      Untouched(m, m', changed, Foot(y.l) + Foot(y.r));
    }
    if p.Step? {
      Untouched(m, m', changed, Foot(p.sib) + FootP(p.above));
    }
  }

  lemma DoubleLinked(m: Mem, m': Mem, p: Path, t: Tree, root: AvlNode?, root': AvlNode?, left: nat, s: set<AvlNode>)
    requires Leaning(t, left) && Kid(t, left).bal == Weight(1 - left) && Placed(m, p, t, root, s)
    requires Kid(Kid(t, left), 1 - left).Bin? && DoubleWrites(m, m', p, t, root, root', left)
    ensures Placed(m', p, Rotated(t, left), root', s)
  {
    hide Linked, PathLinked, Foot, FootP, Balanced, H, Agree, Flat, Kid;
    var right := 1 - left;
    var c, b := Kid(t, left), Kid(t, right);
    var a, g := Kid(c, left), Kid(c, right);
    var x, y := Kid(g, left), Kid(g, right);
    KidLinked(m, t, PathPtr(p), PathSide(p), left);
    KidLinked(m, c, t.n, left, left);
    KidLinked(m, g, c.n, right, left);
    DoubleApart(p, t, left, s);
    DoubleFramed(m, m', p, t, left, s);
    AgreeSum(m, m', Foot(a), Foot(b));
    LinkedFramed(m, m', a, c.n, left);
    LinkedFramed(m, m', b, t.n, right);
    Reparented(m, m', x, g.n, left, c.n, right);
    Reparented(m, m', y, g.n, right, t.n, left);
    PathRelinked(m, m', p, root, root', t.n, g.n);
    var l, r := Mk(c.n, m'[c.n].balance, left, a, x), Mk(t.n, m'[t.n].balance, left, y, b);
    assert Rotated(t, left) == Mk(g.n, 0, left, l, r);
    hide Rotated, Mk, Relinked, SameBut;
    MkLinked(m', c.n, left, a, x, g.n, left);
    MkLinked(m', t.n, left, y, b, g.n, right);
    MkLinked(m', g.n, left, l, r, PathPtr(p), PathSide(p));
    RotatedFlat(t, left);
  }

  // ----- writes -----

  /** A subtree's root, if there is one, hung below another parent. */
  function Hung(m: Mem, c: AvlNode?, parent: AvlNode?, index: nat): Mem
    requires c != null ==> c in m
  {
    if c == null then m else m[c := m[c].(parent := parent, index := index)]
  }

  lemma HungKeys(m: Mem, c: AvlNode?, parent: AvlNode?, index: nat)
    requires c != null ==> c in m
    ensures Hung(m, c, parent, index).Keys == m.Keys
    ensures forall v :: v in m ==> Hung(m, c, parent, index)[v].child == m[v].child
  {
  }

  /** A parent, if there is one, made to lead to another child. */
  function Led(m: Mem, parent: AvlNode?, which: nat, c: AvlNode?): Mem
    requires parent != null ==> parent in m && which < |m[parent].child|
  {
    if parent == null then m else m[parent := m[parent].(child := m[parent].child[which := c])]
  }

  /** What the fields around a leaning node say. */
  lemma Around(m: Mem, p: Path, f: Tree, root: AvlNode?, left: nat, s: set<AvlNode>)
    requires Placed(m, p, f, root, s) && Leaning(f, left)
    ensures var n, c := f.n, Kid(f, left).n; var x := Kid(Kid(f, left), 1 - left);
            && n in m && c in m && n in s && c in s && n != c && |m[n].child| == 2 && |m[c].child| == 2
            && m[n].child[left] == c && m[c].child[1 - left] == Ptr(x) && m[c].balance == Kid(f, left).bal
            && m[n].parent == PathPtr(p) && (p.Step? ==> m[n].index == p.side)
            && (x.Bin? ==> x.n in m && x.n in s && x.n != n && x.n != c)
            && (p.Step? ==> p.n in m && p.n in s && p.n != n && p.n != c && |m[p.n].child| == 2 && p.side <= 1
                            && (x.Bin? ==> p.n != x.n))
    ensures -1 <= Kid(f, left).bal <= 1
  {
    hide Foot, FootP, H;
    KidLinked(m, f, PathPtr(p), PathSide(p), left);
    KidLinked(m, Kid(f, left), f.n, left, left);
    SingleApart(p, f, left, s);
  }

  /** The writes of a single rotation, in their order. */
  lemma SingleDone(m: Mem, m1: Mem, m2: Mem, m3: Mem, m4: Mem, p: Path, f: Tree, root: AvlNode?, root': AvlNode?,
                   left: nat, s: set<AvlNode>)
    requires Placed(m, p, f, root, s) && Leaning(f, left) && Kid(f, left).bal != Weight(1 - left)
    requires var n, c, x, cb := f.n, Kid(f, left).n, Ptr(Kid(Kid(f, left), 1 - left)),
               Kid(f, left).bal + Weight(1 - left);
             && n in m && left < |m[n].child| && c in m && (x != null ==> x in m)
             && m1 == m[n := m[n].(child := m[n].child[left := x])] && (x != null ==> x in m1)
             && m2 == Hung(m1, x, n, left)
             && c in m2 && n in m2 && 1 - left < |m2[c].child|
             && m3 == m2[c := m2[c].(child := m2[c].child[1 - left := n])]
                        [n := Cell(m2[n].child, c, 1 - left, -cb)]
                        [c := Cell(m2[c].child[1 - left := n], m[n].parent, m[n].index, cb)]
             && (m[n].parent != null ==> m[n].parent in m3 && m[n].index < |m3[m[n].parent].child|)
             && m4 == Led(m3, m[n].parent, m[n].index, c) && root' == if m[n].parent == null then c else root
    ensures SingleWrites(m, m4, p, f, root, root', left)
  {
    hide Foot, FootP, H, Balanced, Linked, PathLinked, Placed, Leaning;
    Around(m, p, f, root, left, s);
  }

  lemma AroundInner(m: Mem, p: Path, f: Tree, root: AvlNode?, left: nat, s: set<AvlNode>)
    requires Placed(m, p, f, root, s) && Leaning(f, left) && Kid(Kid(f, left), 1 - left).Bin?
    ensures var n, c := f.n, Kid(f, left).n; var g := Kid(Kid(f, left), 1 - left);
            var x, y := Kid(g, left), Kid(g, 1 - left);
            && g.n in m && g.n in s && g.n != n && g.n != c && |m[g.n].child| == 2
            && m[g.n].child[left] == Ptr(x) && m[g.n].child[1 - left] == Ptr(y)
            && m[g.n].balance == g.bal && (p.Step? ==> p.n != g.n)
            && (x.Bin? ==> x.n in m && x.n in s && x.n != n && x.n != c && x.n != g.n)
            && (y.Bin? ==> y.n in m && y.n in s && y.n != n && y.n != c && y.n != g.n)
            && (x.Bin? && y.Bin? ==> x.n != y.n)
            && (p.Step? ==> (x.Bin? ==> p.n != x.n) && (y.Bin? ==> p.n != y.n))
  {
    hide Foot, FootP, Balanced, H;
    KidLinked(m, f, PathPtr(p), PathSide(p), left);
    KidLinked(m, Kid(f, left), f.n, left, left);
    var g := Kid(Kid(f, left), 1 - left);
    KidLinked(m, g, Kid(f, left).n, 1 - left, left);
    RootThere(m, Kid(g, left), g.n, left);
    RootThere(m, Kid(g, 1 - left), g.n, 1 - left);
    DoubleApart(p, f, left, s);
  }

  lemma RootThere(m: Mem, t: Tree, parent: AvlNode?, index: nat)
    requires Linked(m, t, parent, index)
    ensures t.Bin? ==> t.n in m
  {
  }

  /** The first writes of a double rotation leave three nodes' fields as they were, but for one child each. */
  lemma HungOthers(m: Mem, m1: Mem, m2: Mem, m3: Mem, m4: Mem, n: AvlNode, c: AvlNode, g: AvlNode, y: AvlNode?,
                   x: AvlNode?, left: nat)
    requires left <= 1 && n != c && n != g && c != g && y != n && y != c && y != g && x != n && x != c && x != g
    requires n in m && c in m && g in m && |m[n].child| == 2 && |m[c].child| == 2
    requires m1 == m[n := m[n].(child := m[n].child[left := y])] && (y != null ==> y in m1)
             && m2 == Hung(m1, y, n, left)
    requires c in m2 && |m2[c].child| == 2 && m3 == m2[c := m2[c].(child := m2[c].child[1 - left := x])]
    requires (x != null ==> x in m3) && m4 == Hung(m3, x, c, 1 - left)
    ensures n in m4 && c in m4 && g in m4 && m4[g] == m[g]
    ensures m4[n] == m[n].(child := m[n].child[left := y]) && m4[c] == m[c].(child := m[c].child[1 - left := x])
    ensures forall v :: v in m && v != n && v != c && v != x && v != y ==> v in m4 && m4[v] == m[v]
    ensures forall v :: v in m ==> v in m4 && (v != n && v != c ==> m4[v].child == m[v].child)
    ensures y != null && y in m && x != y ==> m4[y] == m[y].(parent := n, index := left)
    ensures x != null && x in m && x != y ==> m4[x] == m[x].(parent := c, index := 1 - left)
  {
  }

  /** The writes of a double rotation, in their order. */
  lemma DoubleDone(m: Mem, m1: Mem, m2: Mem, m3: Mem, m4: Mem, m5: Mem, m6: Mem, p: Path, f: Tree, root: AvlNode?,
                   root': AvlNode?, left: nat, s: set<AvlNode>)
    requires Placed(m, p, f, root, s) && Leaning(f, left) && Kid(f, left).bal == Weight(1 - left)
    requires Kid(Kid(f, left), 1 - left).Bin?
    requires var n, c, g := f.n, Kid(f, left).n, Kid(Kid(f, left), 1 - left);
             var x, y := Ptr(Kid(g, left)), Ptr(Kid(g, 1 - left));
             && n in m && c in m && g.n in m && |m[n].child| == 2 && |m[c].child| == 2 && (x != null ==> x in m)
             && (y != null ==> y in m)
             && m1 == m[n := m[n].(child := m[n].child[left := y])] && (y != null ==> y in m1)
             && m2 == Hung(m1, y, n, left)
             && c in m2 && |m2[c].child| == 2 && m3 == m2[c := m2[c].(child := m2[c].child[1 - left := x])]
             && (x != null ==> x in m3) && m4 == Hung(m3, x, c, 1 - left)
             && n in m4 && c in m4 && g.n in m4 && |m4[g.n].child| == 2
             && m5 == m4[g.n := m4[g.n].(child := m4[g.n].child[left := c])]
                        [c := Cell(m4[c].child, g.n, left, if g.bal == Weight(1 - left) then Weight(left) else 0)]
                        [g.n := m4[g.n].(child := m4[g.n].child[left := c][1 - left := n])]
                        [n := Cell(m4[n].child, g.n, 1 - left, if g.bal == Weight(left) then Weight(1 - left) else 0)]
                        [g.n := Cell(m4[g.n].child[left := c][1 - left := n], m[n].parent, m[n].index, 0)]
             && (m[n].parent != null ==> m[n].parent in m5 && m[n].index < |m5[m[n].parent].child|)
             && m6 == Led(m5, m[n].parent, m[n].index, g.n) && root' == if m[n].parent == null then g.n else root
    ensures DoubleWrites(m, m6, p, f, root, root', left)
  {
    hide Foot, FootP, H, Balanced, Linked, PathLinked, Placed, Hung;
    Around(m, p, f, root, left, s);
    AroundInner(m, p, f, root, left, s);
    var g := Kid(Kid(f, left), 1 - left);
    HungOthers(m, m1, m2, m3, m4, f.n, Kid(f, left).n, g.n, Ptr(Kid(g, 1 - left)), Ptr(Kid(g, left)), left);
  }
}
