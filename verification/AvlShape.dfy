/**
  Pictures of an AVL tree of linked nodes.

  A `Tree` is the picture of a subtree: each node with its stored balance and its two subtrees.  A
  `Path` is the rest of the tree seen from a hole: the nodes above it, each with the side where the
  hole is and the subtree on the other side.  `Linked` and `PathLinked` say that the nodes' fields
  are as pictured; everything else is about pictures alone.
*/
module AvlShape {
  class AvlNode {
    var child: seq<AvlNode?>      // left and right
    var parent: AvlNode?
    var index: nat                // which child of its parent the node is; of no meaning at the root
    var balance: int              // right height less left height

    constructor ()
    {
      child, parent, index, balance := [null, null], null, 0, 0;
    }
  }

  /** The fields of one node, and of many. */
  datatype Cell = Cell(child: seq<AvlNode?>, parent: AvlNode?, index: nat, balance: int)
  type Mem = map<AvlNode, Cell>

  datatype Tree = Nil | Bin(n: AvlNode, bal: int, l: Tree, r: Tree)
  datatype Path = Top | Step(above: Path, n: AvlNode, bal: int, side: nat, sib: Tree)

  function Ptr(t: Tree): AvlNode? {
    if t.Nil? then null else t.n
  }

  /** A node with `a` on side `i` and `b` on the other side. */
  function Mk(n: AvlNode, bal: int, i: nat, a: Tree, b: Tree): (t: Tree)
    ensures t.Bin? && t.n == n && t.bal == bal
  {
    if i == 0 then Bin(n, bal, a, b) else Bin(n, bal, b, a)
  }

  function Kid(t: Tree, i: nat): Tree
    requires t.Bin?
  {
    if i == 0 then t.l else t.r
  }

  lemma MkKids(t: Tree, i: nat)
    requires t.Bin? && i <= 1
    ensures Mk(t.n, t.bal, i, Kid(t, i), Kid(t, 1 - i)) == t
    ensures Mk(t.n, t.bal, 1 - i, Kid(t, 1 - i), Kid(t, i)) == t
  {
  }

  function PathPtr(p: Path): AvlNode? {
    if p.Top? then null else p.n
  }

  function PathSide(p: Path): nat {
    if p.Top? then 0 else p.side
  }

  /** The whole tree, with `t` in the hole. */
  function Zip(p: Path, t: Tree): Tree
    decreases p
  {
    if p.Top? then t else Zip(p.above, Mk(p.n, p.bal, p.side, t, p.sib))
  }

  /** How many nodes lie above. */
  function Length(p: Path): nat {
    if p.Top? then 0 else Length(p.above) + 1
  }

  // ----- in-order contents -----

  function Flat(t: Tree): seq<AvlNode> {
    if t.Nil? then [] else Flat(t.l) + [t.n] + Flat(t.r)
  }

  function LeftOf(p: Path): seq<AvlNode> {
    if p.Top? then [] else if p.side == 0 then LeftOf(p.above) else LeftOf(p.above) + Flat(p.sib) + [p.n]
  }

  function RightOf(p: Path): seq<AvlNode> {
    if p.Top? then [] else if p.side == 0 then [p.n] + Flat(p.sib) + RightOf(p.above) else RightOf(p.above)
  }

  lemma Assoc<T>(a: seq<T>, b: seq<T>, c: seq<T>, d: seq<T>, e: seq<T>)
    ensures a + (b + c + d) + e == (a + b + c) + d + e == a + b + (c + d + e)
  {
  }

  lemma {:induction false} ZipFlat(p: Path, t: Tree)
    ensures Flat(Zip(p, t)) == LeftOf(p) + Flat(t) + RightOf(p)
    decreases p
  {
    if p.Step? {
      ZipFlat(p.above, Mk(p.n, p.bal, p.side, t, p.sib));
      if p.side == 0 {
        Assoc(LeftOf(p.above), Flat(t), [p.n], Flat(p.sib), RightOf(p.above));
      } else {
        Assoc(LeftOf(p.above), Flat(p.sib), [p.n], Flat(t), RightOf(p.above));
      }
    }
  }

  // ----- the nodes in a picture -----

  function Foot(t: Tree): multiset<AvlNode> {
    if t.Nil? then multiset{} else multiset{t.n} + Foot(t.l) + Foot(t.r)
  }

  function FootP(p: Path): multiset<AvlNode> {
    if p.Top? then multiset{} else multiset{p.n} + Foot(p.sib) + FootP(p.above)
  }

  /** Every node of `s` once. */
  ghost predicate Exactly(ms: multiset<AvlNode>, s: set<AvlNode>) {
    ms == multiset(s)
  }

  lemma {:induction false} ZipFoot(p: Path, t: Tree)
    ensures Foot(Zip(p, t)) == FootP(p) + Foot(t)
    decreases p
  {
    if p.Step? {
      ZipFoot(p.above, Mk(p.n, p.bal, p.side, t, p.sib));
    }
  }

  lemma MkFoot(n: AvlNode, bal: int, i: nat, a: Tree, b: Tree)
    ensures Foot(Mk(n, bal, i, a, b)) == multiset{n} + Foot(a) + Foot(b)
  {
  }

  lemma {:induction false} FlatFoot(t: Tree)
    ensures multiset(Flat(t)) == Foot(t) && |Flat(t)| == |Foot(t)|
  {
    if t.Bin? {
      FlatFoot(t.l);
      FlatFoot(t.r);
    }
  }

  /** A node of the tree has one place in the list. */
  lemma OnePlace(t: Tree, s: set<AvlNode>, i: nat, j: nat)
    requires Exactly(Foot(t), s) && i < |Flat(t)| && j < |Flat(t)| && Flat(t)[i] == Flat(t)[j]
    ensures i == j
  {
    FlatFoot(t);
    var l := Flat(t);
    if i < j {
      Twice(l, i, j);
    } else if j < i {
      Twice(l, j, i);
    }
  }

  lemma Twice(l: seq<AvlNode>, i: nat, j: nat)
    requires i < j < |l| && l[i] == l[j]
    ensures multiset(l)[l[i]] >= 2
  {
    assert l == l[..j] + [l[j]] + l[j+1..];
    assert l[i] in l[..j];
  }

  // ----- heights and balances -----

  function Max(a: nat, b: nat): nat {
    if a > b then a else b
  }

  function H(t: Tree): nat {
    if t.Nil? then 0 else 1 + Max(H(t.l), H(t.r))
  }

  /** Every stored balance is the height difference, and at most one. */
  predicate Balanced(t: Tree) {
    t.Bin? ==> t.bal == H(t.r) - H(t.l) && -1 <= t.bal <= 1 && Balanced(t.l) && Balanced(t.r)
  }

  /** -1 for the left side, 1 for the right: what a child adds to the balance. */
  function Weight(side: nat): int {
    if side == 0 then -1 else 1
  }

  /** Above a hole of height `h` every stored balance is right. */
  predicate PathBalanced(p: Path, h: nat) {
    p.Step? ==>
      && p.side <= 1 && p.bal == Weight(p.side) * (h - H(p.sib)) && -1 <= p.bal <= 1 && Balanced(p.sib)
      && PathBalanced(p.above, 1 + Max(h, H(p.sib)))
  }

  lemma MkBalanced(n: AvlNode, i: nat, a: Tree, b: Tree, bal: int)
    requires i <= 1 && Balanced(a) && Balanced(b) && bal == Weight(i) * (H(a) - H(b)) && -1 <= bal <= 1
    ensures Balanced(Mk(n, bal, i, a, b)) && H(Mk(n, bal, i, a, b)) == 1 + Max(H(a), H(b))
  {
  }

  lemma KidBalanced(t: Tree, i: nat)
    requires t.Bin? && i <= 1 && Balanced(t)
    ensures Balanced(Kid(t, i)) && Balanced(Kid(t, 1 - i)) && t.bal == Weight(i) * (H(Kid(t, i)) - H(Kid(t, 1 - i)))
    ensures H(t) == 1 + Max(H(Kid(t, i)), H(Kid(t, 1 - i))) && -1 <= t.bal <= 1
  {
  }

  lemma {:induction false} ZipBalanced(p: Path, t: Tree)
    requires PathBalanced(p, H(t)) && Balanced(t)
    ensures Balanced(Zip(p, t))
    decreases p
  {
    if p.Step? {
      MkBalanced(p.n, p.side, t, p.sib, p.bal);
      ZipBalanced(p.above, Mk(p.n, p.bal, p.side, t, p.sib));
    }
  }

  function Fib(n: nat): nat {
    if n <= 1 then n else Fib(n - 1) + Fib(n - 2)
  }

  lemma {:induction false} FibGrows(m: nat, n: nat)
    requires m <= n
    ensures Fib(m) <= Fib(n)
    decreases n
  {
    if m < n {
      FibGrows(m, n - 1);
    }
  }

  /** A balanced tree of height h has at least Fib(h + 2) - 1 nodes. */
  lemma {:induction false} SizeBound(t: Tree)
    requires Balanced(t)
    ensures |Flat(t)| + 1 >= Fib(H(t) + 2)
  {
    if t.Bin? {
      SizeBound(t.l);
      SizeBound(t.r);
      hide Fib;
      FibStep(H(t.l), H(t.r), |Flat(t.l)|, |Flat(t.r)|);
    } else {
      assert Fib(2) == 1;
    }
  }

  /** Two subtrees that are large enough, and nearly as high as each other, make a tree that is. */
  lemma FibStep(a: nat, b: nat, m: nat, n: nat)
    requires m + 1 >= Fib(a + 2) && n + 1 >= Fib(b + 2) && -1 <= a - b <= 1
    ensures m + 1 + n + 1 >= Fib(1 + Max(a, b) + 2)
  {
    FibGrows(Max(a, b) + 1, if a < b then a + 2 else b + 2);
  }

  // ----- fields -----

  ghost predicate Linked(m: Mem, t: Tree, parent: AvlNode?, index: nat) {
    t.Bin? ==>
      && t.n in m && m[t.n].parent == parent && (parent != null ==> m[t.n].index == index)
      && m[t.n].child == [Ptr(t.l), Ptr(t.r)] && m[t.n].balance == t.bal
      && Linked(m, t.l, t.n, 0) && Linked(m, t.r, t.n, 1)
  }

  /** The nodes above a hole filled by `c`. */
  ghost predicate PathLinked(m: Mem, p: Path, root: AvlNode?, c: AvlNode?) {
    if p.Top? then root == c
    else
      && p.side <= 1 && p.n in m && m[p.n].parent == PathPtr(p.above)
      && (p.above.Step? ==> m[p.n].index == p.above.side)
      && m[p.n].child == (if p.side == 0 then [c, Ptr(p.sib)] else [Ptr(p.sib), c]) && m[p.n].balance == p.bal
      && Linked(m, p.sib, p.n, 1 - p.side) && PathLinked(m, p.above, root, p.n)
  }

  ghost predicate Agree(m: Mem, m': Mem, s: multiset<AvlNode>) {
    forall n :: n in s && n in m ==> n in m' && m'[n] == m[n]
  }

  lemma AgreeSum(m: Mem, m': Mem, a: multiset<AvlNode>, b: multiset<AvlNode>)
    ensures Agree(m, m', a + b) <==> Agree(m, m', a) && Agree(m, m', b)
  {
    forall n | n in a ensures n in a + b {}
    forall n | n in b ensures n in a + b {}
  }

  lemma {:induction false} LinkedFramed(m: Mem, m': Mem, t: Tree, parent: AvlNode?, index: nat)
    requires Linked(m, t, parent, index) && Agree(m, m', Foot(t))
    ensures Linked(m', t, parent, index)
    decreases t
  {
    if t.Bin? {
      AgreeSum(m, m', multiset{t.n} + Foot(t.l), Foot(t.r));
      AgreeSum(m, m', multiset{t.n}, Foot(t.l));
      assert t.n in multiset{t.n};
      LinkedFramed(m, m', t.l, t.n, 0);
      LinkedFramed(m, m', t.r, t.n, 1);
    }
  }

  /** A subtree whose root was given another parent. */
  lemma Reparented(m: Mem, m': Mem, t: Tree, parent: AvlNode?, index: nat, parent': AvlNode?, index': nat)
    requires Linked(m, t, parent, index)
    requires t.Bin? ==> t.n in m' && m'[t.n] == m[t.n].(parent := parent', index := index')
    requires t.Bin? ==> Agree(m, m', Foot(t.l) + Foot(t.r))
    ensures Linked(m', t, parent', index')
  {
    if t.Bin? {
      AgreeSum(m, m', Foot(t.l), Foot(t.r));
      LinkedFramed(m, m', t.l, t.n, 0);
      LinkedFramed(m, m', t.r, t.n, 1);
    }
  }

  lemma {:induction false} PathFramed(m: Mem, m': Mem, p: Path, root: AvlNode?, c: AvlNode?)
    requires PathLinked(m, p, root, c) && Agree(m, m', FootP(p))
    ensures PathLinked(m', p, root, c)
    decreases p
  {
    if p.Step? {
      AgreeSum(m, m', multiset{p.n} + Foot(p.sib), FootP(p.above));
      AgreeSum(m, m', multiset{p.n}, Foot(p.sib));
      assert p.n in multiset{p.n};
      LinkedFramed(m, m', p.sib, p.n, 1 - p.side);
      PathFramed(m, m', p.above, root, p.n);
    }
  }

  lemma KidLinked(m: Mem, t: Tree, parent: AvlNode?, index: nat, i: nat)
    requires t.Bin? && i <= 1 && Linked(m, t, parent, index)
    ensures t.n in m && |m[t.n].child| == 2 && m[t.n].child[i] == Ptr(Kid(t, i))
            && m[t.n].child[1 - i] == Ptr(Kid(t, 1 - i))
    ensures Linked(m, Kid(t, i), t.n, i) && Linked(m, Kid(t, 1 - i), t.n, 1 - i)
    ensures m[t.n].balance == t.bal && m[t.n].parent == parent && (parent != null ==> m[t.n].index == index)
  {
  }

  lemma MkLinked(m: Mem, n: AvlNode, i: nat, a: Tree, b: Tree, parent: AvlNode?, index: nat)
    requires i <= 1 && Linked(m, a, n, i) && Linked(m, b, n, 1 - i)
    requires n in m && |m[n].child| == 2 && m[n].child[i] == Ptr(a) && m[n].child[1 - i] == Ptr(b)
    requires m[n].parent == parent && (parent != null ==> m[n].index == index)
    ensures Linked(m, Mk(n, m[n].balance, i, a, b), parent, index)
  {
    assert m[n].child == if i == 0 then [Ptr(a), Ptr(b)] else [Ptr(b), Ptr(a)];
  }

  /** One step down: the hole moves to side `i` of the subtree that fills it. */
  function Down(p: Path, t: Tree, i: nat): Path
    requires t.Bin? && i <= 1
  {
    Step(p, t.n, t.bal, i, Kid(t, 1 - i))
  }

  lemma DownLinked(m: Mem, p: Path, t: Tree, root: AvlNode?, i: nat)
    requires t.Bin? && i <= 1 && Linked(m, t, PathPtr(p), PathSide(p)) && PathLinked(m, p, root, t.n)
    ensures PathLinked(m, Down(p, t, i), root, Ptr(Kid(t, i))) && Linked(m, Kid(t, i), t.n, i)
    ensures Zip(Down(p, t, i), Kid(t, i)) == Zip(p, t)
  {
    MkKids(t, i);
    KidLinked(m, t, PathPtr(p), PathSide(p), i);
  }

  lemma DownFoot(p: Path, t: Tree, i: nat)
    requires t.Bin? && i <= 1
    ensures FootP(Down(p, t, i)) + Foot(Kid(t, i)) == FootP(p) + Foot(t)
  {
    SumSwap(FootP(p), multiset{t.n}, Foot(Kid(t, i)), Foot(Kid(t, 1 - i)));
  }

  lemma SumSwap(p: multiset<AvlNode>, n: multiset<AvlNode>, a: multiset<AvlNode>, b: multiset<AvlNode>)
    ensures n + b + p + a == p + (n + a + b) == p + (n + b + a)
  {
  }

  lemma DownBalanced(p: Path, t: Tree, i: nat)
    requires t.Bin? && i <= 1 && Balanced(t) && PathBalanced(p, H(t))
    ensures PathBalanced(Down(p, t, i), H(Kid(t, i))) && Balanced(Kid(t, i))
  {
    KidBalanced(t, i);
  }

  /** One step up: the node above the hole joins the subtree. */
  function Joined(p: Path, t: Tree): Tree
    requires p.Step?
  {
    Mk(p.n, p.bal, p.side, t, p.sib)
  }

  lemma UpLinked(m: Mem, p: Path, t: Tree, root: AvlNode?)
    requires p.Step? && Linked(m, t, p.n, p.side) && PathLinked(m, p, root, Ptr(t))
    ensures Linked(m, Joined(p, t), PathPtr(p.above), PathSide(p.above)) && PathLinked(m, p.above, root, p.n)
  {
    MkLinked(m, p.n, p.side, t, p.sib, PathPtr(p.above), PathSide(p.above));
  }

  lemma UpFoot(p: Path, t: Tree)
    requires p.Step?
    ensures FootP(p.above) + Foot(Joined(p, t)) == FootP(p) + Foot(t)
  {
    MkFoot(p.n, p.bal, p.side, t, p.sib);
    SumSwap(FootP(p.above), multiset{p.n}, Foot(t), Foot(p.sib));
  }

  lemma {:induction false} ZipLinked(m: Mem, p: Path, t: Tree, root: AvlNode?)
    requires Linked(m, t, PathPtr(p), PathSide(p)) && PathLinked(m, p, root, Ptr(t))
    ensures Linked(m, Zip(p, t), null, 0) && root == Ptr(Zip(p, t))
    decreases p
  {
    if p.Step? {
      UpLinked(m, p, t, root);
      ZipLinked(m, p.above, Joined(p, t), root);
    }
  }

  /** The nodes of a subtree, of its surroundings, and of the rest of the world are all different. */
  lemma Apart(above: multiset<AvlNode>, n: AvlNode, a: multiset<AvlNode>, b: multiset<AvlNode>, s: set<AvlNode>)
    requires Exactly(above + (multiset{n} + a + b), s)
    ensures n in s && n !in above && n !in a && n !in b
    ensures forall v :: v in above ==> v in s && v !in a && v !in b
    ensures forall v :: v in a ==> v in s && v !in above && v !in b
    ensures forall v :: v in b ==> v in s && v !in above && v !in a
  {
    var all: multiset<AvlNode> := above + (multiset{n} + a + b);
    forall v: AvlNode ensures all[v] <= 1 && (all[v] == 1 ==> v in s) {
      assert all[v] == multiset(s)[v];
    }
    assert all[n] == above[n] + (1 + a[n] + b[n]);
    forall v: AvlNode ensures all[v] >= above[v] + a[v] + b[v] {
      assert all[v] == above[v] + (multiset{n}[v] + a[v] + b[v]);
    }
  }
}
