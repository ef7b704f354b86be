/**
  The AVL tree: nodes linked by child and parent pointers, rebalanced on insertion and removal by one
  mirrored rotation routine.
*/
module Avl {
  import opened AvlShape
  import opened AvlRotate
  import opened AvlEdit

  /** Where a destruction in progress left off: the parent of the last node handed out, and on which
      side of it that node was. */
  datatype Cookie = Start | Last(parent: AvlNode, child: nat) | Done

  class AvlTree {
    var root: AvlNode?
    var numnodes: nat

    /** The nodes of the tree, and its picture. */
    ghost var nodes: set<AvlNode>
    ghost var t: Tree

    /** How often the rotation routine has been called. */
    ghost var rotations: nat

    /** The fields of the tree's nodes. */
    ghost function Fields(): Mem
      reads `nodes, nodes
    {
      map n | n in nodes :: Cell(n.child, n.parent, n.index, n.balance)
    }

    ghost predicate Valid()
      reads this, nodes
    {
      && Placed(Fields(), Top, t, root, nodes) && Balanced(t) && numnodes == |Flat(t)|
    }

    // ----- writes -----

    lemma FieldsOf(n: AvlNode)
      requires n in Fields() || n in nodes
      ensures n in nodes && n in Fields() && Fields()[n] == Cell(n.child, n.parent, n.index, n.balance)
    {
    }

    method GetChild(n: AvlNode, i: nat) returns (c: AvlNode?)
      requires n in Fields() && i < |Fields()[n].child|
      ensures c == Fields()[n].child[i]
    {
      FieldsOf(n);
      c := n.child[i];
    }

    method SetChild(n: AvlNode, i: nat, c: AvlNode?)
      requires n in Fields() && i < |Fields()[n].child|
      modifies n`child
      ensures Fields() == old(Fields())[n := old(Fields())[n].(child := old(Fields())[n].child[i := c])]
    {
      n.child := n.child[i := c];
    }

    method SetBalance(n: AvlNode, balance: int)
      requires n in Fields()
      modifies n`balance
      ensures Fields() == old(Fields())[n := old(Fields())[n].(balance := balance)]
    {
      n.balance := balance;
    }

    /** A subtree's root, if there is one, gets another parent. */
    method SetParent(c: AvlNode?, parent: AvlNode?, index: nat)
      requires c != null ==> c in Fields()
      modifies c
      ensures Fields() == Hung(old(Fields()), c, parent, index)
    {
      if c != null {
        c.parent := parent;
        c.index := index;
      }
    }

    method Place(n: AvlNode, parent: AvlNode?, index: nat, balance: int)
      requires n in Fields()
      modifies n
      ensures Fields() == old(Fields())[n := Cell(old(Fields())[n].child, parent, index, balance)]
    {
      n.balance := balance;
      n.index := index;
      n.parent := parent;
    }

    /** Where `parent`, or the tree's root field, led to a subtree, it now leads to `c`. */
    method Replace(parent: AvlNode?, which: nat, c: AvlNode?)
      requires parent != null ==> parent in Fields() && which < |Fields()[parent].child|
      modifies `root, parent
      ensures root == if parent == null then c else old(root)
      ensures Fields() == Led(old(Fields()), parent, which, c)
    {
      if parent != null {
        SetChild(parent, which, c);
      } else {
        root := c;
      }
    }

    // ----- rotation -----

    /** Restores the balance of the subtree at `node`, whose new balance is -2 or 2.  Answers whether
        the subtree has become lower. */
    method Rotation(node: AvlNode, balance: int, ghost p: Path, ghost f: Tree) returns (shorter: bool)
      requires balance == -2 || balance == 2
      requires Placed(Fields(), p, f, root, nodes) && f.Bin? && f.n == node && Leaning(f, if balance < 0 then 0 else 1)
      modifies `root, `rotations, nodes
      ensures Placed(Fields(), p, Rotated(f, if balance < 0 then 0 else 1), root, nodes)
      ensures rotations == old(rotations) + 1
      ensures shorter <==> Kid(f, if balance < 0 then 0 else 1).bal != 0
    {
      hide Linked, PathLinked, Foot, FootP, Balanced, H, Rotated, Exactly, Fields, Placed, Leaning;
      var left: nat := if balance < 0 then 0 else 1;
      var right: nat := 1 - left;
      var leftHeavy := if balance < 0 then -1 else 1;
      var rightHeavy := -leftHeavy;
      rotations := rotations + 1;
      Around(Fields(), p, f, root, left, nodes);
      FieldsOf(node);
      var parent := node.parent;
      var child := node.child[left];
      FieldsOf(child);
      var whichChild := node.index;
      var childBal := child.balance;
      if childBal != rightHeavy {
        childBal := childBal + rightHeavy;
        SingleRotation(node, child, parent, whichChild, left, childBal, p, f);
        return childBal == 0;
      }
      InnerThere(f, left);
      DoubleRotation(node, child, parent, whichChild, left, p, f);
      return true;
    }

    /** Case 1: the child does not lean inwards. */
    method SingleRotation(node: AvlNode, child: AvlNode, parent: AvlNode?, whichChild: nat, left: nat, childBal: int,
                          ghost p: Path, ghost f: Tree)
      requires left <= 1 && Placed(Fields(), p, f, root, nodes) && Leaning(f, left)
               && Kid(f, left).bal != Weight(1 - left)
      requires node == f.n && child == Kid(f, left).n && node in Fields()
      requires parent == Fields()[node].parent && whichChild == Fields()[node].index
      requires childBal == Kid(f, left).bal + Weight(1 - left)
      modifies `root, nodes
      ensures Placed(Fields(), p, Rotated(f, left), root, nodes)
    {
      hide Linked, PathLinked, Foot, FootP, Balanced, H, Rotated, Leaning, Exactly, Placed, Fields, SingleWrites,
        Hung, Led;
      ghost var m, r0 := Fields(), root;
      Around(m, p, f, root, left, nodes);
      var right: nat := 1 - left;
      var cright := GetChild(child, right);
      SetChild(node, left, cright);
      ghost var m1 := Fields();
      HungKeys(m1, cright, node, left);
      SetParent(cright, node, left);
      ghost var m2 := Fields();
      SetChild(child, right, node);
      Place(node, child, right, -childBal);
      Place(child, parent, whichChild, childBal);
      ghost var m3 := Fields();
      Replace(parent, whichChild, child);
      SingleDone(m, m1, m2, m3, Fields(), p, f, r0, root, left, nodes);
      SingleLinked(m, Fields(), p, f, r0, root, left, nodes);
    }

    /** Case 2: the child leans inwards, and its inner child takes the place of both. */
    method DoubleRotation(node: AvlNode, child: AvlNode, parent: AvlNode?, whichChild: nat, left: nat, ghost p: Path,
                          ghost f: Tree)
      requires left <= 1 && Placed(Fields(), p, f, root, nodes) && Leaning(f, left)
               && Kid(f, left).bal == Weight(1 - left)
      requires Kid(Kid(f, left), 1 - left).Bin?
      requires node == f.n && child == Kid(f, left).n && node in Fields()
      requires parent == Fields()[node].parent && whichChild == Fields()[node].index
      modifies `root, nodes
      ensures Placed(Fields(), p, Rotated(f, left), root, nodes)
    {
      hide Linked, PathLinked, Foot, FootP, Balanced, H, Rotated, Leaning, Exactly, Placed, Fields, DoubleWrites,
        Hung, Led;
      ghost var m, r0 := Fields(), root;
      Around(m, p, f, root, left, nodes);
      AroundInner(m, p, f, root, left, nodes);
      var right: nat := 1 - left;
      var gchild := GetChild(child, right);
      var gleft := GetChild(gchild, left);
      var gright := GetChild(gchild, right);
      SetChild(node, left, gright);
      ghost var m1 := Fields();
      HungKeys(m1, gright, node, left);
      SetParent(gright, node, left);
      ghost var m2 := Fields();
      SetChild(child, right, gleft);
      ghost var m3 := Fields();
      HungKeys(m3, gleft, child, right);
      SetParent(gleft, child, right);
      ghost var m4 := Fields();
      HungOthers(m, m1, m2, m3, m4, node, child, gchild, gright, gleft, left);
      PlaceAbove(gchild, child, node, parent, whichChild, left);
      ghost var m5 := Fields();
      Replace(parent, whichChild, gchild);
      DoubleDone(m, m1, m2, m3, m4, m5, Fields(), p, f, r0, root, left, nodes);
      DoubleLinked(m, Fields(), p, f, r0, root, left, nodes);
    }

    /** The inner child becomes the parent of the other two. */
    method PlaceAbove(gchild: AvlNode, child: AvlNode, node: AvlNode, parent: AvlNode?, whichChild: nat, left: nat)
      requires left <= 1 && gchild in Fields() && child in Fields() && node in Fields()
      requires gchild != child && gchild != node && child != node && |Fields()[gchild].child| == 2
      modifies nodes
      ensures nodes == old(nodes) && root == old(root)
      ensures var m := old(Fields()); var right := 1 - left;
              Fields() == m[gchild := m[gchild].(child := m[gchild].child[left := child])]
                           [child := Cell(m[child].child, gchild, left,
                             if m[gchild].balance == Weight(right) then Weight(left) else 0)]
                           [gchild := m[gchild].(child := m[gchild].child[left := child][right := node])]
                           [node := Cell(m[node].child, gchild, right,
                             if m[gchild].balance == Weight(left) then Weight(right) else 0)]
                           [gchild := Cell(m[gchild].child[left := child][right := node], parent, whichChild, 0)]
    {
      hide Fields;
      var right: nat := 1 - left;
      var leftHeavy, rightHeavy := if left == 0 then -1 else 1, if left == 0 then 1 else -1;
      FieldsOf(gchild);
      FieldsOf(child);
      FieldsOf(node);
      var balance := gchild.balance;
      SetChild(gchild, left, child);
      Place(child, gchild, left, if balance == rightHeavy then leftHeavy else 0);
      SetChild(gchild, right, node);
      Place(node, gchild, right, if balance == leftHeavy then rightHeavy else 0);
      Place(gchild, parent, whichChild, 0);
    }

    // ----- search and walk -----

    /** The place of a subtree in the tree, as the nodes' fields have it. */
    lemma Here(p: Path, f: Tree)
      requires Valid() && Sides(p) && Zip(p, f) == t
      ensures Placed(Fields(), p, f, root, nodes) && Balanced(f) && PathBalanced(p, H(f))
      ensures Flat(t) == LeftOf(p) + Flat(f) + RightOf(p)
      ensures f.Bin? ==>
                && f.n in nodes && f.n.child == [Ptr(f.l), Ptr(f.r)] && f.n.balance == f.bal
                && f.n.parent == PathPtr(p) && (p.Step? ==> f.n.index == p.side)
      ensures p.Top? ==> root == Ptr(f)
    {
      hide Linked, Foot, FootP, Balanced, PathBalanced;
      Unzipped(Fields(), t, root, nodes, p, f);
      if f.Bin? {
        RootFields(Fields(), p, f, root, nodes);
        FieldsOf(f.n);
      }
    }

    /** Searches for a value; `cmp` compares it with a node's.  If it is absent, `parent` and `child`
        tell where it belongs. */
    method Find(cmp: AvlNode -> int)
      returns (found: AvlNode?, parent: AvlNode?, child: nat, ghost p: Path, ghost steps: nat)
      requires Valid() && Descending(cmp, Flat(t))
      ensures found != null ==> found in nodes && cmp(found) == 0
      ensures found == null ==>
                && Sides(p) && Zip(p, Nil) == t && parent == PathPtr(p) && child <= 1 && (p.Step? ==> child == p.side)
                && Larger(cmp, LeftOf(p)) && Smaller(cmp, RightOf(p))
      ensures found != null ==> Sides(p) && exists f :: Zip(p, f) == t && Ptr(f) == found
      ensures steps == Length(p) + (if found == null then 0 else 1)
      ensures steps <= H(t) && Fib(steps + 2) <= numnodes + 1
    {
      hide Placed, Balanced, PathBalanced, Larger, Smaller, Descending, Fields, Flat, LeftOf, RightOf, Fib;
      var node := root;
      parent, child := null, 0;
      ghost var f := t;
      p, steps := Top, 0;
      EdgesEmpty(cmp);
      Here(p, f);
      while node != null
        invariant Sides(p) && Zip(p, f) == t && node == Ptr(f) && parent == PathPtr(p) && child <= 1
                  && (p.Step? ==> child == p.side)
        invariant steps == Length(p)
        invariant Larger(cmp, LeftOf(p)) && Smaller(cmp, RightOf(p)) && steps + H(f) <= H(t)
        decreases f
      {
        Here(p, f);
        parent := node;
        var diff := cmp(node);
        steps := steps + 1;
        if diff == 0 {
          Shallow(steps);
          return node, parent, child, p, steps;
        }
        child := if diff < 0 then 0 else 1;
        FindStep(cmp, p, f);
        MkKids(f, child);
        p, f := Down(p, f, child), Kid(f, child);
        node := node.child[child];
      }
      Shallow(steps);
      found := null;
    }

    /** No path is longer than the number of nodes allows. */
    lemma Shallow(n: nat)
      requires Valid() && n <= H(t)
      ensures Fib(n + 2) <= numnodes + 1
    {
      hide Fib, Placed, Fields;
      SizeBound(t);
      FibGrows(n + 2, H(t) + 2);
    }

    lemma EdgesEmpty(cmp: AvlNode -> int)
      ensures Larger(cmp, LeftOf(Top)) && Smaller(cmp, RightOf(Top))
    {
    }

    /** The first node of the list, or (from the right) the last. */
    method End(side: nat) returns (prev: AvlNode?)
      requires Valid() && side <= 1
      ensures |Flat(t)| == 0 ==> prev == null
      ensures |Flat(t)| > 0 ==> prev == if side == 0 then Flat(t)[0] else Flat(t)[|Flat(t)| - 1]
    {
      hide Placed, Balanced, PathBalanced, Fields;
      prev := null;
      var node := root;
      ghost var p, f := Top, t;
      Here(p, f);
      while node != null
        invariant Sides(p) && AllSide(p, side) && Zip(p, f) == t && node == Ptr(f)
        invariant prev == PathPtr(p)
        decreases f
      {
        Here(p, f);
        prev := node;
        MkKids(f, side);
        p, f := Down(p, f, side), Kid(f, side);
        node := node.child[side];
      }
      Here(p, f);
      EdgeFlat(p, side);
    }

    lemma FindPlace(n: AvlNode) returns (p: Path, f: Tree)
      requires Valid() && n in nodes
      ensures f.Bin? && f.n == n && Zip(p, f) == t && Sides(p)
      ensures forall i :: 0 <= i < |Flat(t)| && Flat(t)[i] == n ==> i == |LeftOf(p)| + |Flat(f.l)|
    {
      hide Linked, Balanced, Fields;
      assert n in multiset(nodes);
      assert FootP(Top) + Foot(t) == Foot(t);
      p, f := Found(Top, t, n);
      PlaceOf(Fields(), t, root, nodes, p, f);
    }

    /** Steps to the neighbour before (0) or after (1) a node, by its links alone. */
    method Walk(oldnode: AvlNode, left: nat) returns (r: AvlNode?)
      requires Valid() && oldnode in nodes && left <= 1
      ensures forall i :: 0 <= i < |Flat(t)| && Flat(t)[i] == oldnode ==> r == Neighbour(Flat(t), i, left)
      ensures r != null ==> r in nodes
    {
      hide Placed, Balanced, PathBalanced, Fields, Flat, LeftOf, RightOf, Zip, EdgeOf, Neighbour, Valid;
      var right: nat := 1 - left;
      var node: AvlNode? := oldnode;
      ghost var p, f := FindPlace(oldnode);
      ghost var i := |LeftOf(p)| + |Flat(f.l)|;
      Here(p, f);
      MkKids(f, left);
      if node.child[left] != null {
        node := node.child[left];
        ghost var seg, g := Top, Kid(f, left);
        ZipDown(p, f, left);
        Here(Down(p, f, left), g);
        while node.child[right] != null
          invariant Sides(seg) && AllSide(seg, right) && Zip(Append(seg, Down(p, f, left)), g) == t && node == Ptr(g)
                    && g.Bin?
          invariant Sides(Append(seg, Down(p, f, left)))
          invariant node in nodes && node.child == [Ptr(g.l), Ptr(g.r)]
          decreases g
        {
          ghost var q := Append(seg, Down(p, f, left));
          ZipDown(q, g, right);
          seg, g := Step(seg, g.n, g.bal, right, Kid(g, left)), Kid(g, right);
          node := node.child[right];
          Here(Append(seg, Down(p, f, left)), g);
        }
        ChainEnd(t, p, f, left, seg, g);
      } else {
        ghost var q, g := p, f;
        EdgeStart(t, p, f, left);
        while true
          invariant Sides(q) && Zip(q, g) == t && node == Ptr(g) && g.Bin? && EdgeOf(t, q, i, left)
          decreases q
        {
          Here(q, g);
          EdgeUp(t, q, g, i, left);
          var wasChild := node.index;
          node := node.parent;
          if node == null {
            return null;
          }
          if wasChild == right {
            PathNode(q, g);
            break;
          }
          q, g := q.above, Joined(q, g);
        }
      }
      return node;
    }

    lemma ZipDown(p: Path, f: Tree, i: nat)
      requires f.Bin? && i <= 1
      ensures Zip(Down(p, f, i), Kid(f, i)) == Zip(p, f) && (Sides(p) ==> Sides(Down(p, f, i)))
    {
      MkKids(f, i);
    }

    lemma PathNode(q: Path, g: Tree)
      requires Valid() && Sides(q) && Zip(q, g) == t && q.Step?
      ensures q.n in nodes
    {
      hide Linked, Foot, Balanced, PathBalanced;
      Here(q, g);
      HasStep(q);
      assert q.n in FootP(q) + Foot(g);
      assert q.n in multiset(nodes);
    }

    /** The node next to an insertion point. */
    method Nearest(parent: AvlNode?, child: nat, direction: nat, ghost p: Path) returns (r: AvlNode?)
      requires Valid() && Sides(p) && Zip(p, Nil) == t && parent == PathPtr(p) && (p.Step? ==> child == p.side)
               && direction <= 1
      ensures direction == 0 ==> r == if LeftOf(p) == [] then null else LeftOf(p)[|LeftOf(p)| - 1]
      ensures direction == 1 ==> r == if RightOf(p) == [] then null else RightOf(p)[0]
    {
      hide Placed, Balanced, PathBalanced, Fields, Flat, Zip;
      if parent == null {
        return null;
      }
      GapBeside(p);
      PathNode(p, Nil);
      if child != direction {
        return parent;
      }
      ZipStep(p);
      FlatGap(p);
      r := Walk(parent, direction);
    }

    lemma ZipStep(p: Path)
      requires p.Step? && Sides(p) && Zip(p, Nil) == t
      ensures Zip(p.above, Joined(p, Nil)) == t && Sides(p.above)
    {
    }

    /** What lies beside a hole next to the node above it. */
    lemma GapBeside(p: Path)
      requires p.Step? && Sides(p)
      ensures p.side == 1 ==> LeftOf(p) != [] && LeftOf(p)[|LeftOf(p)| - 1] == p.n
      ensures p.side == 0 ==> RightOf(p) != [] && RightOf(p)[0] == p.n
    {
    }

    /** Where the node above a hole stands in the list, and its neighbour across the hole. */
    lemma FlatGap(p: Path)
      requires Valid() && p.Step? && Sides(p) && Zip(p, Nil) == t
      ensures exists i :: 0 <= i < |Flat(t)| && Flat(t)[i] == p.n
                && Neighbour(Flat(t), i, p.side) ==
                     if p.side == 0 then (if LeftOf(p) == [] then null else LeftOf(p)[|LeftOf(p)| - 1])
                     else if RightOf(p) == [] then null else RightOf(p)[0]
    {
      hide Placed, Balanced;
      ZipFlat(p, Nil);
      assert Flat(Nil) == [];
      GapBeside(p);
      var i := if p.side == 0 then |LeftOf(p)| else |LeftOf(p)| - 1;
      assert Flat(t) == LeftOf(p) + RightOf(p);
      assert Flat(t)[i] == p.n;
      assert p.side == 0 && LeftOf(p) != [] ==> Flat(t)[i - 1] == LeftOf(p)[|LeftOf(p)| - 1];
      assert p.side == 1 && RightOf(p) != [] ==> Flat(t)[i + 1] == RightOf(p)[0];
    }

    // ----- insertion -----

    /** Puts a node into the hole that `parent` and `whichChild` name, and restores balance on the way
        up: at most one rotation is needed. */
    method Insert(node: AvlNode, parent: AvlNode?, whichChild: nat, ghost p: Path)
      requires Valid() && node !in nodes && Sides(p) && Zip(p, Nil) == t
      requires parent == PathPtr(p) && (p.Step? ==> whichChild == p.side)
      modifies this, nodes, node
      ensures Valid() && nodes == old(nodes) + {node} && Flat(t) == LeftOf(p) + [node] + RightOf(p)
      ensures rotations <= old(rotations) + 1
    {
      hide Placed, Balanced, PathBalanced, Fields, Flat, LeftOf, RightOf, Zip, H, FootP;
      ghost var target := LeftOf(p) + [node] + RightOf(p);
      LeafHeight(node);
      Here(p, Nil);
      numnodes := numnodes + 1;
      AddLeaf(node, parent, whichChild, p);
      ghost var q, f := p, Bin(node, 0, Nil, Nil);
      var up, which := parent, whichChild;
      while up != null
        invariant Placed(Fields(), q, f, root, nodes) && nodes == old(nodes) + {node}
        invariant Balanced(f) && H(f) >= 1 && PathBalanced(q, H(f) - 1) && (H(f) >= 2 ==> f.Bin? && f.bal != 0)
        invariant LeftOf(q) + Flat(f) + RightOf(q) == target
        invariant up == PathPtr(q) && (q.Step? ==> which == q.side) && numnodes == old(numnodes) + 1
        invariant rotations == old(rotations)
        decreases q
      {
        var done;
        done, up, which, f := Raised(up, which, q, f);
        q := q.above;
        if done {
          Finish(q, f);
          return;
        }
      }
      TopBalanced(H(f));
      Finish(Top, f);
    }

    /** One step up after a subtree has become higher: `node` takes note and, if it leans too far now, is
        rotated.  `done` when its own subtree is as high as before. */
    method Raised(node: AvlNode, whichChild: nat, ghost p: Path, ghost f: Tree)
      returns (done: bool, parent: AvlNode?, which: nat, ghost f': Tree)
      requires Placed(Fields(), p, f, root, nodes) && Balanced(f) && H(f) >= 1 && PathBalanced(p, H(f) - 1)
      requires (H(f) >= 2 ==> f.Bin? && f.bal != 0) && p.Step? && node == p.n && whichChild == p.side
      modifies `root, `rotations, nodes
      ensures Placed(Fields(), p.above, f', root, nodes) && Balanced(f')
      ensures rotations == old(rotations) || (done && rotations == old(rotations) + 1)
      ensures !done ==> H(f') >= 2 && f'.Bin? && f'.bal != 0
      ensures PathBalanced(p.above, if done then H(f') else H(f') - 1)
      ensures LeftOf(p.above) + Flat(f') + RightOf(p.above) == LeftOf(p) + Flat(f) + RightOf(p)
      ensures parent == PathPtr(p.above) && (p.above.Step? ==> which == p.above.side)
    {
      hide Placed, Balanced, PathBalanced, Fields, Flat, LeftOf, RightOf, H, Rotated, Foot, FootP, Exactly;
      StepFields(Fields(), p, f, root, nodes);
      FieldsOf(node);
      Grown(p, f, H(f) - 1);
      var oldBalance := node.balance;
      var newBalance := oldBalance + (if whichChild == 0 then -1 else 1);
      RejoinFlat(p, newBalance, f);
      parent, which := node.parent, node.index;
      if newBalance == 0 || oldBalance == 0 {
        Rebalanced(Fields(), p, f, root, newBalance, nodes);
        SetBalance(node, newBalance);
        f' := Rejoined(p, newBalance, f);
        done := newBalance == 0;
      } else {
        RejoinFlat(p, p.bal, f);
        JoinedPlaced(Fields(), p, f, root, nodes);
        MkKid(p.n, p.bal, p.side, f, p.sib);
        RotatedBalanced(Joined(p, f), p.side);
        RotatedFlat(Joined(p, f), p.side);
        var _ := Rotation(node, newBalance, p.above, Joined(p, f));
        f' := Rotated(Joined(p, f), p.side);
        done := true;
      }
    }

    /** Hangs a new leaf into the hole. */
    method AddLeaf(node: AvlNode, parent: AvlNode?, whichChild: nat, ghost p: Path)
      requires Placed(Fields(), Top, t, root, nodes) && Balanced(t) && node !in nodes && Sides(p) && Zip(p, Nil) == t
      requires parent == PathPtr(p) && (p.Step? ==> whichChild == p.side)
      modifies `root, `nodes, nodes, node
      ensures nodes == old(nodes) + {node}
      ensures Placed(Fields(), p, Bin(node, 0, Nil, Nil), root, nodes) && PathBalanced(p, 0)
    {
      hide Placed, Balanced, PathBalanced, H;
      ghost var m, r0, s := Fields(), root, nodes;
      Unzipped(m, t, root, nodes, p, Nil);
      LeafHeight(node);
      if p.Step? {
        StepFields(m, p, Nil, root, nodes);
      }
      node.child := [null, null];
      nodes := nodes + {node};
      Place(node, parent, whichChild, 0);
      ghost var m1 := Fields();
      assert SameBut(m, m1, {node});
      Replace(parent, whichChild, node);
      LedLike(m, m1, Fields(), p, node, r0, root);
      LeafPlaced(m, Fields(), p, node, r0, root, s);
    }

    /** The picture is complete again. */
    ghost method Finish(p: Path, f: Tree)
      requires Placed(Fields(), p, f, root, nodes) && Balanced(f) && PathBalanced(p, H(f))
      requires numnodes == |LeftOf(p) + Flat(f) + RightOf(p)|
      modifies `t
      ensures Valid() && Flat(t) == LeftOf(p) + Flat(f) + RightOf(p)
    {
      hide Placed, Balanced, PathBalanced, H;
      Zipped(Fields(), p, f, root, nodes);
      t := Zip(p, f);
    }

    // ----- removal -----

    /** Removes a node.  A node with two children first changes places with its neighbour on the taller
        side; rebalancing then goes up as long as subtrees get lower. */
    method Remove(data: AvlNode)
      requires Valid() && data in nodes
      modifies this, nodes
      ensures Valid() && nodes == old(nodes) - {data}
      ensures forall i :: 0 <= i < |old(Flat(t))| && old(Flat(t))[i] == data ==> Flat(t) == Dropped(old(Flat(t)), i)
    {
      hide Placed, Balanced, PathBalanced, Fields, Flat, LeftOf, RightOf, Zip, H, Foot, FootP;
      var delete := data;
      ghost var p, d := FindPlace(data);
      Here(p, d);
      RootPlace(p, d, Flat(t));
      SparseList(p, d);
      if delete.child[0] != null && delete.child[1] != null {
        ghost var left, seg, g;
        delete, p, d, left, seg, g := SwapNeighbour(data, p, d);
      }
      numnodes := numnodes - 1;
      Unlink(delete, p, d);
    }

    /** Takes a node with at most one child out, and rebalances upwards. */
    method Unlink(delete: AvlNode, ghost p: Path, ghost d: Tree)
      requires Placed(Fields(), p, d, root, nodes) && Balanced(d) && PathBalanced(p, H(d)) && Sparse(d) && d.n == delete
      requires numnodes == |LeftOf(p) + Flat(OnlyKid(d)) + RightOf(p)|
      modifies `root, `nodes, `t, `rotations, nodes
      ensures Valid() && nodes == old(nodes) - {delete} && Flat(t) == LeftOf(p) + Flat(OnlyKid(d)) + RightOf(p)
    {
      hide Placed, Balanced, PathBalanced, Fields, Flat, LeftOf, RightOf, H, Foot, FootP;
      RootFields(Fields(), p, d, root, nodes);
      FieldsOf(delete);
      SparseFacts(d);
      ghost var target := LeftOf(p) + Flat(OnlyKid(d)) + RightOf(p);
      var parent, which := delete.parent, delete.index;
      SparseKid(d);
      var node := if delete.child[0] != null then delete.child[0] else delete.child[1];
      Bypass(delete, parent, which, node, p, d);
      ghost var q, f := p, OnlyKid(d);
      while parent != null
        invariant Placed(Fields(), q, f, root, nodes) && Balanced(f) && PathBalanced(q, H(f) + 1)
        invariant LeftOf(q) + Flat(f) + RightOf(q) == target && nodes == old(nodes) - {delete}
        invariant parent == PathPtr(q) && (q.Step? ==> which == q.side) && numnodes == |target|
        decreases q
      {
        var done;
        done, parent, which, f := Lowered(parent, which, q, f);
        q := q.above;
        if done {
          Finish(q, f);
          return;
        }
      }
      TopBalanced(H(f));
      Finish(Top, f);
    }

    lemma SparseKid(d: Tree)
      requires Sparse(d)
      ensures Ptr(OnlyKid(d)) == if Ptr(d.l) != null then Ptr(d.l) else Ptr(d.r)
    {
    }

    /** One step up after a subtree has become lower: `node` takes note and, if it leans too far now, is
        rotated.  `done` when its own subtree is as high as before. */
    method Lowered(node: AvlNode, whichChild: nat, ghost p: Path, ghost f: Tree)
      returns (done: bool, parent: AvlNode?, which: nat, ghost f': Tree)
      requires Placed(Fields(), p, f, root, nodes) && Balanced(f) && PathBalanced(p, H(f) + 1)
      requires p.Step? && node == p.n && whichChild == p.side
      modifies `root, `rotations, nodes
      ensures Placed(Fields(), p.above, f', root, nodes) && Balanced(f')
      ensures rotations <= old(rotations) + 1
      ensures PathBalanced(p.above, if done then H(f') else H(f') + 1)
      ensures LeftOf(p.above) + Flat(f') + RightOf(p.above) == LeftOf(p) + Flat(f) + RightOf(p)
      ensures parent == PathPtr(p.above) && (p.above.Step? ==> which == p.above.side)
    {
      hide Placed, Balanced, PathBalanced, Fields, Flat, LeftOf, RightOf, H, Rotated, Leaning, Foot, FootP, Exactly,
        Kid, Mk;
      StepFields(Fields(), p, f, root, nodes);
      FieldsOf(node);
      Shrunk(p, f, H(f) + 1);
      var oldBalance := node.balance;
      var newBalance := oldBalance - (if whichChild == 0 then -1 else 1);
      RejoinFlat(p, newBalance, f);
      parent, which := node.parent, node.index;
      if oldBalance == 0 || newBalance == 0 {
        Rebalanced(Fields(), p, f, root, newBalance, nodes);
        SetBalance(node, newBalance);
        f' := Rejoined(p, newBalance, f);
        done := oldBalance == 0;
      } else {
        RejoinFlat(p, p.bal, f);
        JoinedPlaced(Fields(), p, f, root, nodes);
        RotatedBalanced(Joined(p, f), 1 - p.side);
        RotatedFlat(Joined(p, f), 1 - p.side);
        var shorter := Rotation(node, newBalance, p.above, Joined(p, f));
        f' := Rotated(Joined(p, f), 1 - p.side);
        done := !shorter;
      }
    }

    /** The list without the root of a subtree, when that has at most one child. */
    lemma SparseList(p: Path, d: Tree)
      requires d.Bin?
      ensures Sparse(d) ==>
                LeftOf(p) + Flat(OnlyKid(d)) + RightOf(p) == LeftOf(p) + Flat(d.l) + (Flat(d.r) + RightOf(p))
      ensures Sparse(d) <==> Ptr(d.l) == null || Ptr(d.r) == null
    {
      assert Flat(Nil) == [];
    }

    /** Connects the parent to the only child. */
    method Bypass(delete: AvlNode, parent: AvlNode?, which: nat, node: AvlNode?, ghost p: Path, ghost d: Tree)
      requires Placed(Fields(), p, d, root, nodes) && Sparse(d) && Balanced(d) && d.n == delete
      requires parent == PathPtr(p) && (p.Step? ==> which == p.side) && node == Ptr(OnlyKid(d))
      modifies `root, `nodes, nodes
      ensures nodes == old(nodes) - {delete}
      ensures Placed(Fields(), p, OnlyKid(d), root, nodes)
    {
      hide Linked, PathLinked, Placed, Balanced, H, Foot, FootP;
      ghost var m, r0, s := Fields(), root, nodes;
      OnlyKidThere(m, p, d, root, nodes);
      if p.Step? {
        StepFields(m, p, d, root, nodes);
      }
      HungKeys(m, node, parent, which);
      SetParent(node, parent, which);
      ghost var m1 := Fields();
      Replace(parent, which, node);
      ghost var m2 := Fields();
      nodes := nodes - {delete};
      assert Fields() == m2 - {delete};
      BypassWrites(m, m1, Fields(), p, d, r0, root, which, s);
    }

    /** A node with two children changes places with its neighbour on the taller side.  The neighbour's
        place goes to a placeholder, which is then the one to remove. */
    method SwapNeighbour(data: AvlNode, ghost p: Path, ghost d: Tree)
      returns (tmp: AvlNode, ghost q: Path, ghost f: Tree, ghost left: nat, ghost seg: Path, ghost g: Tree)
      requires Placed(Fields(), p, d, root, nodes) && Balanced(d) && PathBalanced(p, H(d))
      requires d.Bin? && d.l.Bin? && d.r.Bin? && d.n == data
      modifies `root, `nodes, nodes
      ensures fresh(tmp) && nodes == old(nodes) - {data} + {tmp}
      ensures Placed(Fields(), q, f, root, nodes) && Balanced(f) && PathBalanced(q, H(f)) && Sparse(f) && f.n == tmp
      ensures LeftOf(q) + Flat(OnlyKid(f)) + RightOf(q) == LeftOf(p) + Flat(d.l) + (Flat(d.r) + RightOf(p))
      ensures left == (if H(d.l) < H(d.r) then 1 else 0) && NextTo(d, left, seg, g)
      ensures q == Through(p, d, left, seg, g.n) && f == Stand(g, left, tmp)
    {
      hide Placed, PathBalanced, Fields, Flat, LeftOf, RightOf, Zip, H, Foot, FootP;
      RootFields(Fields(), p, d, root, nodes);
      FieldsOf(data);
      var oldBalance := data.balance;
      var side: nat := if oldBalance == 1 then 1 else 0;
      var node;
      left := side;
      node, seg, g := NextNode(data, side, p, d);
      tmp := Exchange(data, node, side, p, d, seg, g);
      ExchangeBalanced(p, d, left, seg, g, tmp);
      ExchangeList(p, d, left, seg, g, tmp);
      q, f := Through(p, d, left, seg, node), Stand(g, left, tmp);
    }

    /** Down one side, then as far as possible down the other. */
    method NextNode(data: AvlNode, left: nat, ghost p: Path, ghost d: Tree)
      returns (node: AvlNode, ghost seg: Path, ghost g: Tree)
      requires Placed(Fields(), p, d, root, nodes) && Balanced(d) && PathBalanced(p, H(d)) && left <= 1
      requires d.Bin? && d.l.Bin? && d.r.Bin? && d.n == data
      ensures NextTo(d, left, seg, g) && node == g.n && node in nodes
      ensures Balanced(g) && PathBalanced(Append(seg, Down(p, d, left)), H(g))
    {
      hide Placed, Balanced, PathBalanced, Fields, H, Foot, FootP, Append;
      var right: nat := 1 - left;
      RootFields(Fields(), p, d, root, nodes);
      FieldsOf(data);
      DownPlaced(Fields(), p, d, root, left, nodes);
      DownBalanced(p, d, left);
      node := data.child[left];
      seg, g := Top, Kid(d, left);
      AppendStep(seg, Down(p, d, left), g, right);
      RootFields(Fields(), Down(p, d, left), g, root, nodes);
      FieldsOf(node);
      while node.child[right] != null
        invariant g.Bin? && node == g.n && node in nodes && node.child == [Ptr(g.l), Ptr(g.r)]
        invariant Zip(seg, g) == Kid(d, left) && AllSide(seg, right)
        invariant Placed(Fields(), Append(seg, Down(p, d, left)), g, root, nodes)
        invariant Balanced(g) && PathBalanced(Append(seg, Down(p, d, left)), H(g))
        decreases g
      {
        ghost var q := Append(seg, Down(p, d, left));
        DownPlaced(Fields(), q, g, root, right, nodes);
        DownBalanced(q, g, right);
        ZipDown(seg, g, right);
        AppendStep(seg, Down(p, d, left), g, right);
        seg, g := Down(seg, g, right), Kid(g, right);
        node := node.child[right];
        RootFields(Fields(), Append(seg, Down(p, d, left)), g, root, nodes);
        FieldsOf(node);
      }
    }

    lemma AppendStep(seg: Path, base: Path, g: Tree, i: nat)
      requires g.Bin? && i <= 1
      ensures Append(Down(seg, g, i), base) == Down(Append(seg, base), g, i)
      ensures Append(Top, base) == base
    {
    }

    /** The exchange itself. */
    method Exchange(data: AvlNode, node: AvlNode, left: nat, ghost p: Path, ghost d: Tree, ghost seg: Path,
                    ghost g: Tree)
      returns (tmp: AvlNode)
      requires Placed(Fields(), p, d, root, nodes) && NextTo(d, left, seg, g) && d.n == data && g.n == node
               && Kid(d, 1 - left).Bin?
      modifies `root, `nodes, nodes
      ensures fresh(tmp) && nodes == old(nodes) - {data} + {tmp}
      ensures Placed(Fields(), Through(p, d, left, seg, node), Stand(g, left, tmp), root, nodes)
    {
      hide Placed, Foot, FootP, Zip, Append, Through, Stand, Fields, Exactly, ExchangePlan, Copied, CanTakeOver,
        TookOver, CanStandIn, StoodIn;
      ghost var m, r0, s := Fields(), root, nodes;
      ExchangeApart2(p, d, left, seg, g, root, m, nodes);
      ExchangeFields(m, p, d, left, seg, g, root, nodes);
      tmp := CopyOver(data, node, left);
      ExchangePlanned(m, p, d, left, seg, g, r0, tmp, s);
      ExchangeReady(m, data, node, left, Kid(d, 1 - left).n, Ptr(Kid(g, left)), tmp, Ptr(Kid(d, left)),
                    if seg.Top? then data else seg.n, if seg.Top? then left else 1 - left, PathPtr(p), PathSide(p));
      TakeOver(node, left);
      StandIn(tmp);
      Forget(data);
      ExchangeDone(m, Fields(), p, d, left, seg, g, r0, tmp, s);
    }

    /** `node` becomes the child of the parent it has been given, and the parent of its two children. */
    method TakeOver(node: AvlNode, left: nat)
      requires left <= 1 && CanTakeOver(Fields(), node)
      modifies `root, nodes
      ensures nodes == old(nodes) && root == if old(Fields())[node].parent == null then node else old(root)
      ensures Fields() == TookOver(old(Fields()), node, left)
    {
      hide Fields, Led;
      ghost var m := Fields();
      FieldsOf(node);
      KeysAre();
      var parent := node.parent;
      Replace(parent, node.index, node);
      LedNode(m, Fields(), parent, m[node].index, node, node, left);
      FieldsOf(node);
      KeysAre();
      SetUp(node.child[left], node);
      FieldsOf(node);
      KeysAre();
      SetUp(node.child[1 - left], node);
    }

    /** The placeholder becomes the child of its parent, and the parent of its only child. */
    method StandIn(tmp: AvlNode)
      requires CanStandIn(Fields(), tmp)
      modifies nodes
      ensures nodes == old(nodes) && root == old(root)
      ensures Fields() == StoodIn(old(Fields()), tmp)
    {
      hide Fields;
      FieldsOf(tmp);
      KeysAre();
      var parent := tmp.parent;
      SetChild(parent, tmp.index, tmp);
      FieldsOf(tmp);
      var whichChild: nat := if tmp.child[1] != null then 1 else 0;
      if tmp.child[whichChild] != null {
        SetUp(tmp.child[whichChild], tmp);
      }
    }

    lemma KeysAre()
      ensures Fields().Keys == nodes
    {
    }

    /** The node taken out is no longer one of the tree's. */
    ghost method Forget(data: AvlNode)
      modifies `nodes
      ensures nodes == old(nodes) - {data} && Fields() == old(Fields()) - {data}
    {
      nodes := nodes - {data};
    }

    method SetUp(c: AvlNode, parent: AvlNode)
      requires c in Fields()
      modifies c`parent
      ensures Fields() == old(Fields())[c := old(Fields())[c].(parent := parent)]
    {
      c.parent := parent;
    }

    /** Makes the placeholder a copy of `node`, and `node` a copy of `data`. */
    method CopyOver(data: AvlNode, node: AvlNode, left: nat) returns (tmp: AvlNode)
      requires data in Fields() && node in Fields() && data != node && left < |Fields()[data].child|
      modifies `nodes, node
      ensures fresh(tmp) && nodes == old(nodes) + {tmp} && tmp !in old(Fields())
      ensures Fields() == Copied(old(Fields()), data, node, left, tmp)
    {
      hide Fields;
      KeysAre();
      tmp := CopyOf(node);
      KeysAre();
      CopyInto(data, node);
      FieldsOf(node);
      if node.child[left] == node {
        SetChild(node, left, tmp);
      }
    }

    method CopyOf(node: AvlNode) returns (tmp: AvlNode)
      requires node in Fields()
      modifies `nodes
      ensures fresh(tmp) && tmp !in old(Fields()) && nodes == old(nodes) + {tmp}
              && Fields() == old(Fields())[tmp := old(Fields())[node]]
    {
      tmp := new AvlNode();
      nodes := nodes + {tmp};
      tmp.child, tmp.parent, tmp.index, tmp.balance := node.child, node.parent, node.index, node.balance;
    }

    method CopyInto(data: AvlNode, node: AvlNode)
      requires data in Fields() && node in Fields()
      modifies node
      ensures Fields() == old(Fields())[node := old(Fields())[data]]
    {
      node.child, node.parent, node.index, node.balance := data.child, data.parent, data.index, data.balance;
    }

    // ----- the rest of the interface -----

    constructor ()
      ensures Valid() && nodes == {} && Flat(t) == []
    {
      root, numnodes, nodes, t, rotations := null, 0, {}, Nil, 0;
    }

    /** Inserts a node right before (0) or right after (1) a node of the tree. */
    method InsertHere(node: AvlNode, here: AvlNode, direction: nat)
      requires Valid() && here in nodes && node !in nodes && direction <= 1
      modifies this, nodes, node
      ensures Valid() && nodes == old(nodes) + {node}
      ensures forall i :: 0 <= i < |old(Flat(t))| && old(Flat(t))[i] == here ==>
                Flat(t) == Put(old(Flat(t)), i + direction, node)
      ensures rotations <= old(rotations) + 1
    {
      hide Placed, Balanced, PathBalanced, Fields, Flat, LeftOf, RightOf, Zip;
      var at, child := here, direction;
      ghost var p, f := FindPlace(here);
      ghost var i := |LeftOf(p)| + |Flat(f.l)| + direction;
      Here(p, f);
      ghost var q, g := p, f;
      if at.child[child] != null {
        at := at.child[child];
        child := 1 - child;
        ghost var seg := Top;
        g := Kid(f, direction);
        ZipDown(p, f, direction);
        Here(Down(p, f, direction), g);
        while at.child[child] != null
          invariant child == 1 - direction && Sides(seg) && AllSide(seg, child)
          invariant Zip(Append(seg, Down(p, f, direction)), g) == t && Sides(Append(seg, Down(p, f, direction)))
          invariant at == Ptr(g) && g.Bin? && at in nodes && at.child == [Ptr(g.l), Ptr(g.r)]
          decreases g
          modifies {}
        {
          ZipDown(Append(seg, Down(p, f, direction)), g, child);
          AppendStep(seg, Down(p, f, direction), g, child);
          seg, g := Down(seg, g, child), Kid(g, child);
          at := at.child[child];
          Here(Append(seg, Down(p, f, direction)), g);
        }
        q := Append(seg, Down(p, f, direction));
        ChainEnd(t, p, f, direction, seg, g);
      } else {
        GapHere(p, f, direction);
      }
      ZipDown(q, g, child);
      q := Down(q, g, child);
      GapList(q);
      Insert(node, at, child, q);
    }

    /** The hole beside a node without a child there. */
    lemma GapHere(p: Path, f: Tree, dir: nat)
      requires f.Bin? && dir <= 1 && Kid(f, dir).Nil?
      ensures |LeftOf(Down(p, f, dir))| == |LeftOf(p)| + |Flat(f.l)| + dir
    {
      assert Flat(Nil) == [];
    }

    /** A hole cuts the list in two. */
    lemma GapList(p: Path)
      requires Zip(p, Nil) == t
      ensures |LeftOf(p)| <= |Flat(t)| && Flat(t)[..|LeftOf(p)|] == LeftOf(p) && Flat(t)[|LeftOf(p)|..] == RightOf(p)
    {
      ZipFlat(p, Nil);
      assert Flat(Nil) == [];
    }

    /** Adds a node whose value is not in the tree yet. */
    method Add(node: AvlNode, cmp: AvlNode -> int) returns (ghost i: nat)
      requires Valid() && node !in nodes && Descending(cmp, Flat(t)) && forall n :: n in nodes ==> cmp(n) != 0
      modifies this, nodes, node
      ensures Valid() && nodes == old(nodes) + {node}
      ensures i <= |old(Flat(t))| && Flat(t) == Put(old(Flat(t)), i, node) && rotations <= old(rotations) + 1
      ensures Larger(cmp, old(Flat(t))[..i]) && Smaller(cmp, old(Flat(t))[i..])
    {
      hide Placed, Balanced, Flat, LeftOf, RightOf, Zip, Larger, Smaller, Descending;
      var found, parent, child;
      ghost var p, steps;
      found, parent, child, p, steps := Find(cmp);
      GapList(p);
      i := |LeftOf(p)|;
      Insert(node, parent, child, p);
    }

    /** Visits the nodes in order.  The callback may take the node it is shown out of the tree, and ends
        the walk by a nonzero result. */
    method WalkAll(removes: AvlNode -> bool, result: AvlNode -> int) returns (ret: int, visited: seq<AvlNode>)
      requires Valid()
      modifies this, nodes
      ensures Valid() && visited <= old(Flat(t)) && Flat(t) == Kept(removes, visited) + old(Flat(t))[|visited|..]
      ensures ret == 0 ==> visited == old(Flat(t)) && forall i :: 0 <= i < |visited| ==> result(visited[i]) == 0
      ensures ret != 0 ==> |visited| > 0 && ret == result(visited[|visited| - 1])
                           && forall i :: 0 <= i < |visited| - 1 ==> result(visited[i]) == 0
    {
      hide Placed, Balanced, Flat, Kept, Fields, Dropped, Neighbour;
      ghost var l := Flat(t);
      visited := [];
      KeptNone(removes);
      if numnodes == 0 {
        return 0, visited;
      }
      var node := End(0);
      while node != null
        invariant nodes <= old(nodes) && Walking(removes, l, visited, node)
        invariant forall i :: 0 <= i < |visited| ==> result(visited[i]) == 0
        decreases |l| - |visited|
      {
        var nextNode, visited' := Visit(node, removes, l, visited);
        visited := visited';
        ret := result(node);
        if ret != 0 {
          return;
        }
        node := nextNode;
      }
      return 0, visited;
    }

    /** The walk has come to `node`. */
    ghost predicate Walking(removes: AvlNode -> bool, l: seq<AvlNode>, visited: seq<AvlNode>, node: AvlNode?)
      reads this, nodes
    {
      && Valid() && |visited| <= |l| && visited == l[..|visited|] && Flat(t) == Kept(removes, visited) + l[|visited|..]
      && node == if |visited| < |l| then l[|visited|] else null
    }

    /** Shows one node to the callback.  The way to the next one is taken before. */
    method Visit(node: AvlNode, removes: AvlNode -> bool, ghost l: seq<AvlNode>, visited: seq<AvlNode>)
      returns (nextNode: AvlNode?, visited': seq<AvlNode>)
      requires Walking(removes, l, visited, node)
      modifies this, nodes
      ensures Walking(removes, l, visited', nextNode) && nodes <= old(nodes) && visited' == visited + [node]
              && |visited| < |l|
    {
      hide Placed, Balanced, Flat, Kept, Fields, Dropped, Neighbour;
      KeptStep(removes, l, |visited|);
      InTree(|Kept(removes, visited)|);
      nextNode := Walk(node, 1);
      visited' := visited + [node];
      if removes(node) {
        Remove(node);
      }
      assert visited' == l[..|visited'|] && Flat(t) == Kept(removes, visited') + l[|visited'|..];
    }

    lemma KeptNone(removes: AvlNode -> bool)
      ensures Kept(removes, []) == []
    {
    }

    lemma InTree(i: nat)
      requires Valid() && i < |Flat(t)|
      ensures Flat(t)[i] in nodes
    {
      FlatFoot(t);
      assert FootP(Top) + Foot(t) == Foot(t);
      AllIn(Foot(t), nodes);
      assert Flat(t)[i] in multiset(Flat(t));
    }

    // ----- destruction -----

    /** The tree between two calls of `DestroyNodes`: `p` is the place of the last node handed out. */
    ghost predicate Destroying(cookie: Cookie, p: Path)
      reads this, nodes
    {
      match cookie
      case Start => Valid()
      case Last(parent, child) =>
        && p.Step? && parent == p.n && child == p.side && p.n in nodes && p.side < |p.n.child|
        && Dying(Fields(), p, root, p.n.child[p.side], nodes) && numnodes == |Rest(p)| + 1
      case Done => p.Top? && nodes == {} && numnodes == if root != null then 1 else 0
    }

    /** The nodes still to come. */
    ghost function Remaining(cookie: Cookie, p: Path): seq<AvlNode>
      reads this
    {
      match cookie
      case Start => Post(t)
      case Last(_, _) => Rest(p)
      case Done => []
    }

    /** Hands out the nodes in post-order, one per call, cutting each off its parent on the next call. */
    method DestroyNodes(cookie: Cookie, ghost p: Path) returns (node: AvlNode?, cookie': Cookie, ghost p': Path)
      requires Destroying(cookie, p)
      modifies this, nodes
      ensures Destroying(cookie', p') && !cookie'.Start?
      ensures var r := old(Remaining(cookie, p));
              if r == [] then node == null && cookie'.Done? && root == null && numnodes == 0 && nodes == {}
              else
                && node != null && r == [node] + Remaining(cookie', p')
                && node in old(nodes) && nodes == old(nodes) - {node}
    {
      hide Placed, Balanced, Fields, Dying, Next, Post, Rest, FootP;
      match cookie
      case Start =>
        node, cookie', p' := DestroyFirst();
      case Done =>
        if root != null {
          root := null;
          numnodes := 0;
        }
        return null, Done, Top;
      case Last(parent, child) =>
        node, cookie', p' := DestroyNext(parent, child, p);
    }

    method DestroyFirst() returns (node: AvlNode?, cookie': Cookie, ghost p': Path)
      requires Valid()
      modifies this, nodes
      ensures Destroying(cookie', p') && !cookie'.Start?
      ensures var r := old(Post(t));
              if r == [] then node == null && cookie'.Done? && root == null && numnodes == 0 && nodes == {}
              else
                && node != null && r == [node] + Remaining(cookie', p')
                && node in old(nodes) && nodes == old(nodes) - {node}
    {
      hide Placed, Balanced, Fields, Dying, Post, Rest, FootP, Flat, Doomed, Linked;
      CountPost(t);
      var first := End(0);
      if first == null {
        NoNodes();
        return null, Done, Top;
      }
      StartNext();
      ghost var q, f := LeftEdge(Fields(), Top, t, root, nodes);
      RestTop();
      node, cookie', p' := CheckRightSide(first, q, f);
    }

    lemma NoNodes()
      requires Valid() && |Flat(t)| == 0
      ensures nodes == {} && root == null
    {
      FlatFoot(t);
      assert FootP(Top) + Foot(t) == Foot(t);
      NoneLeft(Foot(t), nodes);
    }

    lemma StartNext()
      requires Valid() && |Flat(t)| > 0
      ensures Next(Fields(), Top, t, root, nodes) && t.Bin?
    {
    }

    lemma RestTop()
      ensures Rest(Top) == []
    {
    }

    /** The leftmost node of what is left to visit, or its right child if it has one. */
    method CheckRightSide(node: AvlNode, ghost q: Path, ghost f: Tree)
      returns (out: AvlNode, cookie: Cookie, ghost p: Path)
      requires Next(Fields(), q, f, root, nodes) && f.Bin? && f.l.Nil? && f.n == node && numnodes == |Post(f) + Rest(q)|
      modifies `nodes
      ensures Destroying(cookie, p) && !cookie.Start? && Post(f) + Rest(q) == [out] + Remaining(cookie, p)
      ensures out in old(nodes) && nodes == old(nodes) - {out}
    {
      hide Placed, Balanced, Fields, Dying, Next, Post, Rest, FootP, Linked;
      NextFields(Fields(), q, f, root, nodes);
      FieldsOf(node);
      NextRight(Fields(), q, f, root, nodes);
      if node.child[1] != null {
        assert node.balance == 1;
        ghost var q' := Step(q, f.n, f.bal, 1, Nil);
        NextFields(Fields(), q', f.r, root, nodes);
        out := node.child[1];
        FieldsOf(out);
        assert out.child[0] == null && out.child[1] == null;
        HandOut(Fields(), q', f.r, root, nodes);
        cookie := Given(out, q');
        p := q';
      } else {
        assert node.balance <= 0;
        HandOut(Fields(), q, f, root, nodes);
        out := node;
        cookie := Given(out, q);
        p := q;
      }
    }

    /** A node is handed out: the cookie remembers where it was. */
    method Given(node: AvlNode, ghost q: Path) returns (cookie: Cookie)
      requires node in nodes && Dying(Fields() - {node}, q, root, node, nodes - {node})
      requires node.parent == PathPtr(q) && (q.Step? ==> node.index == q.side) && numnodes == |Rest(q)| + 1
      modifies `nodes
      ensures Destroying(cookie, q) && !cookie.Start? && Remaining(cookie, q) == Rest(q)
      ensures nodes == old(nodes) - {node}
    {
      hide Dying, Rest;
      DyingFields(Fields() - {node}, q, root, node, nodes - {node});
      ghost var m := Fields();
      nodes := nodes - {node};
      assert Fields() == m - {node};
      RestTop();
      DyingRoot(Fields(), q, root, node, nodes);
      if node.parent == null {
        cookie := Done;
      } else {
        FieldsOf(node.parent);
        cookie := Last(node.parent, node.index);
      }
    }

    lemma DyingRoot(m: Mem, q: Path, root: AvlNode?, x: AvlNode, s: set<AvlNode>)
      requires Dying(m, q, root, x, s)
      ensures q.Top? ==> root == x
    {
    }

    /** After the first node: cuts the last one off, and goes on with its parent's right subtree or with
        the parent itself. */
    method DestroyNext(par: AvlNode, child: nat, ghost p: Path) returns (node: AvlNode, cookie': Cookie, ghost p': Path)
      requires Destroying(Last(par, child), p)
      modifies this, nodes
      ensures Destroying(cookie', p') && !cookie'.Start?
      ensures Rest(p) == [node] + Remaining(cookie', p') && node in old(nodes) && nodes == old(nodes) - {node}
    {
      hide Placed, Balanced, Fields, Dying, Next, Post, Rest, FootP, Linked, PathLinked, Doomed;
      ghost var x := p.n.child[p.side];
      CutOff(Fields(), p, root, x, nodes);
      FieldsOf(par);
      SetChild(par, child, null);
      numnodes := numnodes - 1;
      KeysAre();
      FieldsOf(par);
      if child == 1 || par.child[1] == null {
        CutUp(p);
        node := par;
        cookie' := Given(node, p.above);
        p' := p.above;
      } else {
        ghost var q, f := Step(p.above, p.n, p.bal, 1, Nil), p.sib;
        node := par.child[1];
        NextFields(Fields(), q, f, root, nodes);
        FieldsOf(node);
        while node.child[0] != null
          invariant Next(Fields(), q, f, root, nodes) && f.Bin? && node == f.n && node in nodes
          invariant node.child == [Ptr(f.l), Ptr(f.r)] && Post(f) + Rest(q) == Rest(p)
          decreases f
          modifies {}
        {
          NextLeft(Fields(), q, f, root, nodes);
          q, f := Down(q, f, 0), f.l;
          node := node.child[0];
          NextFields(Fields(), q, f, root, nodes);
          FieldsOf(node);
        }
        node, cookie', p' := CheckRightSide(node, q, f);
      }
    }

    lemma CutUp(p: Path)
      requires p.Step? && Rest(p) == [p.n] + Rest(p.above)
      ensures |Rest(p)| == |Rest(p.above)| + 1
    {
    }

    /** Destroys the whole tree: every node is handed out once, children before their parents. */
    method Destroy() returns (order: seq<AvlNode>)
      requires Valid()
      modifies this, nodes
      ensures order == old(Post(t)) && multiset(order) == multiset(old(nodes))
      ensures root == null && numnodes == 0
    {
      hide Placed, Balanced, Fields, Dying, Post, Rest, Destroying, Remaining;
      order := [];
      var cookie := Start;
      ghost var p := Top;
      Beginning();
      var node;
      node, cookie, p := DestroyNodes(cookie, p);
      while node != null
        invariant Destroying(cookie, p) && nodes <= old(nodes)
        invariant node != null ==> order + [node] + Remaining(cookie, p) == old(Post(t))
        invariant node == null ==> order == old(Post(t)) && root == null && numnodes == 0
        decreases if node == null then 0 else |Remaining(cookie, p)| + 1
      {
        order := order + [node];
        node, cookie, p := DestroyNodes(cookie, p);
      }
    }

    lemma Beginning()
      requires Valid()
      ensures Destroying(Start, Top) && Remaining(Start, Top) == Post(t) && multiset(Post(t)) == multiset(nodes)
    {
      PostFoot(t);
      assert FootP(Top) + Foot(t) == Foot(t);
    }
  }
}
