/** The address-range map: a red-black tree with parent pointers, updated in place. */
module AddrRangeMaps {
  import opened Options
  import opened RangeStores
  import opened RangeTrees
  import opened Shapes
  import opened ZeroOrders

  class AddrRangeMap {
    var root: Node?
    ghost var tree: Tree  // what the records below `root` hold

    /** The stored ranges in address order. */
    ghost function Contents(): seq<Range>
      reads this
    {
      InOrder(tree)
    }

    /** The records are linked both ways into a red-black tree.  While it holds points only, at most two of them at
        address 0, these two are where the patching pass does no harm: `Tidy`, which says nothing of other maps. */
    ghost predicate Valid()
      reads this, Nodes(tree)
    {
      At(Nodes(tree), Top, tree) && RedBlack(tree) && Tidy(tree)
    }

    constructor ()
      ensures Valid() && Contents() == [] && Nodes(tree) == {}
    {
      root, tree := null, Leaf;
      new;
      assert Good(tree, 0);
    }

    /** Within the records `nodes`, the tree below `root` is `t` in the hole of `c`. */
    ghost predicate At(nodes: set<Node>, c: Ctx, t: Tree)
      reads this, nodes
    {
      nodes == CtxNodes(c) + Nodes(t) && Zip(Snapshot(nodes), root, c, t)
    }

    /** The pointer changes of a left rotation at `node`, record by record. */
    method LeftRotate(node: Node, ghost nodes: set<Node>)
      requires node in nodes && node.rightChild != null && node.rightChild in nodes
      requires node.parent != null ==> node.parent in nodes
      requires node.rightChild.leftChild != null ==> node.rightChild.leftChild in nodes
      requires var y := node.rightChild; var b, p := y.leftChild, node.parent;
        node != y && b != node && b != y && p != node && p != y && (b == p ==> b == null)
      modifies this`root, nodes
      ensures root == if old(node.parent) == null then old(node.rightChild) else old(root)
      ensures tree == old(tree)
      ensures CellOf(node) ==
        old(CellOf(node)).(right := old(node.rightChild.leftChild), parent := old(node.rightChild))
      ensures var y := old(node.rightChild);
        CellOf(y) == old(CellOf(node.rightChild)).(left := node, parent := old(node.parent))
      ensures var b := old(node.rightChild.leftChild);
        b != null ==> CellOf(b) == old(CellOf(b)).(parent := node)
      ensures var y, p := old(node.rightChild), old(node.parent); p != null ==>
        CellOf(p) == if old(p.leftChild) == node then old(CellOf(p)).(left := y) else old(CellOf(p)).(right := y)
      ensures forall n | n in nodes && n != node && n != old(node.rightChild) && n != old(node.rightChild.leftChild)
        && n != old(node.parent) :: CellOf(n) == old(CellOf(n))
    {
      var oldRightChild := node.rightChild;
      node.rightChild := oldRightChild.leftChild;
      if oldRightChild.leftChild != null {
        oldRightChild.leftChild.parent := node;
      }
      oldRightChild.parent := node.parent;
      if node.parent == null {
        root := oldRightChild;
      } else if node == node.parent.leftChild {
        node.parent.leftChild := oldRightChild;
      } else {
        node.parent.rightChild := oldRightChild;
      }
      oldRightChild.leftChild := node;
      node.parent := oldRightChild;
    }

    method RightRotate(node: Node, ghost nodes: set<Node>)
      requires node in nodes && node.leftChild != null && node.leftChild in nodes
      requires node.parent != null ==> node.parent in nodes
      requires node.leftChild.rightChild != null ==> node.leftChild.rightChild in nodes
      requires var y := node.leftChild; var b, p := y.rightChild, node.parent;
        node != y && b != node && b != y && p != node && p != y && (b == p ==> b == null)
      requires node.parent != null ==> (node.parent.leftChild == node || node.parent.rightChild == node)
      requires node.parent != null ==> node.parent.leftChild != node.parent.rightChild
      modifies this`root, nodes
      ensures root == if old(node.parent) == null then old(node.leftChild) else old(root)
      ensures tree == old(tree)
      ensures CellOf(node) ==
        old(CellOf(node)).(left := old(node.leftChild.rightChild), parent := old(node.leftChild))
      ensures var y := old(node.leftChild);
        CellOf(y) == old(CellOf(node.leftChild)).(right := node, parent := old(node.parent))
      ensures var b := old(node.leftChild.rightChild);
        b != null ==> CellOf(b) == old(CellOf(b)).(parent := node)
      ensures var y, p := old(node.leftChild), old(node.parent); p != null ==>
        CellOf(p) == if old(p.leftChild) == node then old(CellOf(p)).(left := y) else old(CellOf(p)).(right := y)
      ensures forall n | n in nodes && n != node && n != old(node.leftChild) && n != old(node.leftChild.rightChild)
        && n != old(node.parent) :: CellOf(n) == old(CellOf(n))
    {
      var oldLeftChild := node.leftChild;
      node.leftChild := oldLeftChild.rightChild;
      if oldLeftChild.rightChild != null {
        oldLeftChild.rightChild.parent := node;
      }
      oldLeftChild.parent := node.parent;
      if node.parent == null {
        root := oldLeftChild;
      } else if node == node.parent.rightChild {
        node.parent.rightChild := oldLeftChild;
      } else {
        node.parent.leftChild := oldLeftChild;
      }
      oldLeftChild.rightChild := node;
      node.parent := oldLeftChild;
    }

    /** A left rotation of the subtree at a position of the tree. */
    method LeftRotateAt(node: Node, ghost nodes: set<Node>, ghost c: Ctx, ghost t: Tree)
      requires At(nodes, c, t)
      requires t.Branch? && t.node == node && t.right.Branch?
      modifies this`root, nodes
      ensures At(nodes, c, RotatedLeft(t)) && tree == old(tree)
    {
      ghost var m, oldRoot := Snapshot(nodes), root;
      assert m[node] == CellOf(node) && m[t.right.node] == CellOf(t.right.node);
      assert Linked(m, t.right, node);
      assert Linked(m, t.right.left, t.right.node);
      LeftRotate(node, nodes);
      LeftRotationLinked(m, Snapshot(nodes), oldRoot, root, c, t);
    }

    method RightRotateAt(node: Node, ghost nodes: set<Node>, ghost c: Ctx, ghost t: Tree)
      requires At(nodes, c, t)
      requires t.Branch? && t.node == node && t.left.Branch?
      modifies this`root, nodes
      ensures At(nodes, c, RotatedRight(t)) && tree == old(tree)
    {
      ghost var m, oldRoot := Snapshot(nodes), root;
      assert m[node] == CellOf(node) && m[t.left.node] == CellOf(t.left.node);
      assert Linked(m, t.left, node);
      assert Linked(m, t.left.right, t.left.node);
      RightRotate(node, nodes);
      RightRotationLinked(m, Snapshot(nodes), oldRoot, root, c, t);
    }

    /** The colours of the red-uncle case: `left` and `right` are the parent and the uncle. */
    static method PaintFamily(left: Node, right: Node, grand: Node, ghost nodes: set<Node>)
      requires left != grand && right != grand
      modifies {left, right, grand}`color
      ensures forall n | n in nodes :: CellOf(n) == FamilyCell(old(CellOf(n)), n, left, right, grand)
    {
      left.color := Black;
      right.color := Black;
      grand.color := Red;
    }

    /** The red-uncle case: the flaw moves two levels up. */
    method PushBlack(left: Node, right: Node, grand: Node, ghost nodes: set<Node>, ghost c: Ctx, ghost g: Tree)
      requires At(nodes, c, g) && g.Branch? && g.left.Branch? && g.right.Branch?
      requires grand == g.node && left == g.left.node && right == g.right.node
      modifies nodes
      ensures At(nodes, c, Pushed(g))
    {
      ghost var m := Snapshot(nodes);
      assert Linked(m, g.left, grand) && Linked(m, g.right, grand);
      PaintFamily(left, right, grand, nodes);
      PushLinked(m, Snapshot(nodes), root, c, g);
    }

    static method PaintEdge(parent: Node, grand: Node, ghost nodes: set<Node>)
      requires parent != grand
      modifies {parent, grand}`color
      ensures CellOf(parent) == old(CellOf(parent)).(color := Black)
      ensures CellOf(grand) == old(CellOf(grand)).(color := Red)
      ensures forall n | n in nodes && n != parent && n != grand :: CellOf(n) == old(CellOf(n))
    {
      parent.color := Black;
      grand.color := Red;
    }

    method FinishLeft(parent: Node, grand: Node, ghost nodes: set<Node>, ghost c: Ctx, ghost g: Tree)
      requires At(nodes, c, g) && g.Branch? && g.left.Branch? && grand == g.node && parent == g.left.node
      modifies this`root, nodes
      ensures At(nodes, c, RotatedRight(LeftEdgePainted(g))) && tree == old(tree)
    {
      ghost var m := Snapshot(nodes);
      assert Linked(m, g.left, grand);
      PaintEdge(parent, grand, nodes);
      LeftEdgeLinked(m, Snapshot(nodes), root, c, g);
      RightRotateAt(grand, nodes, c, LeftEdgePainted(g));
    }

    method FinishRight(parent: Node, grand: Node, ghost nodes: set<Node>, ghost c: Ctx, ghost g: Tree)
      requires At(nodes, c, g) && g.Branch? && g.right.Branch? && grand == g.node && parent == g.right.node
      modifies this`root, nodes
      ensures At(nodes, c, RotatedLeft(RightEdgePainted(g))) && tree == old(tree)
    {
      ghost var m := Snapshot(nodes);
      assert Linked(m, g.right, grand);
      PaintEdge(parent, grand, nodes);
      RightEdgeLinked(m, Snapshot(nodes), root, c, g);
      LeftRotateAt(grand, nodes, c, RightEdgePainted(g));
    }

    /** The state of the re-balancing loop, with `s` the in-order ranges. */
    ghost predicate Rebalancing(curr: Node, nodes: set<Node>, c: Ctx, t: Tree, h: nat, s: seq<Range>)
      reads this, nodes
    {
      At(nodes, c, t) && Root(t) == curr && Fixing(c, t, h, s) && Tidy(Plug(c, t))
    }

    /** What the records say around a red node with a red parent. */
    lemma Family(curr: Node, nodes: set<Node>, c: Ctx, t: Tree, h: nat, s: seq<Range>)
      requires Rebalancing(curr, nodes, c, t, h, s) && CtxRed(c)
      ensures !c.up.Top? && curr.parent == c.node && curr.parent.parent == c.up.node
      ensures {curr, c.node, c.up.node} + Nodes(c.up.sibling) <= nodes
      ensures c.node.leftChild == curr <==> c.LeftOf?
      ensures c.node.rightChild == curr <==> c.RightOf?
      ensures c.up.node.leftChild == c.node <==> c.up.LeftOf?
      ensures Root(c.up.sibling) == if c.up.LeftOf? then c.up.node.rightChild else c.up.node.leftChild
      ensures c.up.sibling.Branch? ==> c.up.sibling.node.color == c.up.sibling.color
      ensures At(nodes, c.up, UpTree(c, t)) && At(nodes, c.up.up, GrandTree(c, t))
    {
      RedParentHasParent(c, t, h, s);
      var m := Snapshot(nodes);
      Surroundings(m, root, c, t);
      assert m[curr] == CellOf(curr) && m[c.node] == CellOf(c.node) && m[c.up.node] == CellOf(c.up.node);
    }

    /** Black uncle, outer grandchild: the loop's last rotation. */
    method OuterLeft(curr: Node, ghost nodes: set<Node>, ghost c: Ctx, ghost t: Tree, ghost h: nat, ghost s: seq<Range>)
      returns (ghost c': Ctx, ghost t': Tree)
      requires Rebalancing(curr, nodes, c, t, h, s) && CtxRed(c) && c.LeftOf? && c.up.LeftOf? && !IsRed(c.up.sibling)
      modifies this`root, nodes
      ensures Rebalancing(curr, nodes, c', t', h, s) && Depth(c') < Depth(c) && tree == old(tree)
      ensures Climb(c', ShapeOf(t')) == Climb(c, ShapeOf(t))
    {
      Family(curr, nodes, c, t, h, s);
      hide Climb, ShapeOf;
      OuterLeftKeepsFixing(c, t, h, s);
      OuterLeftClimbs(c, t, h, s);
      LeftEdgeTidy(c.up.up, GrandTree(c, t));
      OuterRotationTidy(c.up.up, LeftEdgePainted(GrandTree(c, t)));
      ghost var r := RotatedRight(LeftEdgePainted(GrandTree(c, t)));
      FinishLeft(curr.parent, curr.parent.parent, nodes, c.up.up, GrandTree(c, t));
      Refocus(nodes, c.up.up, r);
      c', t' := DownLeft(c.up.up, r), r.left;
    }

    /** One pass of the loop when the parent is a left child. */
    method FixLeft(curr: Node, ghost nodes: set<Node>, ghost c: Ctx, ghost t: Tree, ghost h: nat, ghost s: seq<Range>)
      returns (next: Node, ghost c': Ctx, ghost t': Tree, ghost h': nat)
      requires Rebalancing(curr, nodes, c, t, h, s) && CtxRed(c) && c.up.LeftOf?
      modifies this`root, nodes
      ensures Rebalancing(next, nodes, c', t', h', s) && Depth(c') < Depth(c) && tree == old(tree)
      ensures Climb(c', ShapeOf(t')) == Climb(c, ShapeOf(t))
    {
      Family(curr, nodes, c, t, h, s);
      hide Climb, ShapeOf;
      var uncle := curr.parent.parent.rightChild;
      if uncle != null && uncle.color == Red {
        PushKeepsFixing(c, t, h, s);
        PushClimbs(c, t, h, s);
        PaintTidy(c.up.up, GrandTree(c, t));
        next := curr.parent.parent;
        PushBlack(curr.parent, uncle, next, nodes, c.up.up, GrandTree(c, t));
        c', t', h' := c.up.up, Pushed(GrandTree(c, t)), h + 1;
      } else {
        next, c', t', h' := curr, c, t, h;
        if curr == curr.parent.rightChild {
          next := curr.parent;
          ghost var r := RotatedLeft(UpTree(c, t));
          InnerLeftKeepsFixing(c, t, h, s);
          InnerLeftClimbs(c, t, h, s);
          LeftRotationTidy(c.up, UpTree(c, t));
          LeftRotateAt(next, nodes, c.up, UpTree(c, t));
          c', t' := DownLeft(c.up, r), r.left;
          Refocus(nodes, c.up, r);
        }
        c', t' := OuterLeft(next, nodes, c', t', h, s);
      }
    }

    /** Black uncle, outer grandchild: the loop's last rotation. */
    method OuterRight(curr: Node, ghost nodes: set<Node>, ghost c: Ctx, ghost t: Tree, ghost h: nat,
      ghost s: seq<Range>)
      returns (ghost c': Ctx, ghost t': Tree)
      requires Rebalancing(curr, nodes, c, t, h, s) && CtxRed(c) && c.RightOf? && c.up.RightOf? && !IsRed(c.up.sibling)
      modifies this`root, nodes
      ensures Rebalancing(curr, nodes, c', t', h, s) && Depth(c') < Depth(c) && tree == old(tree)
      ensures Climb(c', ShapeOf(t')) == Climb(c, ShapeOf(t))
    {
      Family(curr, nodes, c, t, h, s);
      hide Climb, ShapeOf;
      OuterRightKeepsFixing(c, t, h, s);
      OuterRightClimbs(c, t, h, s);
      RightEdgeTidy(c.up.up, GrandTree(c, t));
      LeftRotationTidy(c.up.up, RightEdgePainted(GrandTree(c, t)));
      ghost var r := RotatedLeft(RightEdgePainted(GrandTree(c, t)));
      FinishRight(curr.parent, curr.parent.parent, nodes, c.up.up, GrandTree(c, t));
      Refocus(nodes, c.up.up, r);
      c', t' := DownRight(c.up.up, r), r.right;
    }

    /** One pass of the loop when the parent is a right child. */
    method FixRight(curr: Node, ghost nodes: set<Node>, ghost c: Ctx, ghost t: Tree, ghost h: nat, ghost s: seq<Range>)
      returns (next: Node, ghost c': Ctx, ghost t': Tree, ghost h': nat)
      requires Rebalancing(curr, nodes, c, t, h, s) && CtxRed(c) && c.up.RightOf?
      modifies this`root, nodes
      ensures Rebalancing(next, nodes, c', t', h', s) && Depth(c') < Depth(c) && tree == old(tree)
      ensures Climb(c', ShapeOf(t')) == Climb(c, ShapeOf(t))
    {
      Family(curr, nodes, c, t, h, s);
      hide Climb, ShapeOf;
      var uncle := curr.parent.parent.leftChild;
      if uncle != null && uncle.color == Red {
        PushKeepsFixing(c, t, h, s);
        PushClimbs(c, t, h, s);
        PaintTidy(c.up.up, GrandTree(c, t));
        next := curr.parent.parent;
        PushBlack(uncle, curr.parent, next, nodes, c.up.up, GrandTree(c, t));
        c', t', h' := c.up.up, Pushed(GrandTree(c, t)), h + 1;
      } else {
        next, c', t', h' := curr, c, t, h;
        if curr == curr.parent.leftChild {
          next := curr.parent;
          ghost var r := RotatedRight(UpTree(c, t));
          InnerRightKeepsFixing(c, t, h, s);
          InnerRightClimbs(c, t, h, s);
          InnerRotationTidy(c.up, UpTree(c, t));
          RightRotateAt(next, nodes, c.up, UpTree(c, t));
          c', t' := DownRight(c.up, r), r.right;
          Refocus(nodes, c.up, r);
        }
        c', t' := OuterRight(next, nodes, c', t', h, s);
      }
    }

    /** The focus can move to either child. */
    lemma Refocus(nodes: set<Node>, c: Ctx, t: Tree)
      requires At(nodes, c, t) && t.Branch?
      ensures At(nodes, DownLeft(c, t), t.left) && At(nodes, DownRight(c, t), t.right)
    {
      ZipUp(Snapshot(nodes), root, DownLeft(c, t), t.left);
      ZipUp(Snapshot(nodes), root, DownRight(c, t), t.right);
    }

    /** Restores the red-black colours from a new red node upwards. */
    method Rebalance(newEntry: Node, ghost nodes: set<Node>, ghost c0: Ctx, ghost t0: Tree, ghost h0: nat,
        ghost s: seq<Range>)
      requires Rebalancing(newEntry, nodes, c0, t0, h0, s)
      modifies this, nodes
      ensures Valid() && Nodes(tree) == nodes && Contents() == s
      ensures ShapeOf(tree) == Painted(Climb(c0, ShapeOf(t0)), Black)
    {
      hide Climb, ShapeOf;
      var currNode := newEntry;
      ghost var c, t, h := c0, t0, h0;
      while currNode != root && currNode.parent.color == Red
        invariant Rebalancing(currNode, nodes, c, t, h, s) && Climb(c, ShapeOf(t)) == Climb(c0, ShapeOf(t0))
        decreases Depth(c)
      {
        AtRoot(currNode, nodes, c, t);
        Family(currNode, nodes, c, t, h, s);
        if currNode.parent == currNode.parent.parent.leftChild {
          currNode, c, t, h := FixLeft(currNode, nodes, c, t, h, s);
        } else {
          currNode, c, t, h := FixRight(currNode, nodes, c, t, h, s);
        }
      }
      AtRoot(currNode, nodes, c, t);
      FixedIsRedBlack(c, t, h, s);
      RootTidy(Plug(c, t));
      LoopEnds(c, t, h);
      PaintedRoot(Plug(c, t));
      BlackenRoot(nodes, c, t);
    }

    static lemma PaintedRoot(t: Tree)
      requires t.Branch?
      ensures ShapeOf(t.(color := Black)) == Painted(ShapeOf(t), Black)
    {
    }

    /** A node is the root exactly when its context is empty, and otherwise its parent is the context's node. */
    lemma AtRoot(curr: Node, nodes: set<Node>, c: Ctx, t: Tree)
      requires At(nodes, c, t) && t.Branch? && t.node == curr
      ensures curr == root <==> c.Top?
      ensures curr.parent == CtxNode(c)
      ensures !c.Top? ==> c.node in nodes && c.node.color == c.color
    {
      var m := Snapshot(nodes);
      assert m[curr] == CellOf(curr);
      if !c.Top? {
        assert m[c.node] == CellOf(c.node);
        RootInCtx(m, c, root, curr);
      }
    }

    static method PaintBlack(n: Node, ghost nodes: set<Node>)
      modifies n`color
      ensures CellOf(n) == old(CellOf(n)).(color := Black)
      ensures forall q | q in nodes && q != n :: CellOf(q) == old(CellOf(q))
    {
      n.color := Black;
    }

    method BlackenRoot(ghost nodes: set<Node>, ghost c: Ctx, ghost t: Tree)
      requires At(nodes, c, t) && Plug(c, t).Branch?
      modifies this`tree, nodes
      ensures tree == Plug(c, t).(color := Black) && At(nodes, Top, tree) && Nodes(tree) == nodes
    {
      ghost var m, w := Snapshot(nodes), Plug(c, t);
      PlugLinked(m, root, c, t);
      PlugNodes(c, t);
      PaintBlack(root, nodes);
      tree := w.(color := Black);
      RootPainted(m, Snapshot(nodes), root, w);
    }

    /** Walks from the root to the node that adopts the range, or to a node whose range overlaps it. */
    method Descend(lowAddr: Addr, highAddr: Addr, ghost r: Range)
      returns (ok: bool, slot: Node, asLeft: bool, ghost c: Ctx, ghost h: nat)
      requires Valid() && Separated(Contents()) && root != null && lowAddr <= highAddr == r.high
      ensures ok ==> At(Nodes(tree), c, Leaf) && Walking(tree, c, Leaf, h, lowAddr, highAddr)
      ensures ok ==> !c.Top? && c.node == slot && (asLeft <==> c.LeftOf?) && OnTheWay(tree, c, Leaf, r)
      ensures !ok ==> exists q :: q in Contents() && q.low < highAddr && lowAddr < q.high
    {
      slot := root;
      ghost var t := tree;
      assert OnTheWay(tree, Top, t, r);
      hide OnTheWay;
      h :| Good(tree, h);
      c := Top;
      while true
        invariant At(Nodes(tree), c, t) && t.Branch? && t.node == slot
        invariant Walking(tree, c, t, h, lowAddr, highAddr) && OnTheWay(tree, c, t, r)
        decreases t
      {
        AtNode(slot, Nodes(tree), c, t);
        if highAddr <= slot.lowAddr {
          WalkLeft(tree, c, t, h, lowAddr, highAddr);
          WayLeft(tree, c, t, r);
          h, c, t := ChildHeight(t, h), DownLeft(c, t), t.left;
          if slot.leftChild == null {
            return true, slot, true, c, h;
          }
          slot := slot.leftChild;
        } else if lowAddr >= slot.highAddr {
          WalkRight(tree, c, t, h, lowAddr, highAddr);
          WayRight(tree, c, t, r);
          h, c, t := ChildHeight(t, h), DownRight(c, t), t.right;
          if slot.rightChild == null {
            return true, slot, false, c, h;
          }
          slot := slot.rightChild;
        } else {
          PlugInOrder(c, t);
          assert t.range in InOrder(t);
          return false, slot, false, c, h;
        }
      }
    }

    /** The record at the focus holds the node of the focused tree, and its child slots lead further down. */
    lemma AtNode(curr: Node, nodes: set<Node>, c: Ctx, t: Tree)
      requires At(nodes, c, t) && t.Branch? && t.node == curr
      ensures curr in nodes && curr.lowAddr == t.range.low && curr.highAddr == t.range.high && curr.info == t.range.info
      ensures curr.leftChild == Root(t.left) && curr.rightChild == Root(t.right)
      ensures At(nodes, DownLeft(c, t), t.left) && At(nodes, DownRight(c, t), t.right)
    {
      assert Snapshot(nodes)[curr] == CellOf(curr);
      Refocus(nodes, c, t);
    }

    /** Hangs a new node in the slot found by the walk. */
    method Attach(newEntry: Node, slot: Node, asLeft: bool, ghost nodes: set<Node>, ghost c: Ctx, ghost r: Range)
      requires At(nodes, c, Leaf) && !c.Top? && c.node == slot && (asLeft <==> c.LeftOf?)
      requires newEntry !in nodes && CellOf(newEntry) == Cell(Red, r, null, null, null)
      modifies slot, newEntry
      ensures At(nodes + {newEntry}, c, Branch(Leaf, newEntry, Red, r, Leaf)) && tree == old(tree)
    {
      hide Tidy, Zip, Linked, LinkedCtx;
      ghost var m := Snapshot(nodes);
      assert m[slot] == CellOf(slot);
      if asLeft {
        slot.leftChild := newEntry;
      } else {
        slot.rightChild := newEntry;
      }
      newEntry.parent := slot;
      AttachLinked(m, Snapshot(nodes + {newEntry}), root, root, c, newEntry, r);
    }

    /** Puts a new node in the slot found by the walk and rebuilds the tree around it. */
    method Insert(newEntry: Node, slot: Node, asLeft: bool, ghost r: Range, ghost nodes: set<Node>, ghost c: Ctx,
        ghost h: nat)
      requires At(nodes, c, Leaf) && Walking(tree, c, Leaf, h, r.low, r.high) && Tidy(tree)
        && OnTheWay(tree, c, Leaf, r)
      requires !c.Top? && c.node == slot && (asLeft <==> c.LeftOf?)
      requires newEntry !in nodes && CellOf(newEntry) == Cell(Red, r, null, null, null)
      modifies this, nodes, newEntry
      ensures Valid() && Nodes(tree) == nodes + {newEntry}
      ensures Contents() == InsertRange(old(Contents()), r) && ShapeOf(tree) == Inserted(old(ShapeOf(tree)), r)
    {
      ghost var t, s := Branch(Leaf, newEntry, Red, r, Leaf), InsertRange(Contents(), r);
      hide Climb;
      WalkEndsFixing(tree, c, newEntry, h, r);
      InsertTidy(tree, c, newEntry, h, r);
      Attach(newEntry, slot, asLeft, nodes, c, r);
      Rebalance(newEntry, nodes + {newEntry}, c, t, h, s);
    }

    /** The first node of an empty map. */
    method PlantRoot(newEntry: Node, ghost r: Range)
      requires CellOf(newEntry) == Cell(Red, r, null, null, null)
      modifies this, newEntry
      ensures Valid() && Nodes(tree) == {newEntry} && Contents() == [r] && ShapeOf(tree) == Inserted(Nil, r)
    {
      root := newEntry;
      AloneLinked(newEntry, r);
      Rebalance(newEntry, {newEntry}, Top, Branch(Leaf, newEntry, Red, r, Leaf), 0, [r]);
    }

    /** Adds a range; refused (the C code aborts) exactly when it overlaps a stored one. */
    method Add(lowAddr: Addr, highAddr: Addr, info: Info) returns (ok: bool)
      requires Valid() && Separated(Contents()) && lowAddr <= highAddr
      modifies this, Nodes(tree)
      ensures Valid() && Separated(Contents())
      ensures ok <==> forall q :: q in old(Contents()) ==> DisjointRanges(q, Range(lowAddr, highAddr, info))
      ensures Contents() ==
        if ok then InsertRange(old(Contents()), Range(lowAddr, highAddr, info)) else old(Contents())
      ensures !ok ==> tree == old(tree) && root == old(root)
      ensures ok ==> ShapeOf(tree) == Inserted(old(ShapeOf(tree)), Range(lowAddr, highAddr, info))
      ensures fresh(Nodes(tree) - old(Nodes(tree)))
    {
      ghost var r, s, nodes := Range(lowAddr, highAddr, info), Contents(), Nodes(tree);
      assert allocated(nodes);
      var newEntry := new Node(lowAddr, highAddr, info);
      if root == null {
        PlantRoot(newEntry, r);
        ok := true;
      } else {
        var slot, asLeft;
        ghost var c, h;
        ok, slot, asLeft, c, h := Descend(lowAddr, highAddr, r);
        if ok {
          WalkEnds(tree, c, h, r);
          Insert(newEntry, slot, asLeft, r, nodes, c, h);
        }
      }
      if ok {
        InsertKeepsSeparated(s, r);
      }
    }

    lemma AloneLinked(n: Node, r: Range)
      requires root == n && CellOf(n) == Cell(Red, r, null, null, null)
      ensures Rebalancing(n, {n}, Top, Branch(Leaf, n, Red, r, Leaf), 0, [r])
    {
      var t, m := Branch(Leaf, n, Red, r, Leaf), Snapshot({n});
      assert m[n] == CellOf(n);
      assert Linked(m, t, null) && LinkedCtx(m, Top, root, n);
      NewNode(n, r);
      assert ZeroHidden(t);
    }

    /** The closed-range search. */
    method Find(addr: Addr) returns (ret: Option<Info>)
      requires Valid()
      ensures ret == Lookup(tree, addr)
    {
      var currNode := root;
      ghost var c, t := Top, tree;
      while currNode != null
        invariant At(Nodes(tree), c, t) && Root(t) == currNode
        invariant Lookup(tree, addr) == Lookup(t, addr)
        decreases t
      {
        AtNode(currNode, Nodes(tree), c, t);
        if addr < currNode.lowAddr {
          currNode := currNode.leftChild;
          c, t := DownLeft(c, t), t.left;
        } else if addr > currNode.highAddr {
          currNode := currNode.rightChild;
          c, t := DownRight(c, t), t.right;
        } else {
          return Some(currNode.info);
        }
      }
      return None;
    }
  }
}
