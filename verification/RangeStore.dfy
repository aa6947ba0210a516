/** How a tree or a context is stored in linked records.

    `Cells` is a snapshot of the records; whether the snapshot holds a given
    tree or context is a question about values, so that one rotation is one
    lemma about two snapshots.
*/
module RangeStores {
  import opened RangeTrees

  datatype Cell = Cell(color: Color, range: Range, parent: Node?, left: Node?, right: Node?)

  type Cells = map<Node, Cell>

  ghost function CellOf(n: Node): Cell
    reads n
  {
    Cell(n.color, Range(n.lowAddr, n.highAddr, n.info), n.parent, n.leftChild, n.rightChild)
  }

  ghost function Snapshot(nodes: set<Node>): (m: Cells)
    reads nodes
    ensures m.Keys == nodes
  {
    map n | n in nodes :: CellOf(n)
  }

  /** The records `m` hold the tree `t`, its root has parent `p`, and no record is shared. */
  ghost predicate Linked(m: Cells, t: Tree, p: Node?) {
    match t
    case Leaf => true
    case Branch(l, n, col, r, rt) =>
      && n in m && m[n] == Cell(col, r, p, Root(l), Root(rt))
      && n !in Nodes(l) && n !in Nodes(rt) && Nodes(l) !! Nodes(rt)
      && Linked(m, l, n) && Linked(m, rt, n)
  }

  /** The records `m` hold the context `c` of a map with root `root`, whose hole points to `child`. */
  ghost predicate LinkedCtx(m: Cells, c: Ctx, root: Node?, child: Node?) {
    match c
    case Top => root == child
    case LeftOf(up, n, col, r, s) =>
      && n in m && m[n] == Cell(col, r, CtxNode(up), child, Root(s))
      && n !in CtxNodes(up) && n !in Nodes(s) && CtxNodes(up) !! Nodes(s)
      && Linked(m, s, n) && LinkedCtx(m, up, root, n)
    case RightOf(up, s, n, col, r) =>
      && n in m && m[n] == Cell(col, r, CtxNode(up), Root(s), child)
      && n !in CtxNodes(up) && n !in Nodes(s) && CtxNodes(up) !! Nodes(s)
      && Linked(m, s, n) && LinkedCtx(m, up, root, n)
  }

  /** The records hold the tree that `t` makes in the hole of `c`. */
  ghost predicate Zip(m: Cells, root: Node?, c: Ctx, t: Tree) {
    && LinkedCtx(m, c, root, Root(t))
    && Linked(m, t, CtxNode(c))
    && CtxNodes(c) !! Nodes(t)
  }

  ghost predicate Agree(m: Cells, m': Cells, nodes: set<Node>) {
    forall n :: n in nodes && n in m ==> n in m' && m'[n] == m[n]
  }

  lemma {:induction false} LinkedFrame(m: Cells, m': Cells, t: Tree, p: Node?)
    requires Linked(m, t, p) && Agree(m, m', Nodes(t))
    ensures Linked(m', t, p)
  {
    if t.Branch? {
      LinkedFrame(m, m', t.left, t.node);
      LinkedFrame(m, m', t.right, t.node);
    }
  }

  lemma {:induction false} LinkedCtxFrame(m: Cells, m': Cells, c: Ctx, root: Node?, child: Node?)
    requires LinkedCtx(m, c, root, child) && Agree(m, m', CtxNodes(c))
    ensures LinkedCtx(m', c, root, child)
  {
    if !c.Top? {
      LinkedFrame(m, m', c.sibling, c.node);
      LinkedCtxFrame(m, m', c.up, root, c.node);
    }
  }

  /** The hole of `c` now points to `child'`: its record, or the root, has changed and nothing else in `c`. */
  ghost predicate HoleSet(m: Cells, m': Cells, c: Ctx, root: Node?, root': Node?, child': Node?) {
    match c
    case Top => root' == child'
    case LeftOf(up, n, _, _, _) =>
      root' == root && n in m && n in m' && m'[n] == m[n].(left := child') && Agree(m, m', CtxNodes(c) - {n})
    case RightOf(up, _, n, _, _) =>
      root' == root && n in m && n in m' && m'[n] == m[n].(right := child') && Agree(m, m', CtxNodes(c) - {n})
  }

  lemma HoleSetLinked(m: Cells, m': Cells, c: Ctx, root: Node?, root': Node?, child: Node?, child': Node?)
    requires LinkedCtx(m, c, root, child) && HoleSet(m, m', c, root, root', child')
    ensures LinkedCtx(m', c, root', child')
  {
    if !c.Top? {
      LinkedFrame(m, m', c.sibling, c.node);
      LinkedCtxFrame(m, m', c.up, root, c.node);
    }
  }

  /** The subtree `b` now has parent `q`: its root record has changed and nothing else in `b`. */
  ghost predicate ParentSet(m: Cells, m': Cells, b: Tree, q: Node?) {
    b.Branch? ==>
      && b.node in m && b.node in m' && m'[b.node] == m[b.node].(parent := q)
      && Agree(m, m', Nodes(b) - {b.node})
  }

  lemma ParentSetLinked(m: Cells, m': Cells, b: Tree, p: Node?, q: Node?)
    requires Linked(m, b, p) && ParentSet(m, m', b, q)
    ensures Linked(m', b, q)
  {
    if b.Branch? {
      LinkedFrame(m, m', b.left, b.node);
      LinkedFrame(m, m', b.right, b.node);
    }
  }

  /** From `m` to `m'`, the child slot of `p` that held `x` came to hold `y`. */
  ghost predicate ChildReplaced(m: Cells, m': Cells, p: Node?, x: Node, y: Node) {
    p != null ==>
      p in m && p in m' && m'[p] == if m[p].left == x then m[p].(left := y) else m[p].(right := y)
  }

  ghost predicate Reparented(m: Cells, m': Cells, b: Node?, q: Node) {
    b != null ==> b in m && b in m' && m'[b] == m[b].(parent := q)
  }

  /** From `m` to `m'`, the pointers changed as a left rotation at `x` changes them. */
  ghost predicate LeftRotatedCells(m: Cells, m': Cells, x: Node, y: Node) {
    && m'.Keys == m.Keys && x in m && y in m
    && m'[x] == m[x].(right := m[y].left, parent := y)
    && m'[y] == m[y].(left := x, parent := m[x].parent)
    && Reparented(m, m', m[y].left, x) && ChildReplaced(m, m', m[x].parent, x, y)
    && forall n :: n in m && n != x && n != y && n != m[y].left && n != m[x].parent ==> m'[n] == m[n]
  }

  ghost predicate RightRotatedCells(m: Cells, m': Cells, x: Node, y: Node) {
    && m'.Keys == m.Keys && x in m && y in m
    && m'[x] == m[x].(left := m[y].right, parent := y)
    && m'[y] == m[y].(right := x, parent := m[x].parent)
    && Reparented(m, m', m[y].right, x) && ChildReplaced(m, m', m[x].parent, x, y)
    && forall n :: n in m && n != x && n != y && n != m[y].right && n != m[x].parent ==> m'[n] == m[n]
  }

  lemma LeftRotationHole(m: Cells, m': Cells, root: Node?, root': Node?, c: Ctx, t: Tree)
    requires Zip(m, root, c, t) && t.Branch? && t.right.Branch?
    requires LeftRotatedCells(m, m', t.node, t.right.node)
    requires root' == if c.Top? then t.right.node else root
    ensures LinkedCtx(m', c, root', t.right.node)
  {
    var x, y := t.node, t.right.node;
    assert Linked(m, t.right, x) && Linked(m, t.right.left, y);
    HoleSetLinked(m, m', c, root, root', x, y);
  }

  lemma RightRotationHole(m: Cells, m': Cells, root: Node?, root': Node?, c: Ctx, t: Tree)
    requires Zip(m, root, c, t) && t.Branch? && t.left.Branch?
    requires RightRotatedCells(m, m', t.node, t.left.node)
    requires root' == if c.Top? then t.left.node else root
    ensures LinkedCtx(m', c, root', t.left.node)
  {
    var x, y := t.node, t.left.node;
    assert Linked(m, t.left, x) && Linked(m, t.left.right, y);
    HoleSetLinked(m, m', c, root, root', x, y);
  }

  lemma LeftRotationLinked(m: Cells, m': Cells, root: Node?, root': Node?, c: Ctx, t: Tree)
    requires Zip(m, root, c, t) && t.Branch? && t.right.Branch?
    requires LeftRotatedCells(m, m', t.node, t.right.node)
    requires root' == if c.Top? then t.right.node else root
    ensures Zip(m', root', c, RotatedLeft(t)) && Nodes(RotatedLeft(t)) == Nodes(t)
  {
    var x, y := t.node, t.right.node;
    assert Linked(m, t.right, x) && Linked(m, t.right.left, y);
    LeftRotationHole(m, m', root, root', c, t);
    LinkedFrame(m, m', t.left, x);
    ParentSetLinked(m, m', t.right.left, y, x);
    LinkedFrame(m, m', t.right.right, y);
  }

  lemma RightRotationLinked(m: Cells, m': Cells, root: Node?, root': Node?, c: Ctx, t: Tree)
    requires Zip(m, root, c, t) && t.Branch? && t.left.Branch?
    requires RightRotatedCells(m, m', t.node, t.left.node)
    requires root' == if c.Top? then t.left.node else root
    ensures Zip(m', root', c, RotatedRight(t)) && Nodes(RotatedRight(t)) == Nodes(t)
  {
    var x, y := t.node, t.left.node;
    assert Linked(m, t.left, x) && Linked(m, t.left.right, y);
    RightRotationHole(m, m', root, root', c, t);
    LinkedFrame(m, m', t.right, x);
    ParentSetLinked(m, m', t.left.right, y, x);
    LinkedFrame(m, m', t.left.left, y);
  }

  /** Moving the focus one level up or down changes nothing in the records. */
  lemma ZipUp(m: Cells, root: Node?, c: Ctx, t: Tree)
    requires !c.Top?
    ensures Zip(m, root, c, t) <==> Zip(m, root, c.up, UpTree(c, t))
    ensures CtxNodes(c) + Nodes(t) == CtxNodes(c.up) + Nodes(UpTree(c, t))
  {
  }

  lemma {:induction false} RootInCtx(m: Cells, c: Ctx, root: Node?, child: Node?)
    requires LinkedCtx(m, c, root, child) && !c.Top?
    ensures root != null && root in CtxNodes(c)
  {
    if !c.up.Top? { RootInCtx(m, c.up, root, c.node); }
  }

  lemma RootPainted(m: Cells, m': Cells, root: Node, w: Tree)
    requires Zip(m, root, Top, w) && w.Branch? && root in m && m'.Keys == m.Keys
    requires m'[root] == m[root].(color := Black) && forall n :: n in m && n != root ==> m'[n] == m[n]
    ensures Zip(m', root, Top, w.(color := Black)) && Nodes(w.(color := Black)) == Nodes(w)
  {
    LinkedFrame(m, m', w.left, w.node);
    LinkedFrame(m, m', w.right, w.node);
  }

  /** Changing the range of the record at the focus. */
  lemma RangeSet(m: Cells, m': Cells, root: Node?, c: Ctx, t: Tree, r: Range)
    requires Zip(m, root, c, t) && t.Branch? && t.node in m && m'.Keys == m.Keys
    requires m'[t.node] == m[t.node].(range := r) && forall n :: n in m && n != t.node ==> m'[n] == m[n]
    ensures Zip(m', root, c, t.(range := r)) && Nodes(t.(range := r)) == Nodes(t)
  {
    LinkedFrame(m, m', t.left, t.node);
    LinkedFrame(m, m', t.right, t.node);
    LinkedCtxFrame(m, m', c, root, t.node);
  }

  /** What the records around the focus hold: its parent, and the link back. */
  lemma Surroundings(m: Cells, root: Node?, c: Ctx, t: Tree)
    requires Zip(m, root, c, t) && t.Branch? && !c.Top? && !c.up.Top?
    ensures Zip(m, root, c.up, UpTree(c, t)) && Zip(m, root, c.up.up, GrandTree(c, t))
    ensures CtxNodes(c) + Nodes(t) == CtxNodes(c.up) + Nodes(UpTree(c, t)) == CtxNodes(c.up.up) + Nodes(GrandTree(c, t))
    ensures t.node in m && c.node in m && c.up.node in m
    ensures m[t.node].parent == c.node && m[c.node].parent == c.up.node
    ensures m[c.node].left == t.node <==> c.LeftOf?
    ensures m[c.node].right == t.node <==> c.RightOf?
    ensures m[c.up.node].left == c.node <==> c.up.LeftOf?
    ensures if c.up.LeftOf? then m[c.up.node].right == Root(c.up.sibling) else m[c.up.node].left == Root(c.up.sibling)
    ensures c.up.sibling.Branch? ==> c.up.sibling.node in m && m[c.up.sibling.node].color == c.up.sibling.color
  {
    ZipUp(m, root, c, t);
    ZipUp(m, root, c.up, UpTree(c, t));
  }

  /** Hanging a new red record with no children in an empty slot. */
  lemma AttachLinked(m: Cells, m': Cells, root: Node?, root': Node?, c: Ctx, n: Node, r: Range)
    requires Zip(m, root, c, Leaf) && n !in m && m.Keys == CtxNodes(c)
    requires n in m' && m'[n] == Cell(Red, r, CtxNode(c), null, null)
    requires HoleSet(m, m', c, root, root', n)
    ensures Zip(m', root', c, Branch(Leaf, n, Red, r, Leaf))
  {
    HoleSetLinked(m, m', c, root, root', null, n);
  }

  /** From `m` to `m'`, the colours of the listed records changed and nothing else. */
  ghost predicate ColorsSet(m: Cells, m': Cells, colors: map<Node, Color>) {
    && m'.Keys == m.Keys && colors.Keys <= m.Keys
    && forall n :: n in m ==> m'[n] == if n in colors then m[n].(color := colors[n]) else m[n]
  }

  function Colored(t: Tree, colors: map<Node, Color>): Tree {
    match t
    case Leaf => Leaf
    case Branch(l, n, col, r, rt) =>
      Branch(Colored(l, colors), n, if n in colors then colors[n] else col, r, Colored(rt, colors))
  }

  lemma {:induction false} ColorsSetLinked(m: Cells, m': Cells, t: Tree, p: Node?, colors: map<Node, Color>)
    requires Linked(m, t, p) && ColorsSet(m, m', colors)
    ensures Linked(m', Colored(t, colors), p)
    ensures Nodes(Colored(t, colors)) == Nodes(t) && Root(Colored(t, colors)) == Root(t)
  {
    if t.Branch? {
      ColorsSetLinked(m, m', t.left, t.node, colors);
      ColorsSetLinked(m, m', t.right, t.node, colors);
    }
  }

  lemma {:induction false} ColoredOutside(t: Tree, colors: map<Node, Color>)
    requires colors.Keys !! Nodes(t)
    ensures Colored(t, colors) == t
  {
    if t.Branch? {
      ColoredOutside(t.left, colors);
      ColoredOutside(t.right, colors);
    }
  }

  lemma ZipColored(m: Cells, m': Cells, root: Node?, c: Ctx, t: Tree, colors: map<Node, Color>)
    requires Zip(m, root, c, t) && ColorsSet(m, m', colors) && colors.Keys <= Nodes(t)
    ensures Zip(m', root, c, Colored(t, colors))
    ensures Nodes(Colored(t, colors)) == Nodes(t)
  {
    ColorsSetLinked(m, m', t, CtxNode(c), colors);
    LinkedCtxFrame(m, m', c, root, Root(t));
  }

  function FamilyCell(cell: Cell, n: Node, left: Node, right: Node, grand: Node): Cell {
    if n == grand then cell.(color := Red) else if n == left || n == right then cell.(color := Black) else cell
  }

  lemma PushLinked(m: Cells, m': Cells, root: Node?, c: Ctx, g: Tree)
    requires Zip(m, root, c, g) && g.Branch? && g.left.Branch? && g.right.Branch?
    requires m'.Keys == m.Keys
    requires forall n :: n in m ==> m'[n] == FamilyCell(m[n], n, g.left.node, g.right.node, g.node)
    ensures Zip(m', root, c, Pushed(g)) && Nodes(Pushed(g)) == Nodes(g)
  {
    var colors := map[g.node := Red, g.left.node := Black, g.right.node := Black];
    assert Linked(m, g.left, g.node) && Linked(m, g.right, g.node);
    ColoredOutside(g.left.left, colors);
    ColoredOutside(g.left.right, colors);
    ColoredOutside(g.right.left, colors);
    ColoredOutside(g.right.right, colors);
    ZipColored(m, m', root, c, g, colors);
    assert Colored(g.left, colors) == g.left.(color := Black);
    assert Colored(g.right, colors) == g.right.(color := Black);
  }

  lemma LeftEdgeLinked(m: Cells, m': Cells, root: Node?, c: Ctx, g: Tree)
    requires Zip(m, root, c, g) && g.Branch? && g.left.Branch?
    requires ColorsSet(m, m', map[g.node := Red, g.left.node := Black])
    ensures Zip(m', root, c, LeftEdgePainted(g)) && Nodes(LeftEdgePainted(g)) == Nodes(g)
  {
    var colors := map[g.node := Red, g.left.node := Black];
    assert Linked(m, g.left, g.node);
    ColoredOutside(g.left.left, colors);
    ColoredOutside(g.left.right, colors);
    ColoredOutside(g.right, colors);
    ZipColored(m, m', root, c, g, colors);
    assert Colored(g.left, colors) == g.left.(color := Black);
  }

  lemma RightEdgeLinked(m: Cells, m': Cells, root: Node?, c: Ctx, g: Tree)
    requires Zip(m, root, c, g) && g.Branch? && g.right.Branch?
    requires ColorsSet(m, m', map[g.node := Red, g.right.node := Black])
    ensures Zip(m', root, c, RightEdgePainted(g)) && Nodes(RightEdgePainted(g)) == Nodes(g)
  {
    var colors := map[g.node := Red, g.right.node := Black];
    assert Linked(m, g.right, g.node);
    ColoredOutside(g.right.left, colors);
    ColoredOutside(g.right.right, colors);
    ColoredOutside(g.left, colors);
    ZipColored(m, m', root, c, g, colors);
    assert Colored(g.right, colors) == g.right.(color := Black);
  }

  lemma {:induction false} PlugLinked(m: Cells, root: Node?, c: Ctx, t: Tree)
    requires Zip(m, root, c, t)
    ensures Zip(m, root, Top, Plug(c, t))
    decreases c
  {
    match c
    case Top =>
    case LeftOf(up, n, col, r, s) => PlugLinked(m, root, up, Branch(t, n, col, r, s));
    case RightOf(up, s, n, col, r) => PlugLinked(m, root, up, Branch(s, n, col, r, t));
  }
}
