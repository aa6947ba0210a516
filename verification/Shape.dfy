/** Insertion into a red-black tree as a recursive function on values, without records and parent pointers; the
    insertion walk and the re-balancing loop do what it says.
*/
module Shapes {
  import opened Options
  import opened RangeTrees
  import opened ZeroOrders

  datatype Shape =
    | Nil
    | Fork(left: Shape, color: Color, range: Range, right: Shape)

  /** A tree without its records. */
  function ShapeOf(t: Tree): Shape {
    match t
    case Leaf => Nil
    case Branch(l, _, col, q, r) => Fork(ShapeOf(l), col, q, ShapeOf(r))
  }

  predicate RedShape(s: Shape) {
    s.Fork? && s.color == Red
  }

  function TurnLeft(s: Shape): Shape
    requires s.Fork? && s.right.Fork?
  {
    var y := s.right;
    Fork(Fork(s.left, s.color, s.range, y.left), y.color, y.range, y.right)
  }

  function TurnRight(s: Shape): Shape
    requires s.Fork? && s.left.Fork?
  {
    var y := s.left;
    Fork(y.left, y.color, y.range, Fork(y.right, s.color, s.range, s.right))
  }

  function Painted(s: Shape, col: Color): Shape {
    if s.Nil? then Nil else s.(color := col)
  }

  predicate RedEdge(s: Shape) {
    RedShape(s) && (RedShape(s.left) || RedShape(s.right))
  }

  /** After something was put in on the left: a red left child with a red child of its own is repaired here, by
      recolouring if the right child is red as well, and by one or two rotations otherwise. */
  function MendedLeft(g: Shape): Shape
    requires g.Fork?
  {
    if !RedEdge(g.left) then g
    else if RedShape(g.right) then Fork(Painted(g.left, Black), Red, g.range, Painted(g.right, Black))
    else
      var p := if RedShape(g.left.right) then TurnLeft(g.left) else g.left;
      TurnRight(Fork(Painted(p, Black), Red, g.range, g.right))
  }

  function MendedRight(g: Shape): Shape
    requires g.Fork?
  {
    if !RedEdge(g.right) then g
    else if RedShape(g.left) then Fork(Painted(g.left, Black), Red, g.range, Painted(g.right, Black))
    else
      var p := if RedShape(g.right.left) then TurnRight(g.right) else g.right;
      TurnLeft(Fork(g.left, Red, g.range, Painted(p, Black)))
  }

  /** A new red node in its place, and every level above it mended. */
  function Grow(s: Shape, r: Range): Shape {
    match s
    case Nil => Fork(Nil, Red, r, Nil)
    case Fork(left, col, q, right) =>
      if r.high <= q.low then MendedLeft(Fork(Grow(left, r), col, q, right))
      else MendedRight(Fork(left, col, q, Grow(right, r)))
  }

  /** The tree with one more range. */
  function Inserted(s: Shape, r: Range): Shape {
    Painted(Grow(s, r), Black)
  }

  /** The levels above a hole, mended one after the other. */
  function Climb(c: Ctx, s: Shape): Shape
    decreases c
  {
    match c
    case Top => s
    case LeftOf(up, _, col, q, sib) => Climb(up, MendedLeft(Fork(s, col, q, ShapeOf(sib))))
    case RightOf(up, sib, _, col, q) => Climb(up, MendedRight(Fork(ShapeOf(sib), col, q, s)))
  }

  // ----- the walk -----

  /** The walk from the root of `w` is on the way of the recursion. */
  ghost predicate OnTheWay(w: Tree, c: Ctx, t: Tree, r: Range) {
    Grow(ShapeOf(w), r) == Climb(c, Grow(ShapeOf(t), r))
  }

  lemma WayLeft(w: Tree, c: Ctx, t: Tree, r: Range)
    requires OnTheWay(w, c, t, r) && t.Branch? && r.high <= t.range.low
    ensures OnTheWay(w, DownLeft(c, t), t.left, r)
  {
  }

  lemma WayRight(w: Tree, c: Ctx, t: Tree, r: Range)
    requires OnTheWay(w, c, t, r) && t.Branch? && !(r.high <= t.range.low)
    ensures OnTheWay(w, DownRight(c, t), t.right, r)
  {
  }

  // ----- the loop -----

  /** A level where there is nothing to mend. */
  lemma NoRedEdge(c: Ctx, t: Tree)
    requires !c.Top? && !RedEdge(ShapeOf(t))
    ensures Climb(c, ShapeOf(t)) == Climb(c.up, ShapeOf(UpTree(c, t)))
  {
  }

  /** The children of a red node are not red. */
  lemma GoodEdge(t: Tree, h: nat)
    requires Good(t, h)
    ensures !RedEdge(ShapeOf(t))
  {
    if t.Branch? { assert RedShape(ShapeOf(t.left)) == IsRed(t.left) && RedShape(ShapeOf(t.right)) == IsRed(t.right); }
  }

  /** Two levels: nothing to mend at the red parent. */
  lemma TwoLevels(c: Ctx, t: Tree, h: nat, s: seq<Range>)
    requires Fixing(c, t, h, s) && CtxRed(c) && !c.up.Top?
    ensures var g := ShapeOf(GrandTree(c, t));
      Climb(c, ShapeOf(t)) == Climb(c.up.up, if c.up.LeftOf? then MendedLeft(g) else MendedRight(g))
  {
    hide Climb;
    GoodEdge(t, h);
    NoRedEdge(c, t);
    LevelUp(c.up, UpTree(c, t));
  }

  lemma LevelUp(c: Ctx, t: Tree)
    requires !c.Top?
    ensures var g := ShapeOf(UpTree(c, t));
      Climb(c, ShapeOf(t)) == Climb(c.up, if c.LeftOf? then MendedLeft(g) else MendedRight(g))
  {
  }

  lemma PushClimbs(c: Ctx, t: Tree, h: nat, s: seq<Range>)
    requires Fixing(c, t, h, s) && CtxRed(c) && !c.up.Top? && IsRed(c.up.sibling)
    ensures Climb(c.up.up, ShapeOf(Pushed(GrandTree(c, t)))) == Climb(c, ShapeOf(t))
  {
    hide Climb;
    TwoLevels(c, t, h, s);
  }

  lemma SameColor(t: Tree)
    ensures RedShape(ShapeOf(t)) == IsRed(t)
  {
  }

  lemma OuterLeftMended(g: Tree)
    requires g.Branch? && IsRed(g.left) && IsRed(g.left.left) && !IsRed(g.left.right) && !IsRed(g.right)
    ensures MendedLeft(ShapeOf(g)) == ShapeOf(RotatedRight(LeftEdgePainted(g)))
  {
    SameColor(g.left.left);
    SameColor(g.left.right);
    SameColor(g.right);
  }

  lemma OuterRightMended(g: Tree)
    requires g.Branch? && IsRed(g.right) && IsRed(g.right.right) && !IsRed(g.right.left) && !IsRed(g.left)
    ensures MendedRight(ShapeOf(g)) == ShapeOf(RotatedLeft(RightEdgePainted(g)))
  {
    SameColor(g.right.right);
    SameColor(g.right.left);
    SameColor(g.left);
  }

  lemma OuterLeftClimbs(c: Ctx, t: Tree, h: nat, s: seq<Range>)
    requires Fixing(c, t, h, s) && CtxRed(c) && c.LeftOf? && c.up.LeftOf? && !IsRed(c.up.sibling)
    ensures var r := RotatedRight(LeftEdgePainted(GrandTree(c, t)));
      Climb(DownLeft(c.up.up, r), ShapeOf(r.left)) == Climb(c, ShapeOf(t))
  {
    hide Climb;
    var r := RotatedRight(LeftEdgePainted(GrandTree(c, t)));
    TwoLevels(c, t, h, s);
    GoodEdge(t, h);
    NoRedEdge(DownLeft(c.up.up, r), r.left);
    assert UpTree(DownLeft(c.up.up, r), r.left) == r;
    OuterLeftMended(GrandTree(c, t));
  }

  lemma OuterRightClimbs(c: Ctx, t: Tree, h: nat, s: seq<Range>)
    requires Fixing(c, t, h, s) && CtxRed(c) && c.RightOf? && c.up.RightOf? && !IsRed(c.up.sibling)
    ensures var r := RotatedLeft(RightEdgePainted(GrandTree(c, t)));
      Climb(DownRight(c.up.up, r), ShapeOf(r.right)) == Climb(c, ShapeOf(t))
  {
    hide Climb;
    var r := RotatedLeft(RightEdgePainted(GrandTree(c, t)));
    TwoLevels(c, t, h, s);
    GoodEdge(t, h);
    NoRedEdge(DownRight(c.up.up, r), r.right);
    assert UpTree(DownRight(c.up.up, r), r.right) == r;
    OuterRightMended(GrandTree(c, t));
  }

  lemma InnerLeftClimbs(c: Ctx, t: Tree, h: nat, s: seq<Range>)
    requires Fixing(c, t, h, s) && CtxRed(c) && c.RightOf? && c.up.LeftOf? && !IsRed(c.up.sibling)
    ensures var r := RotatedLeft(UpTree(c, t));
      Climb(DownLeft(c.up, r), ShapeOf(r.left)) == Climb(c, ShapeOf(t))
  {
    hide Climb;
    var r := RotatedLeft(UpTree(c, t));
    TwoLevels(c, t, h, s);
    InnerLeftKeepsFixing(c, t, h, s);
    TwoLevels(DownLeft(c.up, r), r.left, h, s);
    GoodEdge(t, h);
  }

  lemma InnerRightClimbs(c: Ctx, t: Tree, h: nat, s: seq<Range>)
    requires Fixing(c, t, h, s) && CtxRed(c) && c.LeftOf? && c.up.RightOf? && !IsRed(c.up.sibling)
    ensures var r := RotatedRight(UpTree(c, t));
      Climb(DownRight(c.up, r), ShapeOf(r.right)) == Climb(c, ShapeOf(t))
  {
    hide Climb;
    var r := RotatedRight(UpTree(c, t));
    TwoLevels(c, t, h, s);
    InnerRightKeepsFixing(c, t, h, s);
    TwoLevels(DownRight(c.up, r), r.right, h, s);
    GoodEdge(t, h);
  }

  /** When the loop ends there is nothing left to mend. */
  lemma {:induction false} LoopEnds(c: Ctx, t: Tree, h: nat)
    requires Good(t, h) && GoodCtx(c, h) && !(IsRed(t) && CtxRed(c))
    ensures Climb(c, ShapeOf(t)) == ShapeOf(Plug(c, t))
    decreases c
  {
    if !c.Top? {
      GoodEdge(t, h);
      NoRedEdge(c, t);
      LoopEnds(c.up, UpTree(c, t), if c.color.Black? then h + 1 else h);
    }
  }

  // ----- the search, and where the ranges at address 0 are -----

  function FindIn(s: Shape, addr: Addr): Option<Info> {
    match s
    case Nil => None
    case Fork(l, _, q, r) =>
      if addr < q.low then FindIn(l, addr)
      else if addr > q.high then FindIn(r, addr)
      else Some(q.info)
  }

  lemma {:induction false} FindInTree(t: Tree, addr: Addr)
    ensures Lookup(t, addr) == FindIn(ShapeOf(t), addr)
  {
    if t.Branch? {
      FindInTree(t.left, addr);
      FindInTree(t.right, addr);
    }
  }

  function FirstStart(s: Shape): Addr
    requires s.Fork?
  {
    if s.left.Nil? then s.range.low else FirstStart(s.left)
  }

  /** Walking left from the root, the first range at address 0 has no other one on its right. */
  predicate HiddenZero(s: Shape) {
    match s
    case Nil => true
    case Fork(l, _, q, r) => if q.low > 0 then HiddenZero(l) else r.Nil? || FirstStart(r) > 0
  }

  lemma {:induction false} FirstStartOf(t: Tree)
    requires t.Branch?
    ensures FirstStart(ShapeOf(t)) == FirstLow(t)
  {
    if t.left.Branch? { FirstStartOf(t.left); }
  }

  lemma {:induction false} HiddenZeroOf(t: Tree)
    ensures HiddenZero(ShapeOf(t)) == ZeroHidden(t)
  {
    if t.Branch? {
      HiddenZeroOf(t.left);
      if t.right.Branch? { FirstStartOf(t.right); }
    }
  }
}
