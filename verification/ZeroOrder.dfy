/** Where the nodes at address 0 are in a tree of points, and what insertion and re-balancing do to them.

    The first entry at address 0 must not lie below a later one on the search path; see PatchedRanges.
*/
module ZeroOrders {
  import opened RangeTrees

  function FirstLow(t: Tree): Addr
    requires t.Branch?
  {
    if t.left.Leaf? then t.range.low else FirstLow(t.left)
  }

  lemma {:induction false} FirstLowIsFirst(t: Tree)
    requires t.Branch?
    ensures InOrder(t) != [] && InOrder(t)[0].low == FirstLow(t)
  {
    if t.left.Branch? { FirstLowIsFirst(t.left); }
  }

  ghost predicate SortedStarts(s: seq<Range>) {
    forall i, j :: 0 <= i < j < |s| ==> s[i].low <= s[j].low
  }

  ghost predicate Points(s: seq<Range>) {
    forall i :: 0 <= i < |s| ==> s[i].low == s[i].high
  }

  /** Walking left from the root, the first node at address 0 has no other node at address 0 on its right. */
  predicate ZeroHidden(t: Tree) {
    match t
    case Leaf => true
    case Branch(l, _, _, q, r) => if q.low > 0 then ZeroHidden(l) else r.Leaf? || FirstLow(r) > 0
  }

  /** No three ranges start at address 0. */
  ghost predicate AtMostTwoZeros(s: seq<Range>) {
    |s| > 2 ==> s[2].low > 0
  }

  /** Points, sorted, with at most two of them at address 0. */
  ghost predicate FewZeros(s: seq<Range>) {
    Points(s) && SortedStarts(s) && AtMostTwoZeros(s)
  }

  /** A tree of points with at most two of them at address 0 has them in the right places. */
  ghost predicate Tidy(t: Tree) {
    FewZeros(InOrder(t)) ==> ZeroHidden(t)
  }

  // ----- replacing a subtree -----

  /** Replacing a subtree by one with the same ranges. */
  lemma {:induction false} PlugHidden(c: Ctx, t: Tree, t': Tree)
    requires t.Branch? && t'.Branch? && InOrder(t) == InOrder(t')
    requires ZeroHidden(t) ==> ZeroHidden(t')
    ensures ZeroHidden(Plug(c, t)) ==> ZeroHidden(Plug(c, t'))
    decreases c
  {
    if !c.Top? {
      FirstLowIsFirst(t);
      FirstLowIsFirst(t');
      PlugHidden(c.up, UpTree(c, t), UpTree(c, t'));
    }
  }

  /** Replacing a right subtree does not change which node at address 0 comes first. */
  lemma RightPlugHidden(c: Ctx, t: Tree, t': Tree)
    requires t.Branch? && t'.Branch? && InOrder(t) == InOrder(t') && c.RightOf?
    ensures ZeroHidden(Plug(c, t)) ==> ZeroHidden(Plug(c, t'))
  {
    FirstLowIsFirst(t);
    FirstLowIsFirst(t');
    PlugHidden(c.up, UpTree(c, t), UpTree(c, t'));
  }

  lemma SameOrderTidy(c: Ctx, t: Tree, t': Tree)
    requires InOrder(t) == InOrder(t') && Tidy(Plug(c, t))
    requires FewZeros(InOrder(Plug(c, t))) && ZeroHidden(Plug(c, t)) ==> ZeroHidden(Plug(c, t'))
    ensures Tidy(Plug(c, t'))
  {
    PlugKeepsOrder(c, t, t');
  }

  /** The range at place `i` of a subtree has at least `i` ranges before it. */
  lemma PlaceInWhole(c: Ctx, t: Tree, i: nat)
    requires i < |InOrder(t)|
    ensures |Before(c)| + i < |InOrder(Plug(c, t))| && InOrder(Plug(c, t))[|Before(c)| + i] == InOrder(t)[i]
  {
    PlugInOrder(c, t);
  }

  // ----- re-balancing -----

  lemma SameInOrder(t: Tree, col: Color)
    requires t.Branch?
    ensures InOrder(t.(color := col)) == InOrder(t) && ZeroHidden(t.(color := col)) == ZeroHidden(t)
    ensures FirstLow(t.(color := col)) == FirstLow(t)
  {
  }

  /** Colours do not matter. */
  lemma PaintTidy(c: Ctx, g: Tree)
    requires g.Branch? && g.left.Branch? && g.right.Branch? && Tidy(Plug(c, g))
    ensures Tidy(Plug(c, Pushed(g)))
  {
    SameInOrder(g.left, Black);
    SameInOrder(g.right, Black);
    PlugHidden(c, g, Pushed(g));
    SameOrderTidy(c, g, Pushed(g));
  }

  lemma LeftEdgeTidy(c: Ctx, g: Tree)
    requires g.Branch? && g.left.Branch? && Tidy(Plug(c, g))
    ensures Tidy(Plug(c, LeftEdgePainted(g)))
  {
    SameInOrder(g.left, Black);
    PlugHidden(c, g, LeftEdgePainted(g));
    SameOrderTidy(c, g, LeftEdgePainted(g));
  }

  lemma RightEdgeTidy(c: Ctx, g: Tree)
    requires g.Branch? && g.right.Branch? && Tidy(Plug(c, g))
    ensures Tidy(Plug(c, RightEdgePainted(g)))
  {
    SameInOrder(g.right, Black);
    PlugHidden(c, g, RightEdgePainted(g));
    SameOrderTidy(c, g, RightEdgePainted(g));
  }

  lemma RootTidy(t: Tree)
    requires t.Branch? && Tidy(t)
    ensures Tidy(t.(color := Black))
  {
  }

  /** A left rotation never brings a node at address 0 above another. */
  lemma LeftRotationHidden(t: Tree)
    requires t.Branch? && t.right.Branch? && ZeroHidden(t)
    requires t.range.low <= t.right.range.low && FirstLow(t.right) <= t.right.range.low
    ensures ZeroHidden(RotatedLeft(t))
  {
    var x := Branch(t.left, t.node, t.color, t.range, t.right.left);
    assert t.right.range.low > 0 ==> ZeroHidden(RotatedLeft(t)) == ZeroHidden(x);
  }

  lemma LeftRotationTidy(c: Ctx, t: Tree)
    requires t.Branch? && t.right.Branch? && Tidy(Plug(c, t))
    ensures Tidy(Plug(c, RotatedLeft(t)))
  {
    LeftRotationKeepsOrder(t);
    if FewZeros(InOrder(Plug(c, t))) {
      var s, x := InOrder(t), |InOrder(t.left)|;
      var y := x + 1 + |InOrder(t.right.left)|;
      assert s[x] == t.range && s[y] == t.right.range;
      FirstLowIsFirst(t.right);
      assert s[x + 1] == InOrder(t.right)[0];
      PlaceInWhole(c, t, x);
      PlaceInWhole(c, t, x + 1);
      PlaceInWhole(c, t, y);
      if ZeroHidden(t) { LeftRotationHidden(t); }
      PlugHidden(c, t, RotatedLeft(t));
    }
    SameOrderTidy(c, t, RotatedLeft(t));
  }

  lemma ThirdIsPositive(s: seq<Range>, i: nat)
    requires FewZeros(s) && 2 <= i < |s|
    ensures s[i].low > 0
  {
  }

  lemma OuterRotationHidden(t: Tree)
    requires t.Branch? && t.left.Branch? && t.range.low > 0 && ZeroHidden(t)
    ensures ZeroHidden(RotatedRight(t))
  {
    var x := Branch(t.left.right, t.node, t.color, t.range, t.right);
    assert FirstLow(x) == if t.left.right.Leaf? then t.range.low else FirstLow(t.left.right);
    assert ZeroHidden(t) == ZeroHidden(t.left);
  }

  /** The right rotation of an outer grandchild lifts a node with another node below on its left, so it would need
      a third node at address 0 to bring one of them above another. */
  lemma OuterRotationTidy(c: Ctx, t: Tree)
    requires t.Branch? && t.left.Branch? && t.left.left.Branch? && Tidy(Plug(c, t))
    ensures Tidy(Plug(c, RotatedRight(t)))
  {
    RightRotationKeepsOrder(t);
    if FewZeros(InOrder(Plug(c, t))) {
      var s, y := InOrder(t), |InOrder(t.left.left)|;
      var x := y + 1 + |InOrder(t.left.right)|;
      FirstLowIsFirst(t.left.left);
      assert s[y] == t.left.range && s[x] == t.range;
      PlaceInWhole(c, t, x);
      ThirdIsPositive(InOrder(Plug(c, t)), |Before(c)| + x);
      if ZeroHidden(t) { OuterRotationHidden(t); }
      PlugHidden(c, t, RotatedRight(t));
    }
    SameOrderTidy(c, t, RotatedRight(t));
  }

  /** The right rotation of an inner grandchild happens in a right subtree. */
  lemma InnerRotationTidy(c: Ctx, t: Tree)
    requires t.Branch? && t.left.Branch? && c.RightOf? && Tidy(Plug(c, t))
    ensures Tidy(Plug(c, RotatedRight(t)))
  {
    RightRotationKeepsOrder(t);
    RightPlugHidden(c, t, RotatedRight(t));
    SameOrderTidy(c, t, RotatedRight(t));
  }

  // ----- insertion -----

  /** `t'` is `t` with a range more that starts at `low`. */
  ghost predicate Grown(t: Tree, t': Tree, low: Addr) {
    && t'.Branch? && (ZeroHidden(t) ==> ZeroHidden(t'))
    && (FirstLow(t') == low || (t.Branch? && FirstLow(t') == FirstLow(t)))
  }

  lemma {:induction false} GrownHidden(c: Ctx, t: Tree, t': Tree, low: Addr)
    requires Grown(t, t', low) && forall q :: q in Before(c) ==> q.low < low
    ensures ZeroHidden(Plug(c, t)) ==> ZeroHidden(Plug(c, t'))
    decreases c
  {
    if !c.Top? {
      if c.RightOf? { assert c.range in Before(c); }
      GrownHidden(c.up, UpTree(c, t), UpTree(c, t'), low);
    }
  }

  /** A new point keeps the nodes at address 0 in place: one at address 0 becomes the leftmost node. */
  lemma InsertTidy(w: Tree, c: Ctx, n: Node, h: nat, r: Range)
    requires Walking(w, c, Leaf, h, r.low, r.high) && Tidy(w)
    ensures Tidy(Plug(c, Branch(Leaf, n, Red, r, Leaf)))
  {
    var t := Branch(Leaf, n, Red, r, Leaf);
    PlugInOrder(c, Leaf);
    PlugInOrder(c, t);
    var s, u := InOrder(w), InOrder(Plug(c, t));
    NewNode(n, r);
    assert u == Before(c) + [r] + After(c) && s == Before(c) + After(c);
    if FewZeros(u) {
      assert u[|Before(c)|] == r;
      OneLess(Before(c), r, After(c));
      GrownHidden(c, Leaf, t, r.low);
    }
  }

  lemma OneLess(a: seq<Range>, r: Range, b: seq<Range>)
    requires FewZeros(a + [r] + b)
    ensures FewZeros(a + b)
  {
    var u, s := a + [r] + b, a + b;
    forall i | 0 <= i < |s| ensures s[i] == u[if i < |a| then i else i + 1] {
    }
    if |s| > 2 { assert u[2].low <= u[if 2 < |a| then 2 else 3].low; }
  }
}
