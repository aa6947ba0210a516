/** The ordered red-black tree behind the address-range map, as a value.

    `Node` is the heap record of the profiler's C structure.  A `Tree` is the
    shape those records form, with the fields each record is expected to hold;
    a `Ctx` is a tree with one hole, so that a position inside the tree is a
    pair of a context and the subtree at the hole.  Everything about colours
    and order is proved on these values; AddrRangeMap.dfy ties them to the heap.
*/
module RangeTrees {
  import opened Options
  import opened Powers

  const ADDR_LIMIT: int := 0x1_0000_0000_0000_0000
  const MAX_ADDR: int := 0xFFFF_FFFF_FFFF_FFFF

  type Addr = a: int | 0 <= a < ADDR_LIMIT

  /** What a range carries: a source line or a function name. */
  datatype Info = SourceLine(fileName: string, lineNumber: nat) | FunctionName(name: string)

  datatype Range = Range(low: Addr, high: Addr, info: Info)

  datatype Color = Red | Black

  class Node {
    var color: Color
    var lowAddr: Addr
    var highAddr: Addr
    var info: Info
    var parent: Node?
    var leftChild: Node?
    var rightChild: Node?

    constructor (low: Addr, high: Addr, info: Info)
      ensures color == Red && lowAddr == low && highAddr == high && this.info == info
      ensures parent == null && leftChild == null && rightChild == null
    {
      color := Red;
      lowAddr, highAddr, this.info := low, high, info;
      parent, leftChild, rightChild := null, null, null;
    }
  }

  datatype Tree =
    | Leaf
    | Branch(left: Tree, node: Node, color: Color, range: Range, right: Tree)

  /** A tree with a hole; the hole is the left or the right child of `node`. */
  datatype Ctx =
    | Top
    | LeftOf(up: Ctx, node: Node, color: Color, range: Range, sibling: Tree)
    | RightOf(up: Ctx, sibling: Tree, node: Node, color: Color, range: Range)

  function Plug(c: Ctx, t: Tree): Tree
    decreases c
  {
    match c
    case Top => t
    case LeftOf(up, n, col, r, s) => Plug(up, Branch(t, n, col, r, s))
    case RightOf(up, s, n, col, r) => Plug(up, Branch(s, n, col, r, t))
  }

  function Depth(c: Ctx): nat {
    match c
    case Top => 0
    case LeftOf(up, _, _, _, _) => 1 + Depth(up)
    case RightOf(up, _, _, _, _) => 1 + Depth(up)
  }

  function Root(t: Tree): Node? {
    if t.Leaf? then null else t.node
  }

  function CtxNode(c: Ctx): Node? {
    if c.Top? then null else c.node
  }

  function Nodes(t: Tree): (s: set<Node>)
    ensures t.Branch? ==> t.node in s
  {
    match t
    case Leaf => {}
    case Branch(l, n, _, _, r) => Nodes(l) + {n} + Nodes(r)
  }

  function CtxNodes(c: Ctx): (s: set<Node>)
    ensures !c.Top? ==> c.node in s
  {
    match c
    case Top => {}
    case LeftOf(up, n, _, _, s) => CtxNodes(up) + {n} + Nodes(s)
    case RightOf(up, s, n, _, _) => CtxNodes(up) + {n} + Nodes(s)
  }

  lemma {:induction false} PlugNodes(c: Ctx, t: Tree)
    ensures Nodes(Plug(c, t)) == CtxNodes(c) + Nodes(t)
    decreases c
  {
    match c
    case Top =>
    case LeftOf(up, n, col, r, s) => PlugNodes(up, Branch(t, n, col, r, s));
    case RightOf(up, s, n, col, r) => PlugNodes(up, Branch(s, n, col, r, t));
  }

  // ----- order -----

  function InOrder(t: Tree): seq<Range> {
    match t
    case Leaf => []
    case Branch(l, _, _, r, rt) => InOrder(l) + [r] + InOrder(rt)
  }

  /** The ranges before the hole. */
  function Before(c: Ctx): seq<Range> {
    match c
    case Top => []
    case LeftOf(up, _, _, _, _) => Before(up)
    case RightOf(up, s, _, _, r) => Before(up) + InOrder(s) + [r]
  }

  /** The ranges after the hole. */
  function After(c: Ctx): seq<Range> {
    match c
    case Top => []
    case LeftOf(up, _, _, r, s) => [r] + InOrder(s) + After(up)
    case RightOf(up, _, _, _, _) => After(up)
  }

  lemma Regroup(a: seq<Range>, b: seq<Range>, r: Range, c: seq<Range>, d: seq<Range>)
    ensures a + (b + [r] + c) + d == a + b + ([r] + c + d)
    ensures a + (b + [r] + c) + d == (a + b + [r]) + c + d
  {
  }

  lemma {:induction false} PlugInOrder(c: Ctx, t: Tree)
    ensures InOrder(Plug(c, t)) == Before(c) + InOrder(t) + After(c)
    decreases c
  {
    match c
    case Top =>
      assert [] + InOrder(t) + [] == InOrder(t);
    case LeftOf(up, n, col, r, s) =>
      PlugInOrder(up, Branch(t, n, col, r, s));
      Regroup(Before(up), InOrder(t), r, InOrder(s), After(up));
    case RightOf(up, s, n, col, r) =>
      PlugInOrder(up, Branch(s, n, col, r, t));
      Regroup(Before(up), InOrder(s), r, InOrder(t), After(up));
  }

  /** Two ranges that share no interior point; ranges that only touch are disjoint. */
  predicate DisjointRanges(r: Range, s: Range) {
    r.high <= s.low || s.high <= r.low
  }

  /** Sorted ranges, each ending at or before the next one starts. */
  ghost predicate Separated(s: seq<Range>) {
    && (forall i :: 0 <= i < |s| ==> s[i].low <= s[i].high)
    && (forall i, j :: 0 <= i < j < |s| ==> s[i].high <= s[j].low)
  }

  /** Where a new range goes: before the first range that starts at or after its end. */
  function InsertPos(s: seq<Range>, high: Addr): (p: nat)
    ensures p <= |s|
  {
    if s == [] || high <= s[0].low then 0 else 1 + InsertPos(s[1..], high)
  }

  function InsertRange(s: seq<Range>, r: Range): seq<Range> {
    var p := InsertPos(s, r.high);
    s[..p] + [r] + s[p..]
  }

  lemma {:induction false} InsertPosSplit(a: seq<Range>, b: seq<Range>, high: Addr)
    requires forall i :: 0 <= i < |a| ==> a[i].low < high
    requires b != [] ==> high <= b[0].low
    ensures InsertPos(a + b, high) == |a|
  {
    if a == [] {
      assert a + b == b;
    } else {
      assert (a + b)[1..] == a[1..] + b;
      InsertPosSplit(a[1..], b, high);
    }
  }

  lemma {:induction false} InsertPosMeaning(s: seq<Range>, high: Addr)
    ensures var p := InsertPos(s, high);
      && (forall i :: 0 <= i < p ==> s[i].low < high)
      && (p < |s| ==> high <= s[p].low)
  {
    if s == [] || high <= s[0].low {
    } else {
      InsertPosMeaning(s[1..], high);
      var p := InsertPos(s, high);
      forall i | 0 <= i < p ensures s[i].low < high {
        if i > 0 { assert s[i] == s[1..][i - 1]; }
      }
    }
  }

  lemma SpliceAt(s: seq<Range>, p: nat, r: Range, i: nat)
    requires p <= |s| && i <= |s|
    ensures (s[..p] + [r] + s[p..])[i] == if i < p then s[i] else if i == p then r else s[i - 1]
  {
  }

  /** A range that meets no stored range keeps the ranges separated. */
  lemma InsertKeepsSeparated(s: seq<Range>, r: Range)
    requires Separated(s) && r.low <= r.high
    requires forall i :: 0 <= i < |s| ==> DisjointRanges(s[i], r)
    ensures Separated(InsertRange(s, r))
  {
    var p, t := InsertPos(s, r.high), InsertRange(s, r);
    InsertPosMeaning(s, r.high);
    forall i, j | 0 <= i <= j < |t|
      ensures if i == j then t[i].low <= t[i].high else t[i].high <= t[j].low
    {
      SpliceAt(s, p, r, i);
      SpliceAt(s, p, r, j);
    }
  }

  lemma InsertContents(s: seq<Range>, r: Range)
    ensures multiset(InsertRange(s, r)) == multiset(s) + multiset{r}
  {
    var p := InsertPos(s, r.high);
    assert multiset(s[..p] + s[p..]) == multiset(s[..p]) + multiset(s[p..]);
    assert s == s[..p] + s[p..];
  }

  // ----- colour -----

  predicate IsRed(t: Tree) {
    t.Branch? && t.color == Red
  }

  predicate CtxRed(c: Ctx) {
    !c.Top? && c.color == Red
  }

  /** No red node has a red child, and every path from the root to a leaf passes `h` black nodes. */
  ghost predicate Good(t: Tree, h: nat) {
    match t
    case Leaf => h == 0
    case Branch(l, _, Black, _, r) => h > 0 && Good(l, h - 1) && Good(r, h - 1)
    case Branch(l, _, Red, _, r) => !IsRed(l) && !IsRed(r) && Good(l, h) && Good(r, h)
  }

  ghost predicate RedBlack(t: Tree) {
    !IsRed(t) && exists h: nat :: Good(t, h)
  }

  /** A context that makes a red-black tree of any black-rooted `Good(t, h)` put in its hole. */
  ghost predicate GoodCtx(c: Ctx, h: nat) {
    match c
    case Top => true
    case LeftOf(up, _, Black, _, s) => Good(s, h) && GoodCtx(up, h + 1)
    case RightOf(up, s, _, Black, _) => Good(s, h) && GoodCtx(up, h + 1)
    case LeftOf(up, _, Red, _, s) => Good(s, h) && !IsRed(s) && !up.Top? && !CtxRed(up) && GoodCtx(up, h)
    case RightOf(up, s, _, Red, _) => Good(s, h) && !IsRed(s) && !up.Top? && !CtxRed(up) && GoodCtx(up, h)
  }

  lemma {:induction false} PlugGood(c: Ctx, t: Tree, h: nat) returns (k: nat)
    requires Good(t, h) && GoodCtx(c, h) && !(IsRed(t) && CtxRed(c))
    ensures Good(Plug(c, t), k)
    ensures !c.Top? ==> !IsRed(Plug(c, t))
    decreases c
  {
    match c
    case Top => k := h;
    case LeftOf(up, n, col, r, s) =>
      k := PlugGood(up, Branch(t, n, col, r, s), if col.Black? then h + 1 else h);
    case RightOf(up, s, n, col, r) =>
      k := PlugGood(up, Branch(s, n, col, r, t), if col.Black? then h + 1 else h);
  }

  /** The subtree one level up: the node of the context with `t` in its hole. */
  function UpTree(c: Ctx, t: Tree): (u: Tree)
    requires !c.Top?
    ensures u.Branch?
  {
    match c
    case LeftOf(_, n, col, r, s) => Branch(t, n, col, r, s)
    case RightOf(_, s, n, col, r) => Branch(s, n, col, r, t)
  }

  function RotatedLeft(t: Tree): Tree
    requires t.Branch? && t.right.Branch?
  {
    var y := t.right;
    Branch(Branch(t.left, t.node, t.color, t.range, y.left), y.node, y.color, y.range, y.right)
  }

  function RotatedRight(t: Tree): Tree
    requires t.Branch? && t.left.Branch?
  {
    var y := t.left;
    Branch(y.left, y.node, y.color, y.range, Branch(y.right, t.node, t.color, t.range, t.right))
  }

  /** A rotation keeps the in-order sequence, and the opposite rotation undoes it. */
  lemma LeftRotationKeepsOrder(t: Tree)
    requires t.Branch? && t.right.Branch?
    ensures InOrder(RotatedLeft(t)) == InOrder(t)
    ensures RotatedRight(RotatedLeft(t)) == t
  {
    var y := t.right;
    RotationOrder(InOrder(t.left), t.range, InOrder(y.left), y.range, InOrder(y.right));
    assert InOrder(RotatedLeft(t).left) == InOrder(t.left) + [t.range] + InOrder(y.left);
  }

  lemma RightRotationKeepsOrder(t: Tree)
    requires t.Branch? && t.left.Branch?
    ensures InOrder(RotatedRight(t)) == InOrder(t)
    ensures RotatedLeft(RotatedRight(t)) == t
  {
    var y := t.left;
    RotationOrder(InOrder(y.left), y.range, InOrder(y.right), t.range, InOrder(t.right));
    assert InOrder(RotatedRight(t).right) == InOrder(y.right) + [t.range] + InOrder(t.right);
  }

  lemma RotationOrder(a: seq<Range>, x: Range, b: seq<Range>, y: Range, d: seq<Range>)
    ensures a + [x] + (b + [y] + d) == (a + [x] + b) + [y] + d
  {
  }

  /** Replacing a subtree by one with the same ranges keeps the ranges of the whole tree. */
  lemma PlugKeepsOrder(c: Ctx, t: Tree, t': Tree)
    requires InOrder(t') == InOrder(t)
    ensures InOrder(Plug(c, t')) == InOrder(Plug(c, t))
  {
    PlugInOrder(c, t);
    PlugInOrder(c, t');
  }

  // ----- re-balancing -----

  /** The state of the re-balancing loop: the only flaw may be that the red `t` has a red parent. */
  ghost predicate Fixing(c: Ctx, t: Tree, h: nat, s: seq<Range>) {
    IsRed(t) && Good(t, h) && GoodCtx(c, h) && InOrder(Plug(c, t)) == s
  }

  /** A red parent is not the root, so it has a parent, which is black. */
  lemma RedParentHasParent(c: Ctx, t: Tree, h: nat, s: seq<Range>)
    requires Fixing(c, t, h, s) && CtxRed(c)
    ensures !c.up.Top? && !CtxRed(c.up)
  {
  }

  /** The subtree two levels up. */
  function GrandTree(c: Ctx, t: Tree): (g: Tree)
    requires !c.Top? && !c.up.Top?
    ensures Plug(c.up.up, g) == Plug(c, t)
  {
    assert Plug(c, t) == Plug(c.up, UpTree(c, t));
    UpTree(c.up, UpTree(c, t))
  }

  /** The contexts of the two children of `t` in the hole of `c`. */
  function DownLeft(c: Ctx, t: Tree): Ctx
    requires t.Branch?
  {
    LeftOf(c, t.node, t.color, t.range, t.right)
  }

  function DownRight(c: Ctx, t: Tree): Ctx
    requires t.Branch?
  {
    RightOf(c, t.left, t.node, t.color, t.range)
  }

  /** A grandparent with red children: blacken the children and redden it. */
  function Pushed(g: Tree): Tree
    requires g.Branch? && g.left.Branch? && g.right.Branch?
  {
    g.(color := Red, left := g.left.(color := Black), right := g.right.(color := Black))
  }

  /** A grandparent whose left child is red: exchange their colours. */
  function LeftEdgePainted(g: Tree): Tree
    requires g.Branch? && g.left.Branch?
  {
    g.(color := Red, left := g.left.(color := Black))
  }

  function RightEdgePainted(g: Tree): Tree
    requires g.Branch? && g.right.Branch?
  {
    g.(color := Red, right := g.right.(color := Black))
  }

  /** Red uncle: the flaw, if any is left, is two levels further up. */
  lemma PushKeepsFixing(c: Ctx, t: Tree, h: nat, s: seq<Range>)
    requires Fixing(c, t, h, s) && CtxRed(c) && !c.up.Top? && IsRed(c.up.sibling)
    ensures Fixing(c.up.up, Pushed(GrandTree(c, t)), h + 1, s)
  {
    assert GoodCtx(c.up, h) && GoodCtx(c.up.up, h + 1);
    var p := UpTree(c, t);
    assert Good(p.(color := Black), h + 1);
    assert Good(c.up.sibling.(color := Black), h + 1);
    PlugKeepsOrder(c.up.up, GrandTree(c, t), Pushed(GrandTree(c, t)));
  }

  /** Black uncle, inner grandchild: one rotation makes it an outer grandchild. */
  lemma InnerLeftKeepsFixing(c: Ctx, t: Tree, h: nat, s: seq<Range>)
    requires Fixing(c, t, h, s) && CtxRed(c) && c.RightOf?
    ensures var r := RotatedLeft(UpTree(c, t)); Fixing(DownLeft(c.up, r), r.left, h, s)
  {
    assert GoodCtx(c.up, h) && Good(t.left, h) && Good(t.right, h);
    LeftRotationKeepsOrder(UpTree(c, t));
    PlugKeepsOrder(c.up, UpTree(c, t), RotatedLeft(UpTree(c, t)));
  }

  lemma InnerRightKeepsFixing(c: Ctx, t: Tree, h: nat, s: seq<Range>)
    requires Fixing(c, t, h, s) && CtxRed(c) && c.LeftOf?
    ensures var r := RotatedRight(UpTree(c, t)); Fixing(DownRight(c.up, r), r.right, h, s)
  {
    assert GoodCtx(c.up, h) && Good(t.left, h) && Good(t.right, h);
    RightRotationKeepsOrder(UpTree(c, t));
    PlugKeepsOrder(c.up, UpTree(c, t), RotatedRight(UpTree(c, t)));
  }

  /** Black uncle, outer grandchild: repaint the edge above and rotate, and the flaw is gone. */
  lemma OuterLeftKeepsFixing(c: Ctx, t: Tree, h: nat, s: seq<Range>)
    requires Fixing(c, t, h, s) && CtxRed(c) && c.LeftOf? && c.up.LeftOf? && !IsRed(c.up.sibling)
    ensures var r := RotatedRight(LeftEdgePainted(GrandTree(c, t)));
      Fixing(DownLeft(c.up.up, r), r.left, h, s) && r.color == Black
  {
    assert GoodCtx(c.up, h) && GoodCtx(c.up.up, h + 1);
    assert Good(c.sibling, h) && Good(c.up.sibling, h);
    var g := LeftEdgePainted(GrandTree(c, t));
    RightRotationKeepsOrder(g);
    PlugKeepsOrder(c.up.up, GrandTree(c, t), RotatedRight(g));
  }

  lemma OuterRightKeepsFixing(c: Ctx, t: Tree, h: nat, s: seq<Range>)
    requires Fixing(c, t, h, s) && CtxRed(c) && c.RightOf? && c.up.RightOf? && !IsRed(c.up.sibling)
    ensures var r := RotatedLeft(RightEdgePainted(GrandTree(c, t)));
      Fixing(DownRight(c.up.up, r), r.right, h, s) && r.color == Black
  {
    assert GoodCtx(c.up, h) && GoodCtx(c.up.up, h + 1);
    assert Good(c.sibling, h) && Good(c.up.sibling, h);
    var g := RightEdgePainted(GrandTree(c, t));
    LeftRotationKeepsOrder(g);
    PlugKeepsOrder(c.up.up, GrandTree(c, t), RotatedLeft(g));
  }

  /** When the loop ends, blackening the root leaves a red-black tree. */
  lemma FixedIsRedBlack(c: Ctx, t: Tree, h: nat, s: seq<Range>)
    requires Fixing(c, t, h, s) && !CtxRed(c)
    ensures var w := Plug(c, t); w.Branch? && RedBlack(w.(color := Black)) && InOrder(w.(color := Black)) == s
  {
    var k := PlugGood(c, t, h);
    var w := Plug(c, t);
    PlugBranch(c, t);
    assert Good(w.(color := Black), if w.color == Red then k + 1 else k);
  }

  lemma {:induction false} PlugBranch(c: Ctx, t: Tree)
    requires t.Branch?
    ensures Plug(c, t).Branch?
    decreases c
  {
    if !c.Top? { PlugBranch(c.up, UpTree(c, t)); }
  }

  // ----- descent to the place of a new range -----

  /** Everything before the hole ends at or before `low`; everything after starts at or after `high`. */
  ghost predicate Fits(c: Ctx, low: Addr, high: Addr) {
    && (forall r :: r in Before(c) ==> r.high <= low && r.low < high)
    && (forall r :: r in After(c) ==> high <= r.low)
  }

  /** The state of the insertion walk in the tree `w`. */
  ghost predicate Walking(w: Tree, c: Ctx, t: Tree, h: nat, low: Addr, high: Addr) {
    && Plug(c, t) == w && Good(t, h) && GoodCtx(c, h) && (IsRed(t) ==> !c.Top? && !CtxRed(c))
    && Fits(c, low, high)
  }

  function ChildHeight(t: Tree, h: nat): nat {
    if t.Branch? && t.color == Black && h > 0 then h - 1 else h
  }

  lemma SeparatedSlice(a: seq<Range>, m: seq<Range>, b: seq<Range>)
    requires Separated(a + m + b)
    ensures Separated(m)
  {
    var s := a + m + b;
    assert forall i :: 0 <= i < |m| ==> m[i] == s[|a| + i];
  }

  lemma SeparatedAround(l: seq<Range>, x: Range, r: seq<Range>)
    requires Separated(l + [x] + r)
    ensures forall q :: q in l ==> q.low <= q.high <= x.low
    ensures forall q :: q in r ==> x.high <= q.low
    ensures x.low <= x.high
  {
    var s, k := l + [x] + r, |l|;
    assert s[k] == x;
    assert forall i :: 0 <= i < k ==> l[i] == s[i];
    assert forall i :: 0 <= i < |r| ==> r[i] == s[k + 1 + i];
  }

  lemma SeparatedPart(w: Tree, c: Ctx, t: Tree)
    requires Plug(c, t) == w && Separated(InOrder(w)) && t.Branch?
    ensures forall r :: r in InOrder(t.left) ==> r.low <= r.high <= t.range.low
    ensures forall r :: r in InOrder(t.right) ==> t.range.high <= r.low
    ensures t.range.low <= t.range.high
  {
    PlugInOrder(c, t);
    SeparatedSlice(Before(c), InOrder(t), After(c));
    SeparatedAround(InOrder(t.left), t.range, InOrder(t.right));
  }

  lemma WalkLeft(w: Tree, c: Ctx, t: Tree, h: nat, low: Addr, high: Addr)
    requires Walking(w, c, t, h, low, high) && Separated(InOrder(w)) && t.Branch?
    requires high <= t.range.low
    ensures Walking(w, DownLeft(c, t), t.left, ChildHeight(t, h), low, high)
  {
    SeparatedPart(w, c, t);
  }

  lemma WalkRight(w: Tree, c: Ctx, t: Tree, h: nat, low: Addr, high: Addr)
    requires Walking(w, c, t, h, low, high) && Separated(InOrder(w)) && t.Branch?
    requires !(high <= t.range.low) && t.range.high <= low
    ensures Walking(w, DownRight(c, t), t.right, ChildHeight(t, h), low, high)
  {
    SeparatedPart(w, c, t);
  }

  /** A walk that reaches a leaf has passed no overlapping range, and knows where the new range goes. */
  lemma WalkEnds(w: Tree, c: Ctx, h: nat, r: Range)
    requires Walking(w, c, Leaf, h, r.low, r.high)
    ensures forall q :: q in InOrder(w) ==> DisjointRanges(q, r)
    ensures Before(c) + [r] + After(c) == InsertRange(InOrder(w), r)
  {
    PlugInOrder(c, Leaf);
    assert InOrder(w) == Before(c) + After(c);
    InsertPosSplit(Before(c), After(c), r.high);
  }

  lemma NewNode(n: Node, r: Range)
    ensures var t := Branch(Leaf, n, Red, r, Leaf); Good(t, 0) && InOrder(t) == [r] && Nodes(t) == {n}
  {
    assert InOrder(Leaf) == [] && [] + [r] + [] == [r];
  }

  /** The new red node in the place the walk found starts the re-balancing. */
  lemma WalkEndsFixing(w: Tree, c: Ctx, n: Node, h: nat, r: Range)
    requires Walking(w, c, Leaf, h, r.low, r.high)
    ensures forall q :: q in InOrder(w) ==> DisjointRanges(q, r)
    ensures Fixing(c, Branch(Leaf, n, Red, r, Leaf), h, InsertRange(InOrder(w), r))
  {
    var t := Branch(Leaf, n, Red, r, Leaf);
    WalkEnds(w, c, h, r);
    PlugInOrder(c, t);
    NewNode(n, r);
  }

  // ----- lookup -----

  /** The closed-range search from the root. */
  function Lookup(t: Tree, addr: Addr): Option<Info> {
    match t
    case Leaf => None
    case Branch(l, _, _, q, r) =>
      if addr < q.low then Lookup(l, addr)
      else if addr > q.high then Lookup(r, addr)
      else Some(q.info)
  }

  predicate Contains(q: Range, addr: Addr) {
    q.low <= addr <= q.high
  }

  /** Starts and ends both nondecreasing; true of separated ranges, whether or not some are empty. */
  ghost predicate Monotone(s: seq<Range>) {
    forall i, j :: 0 <= i < j < |s| ==> s[i].low <= s[j].low && s[i].high <= s[j].high
  }

  lemma SeparatedIsMonotone(s: seq<Range>)
    requires Separated(s)
    ensures Monotone(s)
  {
  }

  lemma MonotoneParts(l: seq<Range>, r: seq<Range>)
    requires Monotone(l + r)
    ensures Monotone(l) && Monotone(r)
    ensures forall p, q :: p in l && q in r ==> p.low <= q.low && p.high <= q.high
  {
    var s, k := l + r, |l|;
    assert l == s[..k] && r == s[k..];
    forall p, q | p in l && q in r ensures p.low <= q.low && p.high <= q.high {
      var i :| 0 <= i < k && l[i] == p;
      var j :| 0 <= j < |r| && r[j] == q;
      assert s[i] == p && s[k + j] == q;
    }
  }

  lemma MonotoneAround(l: seq<Range>, x: Range, r: seq<Range>)
    requires Monotone(l + [x] + r)
    ensures Monotone(l) && Monotone(r)
    ensures forall q :: q in l ==> q.low <= x.low && q.high <= x.high
    ensures forall q :: q in r ==> x.low <= q.low && x.high <= q.high
  {
    MonotoneParts(l + [x], r);
    MonotoneParts(l, [x]);
    assert x in l + [x] && x in [x];
  }

  /** The search finds a stored range that contains the address exactly when there is one. */
  lemma {:induction false} LookupFinds(t: Tree, addr: Addr)
    requires Monotone(InOrder(t))
    ensures Lookup(t, addr).Some? <==> exists q :: q in InOrder(t) && Contains(q, addr)
    ensures Lookup(t, addr).Some? ==>
      exists q :: q in InOrder(t) && Contains(q, addr) && Lookup(t, addr) == Some(q.info)
  {
    if t.Branch? {
      MonotoneAround(InOrder(t.left), t.range, InOrder(t.right));
      if addr < t.range.low {
        LookupFinds(t.left, addr);
      } else if addr > t.range.high {
        LookupFinds(t.right, addr);
      } else {
        assert t.range in InOrder(t);
      }
    }
  }

  /** Two separated ranges can both contain an address only where they touch. */
  lemma SharedOnlyAtEnds(s: seq<Range>, i: nat, j: nat, addr: Addr)
    requires Separated(s) && i < j < |s|
    requires Contains(s[i], addr) && Contains(s[j], addr)
    ensures s[i].high == addr == s[j].low
    ensures forall k :: i < k < j ==> s[k].low == addr == s[k].high
  {
  }

  // ----- height -----

  function Height(t: Tree): nat {
    match t
    case Leaf => 0
    case Branch(l, _, _, _, r) => 1 + if Height(l) < Height(r) then Height(r) else Height(l)
  }

  lemma {:induction false} GoodHeight(t: Tree, h: nat)
    requires Good(t, h)
    ensures Height(t) <= 2 * h + (if IsRed(t) then 1 else 0)
    ensures Pow2(h) <= |InOrder(t)| + 1
  {
    match t
    case Leaf =>
    case Branch(l, _, Black, _, r) => GoodHeight(l, h - 1); GoodHeight(r, h - 1);
    case Branch(l, _, Red, _, r) => GoodHeight(l, h); GoodHeight(r, h);
  }

  lemma SquareMonotone(p: nat, m: nat)
    requires p <= m
    ensures p * p <= m * m
  {
  }

  /** Height at most 2 * log2(n + 1), written without logarithms. */
  lemma HeightBound(t: Tree)
    requires RedBlack(t)
    ensures Pow2(Height(t)) <= (|InOrder(t)| + 1) * (|InOrder(t)| + 1)
  {
    var h: nat :| Good(t, h);
    GoodHeight(t, h);
    Pow2Monotone(Height(t), h + h);
    Pow2Sum(h, h);
    SquareMonotone(Pow2(h), |InOrder(t)| + 1);
  }
}
