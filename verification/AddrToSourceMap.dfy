/** The address-to-source map: points are added while the line tables are read, then
    one recursive pass turns them into ranges, and addresses are looked up in those. */
module AddrToSourceMaps {
  import opened AddrRangeMaps
  import opened LineTables
  import opened Options
  import opened PatchedRanges
  import opened RangeStores
  import opened RangeTrees
  import opened Shapes
  import opened ZeroOrders

  /** Sets the ends of the ranges of the subtree `t`, in place; returns its first start. */
  method PatchRangesAux(node: Node, maxAddress: Addr, ghost map': AddrRangeMap, ghost nodes: set<Node>, ghost c: Ctx,
      ghost t: Tree)
    returns (ret: Addr)
    requires map'.At(nodes, c, t) && t.Branch? && t.node == node
    modifies nodes`highAddr
    ensures map'.At(nodes, c, PatchTree(t, maxAddress)) && ret == FirstLow(t)
    decreases t
  {
    hide AddrRangeMap.At;
    map'.AtNode(node, nodes, c, t);
    if node.leftChild != null {
      ret := PatchRangesAux(node.leftChild, node.lowAddr, map', nodes, DownLeft(c, t), t.left);
    } else {
      ret := node.lowAddr;
    }
    ghost var t1 := t.(left := PatchTree(t.left, t.range.low));
    Focused(map', nodes, c, t1);
    map'.AtNode(node, nodes, c, t1);
    var limit := maxAddress;
    if node.rightChild != null {
      limit := PatchRangesAux(node.rightChild, maxAddress, map', nodes, DownRight(c, t1), t.right);
    }
    ghost var t2 := t1.(right := PatchTree(t.right, maxAddress));
    FocusedRight(map', nodes, c, t2);
    SetHigh(node, if limit == 0 then MAX_ADDR else limit - 1, map', nodes, c, t2);
  }

  /** The focus goes back up from the left child. */
  lemma Focused(map': AddrRangeMap, nodes: set<Node>, c: Ctx, t: Tree)
    requires t.Branch? && map'.At(nodes, DownLeft(c, t), t.left)
    ensures map'.At(nodes, c, t)
  {
    ZipUp(Snapshot(nodes), map'.root, DownLeft(c, t), t.left);
  }

  lemma FocusedRight(map': AddrRangeMap, nodes: set<Node>, c: Ctx, t: Tree)
    requires t.Branch? && map'.At(nodes, DownRight(c, t), t.right)
    ensures map'.At(nodes, c, t)
  {
    ZipUp(Snapshot(nodes), map'.root, DownRight(c, t), t.right);
  }

  method SetHigh(node: Node, high: Addr, ghost map': AddrRangeMap, ghost nodes: set<Node>, ghost c: Ctx, ghost t: Tree)
    requires map'.At(nodes, c, t) && t.Branch? && t.node == node
    modifies node`highAddr
    ensures map'.At(nodes, c, t.(range := t.range.(high := high)))
  {
    ghost var m := Snapshot(nodes);
    assert m[node] == CellOf(node);
    node.highAddr := high;
    RangeSet(m, Snapshot(nodes), map'.root, c, t, t.range.(high := high));
  }

  /** The tree that adding the entries one after the other makes. */
  function BuiltShape(h: seq<Entry>): Shape {
    if h == [] then Nil else Inserted(BuiltShape(h[..|h| - 1]), Point(h[|h| - 1]))
  }

  /** The same with every range running to just before the next start. */
  function PatchedShape(s: Shape, max: Addr): Shape {
    match s
    case Nil => Nil
    case Fork(l, col, q, r) =>
      var limit := if r.Nil? then max else FirstStart(r);
      Fork(PatchedShape(l, q.low), col, q.(high := PrevAddr(limit)), PatchedShape(r, max))
  }

  lemma {:induction false} PatchedShapeOf(t: Tree, max: Addr)
    ensures PatchedShape(ShapeOf(t), max) == ShapeOf(PatchTree(t, max))
  {
    if t.Branch? {
      PatchedShapeOf(t.left, t.range.low);
      PatchedShapeOf(t.right, max);
      if t.right.Branch? { FirstStartOf(t.right); }
    }
  }

  class AddrToSourceMap {
    const ranges: AddrRangeMap
    ghost var history: seq<Entry>  // the entries in the order they were added
    ghost var built: Tree          // the tree of points that the patching pass started from

    /** Lines are still being added: the map holds the entries as points. */
    ghost predicate Building()
      reads this, ranges, Nodes(ranges.tree)
    {
      ranges.Valid() && ranges.Contents() == Sorted(history) && ShapeOf(ranges.tree) == BuiltShape(history)
    }

    /** The ranges have been patched. */
    ghost predicate Patched()
      reads this, ranges, Nodes(ranges.tree)
    {
      && ranges.Valid() && ranges.tree == PatchTree(built, MAX_ADDR)
      && InOrder(built) == Sorted(history) && Tidy(built) && ShapeOf(built) == BuiltShape(history)
    }

    constructor ()
      ensures Building() && history == [] && fresh(ranges) && Nodes(ranges.tree) == {}
    {
      ranges := new AddrRangeMap();
      history, built := [], Leaf;
    }

    /** Adds a point.  A point meets no other point's interior, so it is never refused. */
    method Add(addr: Addr, fileName: string, lineNumber: nat)
      requires Building()
      modifies this, ranges, Nodes(ranges.tree)
      ensures Building() && history == old(history) + [Entry(addr, fileName, lineNumber)]
      ensures fresh(Nodes(ranges.tree) - old(Nodes(ranges.tree)))
    {
      ghost var e := Entry(addr, fileName, lineNumber);
      SortedIsSeparated(history);
      PointFits(Sorted(history), Point(e));
      var ok := ranges.Add(addr, addr, SourceLine(fileName, lineNumber));
      assert (history + [e])[..|history|] == history;
      history := history + [e];
    }

    lemma BuiltTree()
      requires Building()
      ensures RedBlack(ranges.tree) && InOrder(ranges.tree) == Sorted(history)
    {
    }

    method PatchRanges()
      requires Building()
      modifies this, ranges, Nodes(ranges.tree)
      ensures Patched() && history == old(history) && built == old(ranges.tree)
      ensures Nodes(ranges.tree) == old(Nodes(ranges.tree))
    {
      hide Good, RedBlack, Tidy, Points, PatchTree;
      built := ranges.tree;
      SortedIsSeparated(history);
      PatchKeepsValid(built, MAX_ADDR);
      if ranges.root != null {
        var _ := PatchRangesAux(ranges.root, MAX_ADDR, ranges, Nodes(built), Top, built);
      }
      ranges.tree := PatchTree(built, MAX_ADDR);
    }

    /** Looks an address up in the patched map.  What it returns is a function of the entries added; with at most two
        of them at address 0, or more where no wrapped range is met, it is the entry with the greatest address at or
        below, the first added among equals, and nothing for the top address, which no patched range reaches. */
    method Find(addr: Addr) returns (ret: Option<Info>)
      requires Patched()
      ensures ret == Lookup(ranges.tree, addr) == FindIn(PatchedShape(BuiltShape(history), MAX_ADDR), addr)
      ensures HiddenZero(BuiltShape(history)) || CountZeros(history) <= 2 ==> ret == Answer(history, addr)
      ensures HiddenZero(BuiltShape(history)) || CountZeros(history) <= 2 ==>
        (ret.None? <==> addr == MAX_ADDR || forall i :: 0 <= i < |history| ==> history[i].addr > addr)
      ensures HiddenZero(BuiltShape(history)) || CountZeros(history) <= 2 ==>
        ret.Some? ==> exists i: nat ::
          IsFloor(history, addr, i) && ret == Some(SourceLine(history[i].fileName, history[i].lineNumber))
    {
      ret := ranges.Find(addr);
      FindInTree(ranges.tree, addr);
      PatchedShapeOf(built, MAX_ADDR);
      HiddenZeroOf(built);
      LookupIsInfo(ranges.tree, addr);
      SortedIsSeparated(history);
      if CountZeros(history) <= 2 {
        TwoZerosAreHidden(history, built);
      }
      if ZeroHidden(built) {
        PatchedSearchIsFloor(built, MAX_ADDR, addr);
        PatchedFloorIsFloor(history, addr);
      }
      ghost var i := AnswerEntry(history, addr);
    }

    lemma PatchedTree()
      requires Patched()
      ensures ranges.tree == PatchTree(built, MAX_ADDR)
    {
    }

    /** When the entries carry different information, all answers are right exactly when no wrapped range at address 0
        is met. */
    lemma RightAnswersIff()
      requires Patched() && DistinctInfos(history)
      ensures HiddenZero(BuiltShape(history)) <==>
        forall addr: Addr :: Lookup(ranges.tree, addr) == Answer(history, addr)
    {
      HiddenZeroOf(built);
      AnswersIff(history, built);
    }

    /** Adds row `i` if the filter keeps it; false where the C code aborts. */
    method SaveLine(lines: seq<Line>, i: nat) returns (ok: bool)
      requires Building() && i < |lines|
      modifies this, ranges, Nodes(ranges.tree)
      ensures Building() && fresh(Nodes(ranges.tree) - old(Nodes(ranges.tree)))
      ensures ok <==>
        !(i + 1 < |lines| && lines[i].numberOk && lines[i].addrOk && lines[i].fileOk && !lines[i + 1].addrOk)
      ensures var l := lines[i];
        ok ==>
          if l.numberOk && l.addrOk && l.fileOk && (i + 1 < |lines| ==> lines[i + 1].addr != l.addr)
          then history == old(history) + [Entry(l.addr, l.fileName, l.lineNumber)]
          else history == old(history)
    {
      ok := true;
      if lines[i].numberOk && lines[i].addrOk && lines[i].fileOk {
        var saveCurrentEntry := false;
        if i < |lines| - 1 {
          if !lines[i + 1].addrOk {
            return false;
          }
          if lines[i + 1].addr != lines[i].addr {
            saveCurrentEntry := true;
          }
        } else {
          saveCurrentEntry := true;
        }
        if saveCurrentEntry {
          Add(lines[i].addr, lines[i].fileName, lines[i].lineNumber);
        }
      }
    }

    /** Adds the rows of one line table that the filter keeps; false where the C code aborts. */
    method SaveLines(lines: seq<Line>) returns (ok: bool)
      requires Building()
      modifies this, ranges, Nodes(ranges.tree)
      ensures Building() && fresh(Nodes(ranges.tree) - old(Nodes(ranges.tree)))
      ensures ok <==> forall i: nat :: i < |lines| ==> !Blocked(lines, i)
      ensures ok ==> history == old(history) + KeptEntries(lines, |lines|)
    {
      hide AddrToSourceMap.Building;
      for i := 0 to |lines|
        invariant Building() && fresh(Nodes(ranges.tree) - old(Nodes(ranges.tree)))
        invariant forall j: nat :: j < i ==> !Blocked(lines, j)
        invariant history == old(history) + KeptEntries(lines, i)
      {
        label before:
        ghost var nodes := Nodes(ranges.tree);
        ok := SaveLine(lines, i);
        forall n | n in Nodes(ranges.tree) && n !in nodes ensures fresh(n) {
          assert fresh@before(n);
        }
        assert Nodes(ranges.tree) - old(Nodes(ranges.tree)) <=
          (Nodes(ranges.tree) - nodes) + (nodes - old(Nodes(ranges.tree)));
        if !ok {
          assert Blocked(lines, i);
          return;
        }
      }
      ok := true;
    }
  }

  /** What a lookup in the patched map is meant to return. */
  function Answer(h: seq<Entry>, addr: Addr): Option<Info> {
    var e := Floor(h, addr);
    if addr == MAX_ADDR || e.None? then None else Some(InfoOf(e.value))
  }

  lemma AnswerEntry(h: seq<Entry>, addr: Addr) returns (i: nat)
    ensures Answer(h, addr).None? <==> addr == MAX_ADDR || forall j :: 0 <= j < |h| ==> h[j].addr > addr
    ensures Answer(h, addr).Some? ==>
      IsFloor(h, addr, i) && Answer(h, addr) == Some(SourceLine(h[i].fileName, h[i].lineNumber))
  {
    FloorMeaning(h, addr);
    i := 0;
    if Floor(h, addr).Some? { i :| IsFloor(h, addr, i) && h[i] == Floor(h, addr).value; }
  }

  /** When the entries carry different information, the answers are right for all addresses exactly when no wrapped
      range at address 0 is met. */
  lemma AnswersIff(h: seq<Entry>, t: Tree)
    requires InOrder(t) == Sorted(h) && DistinctInfos(h)
    ensures ZeroHidden(t) <==> forall addr: Addr :: Lookup(PatchTree(t, MAX_ADDR), addr) == Answer(h, addr)
  {
    SortedIsSeparated(h);
    if ZeroHidden(t) {
      forall addr: Addr ensures Lookup(PatchTree(t, MAX_ADDR), addr) == Answer(h, addr) {
        LookupIsInfo(PatchTree(t, MAX_ADDR), addr);
        PatchedSearchIsFloor(t, MAX_ADDR, addr);
        PatchedFloorIsFloor(h, addr);
      }
    } else {
      var s, k := Sorted(h), CountAtOrBelow(Sorted(h), 0);
      var i := UnhiddenZeroAt(t, MAX_ADDR);
      CountMeaning(s, 0);
      SortedInfos(h, i, k - 1);
      PatchedFloorIsFloor(h, 0);
      PatchSeqAt(s, MAX_ADDR, k - 1);
      assert Answer(h, 0) == Some(s[k - 1].info);
    }
  }

  lemma PointFits(s: seq<Range>, r: Range)
    requires Points(s) && r.low == r.high
    ensures forall q :: q in s ==> DisjointRanges(q, r)
  {
  }

  lemma PatchKeepsValid(t: Tree, max: Addr)
    requires RedBlack(t) && Tidy(t) && Points(InOrder(t))
    ensures RedBlack(PatchTree(t, max)) && Tidy(PatchTree(t, max)) && Nodes(PatchTree(t, max)) == Nodes(t)
  {
    PatchKeepsTidy(t, max);
    PatchTreeIsPatchSeq(t, max);
    var h: nat :| Good(t, h);
    PatchKeepsGood(t, max, h);
  }

  /** Reads the line tables of all compilation units, then patches the ranges. */
  method OpenExecutable(tables: seq<seq<Line>>) returns (ok: bool, map': AddrToSourceMap)
    ensures ok <==> forall k: nat, i: nat :: k < |tables| && i < |tables[k]| ==> !Blocked(tables[k], i)
    ensures ok ==> map'.Patched() && map'.history == KeptOfAll(tables, |tables|)
  {
    hide AddrToSourceMap.Building, AddrToSourceMap.Patched, KeptEntries, Blocked;
    map' := new AddrToSourceMap();
    for k := 0 to |tables|
      invariant fresh(map') && fresh(map'.ranges) && fresh(Nodes(map'.ranges.tree)) && map'.Building()
      invariant forall j: nat, i: nat :: j < k && i < |tables[j]| ==> !Blocked(tables[j], i)
      invariant map'.history == KeptOfAll(tables, k)
    {
      label before:
      ghost var nodes := Nodes(map'.ranges.tree);
      ok := map'.SaveLines(tables[k]);
      forall n | n in Nodes(map'.ranges.tree) && n !in nodes ensures fresh(n) {
        assert fresh@before(n);
      }
      if !ok {
        return;
      }
    }
    map'.PatchRanges();
    ok := true;
  }

  /** End to end: for readable, nondecreasing line tables, every lookup up to the last patchable address returns, of the
      rows at or below it that are last in their tables, the one with the greatest address, from the first table among
      equals, and nothing when there is none.  At most two of the tables start at address 0, or no wrapped range is
      met. */
  method OpenAndFind(tables: seq<seq<Line>>, addr: Addr) returns (ret: Option<Info>)
    requires forall k :: 0 <= k < |tables| ==> GoodTable(tables[k])
    ensures ret == FindIn(PatchedShape(BuiltShape(KeptOfAll(tables, |tables|)), MAX_ADDR), addr)
    ensures ZeroStarts(tables, |tables|) <= 2 || HiddenZero(BuiltShape(KeptOfAll(tables, |tables|))) ==>
      (ret.None? <==> addr == MAX_ADDR || forall k :: 0 <= k < |tables| ==> AllRowsAbove(tables[k], addr))
    ensures ZeroStarts(tables, |tables|) <= 2 || HiddenZero(BuiltShape(KeptOfAll(tables, |tables|))) ==>
      ret.Some? ==> exists k: nat, i: nat ::
        IsAnswer(tables, addr, k, i) && ret == Some(SourceLine(tables[k][i].fileName, tables[k][i].lineNumber))
  {
    forall k: nat, i: nat | k < |tables| && i < |tables[k]| ensures !Blocked(tables[k], i) {
      assert i + 1 < |tables[k]| ==> Readable(tables[k][i + 1]);
    }
    hide AddrToSourceMap.Patched, Blocked, GoodTable, BuiltShape, HiddenZero;
    var ok, map' := OpenExecutable(tables);
    KeptOfAllFloor(tables, |tables|, addr);
    ret := map'.Find(addr);
    ghost var k, i := AnswerRow(tables, addr);
  }

  lemma NoBlackAtMostOne(t: Tree)
    requires Good(t, 0)
    ensures |InOrder(t)| <= 1
  {
    if t.Branch? { assert t.left.Leaf? && t.right.Leaf?; }
  }

  lemma SingleNode(t: Tree)
    requires |InOrder(t)| == 1
    ensures t.Branch? && t.left.Leaf? && t.right.Leaf? && InOrder(t) == [t.range]
  {
    assert InOrder(t) == InOrder(t.left) + [t.range] + InOrder(t.right);
  }

  /** A red-black tree of three nodes has one node on each side of its root. */
  lemma ThreeNodes(t: Tree)
    requires RedBlack(t) && |InOrder(t)| == 3
    ensures t.Branch? && t.right.Branch? && t.right.left.Leaf?
    ensures t.range == InOrder(t)[1] && t.right.range == InOrder(t)[2]
  {
    var h: nat :| Good(t, h);
    assert t.color == Black && Good(t.left, h - 1) && Good(t.right, h - 1);
    if t.left.Leaf? || t.right.Leaf? {
      NoBlackAtMostOne(t.left);
      NoBlackAtMostOne(t.right);
    }
    SingleNode(t.left);
    SingleNode(t.right);
  }

  /** With address 0 stored three times the patched tree answers 0 with the middle one. */
  lemma ThreeZeros(t: Tree)
    requires RedBlack(t) && |InOrder(t)| == 3 && InOrder(t)[1].low == InOrder(t)[2].low == 0
    ensures Lookup(PatchTree(t, MAX_ADDR), 0) == Some(InOrder(t)[1].info)
  {
    ThreeNodes(t);
    assert FirstLow(t.right) == 0;
  }

  /** Address 0 stored three times: the lookup of 0 answers with the entry added second, not first. */
  method ZeroStoredThrice() returns (ret: Option<Info>)
    ensures ret == Some(SourceLine("second", 2))
    ensures Answer([Entry(0, "first", 1), Entry(0, "second", 2), Entry(0, "third", 3)], 0) ==
      Some(SourceLine("first", 1))
  {
    hide AddrToSourceMap.Building, AddrToSourceMap.Patched, PatchTree, Nodes, InOrder, Sorted;
    var map' := new AddrToSourceMap();
    map'.Add(0, "first", 1);
    map'.Add(0, "second", 2);
    map'.Add(0, "third", 3);
    SortedThree(Entry(0, "first", 1), Entry(0, "second", 2), Entry(0, "third", 3));
    map'.BuiltTree();
    assert map'.history == [Entry(0, "first", 1), Entry(0, "second", 2), Entry(0, "third", 3)];
    ThreeZeros(map'.ranges.tree);
    map'.PatchRanges();
    map'.PatchedTree();
    ret := map'.Find(0);
  }

  lemma SortedThree(a: Entry, b: Entry, c: Entry)
    requires a.addr == b.addr == c.addr
    ensures Sorted([a, b, c]) == [Point(c), Point(b), Point(a)]
    ensures Floor([a, b, c], a.addr) == Some(a)
  {
    assert [a, b, c][..2] == [a, b] && [a, b][..1] == [a] && [a][..0] == [];
    assert Sorted([a]) == [Point(a)];
    assert Sorted([a, b]) == [Point(b), Point(a)];
    assert Floor([a], a.addr) == Some(a) && Floor([a, b], a.addr) == Some(a);
  }

  lemma BuiltNext(h: seq<Entry>, e: Entry)
    ensures BuiltShape(h + [e]) == Inserted(BuiltShape(h), Point(e))
    ensures CountZeros(h + [e]) == CountZeros(h) + if e.addr == 0 then 1 else 0
  {
    assert (h + [e])[..|h|] == h;
  }

  lemma BuiltPrefix(e: seq<Entry>, n: nat)
    requires n < |e|
    ensures BuiltShape(e[..n + 1]) == Inserted(BuiltShape(e[..n]), Point(e[n]))
    ensures CountZeros(e[..n + 1]) == CountZeros(e[..n]) + if e[n].addr == 0 then 1 else 0
  {
    assert e[..n + 1] == e[..n] + [e[n]];
    BuiltNext(e[..n], e[n]);
  }

  /** Adding points at 5, 0, 9, 3, 0, 0 to an empty tree. */
  lemma GrowSix(p: seq<Range>)
    requires |p| == 6 && p[0].low == p[0].high == 5 && p[1].low == p[1].high == 0 && p[2].low == p[2].high == 9
    requires p[3].low == p[3].high == 3 && p[4].low == p[4].high == p[5].low == p[5].high == 0
    ensures HiddenZero(Inserted(
      Inserted(Inserted(Inserted(Inserted(Inserted(Nil, p[0]), p[1]), p[2]), p[3]), p[4]), p[5]))
  {
    var five, zero := Fork(Nil, Black, p[0], Nil), Fork(Nil, Red, p[1], Nil);
    var nine, three := Fork(Nil, Red, p[2], Nil), Fork(Nil, Red, p[3], Nil);
    var two, last := Fork(Nil, Red, p[4], Nil), Fork(Nil, Red, p[5], Nil);
    assert Inserted(Nil, p[0]) == five;
    var b := five.(left := zero);
    assert Inserted(five, p[1]) == b by { assert Grow(five.left, p[1]) == zero; }
    var c := b.(right := nine);
    assert Inserted(b, p[2]) == c by { assert Grow(b.right, p[2]) == nine; }
    var d := c.(left := Fork(Nil, Black, p[1], three), right := nine.(color := Black));
    assert Inserted(c, p[3]) == d by {
      assert Grow(zero.right, p[3]) == three;
      assert Grow(zero, p[3]) == zero.(right := three);
    }
    var f := d.(left := d.left.(left := two));
    assert Inserted(d, p[4]) == f by {
      assert Grow(d.left.left, p[4]) == two;
      assert Grow(d.left, p[4]) == f.left;
    }
    var g := f.(left := Fork(two.(color := Black, left := last), Red, p[1], three.(color := Black)));
    assert Inserted(f, p[5]) == g by {
      assert Grow(two.left, p[5]) == last;
      assert Grow(two, p[5]) == two.(left := last);
      assert Grow(f.left, p[5]) == g.left;
    }
  }

  /** Three entries at address 0 need not do harm: among others, added in this order, all answers are right. */
  lemma {:induction false} ThreeZerosHidden(e: seq<Entry>)
    requires |e| == 6 && e[0].addr == 5 && e[1].addr == 0 && e[2].addr == 9 && e[3].addr == 3
    requires e[4].addr == e[5].addr == 0
    ensures CountZeros(e) == 3 && HiddenZero(BuiltShape(e))
  {
    hide BuiltShape, CountZeros, Inserted, HiddenZero;
    assert BuiltShape([]) == Nil && CountZeros([]) == 0 by { EmptyShape(); }
    assert e[..0] == [] && e[..6] == e;
    BuiltPrefix(e, 0);
    BuiltPrefix(e, 1);
    BuiltPrefix(e, 2);
    BuiltPrefix(e, 3);
    BuiltPrefix(e, 4);
    BuiltPrefix(e, 5);
    GrowSix(seq(|e|, i requires 0 <= i < |e| => Point(e[i])));
  }

  lemma EmptyShape()
    ensures BuiltShape([]) == Nil && CountZeros([]) == 0
  {
  }
}
