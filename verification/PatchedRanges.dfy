/** What the range-patching pass does to a tree of points, and what a search finds afterwards. */
module PatchedRanges {
  import opened Options
  import opened RangeTrees
  import opened ZeroOrders

  /** `a - 1` in 64-bit unsigned arithmetic. */
  function PrevAddr(a: Addr): Addr {
    if a == 0 then MAX_ADDR else a - 1
  }

  /** The address at which the range of the root of `t` must stop. */
  function Limit(t: Tree, max: Addr): Addr
    requires t.Branch?
  {
    if t.right.Leaf? then max else FirstLow(t.right)
  }

  function PatchTree(t: Tree, max: Addr): Tree {
    match t
    case Leaf => Leaf
    case Branch(l, n, col, r, rt) =>
      Branch(PatchTree(l, r.low), n, col, r.(high := PrevAddr(Limit(t, max))), PatchTree(rt, max))
  }

  /** Every range runs to just before the next start; the last one to just before `max`. */
  function PatchSeq(s: seq<Range>, max: Addr): (p: seq<Range>)
    ensures |p| == |s|
  {
    if s == [] then []
    else [s[0].(high := PrevAddr(if |s| == 1 then max else s[1].low))] + PatchSeq(s[1..], max)
  }

  lemma {:induction false} PatchSeqAt(s: seq<Range>, max: Addr, i: nat)
    requires i < |s|
    ensures PatchSeq(s, max)[i] == s[i].(high := PrevAddr(if i + 1 == |s| then max else s[i + 1].low))
  {
    if i > 0 { PatchSeqAt(s[1..], max, i - 1); }
  }

  lemma PatchSeqSplit(a: seq<Range>, b: seq<Range>, max: Addr)
    ensures PatchSeq(a + b, max) == PatchSeq(a, if b == [] then max else b[0].low) + PatchSeq(b, max)
  {
    hide PatchSeq;
    var low := if b == [] then max else b[0].low;
    forall i | 0 <= i < |a| + |b| ensures PatchSeq(a + b, max)[i] == (PatchSeq(a, low) + PatchSeq(b, max))[i] {
      PatchSeqAt(a + b, max, i);
      if i < |a| { PatchSeqAt(a, low, i); } else { PatchSeqAt(b, max, i - |a|); }
    }
  }

  /** The recursive pass patches the in-order sequence, and keeps shape, colours and starts. */
  lemma {:induction false} PatchTreeIsPatchSeq(t: Tree, max: Addr)
    ensures InOrder(PatchTree(t, max)) == PatchSeq(InOrder(t), max)
    ensures Nodes(PatchTree(t, max)) == Nodes(t) && Root(PatchTree(t, max)) == Root(t)
    ensures IsRed(PatchTree(t, max)) == IsRed(t)
  {
    if t.Branch? {
      PatchTreeIsPatchSeq(t.left, t.range.low);
      PatchTreeIsPatchSeq(t.right, max);
      if t.right.Branch? { FirstLowIsFirst(t.right); }
      PatchSeqSplit([t.range], InOrder(t.right), max);
      PatchSeqSplit(InOrder(t.left), [t.range] + InOrder(t.right), max);
      PatchSplice(t, max);
    }
  }

  lemma PatchSplice(t: Tree, max: Addr)
    requires t.Branch?
    ensures InOrder(t) == InOrder(t.left) + ([t.range] + InOrder(t.right))
  {
  }

  lemma {:induction false} PatchKeepsGood(t: Tree, max: Addr, h: nat)
    requires Good(t, h)
    ensures Good(PatchTree(t, max), h) && IsRed(PatchTree(t, max)) == IsRed(t)
  {
    if t.Branch? {
      PatchKeepsGood(t.left, t.range.low, if t.color == Black then h - 1 else h);
      PatchKeepsGood(t.right, max, if t.color == Black then h - 1 else h);
    }
  }

  // ----- floor search -----

  /** How many ranges start at or below `addr`, in a sequence sorted by start. */
  function CountAtOrBelow(s: seq<Range>, addr: Addr): (k: nat)
    ensures k <= |s|
  {
    if s == [] || s[0].low > addr then 0 else 1 + CountAtOrBelow(s[1..], addr)
  }

  /** The patched range of the last start at or below `addr`, if it reaches `addr`. */
  function FloorRange(s: seq<Range>, max: Addr, addr: Addr): Option<Range> {
    var k := CountAtOrBelow(s, addr);
    if k == 0 then None
    else if addr <= PatchSeq(s, max)[k - 1].high then Some(PatchSeq(s, max)[k - 1])
    else None
  }

  /** The range the search stops at. */
  function LookupRange(t: Tree, addr: Addr): Option<Range> {
    match t
    case Leaf => None
    case Branch(l, _, _, q, r) =>
      if addr < q.low then LookupRange(l, addr)
      else if addr > q.high then LookupRange(r, addr)
      else Some(q)
  }

  lemma {:induction false} LookupIsInfo(t: Tree, addr: Addr)
    ensures Lookup(t, addr) == (var r := LookupRange(t, addr); if r.Some? then Some(r.value.info) else None)
  {
    if t.Branch? {
      LookupIsInfo(t.left, addr);
      LookupIsInfo(t.right, addr);
    }
  }

  lemma {:induction false} CountSplit(a: seq<Range>, b: seq<Range>, addr: Addr)
    requires SortedStarts(a + b)
    ensures b != [] && b[0].low <= addr ==> CountAtOrBelow(a + b, addr) == |a| + CountAtOrBelow(b, addr)
    ensures b == [] || b[0].low > addr ==> CountAtOrBelow(a + b, addr) == CountAtOrBelow(a, addr)
  {
    var s := a + b;
    if a == [] {
      assert s == b;
    } else {
      assert s[1..] == a[1..] + b;
      assert s[0] == a[0] && (b != [] ==> s[|a|] == b[0]);
      CountSplit(a[1..], b, addr);
    }
  }

  lemma SortedParts(a: seq<Range>, b: seq<Range>)
    requires SortedStarts(a + b)
    ensures SortedStarts(a) && SortedStarts(b)
    ensures forall p, q :: p in a && q in b ==> p.low <= q.low
  {
    var s := a + b;
    assert a == s[..|a|] && b == s[|a|..];
    forall p, q | p in a && q in b ensures p.low <= q.low {
      var i :| 0 <= i < |a| && a[i] == p;
      var j :| 0 <= j < |b| && b[j] == q;
      assert s[i] == p && s[|a| + j] == q;
    }
  }

  /** If the last start at or below `addr` is in the front part, the front part decides. */
  lemma FloorInFront(a: seq<Range>, b: seq<Range>, max: Addr, addr: Addr)
    requires SortedStarts(a + b) && b != [] && addr < b[0].low
    ensures FloorRange(a + b, max, addr) == FloorRange(a, b[0].low, addr)
  {
    CountSplit(a, b, addr);
    PatchSeqSplit(a, b, max);
  }

  lemma FloorInBack(a: seq<Range>, b: seq<Range>, max: Addr, addr: Addr)
    requires SortedStarts(a + b) && b != [] && b[0].low <= addr
    ensures FloorRange(a + b, max, addr) == FloorRange(b, max, addr)
  {
    CountSplit(a, b, addr);
    PatchSeqSplit(a, b, max);
  }

  /** The first range of a sequence and what follows it: who answers for `addr`. */
  lemma FloorAtFirst(x: Range, b: seq<Range>, max: Addr, addr: Addr)
    requires SortedStarts([x] + b) && x.low <= addr
    requires var limit := if b == [] then max else b[0].low; limit > 0
    ensures var q := x.(high := PrevAddr(if b == [] then max else b[0].low));
      FloorRange([x] + b, max, addr) ==
        if addr <= q.high then Some(q) else if b == [] then None else FloorRange(b, max, addr)
  {
    if b == [] {
      assert [x] + b == [x];
    } else if addr < b[0].low {
      FloorInFront([x], b, max, addr);
      PatchSeqAt([x], b[0].low, 0);
    } else {
      FloorInBack([x], b, max, addr);
    }
  }

  /** At a node that starts at or below `addr` and whose limit does not wrap, the search decides rightly. */
  lemma FloorAtNode(t: Tree, max: Addr, addr: Addr)
    requires t.Branch? && SortedStarts(InOrder(t)) && t.range.low <= addr && Limit(t, max) > 0
    ensures var q := t.range.(high := PrevAddr(Limit(t, max)));
      FloorRange(InOrder(t), max, addr) ==
        if addr <= q.high then Some(q)
        else if t.right.Leaf? then None
        else FloorRange(InOrder(t.right), max, addr)
  {
    var a, b := InOrder(t.left), InOrder(t.right);
    PatchSplice(t, max);
    FloorInBack(a, [t.range] + b, max, addr);
    SortedParts(a, [t.range] + b);
    if t.right.Branch? { FirstLowIsFirst(t.right); }
    FloorAtFirst(t.range, b, max, addr);
  }

  lemma {:induction false} PositiveIsHidden(t: Tree)
    requires t.Branch? ==> FirstLow(t) > 0
    requires SortedStarts(InOrder(t))
    ensures ZeroHidden(t)
  {
    if t.Branch? {
      PatchSplice(t, 0);
      FirstLowIsFirst(t);
      SortedParts(InOrder(t.left), [t.range] + InOrder(t.right));
      if t.left.Branch? { FirstLowIsFirst(t.left); }
      PositiveIsHidden(t.left);
    }
  }

  lemma {:induction false} PatchedSearchIsFloor(t: Tree, max: Addr, addr: Addr)
    requires SortedStarts(InOrder(t)) && ZeroHidden(t) && max > 0
    ensures LookupRange(PatchTree(t, max), addr) == FloorRange(InOrder(t), max, addr)
  {
    if t.Branch? {
      var a, b := InOrder(t.left), InOrder(t.right);
      PatchSplice(t, max);
      SortedParts(a, [t.range] + b);
      SortedParts([t.range], b);
      if t.right.Branch? { FirstLowIsFirst(t.right); }
      if addr < t.range.low {
        FloorInFront(a, [t.range] + b, max, addr);
        PatchedSearchIsFloor(t.left, t.range.low, addr);
      } else {
        FloorAtNode(t, max, addr);
        if addr > PrevAddr(Limit(t, max)) && t.right.Branch? {
          PositiveIsHidden(t.right);
          PatchedSearchIsFloor(t.right, max, addr);
        }
      }
    }
  }

  /** A wrapped range at address 0 in the way of the search: it answers for 0 with a range that ends at the top. */
  lemma {:induction false} UnhiddenZeroFound(t: Tree, max: Addr)
    requires !ZeroHidden(t)
    ensures LookupRange(PatchTree(t, max), 0).Some? && LookupRange(PatchTree(t, max), 0).value.high == MAX_ADDR
  {
    if t.range.low > 0 { UnhiddenZeroFound(t.left, t.range.low); }
  }

  /** That range comes from an entry at address 0 which is not the last one in address order. */
  lemma {:induction false} UnhiddenZeroAt(t: Tree, max: Addr) returns (i: nat)
    requires !ZeroHidden(t)
    ensures i + 1 < |InOrder(t)| && InOrder(t)[i].low == InOrder(t)[i + 1].low == 0
    ensures Lookup(PatchTree(t, max), 0) == Some(InOrder(t)[i].info)
  {
    if t.range.low > 0 {
      i := UnhiddenZeroAt(t.left, t.range.low);
    } else {
      i := |InOrder(t.left)|;
      FirstLowIsFirst(t.right);
      assert InOrder(t)[i] == t.range && InOrder(t)[i + 1] == InOrder(t.right)[0];
    }
  }

  /** Patching leaves the starts, so it keeps the places of the nodes at address 0. */
  lemma {:induction false} PatchKeepsHidden(t: Tree, max: Addr)
    ensures ZeroHidden(PatchTree(t, max)) == ZeroHidden(t)
    ensures t.Branch? ==> FirstLow(PatchTree(t, max)) == FirstLow(t)
  {
    if t.Branch? {
      PatchKeepsHidden(t.left, t.range.low);
      PatchKeepsHidden(t.right, max);
    }
  }

  lemma {:induction false} PatchKeepsStarts(s: seq<Range>, max: Addr)
    ensures forall i :: 0 <= i < |s| ==> PatchSeq(s, max)[i].low == s[i].low
  {
    forall i | 0 <= i < |s| ensures PatchSeq(s, max)[i].low == s[i].low {
      PatchSeqAt(s, max, i);
    }
  }

  lemma PatchKeepsTidy(t: Tree, max: Addr)
    requires Tidy(t) && Points(InOrder(t))
    ensures Tidy(PatchTree(t, max))
  {
    PatchKeepsHidden(t, max);
    PatchTreeIsPatchSeq(t, max);
    PatchKeepsStarts(InOrder(t), max);
    var s, p := InOrder(t), PatchSeq(InOrder(t), max);
    if FewZeros(p) {
      assert forall i :: 0 <= i < |s| ==> s[i].low == p[i].low;
    }
  }

  /** The last start at or below `addr` never has a wrapped end. */
  lemma FloorNeverWraps(s: seq<Range>, max: Addr, addr: Addr)
    requires SortedStarts(s) && max > 0
    ensures FloorRange(s, max, addr).Some? ==> FloorRange(s, max, addr).value.high < MAX_ADDR
  {
    var k := CountAtOrBelow(s, addr);
    CountMeaning(s, addr);
    if k > 0 { PatchSeqAt(s, max, k - 1); }
  }

  lemma {:induction false} CountMeaning(s: seq<Range>, addr: Addr)
    requires SortedStarts(s)
    ensures forall i :: 0 <= i < |s| ==> (i < CountAtOrBelow(s, addr) <==> s[i].low <= addr)
  {
    if s != [] && s[0].low <= addr {
      CountMeaning(s[1..], addr);
      assert forall i :: 0 < i < |s| ==> s[i] == s[1..][i - 1];
    }
  }

  /** After patching, the search is a floor search exactly when no wrapped range at address 0 is in its way. */
  lemma PatchedSearchIsFloorIff(t: Tree, max: Addr)
    requires SortedStarts(InOrder(t)) && max > 0
    ensures ZeroHidden(t) <==>
      forall addr: Addr :: LookupRange(PatchTree(t, max), addr) == FloorRange(InOrder(t), max, addr)
  {
    if ZeroHidden(t) {
      forall addr: Addr ensures LookupRange(PatchTree(t, max), addr) == FloorRange(InOrder(t), max, addr) {
        PatchedSearchIsFloor(t, max, addr);
      }
    } else {
      UnhiddenZeroFound(t, max);
      FloorNeverWraps(InOrder(t), max, 0);
    }
  }
}
