/** Line-table entries, in the order they are added, and the search they stand for. */
module LineTables {
  import opened Options
  import opened PatchedRanges
  import opened RangeTrees
  import opened ZeroOrders

  /** One stored entry of the address-to-source map. */
  datatype Entry = Entry(addr: Addr, fileName: string, lineNumber: nat)

  function InfoOf(e: Entry): Info {
    SourceLine(e.fileName, e.lineNumber)
  }

  function Point(e: Entry): Range {
    Range(e.addr, e.addr, InfoOf(e))
  }

  /** Linear search through the entries in the order they were added: the greatest address
      at or below `addr`, and the first added among equals. */
  function Floor(h: seq<Entry>, addr: Addr): Option<Entry> {
    if h == [] then None
    else
      var best, e := Floor(h[..|h| - 1], addr), h[|h| - 1];
      if e.addr <= addr && (best.None? || best.value.addr < e.addr) then Some(e) else best
  }

  ghost predicate IsFloor(h: seq<Entry>, addr: Addr, i: nat) {
    && i < |h| && h[i].addr <= addr
    && (forall j :: 0 <= j < |h| && h[j].addr <= addr ==> h[j].addr <= h[i].addr)
    && (forall j :: 0 <= j < i ==> h[j].addr != h[i].addr)
  }

  ghost predicate AllAbove(h: seq<Entry>, addr: Addr) {
    forall j :: 0 <= j < |h| ==> addr < h[j].addr
  }

  /** A later entry becomes the floor, or leaves it where it is. */
  lemma FloorMoves(g: seq<Entry>, e: Entry, addr: Addr, i: nat)
    requires IsFloor(g, addr, i) && g[i].addr < e.addr <= addr
    ensures IsFloor(g + [e], addr, |g|)
  {
    var h := g + [e];
    forall j | 0 <= j < |g| ensures h[j].addr <= addr ==> h[j].addr < h[|g|].addr {
      assert h[j] == g[j];
    }
  }

  lemma FloorStays(g: seq<Entry>, e: Entry, addr: Addr, i: nat)
    requires IsFloor(g, addr, i) && !(g[i].addr < e.addr <= addr)
    ensures IsFloor(g + [e], addr, i)
  {
    var h := g + [e];
    forall j | 0 <= j < |g| ensures h[j].addr <= addr ==> h[j].addr <= h[i].addr {
      assert h[j] == g[j];
    }
    forall j | 0 <= j < i ensures h[j].addr != h[i].addr {
      assert h[j] == g[j];
    }
  }

  lemma FloorStarts(g: seq<Entry>, e: Entry, addr: Addr)
    requires AllAbove(g, addr) && e.addr <= addr
    ensures IsFloor(g + [e], addr, |g|)
  {
    var h := g + [e];
    forall j | 0 <= j < |g| ensures addr < h[j].addr {
      assert h[j] == g[j];
    }
  }

  /** What the linear search finds, and that it finds nothing exactly when every entry is above. */
  lemma {:induction false} FloorMeaning(h: seq<Entry>, addr: Addr)
    ensures Floor(h, addr).None? <==> AllAbove(h, addr)
    ensures Floor(h, addr).Some? ==> exists i: nat :: IsFloor(h, addr, i) && Floor(h, addr) == Some(h[i])
  {
    if h != [] {
      hide IsFloor;
      var n := |h| - 1;
      var g, e := h[..n], h[n];
      assert h == g + [e];
      FloorMeaning(g, addr);
      if Floor(g, addr).Some? {
        var i: nat :| IsFloor(g, addr, i) && Floor(g, addr) == Some(g[i]);
        FloorInside(g, addr, i);
        if g[i].addr < e.addr <= addr {
          FloorMoves(g, e, addr, i);
          assert IsFloor(h, addr, n) && Floor(h, addr) == Some(h[n]);
        } else {
          FloorStays(g, e, addr, i);
          assert IsFloor(h, addr, i) && Floor(h, addr) == Some(h[i]);
        }
        FloorNotAbove(h, addr);
      } else if e.addr <= addr {
        FloorStarts(g, e, addr);
        assert IsFloor(h, addr, n) && Floor(h, addr) == Some(h[n]);
        FloorNotAbove(h, addr);
      }
    }
  }

  lemma FloorInside(h: seq<Entry>, addr: Addr, i: nat)
    requires IsFloor(h, addr, i)
    ensures i < |h| && h[i].addr <= addr
  {
  }

  lemma FloorNotAbove(h: seq<Entry>, addr: Addr)
    requires exists i: nat :: IsFloor(h, addr, i)
    ensures !AllAbove(h, addr)
  {
  }

  /** The in-order ranges after adding the entries one by one. */
  function Sorted(h: seq<Entry>): seq<Range> {
    if h == [] then [] else InsertRange(Sorted(h[..|h| - 1]), Point(h[|h| - 1]))
  }

  lemma {:induction false} SortedIsSeparated(h: seq<Entry>)
    ensures Separated(Sorted(h)) && Points(Sorted(h))
  {
    if h != [] {
      var g, e := h[..|h| - 1], h[|h| - 1];
      SortedIsSeparated(g);
      InsertKeepsSeparated(Sorted(g), Point(e));
      var s, p := Sorted(g), InsertPos(Sorted(g), e.addr);
      forall i | 0 <= i <= |s| ensures Sorted(h)[i].low == Sorted(h)[i].high {
        SpliceAt(s, p, Point(e), i);
      }
    }
  }

  /** The info of the last range of a sorted sequence that starts at or below `addr`. */
  function LastAtOrBelow(s: seq<Range>, addr: Addr): Option<Range> {
    var k := CountAtOrBelow(s, addr);
    if k == 0 then None else Some(s[k - 1])
  }

  /** Inserting a point either leaves the answer alone or becomes the answer. */
  lemma InsertFloor(s: seq<Range>, r: Range, addr: Addr)
    requires Separated(s) && Points(s) && r.low == r.high
    ensures LastAtOrBelow(InsertRange(s, r), addr) ==
      var best := LastAtOrBelow(s, addr);
      if r.low <= addr && (best.None? || best.value.low < r.low) then Some(r) else best
  {
    var p := InsertPos(s, r.high);
    InsertPosMeaning(s, r.high);
    assert forall i :: 0 <= i < |s| ==> DisjointRanges(s[i], r);
    InsertKeepsSeparated(s, r);
    var t := InsertRange(s, r);
    CountMeaning(s, addr);
    CountMeaning(t, addr);
    var k, k' := CountAtOrBelow(s, addr), CountAtOrBelow(t, addr);
    CountInserted(s, p, r, addr);
    if k' > 0 { SpliceAt(s, p, r, k' - 1); }
  }

  lemma CountMiddle(a: seq<Range>, r: Range, b: seq<Range>, addr: Addr)
    requires SortedStarts(a + b) && SortedStarts(a + ([r] + b))
    requires forall i :: 0 <= i < |a| ==> a[i].low < r.low
    requires b != [] ==> r.low <= b[0].low
    ensures CountAtOrBelow(a + ([r] + b), addr) == CountAtOrBelow(a + b, addr) + if r.low <= addr then 1 else 0
  {
    CountSplit(a, b, addr);
    CountSplit(a, [r] + b, addr);
    assert ([r] + b)[1..] == b;
    if r.low <= addr { CountAll(a, addr); }
  }

  lemma CountInserted(s: seq<Range>, p: nat, r: Range, addr: Addr)
    requires p == InsertPos(s, r.high) && r.low == r.high && Separated(s) && Separated(InsertRange(s, r))
    ensures CountAtOrBelow(InsertRange(s, r), addr) == CountAtOrBelow(s, addr) + if r.low <= addr then 1 else 0
  {
    assert s == s[..p] + s[p..] && InsertRange(s, r) == s[..p] + ([r] + s[p..]);
    InsertPosMeaning(s, r.high);
    CountMiddle(s[..p], r, s[p..], addr);
  }

  lemma {:induction false} CountAll(s: seq<Range>, addr: Addr)
    requires forall i :: 0 <= i < |s| ==> s[i].low <= addr
    ensures CountAtOrBelow(s, addr) == |s|
  {
    if s != [] { CountAll(s[1..], addr); }
  }

  /** The sorted sequence answers like the linear search. */
  lemma {:induction false} SortedFloor(h: seq<Entry>, addr: Addr)
    ensures LastAtOrBelow(Sorted(h), addr) ==
      var e := Floor(h, addr); if e.Some? then Some(Point(e.value)) else None
  {
    if h != [] {
      var g, e := h[..|h| - 1], h[|h| - 1];
      SortedFloor(g, addr);
      SortedIsSeparated(g);
      InsertFloor(Sorted(g), Point(e), addr);
    }
  }

  /** Up to the last patchable address, the patched floor range carries the floor entry. */
  lemma PatchedFloorIsFloor(h: seq<Entry>, addr: Addr)
    ensures var r, e := FloorRange(Sorted(h), MAX_ADDR, addr), Floor(h, addr);
      if addr == MAX_ADDR || e.None? then r.None? else r.Some? && r.value.info == InfoOf(e.value)
  {
    var s, k := Sorted(h), CountAtOrBelow(Sorted(h), addr);
    SortedFloor(h, addr);
    SortedIsSeparated(h);
    CountMeaning(s, addr);
    if k > 0 { PatchSeqAt(s, MAX_ADDR, k - 1); }
  }

  // ----- address 0 -----

  function CountZeros(h: seq<Entry>): nat {
    if h == [] then 0 else CountZeros(h[..|h| - 1]) + if h[|h| - 1].addr == 0 then 1 else 0
  }

  lemma {:induction false} ZerosMeaning(h: seq<Entry>)
    ensures CountZeros(h) == |set i | 0 <= i < |h| && h[i].addr == 0|
  {
    var zeros := set i | 0 <= i < |h| && h[i].addr == 0;
    if h != [] {
      var n := |h| - 1;
      ZerosMeaning(h[..n]);
      assert zeros == (set i | 0 <= i < n && h[..n][i].addr == 0) + if h[n].addr == 0 then {n} else {};
    } else {
      assert zeros == {};
    }
  }

  lemma {:induction false} ZerosSorted(h: seq<Entry>)
    ensures CountAtOrBelow(Sorted(h), 0) == CountZeros(h)
  {
    if h != [] {
      var g, e := h[..|h| - 1], h[|h| - 1];
      ZerosSorted(g);
      SortedIsSeparated(g);
      SortedIsSeparated(h);
      CountInserted(Sorted(g), InsertPos(Sorted(g), e.addr), Point(e), 0);
    }
  }

  /** With at most one entry at address 0 no range wraps in the way of the search. */
  lemma {:induction false} OneZeroIsHidden(t: Tree)
    requires SortedStarts(InOrder(t)) && CountAtOrBelow(InOrder(t), 0) <= 1
    ensures ZeroHidden(t)
  {
    if t.Branch? {
      PatchSplice(t, 0);
      SortedParts(InOrder(t.left), [t.range] + InOrder(t.right));
      CountSplit(InOrder(t.left), [t.range] + InOrder(t.right), 0);
      if t.range.low > 0 {
        OneZeroIsHidden(t.left);
      } else if t.right.Branch? {
        FirstLowIsFirst(t.right);
        CountSplit([t.range], InOrder(t.right), 0);
      }
    }
  }

  /** Two entries at address 0 do no harm either in a tree that insertion has built. */
  lemma TwoZerosAreHidden(h: seq<Entry>, t: Tree)
    requires InOrder(t) == Sorted(h) && Tidy(t) && CountZeros(h) <= 2
    ensures ZeroHidden(t)
  {
    SortedIsSeparated(h);
    ZerosSorted(h);
    CountMeaning(Sorted(h), 0);
  }

  // ----- which entry a range came from -----

  /** No two entries carry the same information. */
  ghost predicate DistinctInfos(h: seq<Entry>) {
    forall i, j :: 0 <= i < j < |h| ==> InfoOf(h[i]) != InfoOf(h[j])
  }

  lemma {:induction false} SortedFrom(h: seq<Entry>, i: nat) returns (k: nat)
    requires i < |Sorted(h)|
    ensures k < |h| && Sorted(h)[i] == Point(h[k])
  {
    var g, e := h[..|h| - 1], h[|h| - 1];
    var s, p := Sorted(g), InsertPos(Sorted(g), e.addr);
    SpliceAt(s, p, Point(e), i);
    if i == p {
      k := |g|;
    } else {
      k := SortedFrom(g, if i < p then i else i - 1);
    }
  }

  lemma {:induction false} SortedInfos(h: seq<Entry>, i: nat, j: nat)
    requires DistinctInfos(h) && i < j < |Sorted(h)|
    ensures Sorted(h)[i].info != Sorted(h)[j].info
  {
    var g, e := h[..|h| - 1], h[|h| - 1];
    var s, p := Sorted(g), InsertPos(Sorted(g), e.addr);
    SpliceAt(s, p, Point(e), i);
    SpliceAt(s, p, Point(e), j);
    if i == p {
      var k := SortedFrom(g, j - 1);
      assert InfoOf(h[k]) != InfoOf(h[|g|]);
    } else if j == p {
      var k := SortedFrom(g, i);
      assert InfoOf(h[k]) != InfoOf(h[|g|]);
    } else {
      SortedInfos(g, if i < p then i else i - 1, if j < p then j else j - 1);
    }
  }

  /** Some patched range wraps exactly when address 0 was stored twice. */
  lemma WrapsExactlyOnTwoZeros(h: seq<Entry>)
    ensures (exists q :: q in PatchSeq(Sorted(h), MAX_ADDR) && q.high == MAX_ADDR) <==> CountZeros(h) >= 2
  {
    var s := Sorted(h);
    SortedIsSeparated(h);
    ZerosSorted(h);
    CountMeaning(s, 0);
    if CountZeros(h) >= 2 {
      PatchSeqAt(s, MAX_ADDR, 0);
      assert PatchSeq(s, MAX_ADDR)[0] in PatchSeq(s, MAX_ADDR);
    }
    forall i | 0 <= i < |s| && PatchSeq(s, MAX_ADDR)[i].high == MAX_ADDR ensures CountZeros(h) >= 2 {
      PatchSeqAt(s, MAX_ADDR, i);
    }
  }

  // ----- the line-table filter -----

  /** A line-table row as the DWARF library reads it: three reads that may each fail. */
  datatype Line = Line(numberOk: bool, addrOk: bool, fileOk: bool, addr: Addr, fileName: string, lineNumber: nat)

  predicate Readable(l: Line) {
    l.numberOk && l.addrOk && l.fileOk
  }

  function EntryOf(l: Line): Entry {
    Entry(l.addr, l.fileName, l.lineNumber)
  }

  /** Row `i` needs the address of the next row, which cannot be read. */
  predicate Blocked(lines: seq<Line>, i: nat) {
    i + 1 < |lines| && Readable(lines[i]) && !lines[i + 1].addrOk
  }

  /** A readable row is kept unless the next row has the same address. */
  predicate Kept(lines: seq<Line>, i: nat)
    requires i < |lines|
  {
    Readable(lines[i]) && (i + 1 < |lines| ==> lines[i + 1].addr != lines[i].addr)
  }

  /** The entries kept among the first `n` rows. */
  function KeptEntries(lines: seq<Line>, n: nat): seq<Entry>
    requires n <= |lines|
  {
    if n == 0 then []
    else KeptEntries(lines, n - 1) + if Kept(lines, n - 1) then [EntryOf(lines[n - 1])] else []
  }

  /** Reading the table backwards: the last row at or below `addr`. */
  function LastRow(lines: seq<Line>, n: nat, addr: Addr): Option<Entry>
    requires n <= |lines|
  {
    if n == 0 then None
    else if lines[n - 1].addr <= addr then Some(EntryOf(lines[n - 1]))
    else LastRow(lines, n - 1, addr)
  }

  ghost predicate Nondecreasing(lines: seq<Line>) {
    forall i, j :: 0 <= i < j < |lines| ==> lines[i].addr <= lines[j].addr
  }

  ghost predicate AllReadable(lines: seq<Line>) {
    forall i :: 0 <= i < |lines| ==> Readable(lines[i])
  }

  /** What is kept of the rows before row `n` lies strictly below row `n`. */
  lemma {:induction false} KeptBelow(lines: seq<Line>, n: nat)
    requires n < |lines| && Nondecreasing(lines)
    ensures forall e :: e in KeptEntries(lines, n) ==> e.addr < lines[n].addr
  {
    if n > 0 { KeptBelow(lines, n - 1); }
  }

  lemma {:induction false} KeptFloor(lines: seq<Line>, n: nat, addr: Addr)
    requires n <= |lines| && AllReadable(lines) && Nondecreasing(lines)
    requires 0 < n < |lines| && lines[n].addr == lines[n - 1].addr ==> addr < lines[n].addr
    ensures Floor(KeptEntries(lines, n), addr) == LastRow(lines, n, addr)
  {
    if n > 0 {
      var k := KeptEntries(lines, n - 1);
      assert Readable(lines[n - 1]);
      if addr < lines[n - 1].addr { KeptFloor(lines, n - 1, addr); }
      if Kept(lines, n - 1) {
        var h := KeptEntries(lines, n);
        assert h[..|h| - 1] == k;
        KeptBelow(lines, n - 1);
        FloorMeaning(k, addr);
      } else {
        assert KeptEntries(lines, n) == k;
      }
    }
  }

  lemma {:induction false} KeptZeros(lines: seq<Line>, n: nat)
    requires n <= |lines| && Nondecreasing(lines)
    ensures CountZeros(KeptEntries(lines, n)) <= 1
  {
    if n > 0 {
      KeptZeros(lines, n - 1);
      var h, k := KeptEntries(lines, n), KeptEntries(lines, n - 1);
      if Kept(lines, n - 1) {
        assert h[..|h| - 1] == k;
        KeptBelow(lines, n - 1);
        assert k != [] ==> k[0] in k;
      } else {
        assert h == k;
      }
    }
  }

  /** For a readable, nondecreasing table, looking up what the filter kept gives the last row
      at or below the address, although rows followed by one with the same address were dropped. */
  lemma KeptFloorIsLastRow(lines: seq<Line>, addr: Addr)
    requires AllReadable(lines) && Nondecreasing(lines)
    ensures Floor(KeptEntries(lines, |lines|), addr) == LastRow(lines, |lines|, addr)
    ensures CountZeros(KeptEntries(lines, |lines|)) <= 1
  {
    KeptFloor(lines, |lines|, addr);
    KeptZeros(lines, |lines|);
  }

  // ----- several line tables -----

  /** Of two entries the one with the greater address, the first one if they have the same. */
  function Later(a: Option<Entry>, b: Option<Entry>): Option<Entry> {
    if b.None? then a else if a.None? || a.value.addr < b.value.addr then b else a
  }

  lemma {:induction false} FloorConcat(a: seq<Entry>, b: seq<Entry>, addr: Addr)
    ensures Floor(a + b, addr) == Later(Floor(a, addr), Floor(b, addr))
  {
    if b == [] {
      assert a + b == a;
    } else {
      var n := |b| - 1;
      assert (a + b)[..|a| + n] == a + b[..n];
      FloorConcat(a, b[..n], addr);
    }
  }

  lemma {:induction false} ZerosConcat(a: seq<Entry>, b: seq<Entry>)
    ensures CountZeros(a + b) == CountZeros(a) + CountZeros(b)
  {
    if b == [] {
      assert a + b == a;
    } else {
      var n := |b| - 1;
      assert (a + b)[..|a| + n] == a + b[..n];
      ZerosConcat(a, b[..n]);
    }
  }

  /** The kept entries of the first `n` tables of an executable, one after the other. */
  function KeptOfAll(tables: seq<seq<Line>>, n: nat): seq<Entry>
    requires n <= |tables|
  {
    if n == 0 then [] else KeptOfAll(tables, n - 1) + KeptEntries(tables[n - 1], |tables[n - 1]|)
  }

  /** Of the last rows at or below `addr`, one for each of the first `n` tables, the one with the greatest address, from
      the first table among equals. */
  function LastOfAll(tables: seq<seq<Line>>, n: nat, addr: Addr): Option<Entry>
    requires n <= |tables|
  {
    if n == 0 then None else Later(LastOfAll(tables, n - 1, addr), LastRow(tables[n - 1], |tables[n - 1]|, addr))
  }

  lemma {:induction false} LastOfAllMeaning(tables: seq<seq<Line>>, n: nat, addr: Addr) returns (k: nat)
    requires n <= |tables|
    ensures LastOfAll(tables, n, addr).None? <==>
      forall j: nat :: j < n ==> LastRow(tables[j], |tables[j]|, addr).None?
    ensures var e := LastOfAll(tables, n, addr); e.Some? ==>
      && k < n && e == LastRow(tables[k], |tables[k]|, addr)
      && forall j: nat :: j < n && LastRow(tables[j], |tables[j]|, addr).Some? ==>
           var a := LastRow(tables[j], |tables[j]|, addr).value.addr;
           a <= e.value.addr && (j < k ==> a < e.value.addr)
  {
    if n == 0 {
      k := 0;
    } else {
      hide LastRow;
      k := LastOfAllMeaning(tables, n - 1, addr);
      var a, b := LastOfAll(tables, n - 1, addr), LastRow(tables[n - 1], |tables[n - 1]|, addr);
      if b.Some? && (a.None? || a.value.addr < b.value.addr) { k := n - 1; }
    }
  }

  /** How many tables start at address 0. */
  function ZeroStarts(tables: seq<seq<Line>>, n: nat): nat
    requires n <= |tables|
  {
    if n == 0 then 0
    else
      var t := tables[n - 1];
      ZeroStarts(tables, n - 1) + if |t| > 0 && t[0].addr == 0 then 1 else 0
  }

  lemma {:induction false} ZeroStartsMeaning(tables: seq<seq<Line>>, n: nat)
    requires n <= |tables|
    ensures ZeroStarts(tables, n) == |set k | 0 <= k < n && tables[k] != [] && tables[k][0].addr == 0|
  {
    var zeros := set k | 0 <= k < n && tables[k] != [] && tables[k][0].addr == 0;
    if n > 0 {
      ZeroStartsMeaning(tables, n - 1);
      OneMoreStart(tables, n - 1);
    } else {
      assert zeros == {};
    }
  }

  lemma OneMoreStart(tables: seq<seq<Line>>, m: nat)
    requires m < |tables|
    ensures |set k | 0 <= k < m + 1 && tables[k] != [] && tables[k][0].addr == 0| ==
      |set k | 0 <= k < m && tables[k] != [] && tables[k][0].addr == 0| +
      if tables[m] != [] && tables[m][0].addr == 0 then 1 else 0
  {
    assert (set k | 0 <= k < m + 1 && tables[k] != [] && tables[k][0].addr == 0) ==
      (set k | 0 <= k < m && tables[k] != [] && tables[k][0].addr == 0) +
      if tables[m] != [] && tables[m][0].addr == 0 then {m} else {};
  }

  lemma {:induction false} NoZeroKept(lines: seq<Line>, n: nat)
    requires n <= |lines| && Nondecreasing(lines) && (|lines| > 0 ==> lines[0].addr > 0)
    ensures CountZeros(KeptEntries(lines, n)) == 0
  {
    if n > 0 {
      NoZeroKept(lines, n - 1);
      var h, k := KeptEntries(lines, n), KeptEntries(lines, n - 1);
      if Kept(lines, n - 1) { assert h[..|h| - 1] == k; } else { assert h == k; }
    }
  }

  ghost predicate GoodTable(lines: seq<Line>) {
    AllReadable(lines) && Nondecreasing(lines)
  }

  /** Looking up what was kept of all tables gives the row with the greatest address over all tables, from the first
      table among equals. */
  lemma {:induction false} KeptOfAllFloor(tables: seq<seq<Line>>, n: nat, addr: Addr)
    requires n <= |tables| && forall k :: 0 <= k < n ==> GoodTable(tables[k])
    ensures Floor(KeptOfAll(tables, n), addr) == LastOfAll(tables, n, addr)
    ensures CountZeros(KeptOfAll(tables, n)) <= ZeroStarts(tables, n)
  {
    if n > 0 {
      hide Floor, KeptEntries, LastRow, CountZeros, GoodTable;
      var t := tables[n - 1];
      KeptOfAllFloor(tables, n - 1, addr);
      KeptOfOne(t, addr);
      FloorConcat(KeptOfAll(tables, n - 1), KeptEntries(t, |t|), addr);
      ZerosConcat(KeptOfAll(tables, n - 1), KeptEntries(t, |t|));
    } else {
      assert Floor([], addr) == None && CountZeros([]) == 0;
    }
  }

  lemma KeptOfOne(t: seq<Line>, addr: Addr)
    requires GoodTable(t)
    ensures Floor(KeptEntries(t, |t|), addr) == LastRow(t, |t|, addr)
    ensures CountZeros(KeptEntries(t, |t|)) <= if |t| > 0 && t[0].addr == 0 then 1 else 0
  {
    hide Floor, KeptEntries, LastRow, CountZeros;
    KeptFloorIsLastRow(t, addr);
    if |t| == 0 || t[0].addr > 0 { NoZeroKept(t, |t|); }
  }

  // ----- the row that a lookup reports -----

  /** Row `i` of a table is its last one at or below `addr`. */
  ghost predicate IsLast(lines: seq<Line>, addr: Addr, i: nat) {
    i < |lines| && lines[i].addr <= addr && forall j :: i < j < |lines| ==> lines[j].addr > addr
  }

  ghost predicate AllRowsAbove(lines: seq<Line>, addr: Addr) {
    forall i :: 0 <= i < |lines| ==> lines[i].addr > addr
  }

  lemma {:induction false} LastRowMeaning(lines: seq<Line>, n: nat, addr: Addr) returns (i: nat)
    requires n <= |lines| && forall j :: n <= j < |lines| ==> lines[j].addr > addr
    ensures LastRow(lines, n, addr).None? <==> AllRowsAbove(lines, addr)
    ensures var e := LastRow(lines, n, addr); e.Some? ==>
      IsLast(lines, addr, i) && e.value == Entry(lines[i].addr, lines[i].fileName, lines[i].lineNumber)
  {
    i := 0;
    if n > 0 {
      if lines[n - 1].addr <= addr { i := n - 1; } else { i := LastRowMeaning(lines, n - 1, addr); }
    }
  }

  /** Row `i` of table `k`: the last one of its table at or below `addr`, with the greatest such address over all
      tables, in the first table that has it. */
  ghost predicate IsAnswer(tables: seq<seq<Line>>, addr: Addr, k: nat, i: nat) {
    && k < |tables| && IsLast(tables[k], addr, i)
    && (forall l, j :: 0 <= l < |tables| && 0 <= j < |tables[l]| && tables[l][j].addr <= addr ==>
          tables[l][j].addr <= tables[k][i].addr && (l < k ==> tables[l][j].addr < tables[k][i].addr))
  }

  lemma RowsBelowLast(lines: seq<Line>, addr: Addr, i: nat, j: nat)
    requires Nondecreasing(lines) && IsLast(lines, addr, i) && j < |lines| && lines[j].addr <= addr
    ensures lines[j].addr <= lines[i].addr
  {
  }

  /** What is found among all tables, in terms of their rows. */
  lemma AnswerRow(tables: seq<seq<Line>>, addr: Addr) returns (k: nat, i: nat)
    requires forall l :: 0 <= l < |tables| ==> Nondecreasing(tables[l])
    ensures LastOfAll(tables, |tables|, addr).None? <==>
      forall l :: 0 <= l < |tables| ==> AllRowsAbove(tables[l], addr)
    ensures var e := LastOfAll(tables, |tables|, addr); e.Some? ==>
      && IsAnswer(tables, addr, k, i)
      && e.value == Entry(tables[k][i].addr, tables[k][i].fileName, tables[k][i].lineNumber)
  {
    hide LastRow, LastOfAll, Nondecreasing, IsLast;
    k := LastOfAllMeaning(tables, |tables|, addr);
    forall l | 0 <= l < |tables|
      ensures LastRow(tables[l], |tables[l]|, addr).None? <==> AllRowsAbove(tables[l], addr)
    {
      var _ := LastRowMeaning(tables[l], |tables[l]|, addr);
    }
    i := 0;
    if LastOfAll(tables, |tables|, addr).Some? {
      i := LastRowMeaning(tables[k], |tables[k]|, addr);
      forall l, j | 0 <= l < |tables| && 0 <= j < |tables[l]| && tables[l][j].addr <= addr
        ensures tables[l][j].addr <= tables[k][i].addr && (l < k ==> tables[l][j].addr < tables[k][i].addr)
      {
        var m := LastRowMeaning(tables[l], |tables[l]|, addr);
        RowsBelowLast(tables[l], addr, m, j);
      }
    }
  }
}
