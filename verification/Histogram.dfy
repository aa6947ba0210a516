/** The histograms of communicator and message sizes: bins of doubling width. */
module Histograms {
  import opened Powers

  /** The interval that the label of a bin prints. */
  function LabelMin(firstBinMax: int, bin: nat): int {
    if bin == 0 then 0 else (firstBinMax + 1) * Pow2(bin - 1)
  }

  function LabelMax(firstBinMax: int, bin: nat): int {
    if bin == 0 then firstBinMax else LabelMin(firstBinMax, bin) * 2 - 1
  }

  predicate InLabel(firstBinMax: int, bin: nat, val: int) {
    LabelMin(firstBinMax, bin) <= val <= LabelMax(firstBinMax, bin)
  }

  /** The label's loop of shifts. */
  method BinLabel(firstBinMax: int, v: nat) returns (min: int, max: int)
    ensures min == LabelMin(firstBinMax, v) && max == LabelMax(firstBinMax, v)
    ensures min == (if v == 0 then 0 else (firstBinMax + 1) * Pow2(v - 1))
    ensures max == (firstBinMax + 1) * Pow2(v) - 1
  {
    if v == 0 {
      min, max := 0, firstBinMax;
    } else {
      min := firstBinMax + 1;
      for i := 0 to v - 1
        invariant min == (firstBinMax + 1) * Pow2(i)
      {
        min := min * 2;
      }
      max := min * 2 - 1;
    }
  }

  /** A value halved `n` times. */
  function Halved(val: int, n: nat): int {
    if n == 0 then val else Halved(val, n - 1) / 2
  }

  lemma {:induction false} HalvedBelow(val: int, n: nat, limit: int)
    ensures Halved(val, n) < limit <==> val < limit * Pow2(n)
    decreases n
  {
    if n > 0 {
      HalvedBelow(val, n - 1, limit * 2);
      assert limit * 2 * Pow2(n - 1) == limit * Pow2(n);
    }
  }

  /** The first bin from `bin` on whose label ends at or above the value, or the limit. */
  function BinFrom(firstBinMax: int, histSize: nat, val: int, bin: nat): (r: nat)
    requires bin <= histSize
    ensures bin <= r <= histSize
    ensures forall b: nat :: bin <= b < r ==> val > LabelMax(firstBinMax, b)
    ensures r < histSize ==> val <= LabelMax(firstBinMax, r)
    decreases histSize - bin
  {
    if bin < histSize && val > LabelMax(firstBinMax, bin) then BinFrom(firstBinMax, histSize, val, bin + 1) else bin
  }

  function BinOf(firstBinMax: int, histSize: nat, val: int): nat {
    BinFrom(firstBinMax, histSize, val, 0)
  }

  /** The bin of a value, found by halving it. */
  method GetBin(firstBinMax: int, histSize: nat, val: int) returns (bin: nat)
    ensures bin == BinOf(firstBinMax, histSize, val) <= histSize
    ensures forall b: nat :: b < bin ==> val > (firstBinMax + 1) * Pow2(b) - 1
    ensures bin < histSize ==> val <= (firstBinMax + 1) * Pow2(bin) - 1
  {
    hide LabelMin, LabelMax;
    var wv := val;
    bin := 0;
    LabelEnds(firstBinMax, val, 0);
    while wv > firstBinMax && bin < histSize
      invariant bin <= histSize && wv == Halved(val, bin)
      invariant wv <= firstBinMax <==> val <= LabelMax(firstBinMax, bin)
      invariant BinOf(firstBinMax, histSize, val) == BinFrom(firstBinMax, histSize, val, bin)
      decreases histSize - bin
    {
      wv := wv / 2;
      bin := bin + 1;
      LabelEnds(firstBinMax, val, bin);
    }
    forall b: nat ensures LabelMax(firstBinMax, b) == (firstBinMax + 1) * Pow2(b) - 1 {
      LabelMaxIs(firstBinMax, b);
    }
  }

  lemma LabelEnds(firstBinMax: int, val: int, bin: nat)
    ensures Halved(val, bin) <= firstBinMax <==> val <= LabelMax(firstBinMax, bin)
  {
    hide Halved, LabelMax;
    HalvedBelow(val, bin, firstBinMax + 1);
    LabelMaxIs(firstBinMax, bin);
  }

  lemma LabelMaxIs(firstBinMax: int, bin: nat)
    ensures LabelMax(firstBinMax, bin) == (firstBinMax + 1) * Pow2(bin) - 1
  {
    if bin > 0 { Doubled(firstBinMax + 1, Pow2(bin - 1)); }
  }

  lemma Doubled(x: int, y: int)
    ensures x * (2 * y) == x * y * 2
  {
  }

  /** The labels leave no gaps. */
  lemma LabelsMeet(firstBinMax: int, bin: nat)
    ensures LabelMin(firstBinMax, bin + 1) == LabelMax(firstBinMax, bin) + 1
  {
  }

  /** The labels go up. */
  lemma {:induction false} LabelsAscend(firstBinMax: nat, a: nat, b: nat)
    requires a < b
    ensures LabelMax(firstBinMax, a) < LabelMin(firstBinMax, b)
  {
    LabelsMeet(firstBinMax, b - 1);
    if a < b - 1 {
      LabelsAscend(firstBinMax, a, b - 1);
      assert LabelMin(firstBinMax, b - 1) <= LabelMax(firstBinMax, b - 1);
    }
  }

  lemma LabelsNonempty(firstBinMax: nat, bin: nat)
    ensures 0 <= LabelMin(firstBinMax, bin) <= LabelMax(firstBinMax, bin)
  {
    if bin > 0 { assert (firstBinMax + 1) * Pow2(bin - 1) >= 1; }
  }

  /** A nonnegative value's bin, if it is not the limit, is the one bin whose printed interval holds the value; the
      limit is reached exactly by the values beyond all intervals. */
  lemma BinIsLabel(firstBinMax: nat, histSize: nat, val: nat)
    ensures forall b: nat :: b < histSize ==> (InLabel(firstBinMax, b, val) <==> b == BinOf(firstBinMax, histSize, val))
    ensures BinOf(firstBinMax, histSize, val) == histSize <==>
      histSize == 0 || val > LabelMax(firstBinMax, histSize - 1)
  {
    hide LabelMin, LabelMax;
    var bin := BinOf(firstBinMax, histSize, val);
    if bin < histSize {
      if bin > 0 { LabelsMeet(firstBinMax, bin - 1); } else { FirstLabel(firstBinMax); }
      if bin < histSize - 1 {
        LabelsAscend(firstBinMax, bin, histSize - 1);
        LabelsNonempty(firstBinMax, histSize - 1);
      }
    }
    forall b: nat | bin < b < histSize ensures !InLabel(firstBinMax, b, val) {
      LabelsAscend(firstBinMax, bin, b);
    }
  }

  lemma NotPositive(x: int, p: nat)
    requires x <= 0
    ensures x * p <= 0
  {
  }

  /** With a negative first bin the loop never stops before the limit. */
  lemma NegativeFirstBin(firstBinMax: int, histSize: nat, val: nat)
    requires firstBinMax < 0
    ensures BinOf(firstBinMax, histSize, val) == histSize
  {
    var bin := BinOf(firstBinMax, histSize, val);
    if bin > 0 { NotPositive(firstBinMax + 1, Pow2(bin - 1)); }
  }

  lemma FirstLabel(firstBinMax: nat)
    ensures LabelMin(firstBinMax, 0) == 0
  {
  }

  /** With a first bin of 0 to 7, every 31-bit value falls in a bin up to 28, inside the 32-wide array. */
  lemma SmallBins(val: nat)
    requires val < 0x8000_0000
    ensures BinOf(7, 32, val) <= 28
  {
    assert Pow2(4) == 16;
    Pow2Sum(4, 4);
    Pow2Sum(8, 8);
    Pow2Sum(16, 8);
    Pow2Sum(24, 3);
    assert Pow2(3) == 8;
    assert LabelMax(7, 28) == 0x7FFF_FFFF;
  }

  /** The interval of bin `b` where the first bin ends at 7: 0 to 7, 8 to 15, 16 to 31, and so on. */
  predicate InOctave(b: nat, x: nat) {
    (b > 0 ==> 8 * Pow2(b - 1) <= x) && x < 8 * Pow2(b)
  }

  /** Adds a duration to a table of times: [operation, bin of the communicator size, bin of the message size]. */
  method UpdateDuration(stats: array3<real>, op: nat, dur: real, commSize: nat, size: nat)
    requires op < stats.Length0 && stats.Length1 == stats.Length2 == 32
    requires commSize < 0x8000_0000 && size < 0x8000_0000
    modifies stats
    ensures forall i, j, k :: 0 <= i < stats.Length0 && 0 <= j < 32 && 0 <= k < 32 ==>
      stats[i, j, k] == old(stats[i, j, k]) +
        (if i == op && InOctave(j, commSize) && InOctave(k, size) then dur else 0.0)
  {
    hide InOctave;
    hide InLabel, LabelMax, LabelMin;
    var commBin := GetBin(7, 32, commSize);
    var sizeBin := GetBin(7, 32, size);
    SmallBins(commSize);
    SmallBins(size);
    BinIsLabel(7, 32, commSize);
    BinIsLabel(7, 32, size);
    stats[op, commBin, sizeBin] := stats[op, commBin, sizeBin] + dur;
    forall b: nat ensures InLabel(7, b, commSize) == InOctave(b, commSize) && InLabel(7, b, size) == InOctave(b, size) {
      LabelOfSeven(b, commSize);
      LabelOfSeven(b, size);
    }
  }

  lemma LabelOfSeven(b: nat, x: nat)
    ensures InLabel(7, b, x) == InOctave(b, x)
  {
    LabelMaxIs(7, b);
  }
}
