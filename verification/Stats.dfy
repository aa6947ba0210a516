/** Call-site statistics as values: what one call adds, what a merge does, and tables of them. */
module Stats {
  import opened Tables

  /** A minimum; `Inf` is the DBL_MAX that stands for "no call yet". */
  datatype Min = Inf | At(value: real)

  function MinOf(a: Min, b: Min): Min {
    if a.Inf? then b else if b.Inf? then a else if a.value < b.value then a else b
  }

  /** Maxima start at 0 and never fall below. */
  type Max = r: real | r >= 0.0

  function MaxOf(a: Max, b: real): Max {
    if a > b then a else b
  }

  datatype Stat = Stat(
    count: int, time: real, timeSquared: real,
    maxDur: Max, minDur: Min,
    maxDataSent: Max, minDataSent: Min, dataSent: real,
    maxIO: Max, minIO: Min, io: real, rma: real,
    messages: int)

  /** A fresh record. */
  const NONE: Stat := Stat(0, 0.0, 0.0, 0.0, Inf, 0.0, Inf, 0.0, 0.0, Inf, 0.0, 0.0, 0)

  /** One recorded call: its duration and the bytes sent, done in I/O and moved by RMA. */
  datatype Call = Call(dur: real, sendSize: real, ioSize: real, rmaSize: real)

  /** What one call does to a record; `threshold` is the message size from which messages are counted, or -1. */
  function Update(s: Stat, c: Call, threshold: real): Stat {
    Stat(
      s.count + 1, s.time + c.dur, s.timeSquared + c.dur * c.dur,
      MaxOf(s.maxDur, c.dur), MinOf(s.minDur, At(c.dur)),
      MaxOf(s.maxDataSent, c.sendSize), MinOf(s.minDataSent, At(c.sendSize)), s.dataSent + c.sendSize,
      MaxOf(s.maxIO, c.ioSize), MinOf(s.minIO, At(c.ioSize)), s.io + c.ioSize, s.rma + c.rmaSize,
      if threshold > -1.0 && c.sendSize >= threshold then s.messages + 1 else s.messages)
  }

  function Merge(a: Stat, b: Stat): Stat {
    Stat(
      a.count + b.count, a.time + b.time, a.timeSquared + b.timeSquared,
      MaxOf(a.maxDur, b.maxDur), MinOf(a.minDur, b.minDur),
      MaxOf(a.maxDataSent, b.maxDataSent), MinOf(a.minDataSent, b.minDataSent), a.dataSent + b.dataSent,
      MaxOf(a.maxIO, b.maxIO), MinOf(a.minIO, b.minIO), a.io + b.io, a.rma + b.rma,
      a.messages + b.messages)
  }

  function StatOps(): Ops<Stat> {
    Ops((a: Stat, b: Stat) => Merge(a, b), NONE)
  }

  lemma MergeLaws(a: Stat, b: Stat, c: Stat)
    ensures Merge(a, b) == Merge(b, a)
    ensures Merge(Merge(a, b), c) == Merge(a, Merge(b, c))
    ensures Merge(NONE, a) == a
  {
  }

  lemma MergeIsLawful()
    ensures Lawful(StatOps())
  {
    forall a: Stat, b: Stat, c: Stat {:trigger Merge(Merge(a, b), c)}
      ensures Merge(a, b) == Merge(b, a) && Merge(Merge(a, b), c) == Merge(a, Merge(b, c)) && Merge(NONE, a) == a
    {
      MergeLaws(a, b, c);
    }
  }

  /** The record of one call alone. */
  function One(c: Call, threshold: real): Stat {
    Update(NONE, c, threshold)
  }

  /** Recording a call is merging in the record of that call alone. */
  lemma UpdateIsMerge(s: Stat, c: Call, threshold: real)
    ensures Update(s, c, threshold) == Merge(s, One(c, threshold))
  {
  }

  function CountOf(s: Stat): real { s.count as real }
  function Duration(s: Stat): real { s.time }
  function DataOf(s: Stat): real { s.dataSent }
  function IoOf(s: Stat): real { s.io }
  function RmaOf(s: Stat): real { s.rma }

  /** The measures that merging adds up. */
  lemma SumsAreAdditive()
    ensures Additive(StatOps(), CountOf) && Additive(StatOps(), Duration) && Additive(StatOps(), DataOf)
    ensures Additive(StatOps(), IoOf) && Additive(StatOps(), RmaOf)
  {
  }

  // ----- what a record says about its calls -----

  /** The record of a sequence of calls. */
  function RecordOf(calls: seq<Call>, threshold: real): Stat {
    if calls == [] then NONE else Update(RecordOf(calls[..|calls| - 1], threshold), calls[|calls| - 1], threshold)
  }

  function SumOf(v: seq<real>): real {
    if v == [] then 0.0 else SumOf(v[..|v| - 1]) + v[|v| - 1]
  }

  /** The greatest of the values and 0. */
  ghost predicate IsMax(m: real, v: seq<real>) {
    m >= 0.0 && (forall i :: 0 <= i < |v| ==> v[i] <= m) && (m == 0.0 || m in v)
  }

  /** The least of the values, none if there are none. */
  ghost predicate IsMin(m: Min, v: seq<real>) {
    if m.Inf? then v == [] else m.value in v && forall i :: 0 <= i < |v| ==> m.value <= v[i]
  }

  lemma SumNext(v: seq<real>, x: real)
    ensures SumOf(v + [x]) == SumOf(v) + x
  {
    assert (v + [x])[..|v|] == v;
  }

  lemma MaxNext(m: Max, v: seq<real>, x: real)
    requires IsMax(m, v)
    ensures IsMax(MaxOf(m, x), v + [x])
  {
    assert (v + [x])[|v|] == x;
    assert forall y :: y in v ==> y in v + [x];
  }

  lemma MinNext(m: Min, v: seq<real>, x: real)
    requires IsMin(m, v)
    ensures IsMin(MinOf(m, At(x)), v + [x])
  {
    assert (v + [x])[|v|] == x;
    assert forall y :: y in v ==> y in v + [x];
  }

  /** One value of each call. */
  function Values(calls: seq<Call>, f: Call -> real): (v: seq<real>)
    ensures |v| == |calls| && forall i :: 0 <= i < |v| ==> v[i] == f(calls[i])
  {
    seq(|calls|, i requires 0 <= i < |calls| => f(calls[i]))
  }

  lemma ValuesNext(calls: seq<Call>, c: Call, f: Call -> real)
    ensures Values(calls + [c], f) == Values(calls, f) + [f(c)]
  {
  }

  lemma {:induction false} SumsOfRecord(calls: seq<Call>, threshold: real)
    ensures var s := RecordOf(calls, threshold);
      && s.time == SumOf(Values(calls, (c: Call) => c.dur))
      && s.timeSquared == SumOf(Values(calls, (c: Call) => c.dur * c.dur))
      && s.dataSent == SumOf(Values(calls, (c: Call) => c.sendSize))
      && s.io == SumOf(Values(calls, (c: Call) => c.ioSize)) && s.rma == SumOf(Values(calls, (c: Call) => c.rmaSize))
  {
    if calls != [] {
      hide SumOf, MaxOf, MinOf;
      var init, c := calls[..|calls| - 1], calls[|calls| - 1];
      SumsOfRecord(init, threshold);
      assert calls == init + [c];
      forall f: Call -> real ensures SumOf(Values(calls, f)) == SumOf(Values(init, f)) + f(c) {
        ValuesNext(init, c, f);
        SumNext(Values(init, f), f(c));
      }
    }
  }

  lemma {:induction false} ExtremesOfRecord(calls: seq<Call>, threshold: real)
    ensures var s := RecordOf(calls, threshold);
      && IsMax(s.maxDur, Values(calls, (c: Call) => c.dur)) && IsMin(s.minDur, Values(calls, (c: Call) => c.dur))
      && IsMax(s.maxDataSent, Values(calls, (c: Call) => c.sendSize))
      && IsMin(s.minDataSent, Values(calls, (c: Call) => c.sendSize))
      && IsMax(s.maxIO, Values(calls, (c: Call) => c.ioSize)) && IsMin(s.minIO, Values(calls, (c: Call) => c.ioSize))
  {
    if calls != [] {
      hide IsMax, IsMin, MaxOf, MinOf;
      var init, c := calls[..|calls| - 1], calls[|calls| - 1];
      ExtremesOfRecord(init, threshold);
      var s := RecordOf(init, threshold);
      assert calls == init + [c];
      forall f: Call -> real, m: Max | IsMax(m, Values(init, f)) ensures IsMax(MaxOf(m, f(c)), Values(calls, f)) {
        ValuesNext(init, c, f);
        MaxNext(m, Values(init, f), f(c));
      }
      forall f: Call -> real, m: Min | IsMin(m, Values(init, f)) ensures IsMin(MinOf(m, At(f(c))), Values(calls, f)) {
        ValuesNext(init, c, f);
        MinNext(m, Values(init, f), f(c));
      }
    }
  }

  lemma {:induction false} CountsOfRecord(calls: seq<Call>, threshold: real)
    ensures var s := RecordOf(calls, threshold);
      && s.count == |calls|
      && s.messages == |set i | 0 <= i < |calls| && threshold > -1.0 && calls[i].sendSize >= threshold|
  {
    if calls != [] {
      var n := |calls| - 1;
      CountsOfRecord(calls[..n], threshold);
      var a := set i | 0 <= i < n && threshold > -1.0 && calls[..n][i].sendSize >= threshold;
      var b := set i | 0 <= i < |calls| && threshold > -1.0 && calls[i].sendSize >= threshold;
      assert b == a + if threshold > -1.0 && calls[n].sendSize >= threshold then {n} else {};
    }
  }

  /** A record holds the number of its calls, the sums of their durations, squared durations and sizes, their
      extremes, and the number of large messages. */
  lemma RecordMeaning(calls: seq<Call>, threshold: real)
    ensures var s := RecordOf(calls, threshold);
      && s.count == |calls|
      && s.messages == |set i | 0 <= i < |calls| && threshold > -1.0 && calls[i].sendSize >= threshold|
      && s.time == SumOf(seq(|calls|, i requires 0 <= i < |calls| => calls[i].dur))
      && s.timeSquared == SumOf(seq(|calls|, i requires 0 <= i < |calls| => calls[i].dur * calls[i].dur))
      && s.dataSent == SumOf(seq(|calls|, i requires 0 <= i < |calls| => calls[i].sendSize))
      && s.io == SumOf(seq(|calls|, i requires 0 <= i < |calls| => calls[i].ioSize))
      && s.rma == SumOf(seq(|calls|, i requires 0 <= i < |calls| => calls[i].rmaSize))
    ensures var s := RecordOf(calls, threshold);
      && s.maxDur >= 0.0 && (forall c :: c in calls ==> c.dur <= s.maxDur)
      && (s.maxDur == 0.0 || exists c :: c in calls && c.dur == s.maxDur)
      && s.maxDataSent >= 0.0 && (forall c :: c in calls ==> c.sendSize <= s.maxDataSent)
      && (s.maxDataSent == 0.0 || exists c :: c in calls && c.sendSize == s.maxDataSent)
      && s.maxIO >= 0.0 && (forall c :: c in calls ==> c.ioSize <= s.maxIO)
      && (s.maxIO == 0.0 || exists c :: c in calls && c.ioSize == s.maxIO)
    ensures var s := RecordOf(calls, threshold);
      && (s.minDur.Inf? <==> calls == []) && (s.minDataSent.Inf? <==> calls == []) && (s.minIO.Inf? <==> calls == [])
      && (forall c :: c in calls ==>
            s.minDur.value <= c.dur && s.minDataSent.value <= c.sendSize && s.minIO.value <= c.ioSize)
      && (calls != [] ==> exists c :: c in calls && c.dur == s.minDur.value)
      && (calls != [] ==> exists c :: c in calls && c.sendSize == s.minDataSent.value)
      && (calls != [] ==> exists c :: c in calls && c.ioSize == s.minIO.value)
  {
    hide RecordOf, SumOf, IsMax, IsMin, Values;
    var s := RecordOf(calls, threshold);
    CountsOfRecord(calls, threshold);
    SumsOfRecord(calls, threshold);
    SumsWritten(calls);
    ExtremesOfRecord(calls, threshold);
    MaxWritten(s.maxDur, calls, (c: Call) => c.dur);
    MaxWritten(s.maxDataSent, calls, (c: Call) => c.sendSize);
    MaxWritten(s.maxIO, calls, (c: Call) => c.ioSize);
    MinWritten(s.minDur, calls, (c: Call) => c.dur);
    MinWritten(s.minDataSent, calls, (c: Call) => c.sendSize);
    MinWritten(s.minIO, calls, (c: Call) => c.ioSize);
  }

  lemma SumsWritten(calls: seq<Call>)
    ensures Values(calls, (c: Call) => c.dur) == seq(|calls|, i requires 0 <= i < |calls| => calls[i].dur)
    ensures Values(calls, (c: Call) => c.dur * c.dur) ==
      seq(|calls|, i requires 0 <= i < |calls| => calls[i].dur * calls[i].dur)
    ensures Values(calls, (c: Call) => c.sendSize) == seq(|calls|, i requires 0 <= i < |calls| => calls[i].sendSize)
    ensures Values(calls, (c: Call) => c.ioSize) == seq(|calls|, i requires 0 <= i < |calls| => calls[i].ioSize)
    ensures Values(calls, (c: Call) => c.rmaSize) == seq(|calls|, i requires 0 <= i < |calls| => calls[i].rmaSize)
  {
    var f := (c: Call) => c.dur * c.dur;
    var v := seq(|calls|, i requires 0 <= i < |calls| => calls[i].dur * calls[i].dur);
    forall i | 0 <= i < |calls| ensures Values(calls, f)[i] == v[i] {
      assert f(calls[i]) == calls[i].dur * calls[i].dur;
    }
  }

  lemma MaxWritten(m: Max, calls: seq<Call>, f: Call -> real)
    requires IsMax(m, Values(calls, f))
    ensures m >= 0.0 && (forall c :: c in calls ==> f(c) <= m) && (m == 0.0 || exists c :: c in calls && f(c) == m)
  {
    var v := Values(calls, f);
    forall c | c in calls ensures f(c) <= m {
      var i :| 0 <= i < |calls| && calls[i] == c;
      assert v[i] <= m;
    }
    if m != 0.0 {
      var i :| 0 <= i < |v| && v[i] == m;
      assert calls[i] in calls && f(calls[i]) == m;
    }
  }

  lemma MinWritten(m: Min, calls: seq<Call>, f: Call -> real)
    requires IsMin(m, Values(calls, f))
    ensures m.Inf? <==> calls == []
    ensures forall c :: c in calls ==> m.value <= f(c)
    ensures calls != [] ==> exists c :: c in calls && f(c) == m.value
  {
    var v := Values(calls, f);
    forall c | c in calls ensures m.value <= f(c) {
      var i :| 0 <= i < |calls| && calls[i] == c;
      assert m.value <= v[i];
    }
    if m.At? {
      var i :| 0 <= i < |v| && v[i] == m.value;
      assert calls[i] in calls && f(calls[i]) == m.value;
    }
  }

  /** One more call merges in its own record. */
  lemma RecordNext(calls: seq<Call>, c: Call, threshold: real)
    ensures RecordOf(calls + [c], threshold) == Merge(RecordOf(calls, threshold), One(c, threshold))
  {
    assert (calls + [c])[..|calls|] == calls;
    UpdateIsMerge(RecordOf(calls, threshold), c, threshold);
  }

  // ----- tables of calls -----

  /** Calls under their keys, as table entries. */
  function Ones<K>(calls: seq<(K, Call)>, threshold: real): (e: seq<(K, Stat)>)
    ensures |e| == |calls| && forall i :: 0 <= i < |e| ==> e[i] == (calls[i].0, One(calls[i].1, threshold))
  {
    seq(|calls|, i requires 0 <= i < |calls| => (calls[i].0, One(calls[i].1, threshold)))
  }

  lemma OnesNext<K>(calls: seq<(K, Call)>, c: (K, Call), threshold: real)
    ensures Ones(calls + [c], threshold) == Ones(calls, threshold) + [(c.0, One(c.1, threshold))]
  {
  }

  /** The calls under one key. */
  function CallsFor<K(==)>(calls: seq<(K, Call)>, key: K): seq<Call> {
    if calls == [] then []
    else
      var c := calls[|calls| - 1];
      CallsFor(calls[..|calls| - 1], key) + if c.0 == key then [c.1] else []
  }

  /** In the table of a sequence of calls every key has the record of exactly its calls. */
  lemma {:induction false} CallsTable<K>(calls: seq<(K, Call)>, threshold: real, key: K)
    ensures Get(StatOps(), TableOf(StatOps(), Ones(calls, threshold)), key) == RecordOf(CallsFor(calls, key), threshold)
  {
    if calls != [] {
      hide RecordOf, One, Merge;
      var init, c := calls[..|calls| - 1], calls[|calls| - 1];
      CallsTable(init, threshold, key);
      assert calls == init + [c];
      OnesNext(init, c, threshold);
      TableNext(StatOps(), Ones(init, threshold), (c.0, One(c.1, threshold)), key);
      RecordNext(CallsFor(init, key), c.1, threshold);
      assert CallsFor(init, key) + [] == CallsFor(init, key);
    }
  }

  /** Merging the records of two sequences of calls gives the record of all of them. */
  lemma {:induction false} MergeIsAll(a: seq<Call>, b: seq<Call>, threshold: real)
    ensures Merge(RecordOf(a, threshold), RecordOf(b, threshold)) == RecordOf(a + b, threshold)
  {
    hide Merge, One;
    if b == [] {
      assert a + b == a;
      MergeLaws(RecordOf(a, threshold), NONE, NONE);
    } else {
      var init, c := b[..|b| - 1], b[|b| - 1];
      MergeIsAll(a, init, threshold);
      assert b == init + [c] && a + b == a + init + [c];
      RecordNext(init, c, threshold);
      RecordNext(a + init, c, threshold);
      MergeLaws(RecordOf(a, threshold), RecordOf(init, threshold), One(c, threshold));
    }
  }
}
