/** The collector: merges the records of all ranks into a table by rank, a table by call site, and totals. */
module Collectors {
  import opened CollectorSpecs
  import opened Keys
  import opened SiteDatas
  import opened SourceIds
  import opened Stats
  import opened StatTables
  import opened Tables

  function RankHashOf(k: SrcKey): nat { ToNat(SrcHash(k)) }
  function SiteHashOf(k: AggKey): nat { ToNat(AggHash(k)) }

  function OpHashOf(op: int): nat { ToNat(OpHash(op)) }

  function TimedOne(s: Stat): real { if s.time > 0.0 then 1.0 else 0.0 }
  function SenderMessages(s: Stat): real { if s.dataSent > 0.0 then s.messages as real else 0.0 }
  function SenderCount(s: Stat): real { if s.dataSent > 0.0 then s.count as real else 0.0 }

  /** Running totals over all records. */
  class Totals {
    const taskTime: array<real>  // by rank
    var time: real
    var size: real
    var io: real
    var rma: real
    var timeCallsiteCount: int
    var thresholdCount: int
    var sentCount: int

    ghost function Values(): (v: TotalValues)
      reads this
      ensures v.time == time && v.size == size && v.io == io && v.rma == rma
      ensures v.timeCallsiteCount == timeCallsiteCount && v.thresholdCount == thresholdCount && v.sentCount == sentCount
    {
      TotalValues(time, size, io, rma, timeCallsiteCount, thresholdCount, sentCount)
    }

    /** The totals are those of the records. */
    ghost predicate Match(log: seq<Logged>)
      reads this, taskTime
    {
      && time == Total(log, Duration) && size == Total(log, DataOf)
      && io == Total(log, IoOf) && rma == Total(log, RmaOf)
      && timeCallsiteCount as real == Total(log, TimedOne)
      && thresholdCount as real == Total(log, SenderMessages) && sentCount as real == Total(log, SenderCount)
      && (forall r :: 0 <= r < taskTime.Length ==> taskTime[r] == RankTime(log, r))
    }

    constructor (size: nat)
      ensures Match([]) && taskTime.Length == size && fresh(taskTime)
    {
      taskTime := new real[size](_ => 0.0);
      this.time, this.size, io, rma := 0.0, 0.0, 0.0, 0.0;
      timeCallsiteCount, thresholdCount, sentCount := 0, 0, 0;
    }

    /** Adds the time of one record to that of its rank. */
    method AddTaskTime(rank: nat, x: real, ghost log: seq<Logged>, ghost l: Logged)
      requires l.r.rank == rank < taskTime.Length && l.r.s.time == x
      requires forall r :: 0 <= r < taskTime.Length ==> taskTime[r] == RankTime(log, r)
      modifies taskTime
      ensures forall r :: 0 <= r < taskTime.Length ==> taskTime[r] == RankTime(log + [l], r)
      ensures forall r :: 0 <= r < taskTime.Length ==> taskTime[r] == old(taskTime[r]) + if r == rank then x else 0.0
    {
      hide RankTime;
      forall r: nat ensures RankTime(log + [l], r) == RankTime(log, r) + if r == rank then x else 0.0 {
        RankTimeNext(log, l, r);
      }
      taskTime[rank] := taskTime[rank] + x;
    }

    /** Adds one record. */
    method Add(p: Rec, ghost log: seq<Logged>, ghost l: Logged)
      requires Match(log) && l.r == p && p.rank < taskTime.Length
      modifies this, taskTime
      ensures Match(log + [l])
      ensures time == old(time) + p.s.time && size == old(size) + p.s.dataSent
      ensures io == old(io) + p.s.io && rma == old(rma) + p.s.rma
      ensures timeCallsiteCount == old(timeCallsiteCount) + if p.s.time > 0.0 then 1 else 0
      ensures thresholdCount == old(thresholdCount) + if p.s.dataSent > 0.0 then p.s.messages else 0
      ensures sentCount == old(sentCount) + if p.s.dataSent > 0.0 then p.s.count else 0
      ensures forall r :: 0 <= r < taskTime.Length ==>
        taskTime[r] == old(taskTime[r]) + if r == p.rank then p.s.time else 0.0
    {
      hide Total, RankTime;
      TotalNext(log, l, Duration);
      TotalNext(log, l, DataOf);
      TotalNext(log, l, IoOf);
      TotalNext(log, l, RmaOf);
      TotalNext(log, l, TimedOne);
      TotalNext(log, l, SenderMessages);
      TotalNext(log, l, SenderCount);
      AddTaskTime(p.rank, p.s.time, log, l);
      time := time + p.s.time;
      size := size + p.s.dataSent;
      io := io + p.s.io;
      rma := rma + p.s.rma;
      if p.s.time > 0.0 {
        timeCallsiteCount := timeCallsiteCount + 1;
      }
      if p.s.dataSent > 0.0 {
        thresholdCount := thresholdCount + p.s.messages;
        sentCount := sentCount + p.s.count;
      }
    }
  }

  /** What a report is printed from. */
  datatype Results = Results(
    perRank: map<SrcKey, Stat>, bySite: map<AggKey, Stat>, siteTimes: map<AggKey, seq<real>>,
    taskTime: seq<real>, totals: TotalValues)

  datatype TotalValues = TotalValues(
    time: real, size: real, io: real, rma: real, timeCallsiteCount: int, thresholdCount: int, sentCount: int)

  class Collector {
    const size: nat          // the number of ranks
    const calcCov: bool      // whether the times of each call site are kept
    const collective: bool   // whether the table by rank is left empty
    const callSites: CallSites
    const perRank: StatTable<SrcKey>
    const bySite: StatTable<AggKey>
    const siteTimes: SiteTable
    const totals: Totals
    ghost var log: seq<Logged>

    /** The parts share nothing. */
    ghost predicate Apart()
      reads callSites, perRank, bySite, siteTimes
    {
      && callSites in callSites.repr && perRank in perRank.repr && bySite in bySite.repr
      && callSites.repr !! perRank.repr && callSites.repr !! bySite.repr && perRank.repr !! bySite.repr
      && callSites.repr !! siteTimes.repr && perRank.repr !! siteTimes.repr && bySite.repr !! siteTimes.repr
      && {this, siteTimes, totals, totals.taskTime} !! callSites.repr
      && {this, siteTimes, totals, totals.taskTime} !! perRank.repr
      && {this, siteTimes, totals, totals.taskTime} !! bySite.repr
      && {this, siteTimes, totals, totals.taskTime} !! siteTimes.repr
    }

    /** Everything the collector changes. */
    ghost function Footprint(): set<object>
      reads this, callSites, perRank, bySite, siteTimes
    {
      {this, siteTimes, totals, totals.taskTime} + callSites.repr + perRank.repr + bySite.repr + siteTimes.repr
    }

    /** The tables hold what the records amount to. */
    ghost predicate TablesMatch(log: seq<Logged>)
      reads perRank, perRank.repr, bySite, bySite.repr, siteTimes, siteTimes.repr
    {
      && perRank.Valid() && perRank.View() == (if collective then map[] else ByRank(log))
      && bySite.Valid() && bySite.View() == BySite(log)
      && siteTimes.Valid() && siteTimes.View() == (if calcCov then SiteTimes(log) else map[])
      && siteTimes.size == size
    }

    /** Every part holds what the records so far amount to. */
    ghost predicate Valid()
      reads this, callSites, callSites.repr, perRank, perRank.repr, bySite, bySite.repr
      reads siteTimes, siteTimes.repr, totals, totals.taskTime
    {
      && Apart() && size == totals.taskTime.Length
      && callSites.Valid() && IdsKnown(callSites.ids, callSites.pcs.find, log)
      && TablesMatch(log) && totals.Match(log)
      && (forall i :: 0 <= i < |log| ==> log[i].r.rank < size)
    }

    ghost function Result(): (r: Results)
      requires Valid()
      reads this, callSites, callSites.repr, perRank, perRank.repr, bySite, bySite.repr
      reads siteTimes, siteTimes.repr, totals, totals.taskTime
      ensures r.perRank == perRank.View() && r.bySite == bySite.View() && r.siteTimes == siteTimes.View()
      ensures r.taskTime == totals.taskTime[..] && r.totals == totals.Values()
    {
      Results(perRank.View(), bySite.View(), siteTimes.View(), totals.taskTime[..], totals.Values())
    }

    /** The empty tables of a report. */
    static method OpenTables(size: nat, tableSize: nat)
      returns (perRank: StatTable<SrcKey>, bySite: StatTable<AggKey>, siteTimes: SiteTable)
      requires tableSize >= 2
      ensures perRank.Valid() && perRank in perRank.repr && fresh(perRank.repr) && perRank.View() == map[]
      ensures bySite.Valid() && bySite in bySite.repr && fresh(bySite.repr) && bySite.View() == map[]
      ensures siteTimes.Valid() && fresh(siteTimes) && siteTimes.View() == map[] && siteTimes.size == size
      ensures siteTimes.repr == {} && perRank.repr !! bySite.repr && siteTimes !in perRank.repr + bySite.repr
    {
      hide StatTable<SrcKey>.Valid, StatTable<AggKey>.Valid, SiteTable.Valid, SrcCompare, AggCompare;
      hide StatTable<SrcKey>.View, StatTable<AggKey>.View, SiteTable.View, RankHashOf, SiteHashOf;
      perRank := new StatTable(tableSize, RankHashOf, SrcCompare);
      bySite := new StatTable(tableSize, SiteHashOf, AggCompare);
      siteTimes := new SiteTable(size);
    }

    /** Starts a report.  The table of call-site ids may be one that earlier reports have filled. */
    constructor (size: nat, calcCov: bool, collective: bool, callSites: CallSites, tableSize: nat)
      requires tableSize >= 2 && callSites.Valid()
      ensures Valid() && this.callSites == callSites && log == [] && fresh(Footprint() - callSites.repr)
      ensures this.size == size && this.calcCov == calcCov && this.collective == collective
    {
      hide CallSites.Valid, StatTable<SrcKey>.Valid, StatTable<AggKey>.Valid, SiteTable.Valid, Totals.Match;
      hide StatTable<SrcKey>.View, StatTable<AggKey>.View, SiteTable.View, ByRank, BySite, SiteTimes, IdsKnown;
      EmptyLog();
      this.size, this.calcCov, this.collective, log := size, calcCov, collective, [];
      this.callSites := callSites;
      callSites.Inside();
      var byRank, sites, times := OpenTables(size, tableSize);
      perRank, bySite, siteTimes := byRank, sites, times;
      totals := new Totals(size);
      new;
      NothingKnown(callSites.ids, callSites.pcs.find);
      assert Apart();
      assert TablesMatch([]);
    }

    /** Keeps the time of a record for its call site. */
    method KeepTime(p: Rec, csid: int, isNew: bool)
      requires siteTimes.Valid() && (isNew <==> AggKey(p.op, csid) !in siteTimes.View())
      requires |Get(AppendOps(), siteTimes.View(), AggKey(p.op, csid))| < siteTimes.size
      modifies siteTimes, siteTimes.repr
      ensures siteTimes.Valid() && fresh(siteTimes.repr - old(siteTimes.repr))
      ensures siteTimes.View() == Accumulate(AppendOps(), old(siteTimes.View()), AggKey(p.op, csid), [p.s.time])
    {
      hide SiteTable.Valid, SiteTable.View;
      if isNew {
        siteTimes.Start(AggKey(p.op, csid), p.s.time);
        assert [] + [p.s.time] == [p.s.time];
      } else {
        siteTimes.Append(AggKey(p.op, csid), p.s.time);
      }
    }

    /** The id of a record. */
    method Identify(p: Rec) returns (csid: int)
      requires Apart() && callSites.Valid() && IdsKnown(callSites.ids, callSites.pcs.find, log)
      modifies callSites.repr
      ensures Apart() && callSites.Valid() && fresh(callSites.repr - old(callSites.repr)) && log == old(log)
      ensures IdsKnown(callSites.ids, callSites.pcs.find, log + [Logged(p, csid)])
      ensures IdsFit(log + [Logged(p, csid)])
    {
      hide CallSites.Shape, Represents, Numbered, FramesOf;
      ghost var ids := callSites.ids;
      csid := callSites.QuerySrc(p.pc, p.op);
      KnownNext(ids, callSites.ids, callSites.pcs.find, log, Logged(p, csid));
      KnownIdsFit(callSites.ids, callSites.first, callSites.counter, callSites.pcs.find, log + [Logged(p, csid)]);
    }

    /** Merges one record into the tables. */
    method InsertIntoTables(p: Rec, csid: int)
      requires Apart() && TablesMatch(log) && IdsFit(log + [Logged(p, csid)])
      requires calcCov ==> SiteCount(RecsOf(log), p) < size
      modifies perRank.repr, bySite.repr, siteTimes, siteTimes.repr
      ensures Apart() && TablesMatch(log + [Logged(p, csid)]) && log == old(log)
      ensures fresh(perRank.repr - old(perRank.repr)) && fresh(bySite.repr - old(bySite.repr))
      ensures fresh(siteTimes.repr - old(siteTimes.repr))
    {
      hide StatTable<SrcKey>.Valid, StatTable<AggKey>.Valid, SiteTable.Valid;
      hide StatTable<SrcKey>.View, StatTable<AggKey>.View, SiteTable.View, Accumulate, ByRank, BySite, SiteTimes;
      hide IdsFit, StatOps, AppendOps, Get, RecsOf, SiteCount;
      TablesNext(log, Logged(p, csid));
      if !collective {
        var _ := perRank.Insert(SrcKey(p.op, csid, p.rank), p.s);
      }
      var isNew := bySite.Insert(AggKey(p.op, csid), p.s);
      if calcCov {
        KeepTime(p, csid, isNew);
      }
    }

    /** Merges one record into the tables and totals, and gives it its call-site id. */
    method InsertCallsiteRecord(p: Rec) returns (csid: int)
      requires Valid() && p.rank < size && (calcCov ==> SiteCount(RecsOf(log), p) < size)
      modifies Footprint()
      ensures Valid() && log == old(log) + [Logged(p, csid)] && fresh(Footprint() - old(Footprint()))
    {
      hide CallSites.Valid, Collector.TablesMatch, Totals.Match, IdsKnown, IdsFit, RecsOf, SiteCount;
      csid := Identify(p);
      InsertIntoTables(p, csid);
      totals.Add(p, log, Logged(p, csid));
      log := log + [Logged(p, csid)];
    }

    /** Merges the records of one rank. */
    method InsertMessage(m: Message, ghost before: seq<Rec>)
      requires Valid() && RecsOf(log) == before && forall i :: 0 <= i < |m.recs| ==> m.recs[i].rank < size
      requires calcCov ==> FitsBuffers(before + m.recs, size)
      modifies Footprint()
      ensures Valid() && RecsOf(log) == before + m.recs && fresh(Footprint() - old(Footprint()))
    {
      hide Collector.Valid, RecsOf, SiteCount, FitsBuffers;
      assert before + m.recs[..0] == before;
      for i := 0 to |m.recs|
        invariant Valid() && RecsOf(log) == before + m.recs[..i] && fresh(Footprint() - old(Footprint()))
      {
        if calcCov { RoomInMessage(before, m, i, size); }
        ghost var was := log;
        var csid := InsertCallsiteRecord(m.recs[i]);
        RecsNext(was, Logged(m.recs[i], csid));
        assert before + m.recs[..i + 1] == before + m.recs[..i] + [m.recs[i]];
      }
      assert m.recs[..|m.recs|] == m.recs;
    }

    static lemma RoomInMessage(before: seq<Rec>, m: Message, i: nat, size: nat)
      requires FitsBuffers(before + m.recs, size) && i < |m.recs|
      ensures SiteCount(before + m.recs[..i], m.recs[i]) < size
    {
      assert (before + m.recs)[|before| + i] == m.recs[i];
      assert (before + m.recs)[..|before| + i] == before + m.recs[..i];
    }

    static lemma RecsNext(log: seq<Logged>, l: Logged)
      ensures RecsOf(log + [l]) == RecsOf(log) + [l.r]
    {
    }

    /** Merges the entries of the table by call site into one entry per operation. */
    method InsertMPIRecords(tableSize: nat) returns (byOp: StatTable<int>)
      requires Valid() && tableSize >= 2
      ensures fresh(byOp) && byOp.Valid() && byOp.View() == ByOperation(log)
    {
      hide StatTable<AggKey>.Valid, StatTable<int>.Valid, StatTable<AggKey>.View, StatTable<int>.View;
      hide CallSites.Valid, SiteTable.Valid, Totals.Match, BySite, ByOperation, AccumulateAll, Accumulate, StatOps,
        Lists;
      byOp := new StatTable(tableSize, OpHashOf, OpCompare);
      var ac, av := bySite.Gather();
      ghost var w, l := bySite.View(), av[..];
      ghost var e := EntriesOf(l, w);
      ghost var ops := Rekeyed(e, KeyOp);
      EntriesList(l, bySite.model, w);
      EmptyPrefix(StatOps(), map[], ops);
      for i := 0 to ac
        invariant byOp.Valid() && fresh(byOp) && fresh(byOp.repr) && av !in byOp.repr && av[..] == l
        invariant bySite.Valid() && bySite.View() == w
        invariant byOp.View() == AccumulateAll(StatOps(), map[], ops[..i])
      {
        AccumulateNext(StatOps(), map[], ops, i);
        assert av[i] == l[i];
        var p := av[i].value;
        bySite.ViewAt(p);
        var s := p.Value();
        var _ := byOp.Insert(p.key.op, s);
      }
      assert ops[..ac] == ops;
      TableFromNothing(StatOps(), ops);
      SitesByOp(log, e);
    }

    /** Merges the messages of all ranks, in the order they arrive.  Where the times of each call site are kept, every
        record must find a free slot in its buffer. */
    method MergeResults(messages: seq<Message>)
      requires Valid() && log == []
      requires forall n, i :: 0 <= n < |messages| && 0 <= i < |messages[n].recs| ==> messages[n].recs[i].rank < size
      requires calcCov ==> FitsBuffers(AllRecs(messages), size)
      modifies Footprint()
      ensures Valid() && RecsOf(log) == AllRecs(messages) && fresh(Footprint() - old(Footprint()))
    {
      hide Collector.Valid, FitsBuffers;
      for i := 0 to |messages|
        invariant Valid() && RecsOf(log) == AllRecs(messages[..i]) && fresh(Footprint() - old(Footprint()))
      {
        assert messages[..i + 1][..i] == messages[..i];
        PrefixOfAll(messages, i + 1);
        if calcCov { FitsPrefix(AllRecs(messages), AllRecs(messages[..i + 1]), size); }
        InsertMessage(messages[i], AllRecs(messages[..i]));
      }
      assert messages[..|messages|] == messages;
    }
  }

  /** What the totals add up, and over which records; the totals of a collector match its log. */
  lemma TotalsMeaning(t: Totals, log: seq<Logged>)
    requires t.Match(log)
    ensures t.time == SumOf(seq(|log|, i requires 0 <= i < |log| => log[i].r.s.time))
    ensures t.size == SumOf(seq(|log|, i requires 0 <= i < |log| => log[i].r.s.dataSent))
    ensures t.io == SumOf(seq(|log|, i requires 0 <= i < |log| => log[i].r.s.io))
    ensures t.rma == SumOf(seq(|log|, i requires 0 <= i < |log| => log[i].r.s.rma))
  {
    hide SumOf, Total;
    SumsWritten(log);
  }

  /** What the time of a rank adds up. */
  lemma TaskTimeMeaning(t: Totals, log: seq<Logged>, r: nat)
    requires t.Match(log) && r < t.taskTime.Length
    ensures t.taskTime[r] ==
      SumOf(seq(|log|, i requires 0 <= i < |log| => if log[i].r.rank == r then log[i].r.s.time else 0.0))
  {
    hide SumOf, Total, RankTime;
    RankTimeIsSum(log, r);
  }

  /** What the counters count, and over which records. */
  lemma CountersMeaning(t: Totals, log: seq<Logged>)
    requires t.Match(log)
    ensures t.timeCallsiteCount == |set i | 0 <= i < |log| && log[i].r.s.time > 0.0|
    ensures t.thresholdCount as real == SumOf(seq(|log|, i requires 0 <= i < |log| =>
      if log[i].r.s.dataSent > 0.0 then log[i].r.s.messages as real else 0.0))
    ensures t.sentCount as real == SumOf(seq(|log|, i requires 0 <= i < |log| =>
      if log[i].r.s.dataSent > 0.0 then log[i].r.s.count as real else 0.0))
  {
    hide SumOf, Total;
    CountersWritten(log);
    TimedCount(log);
  }

  lemma SumsWritten(log: seq<Logged>)
    ensures Total(log, Duration) == SumOf(seq(|log|, i requires 0 <= i < |log| => log[i].r.s.time))
    ensures Total(log, DataOf) == SumOf(seq(|log|, i requires 0 <= i < |log| => log[i].r.s.dataSent))
    ensures Total(log, IoOf) == SumOf(seq(|log|, i requires 0 <= i < |log| => log[i].r.s.io))
    ensures Total(log, RmaOf) == SumOf(seq(|log|, i requires 0 <= i < |log| => log[i].r.s.rma))
  {
    hide SumOf, Total;
    TotalWritten(log, Duration, seq(|log|, i requires 0 <= i < |log| => log[i].r.s.time));
    TotalWritten(log, DataOf, seq(|log|, i requires 0 <= i < |log| => log[i].r.s.dataSent));
    TotalWritten(log, IoOf, seq(|log|, i requires 0 <= i < |log| => log[i].r.s.io));
    TotalWritten(log, RmaOf, seq(|log|, i requires 0 <= i < |log| => log[i].r.s.rma));
  }

  lemma CountersWritten(log: seq<Logged>)
    ensures Total(log, SenderMessages) == SumOf(seq(|log|, i requires 0 <= i < |log| =>
      if log[i].r.s.dataSent > 0.0 then log[i].r.s.messages as real else 0.0))
    ensures Total(log, SenderCount) == SumOf(seq(|log|, i requires 0 <= i < |log| =>
      if log[i].r.s.dataSent > 0.0 then log[i].r.s.count as real else 0.0))
  {
    hide SumOf, Total;
    TotalWritten(log, SenderMessages, seq(|log|, i requires 0 <= i < |log| =>
      if log[i].r.s.dataSent > 0.0 then log[i].r.s.messages as real else 0.0));
    TotalWritten(log, SenderCount, seq(|log|, i requires 0 <= i < |log| =>
      if log[i].r.s.dataSent > 0.0 then log[i].r.s.count as real else 0.0));
  }

  lemma {:induction false} TimedCount(log: seq<Logged>)
    ensures Total(log, TimedOne) == |set i | 0 <= i < |log| && log[i].r.s.time > 0.0| as real
  {
    var b := set i | 0 <= i < |log| && log[i].r.s.time > 0.0;
    if log != [] {
      var n := |log| - 1;
      hide Total;
      TimedCount(log[..n]);
      assert log == log[..n] + [log[n]];
      TotalNext(log[..n], log[n], TimedOne);
      var a := set i | 0 <= i < n && log[..n][i].r.s.time > 0.0;
      assert b == a + if log[n].r.s.time > 0.0 then {n} else {};
    } else {
      assert b == {};
    }
  }

  lemma TotalWritten(log: seq<Logged>, f: Stat -> real, v: seq<real>)
    requires |v| == |log| && forall i :: 0 <= i < |log| ==> v[i] == f(log[i].r.s)
    ensures Total(log, f) == SumOf(v)
  {
    TotalIsSum(log, f);
    assert v == seq(|log|, i requires 0 <= i < |log| => f(log[i].r.s));
  }

  /** What the tables hold: under each operation and id (and rank) the merged statistics of exactly the records with
      them, and of each call site the times of its records. */
  lemma TablesMeaning(c: Collector, op: int, csid: int, rank: int)
    requires c.Valid()
    ensures var recs, sites := RecordsAt(c.log, op, csid), c.bySite.View();
      && (AggKey(op, csid) in sites <==> recs != [])
      && (recs != [] ==> sites[AggKey(op, csid)] == Merged(recs))
      && (c.calcCov && recs != [] ==>
            AggKey(op, csid) in c.siteTimes.View() && c.siteTimes.View()[AggKey(op, csid)] == TimesIn(recs))
    ensures var recs, ranks := RecordsOfRank(RecordsAt(c.log, op, csid), rank), c.perRank.View();
      && (!c.collective ==> (SrcKey(op, csid, rank) in ranks <==> recs != []))
      && (!c.collective && recs != [] ==> ranks[SrcKey(op, csid, rank)] == Merged(recs))
  {
    hide Collector.Valid, BySite, ByRank, SiteTimes, Merged, RecordsAt, RecordsOfRank;
    Contents(c);
    SiteEntry(c.log, op, csid);
    SiteTimesEntry(c.log, op, csid);
    RankEntry(c.log, op, csid, rank);
    CollectorSpecs.SameKeys(c.log, AggKey(op, csid));
  }

  /** Conservation: the sums over the table by rank, over the table by call site and over the records agree; the
      totals are those sums, and the time is also the sum of the times of the ranks. */
  lemma Conservation(c: Collector)
    requires c.Valid() && !c.collective
    ensures Sum(CountOf, c.perRank.View()) == Sum(CountOf, c.bySite.View()) == Total(c.log, CountOf)
    ensures Sum(Duration, c.perRank.View()) == Sum(Duration, c.bySite.View()) == Total(c.log, Duration) == c.totals.time
    ensures Sum(DataOf, c.perRank.View()) == Sum(DataOf, c.bySite.View()) == Total(c.log, DataOf) == c.totals.size
    ensures Sum(IoOf, c.perRank.View()) == Sum(IoOf, c.bySite.View()) == Total(c.log, IoOf) == c.totals.io
    ensures Sum(RmaOf, c.perRank.View()) == Sum(RmaOf, c.bySite.View()) == Total(c.log, RmaOf) == c.totals.rma
    ensures c.totals.time == ArraySum(c.totals.taskTime[..])
  {
    hide CallSites.Valid, StatTable<SrcKey>.Valid, StatTable<AggKey>.Valid, SiteTable.Valid, Total, IdsKnown, StatOps;
    hide StatTable<SrcKey>.View, StatTable<AggKey>.View, SiteTable.View, ByRank, BySite, SiteTimes;
    SumsAreAdditive();
    Conserved(c.log, CountOf);
    Conserved(c.log, Duration);
    Conserved(c.log, DataOf);
    Conserved(c.log, IoOf);
    Conserved(c.log, RmaOf);
    TaskTimesAddUp(c.log);
    RanksInTable(c.log, c.size);
    ArrayHoldsTable(TaskTimes(c.log), c.totals.taskTime[..]);
  }

  ghost function ArraySum(a: seq<real>): real {
    if a == [] then 0.0 else ArraySum(a[..|a| - 1]) + a[|a| - 1]
  }

  lemma RanksInTable(log: seq<Logged>, size: nat)
    requires forall i :: 0 <= i < |log| ==> log[i].r.rank < size
    ensures forall r :: r in TaskTimes(log) ==> r < size
  {
    forall r | r in TaskTimes(log) ensures r < size {
      var i := LoggedKey<nat, real>(AddOps(), log, RankOf, TimeOf, r);
    }
  }

  /** An array that holds the values of a table adds up to the table's sum. */
  lemma {:induction false} ArrayHoldsTable(t: map<nat, real>, a: seq<real>)
    requires forall r :: r in t ==> r < |a|
    requires forall r :: 0 <= r < |a| ==> a[r] == Get(AddOps(), t, r)
    ensures Sum(Id, t) == ArraySum(a)
  {
    if a == [] {
      assert t == map[];
    } else {
      var n: nat := |a| - 1;
      ArrayHoldsTable(t - {n}, a[..n]);
      if n in t { SumRemove(Id, t, n); } else { assert t - {n} == t; }
    }
  }

  /** The same tables and times, up to a one-to-one renaming of the call-site ids, and the same totals. */
  ghost predicate SameResults(rho: map<int, int>, inv: map<int, int>, a: Results, b: Results) {
    && Inverse(rho, inv)
    && RanksRenamed(rho, a.perRank, b.perRank) && RanksRenamed(inv, b.perRank, a.perRank)
    && SitesRenamed(rho, a.bySite, b.bySite) && SitesRenamed(inv, b.bySite, a.bySite)
    && SitesRenamed(rho, Bags(a.siteTimes), Bags(b.siteTimes))
    && SitesRenamed(inv, Bags(b.siteTimes), Bags(a.siteTimes))
    && a.taskTime == b.taskTime && a.totals == b.totals
  }

  lemma NothingRenamed(rho: map<int, int>)
    ensures RanksRenamed<Stat>(rho, map[], map[]) && SitesRenamed(rho, Bags(map[]), Bags(map[]))
  {
  }

  lemma SameTotals(c: Totals, d: Totals, a: seq<Logged>, b: seq<Logged>)
    requires c.Match(a) && d.Match(b) && multiset(RecsOf(a)) == multiset(RecsOf(b))
    requires c.taskTime.Length == d.taskTime.Length
    ensures c.Values() == d.Values() && c.taskTime[..] == d.taskTime[..]
  {
    hide Total, RecsOf, TaskTimes;
    TimesPermuted(a, b);
    TotalsPermuted(a, b, Duration);
    TotalsPermuted(a, b, DataOf);
    TotalsPermuted(a, b, IoOf);
    TotalsPermuted(a, b, RmaOf);
    TotalsPermuted(a, b, TimedOne);
    TotalsPermuted(a, b, SenderMessages);
    TotalsPermuted(a, b, SenderCount);
  }

  /** The result does not depend on the order in which the records arrive. */
  lemma OrderOfArrival(c: Collector, d: Collector)
    requires c.Valid() && d.Valid() && multiset(RecsOf(c.log)) == multiset(RecsOf(d.log))
    requires c.collective == d.collective && c.calcCov == d.calcCov && c.size == d.size
    ensures SameResults(Renaming(c.log, d.log), Renaming(d.log, c.log), c.Result(), d.Result())
  {
    hide Collector.Valid, Collector.TablesMatch, Totals.Match, ByRank, BySite, SiteTimes, IdsFit;
    hide StatTable<SrcKey>.View, StatTable<AggKey>.View, SiteTable.View, Renaming, RecsOf, TaskTimes, SiteBags;
    hide RanksRenamed, SitesRenamed, Bags;
    NothingRenamed(Renaming(c.log, d.log));
    NothingRenamed(Renaming(d.log, c.log));
    Contents(c);
    Contents(d);
    IdsFitNow(c);
    IdsFitNow(d);
    ArrivalOrder(c.log, d.log);
    BagsOfLog(c.log);
    BagsOfLog(d.log);
    SameTotals(c.totals, d.totals, c.log, d.log);
  }

  /** Nor on the order in which the messages of the ranks arrive. */
  lemma OrderOfMessages(c: Collector, d: Collector, a: seq<Message>, b: seq<Message>)
    requires c.Valid() && d.Valid() && RecsOf(c.log) == AllRecs(a) && RecsOf(d.log) == AllRecs(b)
    requires multiset(a) == multiset(b) && c.collective == d.collective && c.calcCov == d.calcCov && c.size == d.size
    ensures SameResults(Renaming(c.log, d.log), Renaming(d.log, c.log), c.Result(), d.Result())
  {
    hide Collector.Valid, Collector.Result, SameResults, RecsOf, AllRecs, Renaming;
    MessagesPermuted(a, b);
    OrderOfArrival(c, d);
  }

  /** Starts a report with a table of call-site ids of its own and merges the messages of all ranks. */
  method Report(messages: seq<Message>, size: nat, calcCov: bool, collective: bool, find: Pc -> Found, tableSize: nat)
    returns (c: Collector)
    requires tableSize >= 2
    requires forall n, i :: 0 <= n < |messages| && 0 <= i < |messages[n].recs| ==> messages[n].recs[i].rank < size
    requires calcCov ==> FitsBuffers(AllRecs(messages), size)
    ensures fresh(c) && fresh(c.Footprint()) && c.Valid() && RecsOf(c.log) == AllRecs(messages)
    ensures c.size == size && c.calcCov == calcCov && c.collective == collective
  {
    hide Collector.Valid, CallSites.Valid, FitsBuffers;
    var callSites := new CallSites(find, tableSize);
    c := new Collector(size, calcCov, collective, callSites, tableSize);
    c.MergeResults(messages);
  }

  /** Reports of the same messages in any two orders hold the same results. */
  method ReportTwice(a: seq<Message>, b: seq<Message>, size: nat, calcCov: bool, collective: bool, find: Pc -> Found,
      tableSize: nat)
    returns (c: Collector, d: Collector)
    requires tableSize >= 2 && multiset(a) == multiset(b)
    requires forall n, i :: 0 <= n < |a| && 0 <= i < |a[n].recs| ==> a[n].recs[i].rank < size
    requires calcCov ==> FitsBuffers(AllRecs(a), size)
    ensures c.Valid() && d.Valid() && RecsOf(c.log) == AllRecs(a) && RecsOf(d.log) == AllRecs(b)
    ensures SameResults(Renaming(c.log, d.log), Renaming(d.log, c.log), c.Result(), d.Result())
  {
    hide Collector.Valid, FitsBuffers, SameResults, Renaming, RecsOf, AllRecs;
    MessagesPermuted(a, b);
    if calcCov { FitsPermuted(AllRecs(a), AllRecs(b), size); }
    forall n, i | 0 <= n < |b| && 0 <= i < |b[n].recs| ensures b[n].recs[i].rank < size {
      assert b[n] in multiset(a);
    }
    c := Report(a, size, calcCov, collective, find, tableSize);
    d := Report(b, size, calcCov, collective, find, tableSize);
    OrderOfMessages(c, d, a, b);
  }

  /** What a collector's parts hold. */
  lemma Contents(c: Collector)
    requires c.Valid()
    ensures c.perRank.View() == (if c.collective then map[] else ByRank(c.log)) && c.bySite.View() == BySite(c.log)
    ensures c.siteTimes.View() == if c.calcCov then SiteTimes(c.log) else map[]
    ensures c.totals.Match(c.log) && c.totals.taskTime.Length == c.size
  {
  }

  ghost predicate Inverse(rho: map<int, int>, inv: map<int, int>) {
    && (forall x :: x in rho ==> rho[x] in inv && inv[rho[x]] == x)
    && (forall y :: y in inv ==> inv[y] in rho && rho[inv[y]] == y)
  }

  /** Sequences as bags. */
  ghost function Bags(v: map<AggKey, seq<real>>): map<AggKey, multiset<real>> {
    map k | k in v :: multiset(v[k])
  }

  lemma BagsOfLog(log: seq<Logged>)
    ensures Bags(SiteTimes(log)) == SiteBags(log)
  {
    BagsAreTimes(log);
  }

  lemma IdsFitNow(c: Collector)
    requires c.Valid()
    ensures IdsFit(c.log)
  {
    hide CallSites.Shape, Represents, Numbered, IdsKnown, IdsFit, Collector.TablesMatch, Totals.Match;
    KnownIdsFit(c.callSites.ids, c.callSites.first, c.callSites.counter, c.callSites.pcs.find, c.log);
  }
}
