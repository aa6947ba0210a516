/** From the calls of all threads of all ranks to the tables of the report. */
module Reports {
  import opened Collectors
  import opened CollectorSpecs
  import opened Keys
  import opened SourceIds
  import opened Stats
  import opened StatTables
  import opened Tables
  import opened ThreadStats
  import MtStats

  function CallKey(r: Rec): ThreadKey { ThreadKey(r.op, r.rank, r.pc) }

  /** The message has the entries of a rank's table, each once, in some order. */
  ghost predicate Sends(m: Message, t: map<ThreadKey, Stat>) {
    Lists(Named(m.recs, CallKey, StatsOf), t)
  }

  /** The calls of all ranks. */
  function AllCalls<K>(calls: seq<seq<(K, Call)>>): seq<(K, Call)> {
    if calls == [] then [] else AllCalls(calls[..|calls| - 1]) + calls[|calls| - 1]
  }

  /** The call site that a call is reported under: its operation, and its stack up to the first NULL where stacks are
      recorded. */
  function SiteOf(k: ThreadKey): (int, Ident) { (k.op, IdentAt(k.op, k.pc)) }

  function RankSiteOf(k: ThreadKey): (int, Ident, int) { (k.op, IdentAt(k.op, k.pc), k.rank) }
  function RankSite(r: Rec): (int, Ident, int) { (r.op, IdentOf(r), r.rank) }

  // ----- the records sent are the calls made -----

  lemma RekeyedOnes<K, L>(calls: seq<(K, Call)>, threshold: real, of: K -> L)
    ensures Rekeyed(Ones(calls, threshold), of) == Ones(Rekeyed(calls, of), threshold)
  {
  }

  lemma RekeyedNames<C(!new)>(recs: seq<Rec>, name: Rec -> C, of: ThreadKey -> C)
    requires forall r: Rec :: name(r) == of(CallKey(r))
    ensures Rekeyed(Named(recs, CallKey, StatsOf), of) == Named(recs, name, StatsOf)
  {
  }

  /** The records of a rank, under any coarser key, add up to the calls of the rank. */
  lemma SentTable<C(!new)>(m: Message, calls: seq<(ThreadKey, Call)>, threshold: real, name: Rec -> C,
    of: ThreadKey -> C)
    requires Sends(m, TableOf(StatOps(), Ones(calls, threshold))) && forall r: Rec :: name(r) == of(CallKey(r))
    ensures TableOf(StatOps(), Named(m.recs, name, StatsOf)) == TableOf(StatOps(), Ones(Rekeyed(calls, of), threshold))
  {
    hide Lists, TableOf, Lawful, StatOps;
    MergeIsLawful();
    Regroup(StatOps(), Ones(calls, threshold), Named(m.recs, CallKey, StatsOf), of);
    RekeyedOnes(calls, threshold, of);
    RekeyedNames(m.recs, name, of);
  }

  /** The messages bring the tables of all ranks. */
  ghost predicate AllSent(messages: seq<Message>, calls: seq<seq<(ThreadKey, Call)>>, threshold: real) {
    && |messages| == |calls|
    && forall n :: 0 <= n < |calls| ==> Sends(messages[n], TableOf(StatOps(), Ones(calls[n], threshold)))
  }

  lemma RekeyedConcat<K, L>(u: seq<(K, Call)>, v: seq<(K, Call)>, threshold: real, of: K -> L)
    ensures Ones(Rekeyed(u + v, of), threshold) == Ones(Rekeyed(u, of), threshold) + Ones(Rekeyed(v, of), threshold)
  {
  }

  lemma SentBefore(messages: seq<Message>, calls: seq<seq<(ThreadKey, Call)>>, threshold: real)
    requires AllSent(messages, calls, threshold) && messages != []
    ensures var n := |messages| - 1;
      && AllSent(messages[..n], calls[..n], threshold)
      && Sends(messages[n], TableOf(StatOps(), Ones(calls[n], threshold)))
  {
    hide Sends;
  }

  /** So do the records of all ranks, and their calls. */
  lemma {:induction false} AllSentTable<C(!new)>(messages: seq<Message>, calls: seq<seq<(ThreadKey, Call)>>,
      threshold: real, name: Rec -> C, of: ThreadKey -> C)
    requires AllSent(messages, calls, threshold) && forall r: Rec :: name(r) == of(CallKey(r))
    ensures TableOf(StatOps(), Named(AllRecs(messages), name, StatsOf)) ==
      TableOf(StatOps(), Ones(Rekeyed(AllCalls(calls), of), threshold))
  {
    if messages == [] {
      assert Named(AllRecs(messages), name, StatsOf) == [] && Ones(Rekeyed(AllCalls(calls), of), threshold) == [];
    } else {
      hide TableOf, Lawful, StatOps, Sends;
      var n := |messages| - 1;
      assert |calls| == n + 1;
      var x, u := AllRecs(messages[..n]), AllCalls(calls[..n]);
      SentBefore(messages, calls, threshold);
      hide AllSent;
      AllSentTable(messages[..n], calls[..n], threshold, name, of);
      SentTable(messages[n], calls[n], threshold, name, of);
      NamedConcat(x, messages[n].recs, name, StatsOf);
      RekeyedConcat(u, calls[n], threshold, of);
      MergeIsLawful();
      TableOfConcat(StatOps(), Named(x, name, StatsOf), Named(messages[n].recs, name, StatsOf));
      TableOfConcat(StatOps(), Ones(Rekeyed(u, of), threshold), Ones(Rekeyed(calls[n], of), threshold));
    }
  }

  // ----- the entries of the report -----

  /** Every entry of a table is the record of exactly the calls that its name stands for, and every call has one. */
  ghost predicate EntriesAre<K, C(!new)>(log: seq<Logged>, t: map<K, Stat>, key: Logged -> K, name: Rec -> C,
      calls: seq<(C, Call)>, threshold: real)
  {
    && (forall i :: 0 <= i < |log| ==>
          key(log[i]) in t && t[key(log[i])] == RecordOf(CallsFor(calls, name(log[i].r)), threshold))
    && (forall k :: k in t ==> IsLogged(log, key, k))
    && (forall j :: 0 <= j < |calls| ==> IsNamed(log, name, calls[j].0))
  }

  ghost predicate IsLogged<K>(log: seq<Logged>, key: Logged -> K, k: K) {
    exists i :: 0 <= i < |log| && key(log[i]) == k
  }

  ghost predicate IsNamed<C>(log: seq<Logged>, name: Rec -> C, c: C) {
    exists i :: 0 <= i < |log| && name(log[i].r) == c
  }

  lemma LogEntries<K, C(!new)>(log: seq<Logged>, key: Logged -> K, name: Rec -> C, of: ThreadKey -> C,
      messages: seq<Message>, calls: seq<seq<(ThreadKey, Call)>>, threshold: real)
    requires KeysFit(log, key, name) && RecsOf(log) == AllRecs(messages)
    requires AllSent(messages, calls, threshold) && forall r: Rec :: name(r) == of(CallKey(r))
    ensures EntriesAre(log, TableOf(StatOps(), Entries(log, key, StatsOf)), key, name, Rekeyed(AllCalls(calls), of),
      threshold)
  {
    hide TableOf, StatOps, KeysFit, RecordOf, CallsFor, AllSent;
    var t, c := TableOf(StatOps(), Entries(log, key, StatsOf)), Rekeyed(AllCalls(calls), of);
    AllSentTable(messages, calls, threshold, name, of);
    forall i | 0 <= i < |log|
      ensures key(log[i]) in t && t[key(log[i])] == RecordOf(CallsFor(c, name(log[i].r)), threshold)
    {
      KeyLogged(StatOps(), log, key, StatsOf, i);
      NamedEntry(StatOps(), log, key, name, StatsOf, i);
      CallsTable(c, threshold, name(log[i].r));
    }
    forall k | k in t ensures IsLogged(log, key, k) {
      var i := LoggedKey(StatOps(), log, key, StatsOf, k);
    }
    forall j | 0 <= j < |c| ensures IsNamed(log, name, c[j].0) {
      CallNamed(log, name, c, threshold, j);
    }
  }

  lemma CallNamed<C(!new)>(log: seq<Logged>, name: Rec -> C, c: seq<(C, Call)>, threshold: real, j: nat)
    requires TableOf(StatOps(), Named(RecsOf(log), name, StatsOf)) == TableOf(StatOps(), Ones(c, threshold)) && j < |c|
    ensures IsNamed(log, name, c[j].0)
  {
    hide TableOf;
    TableKeys(StatOps(), Ones(c, threshold), c[j].0);
    assert Ones(c, threshold)[j].0 == c[j].0;
    TableKeys(StatOps(), Named(RecsOf(log), name, StatsOf), c[j].0);
    var i :| 0 <= i < |log| && Named(RecsOf(log), name, StatsOf)[i].0 == c[j].0;
    assert name(log[i].r) == c[j].0;
  }

  lemma RankSitesFit(log: seq<Logged>)
    requires IdsFit(log)
    ensures KeysFit(log, RankKey, RankSite)
  {
  }

  /** The entries of both tables of a report, whatever the order in which the messages arrive: each is the record of
      exactly the calls of all threads (of all ranks, or of its rank) with its operation and stack. */
  lemma ReportedCalls(c: Collector, messages: seq<Message>, calls: seq<seq<(ThreadKey, Call)>>, threshold: real)
    requires c.Valid() && RecsOf(c.log) == AllRecs(messages) && AllSent(messages, calls, threshold)
    ensures EntriesAre(c.log, c.bySite.View(), SiteKey, SiteName, Rekeyed(AllCalls(calls), SiteOf), threshold)
    ensures !c.collective ==>
      EntriesAre(c.log, c.perRank.View(), RankKey, RankSite, Rekeyed(AllCalls(calls), RankSiteOf), threshold)
  {
    hide Collector.Valid, AllSent, EntriesAre, IdsFit, KeysFit;
    Contents(c);
    IdsFitNow(c);
    NamesFit(c.log);
    RankSitesFit(c.log);
    LogEntries(c.log, SiteKey, SiteName, SiteOf, messages, calls, threshold);
    LogEntries(c.log, RankKey, RankSite, RankSiteOf, messages, calls, threshold);
  }

  // ----- a whole run of the profiler -----

  /** The record of one entry of a rank's table. */
  function RecAt(rank: nat, e: (ThreadKey, Stat)): Rec { Rec(e.0.op, rank, e.0.pc, e.1) }

  lemma SendsAll(m: Message, e: seq<(ThreadKey, Stat)>, t: map<ThreadKey, Stat>)
    requires Lists(e, t) && |m.recs| == |e| && forall i :: 0 <= i < |e| ==> e[i].0.rank == m.rank
    requires forall i :: 0 <= i < |e| ==> m.recs[i] == RecAt(m.rank, e[i])
    ensures Sends(m, t) && FromTable(m)
  {
    assert Named(m.recs, CallKey, StatsOf) == e;
    forall i, j | 0 <= i < j < |m.recs| ensures m.recs[i].op != m.recs[j].op || m.recs[i].pc != m.recs[j].pc {
      assert e[i].0 != e[j].0;
    }
  }

  /** What is sent, record by record. */
  lemma SentRecords(m: Message, t: map<ThreadKey, Stat>)
    requires Sends(m, t) && FromTable(m)
    ensures forall r :: r in m.recs ==> ThreadKey(r.op, m.rank, r.pc) in t && t[ThreadKey(r.op, m.rank, r.pc)] == r.s
    ensures forall k :: k in t ==> exists i :: 0 <= i < |m.recs| && m.recs[i].op == k.op && m.recs[i].pc == k.pc
  {
    hide TableOf, StatOps, Lawful;
    var e := Named(m.recs, CallKey, StatsOf);
    MergeIsLawful();
    ListingIsTable(StatOps(), e, t);
    DistinctTable(StatOps(), e, t);
    forall k | k in t ensures exists i :: 0 <= i < |m.recs| && m.recs[i].op == k.op && m.recs[i].pc == k.pc {
      assert IsKey(e, k);
    }
    forall r | r in m.recs ensures ThreadKey(r.op, m.rank, r.pc) in t && t[ThreadKey(r.op, m.rank, r.pc)] == r.s {
      var i :| 0 <= i < |m.recs| && m.recs[i] == r;
      assert e[i].0 in t;
    }
  }

  /** A rank gathers its table and sends it: one record for each entry, with the entry's operation, stack and
      statistics. */
  method Send(cs: StatTable<ThreadKey>, rank: nat) returns (m: Message)
    requires cs.Valid() && forall k :: k in cs.View() ==> k.rank == rank
    ensures m.rank == rank && Sends(m, cs.View()) && FromTable(m)
    ensures forall r :: r in m.recs ==>
      ThreadKey(r.op, rank, r.pc) in cs.View() && cs.View()[ThreadKey(r.op, rank, r.pc)] == r.s
    ensures forall k :: k in cs.View() ==>
      exists i :: 0 <= i < |m.recs| && m.recs[i].op == k.op && m.recs[i].pc == k.pc
  {
    hide StatTable<ThreadKey>.Valid, StatTable<ThreadKey>.View, Lists, Sends, FromTable;
    var ac, av := cs.Gather();
    ghost var w, l := cs.View(), av[..];
    ghost var e := EntriesOf(l, w);
    EntriesList(l, cs.model, w);
    var recs := [];
    for i := 0 to ac
      invariant av[..] == l && |recs| == i && forall j :: 0 <= j < i ==> recs[j] == RecAt(rank, e[j])
    {
      assert av[i] == l[i];
      var p := av[i].value;
      cs.ViewAt(p);
      recs := recs + [Rec(p.key.op, rank, p.key.pc, p.Value())];
    }
    m := Message(rank, recs);
    SendsAll(m, e, w);
    SentRecords(m, w);
  }

  /** The calls made on a rank carry its rank. */
  ghost predicate OwnCalls(run: seq<MtStats.Event>, rank: nat) {
    forall i :: 0 <= i < |run| && run[i].Left? ==> run[i].key.rank == rank
  }

  /** All stacks are without NULLs before their end, and empty with a traceback depth of 0. */
  ghost predicate WholeCalls(run: seq<MtStats.Event>) {
    forall i :: 0 <= i < |run| && run[i].Left? ==>
      NullTailed(run[i].key.pc) && (REPORT_STACK_DEPTH == 0 ==> Depth(run[i].key.pc) == 0)
  }

  lemma {:induction false} RecordedMade(mode: MtStats.Mode, set_: Settings, run: seq<MtStats.Event>, j: nat)
    returns (i: nat)
    requires j < |MtStats.Recorded(mode, set_, run)|
    ensures i < |run| && run[i].Left? && run[i].key == MtStats.Recorded(mode, set_, run)[j].0
  {
    var n := |run| - 1;
    var past := MtStats.Recorded(mode, set_, run[..n]);
    if j < |past| {
      i := RecordedMade(mode, set_, run[..n], j);
    } else {
      i := n;
    }
  }

  lemma KeyMade(mode: MtStats.Mode, set_: Settings, run: seq<MtStats.Event>, k: ThreadKey) returns (i: nat)
    requires k in MtStats.TableOfRun(mode, set_, run)
    ensures i < |run| && run[i].Left? && run[i].key == k
  {
    hide TableOf;
    var r := MtStats.Recorded(mode, set_, run);
    TableKeys(StatOps(), Ones(r, set_.threshold), k);
    var j :| 0 <= j < |r| && Ones(r, set_.threshold)[j].0 == k;
    i := RecordedMade(mode, set_, run, j);
  }

  /** The record of one rank's run. */
  method ProfileAndSend(mode: MtStats.Mode, set_: Settings, run: seq<MtStats.Event>, rank: nat) returns (m: Message)
    requires set_.tableSize >= 2 && OwnCalls(run, rank)
    ensures m.rank == rank && FromTable(m) && Sends(m, MtStats.TableOfRun(mode, set_, run))
  {
    hide MtStats.TableOfRun, StatTable<ThreadKey>.Valid, StatTable<ThreadKey>.View, Sends, FromTable;
    var p := MtStats.Profile(mode, set_, run);
    forall k | k in p.rank.View() ensures k.rank == rank {
      var i := KeyMade(mode, set_, run, k);
    }
    m := Send(p.rank.cs, rank);
  }

  lemma WholeMessage(m: Message, mode: MtStats.Mode, set_: Settings, run: seq<MtStats.Event>)
    requires Sends(m, MtStats.TableOfRun(mode, set_, run)) && WholeCalls(run)
    ensures WholeStacks(m)
  {
    hide MtStats.TableOfRun, NullTailed;
    var e := Named(m.recs, CallKey, StatsOf);
    forall i | 0 <= i < |m.recs|
      ensures NullTailed(m.recs[i].pc) && (REPORT_STACK_DEPTH == 0 ==> Depth(m.recs[i].pc) == 0)
    {
      assert e[i].0 in MtStats.TableOfRun(mode, set_, run);
      var j := KeyMade(mode, set_, run, e[i].0);
    }
  }

  function AllRecorded(mode: MtStats.Mode, set_: Settings, runs: seq<seq<MtStats.Event>>)
    : (c: seq<seq<(ThreadKey, Call)>>)
    ensures |c| == |runs| && forall n :: 0 <= n < |c| ==> c[n] == MtStats.Recorded(mode, set_, runs[n])
  {
    seq(|runs|, n requires 0 <= n < |runs| => MtStats.Recorded(mode, set_, runs[n]))
  }

  /** End to end: every rank runs with its threads, sends its table, and the collector merges what arrives.  Then each
      entry of the report is the record of exactly the calls of all ranks and threads with its operation and stack (and
      rank), and there is an entry for each of these. */
  method ReportRuns(mode: MtStats.Mode, set_: Settings, runs: seq<seq<MtStats.Event>>, calcCov: bool, collective: bool,
      find: Pc -> Found, tableSize: nat)
    returns (c: Collector)
    requires tableSize >= 2 && set_.tableSize >= 2 && forall r :: 0 <= r < |runs| ==> OwnCalls(runs[r], r)
    requires calcCov ==> forall r :: 0 <= r < |runs| ==> WholeCalls(runs[r])
    ensures c.Valid() && c.size == |runs| && c.calcCov == calcCov && c.collective == collective
    ensures var calls := AllCalls(AllRecorded(mode, set_, runs));
      && EntriesAre(c.log, c.bySite.View(), SiteKey, SiteName, Rekeyed(calls, SiteOf), set_.threshold)
      && (!collective ==>
            EntriesAre(c.log, c.perRank.View(), RankKey, RankSite, Rekeyed(calls, RankSiteOf), set_.threshold))
  {
    hide OwnCalls, WholeCalls, FromTable, Sends, Collector.Valid, EntriesAre, FitsBuffers, WholeStacks,
      MtStats.Recorded;
    var messages: seq<Message> := [];
    for r := 0 to |runs|
      invariant |messages| == r
      invariant forall n :: 0 <= n < r ==> messages[n].rank == n && FromTable(messages[n])
      invariant forall n :: 0 <= n < r ==> Sends(messages[n], MtStats.TableOfRun(mode, set_, runs[n]))
    {
      var m := ProfileAndSend(mode, set_, runs[r], r);
      messages := messages + [m];
    }
    if calcCov {
      forall n | 0 <= n < |runs| ensures WholeStacks(messages[n]) {
        WholeMessage(messages[n], mode, set_, runs[n]);
      }
      ReportsFit(messages, |runs|);
    }
    RanksInside(messages, |runs|);
    c := Report(messages, |runs|, calcCov, collective, find, tableSize);
    ReportedCalls(c, messages, AllRecorded(mode, set_, runs), set_.threshold);
  }

  lemma RanksInside(messages: seq<Message>, size: nat)
    requires Reports(messages, size)
    ensures forall n, i :: 0 <= n < |messages| && 0 <= i < |messages[n].recs| ==> messages[n].recs[i].rank < size
  {
  }
}
