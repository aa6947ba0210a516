/** What the collector holds after a sequence of records, as a function of that sequence. */
module CollectorSpecs {
  import opened Keys
  import opened SourceIds
  import opened Stats
  import opened Tables

  /** A record that arrives at the collector. */
  datatype Rec = Rec(op: int, rank: nat, pc: Stack, s: Stat)

  /** A record with the call-site id it was given. */
  datatype Logged = Logged(r: Rec, csid: int)

  function RankKey(l: Logged): SrcKey { SrcKey(l.r.op, l.csid, l.r.rank) }
  function SiteKey(l: Logged): AggKey { AggKey(l.r.op, l.csid) }

  /** Each record under its key, with what it adds. */
  function Entries<K, S>(log: seq<Logged>, key: Logged -> K, what: Rec -> S): (e: seq<(K, S)>)
    ensures |e| == |log| && forall i :: 0 <= i < |e| ==> e[i] == (key(log[i]), what(log[i].r))
  {
    seq(|log|, i requires 0 <= i < |log| => (key(log[i]), what(log[i].r)))
  }

  lemma EntriesNext<K, S>(log: seq<Logged>, l: Logged, key: Logged -> K, what: Rec -> S, o: Ops<S>)
    ensures TableOf(o, Entries(log + [l], key, what)) ==
      Accumulate(o, TableOf(o, Entries(log, key, what)), key(l), what(l.r))
  {
    var e := Entries(log + [l], key, what);
    assert e[..|log|] == Entries(log, key, what);
  }

  function StatsOf(r: Rec): Stat { r.s }
  function TimeOf(r: Rec): real { r.s.time }
  function TimeSeq(r: Rec): seq<real> { [r.s.time] }
  function TimeBag(r: Rec): multiset<real> { multiset{r.s.time} }

  /** Sums, sequences and bags as ways of merging. */
  function AddOps(): Ops<real> { Ops((a: real, b: real) => a + b, 0.0) }
  function AppendOps(): Ops<seq<real>> { Ops((a: seq<real>, b: seq<real>) => a + b, []) }
  function BagOps(): Ops<multiset<real>> { Ops((a: multiset<real>, b: multiset<real>) => Both(a, b), multiset{}) }
  function Both(a: multiset<real>, b: multiset<real>): multiset<real> { a + b }

  /** The table by operation, call site and rank. */
  function ByRank(log: seq<Logged>): map<SrcKey, Stat> {
    TableOf(StatOps(), Entries(log, RankKey, StatsOf))
  }

  /** The table by operation and call site. */
  function BySite(log: seq<Logged>): map<AggKey, Stat> {
    TableOf(StatOps(), Entries(log, SiteKey, StatsOf))
  }

  /** The times added to each entry of that table, in order of arrival. */
  function SiteTimes(log: seq<Logged>): map<AggKey, seq<real>> {
    TableOf(AppendOps(), Entries(log, SiteKey, TimeSeq))
  }

  lemma EmptyLog()
    ensures ByRank([]) == map[] && BySite([]) == map[] && SiteTimes([]) == map[]
  {
  }

  function RankOf(l: Logged): nat { l.r.rank }

  /** The time of each rank. */
  function TaskTimes(log: seq<Logged>): map<nat, real> {
    TableOf(AddOps(), Entries(log, RankOf, TimeOf))
  }

  function Total(log: seq<Logged>, f: Stat -> real): real {
    SumEntries(f, Entries(log, RankOf, StatsOf))
  }

  lemma TotalNext(log: seq<Logged>, l: Logged, f: Stat -> real)
    ensures Total(log + [l], f) == Total(log, f) + f(l.r.s)
  {
    var e := Entries(log + [l], RankOf, StatsOf);
    assert e[..|log|] == Entries(log, RankOf, StatsOf);
  }

  /** The time of one rank. */
  function RankTime(log: seq<Logged>, r: nat): real {
    Get(AddOps(), TaskTimes(log), r)
  }

  lemma RankTimeNext(log: seq<Logged>, l: Logged, r: nat)
    ensures RankTime(log + [l], r) == RankTime(log, r) + if r == l.r.rank then l.r.s.time else 0.0
  {
    EntriesNext(log, l, RankOf, TimeOf, AddOps());
  }

  // ----- tables and totals, record by record -----

  /** The records of one call site, in order of arrival. */
  function RecordsAt(log: seq<Logged>, op: int, csid: int): seq<Rec> {
    if log == [] then []
    else
      var l := log[|log| - 1];
      RecordsAt(log[..|log| - 1], op, csid) + if l.r.op == op && l.csid == csid then [l.r] else []
  }

  /** Those of one rank among them. */
  function RecordsOfRank(recs: seq<Rec>, rank: int): seq<Rec> {
    if recs == [] then []
    else
      var r := recs[|recs| - 1];
      RecordsOfRank(recs[..|recs| - 1], rank) + if r.rank == rank then [r] else []
  }

  /** Their statistics, merged. */
  function Merged(recs: seq<Rec>): Stat {
    if recs == [] then NONE else Merge(Merged(recs[..|recs| - 1]), recs[|recs| - 1].s)
  }

  function TimesIn(recs: seq<Rec>): (t: seq<real>)
    ensures |t| == |recs| && forall i :: 0 <= i < |t| ==> t[i] == recs[i].s.time
  {
    seq(|recs|, i requires 0 <= i < |recs| => recs[i].s.time)
  }

  lemma EntryNext<K, S>(log: seq<Logged>, l: Logged, key: Logged -> K, what: Rec -> S, o: Ops<S>, k: K)
    ensures var t, u := TableOf(o, Entries(log, key, what)), TableOf(o, Entries(log + [l], key, what));
      Get(o, u, k) == if key(l) == k then o.merge(Get(o, t, k), what(l.r)) else Get(o, t, k)
    ensures k in TableOf(o, Entries(log + [l], key, what)) <==> key(l) == k || k in TableOf(o, Entries(log, key, what))
  {
    EntriesNext(log, l, key, what, o);
  }

  lemma MergedNext(recs: seq<Rec>, r: Rec)
    ensures Merged(recs + [r]) == Merge(Merged(recs), r.s) && TimesIn(recs + [r]) == TimesIn(recs) + [r.s.time]
  {
    assert (recs + [r])[..|recs|] == recs;
  }

  lemma RecordsNext(log: seq<Logged>, l: Logged, op: int, csid: int)
    ensures RecordsAt(log + [l], op, csid) ==
      if l.r.op == op && l.csid == csid then RecordsAt(log, op, csid) + [l.r] else RecordsAt(log, op, csid)
  {
    assert (log + [l])[..|log|] == log;
    assert RecordsAt(log, op, csid) + [] == RecordsAt(log, op, csid);
  }

  lemma OfRankNext(recs: seq<Rec>, r: Rec, rank: int)
    ensures RecordsOfRank(recs + [r], rank) ==
      if r.rank == rank then RecordsOfRank(recs, rank) + [r] else RecordsOfRank(recs, rank)
  {
    assert (recs + [r])[..|recs|] == recs;
    assert RecordsOfRank(recs, rank) + [] == RecordsOfRank(recs, rank);
  }

  /** An entry of the table by call site is that of the records with its operation and id. */
  lemma {:induction false} SiteEntry(log: seq<Logged>, op: int, csid: int)
    ensures var recs := RecordsAt(log, op, csid);
      && (AggKey(op, csid) in BySite(log) <==> recs != [])
      && Get(StatOps(), BySite(log), AggKey(op, csid)) == Merged(recs)
  {
    if log != [] {
      hide TableOf, Merge, Merged, TimesIn, RecordsAt, Get;
      var init, l := log[..|log| - 1], log[|log| - 1];
      assert log == init + [l];
      SiteEntry(init, op, csid);
      EntryNext(init, l, SiteKey, StatsOf, StatOps(), AggKey(op, csid));
      RecordsNext(init, l, op, csid);
      MergedNext(RecordsAt(init, op, csid), l.r);
    }
  }

  /** So are its times. */
  lemma {:induction false} SiteTimesEntry(log: seq<Logged>, op: int, csid: int)
    ensures Get(AppendOps(), SiteTimes(log), AggKey(op, csid)) == TimesIn(RecordsAt(log, op, csid))
  {
    if log != [] {
      hide TableOf, TimesIn, RecordsAt, Get;
      var init, l := log[..|log| - 1], log[|log| - 1];
      assert log == init + [l];
      SiteTimesEntry(init, op, csid);
      EntryNext(init, l, SiteKey, TimeSeq, AppendOps(), AggKey(op, csid));
      RecordsNext(init, l, op, csid);
      MergedNext(RecordsAt(init, op, csid), l.r);
    } else {
      assert TimesIn([]) == [];
    }
  }

  /** An entry of the table by rank is that of the records with its operation, id and rank. */
  lemma {:induction false} RankEntry(log: seq<Logged>, op: int, csid: int, rank: int)
    ensures var recs := RecordsOfRank(RecordsAt(log, op, csid), rank);
      && (SrcKey(op, csid, rank) in ByRank(log) <==> recs != [])
      && Get(StatOps(), ByRank(log), SrcKey(op, csid, rank)) == Merged(recs)
  {
    if log != [] {
      hide TableOf, Merge, Merged, TimesIn, RecordsAt, RecordsOfRank, Get;
      var init, l := log[..|log| - 1], log[|log| - 1];
      assert log == init + [l];
      RankEntry(init, op, csid, rank);
      EntryNext(init, l, RankKey, StatsOf, StatOps(), SrcKey(op, csid, rank));
      RecordsNext(init, l, op, csid);
      OfRankNext(RecordsAt(init, op, csid), l.r, rank);
      MergedNext(RecordsOfRank(RecordsAt(init, op, csid), rank), l.r);
    }
  }

  /** A total is the sum over the records. */
  lemma {:induction false} TotalIsSum(log: seq<Logged>, f: Stat -> real)
    ensures Total(log, f) == SumOf(seq(|log|, i requires 0 <= i < |log| => f(log[i].r.s)))
  {
    var v := seq(|log|, i requires 0 <= i < |log| => f(log[i].r.s));
    if log != [] {
      var n := |log| - 1;
      TotalIsSum(log[..n], f);
      assert log == log[..n] + [log[n]];
      TotalNext(log[..n], log[n], f);
      assert v[..n] == seq(n, i requires 0 <= i < n => f(log[..n][i].r.s));
    }
  }

  /** The time of a rank is the sum over its records. */
  lemma {:induction false} RankTimeIsSum(log: seq<Logged>, rank: nat)
    ensures RankTime(log, rank) ==
      SumOf(seq(|log|, i requires 0 <= i < |log| => if log[i].r.rank == rank then log[i].r.s.time else 0.0))
  {
    var v := seq(|log|, i requires 0 <= i < |log| => if log[i].r.rank == rank then log[i].r.s.time else 0.0);
    if log != [] {
      hide RankTime;
      var n := |log| - 1;
      RankTimeIsSum(log[..n], rank);
      assert log == log[..n] + [log[n]];
      RankTimeNext(log[..n], log[n], rank);
      assert v[..n] ==
        seq(n, i requires 0 <= i < n => if log[..n][i].r.rank == rank then log[..n][i].r.s.time else 0.0);
    }
  }

  // ----- conservation -----

  lemma {:induction false} SameSums<K, L, S>(f: S -> real, a: seq<(K, S)>, b: seq<(L, S)>)
    requires |a| == |b| && forall i :: 0 <= i < |a| ==> a[i].1 == b[i].1
    ensures SumEntries(f, a) == SumEntries(f, b)
  {
    if a != [] { SameSums(f, a[..|a| - 1], b[..|b| - 1]); }
  }

  /** Nothing is lost or counted twice: an additive measure of either table is its measure of the records. */
  lemma Conserved(log: seq<Logged>, f: Stat -> real)
    requires Additive(StatOps(), f)
    ensures Sum(f, ByRank(log)) == Total(log, f) == Sum(f, BySite(log))
  {
    SumTableOf(StatOps(), f, Entries(log, RankKey, StatsOf));
    SumTableOf(StatOps(), f, Entries(log, SiteKey, StatsOf));
    SameSums(f, Entries(log, RankKey, StatsOf), Entries(log, RankOf, StatsOf));
    SameSums(f, Entries(log, SiteKey, StatsOf), Entries(log, RankOf, StatsOf));
  }

  lemma {:induction false} SumTimes(log: seq<Logged>, n: nat)
    requires n <= |log|
    ensures SumEntries(Id, Entries(log, RankOf, TimeOf)[..n]) ==
      SumEntries(Duration, Entries(log, RankOf, StatsOf)[..n])
  {
    if n > 0 {
      SumTimes(log, n - 1);
      assert Entries(log, RankOf, TimeOf)[..n][..n - 1] == Entries(log, RankOf, TimeOf)[..n - 1];
      assert Entries(log, RankOf, StatsOf)[..n][..n - 1] == Entries(log, RankOf, StatsOf)[..n - 1];
    }
  }

  function Id(x: real): real { x }

  /** The times of the ranks add up to the time of all records. */
  lemma TaskTimesAddUp(log: seq<Logged>)
    ensures Sum(Id, TaskTimes(log)) == Total(log, Duration)
  {
    SumTableOf(AddOps(), Id, Entries(log, RankOf, TimeOf));
    SumTimes(log, |log|);
    assert Entries(log, RankOf, TimeOf)[..|log|] == Entries(log, RankOf, TimeOf);
    assert Entries(log, RankOf, StatsOf)[..|log|] == Entries(log, RankOf, StatsOf);
  }

  // ----- order of arrival -----

  /** What the id of a record depends on: its stack up to the first NULL, or with a traceback depth of 0 its
      operation. */
  datatype Ident = ByStack(pc: seq<Pc>) | ByOp(op: int)

  function IdentAt(op: int, pc: Stack): Ident {
    if REPORT_STACK_DEPTH == 0 then ByOp(op) else ByStack(UpToNull(pc))
  }

  function IdentOf(r: Rec): Ident { IdentAt(r.op, r.pc) }

  /** Ids are equal exactly when what they depend on is. */
  ghost predicate IdsFit(log: seq<Logged>) {
    forall i, j :: 0 <= i < |log| && 0 <= j < |log| ==>
      (log[i].csid == log[j].csid <==> IdentOf(log[i].r) == IdentOf(log[j].r))
  }

  function RecsOf(log: seq<Logged>): (r: seq<Rec>)
    ensures |r| == |log| && forall i :: 0 <= i < |r| ==> r[i] == log[i].r
  {
    seq(|log|, i requires 0 <= i < |log| => log[i].r)
  }

  function Named<C, S>(recs: seq<Rec>, name: Rec -> C, what: Rec -> S): (e: seq<(C, S)>)
    ensures |e| == |recs| && forall i :: 0 <= i < |e| ==> e[i] == (name(recs[i]), what(recs[i]))
  {
    seq(|recs|, i requires 0 <= i < |recs| => (name(recs[i]), what(recs[i])))
  }

  /** The keys of the log tell apart what the names do. */
  ghost predicate KeysFit<K, C(!new)>(log: seq<Logged>, key: Logged -> K, name: Rec -> C) {
    forall i, j :: 0 <= i < |log| && 0 <= j < |log| ==>
      (key(log[i]) == key(log[j]) <==> name(log[i].r) == name(log[j].r))
  }

  lemma NamedConcat<C, S>(x: seq<Rec>, y: seq<Rec>, name: Rec -> C, what: Rec -> S)
    ensures Named(x + y, name, what) == Named(x, name, what) + Named(y, name, what)
  {
  }

  lemma Middle<T>(x: seq<T>, e: T, y: seq<T>)
    ensures multiset(x + [e] + y) == multiset(x + y) + multiset{e}
  {
  }

  lemma NamedMiddle<C, S>(x: seq<Rec>, r: Rec, y: seq<Rec>, name: Rec -> C, what: Rec -> S)
    ensures multiset(Named(x + [r] + y, name, what)) ==
      multiset(Named(x + y, name, what)) + multiset{(name(r), what(r))}
  {
    NamedConcat(x + [r], y, name, what);
    NamedConcat(x, [r], name, what);
    NamedConcat(x, y, name, what);
    assert Named([r], name, what) == [(name(r), what(r))];
    Middle(Named(x, name, what), (name(r), what(r)), Named(y, name, what));
  }

  lemma {:induction false} NamedPermuted<C, S>(a: seq<Rec>, b: seq<Rec>, name: Rec -> C, what: Rec -> S)
    requires multiset(a) == multiset(b)
    ensures multiset(Named(a, name, what)) == multiset(Named(b, name, what))
  {
    if a == [] {
      assert |multiset(b)| == 0;
    } else {
      var n := |a| - 1;
      var r := a[n];
      var x, y := TakeOut(a, b);
      NamedPermuted(a[..n], x + y, name, what);
      NamedMiddle(x, r, y, name, what);
      NamedMiddle(a[..n], r, [], name, what);
      assert a[..n] + [r] + [] == a && a[..n] + [] == a[..n];
    }
  }

  lemma EntriesNamed<K, C(!new), S>(a: seq<Logged>, key: Logged -> K, name: Rec -> C, what: Rec -> S)
    requires KeysFit(a, key, name)
    ensures Renames(Entries(a, key, what), Named(RecsOf(a), name, what))
  {
  }

  /** The entry of a record is the same as under the names. */
  lemma NamedEntry<K, C(!new), S>(o: Ops<S>, a: seq<Logged>, key: Logged -> K, name: Rec -> C, what: Rec -> S, i: nat)
    requires KeysFit(a, key, name) && i < |a|
    ensures Get(o, TableOf(o, Entries(a, key, what)), key(a[i])) ==
      Get(o, TableOf(o, Named(RecsOf(a), name, what)), name(a[i].r))
  {
    var e, n := Entries(a, key, what), Named(RecsOf(a), name, what);
    EntriesNamed(a, key, name, what);
    RenamedTable(o, e, n, |a|);
    assert e[..|a|] == e && n[..|a|] == n && e[i].0 == key(a[i]) && n[i].0 == name(a[i].r);
  }

  /** The entry of a record is the same, under whatever key, in whatever order the records arrive. */
  lemma SameEntry<K, C(!new), S(!new)>(o: Ops<S>, a: seq<Logged>, b: seq<Logged>, key: Logged -> K, name: Rec -> C,
      what: Rec -> S, i: nat, j: nat)
    requires Lawful(o) && multiset(RecsOf(a)) == multiset(RecsOf(b)) && KeysFit(a, key, name) && KeysFit(b, key, name)
    requires i < |a| && j < |b| && name(a[i].r) == name(b[j].r)
    ensures Get(o, TableOf(o, Entries(a, key, what)), key(a[i])) == Get(o, TableOf(o, Entries(b, key, what)), key(b[j]))
  {
    hide Lawful, KeysFit;
    NamedPermuted(RecsOf(a), RecsOf(b), name, what);
    OrderIndependence(o, Named(RecsOf(a), name, what), Named(RecsOf(b), name, what));
    NamedEntry(o, a, key, name, what, i);
    NamedEntry(o, b, key, name, what, j);
  }

  function IdentIn(log: seq<Logged>, id: int): Ident {
    if log == [] then ByOp(0) else if log[0].csid == id then IdentOf(log[0].r) else IdentIn(log[1..], id)
  }

  function IdIn(log: seq<Logged>, ident: Ident): int {
    if log == [] then 0 else if IdentOf(log[0].r) == ident then log[0].csid else IdIn(log[1..], ident)
  }

  lemma {:induction false} FirstMatch(log: seq<Logged>, i: nat)
    requires IdsFit(log) && i < |log|
    ensures IdentIn(log, log[i].csid) == IdentOf(log[i].r) && IdIn(log, IdentOf(log[i].r)) == log[i].csid
  {
    if i > 0 && log[0].csid != log[i].csid {
      assert IdentOf(log[0].r) != IdentOf(log[i].r);
      FirstMatch(log[1..], i - 1);
    } else {
      assert IdentOf(log[0].r) == IdentOf(log[i].r);
    }
  }

  function Ids(log: seq<Logged>): set<int> {
    set i | 0 <= i < |log| :: log[i].csid
  }

  /** The ids of one log as those of the other. */
  function Renaming(a: seq<Logged>, b: seq<Logged>): map<int, int> {
    map x | x in Ids(a) :: IdIn(b, IdentIn(a, x))
  }

  /** A record has a counterpart. */
  lemma Counterpart(a: seq<Logged>, b: seq<Logged>, i: nat) returns (j: nat)
    requires multiset(RecsOf(a)) == multiset(RecsOf(b)) && IdsFit(a) && IdsFit(b) && i < |a|
    ensures j < |b| && b[j].r == a[i].r && a[i].csid in Renaming(a, b) && Renaming(a, b)[a[i].csid] == b[j].csid
  {
    assert RecsOf(a)[i] in multiset(RecsOf(b));
    j :| 0 <= j < |b| && RecsOf(b)[j] == a[i].r;
    FirstMatch(a, i);
    FirstMatch(b, j);
  }

  function RankName(r: Rec): (int, Ident, nat) { (r.op, IdentOf(r), r.rank) }
  function SiteName(r: Rec): (int, Ident) { (r.op, IdentOf(r)) }

  lemma NamesFit(log: seq<Logged>)
    requires IdsFit(log)
    ensures KeysFit(log, RankKey, RankName) && KeysFit(log, SiteKey, SiteName)
  {
  }

  /** Table `b` has the entries of `a` under their new ids. */
  ghost predicate RanksRenamed<S>(rho: map<int, int>, a: map<SrcKey, S>, b: map<SrcKey, S>) {
    forall k :: k in a ==>
      k.csid in rho && SrcKey(k.op, rho[k.csid], k.rank) in b && b[SrcKey(k.op, rho[k.csid], k.rank)] == a[k]
  }

  ghost predicate SitesRenamed<S>(rho: map<int, int>, a: map<AggKey, S>, b: map<AggKey, S>) {
    forall k :: k in a ==> k.csid in rho && AggKey(k.op, rho[k.csid]) in b && b[AggKey(k.op, rho[k.csid])] == a[k]
  }

  lemma LoggedKey<K, S>(o: Ops<S>, log: seq<Logged>, key: Logged -> K, what: Rec -> S, k: K) returns (i: nat)
    requires k in TableOf(o, Entries(log, key, what))
    ensures i < |log| && key(log[i]) == k
  {
    TableKeys(o, Entries(log, key, what), k);
    i :| 0 <= i < |log| && Entries(log, key, what)[i].0 == k;
  }

  lemma KeyLogged<K, S>(o: Ops<S>, log: seq<Logged>, key: Logged -> K, what: Rec -> S, i: nat)
    requires i < |log|
    ensures key(log[i]) in TableOf(o, Entries(log, key, what))
  {
    TableKeys(o, Entries(log, key, what), key(log[i]));
    assert Entries(log, key, what)[i].0 == key(log[i]);
  }

  lemma RanksOneWay(a: seq<Logged>, b: seq<Logged>)
    requires multiset(RecsOf(a)) == multiset(RecsOf(b)) && IdsFit(a) && IdsFit(b)
    ensures RanksRenamed(Renaming(a, b), ByRank(a), ByRank(b))
  {
    hide TableOf, Lawful, StatOps, Renaming, IdsFit, KeysFit;
    NamesFit(a);
    NamesFit(b);
    MergeIsLawful();
    forall k | k in ByRank(a)
      ensures k.csid in Renaming(a, b)
      ensures var l := SrcKey(k.op, Renaming(a, b)[k.csid], k.rank); l in ByRank(b) && ByRank(b)[l] == ByRank(a)[k]
    {
      var i := LoggedKey(StatOps(), a, RankKey, StatsOf, k);
      var j := Counterpart(a, b, i);
      KeyLogged(StatOps(), b, RankKey, StatsOf, j);
      SameEntry(StatOps(), a, b, RankKey, RankName, StatsOf, i, j);
    }
  }

  lemma SitesOneWay<S(!new)>(o: Ops<S>, a: seq<Logged>, b: seq<Logged>, what: Rec -> S)
    requires Lawful(o) && multiset(RecsOf(a)) == multiset(RecsOf(b)) && IdsFit(a) && IdsFit(b)
    ensures SitesRenamed(Renaming(a, b), TableOf(o, Entries(a, SiteKey, what)), TableOf(o, Entries(b, SiteKey, what)))
  {
    hide TableOf, Lawful, Renaming, IdsFit, KeysFit;
    NamesFit(a);
    NamesFit(b);
    var x, y := TableOf(o, Entries(a, SiteKey, what)), TableOf(o, Entries(b, SiteKey, what));
    forall k | k in x
      ensures k.csid in Renaming(a, b)
      ensures var l := AggKey(k.op, Renaming(a, b)[k.csid]); l in y && y[l] == x[k]
    {
      var i := LoggedKey(o, a, SiteKey, what, k);
      var j := Counterpart(a, b, i);
      KeyLogged(o, b, SiteKey, what, j);
      SameEntry(o, a, b, SiteKey, SiteName, what, i, j);
    }
  }

  /** The two renamings undo each other. */
  lemma RenamingsInverse(a: seq<Logged>, b: seq<Logged>)
    requires multiset(RecsOf(a)) == multiset(RecsOf(b)) && IdsFit(a) && IdsFit(b)
    ensures Renaming(a, b).Keys == Ids(a)
    ensures forall x :: x in Ids(a) ==> Renaming(a, b)[x] in Ids(b) && Renaming(b, a)[Renaming(a, b)[x]] == x
  {
    forall x | x in Ids(a) ensures Renaming(a, b)[x] in Ids(b) && Renaming(b, a)[Renaming(a, b)[x]] == x {
      var i :| 0 <= i < |a| && a[i].csid == x;
      var j := Counterpart(a, b, i);
      var n := Counterpart(b, a, j);
      assert IdentOf(a[n].r) == IdentOf(a[i].r);
    }
  }

  lemma AddIsLawful()
    ensures Lawful(AddOps()) && Lawful(BagOps())
  {
    forall a: multiset<real>, b: multiset<real> ensures Both(a, b) == Both(b, a) {
    }
    forall a: multiset<real>, b: multiset<real>, c: multiset<real>
      ensures Both(Both(a, b), c) == Both(a, Both(b, c))
    {
    }
    forall a: multiset<real> ensures Both(multiset{}, a) == a {
    }
  }

  /** The times of each entry, as bags. */
  function SiteBags(log: seq<Logged>): map<AggKey, multiset<real>> {
    TableOf(BagOps(), Entries(log, SiteKey, TimeBag))
  }

  ghost predicate BagsOf(s: map<AggKey, seq<real>>, b: map<AggKey, multiset<real>>) {
    s.Keys == b.Keys && forall k :: k in s ==> multiset(s[k]) == b[k]
  }

  lemma BagStep(s: map<AggKey, seq<real>>, b: map<AggKey, multiset<real>>, k: AggKey, t: real)
    requires BagsOf(s, b)
    ensures BagsOf(Accumulate(AppendOps(), s, k, [t]), Accumulate(BagOps(), b, k, multiset{t}))
  {
  }

  /** The bags are those of the collected times. */
  lemma {:induction false} BagsAreTimes(log: seq<Logged>)
    ensures BagsOf(SiteTimes(log), SiteBags(log))
  {
    if log != [] {
      hide BagsOf, Accumulate;
      var n := |log| - 1;
      assert log == log[..n] + [log[n]];
      BagsAreTimes(log[..n]);
      EntriesNext(log[..n], log[n], SiteKey, TimeSeq, AppendOps());
      EntriesNext(log[..n], log[n], SiteKey, TimeBag, BagOps());
      BagStep(SiteTimes(log[..n]), SiteBags(log[..n]), SiteKey(log[n]), log[n].r.s.time);
    }
  }

  /** The result does not depend on the order of arrival: there is a one-to-one renaming of the call-site ids under
      which both tables are the same, the collected times of each entry are the same up to their order, and the
      times of the ranks are the same. */
  lemma ArrivalOrder(a: seq<Logged>, b: seq<Logged>)
    requires multiset(RecsOf(a)) == multiset(RecsOf(b)) && IdsFit(a) && IdsFit(b)
    ensures Renaming(a, b).Keys == Ids(a) && Renaming(b, a).Keys == Ids(b)
    ensures forall x :: x in Ids(a) ==> Renaming(a, b)[x] in Ids(b) && Renaming(b, a)[Renaming(a, b)[x]] == x
    ensures forall y :: y in Ids(b) ==> Renaming(b, a)[y] in Ids(a) && Renaming(a, b)[Renaming(b, a)[y]] == y
    ensures RanksRenamed(Renaming(a, b), ByRank(a), ByRank(b)) && RanksRenamed(Renaming(b, a), ByRank(b), ByRank(a))
    ensures SitesRenamed(Renaming(a, b), BySite(a), BySite(b)) && SitesRenamed(Renaming(b, a), BySite(b), BySite(a))
    ensures SitesRenamed(Renaming(a, b), SiteBags(a), SiteBags(b))
      && SitesRenamed(Renaming(b, a), SiteBags(b), SiteBags(a))
    ensures TaskTimes(a) == TaskTimes(b)
  {
    hide Lawful, StatOps, AddOps, BagOps, TableOf, Renaming, IdsFit, RanksRenamed, SitesRenamed;
    RenamingsInverse(a, b);
    RenamingsInverse(b, a);
    RanksOneWay(a, b);
    RanksOneWay(b, a);
    MergeIsLawful();
    AddIsLawful();
    SitesOneWay(StatOps(), a, b, StatsOf);
    SitesOneWay(StatOps(), b, a, StatsOf);
    SitesOneWay(BagOps(), a, b, TimeBag);
    SitesOneWay(BagOps(), b, a, TimeBag);
    TimesPermuted(a, b);
  }

  function RankOnly(r: Rec): nat { r.rank }

  lemma TimesPermuted(a: seq<Logged>, b: seq<Logged>)
    requires multiset(RecsOf(a)) == multiset(RecsOf(b))
    ensures TaskTimes(a) == TaskTimes(b)
  {
    hide Lawful, AddOps, TableOf;
    AddIsLawful();
    NamedPermuted(RecsOf(a), RecsOf(b), RankOnly, TimeOf);
    OrderIndependence(AddOps(), Named(RecsOf(a), RankOnly, TimeOf), Named(RecsOf(b), RankOnly, TimeOf));
    assert Entries(a, RankOf, TimeOf) == Named(RecsOf(a), RankOnly, TimeOf);
    assert Entries(b, RankOf, TimeOf) == Named(RecsOf(b), RankOnly, TimeOf);
  }

  lemma {:induction false} SameMeasures<K, L>(f: Stat -> real, e: seq<(K, Stat)>, m: seq<(L, real)>)
    requires |e| == |m| && forall i :: 0 <= i < |e| ==> m[i].1 == f(e[i].1)
    ensures SumEntries(Id, m) == SumEntries(f, e)
  {
    if e != [] { SameMeasures(f, e[..|e| - 1], m[..|m| - 1]); }
  }

  /** Totals do not depend on the order of arrival either. */
  lemma TotalsPermuted(a: seq<Logged>, b: seq<Logged>, f: Stat -> real)
    requires multiset(RecsOf(a)) == multiset(RecsOf(b))
    ensures Total(a, f) == Total(b, f)
  {
    hide Lawful, TableOf;
    var measure := (r: Rec) => f(r.s);
    var x, y := Named(RecsOf(a), RankOnly, measure), Named(RecsOf(b), RankOnly, measure);
    AddIsLawful();
    NamedPermuted(RecsOf(a), RecsOf(b), RankOnly, measure);
    OrderIndependence(AddOps(), x, y);
    SumTableOf(AddOps(), Id, x);
    SumTableOf(AddOps(), Id, y);
    SameMeasures(f, Entries(a, RankOf, StatsOf), x);
    SameMeasures(f, Entries(b, RankOf, StatsOf), y);
  }

  // ----- at most one record per rank -----

  /** How many records belong to the same entry of the table by call site. */
  function SiteCount(recs: seq<Rec>, p: Rec): nat {
    if recs == [] then 0
    else SiteCount(recs[..|recs| - 1], p) + if SiteName(recs[|recs| - 1]) == SiteName(p) then 1 else 0
  }

  lemma SiteCountNext(recs: seq<Rec>, r: Rec, p: Rec)
    ensures SiteCount(recs + [r], p) == SiteCount(recs, p) + if SiteName(r) == SiteName(p) then 1 else 0
  {
    assert (recs + [r])[..|recs|] == recs;
  }

  lemma TimesNext(log: seq<Logged>, l: Logged, k: AggKey)
    ensures |Get(AppendOps(), SiteTimes(log + [l]), k)| ==
      |Get(AppendOps(), SiteTimes(log), k)| + if SiteKey(l) == k then 1 else 0
  {
    hide TableOf;
    EntriesNext(log, l, SiteKey, TimeSeq, AppendOps());
  }

  lemma {:induction false} TimesCounted(log: seq<Logged>, l: Logged, n: nat)
    requires IdsFit(log + [l]) && n <= |log|
    ensures |Get(AppendOps(), SiteTimes(log[..n]), SiteKey(l))| == SiteCount(RecsOf(log)[..n], l.r)
  {
    if n > 0 {
      hide SiteTimes, Get, SiteCount;
      TimesCounted(log, l, n - 1);
      var last := log[n - 1];
      assert log[..n] == log[..n - 1] + [last] && RecsOf(log)[..n] == RecsOf(log)[..n - 1] + [last.r];
      TimesNext(log[..n - 1], last, SiteKey(l));
      SiteCountNext(RecsOf(log)[..n - 1], last.r, l.r);
      assert (log + [l])[n - 1] == last && (log + [l])[|log|] == l;
    }
  }

  /** The number of times collected is the number of records. */
  lemma TimesAreRecords(log: seq<Logged>, l: Logged)
    requires IdsFit(log + [l])
    ensures |Get(AppendOps(), SiteTimes(log), SiteKey(l))| == SiteCount(RecsOf(log), l.r)
  {
    TimesCounted(log, l, |log|);
    assert log[..|log|] == log && RecsOf(log)[..|log|] == RecsOf(log);
  }

  /** No rank has two records for the same entry. */
  ghost predicate OncePerRank(recs: seq<Rec>) {
    forall i, j :: 0 <= i < j < |recs| && SiteName(recs[i]) == SiteName(recs[j]) ==> recs[i].rank != recs[j].rank
  }

  function RanksFor(recs: seq<Rec>, p: Rec): set<nat> {
    if recs == [] then {}
    else
      var r := recs[|recs| - 1];
      RanksFor(recs[..|recs| - 1], p) + if SiteName(r) == SiteName(p) then {r.rank} else {}
  }

  lemma {:induction false} RankIsFor(recs: seq<Rec>, p: Rec, rank: nat) returns (i: nat)
    requires rank in RanksFor(recs, p)
    ensures i < |recs| && recs[i].rank == rank && SiteName(recs[i]) == SiteName(p)
  {
    var n := |recs| - 1;
    if SiteName(recs[n]) == SiteName(p) && recs[n].rank == rank {
      i := n;
    } else {
      i := RankIsFor(recs[..n], p, rank);
    }
  }

  lemma {:induction false} CountsRanks(recs: seq<Rec>, p: Rec)
    requires OncePerRank(recs)
    ensures SiteCount(recs, p) == |RanksFor(recs, p)|
  {
    if recs != [] {
      var n := |recs| - 1;
      CountsRanks(recs[..n], p);
      if SiteName(recs[n]) == SiteName(p) && recs[n].rank in RanksFor(recs[..n], p) {
        var i := RankIsFor(recs[..n], p, recs[n].rank);
        assert false;
      }
    }
  }

  lemma {:induction false} BelowSize(s: set<nat>, size: nat)
    requires forall r :: r in s ==> r < size
    ensures |s| <= size
  {
    if size == 0 {
      assert s == {};
    } else {
      BelowSize(s - {size - 1}, size - 1);
      assert s <= (s - {size - 1}) + {size - 1};
      assert |s| <= |s - {size - 1}| + 1;
    }
  }

  /** Each entry receives at most one record from each rank, so a buffer of `size` slots has room for the next. */
  lemma RoomForNext(recs: seq<Rec>, p: Rec, size: nat)
    requires OncePerRank(recs + [p]) && p.rank < size && forall i :: 0 <= i < |recs| ==> recs[i].rank < size
    ensures SiteCount(recs, p) < size
  {
    var all := recs + [p];
    assert forall i :: 0 <= i < |recs| ==> all[i] == recs[i];
    assert all[|recs|] == p;
    CountsRanks(recs, p);
    var s := RanksFor(recs, p);
    if p.rank in s {
      var i := RankIsFor(recs, p, p.rank);
      assert false;
    }
    forall r | r in s ensures r < size {
      var i := RankIsFor(recs, p, r);
    }
    BelowSize(s + {p.rank}, size);
  }

  // ----- ids -----

  /** The ids of the log are those of the table of call stacks. */
  ghost predicate IdsKnown(ids: map<Frames, int>, find: Pc -> Found, log: seq<Logged>) {
    forall i :: 0 <= i < |log| ==>
      if REPORT_STACK_DEPTH == 0 then log[i].csid == log[i].r.op - BASE
      else IdIs(ids, FramesOf(find, log[i].r.pc), log[i].csid)
  }

  lemma NothingKnown(ids: map<Frames, int>, find: Pc -> Found)
    ensures IdsKnown(ids, find, [])
  {
  }

  lemma KnownIdsFit(ids: map<Frames, int>, first: int, counter: int, find: Pc -> Found, log: seq<Logged>)
    requires IdsKnown(ids, find, log) && (REPORT_STACK_DEPTH > 0 ==> Numbered(ids, first, counter))
    ensures IdsFit(log)
  {
    forall i, j | 0 <= i < |log| && 0 <= j < |log|
      ensures log[i].csid == log[j].csid <==> IdentOf(log[i].r) == IdentOf(log[j].r)
    {
      if REPORT_STACK_DEPTH > 0 { SameFrames(find, log[i].r.pc, log[j].r.pc); }
    }
  }

  /** What was known stays known when an id is added. */
  lemma KnownNext(ids: map<Frames, int>, new_: map<Frames, int>, find: Pc -> Found, log: seq<Logged>, l: Logged)
    requires IdsKnown(ids, find, log) && IdsKnown(new_, find, [l])
    requires REPORT_STACK_DEPTH > 0 ==> forall f :: f in ids ==> f in new_ && new_[f] == ids[f]
    ensures IdsKnown(new_, find, log + [l])
  {
    assert [l][0] == l;
  }

  /** What one more record does to the tables. */
  lemma TablesNext(log: seq<Logged>, l: Logged)
    requires IdsFit(log + [l])
    ensures ByRank(log + [l]) == Accumulate(StatOps(), ByRank(log), RankKey(l), l.r.s)
    ensures BySite(log + [l]) == Accumulate(StatOps(), BySite(log), SiteKey(l), l.r.s)
    ensures SiteTimes(log + [l]) == Accumulate(AppendOps(), SiteTimes(log), SiteKey(l), [l.r.s.time])
    ensures SiteKey(l) in SiteTimes(log) <==> SiteKey(l) in BySite(log)
    ensures |Get(AppendOps(), SiteTimes(log), SiteKey(l))| == SiteCount(RecsOf(log), l.r)
  {
    EntriesNext(log, l, RankKey, StatsOf, StatOps());
    EntriesNext(log, l, SiteKey, StatsOf, StatOps());
    EntriesNext(log, l, SiteKey, TimeSeq, AppendOps());
    SameKeys(log, SiteKey(l));
    TimesAreRecords(log, l);
  }

  lemma SameKeys(log: seq<Logged>, k: AggKey)
    ensures k in SiteTimes(log) <==> k in BySite(log)
  {
    TableKeys(AppendOps(), Entries(log, SiteKey, TimeSeq), k);
    TableKeys(StatOps(), Entries(log, SiteKey, StatsOf), k);
    if k in SiteTimes(log) {
      var i := LoggedKey(AppendOps(), log, SiteKey, TimeSeq, k);
      KeyLogged(StatOps(), log, SiteKey, StatsOf, i);
    }
    if k in BySite(log) {
      var i := LoggedKey(StatOps(), log, SiteKey, StatsOf, k);
      KeyLogged(AppendOps(), log, SiteKey, TimeSeq, i);
    }
  }

  /** Every record finds a free slot when it arrives. */
  ghost predicate FitsBuffers(recs: seq<Rec>, size: nat) {
    forall i :: 0 <= i < |recs| ==> SiteCount(recs[..i], recs[i]) < size
  }

  lemma {:induction false} SameCount(recs: seq<Rec>, p: Rec, r: Rec)
    requires SiteName(p) == SiteName(r)
    ensures SiteCount(recs, p) == SiteCount(recs, r)
  {
    if recs != [] { SameCount(recs[..|recs| - 1], p, r); }
  }

  lemma {:induction false} CountGrows(recs: seq<Rec>, p: Rec, n: nat)
    requires n <= |recs|
    ensures SiteCount(recs[..n], p) <= SiteCount(recs, p)
  {
    if n < |recs| {
      CountGrows(recs[..|recs| - 1], p, n);
      assert recs[..|recs| - 1][..n] == recs[..n];
    } else {
      assert recs[..n] == recs;
    }
  }

  /** A buffer overflows exactly when more records than there are slots belong to one entry, whatever the order in
      which they arrive. */
  lemma FitsBuffersIff(recs: seq<Rec>, size: nat)
    ensures FitsBuffers(recs, size) <==> forall i :: 0 <= i < |recs| ==> SiteCount(recs, recs[i]) <= size
  {
    hide SiteCount;
    if FitsBuffers(recs, size) {
      forall i | 0 <= i < |recs| ensures SiteCount(recs, recs[i]) <= size {
        FittingCount(recs, size, i);
      }
    }
    if forall i :: 0 <= i < |recs| ==> SiteCount(recs, recs[i]) <= size {
      forall i | 0 <= i < |recs| ensures SiteCount(recs[..i], recs[i]) < size {
        ArrivalCount(recs, i);
      }
    }
  }

  /** When a record arrives, fewer records are there for its entry than in the end. */
  lemma ArrivalCount(recs: seq<Rec>, i: nat)
    requires i < |recs|
    ensures SiteCount(recs[..i], recs[i]) < SiteCount(recs, recs[i])
  {
    LastCount(recs[..i + 1], recs[i]);
    assert recs[..i + 1][..i] == recs[..i];
    CountGrows(recs, recs[i], i + 1);
  }

  lemma LastCount(recs: seq<Rec>, p: Rec)
    requires recs != []
    ensures var n := |recs| - 1;
      SiteCount(recs, p) == SiteCount(recs[..n], p) + if SiteName(recs[n]) == SiteName(p) then 1 else 0
  {
  }

  lemma {:induction false} FittingCount(recs: seq<Rec>, size: nat, i: nat)
    requires FitsBuffers(recs, size) && i < |recs|
    ensures SiteCount(recs, recs[i]) <= size
  {
    hide SiteName, SiteCount;
    var n := |recs| - 1;
    LastCount(recs, recs[i]);
    if SiteName(recs[n]) == SiteName(recs[i]) {
      SameCount(recs[..n], recs[i], recs[n]);
    } else {
      FitsPrefix(recs, recs[..n], size);
      FittingCount(recs[..n], size, i);
    }
  }

  lemma {:induction false} CountWithout(x: seq<Rec>, r: Rec, y: seq<Rec>, p: Rec)
    ensures SiteCount(x + [r] + y, p) == SiteCount(x + y, p) + if SiteName(r) == SiteName(p) then 1 else 0
  {
    if y == [] {
      assert (x + [r] + y)[..|x|] == x && x + y == x;
    } else {
      var n := |y| - 1;
      CountWithout(x, r, y[..n], p);
      assert (x + [r] + y)[..|x + [r] + y| - 1] == x + [r] + y[..n] && (x + y)[..|x + y| - 1] == x + y[..n];
    }
  }

  lemma {:induction false} CountPermuted(a: seq<Rec>, b: seq<Rec>, p: Rec)
    requires multiset(a) == multiset(b)
    ensures SiteCount(a, p) == SiteCount(b, p)
  {
    if a == [] {
      assert |multiset(b)| == 0;
    } else {
      hide SiteName;
      var x, y := TakeOut(a, b);
      CountPermuted(a[..|a| - 1], x + y, p);
      CountWithout(x, a[|a| - 1], y, p);
    }
  }

  /** Whether a buffer overflows does not depend on the order of arrival. */
  lemma FitsPermuted(a: seq<Rec>, b: seq<Rec>, size: nat)
    requires multiset(a) == multiset(b) && FitsBuffers(a, size)
    ensures FitsBuffers(b, size)
  {
    hide FitsBuffers, SiteCount;
    FitsBuffersIff(a, size);
    FitsBuffersIff(b, size);
    forall i | 0 <= i < |b| ensures SiteCount(b, b[i]) <= size {
      assert b[i] in multiset(a);
      var j :| 0 <= j < |a| && a[j] == b[i];
      CountPermuted(a, b, b[i]);
    }
  }

  /** With at most one record of each rank for an entry no buffer overflows. */
  lemma OnceFits(recs: seq<Rec>, size: nat)
    requires OncePerRank(recs) && forall i :: 0 <= i < |recs| ==> recs[i].rank < size
    ensures FitsBuffers(recs, size)
  {
    forall i | 0 <= i < |recs| ensures SiteCount(recs[..i], recs[i]) < size {
      OncePrefix(recs, i + 1);
      assert recs[..i + 1] == recs[..i] + [recs[i]];
      RoomForNext(recs[..i], recs[i], size);
    }
  }

  // ----- the records of a report -----

  /** What one rank sends: the records of its table. */
  datatype Message = Message(rank: nat, recs: seq<Rec>)

  /** A rank's table has one record for every operation and stack, all of that rank. */
  ghost predicate FromTable(m: Message) {
    && (forall i :: 0 <= i < |m.recs| ==> m.recs[i].rank == m.rank)
    && (forall i, j :: 0 <= i < j < |m.recs| ==> m.recs[i].op != m.recs[j].op || m.recs[i].pc != m.recs[j].pc)
  }

  /** Every rank sends at most one message. */
  ghost predicate Reports(messages: seq<Message>, size: nat) {
    && (forall i :: 0 <= i < |messages| ==> messages[i].rank < size && FromTable(messages[i]))
    && (forall i, j :: 0 <= i < j < |messages| ==> messages[i].rank != messages[j].rank)
  }

  /** No two records of a rank belong to the same entry. */
  ghost predicate NoneMeet(m: Message) {
    forall i, j :: 0 <= i < j < |m.recs| ==> SiteName(m.recs[i]) != SiteName(m.recs[j])
  }

  function AllRecs(messages: seq<Message>): seq<Rec> {
    if messages == [] then [] else AllRecs(messages[..|messages| - 1]) + messages[|messages| - 1].recs
  }

  /** Two stacks have a NULL in the same place and agree before it. */
  ghost predicate AgreeToNull(a: Stack, b: Stack) {
    exists i :: 0 <= i < FULL_STACK_DEPTH && a[i] == b[i] == 0 && a[..i] == b[..i]
  }

  lemma {:induction false} DepthAt(pc: seq<Pc>, n: nat)
    requires n < |pc| && pc[n] == 0
    ensures Depth(pc) <= n
  {
    if n > 0 && pc[0] != 0 { DepthAt(pc[1..], n - 1); }
  }

  lemma {:induction false} SameDepth(a: seq<Pc>, b: seq<Pc>, n: nat)
    requires n < |a| && n < |b| && a[n] == b[n] == 0 && a[..n] == b[..n]
    ensures Depth(a) == Depth(b) <= n
  {
    if n > 0 && a[0] != 0 {
      assert a[0] == a[..n][0] && b[0] == b[..n][0];
      assert a[1..][..n - 1] == a[..n][1..] && b[1..][..n - 1] == b[..n][1..];
      SameDepth(a[1..], b[1..], n - 1);
    } else if n > 0 {
      assert a[0] == a[..n][0] && b[0] == b[..n][0];
    }
  }

  lemma PrefixesAgree(a: Stack, b: Stack)
    requires a != b
    ensures UpToNull(a) == UpToNull(b) <==> AgreeToNull(a, b)
  {
    assert Depth(a) == FULL_STACK_DEPTH ==> UpToNull(a) == a;
    assert Depth(b) == FULL_STACK_DEPTH ==> UpToNull(b) == b;
    if UpToNull(a) == UpToNull(b) {
      var n := Depth(a);
      assert n == |UpToNull(a)| == |UpToNull(b)| == Depth(b) < FULL_STACK_DEPTH;
      assert a[n] == b[n] == 0 && a[..n] == b[..n];
    }
    if AgreeToNull(a, b) {
      var i :| 0 <= i < FULL_STACK_DEPTH && a[i] == b[i] == 0 && a[..i] == b[..i];
      SameDepth(a, b, i);
      assert UpToNull(a) == a[..i][..Depth(a)] && UpToNull(b) == b[..i][..Depth(b)];
    }
  }

  /** Two records of a rank's table belong to the same entry of the table by call site exactly when they are of one
      operation and, with a traceback depth above 0, their stacks agree up to a common NULL and differ after it. */
  lemma MeetIff(m: Message, i: nat, j: nat)
    requires FromTable(m) && i < j < |m.recs|
    ensures SiteName(m.recs[i]) == SiteName(m.recs[j]) <==>
      m.recs[i].op == m.recs[j].op && (REPORT_STACK_DEPTH == 0 || AgreeToNull(m.recs[i].pc, m.recs[j].pc))
  {
    if m.recs[i].op == m.recs[j].op { PrefixesAgree(m.recs[i].pc, m.recs[j].pc); }
  }

  /** Two records of a rank that meet overflow the buffer of a report of that rank alone. */
  lemma MeetingOverflows(a: Stack, b: Stack, op: int, s: Stat, t: Stat)
    requires a != b && AgreeToNull(a, b)
    ensures var m := Message(0, [Rec(op, 0, a, s), Rec(op, 0, b, t)]);
      Reports([m], 1) && !FitsBuffers(AllRecs([m]), 1)
  {
    var m := Message(0, [Rec(op, 0, a, s), Rec(op, 0, b, t)]);
    hide AgreeToNull, SiteName, FitsBuffers, FromTable, Reports, AllRecs;
    PairReported(m);
    MeetIff(m, 0, 1);
    TwoOverflow(m.recs);
    AloneRecs(m);
  }

  lemma PairReported(m: Message)
    requires m.rank == 0 && |m.recs| == 2 && m.recs[0].rank == m.recs[1].rank == 0 && m.recs[0].pc != m.recs[1].pc
    ensures FromTable(m) && Reports([m], 1)
  {
    hide AllRecs;
  }

  lemma AloneRecs(m: Message)
    ensures AllRecs([m]) == m.recs
  {
    assert AllRecs([]) == [] && [m][..0] == [];
  }

  lemma TwoOverflow(recs: seq<Rec>)
    requires |recs| == 2 && SiteName(recs[0]) == SiteName(recs[1])
    ensures !FitsBuffers(recs, 1)
  {
    hide SiteName;
    LastCount(recs[..1], recs[1]);
    assert recs[..1][0] == recs[0];
  }

  /** A stack whose innermost frame could not be read, and one that has no frame at all. */
  lemma UnreadFrameOverflows(pc: Pc, op: int, s: Stat, t: Stat)
    requires REPORT_STACK_DEPTH > 0 && FULL_STACK_DEPTH >= 2 && pc != 0
    ensures var a: Stack := seq(FULL_STACK_DEPTH, i => if i == 1 then pc else 0);
      var b: Stack := seq(FULL_STACK_DEPTH, _ => 0);
      var m := Message(0, [Rec(op, 0, a, s), Rec(op, 0, b, t)]);
      Reports([m], 1) && !FitsBuffers(AllRecs([m]), 1)
  {
    var a: Stack := seq(FULL_STACK_DEPTH, i => if i == 1 then pc else 0);
    var b: Stack := seq(FULL_STACK_DEPTH, _ => 0);
    assert a[1] != b[1] && a[0] == b[0] == 0 && a[..0] == b[..0];
    MeetingOverflows(a, b, op, s, t);
  }

  /** After the first NULL a stack has only NULLs. */
  ghost predicate NullTailed(pc: Stack) {
    forall i :: Depth(pc) <= i < |pc| ==> pc[i] == 0
  }

  /** The stacks as they are recorded where no frame in the middle is unreadable; none with a traceback depth of 0. */
  ghost predicate WholeStacks(m: Message) {
    && (forall i :: 0 <= i < |m.recs| ==> NullTailed(m.recs[i].pc))
    && (forall i :: 0 <= i < |m.recs| && REPORT_STACK_DEPTH == 0 ==> Depth(m.recs[i].pc) == 0)
  }

  lemma SamePrefix(a: Stack, b: Stack)
    requires NullTailed(a) && NullTailed(b) && UpToNull(a) == UpToNull(b)
    ensures a == b
  {
    assert Depth(a) == |UpToNull(a)| == Depth(b);
    forall i | 0 <= i < FULL_STACK_DEPTH ensures a[i] == b[i] {
      if i < Depth(a) { assert a[i] == UpToNull(a)[i] && b[i] == UpToNull(b)[i]; }
    }
  }

  /** Whole stacks never meet. */
  lemma WholeStacksApart(m: Message)
    requires FromTable(m) && WholeStacks(m)
    ensures NoneMeet(m)
  {
    forall i, j | 0 <= i < j < |m.recs| ensures SiteName(m.recs[i]) != SiteName(m.recs[j]) {
      var a, b := m.recs[i], m.recs[j];
      if a.op == b.op && UpToNull(a.pc) == UpToNull(b.pc) { SamePrefix(a.pc, b.pc); }
      if REPORT_STACK_DEPTH == 0 { assert UpToNull(a.pc) == [] && UpToNull(b.pc) == []; }
    }
  }

  ghost predicate SentBy(messages: seq<Message>, rank: nat) {
    exists n :: 0 <= n < |messages| && messages[n].rank == rank
  }

  lemma {:induction false} RankSent(messages: seq<Message>, size: nat, i: nat)
    requires Reports(messages, size) && i < |AllRecs(messages)|
    ensures SentBy(messages, AllRecs(messages)[i].rank) && AllRecs(messages)[i].rank < size
  {
    var n := |messages| - 1;
    var x := AllRecs(messages[..n]);
    if i < |x| {
      RankSent(messages[..n], size, i);
      var k :| 0 <= k < n && messages[..n][k].rank == x[i].rank;
      assert messages[k].rank == x[i].rank;
    } else {
      assert AllRecs(messages)[i] == messages[n].recs[i - |x|] && messages[n].rank == messages[n].recs[i - |x|].rank;
    }
  }

  lemma OnceMore(x: seq<Rec>, m: Message)
    requires FromTable(m) && forall i :: 0 <= i < |x| ==> x[i].rank != m.rank
    ensures OncePerRank(x + m.recs) <==> OncePerRank(x) && NoneMeet(m)
  {
    var all := x + m.recs;
    assert forall i :: 0 <= i < |x| ==> all[i] == x[i];
    assert forall i :: 0 <= i < |m.recs| ==> all[|x| + i] == m.recs[i];
    if OncePerRank(all) {
      forall i, j | 0 <= i < j < |m.recs| ensures SiteName(m.recs[i]) != SiteName(m.recs[j]) {
        assert all[|x| + i].rank == all[|x| + j].rank;
      }
    }
    if OncePerRank(x) && NoneMeet(m) {
      forall i, j | 0 <= i < j < |all| && SiteName(all[i]) == SiteName(all[j]) ensures all[i].rank != all[j].rank {
        assert i < |x|;
      }
    }
  }

  /** The ranks of earlier messages are other ranks. */
  lemma OtherRanks(messages: seq<Message>, size: nat, i: nat)
    requires Reports(messages, size) && messages != [] && i < |AllRecs(messages[..|messages| - 1])|
    ensures AllRecs(messages[..|messages| - 1])[i].rank != messages[|messages| - 1].rank
  {
    var n := |messages| - 1;
    RankSent(messages[..n], size, i);
    var k :| 0 <= k < n && messages[..n][k].rank == AllRecs(messages[..n])[i].rank;
    assert messages[k].rank != messages[n].rank;
  }

  /** No entry of the table by call site receives two records of one rank exactly when no two records of any rank's
      table meet. */
  lemma {:induction false} OncePerRankIff(messages: seq<Message>, size: nat)
    requires Reports(messages, size)
    ensures OncePerRank(AllRecs(messages)) <==> forall n :: 0 <= n < |messages| ==> NoneMeet(messages[n])
  {
    if messages != [] {
      hide OncePerRank, NoneMeet, FromTable;
      var n := |messages| - 1;
      var init := messages[..n];
      OncePerRankIff(init, size);
      forall i | 0 <= i < |AllRecs(init)| ensures AllRecs(init)[i].rank != messages[n].rank {
        OtherRanks(messages, size, i);
      }
      OnceMore(AllRecs(init), messages[n]);
      assert forall k :: 0 <= k < n ==> init[k] == messages[k];
    } else {
      assert OncePerRank([]);
    }
  }

  /** With whole stacks no buffer overflows. */
  lemma ReportsFit(messages: seq<Message>, size: nat)
    requires Reports(messages, size) && forall n :: 0 <= n < |messages| ==> WholeStacks(messages[n])
    ensures OncePerRank(AllRecs(messages)) && FitsBuffers(AllRecs(messages), size)
  {
    hide NoneMeet, OncePerRank, FitsBuffers, WholeStacks;
    forall n | 0 <= n < |messages| ensures NoneMeet(messages[n]) {
      WholeStacksApart(messages[n]);
    }
    OncePerRankIff(messages, size);
    forall i | 0 <= i < |AllRecs(messages)| ensures AllRecs(messages)[i].rank < size {
      RankSent(messages, size, i);
    }
    OnceFits(AllRecs(messages), size);
  }

  lemma OncePrefix(recs: seq<Rec>, n: nat)
    requires OncePerRank(recs) && n <= |recs|
    ensures OncePerRank(recs[..n])
  {
  }

  lemma {:induction false} PrefixOfAll(messages: seq<Message>, n: nat)
    requires n <= |messages|
    ensures AllRecs(messages[..n]) <= AllRecs(messages)
  {
    if n < |messages| {
      PrefixOfAll(messages[..|messages| - 1], n);
      assert messages[..|messages| - 1][..n] == messages[..n];
    } else {
      assert messages[..n] == messages;
    }
  }

  lemma FitsPrefix(recs: seq<Rec>, part: seq<Rec>, size: nat)
    requires FitsBuffers(recs, size) && part <= recs
    ensures FitsBuffers(part, size)
  {
    forall i | 0 <= i < |part| ensures SiteCount(part[..i], part[i]) < size {
      assert part[..i] == recs[..i];
    }
  }

  /** A message taken out of the middle. */
  lemma {:induction false} MessageOut(x: seq<Message>, m: Message, y: seq<Message>)
    ensures multiset(AllRecs(x + [m] + y)) == multiset(AllRecs(x + y)) + multiset(m.recs)
  {
    if y == [] {
      assert (x + [m] + y)[..|x|] == x && x + y == x;
    } else {
      hide AllRecs;
      var n := |y| - 1;
      MessageOut(x, m, y[..n]);
      assert x + [m] + y == (x + [m] + y[..n]) + [y[n]] && x + y == (x + y[..n]) + [y[n]];
      LastMessage(x + [m] + y[..n], y[n]);
      LastMessage(x + y[..n], y[n]);
    }
  }

  lemma LastMessage(x: seq<Message>, m: Message)
    ensures multiset(AllRecs(x + [m])) == multiset(AllRecs(x)) + multiset(m.recs)
  {
    assert (x + [m])[..|x|] == x;
  }

  /** Messages in another order bring the same records. */
  lemma {:induction false} MessagesPermuted(a: seq<Message>, b: seq<Message>)
    requires multiset(a) == multiset(b)
    ensures multiset(AllRecs(a)) == multiset(AllRecs(b))
  {
    if a == [] {
      assert |multiset(b)| == 0;
    } else {
      var n := |a| - 1;
      var x, y := TakeOut(a, b);
      MessagesPermuted(a[..n], x + y);
      MessageOut(x, a[n], y);
    }
  }

  // ----- by operation -----

  function LoggedOp(l: Logged): int { l.r.op }
  function KeyOp(k: AggKey): int { k.op }

  /** The table by operation. */
  function ByOperation(log: seq<Logged>): map<int, Stat> {
    TableOf(StatOps(), Entries(log, LoggedOp, StatsOf))
  }

  /** The records of one operation. */
  function RecordsOfOp(log: seq<Logged>, op: int): seq<Rec> {
    if log == [] then []
    else
      var l := log[|log| - 1];
      RecordsOfOp(log[..|log| - 1], op) + if l.r.op == op then [l.r] else []
  }

  lemma OperationNext(log: seq<Logged>, l: Logged, op: int)
    ensures RecordsOfOp(log + [l], op) == if l.r.op == op then RecordsOfOp(log, op) + [l.r] else RecordsOfOp(log, op)
  {
    assert (log + [l])[..|log|] == log;
    assert RecordsOfOp(log, op) + [] == RecordsOfOp(log, op);
  }

  /** An entry of the table by operation is that of its records. */
  lemma {:induction false} OperationEntry(log: seq<Logged>, op: int)
    ensures var recs := RecordsOfOp(log, op);
      && (op in ByOperation(log) <==> recs != [])
      && Get(StatOps(), ByOperation(log), op) == Merged(recs)
  {
    if log != [] {
      hide TableOf, Merge, Merged, TimesIn, Get, RecordsOfOp;
      var init, l := log[..|log| - 1], log[|log| - 1];
      assert log == init + [l];
      OperationEntry(init, op);
      EntryNext(init, l, LoggedOp, StatsOf, StatOps(), op);
      OperationNext(init, l, op);
      MergedNext(RecordsOfOp(init, op), l.r);
    }
  }

  /** Adding up the call sites of each operation, in whatever order they are listed, gives the table by operation of
      all records. */
  lemma SitesByOp(log: seq<Logged>, sites: seq<(AggKey, Stat)>)
    requires Lists(sites, BySite(log))
    ensures TableOf(StatOps(), Rekeyed(sites, KeyOp)) == ByOperation(log)
  {
    MergeIsLawful();
    Regroup(StatOps(), Entries(log, SiteKey, StatsOf), sites, KeyOp);
    assert Rekeyed(Entries(log, SiteKey, StatsOf), KeyOp) == Entries(log, LoggedOp, StatsOf);
  }
}
