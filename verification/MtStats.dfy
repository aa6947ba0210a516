/** The statistics of a rank: one handle per thread, merged into the rank's own table. */
module MtStats {
  import opened Keys
  import opened Stats
  import opened Tables
  import opened ThreadStats

  datatype Mode = SingleThreaded | MultiThreaded

  type ThreadId = nat

  /** The handles are well-formed, inside `repr`, and share nothing. */
  ghost predicate AllValid(handles: seq<ThreadStat>, repr: set<object>)
    reads repr
  {
    && (forall i :: 0 <= i < |handles| ==>
          handles[i] in repr && handles[i].repr <= repr && handles[i] in handles[i].repr && handles[i].Valid())
    && (forall i, j :: 0 <= i < j < |handles| ==> handles[i].repr !! handles[j].repr)
  }

  ghost function Views(handles: seq<ThreadStat>, repr: set<object>): (v: seq<map<ThreadKey, Stat>>)
    requires AllValid(handles, repr)
    reads repr
    ensures |v| == |handles| && forall i :: 0 <= i < |v| ==> v[i] == handles[i].View()
  {
    seq(|handles|, i requires 0 <= i < |handles| reads repr requires AllValid(handles, repr) => handles[i].View())
  }

  /** A new handle adds nothing. */
  lemma NewTable(tables: seq<map<ThreadKey, Stat>>)
    ensures MergeAll(StatOps(), tables + [map[]]) == MergeAll(StatOps(), tables)
  {
    MergeIsLawful();
    assert (tables + [map[]])[..|tables|] == tables;
    MergeTablesCommute(StatOps(), MergeAll(StatOps(), tables), map[]);
  }

  lemma {:induction false} EmptyTotal(tables: seq<map<ThreadKey, Stat>>)
    requires forall i :: 0 <= i < |tables| ==> tables[i] == map[]
    ensures MergeAll(StatOps(), tables) == map[]
  {
    if tables != [] { EmptyTotal(tables[..|tables| - 1]); }
  }

  lemma MergeNext(tables: seq<map<ThreadKey, Stat>>, i: nat)
    requires i < |tables|
    ensures MergeAll(StatOps(), tables[..i + 1]) == MergeTables(StatOps(), MergeAll(StatOps(), tables[..i]), tables[i])
  {
    assert tables[..i + 1][..i] == tables[..i];
  }

  /** Records a call through one handle; the others are as before. */
  method UpdateAt(hndl: ThreadStat, ghost handles: seq<ThreadStat>, ghost i: nat, ghost repr: set<object>,
      set_: Settings, key: ThreadKey, c: Call) returns (ghost r: set<object>)
    requires AllValid(handles, repr) && i < |handles| && handles[i] == hndl
    modifies hndl.repr
    ensures AllValid(handles, r) && repr <= r && fresh(r - repr)
    ensures forall j :: 0 <= j < |handles| ==> handles[j].disabled == old(handles[j].disabled)
    ensures var v := old(Views(handles, repr));
      Views(handles, r) == if old(hndl.Records(set_, key.rank))
                           then v[i := Accumulate(StatOps(), v[i], key, One(c, set_.threshold))] else v
  {
    hide ThreadStat.Valid, ThreadStat.View, Accumulate, StatOps, One;
    hndl.CsUpd(set_, key, c);
    r := repr + hndl.repr;
  }

  /** Empties one handle; the others are as before. */
  method ResetAt(hndl: ThreadStat, ghost handles: seq<ThreadStat>, ghost i: nat, ghost repr: set<object>)
    returns (ghost r: set<object>)
    requires AllValid(handles, repr) && i < |handles| && handles[i] == hndl
    modifies hndl.repr
    ensures AllValid(handles, r) && repr <= r && fresh(r - repr)
    ensures Views(handles, r) == old(Views(handles, repr))[i := map[]]
    ensures forall j :: 0 <= j < |handles| ==> handles[j].disabled == old(handles[j].disabled)
  {
    hide ThreadStat.Valid, ThreadStat.View;
    hndl.CsReset();
    r := repr + hndl.repr;
  }

  class MtStat {
    const mode: Mode
    const rank: ThreadStat
    var handles: seq<ThreadStat>         // in list order
    var tls: map<ThreadId, ThreadStat>   // the handle of each running thread
    ghost var repr: set<object>          // what the handles are made of

    ghost predicate Valid()
      reads this, repr, rank, rank.repr
    {
      && rank in rank.repr && rank.Valid() && this !in rank.repr && this !in repr && rank.repr !! repr
      && AllValid(handles, repr)
      && (forall t :: t in tls ==> tls[t] in handles)
      && (forall t, u :: t in tls && u in tls && t != u ==> tls[t] != tls[u])
    }

    /** All calls recorded so far: those of the rank's own table, or those of all handles. */
    ghost function Total(): map<ThreadKey, Stat>
      requires Valid()
      reads this, repr, rank, rank.repr
    {
      if mode.SingleThreaded? then rank.View() else MergeAll(StatOps(), Views(handles, repr))
    }

    /** The disabling counter of a thread. */
    ghost function Counter(t: ThreadId): int
      reads this, rank, tls.Values
    {
      if mode.SingleThreaded? then rank.disabled else if t in tls then tls[t].disabled else 0
    }

    constructor (mode: Mode, tableSize: nat)
      requires tableSize >= 2
      ensures Valid() && this.mode == mode && Total() == map[] && forall t :: Counter(t) == 0
      ensures fresh(rank) && fresh(rank.repr) && repr == {}
    {
      this.mode := mode;
      rank := new ThreadStat(tableSize);
      handles, tls, repr := [], map[], {};
    }

    /** `hndl` is where this thread records: the rank's own statistics, or its handle in the list. */
    ghost predicate Handles(hndl: ThreadStat)
      reads this
    {
      if mode.SingleThreaded? then hndl == rank else hndl in handles
    }

    /** A first call: a handle is made and appended to the list. */
    method AppendTls(t: ThreadId, tableSize: nat) returns (hndl: ThreadStat)
      requires Valid() && tableSize >= 2 && t !in tls && mode.MultiThreaded?
      modifies this
      ensures Valid() && handles == old(handles) + [hndl] && tls == old(tls)[t := hndl] && Total() == old(Total())
      ensures fresh(hndl) && hndl.disabled == 0 && repr == old(repr) + hndl.repr && fresh(hndl.repr)
      ensures forall u :: Counter(u) == old(Counter(u))
    {
      hide ThreadStat.Valid, ThreadStat.View, StatOps, MergeAll;
      hndl := new ThreadStat(tableSize);
      ghost var v := Views(handles, repr);
      tls := tls[t := hndl];
      handles := handles + [hndl];
      repr := repr + hndl.repr;
      NewTable(v);
      assert Views(handles, repr) == v + [map[]];
    }

    /** The handle of a thread. */
    method GetTls(t: ThreadId, tableSize: nat) returns (hndl: ThreadStat)
      requires Valid() && tableSize >= 2
      modifies this
      ensures Valid() && Handles(hndl) && Total() == old(Total()) && old(handles) <= handles
      ensures mode.MultiThreaded? ==> t in tls && tls[t] == hndl
      ensures fresh(repr - old(repr))
      ensures hndl.disabled == Counter(t) && forall u :: Counter(u) == old(Counter(u))
      ensures hndl == rank || (hndl in repr && hndl.repr <= repr)
    {
      hide ThreadStat.Valid, ThreadStat.View, MtStat.Total;
      if mode.SingleThreaded? {
        return rank;
      }
      if t in tls {
        return tls[t];
      }
      hndl := AppendTls(t, tableSize);
    }

    /** Records one call through a handle. */
    method CsUpd(hndl: ThreadStat, set_: Settings, key: ThreadKey, c: Call)
      requires Valid() && Handles(hndl)
      modifies this`repr, hndl.repr
      ensures Valid() && forall u :: Counter(u) == old(Counter(u))
      ensures fresh(repr - old(repr)) && fresh(rank.repr - old(rank.repr))
      ensures Total() ==
        if old(hndl.disabled) == 0 && set_.enabled && (key.rank == 0 || set_.traceAllRanks)
        then Accumulate(StatOps(), old(Total()), key, One(c, set_.threshold)) else old(Total())
    {
      hide ThreadStat.Valid, ThreadStat.View, Accumulate, StatOps, One, MergeAll, Lawful;
      if mode.SingleThreaded? {
        hndl.CsUpd(set_, key, c);
      } else {
        ghost var i :| 0 <= i < |handles| && handles[i] == hndl;
        MergeIsLawful();
        AccumulateInMergeAll(StatOps(), Views(handles, repr), i, key, One(c, set_.threshold));
        repr := UpdateAt(hndl, handles, i, repr, set_, key, c);
      }
    }

    /** A wrapped call begins on a thread. */
    method Enter(hndl: ThreadStat, ghost t: ThreadId)
      requires Valid() && Handles(hndl) && (mode.MultiThreaded? ==> t in tls && tls[t] == hndl)
      modifies hndl`disabled
      ensures Valid() && Total() == old(Total())
      ensures forall u :: Counter(u) == old(Counter(u)) - if mode.SingleThreaded? || u == t then 1 else 0
    {
      hide ThreadStat.Valid, ThreadStat.View, StatOps, MergeAll;
      ghost var v := Views(handles, repr);
      hndl.Enter();
      assert Views(handles, repr) == v;
    }

    /** It ends. */
    method Exit(hndl: ThreadStat, ghost t: ThreadId)
      requires Valid() && Handles(hndl) && (mode.MultiThreaded? ==> t in tls && tls[t] == hndl)
      modifies hndl`disabled
      ensures Valid() && Total() == old(Total())
      ensures forall u :: Counter(u) == old(Counter(u)) + if mode.SingleThreaded? || u == t then 1 else 0
    {
      hide ThreadStat.Valid, ThreadStat.View, StatOps, MergeAll;
      ghost var v := Views(handles, repr);
      hndl.Exit();
      assert Views(handles, repr) == v;
    }

    /** The thread has ended: its handle stays in the list with what it recorded, and records nothing more. */
    method KeyDestruct(t: ThreadId, hndl: ThreadStat)
      requires Valid() && t in tls && tls[t] == hndl && mode.MultiThreaded?
      modifies this`tls, hndl`disabled
      ensures Valid() && tls == old(tls) - {t} && handles == old(handles) && Total() == old(Total())
      ensures hndl.disabled == 1 && forall u :: Counter(u) == if u == t then 0 else old(Counter(u))
    {
      hide ThreadStat.Valid, ThreadStat.View, StatOps, MergeAll;
      ghost var v := Views(handles, repr);
      hndl.Disable();
      tls := tls - {t};
      assert Views(handles, repr) == v;
    }

    /** Rebuilds the rank's own table from the first `visited` handles, those that a traversal of the list meets. */
    method Merge(visited: nat)
      requires Valid() && visited <= |handles|
      modifies rank.repr
      ensures Valid() && Total() == old(Total()) && fresh(rank.repr - old(rank.repr))
      ensures handles == old(handles) && repr == old(repr)
      ensures mode.MultiThreaded? ==> rank.View() == MergeAll(StatOps(), Views(handles, repr)[..visited])
      ensures mode.SingleThreaded? || visited == |handles| ==> rank.View() == Total()
      ensures forall u :: Counter(u) == old(Counter(u))
    {
      hide ThreadStat.Valid, ThreadStat.View, StatOps, MergeAll, Lawful, MergeTables;
      if mode.SingleThreaded? {
        return;
      }
      ghost var v := Views(handles, repr);
      rank.CsReset();
      EmptyTotal(v[..0]);
      for i := 0 to visited
        invariant Valid() && fresh(rank.repr - old(rank.repr)) && Views(handles, repr) == v
        invariant rank.View() == MergeAll(StatOps(), v[..i]) && rank.disabled == old(rank.disabled)
      {
        MergeNext(v, i);
        rank.CsMerge(handles[i]);
      }
      assert v[..|handles|] == v;
    }

    /** Forgets all calls. */
    method CsReset()
      requires Valid()
      modifies this`repr, rank.repr, repr
      ensures Valid() && Total() == map[] && rank.View() == map[] && handles == old(handles)
      ensures fresh(repr - old(repr)) && fresh(rank.repr - old(rank.repr))
      ensures forall u :: Counter(u) == old(Counter(u))
    {
      hide ThreadStat.Valid, ThreadStat.View, StatOps, MergeAll;
      rank.CsReset();
      if mode.SingleThreaded? {
        return;
      }
      for i := 0 to |handles|
        invariant Valid() && rank.View() == map[] && fresh(repr - old(repr)) && fresh(rank.repr - old(rank.repr))
        invariant rank.disabled == old(rank.disabled)
        invariant forall j :: 0 <= j < |handles| ==> handles[j].disabled == old(handles[j].disabled)
        invariant forall j :: 0 <= j < i ==> handles[j].View() == map[]
      {
        repr := ResetAt(handles[i], handles, i, repr);
      }
      EmptyTotal(Views(handles, repr));
    }
  }

  // ----- whole runs -----

  /** What happens on a rank: a thread begins a wrapped call, leaves it, or ends; the profiler is switched on or off;
      the callsite data are reset; or a report merges the handles that its traversal meets. */
  datatype Event =
    | Entered(thread: ThreadId)
    | Left(thread: ThreadId, key: ThreadKey, call: Call)
    | Ended(thread: ThreadId)
    | Switched(on: bool)
    | Reset
    | Merged(visited: nat)

  /** How many wrapped calls a thread is inside of.  Where all threads share the rank's statistics, which is where only
      one of them calls at a time, all count as one. */
  function Depth(mode: Mode, run: seq<Event>, t: ThreadId): int {
    if run == [] then 0
    else
      var d := Depth(mode, run[..|run| - 1], t);
      match run[|run| - 1]
      case Entered(u) => if mode.SingleThreaded? || u == t then d + 1 else d
      case Left(u, _, _) => if mode.SingleThreaded? || u == t then d - 1 else d
      case Ended(u) => if mode.MultiThreaded? && u == t then 0 else d
      case _ => d
  }

  /** Whether the profiler is on after a run. */
  function On(set_: Settings, run: seq<Event>): bool {
    if run == [] then set_.enabled
    else if run[|run| - 1].Switched? then run[|run| - 1].on
    else On(set_, run[..|run| - 1])
  }

  /** A thread that leaves an outermost call adds it, if the profiler is on, the rank is watched and the clock has not
      gone back. */
  predicate Counts(mode: Mode, set_: Settings, past: seq<Event>, e: Event) {
    && e.Left? && Depth(mode, past, e.thread) == 1 && On(set_, past)
    && (e.key.rank == 0 || set_.traceAllRanks) && e.call.dur >= 0.0
  }

  /** The calls recorded since the last reset, whichever threads make them. */
  function Recorded(mode: Mode, set_: Settings, run: seq<Event>): seq<(ThreadKey, Call)> {
    if run == [] then []
    else
      var past, e := run[..|run| - 1], run[|run| - 1];
      if e.Reset? then []
      else Recorded(mode, set_, past) + if Counts(mode, set_, past, e) then [(e.key, e.call)] else []
  }

  /** The table of those calls. */
  function TableOfRun(mode: Mode, set_: Settings, run: seq<Event>): map<ThreadKey, Stat> {
    TableOf(StatOps(), Ones(Recorded(mode, set_, run), set_.threshold))
  }

  // ----- what these say, event by event -----

  /** The events with a property, from some event on. */
  function Where(run: seq<Event>, has: Event -> bool, from: nat): set<int> {
    set i | from <= i < |run| && has(run[i])
  }

  lemma OneMoreEvent(run: seq<Event>, has: Event -> bool, from: nat)
    requires from < |run|
    ensures var n := |run| - 1; |Where(run, has, from)| == |Where(run[..n], has, from)| + if has(run[n]) then 1 else 0
  {
    var n := |run| - 1;
    assert Where(run, has, from) == Where(run[..n], has, from) + if has(run[n]) then {n} else {};
  }

  /** The depth is the number of calls entered less the number of calls left, since the thread's latest end; by all
      threads where they share the rank's statistics. */
  lemma {:induction false} DepthMeaning(mode: Mode, run: seq<Event>, t: ThreadId, from: nat)
    requires from <= |run| && (mode.SingleThreaded? ==> from == 0)
    requires mode.MultiThreaded? ==> (from == 0 || run[from - 1] == Ended(t)) && Ended(t) !in run[from..]
    ensures Depth(mode, run, t) ==
      |Where(run, (e: Event) => e.Entered? && (mode.SingleThreaded? || e.thread == t), from)| -
      |Where(run, (e: Event) => e.Left? && (mode.SingleThreaded? || e.thread == t), from)|
  {
    var enters := (e: Event) => e.Entered? && (mode.SingleThreaded? || e.thread == t);
    var leaves := (e: Event) => e.Left? && (mode.SingleThreaded? || e.thread == t);
    if from < |run| {
      hide Where;
      var n := |run| - 1;
      assert run[..n][from..] == run[from..][..n - from] && run[n] == run[from..][n - from];
      DepthMeaning(mode, run[..n], t, from);
      OneMoreEvent(run, enters, from);
      OneMoreEvent(run, leaves, from);
    } else {
      assert Where(run, enters, from) == {} && Where(run, leaves, from) == {};
      if from > 0 { assert run[|run| - 1] == Ended(t); }
    }
  }

  /** The latest switch decides, and the initial setting where there was none. */
  lemma {:induction false} OnMeaning(set_: Settings, run: seq<Event>, i: nat)
    requires i <= |run| && forall j :: i <= j < |run| ==> !run[j].Switched?
    ensures i == 0 ==> On(set_, run) == set_.enabled
    ensures i > 0 && run[i - 1].Switched? ==> On(set_, run) == run[i - 1].on
  {
    if i < |run| { OnMeaning(set_, run[..|run| - 1], i); }
  }

  /** Event `i` leaves an outermost call while the profiler is on, of a watched rank and with a duration that is not
      negative, and no reset follows. */
  ghost predicate IsRecorded(mode: Mode, set_: Settings, run: seq<Event>, i: nat) {
    && i < |run| && run[i].Left? && Reset !in run[i..]
    && Depth(mode, run[..i], run[i].thread) == 1 && On(set_, run[..i])
    && (run[i].key.rank == 0 || set_.traceAllRanks) && run[i].call.dur >= 0.0
  }

  lemma RecordedStays(mode: Mode, set_: Settings, run: seq<Event>, i: nat)
    requires run != [] && i < |run| - 1 && !run[|run| - 1].Reset?
    ensures IsRecorded(mode, set_, run, i) == IsRecorded(mode, set_, run[..|run| - 1], i)
  {
    var n := |run| - 1;
    assert run[..n][..i] == run[..i] && run[i..] == run[..n][i..] + [run[n]];
  }

  lemma RecordedLast(mode: Mode, set_: Settings, run: seq<Event>)
    requires run != []
    ensures var n := |run| - 1; IsRecorded(mode, set_, run, n) == Counts(mode, set_, run[..n], run[n])
  {
    assert run[|run| - 1..] == [run[|run| - 1]];
  }

  /** The recorded calls are those of all such events, in their order. */
  lemma {:induction false} RecordedMeaning(mode: Mode, set_: Settings, run: seq<Event>) returns (at: seq<nat>)
    ensures |at| == |Recorded(mode, set_, run)| && forall j, k :: 0 <= j < k < |at| ==> at[j] < at[k]
    ensures forall j :: 0 <= j < |at| ==>
      at[j] < |run| && run[at[j]].Left? && Recorded(mode, set_, run)[j] == (run[at[j]].key, run[at[j]].call)
    ensures forall i: nat :: i in at <==> IsRecorded(mode, set_, run, i)
  {
    at := [];
    if run != [] {
      hide IsRecorded, Counts;
      var n := |run| - 1;
      var past, e := run[..n], run[n];
      RecordedLast(mode, set_, run);
      if e.Reset? {
        NoneRecorded(mode, set_, run);
      } else {
        at := RecordedMeaning(mode, set_, past);
        forall i: nat | i < n ensures IsRecorded(mode, set_, run, i) == IsRecorded(mode, set_, past, i) {
          RecordedStays(mode, set_, run, i);
        }
        RecordedInside(mode, set_, run);
        RecordedInside(mode, set_, past);
        if Counts(mode, set_, past, e) {
          CountsLeft(mode, set_, past, e);
          at := at + [n];
        }
      }
    } else {
      RecordedInside(mode, set_, run);
    }
  }

  lemma RecordedInside(mode: Mode, set_: Settings, run: seq<Event>)
    ensures forall i: nat :: IsRecorded(mode, set_, run, i) ==> i < |run|
  {
  }

  lemma NoneRecorded(mode: Mode, set_: Settings, run: seq<Event>)
    requires run != [] && run[|run| - 1].Reset?
    ensures forall i: nat :: !IsRecorded(mode, set_, run, i)
  {
    forall i: nat | i < |run| ensures Reset in run[i..] {
      assert run[i..][|run| - 1 - i] == run[|run| - 1];
    }
  }

  /** The statistics after a run: every counter is the nesting of its thread, and the total is the table of the recorded
      calls. */
  ghost predicate Holds(m: MtStat, set_: Settings, now: Settings, run: seq<Event>)
    requires m.Valid()
    reads m, m.repr, m.rank, m.rank.repr, m.tls.Values
  {
    && now == set_.(enabled := On(set_, run))
    && (forall t :: m.Counter(t) == -Depth(m.mode, run, t))
    && m.Total() == TableOfRun(m.mode, set_, run)
  }

  lemma Later(mode: Mode, set_: Settings, past: seq<Event>, e: Event)
    ensures TableOfRun(mode, set_, past + [e]) ==
      if e.Reset? then map[]
      else if Counts(mode, set_, past, e)
      then Accumulate(StatOps(), TableOfRun(mode, set_, past), e.key, One(e.call, set_.threshold))
      else TableOfRun(mode, set_, past)
    ensures On(set_, past + [e]) == if e.Switched? then e.on else On(set_, past)
  {
    hide Counts;
    assert (past + [e])[..|past|] == past;
    var r := Recorded(mode, set_, past);
    assert r + [] == r;
    if !e.Reset? && Counts(mode, set_, past, e) {
      CountsLeft(mode, set_, past, e);
      OnesNext(r, (e.key, e.call), set_.threshold);
      TableNext(StatOps(), Ones(r, set_.threshold), (e.key, One(e.call, set_.threshold)), e.key);
    }
  }

  lemma CountsLeft(mode: Mode, set_: Settings, past: seq<Event>, e: Event)
    requires Counts(mode, set_, past, e)
    ensures e.Left?
  {
  }

  lemma Deeper(mode: Mode, past: seq<Event>, e: Event, t: ThreadId)
    ensures Depth(mode, past + [e], t) == match e
      case Entered(u) => Depth(mode, past, t) + (if mode.SingleThreaded? || u == t then 1 else 0)
      case Left(u, _, _) => Depth(mode, past, t) - (if mode.SingleThreaded? || u == t then 1 else 0)
      case Ended(u) => if mode.MultiThreaded? && u == t then 0 else Depth(mode, past, t)
      case _ => Depth(mode, past, t)
  {
    assert (past + [e])[..|past|] == past;
  }

  /** The end of a wrapper: the call is recorded if the thread is not inside another one. */
  method Leave(m: MtStat, set_: Settings, t: ThreadId, key: ThreadKey, c: Call)
    requires m.Valid() && set_.tableSize >= 2
    modifies m, m.repr, m.rank, m.rank.repr
    ensures m.Valid() && fresh(m.repr - old(m.repr)) && fresh(m.rank.repr - old(m.rank.repr))
    ensures forall u :: m.Counter(u) == old(m.Counter(u)) + if m.mode.SingleThreaded? || u == t then 1 else 0
    ensures m.Total() ==
      if old(m.Counter(t)) == -1 && set_.enabled && (key.rank == 0 || set_.traceAllRanks) && c.dur >= 0.0
      then Accumulate(StatOps(), old(m.Total()), key, One(c, set_.threshold)) else old(m.Total())
  {
    hide MtStat.Valid, MtStat.Total, ThreadStat.Valid, Accumulate, StatOps, One;
    var hndl := m.GetTls(t, set_.tableSize);
    m.Exit(hndl, t);
    if hndl.IsOn(set_) && !(c.dur < 0.0) {
      m.CsUpd(hndl, set_, key, c);
    }
  }

  method EndThread(m: MtStat, t: ThreadId)
    requires m.Valid()
    modifies m, m.repr
    ensures m.Valid() && m.Total() == old(m.Total()) && m.repr == old(m.repr) && m.rank.repr == old(m.rank.repr)
    ensures forall u :: m.Counter(u) == if m.mode.MultiThreaded? && u == t then 0 else old(m.Counter(u))
  {
    hide MtStat.Total, ThreadStat.Valid, ThreadStat.View;
    if m.mode.MultiThreaded? && t in m.tls {
      m.KeyDestruct(t, m.tls[t]);
    }
  }

  method EnterThread(m: MtStat, set_: Settings, t: ThreadId)
    requires m.Valid() && set_.tableSize >= 2
    modifies m, m.repr, m.rank
    ensures m.Valid() && m.Total() == old(m.Total()) && fresh(m.repr - old(m.repr)) && m.rank.repr == old(m.rank.repr)
    ensures forall u :: m.Counter(u) == old(m.Counter(u)) - if m.mode.SingleThreaded? || u == t then 1 else 0
  {
    hide MtStat.Valid, MtStat.Total, ThreadStat.Valid;
    var hndl := m.GetTls(t, set_.tableSize);
    m.Enter(hndl, t);
  }

  /** One event; `now` are the settings with the switch as it stands. */
  method Happen(m: MtStat, set_: Settings, now: Settings, e: Event, ghost past: seq<Event>) returns (next: Settings)
    requires m.Valid() && set_.tableSize >= 2 && Holds(m, set_, now, past)
    modifies m, m.repr, m.rank, m.rank.repr
    ensures m.Valid() && Holds(m, set_, next, past + [e])
    ensures fresh(m.repr - old(m.repr)) && fresh(m.rank.repr - old(m.rank.repr))
  {
    hide MtStat.Valid, MtStat.Total, MtStat.Counter, ThreadStat.Valid, ThreadStat.View, Accumulate, StatOps, One;
    hide TableOfRun, Depth, On;
    next := now;
    match e {
      case Entered(t) => EnterThread(m, now, t);
      case Left(t, key, c) => Leave(m, now, t, key, c);
      case Ended(t) => EndThread(m, t);
      case Switched(on) => next := now.(enabled := on);
      case Reset => m.CsReset();
      case Merged(visited) => m.Merge(if visited < |m.handles| then visited else |m.handles|);
    }
    Later(m.mode, set_, past, e);
    forall t ensures m.Counter(t) == -Depth(m.mode, past + [e], t) {
      Deeper(m.mode, past, e, t);
    }
  }

  /** However the calls of a run are nested, overlap and are spread over threads that come and go, in either mode, and
      whatever is switched, reset and reported in between: the rank's table, merged at the end, is the one table of
      the calls recorded since the last reset. */
  method Run(m: MtStat, set_: Settings, run: seq<Event>)
    requires m.Valid() && set_.tableSize >= 2 && m.Total() == map[] && forall t :: m.Counter(t) == 0
    modifies m, m.repr, m.rank, m.rank.repr
    ensures m.Valid() && m.rank.View() == TableOfRun(m.mode, set_, run)
    ensures fresh(m.repr - old(m.repr)) && fresh(m.rank.repr - old(m.rank.repr))
    ensures m.Total() == m.rank.View() && forall t :: m.Counter(t) == -Depth(m.mode, run, t)
  {
    hide MtStat.Valid, MtStat.Total, MtStat.Counter, ThreadStat.Valid, ThreadStat.View, Accumulate, StatOps;
    var now := set_;
    for i := 0 to |run|
      invariant m.Valid() && Holds(m, set_, now, run[..i])
      invariant fresh(m.repr - old(m.repr)) && fresh(m.rank.repr - old(m.rank.repr))
    {
      assert run[..i + 1] == run[..i] + [run[i]];
      now := Happen(m, set_, now, run[i], run[..i]);
    }
    assert run[..|run|] == run;
    m.Merge(|m.handles|);
  }

  /** The profiler of one rank over a whole run, from its start. */
  method Profile(mode: Mode, set_: Settings, run: seq<Event>) returns (m: MtStat)
    requires set_.tableSize >= 2
    ensures fresh(m) && m.Valid() && fresh(m.rank) && fresh(m.rank.repr) && m.mode == mode
    ensures m.rank.View() == TableOfRun(mode, set_, run)
  {
    hide MtStat.Valid, MtStat.Total, MtStat.Counter, ThreadStat.Valid, ThreadStat.View, StatOps;
    m := new MtStat(mode, set_.tableSize);
    Run(m, set_, run);
  }
}
