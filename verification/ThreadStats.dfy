/** The call-site statistics of one thread, and of all threads of a rank. */
module ThreadStats {
  import opened Keys
  import opened Stats
  import opened StatTables
  import opened Tables

  /** The profiler's settings: whether it is on, whether ranks other than 0 are recorded, from which size on
      messages are counted, and the number of hash buckets. */
  datatype Settings = Settings(enabled: bool, traceAllRanks: bool, threshold: real, tableSize: nat)

  function ThreadHashOf(k: ThreadKey): nat {
    ToNat(ThreadHash(k))
  }

  class ThreadStat {
    const cs: StatTable<ThreadKey>
    var disabled: int
    ghost var repr: set<object>

    ghost predicate Valid()
      reads this, repr
    {
      this in repr && cs in repr && cs.repr <= repr && this !in cs.repr && cs.Valid()
    }

    /** The statistics of each call site. */
    ghost function View(): map<ThreadKey, Stat>
      requires Valid()
      reads this, repr
    {
      cs.View()
    }

    constructor (tableSize: nat)
      requires tableSize >= 2
      ensures Valid() && this in repr && fresh(repr) && View() == map[] && disabled == 0
    {
      hide StatTable<ThreadKey>.Valid, StatTable<ThreadKey>.View;
      cs := new StatTable(tableSize, ThreadHashOf, ThreadCompare);
      disabled := 0;
      new;
      repr := {this} + cs.repr + {cs};
    }

    /** Neither inside a call nor switched off. */
    predicate IsOn(set_: Settings)
      reads this`disabled
    {
      disabled == 0 && set_.enabled
    }

    /** A call is recorded unless one is in progress, the profiler is off, or it is made by an unwatched rank. */
    predicate Records(set_: Settings, rank: int)
      reads this`disabled
    {
      disabled == 0 && set_.enabled && (rank == 0 || set_.traceAllRanks)
    }

    method CsUpd(set_: Settings, key: ThreadKey, c: Call)
      requires Valid()
      modifies repr
      ensures Valid() && this in repr && fresh(repr - old(repr)) && disabled == old(disabled)
      ensures View() ==
        if disabled == 0 && set_.enabled && (key.rank == 0 || set_.traceAllRanks)
        then Accumulate(StatOps(), old(View()), key, One(c, set_.threshold)) else old(View())
    {
      hide StatTable<ThreadKey>.Valid, StatTable<ThreadKey>.View;
      if disabled != 0 || !set_.enabled {
        return;
      }
      if key.rank != 0 && !set_.traceAllRanks {
        return;
      }
      cs.AddCall(key, c, set_.threshold);
      repr := repr + cs.repr;
    }

    /** Adds the statistics of another thread; that thread's stay as they are. */
    method CsMerge(src: ThreadStat)
      requires Valid() && src.Valid() && repr !! src.repr
      modifies repr
      ensures Valid() && this in repr && fresh(repr - old(repr)) && repr !! src.repr && disabled == old(disabled)
      ensures src.Valid() && src.View() == old(src.View()) && src.repr == old(src.repr)
      ensures View() == MergeTables(StatOps(), old(View()), src.View())
    {
      hide StatTable<ThreadKey>.Valid, StatTable<ThreadKey>.View;
      cs.MergeFrom(src.cs);
      repr := repr + cs.repr;
    }

    method CsReset()
      requires Valid()
      modifies repr
      ensures Valid() && this in repr && fresh(repr - old(repr)) && View() == map[] && disabled == old(disabled)
    {
      hide StatTable<ThreadKey>.Valid, StatTable<ThreadKey>.View;
      cs.Reset();
      repr := repr + cs.repr;
    }

    /** At the start of a wrapped call: makes the counter nonzero, so that calls made inside it do not count. */
    method Enter()
      requires Valid()
      modifies this`disabled
      ensures Valid() && disabled == old(disabled) - 1 && View() == old(View())
    {
      hide StatTable<ThreadKey>.Valid, StatTable<ThreadKey>.View;
      disabled := disabled - 1;
    }

    /** At the end of a wrapped call: takes back one `Enter`. */
    method Exit()
      requires Valid()
      modifies this`disabled
      ensures Valid() && disabled == old(disabled) + 1 && View() == old(View())
    {
      hide StatTable<ThreadKey>.Valid, StatTable<ThreadKey>.View;
      disabled := disabled + 1;
    }

    /** Stops recording for good, when the thread ends. */
    method Disable()
      requires Valid()
      modifies this`disabled
      ensures Valid() && disabled == 1 && View() == old(View())
    {
      hide StatTable<ThreadKey>.Valid, StatTable<ThreadKey>.View;
      disabled := 1;
    }
  }
}
