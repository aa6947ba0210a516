/** Hash tables of call-site records, updated in place: find the record of a key, create it when it is
    missing, and add to it. */
module StatTables {
  import opened HashSpecs
  import opened HashTables
  import opened Options
  import opened Stats
  import opened Tables

  /** A call-site record.  The key part is set once; the statistics are added to. */
  class Record<K> {
    const key: K
    var count: int
    var cumulativeTime: real
    var cumulativeTimeSquared: real
    var maxDur: Max
    var minDur: Min
    var maxDataSent: Max
    var minDataSent: Min
    var cumulativeDataSent: real
    var maxIO: Max
    var minIO: Min
    var cumulativeIO: real
    var cumulativeRMA: real
    var arbitraryMessageCount: int

    /** The statistics as one value. */
    function Value(): (s: Stat)
      reads this
      ensures s.count == count && s.time == cumulativeTime && s.timeSquared == cumulativeTimeSquared
      ensures s.maxDur == maxDur && s.minDur == minDur && s.maxDataSent == maxDataSent && s.minDataSent == minDataSent
      ensures s.dataSent == cumulativeDataSent && s.maxIO == maxIO && s.minIO == minIO && s.io == cumulativeIO
      ensures s.rma == cumulativeRMA && s.messages == arbitraryMessageCount
    {
      Stat(count, cumulativeTime, cumulativeTimeSquared, maxDur, minDur, maxDataSent, minDataSent, cumulativeDataSent,
           maxIO, minIO, cumulativeIO, cumulativeRMA, arbitraryMessageCount)
    }

    constructor (key: K, s: Stat)
      ensures this.key == key && Value() == s
    {
      this.key := key;
      count, cumulativeTime, cumulativeTimeSquared := s.count, s.time, s.timeSquared;
      maxDur, minDur, maxDataSent, minDataSent := s.maxDur, s.minDur, s.maxDataSent, s.minDataSent;
      maxIO, minIO, cumulativeDataSent, cumulativeIO := s.maxIO, s.minIO, s.dataSent, s.io;
      cumulativeRMA, arbitraryMessageCount := s.rma, s.messages;
    }

    /** Widens the extremes to cover one more set of values. */
    method Widen(dur: real, minD: Min, sent: real, minS: Min, io: real, minI: Min)
      modifies this`maxDur, this`minDur, this`maxDataSent, this`minDataSent, this`maxIO, this`minIO
      ensures maxDur == MaxOf(old(maxDur), dur) && minDur == MinOf(old(minDur), minD)
      ensures maxDataSent == MaxOf(old(maxDataSent), sent) && minDataSent == MinOf(old(minDataSent), minS)
      ensures maxIO == MaxOf(old(maxIO), io) && minIO == MinOf(old(minIO), minI)
    {
      maxDur := if maxDur > dur then maxDur else dur;
      minDur := MinOf(minDur, minD);
      maxDataSent := if maxDataSent > sent then maxDataSent else sent;
      minDataSent := MinOf(minDataSent, minS);
      maxIO := if maxIO > io then maxIO else io;
      minIO := MinOf(minIO, minI);
    }

    /** Adds one call to the sums. */
    method AddSums(c: Call, threshold: real)
      modifies this`count, this`cumulativeTime, this`cumulativeTimeSquared, this`cumulativeDataSent, this`cumulativeIO,
        this`cumulativeRMA, this`arbitraryMessageCount
      ensures count == old(count) + 1 && cumulativeTime == old(cumulativeTime) + c.dur
      ensures cumulativeTimeSquared == old(cumulativeTimeSquared) + c.dur * c.dur
      ensures cumulativeDataSent == old(cumulativeDataSent) + c.sendSize
      ensures cumulativeIO == old(cumulativeIO) + c.ioSize && cumulativeRMA == old(cumulativeRMA) + c.rmaSize
      ensures arbitraryMessageCount ==
        old(arbitraryMessageCount) + if threshold > -1.0 && c.sendSize >= threshold then 1 else 0
    {
      count := count + 1;
      cumulativeTime := cumulativeTime + c.dur;
      cumulativeTimeSquared := cumulativeTimeSquared + c.dur * c.dur;
      cumulativeDataSent := cumulativeDataSent + c.sendSize;
      cumulativeIO := cumulativeIO + c.ioSize;
      cumulativeRMA := cumulativeRMA + c.rmaSize;
      if threshold > -1.0 && c.sendSize >= threshold {
        arbitraryMessageCount := arbitraryMessageCount + 1;
      }
    }

    /** Adds one call. */
    method AddCall(c: Call, threshold: real)
      modifies this
      ensures count == old(count) + 1 && cumulativeTime == old(cumulativeTime) + c.dur
      ensures cumulativeTimeSquared == old(cumulativeTimeSquared) + c.dur * c.dur
      ensures cumulativeDataSent == old(cumulativeDataSent) + c.sendSize
      ensures cumulativeIO == old(cumulativeIO) + c.ioSize && cumulativeRMA == old(cumulativeRMA) + c.rmaSize
      ensures maxDur == (if old(maxDur) > c.dur then old(maxDur) else c.dur)
      ensures maxDataSent == (if old(maxDataSent) > c.sendSize then old(maxDataSent) else c.sendSize)
      ensures maxIO == (if old(maxIO) > c.ioSize then old(maxIO) else c.ioSize)
      ensures minDur == if old(minDur).At? && old(minDur.value) < c.dur then old(minDur) else At(c.dur)
      ensures minDataSent ==
        if old(minDataSent).At? && old(minDataSent.value) < c.sendSize then old(minDataSent) else At(c.sendSize)
      ensures minIO == if old(minIO).At? && old(minIO.value) < c.ioSize then old(minIO) else At(c.ioSize)
      ensures arbitraryMessageCount ==
        old(arbitraryMessageCount) + if threshold > -1.0 && c.sendSize >= threshold then 1 else 0
      ensures Value() == Stats.Update(old(Value()), c, threshold)
    {
      AddSums(c, threshold);
      Widen(c.dur, At(c.dur), c.sendSize, At(c.sendSize), c.ioSize, At(c.ioSize));
    }

    /** Adds the statistics of another record. */
    method AddAll(src: Stat)
      modifies this
      ensures count == old(count) + src.count && cumulativeTime == old(cumulativeTime) + src.time
      ensures cumulativeTimeSquared == old(cumulativeTimeSquared) + src.timeSquared
      ensures cumulativeDataSent == old(cumulativeDataSent) + src.dataSent
      ensures cumulativeIO == old(cumulativeIO) + src.io && cumulativeRMA == old(cumulativeRMA) + src.rma
      ensures maxDur == (if old(maxDur) > src.maxDur then old(maxDur) else src.maxDur)
      ensures maxDataSent == (if old(maxDataSent) > src.maxDataSent then old(maxDataSent) else src.maxDataSent)
      ensures maxIO == (if old(maxIO) > src.maxIO then old(maxIO) else src.maxIO)
      ensures minDur == if src.minDur.At? && (old(minDur).At? ==> src.minDur.value <= old(minDur.value))
        then src.minDur else old(minDur)
      ensures minDataSent ==
        if src.minDataSent.At? && (old(minDataSent).At? ==> src.minDataSent.value <= old(minDataSent.value))
        then src.minDataSent else old(minDataSent)
      ensures minIO == if src.minIO.At? && (old(minIO).At? ==> src.minIO.value <= old(minIO.value))
        then src.minIO else old(minIO)
      ensures arbitraryMessageCount == old(arbitraryMessageCount) + src.messages
      ensures Value() == Merge(old(Value()), src)
    {
      count := count + src.count;
      cumulativeTime := cumulativeTime + src.time;
      cumulativeTimeSquared := cumulativeTimeSquared + src.timeSquared;
      cumulativeDataSent := cumulativeDataSent + src.dataSent;
      cumulativeIO := cumulativeIO + src.io;
      cumulativeRMA := cumulativeRMA + src.rma;
      arbitraryMessageCount := arbitraryMessageCount + src.messages;
      Widen(src.maxDur, src.minDur, src.maxDataSent, src.minDataSent, src.maxIO, src.minIO);
    }
  }

  function KeyOf<K>(r: Record<K>): K {
    r.key
  }

  /** Each key leads to a record of that key, among `records`. */
  ghost predicate Keyed<K>(model: map<K, Record<K>>, records: set<object>) {
    forall k :: k in model ==> model[k] in records && model[k].key == k
  }

  /** The statistics of each key. */
  ghost function ViewOf<K>(model: map<K, Record<K>>, records: set<object>): (v: map<K, Stat>)
    requires Keyed(model, records)
    reads records
    ensures v.Keys == model.Keys && forall k :: k in v ==> v[k] == model[k].Value()
  {
    map k | k in model :: model[k].Value()
  }

  /** Changing the statistics of one record changes one entry of the view. */
  lemma OneEntryChanged<K>(model: map<K, Record<K>>, records: set<object>, r: Record<K>, before: map<K, Stat>)
    requires Keyed(model, records) && r.key in model && model[r.key] == r && model.Keys == before.Keys + {r.key}
    requires forall k :: k in model && k != r.key ==> model[k].Value() == before[k]
    ensures ViewOf(model, records) == before[r.key := r.Value()]
  {
  }

  /** The records of `model`, each once, in some order. */
  ghost predicate Listed<K>(slots: seq<Option<Record<K>>>, model: map<K, Record<K>>) {
    && |slots| == |model|
    && (forall i :: 0 <= i < |slots| ==>
          slots[i].Some? && slots[i].value.key in model && model[slots[i].value.key] == slots[i].value)
    && (forall i, j :: 0 <= i < j < |slots| ==> slots[i].value.key != slots[j].value.key)
  }

  /** The listed records as table entries. */
  ghost function EntriesOf<K>(slots: seq<Option<Record<K>>>, v: map<K, Stat>): (e: seq<(K, Stat)>)
    requires forall i :: 0 <= i < |slots| ==> slots[i].Some? && slots[i].value.key in v
    ensures |e| == |slots| && forall i :: 0 <= i < |e| ==> e[i] == (slots[i].value.key, v[slots[i].value.key])
  {
    seq(|slots|, i requires 0 <= i < |slots| => (slots[i].value.key, v[slots[i].value.key]))
  }

  lemma EntriesList<K>(slots: seq<Option<Record<K>>>, model: map<K, Record<K>>, w: map<K, Stat>)
    requires Listed(slots, model) && w.Keys == model.Keys
    ensures Lists(EntriesOf(slots, w), w)
  {
    SameKeys(model, w);
  }

  lemma EntriesAddUp<K(!new)>(slots: seq<Option<Record<K>>>, model: map<K, Record<K>>, v: map<K, Stat>, w: map<K, Stat>)
    requires Listed(slots, model) && w.Keys == model.Keys
    ensures AccumulateAll(StatOps(), v, EntriesOf(slots, w)) == MergeTables(StatOps(), v, w)
  {
    var e := EntriesOf(slots, w);
    MergeIsLawful();
    EntriesList(slots, model, w);
    ListingIsTable(StatOps(), e, w);
    AccumulateAllMerges(StatOps(), v, e);
  }

  lemma SameKeys<K, A, B>(a: map<K, A>, b: map<K, B>)
    requires a.Keys == b.Keys
    ensures |a| == |b|
  {
    assert |a| == |a.Keys| && |b| == |b.Keys|;
  }

  lemma EntrySet<K>(model: map<K, Record<K>>, records: set<object>, r: Record<K>)
    requires Keyed(model, records)
    ensures ViewOf(model[r.key := r], records + {r}) == ViewOf(model, records)[r.key := r.Value()]
  {
  }

  /** The statistics of a key; an absent one has those of a fresh record. */
  function StatOf<K>(v: map<K, Stat>, key: K): Stat {
    if key in v then v[key] else NONE
  }

  lemma SetTwice<K, S>(v: map<K, S>, w: map<K, S>, key: K, a: S, b: S)
    requires w == v[key := a]
    ensures w[key := b] == v[key := b]
  {
  }

  class StatTable<K(!new, ==)> {
    const table: HashTable<Record<K>, K>
    ghost var model: map<K, Record<K>>  // the record of each key
    ghost var records: set<object>      // all records
    ghost var repr: set<object>         // everything the table is made of

    /** The hash table holds the records of `model`. */
    ghost predicate Holds()
      reads this`model, table, table.table, table.repr
    {
      && table.Valid() && Exact(table.cfg) && WellPlaced(table.cfg, table.Buckets())
      && table.cfg.keyOf == KeyOf<K> && model == Model(table.cfg, table.Buckets())
    }

    ghost predicate Valid()
      reads this, repr
    {
      && this in repr && table in repr && table.table in repr && table.repr <= repr && records <= repr
      && Holds() && Keyed(model, records) && this !in records && table !in records && table.table !in records
    }

    /** The statistics of each key. */
    ghost function View(): map<K, Stat>
      requires Valid()
      reads this, repr
    {
      ViewOf(model, records)
    }

    constructor (size: nat, hf: K -> nat, hc: (K, K) -> int)
      requires size >= 2 && forall a: K, b: K :: hc(a, b) == 0 <==> a == b
      ensures Valid() && this in repr && fresh(repr) && View() == map[]
    {
      hide HashTable<Record<K>, K>.Valid, WellPlaced, Model;
      table := new HashTable(size, Config(KeyOf<K>, hf, hc));
      model, records := map[], {};
      new;
      NothingStored(table.cfg, table.Buckets());
      repr := {this, table, table.table};
    }

    /** The record of a key, if it has one. */
    method Find(key: K) returns (r: Option<Record<K>>)
      requires Holds()
      ensures r == if key in model then Some(model[key]) else None
    {
      r := table.Search(key);
    }

    /** Puts a new record in the table. */
    method Put(r: Record<K>)
      requires Holds() && r.key !in model
      modifies this`model, table, table.table
      ensures Holds() && model == old(model)[r.key := r]
      ensures fresh(table.repr - old(table.repr)) && old(table.repr) <= table.repr
    {
      ModelInsert(table.cfg, table.Buckets(), r);
      var rc := table.Insert(r);
      model := model[r.key := r];
    }

    /** A new record for a key that has none. */
    method Create(key: K, s: Stat) returns (r: Record<K>)
      requires Valid() && key !in model
      modifies this, table, table.table
      ensures Valid() && fresh(repr - old(repr)) && old(repr) <= repr
      ensures model == old(model)[key := r] && records == old(records) + {r} && r.key == key
      ensures fresh(r) && r.Value() == s
    {
      hide StatTable<K>.Holds;
      r := new Record(key, s);
      Put(r);
      records := records + {r};
      repr := repr + {r} + table.repr;
    }

    /** The record of a key, created when it is missing. */
    method FindOrCreate(key: K) returns (r: Record<K>)
      requires Valid()
      modifies this, table, table.table
      ensures Valid() && fresh(repr - old(repr)) && key in model && model[key] == r
      ensures model == old(model)[key := r] && records == old(records) + {r}
      ensures if key in old(model) then r == old(model)[key] else fresh(r) && r.Value() == NONE
    {
      hide StatTable<K>.Holds;
      var f := Find(key);
      if f.Some? {
        r := f.value;
      } else {
        r := Create(key, NONE);
      }
    }

    /** The record of a key, created when it is missing; the other records are as before. */
    method Locate(key: K) returns (r: Record<K>)
      requires Valid()
      modifies this, table, table.table
      ensures Valid() && fresh(repr - old(repr)) && key in model && model[key] == r && r in repr
      ensures View() == old(View())[key := r.Value()] && r.Value() == StatOf(old(View()), key)
    {
      hide StatTable<K>.Holds;
      ghost var m, rs := model, records;
      r := FindOrCreate(key);
      EntrySet(m, rs, r);
    }

    /** Records one call in a record of the table. */
    method AddCallTo(r: Record<K>, c: Call, threshold: real)
      requires Valid() && r.key in model && model[r.key] == r
      modifies r
      ensures Valid() && repr == old(repr) && r.Value() == Stats.Update(old(r.Value()), c, threshold)
      ensures View() == old(View())[r.key := r.Value()]
    {
      hide StatTable<K>.Holds;
      ghost var before := View();
      r.AddCall(c, threshold);
      OneEntryChanged(model, records, r, before);
    }

    /** Adds statistics to a record of the table. */
    method AddAllTo(r: Record<K>, s: Stat)
      requires Valid() && r.key in model && model[r.key] == r
      modifies r
      ensures Valid() && repr == old(repr) && r.Value() == Merge(old(r.Value()), s)
      ensures View() == old(View())[r.key := r.Value()]
    {
      hide StatTable<K>.Holds;
      ghost var before := View();
      r.AddAll(s);
      OneEntryChanged(model, records, r, before);
    }

    /** Records one call under its key: the statistics of that call alone are merged in. */
    method AddCall(key: K, c: Call, threshold: real)
      requires Valid()
      modifies repr
      ensures Valid() && fresh(repr - old(repr))
      ensures View() == Accumulate(StatOps(), old(View()), key, One(c, threshold))
    {
      hide StatTable<K>.Holds;
      var r := Locate(key);
      ghost var v, a := View(), r.Value();
      AddCallTo(r, c, threshold);
      UpdateIsMerge(a, c, threshold);
      SetTwice(old(View()), v, key, a, r.Value());
    }

    /** Adds statistics under a key. */
    method Add(key: K, s: Stat)
      requires Valid()
      modifies repr
      ensures Valid() && fresh(repr - old(repr))
      ensures View() == Accumulate(StatOps(), old(View()), key, s)
    {
      hide StatTable<K>.Holds;
      var r := Locate(key);
      ghost var v, a := View(), r.Value();
      AddAllTo(r, s);
      SetTwice(old(View()), v, key, a, r.Value());
    }

    /** Puts a copy of a record under its key, or adds it to the record that is there. */
    method Insert(key: K, s: Stat) returns (isNew: bool)
      requires Valid()
      modifies repr
      ensures Valid() && this in repr && fresh(repr - old(repr)) && (isNew <==> key !in old(View()))
      ensures View() == Accumulate(StatOps(), old(View()), key, s)
    {
      hide StatTable<K>.Holds;
      var f := Find(key);
      isNew := f.None?;
      if isNew {
        ghost var m, rs := model, records;
        var r := Create(key, s);
        EntrySet(m, rs, r);
        assert Merge(NONE, s) == s;
      } else {
        AddAllTo(f.value, s);
      }
    }

    /** Empties the table; its records are freed. */
    method Reset()
      requires Valid()
      modifies repr
      ensures Valid() && fresh(repr - old(repr)) && View() == map[]
    {
      hide HashTable<Record<K>, K>.Valid, Exact, WellPlaced, Model;
      var _, _ := table.Drain();
      NothingStored(table.cfg, table.Buckets());
      model, records := map[], {};
    }

    lemma ViewAt(r: Record<K>)
      requires Valid() && r.key in model && model[r.key] == r
      ensures r.key in View() && View()[r.key] == r.Value()
    {
    }

    /** Lists every record once. */
    method Gather() returns (ac: nat, slots: array<Option<Record<K>>>)
      requires Valid()
      ensures View().Keys == model.Keys
      ensures fresh(slots) && ac == slots.Length && Listed(slots[..], model)
    {
      ModelElements(table.cfg, table.Buckets());
      ac, slots := table.GatherData();
      ElementsListed(slots[..], Elements(table.Buckets()), model);
    }

    static lemma ElementsListed(slots: seq<Option<Record<K>>>, e: seq<Record<K>>, model: map<K, Record<K>>)
      requires |slots| == |e| == |model| && forall i :: 0 <= i < |e| ==> slots[i] == Some(e[i])
      requires forall i :: 0 <= i < |e| ==> KeyOf(e[i]) in model && model[KeyOf(e[i])] == e[i]
      requires forall i, j :: 0 <= i < j < |e| ==> KeyOf(e[i]) != KeyOf(e[j])
      ensures Listed(slots, model)
    {
    }

    /** Adds the statistics of one record of another table. */
    method AddRecord(src: StatTable<K>, csp: Record<K>)
      requires Valid() && src.Valid() && repr !! src.repr && csp.key in src.model && src.model[csp.key] == csp
      modifies repr
      ensures Valid() && fresh(repr - old(repr)) && repr !! src.repr
      ensures src.Valid() && src.View() == old(src.View()) && src.repr == old(src.repr) && src.model == old(src.model)
      ensures View() == Accumulate(StatOps(), old(View()), csp.key, src.View()[csp.key])
    {
      hide StatTable<K>.Holds;
      var s := csp.Value();
      Add(csp.key, s);
    }

    /** Merges another table into this one, record by record. */
    method MergeFrom(src: StatTable<K>)
      requires Valid() && src.Valid() && repr !! src.repr
      modifies repr
      ensures Valid() && fresh(repr - old(repr)) && repr !! src.repr
      ensures src.Valid() && src.View() == old(src.View()) && src.repr == old(src.repr)
      ensures View() == MergeTables(StatOps(), old(View()), src.View())
    {
      hide StatTable<K>.Valid, StatTable<K>.View, AccumulateAll, Accumulate, MergeTables, Lists, StatOps;
      var ac, slots := src.Gather();
      EmptyPrefix(StatOps(), View(), EntriesOf(slots[..], src.View()));
      ghost var v, w, m, l := View(), src.View(), src.model, slots[..];
      ghost var e := EntriesOf(l, w);
      for i := 0 to ac
        invariant Valid() && fresh(repr - old(repr)) && repr !! src.repr
        invariant src.Valid() && src.View() == w && src.repr == old(src.repr) && src.model == m
        invariant slots !in repr && slots[..] == l
        invariant View() == AccumulateAll(StatOps(), v, e[..i])
      {
        AccumulateNext(StatOps(), v, e, i);
        assert slots[i] == l[i];
        AddRecord(src, slots[i].value);
      }
      EntriesAddUp(l, m, v, w);
      assert e[..ac] == e;
    }
  }
}
