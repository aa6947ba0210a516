/** Tables of accumulated values, over any commutative way of merging two values. */
module Tables {

  /** How two values merge, and the value of an absent entry. */
  datatype Ops<!S> = Ops(merge: (S, S) -> S, none: S)

  /** Merging is commutative and associative, and the absent value adds nothing. */
  ghost predicate Lawful<S(!new)>(o: Ops<S>) {
    && (forall a: S, b: S :: o.merge(a, b) == o.merge(b, a))
    && (forall a: S, b: S, c: S :: o.merge(o.merge(a, b), c) == o.merge(a, o.merge(b, c)))
    && (forall a: S :: o.merge(o.none, a) == a)
  }

  function Get<K, S>(o: Ops<S>, t: map<K, S>, k: K): S {
    if k in t then t[k] else o.none
  }

  /** Accumulate one value under its key, creating the entry if needed. */
  function Accumulate<K, S>(o: Ops<S>, t: map<K, S>, k: K, s: S): map<K, S> {
    t[k := o.merge(Get(o, t, k), s)]
  }

  function MergeTables<K, S>(o: Ops<S>, a: map<K, S>, b: map<K, S>): (t: map<K, S>)
    ensures t.Keys == a.Keys + b.Keys
  {
    map k | k in a.Keys + b.Keys :: o.merge(Get(o, a, k), Get(o, b, k))
  }

  /** Merging table by table, in order. */
  function MergeAll<K, S>(o: Ops<S>, tables: seq<map<K, S>>): map<K, S> {
    if tables == [] then map[] else MergeTables(o, MergeAll(o, tables[..|tables| - 1]), tables[|tables| - 1])
  }

  lemma MergeTablesCommute<K, S(!new)>(o: Ops<S>, a: map<K, S>, b: map<K, S>)
    requires Lawful(o)
    ensures MergeTables(o, a, b) == MergeTables(o, b, a)
  {
  }

  lemma MergeTablesGet<K, S(!new)>(o: Ops<S>, a: map<K, S>, b: map<K, S>, k: K)
    requires Lawful(o)
    ensures Get(o, MergeTables(o, a, b), k) == o.merge(Get(o, a, k), Get(o, b, k))
  {
  }

  /** Accumulating into one of two tables accumulates into their merge. */
  lemma AccumulateInMerge<K, S(!new)>(o: Ops<S>, a: map<K, S>, b: map<K, S>, k: K, s: S)
    requires Lawful(o)
    ensures MergeTables(o, a, Accumulate(o, b, k, s)) == Accumulate(o, MergeTables(o, a, b), k, s)
    ensures MergeTables(o, Accumulate(o, a, k, s), b) == Accumulate(o, MergeTables(o, a, b), k, s)
  {
    hide Lawful;
    var m := MergeTables(o, a, b);
    MergeTablesGet(o, a, b, k);
    MergeSwap(o, Get(o, a, k), Get(o, b, k), s);
    assert MergeTables(o, a, Accumulate(o, b, k, s)).Keys == Accumulate(o, m, k, s).Keys;
    assert MergeTables(o, Accumulate(o, a, k, s), b).Keys == Accumulate(o, m, k, s).Keys;
  }

  lemma MergeSwap<S(!new)>(o: Ops<S>, x: S, y: S, s: S)
    requires Lawful(o)
    ensures o.merge(x, o.merge(y, s)) == o.merge(o.merge(x, y), s)
    ensures o.merge(o.merge(x, s), y) == o.merge(o.merge(x, y), s)
  {
    assert o.merge(o.merge(x, s), y) == o.merge(x, o.merge(s, y));
  }

  /** Accumulating into any one of the tables accumulates into the merge of all of them. */
  lemma {:induction false} AccumulateInMergeAll<K, S(!new)>(o: Ops<S>, tables: seq<map<K, S>>, i: nat, k: K, s: S)
    requires Lawful(o) && i < |tables|
    ensures MergeAll(o, tables[i := Accumulate(o, tables[i], k, s)]) == Accumulate(o, MergeAll(o, tables), k, s)
  {
    hide Lawful, Accumulate, MergeTables;
    var n := |tables| - 1;
    var init, r := tables[..n], Accumulate(o, tables[i], k, s);
    if i == n {
      assert tables[i := r][..n] == init;
    } else {
      assert tables[i := r][..n] == init[i := r];
      AccumulateInMergeAll(o, init, i, k, s);
    }
    AccumulateInMerge(o, MergeAll(o, init), tables[n], k, s);
  }

  // ----- a table from a sequence of entries -----

  function TableOf<K, S>(o: Ops<S>, entries: seq<(K, S)>): map<K, S> {
    if entries == [] then map[]
    else
      var e := entries[|entries| - 1];
      Accumulate(o, TableOf(o, entries[..|entries| - 1]), e.0, e.1)
  }

  lemma TableNext<K, S>(o: Ops<S>, entries: seq<(K, S)>, e: (K, S), k: K)
    ensures TableOf(o, entries + [e]) == Accumulate(o, TableOf(o, entries), e.0, e.1)
    ensures Get(o, TableOf(o, entries + [e]), k) ==
      if k == e.0 then o.merge(Get(o, TableOf(o, entries), k), e.1) else Get(o, TableOf(o, entries), k)
  {
    assert (entries + [e])[..|entries|] == entries;
  }

  /** The entries of a trace that go to table `i`. */
  function Part<K, S>(trace: seq<(nat, (K, S))>, i: nat): seq<(K, S)> {
    if trace == [] then []
    else
      var e := trace[|trace| - 1];
      Part(trace[..|trace| - 1], i) + if e.0 == i then [e.1] else []
  }

  /** All entries of a trace, whichever table they go to. */
  function Whole<K, S>(trace: seq<(nat, (K, S))>): seq<(K, S)> {
    if trace == [] then [] else Whole(trace[..|trace| - 1]) + [trace[|trace| - 1].1]
  }

  function PartTables<K, S>(o: Ops<S>, trace: seq<(nat, (K, S))>, n: nat): (t: seq<map<K, S>>)
    ensures |t| == n && forall i :: 0 <= i < n ==> t[i] == TableOf(o, Part(trace, i))
  {
    seq(n, i requires 0 <= i < n => TableOf(o, Part(trace, i)))
  }

  lemma {:induction false} EmptyTables<K, S>(o: Ops<S>, n: nat)
    ensures MergeAll(o, PartTables<K, S>(o, [], n)) == map[]
  {
    if n > 0 {
      EmptyTables<K, S>(o, n - 1);
      assert PartTables<K, S>(o, [], n)[..n - 1] == PartTables(o, [], n - 1);
    }
  }

  lemma PartNext<K, S>(trace: seq<(nat, (K, S))>, e: (nat, (K, S)), i: nat)
    ensures Part(trace + [e], i) == if e.0 == i then Part(trace, i) + [e.1] else Part(trace, i)
    ensures Whole(trace + [e]) == Whole(trace) + [e.1]
  {
    assert (trace + [e])[..|trace|] == trace;
  }

  /** One more entry accumulates into its own table and leaves the others. */
  lemma PartTablesNext<K, S>(o: Ops<S>, trace: seq<(nat, (K, S))>, e: (nat, (K, S)), n: nat)
    requires e.0 < n
    ensures PartTables(o, trace + [e], n) ==
      PartTables(o, trace, n)[e.0 := Accumulate(o, PartTables(o, trace, n)[e.0], e.1.0, e.1.1)]
  {
    hide Accumulate, TableOf, Part, Whole;
    forall i: nat | i < n
      ensures PartTables(o, trace + [e], n)[i] == if i == e.0 then
        Accumulate(o, PartTables(o, trace, n)[i], e.1.0, e.1.1) else PartTables(o, trace, n)[i]
    {
      PartNext(trace, e, i);
      TableNext(o, Part(trace, i), e.1, e.1.0);
    }
  }

  /** However a trace is split over `n` tables, merging them gives the table of the whole trace. */
  lemma {:induction false} SplitIndependence<K, S(!new)>(o: Ops<S>, trace: seq<(nat, (K, S))>, n: nat)
    requires Lawful(o) && forall j :: 0 <= j < |trace| ==> trace[j].0 < n
    ensures MergeAll(o, PartTables(o, trace, n)) == TableOf(o, Whole(trace))
  {
    if trace == [] {
      EmptyTables<K, S>(o, n);
    } else {
      hide Lawful, Accumulate, MergeAll, TableOf, PartTables, Part, Whole;
      var init, e := trace[..|trace| - 1], trace[|trace| - 1];
      assert trace == init + [e];
      SplitIndependence(o, init, n);
      PartTablesNext(o, init, e, n);
      AccumulateInMergeAll(o, PartTables(o, init, n), e.0, e.1.0, e.1.1);
      PartNext(init, e, e.0);
      TableNext(o, Whole(init), e.1, e.1.0);
    }
  }

  // ----- adding the entries of one table to another, one by one -----

  function AccumulateAll<K, S>(o: Ops<S>, t: map<K, S>, entries: seq<(K, S)>): map<K, S> {
    if entries == [] then t
    else
      var e := entries[|entries| - 1];
      Accumulate(o, AccumulateAll(o, t, entries[..|entries| - 1]), e.0, e.1)
  }

  lemma AccumulateNext<K, S>(o: Ops<S>, t: map<K, S>, e: seq<(K, S)>, i: nat)
    requires i < |e|
    ensures AccumulateAll(o, t, e[..i + 1]) == Accumulate(o, AccumulateAll(o, t, e[..i]), e[i].0, e[i].1)
  {
    assert e[..i + 1][..i] == e[..i];
  }

  lemma EmptyPrefix<K, S>(o: Ops<S>, t: map<K, S>, e: seq<(K, S)>)
    ensures AccumulateAll(o, t, e[..0]) == t
  {
  }

  lemma {:induction false} AccumulateAllMerges<K, S(!new)>(o: Ops<S>, t: map<K, S>, entries: seq<(K, S)>)
    requires Lawful(o)
    ensures AccumulateAll(o, t, entries) == MergeTables(o, t, TableOf(o, entries))
  {
    if entries == [] {
      MergeTablesCommute(o, t, map[]);
    } else {
      var n := |entries| - 1;
      AccumulateAllMerges(o, t, entries[..n]);
      AccumulateInMerge(o, t, TableOf(o, entries[..n]), entries[n].0, entries[n].1);
    }
  }

  lemma {:induction false} TableFromNothing<K, S>(o: Ops<S>, entries: seq<(K, S)>)
    ensures AccumulateAll(o, map[], entries) == TableOf(o, entries)
  {
    if entries != [] { TableFromNothing(o, entries[..|entries| - 1]); }
  }

  /** The entries are those of the table, each once, in some order. */
  ghost predicate Lists<K, S>(entries: seq<(K, S)>, t: map<K, S>) {
    && |entries| == |t|
    && (forall i :: 0 <= i < |entries| ==> entries[i].0 in t && t[entries[i].0] == entries[i].1)
    && (forall i, j :: 0 <= i < j < |entries| ==> entries[i].0 != entries[j].0)
  }

  ghost predicate IsKey<K, S>(e: seq<(K, S)>, k: K) {
    exists i :: 0 <= i < |e| && e[i].0 == k
  }

  lemma {:induction false} DistinctTable<K, S(!new)>(o: Ops<S>, e: seq<(K, S)>, t: map<K, S>)
    requires Lawful(o)
    requires forall i :: 0 <= i < |e| ==> e[i].0 in t && t[e[i].0] == e[i].1
    requires forall i, j :: 0 <= i < j < |e| ==> e[i].0 != e[j].0
    ensures |TableOf(o, e)| == |e|
    ensures forall k :: k in TableOf(o, e) ==> IsKey(e, k) && k in t && TableOf(o, e)[k] == t[k]
  {
    hide Lawful;
    if e != [] {
      var n := |e| - 1;
      var u := TableOf(o, e[..n]);
      DistinctTable(o, e[..n], t);
      LastIsNew(e);
      NoneAdds(o, e[n].1);
      assert u[e[n].0 := e[n].1].Keys == u.Keys + {e[n].0};
      forall k | k in u ensures IsKey(e, k) {
        var i :| 0 <= i < n && e[..n][i].0 == k;
        assert e[i].0 == k;
      }
    }
  }

  lemma NoneAdds<S(!new)>(o: Ops<S>, a: S)
    requires Lawful(o)
    ensures o.merge(o.none, a) == a
  {
  }

  lemma LastIsNew<K, S>(e: seq<(K, S)>)
    requires e != [] && forall i, j :: 0 <= i < j < |e| ==> e[i].0 != e[j].0
    ensures !IsKey(e[..|e| - 1], e[|e| - 1].0)
  {
  }

  lemma SameSize<K>(a: set<K>, b: set<K>)
    requires a <= b && |a| == |b|
    ensures a == b
  {
    var d := b - a;
    assert a + d == b && |d| == 0;
  }

  /** A table is what its listed entries add up to. */
  lemma ListingIsTable<K, S(!new)>(o: Ops<S>, e: seq<(K, S)>, t: map<K, S>)
    requires Lawful(o) && Lists(e, t)
    ensures TableOf(o, e) == t
  {
    hide Lawful;
    DistinctTable(o, e, t);
    SameSize(TableOf(o, e).Keys, t.Keys);
  }

  // ----- order independence -----

  lemma {:induction false} TableOfConcat<K, S(!new)>(o: Ops<S>, a: seq<(K, S)>, b: seq<(K, S)>)
    requires Lawful(o)
    ensures TableOf(o, a + b) == MergeTables(o, TableOf(o, a), TableOf(o, b))
  {
    if b == [] {
      assert a + b == a;
      MergeTablesCommute(o, TableOf(o, a), map[]);
    } else {
      var n := |b| - 1;
      assert (a + b)[..|a + b| - 1] == a + b[..n];
      TableOfConcat(o, a, b[..n]);
      AccumulateInMerge(o, TableOf(o, a), TableOf(o, b[..n]), b[n].0, b[n].1);
    }
  }

  /** An entry can be moved to the end. */
  lemma MoveToEnd<K, S(!new)>(o: Ops<S>, a: seq<(K, S)>, e: (K, S), b: seq<(K, S)>)
    requires Lawful(o)
    ensures TableOf(o, a + [e] + b) == Accumulate(o, TableOf(o, a + b), e.0, e.1)
  {
    TableOfConcat(o, a + [e], b);
    TableOfConcat(o, a, b);
    assert (a + [e])[..|a|] == a;
    AccumulateInMerge(o, TableOf(o, a), TableOf(o, b), e.0, e.1);
  }

  lemma WithOne<E>(b: seq<E>, i: nat)
    requires i < |b|
    ensures b == b[..i] + [b[i]] + b[i + 1..]
    ensures multiset(b) == multiset(b[..i] + b[i + 1..]) + multiset{b[i]}
  {
    assert b == b[..i] + [b[i]] + b[i + 1..];
    assert multiset(b) == multiset(b[..i]) + multiset{b[i]} + multiset(b[i + 1..]);
  }

  lemma WithLast<E>(b: seq<E>)
    requires b != []
    ensures multiset(b) == multiset(b[..|b| - 1]) + multiset{b[|b| - 1]}
  {
    assert b == b[..|b| - 1] + [b[|b| - 1]];
  }

  lemma CancelOne<E>(s: multiset<E>, t: multiset<E>, e: E)
    requires s + multiset{e} == t + multiset{e}
    ensures s == t
  {
    assert (s + multiset{e}) - multiset{e} == s;
    assert (t + multiset{e}) - multiset{e} == t;
  }

  /** The last element of one sequence has a place in every permutation of it; without it both are permutations
      again. */
  lemma TakeOut<E>(a: seq<E>, b: seq<E>) returns (x: seq<E>, y: seq<E>)
    requires a != [] && multiset(a) == multiset(b)
    ensures b == x + [a[|a| - 1]] + y && multiset(a[..|a| - 1]) == multiset(x + y)
  {
    var init, e := a[..|a| - 1], a[|a| - 1];
    WithLast(a);
    assert e in multiset(b);
    var i :| 0 <= i < |b| && b[i] == e;
    WithOne(b, i);
    x, y := b[..i], b[i + 1..];
    CancelOne(multiset(init), multiset(x + y), e);
  }

  /** The table of a sequence of entries depends only on which entries there are, not on their order. */
  lemma {:induction false} OrderIndependence<K, S(!new)>(o: Ops<S>, a: seq<(K, S)>, b: seq<(K, S)>)
    requires Lawful(o) && multiset(a) == multiset(b)
    ensures TableOf(o, a) == TableOf(o, b)
  {
    if a == [] {
      assert |multiset(b)| == 0;
    } else {
      hide Lawful, TableOf;
      var init, e := a[..|a| - 1], a[|a| - 1];
      var x, y := TakeOut(a, b);
      OrderIndependence(o, init, x + y);
      MoveToEnd(o, x, e, y);
      assert a == init + [e];
      TableNext(o, init, e, e.0);
      TableNext(o, x + y, e, e.0);
    }
  }

  // ----- other names for the keys -----

  lemma {:induction false} TableKeys<K, S>(o: Ops<S>, e: seq<(K, S)>, k: K)
    ensures k in TableOf(o, e) <==> IsKey(e, k)
  {
    if e != [] {
      var n := |e| - 1;
      TableKeys(o, e[..n], k);
      assert IsKey(e[..n], k) ==> IsKey(e, k);
      if IsKey(e, k) && k != e[n].0 {
        var i :| 0 <= i < |e| && e[i].0 == k;
        assert e[..n][i].0 == k;
      }
    }
  }

  /** The same values under two namings of the keys that tell the same keys apart. */
  ghost predicate Renames<K, L, S>(a: seq<(K, S)>, b: seq<(L, S)>) {
    && |a| == |b|
    && (forall i :: 0 <= i < |a| ==> a[i].1 == b[i].1)
    && (forall i, j :: 0 <= i < |a| && 0 <= j < |a| ==> (a[i].0 == a[j].0 <==> b[i].0 == b[j].0))
  }

  lemma RenamesGet<K, L, S>(o: Ops<S>, a: seq<(K, S)>, b: seq<(L, S)>, n: nat)
    requires Renames(a, b) && n < |a|
    requires forall i :: 0 <= i < n ==> Get(o, TableOf(o, a[..n]), a[i].0) == Get(o, TableOf(o, b[..n]), b[i].0)
    ensures Get(o, TableOf(o, a[..n]), a[n].0) == Get(o, TableOf(o, b[..n]), b[n].0)
  {
    TableKeys(o, a[..n], a[n].0);
    TableKeys(o, b[..n], b[n].0);
    KnownInBoth(a, b, n);
    KnownInBoth(b, a, n);
    if IsKey(a[..n], a[n].0) {
      var i :| 0 <= i < n && a[..n][i].0 == a[n].0;
      assert a[i].0 == a[n].0;
    }
  }

  lemma KnownInBoth<K, L, S>(a: seq<(K, S)>, b: seq<(L, S)>, n: nat)
    requires Renames(a, b) && n < |a|
    ensures IsKey(a[..n], a[n].0) ==> IsKey(b[..n], b[n].0)
  {
    if IsKey(a[..n], a[n].0) {
      var i :| 0 <= i < n && a[..n][i].0 == a[n].0;
      assert a[i].0 == a[n].0 && b[..n][i].0 == b[i].0;
    }
  }

  /** Renamed entries add up to the renamed table. */
  lemma {:induction false} RenamedTable<K, L, S>(o: Ops<S>, a: seq<(K, S)>, b: seq<(L, S)>, n: nat)
    requires Renames(a, b) && n <= |a|
    ensures forall i :: 0 <= i < n ==> Get(o, TableOf(o, a[..n]), a[i].0) == Get(o, TableOf(o, b[..n]), b[i].0)
  {
    if n > 0 {
      RenamedTable(o, a, b, n - 1);
      RenamesGet(o, a, b, n - 1);
      assert a[..n][..n - 1] == a[..n - 1] && b[..n][..n - 1] == b[..n - 1];
    }
  }

  // ----- coarser keys -----

  function Rekeyed<K, L, S>(e: seq<(K, S)>, f: K -> L): (r: seq<(L, S)>)
    ensures |r| == |e| && forall i :: 0 <= i < |r| ==> r[i] == (f(e[i].0), e[i].1)
  {
    seq(|e|, i requires 0 <= i < |e| => (f(e[i].0), e[i].1))
  }

  lemma RekeyedAround<K, L, S>(x: seq<(K, S)>, e: (K, S), y: seq<(K, S)>, f: K -> L)
    ensures Rekeyed(x + [e] + y, f) == Rekeyed(x, f) + [(f(e.0), e.1)] + Rekeyed(y, f)
    ensures Rekeyed(x + y, f) == Rekeyed(x, f) + Rekeyed(y, f)
  {
  }

  /** A table of coarser keys, with one entry taken out of the middle. */
  lemma RekeyedTable<K, L, S(!new)>(o: Ops<S>, x: seq<(K, S)>, e: (K, S), y: seq<(K, S)>, f: K -> L)
    requires Lawful(o)
    ensures TableOf(o, Rekeyed(x + [e] + y, f)) == Accumulate(o, TableOf(o, Rekeyed(x + y, f)), f(e.0), e.1)
  {
    hide Lawful;
    RekeyedAround(x, e, y, f);
    MoveToEnd(o, Rekeyed(x, f), (f(e.0), e.1), Rekeyed(y, f));
  }

  lemma AccumulateTwice<K, S(!new)>(o: Ops<S>, t: map<K, S>, k: K, a: S, b: S)
    requires Lawful(o)
    ensures Accumulate(o, Accumulate(o, t, k, a), k, b) == Accumulate(o, t, k, o.merge(a, b))
  {
    var g := Get(o, t, k);
    assert o.merge(o.merge(g, a), b) == o.merge(g, o.merge(a, b));
  }

  /** Where a listing of a table has a key. */
  lemma PlaceOf<K, S(!new)>(o: Ops<S>, l: seq<(K, S)>, t: map<K, S>, k: K) returns (i: nat)
    requires Lawful(o) && Lists(l, t) && k in t
    ensures i < |l| && l[i] == (k, t[k])
  {
    hide Lawful;
    ListingIsTable(o, l, t);
    TableKeys(o, l, k);
    i :| 0 <= i < |l| && l[i].0 == k;
  }

  /** A listing with the value of one key set back. */
  lemma ListsBefore<K, S>(l: seq<(K, S)>, i: nat, t: map<K, S>, k: K, s: S)
    requires i < |l| && l[i].0 == k && Lists(l, t[k := s]) && k in t
    ensures Lists(l[..i] + [(k, t[k])] + l[i + 1..], t)
  {
    SameDomain(t, k, s);
    var m := l[i := (k, t[k])];
    assert m == l[..i] + [(k, t[k])] + l[i + 1..];
  }

  lemma SameDomain<K, S>(t: map<K, S>, k: K, s: S)
    requires k in t
    ensures |t[k := s]| == |t|
  {
    assert t[k := s].Keys == t.Keys;
    assert |t| == |t.Keys| && |t[k := s]| == |t[k := s].Keys|;
  }

  lemma DropOne<K, S>(l: seq<(K, S)>, i: nat)
    requires i < |l| && forall j, n :: 0 <= j < n < |l| ==> l[j].0 != l[n].0
    ensures var m := l[..i] + l[i + 1..];
      && |m| == |l| - 1 && (forall j :: 0 <= j < |m| ==> m[j] in l && m[j].0 != l[i].0)
      && (forall j, n :: 0 <= j < n < |m| ==> m[j].0 != m[n].0)
  {
    var m := l[..i] + l[i + 1..];
    assert forall j :: 0 <= j < |m| ==> m[j] == l[if j < i then j else j + 1];
  }

  lemma OneMore<K, S>(t: map<K, S>, k: K, s: S)
    requires k !in t
    ensures |t[k := s]| == |t| + 1
  {
    assert t[k := s].Keys == t.Keys + {k};
    assert |t| == |t.Keys| && |t[k := s]| == |t[k := s].Keys|;
  }

  /** A listing without one key. */
  lemma ListsWithout<K, S>(l: seq<(K, S)>, i: nat, t: map<K, S>, k: K, s: S)
    requires i < |l| && l[i].0 == k && Lists(l, t[k := s]) && k !in t
    ensures Lists(l[..i] + l[i + 1..], t)
  {
    OneMore(t, k, s);
    DropOne(l, i);
    forall p | p in l && p.0 != k ensures p.0 in t && t[p.0] == p.1 {
    }
  }

  /** Adding up the entries of a table under coarser keys, in whatever order they are listed, gives what the original
      entries add up to under those keys. */
  lemma {:induction false} Regroup<K, L, S(!new)>(o: Ops<S>, e: seq<(K, S)>, l: seq<(K, S)>, f: K -> L)
    requires Lawful(o) && Lists(l, TableOf(o, e))
    ensures TableOf(o, Rekeyed(l, f)) == TableOf(o, Rekeyed(e, f))
    decreases |e|
  {
    if e == [] {
      assert Rekeyed(l, f) == [] && Rekeyed(e, f) == [];
    } else {
      hide Lawful, Lists, Accumulate;
      var n := |e| - 1;
      var init, k, s := e[..n], e[n].0, e[n].1;
      var t := TableOf(o, init);
      var v := o.merge(Get(o, t, k), s);
      assert TableOf(o, e) == t[k := v] by { LastEntry(o, e); }
      var i := PlaceOf(o, l, TableOf(o, e), k);
      var x, y := l[..i], l[i + 1..];
      assert l == x + [(k, v)] + y;
      assert e == init + [(k, s)] + [] && init + [] == init;
      RekeyedTable(o, x, (k, v), y, f);
      RekeyedTable(o, init, (k, s), [], f);
      if k in t {
        ListsBefore(l, i, t, k, v);
        Regroup(o, init, x + [(k, t[k])] + y, f);
        RekeyedTable(o, x, (k, t[k]), y, f);
        AccumulateTwice(o, TableOf(o, Rekeyed(x + y, f)), f(k), t[k], s);
      } else {
        ListsWithout(l, i, t, k, v);
        Regroup(o, init, x + y, f);
        NoneAdds(o, s);
      }
    }
  }

  lemma LastEntry<K, S>(o: Ops<S>, e: seq<(K, S)>)
    requires e != []
    ensures var t := TableOf(o, e[..|e| - 1]);
      TableOf(o, e) == t[e[|e| - 1].0 := o.merge(Get(o, t, e[|e| - 1].0), e[|e| - 1].1)]
  {
  }

  // ----- sums over a table -----

  /** A measure that merging adds up. */
  ghost predicate Additive<S(!new)>(o: Ops<S>, f: S -> real) {
    f(o.none) == 0.0 && forall a: S, b: S :: f(o.merge(a, b)) == f(a) + f(b)
  }

  ghost function Sum<K, S>(f: S -> real, t: map<K, S>): real {
    if t == map[] then 0.0
    else
      var k :| k in t;
      f(t[k]) + Sum(f, t - {k})
  }

  lemma {:induction false} SumRemove<K, S>(f: S -> real, t: map<K, S>, k: K)
    requires k in t
    ensures Sum(f, t) == f(t[k]) + Sum(f, t - {k})
    decreases |t|
  {
    var j :| j in t && Sum(f, t) == f(t[j]) + Sum(f, t - {j});
    if j != k {
      SumRemove(f, t - {j}, k);
      SumRemove(f, t - {k}, j);
      assert t - {j} - {k} == t - {k} - {j};
    }
  }

  lemma SumSet<K, S>(f: S -> real, t: map<K, S>, k: K, s: S)
    ensures Sum(f, t[k := s]) == f(s) + Sum(f, t - {k})
    ensures Sum(f, t) == (if k in t then f(t[k]) else 0.0) + Sum(f, t - {k})
  {
    SumRemove(f, t[k := s], k);
    assert t[k := s] - {k} == t - {k};
    if k in t { SumRemove(f, t, k); } else { assert t - {k} == t; }
  }

  lemma SumAccumulate<K, S(!new)>(o: Ops<S>, f: S -> real, t: map<K, S>, k: K, s: S)
    requires Additive(o, f)
    ensures Sum(f, Accumulate(o, t, k, s)) == Sum(f, t) + f(s)
  {
    SumSet(f, t, k, o.merge(Get(o, t, k), s));
  }

  function SumEntries<K, S>(f: S -> real, e: seq<(K, S)>): real {
    if e == [] then 0.0 else SumEntries(f, e[..|e| - 1]) + f(e[|e| - 1].1)
  }

  /** Nothing is lost: an additive measure of the table is its measure of the entries. */
  lemma {:induction false} SumTableOf<K, S(!new)>(o: Ops<S>, f: S -> real, e: seq<(K, S)>)
    requires Additive(o, f)
    ensures Sum(f, TableOf(o, e)) == SumEntries(f, e)
  {
    if e != [] {
      var n := |e| - 1;
      SumTableOf(o, f, e[..n]);
      SumAccumulate(o, f, TableOf(o, e[..n]), e[n].0, e[n].1);
    }
  }
}
