/** What a chained hash table holds, bucket by bucket, and the finite map it stands for. */
module HashSpecs {
  import opened Options

  /** The functions a table is opened with.  They look at the key part of an element only. */
  datatype Config<!V, !K> = Config(keyOf: V -> K, hf: K -> nat, hc: (K, K) -> int)

  /** The comparator is an equivalence, and equal keys hash alike. */
  ghost predicate Consistent<V, K(!new)>(cfg: Config<V, K>) {
    && (forall a: K :: cfg.hc(a, a) == 0)
    && (forall a: K, b: K :: cfg.hc(a, b) == 0 ==> cfg.hc(b, a) == 0 && cfg.hf(a) == cfg.hf(b))
    && (forall a: K, b: K, c: K :: cfg.hc(a, b) == 0 && cfg.hc(b, c) == 0 ==> cfg.hc(a, c) == 0)
  }

  /** The first element of a chain equal to the key, or the length of the chain. */
  function IndexIn<V, K>(cfg: Config<V, K>, chain: seq<V>, key: K): (i: nat)
    ensures i <= |chain|
    ensures i < |chain| ==> cfg.hc(cfg.keyOf(chain[i]), key) == 0
    ensures forall j :: 0 <= j < i ==> cfg.hc(cfg.keyOf(chain[j]), key) != 0
  {
    if chain == [] || cfg.hc(cfg.keyOf(chain[0]), key) == 0 then 0 else 1 + IndexIn(cfg, chain[1..], key)
  }

  /** The first element of a chain equal to the key. */
  ghost predicate IsFirst<V, K>(cfg: Config<V, K>, chain: seq<V>, key: K, i: int) {
    && 0 <= i < |chain| && cfg.hc(cfg.keyOf(chain[i]), key) == 0
    && forall j :: 0 <= j < i ==> cfg.hc(cfg.keyOf(chain[j]), key) != 0
  }

  function Slot<V, K>(cfg: Config<V, K>, size: nat, key: K): (i: nat)
    requires size > 0
    ensures i < size
  {
    cfg.hf(key) % size
  }

  function Search<V, K>(cfg: Config<V, K>, b: seq<seq<V>>, key: K): Option<V>
    requires |b| > 0
  {
    var chain := b[Slot(cfg, |b|, key)];
    var i := IndexIn(cfg, chain, key);
    if i < |chain| then Some(chain[i]) else None
  }

  function Insert<V, K>(cfg: Config<V, K>, b: seq<seq<V>>, v: V): seq<seq<V>>
    requires |b| > 0
  {
    var k := Slot(cfg, |b|, cfg.keyOf(v));
    if Search(cfg, b, cfg.keyOf(v)).Some? then b else b[k := [v] + b[k]]
  }

  function Delete<V, K>(cfg: Config<V, K>, b: seq<seq<V>>, key: K): seq<seq<V>>
    requires |b| > 0
  {
    var k := Slot(cfg, |b|, key);
    var i := IndexIn(cfg, b[k], key);
    if i < |b[k]| then b[k := b[k][..i] + b[k][i + 1..]] else b
  }

  /** The elements of the first `n` buckets, in table order. */
  function Flatten<V>(b: seq<seq<V>>, n: nat): seq<V>
    requires n <= |b|
  {
    if n == 0 then [] else Flatten(b, n - 1) + b[n - 1]
  }

  function Elements<V>(b: seq<seq<V>>): seq<V> {
    Flatten(b, |b|)
  }

  /** Every element is in its own bucket and no two are equal. */
  ghost predicate WellPlaced<V, K>(cfg: Config<V, K>, b: seq<seq<V>>) {
    && |b| > 0
    && (forall k, i :: 0 <= k < |b| && 0 <= i < |b[k]| ==> Slot(cfg, |b|, cfg.keyOf(b[k][i])) == k)
    && (forall k, i, j :: 0 <= k < |b| && 0 <= i < j < |b[k]| ==>
          cfg.hc(cfg.keyOf(b[k][i]), cfg.keyOf(b[k][j])) != 0)
  }

  /** `v` is stored. */
  ghost predicate Stored<V>(b: seq<seq<V>>, v: V) {
    exists k, i :: 0 <= k < |b| && 0 <= i < |b[k]| && b[k][i] == v
  }

  // ----- multiset of elements -----

  lemma Concat<V>(a: seq<V>, c: seq<V>)
    ensures multiset(a + c) == multiset(a) + multiset(c)
  {
  }

  lemma Reorder<V>(x: multiset<V>, y: multiset<V>, u: multiset<V>, v: multiset<V>, z: multiset<V>)
    requires x + u == y + v
    ensures (x + z) + u == (y + z) + v
  {
    assert (x + z) + u == (x + u) + z && (y + z) + v == (y + v) + z;
  }

  lemma {:induction false} FlattenUpdate<V>(b: seq<seq<V>>, k: nat, chain: seq<V>, n: nat)
    requires k < |b| && n <= |b|
    ensures k >= n ==> Flatten(b[k := chain], n) == Flatten(b, n)
    ensures k < n ==> multiset(Flatten(b[k := chain], n)) + multiset(b[k]) == multiset(Flatten(b, n)) + multiset(chain)
  {
    if n > 0 {
      var d := b[k := chain];
      FlattenUpdate(b, k, chain, n - 1);
      Concat(Flatten(d, n - 1), d[n - 1]);
      Concat(Flatten(b, n - 1), b[n - 1]);
      if k < n - 1 {
        Reorder(multiset(Flatten(d, n - 1)), multiset(Flatten(b, n - 1)), multiset(b[k]), multiset(chain),
          multiset(b[n - 1]));
      }
    }
  }

  /** An insert adds exactly its element, or nothing when an equal one is stored. */
  lemma InsertElements<V, K>(cfg: Config<V, K>, b: seq<seq<V>>, v: V)
    requires |b| > 0
    ensures Search(cfg, b, cfg.keyOf(v)).None? ==>
      multiset(Elements(Insert(cfg, b, v))) == multiset(Elements(b)) + multiset{v}
  {
    var k := Slot(cfg, |b|, cfg.keyOf(v));
    FlattenUpdate(b, k, [v] + b[k], |b|);
    Concat([v], b[k]);
    Cancel(multiset(Elements(b[k := [v] + b[k]])), multiset(Elements(b)) + multiset{v}, multiset(b[k]));
  }

  lemma Cancel<V>(x: multiset<V>, y: multiset<V>, z: multiset<V>)
    requires x + z == y + z
    ensures x == y
  {
    assert x == (x + z) - z && y == (y + z) - z;
  }

  lemma TakeOut<V>(x: multiset<V>, y: multiset<V>, c: multiset<V>, whole: multiset<V>, v: multiset<V>)
    requires whole == c + v && x + whole == y + c
    ensures y == x + v
  {
    assert (x + v) + c == x + (c + v);
    Cancel(x + v, y, c);
  }

  lemma SplitAt<V>(s: seq<V>, i: nat)
    requires i < |s|
    ensures multiset(s) == multiset(s[..i] + s[i + 1..]) + multiset{s[i]}
  {
    assert s == s[..i] + [s[i]] + s[i + 1..];
  }

  /** Replacing a bucket by one with one element less. */
  lemma ReplaceBucket<V>(b: seq<seq<V>>, k: nat, chain: seq<V>, v: V)
    requires k < |b| && multiset(b[k]) == multiset(chain) + multiset{v}
    ensures multiset(Elements(b)) == multiset(Elements(b[k := chain])) + multiset{v}
  {
    FlattenUpdate(b, k, chain, |b|);
    TakeOut(multiset(Elements(b[k := chain])), multiset(Elements(b)), multiset(chain), multiset(b[k]), multiset{v});
  }

  /** A delete removes exactly the element a search would find. */
  lemma DeleteElements<V, K>(cfg: Config<V, K>, b: seq<seq<V>>, key: K)
    requires |b| > 0
    ensures Search(cfg, b, key).Some? ==>
      multiset(Elements(b)) == multiset(Elements(Delete(cfg, b, key))) + multiset{Search(cfg, b, key).value}
  {
    var k := Slot(cfg, |b|, key);
    var i := IndexIn(cfg, b[k], key);
    if i < |b[k]| {
      SplitAt(b[k], i);
      ReplaceBucket(b, k, b[k][..i] + b[k][i + 1..], b[k][i]);
    }
  }

  lemma {:induction false} FlattenStored<V>(b: seq<seq<V>>, n: nat, v: V)
    requires n <= |b|
    ensures v in Flatten(b, n) <==> exists k, i :: 0 <= k < n && 0 <= i < |b[k]| && b[k][i] == v
  {
    if n > 0 { FlattenStored(b, n - 1, v); }
  }

  lemma {:induction false} FlattenPrefix<V>(b: seq<seq<V>>, i: nat, n: nat)
    requires i <= n <= |b|
    ensures Flatten(b, i) <= Flatten(b, n)
  {
    if i < n { FlattenPrefix(b, i, n - 1); }
  }

  /** Where the elements of bucket `i` are listed. */
  lemma ElementsOfBucket<V>(b: seq<seq<V>>, i: nat)
    requires i < |b|
    ensures |Flatten(b, i + 1)| == |Flatten(b, i)| + |b[i]| <= |Elements(b)|
    ensures forall j :: 0 <= j < |b[i]| ==> Elements(b)[|Flatten(b, i)| + j] == b[i][j]
  {
    FlattenPrefix(b, i + 1, |b|);
    assert forall j :: 0 <= j < |b[i]| ==> Flatten(b, i + 1)[|Flatten(b, i)| + j] == b[i][j];
  }

  // ----- the finite map -----

  lemma InsertKeepsPlaced<V, K(!new)>(cfg: Config<V, K>, b: seq<seq<V>>, v: V)
    requires Consistent(cfg) && WellPlaced(cfg, b)
    ensures WellPlaced(cfg, Insert(cfg, b, v))
  {
  }

  lemma DeleteKeepsPlaced<V, K(!new)>(cfg: Config<V, K>, b: seq<seq<V>>, key: K)
    requires Consistent(cfg) && WellPlaced(cfg, b)
    ensures WellPlaced(cfg, Delete(cfg, b, key))
  {
    var k := Slot(cfg, |b|, key);
    var i := IndexIn(cfg, b[k], key);
    if i < |b[k]| {
      var chain, d := b[k][..i] + b[k][i + 1..], Delete(cfg, b, key);
      assert forall j :: 0 <= j < |chain| ==> chain[j] == if j < i then b[k][j] else b[k][j + 1];
    }
  }

  /** A search finds the stored element equal to the key, and there is at most one. */
  lemma SearchFinds<V, K(!new)>(cfg: Config<V, K>, b: seq<seq<V>>, key: K, v: V)
    requires Consistent(cfg) && WellPlaced(cfg, b)
    ensures Search(cfg, b, key) == Some(v) <==> Stored(b, v) && cfg.hc(cfg.keyOf(v), key) == 0
  {
    var n := Slot(cfg, |b|, key);
    var i := IndexIn(cfg, b[n], key);
    if Stored(b, v) && cfg.hc(cfg.keyOf(v), key) == 0 {
      var k, j :| 0 <= k < |b| && 0 <= j < |b[k]| && b[k][j] == v;
      assert k == n;
    }
  }

  /** After an insert, the new element is found by the keys equal to it; every other search is as before. */
  lemma SearchAfterInsert<V, K(!new)>(cfg: Config<V, K>, b: seq<seq<V>>, v: V, key: K)
    requires Consistent(cfg) && WellPlaced(cfg, b)
    ensures Search(cfg, Insert(cfg, b, v), key) ==
      if Search(cfg, b, cfg.keyOf(v)).None? && cfg.hc(cfg.keyOf(v), key) == 0 then Some(v) else Search(cfg, b, key)
  {
    var n, d := Slot(cfg, |b|, key), Insert(cfg, b, v);
    if d[n] != b[n] {
      assert d[n][1..] == b[n];
    }
  }

  /** The first element of a chain equal to the key. */
  function SearchIn<V, K>(cfg: Config<V, K>, chain: seq<V>, key: K): Option<V> {
    var i := IndexIn(cfg, chain, key);
    if i < |chain| then Some(chain[i]) else None
  }

  function DeleteIn<V, K>(cfg: Config<V, K>, chain: seq<V>, key: K): seq<V> {
    var i := IndexIn(cfg, chain, key);
    if i < |chain| then chain[..i] + chain[i + 1..] else chain
  }

  lemma {:induction false} NothingFound<V, K>(cfg: Config<V, K>, chain: seq<V>, key: K)
    requires forall j :: 0 <= j < |chain| ==> cfg.hc(cfg.keyOf(chain[j]), key) != 0
    ensures SearchIn(cfg, chain, key) == None
  {
  }

  lemma SearchFirst<V, K>(cfg: Config<V, K>, x: V, rest: seq<V>, key: K)
    ensures SearchIn(cfg, [x] + rest, key) ==
      if cfg.hc(cfg.keyOf(x), key) == 0 then Some(x) else SearchIn(cfg, rest, key)
    ensures DeleteIn(cfg, [x] + rest, key) ==
      if cfg.hc(cfg.keyOf(x), key) == 0 then rest else [x] + DeleteIn(cfg, rest, key)
  {
    assert ([x] + rest)[1..] == rest;
  }

  /** Keys equal to a common key are equal. */
  lemma EqualKeys<V, K(!new)>(cfg: Config<V, K>, a: K, b: K, c: K)
    requires Consistent(cfg)
    ensures cfg.hc(a, b) == 0 ==> (cfg.hc(c, a) == 0 <==> cfg.hc(c, b) == 0)
    ensures cfg.hc(a, b) == 0 ==> (cfg.hc(a, c) == 0 <==> cfg.hc(b, c) == 0)
  {
  }

  lemma {:induction false} SearchInDeleted<V, K>(cfg: Config<V, K>, chain: seq<V>, dead: K, key: K)
    requires forall v :: v in chain && cfg.hc(dead, key) == 0 ==>
      (cfg.hc(cfg.keyOf(v), dead) == 0 <==> cfg.hc(cfg.keyOf(v), key) == 0)
    requires forall v :: v in chain && cfg.hc(cfg.keyOf(v), dead) == 0 && cfg.hc(cfg.keyOf(v), key) == 0 ==>
      cfg.hc(dead, key) == 0
    requires forall i, j :: 0 <= i < j < |chain| ==>
      cfg.hc(cfg.keyOf(chain[i]), key) != 0 || cfg.hc(cfg.keyOf(chain[j]), key) != 0
    ensures SearchIn(cfg, DeleteIn(cfg, chain, dead), key) ==
      if cfg.hc(dead, key) == 0 then None else SearchIn(cfg, chain, key)
  {
    if chain != [] {
      var x, rest := chain[0], chain[1..];
      assert chain == [x] + rest;
      SearchFirst(cfg, x, rest, dead);
      SearchFirst(cfg, x, rest, key);
      if cfg.hc(cfg.keyOf(x), dead) == 0 {
        if cfg.hc(dead, key) == 0 { NothingFound(cfg, rest, key); }
      } else {
        SearchInDeleted(cfg, rest, dead, key);
        SearchFirst(cfg, x, DeleteIn(cfg, rest, dead), key);
      }
    }
  }

  /** After a delete, the keys equal to the deleted one find nothing; every other search is as before. */
  lemma SearchAfterDelete<V, K(!new)>(cfg: Config<V, K>, b: seq<seq<V>>, dead: K, key: K)
    requires Consistent(cfg) && WellPlaced(cfg, b)
    ensures Search(cfg, Delete(cfg, b, dead), key) ==
      if cfg.hc(dead, key) == 0 then None else Search(cfg, b, key)
  {
    var chain := b[Slot(cfg, |b|, dead)];
    forall v ensures cfg.hc(dead, key) == 0 ==> (cfg.hc(cfg.keyOf(v), dead) == 0 <==> cfg.hc(cfg.keyOf(v), key) == 0)
      ensures cfg.hc(cfg.keyOf(v), dead) == 0 && cfg.hc(cfg.keyOf(v), key) == 0 ==> cfg.hc(dead, key) == 0
    {
      EqualKeys(cfg, dead, key, cfg.keyOf(v));
      EqualKeys(cfg, cfg.keyOf(v), dead, key);
    }
    forall i, j | 0 <= i < j < |chain|
      ensures cfg.hc(cfg.keyOf(chain[i]), key) != 0 || cfg.hc(cfg.keyOf(chain[j]), key) != 0
    {
      EqualKeys(cfg, cfg.keyOf(chain[i]), key, cfg.keyOf(chain[j]));
    }
    SearchInDeleted(cfg, chain, dead, key);
  }

  // ----- comparators that tell all keys apart -----

  ghost predicate Exact<V, K(!new)>(cfg: Config<V, K>) {
    forall a: K, b: K :: cfg.hc(a, b) == 0 <==> a == b
  }

  lemma ExactIsConsistent<V, K(!new)>(cfg: Config<V, K>)
    requires Exact(cfg)
    ensures Consistent(cfg)
  {
  }

  /** The keys of the stored elements. */
  ghost function KeysOf<V, K>(cfg: Config<V, K>, e: seq<V>): set<K> {
    set i | 0 <= i < |e| :: cfg.keyOf(e[i])
  }

  /** The map that a table with an exact comparator stands for. */
  ghost function Model<V, K(!new)>(cfg: Config<V, K>, b: seq<seq<V>>): (m: map<K, V>)
    requires Exact(cfg) && WellPlaced(cfg, b)
    ensures forall k :: k in m <==> Search(cfg, b, k).Some?
    ensures forall k :: k in m ==> Search(cfg, b, k) == Some(m[k]) && cfg.keyOf(m[k]) == k
  {
    ExactIsConsistent(cfg);
    forall k ensures k in KeysOf(cfg, Elements(b)) <==> Search(cfg, b, k).Some? {
      KeyIsFound(cfg, b, k);
    }
    map k | k in KeysOf(cfg, Elements(b)) :: Search(cfg, b, k).value
  }

  lemma KeyIsFound<V, K(!new)>(cfg: Config<V, K>, b: seq<seq<V>>, key: K)
    requires Exact(cfg) && WellPlaced(cfg, b)
    ensures key in KeysOf(cfg, Elements(b)) <==> Search(cfg, b, key).Some?
  {
    ExactIsConsistent(cfg);
    var e := Elements(b);
    if key in KeysOf(cfg, e) {
      var i :| 0 <= i < |e| && cfg.keyOf(e[i]) == key;
      FlattenStored(b, |b|, e[i]);
      SearchFinds(cfg, b, key, e[i]);
    }
    if Search(cfg, b, key).Some? {
      var v := Search(cfg, b, key).value;
      SearchFinds(cfg, b, key, v);
      FlattenStored(b, |b|, v);
    }
  }

  lemma ModelInsert<V, K(!new)>(cfg: Config<V, K>, b: seq<seq<V>>, v: V)
    requires Exact(cfg) && WellPlaced(cfg, b) && cfg.keyOf(v) !in Model(cfg, b)
    ensures WellPlaced(cfg, Insert(cfg, b, v)) && Model(cfg, Insert(cfg, b, v)) == Model(cfg, b)[cfg.keyOf(v) := v]
  {
    ExactIsConsistent(cfg);
    InsertKeepsPlaced(cfg, b, v);
    forall k ensures Search(cfg, Insert(cfg, b, v), k) == if k == cfg.keyOf(v) then Some(v) else Search(cfg, b, k) {
      SearchAfterInsert(cfg, b, v, k);
    }
  }

  lemma ModelDelete<V, K(!new)>(cfg: Config<V, K>, b: seq<seq<V>>, key: K)
    requires Exact(cfg) && WellPlaced(cfg, b)
    ensures WellPlaced(cfg, Delete(cfg, b, key)) && Model(cfg, Delete(cfg, b, key)) == Model(cfg, b) - {key}
  {
    ExactIsConsistent(cfg);
    DeleteKeepsPlaced(cfg, b, key);
    forall k ensures Search(cfg, Delete(cfg, b, key), k) == if k == key then None else Search(cfg, b, k) {
      SearchAfterDelete(cfg, b, key, k);
    }
  }

  /** No two elements have the same key. */
  ghost predicate DistinctKeys<V, K>(cfg: Config<V, K>, e: seq<V>) {
    forall i, j :: 0 <= i < j < |e| ==> cfg.keyOf(e[i]) != cfg.keyOf(e[j])
  }

  /** The listed elements of the first `n` buckets belong there, and no two have the same key. */
  lemma {:induction false} FlattenDistinct<V, K(!new)>(cfg: Config<V, K>, b: seq<seq<V>>, n: nat)
    requires Exact(cfg) && WellPlaced(cfg, b) && n <= |b|
    ensures DistinctKeys(cfg, Flatten(b, n))
    ensures forall v :: v in Flatten(b, n) ==> Slot(cfg, |b|, cfg.keyOf(v)) < n
  {
    if n > 0 {
      FlattenDistinct(cfg, b, n - 1);
      var e, f, c := Flatten(b, n), Flatten(b, n - 1), b[n - 1];
      assert e == f + c;
      forall v | v in c ensures Slot(cfg, |b|, cfg.keyOf(v)) == n - 1 {
        var i :| 0 <= i < |c| && c[i] == v;
      }
      forall i, j | 0 <= i < j < |e| ensures cfg.keyOf(e[i]) != cfg.keyOf(e[j]) {
        if i >= |f| {
          assert e[i] == c[i - |f|] && e[j] == c[j - |f|];
          assert cfg.hc(cfg.keyOf(c[i - |f|]), cfg.keyOf(c[j - |f|])) != 0;
        } else if j >= |f| {
          assert e[i] in f && e[j] in c;
        } else {
          assert e[i] == f[i] && e[j] == f[j];
        }
      }
    }
  }

  lemma {:induction false} DistinctCount<V, K>(cfg: Config<V, K>, e: seq<V>)
    requires DistinctKeys(cfg, e)
    ensures |KeysOf(cfg, e)| == |e|
  {
    if e != [] {
      var n := |e| - 1;
      DistinctCount(cfg, e[..n]);
      assert KeysOf(cfg, e) == KeysOf(cfg, e[..n]) + {cfg.keyOf(e[n])};
    }
  }

  /** The gathered elements are the values of the map, each once. */
  lemma ModelElements<V, K(!new)>(cfg: Config<V, K>, b: seq<seq<V>>)
    requires Exact(cfg) && WellPlaced(cfg, b)
    ensures var e, m := Elements(b), Model(cfg, b);
      && |e| == |m|
      && (forall i :: 0 <= i < |e| ==> cfg.keyOf(e[i]) in m && m[cfg.keyOf(e[i])] == e[i])
      && DistinctKeys(cfg, e)
  {
    var e, m := Elements(b), Model(cfg, b);
    FlattenDistinct(cfg, b, |b|);
    DistinctCount(cfg, e);
    ExactIsConsistent(cfg);
    forall i | 0 <= i < |e| ensures cfg.keyOf(e[i]) in m && m[cfg.keyOf(e[i])] == e[i] {
      FlattenStored(b, |b|, e[i]);
      SearchFinds(cfg, b, cfg.keyOf(e[i]), e[i]);
    }
    forall k ensures k in KeysOf(cfg, e) <==> k in m {
      KeyIsFound(cfg, b, k);
    }
    assert m.Keys == KeysOf(cfg, e);
  }

  // ----- whole runs -----

  datatype Op<V, K> = Inserted(v: V) | Deleted(key: K) | Drained

  function Empty<V>(size: nat): seq<seq<V>> {
    seq(size, _ => [])
  }

  function Apply<V, K>(cfg: Config<V, K>, b: seq<seq<V>>, op: Op<V, K>): (r: seq<seq<V>>)
    requires |b| > 0
    ensures |r| == |b|
  {
    match op
    case Inserted(v) => Insert(cfg, b, v)
    case Deleted(key) => Delete(cfg, b, key)
    case Drained => Empty(|b|)
  }

  function ApplyAll<V, K>(cfg: Config<V, K>, size: nat, ops: seq<Op<V, K>>): (b: seq<seq<V>>)
    requires size > 0
    ensures |b| == size
  {
    if ops == [] then Empty(size) else Apply(cfg, ApplyAll(cfg, size, ops[..|ops| - 1]), ops[|ops| - 1])
  }

  lemma {:induction false} EmptyElements<V>(size: nat, n: nat)
    requires n <= size
    ensures Flatten(Empty<V>(size), n) == []
  {
    if n > 0 { EmptyElements<V>(size, n - 1); }
  }

  /** Two tables answer every search alike and hold the same elements. */
  ghost predicate Alike<V, K(!new)>(cfg: Config<V, K>, b: seq<seq<V>>, c: seq<seq<V>>) {
    && WellPlaced(cfg, b) && WellPlaced(cfg, c)
    && (forall k: K :: Search(cfg, b, k) == Search(cfg, c, k))
    && multiset(Elements(b)) == multiset(Elements(c))
  }

  lemma EmptyAlike<V, K(!new)>(cfg: Config<V, K>, n: nat, m: nat)
    requires n > 0 && m > 0
    ensures Alike(cfg, Empty(n), Empty(m))
  {
    EmptyElements<V>(n, n);
    EmptyElements<V>(m, m);
  }

  lemma StepAlike<V, K(!new)>(cfg: Config<V, K>, b: seq<seq<V>>, c: seq<seq<V>>, op: Op<V, K>)
    requires Consistent(cfg) && Alike(cfg, b, c)
    ensures Alike(cfg, Apply(cfg, b, op), Apply(cfg, c, op))
  {
    match op
    case Inserted(v) =>
      hide Consistent, Insert, Search;
      InsertKeepsPlaced(cfg, b, v);
      InsertKeepsPlaced(cfg, c, v);
      forall k ensures Search(cfg, Insert(cfg, b, v), k) == Search(cfg, Insert(cfg, c, v), k) {
        SearchAfterInsert(cfg, b, v, k);
        SearchAfterInsert(cfg, c, v, k);
      }
      InsertedElements(cfg, b, v);
      InsertedElements(cfg, c, v);
    case Deleted(key) =>
      hide Consistent, Delete, Search;
      DeleteKeepsPlaced(cfg, b, key);
      DeleteKeepsPlaced(cfg, c, key);
      forall k ensures Search(cfg, Delete(cfg, b, key), k) == Search(cfg, Delete(cfg, c, key), k) {
        SearchAfterDelete(cfg, b, key, k);
        SearchAfterDelete(cfg, c, key, k);
      }
      DeletedElements(cfg, b, key);
      DeletedElements(cfg, c, key);
    case Drained =>
      EmptyAlike(cfg, |b|, |c|);
  }

  lemma InsertedElements<V, K>(cfg: Config<V, K>, b: seq<seq<V>>, v: V)
    requires |b| > 0
    ensures multiset(Elements(Insert(cfg, b, v))) ==
      multiset(Elements(b)) + if Search(cfg, b, cfg.keyOf(v)).None? then multiset{v} else multiset{}
  {
    InsertElements(cfg, b, v);
  }

  lemma DeletedElements<V, K>(cfg: Config<V, K>, b: seq<seq<V>>, key: K)
    requires |b| > 0
    ensures multiset(Elements(Delete(cfg, b, key))) ==
      multiset(Elements(b)) - if Search(cfg, b, key).Some? then multiset{Search(cfg, b, key).value} else multiset{}
  {
    DeleteElements(cfg, b, key);
  }

  /** Over any sequence of inserts, deletes and drains, tables of any two sizes answer every search alike and hold
      the same elements: in particular every table does as a single chain searched from its start. */
  lemma {:induction false} SizesAgree<V, K(!new)>(cfg: Config<V, K>, n: nat, m: nat, ops: seq<Op<V, K>>)
    requires Consistent(cfg) && n > 0 && m > 0
    ensures Alike(cfg, ApplyAll(cfg, n, ops), ApplyAll(cfg, m, ops))
  {
    hide Consistent, Alike;
    if ops == [] {
      EmptyAlike(cfg, n, m);
    } else {
      SizesAgree(cfg, n, m, ops[..|ops| - 1]);
      StepAlike(cfg, ApplyAll(cfg, n, ops[..|ops| - 1]), ApplyAll(cfg, m, ops[..|ops| - 1]), ops[|ops| - 1]);
    }
  }

  /** What a search for a key finds after a run, said without buckets: the latest element inserted for an equal key when
      none was there, unless a later delete or drain took it out. */
  function Latest<V, K>(cfg: Config<V, K>, ops: seq<Op<V, K>>, key: K): Option<V> {
    if ops == [] then None
    else
      var init := ops[..|ops| - 1];
      match ops[|ops| - 1]
      case Inserted(v) =>
        if cfg.hc(cfg.keyOf(v), key) == 0 && Latest(cfg, init, cfg.keyOf(v)).None? then Some(v)
        else Latest(cfg, init, key)
      case Deleted(dead) => if cfg.hc(dead, key) == 0 then None else Latest(cfg, init, key)
      case Drained => None
  }

  lemma {:induction false} RunKeepsPlaced<V, K(!new)>(cfg: Config<V, K>, size: nat, ops: seq<Op<V, K>>)
    requires Consistent(cfg) && size > 0
    ensures WellPlaced(cfg, ApplyAll(cfg, size, ops))
  {
    hide Consistent, Insert, Delete;
    if ops != [] {
      var init := ops[..|ops| - 1];
      RunKeepsPlaced(cfg, size, init);
      match ops[|ops| - 1]
      case Inserted(v) => InsertKeepsPlaced(cfg, ApplyAll(cfg, size, init), v);
      case Deleted(key) => DeleteKeepsPlaced(cfg, ApplyAll(cfg, size, init), key);
      case Drained =>
    }
  }

  /** Over any sequence of inserts, deletes and drains, with a comparator that is an equivalence and agrees with the
      hash, a table of any size answers every search as the operations themselves say. */
  lemma {:induction false} RunSearches<V, K(!new)>(cfg: Config<V, K>, size: nat, ops: seq<Op<V, K>>, key: K)
    requires Consistent(cfg) && size > 0
    ensures Search(cfg, ApplyAll(cfg, size, ops), key) == Latest(cfg, ops, key)
  {
    if ops != [] {
      hide Consistent, Insert, Delete, Search, WellPlaced;
      var init := ops[..|ops| - 1];
      var b := ApplyAll(cfg, size, init);
      RunKeepsPlaced(cfg, size, init);
      RunSearches(cfg, size, init, key);
      match ops[|ops| - 1]
      case Inserted(v) =>
        RunSearches(cfg, size, init, cfg.keyOf(v));
        SearchAfterInsert(cfg, b, v, key);
      case Deleted(dead) => SearchAfterDelete(cfg, b, dead, key);
      case Drained => EmptySearch(cfg, size, key);
    }
  }

  lemma EmptySearch<V, K>(cfg: Config<V, K>, size: nat, key: K)
    requires size > 0
    ensures Search(cfg, Empty(size), key) == None
  {
  }

  /** The elements held after a run are those that the operations leave to be found, each once. */
  lemma RunHolds<V, K(!new)>(cfg: Config<V, K>, size: nat, ops: seq<Op<V, K>>, v: V)
    requires Consistent(cfg) && size > 0
    ensures multiset(Elements(ApplyAll(cfg, size, ops)))[v] ==
      if Latest(cfg, ops, cfg.keyOf(v)) == Some(v) then 1 else 0
  {
    var b := ApplyAll(cfg, size, ops);
    RunKeepsPlaced(cfg, size, ops);
    RunSearches(cfg, size, ops, cfg.keyOf(v));
    SearchFinds(cfg, b, cfg.keyOf(v), v);
    FlattenStored(b, |b|, v);
    AtMostOnce(cfg, b, |b|, v);
  }

  lemma {:induction false} AtMostOnce<V, K(!new)>(cfg: Config<V, K>, b: seq<seq<V>>, n: nat, v: V)
    requires Consistent(cfg) && WellPlaced(cfg, b) && n <= |b|
    ensures multiset(Flatten(b, n))[v] <= if Slot(cfg, |b|, cfg.keyOf(v)) < n then 1 else 0
  {
    if n > 0 {
      AtMostOnce(cfg, b, n - 1, v);
      Concat(Flatten(b, n - 1), b[n - 1]);
      ChainOnce(cfg, b[n - 1], v);
      if v in b[n - 1] { assert Slot(cfg, |b|, cfg.keyOf(v)) == n - 1; }
    }
  }

  lemma {:induction false} ChainOnce<V, K(!new)>(cfg: Config<V, K>, chain: seq<V>, v: V)
    requires Consistent(cfg)
    requires forall i, j :: 0 <= i < j < |chain| ==> cfg.hc(cfg.keyOf(chain[i]), cfg.keyOf(chain[j])) != 0
    ensures multiset(chain)[v] <= 1
  {
    if chain != [] {
      var x, rest := chain[0], chain[1..];
      assert chain == [x] + rest;
      ChainOnce(cfg, rest, v);
      forall j | 0 <= j < |rest| ensures rest[j] != x {
        assert rest[j] == chain[j + 1];
      }
    }
  }

  /** The map that a run leaves behind. */
  ghost function MapAfter<V, K>(cfg: Config<V, K>, ops: seq<Op<V, K>>): map<K, V> {
    if ops == [] then map[]
    else
      var m := MapAfter(cfg, ops[..|ops| - 1]);
      match ops[|ops| - 1]
      case Inserted(v) => if cfg.keyOf(v) in m then m else m[cfg.keyOf(v) := v]
      case Deleted(key) => m - {key}
      case Drained => map[]
  }

  /** With a comparator that tells all keys apart, a table is a finite map. */
  lemma {:induction false} RunIsMap<V, K(!new)>(cfg: Config<V, K>, size: nat, ops: seq<Op<V, K>>)
    requires Exact(cfg) && size > 0
    ensures WellPlaced(cfg, ApplyAll(cfg, size, ops)) && Model(cfg, ApplyAll(cfg, size, ops)) == MapAfter(cfg, ops)
  {
    hide Exact, Model, Insert, Delete;
    if ops == [] {
      EmptyModel(cfg, size);
    } else {
      var init, op := ops[..|ops| - 1], ops[|ops| - 1];
      var b := ApplyAll(cfg, size, init);
      RunIsMap(cfg, size, init);
      match op
      case Inserted(v) =>
        if cfg.keyOf(v) in MapAfter(cfg, init) { KeptOut(cfg, b, v); } else { ModelInsert(cfg, b, v); }
      case Deleted(key) => ModelDelete(cfg, b, key);
      case Drained => EmptyModel(cfg, size);
    }
  }

  lemma EmptyModel<V, K(!new)>(cfg: Config<V, K>, size: nat)
    requires Exact(cfg) && size > 0
    ensures WellPlaced(cfg, Empty(size)) && Model(cfg, Empty(size)) == map[]
  {
    NothingStored(cfg, Empty(size));
  }

  lemma NothingStored<V, K(!new)>(cfg: Config<V, K>, b: seq<seq<V>>)
    requires Exact(cfg) && |b| > 0 && forall k :: 0 <= k < |b| ==> b[k] == []
    ensures WellPlaced(cfg, b) && Model(cfg, b) == map[]
  {
  }

  lemma KeptOut<V, K(!new)>(cfg: Config<V, K>, b: seq<seq<V>>, v: V)
    requires Exact(cfg) && WellPlaced(cfg, b) && cfg.keyOf(v) in Model(cfg, b)
    ensures Insert(cfg, b, v) == b
  {
  }
}
