/** The generic hash table: an array of linked chains, changed in place. */
module HashTables {
  import opened HashSpecs
  import opened Options

  class Entry<V> {
    const ptr: V
    var next: Entry?<V>
    ghost const bucket: nat  // the chain it is made for

    constructor (ptr: V, ghost bucket: nat)
      ensures this.ptr == ptr && next == null && this.bucket == bucket
    {
      this.ptr, this.bucket := ptr, bucket;
      next := null;
    }
  }

  ghost function Payloads<V>(chain: seq<Entry<V>>): (p: seq<V>)
    ensures |p| == |chain| && forall i :: 0 <= i < |p| ==> p[i] == chain[i].ptr
  {
    seq(|chain|, i requires 0 <= i < |chain| => chain[i].ptr)
  }

  ghost function BucketsOf<V>(chains: seq<seq<Entry<V>>>): (b: seq<seq<V>>)
    ensures |b| == |chains|
    ensures forall k :: 0 <= k < |b| ==> b[k] == Payloads(chains[k])
  {
    seq(|chains|, k requires 0 <= k < |chains| => Payloads(chains[k]))
  }

  ghost function At<V>(chain: seq<Entry<V>>, i: nat): Entry?<V> {
    if i < |chain| then chain[i] else null
  }

  /** `chain` is the linked chain of bucket `k` that starts at `head`, made of distinct entries of `repr`. */
  ghost predicate ChainOk<V>(chain: seq<Entry<V>>, head: Entry?<V>, k: nat, repr: set<Entry<V>>)
    reads repr
  {
    && head == At(chain, 0)
    && (forall i :: 0 <= i < |chain| ==> chain[i] in repr && chain[i].bucket == k)
    && (forall i :: 0 < i <= |chain| ==> chain[i - 1].next == At(chain, i))
    && (forall i, j :: 0 <= i < j < |chain| ==> chain[i] != chain[j])
  }

  function RemovedAt<T>(s: seq<T>, i: nat): seq<T>
    requires i < |s|
  {
    s[..i] + s[i + 1..]
  }

  class HashTable<V, K> {
    const cfg: Config<V, K>
    const table: array<Entry?<V>>
    var count: int
    ghost var chains: seq<seq<Entry<V>>>  // the entries of each bucket
    ghost var repr: set<Entry<V>>         // all entries

    /** What the buckets hold. */
    ghost function Buckets(): seq<seq<V>>
      reads this
    {
      BucketsOf(chains)
    }

    ghost predicate Shape()
      reads this, table, repr
    {
      && table.Length == |chains| && |chains| >= 2
      && forall k :: 0 <= k < |chains| ==> ChainOk(chains[k], table[k], k, repr)
    }

    ghost predicate Valid()
      reads this, table, repr
    {
      Shape() && count == |Elements(Buckets())|
    }

    constructor (size: nat, cfg: Config<V, K>)
      requires size >= 2
      ensures Valid() && this.cfg == cfg && fresh(table) && repr == {}
      ensures |Buckets()| == size && Elements(Buckets()) == [] && forall k :: 0 <= k < size ==> Buckets()[k] == []
    {
      this.cfg := cfg;
      table := new Entry?<V>[size](_ => null);
      count := 0;
      chains, repr := seq(size, _ => []), {};
      new;
      EmptyElements(Buckets(), size);
    }

    /** Opens a table; a size below 2 aborts the program, here a null result. */
    static method Open(size: int, cfg: Config<V, K>) returns (ht: HashTable?<V, K>)
      ensures ht == null <==> size < 2
      ensures ht != null ==>
        fresh(ht) && ht.Valid() && ht.cfg == cfg && |ht.Buckets()| == size && Elements(ht.Buckets()) == []
    {
      if size < 2 {
        return null;
      }
      ht := new HashTable(size, cfg);
    }

    static lemma {:induction false} EmptyElements(b: seq<seq<V>>, n: nat)
      requires n <= |b| && forall k :: 0 <= k < n ==> b[k] == []
      ensures Flatten(b, n) == []
    {
      if n > 0 { EmptyElements(b, n - 1); }
    }

    /** The first entry of the key's chain that equals the key. */
    method FindEntry(key: K) returns (het: Entry?<V>, prev: Entry?<V>, ghost i: nat)
      requires Valid()
      ensures var k := Slot(cfg, |chains|, key);
        i == IndexIn(cfg, Buckets()[k], key) && het == At(chains[k], i)
          && prev == if i == 0 then null else chains[k][i - 1]
    {
      var tableIndex := cfg.hf(key) % table.Length;
      ghost var chain, b := chains[tableIndex], Buckets()[tableIndex];
      assert ChainOk(chain, table[tableIndex], tableIndex, repr);
      het, prev, i := table[tableIndex], null, 0;
      while het != null
        invariant i <= |chain| && het == At(chain, i) && prev == if i == 0 then null else chain[i - 1]
        invariant forall j :: 0 <= j < i ==> cfg.hc(cfg.keyOf(b[j]), key) != 0
        decreases |chain| - i
      {
        if cfg.hc(cfg.keyOf(het.ptr), key) == 0 {
          break;
        }
        het, prev, i := het.next, het, i + 1;
      }
    }

    method Search(key: K) returns (ret: Option<V>)
      requires Valid()
      ensures ret == HashSpecs.Search(cfg, Buckets(), key)
      ensures var chain := Buckets()[cfg.hf(key) % |Buckets()|];
        && (ret.None? <==> forall i :: 0 <= i < |chain| ==> cfg.hc(cfg.keyOf(chain[i]), key) != 0)
        && (ret.Some? ==> exists i :: IsFirst(cfg, chain, key, i) && ret == Some(chain[i]))
    {
      var het, _, _ := FindEntry(key);
      ret := if het == null then None else Some(het.ptr);
      SearchedDelete(cfg, Buckets(), key);
    }

    /** What an insert does, in terms of the chain of its key. */
    static lemma SearchedInsert(cfg: Config<V, K>, b: seq<seq<V>>, v: V)
      requires |b| > 0
      ensures var k := cfg.hf(cfg.keyOf(v)) % |b|;
        if forall i :: 0 <= i < |b[k]| ==> cfg.hc(cfg.keyOf(b[k][i]), cfg.keyOf(v)) != 0
        then HashSpecs.Search(cfg, b, cfg.keyOf(v)).None? && HashSpecs.Insert(cfg, b, v) == b[k := [v] + b[k]]
        else HashSpecs.Search(cfg, b, cfg.keyOf(v)).Some? && HashSpecs.Insert(cfg, b, v) == b
    {
    }

    static lemma SearchedDelete(cfg: Config<V, K>, b: seq<seq<V>>, key: K)
      requires |b| > 0
      ensures var k, r, d := cfg.hf(key) % |b|, HashSpecs.Search(cfg, b, key), HashSpecs.Delete(cfg, b, key);
        if r.None? then d == b && forall i :: 0 <= i < |b[k]| ==> cfg.hc(cfg.keyOf(b[k][i]), key) != 0
        else exists i :: IsFirst(cfg, b[k], key, i) && r == Some(b[k][i]) && d == b[k := b[k][..i] + b[k][i + 1..]]
    {
      var k := cfg.hf(key) % |b|;
      var i := IndexIn(cfg, b[k], key);
      if i < |b[k]| { assert IsFirst(cfg, b[k], key, i); }
    }

    /** Links an entry in front of a chain. */
    method PushFront(het: Entry<V>, tableIndex: nat)
      requires Shape() && tableIndex < |chains| && het !in repr && het.bucket == tableIndex
      modifies this`chains, this`repr, table, het
      ensures Shape() && repr == old(repr) + {het}
      ensures chains == old(chains)[tableIndex := [het] + old(chains)[tableIndex]]
    {
      ghost var c, r := chains, repr;
      assert forall k :: 0 <= k < |c| ==> ChainOk(c[k], table[k], k, r);
      het.next := table[tableIndex];
      table[tableIndex] := het;
      chains, repr := c[tableIndex := [het] + c[tableIndex]], r + {het};
      forall k | 0 <= k < |chains| ensures ChainOk(chains[k], table[k], k, repr) {
        assert old(ChainOk(c[k], table[k], k, r));
        assert forall i :: 0 < i <= |c[k]| + 1 ==> At([het] + c[k], i) == At(c[k], i - 1);
      }
    }

    /** Links a new entry into its chain, unless its element equals a stored one. */
    method InsertEntry(het: Entry<V>) returns (rc: int)
      requires Valid() && het !in repr && het.bucket == Slot(cfg, |chains|, cfg.keyOf(het.ptr))
      modifies this, table, het
      ensures Valid() && (repr == old(repr) || repr == old(repr) + {het})
      ensures Buckets() == HashSpecs.Insert(cfg, old(Buckets()), het.ptr)
      ensures rc == if HashSpecs.Search(cfg, old(Buckets()), cfg.keyOf(het.ptr)).Some? then 1 else 0
    {
      hide ChainOk, Elements;
      ghost var c, b := chains, Buckets();
      var found, _, _ := FindEntry(cfg.keyOf(het.ptr));
      if found != null {
        return 1;
      }
      var tableIndex := cfg.hf(cfg.keyOf(het.ptr)) % table.Length;
      PushFront(het, tableIndex);
      count := count + 1;
      PushedBuckets(c, tableIndex, het);
      InsertCount(cfg, b, het.ptr);
      rc := 0;
    }

    /** Inserts an element, unless an equal one is stored: then 1 is returned and nothing changes. */
    method Insert(v: V) returns (rc: int)
      requires Valid()
      modifies this, table
      ensures Valid() && fresh(repr - old(repr)) && old(repr) <= repr
      ensures Buckets() == HashSpecs.Insert(cfg, old(Buckets()), v)
      ensures rc == if HashSpecs.Search(cfg, old(Buckets()), cfg.keyOf(v)).Some? then 1 else 0
      ensures var k := cfg.hf(cfg.keyOf(v)) % |old(Buckets())|;
        var chain := old(Buckets())[k];
        if forall i :: 0 <= i < |chain| ==> cfg.hc(cfg.keyOf(chain[i]), cfg.keyOf(v)) != 0
        then rc == 0 && Buckets() == old(Buckets())[k := [v] + chain]
        else rc == 1 && Buckets() == old(Buckets())
    {
      SearchedInsert(cfg, Buckets(), v);
      assert allocated(repr);
      hide ChainOk, Elements, HashSpecs.Insert, HashSpecs.Search;
      var het := new Entry(v, cfg.hf(cfg.keyOf(v)) % table.Length);
      rc := InsertEntry(het);
    }

    static lemma PushedBuckets(c: seq<seq<Entry<V>>>, k: nat, het: Entry<V>)
      requires k < |c|
      ensures BucketsOf(c[k := [het] + c[k]]) == BucketsOf(c)[k := [het.ptr] + BucketsOf(c)[k]]
    {
      assert Payloads([het] + c[k]) == [het.ptr] + Payloads(c[k]);
    }

    static lemma InsertCount(cfg: Config<V, K>, b: seq<seq<V>>, v: V)
      requires |b| > 0 && HashSpecs.Search(cfg, b, cfg.keyOf(v)).None?
      ensures |Elements(HashSpecs.Insert(cfg, b, v))| == |Elements(b)| + 1
    {
      InsertElements(cfg, b, v);
      assert |multiset(Elements(HashSpecs.Insert(cfg, b, v)))| == |multiset(Elements(b))| + 1;
    }

    /** Makes the slot that points to `het` point past it. */
    method Bypass(het: Entry<V>, prev: Entry?<V>, tableIndex: nat)
      requires tableIndex < table.Length
      modifies table, (if prev == null then {} else {prev})`next
      ensures prev == null ==> table[tableIndex] == old(het.next)
      ensures prev != null ==> prev.next == old(het.next) && table[tableIndex] == old(table[tableIndex])
      ensures forall k :: 0 <= k < table.Length && k != tableIndex ==> table[k] == old(table[k])
    {
      if prev == null {
        table[tableIndex] := het.next;
      } else {
        prev.next := het.next;
      }
    }

    /** Unlinks entry `i` of a chain through the slot that points to it. */
    method Unlink(het: Entry<V>, prev: Entry?<V>, tableIndex: nat, ghost i: nat)
      requires Shape() && tableIndex < |chains| && i < |chains[tableIndex]| && chains[tableIndex][i] == het
      requires prev == if i == 0 then null else chains[tableIndex][i - 1]
      modifies this`chains, this`repr, table, repr
      ensures Shape() && repr == old(repr) - {het}
      ensures chains == old(chains)[tableIndex := RemovedAt(old(chains)[tableIndex], i)]
    {
      ghost var c, r, chain := chains, repr, chains[tableIndex];
      ghost var d := RemovedAt(chain, i);
      assert forall k :: 0 <= k < |c| ==> ChainOk(c[k], table[k], k, r);
      assert ChainOk(chain, table[tableIndex], tableIndex, r);
      RemovedChain(chain, i);
      assert het.next == At(chain, i + 1) && At(d, 0) == if i == 0 then At(chain, 1) else At(chain, 0);
      Bypass(het, prev, tableIndex);
      chains, repr := c[tableIndex := d], r - {het};
      forall k | 0 <= k < |chains| && k != tableIndex ensures ChainOk(chains[k], table[k], k, repr) {
        assert old(ChainOk(c[k], table[k], k, r));
      }
      forall j | 0 < j <= |d| ensures d[j - 1].next == At(d, j) {
        assert At(d, j) == if j < i then At(chain, j) else At(chain, j + 1);
        assert d[j - 1] == prev <==> j == i;
      }
      assert ChainOk(d, table[tableIndex], tableIndex, repr);
    }

    /** Positions after a removal. */
    static lemma RemovedChain(chain: seq<Entry<V>>, i: nat)
      requires i < |chain| && forall j, l :: 0 <= j < l < |chain| ==> chain[j] != chain[l]
      ensures var d := RemovedAt(chain, i);
        && |d| == |chain| - 1
        && (forall j :: 0 <= j < |d| ==> d[j] == if j < i then chain[j] else chain[j + 1])
        && (forall j :: 0 <= j < |d| ==> d[j] != chain[i])
        && (forall j, l :: 0 <= j < l < |d| ==> d[j] != d[l])
    {
    }

    /** Removes the first element equal to the key and returns it. */
    method Delete(key: K) returns (ret: Option<V>)
      requires Valid()
      modifies this, table, repr
      ensures Valid() && repr <= old(repr)
      ensures Buckets() == HashSpecs.Delete(cfg, old(Buckets()), key)
      ensures ret == HashSpecs.Search(cfg, old(Buckets()), key)
      ensures var k := cfg.hf(key) % |old(Buckets())|;
        var chain := old(Buckets())[k];
        if ret.None?
        then Buckets() == old(Buckets()) && forall i :: 0 <= i < |chain| ==> cfg.hc(cfg.keyOf(chain[i]), key) != 0
        else exists i ::
          && IsFirst(cfg, chain, key, i) && ret == Some(chain[i])
          && Buckets() == old(Buckets())[k := chain[..i] + chain[i + 1..]]
    {
      SearchedDelete(cfg, Buckets(), key);
      ghost var c, b := chains, Buckets();
      var tableIndex := cfg.hf(key) % table.Length;
      var het, prev, i := FindEntry(key);
      if het == null {
        return None;
      }
      Unlink(het, prev, tableIndex, i);
      count := count - 1;
      RemovedBuckets(c, tableIndex, i);
      DeleteCount(cfg, b, key);
      ret := Some(het.ptr);
    }

    static lemma RemovedBuckets(c: seq<seq<Entry<V>>>, k: nat, i: nat)
      requires k < |c| && i < |c[k]|
      ensures BucketsOf(c[k := RemovedAt(c[k], i)]) == BucketsOf(c)[k := RemovedAt(BucketsOf(c)[k], i)]
    {
      assert Payloads(RemovedAt(c[k], i)) == RemovedAt(Payloads(c[k]), i);
    }

    static lemma DeleteCount(cfg: Config<V, K>, b: seq<seq<V>>, key: K)
      requires |b| > 0 && HashSpecs.Search(cfg, b, key).Some?
      ensures |Elements(HashSpecs.Delete(cfg, b, key))| == |Elements(b)| - 1
    {
      DeleteElements(cfg, b, key);
      assert |multiset(Elements(HashSpecs.Delete(cfg, b, key)))| == |multiset(Elements(b))| - 1;
    }

    /** The first `n` slots hold the first `n` elements. */
    static ghost predicate Filled(slots: array<Option<V>>, e: seq<V>, n: nat)
      reads slots
    {
      n <= slots.Length == |e| && forall j :: 0 <= j < n ==> slots[j] == Some(e[j])
    }

    /** Lists every element once, in table order, in an array of `count` slots. */
    method GatherData() returns (ac: nat, slots: array<Option<V>>)
      requires Valid()
      ensures fresh(slots) && ac == slots.Length == |Elements(Buckets())|
      ensures forall j :: 0 <= j < ac ==> slots[j] == Some(Elements(Buckets())[j])
    {
      ghost var b := Buckets();
      slots := new Option<V>[count](_ => None);
      ac := 0;
      for i := 0 to table.Length
        invariant Shape() && Buckets() == b
        invariant ac == |Flatten(b, i)| && Filled(slots, Elements(b), ac)
      {
        assert ChainOk(chains[i], table[i], i, repr);
        ElementsOfBucket(b, i);
        ac := GatherChain(table[i], ac, slots, chains[i], Elements(b), i, repr);
      }
    }

    static method PutSlot(slots: array<Option<V>>, v: V, ghost e: seq<V>, n: nat)
      requires Filled(slots, e, n) && n < |e| && e[n] == v
      modifies slots
      ensures Filled(slots, e, n + 1)
    {
      slots[n] := Some(v);
    }

    /** Adds the elements of one chain to the slots already filled. */
    static method GatherChain(head: Entry?<V>, start: nat, slots: array<Option<V>>, ghost chain: seq<Entry<V>>,
        ghost e: seq<V>, ghost k: nat, ghost r: set<Entry<V>>) returns (ac: nat)
      requires ChainOk(chain, head, k, r) && start + |chain| <= |e| && Filled(slots, e, start)
      requires forall j :: 0 <= j < |chain| ==> chain[j].ptr == e[start + j]
      modifies slots
      ensures ac == start + |chain| && Filled(slots, e, ac)
    {
      var het := head;
      ac := start;
      while het != null
        invariant start <= ac <= start + |chain| && het == At(chain, ac - start)
        invariant Filled(slots, e, ac)
        decreases start + |chain| - ac
      {
        PutSlot(slots, het.ptr, e, ac);
        ac, het := ac + 1, het.next;
        assert old(ChainOk(chain, head, k, r)) && old(chain[ac - start - 1].next) == At(chain, ac - start);
      }
    }

    /** Gathers all elements, then empties the table. */
    method Drain() returns (ac: nat, slots: array<Option<V>>)
      requires Valid()
      modifies this, table
      ensures Valid() && repr == {} && |Buckets()| == |old(Buckets())| && Elements(Buckets()) == []
      ensures |Buckets()| > 0 && forall k :: 0 <= k < |Buckets()| ==> Buckets()[k] == []
      ensures fresh(slots) && ac == slots.Length == |Elements(old(Buckets()))|
      ensures forall j :: 0 <= j < ac ==> slots[j] == Some(Elements(old(Buckets()))[j])
    {
      ac, slots := GatherData();
      ClearTable();
      count := 0;
      chains, repr := seq(|chains|, _ => []), {};
      EmptyElements(Buckets(), |chains|);
    }

    method ClearTable()
      modifies table
      ensures forall k :: 0 <= k < table.Length ==> table[k] == null
    {
      for i := 0 to table.Length
        invariant forall k :: 0 <= k < i ==> table[k] == null
      {
        table[i] := null;
      }
    }
  }
}
