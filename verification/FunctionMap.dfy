/** The map from addresses to functions.  Functions are ranges [low, high); the search takes them as closed. */
module FunctionMaps {
  import opened AddrRangeMaps
  import opened Options
  import opened RangeTrees

  class FunctionMap {
    const ranges: AddrRangeMap
    ghost var functions: multiset<Range>  // all added functions

    ghost predicate Valid()
      reads this, ranges, Nodes(ranges.tree)
    {
      ranges.Valid() && Separated(ranges.Contents()) && multiset(ranges.Contents()) == functions
    }

    constructor ()
      ensures Valid() && functions == multiset{} && fresh(ranges) && Nodes(ranges.tree) == {}
    {
      ranges := new AddrRangeMap();
      functions := multiset{};
    }

    /** Adds a function; refused (the C code aborts) exactly when it overlaps one that is there.  Functions that only
        touch do not overlap. */
    method Add(funcName: string, lowAddress: Addr, highAddress: Addr) returns (ok: bool)
      requires Valid() && lowAddress <= highAddress
      modifies this, ranges, Nodes(ranges.tree)
      ensures Valid() && fresh(Nodes(ranges.tree) - old(Nodes(ranges.tree)))
      ensures var r := Range(lowAddress, highAddress, FunctionName(funcName));
        && (ok <==> forall q :: q in old(functions) ==> q.high <= lowAddress || highAddress <= q.low)
        && functions == if ok then old(functions) + multiset{r} else old(functions)
    {
      hide AddrRangeMap.Valid, AddrRangeMap.Contents, InsertRange, Separated, Nodes;
      ghost var s, r := ranges.Contents(), Range(lowAddress, highAddress, FunctionName(funcName));
      ok := ranges.Add(lowAddress, highAddress, FunctionName(funcName));
      FreeOf(s, r);
      if ok {
        InsertContents(s, r);
        functions := functions + multiset{r};
      }
    }

    static lemma FreeOf(s: seq<Range>, r: Range)
      ensures (forall q :: q in s ==> DisjointRanges(q, r)) <==>
        forall q :: q in multiset(s) ==> q.high <= r.low || r.high <= q.low
    {
      if forall q :: q in s ==> DisjointRanges(q, r) {
        forall q | q in multiset(s) ensures q.high <= r.low || r.high <= q.low {
          assert DisjointRanges(q, r);
        }
      }
      if forall q :: q in multiset(s) ==> q.high <= r.low || r.high <= q.low {
        forall q | q in s ensures DisjointRanges(q, r) {
          assert q in multiset(s);
        }
      }
    }

    /** The function at an address: one whose closed range holds it, exactly when there is one.  It is the only one
        unless the address is an end of several ranges: where one function ends and the next starts, either may be
        returned. */
    method Find(addr: Addr) returns (ret: Option<Info>)
      requires Valid()
      ensures ret.Some? <==> exists q :: q in functions && q.low <= addr <= q.high
      ensures ret.Some? ==> exists q :: q in functions && q.low <= addr <= q.high && ret == Some(q.info)
      ensures forall q :: q in functions && q.low < addr < q.high ==> ret == Some(q.info)
    {
      ret := ranges.Find(addr);
      ghost var s := ranges.Contents();
      SeparatedIsMonotone(s);
      LookupFinds(ranges.tree, addr);
      hide AddrRangeMap.Valid, Lookup, InOrder, Separated;
      if ret.Some? {
        ghost var q :| q in s && Contains(q, addr) && ret == Some(q.info);
        assert q in functions;
      }
      forall q | q in functions && q.low <= addr <= q.high
        ensures ret.Some? && (q.low < addr < q.high ==> ret == Some(q.info))
      {
        assert q in s && Contains(q, addr);
        if q.low < addr < q.high { OnlyInside(s, q, addr); }
      }
    }

    static lemma OnlyInside(s: seq<Range>, q: Range, addr: Addr)
      requires Separated(s) && q in s && q.low < addr < q.high
      ensures forall p :: p in s && Contains(p, addr) ==> p == q
    {
      forall p | p in s && Contains(p, addr) ensures p == q {
        var i :| 0 <= i < |s| && s[i] == q;
        var j :| 0 <= j < |s| && s[j] == p;
        assert i == j;
      }
    }
  }
}
