/** Source locations and call-site ids: the cache of looked-up addresses, and the table that gives every call stack
    an id of its own. */
module SourceIds {
  import opened HashSpecs
  import opened HashTables
  import opened Keys
  import opened Options

  /** The number of the first MPI operation. */
  const BASE: int

  /** What the symbol lookup finds for an address. */
  datatype Found = NotFound | Found(file: NameOpt, func: NameOpt, line: int)

  datatype Location = Location(file: Str, func: Str, line: int)

  /** The text "[unknown]". */
  function Unknown(): Str {
    [91, 117, 110, 107, 110, 111, 119, 110, 93]
  }

  /** The source location of an address, under a deterministic lookup. */
  function Resolve(find: Pc -> Found, pc: Pc): Location {
    match find(pc)
    case NotFound => Location(Unknown(), Unknown(), 0)
    case Found(file, func, line) =>
      Location(if file.Null? || file.s == [63, 63] then Unknown() else file.s,
               if func.Null? then Unknown() else func.s,
               line)
  }

  /** A resolved address; `rc` 1 reports a failed lookup. */
  datatype PcEntry = PcEntry(pc: Pc, loc: Location)

  function PcOf(e: PcEntry): Pc { e.pc }
  function PcHashOf(pc: Pc): nat { ToNat(PcCacheHash(pc)) }

  class PcCache {
    const find: Pc -> Found
    const table: HashTable<PcEntry, Pc>
    ghost var repr: set<object>

    /** The cache holds what the lookup finds. */
    ghost predicate Valid()
      reads this, repr
    {
      && this in repr && table in repr && table.table in repr && table.repr <= repr
      && table.Valid() && table.cfg == Config(PcOf, PcHashOf, PcCacheCompare)
      && Coherent(find, table.Buckets())
    }

    static ghost predicate Coherent(find: Pc -> Found, b: seq<seq<PcEntry>>) {
      |b| > 0 && forall k, i :: 0 <= k < |b| && 0 <= i < |b[k]| ==> b[k][i].loc == Resolve(find, b[k][i].pc)
    }

    constructor (find: Pc -> Found, tableSize: nat)
      requires tableSize >= 2
      ensures Valid() && fresh(repr) && this.find == find
    {
      hide HashTable<PcEntry, Pc>.Valid;
      this.find := find;
      table := new HashTable(tableSize, Config(PcOf, PcHashOf, PcCacheCompare));
      new;
      repr := {this, table, table.table};
    }

    /** The location of an address, as the lookup finds it, whether or not it is in the cache.  A file name that is
        missing or "??", a missing function name, and both names of an address that is not found are "[unknown]". */
    method QueryPc(pc: Pc) returns (loc: Location, rc: int)
      requires Valid()
      modifies repr
      ensures Valid() && fresh(repr - old(repr))
      ensures loc == Resolve(find, pc) && rc == if loc.line == 0 then 1 else 0
      ensures find(pc).NotFound? ==>
        loc.line == 0 && loc.file == loc.func == [91, 117, 110, 107, 110, 111, 119, 110, 93]
      ensures find(pc).Found? ==> loc.line == find(pc).line
      ensures find(pc).Found? && find(pc).file.Name? && find(pc).file.s != [63, 63] ==> loc.file == find(pc).file.s
      ensures find(pc).Found? && (find(pc).file.Null? || find(pc).file.s == [63, 63]) ==>
        loc.file == [91, 117, 110, 107, 110, 111, 119, 110, 93]
      ensures find(pc).Found? && find(pc).func.Name? ==> loc.func == find(pc).func.s
      ensures find(pc).Found? && find(pc).func.Null? ==> loc.func == [91, 117, 110, 107, 110, 111, 119, 110, 93]
    {
      hide HashTable<PcEntry, Pc>.Valid;
      var r := table.Search(pc);
      if r.None? {
        loc := Resolve(find, pc);
        var _ := table.Insert(PcEntry(pc, loc));
        repr := repr + table.repr;
      } else {
        loc := r.value.loc;
      }
      rc := if loc.line == 0 then 1 else 0;
    }
  }

  // ----- call stacks -----

  /** A frame has the names and the line that the lookup found for its address. */
  predicate IsLocated(found: Found, f: Frame) {
    match found
    case NotFound =>
      f.file == f.func == Name([91, 117, 110, 107, 110, 111, 119, 110, 93]) && f.line == 0
    case Found(file, func, line) =>
      && f.file ==
         (if file.Name? && file.s != [63, 63] then file else Name([91, 117, 110, 107, 110, 111, 119, 110, 93]))
      && f.func == (if func.Name? then func else Name([91, 117, 110, 107, 110, 111, 119, 110, 93]))
      && f.line == line
  }

  /** The number of frames before the first NULL. */
  function Depth(pc: seq<Pc>): (n: nat)
    ensures n <= |pc| && (n < |pc| ==> pc[n] == 0) && forall i :: 0 <= i < n ==> pc[i] != 0
  {
    if pc == [] || pc[0] == 0 then 0 else 1 + Depth(pc[1..])
  }

  /** The frames before the first NULL. */
  function UpToNull(pc: Stack): seq<Pc> {
    pc[..Depth(pc)]
  }

  function NullFrame(): Frame {
    Frame(Null, Null, 0, 0)
  }

  function FrameOf(find: Pc -> Found, pc: Pc): Frame {
    var loc := Resolve(find, pc);
    Frame(Name(loc.file), Name(loc.func), loc.line, pc)
  }

  /** The frames of a stack up to its first NULL; the rest is empty. */
  function FramesOf(find: Pc -> Found, pc: Stack): (f: Frames)
    ensures forall i :: 0 <= i < FULL_STACK_DEPTH ==> WellFormedFrame(f[i])
  {
    var n := Depth(pc);
    seq(FULL_STACK_DEPTH, i requires 0 <= i < FULL_STACK_DEPTH => if i < n then FrameOf(find, pc[i]) else NullFrame())
  }

  /** The frames of a stack, one by one: located before the first NULL, empty from it on. */
  lemma FramesLocated(find: Pc -> Found, pc: Stack)
    ensures forall i, j :: 0 <= j <= i < FULL_STACK_DEPTH && pc[j] == 0 ==>
      FramesOf(find, pc)[i] == Frame(Null, Null, 0, 0)
    ensures forall i :: 0 <= i < FULL_STACK_DEPTH && (forall j :: 0 <= j <= i ==> pc[j] != 0) ==>
      FramesOf(find, pc)[i].pc == pc[i] && IsLocated(find(pc[i]), FramesOf(find, pc)[i])
  {
    var n := Depth(pc);
    assert n < FULL_STACK_DEPTH ==> pc[n] == 0;
  }

  /** Stacks have the same frames exactly when they agree up to the first NULL. */
  lemma SameFrames(find: Pc -> Found, a: Stack, b: Stack)
    ensures FramesOf(find, a) == FramesOf(find, b) <==> UpToNull(a) == UpToNull(b)
  {
    var f, g, m, n := FramesOf(find, a), FramesOf(find, b), Depth(a), Depth(b);
    if a[..m] == b[..n] {
      assert forall i :: 0 <= i < m ==> a[i] == a[..m][i] && b[i] == b[..m][i];
      assert f == g;
    } else if m == n {
      var i :| 0 <= i < m && a[i] != b[i];
      assert f[i].pc != g[i].pc;
    } else {
      var i := if m < n then m else n;
      assert f[i].pc != g[i].pc;
    }
  }

  /** A key whose frames are filled in by lookup. */
  type SourceKey = k: SrcIdKey | WellFormed(k) witness SrcIdKey(0, seq(FULL_STACK_DEPTH, _ => Frame(Null, Null, 0, 0)))

  /** A cache entry: the call stack and its id. */
  datatype SrcEntry = SrcEntry(key: SourceKey, op: int)

  /** The frames of a stack are filled in by lookup. */
  ghost predicate LookedUp(f: Frames) {
    forall i :: 0 <= i < FULL_STACK_DEPTH ==> WellFormedFrame(f[i])
  }

  function KeyFor(id: int, f: Frames): (k: SourceKey)
    requires LookedUp(f)
    ensures k.id == id && k.frames == f
  {
    SrcIdKey(id, f)
  }

  function SourceKeyOf(e: SrcEntry): SourceKey { e.key }
  function SourceHashOf(k: SourceKey): nat { ToNat(SrcIdHash(k)) }
  function SourceCompareOf(a: SourceKey, b: SourceKey): int { SrcIdCompare(a, b) }

  function SourceConfig(): Config<SrcEntry, SourceKey> {
    Config(SourceKeyOf, SourceHashOf, SourceCompareOf)
  }

  /** With a traceback depth above 0 the comparator is an equivalence and agrees with the hash. */
  lemma SourceConsistent()
    requires REPORT_STACK_DEPTH > 0
    ensures Consistent(SourceConfig())
    ensures forall a: SourceKey, b: SourceKey :: SourceCompareOf(a, b) == 0 <==> a.frames == b.frames
  {
    forall a: SourceKey, b: SourceKey ensures SourceCompareOf(a, b) == 0 <==> a.frames == b.frames {
      SrcIdEqual(a, b);
    }
    forall a: SourceKey, b: SourceKey | a.frames == b.frames ensures SourceHashOf(a) == SourceHashOf(b) {
    }
  }

  /** With a traceback depth of 0 no stack is recorded, so all frames are empty. */
  predicate MadeFrames(f: Frames) {
    REPORT_STACK_DEPTH == 0 ==> forall i :: 0 <= i < FULL_STACK_DEPTH ==> f[i] == NullFrame()
  }

  /** A key that the profiler makes. */
  type MadeKey = k: SrcIdKey | WellFormed(k) && MadeFrames(k.frames)
    witness SrcIdKey(0, seq(FULL_STACK_DEPTH, _ => Frame(Null, Null, 0, 0)))

  /** The frames of a recorded stack make such a key. */
  lemma RecordedMakesKey(find: Pc -> Found, pc: Stack, id: int)
    requires REPORT_STACK_DEPTH == 0 ==> Depth(pc) == 0
    ensures WellFormed(SrcIdKey(id, FramesOf(find, pc))) && MadeFrames(FramesOf(find, pc))
  {
    var f := FramesOf(find, pc);
    assert forall i :: 0 <= i < FULL_STACK_DEPTH ==> WellFormedFrame(f[i]);
  }

  function MadeHash(k: MadeKey): nat { ToNat(SrcIdHash(k)) }
  function MadeCompare(a: MadeKey, b: MadeKey): int { SrcIdCompare(a, b) }
  function Itself(k: MadeKey): MadeKey { k }

  /** On the keys that the profiler makes, the comparator is an equivalence and equal keys hash alike, at every
      traceback depth. */
  lemma MadeKeysConsistent()
    ensures Consistent(Config(Itself, MadeHash, MadeCompare))
    ensures forall a: MadeKey, b: MadeKey :: SrcIdCompare(a, b) == 0 ==> SrcIdHash(a) == SrcIdHash(b)
  {
    forall a: MadeKey, b: MadeKey
      ensures MadeCompare(a, b) == 0 <==> if REPORT_STACK_DEPTH == 0 then a.id == b.id else a.frames == b.frames
      ensures MadeCompare(a, b) == 0 ==> MadeHash(a) == MadeHash(b) && SrcIdHash(a) == SrcIdHash(b)
    {
      if REPORT_STACK_DEPTH > 0 { SrcIdEqual(a, b); } else { assert a.frames == b.frames; }
    }
  }

  /** The id table as a map from frames to ids: ids are handed out from `first` on, one each. */
  ghost predicate Numbered(ids: map<Frames, int>, first: int, counter: int) {
    && counter == first + |ids|
    && (forall f :: f in ids ==> first <= ids[f] < counter)
    && (forall f, g :: f in ids && g in ids && ids[f] == ids[g] ==> f == g)
  }

  /** The buckets hold exactly the ids of the map. */
  ghost predicate Represents(b: seq<seq<SrcEntry>>, ids: map<Frames, int>) {
    && WellPlaced(SourceConfig(), b)
    && (forall k: SourceKey :: Search(SourceConfig(), b, k).Some? <==> k.frames in ids)
    && (forall k: SourceKey :: k.frames in ids ==> Search(SourceConfig(), b, k).value.key.id == ids[k.frames])
  }

  lemma NewId(b: seq<seq<SrcEntry>>, ids: map<Frames, int>, e: SrcEntry)
    requires REPORT_STACK_DEPTH > 0 && Represents(b, ids) && e.key.frames !in ids
    ensures Represents(HashSpecs.Insert(SourceConfig(), b, e), ids[e.key.frames := e.key.id])
  {
    hide HashSpecs.Search, Consistent, SrcIdCompare;
    SourceConsistent();
    InsertKeepsPlaced(SourceConfig(), b, e);
    forall k: SourceKey
      ensures HashSpecs.Search(SourceConfig(), HashSpecs.Insert(SourceConfig(), b, e), k) ==
        if k.frames == e.key.frames then Some(e) else HashSpecs.Search(SourceConfig(), b, k)
    {
      SearchAfterInsert(SourceConfig(), b, e, k);
    }
  }

  lemma NoIds(b: seq<seq<SrcEntry>>)
    requires |b| > 0 && forall k :: 0 <= k < |b| ==> b[k] == []
    ensures Represents(b, map[])
  {
  }

  lemma NextNumber(ids: map<Frames, int>, first: int, counter: int, f: Frames)
    requires Numbered(ids, first, counter) && f !in ids
    ensures Numbered(ids[f := counter], first, counter + 1)
  {
  }

  /** Hands out call-site ids. */
  class CallSites {
    const pcs: PcCache
    const table: HashTable<SrcEntry, SourceKey>
    var counter: int
    ghost var first: int              // the counter when the table was last empty
    ghost var ids: map<Frames, int>   // the id of each known stack
    ghost var repr: set<object>

    ghost predicate Shape()
      reads this, repr
    {
      && this in repr && pcs in repr && pcs.repr <= repr && this !in pcs.repr && pcs.Valid()
      && table in repr && table.table in repr && table.repr <= repr
      && table !in pcs.repr && table.table !in pcs.repr && table.repr !! pcs.repr
      && table.Valid() && table.cfg == SourceConfig() && 1 <= counter
    }

    ghost predicate Valid()
      reads this, repr
    {
      Shape() && (REPORT_STACK_DEPTH > 0 ==> Numbered(ids, first, counter) && Represents(table.Buckets(), ids))
    }

    constructor (find: Pc -> Found, tableSize: nat)
      requires tableSize >= 2
      ensures Valid() && this in repr && fresh(repr) && pcs.find == find && counter == 1 && ids == map[] && first == 1
    {
      hide HashTable<SrcEntry, SourceKey>.Valid, PcCache.Valid, Represents, SourceConfig, Elements, WellFormedFrame,
        WellFormed;
      pcs := new PcCache(find, tableSize);
      table := new HashTable(tableSize, SourceConfig());
      counter, first, ids := 1, 1, map[];
      new;
      repr := {this, pcs, table, table.table} + pcs.repr;
      NoIds(table.Buckets());
    }

    /** Resolves the frames of a stack, up to its first NULL. */
    method ResolveFrames(pc: Stack) returns (f: Frames)
      requires Shape()
      modifies pcs.repr
      ensures pcs.Valid() && fresh(pcs.repr - old(pcs.repr))
      ensures f == FramesOf(pcs.find, pc)
      ensures forall i, j :: 0 <= j <= i < FULL_STACK_DEPTH && pc[j] == 0 ==> f[i] == Frame(Null, Null, 0, 0)
      ensures forall i :: 0 <= i < FULL_STACK_DEPTH && (forall j :: 0 <= j <= i ==> pc[j] != 0) ==>
        f[i].pc == pc[i] && IsLocated(pcs.find(pc[i]), f[i])
    {
      hide PcCache.Valid, HashTable<SrcEntry, SourceKey>.Valid, SourceConfig, Resolve;
      f := seq(FULL_STACK_DEPTH, _ => NullFrame());
      var i := 0;
      while i < FULL_STACK_DEPTH && pc[i] != 0
        invariant 0 <= i <= Depth(pc)
        invariant pcs.Valid() && fresh(pcs.repr - old(pcs.repr))
        invariant forall j :: 0 <= j < FULL_STACK_DEPTH ==>
          f[j] == if j < i then FrameOf(pcs.find, pc[j]) else NullFrame()
      {
        var loc, _ := pcs.QueryPc(pc[i]);
        f := f[i := Frame(Name(loc.file), Name(loc.func), loc.line, pc[i])];
        i := i + 1;
      }
      FramesLocated(pcs.find, pc);
    }

    /** Resolves the frames of a stack and takes up what the pc cache has grown by. */
    method LookUp(pc: Stack) returns (f: Frames)
      requires Valid()
      modifies repr
      ensures Valid() && this in repr && fresh(repr - old(repr))
      ensures table in repr && table.table in repr && ids == old(ids) && counter == old(counter) && first == old(first)
      ensures f == FramesOf(pcs.find, pc) && LookedUp(f)
    {
      hide PcCache.Valid, HashTable<SrcEntry, SourceKey>.Valid, Represents, Numbered, SourceConfig, FramesOf;
      f := ResolveFrames(pc);
      repr := repr + pcs.repr;
    }

    /** Stores a new entry, under the next number unless the traceback depth is 0. */
    method AddEntry(f: Frames, op: int) returns (id: int)
      requires Valid() && LookedUp(f)
      requires REPORT_STACK_DEPTH > 0 ==> f !in ids
      modifies this, table, table.table
      ensures Valid() && this in repr && fresh(repr - old(repr)) && old(repr) <= repr
      ensures REPORT_STACK_DEPTH == 0 ==> id == op - BASE && counter == old(counter)
      ensures REPORT_STACK_DEPTH > 0 ==> id == old(counter) && ids == old(ids)[f := id] && first == old(first)
    {
      hide PcCache.Valid, HashTable<SrcEntry, SourceKey>.Valid, HashSpecs.Insert, HashSpecs.Search, Represents,
        Numbered;
      hide SourceConfig, LookedUp, WellFormed, WellFormedFrame, KeyFor;
      if REPORT_STACK_DEPTH == 0 {
        id := op - BASE;
      } else {
        id := counter;
        counter := counter + 1;
      }
      var e := SrcEntry(KeyFor(id, f), op);
      if REPORT_STACK_DEPTH > 0 {
        NewId(table.Buckets(), ids, e);
        NextNumber(ids, first, id, f);
        ids := ids[f := id];
      }
      var _ := table.Insert(e);
      repr := repr + table.repr;
    }

    /** What a search in the table finds. */
    method FindEntry(f: Frames, op: int) returns (r: Option<SrcEntry>)
      requires Valid() && LookedUp(f)
      ensures REPORT_STACK_DEPTH == 0 && r.Some? ==> r.value.key.id == op - BASE
      ensures REPORT_STACK_DEPTH > 0 ==> (r.Some? <==> f in ids) && (r.Some? ==> r.value.key.id == ids[f])
    {
      hide PcCache.Valid, HashTable<SrcEntry, SourceKey>.Valid, Numbered;
      var key := KeyFor(op - BASE, f);
      r := table.Search(key);
      assert r.Some? ==> SrcIdCompare(r.value.key, key) == 0;
    }

    /** The id of a call stack: the one it has, or the next number.  With a traceback depth of 0 the operation
        alone gives the id. */
    method QuerySrc(pc: Stack, op: int) returns (csid: int)
      requires Valid()
      modifies repr
      ensures Valid() && this in repr && fresh(repr - old(repr))
      ensures REPORT_STACK_DEPTH == 0 ==> csid == op - BASE && counter == old(counter)
      ensures REPORT_STACK_DEPTH > 0 ==>
        var f := FramesOf(pcs.find, pc);
        && ids == (if f in old(ids) then old(ids) else old(ids)[f := old(counter)])
        && csid == ids[f] && first == old(first)
    {
      hide CallSites.Valid, FramesOf, LookedUp;
      var f := LookUp(pc);
      var r := FindEntry(f, op);
      if r.None? {
        csid := AddEntry(f, op);
      } else {
        csid := r.value.key.id;
      }
    }

    lemma IdsNumbered()
      requires Valid() && REPORT_STACK_DEPTH > 0
      ensures Numbered(ids, first, counter)
    {
    }

    lemma Inside()
      requires Valid()
      ensures {this, table, table.table} <= repr
    {
    }

    /** Empties the id table, as a reset of the callsite data does.  The numbering goes on, so that no id is given
        twice. */
    method DrainIds()
      requires Valid()
      modifies this, table, table.table
      ensures Valid() && repr == old(repr) && ids == map[] && counter == old(counter) && first == counter
    {
      hide PcCache.Valid, HashTable<SrcEntry, SourceKey>.Valid, Represents, Elements, SourceConfig;
      var _, _ := table.Drain();
      ids, first := map[], counter;
      NoIds(table.Buckets());
    }
  }

  ghost predicate IdIs(ids: map<Frames, int>, f: Frames, id: int) {
    f in ids && ids[f] == id
  }

  // ----- whole runs -----

  /** A record is given an id, or the callsite data are reset. */
  datatype Event = Query(pc: Stack, op: int) | Reset

  /** How many resets there are before event `n`. */
  function Epoch(events: seq<Event>, n: nat): nat
    requires n <= |events|
  {
    if n == 0 then 0 else Epoch(events, n - 1) + if events[n - 1].Reset? then 1 else 0
  }

  /** Both events give an id, with no reset between them, to stacks that agree up to the first NULL. */
  ghost predicate SameStack(events: seq<Event>, i: nat, j: nat) {
    && i < |events| && j < |events| && events[i].Query? && events[j].Query?
    && Epoch(events, i) == Epoch(events, j) && UpToNull(events[i].pc) == UpToNull(events[j].pc)
  }

  /** The first arrival of a stack since the last reset. */
  ghost predicate FirstArrival(events: seq<Event>, i: nat) {
    i < |events| && events[i].Query? && forall j: nat :: j < i ==> !SameStack(events, j, i)
  }

  /** How many first arrivals there are before event `n`. */
  ghost function Arrivals(events: seq<Event>, n: nat): nat {
    if n == 0 then 0 else Arrivals(events, n - 1) + if FirstArrival(events, n - 1) then 1 else 0
  }

  lemma {:induction false} EpochMonotone(events: seq<Event>, i: nat, j: nat)
    requires i <= j <= |events|
    ensures Epoch(events, i) <= Epoch(events, j)
  {
    if i < j { EpochMonotone(events, i, j - 1); }
  }

  /** The ids of the first `n` events are right: those of this epoch are in the table, those of earlier ones are below
      all ids in it. */
  ghost predicate Issued(find: Pc -> Found, events: seq<Event>, csids: seq<int>, n: nat, first: int,
      ids: map<Frames, int>)
  {
    && n == |csids| <= |events|
    && (forall i: nat :: i < n && events[i].Query? ==>
          if Epoch(events, i) == Epoch(events, n) then IdIs(ids, FramesOf(find, events[i].pc), csids[i])
          else csids[i] < first)
    && (forall f :: f in ids ==> HasFrames(find, events, n, f))
  }

  ghost predicate HasFrames(find: Pc -> Found, events: seq<Event>, n: nat, f: Frames)
    requires n <= |events|
  {
    exists i: nat :: i < n && events[i].Query? && Epoch(events, i) == Epoch(events, n)
      && FramesOf(find, events[i].pc) == f
  }

  /** A stack is in the table exactly when it has arrived since the last reset. */
  lemma KnownIffArrived(find: Pc -> Found, events: seq<Event>, csids: seq<int>, n: nat, first: int,
      ids: map<Frames, int>)
    requires Issued(find, events, csids, n, first, ids) && n < |events| && events[n].Query?
    ensures FramesOf(find, events[n].pc) !in ids <==> FirstArrival(events, n)
  {
    hide FramesOf, UpToNull;
    var f := FramesOf(find, events[n].pc);
    if f in ids {
      assert HasFrames(find, events, n, f);
      var i: nat :| i < n && events[i].Query? && Epoch(events, i) == Epoch(events, n)
        && FramesOf(find, events[i].pc) == f;
      SameFrames(find, events[i].pc, events[n].pc);
      assert SameStack(events, i, n);
    }
    forall i: nat | i < n && SameStack(events, i, n) ensures f in ids {
      SameFrames(find, events[i].pc, events[n].pc);
      assert IdIs(ids, FramesOf(find, events[i].pc), csids[i]);
    }
  }

  lemma AfterQuery(find: Pc -> Found, events: seq<Event>, csids: seq<int>, n: nat, first: int, ids: map<Frames, int>,
      new_: map<Frames, int>, csid: int)
    requires Issued(find, events, csids, n, first, ids) && n < |events| && events[n].Query?
    requires var f := FramesOf(find, events[n].pc);
      IdIs(new_, f, csid) && (new_ == ids || (f !in ids && new_ == ids[f := csid]))
    ensures Issued(find, events, csids + [csid], n + 1, first, new_)
  {
    hide FramesOf, HasFrames, Epoch;
    EpochStays(events, n);
    var all := csids + [csid];
    forall i: nat | i < n + 1 && events[i].Query?
      ensures if Epoch(events, i) == Epoch(events, n + 1) then IdIs(new_, FramesOf(find, events[i].pc), all[i])
        else all[i] < first
    {
      assert i < n ==> all[i] == csids[i];
    }
    forall g | g in new_ ensures HasFrames(find, events, n + 1, g) {
      HasFramesNext(find, events, n, g);
    }
  }

  lemma EpochStays(events: seq<Event>, n: nat)
    requires n < |events| && events[n].Query?
    ensures Epoch(events, n + 1) == Epoch(events, n)
  {
  }

  lemma HasFramesNext(find: Pc -> Found, events: seq<Event>, n: nat, g: Frames)
    requires n < |events| && events[n].Query? && (HasFrames(find, events, n, g) || g == FramesOf(find, events[n].pc))
    ensures HasFrames(find, events, n + 1, g)
  {
    hide FramesOf;
    EpochStays(events, n);
    if HasFrames(find, events, n, g) {
      var i: nat :| i < n && events[i].Query? && Epoch(events, i) == Epoch(events, n)
        && FramesOf(find, events[i].pc) == g;
      assert Epoch(events, i) == Epoch(events, n + 1);
    } else {
      assert Epoch(events, n) == Epoch(events, n + 1);
    }
  }

  lemma AfterReset(find: Pc -> Found, events: seq<Event>, csids: seq<int>, n: nat, first: int, counter: int,
      ids: map<Frames, int>)
    requires Issued(find, events, csids, n, first, ids) && n < |events| && events[n].Reset?
      && Numbered(ids, first, counter)
    ensures Issued(find, events, csids + [counter], n + 1, counter, map[])
  {
    hide FramesOf, HasFrames, Numbered;
    var all := csids + [counter];
    forall i: nat | i < n + 1 && events[i].Query? ensures Epoch(events, i) != Epoch(events, n + 1) && all[i] < counter {
      EpochMonotone(events, i, n);
      OldIdBelow(find, events, csids, n, first, counter, ids, i);
    }
  }

  lemma OldIdBelow(find: Pc -> Found, events: seq<Event>, csids: seq<int>, n: nat, first: int, counter: int,
      ids: map<Frames, int>, i: nat)
    requires Issued(find, events, csids, n, first, ids) && Numbered(ids, first, counter) && i < n && events[i].Query?
    ensures csids[i] < counter
  {
    hide FramesOf, HasFrames, Epoch;
    assert IdIs(ids, FramesOf(find, events[i].pc), csids[i]) || csids[i] < first;
  }

  /** The ids of a new event against those given before. */
  lemma NewAgainstOld(find: Pc -> Found, events: seq<Event>, csids: seq<int>, n: nat, first: int, counter: int,
      ids: map<Frames, int>, i: nat)
    requires Issued(find, events, csids, n + 1, first, ids) && Numbered(ids, first, counter)
    requires i < n && events[i].Query? && events[n].Query?
    ensures csids[i] == csids[n] <==> SameStack(events, i, n)
    ensures Epoch(events, i) < Epoch(events, n) ==> csids[i] < csids[n]
  {
    hide FramesOf, UpToNull;
    EpochMonotone(events, i, n);
    SameFrames(find, events[i].pc, events[n].pc);
    assert Epoch(events, n) == Epoch(events, n + 1);
    assert IdIs(ids, FramesOf(find, events[n].pc), csids[n]);
  }

  /** The ids of all pairs of events. */
  ghost predicate RightIds(events: seq<Event>, csids: seq<int>, start: int, n: nat)
    requires n <= |csids| && n <= |events|
  {
    && (forall i: nat, j: nat :: i < j < n && events[i].Query? && events[j].Query? ==>
          (csids[i] == csids[j] <==> SameStack(events, i, j)))
    && (forall i: nat, j: nat :: i < j < n && events[i].Query? && events[j].Query? ==>
          Epoch(events, i) < Epoch(events, j) ==> csids[i] < csids[j])
    && (forall i: nat :: i < n && FirstArrival(events, i) ==> csids[i] == start + Arrivals(events, i))
  }

  /** Over any run of records and resets, with a traceback depth above 0: two ids are equal exactly when no reset is
      between them and the stacks agree up to the first NULL; new stacks get consecutive numbers in the order of their
      first arrival; and after a reset all ids are above all earlier ones, so that none is used again.  With a depth
      of 0 the operation alone gives the id. */
  method Run(c: CallSites, events: seq<Event>) returns (csids: seq<int>)
    requires c.Valid() && c.ids == map[]
    modifies c.repr
    ensures c.Valid() && fresh(c.repr - old(c.repr)) && |csids| == |events|
    ensures REPORT_STACK_DEPTH > 0 ==> RightIds(events, csids, old(c.counter), |events|)
    ensures REPORT_STACK_DEPTH == 0 ==>
      forall i :: 0 <= i < |events| && events[i].Query? ==> csids[i] == events[i].op - BASE
  {
    if REPORT_STACK_DEPTH == 0 {
      csids := RunShallow(c, events);
    } else {
      csids := RunDeep(c, events);
    }
  }

  method RunShallow(c: CallSites, events: seq<Event>) returns (csids: seq<int>)
    requires c.Valid() && REPORT_STACK_DEPTH == 0
    modifies c.repr
    ensures c.Valid() && fresh(c.repr - old(c.repr)) && |csids| == |events|
    ensures forall i :: 0 <= i < |events| && events[i].Query? ==> csids[i] == events[i].op - BASE
  {
    hide CallSites.Valid, FramesOf;
    csids := [];
    for n := 0 to |events|
      invariant c.Valid() && fresh(c.repr - old(c.repr)) && |csids| == n
      invariant forall i :: 0 <= i < n && events[i].Query? ==> csids[i] == events[i].op - BASE
    {
      var csid := Happen(c, events[n]);
      csids := csids + [csid];
    }
  }

  /** One event; a reset gives no id, and the counter stands for it. */
  method Happen(c: CallSites, e: Event) returns (csid: int)
    requires c.Valid()
    modifies c.repr
    ensures c.Valid() && fresh(c.repr - old(c.repr))
    ensures REPORT_STACK_DEPTH == 0 && e.Query? ==> csid == e.op - BASE
    ensures REPORT_STACK_DEPTH > 0 && e.Query? ==>
      var f := FramesOf(c.pcs.find, e.pc);
      && c.ids == (if f in old(c.ids) then old(c.ids) else old(c.ids)[f := old(c.counter)])
      && csid == c.ids[f] && c.first == old(c.first)
    ensures e.Reset? ==> c.ids == map[] && csid == c.counter == old(c.counter) == c.first
  {
    hide CallSites.Valid, FramesOf;
    match e
    case Query(pc, op) => csid := c.QuerySrc(pc, op);
    case Reset =>
      c.Inside();
      c.DrainIds();
      csid := c.counter;
  }

  method RunDeep(c: CallSites, events: seq<Event>) returns (csids: seq<int>)
    requires c.Valid() && c.ids == map[] && REPORT_STACK_DEPTH > 0
    modifies c.repr
    ensures c.Valid() && fresh(c.repr - old(c.repr)) && |csids| == |events|
    ensures RightIds(events, csids, old(c.counter), |events|)
  {
    hide CallSites.Valid, FramesOf, UpToNull, Numbered, Issued, RightIds, FirstArrival;
    csids := [];
    c.IdsNumbered();
    NothingIssued(c.pcs.find, events, c.first, c.counter);
    for n := 0 to |events|
      invariant c.Valid() && fresh(c.repr - old(c.repr)) && |csids| == n
      invariant Issued(c.pcs.find, events, csids, n, c.first, c.ids)
      invariant RightIds(events, csids, old(c.counter), n)
      invariant c.counter == old(c.counter) + Arrivals(events, n)
    {
      ghost var ids, first, counter := c.ids, c.first, c.counter;
      c.IdsNumbered();
      var csid := Happen(c, events[n]);
      c.IdsNumbered();
      RunStep(c.pcs.find, events, csids, n, first, counter, ids, c.first, c.counter, c.ids, old(c.counter), csid);
      csids := csids + [csid];
    }
  }

  lemma NothingIssued(find: Pc -> Found, events: seq<Event>, first: int, start: int)
    ensures Issued(find, events, [], 0, first, map[]) && RightIds(events, [], start, 0)
  {
  }

  lemma ResetArrives(events: seq<Event>, n: nat)
    requires n < |events| && events[n].Reset?
    ensures Arrivals(events, n + 1) == Arrivals(events, n)
  {
  }

  lemma RightReset(events: seq<Event>, csids: seq<int>, start: int, n: nat, csid: int)
    requires n == |csids| < |events| && events[n].Reset? && RightIds(events, csids, start, n)
    ensures RightIds(events, csids + [csid], start, n + 1)
  {
    hide SameStack, Epoch, Arrivals;
    var all := csids + [csid];
    assert forall i: nat :: i < n ==> all[i] == csids[i];
    assert !FirstArrival(events, n);
  }

  lemma RightQuery(find: Pc -> Found, events: seq<Event>, csids: seq<int>, start: int, n: nat, csid: int, first: int,
      counter: int, ids: map<Frames, int>)
    requires n == |csids| < |events| && events[n].Query? && RightIds(events, csids, start, n)
    requires Issued(find, events, csids + [csid], n + 1, first, ids) && Numbered(ids, first, counter)
    requires FirstArrival(events, n) ==> csid == start + Arrivals(events, n)
    ensures RightIds(events, csids + [csid], start, n + 1)
  {
    hide SameStack, Epoch, Arrivals, Issued, Numbered, FirstArrival;
    var all := csids + [csid];
    assert forall i: nat :: i < n ==> all[i] == csids[i];
    forall i: nat | i < n && events[i].Query?
      ensures all[i] == all[n] <==> SameStack(events, i, n)
      ensures Epoch(events, i) < Epoch(events, n) ==> all[i] < all[n]
    {
      NewAgainstOld(find, events, all, n, first, counter, ids, i);
    }
  }

  lemma NextCounter(ids: map<Frames, int>, ids': map<Frames, int>, first: int, counter: int, counter': int, f: Frames)
    requires Numbered(ids, first, counter) && Numbered(ids', first, counter')
    requires ids' == if f in ids then ids else ids[f := counter]
    ensures counter' == counter + if f in ids then 0 else 1
  {
    if f !in ids { NextNumber(ids, first, counter, f); }
  }

  /** One event keeps what has been shown of the ids. */
  lemma RunStep(find: Pc -> Found, events: seq<Event>, csids: seq<int>, n: nat, first: int, counter: int,
      ids: map<Frames, int>, first': int, counter': int, ids': map<Frames, int>, start: int, csid: int)
    requires n == |csids| < |events| && Issued(find, events, csids, n, first, ids) && RightIds(events, csids, start, n)
    requires Numbered(ids, first, counter) && Numbered(ids', first', counter') && counter == start + Arrivals(events, n)
    requires events[n].Query? ==>
      var f := FramesOf(find, events[n].pc);
      ids' == (if f in ids then ids else ids[f := counter]) && IdIs(ids', f, csid) && first' == first
    requires events[n].Reset? ==> ids' == map[] && csid == counter' == counter == first'
    ensures Issued(find, events, csids + [csid], n + 1, first', ids')
    ensures RightIds(events, csids + [csid], start, n + 1)
    ensures counter' == start + Arrivals(events, n + 1)
  {
    hide FramesOf, UpToNull, Issued, FirstArrival, RightIds;
    if events[n].Reset? {
      AfterReset(find, events, csids, n, first, counter, ids);
      ResetArrives(events, n);
      RightReset(events, csids, start, n, csid);
    } else {
      KnownIffArrived(find, events, csids, n, first, ids);
      AfterQuery(find, events, csids, n, first, ids, ids', csid);
      NextCounter(ids, ids', first, counter, counter', FramesOf(find, events[n].pc));
      RightQuery(find, events, csids, start, n, csid, first', counter', ids');
    }
  }
}
