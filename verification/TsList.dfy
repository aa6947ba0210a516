/** The multi-producer, single-consumer list, as a machine over its shared reads, writes,
    swaps and compare-and-swaps.

    Any number of threads append; one consumer dequeues or traverses.  Elements live at
    addresses; an address that was freed may be handed out again.  An access to an address
    that is not allocated is the outcome `Fault`.
*/
module TsLists {
  import opened Options

  type Id = nat    // the address of a list element
  type Tid = nat   // a thread
  type Data = nat  // the pointer that an element carries

  const HEAD: Id := 0  // the dummy element that `list->head` always points to

  datatype Elem = Elem(ptr: Data, next: Option<Id>)

  /** An append in progress: its element is ready, or the tail has been swapped and the link is missing. */
  datatype Append = Ready(elem: Id) | Swapped(elem: Id, prev: Id)

  /** Where the consumer is: the next shared access it makes. */
  datatype Consumer =
    | Idle
    // dequeue
    | CheckTail | CheckNext | LoadFirst
    | LoadNext(elem: Id) | LoadNextAgain(elem: Id) | StoreHead(elem: Id, after: Option<Id>) | ClearElem(elem: Id)
    | CutHead(elem: Id) | Cas(elem: Id) | Spin(elem: Id) | LoadHandover(elem: Id)
    | StoreHandover(elem: Id, after: Option<Id>)
    | LoadPtr(elem: Id) | Free(elem: Id, ret: Data)
    // first / next traversal
    | First | Visit(at: Option<Id>) | Advance(elem: Id)

  /** `appended` lists the payloads in the order of the tail swaps, `dequeued` the values that dequeues
      returned, `visited` the payloads seen by the latest traversal. */
  datatype State = State(
    heap: map<Id, Elem>,
    tail: Id,
    appends: map<Tid, Append>,
    consumer: Consumer,
    appended: seq<Data>,
    dequeued: seq<Data>,
    visited: seq<Data>)

  /** The loop that waits for a missing link: as the comment above it says, or as it is written. */
  datatype Wait = Meant | Written

  datatype Action =
    | Begin(t: Tid, data: Data, id: Id)  // allocate and fill an element at `id`
    | Swap(t: Tid)
    | Link(t: Tid)
    | StartDequeue
    | StartTraversal
    | Consume

  datatype Outcome = Next(s: State) | Disabled | Fault

  const INIT: State := State(map[HEAD := Elem(0, None)], HEAD, map[], Idle, [], [], [])

  function Do(w: Wait, s: State, a: Action): Outcome {
    match a
    case Begin(t, data, id) =>
      if t in s.appends || id in s.heap then Disabled
      else Next(s.(heap := s.heap[id := Elem(data, None)], appends := s.appends[t := Ready(id)]))
    case Swap(t) =>
      if t !in s.appends || !s.appends[t].Ready? then Disabled
      else
        var e := s.appends[t].elem;
        if e !in s.heap then Fault
        else Next(s.(tail := e, appends := s.appends[t := Swapped(e, s.tail)],
          appended := s.appended + [s.heap[e].ptr]))
    case Link(t) =>
      if t !in s.appends || !s.appends[t].Swapped? then Disabled
      else
        var p := s.appends[t].prev;
        if p !in s.heap then Fault
        else Next(s.(heap := SetNext(s.heap, p, Some(s.appends[t].elem)), appends := s.appends - {t}))
    case StartDequeue => if s.consumer.Idle? then Next(s.(consumer := CheckTail)) else Disabled
    case StartTraversal => if s.consumer.Idle? then Next(s.(consumer := First, visited := [])) else Disabled
    case Consume => ConsumerStep(w, s)
  }

  function SetNext(heap: map<Id, Elem>, at: Id, next: Option<Id>): map<Id, Elem>
    requires at in heap
  {
    heap[at := heap[at].(next := next)]
  }

  /** One shared access of the consumer. */
  function ConsumerStep(w: Wait, s: State): Outcome {
    match s.consumer
    case Idle => Disabled
    case CheckTail => Next(s.(consumer := if s.tail == HEAD then Idle else CheckNext))
    case CheckNext =>
      if HEAD !in s.heap then Fault
      else Next(s.(consumer := if s.heap[HEAD].next.None? then Idle else LoadFirst))
    case LoadFirst =>
      if HEAD !in s.heap || s.heap[HEAD].next.None? then Fault
      else Next(s.(consumer := LoadNext(s.heap[HEAD].next.value)))
    case LoadNext(e) =>
      if e !in s.heap then Fault
      else Next(s.(consumer := if s.heap[e].next.Some? then LoadNextAgain(e) else CutHead(e)))
    case LoadNextAgain(e) =>
      if e !in s.heap then Fault
      else Next(s.(consumer := StoreHead(e, s.heap[e].next)))
    case StoreHead(e, n) =>
      if HEAD !in s.heap then Fault
      else Next(s.(consumer := ClearElem(e), heap := SetNext(s.heap, HEAD, n)))
    case ClearElem(e) =>
      if e !in s.heap then Fault
      else Next(s.(consumer := LoadPtr(e), heap := SetNext(s.heap, e, None)))
    case CutHead(e) =>
      if HEAD !in s.heap then Fault
      else Next(s.(consumer := Cas(e), heap := SetNext(s.heap, HEAD, None)))
    case Cas(e) =>
      if s.tail == e then Next(s.(consumer := LoadPtr(e), tail := HEAD))
      else Next(s.(consumer := Spin(e)))
    case Spin(e) =>
      if e !in s.heap then Fault
      else Next(s.(consumer := if Waits(w, s.heap[e].next) then Spin(e) else LoadHandover(e)))
    case LoadHandover(e) =>
      if e !in s.heap then Fault
      else Next(s.(consumer := StoreHandover(e, s.heap[e].next)))
    case StoreHandover(e, n) =>
      if HEAD !in s.heap then Fault
      else Next(s.(consumer := LoadPtr(e), heap := SetNext(s.heap, HEAD, n)))
    case LoadPtr(e) =>
      if e !in s.heap then Fault
      else Next(s.(consumer := Free(e, s.heap[e].ptr)))
    case Free(e, r) =>
      if e !in s.heap then Fault
      else Next(s.(consumer := Idle, heap := s.heap - {e}, dequeued := s.dequeued + [r]))
    case First =>
      if HEAD !in s.heap then Fault
      else Next(s.(consumer := Visit(s.heap[HEAD].next)))
    case Visit(at) =>
      if at.None? then Next(s.(consumer := Idle))
      else if at.value !in s.heap then Fault
      else Next(s.(consumer := Advance(at.value), visited := s.visited + [s.heap[at.value].ptr]))
    case Advance(e) =>
      if e !in s.heap then Fault
      else Next(s.(consumer := Visit(s.heap[e].next)))
  }

  /** Whether the wait loop goes round again on the value it read. */
  predicate Waits(w: Wait, next: Option<Id>) {
    match w
    case Meant => next.None?
    case Written => next.Some?
  }

  function Run(w: Wait, s: State, acts: seq<Action>): Outcome
    decreases |acts|
  {
    if acts == [] then Next(s)
    else
      var o := Do(w, s, acts[0]);
      if o.Next? then Run(w, o.s, acts[1..]) else o
  }

  // ----- the invariant -----

  /** The elements in list order after the dummy: element `i` hangs on `Prev(q, i)`. */
  function Prev(q: seq<Id>, i: nat): Id
    requires i <= |q|
  {
    if i == 0 then HEAD else q[i - 1]
  }

  /** The consumer has cut the dummy's link and not yet restored it. */
  predicate Cut(c: Consumer) {
    c.Cas? || c.Spin? || c.LoadHandover? || c.StoreHandover?
  }

  predicate Linked(s: State, q: seq<Id>, i: nat)
    requires i < |q| && Prev(q, i) in s.heap
  {
    s.heap[Prev(q, i)].next == Some(q[i])
  }

  ghost predicate Pending(s: State, q: seq<Id>, i: nat)
    requires i < |q| && Prev(q, i) in s.heap
  {
    s.heap[Prev(q, i)].next.None? && exists t :: t in s.appends && s.appends[t] == Swapped(q[i], Prev(q, i))
  }

  /** The chain: distinct allocated elements, the last one is the tail, and no link after it. */
  ghost predicate Chain(s: State, q: seq<Id>) {
    && HEAD in s.heap
    && (forall i :: 0 <= i < |q| ==> q[i] in s.heap && q[i] != HEAD)
    && (forall i, j :: 0 <= i < j < |q| ==> q[i] != q[j])
    && s.tail == Prev(q, |q|)
    && s.heap[s.tail].next.None?
  }

  /** Every link is there or about to be made, and every pending append is one of the missing links. */
  ghost predicate Links(s: State, q: seq<Id>)
    requires Chain(s, q)
  {
    && (forall i: nat :: i < |q| && !(i == 0 && Cut(s.consumer)) ==> Linked(s, q, i) || Pending(s, q, i))
    && (forall t :: t in s.appends && s.appends[t].Swapped? ==> exists i: nat :: PendingAt(s, q, t, i))
    && (Cut(s.consumer) ==> s.heap[HEAD].next.None?)
  }

  ghost predicate PendingAt(s: State, q: seq<Id>, t: Tid, i: nat) {
    && i < |q| && t in s.appends && s.appends[t] == Swapped(q[i], Prev(q, i))
    && Prev(q, i) in s.heap && s.heap[Prev(q, i)].next.None?
    && !(i == 0 && Cut(s.consumer))
  }

  /** Elements not yet swapped in belong to one append each. */
  ghost predicate Owned(s: State, q: seq<Id>) {
    && (forall t :: t in s.appends && s.appends[t].Ready? ==>
      s.appends[t].elem in s.heap && s.appends[t].elem !in q && s.appends[t].elem != HEAD
      && s.heap[s.appends[t].elem].next.None?)
    && (forall t, u :: t in s.appends && u in s.appends && t != u ==> s.appends[t].elem != s.appends[u].elem)
  }

  /** What the consumer's local variables say about the list. */
  ghost predicate Local(s: State, q: seq<Id>)
    requires Chain(s, q)
  {
    match s.consumer
    case Idle => true
    case CheckTail => true
    case CheckNext => |q| > 0
    case LoadFirst => |q| > 0 && Linked(s, q, 0)
    case LoadNext(e) => |q| > 0 && Linked(s, q, 0) && e == q[0]
    case LoadNextAgain(e) => |q| > 1 && Linked(s, q, 0) && e == q[0] && Linked(s, q, 1)
    case StoreHead(e, n) => |q| > 1 && Linked(s, q, 0) && e == q[0] && Linked(s, q, 1) && n == Some(q[1])
    case CutHead(e) => |q| > 0 && Linked(s, q, 0) && e == q[0]
    case Cas(e) => |q| > 0 && e == q[0]
    case Spin(e) => |q| > 1 && e == q[0]
    case LoadHandover(e) => |q| > 1 && e == q[0]
    case StoreHandover(e, n) => |q| > 1 && e == q[0] && Linked(s, q, 1) && n == Some(q[1])
    case ClearElem(e) => Held(s, q, e)
    case LoadPtr(e) => Held(s, q, e)
    case Free(e, r) => Held(s, q, e) && s.heap[e].ptr == r
    case First => s.visited == []
    case Visit(at) =>
      && s.visited <= Payloads(s.heap, q)
      && (at.Some? ==> |s.visited| < |q| && at.value == q[|s.visited|])
    case Advance(e) =>
      && s.visited <= Payloads(s.heap, q)
      && 0 < |s.visited| && e == q[|s.visited| - 1]
  }

  ghost predicate Held(s: State, q: seq<Id>, e: Id) {
    && e in s.heap && e !in q && e != HEAD
    && forall t :: t in s.appends ==> s.appends[t].elem != e
  }

  function Payloads(heap: map<Id, Elem>, q: seq<Id>): (p: seq<Data>)
    requires forall i :: 0 <= i < |q| ==> q[i] in heap
    ensures |p| == |q|
  {
    seq(|q|, i requires 0 <= i < |q| => heap[q[i]].ptr)
  }

  function InHand(s: State): seq<Data> {
    match s.consumer
    case ClearElem(e) => if e in s.heap then [s.heap[e].ptr] else []
    case LoadPtr(e) => if e in s.heap then [s.heap[e].ptr] else []
    case Free(_, r) => [r]
    case _ => []
  }

  /** Nothing is lost, repeated or reordered: what was swapped in is what came out, what the consumer
      holds, and what is in the list, in this order. */
  ghost predicate Conserved(s: State, q: seq<Id>)
    requires Chain(s, q)
  {
    s.appended == s.dequeued + InHand(s) + Payloads(s.heap, q)
  }

  ghost predicate Inv(s: State, q: seq<Id>) {
    Chain(s, q) && Links(s, q) && Owned(s, q) && Local(s, q) && Conserved(s, q)
  }

  // ----- the appenders keep it -----

  /** The links stand if no link of the chain changed and the same appends are pending. */
  lemma LinksFrame(s: State, s': State, q: seq<Id>)
    requires Chain(s, q) && Links(s, q) && Chain(s', q)
    requires forall i: nat :: i < |q| ==> s'.heap[Prev(q, i)].next == s.heap[Prev(q, i)].next
    requires s'.heap[HEAD].next == s.heap[HEAD].next
    requires forall t :: t in s.appends && s.appends[t].Swapped? ==> t in s'.appends && s'.appends[t] == s.appends[t]
    requires forall t :: t in s'.appends && s'.appends[t].Swapped? ==> t in s.appends && s'.appends[t] == s.appends[t]
    requires Cut(s'.consumer) == Cut(s.consumer)
    ensures Links(s', q)
  {
    forall i: nat | i < |q| && !(i == 0 && Cut(s'.consumer)) ensures Linked(s', q, i) || Pending(s', q, i) {
      if Pending(s, q, i) {
        var u :| u in s.appends && s.appends[u] == Swapped(q[i], Prev(q, i));
        assert s'.appends[u] == s.appends[u];
      }
    }
    forall u | u in s'.appends && s'.appends[u].Swapped? ensures exists i: nat :: PendingAt(s', q, u, i) {
      var i: nat :| PendingAt(s, q, u, i);
      assert PendingAt(s', q, u, i);
    }
  }

  /** An appender's step that changes no record leaves the consumer's knowledge alone. */
  lemma LocalFrame(s: State, s': State, q: seq<Id>, q': seq<Id>)
    requires Chain(s, q) && Local(s, q) && Chain(s', q') && q <= q'
    requires s'.consumer == s.consumer && s'.visited == s.visited
    requires forall x :: x in s.heap ==> x in s'.heap && s'.heap[x] == s.heap[x]
    requires forall x :: x in s.heap && x !in q && (forall t :: t in s.appends ==> s.appends[t].elem != x) ==>
      x !in q' && (forall t :: t in s'.appends ==> s'.appends[t].elem != x)
    ensures Local(s', q') && InHand(s') == InHand(s)
  {
    assert Payloads(s.heap, q) <= Payloads(s'.heap, q');
    assert forall i: nat :: i < |q| ==> Prev(q', i) == Prev(q, i);
  }

  lemma BeginShape(w: Wait, s: State, q: seq<Id>, t: Tid, data: Data, id: Id)
    requires Inv(s, q) && t !in s.appends && id !in s.heap
    ensures Do(w, s, Begin(t, data, id)).Next?
    ensures var s' := Do(w, s, Begin(t, data, id)).s;
      Chain(s', q) && Owned(s', q) && Payloads(s'.heap, q) == Payloads(s.heap, q)
  {
    var s' := Do(w, s, Begin(t, data, id)).s;
    assert Payloads(s'.heap, q) == Payloads(s.heap, q);
    forall u | u in s.appends && s.appends[u].Swapped? ensures s.appends[u].elem in s.heap {
      var i: nat :| PendingAt(s, q, u, i);
    }
  }

  lemma BeginKeeps(w: Wait, s: State, q: seq<Id>, t: Tid, data: Data, id: Id)
    requires Inv(s, q) && t !in s.appends && id !in s.heap
    ensures Do(w, s, Begin(t, data, id)).Next? && Inv(Do(w, s, Begin(t, data, id)).s, q)
  {
    var s' := Do(w, s, Begin(t, data, id)).s;
    BeginShape(w, s, q, t, data, id);
    assert forall u :: u in s'.appends && u != t ==> s'.appends[u] == s.appends[u];
    LinksFrame(s, s', q);
    LocalFrame(s, s', q, q);
  }

  lemma SwapKeeps(w: Wait, s: State, q: seq<Id>, t: Tid)
    requires Inv(s, q) && t in s.appends && s.appends[t].Ready?
    ensures Do(w, s, Swap(t)).Next? && Inv(Do(w, s, Swap(t)).s, q + [s.appends[t].elem])
  {
    var s', e := Do(w, s, Swap(t)).s, s.appends[t].elem;
    SwapLinks(w, s, q, t);
    SwapConserves(w, s, q, t);
    LocalFrame(s, s', q, q + [e]);
  }

  lemma SwapConserves(w: Wait, s: State, q: seq<Id>, t: Tid)
    requires Chain(s, q) && Owned(s, q) && Conserved(s, q) && t in s.appends && s.appends[t].Ready?
    requires Do(w, s, Swap(t)).Next? && Chain(Do(w, s, Swap(t)).s, q + [s.appends[t].elem])
    ensures var s', q' := Do(w, s, Swap(t)).s, q + [s.appends[t].elem]; Conserved(s', q') && Owned(s', q')
  {
    var s', e := Do(w, s, Swap(t)).s, s.appends[t].elem;
    assert Payloads(s'.heap, q + [e]) == Payloads(s.heap, q) + [s.heap[e].ptr];
  }

  lemma SwapLinks(w: Wait, s: State, q: seq<Id>, t: Tid)
    requires Chain(s, q) && Links(s, q) && Owned(s, q) && t in s.appends && s.appends[t].Ready?
    requires |q| == 0 ==> !Cut(s.consumer)
    ensures Do(w, s, Swap(t)).Next?
    ensures var s', q' := Do(w, s, Swap(t)).s, q + [s.appends[t].elem]; Chain(s', q') && Links(s', q')
  {
    var s', e, n := Do(w, s, Swap(t)).s, s.appends[t].elem, |q|;
    var q' := q + [e];
    assert forall i: nat :: i <= n ==> Prev(q', i) == Prev(q, i);
    forall i: nat | i < |q'| && !(i == 0 && Cut(s'.consumer)) ensures Linked(s', q', i) || Pending(s', q', i) {
      if i == n {
        assert s'.appends[t] == Swapped(q'[n], Prev(q', n));
      } else if Pending(s, q, i) {
        var u :| u in s.appends && s.appends[u] == Swapped(q[i], Prev(q, i));
        assert s'.appends[u] == s.appends[u];
      }
    }
    forall u | u in s'.appends && s'.appends[u].Swapped? ensures exists i: nat :: PendingAt(s', q', u, i) {
      if u == t {
        assert PendingAt(s', q', u, n);
      } else {
        var i: nat :| PendingAt(s, q, u, i);
        assert PendingAt(s', q', u, i);
      }
    }
  }

  lemma LinkKeeps(w: Wait, s: State, q: seq<Id>, t: Tid)
    requires Inv(s, q) && t in s.appends && s.appends[t].Swapped?
    ensures Do(w, s, Link(t)).Next? && Inv(Do(w, s, Link(t)).s, q)
  {
    var k: nat :| PendingAt(s, q, t, k);
    var s' := Do(w, s, Link(t)).s;
    assert Payloads(s'.heap, q) == Payloads(s.heap, q);
    LinkLinks(w, s, q, t, k);
  }

  lemma LinkLinks(w: Wait, s: State, q: seq<Id>, t: Tid, k: nat)
    requires Chain(s, q) && Links(s, q) && Owned(s, q) && PendingAt(s, q, t, k)
    ensures Do(w, s, Link(t)).Next?
    ensures var s' := Do(w, s, Link(t)).s; Chain(s', q) && Links(s', q) && Linked(s', q, k)
    ensures var s' := Do(w, s, Link(t)).s; forall i: nat :: i < |q| && Linked(s, q, i) ==> Linked(s', q, i)
  {
    var s' := Do(w, s, Link(t)).s;
    assert forall i: nat :: i < |q| && i != k ==> Prev(q, i) != Prev(q, k);
    forall i: nat | i < |q| && !(i == 0 && Cut(s'.consumer)) ensures Linked(s', q, i) || Pending(s', q, i) {
      if i != k && Pending(s, q, i) {
        var u :| u in s.appends && s.appends[u] == Swapped(q[i], Prev(q, i));
        assert u != t;
        assert s'.appends[u] == s.appends[u];
      }
    }
    forall u | u in s'.appends && s'.appends[u].Swapped? ensures exists i: nat :: PendingAt(s', q, u, i) {
      var i: nat :| PendingAt(s, q, u, i);
      assert i != k;
      assert PendingAt(s', q, u, i);
    }
  }

  // ----- the consumer keeps it -----

  /** Line 96 is about to read a link that has not been made: the code as written only. */
  predicate BadHandover(s: State) {
    s.consumer.LoadHandover? && s.consumer.elem in s.heap && s.heap[s.consumer.elem].next.None?
  }

  predicate Loads(c: Consumer) {
    c.CheckTail? || c.CheckNext? || c.LoadFirst? || c.LoadNext? || c.LoadNextAgain? || c.Spin? || c.LoadHandover?
    || c.LoadPtr?
  }

  predicate Traversing(c: Consumer) {
    c.First? || c.Visit? || c.Advance?
  }

  /** A step that only reads the shared state. */
  ghost predicate OnlyReads(s: State, s': State) {
    && s'.heap == s.heap && s'.tail == s.tail && s'.appends == s.appends && s'.appended == s.appended
    && s'.dequeued == s.dequeued && InHand(s') == InHand(s) && Cut(s'.consumer) == Cut(s.consumer)
  }

  lemma LoadLocal(w: Wait, s: State, q: seq<Id>)
    requires Inv(s, q) && Loads(s.consumer) && !BadHandover(s)
    ensures ConsumerStep(w, s).Next?
    ensures OnlyReads(s, ConsumerStep(w, s).s) && Local(ConsumerStep(w, s).s, q)
  {
    NextLink(s, q, 0);
    if |q| > 0 { NextLink(s, q, 1); }
  }

  lemma TraversalLocal(w: Wait, s: State, q: seq<Id>)
    requires Inv(s, q) && Traversing(s.consumer)
    ensures ConsumerStep(w, s).Next?
    ensures OnlyReads(s, ConsumerStep(w, s).s) && Local(ConsumerStep(w, s).s, q)
  {
    NextLink(s, q, if s.consumer.Advance? then |s.visited| else 0);
  }

  /** A link that can be read leads to the next element. */
  lemma NextLink(s: State, q: seq<Id>, i: nat)
    requires Inv(s, q) && i <= |q|
    ensures s.heap[Prev(q, i)].next.Some? && !(i == 0 && Cut(s.consumer)) ==> i < |q| && Linked(s, q, i)
  {
  }

  lemma ReadKeeps(s: State, s': State, q: seq<Id>)
    requires Inv(s, q) && OnlyReads(s, s') && Local(s', q)
    ensures Inv(s', q)
  {
    LinksFrame(s, s', q);
  }

  /** Unlinking the first element when its successor is known: the rest of the chain hangs on the dummy. */
  lemma UnlinkLinks(s: State, s': State, q: seq<Id>)
    requires Inv(s, q) && |q| > 1 && Linked(s, q, 1) && (Linked(s, q, 0) || Cut(s.consumer))
    requires s'.heap == SetNext(s.heap, HEAD, Some(q[1])) && s'.tail == s.tail && s'.appends == s.appends
    requires !Cut(s'.consumer)
    ensures Chain(s', q[1..]) && Links(s', q[1..]) && Owned(s', q[1..])
    ensures Held(s', q[1..], q[0]) && s'.heap[q[0]].ptr == s.heap[q[0]].ptr
    ensures [s'.heap[q[0]].ptr] + Payloads(s'.heap, q[1..]) == Payloads(s.heap, q)
  {
    var r := q[1..];
    assert forall i: nat :: 0 < i < |q| ==> Prev(r, i) == Prev(q, i + 1);
    forall i: nat | i < |r| ensures Linked(s', r, i) || Pending(s', r, i) {
      if i > 0 && Pending(s, q, i + 1) {
        var u :| u in s.appends && s.appends[u] == Swapped(q[i + 1], Prev(q, i + 1));
        assert s'.appends[u] == Swapped(r[i], Prev(r, i));
      }
    }
    forall u | u in s'.appends && s'.appends[u].Swapped? ensures exists i: nat :: PendingAt(s', r, u, i) {
      var i: nat :| PendingAt(s, q, u, i);
      assert i > 1;
      assert PendingAt(s', r, u, i - 1);
    }
    UnlinkHeld(s, s', q);
  }

  lemma UnlinkHeld(s: State, s': State, q: seq<Id>)
    requires Inv(s, q) && |q| > 1 && (Linked(s, q, 0) || Cut(s.consumer))
    requires s'.heap == SetNext(s.heap, HEAD, Some(q[1])) && s'.appends == s.appends
    ensures Held(s', q[1..], q[0])
  {
    forall t | t in s'.appends ensures s'.appends[t].elem != q[0] {
      if s.appends[t].Swapped? {
        var i: nat :| PendingAt(s, q, t, i);
        assert i > 0;
      }
    }
  }

  lemma StoreKeeps(w: Wait, s: State, q: seq<Id>)
    requires Inv(s, q) && (s.consumer.StoreHead? || s.consumer.StoreHandover?)
    ensures ConsumerStep(w, s).Next? && Inv(ConsumerStep(w, s).s, q[1..])
  {
    var s' := ConsumerStep(w, s).s;
    UnlinkLinks(s, s', q);
  }

  lemma ClearKeeps(w: Wait, s: State, q: seq<Id>)
    requires Inv(s, q) && s.consumer.ClearElem?
    ensures ConsumerStep(w, s).Next? && Inv(ConsumerStep(w, s).s, q)
  {
    var s' := ConsumerStep(w, s).s;
    assert Payloads(s'.heap, q) == Payloads(s.heap, q);
    LinksFrame(s, s', q);
  }

  lemma FreeKeeps(w: Wait, s: State, q: seq<Id>)
    requires Inv(s, q) && s.consumer.Free?
    ensures ConsumerStep(w, s).Next? && Inv(ConsumerStep(w, s).s, q)
  {
    var s' := ConsumerStep(w, s).s;
    assert Payloads(s'.heap, q) == Payloads(s.heap, q);
    LinksFrame(s, s', q);
  }

  /** Cutting the dummy's link: the first element keeps its place, but its link is gone. */
  lemma CutKeeps(w: Wait, s: State, q: seq<Id>)
    requires Inv(s, q) && s.consumer.CutHead?
    ensures ConsumerStep(w, s).Next? && Inv(ConsumerStep(w, s).s, q)
  {
    var s' := ConsumerStep(w, s).s;
    assert Payloads(s'.heap, q) == Payloads(s.heap, q);
    CutLinks(s, s', q);
  }

  lemma CutLinks(s: State, s': State, q: seq<Id>)
    requires Inv(s, q) && |q| > 0 && Linked(s, q, 0) && Cut(s'.consumer)
    requires s'.heap == SetNext(s.heap, HEAD, None) && s'.tail == s.tail && s'.appends == s.appends
    ensures Chain(s', q) && Links(s', q)
  {
    forall i: nat | 0 < i < |q| ensures Linked(s', q, i) || Pending(s', q, i) {
      if Pending(s, q, i) {
        var u :| u in s.appends && s.appends[u] == Swapped(q[i], Prev(q, i));
        assert s'.appends[u] == s.appends[u];
      }
    }
    forall u | u in s'.appends && s'.appends[u].Swapped? ensures exists i: nat :: PendingAt(s', q, u, i) {
      var i: nat :| PendingAt(s, q, u, i);
      assert i > 0;
      assert PendingAt(s', q, u, i);
    }
  }

  /** The compare-and-swap: it succeeds exactly when the first element is the only one. */
  lemma CasKeeps(w: Wait, s: State, q: seq<Id>)
    requires Inv(s, q) && s.consumer.Cas?
    ensures s.tail == s.consumer.elem <==> |q| == 1
    ensures ConsumerStep(w, s).Next? && Inv(ConsumerStep(w, s).s, if |q| == 1 then [] else q)
  {
    var s' := ConsumerStep(w, s).s;
    if |q| == 1 {
      assert forall t, i: nat :: !PendingAt(s, q, t, i);
      assert Payloads(s.heap, q) == [s.heap[q[0]].ptr];
    } else {
      LinksFrame(s, s', q);
    }
  }

  /** The list after one step: a swap appends an element, an unlinking step removes the first. */
  function After(s: State, q: seq<Id>, a: Action): seq<Id> {
    match a
    case Swap(t) => if t in s.appends then q + [s.appends[t].elem] else q
    case Consume =>
      if |q| > 0 && (s.consumer.StoreHead? || s.consumer.StoreHandover?) then q[1..]
      else if |q| == 1 && s.consumer.Cas? then []
      else q
    case _ => q
  }

  /** One step of anybody keeps the invariant, and touches no freed element. */
  lemma StepKeeps(w: Wait, s: State, q: seq<Id>, a: Action)
    requires Inv(s, q) && !Do(w, s, a).Disabled? && !(a.Consume? && BadHandover(s))
    ensures Do(w, s, a).Next? && Inv(Do(w, s, a).s, After(s, q, a))
  {
    match a
    case Begin(t, data, id) => BeginKeeps(w, s, q, t, data, id);
    case Swap(t) => SwapKeeps(w, s, q, t);
    case Link(t) => LinkKeeps(w, s, q, t);
    case StartDequeue => ReadKeeps(s, Do(w, s, a).s, q);
    case StartTraversal => ReadKeeps(s, Do(w, s, a).s, q);
    case Consume => ConsumeKeeps(w, s, q);
  }

  lemma ConsumeKeeps(w: Wait, s: State, q: seq<Id>)
    requires Inv(s, q) && !s.consumer.Idle? && !BadHandover(s)
    ensures ConsumerStep(w, s).Next? && Inv(ConsumerStep(w, s).s, After(s, q, Consume))
  {
    if Loads(s.consumer) {
      LoadLocal(w, s, q);
      ReadKeeps(s, ConsumerStep(w, s).s, q);
    } else if Traversing(s.consumer) {
      TraversalLocal(w, s, q);
      ReadKeeps(s, ConsumerStep(w, s).s, q);
    } else if s.consumer.ClearElem? {
      ClearKeeps(w, s, q);
    } else if s.consumer.Free? {
      FreeKeeps(w, s, q);
    } else if s.consumer.CutHead? {
      CutKeeps(w, s, q);
    } else if s.consumer.Cas? {
      CasKeeps(w, s, q);
    } else {
      StoreKeeps(w, s, q);
    }
  }

  /** Links of the list stay until the consumer unlinks. */
  lemma LinkStays(w: Wait, s: State, q: seq<Id>, a: Action, i: nat)
    requires Inv(s, q) && (a.Begin? || a.Swap? || a.Link?) && Do(w, s, a).Next?
    requires i < |q| && Linked(s, q, i)
    ensures var s', q' := Do(w, s, a).s, After(s, q, a);
      q <= q' && i < |q'| && Prev(q', i) in s'.heap && Linked(s', q', i)
  {
    if a.Link? {
      var k: nat :| PendingAt(s, q, a.t, k);
      LinkLinks(w, s, q, a.t, k);
    } else {
      assert Prev(After(s, q, a), i) == Prev(q, i);
    }
  }

  // ----- whole runs -----

  /** No step of the run reads a missing link at line 96. */
  predicate NoBadHandover(w: Wait, s: State, acts: seq<Action>)
    decreases |acts|
  {
    acts == [] ||
    (!(acts[0].Consume? && BadHandover(s)) &&
     (Do(w, s, acts[0]).Next? ==> NoBadHandover(w, Do(w, s, acts[0]).s, acts[1..])))
  }

  lemma {:induction false} RunKeeps(w: Wait, s: State, q: seq<Id>, acts: seq<Action>) returns (q': seq<Id>)
    requires Inv(s, q) && NoBadHandover(w, s, acts)
    ensures !Run(w, s, acts).Fault?
    ensures Run(w, s, acts).Next? ==> Inv(Run(w, s, acts).s, q')
    decreases |acts|
  {
    q' := q;
    if acts != [] && !Do(w, s, acts[0]).Disabled? {
      StepKeeps(w, s, q, acts[0]);
      q' := RunKeeps(w, Do(w, s, acts[0]).s, After(s, q, acts[0]), acts[1..]);
    }
  }

  lemma InitInv()
    ensures Inv(INIT, [])
  {
  }

  // ----- what is appended -----

  /** The payloads that a run appends, read off its actions: each thread's payload at that thread's swap.  `held` are
      the payloads of appends that have begun. */
  function GivenFrom(acts: seq<Action>, held: map<Tid, Data>): seq<Data>
    decreases |acts|
  {
    if acts == [] then []
    else
      match acts[0]
      case Begin(t, data, _) => GivenFrom(acts[1..], held[t := data])
      case Swap(t) => (if t in held then [held[t]] else []) + GivenFrom(acts[1..], held)
      case _ => GivenFrom(acts[1..], held)
  }

  function Given(acts: seq<Action>): seq<Data> { GivenFrom(acts, map[]) }

  /** Every element that waits for its swap carries the payload of its thread. */
  ghost predicate Carries(s: State, held: map<Tid, Data>) {
    forall t :: t in s.appends && s.appends[t].Ready? ==>
      t in held && s.appends[t].elem in s.heap && s.heap[s.appends[t].elem].ptr == held[t]
  }

  function HeldAfter(held: map<Tid, Data>, a: Action): map<Tid, Data> {
    if a.Begin? then held[a.t := a.data] else held
  }

  /** A step that frees no waiting element keeps what they carry, and logs it when it is swapped in. */
  lemma CarriesStep(w: Wait, s: State, held: map<Tid, Data>, a: Action)
    requires Carries(s, held) && Do(w, s, a).Next?
    requires s.consumer.Free? ==> Unclaimed(s, s.consumer.elem)
    ensures var v := Do(w, s, a).s;
      && Carries(v, HeldAfter(held, a))
      && v.appended == s.appended + if a.Swap? then [held[a.t]] else []
  {
    if a.Consume? { CarriesConsume(w, s, held); }
  }

  lemma CarriesConsume(w: Wait, s: State, held: map<Tid, Data>)
    requires Carries(s, held) && ConsumerStep(w, s).Next?
    requires s.consumer.Free? ==> Unclaimed(s, s.consumer.elem)
    ensures Carries(ConsumerStep(w, s).s, held) && ConsumerStep(w, s).s.appended == s.appended
  {
  }

  /** After a bad handover the dummy is cut off for good: the consumer frees the element it holds and finds nothing
      from then on. */
  ghost predicate CutOff(s: State) {
    && HEAD in s.heap && s.heap[HEAD].next.None? && s.tail != HEAD
    && (forall t :: t in s.appends && s.appends[t].Swapped? ==> s.appends[t].prev != HEAD)
    && (forall t :: t in s.appends && s.appends[t].Ready? ==> s.appends[t].elem != HEAD)
    && match s.consumer
       case Idle => true
       case CheckTail => true
       case CheckNext => true
       case First => true
       case Visit(at) => at.None?
       case StoreHandover(e, after) => after.None? && Unclaimed(s, e)
       case LoadPtr(e) => Unclaimed(s, e)
       case Free(e, _) => Unclaimed(s, e)
       case _ => false
  }

  ghost predicate Unclaimed(s: State, e: Id) {
    e in s.heap && e != HEAD && forall t :: t in s.appends && s.appends[t].Ready? ==> s.appends[t].elem != e
  }

  lemma CutOffStep(w: Wait, s: State, a: Action)
    requires CutOff(s) && Do(w, s, a).Next?
    ensures CutOff(Do(w, s, a).s)
  {
  }

  lemma BadHandoverCutsOff(w: Wait, s: State, q: seq<Id>)
    requires Inv(s, q) && BadHandover(s)
    ensures ConsumerStep(w, s).Next? && CutOff(ConsumerStep(w, s).s)
  {
    forall t | t in s.appends && s.appends[t].Swapped? ensures s.appends[t].prev != HEAD {
      var i: nat :| PendingAt(s, q, t, i);
    }
  }

  lemma GivenFromFirst(held: map<Tid, Data>, acts: seq<Action>, rest: seq<Data>)
    requires acts != [] && rest == GivenFrom(acts[1..], HeldAfter(held, acts[0]))
    ensures var a := acts[0];
      GivenFrom(acts, held) == (if a.Swap? && a.t in held then [held[a.t]] else []) + rest
  {
  }

  /** The first action's share. */
  lemma GivenStep(w: Wait, s: State, held: map<Tid, Data>, acts: seq<Action>, rest: seq<Data>)
    requires acts != [] && Carries(s, held) && Do(w, s, acts[0]).Next?
    requires s.consumer.Free? ==> Unclaimed(s, s.consumer.elem)
    requires rest == GivenFrom(acts[1..], HeldAfter(held, acts[0]))
    ensures Carries(Do(w, s, acts[0]).s, HeldAfter(held, acts[0]))
    ensures Do(w, s, acts[0]).s.appended + rest == s.appended + GivenFrom(acts, held)
  {
    hide Do, Carries, Unclaimed, GivenFrom, HeldAfter;
    GivenFromFirst(held, acts, rest);
    CarriesStep(w, s, held, acts[0]);
    if acts[0].Swap? { SwapCarries(w, s, held, acts[0]); }
  }

  lemma {:induction false} GivenWhenCutOff(w: Wait, s: State, held: map<Tid, Data>, acts: seq<Action>)
    requires CutOff(s) && Carries(s, held) && Run(w, s, acts).Next?
    ensures Run(w, s, acts).s.appended == s.appended + GivenFrom(acts, held)
    decreases |acts|
  {
    if acts != [] {
      hide CutOff, Carries, Do, GivenFrom, Unclaimed, HeldAfter;
      CutOffFrees(s);
      CutOffStep(w, s, acts[0]);
      var h := HeldAfter(held, acts[0]);
      GivenStep(w, s, held, acts, GivenFrom(acts[1..], h));
      GivenWhenCutOff(w, Do(w, s, acts[0]).s, h, acts[1..]);
    } else {
      assert GivenFrom([], held) == [];
    }
  }

  lemma CutOffFrees(s: State)
    requires CutOff(s)
    ensures s.consumer.Free? ==> Unclaimed(s, s.consumer.elem)
  {
  }

  lemma SwapCarries(w: Wait, s: State, held: map<Tid, Data>, a: Action)
    requires Carries(s, held) && Do(w, s, a).Next? && a.Swap?
    ensures a.t in held
  {
  }

  lemma {:induction false} GivenFromHere(w: Wait, s: State, q: seq<Id>, held: map<Tid, Data>, acts: seq<Action>)
    requires Inv(s, q) && Carries(s, held) && Run(w, s, acts).Next?
    ensures Run(w, s, acts).s.appended == s.appended + GivenFrom(acts, held)
    decreases |acts|
  {
    if acts != [] {
      hide Inv, CutOff, Carries, Do, After, GivenFrom, BadHandover, Unclaimed, HeldAfter;
      var a := acts[0];
      var h := HeldAfter(held, a);
      InvFrees(s, q);
      GivenStep(w, s, held, acts, GivenFrom(acts[1..], h));
      if a.Consume? && BadHandover(s) {
        BadHandoverCutsOff(w, s, q);
        DoConsumes(w, s);
        GivenWhenCutOff(w, Do(w, s, a).s, h, acts[1..]);
      } else {
        StepKeeps(w, s, q, a);
        GivenFromHere(w, Do(w, s, a).s, After(s, q, a), h, acts[1..]);
      }
    } else {
      assert GivenFrom([], held) == [];
    }
  }

  lemma DoConsumes(w: Wait, s: State)
    ensures Do(w, s, Consume) == ConsumerStep(w, s)
  {
  }

  lemma InvFrees(s: State, q: seq<Id>)
    requires Inv(s, q)
    ensures s.consumer.Free? ==> Unclaimed(s, s.consumer.elem)
  {
  }

  /** In every run, with either wait and whatever else goes wrong, the payloads swapped in are those that the appends
      were given, in the order of the swaps. */
  lemma AppendedAreGiven(w: Wait, acts: seq<Action>)
    requires Run(w, INIT, acts).Next?
    ensures Run(w, INIT, acts).s.appended == Given(acts)
  {
    InitInv();
    GivenFromHere(w, INIT, [], map[], acts);
  }

  /** What a run may promise: the payloads in the order of the tail swaps are those that dequeues returned, the one
      that the consumer holds and those in the list, where every link is there or about to be made. */
  ghost predicate Fifo(s: State) {
    exists q: seq<Id> :: Inv(s, q)
  }

  // ----- the wait as meant -----

  /** With the wait as meant, the handover is reached only once the link is there. */
  ghost predicate LinkWaitedFor(s: State) {
    s.consumer.LoadHandover? ==> s.consumer.elem in s.heap && s.heap[s.consumer.elem].next.Some?
  }

  lemma MeantStep(s: State, q: seq<Id>, a: Action)
    requires Inv(s, q) && LinkWaitedFor(s) && Do(Meant, s, a).Next?
    ensures LinkWaitedFor(Do(Meant, s, a).s)
  {
  }

  lemma {:induction false} MeantNeverBad(s: State, q: seq<Id>, acts: seq<Action>)
    requires Inv(s, q) && LinkWaitedFor(s)
    ensures NoBadHandover(Meant, s, acts)
    ensures Run(Meant, s, acts).Next? ==> LinkWaitedFor(Run(Meant, s, acts).s)
    decreases |acts|
  {
    if acts != [] && Do(Meant, s, acts[0]).Next? {
      MeantStep(s, q, acts[0]);
      StepKeeps(Meant, s, q, acts[0]);
      MeantNeverBad(Do(Meant, s, acts[0]).s, After(s, q, acts[0]), acts[1..]);
    }
  }

  /** With the wait as meant, every run of any number of appenders and the consumer is safe and first-in
      first-out. */
  lemma MeantIsFifo(acts: seq<Action>)
    ensures !Run(Meant, INIT, acts).Fault?
    ensures Run(Meant, INIT, acts).Next? ==>
      var s := Run(Meant, INIT, acts).s;
      Fifo(s) && LinkWaitedFor(s) && s.appended == Given(acts) && s.dequeued <= Given(acts)
  {
    if Run(Meant, INIT, acts).Next? { AppendedAreGiven(Meant, acts); }
    InitInv();
    MeantNeverBad(INIT, [], acts);
    var q := RunKeeps(Meant, INIT, [], acts);
  }

  // ----- the wait as written -----

  predicate CasFails(s: State) {
    s.consumer.Cas? && s.tail != s.consumer.elem
  }

  predicate NoCasFailure(w: Wait, s: State, acts: seq<Action>)
    decreases |acts|
  {
    acts == [] ||
    (!(acts[0].Consume? && CasFails(s)) &&
     (Do(w, s, acts[0]).Next? ==> NoCasFailure(w, Do(w, s, acts[0]).s, acts[1..])))
  }

  predicate InSlowPath(c: Consumer) {
    c.Spin? || c.LoadHandover? || c.StoreHandover?
  }

  lemma {:induction false} NoFailureNoHandover(w: Wait, s: State, acts: seq<Action>)
    requires NoCasFailure(w, s, acts) && !InSlowPath(s.consumer)
    ensures NoBadHandover(w, s, acts)
    decreases |acts|
  {
    if acts != [] && Do(w, s, acts[0]).Next? {
      NoFailureNoHandover(w, Do(w, s, acts[0]).s, acts[1..]);
    }
  }

  /** As written, every run in which the compare-and-swap never fails is safe and first-in first-out. */
  lemma WrittenIsFifoIfCasSucceeds(acts: seq<Action>)
    requires NoCasFailure(Written, INIT, acts)
    ensures !Run(Written, INIT, acts).Fault?
    ensures Run(Written, INIT, acts).Next? ==>
      var s := Run(Written, INIT, acts).s; Fifo(s) && s.appended == Given(acts) && s.dequeued <= Given(acts)
  {
    if Run(Written, INIT, acts).Next? { AppendedAreGiven(Written, acts); }
    InitInv();
    NoFailureNoHandover(Written, INIT, acts);
    var q := RunKeeps(Written, INIT, [], acts);
  }

  /** The way the freed element gets written: the consumer finishes, then the late appender links. */
  function Finish(t: Tid): seq<Action> {
    [Consume, Consume, Consume, Consume, Link(t)]
  }

  lemma RunStep(w: Wait, s: State, a: Action, rest: seq<Action>)
    ensures Run(w, s, [a] + rest) == var o := Do(w, s, a); if o.Next? then Run(w, o.s, rest) else o
  {
    assert ([a] + rest)[1..] == rest;
  }

  lemma RunFinish(w: Wait, s: State, t: Tid)
    requires s.consumer.LoadHandover? && HEAD in s.heap && s.consumer.elem in s.heap && s.consumer.elem != HEAD
    requires t in s.appends && s.appends[t].Swapped?
    ensures var e, p := s.consumer.elem, s.appends[t].prev;
      Run(w, s, Finish(t)).Fault? <==> (p == e || p !in s.heap)
  {
    var e := s.consumer.elem;
    var s1 := s.(consumer := StoreHandover(e, s.heap[e].next));
    var s2 := s1.(consumer := LoadPtr(e), heap := SetNext(s.heap, HEAD, s.heap[e].next));
    var s3 := s2.(consumer := Free(e, s.heap[e].ptr));
    var s4 := s3.(consumer := Idle, heap := s2.heap - {e}, dequeued := s.dequeued + [s.heap[e].ptr]);
    assert Finish(t) == [Consume] + ([Consume] + ([Consume] + ([Consume] + ([Link(t)] + []))));
    RunStep(w, s, Consume, [Consume] + ([Consume] + ([Consume] + ([Link(t)] + []))));
    RunStep(w, s1, Consume, [Consume] + ([Consume] + ([Link(t)] + [])));
    RunStep(w, s2, Consume, [Consume] + ([Link(t)] + []));
    RunStep(w, s3, Consume, [Link(t)] + []);
    RunStep(w, s4, Link(t), []);
  }

  /** After a failed compare-and-swap the code as written can go on to write a freed element exactly when
      line 96 reads a link that is still missing. */
  lemma HandoverFaultsIff(s: State, q: seq<Id>)
    requires Inv(s, q) && s.consumer.LoadHandover?
    ensures BadHandover(s) <==> exists t :: t in s.appends && s.appends[t].Swapped? && Run(Written, s, Finish(t)).Fault?
  {
    if BadHandover(s) {
      assert Pending(s, q, 1);
      var t :| t in s.appends && s.appends[t] == Swapped(q[1], Prev(q, 1));
      RunFinish(Written, s, t);
    }
    forall t | t in s.appends && s.appends[t].Swapped? && Run(Written, s, Finish(t)).Fault? ensures BadHandover(s) {
      var i: nat :| PendingAt(s, q, t, i);
      RunFinish(Written, s, t);
    }
  }

  /** As written, once the link is there when the wait loop looks, the dequeue never returns. */
  lemma {:induction false} WrittenSpinsForever(s: State, q: seq<Id>, acts: seq<Action>)
    requires Inv(s, q) && s.consumer.Spin? && s.heap[s.consumer.elem].next.Some?
    ensures !Run(Written, s, acts).Fault?
    ensures Run(Written, s, acts).Next? ==>
      Run(Written, s, acts).s.consumer == s.consumer && Run(Written, s, acts).s.dequeued == s.dequeued
    decreases |acts|
  {
    if acts != [] && !Do(Written, s, acts[0]).Disabled? {
      var a := acts[0];
      StepKeeps(Written, s, q, a);
      assert Linked(s, q, 1) by { NextLink(s, q, 1); }
      if !a.Consume? { LinkStays(Written, s, q, a, 1); }
      WrittenSpinsForever(Do(Written, s, a).s, After(s, q, a), acts[1..]);
    }
  }

  // ----- traversal -----

  /** The first `k` links were there when the traversal began. */
  ghost predicate Walking(s: State, q: seq<Id>, k: nat) {
    && Inv(s, q) && Traversing(s.consumer) && k <= |q|
    && (forall i: nat :: i < k ==> Linked(s, q, i))
    && (s.consumer == Visit(None) ==> k <= |s.visited|)
  }

  lemma WalkingAppend(w: Wait, s: State, q: seq<Id>, k: nat, a: Action)
    requires Walking(s, q, k) && (a.Begin? || a.Swap? || a.Link?) && !Do(w, s, a).Disabled?
    ensures Do(w, s, a).Next? && Walking(Do(w, s, a).s, After(s, q, a), k)
  {
    StepKeeps(w, s, q, a);
    forall i: nat | i < k ensures Linked(Do(w, s, a).s, After(s, q, a), i) {
      LinkStays(w, s, q, a, i);
    }
  }

  lemma WalkingConsume(w: Wait, s: State, q: seq<Id>, k: nat)
    requires Walking(s, q, k) && s.consumer != Visit(None)
    ensures Do(w, s, Consume).Next? && Walking(Do(w, s, Consume).s, q, k)
  {
    TraversalLocal(w, s, q);
    var s' := Do(w, s, Consume).s;
    ReadKeeps(s, s', q);
    forall i: nat | i < k ensures Linked(s', q, i) {
      assert Linked(s, q, i);
    }
    if s'.consumer == Visit(None) {
      var m := |s'.visited|;
      assert s.heap[Prev(q, m)].next.None?;
      assert m < k ==> Linked(s, q, m);
    }
  }

  lemma WalkingStep(w: Wait, s: State, q: seq<Id>, k: nat, a: Action)
    requires Walking(s, q, k) && !(s.consumer == Visit(None) && a.Consume?) && !Do(w, s, a).Disabled?
    ensures Do(w, s, a).Next? && Walking(Do(w, s, a).s, After(s, q, a), k)
  {
    if a.Consume? { WalkingConsume(w, s, q, k); } else { WalkingAppend(w, s, q, k, a); }
  }

  /** What a finished traversal has seen. */
  ghost predicate SawPrefix(v: State, k: nat) {
    k <= |v.visited| && |v.dequeued| <= |v.appended| && v.visited <= v.appended[|v.dequeued|..]
  }

  predicate NoStart(acts: seq<Action>) {
    forall i :: 0 <= i < |acts| ==> !acts[i].StartDequeue? && !acts[i].StartTraversal?
  }

  lemma {:induction false} WalkSeesPrefix(w: Wait, s: State, q: seq<Id>, k: nat, acts: seq<Action>)
    requires Walking(s, q, k) && NoStart(acts)
    requires Run(w, s, acts).Next? && Run(w, s, acts).s.consumer == Visit(None)
    ensures SawPrefix(Run(w, s, acts).s, k)
    decreases |acts|
  {
    if acts == [] {
      TraversedPart(s, q);
    } else if s.consumer == Visit(None) && acts[0].Consume? {
      IdleStaysIdle(w, Do(w, s, acts[0]).s, acts[1..]);
    } else {
      WalkingStep(w, s, q, k, acts[0]);
      WalkSeesPrefix(w, Do(w, s, acts[0]).s, After(s, q, acts[0]), k, acts[1..]);
    }
  }

  lemma {:induction false} IdleStaysIdle(w: Wait, s: State, acts: seq<Action>)
    requires s.consumer.Idle? && NoStart(acts)
    ensures Run(w, s, acts).Next? ==> Run(w, s, acts).s.consumer.Idle?
    decreases |acts|
  {
    if acts != [] && Do(w, s, acts[0]).Next? {
      assert NoStart(acts[1..]);
      IdleStaysIdle(w, Do(w, s, acts[0]).s, acts[1..]);
    }
  }

  /** A traversal that runs to its end while threads append visits a prefix of the list in tail-swap order,
      and that prefix includes every element whose link and all earlier links were there when it began. */
  lemma TraversalVisitsPrefix(w: Wait, s: State, q: seq<Id>, k: nat, acts: seq<Action>)
    requires Inv(s, q) && s.consumer.Idle? && k <= |q| && (forall i: nat :: i < k ==> Linked(s, q, i))
    requires NoStart(acts)
    requires Run(w, s, [StartTraversal] + acts).Next? && Run(w, s, [StartTraversal] + acts).s.consumer == Visit(None)
    ensures SawPrefix(Run(w, s, [StartTraversal] + acts).s, k)
  {
    RunStep(w, s, StartTraversal, acts);
    StepKeeps(w, s, q, StartTraversal);
    var v := Do(w, s, StartTraversal).s;
    forall i: nat | i < k ensures i < |q| && Prev(q, i) in v.heap && Linked(v, q, i) {
      assert Linked(s, q, i);
      assert v.heap == s.heap;
    }
    WalkSeesPrefix(w, v, q, k, acts);
  }

  lemma TraversedPart(s: State, q: seq<Id>)
    requires Inv(s, q) && s.consumer == Visit(None)
    ensures |s.dequeued| <= |s.appended| && s.visited <= s.appended[|s.dequeued|..]
  {
    assert s.appended[|s.dequeued|..] == Payloads(s.heap, q);
  }

  // ----- draining with no append in flight -----

  /** The accesses of one dequeue when more than one element is in the list, and when just one is. */
  function DequeueActs(more: bool): seq<Action> {
    [StartDequeue, Consume, Consume, Consume, Consume] + RestActs(more)
  }

  function RestActs(more: bool): seq<Action> {
    if more then [Consume, Consume, Consume, Consume, Consume] else [Consume, Consume, Consume, Consume]
  }

  ghost predicate Quiet(s: State, q: seq<Id>) {
    Inv(s, q) && s.consumer.Idle? && s.appends == map[]
  }

  /** With no append in flight every link is there. */
  lemma QuietLinked(s: State, q: seq<Id>)
    requires Inv(s, q) && s.appends == map[] && !Cut(s.consumer)
    ensures forall i: nat :: i < |q| ==> Linked(s, q, i)
  {
  }

  /** The reads at the start of a dequeue find the first element. */
  lemma QuietReads(w: Wait, s: State, q: seq<Id>)
    requires Quiet(s, q) && |q| > 0
    ensures Run(w, s, [StartDequeue, Consume, Consume, Consume, Consume]) ==
      Next(s.(consumer := if |q| > 1 then LoadNextAgain(q[0]) else CutHead(q[0])))
  {
    QuietLinked(s, q);
    assert Linked(s, q, 0);
    if |q| > 1 { assert Linked(s, q, 1); }
    var a, b, c, d := s.(consumer := CheckTail), s.(consumer := CheckNext), s.(consumer := LoadFirst),
      s.(consumer := LoadNext(q[0]));
    assert [StartDequeue, Consume, Consume, Consume, Consume] ==
      [StartDequeue] + ([Consume] + ([Consume] + ([Consume] + ([Consume] + []))));
    RunStep(w, s, StartDequeue, [Consume] + ([Consume] + ([Consume] + ([Consume] + []))));
    RunStep(w, a, Consume, [Consume] + ([Consume] + ([Consume] + [])));
    RunStep(w, b, Consume, [Consume] + ([Consume] + []));
    RunStep(w, c, Consume, [Consume] + []);
    RunStep(w, d, Consume, []);
  }

  /** One consumer step with no append in flight. */
  lemma QuietStep(w: Wait, s: State, q: seq<Id>, rest: seq<Action>) returns (v: State)
    requires Inv(s, q) && s.appends == map[] && !s.consumer.Idle? && !BadHandover(s)
    ensures ConsumerStep(w, s) == Next(v) && Inv(v, After(s, q, Consume))
    ensures v.appends == map[] && v.appended == s.appended
    ensures Run(w, s, [Consume] + rest) == Run(w, v, rest)
  {
    StepKeeps(w, s, q, Consume);
    RunStep(w, s, Consume, rest);
    v := ConsumerStep(w, s).s;
  }

  /** From the read of the payload on. */
  lemma QuietHeld(w: Wait, s: State, q: seq<Id>) returns (v: State)
    requires Inv(s, q) && s.appends == map[] && s.consumer.LoadPtr?
    ensures Run(w, s, [Consume] + ([Consume] + [])) == Next(v) && Quiet(v, q) && v.appended == s.appended
    ensures v.dequeued == s.dequeued + InHand(s)
  {
    var a := QuietStep(w, s, q, [Consume] + []);
    v := QuietStep(w, a, q, []);
  }

  /** Unlinking a first element that has a successor. */
  lemma QuietUnlink(w: Wait, s: State, q: seq<Id>, rest: seq<Action>) returns (v: State)
    requires Inv(s, q) && s.appends == map[] && |q| > 1 && s.consumer == LoadNextAgain(q[0])
    ensures Run(w, s, [Consume] + ([Consume] + ([Consume] + rest))) == Run(w, v, rest)
    ensures Inv(v, q[1..]) && v.appends == map[] && v.consumer == LoadPtr(q[0])
    ensures v.appended == s.appended && v.dequeued == s.dequeued && InHand(v) == [s.heap[q[0]].ptr]
  {
    var a := QuietStep(w, s, q, [Consume] + ([Consume] + rest));
    assert a.consumer == StoreHead(q[0], s.heap[q[0]].next) && a.heap == s.heap;
    v := QuietStore(w, a, q, rest);
  }

  lemma QuietStore(w: Wait, s: State, q: seq<Id>, rest: seq<Action>) returns (v: State)
    requires Inv(s, q) && s.appends == map[] && s.consumer.StoreHead?
    ensures |q| > 1 && Run(w, s, [Consume] + ([Consume] + rest)) == Run(w, v, rest)
    ensures Inv(v, q[1..]) && v.appends == map[] && v.consumer == LoadPtr(q[0])
    ensures v.appended == s.appended && v.dequeued == s.dequeued && InHand(v) == [s.heap[q[0]].ptr]
  {
    var b := QuietStep(w, s, q, [Consume] + rest);
    v := QuietStep(w, b, q[1..], rest);
  }

  /** Unlinking the only element. */
  lemma QuietCut(w: Wait, s: State, q: seq<Id>, rest: seq<Action>) returns (v: State)
    requires Inv(s, q) && s.appends == map[] && |q| == 1 && s.consumer == CutHead(q[0])
    ensures Run(w, s, [Consume] + ([Consume] + rest)) == Run(w, v, rest)
    ensures Inv(v, []) && v.appends == map[] && v.consumer == LoadPtr(q[0])
    ensures v.appended == s.appended && v.dequeued == s.dequeued && InHand(v) == [s.heap[q[0]].ptr]
  {
    var a := QuietStep(w, s, q, [Consume] + rest);
    v := QuietStep(w, a, q, rest);
  }

  lemma QuietRest(w: Wait, s: State, q: seq<Id>) returns (v: State)
    requires Inv(s, q) && s.appends == map[] && |q| > 0
    requires s.consumer == if |q| > 1 then LoadNextAgain(q[0]) else CutHead(q[0])
    ensures Run(w, s, RestActs(|q| > 1)) == Next(v) && Quiet(v, q[1..]) && v.appended == s.appended
    ensures v.dequeued == s.dequeued + [s.heap[q[0]].ptr]
  {
    var tail := [Consume] + ([Consume] + []);
    if |q| > 1 {
      assert RestActs(true) == [Consume] + ([Consume] + ([Consume] + tail));
      v := QuietUnlink(w, s, q, tail);
    } else {
      assert RestActs(false) == [Consume] + ([Consume] + tail);
      v := QuietCut(w, s, q, tail);
      assert q[1..] == [];
    }
    v := QuietHeld(w, v, q[1..]);
  }

  lemma {:induction false} RunConcat(w: Wait, s: State, a: seq<Action>, b: seq<Action>)
    requires Run(w, s, a).Next?
    ensures Run(w, s, a + b) == Run(w, Run(w, s, a).s, b)
    decreases |a|
  {
    if a == [] {
      assert a + b == b;
    } else {
      assert (a + b)[1..] == a[1..] + b;
      RunConcat(w, Do(w, s, a[0]).s, a[1..], b);
    }
  }

  /** With no append in flight a dequeue returns the first element, whichever wait loop it has. */
  lemma QuietDequeue(w: Wait, s: State, q: seq<Id>) returns (v: State)
    requires Quiet(s, q) && |q| > 0
    ensures Run(w, s, DequeueActs(|q| > 1)) == Next(v) && Quiet(v, q[1..]) && v.appended == s.appended
    ensures v.dequeued == s.dequeued + [s.heap[q[0]].ptr]
  {
    var start := [StartDequeue, Consume, Consume, Consume, Consume];
    QuietReads(w, s, q);
    RunConcat(w, s, start, RestActs(|q| > 1));
    var m := Run(w, s, start).s;
    QuietLinked(s, q);
    assert Linked(s, q, 0) && (|q| > 1 ==> Linked(s, q, 1));
    assert Linked(m, q, 0) && (|q| > 1 ==> Linked(m, q, 1));
    ReadKeeps(s, m, q);
    v := QuietRest(w, m, q);
  }

  /** Releasing all handles once no thread appends: repeated dequeues return every payload that is left,
      in tail-swap order, and leave the list empty. */
  lemma {:induction false} Drains(w: Wait, s: State, q: seq<Id>) returns (acts: seq<Action>, v: State)
    requires Quiet(s, q)
    ensures Run(w, s, acts) == Next(v) && Quiet(v, []) && v.tail == HEAD && v.dequeued == v.appended == s.appended
    decreases |q|
  {
    if q == [] {
      acts, v := [], s;
    } else {
      var s1 := QuietDequeue(w, s, q);
      var rest;
      rest, v := Drains(w, s1, q[1..]);
      acts := DequeueActs(|q| > 1) + rest;
      RunConcat(w, s, DequeueActs(|q| > 1), rest);
    }
  }

  // ----- nothing is lost -----

  lemma SwapStep(w: Wait, s: State, q: seq<Id>, t: Tid) returns (v: State)
    requires Inv(s, q) && t in s.appends && s.appends[t].Ready?
    ensures Do(w, s, Swap(t)) == Next(v) && Inv(v, After(s, q, Swap(t))) && v.consumer == s.consumer
    ensures t in v.appends && v.appends[t].Swapped? && v.appends - {t} == s.appends - {t}
    ensures s.appended <= v.appended && (LinkWaitedFor(s) ==> LinkWaitedFor(v))
  {
    SwapKeeps(w, s, q, t);
    v := Do(w, s, Swap(t)).s;
  }

  lemma LinkStep(w: Wait, s: State, q: seq<Id>, t: Tid) returns (v: State)
    requires Inv(s, q) && t in s.appends && s.appends[t].Swapped?
    ensures Do(w, s, Link(t)) == Next(v) && Inv(v, q) && v.consumer == s.consumer
    ensures v.appends == s.appends - {t} && v.appended == s.appended && (LinkWaitedFor(s) ==> LinkWaitedFor(v))
  {
    LinkKeeps(w, s, q, t);
    v := Do(w, s, Link(t)).s;
  }

  /** Finishing one append: its swap if that is still to come, then its link. */
  lemma OneAppendFinishes(w: Wait, s: State, q: seq<Id>, t: Tid) returns (acts: seq<Action>, v: State, q': seq<Id>)
    requires Inv(s, q) && t in s.appends
    ensures Run(w, s, acts) == Next(v) && Inv(v, q') && v.appends == s.appends - {t}
    ensures v.consumer == s.consumer && s.appended <= v.appended && (LinkWaitedFor(s) ==> LinkWaitedFor(v))
  {
    hide Inv, Do, LinkWaitedFor, After;
    var m := s;
    acts, q' := [Link(t)] + [], q;
    if s.appends[t].Ready? {
      m := SwapStep(w, s, q, t);
      q' := After(s, q, Swap(t));
      RunStep(w, s, Swap(t), acts);
      acts := [Swap(t)] + acts;
    }
    v := LinkStep(w, m, q', t);
    RunStep(w, m, Link(t), []);
  }

  /** Finishing all appends that are in flight. */
  lemma {:induction false} AppendsFinish(w: Wait, s: State, q: seq<Id>)
    returns (acts: seq<Action>, v: State, q': seq<Id>)
    requires Inv(s, q)
    ensures Run(w, s, acts) == Next(v) && Inv(v, q') && v.appends == map[]
    ensures v.consumer == s.consumer && s.appended <= v.appended && (LinkWaitedFor(s) ==> LinkWaitedFor(v))
    decreases |s.appends|
  {
    if s.appends == map[] {
      acts, v, q' := [], s, q;
    } else {
      hide Inv;
      var t :| t in s.appends;
      var first, m, q1 := OneAppendFinishes(w, s, q, t);
      var rest;
      assert m.appends.Keys == s.appends.Keys - {t};
      assert |m.appends| == |m.appends.Keys| && |s.appends| == |s.appends.Keys|;
      rest, v, q' := AppendsFinish(w, m, q1);
      acts := first + rest;
      RunConcat(w, s, first, rest);
    }
  }

  /** How many accesses the consumer has still to make at most. */
  function Remaining(s: State, q: seq<Id>): int {
    match s.consumer
    case Idle => 0
    case Free(_, _) => 1
    case LoadPtr(_) => 2
    case ClearElem(_) => 3
    case StoreHead(_, _) => 4
    case LoadNextAgain(_) => 5
    case StoreHandover(_, _) => 3
    case LoadHandover(_) => 4
    case Spin(_) => 5
    case Cas(_) => 6
    case CutHead(_) => 7
    case LoadNext(_) => 8
    case LoadFirst => 9
    case CheckNext => 10
    case CheckTail => 11
    case First => 2 * |q| + 2
    case Visit(_) => 2 * (|q| - |s.visited|) + 1
    case Advance(_) => 2 * (|q| - |s.visited|) + 2
  }

  lemma RemainingNat(s: State, q: seq<Id>)
    requires Inv(s, q)
    ensures 0 <= Remaining(s, q)
  {
  }

  lemma SpinEnds(s: State, q: seq<Id>)
    requires Inv(s, q) && s.appends == map[] && s.consumer.Spin?
    ensures s.consumer.elem in s.heap && s.heap[s.consumer.elem].next.Some?
  {
    assert Linked(s, q, 1);
  }

  lemma WalkAdvances(s: State, q: seq<Id>)
    requires Inv(s, q) && Traversing(s.consumer) && ConsumerStep(Meant, s).Next?
    ensures Remaining(ConsumerStep(Meant, s).s, q) < Remaining(s, q)
  {
    assert s.visited <= Payloads(s.heap, q) || s.consumer.First?;
  }

  /** With no append in flight every access of the consumer brings it closer to its return. */
  lemma ConsumerAdvances(s: State, q: seq<Id>)
    requires Inv(s, q) && LinkWaitedFor(s) && s.appends == map[] && !s.consumer.Idle?
    ensures !BadHandover(s) && ConsumerStep(Meant, s).Next?
    ensures var v := ConsumerStep(Meant, s).s;
      && LinkWaitedFor(v) && v.appends == map[] && v.appended == s.appended
      && 0 <= Remaining(v, After(s, q, Consume)) < Remaining(s, q)
  {
    hide Inv;
    ConsumeKeeps(Meant, s, q);
    MeantStep(s, q, Consume);
    RemainingNat(ConsumerStep(Meant, s).s, After(s, q, Consume));
    if s.consumer.Spin? { SpinEnds(s, q); }
    if Traversing(s.consumer) { WalkAdvances(s, q); }
  }

  lemma {:induction false} ConsumerFinishes(s: State, q: seq<Id>) returns (acts: seq<Action>, v: State, q': seq<Id>)
    requires Inv(s, q) && LinkWaitedFor(s) && s.appends == map[]
    ensures Run(Meant, s, acts) == Next(v) && Quiet(v, q') && v.appended == s.appended
    decreases Remaining(s, q)
  {
    if s.consumer.Idle? {
      acts, v, q' := [], s, q;
    } else {
      ConsumerAdvances(s, q);
      StepKeeps(Meant, s, q, Consume);
      var rest;
      rest, v, q' := ConsumerFinishes(ConsumerStep(Meant, s).s, After(s, q, Consume));
      acts := [Consume] + rest;
      RunStep(Meant, s, Consume, rest);
    }
  }

  /** With the wait as meant nothing is ever lost or stuck: whatever point a run has reached, it can go on so that
      all appends finish and dequeues return every payload that any append was ever given, in tail-swap order. */
  lemma MeantLosesNothing(acts: seq<Action>) returns (rest: seq<Action>, v: State)
    requires Run(Meant, INIT, acts).Next?
    ensures Run(Meant, INIT, acts + rest) == Next(v) && Quiet(v, []) && v.tail == HEAD
    ensures v.dequeued == Given(acts + rest) && Given(acts) <= v.dequeued
  {
    hide Inv;
    MeantIsFifo(acts);
    var s := Run(Meant, INIT, acts).s;
    var q: seq<Id> :| Inv(s, q);
    var a, m, q1 := AppendsFinish(Meant, s, q);
    var b, n, q2 := ConsumerFinishes(m, q1);
    var c;
    c, v := Drains(Meant, n, q2);
    rest := a + (b + c);
    RunConcat(Meant, INIT, acts, rest);
    RunConcat(Meant, s, a, b + c);
    RunConcat(Meant, m, b, c);
    AppendedAreGiven(Meant, acts + rest);
  }

  /** As written, after every run in which the compare-and-swap never fails, the same, once no append and no dequeue
      or traversal is in progress. */
  lemma WrittenLosesNothingIfCasSucceeds(acts: seq<Action>) returns (rest: seq<Action>, v: State)
    requires NoCasFailure(Written, INIT, acts) && Run(Written, INIT, acts).Next?
    requires var s := Run(Written, INIT, acts).s; s.appends == map[] && s.consumer.Idle?
    ensures Run(Written, INIT, acts + rest) == Next(v) && Quiet(v, []) && v.tail == HEAD
    ensures v.dequeued == Given(acts)
  {
    hide Inv;
    WrittenIsFifoIfCasSucceeds(acts);
    var s := Run(Written, INIT, acts).s;
    var q: seq<Id> :| Inv(s, q);
    rest, v := Drains(Written, s, q);
    RunConcat(Written, INIT, acts, rest);
  }

  // ----- a run that goes wrong -----

  /** The consumer is about to cut the dummy's link; element 1 carries 10 and is the only one. */
  const BEFORE_RACE: State :=
    State(map[HEAD := Elem(0, Some(1)), 1 := Elem(10, None)], 1, map[], CutHead(1), [10], [], [])

  function RaceStart(): seq<Action> {
    [Begin(1, 10, 1)] + ([Swap(1)] + ([Link(1)] + [StartDequeue, Consume, Consume, Consume, Consume]))
  }

  /** Thread 2 swaps in address 2 before the compare-and-swap; the consumer then fails it, leaves the wait
      loop at once, reads the missing link and frees element 1; the late link writes the freed element. */
  function RaceEnd(): seq<Action> {
    [Begin(2, 20, 2)] + ([Swap(2)] + ([Consume] + ([Consume] + ([Consume] + Finish(2)))))
  }

  lemma RaceReached(w: Wait)
    ensures Run(w, INIT, RaceStart()) == Next(BEFORE_RACE)
  {
    var a := State(map[HEAD := Elem(0, None), 1 := Elem(10, None)], HEAD, map[1 := Ready(1)], Idle, [], [], []);
    var b := a.(tail := 1, appends := map[1 := Swapped(1, HEAD)], appended := [10]);
    var c := BEFORE_RACE.(consumer := Idle);
    var first := [StartDequeue, Consume, Consume, Consume, Consume];
    RunStep(w, INIT, Begin(1, 10, 1), [Swap(1)] + ([Link(1)] + first));
    RunStep(w, a, Swap(1), [Link(1)] + first);
    assert Do(w, a, Swap(1)) == Next(b);
    RunStep(w, b, Link(1), first);
    assert Do(w, b, Link(1)) == Next(c);
    RaceInv();
    QuietReads(w, c, [1]);
  }

  lemma RaceInv()
    ensures Quiet(BEFORE_RACE.(consumer := Idle), [1])
  {
    var c := BEFORE_RACE.(consumer := Idle);
    assert Linked(c, [1], 0);
    assert Payloads(c.heap, [1]) == [10];
  }

  /** Thread 2 has swapped in address 2 and the consumer is about to compare and swap. */
  const RACE: State :=
    State(map[HEAD := Elem(0, None), 1 := Elem(10, None), 2 := Elem(20, None)], 2, map[2 := Swapped(2, 1)], Cas(1),
          [10, 20], [], [])

  lemma RaceOn(w: Wait, rest: seq<Action>)
    ensures Run(w, BEFORE_RACE, [Begin(2, 20, 2)] + ([Swap(2)] + ([Consume] + rest))) == Run(w, RACE, rest)
  {
    var s := BEFORE_RACE;
    var a := s.(heap := s.heap[2 := Elem(20, None)], appends := map[2 := Ready(2)]);
    var b := RACE.(heap := a.heap, consumer := CutHead(1));
    RunStep(w, s, Begin(2, 20, 2), [Swap(2)] + ([Consume] + rest));
    RunStep(w, a, Swap(2), [Consume] + rest);
    assert Do(w, a, Swap(2)) == Next(b);
    RunStep(w, b, Consume, rest);
    assert Do(w, b, Consume) == Next(RACE);
  }

  lemma RaceLost(t: Tid, s: State)
    requires CasFails(s) && HEAD in s.heap && s.consumer.elem in s.heap && s.consumer.elem != HEAD
    requires s.heap[s.consumer.elem].next.None?
    requires t in s.appends && s.appends[t].Swapped? && s.appends[t].prev == s.consumer.elem
    ensures Run(Written, s, [Consume] + ([Consume] + Finish(t))).Fault?
  {
    var d, e := s.(consumer := Spin(s.consumer.elem)), s.(consumer := LoadHandover(s.consumer.elem));
    RunStep(Written, s, Consume, [Consume] + Finish(t));
    RunStep(Written, d, Consume, Finish(t));
    RunFinish(Written, e, t);
  }

  /** The code as written writes a freed element in this run. */
  lemma WrittenRaceFaults()
    ensures Run(Written, INIT, RaceStart() + RaceEnd()).Fault?
  {
    var tail := [Consume] + ([Consume] + Finish(2));
    RaceReached(Written);
    RunConcat(Written, INIT, RaceStart(), RaceEnd());
    RaceOn(Written, tail);
    RaceLost(2, RACE);
  }

  /** The same run with thread 2's link made before the compare-and-swap. */
  function SpinEnd(): seq<Action> {
    [Begin(2, 20, 2)] + ([Swap(2)] + ([Consume] + ([Link(2)] + ([Consume] + []))))
  }

  const SPINNING: State :=
    State(map[HEAD := Elem(0, None), 1 := Elem(10, Some(2)), 2 := Elem(20, None)], 2, map[], Spin(1), [10, 20], [], [])

  lemma SpinInv()
    ensures Inv(SPINNING, [1, 2])
  {
    assert Linked(SPINNING, [1, 2], 1);
    assert Payloads(SPINNING.heap, [1, 2]) == [10, 20];
  }

  lemma SpinOn()
    ensures Run(Written, RACE, [Link(2)] + ([Consume] + [])) == Next(SPINNING)
  {
    var a := SPINNING.(consumer := Cas(1));
    RunStep(Written, RACE, Link(2), [Consume] + []);
    assert Do(Written, RACE, Link(2)) == Next(a);
    RunStep(Written, a, Consume, []);
  }

  lemma SpinReached()
    ensures Run(Written, INIT, RaceStart() + SpinEnd()) == Next(SPINNING)
  {
    hide Do;
    RaceReached(Written);
    RunConcat(Written, INIT, RaceStart(), SpinEnd());
    RaceOn(Written, [Link(2)] + ([Consume] + []));
    SpinOn();
  }

  /** In this run the dequeue of the code as written never returns, whatever happens next. */
  lemma WrittenRaceSpins(acts: seq<Action>)
    ensures Run(Written, INIT, RaceStart() + SpinEnd()) == Next(SPINNING)
    ensures var o := Run(Written, INIT, RaceStart() + SpinEnd() + acts);
      !o.Fault? && (o.Next? ==> o.s.consumer == Spin(1) && o.s.dequeued == [])
  {
    hide Inv;
    SpinReached();
    SpinInv();
    RunConcat(Written, INIT, RaceStart() + SpinEnd(), acts);
    WrittenSpinsForever(SPINNING, [1, 2], acts);
  }

  /** After a failed compare-and-swap the code as written either never returns from this dequeue, or has a
      continuation in which a freed element is written; which one depends on whether the link is there. */
  lemma WrittenCasFailure(s: State, q: seq<Id>)
    requires Inv(s, q) && CasFails(s)
    ensures |q| > 1
    ensures Linked(s, q, 1) ==> forall acts :: Run(Written, s, [Consume] + acts).Next? ==>
      Run(Written, s, [Consume] + acts).s.consumer == Spin(q[0])
    ensures !Linked(s, q, 1) ==>
      exists t :: t in s.appends && Run(Written, s, [Consume] + ([Consume] + Finish(t))).Fault?
  {
    CasKeeps(Written, s, q);
    if Linked(s, q, 1) {
      var d := ConsumerStep(Written, s).s;
      forall acts | Run(Written, s, [Consume] + acts).Next?
        ensures Run(Written, s, [Consume] + acts).s.consumer == Spin(q[0])
      {
        RunStep(Written, s, Consume, acts);
        WrittenSpinsForever(d, q, acts);
      }
    } else {
      assert Pending(s, q, 1);
      var t :| t in s.appends && s.appends[t] == Swapped(q[1], Prev(q, 1));
      RaceLost(t, s);
    }
  }
}
