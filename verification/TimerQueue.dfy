/** The timer heap of server/src/timer_queue.cpp: an array kept in heap order by sifting, with the
    position of every timer recorded under its id. heap_hold moves an event down by one level
    only, so what the order guarantees, and when, is stated exactly. */
module TimerQueue {

  type uint64 = x: int | 0 <= x < 0x1_0000_0000_0000_0000

  /** The pioneer of an empty queue: -1 read as an unsigned number. */
  const NEVER: uint64 := 0xFFFF_FFFF_FFFF_FFFF

  datatype Event = Event(id: nat, timestamp: uint64, interval: nat)

  // ---------- the array ----------

  /** `(k - 1) / 2` rounding towards zero: the root is its own parent. */
  function Parent(k: nat): (p: nat)
    ensures k > 0 ==> p < k
  {
    if k == 0 then 0 else (k - 1) / 2
  }

  ghost predicate Heap(es: seq<Event>) {
    forall k :: 0 < k < |es| ==> es[Parent(k)].timestamp <= es[k].timestamp
  }

  function Swap(es: seq<Event>, j: nat, k: nat): (r: seq<Event>)
    requires j < |es| && k < |es|
    ensures |r| == |es| && r[j] == es[k] && r[k] == es[j]
    ensures forall x :: 0 <= x < |es| && x != j && x != k ==> r[x] == es[x]
    ensures multiset(r) == multiset(es)
  {
    es[j := es[k]][k := es[j]]
  }

  /** The event at k moves up while it is earlier than its parent. */
  function SiftUp(es: seq<Event>, k: nat): (r: seq<Event>)
    requires k < |es|
    ensures |r| == |es| && multiset(r) == multiset(es)
    decreases k
  {
    if es[k].timestamp < es[Parent(k)].timestamp then SiftUp(Swap(es, k, Parent(k)), Parent(k)) else es
  }

  /** The earliest of slot k and its children, the left one on a tie of the children. */
  function Smallest(es: seq<Event>, k: nat): (m: nat)
    requires k < |es|
    ensures k <= m < |es| && (m == k || Parent(m) == k) && es[m].timestamp <= es[k].timestamp
    ensures m == k || es[m].timestamp < es[k].timestamp
    ensures forall c :: 0 < c < |es| && Parent(c) == k ==> es[m].timestamp <= es[c].timestamp
  {
    var left, right := 2 * k + 1, 2 * k + 2;
    var m := if left < |es| && es[k].timestamp > es[left].timestamp then left else k;
    if right < |es| && es[m].timestamp > es[right].timestamp then right else m
  }

  /** heap_hold: the event at k changes places with an earlier child, once. */
  function Hold(es: seq<Event>, k: nat): (r: seq<Event>)
    ensures |r| == |es| && multiset(r) == multiset(es)
  {
    if k < |es| then Swap(es, Smallest(es, k), k) else es
  }

  /** The last event takes the place of the one at k. */
  function Vacate(es: seq<Event>, k: nat): (r: seq<Event>)
    requires k < |es|
    ensures |r| == |es| - 1
    ensures forall x :: 0 <= x < |r| ==> r[x] == if x == k then es[|es| - 1] else es[x]
  {
    es[k := es[|es| - 1]][..|es| - 1]
  }

  function Remove(es: seq<Event>, k: nat): (r: seq<Event>)
    requires k < |es|
    ensures |r| == |es| - 1
  {
    Hold(Vacate(es, k), k)
  }

  /** Exactly one event goes, and it is the one at k. */
  lemma RemoveConserves(es: seq<Event>, k: nat)
    requires k < |es|
    ensures multiset(Remove(es, k)) + multiset{es[k]} == multiset(es)
  {
    var n := |es| - 1;
    assert es == es[..n] + [es[n]];
    if k < n {
      assert es[..n] == es[..k] + [es[k]] + es[k + 1..n];
      assert Vacate(es, k) == es[..k] + [es[n]] + es[k + 1..n];
    } else {
      assert Vacate(es, k) == es[..n];
    }
  }

  // ---------- when the array stays a heap ----------

  lemma {:induction false} HeapRoot(es: seq<Event>, k: nat)
    requires Heap(es) && k < |es|
    ensures es[0].timestamp <= es[k].timestamp
    decreases k
  {
    if k > 0 {
      HeapRoot(es, Parent(k));
    }
  }

  /** All but slot k is in order, and the children of k also suit the parent of k. */
  ghost predicate HeapBut(es: seq<Event>, k: nat)
    requires k < |es|
  {
    && (forall c :: 0 < c < |es| && c != k ==> es[Parent(c)].timestamp <= es[c].timestamp)
    && (k > 0 ==> forall c :: 0 < c < |es| && Parent(c) == k ==> es[Parent(k)].timestamp <= es[c].timestamp)
  }

  lemma {:induction false} SiftUpHeap(es: seq<Event>, k: nat)
    requires k < |es| && HeapBut(es, k)
    ensures Heap(SiftUp(es, k))
    decreases k
  {
    if es[k].timestamp < es[Parent(k)].timestamp {
      SiftUpStep(es, k);
      SiftUpHeap(Swap(es, k, Parent(k)), Parent(k));
    }
  }

  lemma SiftUpStep(es: seq<Event>, k: nat)
    requires 0 < k < |es| && HeapBut(es, k) && es[k].timestamp < es[Parent(k)].timestamp
    ensures HeapBut(Swap(es, k, Parent(k)), Parent(k))
  {
    var p := Parent(k);
    var r := Swap(es, k, p);
    forall c | 0 < c < |r| && c != p
      ensures r[Parent(c)].timestamp <= r[c].timestamp
    {
    }
    if p > 0 {
      forall c | 0 < c < |r| && Parent(c) == p
        ensures r[Parent(p)].timestamp <= r[c].timestamp
      {
        assert es[Parent(p)].timestamp <= es[p].timestamp;
      }
    }
  }

  /** Adding keeps the heap. */
  lemma AddKeepsHeap(es: seq<Event>, e: Event)
    requires Heap(es)
    ensures Heap(SiftUp(es + [e], |es|))
  {
    SiftUpHeap(es + [e], |es|);
  }

  /** The last event fits into slot k with one step down: it is not earlier than the parent of k,
      and not later than the children of the smaller child of k. */
  predicate Fits(es: seq<Event>, k: nat)
    requires k < |es|
  {
    var n := |es| - 1;
    k == n ||
    (var m := Smallest(Vacate(es, k), k);
     && (k > 0 ==> es[Parent(k)].timestamp <= es[n].timestamp)
     && (m != k && 2 * m + 1 < n ==> es[n].timestamp <= es[2 * m + 1].timestamp)
     && (m != k && 2 * m + 2 < n ==> es[n].timestamp <= es[2 * m + 2].timestamp))
  }

  /** Removing an event from a heap leaves a heap if and only if the last event fits. */
  lemma RemoveKeepsHeap(es: seq<Event>, k: nat)
    requires Heap(es) && k < |es|
    ensures Heap(Remove(es, k)) <==> Fits(es, k)
  {
    if k == |es| - 1 {
      assert Remove(es, k) == es[..k];
    } else {
      if Fits(es, k) {
        FitsKeeps(es, k);
      } else {
        MisfitBreaks(es, k);
      }
    }
  }

  /** Where everything is after the removal from a slot before the last. */
  lemma RemoveSlots(es: seq<Event>, k: nat, x: nat)
    requires k < |es| - 1 && x < |es| - 1
    ensures var v := Vacate(es, k); var m := Smallest(v, k);
            Remove(es, k)[x] == if x == m then es[|es| - 1] else if x == k then es[m] else es[x]
  {
  }

  lemma FitsKeeps(es: seq<Event>, k: nat)
    requires Heap(es) && k < |es| - 1 && Fits(es, k)
    ensures Heap(Remove(es, k))
  {
    forall c | 0 < c < |es| - 1
      ensures Remove(es, k)[Parent(c)].timestamp <= Remove(es, k)[c].timestamp
    {
      FitsKeepsAt(es, k, c);
    }
  }

  lemma FitsKeepsAt(es: seq<Event>, k: nat, c: nat)
    requires Heap(es) && k < |es| - 1 && Fits(es, k) && 0 < c < |es| - 1
    ensures Remove(es, k)[Parent(c)].timestamp <= Remove(es, k)[c].timestamp
  {
    hide Remove, Vacate, Smallest;
    var m := Smallest(Vacate(es, k), k);
    RemoveSlots(es, k, c);
    RemoveSlots(es, k, Parent(c));
    assert es[Parent(c)].timestamp <= es[c].timestamp;
    assert m != k ==> es[k].timestamp <= es[m].timestamp;
    assert Parent(c) == m ==> c == 2 * m + 1 || c == 2 * m + 2;
  }

  lemma MisfitBreaks(es: seq<Event>, k: nat)
    requires Heap(es) && k < |es| - 1 && !Fits(es, k)
    ensures !Heap(Remove(es, k))
  {
    hide Remove, Vacate, Smallest, Heap;
    var n, m := |es| - 1, Smallest(Vacate(es, k), k);
    if k > 0 && es[Parent(k)].timestamp > es[n].timestamp {
      EarlierThanParent(es, k);
    } else if 2 * m + 1 < n && es[n].timestamp > es[2 * m + 1].timestamp {
      LaterThanChild(es, k, 2 * m + 1);
    } else {
      LaterThanChild(es, k, 2 * m + 2);
    }
  }

  lemma EarlierThanParent(es: seq<Event>, k: nat)
    requires Heap(es) && 0 < k < |es| - 1 && es[Parent(k)].timestamp > es[|es| - 1].timestamp
    ensures !Heap(Remove(es, k))
  {
    hide Remove, Vacate, Smallest;
    assert es[Parent(k)].timestamp <= es[k].timestamp;
    RemoveSlots(es, k, k);
    RemoveSlots(es, k, Parent(k));
    assert Remove(es, k)[Parent(k)].timestamp > Remove(es, k)[k].timestamp;
  }

  lemma LaterThanChild(es: seq<Event>, k: nat, c: nat)
    requires Heap(es) && k < c < |es| - 1 && Parent(c) == Smallest(Vacate(es, k), k) != k
    requires es[c].timestamp < es[|es| - 1].timestamp
    ensures !Heap(Remove(es, k))
  {
    hide Remove, Vacate, Smallest;
    RemoveSlots(es, k, c);
    RemoveSlots(es, k, Parent(c));
    assert Remove(es, k)[Parent(c)].timestamp > Remove(es, k)[c].timestamp;
  }

  /** Up to four events fit always. */
  lemma SmallHeapsStay(es: seq<Event>, k: nat)
    requires Heap(es) && k < |es| <= 4
    ensures Fits(es, k)
  {
    if 0 < k < |es| - 1 {
      assert Parent(k) == 0;
      HeapRoot(es, |es| - 1);
    }
  }

  /** Five events in heap order of which the fifth does not fit at the root. */
  const FIVE := [Event(0, 1, 0), Event(1, 2, 0), Event(2, 10, 0), Event(3, 3, 0), Event(4, 11, 0)]

  lemma FifthMisfits()
    ensures Heap(FIVE) && !Fits(FIVE, 0)
  {
    assert Vacate(FIVE, 0)[0] == FIVE[4];
    assert Smallest(Vacate(FIVE, 0), 0) == 1;
  }

  // ---------- the queue as a state machine ----------

  datatype Queue = Queue(events: seq<Event>, nextId: nat, pioneer: uint64)

  /** add_timer. */
  function Added(q: Queue, timestamp: uint64, interval: nat): (r: Queue)
  {
    var es := SiftUp(q.events + [Event(q.nextId, timestamp, interval)], |q.events|);
    Queue(es, q.nextId + 1, if es[0].timestamp < q.pioneer then es[0].timestamp else q.pioneer)
  }

  /** del_timer on the slot a timer stands in. */
  function Deleted(q: Queue, k: nat): (r: Queue)
    requires k < |q.events|
  {
    var es := Remove(q.events, k);
    Queue(es, q.nextId,
      if es == [] then NEVER else if es[0].timestamp < q.pioneer then es[0].timestamp else q.pioneer)
  }

  /** get_timo: the events fired, in order, and what is left of the array. */
  function Fire(es: seq<Event>, pioneer: uint64): (r: (seq<Event>, seq<Event>))
    ensures multiset(r.0) + multiset(r.1) == multiset(es)
    decreases |es|
  {
    if es != [] && es[0].timestamp == pioneer then
      var r := Fire(Remove(es, 0), pioneer);
      RemoveConserves(es, 0);
      ([es[0]] + r.0, r.1)
    else ([], es)
  }

  datatype Op = Add(timestamp: uint64, interval: nat) | Delete(id: nat) | Timo

  function SlotOf(es: seq<Event>, id: nat): (k: nat)
    ensures k <= |es| && (k < |es| ==> es[k].id == id)
    ensures k == |es| ==> forall x :: 0 <= x < |es| ==> es[x].id != id
  {
    if es == [] then 0
    else if es[0].id == id then 0
    else 1 + SlotOf(es[1..], id)
  }

  function Step(q: Queue, op: Op): Queue {
    match op
    case Add(timestamp, interval) => Added(q, timestamp, interval)
    case Delete(id) => if SlotOf(q.events, id) < |q.events| then Deleted(q, SlotOf(q.events, id)) else q
    case Timo => q.(events := Fire(q.events, q.pioneer).1)
  }

  function Run(q: Queue, ops: seq<Op>): Queue
  {
    if ops == [] then q else Step(Run(q, ops[..|ops| - 1]), ops[|ops| - 1])
  }

  /** Every queued event has its own id, all given out before. */
  ghost predicate DistinctIds(q: Queue) {
    && (forall e :: e in multiset(q.events) ==> e.id < q.nextId && multiset(q.events)[e] == 1)
    && (forall e, f :: e in multiset(q.events) && f in multiset(q.events) && e.id == f.id ==> e == f)
  }

  /** No queued event is earlier than the pioneer. */
  ghost predicate PioneerLow(q: Queue) {
    forall e :: e in multiset(q.events) ==> q.pioneer <= e.timestamp
  }

  ghost predicate Inv(q: Queue) {
    DistinctIds(q) && PioneerLow(q)
  }

  const EMPTY := Queue([], 0, NEVER)

  // ---------- what every run keeps ----------

  /** An event earlier than all others gets to the root, in heap order or not. */
  lemma {:induction false} SiftUpEarliest(es: seq<Event>, k: nat)
    requires k < |es| && forall x :: 0 <= x < |es| && x != k ==> es[k].timestamp < es[x].timestamp
    ensures SiftUp(es, k)[0] == es[k]
    decreases k
  {
    if k > 0 {
      SiftUpEarliest(Swap(es, k, Parent(k)), Parent(k));
    }
  }

  lemma InMultiset(es: seq<Event>)
    ensures forall k :: 0 <= k < |es| ==> es[k] in multiset(es)
    ensures forall e :: e in multiset(es) ==> e in es
  {
  }

  lemma AddedKeepsInv(q: Queue, timestamp: uint64, interval: nat)
    requires Inv(q)
    ensures Inv(Added(q, timestamp, interval))
  {
    hide SiftUp, DistinctIds, PioneerLow;
    AddedIds(q, timestamp, interval);
    AddedPioneer(q, timestamp, interval);
  }

  lemma AddedIds(q: Queue, timestamp: uint64, interval: nat)
    requires DistinctIds(q)
    ensures DistinctIds(Added(q, timestamp, interval))
  {
    hide SiftUp;
    var e, r := Event(q.nextId, timestamp, interval), Added(q, timestamp, interval);
    assert multiset(r.events) == multiset(q.events) + multiset{e};
    assert e !in multiset(q.events);
  }

  lemma AddedPioneer(q: Queue, timestamp: uint64, interval: nat)
    requires PioneerLow(q)
    ensures PioneerLow(Added(q, timestamp, interval))
  {
    hide SiftUp;
    var e, n := Event(q.nextId, timestamp, interval), |q.events|;
    var all := q.events + [e];
    assert multiset(SiftUp(all, n)) == multiset(q.events) + multiset{e};
    if timestamp < q.pioneer {
      forall x | 0 <= x < |all| && x != n
        ensures all[n].timestamp < all[x].timestamp
      {
        assert all[x] == q.events[x] && q.events[x] in multiset(q.events);
      }
      SiftUpEarliest(all, n);
    }
  }

  lemma SubsetKeepsInv(q: Queue, es: seq<Event>, gone: multiset<Event>)
    requires Inv(q) && multiset(es) + gone == multiset(q.events)
    ensures Inv(q.(events := es))
  {
    assert forall e :: e in multiset(es) ==> e in multiset(q.events);
  }

  lemma StepKeepsInv(q: Queue, op: Op)
    requires Inv(q)
    ensures Inv(Step(q, op))
  {
    hide SiftUp, Remove, Fire, Inv;
    match op
    case Add(timestamp, interval) => AddedKeepsInv(q, timestamp, interval);
    case Delete(id) =>
      var k := SlotOf(q.events, id);
      if k < |q.events| {
        DeletedKeepsInv(q, k);
      }
    case Timo =>
      var r := Fire(q.events, q.pioneer);
      SubsetKeepsInv(q, r.1, multiset(r.0));
  }

  /** The pioneer only changes when the last timer goes. */
  lemma DeletedKeepsInv(q: Queue, k: nat)
    requires Inv(q) && k < |q.events|
    ensures Inv(Deleted(q, k))
    ensures Deleted(q, k).pioneer == if |q.events| == 1 then NEVER else q.pioneer
  {
    hide Remove;
    var es := Remove(q.events, k);
    RemoveConserves(q.events, k);
    SubsetKeepsInv(q, es, multiset{q.events[k]});
    InMultiset(es);
  }

  /** Whatever the order of the calls: ids stay distinct and no queued event is earlier than the
      pioneer. */
  lemma {:induction false} RunsKeepInv(ops: seq<Op>)
    ensures Inv(Run(EMPTY, ops))
  {
    if ops != [] {
      RunsKeepInv(ops[..|ops| - 1]);
      StepKeepsInv(Run(EMPTY, ops[..|ops| - 1]), ops[|ops| - 1]);
    }
  }

  /** What a call takes out: the named timer, or the fired ones. */
  function Gone(q: Queue, op: Op): multiset<Event> {
    match op
    case Add(_, _) => multiset{}
    case Delete(id) =>
      var k := SlotOf(q.events, id);
      if k < |q.events| then multiset{q.events[k]} else multiset{}
    case Timo => multiset(Fire(q.events, q.pioneer).0)
  }

  /** No timer is lost or doubled: a call adds the new timer, takes out what it names or fires,
      and keeps all others. */
  lemma StepConserves(q: Queue, op: Op)
    ensures multiset(Step(q, op).events) + Gone(q, op) ==
            multiset(q.events) + if op.Add? then multiset{Event(q.nextId, op.timestamp, op.interval)} else multiset{}
  {
    hide SiftUp, Remove, Fire;
    if op.Delete? && SlotOf(q.events, op.id) < |q.events| {
      RemoveConserves(q.events, SlotOf(q.events, op.id));
    }
  }

  // ---------- over which runs the array stays a heap ----------

  /** Every removal of get_timo finds a last event that fits. */
  predicate PopsFit(es: seq<Event>, pioneer: uint64)
    decreases |es|
  {
    es != [] && es[0].timestamp == pioneer ==> Fits(es, 0) && PopsFit(Remove(es, 0), pioneer)
  }

  /** The array is a heap before get_timo and after each of its removals. */
  ghost predicate PopsStay(es: seq<Event>, pioneer: uint64)
    decreases |es|
  {
    Heap(es) && (es != [] && es[0].timestamp == pioneer ==> PopsStay(Remove(es, 0), pioneer))
  }

  lemma {:induction false} PopsExact(es: seq<Event>, pioneer: uint64)
    requires Heap(es)
    ensures PopsStay(es, pioneer) <==> PopsFit(es, pioneer)
    ensures PopsStay(es, pioneer) ==> Heap(Fire(es, pioneer).1)
    decreases |es|
  {
    hide Heap, Fits, Remove;
    if es != [] && es[0].timestamp == pioneer {
      RemoveKeepsHeap(es, 0);
      if Fits(es, 0) {
        PopsExact(Remove(es, 0), pioneer);
      } else {
        PopsStayHeap(Remove(es, 0), pioneer);
      }
    }
  }

  lemma PopsStayHeap(es: seq<Event>, pioneer: uint64)
    ensures PopsStay(es, pioneer) ==> Heap(es)
  {
  }

  /** Every single removal of one call fits at its moment. */
  predicate StepFits(q: Queue, op: Op) {
    match op
    case Add(_, _) => true
    case Delete(id) => SlotOf(q.events, id) < |q.events| ==> Fits(q.events, SlotOf(q.events, id))
    case Timo => PopsFit(q.events, q.pioneer)
  }

  /** The array is a heap after every single addition and removal of one call. */
  ghost predicate StepStays(q: Queue, op: Op) {
    Heap(Step(q, op).events) && (op.Timo? ==> PopsStay(q.events, q.pioneer))
  }

  lemma StepStaysExactly(q: Queue, op: Op)
    requires Heap(q.events)
    ensures StepStays(q, op) <==> StepFits(q, op)
  {
    hide Heap, Fits, Remove, PopsFit, PopsStay, Fire, SiftUp;
    match op
    case Add(timestamp, interval) => AddKeepsHeap(q.events, Event(q.nextId, timestamp, interval));
    case Delete(id) =>
      var k := SlotOf(q.events, id);
      if k < |q.events| {
        RemoveKeepsHeap(q.events, k);
      }
    case Timo => PopsExact(q.events, q.pioneer);
  }

  ghost predicate RunStays(ops: seq<Op>) {
    ops != [] ==>
      var before := ops[..|ops| - 1];
      RunStays(before) && StepStays(Run(EMPTY, before), ops[|ops| - 1])
  }

  predicate RunFits(ops: seq<Op>) {
    ops != [] ==>
      var before := ops[..|ops| - 1];
      RunFits(before) && StepFits(Run(EMPTY, before), ops[|ops| - 1])
  }

  /** Over a run of add_timer, del_timer and get_timo the array is a heap after every single
      addition and removal if and only if every removal of the run finds a last event that fits. */
  lemma {:induction false} RunsStayHeaps(ops: seq<Op>)
    ensures RunStays(ops) <==> RunFits(ops)
    ensures RunFits(ops) ==> Heap(Run(EMPTY, ops).events)
  {
    hide Heap, StepFits, Step;
    if ops == [] {
      EmptyHeap();
    } else {
      var before := ops[..|ops| - 1];
      RunsStayHeaps(before);
      if RunFits(before) {
        StepStaysExactly(Run(EMPTY, before), ops[|ops| - 1]);
        StepStaysHeap(Run(EMPTY, before), ops[|ops| - 1]);
      }
    }
  }

  lemma EmptyHeap()
    ensures Heap(EMPTY.events)
  {
  }

  lemma StepStaysHeap(q: Queue, op: Op)
    ensures StepStays(q, op) ==> Heap(Step(q, op).events)
  {
  }

  /** With at most four timers at any time every removal fits. */
  lemma {:induction false} SmallRunsStayHeaps(ops: seq<Op>)
    requires forall n :: 0 <= n <= |ops| ==> |Run(EMPTY, ops[..n]).events| <= 4
    ensures RunStays(ops)
  {
    hide Heap, StepFits, Step, Run;
    assert ops[..|ops|] == ops;
    if ops != [] {
      var before := ops[..|ops| - 1];
      assert forall n :: 0 <= n <= |before| ==> before[..n] == ops[..n];
      SmallRunsStayHeaps(before);
      RunsStayHeaps(before);
      assert |Run(EMPTY, before).events| <= 4;
      SmallStepFits(Run(EMPTY, before), ops[|ops| - 1]);
    }
    RunsStayHeaps(ops);
  }

  lemma SmallStepFits(q: Queue, op: Op)
    requires Heap(q.events) && |q.events| <= 4
    ensures StepFits(q, op)
  {
    hide Heap, Remove, Fits, PopsFit;
    match op
    case Add(_, _) =>
    case Delete(id) =>
      if SlotOf(q.events, id) < |q.events| {
        SmallHeapsStay(q.events, SlotOf(q.events, id));
      }
    case Timo => SmallPopsFit(q.events, q.pioneer);
  }

  lemma {:induction false} SmallPopsFit(es: seq<Event>, pioneer: uint64)
    requires Heap(es) && |es| <= 4
    ensures PopsFit(es, pioneer)
    decreases |es|
  {
    hide Heap, Remove, Fits;
    if es != [] && es[0].timestamp == pioneer {
      SmallHeapsStay(es, 0);
      RemoveKeepsHeap(es, 0);
      SmallPopsFit(Remove(es, 0), pioneer);
    }
  }

  // ---------- which arrays are reached ----------

  /** The additions that queue the events of es, front to back. */
  function AddAll(es: seq<Event>): seq<Op> {
    seq(|es|, k requires 0 <= k < |es| => Add(es[k].timestamp, es[k].interval))
  }

  ghost predicate Numbered(es: seq<Event>) {
    forall k :: 0 <= k < |es| ==> es[k].id == k
  }

  /** An added event that is not earlier than its parent stays last. */
  lemma AddedStaysLast(es: seq<Event>, e: Event)
    requires Heap(es + [e])
    ensures SiftUp(es + [e], |es|) == es + [e]
  {
    assert |es| > 0 ==> (es + [e])[Parent(|es|)].timestamp <= (es + [e])[|es|].timestamp;
  }

  /** Every heap of events numbered from the front is reached from the empty queue by additions
      alone, and its root is the pioneer. */
  lemma {:induction false} HeapReached(es: seq<Event>)
    requires Heap(es) && Numbered(es)
    ensures Run(EMPTY, AddAll(es)) == Queue(es, |es|, if es == [] then NEVER else es[0].timestamp)
  {
    hide Step, SiftUp;
    if es != [] {
      var n := |es| - 1;
      var before := es[..n];
      assert forall k :: 0 <= k < n ==> before[k] == es[k];
      HeapReached(before);
      assert es == before + [es[n]];
      AddedStaysLast(before, es[n]);
      AddedIs(Run(EMPTY, AddAll(before)), before, es[n]);
      assert AddAll(es) == AddAll(before) + [Add(es[n].timestamp, es[n].interval)];
      RunSnoc(AddAll(before), Add(es[n].timestamp, es[n].interval));
    } else {
      assert AddAll(es) == [];
    }
  }

  lemma RunSnoc(ops: seq<Op>, op: Op)
    ensures Run(EMPTY, ops + [op]) == Step(Run(EMPTY, ops), op)
  {
    hide Step;
    assert (ops + [op])[..|ops|] == ops;
  }

  lemma StepAdds(q: Queue, timestamp: uint64, interval: nat)
    ensures Step(q, Add(timestamp, interval)) == Added(q, timestamp, interval)
  {
    hide Added, Fire, Deleted;
  }

  lemma AddedIs(q: Queue, before: seq<Event>, e: Event)
    requires q == Queue(before, |before|, if before == [] then NEVER else before[0].timestamp) && e.id == |before|
    requires SiftUp(before + [e], |before|) == before + [e]
    ensures Step(q, Add(e.timestamp, e.interval)) == Queue(before + [e], |before| + 1, (before + [e])[0].timestamp)
  {
    hide SiftUp, Step;
    StepAdds(q, e.timestamp, e.interval);
    assert Event(q.nextId, e.timestamp, e.interval) == e;
  }

  /** Additions and one get_timo that leave no heap: whenever only the root is due and the last
      event does not fit there. */
  lemma TimoBreaks(es: seq<Event>)
    requires Heap(es) && Numbered(es) && |es| > 1 && !Fits(es, 0)
    requires forall k :: 0 < k < |es| ==> es[k].timestamp != es[0].timestamp
    ensures !Heap(Run(EMPTY, AddAll(es) + [Timo]).events)
  {
    hide Heap, Remove, Fits, Fire, Run;
    HeapReached(es);
    RemoveKeepsHeap(es, 0);
    OnePop(es, es[0].timestamp);
    RunSnoc(AddAll(es), Timo);
  }

  /** Five such events. */
  lemma FiveCanBreak()
    ensures !Heap(Run(EMPTY, AddAll(FIVE) + [Timo]).events)
  {
    hide Fits, Run;
    FifthMisfits();
    TimoBreaks(FIVE);
  }

  /** One due root and a later event coming up after it. */
  lemma OnePop(es: seq<Event>, pioneer: uint64)
    requires |es| > 1 && es[0].timestamp == pioneer && forall k :: 0 < k < |es| ==> es[k].timestamp != pioneer
    ensures Fire(es, pioneer).1 == Remove(es, 0)
  {
    RemoveSlots(es, 0, 0);
  }

  // ---------- which events fire ----------

  predicate Due(es: seq<Event>, pioneer: uint64, k: nat) {
    k < |es| && es[k].timestamp == pioneer
  }

  /** How many of the first three slots are due. */
  function DueFront(es: seq<Event>, pioneer: uint64): nat {
    (if Due(es, pioneer, 0) then 1 else 0)
    + (if Due(es, pioneer, 1) then 1 else 0)
    + (if Due(es, pioneer, 2) then 1 else 0)
  }

  /** How many events from slot k on are not due. */
  function NotDueFrom(es: seq<Event>, pioneer: uint64, k: nat): nat
    decreases |es| - k
  {
    if k >= |es| then 0 else (if Due(es, pioneer, k) then 0 else 1) + NotDueFrom(es, pioneer, k + 1)
  }

  /** If slot k is due, fewer events not due stand behind it than due events in front. */
  predicate InTime(es: seq<Event>, pioneer: uint64, k: nat) {
    Due(es, pioneer, k) ==> NotDueFrom(es, pioneer, k + 1) < DueFront(es, pioneer)
  }

  /** The root is due if anything is, and every due event behind the third slot is in time. */
  ghost predicate FiresAll(es: seq<Event>, pioneer: uint64) {
    && (forall k :: 0 <= k < |es| && Due(es, pioneer, k) ==> Due(es, pioneer, 0))
    && (forall k :: 3 <= k < |es| ==> InTime(es, pioneer, k))
  }

  lemma {:induction false} NotDueDropsLast(es: seq<Event>, r: seq<Event>, pioneer: uint64, k: nat)
    requires k <= |r| == |es| - 1 && forall x :: k <= x < |r| ==> r[x] == es[x]
    ensures NotDueFrom(es, pioneer, k) == NotDueFrom(r, pioneer, k) + if Due(es, pioneer, |r|) then 0 else 1
    decreases |r| - k
  {
    if k < |r| {
      NotDueDropsLast(es, r, pioneer, k + 1);
    } else {
      assert NotDueFrom(es, pioneer, k + 1) == 0;
    }
  }

  /** One pop of a due root: the slots from the third on keep their events, and the due ones in
      front get fewer by one unless the last event was due itself. */
  lemma PopFront(es: seq<Event>, pioneer: uint64)
    requires Due(es, pioneer, 0) && forall k :: 0 <= k < |es| ==> pioneer <= es[k].timestamp
    ensures var r := Remove(es, 0);
            && (forall k :: 3 <= k < |r| ==> r[k] == es[k])
            && (|es| > 3 ==>
                  DueFront(r, pioneer) == DueFront(es, pioneer) - if Due(es, pioneer, |es| - 1) then 0 else 1)
            && (DueFront(r, pioneer) > 0 ==> Due(r, pioneer, 0))
  {
  }

  lemma InTimeStep(es: seq<Event>, pioneer: uint64, k: nat)
    requires Due(es, pioneer, 0) && forall k :: 0 <= k < |es| ==> pioneer <= es[k].timestamp
    requires 3 <= k < |es| - 1
    ensures InTime(es, pioneer, k) <==> InTime(Remove(es, 0), pioneer, k)
  {
    hide Remove, DueFront;
    PopFront(es, pioneer);
    NotDueDropsLast(es, Remove(es, 0), pioneer, k + 1);
  }

  /** The last event is in time whenever the root is due. */
  lemma FiresAllStep(es: seq<Event>, pioneer: uint64)
    requires Due(es, pioneer, 0) && forall k :: 0 <= k < |es| ==> pioneer <= es[k].timestamp
    ensures FiresAll(es, pioneer) <==> FiresAll(Remove(es, 0), pioneer)
  {
    hide Remove, InTime;
    var r := Remove(es, 0);
    PopFront(es, pioneer);
    LastInTime(es, pioneer);
    forall k | 3 <= k < |r|
      ensures InTime(es, pioneer, k) <==> InTime(r, pioneer, k)
    {
      InTimeStep(es, pioneer, k);
    }
    if FiresAll(es, pioneer) {
      forall k | 0 <= k < |r| && Due(r, pioneer, k)
        ensures Due(r, pioneer, 0)
      {
        if k >= 3 {
          assert InTime(r, pioneer, k);
          InTimeFront(r, pioneer, k);
        }
      }
    }
  }

  lemma LastInTime(es: seq<Event>, pioneer: uint64)
    requires Due(es, pioneer, 0)
    ensures InTime(es, pioneer, |es| - 1)
  {
  }

  lemma InTimeFront(es: seq<Event>, pioneer: uint64, k: nat)
    requires InTime(es, pioneer, k) && Due(es, pioneer, k)
    ensures DueFront(es, pioneer) > 0
  {
  }

  /** get_timo reports events of the pioneer's time only and keeps all others; it leaves none of
      that time behind if and only if the due events are in time. */
  lemma {:induction false} FireExact(es: seq<Event>, pioneer: uint64)
    requires forall k :: 0 <= k < |es| ==> pioneer <= es[k].timestamp
    ensures forall e :: e in Fire(es, pioneer).0 ==> e.timestamp == pioneer
    ensures (forall e :: e in Fire(es, pioneer).1 ==> e.timestamp != pioneer) <==> FiresAll(es, pioneer)
    decreases |es|
  {
    hide Remove, InTime, FiresAll;
    if es != [] && es[0].timestamp == pioneer {
      var r := Remove(es, 0);
      FiresAllStep(es, pioneer);
      RemoveConserves(es, 0);
      forall k | 0 <= k < |r|
        ensures pioneer <= r[k].timestamp
      {
        assert r[k] in multiset(r) && r[k] in multiset(es);
      }
      FireExact(r, pioneer);
    } else {
      NothingFires(es, pioneer);
    }
  }

  lemma NothingFires(es: seq<Event>, pioneer: uint64)
    requires !Due(es, pioneer, 0)
    ensures (forall e :: e in es ==> e.timestamp != pioneer) <==> FiresAll(es, pioneer)
  {
    if FiresAll(es, pioneer) {
      forall e | e in es
        ensures e.timestamp != pioneer
      {
        var k :| 0 <= k < |es| && es[k] == e;
        assert !Due(es, pioneer, k);
      }
    } else {
      var k :| 0 <= k < |es| && Due(es, pioneer, k);
      assert es[k] in es;
    }
  }

  /** Up to five timers in heap order fire together. */
  lemma FiveFireAll(es: seq<Event>, pioneer: uint64)
    requires Heap(es) && |es| <= 5 && forall k :: 0 <= k < |es| ==> pioneer <= es[k].timestamp
    ensures FiresAll(es, pioneer)
  {
    forall k | 0 <= k < |es| && Due(es, pioneer, k)
      ensures Due(es, pioneer, 0) && (k >= 3 ==> InTime(es, pioneer, k))
    {
      HeapRoot(es, k);
      assert NotDueFrom(es, pioneer, |es|) == 0;
      assert k >= 3 ==> Parent(k) == 1 && Due(es, pioneer, 1);
      assert k < 3 || NotDueFrom(es, pioneer, k + 1) <= 1;
    }
  }

  /** Six timers in heap order, three of them due, of which one is left behind. */
  const SIX :=
    [Event(0, 1, 0), Event(1, 1, 0), Event(2, 2, 0), Event(3, 1, 0), Event(4, 3, 0), Event(5, 4, 0)]

  lemma SixSlots(es: seq<Event>, pioneer: uint64)
    requires |es| == 6 && forall k :: 0 <= k < |es| ==> pioneer <= es[k].timestamp
    requires Due(es, pioneer, 0) && Due(es, pioneer, 1) && Due(es, pioneer, 3)
    requires !Due(es, pioneer, 2) && !Due(es, pioneer, 4) && !Due(es, pioneer, 5)
    ensures !FiresAll(es, pioneer)
  {
    assert NotDueFrom(es, pioneer, 6) == 0;
    assert NotDueFrom(es, pioneer, 5) == 1;
    assert NotDueFrom(es, pioneer, 4) == 2 == DueFront(es, pioneer);
    assert !InTime(es, pioneer, 3);
  }

  /** After any run, get_timo leaves nothing of the pioneer's time if and only if the due events
      are in time. */
  lemma TimoOverRuns(ops: seq<Op>)
    ensures var q := Run(EMPTY, ops);
            (forall e :: e in Run(EMPTY, ops + [Timo]).events ==> e.timestamp != q.pioneer) <==>
            FiresAll(q.events, q.pioneer)
  {
    hide Fire, Remove, FiresAll, Run;
    var q := Run(EMPTY, ops);
    RunsKeepInv(ops);
    RunSnoc(ops, Timo);
    forall k | 0 <= k < |q.events|
      ensures q.pioneer <= q.events[k].timestamp
    {
      assert q.events[k] in multiset(q.events);
    }
    FireExact(q.events, q.pioneer);
  }

  /** Additions and one get_timo that leave an event of the pioneer's time: whenever the due events
      are not in time. */
  lemma TimoLeaves(es: seq<Event>)
    requires Heap(es) && Numbered(es) && es != [] && !FiresAll(es, es[0].timestamp)
    ensures var q := Run(EMPTY, AddAll(es) + [Timo]);
            exists e :: e in q.events && e.timestamp == q.pioneer
  {
    hide Run, FiresAll, Fire;
    HeapReached(es);
    TimoOverRuns(AddAll(es));
    RunSnoc(AddAll(es), Timo);
  }

  /** Six such events. */
  lemma LeftBehind()
    ensures var q := Run(EMPTY, AddAll(SIX) + [Timo]);
            exists e :: e in q.events && e.timestamp == q.pioneer
  {
    hide Run, FiresAll;
    SixSlots(SIX, 1);
    TimoLeaves(SIX);
  }

  // ---------- the queue object ----------

  /** position is the exact inverse of the array. */
  ghost predicate Indexed(es: seq<Event>, position: map<nat, nat>) {
    && (forall k :: 0 <= k < |es| ==> es[k].id in position && position[es[k].id] == k)
    && (forall id :: id in position ==> position[id] < |es| && es[position[id]].id == id)
  }

  lemma SwapIndexed(es: seq<Event>, position: map<nat, nat>, j: nat, k: nat)
    requires Indexed(es, position) && j < |es| && k < |es|
    ensures Indexed(Swap(es, j, k), position[es[k].id := j][es[j].id := k])
    ensures es[j].id in position && es[k].id in position
  {
  }

  lemma AppendIndexed(es: seq<Event>, position: map<nat, nat>, e: Event)
    requires Indexed(es, position) && e.id !in position
    ensures Indexed(es + [e], position[e.id := |es|])
  {
  }

  lemma VacateIndexed(es: seq<Event>, position: map<nat, nat>, k: nat)
    requires Indexed(es, position) && k < |es|
    ensures Indexed(Vacate(es, k), position[es[|es| - 1].id := k] - {es[k].id})
    ensures es[|es| - 1].id in position && es[k].id in position
  {
  }

  lemma PopIndexed(es: seq<Event>, position: map<nat, nat>)
    requires Indexed(es, position) && es != []
    ensures var rest := position - {es[0].id};
            if |es| == 1 then Indexed([], rest) && Remove(es, 0) == []
            else Indexed(Vacate(es, 0), rest[es[|es| - 1].id := 0]) && es[|es| - 1].id in rest
  {
  }

  lemma HoldSlots(es: seq<Event>, k: nat)
    ensures Hold(es, k) == if k < |es| && Smallest(es, k) != k then Swap(es, Smallest(es, k), k) else es
  {
  }

  /** A second heap_hold of the same slot finds nothing to do. */
  lemma HoldTwice(es: seq<Event>, k: nat)
    requires k < |es|
    ensures Smallest(Hold(es, k), k) == k && Hold(Hold(es, k), k) == Hold(es, k)
  {
  }

  lemma {:induction false} SlotIsIndexed(es: seq<Event>, position: map<nat, nat>, id: nat)
    requires Indexed(es, position)
    ensures id in position <==> SlotOf(es, id) < |es|
    ensures id in position ==> position[id] == SlotOf(es, id)
  {
  }

  class Timers {
    var events: seq<Event>
    var position: map<nat, nat>
    var count: nat
    var nextId: nat
    var pioneer: uint64

    ghost predicate Valid()
      reads this
    {
      Indexed(events, position) && count == |events| && forall id :: id in position ==> id < nextId
    }

    ghost function Model(): Queue
      reads this
    {
      Queue(events, nextId, pioneer)
    }

    constructor ()
      ensures Valid() && Model() == EMPTY
    {
      events, position, count, nextId, pioneer := [], map[], 0, 0, NEVER;
    }

    method HeapAdd(te: Event)
      requires Indexed(events, position) && count == |events| && te.id !in position
      modifies this`events, this`position, this`count
      ensures events == SiftUp(old(events) + [te], |old(events)|)
      ensures Indexed(events, position) && count == |events|
      ensures position.Keys == old(position.Keys) + {te.id}
    {
      hide SiftUp, Swap, Indexed;
      AppendIndexed(events, position, te);
      events := events + [te];
      position := position[te.id := count];
      var curr: nat := count;
      count := count + 1;
      var parent := Parent(curr);
      while events[curr].timestamp < events[parent].timestamp
        invariant curr < |events| == count && parent == Parent(curr)
        invariant Indexed(events, position) && position.Keys == old(position.Keys) + {te.id}
        invariant SiftUp(events, curr) == SiftUp(old(events) + [te], |old(events)|)
        decreases curr
      {
        SwapIndexed(events, position, curr, parent);
        SiftUpUnfold(events, curr);
        var tmp := events[curr];
        events := Swap(events, curr, parent);
        position := position[events[curr].id := curr][tmp.id := parent];
        curr := parent;
        parent := Parent(curr);
      }
      SiftUpUnfold(events, curr);
    }

    /** Calls itself on the same slot, where nothing is left to do. */
    method HeapHold(pos: nat)
      requires Indexed(events, position) && count == |events|
      modifies this`events, this`position
      ensures events == Hold(old(events), pos)
      ensures Indexed(events, position) && position.Keys == old(position.Keys)
      decreases pos < |events| && Smallest(events, pos) != pos
    {
      hide Swap, Indexed, Hold;
      var left, right := 2 * pos + 1, 2 * pos + 2;
      var min := pos;
      if left < count && events[min].timestamp > events[left].timestamp {
        min := left;
      }
      if right < count && events[min].timestamp > events[right].timestamp {
        min := right;
      }
      HoldSlots(events, pos);
      assert pos < |events| ==> min == Smallest(events, pos);
      if min != pos {
        SwapIndexed(events, position, min, pos);
        HoldTwice(events, pos);
        var tmp := events[min];
        events := Swap(events, min, pos);
        position := position[events[min].id := min][tmp.id := pos];
        HeapHold(pos);
      }
    }

    method HeapDel(pos: nat)
      requires Indexed(events, position) && count == |events| && pos < |events|
      modifies this`events, this`position, this`count
      ensures events == Remove(old(events), pos)
      ensures Indexed(events, position) && count == |events|
      ensures position.Keys == old(position.Keys) - {old(events)[pos].id}
    {
      hide Hold, Indexed;
      VacateIndexed(events, position, pos);
      var gone, last := events[pos], events[count - 1];
      events := events[pos := last];
      position := position[last.id := pos];
      position := position - {gone.id};
      count := count - 1;
      events := events[..count];
      assert events == Vacate(old(events), pos);
      HeapHold(pos);
    }

    method HeapPop()
      requires Indexed(events, position) && count == |events|
      modifies this`events, this`position, this`count
      ensures events == if old(events) == [] then [] else Remove(old(events), 0)
      ensures Indexed(events, position) && count == |events|
      ensures old(events) != [] ==> position.Keys == old(position.Keys) - {old(events)[0].id}
    {
      hide Hold, Indexed;
      if count == 0 {
        return;
      }
      PopIndexed(events, position);
      position := position - {events[0].id};
      if count > 1 {
        var last := events[count - 1];
        events := events[0 := last];
        position := position[last.id := 0];
        events := events[..count - 1];
        count := count - 1;
        assert events == Vacate(old(events), 0);
        HeapHold(0);
      } else {
        events := [];
        count := 0;
      }
    }

    method AddTimer(timestamp: uint64, interval: nat) returns (id: nat)
      requires Valid()
      modifies this
      ensures Valid() && id == old(nextId)
      ensures Model() == Step(old(Model()), Add(timestamp, interval))
    {
      hide SiftUp;
      id := nextId;
      nextId := nextId + 1;
      HeapAdd(Event(id, timestamp, interval));
      if events[0].timestamp < pioneer {
        pioneer := events[0].timestamp;
      }
    }

    method DelTimer(id: nat)
      requires Valid()
      modifies this
      ensures Valid()
      ensures Model() == Step(old(Model()), Delete(id))
    {
      hide Remove;
      SlotIsIndexed(events, position, id);
      if id !in position {
        return;
      }
      HeapDel(position[id]);
      if count == 0 {
        pioneer := NEVER;
      } else if events[0].timestamp < pioneer {
        pioneer := events[0].timestamp;
      }
    }

    method GetTimo() returns (fired: seq<Event>)
      requires Valid()
      modifies this
      ensures Valid() && fired == Fire(old(events), pioneer).0
      ensures Model() == Step(old(Model()), Timo)
    {
      hide Remove, Indexed, Fire;
      fired := [];
      while count != 0 && pioneer == events[0].timestamp
        invariant Valid() && pioneer == old(pioneer) && nextId == old(nextId)
        invariant fired + Fire(events, pioneer).0 == Fire(old(events), pioneer).0
        invariant Fire(events, pioneer).1 == Fire(old(events), pioneer).1
        decreases count
      {
        FireUnfold(events, pioneer);
        fired := fired + [events[0]];
        HeapPop();
      }
      FireUnfold(events, pioneer);
    }
  }

  lemma SiftUpUnfold(es: seq<Event>, k: nat)
    requires k < |es|
    ensures SiftUp(es, k) ==
            if es[k].timestamp < es[Parent(k)].timestamp then SiftUp(Swap(es, k, Parent(k)), Parent(k)) else es
  {
  }

  lemma FireUnfold(es: seq<Event>, pioneer: uint64)
    ensures Fire(es, pioneer) ==
            if es != [] && es[0].timestamp == pioneer then
              ([es[0]] + Fire(Remove(es, 0), pioneer).0, Fire(Remove(es, 0), pioneer).1)
            else ([], es)
  {
  }
}
