/** The skip list of engine/tsm/skip_list.h: nodes with a vector of next pointers, relinked in
    place.  The list is tied to the sorted sequence of its points. */
module SkipList {

  const MAX_LEVEL := 32

  // ---------- the sorted map it stands for ----------

  /** Points in strictly increasing key order. */
  ghost predicate Sorted<T>(ps: seq<(int, T)>) {
    forall i, j :: 0 <= i < j < |ps| ==> ps[i].0 < ps[j].0
  }

  /** First write wins. */
  function PutPoint<T>(ps: seq<(int, T)>, key: int, v: T): (r: seq<(int, T)>)
  {
    if ps == [] || key < ps[0].0 then [(key, v)] + ps
    else if ps[0].0 == key then ps
    else [ps[0]] + PutPoint(ps[1..], key, v)
  }

  function DelPoint<T>(ps: seq<(int, T)>, key: int): seq<(int, T)>
  {
    if ps == [] then ps
    else if ps[0].0 == key then ps[1..]
    else [ps[0]] + DelPoint(ps[1..], key)
  }

  function ToMap<T>(ps: seq<(int, T)>): map<int, T>
  {
    if ps == [] then map[] else ToMap(ps[1..])[ps[0].0 := ps[0].1]
  }

  /** The keys of the map are the keys of the points. */
  lemma {:induction false} MapKeys<T>(ps: seq<(int, T)>, key: int)
    ensures key in ToMap(ps) <==> exists k :: 0 <= k < |ps| && ps[k].0 == key
  {
    if ps != [] {
      MapKeys(ps[1..], key);
      if ps[0].0 != key && key in ToMap(ps) {
        var k :| 0 <= k < |ps[1..]| && ps[1..][k].0 == key;
        assert ps[k + 1].0 == key;
      }
      if k :| 0 <= k < |ps| && ps[k].0 == key {
        assert k > 0 ==> ps[1..][k - 1].0 == key;
      }
    }
  }

  lemma {:induction false} MapValue<T>(ps: seq<(int, T)>, k: nat)
    requires Sorted(ps) && k < |ps|
    ensures ps[k].0 in ToMap(ps) && ToMap(ps)[ps[k].0] == ps[k].1
  {
    if k > 0 {
      MapValue(ps[1..], k - 1);
    }
  }

  lemma KeyBefore<T>(ps: seq<(int, T)>, key: int)
    requires Sorted(ps) && (ps == [] || key < ps[0].0)
    ensures key !in ToMap(ps)
  {
    MapKeys(ps, key);
  }

  lemma {:induction false} PutMap<T>(ps: seq<(int, T)>, key: int, v: T)
    requires Sorted(ps)
    ensures Sorted(PutPoint(ps, key, v))
    ensures ToMap(PutPoint(ps, key, v)) == if key in ToMap(ps) then ToMap(ps) else ToMap(ps)[key := v]
  {
    hide Sorted;
    PutSorted(ps, key, v);
    if ps == [] || key < ps[0].0 {
      KeyBefore(ps, key);
      assert ([(key, v)] + ps)[1..] == ps;
    } else if ps[0].0 != key {
      TailSorted(ps);
      PutMap(ps[1..], key, v);
      assert PutPoint(ps, key, v)[1..] == PutPoint(ps[1..], key, v);
    }
  }

  lemma TailSorted<T>(ps: seq<(int, T)>)
    requires Sorted(ps) && ps != []
    ensures Sorted(ps[1..]) && (|ps| > 1 ==> ps[0].0 < ps[1].0)
  {
  }

  lemma {:induction false} PutSorted<T>(ps: seq<(int, T)>, key: int, v: T)
    requires Sorted(ps)
    ensures Sorted(PutPoint(ps, key, v))
    ensures ps != [] ==> PutPoint(ps, key, v)[0].0 == (if key < ps[0].0 then key else ps[0].0)
  {
    if ps != [] && ps[0].0 < key {
      PutSorted(ps[1..], key, v);
      PutFirst(ps, key, v);
    }
  }

  /** A later key is put behind the first point. */
  lemma PutFirst<T>(ps: seq<(int, T)>, key: int, v: T)
    requires Sorted(ps) && ps != [] && ps[0].0 < key && Sorted(PutPoint(ps[1..], key, v))
    requires |ps| > 1 ==> PutPoint(ps[1..], key, v)[0].0 == (if key < ps[1].0 then key else ps[1].0)
    ensures Sorted(PutPoint(ps, key, v))
  {
    var rest := PutPoint(ps[1..], key, v);
    assert rest[0].0 > ps[0].0;
    assert forall j :: 0 < j < |rest| ==> rest[0].0 < rest[j].0;
  }

  lemma {:induction false} DelMap<T>(ps: seq<(int, T)>, key: int)
    requires Sorted(ps)
    ensures Sorted(DelPoint(ps, key)) && ToMap(DelPoint(ps, key)) == ToMap(ps) - {key}
  {
    hide Sorted;
    DelSorted(ps, key);
    if ps != [] {
      TailSorted(ps);
      if ps[0].0 == key {
        assert ps[1..] == [] || key < ps[1..][0].0;
        KeyBefore(ps[1..], key);
      } else {
        DelMap(ps[1..], key);
        assert DelPoint(ps, key)[1..] == DelPoint(ps[1..], key);
      }
    }
  }

  lemma {:induction false} DelSorted<T>(ps: seq<(int, T)>, key: int)
    requires Sorted(ps)
    ensures Sorted(DelPoint(ps, key))
    ensures forall d :: d in DelPoint(ps, key) ==> d in ps
  {
    if ps != [] && ps[0].0 != key {
      DelSorted(ps[1..], key);
      assert DelPoint(ps, key)[1..] == DelPoint(ps[1..], key);
      forall j | 0 < j < |DelPoint(ps, key)|
        ensures ps[0].0 < DelPoint(ps, key)[j].0
      {
        assert DelPoint(ps, key)[j] in ps[1..];
      }
    }
  }

  datatype Op<T> = OpPut(key: int, value: T) | OpDel(key: int) | OpClear

  /** The list after a sequence of operations, and the map they describe. */
  function RunPoints<T>(ops: seq<Op<T>>): seq<(int, T)> {
    if ops == [] then []
    else
      var ps := RunPoints(ops[..|ops| - 1]);
      match ops[|ops| - 1]
      case OpPut(k, v) => PutPoint(ps, k, v)
      case OpDel(k) => DelPoint(ps, k)
      case OpClear => []
  }

  function RunMap<T>(ops: seq<Op<T>>): map<int, T> {
    if ops == [] then map[]
    else
      var m := RunMap(ops[..|ops| - 1]);
      match ops[|ops| - 1]
      case OpPut(k, v) => if k in m then m else m[k := v]
      case OpDel(k) => m - {k}
      case OpClear => map[]
  }

  /** Over every operation sequence the points stay sorted and stand for the map. */
  lemma {:induction false} RunsRefineMap<T>(ops: seq<Op<T>>)
    ensures Sorted(RunPoints(ops)) && ToMap(RunPoints(ops)) == RunMap(ops)
  {
    if ops != [] {
      var ps := RunPoints(ops[..|ops| - 1]);
      RunsRefineMap(ops[..|ops| - 1]);
      match ops[|ops| - 1]
      case OpPut(k, v) => PutMap(ps, k, v);
      case OpDel(k) => DelMap(ps, k);
      case OpClear =>
    }
  }

  /** The size is the number of keys of the map. */
  lemma {:induction false} SizeIsKeys<T>(ps: seq<(int, T)>)
    requires Sorted(ps)
    ensures |ToMap(ps)| == |ps|
  {
    if ps != [] {
      SizeIsKeys(ps[1..]);
      KeyBefore(ps[1..], ps[0].0);
    }
  }

  /** Put and Del pass over smaller keys. */
  lemma {:induction false} PutBehind<T>(a: seq<(int, T)>, b: seq<(int, T)>, key: int, v: T)
    requires forall k :: 0 <= k < |a| ==> a[k].0 < key
    ensures PutPoint(a + b, key, v) == a + PutPoint(b, key, v)
  {
    if a == [] {
      assert a + b == b;
    } else {
      PutBehind(a[1..], b, key, v);
      assert (a + b)[1..] == a[1..] + b;
      var put := PutPoint(b, key, v);
      assert [a[0]] + (a[1..] + put) == a + put;
    }
  }

  lemma {:induction false} DelBehind<T>(a: seq<(int, T)>, b: seq<(int, T)>, key: int)
    requires forall k :: 0 <= k < |a| ==> a[k].0 < key
    ensures DelPoint(a + b, key) == a + DelPoint(b, key)
  {
    if a == [] {
      assert a + b == b;
    } else {
      DelBehind(a[1..], b, key);
      assert (a + b)[1..] == a[1..] + b;
      assert a == [a[0]] + a[1..];
    }
  }

  lemma {:induction false} DelNothing<T>(ps: seq<(int, T)>, key: int)
    requires forall k :: 0 <= k < |ps| ==> ps[k].0 != key
    ensures DelPoint(ps, key) == ps
  {
    if ps != [] {
      DelNothing(ps[1..], key);
      assert ps == [ps[0]] + ps[1..];
    }
  }

  /** Position r is where the key belongs. */
  ghost predicate Place<T>(ps: seq<(int, T)>, key: int, r: nat) {
    && r <= |ps|
    && (forall k :: 0 <= k < r ==> ps[k].0 < key)
    && (forall k :: r <= k < |ps| ==> ps[k].0 >= key)
  }

  lemma PutAt<T>(ps: seq<(int, T)>, key: int, v: T, r: nat)
    requires Place(ps, key, r)
    ensures PutPoint(ps, key, v) == if r < |ps| && ps[r].0 == key then ps else ps[..r] + [(key, v)] + ps[r..]
  {
    PutBehind(ps[..r], ps[r..], key, v);
    assert ps[..r] + ps[r..] == ps;
  }

  lemma DelAt<T>(ps: seq<(int, T)>, key: int, r: nat)
    requires Sorted(ps) && Place(ps, key, r)
    ensures DelPoint(ps, key) == if r < |ps| && ps[r].0 == key then ps[..r] + ps[r + 1..] else ps
  {
    DelBehind(ps[..r], ps[r..], key);
    assert ps[..r] + ps[r..] == ps;
    if !(r < |ps| && ps[r].0 == key) {
      DelNothing(ps[r..], key);
    }
  }

  // ---------- nodes ----------

  class Node<T> {
    const key: int
    const value: T
    const level: nat
    var nexts: seq<Node?<T>>

    constructor (key: int, value: T, level: nat)
      ensures this.key == key && this.value == value && this.level == level
      ensures nexts == seq(level, _ => null)
    {
      this.key, this.value, this.level := key, value, level;
      nexts := seq(level, _ => null);
    }
  }

  /** The first node from position k on that reaches level l. */
  ghost function NextAt<T>(chain: seq<Node<T>>, k: nat, l: nat): Node?<T>
    decreases |chain| - k
  {
    if k >= |chain| then null
    else if chain[k].level > l then chain[k]
    else NextAt(chain, k + 1, l)
  }

  /** No node in [a, b) reaches level l. */
  ghost predicate Gap<T>(chain: seq<Node<T>>, a: nat, b: nat, l: nat)
    requires b <= |chain|
  {
    forall k :: a <= k < b ==> chain[k].level <= l
  }

  lemma {:induction false} NextSkipsGap<T>(chain: seq<Node<T>>, a: nat, b: nat, l: nat)
    requires a <= b <= |chain| && Gap(chain, a, b, l)
    ensures NextAt(chain, a, l) == NextAt(chain, b, l)
    decreases b - a
  {
    if a < b {
      NextSkipsGap(chain, a + 1, b, l);
    }
  }

  /** Where NextAt leads. */
  lemma {:induction false} NextIndex<T>(chain: seq<Node<T>>, k: nat, l: nat) returns (j: nat)
    requires k <= |chain|
    ensures k <= j <= |chain| && Gap(chain, k, j, l)
    ensures NextAt(chain, k, l) == (if j < |chain| then chain[j] else null)
    ensures j < |chain| ==> chain[j].level > l
    decreases |chain| - k
  {
    if k == |chain| || chain[k].level > l {
      j := k;
    } else {
      j := NextIndex(chain, k + 1, l);
    }
  }

  ghost function Inserted<T>(chain: seq<Node<T>>, p: nat, n: Node<T>): seq<Node<T>>
    requires p <= |chain|
  {
    chain[..p] + [n] + chain[p..]
  }

  /** Behind the new node nothing changes. */
  lemma {:induction false} NextAfterInsert<T>(chain: seq<Node<T>>, p: nat, n: Node<T>, k: nat, l: nat)
    requires p <= k <= |chain|
    ensures NextAt(Inserted(chain, p, n), k + 1, l) == NextAt(chain, k, l)
    decreases |chain| - k
  {
    if k < |chain| {
      NextAfterInsert(chain, p, n, k + 1, l);
    }
  }

  /** Before it, a level leads to the new node when nothing on the way reaches the level. */
  lemma {:induction false} NextBeforeInsert<T>(chain: seq<Node<T>>, p: nat, n: Node<T>, k: nat, l: nat)
    requires k <= p <= |chain|
    ensures NextAt(Inserted(chain, p, n), k, l) ==
            if Gap(chain, k, p, l) && n.level > l then n else NextAt(chain, k, l)
    decreases p - k
  {
    var c := Inserted(chain, p, n);
    if k == p {
      NextAfterInsert(chain, p, n, p, l);
    } else {
      assert c[k] == chain[k];
      NextBeforeInsert(chain, p, n, k + 1, l);
    }
  }

  ghost function Removed<T>(chain: seq<Node<T>>, p: nat): seq<Node<T>>
    requires p < |chain|
  {
    chain[..p] + chain[p + 1..]
  }

  lemma InsertedRemoved<T>(chain: seq<Node<T>>, p: nat)
    requires p < |chain|
    ensures Inserted(Removed(chain, p), p, chain[p]) == chain
  {
  }

  lemma RemovedAt<T>(chain: seq<Node<T>>, p: nat, k: nat)
    requires p < |chain| && k < |chain| - 1
    ensures |Removed(chain, p)| == |chain| - 1 && Removed(chain, p)[k] == chain[if k < p then k else k + 1]
  {
  }

  /** The nodes of level l, in order. */
  ghost function LevelNodes<T>(chain: seq<Node<T>>, l: nat): seq<Node<T>> {
    if chain == [] then []
    else (if chain[0].level > l then [chain[0]] else []) + LevelNodes(chain[1..], l)
  }

  /** Following the pointers of level l from n visits exactly ns and then ends. */
  ghost predicate Path<T>(n: Node?<T>, l: nat, ns: seq<Node<T>>)
    reads ns
    decreases |ns|
  {
    if ns == [] then n == null
    else n == ns[0] && l < |ns[0].nexts| && Path(ns[0].nexts[l], l, ns[1..])
  }

  ghost function PointsOf<T>(chain: seq<Node<T>>): (ps: seq<(int, T)>)
    requires chain != []
    ensures |ps| == |chain| - 1
    ensures forall k :: 0 <= k < |ps| ==> ps[k] == (chain[k + 1].key, chain[k + 1].value)
  {
    seq(|chain| - 1, k requires 0 <= k < |chain| - 1 => (chain[k + 1].key, chain[k + 1].value))
  }

  /** Node k points, on each of its levels, to the next node of that level. */
  ghost predicate Linked<T>(chain: seq<Node<T>>, k: nat)
    requires k < |chain|
    reads chain[k]
  {
    && |chain[k].nexts| == chain[k].level
    && forall l :: 0 <= l < chain[k].level ==> chain[k].nexts[l] == NextAt(chain, k + 1, l)
  }

  /** The last node before p that reaches level l, on every level: the update vector. */
  ghost predicate Predecessors<T>(chain: seq<Node<T>>, p: nat, update: seq<Node<T>>, pos: seq<nat>)
    requires p <= |chain|
  {
    && |update| == |pos| == MAX_LEVEL
    && forall l :: 0 <= l < MAX_LEVEL ==> PredecessorAt(chain, p, update, pos, l)
  }

  ghost predicate PredecessorAt<T>(chain: seq<Node<T>>, p: nat, update: seq<Node<T>>, pos: seq<nat>, l: nat)
    requires p <= |chain| && l < |update| == |pos|
  {
    pos[l] < p && chain[pos[l]] == update[l] && update[l].level > l && Gap(chain, pos[l] + 1, p, l)
  }

  lemma PredecessorFound<T>(chain: seq<Node<T>>, p: nat, update: seq<Node<T>>, pos: seq<nat>,
                            i: nat, n: Node<T>, at: nat, u: seq<Node<T>>, q: seq<nat>)
    requires p <= |chain| && |update| == |pos| == MAX_LEVEL && i < MAX_LEVEL
    requires forall l :: i < l < MAX_LEVEL ==> PredecessorAt(chain, p, update, pos, l)
    requires at < p && chain[at] == n && n.level > i && Gap(chain, at + 1, p, i)
    requires u == update[i := n] && q == pos[i := at]
    ensures forall l :: i <= l < MAX_LEVEL ==> PredecessorAt(chain, p, u, q, l)
  {
    forall l: nat | i <= l < MAX_LEVEL
      ensures PredecessorAt(chain, p, u, q, l)
    {
      assert l > i ==> PredecessorAt(chain, p, update, pos, l);
    }
  }

  /** The update vector in terms of pointers: each predecessor points past p. */
  lemma PredecessorFacts<T>(chain: seq<Node<T>>, p: nat, update: seq<Node<T>>, pos: seq<nat>)
    requires p <= |chain| && Predecessors(chain, p, update, pos)
    ensures |update| == |pos| == MAX_LEVEL
    ensures forall l :: 0 <= l < MAX_LEVEL ==>
              && pos[l] < p && chain[pos[l]] == update[l] && update[l].level > l
              && NextAt(chain, pos[l] + 1, l) == NextAt(chain, p, l)
  {
    forall l | 0 <= l < MAX_LEVEL
      ensures pos[l] < p && chain[pos[l]] == update[l] && update[l].level > l
              && NextAt(chain, pos[l] + 1, l) == NextAt(chain, p, l)
    {
      assert PredecessorAt(chain, p, update, pos, l);
      NextSkipsGap(chain, pos[l] + 1, p, l);
    }
  }

  ghost predicate Distinct<T>(chain: seq<Node<T>>) {
    forall a, b :: 0 <= a < b < |chain| ==> chain[a] != chain[b]
  }

  class SkipList<T> {
    const head: Node<T>
    var count: nat
    /** The head and then every node, in key order. */
    ghost var chain: seq<Node<T>>

    ghost predicate Shape()
      reads this
    {
      && chain != [] && chain[0] == head && head !in chain[1..]
      && head.level == MAX_LEVEL
      && (forall k :: 1 <= k < |chain| ==> 1 <= chain[k].level <= MAX_LEVEL)
      && (forall i, j :: 1 <= i < j < |chain| ==> chain[i].key < chain[j].key)
      && count == |chain| - 1
    }

    ghost predicate Valid()
      reads this, chain
    {
      Shape() && forall k :: 0 <= k < |chain| ==> Linked(chain, k)
    }

    ghost function Points(): seq<(int, T)>
      requires Shape()
      reads this
    {
      PointsOf(chain)
    }

    /** default is the T() the source puts in its head node. */
    constructor (default: T)
      ensures Valid() && Points() == [] && fresh(chain)
    {
      head := new Node(0, default, MAX_LEVEL);
      count := 0;
      new;
      chain := [head];
    }

    /** Key order splits the chain at p. */
    ghost predicate Split(key: int, p: nat)
      reads this
    {
      && 1 <= p <= |chain|
      && (forall k :: 1 <= k < p ==> chain[k].key < key)
      && (forall k :: p <= k < |chain| ==> chain[k].key >= key)
    }

    lemma SplitExists(key: int) returns (p: nat)
      requires Shape()
      ensures Split(key, p)
    {
      p := 1;
      while p < |chain| && chain[p].key < key
        invariant 1 <= p <= |chain|
        invariant forall k :: 1 <= k < p ==> chain[k].key < key
      {
        p := p + 1;
      }
    }

    /** One level of the search: along level i while the next key is smaller. */
    method Walk(key: int, i: nat, start: Node<T>, ghost from: nat, ghost p: nat)
      returns (current: Node<T>, ghost at: nat)
      requires Valid() && Split(key, p)
      requires from < p && chain[from] == start && start.level > i
      ensures at < p && chain[at] == current && current.level > i && Gap(chain, at + 1, p, i)
    {
      current, at := start, from;
      assert Linked(chain, at);
      ghost var j := NextIndex(chain, at + 1, i);
      while current.nexts[i] != null && current.nexts[i].key < key
        invariant at < p && chain[at] == current && current.level > i && Linked(chain, at)
        invariant at < j <= |chain| && Gap(chain, at + 1, j, i)
        invariant current.nexts[i] == (if j < |chain| then chain[j] else null)
        invariant j < |chain| ==> chain[j].level > i
        decreases p - at
      {
        current := current.nexts[i];
        at := j;
        assert Linked(chain, at);
        j := NextIndex(chain, at + 1, i);
      }
      assert j >= p;
    }

    /** n is the last node on level l with a key before the given one, the head if there is none. */
    ghost predicate LastBefore(key: int, n: Node<T>, l: nat)
      reads this, chain
    {
      && n in chain && l < |n.nexts|
      && (n == head || n.key < key)
      && (n.nexts[l] == null || (n.nexts[l] in chain && n.nexts[l].key >= key))
    }

    /** The search loop shared by put, get and del. */
    method FindUpdate(key: int) returns (update: seq<Node<T>>, ghost pos: seq<nat>, ghost p: nat)
      requires Valid()
      ensures Split(key, p) && Predecessors(chain, p, update, pos)
      ensures |update| == 32 && forall l :: 0 <= l < 32 ==> LastBefore(key, update[l], l)
    {
      p := SplitExists(key);
      update := seq(MAX_LEVEL, _ => head);
      pos := seq(MAX_LEVEL, _ => 0);
      var current := head;
      ghost var at: nat := 0;
      var i := MAX_LEVEL;
      while i > 0
        invariant 0 <= i <= MAX_LEVEL && |update| == |pos| == MAX_LEVEL
        invariant at < p && chain[at] == current && current.level >= i
        invariant forall l :: i <= l < MAX_LEVEL ==> PredecessorAt(chain, p, update, pos, l)
      {
        i := i - 1;
        current, at := Walk(key, i, current, at, p);
        PredecessorFound(chain, p, update, pos, i, current, at, update[i := current], pos[i := at]);
        update := update[i := current];
        pos := pos[i := at];
      }
      forall l | 0 <= l < MAX_LEVEL
        ensures LastBefore(key, update[l], l)
      {
        PredecessorIsLast(key, p, update, pos, l);
      }
    }

    lemma PredecessorIsLast(key: int, p: nat, update: seq<Node<T>>, pos: seq<nat>, l: nat)
      requires Valid() && Split(key, p) && Predecessors(chain, p, update, pos) && l < MAX_LEVEL
      ensures |update| == MAX_LEVEL && LastBefore(key, update[l], l)
    {
      PredecessorFacts(chain, p, update, pos);
      assert Linked(chain, pos[l]);
      var j := NextIndex(chain, p, l);
    }

    /** Past the level-0 predecessor stands the first node whose key is not smaller. */
    lemma BottomPredecessor(p: nat, update: seq<Node<T>>, pos: seq<nat>)
      requires Valid() && 1 <= p <= |chain| && Predecessors(chain, p, update, pos)
      ensures pos[0] == p - 1 && |update[0].nexts| > 0
      ensures update[0].nexts[0] == (if p < |chain| then chain[p] else null)
    {
      assert PredecessorAt(chain, p, update, pos, 0);
      assert chain[p - 1].level > 0;
      assert Linked(chain, p - 1);
    }

    method RandomLevel() returns (level: nat)
      ensures 1 <= level <= MAX_LEVEL
    {
      level := 1;
      var coin: bool := *;
      while coin && level < MAX_LEVEL
        invariant 1 <= level <= MAX_LEVEL
        decreases MAX_LEVEL - level
      {
        level := level + 1;
        coin := *;
      }
    }

    /** The relinking loop of put. */
    method Splice(n: Node<T>, update: seq<Node<T>>, ghost pos: seq<nat>, ghost p: nat)
      requires Valid() && p <= |chain| && Predecessors(chain, p, update, pos)
      requires n !in chain && n.level <= MAX_LEVEL == |head.nexts| && |n.nexts| == n.level
      modifies chain, n
      ensures |n.nexts| == n.level && forall l :: 0 <= l < n.level ==> n.nexts[l] == NextAt(chain, p, l)
      ensures forall k :: 0 <= k < |chain| ==> |chain[k].nexts| == chain[k].level
      ensures forall k, l :: 0 <= k < |chain| && 0 <= l < chain[k].level ==>
                chain[k].nexts[l] == if l < n.level && k == pos[l] then n else NextAt(chain, k + 1, l)
    {
      hide NextAt, Predecessors, Valid;
      LinksSpelledOut();
      PredecessorFacts(chain, p, update, pos);
      ghost var c := chain;
      var i := 0;
      while i < n.level
        invariant 0 <= i <= n.level && |n.nexts| == n.level && chain == c
        invariant forall k :: 0 <= k < |c| ==> |c[k].nexts| == c[k].level
        invariant forall k, l :: 0 <= k < |c| && 0 <= l < c[k].level ==>
                    c[k].nexts[l] == if l < i && k == pos[l] then n else NextAt(c, k + 1, l)
        invariant forall l :: 0 <= l < i ==> n.nexts[l] == NextAt(c, p, l)
      {
        var u := update[i];
        SpliceLevel(n, u, i, c, pos[i]);
        i := i + 1;
      }
    }

    /** One level: the pointer of u, at position q, goes to n. */
    method SpliceLevel(n: Node<T>, u: Node<T>, i: nat, ghost c: seq<Node<T>>, ghost q: nat)
      requires q < |c| && c[q] == u && n !in c && Distinct(c) && i < |n.nexts| && i < |u.nexts|
      modifies u, n
      ensures n.nexts == old(n.nexts)[i := old(u.nexts[i])]
      ensures forall k :: 0 <= k < |c| ==> |c[k].nexts| == old(|c[k].nexts|)
      ensures forall k, l :: 0 <= k < |c| && 0 <= l < |c[k].nexts| ==>
                c[k].nexts[l] == if l == i && k == q then n else old(c[k].nexts[l])
    {
      n.nexts := n.nexts[i := u.nexts[i]];
      u.nexts := u.nexts[i := n];
    }

    /** put for a key that is not there: the new node goes in front of position p. */
    method Link(key: int, value: T, level: nat, update: seq<Node<T>>, ghost pos: seq<nat>, ghost p: nat)
      requires Valid() && Split(key, p) && Predecessors(chain, p, update, pos)
      requires p < |chain| ==> chain[p].key != key
      requires 1 <= level <= MAX_LEVEL
      modifies this, chain
      ensures Valid() && forall n :: n in chain ==> n in old(chain) || fresh(n)
      ensures Points() == old(Points())[..p - 1] + [(key, value)] + old(Points())[p - 1..]
    {
      var n := new Node(key, value, level);
      assert Linked(chain, 0);
      Splice(n, update, pos, p);
      count := count + 1;
      ghost var before := chain;
      chain := Inserted(before, p, n);
      forall k | 0 <= k < |chain|
        ensures Linked(chain, k)
      {
        InsertKeepsLink(before, p, n, update, pos, k);
      }
      InsertKeepsShape(before, p, n);
    }

    lemma InsertKeepsShape(before: seq<Node<T>>, p: nat, n: Node<T>)
      requires before != [] && before[0] == head && head !in before[1..] && head.level == MAX_LEVEL
      requires 1 <= p <= |before| && chain == Inserted(before, p, n) && n != head && 1 <= n.level <= MAX_LEVEL
      requires forall k :: 1 <= k < |before| ==> 1 <= before[k].level <= MAX_LEVEL
      requires forall i, j :: 1 <= i < j < |before| ==> before[i].key < before[j].key
      requires forall k :: 1 <= k < p ==> before[k].key < n.key
      requires forall k :: p <= k < |before| ==> before[k].key > n.key
      requires count == |before|
      ensures Shape()
      ensures Points() == PointsOf(before)[..p - 1] + [(n.key, n.value)] + PointsOf(before)[p - 1..]
    {
      forall k | 1 <= k < |chain|
        ensures chain[k] != head && 1 <= chain[k].level <= MAX_LEVEL
      {
        assert chain[k] == if k < p then before[k] else if k == p then n else before[k - 1];
        assert k < p ==> before[k] in before[1..];
        assert k > p ==> before[k - 1] in before[1..];
      }
    }

    lemma ChainDistinct()
      requires Shape()
      ensures Distinct(chain)
    {
      forall a, b | 0 <= a < b < |chain|
        ensures chain[a] != chain[b]
      {
        assert chain[b] == chain[1..][b - 1];
      }
    }

    lemma LinksSpelledOut()
      requires Valid()
      ensures Distinct(chain)
      ensures forall k :: 0 <= k < |chain| ==> |chain[k].nexts| == chain[k].level
      ensures forall k, l :: 0 <= k < |chain| && 0 <= l < chain[k].level ==>
                chain[k].nexts[l] == NextAt(chain, k + 1, l)
    {
      ChainDistinct();
      forall k | 0 <= k < |chain|
        ensures |chain[k].nexts| == chain[k].level
        ensures forall l :: 0 <= l < chain[k].level ==> chain[k].nexts[l] == NextAt(chain, k + 1, l)
      {
        assert Linked(chain, k);
      }
    }

    /** put: a key already there keeps its value and hands it back. */
    method Put(key: int, value: T) returns (stored: T)
      requires Valid()
      modifies this, chain
      ensures Valid() && forall n :: n in chain ==> n in old(chain) || fresh(n)
      ensures Points() == PutPoint(old(Points()), key, value)
      ensures key in ToMap(Points()) && stored == ToMap(Points())[key]
    {
      var update, pos, p := FindUpdate(key);
      BottomPredecessor(p, update, pos);
      PointsPlace(key, p);
      PutAt(Points(), key, value, p - 1);
      PointsSorted();
      var current := update[0].nexts[0];
      if current != null && current.key == key {
        assert Points()[p - 1] == (key, current.value);
        MapValue(Points(), p - 1);
        return current.value;
      }
      stored := value;
      var level := RandomLevel();
      Link(key, value, level, update, pos, p);
      assert Points()[p - 1] == (key, value);
      PointsSorted();
      MapValue(Points(), p - 1);
    }

    lemma PointsPlace(key: int, p: nat)
      requires Shape() && Split(key, p)
      ensures Place(Points(), key, p - 1)
    {
    }

    lemma PointsSorted()
      requires Shape()
      ensures Sorted(Points())
    {
    }

    method Get(key: int) returns (found: bool, value: T)
      requires Valid()
      ensures found <==> key in ToMap(Points())
      ensures found ==> value == ToMap(Points())[key]
    {
      var update, pos, p := FindUpdate(key);
      BottomPredecessor(p, update, pos);
      PointsSorted();
      MapKeys(Points(), key);
      var current := update[0].nexts[0];
      if current != null && current.key == key {
        assert Points()[p - 1] == (key, current.value);
        MapValue(Points(), p - 1);
        return true, current.value;
      }
      return false, head.value;
    }

    method Del(key: int)
      requires Valid()
      modifies this, chain
      ensures Valid() && forall n :: n in chain ==> n in old(chain)
      ensures Points() == DelPoint(old(Points()), key)
    {
      var update, pos, p := FindUpdate(key);
      BottomPredecessor(p, update, pos);
      PointsPlace(key, p);
      PointsSorted();
      DelAt(Points(), key, p - 1);
      var current := update[0].nexts[0];
      if current != null && current.key == key {
        Unlink(current, update, pos, p);
      }
    }

    /** The cutting loop of del: level after level, until one does not lead to the node. */
    method Cut(current: Node<T>, update: seq<Node<T>>, ghost pos: seq<nat>, ghost p: nat)
      requires Valid() && 1 <= p < |chain| && chain[p] == current && Predecessors(chain, p, update, pos)
      modifies chain
      ensures forall k :: 0 <= k < |chain| ==> |chain[k].nexts| == chain[k].level
      ensures forall k, l :: 0 <= k < |chain| && 0 <= l < chain[k].level ==>
                chain[k].nexts[l] ==
                if l < current.level && k == pos[l] then NextAt(chain, p + 1, l) else NextAt(chain, k + 1, l)
    {
      hide NextAt, Predecessors;
      LinksSpelledOut();
      ChainDistinct();
      PredecessorFacts(chain, p, update, pos);
      hide Valid;
      ghost var c := chain;
      var i := 0;
      while i < MAX_LEVEL
        invariant 0 <= i <= current.level && chain == c
        invariant forall k :: 0 <= k < |c| ==> |c[k].nexts| == c[k].level
        invariant forall k, l :: 0 <= k < |c| && 0 <= l < c[k].level ==>
                    c[k].nexts[l] == if l < i && k == pos[l] then NextAt(c, p + 1, l) else NextAt(c, k + 1, l)
        decreases MAX_LEVEL - i
      {
        assert update[i] == c[pos[i]];
        CutLevel(c, p, i);
        if update[i].nexts[i] != current {
          break;
        }
        SkipLevel(update[i], current.nexts[i], i, c, pos[i]);
        i := i + 1;
      }
    }

    /** One level: the pointer of u, at position q, goes to next. */
    method SkipLevel(u: Node<T>, next: Node?<T>, i: nat, ghost c: seq<Node<T>>, ghost q: nat)
      requires q < |c| && c[q] == u && Distinct(c) && i < |u.nexts|
      modifies u
      ensures forall k :: 0 <= k < |c| ==> |c[k].nexts| == old(|c[k].nexts|)
      ensures forall k, l :: 0 <= k < |c| && 0 <= l < |c[k].nexts| ==>
                c[k].nexts[l] == if l == i && k == q then next else old(c[k].nexts[l])
    {
      u.nexts := u.nexts[i := next];
    }

    /** The level-i pointer into position p leads to the node there only if it has level i. */
    lemma CutLevel(c: seq<Node<T>>, p: nat, i: nat)
      requires p < |c| && Distinct(c)
      ensures NextAt(c, p, i) == c[p] <==> c[p].level > i
    {
      var j := NextIndex(c, p, i);
      if NextAt(c, p, i) == c[p] {
        assert c[j] == c[p];
      }
    }

    method Unlink(current: Node<T>, update: seq<Node<T>>, ghost pos: seq<nat>, ghost p: nat)
      requires Valid() && 1 <= p < |chain| && chain[p] == current && Predecessors(chain, p, update, pos)
      modifies this, chain
      ensures Valid() && forall n :: n in chain ==> n in old(chain)
      ensures Points() == old(Points())[..p - 1] + old(Points())[p..]
    {
      Cut(current, update, pos, p);
      count := count - 1;
      ghost var before := chain;
      chain := Removed(before, p);
      forall k | 0 <= k < |chain|
        ensures Linked(chain, k)
      {
        RemoveKeepsLink(before, p, update, pos, k);
      }
      RemoveKeepsShape(before, p);
    }

    lemma RemoveKeepsShape(before: seq<Node<T>>, p: nat)
      requires before != [] && before[0] == head && head !in before[1..] && head.level == MAX_LEVEL
      requires 1 <= p < |before| && chain == Removed(before, p)
      requires forall k :: 1 <= k < |before| ==> 1 <= before[k].level <= MAX_LEVEL
      requires forall i, j :: 1 <= i < j < |before| ==> before[i].key < before[j].key
      requires count == |before| - 2
      ensures Shape()
      ensures Points() == PointsOf(before)[..p - 1] + PointsOf(before)[p..]
    {
      forall k | 1 <= k < |chain|
        ensures chain[k] in before[1..]
      {
        assert chain[k] == before[1..][if k < p then k - 1 else k];
      }
    }

    method Clear()
      requires Valid()
      modifies this, head
      ensures Valid() && Points() == [] && chain == [head]
    {
      head.nexts := seq(MAX_LEVEL, _ => null);
      count := 0;
      chain := [head];
    }

    method Size() returns (n: nat)
      requires Valid()
      ensures n == |Points()|
    {
      n := count;
    }

    /** The time point zero stands for the empty list. */
    method MinKey() returns (key: int)
      requires Valid()
      ensures key == if Points() == [] then 0 else Points()[0].0
    {
      assert Linked(chain, 0);
      if head.nexts[0] != null {
        return head.nexts[0].key;
      }
      return 0;
    }

    method MaxKey() returns (key: int)
      requires Valid()
      ensures key == if Points() == [] then 0 else Points()[|Points()| - 1].0
    {
      var current := head;
      ghost var at: nat := 0;
      assert Linked(chain, 0);
      while current.nexts[0] != null
        invariant at < |chain| && chain[at] == current && Linked(chain, at) && current.level > 0
        decreases |chain| - at
      {
        assert at + 1 < |chain|;
        current := current.nexts[0];
        at := at + 1;
        assert Linked(chain, at);
      }
      assert at == |chain| - 1;
      if current != head {
        return current.key;
      }
      return 0;
    }

    /** begin() to end() along level 0. */
    method Traverse() returns (ps: seq<(int, T)>)
      requires Valid()
      ensures ps == Points()
    {
      ps := [];
      assert Linked(chain, 0);
      var current := head.nexts[0];
      ghost var at: nat := 1;
      while current != null
        invariant 1 <= at <= |chain| && ps == Points()[..at - 1]
        invariant current == (if at < |chain| then chain[at] else null)
        decreases |chain| - at
      {
        assert Linked(chain, at);
        ps := ps + [(current.key, current.value)];
        current := current.nexts[0];
        at := at + 1;
      }
    }

    /** Every level is the sorted subsequence of the nodes that reach it: its pointers, from
        the head on, visit exactly those nodes. */
    lemma LevelIsSubsequence(l: nat)
      requires Valid() && l < MAX_LEVEL
      ensures Path(head, l, LevelNodes(chain, l))
    {
      LevelPath(chain, 0, l);
      assert chain[0..] == chain;
    }
  }

  lemma {:induction false} LevelPath<T>(chain: seq<Node<T>>, k: nat, l: nat)
    requires k <= |chain| && forall i :: 0 <= i < |chain| ==> Linked(chain, i)
    ensures Path(NextAt(chain, k, l), l, LevelNodes(chain[k..], l))
    decreases |chain| - k
  {
    if k < |chain| {
      LevelPath(chain, k + 1, l);
      assert chain[k..][1..] == chain[k + 1..];
      assert Linked(chain, k);
      var ns, rest := LevelNodes(chain[k..], l), LevelNodes(chain[k + 1..], l);
      if chain[k].level > l {
        assert ns == [chain[k]] + rest && ns[1..] == rest;
        assert Path(chain[k].nexts[l], l, ns[1..]);
      } else {
        assert ns == [] + rest == rest;
      }
    }
  }

  /** A higher level skips nodes of a lower one and nothing else. */
  lemma {:induction false} LevelsNest<T>(chain: seq<Node<T>>, l: nat, m: nat)
    requires l <= m
    ensures LevelNodes(LevelNodes(chain, l), m) == LevelNodes(chain, m)
  {
    if chain != [] {
      LevelsNest(chain[1..], l, m);
      if chain[0].level > l {
        assert LevelNodes(chain, l) == [chain[0]] + LevelNodes(chain[1..], l);
        assert LevelNodes(chain, l)[1..] == LevelNodes(chain[1..], l);
      } else {
        assert LevelNodes(chain, l) == [] + LevelNodes(chain[1..], l) == LevelNodes(chain[1..], l);
        assert LevelNodes(chain, m) == [] + LevelNodes(chain[1..], m) == LevelNodes(chain[1..], m);
      }
    }
  }

  /** A node before p that reaches level l is its predecessor exactly when nothing between
      it and p reaches the level. */
  lemma PredecessorByGap<T>(chain: seq<Node<T>>, p: nat, update: seq<Node<T>>, pos: seq<nat>, k: nat, l: nat)
    requires p <= |chain| && Predecessors(chain, p, update, pos)
    requires k < p && chain[k].level > l && l < MAX_LEVEL
    ensures Gap(chain, k + 1, p, l) <==> k == pos[l]
  {
    assert PredecessorAt(chain, p, update, pos, l);
    if k < pos[l] {
      assert chain[pos[l]].level > l;
    }
  }

  /** Relinking each predecessor links the chain with the new node in it. */
  lemma InsertKeepsLink<T>(before: seq<Node<T>>, p: nat, n: Node<T>, update: seq<Node<T>>, pos: seq<nat>, k: nat)
    requires p <= |before| && k <= |before| && Predecessors(before, p, update, pos)
    requires n.level <= MAX_LEVEL && |n.nexts| == n.level
    requires forall i :: 0 <= i < |before| ==> before[i].level <= MAX_LEVEL && |before[i].nexts| == before[i].level
    requires forall i, l :: 0 <= i < |before| && 0 <= l < before[i].level ==>
               before[i].nexts[l] == if l < n.level && i == pos[l] then n else NextAt(before, i + 1, l)
    requires forall l :: 0 <= l < n.level ==> n.nexts[l] == NextAt(before, p, l)
    ensures Linked(Inserted(before, p, n), k)
  {
    var chain := Inserted(before, p, n);
    forall l | 0 <= l < chain[k].level
      ensures chain[k].nexts[l] == NextAt(chain, k + 1, l)
    {
      if k < p {
        assert chain[k] == before[k];
        NextBeforeInsert(before, p, n, k + 1, l);
        PredecessorByGap(before, p, update, pos, k, l);
      } else if k == p {
        NextAfterInsert(before, p, n, p, l);
      } else {
        assert chain[k] == before[k - 1];
        assert PredecessorAt(before, p, update, pos, l);
        NextAfterInsert(before, p, n, k, l);
      }
    }
  }

  lemma RemoveKeepsLink<T>(before: seq<Node<T>>, p: nat, update: seq<Node<T>>, pos: seq<nat>, k: nat)
    requires 1 <= p < |before| && k < |before| - 1 && Predecessors(before, p, update, pos)
    requires forall i :: 0 <= i < |before| ==> before[i].level <= MAX_LEVEL && |before[i].nexts| == before[i].level
    requires forall i, l :: 0 <= i < |before| && 0 <= l < before[i].level ==>
               before[i].nexts[l] ==
               if l < before[p].level && i == pos[l] then NextAt(before, p + 1, l) else NextAt(before, i + 1, l)
    ensures Linked(Removed(before, p), k)
  {
    hide NextAt, Predecessors, Removed, Inserted;
    var chain, n := Removed(before, p), before[p];
    InsertedRemoved(before, p);
    RemovedAt(before, p, k);
    PredecessorFacts(before, p, update, pos);
    forall l | 0 <= l < chain[k].level
      ensures chain[k].nexts[l] == NextAt(chain, k + 1, l)
    {
      if k >= p {
        assert chain[k] == before[k + 1];
        assert pos[l] != k + 1;
        NextAfterInsert(chain, p, n, k + 1, l);
      } else {
        assert chain[k] == before[k];
        RemoveLeads(before, p, update, pos, k, l);
      }
    }
  }

  /** Where level l leads from a node before the removed one. */
  lemma RemoveLeads<T>(before: seq<Node<T>>, p: nat, update: seq<Node<T>>, pos: seq<nat>, k: nat, l: nat)
    requires p < |before| && Predecessors(before, p, update, pos)
    requires k < p && before[k].level > l && l < MAX_LEVEL
    ensures NextAt(Removed(before, p), k + 1, l) ==
            if l < before[p].level && k == pos[l] then NextAt(before, p + 1, l) else NextAt(before, k + 1, l)
  {
    hide NextAt, Predecessors;
    var chain, n := Removed(before, p), before[p];
    InsertedRemoved(before, p);
    PredecessorFacts(before, p, update, pos);
    PredecessorByGap(before, p, update, pos, k, l);
    NextBeforeInsert(chain, p, n, k + 1, l);
    assert forall i :: 0 <= i < p ==> chain[i] == before[i];
    assert Gap(chain, k + 1, p, l) <==> Gap(before, k + 1, p, l);
    if k == pos[l] {
      NextSkipsGap(chain, k + 1, p, l);
      NextAfterInsert(chain, p, n, p, l);
    }
  }
}
