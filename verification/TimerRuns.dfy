/** Every run of a timer of src/Timer.cpp: what is added fires when the schedule says. */
module TimerRuns {
  import opened Integers
  import opened Timers
  import opened TimeUtils

  // ----- the schedule of one timer

  /** A timer added at tick `start`: once after ms milliseconds, or every ms milliseconds. */
  datatype Entry = Entry(start: nat, ms: uint32, periodic: bool)

  function Repeat(e: Entry): uint32 {
    if e.periodic then e.ms else 0
  }

  /** Delays whose sum with the tick length fits 32 bits and which are below 2^30 ticks. */
  predicate Small(p: uint32, ms: uint32) {
    p > 0 && ms + p <= TWO_32 && Ceil(ms, p) < TWO_30
  }

  /** The tick at which firing k (from 0) is due. */
  function Due(p: uint32, e: Entry, k: nat): int
    requires p > 0
  {
    if k == 0 then e.start + Ceil(e.ms, p) else e.start + 2 * Ceil(e.ms, p) + (k - 1) * e.ms / p
  }

  /** A timer added with no delay is seen by the next tick only. */
  function FireTick(p: uint32, e: Entry, k: nat): int
    requires p > 0
  {
    Max(Due(p, e, k), e.start + 1)
  }

  function Remainder(p: uint32, e: Entry, k: nat): uint32
    requires p > 0
  {
    k * e.ms % p
  }

  function NodeFor(p: uint32, e: Entry, id: nat, k: nat): TimerNode
    requires p > 0
  {
    TimerNode(id, Due(p, e, k), Repeat(e), Remainder(p, e, k))
  }

  lemma RemainderStep(p: uint32, e: Entry, k: nat)
    requires p > 0
    ensures (e.ms + Remainder(p, e, k)) % p == Remainder(p, e, k + 1)
  {
    var q, x := k * e.ms / p, e.ms + Remainder(p, e, k);
    assert k * e.ms == q * p + Remainder(p, e, k);
    assert x == x / p * p + x % p;
    assert (k + 1) * e.ms == k * e.ms + e.ms;
    assert (x / p + q) * p == x / p * p + q * p;
    RemainderUnique((k + 1) * e.ms, p, x / p + q, x % p);
  }

  /** The ticks from firing k to the next are what the multiples of the period say. */
  lemma DueStep(p: uint32, e: Entry, k: nat)
    requires p > 0
    ensures Due(p, e, k + 1) == Due(p, e, k) + (e.ms + p - 1 - Remainder(p, e, k)) / p
  {
    if k == 0 {
      assert 0 * e.ms == 0;
    } else {
      var a, b := k * e.ms, (k - 1) * e.ms;
      assert a == b + e.ms;
      var q, r, q', r' := a / p, a % p, b / p, b % p;
      assert a == q * p + r && b == q' * p + r';
      assert (q - q') * p == q * p - q' * p;
      RemainderUnique(e.ms + p - 1 - r, p, q - q', p - 1 - r');
    }
  }

  /** The remainder rule adds up: refiring firing k gives the node of firing k + 1. */
  lemma RefiringFollowsSchedule(p: uint32, e: Entry, id: nat, k: nat)
    requires Small(p, e.ms) && e.periodic
    ensures Refired(false, p, NodeFor(p, e, id, k)) == NodeFor(p, e, id, k + 1)
  {
    var r := Remainder(p, e, k);
    assert U32(e.ms + r) == e.ms + r && U32(e.ms + p - 1 - r) == e.ms + p - 1 - r;
    RemainderStep(p, e, k);
    DueStep(p, e, k);
  }

  /** The schedule without quotients: c ticks are the fewest that hold the period, the second firing
      is due c ticks after the first, and k - 1 periods later as many ticks later as they hold. */
  lemma ScheduleInNumbers(p: uint32, e: Entry, k: nat)
    requires p > 0
    ensures var c, d := Due(p, e, 0) - e.start, Due(p, e, k) - e.start;
      (c - 1) * p < e.ms <= c * p && (k > 0 ==> (d - 2 * c) * p <= (k - 1) * e.ms < (d - 2 * c + 1) * p)
    ensures FireTick(p, e, k) == if Due(p, e, k) > e.start then Due(p, e, k) else e.start + 1
  {
    DivBounds(e.ms + p - 1, p);
    DivBounds((k - 1) * e.ms, p);
  }

  /** For ever, a firing is due less than one tick before and less than two ticks after the
      real multiple of the period (all scaled by the tick length). */
  lemma DriftIsBounded(p: uint32, e: Entry, k: nat)
    requires p > 0 && e.periodic
    ensures (k + 1) * e.ms - p < (Due(p, e, k) - e.start) * p < (k + 1) * e.ms + 2 * p
  {
    var c := Ceil(e.ms, p);
    DivBounds(e.ms + p - 1, p);
    if k > 0 {
      var b := (k - 1) * e.ms;
      DivBounds(b, p);
      assert (k + 1) * e.ms == b + 2 * e.ms;
      assert (2 * c + b / p) * p == 2 * (c * p) + b / p * p;
    }
  }

  lemma QuotientNonNegative(a: int, p: int)
    requires a >= 0 && p > 0
    ensures a / p >= 0
  {
  }

  lemma DueRises(p: uint32, e: Entry, k: nat)
    requires p > 0
    ensures Due(p, e, k) <= Due(p, e, k + 1)
  {
    DueStep(p, e, k);
    QuotientNonNegative(e.ms + p - 1 - Remainder(p, e, k), p);
  }

  lemma {:induction false} DueMonotone(p: uint32, e: Entry, j: nat, k: nat)
    requires p > 0 && j <= k
    ensures Due(p, e, j) <= Due(p, e, k)
    decreases k
  {
    if j < k {
      DueMonotone(p, e, j, k - 1);
      DueRises(p, e, k - 1);
    }
  }

  // ----- runs, with unbounded ticks

  datatype Firing = Firing(id: nat, tick: int)

  /** Timer number `id` is entries[id]; `log` tells what fired and when. */
  datatype Model = Model(now: nat, list: seq<TimerNode>, entries: seq<Entry>, removed: set<nat>, log: seq<Firing>)

  const INIT := Model(0, [], [], {}, [])

  datatype Op = Add(ms: uint32, periodic: bool) | Tick | Remove(doomed: nat -> bool)

  function TicksOf(log: seq<Firing>, id: nat): seq<int> {
    if log == [] then []
    else
      var f := log[|log| - 1];
      TicksOf(log[..|log| - 1], id) + if f.id == id then [f.tick] else []
  }

  function Stamped(ids: seq<nat>, tick: int): (r: seq<Firing>)
    ensures |r| == |ids|
  {
    seq(|ids|, i requires 0 <= i < |ids| => Firing(ids[i], tick))
  }

  /** handleTick at tick `now`, the counter already advanced. */
  function DrainModel(p: uint32, now: nat, m: Model): Model
    requires p > 0 && NodesOk(p, m.list)
  {
    EveryListEnds(false, p, now, m.list);
    var d := Drain(false, p, now, m.list);
    m.(now := now, list := d.list, log := m.log + Stamped(d.fired, now))
  }

  function Next(p: uint32, m: Model, op: Op): Model
    requires p > 0 && NodesOk(p, m.list)
  {
    match op
    case Add(ms, periodic) =>
      var e := Entry(m.now, ms, periodic);
      m.(list := Insert(false, m.list, NodeFor(p, e, |m.entries|, 0)), entries := m.entries + [e])
    case Tick => DrainModel(p, m.now + 1, m)
    case Remove(doomed) =>
      m.(list := Undoomed(m.list, doomed), removed := m.removed + set id: nat | id < |m.entries| && doomed(id))
  }

  function Count(m: Model, id: nat): nat {
    |TicksOf(m.log, id)|
  }

  // ----- the invariant, seen while tick `now` is being handled

  ghost predicate EntriesOk(p: uint32, now: int, m: Model) {
    forall id :: 0 <= id < |m.entries| ==> Small(p, m.entries[id].ms) && m.entries[id].start < now
  }

  /** A listed node is the next firing of its timer, and not overdue. */
  ghost predicate ListedOk(p: uint32, now: int, m: Model, n: TimerNode)
    requires p > 0
  {
    && n.id < |m.entries| && n.id !in m.removed
    && n == NodeFor(p, m.entries[n.id], n.id, Count(m, n.id))
    && (now <= n.tick < now + TWO_30 || n.tick == m.entries[n.id].start == now - 1)
    && (Repeat(m.entries[n.id]) == 0 ==> Count(m, n.id) == 0)
  }

  ghost predicate Ordered(list: seq<TimerNode>) {
    forall i, j :: 0 <= i < j < |list| ==> list[i].tick <= list[j].tick && list[i].id != list[j].id
  }

  ghost predicate InList(list: seq<TimerNode>, id: nat) {
    exists n :: n in list && n.id == id
  }

  /** A timer that is not removed is listed, unless it fires once and has. */
  ghost predicate PresentOk(m: Model) {
    forall id: nat :: id < |m.entries| && id !in m.removed ==>
      InList(m.list, id) || (Repeat(m.entries[id]) == 0 && Count(m, id) == 1)
  }

  ghost predicate LogOk(p: uint32, now: int, m: Model)
    requires p > 0
  {
    && (forall i :: 0 <= i < |m.log| ==> m.log[i].id < |m.entries| && m.log[i].tick <= now)
    && (forall id: nat, j {:trigger TicksOf(m.log, id)[j]} :: id < |m.entries| && 0 <= j < Count(m, id) ==>
          TicksOf(m.log, id)[j] == FireTick(p, m.entries[id], j))
  }

  ghost predicate Mid(p: uint32, now: int, m: Model) {
    && p > 0 && EntriesOk(p, now, m)
    && (forall i :: 0 <= i < |m.list| ==> ListedOk(p, now, m, m.list[i]))
    && Ordered(m.list) && PresentOk(m) && LogOk(p, now, m)
    && (forall id :: id in m.removed ==> id < |m.entries|)
  }

  /** Between operations, everything is as if the next tick had just begun. */
  ghost predicate Inv(p: uint32, m: Model) {
    Mid(p, m.now + 1, m) && forall i :: 0 <= i < |m.log| ==> m.log[i].tick <= m.now
  }

  lemma MidNodesOk(p: uint32, now: int, m: Model)
    requires Mid(p, now, m)
    ensures NodesOk(p, m.list) && AllNear(p, now, m.list)
  {
    forall i | 0 <= i < |m.list| ensures NodeOk(p, m.list[i]) && Near(p, now, m.list[i]) {
      var n := m.list[i];
      assert ListedOk(p, now, m, n);
      assert Small(p, m.entries[n.id].ms);
      QuotientNonNegative(p - 1, p);
      DivMonotone(Repeat(m.entries[n.id]) + p - 1, m.entries[n.id].ms + p - 1, p);
      if p == 1 {
        assert Ceil(n.repeat, p) == n.repeat;
      }
    }
  }

  /** Behind every node due no later, in front of every node due later: ties keep their order. */
  lemma {:induction false} InsertIsStable(list: seq<TimerNode>, node: TimerNode) returns (k: nat)
    requires forall i, j :: 0 <= i < j < |list| ==> list[i].tick <= list[j].tick
    ensures k <= |list| && Insert(false, list, node) == list[..k] + [node] + list[k..]
    ensures forall i :: 0 <= i < k ==> list[i].tick <= node.tick
    ensures forall i :: k <= i < |list| ==> list[i].tick > node.tick
  {
    if list == [] || node.tick < list[0].tick {
      k := 0;
    } else {
      var j := InsertIsStable(list[1..], node);
      k := j + 1;
    }
  }

  lemma {:induction false} InsertMembers(list: seq<TimerNode>, node: TimerNode)
    ensures forall n :: n in Insert(false, list, node) <==> n in list || n == node
  {
    if list != [] && node.tick >= list[0].tick {
      InsertMembers(list[1..], node);
      assert forall n :: n in list <==> n == list[0] || n in list[1..];
    }
  }

  lemma ConsOrdered(n: TimerNode, rest: seq<TimerNode>)
    requires Ordered(rest) && forall x :: x in rest ==> n.tick <= x.tick && n.id != x.id
    ensures Ordered([n] + rest)
  {
    assert forall i :: 0 <= i < |rest| ==> rest[i] in rest;
  }

  lemma {:induction false} InsertOrdered(list: seq<TimerNode>, node: TimerNode)
    requires Ordered(list) && !InList(list, node.id)
    ensures Ordered(Insert(false, list, node))
  {
    if list != [] {
      var h, t := list[0], list[1..];
      assert forall n :: n in list <==> n == h || n in t;
      assert forall n :: n in t ==> h.tick <= n.tick && h.id != n.id;
      if node.tick < h.tick {
        ConsOrdered(node, list);
      } else {
        InsertOrdered(t, node);
        InsertMembers(t, node);
        ConsOrdered(h, Insert(false, t, node));
      }
    }
  }

  // ----- one firing

  function FireModel(p: uint32, now: int, m: Model): Model
    requires p > 0 && m.list != []
  {
    m.(list := AfterFiring(false, p, m.list), log := m.log + [Firing(m.list[0].id, now)])
  }

  lemma TicksOfSnoc(log: seq<Firing>, f: Firing, id: nat)
    ensures TicksOf(log + [f], id) == TicksOf(log, id) + if f.id == id then [f.tick] else []
  {
    assert (log + [f])[..|log|] == log;
  }

  /** The head fires in the tick that the schedule says, and is put back for its next firing. */
  lemma HeadFiresOnTime(p: uint32, now: nat, m: Model)
    requires Mid(p, now, m) && m.list != [] && m.list[0].tick <= now
    ensures var n, e := m.list[0], m.entries[m.list[0].id];
      && FireTick(p, e, Count(m, n.id)) == now
      && (n.repeat != 0 <==> Repeat(e) != 0)
      && (n.repeat != 0 ==> var next := Refired(false, p, n);
            next == NodeFor(p, e, n.id, Count(m, n.id) + 1) && now <= next.tick < now + TWO_30)
  {
    var n := m.list[0];
    assert ListedOk(p, now, m, n);
    var e, k := m.entries[n.id], Count(m, n.id);
    assert Small(p, e.ms) && e.start < now;
    DueMonotone(p, e, 0, k);
    if n.repeat != 0 {
      assert e.periodic;
      RefiringFollowsSchedule(p, e, n.id, k);
      MidNodesOk(p, now, m);
      NewTicksRange(p, n);
      DivMonotone(p, e.ms + p - 1, p);
      assert p / p == 1;
      assert Due(p, e, 0) > e.start;
    }
  }

  lemma FireTicks(p: uint32, now: int, m: Model, id: nat)
    requires p > 0 && m.list != []
    ensures TicksOf(FireModel(p, now, m).log, id) == TicksOf(m.log, id) + if id == m.list[0].id then [now] else []
  {
    TicksOfSnoc(m.log, Firing(m.list[0].id, now), id);
  }

  lemma FireListed(p: uint32, now: nat, m: Model, x: TimerNode)
    requires Mid(p, now, m) && m.list != [] && m.list[0].tick <= now && x in FireModel(p, now, m).list
    ensures ListedOk(p, now, FireModel(p, now, m), x)
  {
    var n, rest := m.list[0], m.list[1..];
    if n.repeat != 0 {
      InsertMembers(rest, Refired(false, p, n));
    }
    if x in rest {
      OtherStaysListed(p, now, m, x);
    } else {
      HeadFiresOnTime(p, now, m);
      FireTicks(p, now, m, n.id);
      assert ListedOk(p, now, m, n);
    }
  }

  lemma OtherStaysListed(p: uint32, now: nat, m: Model, x: TimerNode)
    requires Mid(p, now, m) && m.list != [] && m.list[0].tick <= now && x in m.list[1..]
    ensures ListedOk(p, now, FireModel(p, now, m), x)
  {
    FireTicks(p, now, m, x.id);
    var i :| 0 <= i < |m.list| - 1 && m.list[1..][i] == x;
    assert x == m.list[i + 1];
    assert ListedOk(p, now, m, x);
  }

  lemma FireOrdered(p: uint32, now: nat, m: Model)
    requires Mid(p, now, m) && m.list != [] && m.list[0].tick <= now
    ensures Ordered(FireModel(p, now, m).list)
  {
    var n, rest := m.list[0], m.list[1..];
    if n.repeat != 0 {
      assert !InList(rest, n.id);
      InsertOrdered(rest, Refired(false, p, n));
    }
  }

  lemma FirePresent(p: uint32, now: nat, m: Model)
    requires Mid(p, now, m) && m.list != [] && m.list[0].tick <= now
    ensures PresentOk(FireModel(p, now, m))
  {
    HeadFiresOnTime(p, now, m);
    var n, rest, m' := m.list[0], m.list[1..], FireModel(p, now, m);
    assert ListedOk(p, now, m, n);
    if n.repeat != 0 {
      InsertMembers(rest, Refired(false, p, n));
      assert Refired(false, p, n) in m'.list;
    }
    forall id: nat | id < |m.entries| && id !in m.removed
      ensures InList(m'.list, id) || (Repeat(m.entries[id]) == 0 && Count(m', id) == 1)
    {
      FireTicks(p, now, m, id);
      if InList(m.list, id) && id != n.id {
        var x :| x in m.list && x.id == id;
        assert x in rest;
        assert x in m'.list;
      }
    }
  }

  lemma FireLogged(p: uint32, now: nat, m: Model)
    requires Mid(p, now, m) && m.list != [] && m.list[0].tick <= now
    ensures LogOk(p, now, FireModel(p, now, m))
  {
    HeadFiresOnTime(p, now, m);
    assert ListedOk(p, now, m, m.list[0]);
    var m' := FireModel(p, now, m);
    forall id: nat, j | id < |m.entries| && 0 <= j < Count(m', id)
      ensures TicksOf(m'.log, id)[j] == FireTick(p, m.entries[id], j)
    {
      FireTicks(p, now, m, id);
    }
  }

  lemma FireKeeps(p: uint32, now: nat, m: Model)
    requires Mid(p, now, m) && m.list != [] && m.list[0].tick <= now
    ensures Mid(p, now, FireModel(p, now, m))
  {
    var m' := FireModel(p, now, m);
    forall i | 0 <= i < |m'.list| ensures ListedOk(p, now, m', m'.list[i]) {
      FireListed(p, now, m, m'.list[i]);
    }
    FireOrdered(p, now, m);
    FirePresent(p, now, m);
    FireLogged(p, now, m);
  }

  // ----- whole operations

  lemma StampedCons(id: nat, ids: seq<nat>, tick: int)
    ensures Stamped([id] + ids, tick) == [Firing(id, tick)] + Stamped(ids, tick)
  {
  }

  /** Draining is firing the head and draining what results. */
  lemma DrainFiresHead(p: uint32, now: nat, m: Model)
    requires p > 0 && NodesOk(p, m.list) && m.list != [] && m.list[0].tick <= now
    ensures NodesOk(p, FireModel(p, now, m).list)
    ensures DrainModel(p, now, m) == DrainModel(p, now, FireModel(p, now, m))
  {
    FiringLowersWork(false, p, now, m.list);
    EveryListEnds(false, p, now, m.list);
    EveryListEnds(false, p, now, AfterFiring(false, p, m.list));
    var id, d := m.list[0].id, Drain(false, p, now, AfterFiring(false, p, m.list));
    StampedCons(id, d.fired, now);
    assert m.log + ([Firing(id, now)] + Stamped(d.fired, now)) == (m.log + [Firing(id, now)]) + Stamped(d.fired, now);
  }

  lemma {:induction false} DrainKeeps(p: uint32, now: nat, m: Model)
    requires Mid(p, now, m) && NodesOk(p, m.list)
    ensures var m' := DrainModel(p, now, m);
      Mid(p, now, m') && forall i :: 0 <= i < |m'.list| ==> m'.list[i].tick > now
    decreases TotalWork(false, p, now, m.list)
  {
    if m.list == [] || m.list[0].tick > now {
      assert m.log + [] == m.log;
      assert DrainModel(p, now, m) == m.(now := now);
      MidIgnoresNow(p, now, m, DrainModel(p, now, m));
    } else {
      FiringLowersWork(false, p, now, m.list);
      DrainFiresHead(p, now, m);
      FireKeeps(p, now, m);
      DrainKeeps(p, now, FireModel(p, now, m));
    }
  }

  lemma MidIgnoresNow(p: uint32, now: int, m: Model, m': Model)
    requires Mid(p, now, m) && m' == m.(now := m'.now)
    ensures Mid(p, now, m')
  {
    forall i | 0 <= i < |m.list| ensures ListedOk(p, now, m', m'.list[i]) {
      assert ListedOk(p, now, m, m.list[i]);
    }
  }

  lemma MidNextTick(p: uint32, now: int, m: Model)
    requires Mid(p, now, m) && forall i :: 0 <= i < |m.list| ==> m.list[i].tick > now
    ensures Mid(p, now + 1, m)
  {
    forall i | 0 <= i < |m.list| ensures ListedOk(p, now + 1, m, m.list[i]) {
      assert ListedOk(p, now, m, m.list[i]);
    }
  }

  lemma TickKeeps(p: uint32, m: Model)
    requires Inv(p, m) && NodesOk(p, m.list)
    ensures Inv(p, Next(p, m, Tick))
  {
    hide Mid, NodesOk;
    var now := m.now + 1;
    DrainKeeps(p, now, m);
    MidNextTick(p, now, DrainModel(p, now, m));
  }

  /** The node of a timer just added is its first firing. */
  lemma NewNodeListed(p: uint32, m: Model, ms: uint32, periodic: bool)
    requires Inv(p, m) && Small(p, ms) && NodesOk(p, m.list)
    ensures var m' := Next(p, m, Add(ms, periodic));
      ListedOk(p, m.now + 1, m', NodeFor(p, m'.entries[|m.entries|], |m.entries|, 0))
  {
    var id := |m.entries|;
    QuotientNonNegative(ms + p - 1, p);
    NoTicks(m.log, id);
    assert 0 * ms == 0;
    forall j | j in m.removed ensures j < id {
    }
  }

  lemma AddKeeps(p: uint32, m: Model, ms: uint32, periodic: bool)
    requires Inv(p, m) && Small(p, ms) && NodesOk(p, m.list)
    ensures Inv(p, Next(p, m, Add(ms, periodic)))
  {
    var now, id, m' := m.now + 1, |m.entries|, Next(p, m, Add(ms, periodic));
    var node := NodeFor(p, m'.entries[id], id, 0);
    NewNodeListed(p, m, ms, periodic);
    assert forall i :: 0 <= i < |m.list| ==> ListedOk(p, now, m, m.list[i]);
    assert !InList(m.list, id);
    InsertMembers(m.list, node);
    InsertOrdered(m.list, node);
    assert node in m'.list;
    forall i | 0 <= i < |m'.list| ensures ListedOk(p, now, m', m'.list[i]) {
      var x := m'.list[i];
      assert x in m'.list;
      if x in m.list {
        assert ListedOk(p, now, m, x);
      }
    }
    AddPresent(p, m, ms, periodic);
    AddLogged(p, m, ms, periodic);
  }

  lemma AddLogged(p: uint32, m: Model, ms: uint32, periodic: bool)
    requires p > 0 && LogOk(p, m.now + 1, m) && NodesOk(p, m.list)
    ensures LogOk(p, m.now + 1, Next(p, m, Add(ms, periodic)))
  {
    NoTicks(m.log, |m.entries|);
  }

  lemma AddPresent(p: uint32, m: Model, ms: uint32, periodic: bool)
    requires p > 0 && PresentOk(m) && NodesOk(p, m.list)
    ensures PresentOk(Next(p, m, Add(ms, periodic)))
  {
    var id, m' := |m.entries|, Next(p, m, Add(ms, periodic));
    InsertMembers(m.list, NodeFor(p, m'.entries[id], id, 0));
    assert NodeFor(p, m'.entries[id], id, 0) in m'.list;
    forall j: nat | j < |m'.entries| && j !in m'.removed
      ensures InList(m'.list, j) || (Repeat(m'.entries[j]) == 0 && Count(m', j) == 1)
    {
      if j < id && InList(m.list, j) {
        var x :| x in m.list && x.id == j;
        assert x in m'.list;
      }
    }
  }

  lemma {:induction false} NoTicks(log: seq<Firing>, id: nat)
    requires forall i :: 0 <= i < |log| ==> log[i].id != id
    ensures TicksOf(log, id) == []
  {
    if log != [] {
      NoTicks(log[..|log| - 1], id);
    }
  }

  lemma {:induction false} UndoomedMembers(list: seq<TimerNode>, doomed: nat -> bool)
    requires Ordered(list)
    ensures Ordered(Undoomed(list, doomed))
    ensures forall n :: n in Undoomed(list, doomed) <==> n in list && !doomed(n.id)
  {
    if list != [] {
      UndoomedMembers(list[1..], doomed);
      var rest := Undoomed(list[1..], doomed);
      assert forall n :: n in list <==> n == list[0] || n in list[1..];
      assert forall i :: 0 <= i < |rest| ==> rest[i] in rest;
      assert forall n :: n in list[1..] ==> n.tick >= list[0].tick && n.id != list[0].id;
    }
  }

  lemma RemoveKeeps(p: uint32, m: Model, doomed: nat -> bool)
    requires Inv(p, m) && NodesOk(p, m.list)
    ensures Inv(p, Next(p, m, Remove(doomed)))
  {
    var now, m' := m.now + 1, Next(p, m, Remove(doomed));
    UndoomedMembers(m.list, doomed);
    forall i | 0 <= i < |m'.list| ensures ListedOk(p, now, m', m'.list[i]) {
      var x := m'.list[i];
      assert x in m'.list && x in m.list;
      assert ListedOk(p, now, m, x);
    }
    forall id: nat | id < |m.entries| && id !in m'.removed
      ensures InList(m'.list, id) || (Repeat(m.entries[id]) == 0 && Count(m', id) == 1)
    {
      if InList(m.list, id) {
        var x :| x in m.list && x.id == id;
        assert x in m'.list;
      }
    }
  }

  // ----- whole runs

  ghost predicate DelaysSmall(p: uint32, ops: seq<Op>) {
    forall i :: 0 <= i < |ops| && ops[i].Add? ==> Small(p, ops[i].ms)
  }

  function Run(p: uint32, ops: seq<Op>): (m: Model)
    requires p > 0 && DelaysSmall(p, ops)
    ensures Inv(p, m) && NodesOk(p, m.list)
  {
    if ops == [] then INIT
    else
      var m, op := Run(p, ops[..|ops| - 1]), ops[|ops| - 1];
      assert Inv(p, Next(p, m, op)) && NodesOk(p, Next(p, m, op).list) by {
        StepKeeps(p, m, op);
      }
      Next(p, m, op)
  }

  lemma StepKeeps(p: uint32, m: Model, op: Op)
    requires Inv(p, m) && NodesOk(p, m.list) && (op.Add? ==> Small(p, op.ms))
    ensures Inv(p, Next(p, m, op)) && NodesOk(p, Next(p, m, op).list)
  {
    match op {
      case Add(ms, periodic) => AddKeeps(p, m, ms, periodic);
      case Tick => TickKeeps(p, m);
      case Remove(doomed) => RemoveKeeps(p, m, doomed);
    }
    MidNodesOk(p, Next(p, m, op).now + 1, Next(p, m, op));
  }

  /** `fired` are exactly those ticks of the schedule of e that have come by `now`. */
  ghost predicate OnSchedule(p: uint32, e: Entry, fired: seq<int>, now: int)
    requires p > 0
  {
    && (forall j :: 0 <= j < |fired| ==> fired[j] == FireTick(p, e, j))
    && (forall j: nat :: j < |fired| <==> HasCome(p, e, j, now))
  }

  /** Firing j exists and its tick has been reached. */
  predicate HasCome(p: uint32, e: Entry, j: nat, now: int)
    requires p > 0
  {
    (j == 0 || Repeat(e) != 0) && FireTick(p, e, j) <= now
  }

  /** In every run, a timer that was not removed fires on schedule: never early, never late,
      never twice, none missed. */
  lemma EveryTimerKeepsItsSchedule(p: uint32, ops: seq<Op>)
    requires p > 0 && DelaysSmall(p, ops)
    ensures var m := Run(p, ops);
      forall id: nat :: id < |m.entries| && id !in m.removed ==>
        OnSchedule(p, m.entries[id], TicksOf(m.log, id), m.now)
  {
    var m := Run(p, ops);
    forall id: nat | id < |m.entries| && id !in m.removed
      ensures OnSchedule(p, m.entries[id], TicksOf(m.log, id), m.now)
    {
      InvMeansOnSchedule(p, m, id);
    }
  }

  lemma InvMeansOnSchedule(p: uint32, m: Model, id: nat)
    requires Inv(p, m) && id < |m.entries| && id !in m.removed
    ensures OnSchedule(p, m.entries[id], TicksOf(m.log, id), m.now)
  {
    var e, k := m.entries[id], Count(m, id);
    forall j: nat | j < k ensures HasCome(p, e, j, m.now) {
      assert TicksOf(m.log, id)[j] == FireTick(p, e, j);
      TicksBound(m.log, id, m.now, j);
    }
    if n :| n in m.list && n.id == id {
      assert ListedOk(p, m.now + 1, m, n);
      assert FireTick(p, e, k) > m.now;
      forall j: nat | k <= j ensures !HasCome(p, e, j, m.now) {
        DueMonotone(p, e, k, j);
      }
    }
  }

  lemma {:induction false} TicksBound(log: seq<Firing>, id: nat, now: int, j: nat)
    requires (forall i :: 0 <= i < |log| ==> log[i].tick <= now) && j < |TicksOf(log, id)|
    ensures TicksOf(log, id)[j] <= now
  {
    var init := log[..|log| - 1];
    if j < |TicksOf(init, id)| {
      TicksBound(init, id, now, j);
    }
  }

  /** On schedule, a one-shot timer fires once, after max(1, ceil(ms / p)) ticks. */
  lemma OneShotFiresOnce(p: uint32, e: Entry, fired: seq<int>, now: int)
    requires p > 0 && Repeat(e) == 0 && OnSchedule(p, e, fired, now)
    ensures var t := e.start + Max(1, Ceil(e.ms, p));
      fired == if t <= now then [t] else []
    ensures (Ceil(e.ms, p) - 1) * p < e.ms <= Ceil(e.ms, p) * p
  {
    DivBounds(e.ms + p - 1, p);
    assert !HasCome(p, e, 1, now);
    assert 0 < |fired| <==> HasCome(p, e, 0, now);
  }

  // ----- the code, with its 32-bit ticks, runs the same

  /** What the object holds, the counter and the list, and the ids that each tick has fired. */
  datatype Code = Code(ticks: uint32, list: seq<TimerNode>, fired: seq<seq<nat>>)

  /** The operation as the methods of the timer perform it; `id` names a timer being added. */
  function CodeNext(p: uint32, c: Code, op: Op, id: nat): Code
    requires p > 0 && NodesOk(p, c.list)
  {
    match op
    case Add(ms, periodic) => c.(list := Insert(true, c.list, NewNode(p, c.ticks, id, ms, periodic)))
    case Tick =>
      var now := U32(c.ticks + 1);
      EveryListEnds(true, p, now, c.list);
      var d := Drain(true, p, now, c.list);
      Code(now, d.list, c.fired + [d.fired])
    case Remove(doomed) => c.(list := Undoomed(c.list, doomed))
  }

  /** What was fired, each with the number of its tick. */
  function LogOf(fired: seq<seq<nat>>): seq<Firing> {
    if fired == [] then [] else LogOf(fired[..|fired| - 1]) + Stamped(fired[|fired| - 1], |fired|)
  }

  /** The wrapped state stands for the unbounded one: same list but for the wrapping, same log. */
  predicate Codes(c: Code, m: Model) {
    c.ticks == U32(m.now) && c.list == WrapAll(m.list) && |c.fired| == m.now && LogOf(c.fired) == m.log
  }

  lemma {:induction false} UndoomedRefines(list: seq<TimerNode>, doomed: nat -> bool)
    ensures Undoomed(WrapAll(list), doomed) == WrapAll(Undoomed(list, doomed))
  {
    if list != [] {
      assert WrapAll(list)[1..] == WrapAll(list[1..]);
      UndoomedRefines(list[1..], doomed);
    }
  }

  lemma FirstRemainder(p: uint32, e: Entry)
    requires p > 0
    ensures Remainder(p, e, 0) == 0
  {
    RemainderUnique(0, p, 0, 0);
  }

  lemma NewNodeRefines(p: uint32, m: Model, ms: uint32, periodic: bool)
    requires Small(p, ms)
    ensures NewNode(p, U32(m.now), |m.entries|, ms, periodic)
         == Wrapped(NodeFor(p, Entry(m.now, ms, periodic), |m.entries|, 0))
  {
    var c := Ceil(ms, p);
    assert U32(ms + p - 1) == ms + p - 1;
    FirstRemainder(p, Entry(m.now, ms, periodic));
    U32Add(m.now, c);
  }

  lemma AddRefines(p: uint32, m: Model, ms: uint32, periodic: bool)
    requires Inv(p, m) && NodesOk(p, m.list) && Small(p, ms)
    ensures Insert(true, WrapAll(m.list), NewNode(p, U32(m.now), |m.entries|, ms, periodic))
         == WrapAll(Next(p, m, Add(ms, periodic)).list)
  {
    var now, node := m.now + 1, NodeFor(p, Entry(m.now, ms, periodic), |m.entries|, 0);
    NewNodeRefines(p, m, ms, periodic);
    MidNodesOk(p, now, m);
    AddKeeps(p, m, ms, periodic);
    MidNodesOk(p, now, Next(p, m, Add(ms, periodic)));
    InsertMembers(m.list, node);
    assert node in Next(p, m, Add(ms, periodic)).list;
    InsertRefines(p, now, m.list, node);
  }

  lemma TickRefines(p: uint32, c: Code, m: Model)
    requires Inv(p, m) && NodesOk(p, m.list) && Codes(c, m) && NodesOk(p, c.list)
    ensures Codes(CodeNext(p, c, Tick, |m.entries|), Next(p, m, Tick))
  {
    MidNodesOk(p, m.now + 1, m);
    DrainRefines(p, m.now + 1, m.list);
    U32Add(m.now, 1);
    var d := Drain(true, p, U32(m.now + 1), c.list);
    assert (c.fired + [d.fired])[..|c.fired|] == c.fired;
  }

  /** Every operation on the wrapped state does what it does on unbounded ticks, and fires the same. */
  lemma StepRefines(p: uint32, c: Code, m: Model, op: Op)
    requires Inv(p, m) && NodesOk(p, m.list) && Codes(c, m) && (op.Add? ==> Small(p, op.ms))
    ensures NodesOk(p, c.list)
    ensures Codes(CodeNext(p, c, op, |m.entries|), Next(p, m, op))
  {
    MidNodesOk(p, m.now + 1, m);
    DrainRefines(p, m.now + 1, m.list);
    match op
    case Add(ms, periodic) => AddRefines(p, m, ms, periodic);
    case Tick => TickRefines(p, c, m);
    case Remove(doomed) => UndoomedRefines(m.list, doomed);
  }

  // ----- the schedule, read off the operations alone

  function Ticks(ops: seq<Op>): nat {
    if ops == [] then 0 else Ticks(ops[..|ops| - 1]) + if ops[|ops| - 1].Tick? then 1 else 0
  }

  /** The timers added, in order. */
  function Added(ops: seq<Op>): seq<Entry> {
    if ops == [] then []
    else
      var before, op := ops[..|ops| - 1], ops[|ops| - 1];
      Added(before) + if op.Add? then [Entry(Ticks(before), op.ms, op.periodic)] else []
  }

  /** Timer id was removed after it was added. */
  predicate IsRemoved(ops: seq<Op>, id: nat) {
    if ops == [] then false
    else
      var before, op := ops[..|ops| - 1], ops[|ops| - 1];
      IsRemoved(before, id) || (op.Remove? && id < |Added(before)| && op.doomed(id))
  }

  lemma {:induction false} RunOfOps(p: uint32, ops: seq<Op>)
    requires p > 0 && DelaysSmall(p, ops)
    ensures var m := Run(p, ops);
      m.now == Ticks(ops) && m.entries == Added(ops) && forall id: nat :: id in m.removed <==> IsRemoved(ops, id)
  {
    if ops != [] {
      RunOfOps(p, ops[..|ops| - 1]);
    }
  }

  /** The code's own run. */
  function CodeRun(p: uint32, ops: seq<Op>): (c: Code)
    requires p > 0 && DelaysSmall(p, ops)
    ensures Codes(c, Run(p, ops))
  {
    if ops == [] then Code(0, [], [])
    else
      var before, op := ops[..|ops| - 1], ops[|ops| - 1];
      RunOfOps(p, before);
      StepRefines(p, CodeRun(p, before), Run(p, before), op);
      CodeNext(p, CodeRun(p, before), op, |Added(before)|)
  }

  // ----- removed timers

  /** The last tick at which timer id was in place. */
  function Until(ops: seq<Op>, id: nat): nat {
    if ops == [] then 0
    else if IsRemoved(ops[..|ops| - 1], id) then Until(ops[..|ops| - 1], id)
    else Ticks(ops)
  }

  lemma FiringListsNoOther(p: uint32, m: Model, id: nat)
    requires p > 0 && m.list != [] && !InList(m.list, id)
    ensures !InList(AfterFiring(false, p, m.list), id) && m.list[0].id != id
  {
    var n, rest := m.list[0], m.list[1..];
    assert n in m.list && forall x :: x in rest ==> x in m.list;
    if n.repeat != 0 {
      InsertMembers(rest, Refired(false, p, n));
    }
  }

  /** A tick fires none that is not listed. */
  lemma {:induction false} DrainSkips(p: uint32, now: nat, m: Model, id: nat)
    requires p > 0 && NodesOk(p, m.list) && !InList(m.list, id)
    ensures TicksOf(DrainModel(p, now, m).log, id) == TicksOf(m.log, id)
    decreases TotalWork(false, p, now, m.list)
  {
    if m.list == [] || m.list[0].tick > now {
      assert m.log + [] == m.log;
    } else {
      FiringLowersWork(false, p, now, m.list);
      FiringListsNoOther(p, m, id);
      DrainFiresHead(p, now, m);
      FireTicks(p, now, m, id);
      DrainSkips(p, now, FireModel(p, now, m), id);
    }
  }

  lemma RemovedIsSilent(p: uint32, m: Model, op: Op, id: nat)
    requires Inv(p, m) && NodesOk(p, m.list) && id in m.removed
    ensures TicksOf(Next(p, m, op).log, id) == TicksOf(m.log, id)
  {
    if op.Tick? {
      assert !InList(m.list, id);
      DrainSkips(p, m.now + 1, m, id);
    }
  }

  /** In every run, every timer fires on schedule as long as it is in place, and never again. */
  lemma {:induction false} OnScheduleUntil(p: uint32, ops: seq<Op>, id: nat)
    requires p > 0 && DelaysSmall(p, ops) && id < |Added(ops)|
    ensures OnSchedule(p, Added(ops)[id], TicksOf(Run(p, ops).log, id), Until(ops, id))
  {
    RunOfOps(p, ops);
    var before, op := ops[..|ops| - 1], ops[|ops| - 1];
    var m := Run(p, before);
    RunOfOps(p, before);
    if IsRemoved(before, id) {
      RemovedWasAdded(before, id);
      OnScheduleUntil(p, before, id);
      RemovedIsSilent(p, m, op, id);
    } else if IsRemoved(ops, id) {
      InvMeansOnSchedule(p, m, id);
    } else {
      InvMeansOnSchedule(p, Run(p, ops), id);
    }
  }

  lemma {:induction false} RemovedWasAdded(ops: seq<Op>, id: nat)
    requires IsRemoved(ops, id)
    ensures id < |Added(ops)|
  {
    var before := ops[..|ops| - 1];
    if IsRemoved(before, id) {
      RemovedWasAdded(before, id);
    }
  }

  /** In every run of the code with its 32-bit ticks, however often the counter wraps, a timer
      has fired at exactly those ticks of its schedule that have come while it was in place. */
  lemma CodeKeepsSchedule(p: uint32, ops: seq<Op>)
    requires p > 0 && DelaysSmall(p, ops)
    ensures var c := CodeRun(p, ops);
      forall id: nat :: id < |Added(ops)| ==>
        OnSchedule(p, Added(ops)[id], TicksOf(LogOf(c.fired), id), Until(ops, id))
    ensures forall id: nat :: id < |Added(ops)| && !IsRemoved(ops, id) ==> Until(ops, id) == Ticks(ops)
  {
    forall id: nat | id < |Added(ops)|
      ensures OnSchedule(p, Added(ops)[id], TicksOf(LogOf(CodeRun(p, ops).fired), id), Until(ops, id))
    {
      OnScheduleUntil(p, ops, id);
    }
  }

  // ----- what a wake-up fires

  function Times(n: nat): (r: seq<Op>)
    ensures |r| == n
  {
    seq(n, _ => Tick)
  }

  lemma OneMoreTick(ops: seq<Op>, n: nat)
    requires n > 0
    ensures ops + Times(n) == ops + Times(n - 1) + [Tick]
  {
  }

  lemma CodeNodesOk(p: uint32, ops: seq<Op>)
    requires p > 0 && DelaysSmall(p, ops)
    ensures NodesOk(p, CodeRun(p, ops).list)
  {
    var m := Run(p, ops);
    MidNodesOk(p, m.now + 1, m);
    DrainRefines(p, m.now + 1, m.list);
  }

  lemma CodeRunTicks(p: uint32, before: seq<Op>)
    requires p > 0 && DelaysSmall(p, before)
    ensures DelaysSmall(p, before + [Tick]) && NodesOk(p, CodeRun(p, before).list)
    ensures CodeRun(p, before + [Tick]) == CodeNext(p, CodeRun(p, before), Tick, |Added(before)|)
  {
    hide CodeNext;
    CodeNodesOk(p, before);
    var all := before + [Tick];
    assert all[..|all| - 1] == before && all[|all| - 1] == Tick;
  }

  /** The next tick of the code, wherever it stands. */
  lemma TickIsNext(p: uint32, c: Code, ticks: uint32, list: seq<TimerNode>, n: nat, fired: seq<seq<nat>>, id: nat)
    requires p > 0 && NodesOk(p, list) && NodesOk(p, c.list) && n > 0
    requires var r := TickTimes(p, ticks, list, n - 1); c == Code(r.ticks, r.list, fired + r.fired)
    ensures var r := TickTimes(p, ticks, list, n);
      CodeNext(p, c, Tick, id) == Code(r.ticks, r.list, fired + r.fired)
  {
    hide Drain, NodeOk;
    var r := TickTimes(p, ticks, list, n - 1);
    var now := U32(r.ticks + 1);
    EveryListEnds(true, p, now, r.list);
    var d := Drain(true, p, now, r.list);
    assert fired + (r.fired + [d.fired]) == fired + r.fired + [d.fired];
  }

  /** n ticks in a row of the timer are n ticks of the run. */
  lemma {:induction false} TicksContinueRun(p: uint32, ops: seq<Op>, n: nat)
    requires p > 0 && DelaysSmall(p, ops)
    ensures DelaysSmall(p, ops + Times(n)) && NodesOk(p, CodeRun(p, ops).list)
    ensures var c, r := CodeRun(p, ops), TickTimes(p, CodeRun(p, ops).ticks, CodeRun(p, ops).list, n);
      CodeRun(p, ops + Times(n)) == Code(r.ticks, r.list, c.fired + r.fired)
    decreases n
  {
    hide CodeRun, CodeNext, NodeOk;
    CodeNodesOk(p, ops);
    var c := CodeRun(p, ops);
    if n == 0 {
      assert ops + Times(0) == ops && c.fired + [] == c.fired;
    } else {
      hide TickTimes, Times, DelaysSmall;
      var before := ops + Times(n - 1);
      TicksContinueRun(p, ops, n - 1);
      CodeRunTicks(p, before);
      TickIsNext(p, CodeRun(p, before), c.ticks, c.list, n, c.fired, |Added(before)|);
      OneMoreTick(ops, n);
    }
  }

  /** A wake-up of a timer that has come through a run goes on with it, by as many ticks as it says:
      what these fire is what CodeKeepsSchedule asks for. */
  method WakeUpInRun(timer: Timer, start: Timespec, cur: Timespec, reread: Timespec, ghost ops: seq<Op>)
      returns (fired: seq<seq<nat>>)
    requires timer.Valid() && DelaysSmall(timer.p, ops)
    requires timer.ticks == CodeRun(timer.p, ops).ticks && timer.list == CodeRun(timer.p, ops).list
    requires start != cur && start != reread && start.Normal() && cur.Normal() && reread.Normal()
    modifies timer, start
    ensures timer.Valid() && DelaysSmall(timer.p, ops + Times(|fired|))
    ensures CodeRun(timer.p, ops + Times(|fired|))
         == Code(timer.ticks, timer.list, CodeRun(timer.p, ops).fired + fired)
  {
    CodeNodesOk(timer.p, ops);
    fired := timer.WakeUp(start, cur, reread);
    TicksContinueRun(timer.p, ops, |fired|);
  }

  /** So does the catch-up loop. */
  method CatchUpInRun(timer: Timer, start: Timespec, cur: Timespec, ghost ops: seq<Op>)
      returns (fired: seq<seq<nat>>)
    requires timer.Valid() && DelaysSmall(timer.p, ops)
    requires timer.ticks == CodeRun(timer.p, ops).ticks && timer.list == CodeRun(timer.p, ops).list
    requires start != cur && start.Normal() && cur.Normal()
    modifies timer, start
    ensures timer.Valid() && DelaysSmall(timer.p, ops + Times(|fired|))
    ensures CodeRun(timer.p, ops + Times(|fired|))
         == Code(timer.ticks, timer.list, CodeRun(timer.p, ops).fired + fired)
  {
    CodeNodesOk(timer.p, ops);
    fired := timer.CatchUp(start, cur);
    TicksContinueRun(timer.p, ops, |fired|);
  }
}
