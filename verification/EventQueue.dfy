/** The priority queue of events in src/EventQueue.cpp, over the linked list. */
module EventQueues {
  import opened LinkedLists

  const PRIORITY_NORMAL := 0
  const AGENT_EVENT_ID := -5

  /** `ref` tells one event object from another; `receiver` is an agent's delivery target. */
  datatype Event = Event(ref: nat, id: int, priority: int, receiver: nat)

  // ----- the queue as a sequence

  /** Normal events go last; any other goes before the first event of lower priority. */
  function Enqueue(q: seq<Event>, ev: Event): seq<Event> {
    if ev.priority == PRIORITY_NORMAL then q + [ev] else InsertByPriority(q, ev)
  }

  function InsertByPriority(q: seq<Event>, ev: Event): seq<Event> {
    if q == [] || ev.priority > q[0].priority then [ev] + q
    else [q[0]] + InsertByPriority(q[1..], ev)
  }

  /** The events that do not match, in order: what a removal leaves. */
  function Kept(q: seq<Event>, doomed: Event -> bool): seq<Event> {
    if q == [] then []
    else (if doomed(q[0]) then [] else [q[0]]) + Kept(q[1..], doomed)
  }

  /** The events that match, in order: what a removal releases. */
  function Dropped(q: seq<Event>, doomed: Event -> bool): seq<Event> {
    if q == [] then []
    else (if doomed(q[0]) then [q[0]] else []) + Dropped(q[1..], doomed)
  }

  /** The events of one priority, in queue order. */
  function OfPriority(q: seq<Event>, p: int): seq<Event> {
    if q == [] then []
    else (if q[0].priority == p then [q[0]] else []) + OfPriority(q[1..], p)
  }

  ghost predicate NonIncreasing(q: seq<Event>) {
    forall i, j :: 0 <= i < j < |q| ==> q[i].priority >= q[j].priority
  }

  // ----- sorted order

  lemma {:induction false} InsertKeepsOrder(q: seq<Event>, ev: Event)
    requires NonIncreasing(q)
    ensures NonIncreasing(InsertByPriority(q, ev))
    ensures forall e :: e in InsertByPriority(q, ev) <==> e in q || e == ev
  {
    if q == [] || ev.priority > q[0].priority {
    } else {
      var rest := InsertByPriority(q[1..], ev);
      InsertKeepsOrder(q[1..], ev);
      assert forall e :: e in q[1..] ==> e.priority <= q[0].priority;
      assert forall i :: 0 <= i < |rest| ==> rest[i] in rest;
      assert forall e :: e in q <==> e == q[0] || e in q[1..];
    }
  }

  /** Order survives a send exactly when a normal event does not land behind a negative one. */
  lemma EnqueueKeepsOrderIff(q: seq<Event>, ev: Event)
    requires NonIncreasing(q)
    ensures NonIncreasing(Enqueue(q, ev)) <==>
      (ev.priority == 0 && q != [] ==> q[|q| - 1].priority >= 0)
  {
    if ev.priority == PRIORITY_NORMAL {
      var r := q + [ev];
      if q != [] && NonIncreasing(r) {
        assert r[|q| - 1].priority >= r[|q|].priority;
      }
    } else {
      InsertKeepsOrder(q, ev);
    }
  }

  /** A send inserts the event somewhere and moves nothing else. */
  lemma {:induction false} EnqueueInserts(q: seq<Event>, ev: Event) returns (k: nat)
    ensures k <= |q| && Enqueue(q, ev) == q[..k] + [ev] + q[k..]
  {
    if ev.priority == PRIORITY_NORMAL {
      k := |q|;
    } else {
      k := InsertInserts(q, ev);
    }
  }

  lemma {:induction false} InsertInserts(q: seq<Event>, ev: Event) returns (k: nat)
    ensures k <= |q| && InsertByPriority(q, ev) == q[..k] + [ev] + q[k..]
  {
    if q == [] || ev.priority > q[0].priority {
      k := 0;
    } else {
      var j := InsertInserts(q[1..], ev);
      k := j + 1;
    }
  }

  // ----- one FIFO per priority

  lemma {:induction false} OfPriorityAppend(q: seq<Event>, r: seq<Event>, p: int)
    ensures OfPriority(q + r, p) == OfPriority(q, p) + OfPriority(r, p)
  {
    if q == [] {
      assert q + r == r;
    } else {
      var x := if q[0].priority == p then [q[0]] else [];
      assert (q + r)[1..] == q[1..] + r;
      OfPriorityAppend(q[1..], r, p);
      assert OfPriority(q + r, p) == x + (OfPriority(q[1..], p) + OfPriority(r, p));
    }
  }

  lemma {:induction false} OfPriorityMembers(q: seq<Event>, p: int)
    ensures OfPriority(q, p) == [] <==> forall e :: e in q ==> e.priority != p
  {
    if q != [] {
      OfPriorityMembers(q[1..], p);
      assert forall e :: e in q <==> e == q[0] || e in q[1..];
    }
  }

  /** A send appends to the FIFO of its own priority and leaves the others alone. */
  lemma {:induction false} EnqueueIsFifo(q: seq<Event>, ev: Event, p: int)
    requires NonIncreasing(q)
    ensures OfPriority(Enqueue(q, ev), p) == OfPriority(q, p) + if ev.priority == p then [ev] else []
  {
    if ev.priority == PRIORITY_NORMAL {
      OfPriorityAppend(q, [ev], p);
    } else {
      InsertIsFifo(q, ev, p);
    }
  }

  lemma {:induction false} InsertIsFifo(q: seq<Event>, ev: Event, p: int)
    requires NonIncreasing(q)
    ensures OfPriority(InsertByPriority(q, ev), p) == OfPriority(q, p) + if ev.priority == p then [ev] else []
  {
    if q == [] || ev.priority > q[0].priority {
      assert ([ev] + q)[1..] == q;
      if ev.priority == p {
        assert forall e :: e in q ==> e.priority < p;
        OfPriorityMembers(q, p);
      }
    } else {
      InsertIsFifo(q[1..], ev, p);
    }
  }

  /** The event polled is the oldest of the highest priority present. */
  lemma PollServesHighest(q: seq<Event>, p: int)
    requires q != [] && NonIncreasing(q)
    ensures var top := q[0].priority;
      && (p > top ==> OfPriority(q, p) == [])
      && OfPriority(q, top) == [q[0]] + OfPriority(q[1..], top)
      && (p != top ==> OfPriority(q[1..], p) == OfPriority(q, p))
  {
    if p > q[0].priority {
      OfPriorityMembers(q, p);
    }
  }

  lemma {:induction false} RemoveIsPerFifo(q: seq<Event>, doomed: Event -> bool, p: int)
    ensures OfPriority(Kept(q, doomed), p) == Kept(OfPriority(q, p), doomed)
  {
    if q != [] {
      RemoveIsPerFifo(q[1..], doomed, p);
      var rest, x := Kept(q[1..], doomed), OfPriority(q[1..], p);
      assert ([q[0]] + rest)[1..] == rest && ([q[0]] + x)[1..] == x;
      assert Kept(q, doomed) == if doomed(q[0]) then rest else [q[0]] + rest;
      assert OfPriority(q, p) == if q[0].priority == p then [q[0]] + x else x;
    }
  }

  /** A removal loses no event and invents none. */
  lemma {:induction false} RemoveConserves(q: seq<Event>, doomed: Event -> bool)
    ensures multiset(Kept(q, doomed)) + multiset(Dropped(q, doomed)) == multiset(q)
    ensures forall e :: e in Kept(q, doomed) ==> e in q && !doomed(e)
    ensures forall e :: e in Dropped(q, doomed) ==> e in q && doomed(e)
  {
    if q != [] {
      RemoveConserves(q[1..], doomed);
      assert q == [q[0]] + q[1..];
    }
  }

  /** Each event stays or goes by itself. */
  lemma {:induction false} KeptAndDropped(q: seq<Event>, doomed: Event -> bool)
    ensures forall e :: e in Kept(q, doomed) <==> e in q && !doomed(e)
    ensures forall e :: e in Dropped(q, doomed) <==> e in q && doomed(e)
  {
    if q != [] {
      KeptAndDropped(q[1..], doomed);
      assert forall e :: e in q <==> e == q[0] || e in q[1..];
    }
  }

  lemma {:induction false} RemoveKeepsOrder(q: seq<Event>, doomed: Event -> bool)
    requires NonIncreasing(q)
    ensures NonIncreasing(Kept(q, doomed))
  {
    if q != [] {
      RemoveKeepsOrder(q[1..], doomed);
      RemoveConserves(q[1..], doomed);
      var rest := Kept(q[1..], doomed);
      assert forall i :: 0 <= i < |rest| ==> rest[i] in rest;
    }
  }

  // ----- whole runs

  datatype Op = Send(ev: Event) | Poll | Remove(doomed: Event -> bool) | Flush

  function Next(q: seq<Event>, op: Op): seq<Event> {
    match op
    case Send(ev) => Enqueue(q, ev)
    case Poll => if q == [] then [] else q[1..]
    case Remove(doomed) => Kept(q, doomed)
    case Flush => []
  }

  /** The event a poll hands out, if the operation is one. */
  function Output(q: seq<Event>, op: Op): seq<Event> {
    if op.Poll? && q != [] then [q[0]] else []
  }

  function After(ops: seq<Op>): seq<Event> {
    if ops == [] then [] else Next(After(ops[..|ops| - 1]), ops[|ops| - 1])
  }

  /** The reference: one FIFO per priority, f before and g after the operation. */
  ghost predicate FifosStep(f: int -> seq<Event>, op: Op, out: seq<Event>, g: int -> seq<Event>) {
    match op
    case Send(ev) => out == [] && forall p :: g(p) == f(p) + if p == ev.priority then [ev] else []
    case Poll =>
      if forall p :: f(p) == [] then out == [] && forall p :: g(p) == []
      else exists top :: && f(top) != [] && (forall p :: p > top ==> f(p) == [])
                         && out == [f(top)[0]] && g(top) == f(top)[1..]
                         && forall p :: p != top ==> g(p) == f(p)
    case Remove(doomed) => out == [] && forall p :: g(p) == Kept(f(p), doomed)
    case Flush => out == [] && forall p :: g(p) == []
  }

  function Fifos(q: seq<Event>): int -> seq<Event> {
    p => OfPriority(q, p)
  }

  ghost predicate SendsNonNegative(ops: seq<Op>) {
    forall i :: 0 <= i < |ops| && ops[i].Send? ==> ops[i].ev.priority >= 0
  }

  lemma StepMatchesFifos(q: seq<Event>, op: Op)
    requires NonIncreasing(q)
    ensures FifosStep(Fifos(q), op, Output(q, op), Fifos(Next(q, op)))
  {
    var f, g := Fifos(q), Fifos(Next(q, op));
    match op
    case Send(ev) =>
      forall p ensures g(p) == f(p) + if p == ev.priority then [ev] else [] {
        EnqueueIsFifo(q, ev, p);
      }
    case Poll =>
      if q != [] {
        var top := q[0].priority;
        forall p ensures (p > top ==> f(p) == []) && (p != top ==> g(p) == f(p)) {
          PollServesHighest(q, p);
        }
        PollServesHighest(q, top);
        assert f(top) == [q[0]] + g(top);
        assert g(top) == f(top)[1..];
      }
    case Remove(doomed) =>
      forall p ensures g(p) == Kept(f(p), doomed) {
        RemoveIsPerFifo(q, doomed, p);
      }
    case Flush =>
  }

  /** In every run of sends at normal priority or above, polls, removals and flushes, the
      queue stays in priority order and acts as one FIFO per priority, highest first. */
  lemma {:induction false} EveryRunMatchesFifos(ops: seq<Op>)
    requires SendsNonNegative(ops)
    ensures NonIncreasing(After(ops))
    ensures forall e :: e in After(ops) ==> e.priority >= 0
    ensures forall op :: FifosStep(Fifos(After(ops)), op, Output(After(ops), op), Fifos(Next(After(ops), op)))
  {
    if ops != [] {
      var q, op := After(ops[..|ops| - 1]), ops[|ops| - 1];
      EveryRunMatchesFifos(ops[..|ops| - 1]);
      match op {
        case Send(ev) =>
          EnqueueKeepsOrderIff(q, ev);
          if ev.priority != PRIORITY_NORMAL {
            InsertKeepsOrder(q, ev);
          }
        case Poll =>
        case Remove(doomed) =>
          RemoveKeepsOrder(q, doomed);
          RemoveConserves(q, doomed);
        case Flush =>
      }
    }
    forall op ensures FifosStep(Fifos(After(ops)), op, Output(After(ops), op), Fifos(Next(After(ops), op))) {
      StepMatchesFifos(After(ops), op);
    }
  }

  /** A normal event sent behind a negative one is served after it. */
  lemma NegativePrioritiesBreakOrder(low: Event, normal: Event)
    requires low.priority < PRIORITY_NORMAL == normal.priority
    ensures !NonIncreasing(After([Send(low), Send(normal)]))
    ensures Output(After([Send(low), Send(normal)]), Poll) == [low]
  {
    var ops := [Send(low), Send(normal)];
    assert ops[..1] == [Send(low)] && ops[..1][..0] == [];
    assert After(ops[..1]) == [low];
    var q := After(ops);
    assert q == [low, normal];
    assert q[0].priority < q[1].priority;
  }

  // ----- the queue over the linked list

  function HasId(id: int): Event -> bool {
    (e: Event) => e.id == id
  }

  function IsSame(ev: Event): Event -> bool {
    (e: Event) => e.ref == ev.ref
  }

  function IsAgentFor(receiver: nat): Event -> bool {
    (e: Event) => e.id == AGENT_EVENT_ID && e.receiver == receiver
  }

  class EventQueue {
    const queue: List<Event>

    ghost predicate Valid()
      reads this, queue, queue.repr
    {
      queue.Valid()
    }

    constructor (filler: Event)
      ensures Valid() && queue.contents == [] && fresh(queue) && fresh(queue.repr)
    {
      queue := new List<Event>(filler);
    }

    /** Inserts and takes a reference. */
    method SendEvent(ev: Event)
      requires Valid()
      modifies queue, queue.repr
      ensures Valid() && fresh(queue.repr - old(queue.repr))
      ensures queue.contents == Enqueue(old(queue.contents), ev)
    {
      if ev.priority == PRIORITY_NORMAL {
        queue.PushBack(ev);
      } else {
        var done := false;
        ghost var i, q := 1, queue.contents;
        var it := queue.Begin();
        while it != queue.tail
          invariant Valid() && queue.contents == q && queue.repr == old(queue.repr)
          invariant 1 <= i < |queue.nodes| && queue.At(it, i) && !done
          invariant forall j :: 0 <= j < i - 1 ==> ev.priority <= q[j].priority
          decreases |queue.nodes| - i
        {
          if ev.priority > it.val.priority {
            InsertSplit(q, ev, i - 1);
            queue.InsertBefore(it, ev, i);
            done := true;
            break;
          }
          it := queue.Advance(it, i);
          i := i + 1;
        }
        if !done {
          InsertSplit(q, ev, |q|);
          queue.PushBack(ev);
        }
      }
    }

    method PollEvent() returns (r: seq<Event>)
      requires Valid()
      modifies queue, queue.repr
      ensures Valid() && fresh(queue.repr - old(queue.repr))
      ensures r == Output(old(queue.contents), Poll)
      ensures queue.contents == Next(old(queue.contents), Poll)
      ensures old(queue.contents) == r + queue.contents && |r| <= 1 && (r == [] ==> queue.contents == [])
    {
      var empty := queue.Empty();
      if empty {
        return [];
      }
      var front := queue.Front();
      queue.PopFront();
      return [front];
    }

    method Remove(id: int) returns (released: seq<Event>)
      requires Valid()
      modifies queue, queue.repr
      ensures Valid() && fresh(queue.repr - old(queue.repr))
      ensures queue.contents == Kept(old(queue.contents), HasId(id))
      ensures released == Dropped(old(queue.contents), HasId(id))
      ensures forall e :: e in queue.contents <==> e in old(queue.contents) && !(e.id == id)
      ensures forall e :: e in released <==> e in old(queue.contents) && e.id == id
    {
      ghost var visited;
      released, visited := RemoveMatching(HasId(id));
      KeptAndDropped(old(queue.contents), HasId(id));
    }

    method RemoveEvent(ev: Event) returns (released: seq<Event>)
      requires Valid()
      modifies queue, queue.repr
      ensures Valid() && fresh(queue.repr - old(queue.repr))
      ensures queue.contents == Kept(old(queue.contents), IsSame(ev))
      ensures released == Dropped(old(queue.contents), IsSame(ev))
      ensures forall e :: e in queue.contents <==> e in old(queue.contents) && !(e.ref == ev.ref)
      ensures forall e :: e in released <==> e in old(queue.contents) && e.ref == ev.ref
    {
      ghost var visited;
      released, visited := RemoveMatching(IsSame(ev));
      KeptAndDropped(old(queue.contents), IsSame(ev));
    }

    method RemoveAgentsByReceiver(receiver: nat) returns (released: seq<Event>)
      requires Valid()
      modifies queue, queue.repr
      ensures Valid() && fresh(queue.repr - old(queue.repr))
      ensures queue.contents == Kept(old(queue.contents), IsAgentFor(receiver))
      ensures released == Dropped(old(queue.contents), IsAgentFor(receiver))
      ensures forall e :: e in queue.contents <==> e in old(queue.contents) && !(e.id == -5 && e.receiver == receiver)
      ensures forall e :: e in released <==> e in old(queue.contents) && e.id == -5 && e.receiver == receiver
    {
      ghost var visited;
      released, visited := RemoveMatching(IsAgentFor(receiver));
      KeptAndDropped(old(queue.contents), IsAgentFor(receiver));
    }

    /** Takes events off the front until none is left, releasing each. */
    method FlushAll() returns (released: seq<Event>)
      requires Valid()
      modifies queue, queue.repr
      ensures Valid() && fresh(queue.repr - old(queue.repr))
      ensures queue.contents == [] && released == old(queue.contents)
    {
      released := [];
      ghost var q := queue.contents;
      var empty := queue.Empty();
      while !empty
        invariant Valid() && queue.repr == old(queue.repr) && empty == (queue.contents == [])
        invariant q == released + queue.contents
        decreases |queue.contents|
      {
        var front := queue.Front();
        MoveOn(released, queue.contents);
        queue.PopFront();
        released := released + [front];
        empty := queue.Empty();
      }
    }

    /** The loop of the Remove family: erasing yields the successor, and stepping back
        before the loop's own step forward makes sure that it is looked at too. */
    method RemoveMatching(doomed: Event -> bool) returns (released: seq<Event>, ghost visited: seq<Event>)
      requires Valid()
      modifies queue, queue.repr
      ensures Valid() && fresh(queue.repr - old(queue.repr))
      ensures queue.contents == Kept(old(queue.contents), doomed)
      ensures released == Dropped(old(queue.contents), doomed)
      ensures visited == old(queue.contents)
    {
      released, visited := [], [];
      ghost var q, kept: seq<Event>, rest := queue.contents, [], queue.contents;
      var it := queue.Begin();
      while it != queue.tail
        invariant Valid() && queue.repr == old(queue.repr)
        invariant queue.At(it, |kept| + 1)
        invariant queue.contents == kept + rest && q == visited + rest
        invariant kept == Kept(visited, doomed) && released == Dropped(visited, doomed)
        decreases |rest|
      {
        ghost var i := |kept| + 1;
        assert rest != [];
        var ev := it.val;
        assert ev == queue.contents[i - 1];
        KeptSnoc(visited, ev, doomed);
        MoveOn(kept, rest);
        MoveOn(visited, rest);
        visited, rest := visited + [ev], rest[1..];
        if doomed(ev) {
          released := released + [ev];
          it := queue.Erase(it, i);
          assert queue.contents == kept + rest;
          it := queue.Retreat(it, i);
          i := i - 1;
        } else {
          kept := kept + [ev];
        }
        it := queue.Advance(it, i);
      }
      assert rest == [] && visited == q && queue.contents == kept;
    }
  }

  lemma MoveOn(done: seq<Event>, rest: seq<Event>)
    requires rest != []
    ensures done + rest == (done + [rest[0]]) + rest[1..]
    ensures (done + rest)[..|done|] + (done + rest)[|done| + 1..] == done + rest[1..]
  {
  }

  lemma {:induction false} InsertSplit(q: seq<Event>, ev: Event, k: nat)
    requires k <= |q| && forall j :: 0 <= j < k ==> ev.priority <= q[j].priority
    requires k < |q| ==> ev.priority > q[k].priority
    ensures InsertByPriority(q, ev) == q[..k] + [ev] + q[k..]
  {
    if k > 0 {
      InsertSplit(q[1..], ev, k - 1);
    }
  }

  lemma {:induction false} KeptSnoc(q: seq<Event>, e: Event, doomed: Event -> bool)
    ensures Kept(q + [e], doomed) == Kept(q, doomed) + if doomed(e) then [] else [e]
    ensures Dropped(q + [e], doomed) == Dropped(q, doomed) + if doomed(e) then [e] else []
  {
    if q != [] {
      assert (q + [e])[1..] == q[1..] + [e];
      KeptSnoc(q[1..], e, doomed);
    }
  }
}
