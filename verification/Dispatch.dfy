/** Blocking sends to a selector's dispatcher, as a step system: src/EventDispatcher.cpp,
    src/EventQueue.cpp and src/Selector.cpp together.

    Any number of sender threads and one dispatcher thread share the event queue, the pipe
    whose tokens wake the selector, and the lock and condition variable of synchronous sends.
    One action is one atomic step of one thread. */
module Dispatch {
  import opened EventQueues
  import opened Options

  const SHUTDOWN_EVENT_ID := -2
  const SYNC_EVENT_ID := -3

  /** A sender thread; h names the holder that lives in its call of sendEventSync. */
  datatype Sender =
    | Idle
    | PostedPlain         // after SendEvent, before wakeThread, of sendEvent
    | Posted(h: nat)      // the same in sendEventSync
    | Locking(h: nat)     // about to lock mSyncLock
    | Testing(h: nat)     // owns the lock, about to test mDone
    | Asleep(h: nat)      // in mSyncWait.Wait, the lock released
    | Relocking(h: nat)   // woken, about to regain the lock
    | Leaving(h: nat)     // saw mDone, owns the lock, about to unlock and return

  datatype Dispatcher =
    | Polling             // in poll, gotEvent false
    | Draining            // read one token, gotEvent true
    | Running(ev: Event)  // inside dispatchEvent: ev itself, or the real event of holder ev
    | Closing(h: nat)     // dispatch ended, about to lock mSyncLock
    | Marking(h: nat)     // owns the lock, about to set mDone
    | Marked(h: nat)      // owns the lock, mDone set
    | Broadcasting        // lock released, broadcast owed

  datatype Owner = NoOne | BySender(t: nat) | ByDispatcher

  datatype State = State(
    queue: seq<Event>,
    tokens: nat,              // four-byte messages in the pipe
    senders: map<nat, Sender>,
    disp: Dispatcher,
    selfWake: bool,           // the dispatcher's own send, between SendEvent and wakeThread
    lock: Owner,              // mSyncLock
    next: nat,                // the next holder to be made
    live: set<nat>,           // holders whose call has not returned
    done: set<nat>,           // holders with mDone set
    started: seq<nat>,        // holders whose dispatch began, in order
    ended: set<nat>)          // holders whose dispatch ended

  const INIT := State([], 0, map[], Polling, false, NoOne, 0, {}, {}, [], {})

  datatype Action =
    | SendSync(t: nat, priority: int)
    | SendPlain(t: nat, ev: Event)
    | Wake(t: nat)
    | Lock(t: nat)
    | Test(t: nat)
    | Spurious(t: nat)
    | Leave(t: nat)
    | ReadToken
    | PollQueue
    | SelfSend(ev: Event)
    | SelfWake
    | RemovePlain(doomed: Event -> bool)
    | EndDispatch
    | DispatcherLock
    | Mark
    | DispatcherUnlock
    | Broadcast

  predicate IsHolder(e: Event) {
    e.id == SYNC_EVENT_ID
  }

  predicate IsPlain(e: Event) {
    e.id != SYNC_EVENT_ID && e.id != SHUTDOWN_EVENT_ID
  }

  function Pc(s: State, t: nat): Sender {
    if t in s.senders then s.senders[t] else Idle
  }

  function Move(s: State, t: nat, pc: Sender): State {
    s.(senders := s.senders[t := pc])
  }

  function Roused(senders: map<nat, Sender>): map<nat, Sender> {
    map t | t in senders :: if senders[t].Asleep? then Relocking(senders[t].h) else senders[t]
  }

  /** The state after an action, or None where the action is not enabled. */
  function Step(s: State, a: Action): Option<State> {
    match a
    case SendSync(t, priority) =>
      if Pc(s, t) != Idle then None else
        var ev := Event(s.next, SYNC_EVENT_ID, priority, 0);
        Some(Move(s, t, Posted(s.next)).(queue := Enqueue(s.queue, ev), next := s.next + 1, live := s.live + {s.next}))
    case SendPlain(t, ev) =>
      if Pc(s, t) != Idle || !IsPlain(ev) then None else
        Some(Move(s, t, PostedPlain).(queue := Enqueue(s.queue, ev)))
    case Wake(t) => (
      match Pc(s, t)
      case PostedPlain => Some(Move(s, t, Idle).(tokens := s.tokens + 1))
      case Posted(h) => Some(Move(s, t, Locking(h)).(tokens := s.tokens + 1))
      case _ => None)
    case Lock(t) => (
      match Pc(s, t)
      case Locking(h) => if s.lock == NoOne then Some(Move(s, t, Testing(h)).(lock := BySender(t))) else None
      case Relocking(h) => if s.lock == NoOne then Some(Move(s, t, Testing(h)).(lock := BySender(t))) else None
      case _ => None)
    case Test(t) => (
      match Pc(s, t)
      case Testing(h) =>
        if h in s.done then Some(Move(s, t, Leaving(h))) else Some(Move(s, t, Asleep(h)).(lock := NoOne))
      case _ => None)
    case Spurious(t) => (
      match Pc(s, t)
      case Asleep(h) => Some(Move(s, t, Relocking(h)))
      case _ => None)
    case Leave(t) => (
      match Pc(s, t)
      case Leaving(h) => Some(Move(s, t, Idle).(lock := NoOne, live := s.live - {h}))
      case _ => None)
    case ReadToken =>
      if s.disp == Polling && s.tokens > 0 then Some(s.(disp := Draining, tokens := s.tokens - 1)) else None
    case PollQueue =>
      if s.disp != Draining then None
      else if s.queue == [] then Some(s.(disp := Polling))
      else
        var ev := s.queue[0];
        Some(s.(disp := Running(ev), queue := s.queue[1..],
                started := if IsHolder(ev) then s.started + [ev.ref] else s.started))
    case SelfSend(ev) =>
      if !s.disp.Running? || s.selfWake || !IsPlain(ev) then None else
        Some(s.(queue := Enqueue(s.queue, ev), selfWake := true))
    case SelfWake =>
      if !s.selfWake then None else Some(s.(tokens := s.tokens + 1, selfWake := false))
    case RemovePlain(doomed) =>
      if exists e :: e in s.queue && IsHolder(e) && doomed(e) then None else
        Some(s.(queue := Kept(s.queue, doomed)))
    case EndDispatch =>
      if !s.disp.Running? || s.selfWake then None
      else if IsHolder(s.disp.ev) then Some(s.(disp := Closing(s.disp.ev.ref), ended := s.ended + {s.disp.ev.ref}))
      else Some(s.(disp := Polling))
    case DispatcherLock =>
      if s.disp.Closing? && s.lock == NoOne then Some(s.(disp := Marking(s.disp.h), lock := ByDispatcher)) else None
    case Mark =>
      if s.disp.Marking? then Some(s.(disp := Marked(s.disp.h), done := s.done + {s.disp.h})) else None
    case DispatcherUnlock =>
      if s.disp.Marked? then Some(s.(disp := Broadcasting, lock := NoOne)) else None
    case Broadcast =>
      if s.disp == Broadcasting then Some(s.(disp := Polling, senders := Roused(s.senders))) else None
  }

  // ----- the invariant

  /** The holder a sender's call is about. */
  function HolderOf(pc: Sender): Option<nat> {
    match pc
    case Idle => None
    case PostedPlain => None
    case Posted(h) => Some(h)
    case Locking(h) => Some(h)
    case Testing(h) => Some(h)
    case Asleep(h) => Some(h)
    case Relocking(h) => Some(h)
    case Leaving(h) => Some(h)
  }

  /** The holder the dispatcher still has to mark. */
  function InHand(d: Dispatcher): Option<nat> {
    match d
    case Running(ev) => if IsHolder(ev) then Some(ev.ref) else None
    case Closing(h) => Some(h)
    case Marking(h) => Some(h)
    case _ => None
  }

  /** Queued holders are live, distinct and not yet dispatched. */
  ghost predicate QueueOk(s: State) {
    && (forall e :: e in s.queue && IsHolder(e) ==> e.ref in s.live && e.ref !in s.started)
    && DistinctHolders(s.queue)
  }

  ghost predicate DistinctHolders(q: seq<Event>) {
    forall i, j :: 0 <= i < j < |q| && IsHolder(q[i]) && IsHolder(q[j]) ==> q[i].ref != q[j].ref
  }

  ghost predicate Queued(s: State, h: nat) {
    exists e :: e in s.queue && IsHolder(e) && e.ref == h
  }

  /** Each call has its own live holder, which is queued, in hand or done. */
  ghost predicate SendersOk(s: State) {
    && (forall t :: t in s.senders && HolderOf(s.senders[t]).Some? ==>
          var h := HolderOf(s.senders[t]).value;
          h in s.live && (h in s.done || Queued(s, h) || InHand(s.disp) == Some(h)))
    && (forall t, u :: t in s.senders && u in s.senders && t != u && HolderOf(s.senders[t]).Some? ==>
          HolderOf(s.senders[t]) != HolderOf(s.senders[u]))
    && (forall t :: t in s.senders && s.senders[t].Leaving? ==> s.senders[t].h in s.done)
  }

  /** A holder in hand is live, and no longer queued or yet marked. */
  ghost predicate InHandOk(s: State) {
    && (InHand(s.disp).Some? ==> var h := InHand(s.disp).value; h in s.live && h !in s.done && h in s.started)
    && (s.disp.Running? && IsHolder(s.disp.ev) ==> s.disp.ev.ref !in s.ended)
    && (s.disp.Closing? || s.disp.Marking? ==> s.disp.h in s.ended)
    && (s.selfWake ==> s.disp.Running?)
  }

  ghost predicate HistoryOk(s: State) {
    && (forall i, j :: 0 <= i < j < |s.started| ==> s.started[i] != s.started[j])
    && (forall h :: h in s.started ==> h < s.next)
    && (forall h :: h in s.ended ==> h in s.started)
    && s.done <= s.ended
    && (forall h :: h in s.live ==> h < s.next)
    && (forall h :: 0 <= h < s.next && h !in s.live ==> h in s.ended)
  }

  ghost predicate LockOk(s: State) {
    && (forall t :: t in s.senders ==> (s.lock == BySender(t) <==> s.senders[t].Testing? || s.senders[t].Leaving?))
    && (s.lock.BySender? ==> s.lock.t in s.senders)
    && (s.lock == ByDispatcher <==> s.disp.Marking? || s.disp.Marked?)
  }

  /** No one sleeps past its mark, unless the broadcast is still to come. */
  ghost predicate WakeupsOk(s: State) {
    forall t :: t in s.senders && s.senders[t].Asleep? && s.senders[t].h in s.done ==>
      s.disp.Marked? || s.disp == Broadcasting
  }

  predicate Flying(pc: Sender) {
    pc.Posted? || pc.PostedPlain?
  }

  /** The senders between SendEvent and wakeThread. */
  function InFlight(s: State): set<nat> {
    set t | t in s.senders && Flying(s.senders[t])
  }

  function Bit(b: bool): nat {
    if b then 1 else 0
  }

  /** Every queued event has a token, a sender about to write one, or a token just read. */
  ghost predicate TokensOk(s: State) {
    |s.queue| <= s.tokens + |InFlight(s)| + Bit(s.selfWake) + Bit(s.disp == Draining)
  }

  ghost predicate Inv(s: State) {
    QueueOk(s) && SendersOk(s) && InHandOk(s) && HistoryOk(s) && LockOk(s) && WakeupsOk(s) && TokensOk(s)
  }

  // ----- what the queue operations keep

  lemma EnqueuedHolders(q: seq<Event>, ev: Event)
    requires DistinctHolders(q)
    requires IsHolder(ev) ==> forall e :: e in q && IsHolder(e) ==> e.ref != ev.ref
    ensures var r := Enqueue(q, ev);
      DistinctHolders(r) && |r| == |q| + 1 && forall e :: e in r <==> e in q || e == ev
  {
    var k := EnqueueInserts(q, ev);
    var left, right := q[..k], q[k..];
    assert q == left + right;
    assert forall i, j :: 0 <= i < |left| && 0 <= j < |right| && IsHolder(left[i]) && IsHolder(right[j]) ==>
        left[i].ref != right[j].ref by {
      assert forall i :: 0 <= i < |left| ==> left[i] == q[i];
      assert forall j :: 0 <= j < |right| ==> right[j] == q[k + j];
    }
    Spliced(left, right, ev);
  }

  lemma Spliced(left: seq<Event>, right: seq<Event>, ev: Event)
    requires DistinctHolders(left) && DistinctHolders(right)
    requires forall i, j :: 0 <= i < |left| && 0 <= j < |right| && IsHolder(left[i]) && IsHolder(right[j]) ==>
      left[i].ref != right[j].ref
    requires IsHolder(ev) ==> forall e :: e in left + right && IsHolder(e) ==> e.ref != ev.ref
    ensures DistinctHolders(left + [ev] + right)
    ensures forall e :: e in left + [ev] + right <==> e in left + right || e == ev
  {
    var r := left + [ev] + right;
    assert forall i :: 0 <= i < |left| ==> left[i] in left + right;
    assert forall j :: 0 <= j < |right| ==> right[j] in left + right;
    assert forall i :: 0 <= i < |r| ==>
      r[i] == if i < |left| then left[i] else if i == |left| then ev else right[i - |left| - 1];
  }

  lemma {:induction false} KeptHolders(q: seq<Event>, doomed: Event -> bool)
    requires DistinctHolders(q)
    ensures var r := Kept(q, doomed);
      DistinctHolders(r) && |r| <= |q| && forall e :: e in r <==> e in q && !doomed(e)
  {
    if q != [] {
      KeptHolders(q[1..], doomed);
      var rest := Kept(q[1..], doomed);
      assert forall e :: e in q <==> e == q[0] || e in q[1..];
      assert forall e :: e in q[1..] && IsHolder(e) && IsHolder(q[0]) ==> e.ref != q[0].ref;
      assert forall i :: 0 <= i < |rest| ==> rest[i] in rest;
    }
  }

  lemma InFlightMoved(s: State, t: nat, pc: Sender)
    ensures |InFlight(Move(s, t, pc))| == |InFlight(s)| + Bit(Flying(pc)) - Bit(Flying(Pc(s, t)))
  {
    var f := InFlight(s);
    assert InFlight(Move(s, t, pc)) == if Flying(pc) then f + {t} else f - {t};
  }

  // ----- every action keeps the invariant

  lemma SendSyncKeeps(s: State, t: nat, priority: int, s': State)
    requires Inv(s) && Step(s, SendSync(t, priority)) == Some(s')
    ensures Inv(s')
  {
    hide Enqueue;
    var ev := Event(s.next, SYNC_EVENT_ID, priority, 0);
    EnqueuedHolders(s.queue, ev);
    InFlightMoved(s, t, Posted(s.next));
    assert InFlight(s') == InFlight(Move(s, t, Posted(s.next)));
    assert ev in s'.queue;
    assert SendersOk(s');
  }

  lemma SendPlainKeeps(s: State, t: nat, ev: Event, s': State)
    requires Inv(s) && Step(s, SendPlain(t, ev)) == Some(s')
    ensures Inv(s')
  {
    hide Enqueue;
    EnqueuedHolders(s.queue, ev);
    InFlightMoved(s, t, PostedPlain);
    assert InFlight(s') == InFlight(Move(s, t, PostedPlain));
  }

  lemma WakeKeeps(s: State, t: nat, s': State)
    requires Inv(s) && Step(s, Wake(t)) == Some(s')
    ensures Inv(s')
  {
    if s.senders[t].Posted? {
      WakeSyncKeeps(s, t, s');
    } else {
      WakePlainKeeps(s, t, s');
    }
  }

  lemma WakeSyncKeeps(s: State, t: nat, s': State)
    requires Inv(s) && Step(s, Wake(t)) == Some(s') && s.senders[t].Posted?
    ensures Inv(s')
  {
    InFlightMoved(s, t, s'.senders[t]);
    assert InFlight(s') == InFlight(Move(s, t, s'.senders[t]));
  }

  lemma WakePlainKeeps(s: State, t: nat, s': State)
    requires Inv(s) && Step(s, Wake(t)) == Some(s') && s.senders[t].PostedPlain?
    ensures Inv(s')
  {
    InFlightMoved(s, t, s'.senders[t]);
    assert InFlight(s') == InFlight(Move(s, t, s'.senders[t]));
  }

  lemma LockKeeps(s: State, t: nat, s': State)
    requires Inv(s) && Step(s, Lock(t)) == Some(s')
    ensures Inv(s')
  {
    InFlightMoved(s, t, Pc(s', t));
    assert InFlight(s') == InFlight(Move(s, t, Pc(s', t)));
  }

  lemma TestKeeps(s: State, t: nat, s': State)
    requires Inv(s) && Step(s, Test(t)) == Some(s')
    ensures Inv(s')
  {
    if s.senders[t].h in s.done {
      TestSeesDone(s, t, s');
    } else {
      TestSleeps(s, t, s');
    }
  }

  lemma TestSeesDone(s: State, t: nat, s': State)
    requires Inv(s) && Step(s, Test(t)) == Some(s') && s.senders[t].h in s.done
    ensures Inv(s')
  {
    InFlightMoved(s, t, s'.senders[t]);
  }

  lemma TestSleeps(s: State, t: nat, s': State)
    requires Inv(s) && Step(s, Test(t)) == Some(s') && s.senders[t].h !in s.done
    ensures Inv(s')
  {
    InFlightMoved(s, t, s'.senders[t]);
    assert InFlight(s') == InFlight(Move(s, t, s'.senders[t]));
  }

  lemma SpuriousKeeps(s: State, t: nat, s': State)
    requires Inv(s) && Step(s, Spurious(t)) == Some(s')
    ensures Inv(s')
  {
    InFlightMoved(s, t, Pc(s', t));
    assert InFlight(s') == InFlight(Move(s, t, Pc(s', t)));
  }

  lemma LeaveKeeps(s: State, t: nat, s': State)
    requires Inv(s) && Step(s, Leave(t)) == Some(s')
    ensures Inv(s')
  {
    InFlightMoved(s, t, Pc(s', t));
    assert InFlight(s') == InFlight(Move(s, t, Pc(s', t)));
  }

  lemma ReadTokenKeeps(s: State, s': State)
    requires Inv(s) && Step(s, ReadToken) == Some(s')
    ensures Inv(s')
  {
  }

  lemma PollQueueKeeps(s: State, s': State)
    requires Inv(s) && Step(s, PollQueue) == Some(s')
    ensures Inv(s')
  {
  }

  lemma SelfSendKeeps(s: State, ev: Event, s': State)
    requires Inv(s) && Step(s, SelfSend(ev)) == Some(s')
    ensures Inv(s')
  {
    EnqueuedHolders(s.queue, ev);
    assert InFlight(s') == InFlight(s);
  }

  lemma SelfWakeKeeps(s: State, s': State)
    requires Inv(s) && Step(s, SelfWake) == Some(s')
    ensures Inv(s')
  {
  }

  lemma RemovePlainKeeps(s: State, doomed: Event -> bool, s': State)
    requires Inv(s) && Step(s, RemovePlain(doomed)) == Some(s')
    ensures Inv(s')
  {
    KeptHolders(s.queue, doomed);
    assert InFlight(s') == InFlight(s);
  }

  lemma EndDispatchKeeps(s: State, s': State)
    requires Inv(s) && Step(s, EndDispatch) == Some(s')
    ensures Inv(s')
  {
  }

  lemma DispatcherLockKeeps(s: State, s': State)
    requires Inv(s) && Step(s, DispatcherLock) == Some(s')
    ensures Inv(s')
  {
  }

  lemma MarkKeeps(s: State, s': State)
    requires Inv(s) && Step(s, Mark) == Some(s')
    ensures Inv(s')
  {
  }

  lemma DispatcherUnlockKeeps(s: State, s': State)
    requires Inv(s) && Step(s, DispatcherUnlock) == Some(s')
    ensures Inv(s')
  {
  }

  lemma BroadcastKeeps(s: State, s': State)
    requires Inv(s) && Step(s, Broadcast) == Some(s')
    ensures Inv(s')
  {
    assert forall t :: t in s.senders ==> HolderOf(s'.senders[t]) == HolderOf(s.senders[t]);
    assert SendersOk(s');
    assert InFlight(s') == InFlight(s);
  }

  lemma StepKeepsInv(s: State, a: Action, s': State)
    requires Inv(s) && Step(s, a) == Some(s')
    ensures Inv(s')
  {
    match a
    case SendSync(t, priority) => SendSyncKeeps(s, t, priority, s');
    case SendPlain(t, ev) => SendPlainKeeps(s, t, ev, s');
    case Wake(t) => WakeKeeps(s, t, s');
    case Lock(t) => LockKeeps(s, t, s');
    case Test(t) => TestKeeps(s, t, s');
    case Spurious(t) => SpuriousKeeps(s, t, s');
    case Leave(t) => LeaveKeeps(s, t, s');
    case ReadToken => ReadTokenKeeps(s, s');
    case PollQueue => PollQueueKeeps(s, s');
    case SelfSend(ev) => SelfSendKeeps(s, ev, s');
    case SelfWake => SelfWakeKeeps(s, s');
    case RemovePlain(doomed) => RemovePlainKeeps(s, doomed, s');
    case EndDispatch => EndDispatchKeeps(s, s');
    case DispatcherLock => DispatcherLockKeeps(s, s');
    case Mark => MarkKeeps(s, s');
    case DispatcherUnlock => DispatcherUnlockKeeps(s, s');
    case Broadcast => BroadcastKeeps(s, s');
  }

  // ----- whole runs

  /** Where a run of actions leads, or None if one of them is not enabled when its turn comes. */
  function Run(s: State, actions: seq<Action>): Option<State>
    decreases |actions|
  {
    if actions == [] then Some(s)
    else match Step(s, actions[0])
      case None => None
      case Some(s1) => Run(s1, actions[1..])
  }

  lemma {:induction false} RunKeepsInv(s: State, actions: seq<Action>)
    requires Inv(s) && Run(s, actions).Some?
    ensures Inv(Run(s, actions).value)
    decreases |actions|
  {
    if actions != [] {
      StepKeepsInv(s, actions[0], Step(s, actions[0]).value);
      RunKeepsInv(Step(s, actions[0]).value, actions[1..]);
    }
  }

  ghost predicate Reachable(s: State) {
    exists actions :: Run(INIT, actions) == Some(s)
  }

  lemma ReachableInv(s: State)
    requires Reachable(s)
    ensures Inv(s)
  {
    var actions :| Run(INIT, actions) == Some(s);
    RunKeepsInv(INIT, actions);
  }

  /** The holders whose memory an action reads or writes.  Sends and removals walk the queue. */
  function Touches(s: State, a: Action): set<nat> {
    var queued := set e | e in s.queue && IsHolder(e) :: e.ref;
    match a
    case SendSync(_, _) => queued
    case SendPlain(_, _) => queued
    case SelfSend(_) => queued
    case RemovePlain(_) => queued
    case PollQueue => queued
    case Test(t) => if Pc(s, t).Testing? then {Pc(s, t).h} else {}
    case EndDispatch => if InHand(s.disp).Some? then {InHand(s.disp).value} else {}
    case DispatcherLock => if InHand(s.disp).Some? then {InHand(s.disp).value} else {}
    case Mark => if InHand(s.disp).Some? then {InHand(s.disp).value} else {}
    case _ => {}
  }

  /** What synchronous sends promise, in every reachable state: a holder is dispatched at most
      once; a call that returned had its dispatch ended; a sender asleep on a marked holder is
      owed a broadcast; and no step touches a holder whose call may have returned. */
  lemma SyncSendsAreSafe(s: State)
    requires Reachable(s)
    ensures forall i, j :: 0 <= i < j < |s.started| ==> s.started[i] != s.started[j]
    ensures forall h: nat :: h < s.next && h !in s.live ==> h in s.ended
    ensures forall t :: Pc(s, t).Asleep? && Pc(s, t).h in s.done ==> s.disp.Marked? || s.disp == Broadcasting
    ensures forall a :: Step(s, a).Some? ==> Touches(s, a) <= s.live
  {
    ReachableInv(s);
  }

  /** The same promise seen by the caller: leaving the call, its event has been dispatched. */
  lemma ReturnMeansDispatched(s: State, t: nat, s': State)
    requires Reachable(s) && Step(s, Leave(t)) == Some(s')
    ensures Pc(s, t).h in s.ended && Pc(s, t).h in s.started && Pc(s', t) == Idle
  {
    ReachableInv(s);
  }

  /** The selector never sits in poll over a queued event, unless a token or a sender about
      to write one will wake it. */
  lemma PollNeverStrandsAnEvent(s: State)
    requires Reachable(s) && s.disp == Polling && s.queue != []
    ensures s.tokens > 0 || exists t :: t in s.senders && Flying(s.senders[t])
  {
    ReachableInv(s);
    if s.tokens == 0 {
      assert |InFlight(s)| > 0;
      var t :| t in InFlight(s);
    }
  }

  // ----- progress, once no new send arrives

  /** Steps of calls and dispatches already under way. */
  predicate Progress(a: Action) {
    !(a.SendSync? || a.SendPlain? || a.Spurious? || a.SelfSend? || a.RemovePlain?)
  }

  ghost predicate Quiet(s: State) {
    && (forall t :: t in s.senders ==> s.senders[t] == Idle)
    && s.queue == [] && s.tokens == 0 && s.disp == Polling
  }

  /** Nothing is left to step exactly when every call has returned and every event is served. */
  lemma StuckIffQuiet(s: State)
    requires Reachable(s)
    ensures (forall a :: Progress(a) ==> Step(s, a).None?) <==> Quiet(s)
  {
    ReachableInv(s);
    if !Quiet(s) {
      var a := EnabledStep(s);
    }
  }

  lemma EnabledStep(s: State) returns (a: Action)
    requires Inv(s) && !Quiet(s)
    ensures Progress(a) && Step(s, a).Some?
  {
    match s.disp
    case Draining => a := PollQueue;
    case Running(_) => a := if s.selfWake then SelfWake else EndDispatch;
    case Closing(_) => a := if s.lock == NoOne then DispatcherLock else OwnersStep(s);
    case Marking(_) => a := Mark;
    case Marked(_) => a := DispatcherUnlock;
    case Broadcasting => a := Broadcast;
    case Polling =>
      if s.tokens > 0 {
        a := ReadToken;
      } else if s.lock != NoOne {
        a := OwnersStep(s);
      } else if InFlight(s) != {} {
        var t :| t in InFlight(s);
        a := Wake(t);
      } else {
        assert |InFlight(s)| == 0 && s.queue == [];
        var t :| t in s.senders && s.senders[t] != Idle;
        assert t !in InFlight(s);
        a := Lock(t);
      }
  }

  /** The sender that owns the lock can always go on. */
  function OwnersStep(s: State): (a: Action)
    requires LockOk(s) && s.lock != NoOne && s.lock != ByDispatcher
    ensures Progress(a) && Step(s, a).Some?
  {
    if s.senders[s.lock.t].Testing? then Test(s.lock.t) else Leave(s.lock.t)
  }

  predicate Waits(pc: Sender) {
    pc.Locking? || pc.Relocking?
  }

  /** The senders about to lock mSyncLock. */
  function Queueing(s: State): set<nat> {
    set t | t in s.senders && Waits(s.senders[t])
  }

  /** Work for the dispatcher: events, tokens to come, tokens, and the rest of its turn. */
  function Work(s: State): nat {
    10 * |s.queue| + 4 * (|InFlight(s)| + Bit(s.selfWake)) + 3 * s.tokens +
    match s.disp
    case Polling => 0
    case Draining => 1
    case Broadcasting => 2
    case Marked(_) => 3
    case Marking(_) => 4
    case Closing(_) => 5
    case Running(_) => 6
  }

  function OwnersWork(s: State): nat {
    if !s.lock.BySender? then 0 else if Pc(s, s.lock.t).Testing? then 2 else 1
  }

  /** Dispatcher work first, then the senders queueing for the lock, then its owner. */
  function Bound(s: State): nat {
    Work(s) * (4 * |s.senders| + 4) + 4 * |Queueing(s)| + OwnersWork(s)
  }

  lemma QueueingMoved(s: State, t: nat, pc: Sender)
    ensures |Queueing(Move(s, t, pc))| == |Queueing(s)| + Bit(Waits(pc)) - Bit(Waits(Pc(s, t)))
  {
    var q := Queueing(s);
    assert Queueing(Move(s, t, pc)) == if Waits(pc) then q + {t} else q - {t};
  }

  lemma QueueingBounded(s: State)
    ensures |Queueing(s)| <= |s.senders|
  {
    Subset(Queueing(s), s.senders.Keys);
  }

  lemma {:induction false} Subset(a: set<nat>, b: set<nat>)
    requires a <= b
    ensures |a| <= |b|
  {
    if a != {} {
      var x :| x in a;
      Subset(a - {x}, b - {x});
    }
  }

  predicate BySelector(a: Action) {
    !(a.Wake? || a.Lock? || a.Test? || a.Leave?)
  }

  /** A step of the dispatcher takes work away; a step of a sender does, or moves it closer. */
  lemma SelectorLowersWork(s: State, a: Action, s': State)
    requires Progress(a) && BySelector(a) && Step(s, a) == Some(s')
    ensures s'.senders.Keys == s.senders.Keys && Work(s') < Work(s)
  {
    assert InFlight(s') == InFlight(s);
  }

  lemma SenderLowersWork(s: State, a: Action, s': State)
    requires LockOk(s) && Progress(a) && !BySelector(a) && Step(s, a) == Some(s')
    ensures s'.senders.Keys == s.senders.Keys && Work(s') <= Work(s)
    ensures Work(s') == Work(s) ==> 4 * |Queueing(s')| + OwnersWork(s') < 4 * |Queueing(s)| + OwnersWork(s)
  {
    if a.Wake? {
      var t := a.t;
      InFlightMoved(s, t, s'.senders[t]);
      assert InFlight(s') == InFlight(Move(s, t, s'.senders[t]));
      assert Work(s') < Work(s);
    } else {
      SenderMoves(s, a.t, s');
      assert Work(s') == Work(s);
    }
  }

  lemma SenderMoves(s: State, t: nat, s': State)
    requires t in s.senders && t in s'.senders && s'.senders == s.senders[t := s'.senders[t]]
    requires !Flying(s.senders[t]) && !Flying(s'.senders[t])
    ensures InFlight(s') == InFlight(s)
    ensures |Queueing(s')| == |Queueing(s)| + Bit(Waits(s'.senders[t])) - Bit(Waits(s.senders[t]))
  {
    QueueingMoved(s, t, s'.senders[t]);
    assert Queueing(s') == Queueing(Move(s, t, s'.senders[t]));
  }

  lemma Lexicographic(w: nat, w': nat, k: nat, x: nat, x': nat)
    requires w' <= w && x' < k
    requires w' == w ==> x' < x
    ensures w' * k + x' < w * k + x
  {
    if w' < w {
      var d := w - w' - 1;
      assert w * k == w' * k + k + d * k;
      assert d * k >= 0;
    }
  }

  lemma ProgressLowersBound(s: State, a: Action, s': State)
    requires LockOk(s) && Progress(a) && Step(s, a) == Some(s')
    ensures Bound(s') < Bound(s)
  {
    if BySelector(a) {
      SelectorLowersWork(s, a, s');
    } else {
      SenderLowersWork(s, a, s');
    }
    QueueingBounded(s');
    assert |s'.senders| == |s'.senders.Keys| && |s.senders| == |s.senders.Keys|;
    Lexicographic(Work(s), Work(s'), 4 * |s.senders| + 4,
      4 * |Queueing(s)| + OwnersWork(s), 4 * |Queueing(s')| + OwnersWork(s'));
  }

  /** However the threads are scheduled, calls and dispatches under way finish within a bound:
      a run of their steps is no longer than that, and where it can go no further every call
      has returned and every event has been dispatched. */
  lemma {:induction false} EverythingFinishes(s: State, actions: seq<Action>)
    requires Reachable(s) && Run(s, actions).Some?
    requires forall i :: 0 <= i < |actions| ==> Progress(actions[i])
    ensures |actions| <= Bound(s)
    ensures var last := Run(s, actions).value;
      (forall a :: Progress(a) ==> Step(last, a).None?) ==> Quiet(last)
    decreases |actions|
  {
    if actions == [] {
      StuckIffQuiet(s);
    } else {
      var s1 := Step(s, actions[0]).value;
      ReachableInv(s);
      ProgressLowersBound(s, actions[0], s1);
      OneMoreStep(s, actions[0], s1);
      EverythingFinishes(s1, actions[1..]);
    }
  }

  lemma OneMoreStep(s: State, a: Action, s': State)
    requires Reachable(s) && Step(s, a) == Some(s')
    ensures Reachable(s')
  {
    var actions :| Run(INIT, actions) == Some(s);
    RunSnoc(INIT, actions, a);
  }

  lemma {:induction false} RunSnoc(s: State, actions: seq<Action>, a: Action)
    requires Run(s, actions).Some?
    ensures Run(s, actions + [a]) == Step(Run(s, actions).value, a)
    decreases |actions|
  {
    if actions == [] {
      assert [a][1..] == [];
    } else {
      assert (actions + [a])[1..] == actions[1..] + [a];
      RunSnoc(Step(s, actions[0]).value, actions[1..], a);
    }
  }

  // ----- which event is dispatched

  /** What an action does to the queue, as an operation on it. */
  function OpOf(s: State, a: Action): seq<Op> {
    match a
    case SendSync(_, priority) => [Send(Event(s.next, SYNC_EVENT_ID, priority, 0))]
    case SendPlain(_, ev) => [Send(ev)]
    case SelfSend(ev) => [Send(ev)]
    case PollQueue => [Poll]
    case RemovePlain(doomed) => [Remove(doomed)]
    case _ => []
  }

  function OpsOf(actions: seq<Action>): seq<Op> {
    if actions == [] then []
    else
      var before, a := actions[..|actions| - 1], actions[|actions| - 1];
      match Run(INIT, before)
      case None => []
      case Some(s) => OpsOf(before) + OpOf(s, a)
  }

  /** The events whose dispatch began, in order. */
  function Dispatched(actions: seq<Action>): seq<Event> {
    if actions == [] then []
    else
      var before, a := actions[..|actions| - 1], actions[|actions| - 1];
      match Run(INIT, actions)
      case None => []
      case Some(s) => Dispatched(before) + if a.PollQueue? && s.disp.Running? then [s.disp.ev] else []
  }

  /** What the polls among the operations hand out. */
  function Outputs(ops: seq<Op>): seq<Event> {
    if ops == [] then []
    else
      var before := ops[..|ops| - 1];
      Outputs(before) + Output(After(before), ops[|ops| - 1])
  }

  lemma {:induction false} RunPrefix(s: State, actions: seq<Action>)
    requires actions != [] && Run(s, actions).Some?
    ensures var before, a := actions[..|actions| - 1], actions[|actions| - 1];
      Run(s, before).Some? && Run(s, actions) == Step(Run(s, before).value, a)
    decreases |actions|
  {
    if |actions| > 1 {
      var s1 := Step(s, actions[0]).value;
      RunPrefix(s1, actions[1..]);
      assert actions[1..][..|actions| - 2] == actions[..|actions| - 1][1..];
    }
  }

  lemma OneMoreOp(ops: seq<Op>, more: seq<Op>)
    requires |more| <= 1
    ensures After(ops + more) == if more == [] then After(ops) else Next(After(ops), more[0])
    ensures Outputs(ops + more) == Outputs(ops) + if more == [] then [] else Output(After(ops), more[0])
  {
    if more == [] {
      assert ops + more == ops;
    } else {
      assert (ops + more)[..|ops|] == ops && (ops + more)[|ops|] == more[0];
    }
  }

  lemma StepIsOp(s: State, a: Action, s': State)
    requires Step(s, a) == Some(s')
    ensures var op := OpOf(s, a);
      && s'.queue == (if op == [] then s.queue else Next(s.queue, op[0]))
      && (if a.PollQueue? && s'.disp.Running? then [s'.disp.ev] else [])
         == (if op == [] then [] else Output(s.queue, op[0]))
  {
  }

  /** In every run of all threads, the queue is what the sends, polls and removals make of it one
      after the other, and the events dispatched are those that the polls hand out, in order. */
  lemma {:induction false} DispatchFollowsQueue(actions: seq<Action>)
    requires Run(INIT, actions).Some?
    ensures Run(INIT, actions).value.queue == After(OpsOf(actions))
    ensures Dispatched(actions) == Outputs(OpsOf(actions))
    decreases |actions|
  {
    if actions != [] {
      var before, a := actions[..|actions| - 1], actions[|actions| - 1];
      RunPrefix(INIT, actions);
      DispatchFollowsQueue(before);
      var s, s' := Run(INIT, before).value, Run(INIT, actions).value;
      OneMoreOp(OpsOf(before), OpOf(s, a));
      StepIsOp(s, a, s');
    }
  }

  /** With priorities of 0 or more, what a poll has dispatched is of the highest priority that was
      queued, and the oldest of that priority; the others keep their places. */
  lemma HighestIsDispatched(actions: seq<Action>, s: State, s': State)
    requires Run(INIT, actions) == Some(s) && SendsNonNegative(OpsOf(actions))
    requires Step(s, PollQueue) == Some(s') && s.queue != []
    ensures s'.disp.Running?
    ensures var ev := s'.disp.ev;
      && (forall e :: e in s.queue ==> e.priority <= ev.priority)
      && OfPriority(s.queue, ev.priority) == [ev] + OfPriority(s'.queue, ev.priority)
      && (forall p :: p != ev.priority ==> OfPriority(s'.queue, p) == OfPriority(s.queue, p))
  {
    hide Run, OpsOf, Enqueue, NonIncreasing, After;
    DispatchFollowsQueue(actions);
    EveryRunMatchesFifos(OpsOf(actions));
    StepIsOp(s, PollQueue, s');
    FrontIsHighest(s.queue);
  }

  lemma FrontIsHighest(q: seq<Event>)
    requires NonIncreasing(q) && q != []
    ensures forall e :: e in q ==> e.priority <= q[0].priority
    ensures OfPriority(q, q[0].priority) == [q[0]] + OfPriority(q[1..], q[0].priority)
    ensures forall p :: p != q[0].priority ==> OfPriority(q[1..], p) == OfPriority(q, p)
  {
    forall p ensures p != q[0].priority ==> OfPriority(q[1..], p) == OfPriority(q, p) {
      PollServesHighest(q, p);
    }
  }

  // ----- every send is one token

  function Sent(actions: seq<Action>): nat {
    if actions == [] then 0
    else
      var a := actions[|actions| - 1];
      Sent(actions[..|actions| - 1]) + Bit(a.SendSync? || a.SendPlain? || a.SelfSend?)
  }

  function TokensRead(actions: seq<Action>): nat {
    if actions == [] then 0
    else TokensRead(actions[..|actions| - 1]) + Bit(actions[|actions| - 1].ReadToken?)
  }

  /** Of all sends so far, each has its token read, in the pipe, or about to be written. */
  lemma {:induction false} TokensAreCounted(actions: seq<Action>)
    requires Run(INIT, actions).Some?
    ensures var s := Run(INIT, actions).value;
      Sent(actions) == TokensRead(actions) + s.tokens + |InFlight(s)| + Bit(s.selfWake)
    decreases |actions|
  {
    if actions != [] {
      var before, a := actions[..|actions| - 1], actions[|actions| - 1];
      RunPrefix(INIT, actions);
      TokensAreCounted(before);
      StepCountsTokens(Run(INIT, before).value, a, Run(INIT, actions).value);
    }
  }

  lemma StepCountsTokens(s: State, a: Action, s': State)
    requires Step(s, a) == Some(s')
    ensures s'.tokens + |InFlight(s')| + Bit(s'.selfWake) + Bit(a.ReadToken?)
         == s.tokens + |InFlight(s)| + Bit(s.selfWake) + Bit(a.SendSync? || a.SendPlain? || a.SelfSend?)
  {
    match a
    case SendSync(t, _) => InFlightMoves(s, t, s');
    case SendPlain(t, _) => InFlightMoves(s, t, s');
    case Wake(t) => InFlightMoves(s, t, s');
    case Lock(t) => InFlightMoves(s, t, s');
    case Test(t) => InFlightMoves(s, t, s');
    case Spurious(t) => InFlightMoves(s, t, s');
    case Leave(t) => InFlightMoves(s, t, s');
    case _ => assert InFlight(s') == InFlight(s);
  }

  lemma InFlightMoves(s: State, t: nat, s': State)
    requires t in s'.senders && s'.senders == s.senders[t := s'.senders[t]]
    ensures |InFlight(s')| == |InFlight(s)| + Bit(Flying(s'.senders[t])) - Bit(Flying(Pc(s, t)))
  {
    InFlightMoved(s, t, s'.senders[t]);
    assert InFlight(s') == InFlight(Move(s, t, s'.senders[t]));
  }
}
