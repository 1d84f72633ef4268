/** The tick timer of src/Timer.cpp.

    Functions with a flag `w` are read two ways: with `w` set, ticks are the 32-bit counters
    that the code compares by signed difference; without it they are unbounded. */
module Timers {
  import opened Integers
  import opened Remainders
  import opened TimeUtils

  const TWO_30: int := 0x4000_0000

  /** `id` stands for what the node delivers: an event and its dispatcher, or a listener. */
  datatype TimerNode = TimerNode(id: nat, tick: int, repeat: uint32, remaining: uint32)

  function Ceil(a: int, p: int): int
    requires p > 0
  {
    (a + p - 1) / p
  }

  function Diff(w: bool, a: int, b: int): int {
    if w then I32(a - b) else a - b
  }

  function Norm(w: bool, x: int): int {
    if w then U32(x) else x
  }

  /** Before the first node that is due later; behind those due at the same tick. */
  function Insert(w: bool, list: seq<TimerNode>, node: TimerNode): seq<TimerNode> {
    if list == [] || Diff(w, node.tick, list[0].tick) < 0 then [node] + list
    else [list[0]] + Insert(w, list[1..], node)
  }

  function NewTicks(p: uint32, node: TimerNode): nat
    requires p > 0
  {
    U32(node.repeat + p - 1 - node.remaining) / p
  }

  /** The node as it is put back after firing. */
  function Refired(w: bool, p: uint32, node: TimerNode): TimerNode
    requires p > 0
  {
    node.(tick := Norm(w, node.tick + NewTicks(p, node)), remaining := U32(node.repeat + node.remaining) % p)
  }

  /** The sum of period and tick length does not overflow 32 bits. */
  predicate Fits(p: uint32, r: uint32) {
    r + p <= TWO_32
  }

  /** The periods with which handleTick ends: where the sum fits, all but one; where it does not,
      those of whose left-over milliseconds none keeps the timer at its tick. */
  predicate PeriodOk(p: uint32, r: uint32) {
    if Fits(p, r) then !(p == 1 && r == TWO_31)
    else p < TWO_31 && Frees(p, TWO_32 - r, TWO_32 % p)
  }

  predicate NodeOk(p: uint32, node: TimerNode) {
    p > 0 && node.remaining < p && PeriodOk(p, node.repeat)
  }

  ghost predicate NodesOk(p: uint32, list: seq<TimerNode>) {
    forall i :: 0 <= i < |list| ==> NodeOk(p, list[i])
  }

  // ----- one node, refired again and again: it comes to be due in the future

  ghost predicate FutureAfter(w: bool, p: uint32, now: int, node: TimerNode, n: nat)
    requires p > 0
    decreases n
  {
    if n == 0 then Diff(w, node.tick, now) > 0 else FutureAfter(w, p, now, Refired(w, p, node), n - 1)
  }

  /** For periods that fit, a measure of what is left to fire. */
  function Load(w: bool, p: uint32, now: int, node: TimerNode): nat
    requires NodeOk(p, node)
  {
    var lag := -Diff(w, node.tick, now);
    if lag < 0 then 0
    else if w && p == 1 && node.repeat > TWO_31 then TWO_31 + 1 - lag
    else LagLoad(p, lag) + Phase(p, node)
  }

  function LagLoad(p: int, lag: nat): nat
    requires p > 0
  {
    (lag + 1) * (p + 1)
  }

  lemma NewTicksRange(p: uint32, node: TimerNode)
    requires NodeOk(p, node) && Fits(p, node.repeat)
    ensures NewTicks(p, node) * p <= node.repeat + p - 1 - node.remaining < (NewTicks(p, node) + 1) * p
    ensures NewTicks(p, node) == 0 <==> node.remaining >= node.repeat
    ensures p > 1 ==> NewTicks(p, node) < TWO_31
    ensures p == 1 ==> NewTicks(p, node) == node.repeat
    ensures NewTicks(p, node) <= Ceil(node.repeat, p)
  {
    var x := node.repeat + p - 1 - node.remaining;
    assert U32(x) == x;
    var q := NewTicks(p, node);
    DivBounds(x, p);
    DivMonotone(x, node.repeat + p - 1, p);
    if q >= 1 {
      MulMonotone(1, q, p);
    }
    if p > 1 && q >= TWO_31 {
      MulMonotone(TWO_31, q, p);
    }
  }

  /** Where a refired node stands relative to now. */
  lemma RefiredDiff(w: bool, p: uint32, now: int, node: TimerNode)
    requires NodeOk(p, node)
    ensures var d, q := Diff(w, node.tick, now), NewTicks(p, node);
      Diff(w, Refired(w, p, node).tick, now) == if w then I32(d + q) else d + q
  {
    if w {
      I32Add(node.tick, now, NewTicks(p, node));
    }
  }

  lemma LessLag(p: int, lag: int, lag': int, phase: int, phase': int)
    requires p > 0 && 0 <= phase && 0 <= phase' <= p && 0 <= lag' < lag
    ensures LagLoad(p, lag') + phase' < LagLoad(p, lag) + phase
  {
    MulMonotone(lag' + 2, lag + 1, p + 1);
  }

  function Phase(p: uint32, node: TimerNode): nat
    requires NodeOk(p, node)
  {
    if node.remaining >= node.repeat then p - node.remaining else 0
  }

  lemma RefiredIsOk(w: bool, p: uint32, node: TimerNode)
    requires NodeOk(p, node)
    ensures NodeOk(p, Refired(w, p, node))
  {
  }

  /** A node put back at the same tick has a smaller phase. */
  lemma PhaseFalls(w: bool, p: uint32, node: TimerNode)
    requires NodeOk(p, node) && Fits(p, node.repeat) && node.repeat != 0 && node.remaining >= node.repeat
    ensures Phase(p, Refired(w, p, node)) < Phase(p, node)
  {
    hide PeriodOk;
    RefiredIsOk(w, p, node);
    SmallRemainder(node.repeat + node.remaining, p);
  }

  lemma SmallRemainder(x: int, p: int)
    requires 0 <= x < 2 * p
    ensures x % p == if x < p then x else x - p
  {
    RemainderUnique(x, p, if x < p then 0 else 1, if x < p then x else x - p);
  }

  /** Firing a due node whose period fits leaves it with less load, also when it keeps its tick. */
  lemma RefiringLowersLoad(w: bool, p: uint32, now: int, node: TimerNode)
    requires NodeOk(p, node) && Fits(p, node.repeat) && node.repeat != 0 && Diff(w, node.tick, now) <= 0
    ensures NodeOk(p, Refired(w, p, node))
    ensures Load(w, p, now, Refired(w, p, node)) < Load(w, p, now, node)
  {
    RefiredIsOk(w, p, node);
    if w && p == 1 && node.repeat > TWO_31 {
      HugePeriodLowersLoad(now, node);
    } else {
      PeriodLowersLoad(w, p, now, node);
    }
  }

  /** Beyond half the range the node seems to move back, until it is due in the future. */
  lemma HugePeriodLowersLoad(now: int, node: TimerNode)
    requires NodeOk(1, node) && node.repeat > TWO_31 && Diff(true, node.tick, now) <= 0
    ensures Load(true, 1, now, Refired(true, 1, node)) < Load(true, 1, now, node)
  {
    NewTicksRange(1, node);
    RefiredDiff(true, 1, now, node);
    var d := Diff(true, node.tick, now) + node.repeat;
    assert I32(d) == if d < TWO_31 then d else d - TWO_32;
  }

  lemma PeriodLowersLoad(w: bool, p: uint32, now: int, node: TimerNode)
    requires NodeOk(p, node) && Fits(p, node.repeat) && node.repeat != 0 && Diff(w, node.tick, now) <= 0
    requires !(w && p == 1 && node.repeat > TWO_31)
    ensures Load(w, p, now, Refired(w, p, node)) < Load(w, p, now, node)
  {
    NewTicksRange(p, node);
    RefiredDiff(w, p, now, node);
    var d, q := Diff(w, node.tick, now), NewTicks(p, node);
    if w {
      I32Small(d + q);
    }
    if q == 0 {
      PhaseFalls(w, p, node);
      LoadInPlace(w, p, now, node, Refired(w, p, node));
    } else {
      LoadAhead(w, p, now, node, Refired(w, p, node));
    }
  }

  lemma LoadInPlace(w: bool, p: uint32, now: int, node: TimerNode, next: TimerNode)
    requires NodeOk(p, node) && NodeOk(p, next) && next.repeat == node.repeat
    requires !(w && p == 1 && node.repeat > TWO_31)
    requires Diff(w, node.tick, now) == Diff(w, next.tick, now) <= 0 && Phase(p, next) < Phase(p, node)
    ensures Load(w, p, now, next) < Load(w, p, now, node)
  {
  }

  lemma LoadAhead(w: bool, p: uint32, now: int, node: TimerNode, next: TimerNode)
    requires NodeOk(p, node) && NodeOk(p, next) && next.repeat == node.repeat
    requires !(w && p == 1 && node.repeat > TWO_31)
    requires Diff(w, node.tick, now) <= 0 && Diff(w, node.tick, now) < Diff(w, next.tick, now)
    ensures Load(w, p, now, next) < Load(w, p, now, node)
  {
    var d, d' := Diff(w, node.tick, now), Diff(w, next.tick, now);
    if d' <= 0 {
      LessLag(p, -d, -d', Phase(p, node), Phase(p, next));
    } else {
      LagLoadPositive(p, -d);
    }
  }

  lemma LagLoadPositive(p: int, lag: nat)
    requires p > 0
    ensures LagLoad(p, lag) > 0
  {
    MulMonotone(1, lag + 1, p + 1);
  }

  lemma {:induction false} FittingEnds(w: bool, p: uint32, now: int, node: TimerNode) returns (n: nat)
    requires NodeOk(p, node) && Fits(p, node.repeat) && node.repeat != 0
    ensures FutureAfter(w, p, now, node, n)
    decreases Load(w, p, now, node)
  {
    if Diff(w, node.tick, now) > 0 {
      n := 0;
    } else {
      RefiringLowersLoad(w, p, now, node);
      var n1 := FittingEnds(w, p, now, Refired(w, p, node));
      n := n1 + 1;
    }
  }

  /** Where the sum overflows, the left-over milliseconds follow the rule of Remainders.Next, and
      the node keeps its tick exactly while they are below p - s. */
  lemma OverflowRule(w: bool, p: uint32, node: TimerNode)
    requires 0 < p < TWO_31 && node.remaining < p && !Fits(p, node.repeat)
    ensures var s, m, r := TWO_32 - node.repeat, TWO_32 % p, node.remaining;
      && Sizes(p, s, m)
      && Refired(w, p, node).remaining == Next(p, s, m, r)
      && (if r < p - s then NewTicks(p, node) == 0 else 1 <= NewTicks(p, node) < TWO_31)
  {
    var s, m, r := TWO_32 - node.repeat, TWO_32 % p, node.remaining;
    OverflowRemainder(p, s, r);
    var x := U32(TWO_32 - s + p - 1 - r);
    if r < p - s {
      assert x == p - 1 - r - s;
      DivUnique(x, p, 0);
    } else {
      assert x == TWO_32 - (r + s + 1 - p);
      DivBounds(x, p);
      if x / p >= TWO_31 {
        MulMonotone(TWO_31, x / p, p);
      }
      if x / p < 1 {
        MulMonotone(x / p + 1, 1, p);
      }
    }
  }

  lemma OverflowRemainder(p: uint32, s: int, r: int)
    requires 0 < s < p && 0 <= r < p
    ensures U32(TWO_32 - s + r) % p == Next(p, s, TWO_32 % p, r)
  {
    var q, m := TWO_32 / p, TWO_32 % p;
    if r >= s {
      assert U32(TWO_32 - s + r) == r - s;
      RemainderUnique(r - s, p, 0, r - s);
    } else {
      assert U32(TWO_32 - s + r) == TWO_32 - s + r;
      assert TWO_32 == q * p + m;
      if r + m >= s {
        RemainderUnique(TWO_32 - s + r, p, q, r + m - s);
      } else {
        assert (q - 1) * p == q * p - p;
        RemainderUnique(TWO_32 - s + r, p, q - 1, r + m - s + p);
      }
    }
  }

  /** k more firings in place and one that moves the node on. */
  lemma {:induction false} OverflowEnds(w: bool, p: uint32, now: int, node: TimerNode, k: nat) returns (n: nat)
    requires NodeOk(p, node) && !Fits(p, node.repeat)
    requires MovesAfter(p, TWO_32 - node.repeat, TWO_32 % p, node.remaining, k)
    ensures FutureAfter(w, p, now, node, n)
    decreases -Diff(w, node.tick, now), k
  {
    if Diff(w, node.tick, now) > 0 {
      n := 0;
    } else {
      var next, s, m := Refired(w, p, node), TWO_32 - node.repeat, TWO_32 % p;
      OverflowRule(w, p, node);
      RefiredDiff(w, p, now, node);
      var n1;
      if node.remaining < p - s {
        if w {
          I32Small(Diff(w, node.tick, now));
        }
        n1 := OverflowEnds(w, p, now, next, k - 1);
      } else {
        if w {
          I32Small(Diff(w, node.tick, now) + NewTicks(p, node));
        }
        var k1 := EveryRemainderMoves(p, s, m, next.remaining);
        n1 := OverflowEnds(w, p, now, next, k1);
      }
      n := n1 + 1;
    }
  }

  lemma EveryNodeEnds(w: bool, p: uint32, now: int, node: TimerNode) returns (n: nat)
    requires NodeOk(p, node) && node.repeat != 0
    ensures FutureAfter(w, p, now, node, n)
  {
    if Fits(p, node.repeat) {
      n := FittingEnds(w, p, now, node);
    } else {
      OverflowRule(w, p, node);
      var k := EveryRemainderMoves(p, TWO_32 - node.repeat, TWO_32 % p, node.remaining);
      n := OverflowEnds(w, p, now, node, k);
    }
  }

  /** The least number of firings, none more than n. */
  ghost function Least(w: bool, p: uint32, now: int, node: TimerNode, n: nat): (k: nat)
    requires p > 0 && FutureAfter(w, p, now, node, n)
    ensures k <= n && FutureAfter(w, p, now, node, k) && forall j: nat :: j < k ==> !FutureAfter(w, p, now, node, j)
    decreases n
  {
    if j: nat :| j < n && FutureAfter(w, p, now, node, j) then Least(w, p, now, node, j) else n
  }

  /** The firings left to a node at this tick. */
  ghost function Work(w: bool, p: uint32, now: int, node: TimerNode): nat
    requires NodeOk(p, node)
  {
    if Diff(w, node.tick, now) > 0 then 0
    else if node.repeat == 0 then 1
    else
      assert exists n: nat :: FutureAfter(w, p, now, node, n) by {
        var n := EveryNodeEnds(w, p, now, node);
      }
      var n: nat :| FutureAfter(w, p, now, node, n);
      Least(w, p, now, node, n)
  }

  ghost function TotalWork(w: bool, p: uint32, now: int, list: seq<TimerNode>): nat
    requires NodesOk(p, list)
  {
    if list == [] then 0 else Work(w, p, now, list[0]) + TotalWork(w, p, now, list[1..])
  }

  /** Firing a due node leaves it with less work, so it cannot stay due for ever. */
  lemma RefiringLowersWork(w: bool, p: uint32, now: int, node: TimerNode)
    requires NodeOk(p, node) && node.repeat != 0 && Diff(w, node.tick, now) <= 0
    ensures NodeOk(p, Refired(w, p, node))
    ensures Work(w, p, now, Refired(w, p, node)) < Work(w, p, now, node)
  {
    RefiredIsOk(w, p, node);
    var k := Work(w, p, now, node);
    assert FutureAfter(w, p, now, node, k) && k > 0;
    assert FutureAfter(w, p, now, Refired(w, p, node), k - 1);
  }

  lemma {:induction false} InsertWork(w: bool, p: uint32, now: int, list: seq<TimerNode>, node: TimerNode)
    requires NodesOk(p, list) && NodeOk(p, node)
    ensures NodesOk(p, Insert(w, list, node))
    ensures TotalWork(w, p, now, Insert(w, list, node)) == TotalWork(w, p, now, list) + Work(w, p, now, node)
  {
    if list == [] || Diff(w, node.tick, list[0].tick) < 0 {
      assert ([node] + list)[1..] == list;
    } else {
      InsertWork(w, p, now, list[1..], node);
      var rest := Insert(w, list[1..], node);
      assert ([list[0]] + rest)[1..] == rest;
    }
  }

  /** The list after its first node has fired. */
  function AfterFiring(w: bool, p: uint32, list: seq<TimerNode>): seq<TimerNode>
    requires p > 0 && list != []
  {
    if list[0].repeat != 0 then Insert(w, list[1..], Refired(w, p, list[0])) else list[1..]
  }

  lemma FiringLowersWork(w: bool, p: uint32, now: int, list: seq<TimerNode>)
    requires p > 0 && NodesOk(p, list) && list != [] && Diff(w, list[0].tick, now) <= 0
    ensures NodesOk(p, AfterFiring(w, p, list))
    ensures TotalWork(w, p, now, AfterFiring(w, p, list)) < TotalWork(w, p, now, list)
  {
    if list[0].repeat != 0 {
      RefiringLowersWork(w, p, now, list[0]);
      InsertWork(w, p, now, list[1..], Refired(w, p, list[0]));
    }
  }

  // ----- the loop of handleTick

  /** The loop comes to its end within n turns. */
  ghost predicate EndsWithin(w: bool, p: uint32, now: int, list: seq<TimerNode>, n: nat)
    requires p > 0
    decreases n
  {
    || list == [] || Diff(w, list[0].tick, now) > 0
    || (n > 0 && EndsWithin(w, p, now, AfterFiring(w, p, list), n - 1))
  }

  ghost predicate Ends(w: bool, p: uint32, now: int, list: seq<TimerNode>)
    requires p > 0
  {
    exists n: nat :: EndsWithin(w, p, now, list, n)
  }

  /** The least number of turns, none more than n. */
  ghost function LeastTurns(w: bool, p: uint32, now: int, list: seq<TimerNode>, n: nat): (k: nat)
    requires p > 0 && EndsWithin(w, p, now, list, n)
    ensures k <= n && EndsWithin(w, p, now, list, k) && forall j: nat :: j < k ==> !EndsWithin(w, p, now, list, j)
    decreases n
  {
    if j: nat :| j < n && EndsWithin(w, p, now, list, j) then LeastTurns(w, p, now, list, j) else n
  }

  ghost function Turns(w: bool, p: uint32, now: int, list: seq<TimerNode>): (k: nat)
    requires p > 0 && Ends(w, p, now, list)
    ensures EndsWithin(w, p, now, list, k) && forall j: nat :: j < k ==> !EndsWithin(w, p, now, list, j)
  {
    var n: nat :| EndsWithin(w, p, now, list, n);
    LeastTurns(w, p, now, list, n)
  }

  lemma OneTurnLess(w: bool, p: uint32, now: int, list: seq<TimerNode>)
    requires p > 0 && Ends(w, p, now, list) && list != [] && Diff(w, list[0].tick, now) <= 0
    ensures Ends(w, p, now, AfterFiring(w, p, list))
    ensures Turns(w, p, now, AfterFiring(w, p, list)) < Turns(w, p, now, list)
  {
    var k := Turns(w, p, now, list);
    assert EndsWithin(w, p, now, AfterFiring(w, p, list), k - 1);
  }

  datatype Drained = Drained(list: seq<TimerNode>, fired: seq<nat>)

  /** What the loop leaves and fires, where it ends. */
  function Drain(w: bool, p: uint32, now: int, list: seq<TimerNode>): (d: Drained)
    requires p > 0 && Ends(w, p, now, list)
    decreases Turns(w, p, now, list)
  {
    if list == [] || Diff(w, list[0].tick, now) > 0 then Drained(list, [])
    else
      OneTurnLess(w, p, now, list);
      var d := Drain(w, p, now, AfterFiring(w, p, list));
      Drained(d.list, [list[0].id] + d.fired)
  }

  /** With periods that are all right the loop ends for every list, sorted or not, whatever its
      ticks and left-over milliseconds, and the periods stay all right. */
  lemma {:induction false} EveryListEnds(w: bool, p: uint32, now: int, list: seq<TimerNode>)
    requires p > 0 && NodesOk(p, list)
    ensures Ends(w, p, now, list) && NodesOk(p, Drain(w, p, now, list).list)
    decreases TotalWork(w, p, now, list)
  {
    if list == [] || Diff(w, list[0].tick, now) > 0 {
      assert EndsWithin(w, p, now, list, 0);
    } else {
      FiringLowersWork(w, p, now, list);
      EveryListEnds(w, p, now, AfterFiring(w, p, list));
      var n: nat :| EndsWithin(w, p, now, AfterFiring(w, p, list), n);
      assert EndsWithin(w, p, now, list, n + 1);
    }
  }

  // ----- exactly when it ends

  /** A due node with left-over milliseconds from which no step leads away. */
  ghost predicate Caught(p: uint32, now: uint32, node: TimerNode) {
    && 0 < p < TWO_31 && !Fits(p, node.repeat) && 0 <= node.tick < TWO_32 && Diff(true, node.tick, now) <= 0
    && var s, m := TWO_32 - node.repeat, TWO_32 % p;
       !Frees(p, s, m) && node.remaining < p - s && Divides(Gcd(m, s), node.remaining)
  }

  lemma CaughtStays(p: uint32, now: uint32, node: TimerNode)
    requires Caught(p, now, node)
    ensures var next := Refired(true, p, node); next.tick == node.tick && Caught(p, now, next)
  {
    hide Gcd, Divides, Remainders.Next;
    OverflowRule(true, p, node);
    NextStays(p, TWO_32 - node.repeat, TWO_32 % p, node.remaining);
  }

  /** It is put back in front for ever, for the nodes behind it are not reached. */
  lemma {:induction false} CaughtNeverEnds(p: uint32, now: uint32, node: TimerNode, rest: seq<TimerNode>, n: nat)
    requires p > 0 && Caught(p, now, node) && (rest == [] || Diff(true, node.tick, rest[0].tick) < 0)
    ensures !EndsWithin(true, p, now, [node] + rest, n)
    decreases n
  {
    hide Caught, Refired, Frees;
    var list, next := [node] + rest, Refired(true, p, node);
    CaughtIsPeriodic(p, now, node);
    assert list[1..] == rest;
    if n > 0 {
      CaughtStays(p, now, node);
      assert AfterFiring(true, p, list) == [next] + rest;
      CaughtNeverEnds(p, now, next, rest, n - 1);
    }
  }

  lemma CaughtIsPeriodic(p: uint32, now: uint32, node: TimerNode)
    requires p > 0 && Caught(p, now, node)
    ensures node.repeat != 0 && Diff(true, node.tick, now) <= 0
  {
  }

  /** With ticks of one millisecond and the period of half the range, a node alone in the list
      is back where it was after two firings, and due both times. */
  lemma {:induction false} HalfRangeNeverEnds(now: uint32, node: TimerNode, n: nat)
    requires node.repeat == TWO_31 && node.remaining == 0 && 0 <= node.tick < TWO_32
    requires node.tick == now || node.tick == U32(now + TWO_31)
    ensures !EndsWithin(true, 1, now, [node], n)
    decreases n
  {
    if n > 0 {
      var next := Refired(true, 1, node);
      assert NewTicks(1, node) == TWO_31 && next.remaining == 0;
      assert next.tick == now || next.tick == U32(now + TWO_31);
      assert [node][1..] == [] && AfterFiring(true, 1, [node]) == [next];
      HalfRangeNeverEnds(now, next, n - 1);
    }
  }

  /** The condition on the period is exact: a timer alone in the list, fresh and due, makes the
      loop end if and only if its period is all right. */
  lemma LoopEndsIff(p: uint32, now: uint32, r: uint32, id: nat)
    requires 0 < p < TWO_31 && r > 0
    ensures PeriodOk(p, r) <==> Ends(true, p, now, [TimerNode(id, now, r, 0)])
  {
    FreshEndsIff(p, now, now, r, id);
  }

  /** The same where the tick of a fresh timer has passed without being seen: only a period that
      overflows has the timer listed so. */
  lemma FreshEndsIff(p: uint32, now: uint32, tick: uint32, r: uint32, id: nat)
    requires 0 < p < TWO_31 && r > 0
    requires tick == now || (!Fits(p, r) && Diff(true, tick, now) <= 0)
    ensures PeriodOk(p, r) <==> Ends(true, p, now, [TimerNode(id, tick, r, 0)])
  {
    var node := TimerNode(id, tick, r, 0);
    if PeriodOk(p, r) {
      EveryListEnds(true, p, now, [node]);
    } else {
      forall n: nat ensures !EndsWithin(true, p, now, [node], n) {
        if Fits(p, r) {
          HalfRangeNeverEnds(now, node, n);
        } else {
          assert 0 == 0 * Gcd(TWO_32 % p, TWO_32 - r);
          OverflowRule(true, p, node);
          assert [node] + [] == [node];
          CaughtNeverEnds(p, now, node, [], n);
        }
      }
    }
  }

  /** The node that addTimer, addPeriodicTimer and their event twins make. */
  function NewNode(p: uint32, ticks: uint32, id: nat, ms: uint32, periodic: bool): TimerNode
    requires p > 0
  {
    TimerNode(id, U32(ticks + U32(ms + p - 1) / p), if periodic then ms else 0, 0)
  }

  /** Exact of the timer as it is added at tick t: handleTick ends when it first finds it due,
      one tick on if the delay comes out as 0, if and only if its period is all right. */
  lemma AddedTimerEndsIff(p: uint32, t: uint32, r: uint32, id: nat)
    requires 0 < p < TWO_31 && r > 0
    ensures var now := U32(t + Max(1, U32(r + p - 1) / p));
      PeriodOk(p, r) <==> Ends(true, p, now, [NewNode(p, t, id, r, true)])
  {
    hide Ends, PeriodOk;
    var delay := U32(r + p - 1) / p;
    AddedDelay(p, r);
    assert NewNode(p, t, id, r, true) == TimerNode(id, U32(t + delay), r, 0);
    hide NewNode, Fits;
    if Fits(p, r) {
      FreshEndsIff(p, U32(t + delay), U32(t + delay), r, id);
    } else {
      assert Diff(true, t, U32(t + 1)) == -1;
      FreshEndsIff(p, U32(t + 1), t, r, id);
    }
  }

  /** The delay comes out as 0 exactly where the sum overflows. */
  lemma AddedDelay(p: uint32, r: uint32)
    requires 0 < p && r > 0
    ensures if Fits(p, r) then U32(r + p - 1) / p >= 1 else U32(r + p - 1) / p == 0
  {
    if Fits(p, r) {
      DivMonotone(p, r + p - 1, p);
      DivUnique(p, p, 1);
    } else {
      DivUnique(r + p - 1 - TWO_32, p, 0);
    }
  }

  /** The longest period of all, with ticks of 3 ms: the node is put back as it was. */
  lemma LongestPeriodSticks(node: TimerNode)
    requires node.repeat == TWO_32 - 1 && node.remaining == 0 && 0 <= node.tick < TWO_32
    ensures Refired(true, 3, node) == node && !PeriodOk(3, node.repeat) && PeriodOk(2, node.repeat)
  {
  }

  // ----- 32-bit comparisons agree with unbounded ones

  function Wrapped(node: TimerNode): TimerNode {
    node.(tick := U32(node.tick))
  }

  function WrapAll(list: seq<TimerNode>): (r: seq<TimerNode>)
    ensures |r| == |list|
  {
    seq(|list|, i requires 0 <= i < |list| => Wrapped(list[i]))
  }

  /** Due from one tick ago to 2^30 ticks ahead, with a period no longer than that. */
  predicate Near(p: uint32, now: int, node: TimerNode)
    requires p > 0
  {
    now - 1 <= node.tick <= now + TWO_30 && node.repeat + p <= TWO_32 && Ceil(node.repeat, p) <= TWO_30
  }

  ghost predicate AllNear(p: uint32, now: int, list: seq<TimerNode>)
    requires p > 0
  {
    forall i :: 0 <= i < |list| ==> Near(p, now, list[i])
  }

  lemma NearDiff(a: int, b: int)
    requires -TWO_31 < a - b < TWO_31
    ensures Diff(true, U32(a), U32(b)) == a - b
  {
  }

  lemma {:induction false} InsertRefines(p: uint32, now: int, list: seq<TimerNode>, node: TimerNode)
    requires p > 0 && AllNear(p, now, list) && Near(p, now, node)
    ensures Insert(true, WrapAll(list), Wrapped(node)) == WrapAll(Insert(false, list, node))
    ensures AllNear(p, now, Insert(false, list, node))
  {
    if list != [] {
      NearDiff(node.tick, list[0].tick);
      assert WrapAll(list)[1..] == WrapAll(list[1..]);
      InsertRefines(p, now, list[1..], node);
    }
  }

  lemma {:induction false} DrainRefines(p: uint32, now: int, list: seq<TimerNode>)
    requires p > 0 && NodesOk(p, list) && AllNear(p, now, list)
    ensures NodesOk(p, WrapAll(list))
    ensures Ends(false, p, now, list) && Ends(true, p, U32(now), WrapAll(list))
    ensures var d, d32 := Drain(false, p, now, list), Drain(true, p, U32(now), WrapAll(list));
      d32 == Drained(WrapAll(d.list), d.fired) && AllNear(p, now, d.list)
    decreases TotalWork(false, p, now, list)
  {
    EveryListEnds(false, p, now, list);
    EveryListEnds(true, p, U32(now), WrapAll(list));
    if list != [] {
      var node := list[0];
      NearDiff(node.tick, now);
      if node.tick <= now {
        FiringLowersWork(false, p, now, list);
        FiringRefines(p, now, list);
        DrainRefines(p, now, AfterFiring(false, p, list));
      }
    }
  }

  lemma U32Add(a: int, q: int)
    ensures U32(U32(a) + q) == U32(a + q)
  {
  }

  lemma RefiringRefines(p: uint32, now: int, node: TimerNode)
    requires NodeOk(p, node) && Near(p, now, node) && node.tick <= now
    ensures Refired(true, p, Wrapped(node)) == Wrapped(Refired(false, p, node))
    ensures Near(p, now, Refired(false, p, node))
  {
    NewTicksRange(p, node);
    U32Add(node.tick, NewTicks(p, node));
  }

  lemma FiringRefines(p: uint32, now: int, list: seq<TimerNode>)
    requires p > 0 && NodesOk(p, list) && AllNear(p, now, list) && list != [] && list[0].tick <= now
    ensures AfterFiring(true, p, WrapAll(list)) == WrapAll(AfterFiring(false, p, list))
    ensures AllNear(p, now, AfterFiring(false, p, list))
  {
    assert WrapAll(list)[1..] == WrapAll(list[1..]);
    if list[0].repeat != 0 {
      RefiringRefines(p, now, list[0]);
      InsertRefines(p, now, list[1..], Refired(false, p, list[0]));
    }
  }

  // ----- the timer

  function Undoomed(list: seq<TimerNode>, doomed: nat -> bool): seq<TimerNode> {
    if list == [] then []
    else (if doomed(list[0].id) then [] else [list[0]]) + Undoomed(list[1..], doomed)
  }

  lemma {:induction false} UndoomedOk(p: uint32, list: seq<TimerNode>, doomed: nat -> bool)
    requires NodesOk(p, list)
    ensures NodesOk(p, Undoomed(list, doomed))
  {
    if list != [] {
      UndoomedOk(p, list[1..], doomed);
    }
  }

  lemma {:induction false} UndoomedSplit(a: seq<TimerNode>, b: seq<TimerNode>, doomed: nat -> bool)
    ensures Undoomed(a + b, doomed) == Undoomed(a, doomed) + Undoomed(b, doomed)
  {
    if a == [] {
      assert a + b == b;
    } else {
      assert (a + b)[1..] == a[1..] + b;
      UndoomedSplit(a[1..], b, doomed);
    }
  }

  /** The loop of removal: `seen` is dealt with, its survivors are in front of i. */
  lemma UndoomedStep(all: seq<TimerNode>, seen: seq<TimerNode>, list: seq<TimerNode>, i: nat, doomed: nat -> bool)
    requires i < |list| && all == seen + list[i..] && list[..i] == Undoomed(seen, doomed)
    ensures var seen', kept := seen + [list[i]], list[..i] + list[i + 1..];
      if doomed(list[i].id) then all == seen' + kept[i..] && kept[..i] == Undoomed(seen', doomed)
      else all == seen' + list[i + 1..] && list[..i + 1] == Undoomed(seen', doomed)
  {
    UndoomedSplit(seen, [list[i]], doomed);
    assert [list[i]][1..] == [];
    assert list[i..] == [list[i]] + list[i + 1..];
  }

  lemma {:induction false} InsertSplit(list: seq<TimerNode>, node: TimerNode, k: nat)
    requires k <= |list| && forall i :: 0 <= i < k ==> Diff(true, node.tick, list[i].tick) >= 0
    requires k < |list| ==> Diff(true, node.tick, list[k].tick) < 0
    ensures Insert(true, list, node) == list[..k] + [node] + list[k..]
  {
    if k > 0 {
      InsertSplit(list[1..], node, k - 1);
    }
  }

  /** The state after n ticks in a row, with what each of them fired. */
  datatype Ticked = Ticked(ticks: uint32, list: seq<TimerNode>, fired: seq<seq<nat>>)

  function TickTimes(p: uint32, ticks: uint32, list: seq<TimerNode>, n: nat): (r: Ticked)
    requires p > 0 && NodesOk(p, list)
    ensures NodesOk(p, r.list) && r.ticks == U32(ticks + n) && |r.fired| == n
  {
    if n == 0 then Ticked(ticks, list, [])
    else
      var r := TickTimes(p, ticks, list, n - 1);
      var now := U32(r.ticks + 1);
      EveryListEnds(true, p, now, r.list);
      U32Next(ticks, n - 1);
      var d := Drain(true, p, now, r.list);
      Ticked(now, d.list, r.fired + [d.fired])
  }

  /** n tick lengths of p milliseconds, in nanoseconds. */
  function TickSpan(n: nat, p: int): int {
    n * (p * NS_PER_MS)
  }

  lemma TickSpanStep(n: nat, p: int)
    ensures TickSpan(n + 1, p) == TickSpan(n, p) + p * NS_PER_MS
  {
  }

  lemma DrainHead(p: uint32, now: int, list: seq<TimerNode>, fired: seq<nat>)
    requires p > 0 && Ends(true, p, now, list) && list != [] && Diff(true, list[0].tick, now) <= 0
    ensures Ends(true, p, now, AfterFiring(true, p, list))
    ensures var d, d1 := Drain(true, p, now, list), Drain(true, p, now, AfterFiring(true, p, list));
      d.list == d1.list && fired + d.fired == (fired + [list[0].id]) + d1.fired
  {
    OneTurnLess(true, p, now, list);
  }

  class Timer {
    const p: uint32  // mMsPerTick
    var ticks: uint32
    var list: seq<TimerNode>

    ghost predicate Valid()
      reads this
    {
      0 < p < TWO_31 && forall i :: 0 <= i < |list| ==> list[i].remaining < p
    }

    /** No period listed makes the loop of handleTick run for ever. */
    ghost predicate PeriodsOk()
      reads this
    {
      NodesOk(p, list)
    }

    /** A negative tick length stands for 100 ms. */
    constructor (tickTime: int)
      requires -TWO_31 <= tickTime < TWO_31 && tickTime != 0
      ensures Valid() && PeriodsOk() && ticks == 0 && list == [] && p == if tickTime < 0 then 100 else tickTime
    {
      p, ticks, list := if tickTime < 0 then 100 else tickTime, 0, [];
    }

    method AddTimerNode(node: TimerNode)
      requires Valid() && node.remaining < p
      modifies this`list
      ensures Valid() && list == Insert(true, old(list), node)
      ensures old(PeriodsOk()) && NodeOk(p, node) ==> PeriodsOk()
    {
      hide PeriodOk, NodeOk;
      var inserted, i := false, 0;
      while i < |list|
        invariant 0 <= i <= |list| && !inserted && list == old(list)
        invariant forall j :: 0 <= j < i ==> Diff(true, node.tick, list[j].tick) >= 0
      {
        var diff := I32(node.tick - list[i].tick);
        if diff < 0 {
          InsertSplit(list, node, i);
          list := list[..i] + [node] + list[i..];
          inserted := true;
          break;
        }
        i := i + 1;
      }
      if !inserted {
        InsertSplit(list, node, |list|);
        list := list + [node];
      }
    }

    method AddTimer(id: nat, msecs: uint32)
      requires Valid()
      modifies this`list
      ensures Valid() && list == Insert(true, old(list), NewNode(p, ticks, id, msecs, false))
      ensures old(PeriodsOk()) ==> PeriodsOk()
    {
      var delay := U32(msecs + p - 1) / p;
      AddTimerNode(TimerNode(id, U32(ticks + delay), 0, 0));
    }

    method AddPeriodicTimer(id: nat, period: uint32)
      requires Valid()
      modifies this`list
      ensures Valid() && list == Insert(true, old(list), NewNode(p, ticks, id, period, true))
      ensures old(PeriodsOk()) && PeriodOk(p, period) ==> PeriodsOk()
    {
      var delay := U32(period + p - 1) / p;
      AddTimerNode(TimerNode(id, U32(ticks + delay), period, 0));
    }

    method RemoveTimedEvent(doomed: nat -> bool)
      requires Valid()
      modifies this`list
      ensures Valid() && list == Undoomed(old(list), doomed)
      ensures old(PeriodsOk()) ==> PeriodsOk()
    {
      hide PeriodOk, NodeOk;
      var i := 0;
      ghost var seen: seq<TimerNode> := [];
      while i < |list|
        invariant 0 <= i <= |list| && Valid()
        invariant old(list) == seen + list[i..] && list[..i] == Undoomed(seen, doomed)
        decreases |list| - i
      {
        var node := list[i];
        UndoomedStep(old(list), seen, list, i, doomed);
        seen := seen + [node];
        if doomed(node.id) {
          list := list[..i] + list[i + 1..];
        } else {
          i := i + 1;
        }
      }
      assert old(list) == seen;
      if NodesOk(p, old(list)) {
        UndoomedOk(p, old(list), doomed);
      }
    }

    /** Fires every node that is due, in list order; yields their ids.  Called where the loop ends. */
    method HandleTick() returns (fired: seq<nat>)
      requires Valid() && Ends(true, p, U32(ticks + 1), list)
      modifies this
      ensures Valid() && ticks == U32(old(ticks) + 1)
      ensures Drained(list, fired) == Drain(true, p, ticks, old(list))
      ensures old(PeriodsOk()) ==> PeriodsOk()
    {
      ticks := U32(ticks + 1);
      fired := [];
      while list != []
        invariant Valid() && ticks == U32(old(ticks) + 1) && Ends(true, p, ticks, list)
        invariant var d := Drain(true, p, ticks, list);
          Drain(true, p, ticks, old(list)) == Drained(d.list, fired + d.fired)
        decreases Turns(true, p, ticks, list)
      {
        var node := list[0];
        var diff := I32(node.tick - ticks);
        if diff > 0 {
          break;
        }
        OneTurnLess(true, p, ticks, list);
        DrainHead(p, ticks, list, fired);
        list := list[1..];
        fired := fired + [node.id];
        if node.repeat != 0 {
          PutBack(node);
        }
      }
      assert fired + [] == fired;
      if NodesOk(p, old(list)) {
        EveryListEnds(true, p, ticks, old(list));
      }
    }

    /** The period's next tick, with the milliseconds left over carried along. */
    method PutBack(fired: TimerNode)
      requires Valid() && fired.remaining < p
      modifies this`list
      ensures Valid() && list == Insert(true, old(list), Refired(true, p, fired))
    {
      var node := fired;
      var newTicks := U32(node.repeat + p - 1 - node.remaining) / p;
      node := node.(tick := U32(node.tick + newTicks));
      node := node.(remaining := U32(node.repeat + node.remaining) % p);
      assert node == Refired(true, p, fired);
      AddTimerNode(node);
    }

    /** One wake-up of clockHandler: `cur` is the time read, `reread` the second reading that
        resets `start` when the clock was set back or jumped by more than ten seconds.  A jump is
        seen only modulo 2^32 ms; whatever the jump, `start` keeps behind what is seen of it. */
    method WakeUp(start: Timespec, cur: Timespec, reread: Timespec) returns (fired: seq<seq<nat>>)
      requires Valid() && PeriodsOk() && start != cur && start != reread
      requires start.Normal() && cur.Normal() && reread.Normal()
      modifies this, start
      ensures Valid() && PeriodsOk() && start.Normal()
      ensures Ticked(ticks, list, fired) == TickTimes(p, old(ticks), old(list), |fired|)
      ensures ticks == U32(old(ticks) + |fired|)
      ensures var d, unseen := old(GetDifference(cur, start)), old(Unseen(cur, start));
        if d < 0 || d > 10000 then |fired| == 1 && start.Total() == reread.Total()
        else start.Total() == old(start.Total()) + TickSpan(|fired|, p) && CaughtUp(start, cur, unseen, |fired| > 0)
      ensures old(-2_147_482 < cur.sec - start.sec < 2_147_482) ==> old(Unseen(cur, start)) == 0
    {
      UnseenIsZero(cur.sec - start.sec, cur.nsec - start.nsec);
      fired := [];
      if GetDifference(cur, start) < 0 || GetDifference(cur, start) > 10000 {
        start.sec, start.nsec := reread.sec, reread.nsec;
        EveryListEnds(true, p, U32(ticks + 1), list);
        var f := HandleTick();
        fired := [f];
        assert TickTimes(p, old(ticks), old(list), 0) == Ticked(old(ticks), old(list), []);
      } else {
        fired := CatchUp(start, cur);
      }
    }

    /** `start` is at most a tick length behind `cur` (less the part of a jump that is not seen),
        and strictly behind it if it was moved at all. */
    ghost predicate CaughtUp(start: Timespec, cur: Timespec, unseen: int, moved: bool)
      reads start, cur
    {
      && GetDifference(cur, start) <= p
      && (moved ==> start.Total() < cur.Total() - unseen * NS_PER_MS)
      && cur.Total() - unseen * NS_PER_MS < start.Total() + (p + 1) * NS_PER_MS
    }

    /** The catch-up loop: one tick per tick length, `start` keeping behind `cur`. */
    method CatchUp(start: Timespec, cur: Timespec) returns (fired: seq<seq<nat>>)
      requires Valid() && PeriodsOk() && start != cur && start.Normal() && cur.Normal()
      modifies this, start
      ensures Valid() && PeriodsOk() && start.Normal()
      ensures Ticked(ticks, list, fired) == TickTimes(p, old(ticks), old(list), |fired|)
      ensures ticks == U32(old(ticks) + |fired|)
      ensures start.Total() == old(start.Total()) + TickSpan(|fired|, p)
      ensures CaughtUp(start, cur, old(Unseen(cur, start)), |fired| > 0)
    {
      hide Drain, Insert, PeriodOk, NodeOk, Difference, UnseenOf;
      fired := [];
      ghost var unseen := Unseen(cur, start);
      while GetDifference(cur, start) > p
        invariant Valid() && PeriodsOk() && start.Normal() && cur.Normal() && Unseen(cur, start) == unseen
        invariant Ticked(ticks, list, fired) == TickTimes(p, old(ticks), old(list), |fired|)
        invariant start.Total() == old(start.Total()) + TickSpan(|fired|, p)
        invariant |fired| > 0 ==> start.Total() < cur.Total() - unseen * NS_PER_MS
        decreases cur.Total() - unseen * NS_PER_MS - start.Total()
      {
        TickSpanStep(|fired|, p);
        StepStart(start, cur);
        EveryListEnds(true, p, U32(ticks + 1), list);
        var f := HandleTick();
        fired := fired + [f];
      }
      DifferenceAbove(cur.sec - start.sec, cur.nsec - start.nsec, p);
    }

    method StepStart(start: Timespec, cur: Timespec)
      requires p > 0 && start != cur && start.Normal() && cur.Normal() && GetDifference(cur, start) > p
      modifies start
      ensures start.Normal() && start.Total() == old(start.Total()) + p * NS_PER_MS
      ensures Unseen(cur, start) == old(Unseen(cur, start))
      ensures start.Total() < cur.Total() - Unseen(cur, start) * NS_PER_MS
    {
      ghost var dsec, dnsec := cur.sec - start.sec, cur.nsec - start.nsec;
      DifferenceAbove(dsec, dnsec, p);
      start.AddOffset(p);
      UnseenStays(dsec, dnsec, cur.sec - start.sec, cur.nsec - start.nsec, p);
    }
  }
}
