/** The first-fit allocator of src/Allocator.cpp.

    Addresses are offsets into the buffer, on a machine with 8-byte pointers.  `mem` holds the
    node headers that stand in the buffer, one at the start of every block, free or live. */
module Allocators {
  import opened Integers

  const PTR_SIZE := 8
  const NODE_SIZE := 16
  const SMALLEST_BLOCK := 16
  const NIL := -1

  datatype Header = Header(size: nat, next: int)

  type Mem = map<int, Header>

  function AlignSize(size: uint32): nat {
    (size + PTR_SIZE - 1) / PTR_SIZE * PTR_SIZE
  }

  /** A request with its header, computed in 32 bits. */
  function TotalSize(size: uint32): uint32 {
    U32(U32(AlignSize(size)) + NODE_SIZE)
  }

  predicate NoOverflow(size: uint32) {
    AlignSize(size) + NODE_SIZE < TWO_32
  }

  /** A block of that many bytes has room for the request, if its size was computed without wrapping. */
  predicate HasRoom(request: uint32, size: nat) {
    NoOverflow(request) ==> NODE_SIZE + request <= size
  }

  // ----- the heap as a value: headers m, buffer size n, free list c

  function End(m: Mem, o: int): int
    requires o in m
  {
    o + m[o].size
  }

  predicate Congruent(n: int, x: int) {
    (n - x) % PTR_SIZE == 0
  }

  /** The blocks follow one another from 0 to n without gap or overlap. */
  ghost predicate Tiled(m: Mem, n: nat) {
    && 0 in m
    && (forall o {:trigger End(m, o)} {:trigger BlockOk(m, n, o)} :: o in m ==> BlockOk(m, n, o))
    && (forall o, p {:trigger End(m, o), p in m} :: o in m && p in m && o < p ==> End(m, o) <= p)
  }

  ghost predicate BlockOk(m: Mem, n: nat, o: int)
    requires o in m
  {
    0 <= o && m[o].size >= NODE_SIZE && End(m, o) <= n && (End(m, o) == n || End(m, o) in m)
  }

  /** Every boundary but the first is congruent to n modulo the pointer size. */
  ghost predicate Aligned(m: Mem, n: nat) {
    forall o {:trigger End(m, o)} {:trigger EdgesOk(m, n, o)} :: o in m ==> EdgesOk(m, n, o)
  }

  ghost predicate EdgesOk(m: Mem, n: nat, o: int)
    requires o in m
  {
    (o == 0 || Congruent(n, o)) && Congruent(n, End(m, o))
  }

  /** x is the element of f next above o, or NIL if there is none. */
  ghost predicate Follows(f: set<int>, o: int, x: int) {
    if x == NIL then forall p :: p in f ==> p <= o
    else x in f && o < x && forall p :: p in f ==> p <= o || x <= p
  }

  /** The free list: blocks f linked from the head in strictly ascending order. */
  ghost predicate Listed(m: Mem, f: set<int>, head: int) {
    && f <= m.Keys
    && Follows(f, NIL, head)
    && (forall o {:trigger m[o].next} :: o in f ==> Follows(f, o, m[o].next))
  }

  ghost predicate WellFormed(m: Mem, n: nat, f: set<int>, head: int) {
    Tiled(m, n) && Aligned(m, n) && Listed(m, f, head)
  }

  ghost predicate NoneTouch(m: Mem, f: set<int>)
    requires f <= m.Keys
  {
    forall o {:trigger End(m, o)} :: o in f ==> End(m, o) !in f
  }

  ghost predicate FreeByte(m: Mem, f: set<int>, b: int)
    requires f <= m.Keys
  {
    exists o {:trigger End(m, o)} :: o in f && o <= b < End(m, o)
  }

  /** Nothing changes for the blocks that are not free. */
  ghost predicate SameLive(m: Mem, f: set<int>, m': Mem, f': set<int>) {
    && m'.Keys - f' == m.Keys - f
    && (forall o :: o in m && o !in f ==> o in m' && m'[o] == m[o])
  }

  ghost predicate SameFreeBytes(m: Mem, f: set<int>, m': Mem, f': set<int>)
    requires f <= m.Keys && f' <= m'.Keys
  {
    forall b :: FreeByte(m', f', b) <==> FreeByte(m, f, b)
  }

  // ----- how the operations rewrite headers

  /** Block a absorbs the block that it touches. */
  function Merge(m: Mem, a: int): Mem
    requires a in m && End(m, a) in m
  {
    var b := End(m, a);
    (m - {b})[a := Header(m[a].size + m[b].size, m[b].next)]
  }

  lemma MergeOrder(m: Mem, n: nat, a: int, o: int, p: int)
    requires Tiled(m, n) && a in m && End(m, a) in m
    requires o in Merge(m, a) && p in Merge(m, a) && o < p
    ensures End(Merge(m, a), o) <= p
  {
    var b := End(m, a);
    if o == a {
      assert End(m, a) <= p;
      assert End(m, b) <= p;
    } else {
      assert End(m, o) <= p;
    }
  }

  lemma MergeTiles(m: Mem, n: nat, a: int)
    requires Tiled(m, n) && Aligned(m, n) && a in m && End(m, a) in m
    ensures Tiled(Merge(m, a), n) && Aligned(Merge(m, a), n)
  {
    var b, m' := End(m, a), Merge(m, a);
    assert BlockOk(m, n, a) && BlockOk(m, n, b) && EdgesOk(m, n, b);
    forall o | o in m' ensures BlockOk(m', n, o) && EdgesOk(m', n, o) {
      assert BlockOk(m, n, o) && EdgesOk(m, n, o);
      assert o != a ==> End(m, o) != b;
    }
    forall o, p | o in m' && p in m' && o < p ensures End(m', o) <= p {
      MergeOrder(m, n, a, o, p);
    }
  }

  lemma MergeFree(m: Mem, n: nat, f: set<int>, a: int)
    requires Tiled(m, n) && f <= m.Keys && a in f && End(m, a) in f
    ensures f - {End(m, a)} <= Merge(m, a).Keys
    ensures SameFreeBytes(m, f, Merge(m, a), f - {End(m, a)})
  {
    var b, m', f' := End(m, a), Merge(m, a), f - {End(m, a)};
    assert forall o :: o in f' ==> o in m'.Keys;
    forall x ensures FreeByte(m', f', x) <==> FreeByte(m, f, x) {
      if FreeByte(m, f, x) {
        var o :| o in f && o <= x < End(m, o);
        var o' := if o == b then a else o;
        assert BlockOk(m, n, a) && BlockOk(m, n, b);
        assert o' in f' && o' <= x < End(m', o');
      }
      if FreeByte(m', f', x) {
        var o :| o in f' && o <= x < End(m', o);
        var o' := if o == a && x >= b then b else o;
        assert o' in f && o' <= x < End(m, o');
      }
    }
  }

  lemma MergeKeeps(m: Mem, n: nat, f: set<int>, head: int, a: int)
    requires WellFormed(m, n, f, head) && a in f && End(m, a) in f
    ensures m[a].next == End(m, a)
    ensures var m', f' := Merge(m, a), f - {End(m, a)};
      WellFormed(m', n, f', head) && SameLive(m, f, m', f') && SameFreeBytes(m, f, m', f')
  {
    var b, m', f' := End(m, a), Merge(m, a), f - {End(m, a)};
    MergeTiles(m, n, a);
    MergeFree(m, n, f, a);
    assert BlockOk(m, n, a) && Follows(f, a, m[a].next) && Follows(f, b, m[b].next);
    assert m[a].next in m && (a < m[a].next ==> End(m, a) <= m[a].next);
  }

  /** Only links differ: the same blocks, of the same sizes. */
  ghost predicate Relinked(m: Mem, m': Mem) {
    && (forall o :: o in m' <==> o in m)
    && (forall o :: o in m ==> m'[o].size == m[o].size)
  }

  lemma RelinkTiles(m: Mem, m': Mem, n: nat)
    requires Tiled(m, n) && Aligned(m, n) && Relinked(m, m')
    ensures Tiled(m', n) && Aligned(m', n)
  {
    forall o | o in m' ensures BlockOk(m', n, o) && EdgesOk(m', n, o) {
      assert End(m', o) == End(m, o);
    }
    forall o, p | o in m' && p in m' && o < p ensures End(m', o) <= p {
      assert End(m', o) == End(m, o);
    }
  }

  lemma RelinkFree(m: Mem, m': Mem, f: set<int>)
    requires Relinked(m, m') && f <= m.Keys
    ensures f <= m'.Keys && SameFreeBytes(m, f, m', f)
  {
    assert forall o :: o in f ==> o in m.Keys && o in m && o in m';
    assert forall o {:trigger End(m', o)} {:trigger End(m, o)} :: o in f ==> End(m', o) == End(m, o);
  }

  lemma FreeByteDrop(m: Mem, n: nat, f: set<int>, o: int, x: int)
    requires Tiled(m, n) && f <= m.Keys && o in f
    ensures FreeByte(m, f - {o}, x) <==> FreeByte(m, f, x) && !(o <= x < End(m, o))
  {
    if FreeByte(m, f, x) && !(o <= x < End(m, o)) {
      var p :| p in f && p <= x < End(m, p);
      assert p in f - {o};
    }
    if FreeByte(m, f - {o}, x) {
      var p :| p in f - {o} && p <= x < End(m, p);
      assert p in f;
    }
  }

  /** Block o is shortened and its last `total` bytes become a block of their own. */
  function Split(m: Mem, o: int, total: nat): Mem
    requires o in m && total <= m[o].size
  {
    m[o := Header(m[o].size - total, m[o].next)][End(m, o) - total := Header(total, NIL)]
  }

  lemma SplitKeeps(m: Mem, n: nat, f: set<int>, head: int, o: int, total: nat)
    requires WellFormed(m, n, f, head) && o in f && total % PTR_SIZE == 0
    requires NODE_SIZE <= total && total + NODE_SIZE <= m[o].size
    ensures var m', b := Split(m, o, total), End(m, o) - total;
      && WellFormed(m', n, f, head) && b !in m
      && m'.Keys - f == m.Keys - f + {b}
      && (forall p :: p in m && p !in f ==> m'[p] == m[p])
      && (forall x :: FreeByte(m', f, x) <==> FreeByte(m, f, x) && !(b <= x < b + total))
  {
    var m', b := Split(m, o, total), End(m, o) - total;
    assert b !in m;
    SplitTiles(m, n, o, total);
    assert Listed(m', f, head);
    assert forall p {:trigger End(m', p)} :: p in f ==> End(m', p) == if p == o then b else End(m, p);
    assert forall p {:trigger End(m, p)} :: p in f && p != o ==> End(m, p) <= o || End(m, o) <= p;
    forall x ensures FreeByte(m', f, x) <==> FreeByte(m, f, x) && !(b <= x < b + total) {
      if FreeByte(m, f, x) && !(b <= x < b + total) {
        var p :| p in f && p <= x < End(m, p);
        assert p <= x < End(m', p);
      }
      if FreeByte(m', f, x) {
        var p :| p in f && p <= x < End(m', p);
        assert p <= x < End(m, p);
      }
    }
  }

  lemma SplitTiles(m: Mem, n: nat, o: int, total: nat)
    requires Tiled(m, n) && Aligned(m, n) && o in m && total % PTR_SIZE == 0
    requires NODE_SIZE <= total && total + NODE_SIZE <= m[o].size
    ensures Tiled(Split(m, o, total), n) && Aligned(Split(m, o, total), n)
  {
    var m', b := Split(m, o, total), End(m, o) - total;
    assert b !in m && b > o && BlockOk(m, n, o);
    forall p | p in m'
      ensures End(m', p) == (if p == o then b else if p == b then End(m, o) else End(m, p)) && BlockOk(m', n, p)
    {
      assert BlockOk(m, n, if p == b then o else p);
    }
    forall p, q | p in m' && q in m' && p < q ensures End(m', p) <= q {
      if p == b {
        assert End(m, o) <= q;
      } else if p < o {
        assert End(m, p) <= o;
      } else if o < p {
        assert End(m, o) <= p;
      }
      assert p != b && q != b ==> End(m, p) <= q;
    }
    SplitAligned(m, n, o, total);
  }

  lemma SplitAligned(m: Mem, n: nat, o: int, total: nat)
    requires Aligned(m, n) && o in m && total % PTR_SIZE == 0 && total <= m[o].size
    ensures Aligned(Split(m, o, total), n)
  {
    var m', b := Split(m, o, total), End(m, o) - total;
    assert EdgesOk(m, n, o);
    assert Congruent(n, b);
    forall p | p in m' ensures EdgesOk(m', n, p) {
      if p != o && p != b {
        assert End(m', p) == End(m, p);
      }
    }
  }

  /** Unlinks o from the list; prev is the node that leads to it. */
  function Unlink(m: Mem, prev: int, o: int): Mem
    requires o in m && (prev == NIL || prev in m)
  {
    var m1 := if prev == NIL then m else m[prev := Header(m[prev].size, m[o].next)];
    m1[o := Header(m[o].size, NIL)]
  }

  /** Links block o into the list after prev. */
  function Link(m: Mem, prev: int, head: int, o: int): Mem
    requires o in m && (prev == NIL || (prev in m && prev != o))
  {
    var next := if prev == NIL then head else m[prev].next;
    var m1 := m[o := Header(m[o].size, next)];
    if prev == NIL then m1 else m1[prev := Header(m[prev].size, o)]
  }

  /** prev is the free node that leads to x: the one before it, or NIL for the head. */
  ghost predicate LeadsTo(m: Mem, f: set<int>, head: int, prev: int, x: int) {
    if prev == NIL then head == x else prev in f && prev in m && m[prev].next == x
  }

  lemma UnlinkLists(m: Mem, n: nat, f: set<int>, head: int, prev: int, o: int)
    requires WellFormed(m, n, f, head) && o in f && LeadsTo(m, f, head, prev, o)
    ensures Listed(Unlink(m, prev, o), f - {o}, if prev == NIL then m[o].next else head)
  {
    assert BlockOk(m, n, o) && Follows(f, o, m[o].next);
    assert prev != NIL ==> BlockOk(m, n, prev) && Follows(f, prev, o);
    var m', f' := Unlink(m, prev, o), f - {o};
    forall p | p in f' ensures Follows(f', p, m'[p].next) {
      assert BlockOk(m, n, p) && Follows(f, p, m[p].next);
    }
  }

  lemma UnlinkKeeps(m: Mem, n: nat, f: set<int>, head: int, prev: int, o: int)
    requires WellFormed(m, n, f, head) && o in f && LeadsTo(m, f, head, prev, o)
    ensures var m', f', head' := Unlink(m, prev, o), f - {o}, if prev == NIL then m[o].next else head;
      && WellFormed(m', n, f', head')
      && m'.Keys - f' == m.Keys - f + {o}
      && (forall p :: p in m && p !in f ==> m'[p] == m[p])
      && (forall x :: FreeByte(m', f', x) <==> FreeByte(m, f, x) && !(o <= x < End(m, o)))
  {
    var m', f' := Unlink(m, prev, o), f - {o};
    UnlinkLists(m, n, f, head, prev, o);
    RelinkTiles(m, m', n);
    RelinkFree(m, m', f');
    forall x ensures FreeByte(m', f', x) <==> FreeByte(m, f, x) && !(o <= x < End(m, o)) {
      FreeByteDrop(m, n, f, o, x);
    }
  }

  lemma LinkLists(m: Mem, n: nat, f: set<int>, head: int, prev: int, o: int)
    requires WellFormed(m, n, f, head) && o in m && o !in f
    requires prev != NIL ==> prev in f && prev < o
    requires var x := if prev == NIL then head else m[prev].next; x == NIL || o < x
    ensures Listed(Link(m, prev, head, o), f + {o}, if prev == NIL then o else head)
  {
    assert BlockOk(m, n, o);
    assert prev != NIL ==> Follows(f, prev, m[prev].next);
    assert forall p :: p in f ==> p >= 0 by {
      forall p | p in f ensures p >= 0 { assert BlockOk(m, n, p); }
    }
  }

  lemma LinkKeeps(m: Mem, n: nat, f: set<int>, head: int, prev: int, o: int)
    requires WellFormed(m, n, f, head) && o in m && o !in f
    requires prev != NIL ==> prev in f && prev < o
    requires var x := if prev == NIL then head else m[prev].next; x == NIL || o < x
    ensures var m', f', head' := Link(m, prev, head, o), f + {o}, if prev == NIL then o else head;
      && WellFormed(m', n, f', head')
      && m'.Keys - f' == m.Keys - f - {o}
      && (forall p :: p in m && p !in f' ==> m'[p] == m[p])
      && (forall x :: FreeByte(m', f', x) <==> FreeByte(m, f, x) || o <= x < End(m, o))
  {
    var m', f' := Link(m, prev, head, o), f + {o};
    LinkLists(m, n, f, head, prev, o);
    RelinkTiles(m, m', n);
    RelinkFree(m, m', f');
    assert f' - {o} == f;
    forall x ensures FreeByte(m', f', x) <==> FreeByte(m, f, x) || o <= x < End(m, o) {
      FreeByteDrop(m, n, f', o, x);
      if o <= x < End(m, o) {
        assert FreeByte(m, f', x);
      }
    }
  }

  // ----- what a well-formed heap means

  lemma {:induction false} BlockAt(m: Mem, n: nat, o: int, b: int) returns (p: int)
    requires Tiled(m, n) && o in m && o <= b < n
    ensures p in m && p <= b < End(m, p)
    decreases n - o
  {
    assert BlockOk(m, n, o);
    if b < End(m, o) {
      p := o;
    } else {
      p := BlockAt(m, n, End(m, o), b);
    }
  }

  /** Every byte of the buffer lies in exactly one block. */
  lemma TilesExactly(m: Mem, n: nat, b: int)
    requires Tiled(m, n) && 0 <= b < n
    ensures exists o {:trigger End(m, o)} :: o in m && o <= b < End(m, o)
    ensures forall o, p {:trigger End(m, o), End(m, p)} ::
      o in m && p in m && o <= b < End(m, o) && p <= b < End(m, p) ==> o == p
  {
    var o := BlockAt(m, n, 0, b);
  }

  /** A block's payload meets no header and no other payload, and is aligned when the buffer size is. */
  lemma PayloadsAreClear(m: Mem, n: nat, o: int, p: int)
    requires Tiled(m, n) && Aligned(m, n) && o in m && p in m
    ensures o != p ==> End(m, o) <= p || End(m, p) <= o
    ensures p + 16 <= o + 16 || End(m, o) <= p
    ensures 0 <= o + 16 <= End(m, o) <= n
    ensures o == 0 || n % 8 == 0 ==> (o + 16) % 8 == 0
  {
    assert BlockOk(m, n, o) && EdgesOk(m, n, o) && BlockOk(m, n, p);
    assert o < p ==> End(m, o) <= p;
    assert p < o ==> End(m, p) <= o;
  }

  /** The size computed has room for the request and its header exactly when the computation does
      not wrap around.  It is a multiple of the pointer size in any case. */
  lemma TotalSizeIff(request: uint32)
    ensures TotalSize(request) >= request + 16 <==> NoOverflow(request)
    ensures TotalSize(request) % 8 == 0
    ensures NoOverflow(request) ==> TotalSize(request) < request + 24
  {
    var aligned := AlignSize(request);
    assert aligned % PTR_SIZE == 0 && request <= aligned < request + PTR_SIZE;
    assert U32(aligned) == if aligned < TWO_32 then aligned else aligned - TWO_32;
  }

  /** Wrapped around, it has room for a header only if the request is within 7 bytes of the top. */
  lemma WrappedSizeIff(request: uint32)
    ensures TotalSize(request) >= 16 <==> NoOverflow(request) || request > TWO_32 - 8
    ensures !NoOverflow(request) && TotalSize(request) >= 16 ==> TotalSize(request) == 16
  {
    var aligned := AlignSize(request);
    assert aligned % PTR_SIZE == 0 && request <= aligned < request + PTR_SIZE;
    assert U32(aligned) == if aligned < TWO_32 then aligned else aligned - TWO_32;
  }

  /** A request just under 2^32 computes to 0 bytes: no header would fit. */
  lemma OverflowExample()
    ensures TotalSize(TWO_32 - 20) == 0
  {
    assert AlignSize(TWO_32 - 20) == TWO_32 - 16;
  }

  /** The bytes of blocks in sel, walking from block o to the end. */
  function BytesFrom(m: Mem, n: nat, sel: set<int>, o: int): nat
    requires Tiled(m, n) && (o in m || o == n)
    decreases n - o
  {
    if o == n then 0
    else
      assert BlockOk(m, n, o);
      (if o in sel then m[o].size else 0) + BytesFrom(m, n, sel, End(m, o))
  }

  lemma {:induction false} FreeAndLiveBytes(m: Mem, n: nat, f: set<int>, o: int)
    requires Tiled(m, n) && (o in m || o == n)
    ensures BytesFrom(m, n, f, o) + BytesFrom(m, n, m.Keys - f, o) == n - o
    decreases n - o
  {
    if o != n {
      assert BlockOk(m, n, o);
      FreeAndLiveBytes(m, n, f, End(m, o));
    }
  }

  lemma {:induction false} SkipOthers(m: Mem, n: nat, f: set<int>, o: int, x: int)
    requires Tiled(m, n) && (o in m || o == n) && (x in m || x == n) && o <= x
    requires forall p :: p in f && o <= p ==> x <= p
    ensures BytesFrom(m, n, f, o) == BytesFrom(m, n, f, x)
    decreases n - o
  {
    assert x in m ==> BlockOk(m, n, x);
    if o < x {
      assert BlockOk(m, n, o);
      assert x in m ==> End(m, o) <= x;
      SkipOthers(m, n, f, End(m, o), x);
    }
  }

  /** With every block free and none touching, one node spans the buffer. */
  lemma AllFreeIsOneNode(m: Mem, n: nat, f: set<int>, head: int)
    requires WellFormed(m, n, f, head) && m.Keys - f == {} && NoneTouch(m, f)
    ensures f == {0} && head == 0 && m[0].size == n
  {
    assert forall o :: o in m && o !in f ==> o in m.Keys - f;
    assert 0 in f && BlockOk(m, n, 0);
    assert End(m, 0) == n;
    forall p | p in f ensures p == 0 {
      assert BlockOk(m, n, p);
    }
    assert Follows(f, NIL, head);
  }

  /** A run of `total` free bytes anywhere, whatever nodes it is divided into. */
  ghost predicate FreeRun(m: Mem, f: set<int>, total: nat)
    requires f <= m.Keys
  {
    exists a: int :: RunAt(m, f, a, total)
  }

  ghost predicate RunAt(m: Mem, f: set<int>, a: int, total: nat)
    requires f <= m.Keys
  {
    forall b :: a <= b < a + total ==> FreeByte(m, f, b)
  }

  /** In a maximally merged list, some node fits exactly when some run of free bytes does. */
  lemma FitsIffFreeRun(m: Mem, n: nat, f: set<int>, head: int, total: nat)
    requires WellFormed(m, n, f, head) && NoneTouch(m, f) && total > 0
    ensures (exists o :: o in f && m[o].size >= total) <==> FreeRun(m, f, total)
  {
    if o :| o in f && m[o].size >= total {
      forall b | o <= b < o + total ensures FreeByte(m, f, b) {
        assert o <= b < End(m, o);
      }
      assert RunAt(m, f, o, total);
    }
    if a: int :| RunAt(m, f, a, total) {
      RunFitsOneNode(m, n, f, a, total);
    }
  }

  lemma EndIsNotFree(m: Mem, n: nat, f: set<int>, o: int)
    requires Tiled(m, n) && f <= m.Keys && NoneTouch(m, f) && o in f
    ensures !FreeByte(m, f, End(m, o))
  {
    assert BlockOk(m, n, o);
    forall p | p in f ensures !(p <= End(m, o) < End(m, p)) {
      assert o < p ==> End(m, o) <= p;
      assert p < o ==> End(m, p) <= o;
    }
  }

  lemma RunFitsOneNode(m: Mem, n: nat, f: set<int>, a: int, total: nat)
    requires Tiled(m, n) && f <= m.Keys && NoneTouch(m, f) && total > 0 && RunAt(m, f, a, total)
    ensures exists o :: o in f && m[o].size >= total
  {
    assert FreeByte(m, f, a);
    var o :| o in f && o <= a < End(m, o);
    EndIsNotFree(m, n, f, o);
    assert m[o].size >= total;
  }

  lemma SplitNoneTouch(m: Mem, n: nat, f: set<int>, o: int, total: nat)
    requires Tiled(m, n) && f <= m.Keys && o in f && NODE_SIZE <= total && total + NODE_SIZE <= m[o].size
    ensures f <= Split(m, o, total).Keys
    ensures NoneTouch(m, f) ==> NoneTouch(Split(m, o, total), f)
  {
    var m', b := Split(m, o, total), End(m, o) - total;
    assert b !in m;
    forall p | p in f ensures NoneTouch(m, f) ==> End(m', p) !in f {
      assert End(m', p) == if p == o then b else End(m, p);
    }
  }

  lemma UnlinkNoneTouch(m: Mem, n: nat, f: set<int>, prev: int, o: int)
    requires Tiled(m, n) && f <= m.Keys && o in f && (prev == NIL || prev in m)
    ensures f - {o} <= Unlink(m, prev, o).Keys
    ensures NoneTouch(m, f) ==> NoneTouch(Unlink(m, prev, o), f - {o})
  {
    forall p | p in f - {o} ensures NoneTouch(m, f) ==> End(Unlink(m, prev, o), p) !in f - {o} {
      assert End(Unlink(m, prev, o), p) == End(m, p);
    }
  }

  // ----- which free nodes can touch the next one while a block is being freed

  ghost predicate TouchOnlyAt(m: Mem, f: set<int>, s: set<int>)
    requires f <= m.Keys
  {
    forall p {:trigger End(m, p)} :: p in f && End(m, p) in f ==> p in s
  }

  lemma LinkTouch(m: Mem, n: nat, f: set<int>, head: int, prev: int, o: int)
    requires WellFormed(m, n, f, head) && NoneTouch(m, f) && o in m && o !in f
    requires if prev == NIL then (forall p :: p in f ==> o < p) else prev in f && prev < o
    requires forall p :: p in f ==> p <= prev || o < p
    ensures f + {o} <= Link(m, prev, head, o).Keys
    ensures TouchOnlyAt(Link(m, prev, head, o), f + {o}, if prev in f && End(m, prev) == o then {prev, o} else {o})
  {
    var m', f' := Link(m, prev, head, o), f + {o};
    forall p | p in f' && p != o && p != prev ensures End(m', p) !in f' {
      assert End(m', p) == End(m, p);
      assert prev in f && p < prev ==> End(m, p) <= prev;
      assert o < p ==> End(m, p) != o by { assert BlockOk(m, n, p); }
    }
    if prev in f {
      assert End(m', prev) == End(m, prev);
    }
  }

  lemma MergeTouch(m: Mem, f: set<int>, a: int, s: set<int>)
    requires f <= m.Keys && a in f && End(m, a) in f && End(m, a) != a && TouchOnlyAt(m, f, s)
    ensures var b := End(m, a);
      && f - {b} <= Merge(m, a).Keys
      && TouchOnlyAt(Merge(m, a), f - {b}, s - {a, b} + if b in s then {a} else {})
  {
    var b, m' := End(m, a), Merge(m, a);
    forall p | p in f - {b} && End(m', p) in f - {b} ensures p in s - {a, b} + if b in s then {a} else {} {
      if p == a {
        assert End(m', a) == End(m, b);
      } else {
        assert End(m', p) == End(m, p);
      }
    }
  }

  /** The lowest-address node that fits. */
  ghost predicate FirstFit(m: Mem, f: set<int>, o: int, total: nat)
    requires f <= m.Keys
  {
    o in f && m[o].size >= total && forall p :: p in f && p < o ==> m[p].size < total
  }

  /** After a failed call in lazy mode, the same request succeeds exactly when some run of free
      bytes was long enough all along. */
  lemma RepeatedCallSucceedsIff(m: Mem, f: set<int>, m': Mem, n: nat, f': set<int>, head: int, total: nat)
    requires f <= m.Keys && WellFormed(m', n, f', head) && NoneTouch(m', f')
    requires SameFreeBytes(m, f, m', f') && total > 0
    ensures !NoneFits(m', f', total) <==> FreeRun(m, f, total)
  {
    FitsIffFreeRun(m', n, f', head, total);
    assert forall a: int :: RunAt(m', f', a, total) <==> RunAt(m, f, a, total);
  }

  /** Every live block can be handed back but one: an empty payload at the end of the buffer. */
  lemma RefusedIffEmptyAtEnd(m: Mem, n: nat, o: int)
    requires Tiled(m, n) && o in m
    ensures !(0 <= o + NODE_SIZE < n) <==> m[o].size == NODE_SIZE && End(m, o) == n
  {
    assert BlockOk(m, n, o);
  }

  /** Block o has become free, and nothing else. */
  ghost predicate Freed(m: Mem, f: set<int>, o: int, m': Mem, f': set<int>)
    requires f <= m.Keys && f' <= m'.Keys && o in m
  {
    && m'.Keys - f' == m.Keys - f - {o}
    && (forall p :: p in m && p !in f && p != o ==> p in m' && m'[p] == m[p])
    && (forall b :: FreeByte(m', f', b) <==> FreeByte(m, f, b) || o <= b < End(m, o))
  }

  ghost predicate NoneFits(m: Mem, f: set<int>, total: nat)
    requires f <= m.Keys
  {
    forall o :: o in f ==> m[o].size < total
  }

  /** Node o yields block b: its tail if the rest is worth keeping, else all of it. */
  ghost predicate Granted(m: Mem, f: set<int>, o: int, total: nat, b: int, m': Mem, f': set<int>)
    requires o in m
  {
    if m[o].size - total >= NODE_SIZE + SMALLEST_BLOCK then
      b == End(m, o) - total && m' == Split(m, o, total) && f' == f
    else
      && b == o && f' == f - {o} && Relinked(m, m') && m'[o].next == NIL
      && forall p :: p in m && p !in f ==> m'[p] == m[p]
  }

  ghost predicate Served(m: Mem, f: set<int>, total: nat, b: int, m': Mem, f': set<int>)
    requires f <= m.Keys
  {
    exists o :: FirstFit(m, f, o, total) && Granted(m, f, o, total, b, m', f')
  }

  /** The same in bytes: of the lowest-address node o that fits, the tail is granted, exactly the
      total, if 32 bytes or more are left, which stay on the list; else all of it. */
  ghost predicate ServedInBytes(m: Mem, f: set<int>, total: nat, b: int, m': Mem, f': set<int>)
    requires f <= m.Keys
  {
    exists o :: o in f && m[o].size >= total && (forall p :: p in f && p < o ==> m[p].size < total)
      && b in m'
      && if m[o].size >= total + 32
         then b == o + m[o].size - total && m'[b].size == total && f' == f && o in m' && m'[o].size == m[o].size - total
         else b == o && m'[b].size == m[o].size && f' == f - {o}
  }

  lemma ServedMeansBytes(m: Mem, f: set<int>, total: nat, b: int, m': Mem, f': set<int>)
    requires f <= m.Keys && Served(m, f, total, b, m', f') && total > 0
    ensures ServedInBytes(m, f, total, b, m', f')
    ensures b in m' && total <= m'[b].size < total + 32
  {
    var o :| FirstFit(m, f, o, total) && Granted(m, f, o, total, b, m', f');
    assert o in f && m[o].size >= total;
  }

  // ----- the allocator

  class Allocator {
    const size: nat
    const eager: bool        // mDoCoalesceOnFree
    var freeList: int
    var mem: Mem
    ghost var free: set<int>            // the nodes on the free list
    ghost var live: map<int, uint32>    // allocated blocks, with the size requested

    ghost predicate Valid()
      reads this
    {
      && NODE_SIZE <= size < TWO_31
      && WellFormed(mem, size, free, freeList)
      && live.Keys == mem.Keys - free
      && (forall o :: o in live ==> o in mem && HasRoom(live[o], mem[o].size))
      && (eager ==> NoneTouch(mem, free))
    }

    constructor (size: nat, eager: bool)
      requires NODE_SIZE <= size < TWO_31
      ensures Valid() && live == map[] && free == {0} && mem == map[0 := Header(size, NIL)]
      ensures this.size == size && this.eager == eager
    {
      this.size, this.eager := size, eager;
      mem, freeList := map[0 := Header(size, NIL)], 0;
      free, live := {0}, map[];
    }

    method JoinFreeNodes() returns (count: int)
      requires Valid()
      modifies this`mem, this`free
      ensures Valid() && NoneTouch(mem, free)
      ensures SameLive(old(mem), old(free), mem, free) && SameFreeBytes(old(mem), old(free), mem, free)
      ensures 0 <= count == old(|free|) - |free| && free <= old(free)
      ensures NoneTouch(old(mem), old(free)) ==> mem == old(mem) && free == old(free)
    {
      if freeList == NIL {
        return 0;
      }
      var n := freeList;
      count := 0;
      while n != NIL && mem[n].next != NIL
        invariant WellFormed(mem, size, free, freeList) && n in free
        invariant forall o {:trigger End(mem, o)} :: o in free && o < n ==> End(mem, o) !in free
        invariant SameLive(old(mem), old(free), mem, free) && SameFreeBytes(old(mem), old(free), mem, free)
        invariant 0 <= count == old(|free|) - |free| && free <= old(free)
        invariant NoneTouch(old(mem), old(free)) ==> mem == old(mem) && free == old(free)
        decreases |free|, size - n
      {
        var next := mem[n].next;
        if next - n == mem[n].size {
          assert Follows(free, n, next);
          MergeKeeps(mem, size, free, freeList, n);
          ghost var m0 := mem;
          mem := Merge(mem, n);
          free := free - {next};
          assert forall o {:trigger End(mem, o)} :: o in free && o < n ==> End(mem, o) == End(m0, o);
          count := count + 1;
        } else {
          assert Follows(free, n, next) && BlockOk(mem, size, n);
          assert End(mem, n) <= next;
          n := next;
        }
      }
    }

    /** First fit, of any request whose computed size holds a header; the block has room for the
        request if that size did not wrap.  A failure in lazy mode leaves the list merged but does not look again: the
        retry re-enters the search with n already at the end. */
    method Alloc(request: uint32) returns (buf: int)
      requires Valid() && TotalSize(request) >= NODE_SIZE
      modifies this
      ensures Valid()
      ensures buf == NIL <==> NoneFits(old(mem), old(free), TotalSize(request))
      ensures buf == NIL ==> live == old(live) && freeList == old(freeList)
      ensures buf == NIL && eager ==> mem == old(mem) && free == old(free)
      ensures buf == NIL && !eager ==>
        && NoneTouch(mem, free)
        && SameLive(old(mem), old(free), mem, free) && SameFreeBytes(old(mem), old(free), mem, free)
      ensures buf != NIL ==> live == old(live)[buf - NODE_SIZE := request] && buf - NODE_SIZE !in old(live)
      ensures buf != NIL ==> Served(old(mem), old(free), TotalSize(request), buf - NODE_SIZE, mem, free)
      ensures buf != NIL ==> ServedInBytes(old(mem), old(free), TotalSize(request), buf - 16, mem, free)
      ensures buf != NIL ==>
        buf - 16 in mem && TotalSize(request) <= mem[buf - 16].size < TotalSize(request) + 32
    {
      hide NoneTouch, SameLive, SameFreeBytes, LeadsTo, Served;
      var total := TotalSize(request);
      TotalSizeIff(request);
      var n, prev := Search(freeList, NIL, total);
      if n == NIL {
        n, prev := Retry(prev, total);
      }
      if n == NIL {
        return NIL;
      }
      assert !NoneFits(old(mem), old(free), total);
      var b := TakeNode(n, prev, total, request);
      buf := b + NODE_SIZE;
      ServedMeansBytes(old(mem), old(free), total, b, mem, free);
    }

    /** What follows a search that reached the end: in lazy mode the nodes are joined and the
        search re-entered, n still at the end, until nothing is left to join. */
    method Retry(before: int, total: nat) returns (n: int, prev: int)
      requires Valid()
      modifies this`mem, this`free
      ensures Valid() && n == NIL
      ensures if eager then mem == old(mem) && free == old(free) else
        && NoneTouch(mem, free)
        && SameLive(old(mem), old(free), mem, free) && SameFreeBytes(old(mem), old(free), mem, free)
    {
      n, prev := NIL, before;
      while n == NIL && !eager
        invariant Valid() && n == NIL && (eager ==> mem == old(mem) && free == old(free))
        invariant SameLive(old(mem), old(free), mem, free) && SameFreeBytes(old(mem), old(free), mem, free)
        decreases |free|
      {
        var joined := JoinFreeNodes();
        if joined == 0 {
          break;
        }
        n, prev := Search(n, prev, total);
      }
    }

    /** The search loop, from n on; it goes nowhere from the end of the list. */
    method Search(start: int, before: int, total: nat) returns (n: int, prev: int)
      requires Valid()
      requires start == NIL || (start == freeList && before == NIL)
      ensures start == NIL ==> n == NIL
      ensures start == freeList && n == NIL ==> NoneFits(mem, free, total)
      ensures n != NIL ==> FirstFit(mem, free, n, total) && LeadsTo(mem, free, freeList, prev, n)
    {
      n, prev := start, before;
      forall o | o in free ensures freeList != NIL && freeList <= o {
        assert BlockOk(mem, size, o) && Follows(free, NIL, freeList);
      }
      while n != NIL && mem[n].size < total
        invariant start == NIL ==> n == NIL
        invariant n != NIL ==> n in free && LeadsTo(mem, free, freeList, prev, n)
        invariant start == freeList ==> forall o :: o in free && (n == NIL || o < n) ==> mem[o].size < total
        decreases if n == NIL then 0 else size - n
      {
        assert Follows(free, n, mem[n].next) && BlockOk(mem, size, n);
        prev := n;
        n := mem[n].next;
        assert n != NIL ==> BlockOk(mem, size, n);
      }
    }

    /** The second half of alloc: the node found is split if what remains can hold a block. */
    method TakeNode(n: int, prev: int, total: nat, ghost request: uint32) returns (b: int)
      requires Valid() && FirstFit(mem, free, n, total) && LeadsTo(mem, free, freeList, prev, n)
      requires NODE_SIZE <= total && HasRoom(request, total) && total % PTR_SIZE == 0
      modifies this
      ensures Valid() && live == old(live)[b := request] && b !in old(live) && 0 <= b
      ensures Served(old(mem), old(free), total, b, mem, free)
      ensures ServedInBytes(old(mem), old(free), total, b, mem, free)
    {
      if mem[n].size - total >= NODE_SIZE + SMALLEST_BLOCK {
        b := SplitNode(n, total, request);
      } else {
        b := WholeNode(n, prev, total, request);
      }
      ServedMeansBytes(old(mem), old(free), total, b, mem, free);
    }

    method SplitNode(o: int, total: nat, ghost request: uint32) returns (b: int)
      requires Valid() && o in free && total % PTR_SIZE == 0
      requires NODE_SIZE <= total && HasRoom(request, total) && mem[o].size - total >= NODE_SIZE + SMALLEST_BLOCK
      modifies this`mem, this`live
      ensures Valid() && live == old(live)[b := request] && b !in old(live) && 0 <= b
      ensures Granted(old(mem), old(free), o, total, b, mem, free)
    {
      assert BlockOk(mem, size, o);
      SplitKeeps(mem, size, free, freeList, o, total);
      SplitNoneTouch(mem, size, free, o, total);
      mem := mem[o := Header(mem[o].size - total, mem[o].next)];
      b := o + mem[o].size;
      mem := mem[b := Header(total, NIL)];
      assert mem == Split(old(mem), o, total);
      live := live[b := request];
    }

    method WholeNode(o: int, prev: int, total: nat, ghost request: uint32) returns (b: int)
      requires Valid() && o in free && LeadsTo(mem, free, freeList, prev, o)
      requires NODE_SIZE <= total <= mem[o].size < total + NODE_SIZE + SMALLEST_BLOCK && HasRoom(request, total)
      modifies this
      ensures Valid() && live == old(live)[b := request] && b !in old(live) && 0 <= b
      ensures Granted(old(mem), old(free), o, total, b, mem, free)
    {
      assert BlockOk(mem, size, o);
      UnlinkKeeps(mem, size, free, freeList, prev, o);
      UnlinkNoneTouch(mem, size, free, prev, o);
      var next := mem[o].next;
      if prev != NIL {
        mem := mem[prev := Header(mem[prev].size, next)];
      } else {
        freeList := next;
      }
      mem := mem[o := Header(mem[o].size, NIL)];
      assert mem == Unlink(old(mem), prev, o);
      free := free - {o};
      live := live[o := request];
      b := o;
    }

    /** Frees a block; an address outside the buffer is refused. */
    method Free(buf: int)
      requires Valid()
      requires 0 <= buf < size ==> buf - NODE_SIZE in live
      modifies this
      ensures Valid()
      ensures !(0 <= buf < size) ==>
        mem == old(mem) && free == old(free) && freeList == old(freeList) && live == old(live)
      ensures 0 <= buf < size ==> Freed(old(mem), old(free), buf - NODE_SIZE, mem, free)
      ensures 0 <= buf < size ==> live == old(live) - {buf - NODE_SIZE}
      ensures 0 <= buf < size && !eager ==> Relinked(old(mem), mem) && free == old(free) + {buf - NODE_SIZE}
    {
      if buf == NIL {
        return;
      }
      if buf < 0 || buf >= size {
        return;
      }
      var node := buf - NODE_SIZE;
      var cur := LinkIn(node);
      if eager && mem[cur].next != NIL && mem[cur].next - cur == mem[cur].size {
        assert Follows(free, cur, mem[cur].next) && BlockOk(mem, size, cur);
        MergeKeeps(mem, size, free, freeList, cur);
        MergeTouch(mem, free, cur, {cur});
        ghost var next := mem[cur].next;
        mem := Merge(mem, cur);
        free := free - {next};
      } else if eager {
        assert Follows(free, cur, mem[cur].next) && BlockOk(mem, size, cur);
      }
    }

    /** The last free node before o. */
    method FindPlace(o: int) returns (prev: int)
      requires Valid()
      ensures if prev == NIL then freeList == NIL || o <= freeList else prev in free && prev < o
      ensures prev != NIL ==> mem[prev].next == NIL || o <= mem[prev].next
      ensures forall p :: p in free ==> p <= prev || o <= p
    {
      var n := freeList;
      prev := NIL;
      forall p | p in free ensures freeList != NIL && freeList <= p {
        assert BlockOk(mem, size, p) && Follows(free, NIL, freeList);
      }
      while n != NIL && n < o
        invariant n != NIL ==> n in free
        invariant LeadsTo(mem, free, freeList, prev, n)
        invariant prev != NIL ==> prev < o
        invariant forall p :: p in free ==> if n == NIL then p <= prev else p <= prev || n <= p
        decreases if n == NIL then 0 else size - n
      {
        assert Follows(free, n, mem[n].next) && BlockOk(mem, size, n);
        prev := n;
        n := mem[n].next;
        assert n != NIL ==> BlockOk(mem, size, n);
      }
    }

    /** The first half of free: the block joins the list, or in eager mode the node before it
        when they touch.  Yields the node that now holds the block. */
    method LinkIn(o: int) returns (cur: int)
      requires Valid() && o in live
      modifies this
      ensures WellFormed(mem, size, free, freeList) && cur in free && live == old(live) - {o}
      ensures live.Keys == mem.Keys - free && (forall p :: p in live ==> p in mem && HasRoom(live[p], mem[p].size))
      ensures eager ==> TouchOnlyAt(mem, free, {cur})
      ensures !eager ==> Relinked(old(mem), mem) && free == old(free) + {o}
      ensures Freed(old(mem), old(free), o, mem, free)
    {
      var prev := FindPlace(o);
      assert o !in free;
      assert prev == NIL ==> forall p :: p in free ==> o < p by {
        forall p | p in free ensures prev == NIL ==> o < p { assert BlockOk(mem, size, p); }
      }
      if eager && prev != NIL && prev + mem[prev].size == o {
        MergeIntoPrev(prev, o);
        cur := prev;
      } else {
        if eager {
          LinkTouch(mem, size, free, freeList, prev, o);
        }
        LinkAfter(prev, o);
        cur := o;
      }
      live := live - {o};
    }

    /** The node before the block takes it in; the list is as if the block had been linked first. */
    method MergeIntoPrev(prev: int, o: int)
      requires WellFormed(mem, size, free, freeList) && NoneTouch(mem, free) && o in mem && o !in free
      requires prev in free && prev < o && End(mem, prev) == o
      requires mem[prev].next == NIL || o < mem[prev].next
      modifies this`mem
      ensures WellFormed(mem, size, free, freeList)
      ensures Freed(old(mem), free, o, mem, free) && TouchOnlyAt(mem, free, {prev})
    {
      LinkKeeps(mem, size, free, freeList, prev, o);
      assert Follows(free, prev, mem[prev].next) && BlockOk(mem, size, prev);
      LinkTouch(mem, size, free, freeList, prev, o);
      ghost var m, f := Link(mem, prev, freeList, o), free + {o};
      assert End(m, prev) == o;
      MergeKeeps(m, size, f, freeList, prev);
      MergeTouch(m, f, prev, {prev, o});
      mem := (mem - {o})[prev := Header(mem[prev].size + mem[o].size, mem[prev].next)];
      assert mem == Merge(m, prev) && free == f - {o};
    }

    method LinkAfter(prev: int, o: int)
      requires WellFormed(mem, size, free, freeList) && o in mem && o !in free
      requires prev != NIL ==> prev in free && prev < o
      requires var x := if prev == NIL then freeList else mem[prev].next; x == NIL || o < x
      modifies this`mem, this`freeList, this`free
      ensures WellFormed(mem, size, free, freeList)
      ensures mem == Link(old(mem), prev, old(freeList), o) && free == old(free) + {o}
      ensures Freed(old(mem), old(free), o, mem, free) && Relinked(old(mem), mem)
    {
      LinkKeeps(mem, size, free, freeList, prev, o);
      ghost var m := Link(mem, prev, freeList, o);
      if prev != NIL {
        mem := mem[o := Header(mem[o].size, mem[prev].next)];
        mem := mem[prev := Header(mem[prev].size, o)];
      } else {
        mem := mem[o := Header(mem[o].size, freeList)];
        freeList := o;
      }
      assert mem == m;
      free := free + {o};
    }

    /** The bytes on the free list, which is joined first unless it always is. */
    method GetFreeSpace() returns (bytes: nat)
      requires Valid()
      modifies this`mem, this`free
      ensures Valid() && NoneTouch(mem, free)
      ensures SameLive(old(mem), old(free), mem, free) && SameFreeBytes(old(mem), old(free), mem, free)
      ensures bytes == size - BytesFrom(mem, size, live.Keys, 0)
      ensures live == map[] ==> bytes == size && free == {0} && freeList == 0 && mem[0].size == size
    {
      var n := freeList;
      bytes := 0;
      if !eager {
        var _ := JoinFreeNodes();
      }
      forall p | p in free ensures freeList != NIL && freeList <= p {
        assert BlockOk(mem, size, p) && Follows(free, NIL, freeList);
      }
      SkipOthers(mem, size, free, 0, if n == NIL then size else n);
      ghost var m, f := mem, free;
      while n != NIL
        invariant Valid() && mem == m && free == f
        invariant n != NIL ==> n in free
        invariant bytes + BytesFrom(mem, size, free, if n == NIL then size else n) == BytesFrom(mem, size, free, 0)
        decreases if n == NIL then 0 else size - n
      {
        assert Follows(free, n, mem[n].next) && BlockOk(mem, size, n);
        bytes := bytes + mem[n].size;
        ghost var o := n;
        n := mem[n].next;
        assert n != NIL ==> End(mem, o) <= n;
        SkipOthers(mem, size, free, End(mem, o), if n == NIL then size else n);
      }
      FreeAndLiveBytes(mem, size, free, 0);
      if live == map[] {
        AllFreeIsOneNode(mem, size, free, freeList);
      }
    }
  }

  /** An empty block is served from the end of the buffer, and handing it back has no effect. */
  method RefusalIsReached(eager: bool) returns (a: Allocator, buf: int)
    ensures fresh(a) && a.Valid() && buf == 64 && a.live == map[48 := 0] && a.free == {0}
  {
    a := new Allocator(64, eager);
    buf := a.Alloc(0);
    a.Free(buf);
  }

  /** The largest request of all is granted a header and not one byte behind it. */
  method OverflowIsServed(eager: bool) returns (a: Allocator, buf: int)
    ensures fresh(a) && a.Valid() && buf == 64 && a.live == map[48 := TWO_32 - 1]
    ensures 48 in a.mem && a.mem[48].size == NODE_SIZE
  {
    WrappedSizeIff(TWO_32 - 1);
    a := new Allocator(64, eager);
    buf := a.Alloc(TWO_32 - 1);
  }

  /** 32 bytes left over are worth a node: of 64, a request for 16 leaves room for another. */
  method SplitIsReached(eager: bool) returns (a: Allocator, first: int, second: int)
    ensures fresh(a) && a.Valid() && first == 48 && second == 16
  {
    hide WellFormed, Served, Granted, NoneTouch, SameLive, SameFreeBytes;
    a := new Allocator(64, eager);
    first := a.Alloc(16);
    assert a.free == {0} && a.mem[0].size == 32;
    second := a.Alloc(16);
  }
}
