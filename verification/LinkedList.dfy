/** The sentinel-bounded doubly linked list of include/jh_list.h, refining a sequence.

    An iterator is the node it stands on; its position in the chain is passed as a ghost. */
module LinkedLists {

  class Node<T> {
    var val: T
    var next: Node?<T>
    var prev: Node?<T>

    constructor (v: T)
      ensures val == v && next == null && prev == null
    {
      val, next, prev := v, null, null;
    }
  }

  class List<T(0)> {
    const head: Node<T>
    const tail: Node<T>
    ghost var nodes: seq<Node<T>>  // the chain, both sentinels included
    ghost var contents: seq<T>
    ghost var repr: set<Node<T>>  // every node this list has owned

    ghost predicate Valid()
      reads this, repr
    {
      && (forall i :: 0 <= i < |nodes| ==> nodes[i] in repr)
      && Chained(nodes)
      && nodes[0] == head && nodes[|nodes| - 1] == tail
      && |contents| == |nodes| - 2
      && (forall i :: 0 <= i < |contents| ==> contents[i] == nodes[i + 1].val)
    }

    /** Distinct nodes, each linked to its neighbours and to nothing else. */
    static ghost predicate Chained(ns: seq<Node<T>>)
      reads ns
    {
      && |ns| >= 2
      && (forall i, j :: 0 <= i < j < |ns| ==> ns[i] != ns[j])
      && (forall i {:trigger ns[i].next} :: 0 <= i < |ns| - 1 ==> ns[i].next == ns[i + 1])
      && (forall i {:trigger ns[i].prev} :: 1 <= i < |ns| ==> ns[i].prev == ns[i - 1])
      && ns[0].prev == null && ns[|ns| - 1].next == null
    }

    constructor (filler: T)
      ensures Valid() && contents == [] && fresh(repr)
    {
      var h := new Node<T>(filler);
      var t := new Node<T>(filler);
      head, tail := h, t;
      nodes, contents, repr := [h, t], [], {h, t};
      new;
      h.next := t;
      t.prev := h;
    }

    /** The position of a node of the chain. */
    ghost predicate At(it: Node<T>, i: nat)
      reads this
    {
      i < |nodes| && nodes[i] == it
    }

    /** The new node n being linked in after position i, it becomes part of the chain. */
    ghost method Adopt(i: nat, n: Node<T>)
      requires |nodes| >= 2 && i < |nodes| - 1 && |contents| == |nodes| - 2
      requires n !in nodes && nodes[0] == head && nodes[|nodes| - 1] == tail
      requires forall j :: 0 <= j < |nodes| ==> nodes[j] in repr
      requires forall j, k :: 0 <= j < k < |nodes| ==> nodes[j] != nodes[k]
      requires forall j {:trigger nodes[j].next} :: 0 <= j < |nodes| - 1 ==>
        nodes[j].next == if j == i then n else nodes[j + 1]
      requires forall j {:trigger nodes[j].prev} :: 1 <= j < |nodes| ==>
        nodes[j].prev == if j == i + 1 then n else nodes[j - 1]
      requires n.prev == nodes[i] && n.next == nodes[i + 1]
      requires nodes[0].prev == null && nodes[|nodes| - 1].next == null
      requires forall j :: 0 <= j < |contents| ==> contents[j] == nodes[j + 1].val
      modifies this
      ensures Valid() && contents == old(contents)[..i] + [n.val] + old(contents)[i..]
      ensures repr == old(repr) + {n}
    {
      nodes := nodes[..i + 1] + [n] + nodes[i + 1..];
      contents := contents[..i] + [n.val] + contents[i..];
      repr := repr + {n};
    }

    method Empty() returns (b: bool)
      requires Valid()
      ensures b == (contents == [])
    {
      b := head.next == tail;
    }

    method Begin() returns (it: Node<T>)
      requires Valid()
      ensures At(it, 1)
    {
      it := head.next;
    }

    method InsertAfter(it: Node<T>, v: T, ghost i: nat)
      requires Valid() && At(it, i) && i < |nodes| - 1
      modifies this, repr
      ensures Valid()
      ensures contents == old(contents)[..i] + [v] + old(contents)[i..]
      ensures fresh(repr - old(repr))
    {
      var n := new Node<T>(v);
      n.prev := it;
      n.next := it.next;
      it.next.prev := n;
      it.next := n;
      Adopt(i, n);
    }

    method InsertBefore(it: Node<T>, v: T, ghost i: nat)
      requires Valid() && At(it, i) && 1 <= i
      modifies this, repr
      ensures Valid()
      ensures contents == old(contents)[..i - 1] + [v] + old(contents)[i - 1..]
      ensures fresh(repr - old(repr))
    {
      InsertAfter(it.prev, v, i - 1);
    }

    /** Unlinks the node and yields its successor; a sentinel is left alone. */
    method Erase(it: Node<T>, ghost i: nat) returns (r: Node<T>)
      requires Valid() && At(it, i)
      modifies this, repr
      ensures Valid()
      ensures repr == old(repr) && At(r, i)
      ensures contents == if 0 < i < |old(nodes)| - 1
                          then old(contents)[..i - 1] + old(contents)[i..] else old(contents)
    {
      if it.next == null || it.prev == null {
        return it;
      }
      var prev, next := it.prev, it.next;
      prev.next := next;
      next.prev := prev;
      nodes := nodes[..i] + nodes[i + 1..];
      contents := contents[..i - 1] + contents[i..];
      r := next;
    }

    /** operator++ on an iterator that is not at the end. */
    function Advance(it: Node<T>, ghost i: nat): (r: Node<T>)
      requires Valid() && At(it, i) && i < |nodes| - 1
      reads this, repr
      ensures At(r, i + 1)
    {
      it.next
    }

    /** operator-- on an iterator that is not at the head sentinel. */
    function Retreat(it: Node<T>, ghost i: nat): (r: Node<T>)
      requires Valid() && At(it, i) && 0 < i
      reads this, repr
      ensures At(r, i - 1)
    {
      it.prev
    }

    /** Of an empty list, what the tail sentinel holds. */
    method Front() returns (v: T)
      requires Valid()
      ensures v == if contents == [] then tail.val else contents[0]
    {
      v := head.next.val;
    }

    /** Of an empty list, what the head sentinel holds. */
    method Back() returns (v: T)
      requires Valid()
      ensures v == if contents == [] then head.val else contents[|contents| - 1]
    {
      v := tail.prev.val;
    }

    method PushFront(v: T)
      requires Valid()
      modifies this, repr
      ensures Valid() && contents == [v] + old(contents)
      ensures fresh(repr - old(repr))
    {
      var n := new Node<T>(v);
      n.next := head.next;
      n.prev := head;
      head.next.prev := n;
      head.next := n;
      Adopt(0, n);
    }

    method PushBack(v: T)
      requires Valid()
      modifies this, repr
      ensures Valid() && contents == old(contents) + [v]
      ensures fresh(repr - old(repr))
    {
      var n := new Node<T>(v);
      n.prev := tail.prev;
      n.next := tail;
      tail.prev.next := n;
      tail.prev := n;
      Adopt(|contents|, n);
    }

    method PopFront()
      requires Valid()
      modifies this, repr
      ensures Valid()
      ensures contents == if old(contents) == [] then [] else old(contents)[1..]
      ensures repr == old(repr)
    {
      if head.next == tail {
        return;
      }
      var temp := head.next;
      head.next := temp.next;
      head.next.prev := head;
      nodes := nodes[..1] + nodes[2..];
      contents := contents[1..];
    }

    method PopBack()
      requires Valid()
      modifies this, repr
      ensures Valid()
      ensures contents == if old(contents) == [] then [] else old(contents)[..|old(contents)| - 1]
      ensures repr == old(repr)
    {
      if tail.prev == head {
        return;
      }
      ghost var i := |nodes| - 2;
      var temp := tail.prev;
      tail.prev := temp.prev;
      tail.prev.next := tail;
      nodes := nodes[..i] + nodes[i + 1..];
      contents := contents[..i - 1];
    }

    /** Erases the first element until none is left. */
    method Clear()
      requires Valid()
      modifies this, repr
      ensures Valid() && contents == [] && repr == old(repr)
    {
      var empty := Empty();
      while !empty
        invariant Valid() && empty == (contents == [])
        invariant repr == old(repr)
        decreases |contents|
      {
        var it := Begin();
        var _ := Erase(it, 1);
        empty := Empty();
      }
    }

    /** Walks the whole chain and leaves the two sentinels out of the count. */
    method Size() returns (n: nat)
      requires Valid()
      ensures n == |contents|
    {
      var count := 0;
      var temp: Node?<T> := head;
      while temp != null
        invariant 0 <= count <= |nodes|
        invariant temp == if count < |nodes| then nodes[count] else null
        decreases |nodes| - count
      {
        count := count + 1;
        temp := temp.next;
      }
      n := count - 2;
    }
  }
}
