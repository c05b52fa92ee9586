/** The list of source/link.hpp: nodes are appended through a pointer to the last `next` slot. */
module AppendList {

  class Node<T(0)> {
    var value: T
    var prev: Node?<T>
    var next: Node?<T>
  }

  class Link<T(0)> {
    var link: Node?<T>
    /** `_end` points to a slot: the `next` of this node, or the head slot `_link` when null. */
    var end: Node?<T>
    var total: int
    /** The nodes in the order in which they were added since `Init`. */
    ghost var nodes: seq<Node<T>>
    /** What `_total` held at the last `Init`: whatever was there before. */
    ghost var base: int

    ghost predicate Valid()
      reads this, nodes
    {
      && total == base + |nodes|
      && (forall i, j :: 0 <= i < j < |nodes| ==> nodes[i] != nodes[j])
      && link == (if nodes == [] then null else nodes[0])
      && end == (if nodes == [] then null else nodes[|nodes| - 1])
      && (nodes != [] ==> nodes[|nodes| - 1].next == null)
      && forall k {:trigger nodes[k].next} :: 0 <= k < |nodes| - 1 ==> nodes[k].next == nodes[k + 1]
    }

    /** `total` keeps whatever the memory held. */
    constructor ()
      ensures Valid() && nodes == []
    {
      new;
      Init();
    }

    /** `total` is not set here, nor anywhere else before it is counted up. */
    method Init()
      modifies this`link, this`end, this`nodes, this`base
      ensures Valid() && nodes == [] && base == total
    {
      base := total;
      link := null;
      end := null;
      nodes := [];
    }

    /** The number of nodes added since `Init`, on top of what the counter held then. */
    method Total() returns (r: int)
      requires Valid()
      ensures r - base == |nodes|
    {
      r := total;
    }

    method GetLink() returns (r: Node?<T>)
      requires Valid()
      ensures r == if nodes == [] then null else nodes[0]
    {
      r := link;
    }

    /** Appends a node. The value is not stored, and `prev` is whatever the last slot held: null. */
    method Add(value: T) returns (r: Node<T>)
      requires Valid()
      modifies this, if end == null then {} else {end}
      ensures Valid() && fresh(r)
      ensures nodes == old(nodes) + [r]
      ensures total == old(total) + 1 && base == old(base)
      ensures r.prev == null && r.next == null
      ensures forall n :: n in old(nodes) ==> n.prev == old(n.prev) && n.value == old(n.value)
    {
      r := new Node<T>;
      r.prev := if end == null then link else end.next;
      r.next := null;
      if end == null {
        link := r;
      } else {
        end.next := r;
      }
      end := r;
      total := total + 1;
      nodes := nodes + [r];
    }

    /** Following `next` from the head visits exactly the added nodes, in order, and ends. */
    lemma WalkVisitsNodes()
      requires Valid()
      ensures Walk(link, nodes)
    {
      if nodes != [] {
        WalkFrom(0);
      }
    }

    lemma WalkFrom(k: nat)
      requires Valid() && k < |nodes|
      ensures Walk(nodes[k], nodes[k..])
      decreases |nodes| - k
    {
      assert nodes[k..][1..] == nodes[k + 1..];
      if k + 1 < |nodes| {
        WalkFrom(k + 1);
      } else {
        assert Walk(nodes[k].next, nodes[k + 1..]);
      }
    }
  }

  /** Following `next` from `n` visits the nodes `ns` and then ends in a null pointer. */
  ghost predicate Walk<T(0)>(n: Node?<T>, ns: seq<Node<T>>)
    reads ns
    decreases |ns|
  {
    if ns == [] then n == null
    else n == ns[0] && Walk(ns[0].next, ns[1..])
  }

  /** There is only one such walk, so it cannot run in a circle or skip a node. */
  lemma {:induction false} WalkIsUnique<T(0)>(n: Node?<T>, ns: seq<Node<T>>, ms: seq<Node<T>>)
    requires Walk(n, ns) && Walk(n, ms)
    ensures ns == ms
    decreases |ns|
  {
    if ns != [] {
      WalkIsUnique(ns[0].next, ns[1..], ms[1..]);
      assert ns == [ns[0]] + ns[1..] && ms == [ms[0]] + ms[1..];
    }
  }
}
