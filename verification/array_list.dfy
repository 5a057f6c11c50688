/** A linked_list over preallocated nodes: pool and list together are a bounded queue. */
module ArrayList {
  import opened Readers
  import opened NodeList
  import opened SlotPool

  /** The nodes in use are the nodes linked. */
  ghost predicate InStep<T>(nodes: seq<Node<T>>, used: seq<bool>, elems: seq<Node<T>>)
    requires |used| == |nodes|
  {
    && (forall n :: n in elems ==> n in nodes)
    && (forall i :: 0 <= i < |nodes| ==> (used[i] <==> nodes[i] in elems))
  }

  lemma {:induction false} DistinctSize<T>(s: seq<Node<T>>)
    requires Distinct(s)
    ensures |set n | n in s| == |s|
  {
    if s != [] {
      var n := |s| - 1;
      DistinctSize(s[..n]);
      assert (set x | x in s) == (set x | x in s[..n]) + {s[n]};
    } else {
      assert (set x | x in s) == {};
    }
  }

  /** A node is free exactly when fewer nodes are linked than there are. */
  lemma FreeIffRoom<T>(nodes: seq<Node<T>>, used: seq<bool>, elems: seq<Node<T>>)
    requires |used| == |nodes| && InStep(nodes, used, elems) && Distinct(nodes) && Distinct(elems)
    ensures |elems| <= |nodes| && forall i :: 0 <= i < |elems| ==> elems[i] in nodes
    ensures false in used <==> |elems| < |nodes|
  {
    var all, linked := set n | n in nodes, set n | n in elems;
    DistinctSize(nodes);
    DistinctSize(elems);
    assert all == linked + (all - linked);
    if |elems| < |nodes| {
      var n :| n in all - linked;
      var i :| 0 <= i < |nodes| && nodes[i] == n;
      assert !used[i];
    } else {
      assert all - linked == {};
      assert forall i :: 0 <= i < |nodes| ==> nodes[i] in linked;
    }
  }

  lemma Linked<T>(nodes: seq<Node<T>>, used: seq<bool>, elems: seq<Node<T>>, k: nat)
    requires |used| == |nodes| && InStep(nodes, used, elems) && Distinct(nodes) && k < |nodes| && !used[k]
    ensures nodes[k] !in elems && InStep(nodes, used[k := true], elems + [nodes[k]])
  {
  }

  lemma Unlinked<T>(nodes: seq<Node<T>>, used: seq<bool>, elems: seq<Node<T>>) returns (k: nat)
    requires |used| == |nodes| && InStep(nodes, used, elems) && Distinct(nodes) && Distinct(elems) && elems != []
    ensures k < |nodes| && nodes[k] == elems[0] && InStep(nodes, used[k := false], elems[1..])
  {
    assert elems[0] in elems;
    k :| 0 <= k < |nodes| && nodes[k] == elems[0];
    assert elems == [elems[0]] + elems[1..];
  }

  /** Marking nodes as used or free does not disturb the list. */
  twostate lemma Undisturbed<T>(list: List<T>)
    requires old(list.Valid()) && unchanged(list)
    requires forall i :: 0 <= i < |list.elems| ==>
               var n := list.elems[i]; n.next == old(n.next) && n.prev == old(n.prev) && n.data == old(n.data)
    ensures list.Valid() && list.Contents() == old(list.Contents())
  {
  }

  /** Linking and unlinking does not disturb the pool. */
  twostate lemma Unmarked<T>(pool: Pool<T>)
    requires unchanged(pool) && unchanged(pool.nodes)
    requires forall i :: 0 <= i < pool.nodes.Length ==> pool.nodes[i].used == old(pool.nodes[i].used)
    ensures pool.Used() == old(pool.Used())
  {
  }

  class Queue<T> {
    const pool: Pool<T>
    const list: List<T>

    ghost predicate Valid()
      reads this, pool, pool.nodes, pool.nodes[..], list, list.elems
    {
      pool.Valid() && list.Valid() && InStep(pool.nodes[..], pool.Used(), list.elems)
    }

    /** linked_list_init_for_array: an empty list over free nodes with cleared data. */
    constructor (nodes: array<Node<T>>, zero: T)
      requires Distinct(nodes[..])
      modifies nodes[..]
      ensures Valid() && fresh(pool) && fresh(list) && pool.nodes == nodes
      ensures list.elems == [] && list.count == 0 && list.head == null && list.tail == null
      ensures forall i :: 0 <= i < nodes.Length ==> nodes[i].data == zero
    {
      pool := new Pool(nodes);
      list := new List();
      new;
      pool.Init(zero);
    }

    /** linked_list_alloc_node, linked_list_set_node_data and linked_list_push: they fail only
        when every node is linked. */
    method Push(data: T) returns (ok: bool)
      requires Valid()
      modifies pool, list, pool.nodes[..]
      ensures Valid()
      ensures ok <==> |old(list.elems)| < pool.nodes.Length
      ensures list.Contents() == old(list.Contents()) + if ok then [data] else []
    {
      hide InStep, List.Contents, List.Valid, Pool.Used, FindFree;
      FreeIffRoom(pool.nodes[..], pool.Used(), list.elems);
      var node := pool.Alloc();
      Undisturbed(list);
      if node == null {
        return false;
      }
      Linked(pool.nodes[..], old(pool.Used()), list.elems, pool.last);
      label Linking:
      node.data := data;
      Undisturbed(list);
      var _ := list.InsertTail(node);
      Unmarked@Linking(pool);
      return true;
    }

    /** linked_list_pop and linked_list_free_node. */
    method Pop() returns (data: Option<T>)
      requires Valid()
      modifies pool, list, pool.nodes[..]
      ensures Valid()
      ensures data.None? ==> old(list.Contents()) == list.Contents() == []
      ensures data.Some? ==> old(list.Contents()) == [data.value] + list.Contents()
    {
      hide InStep, List.Contents, List.Valid, Pool.Used, FindFree;
      ghost var elems := list.elems;
      FreeIffRoom(pool.nodes[..], pool.Used(), elems);
      var node := list.RemoveHead();
      if node == null {
        return None;
      }
      data := Some(node.data);
      Unmarked(pool);
      ghost var k := Unlinked(pool.nodes[..], pool.Used(), elems);
      label Freeing:
      pool.Free(node, k);
      Undisturbed@Freeing(list);
    }
  }
}
