/** The doubly linked list behind lw_list and linked_list: real nodes relinked in place,
    against the sequence of nodes they form. */
module NodeList {

  /** list_node_t and, without `used` and `data`, list_elem_t. */
  class Node<T> {
    var next: Node?<T>
    var prev: Node?<T>
    var used: bool
    var data: T

    constructor (data: T)
      ensures next == null && prev == null && !used && this.data == data
    {
      next, prev, used, this.data := null, null, false, data;
    }
  }

  /** From `first` on, the `next` links run through `s` and end. */
  ghost predicate Forward<T>(first: Node?<T>, s: seq<Node<T>>)
    reads s
  {
    && first == (if s == [] then null else s[0])
    && forall i {:trigger s[i].next} :: 0 <= i < |s| ==> s[i].next == if i == |s| - 1 then null else s[i + 1]
  }

  /** From `last` back, the `prev` links run through `s` and end. */
  ghost predicate Backward<T>(last: Node?<T>, s: seq<Node<T>>)
    reads s
  {
    && last == (if s == [] then null else s[|s| - 1])
    && forall i {:trigger s[i].prev} :: 0 <= i < |s| ==> s[i].prev == if i == 0 then null else s[i - 1]
  }

  ghost predicate Distinct<T>(s: seq<Node<T>>)
  {
    forall i, j :: 0 <= i < j < |s| ==> s[i] != s[j]
  }

  /** A sequence without its element at `k`. */
  function Without<X>(s: seq<X>, k: nat): seq<X>
    requires k < |s|
  {
    s[..k] + s[k + 1..]
  }

  const SIZE_T_MAX: nat := 0xFFFF_FFFF

  class List<T> {
    var head: Node?<T>
    var tail: Node?<T>
    var count: nat
    ghost var elems: seq<Node<T>>

    ghost predicate Valid()
      reads this, elems
      ensures Valid() ==> Distinct(elems) && count == |elems|
      ensures Valid() ==> (head == null || head in elems) && (tail == null || tail in elems)
    {
      && Distinct(elems)
      && Forward(head, elems) && Backward(tail, elems)
      && count == |elems|
    }

    /** The data in list order. */
    ghost function Contents(): (c: seq<T>)
      reads this, elems
      ensures |c| == |elems| && forall i :: 0 <= i < |c| ==> c[i] == elems[i].data
    {
      seq(|elems|, i requires 0 <= i < |elems| reads this, elems => elems[i].data)
    }

    /** lw_list_init and linked_list_init_for_heap. */
    constructor ()
      ensures Valid() && elems == []
    {
      head, tail, count, elems := null, null, 0, [];
    }

    /** LIST_INSERT_HEAD with the count. */
    method InsertHead(p: Node<T>) returns (r: Node<T>)
      requires Valid() && p !in elems
      modifies this, p, head
      ensures Valid() && elems == [p] + old(elems) && r == p
      ensures Contents() == [p.data] + old(Contents())
      ensures p.data == old(p.data) && p.used == old(p.used)
      ensures forall q :: q in old(elems) ==> q.data == old(q.data) && q.used == old(q.used)
    {
      if head == null {
        p.prev := null;
        p.next := null;
        head := p;
        tail := p;
      } else {
        p.prev := null;
        p.next := head;
        head.prev := p;
        head := p;
      }
      count := count + 1;
      elems := [p] + elems;
      r := p;
    }

    /** LIST_INSERT_TAIL with the count. */
    method InsertTail(p: Node<T>) returns (r: Node<T>)
      requires Valid() && p !in elems
      modifies this, p, tail
      ensures Valid() && elems == old(elems) + [p] && r == p
      ensures Contents() == old(Contents()) + [p.data]
      ensures p.data == old(p.data) && p.used == old(p.used)
      ensures forall q :: q in old(elems) ==> q.data == old(q.data) && q.used == old(q.used)
    {
      if head == null {
        p.prev := null;
        p.next := null;
        head := p;
        tail := p;
      } else {
        p.prev := tail;
        p.next := null;
        tail.next := p;
        tail := p;
      }
      count := count + 1;
      elems := elems + [p];
      r := p;
    }

    /** LIST_REMOVE_HEAD with the count; nothing happens to an empty list. */
    method RemoveHead() returns (r: Node?<T>)
      requires Valid()
      modifies this, elems
      ensures Valid()
      ensures old(elems) == [] ==> r == null && elems == []
      ensures old(elems) != [] ==> r == old(elems[0]) && elems == old(elems[1..])
                                   && r.next == null && r.prev == null
                                   && old(Contents()) == [r.data] + Contents()
      ensures forall q :: q in old(elems) ==> q.data == old(q.data) && q.used == old(q.used)
    {
      r := head;
      if r != null {
        if head == tail {
          assert |elems| == 1;
          head := null;
          tail := null;
        } else {
          head := r.next;
          r.next.prev := null;
          r.next := null;
        }
        count := count - 1;
        elems := elems[1..];
      }
    }

    /** LIST_REMOVE_TAIL with the count. */
    method RemoveTail() returns (r: Node?<T>)
      requires Valid()
      modifies this, elems
      ensures Valid()
      ensures old(elems) == [] ==> r == null && elems == []
      ensures old(elems) != [] ==> r == old(elems[|elems| - 1]) && elems == old(elems[..|elems| - 1])
                                   && r.next == null && r.prev == null
                                   && old(Contents()) == Contents() + [r.data]
      ensures forall q :: q in old(elems) ==> q.data == old(q.data) && q.used == old(q.used)
    {
      r := tail;
      if r != null {
        if head == tail {
          assert |elems| == 1;
          head := null;
          tail := null;
        } else {
          tail := r.prev;
          r.prev.next := null;
          r.prev := null;
        }
        count := count - 1;
        elems := elems[..|elems| - 1];
      }
    }

    /** LIST_NODE_EXISTS: following the `next` links decides membership. */
    method Exists(p: Node<T>) returns (found: bool)
      requires Valid()
      ensures found <==> p in elems
    {
      found := false;
      var iter := head;
      ghost var i := 0;
      while iter != null
        invariant 0 <= i <= |elems|
        invariant iter == if i == |elems| then null else elems[i]
        invariant !found && p !in elems[..i]
        decreases |elems| - i
      {
        if iter == p {
          found := true;
          break;
        }
        assert elems[i].next == if i == |elems| - 1 then null else elems[i + 1];
        iter := iter.next;
        i := i + 1;
      }
    }

    /** LIST_REMOVE_NODE with the count, for a node of the list, a detached node that is not
        in it, or null. Except for a list of one, one direction of the chain is always broken
        by removing a node of the list: the forward one at the tail, the backward one
        elsewhere. For another node only the count changes. */
    method RemoveNode(p: Node?<T>, ghost k: nat) returns (r: Node?<T>)
      requires Valid()
      requires p != null && p in elems ==> k < |elems| && elems[k] == p
      requires p != null && p !in elems ==> p.prev == null && p.next == null
      modifies this, elems, p
      ensures p == null ==> r == null && Valid() && elems == old(elems)
      ensures p != null && p in old(elems) ==>
                r == p && elems == Without(old(elems), k) && count == |elems|
      ensures p != null && p in old(elems) ==>
                (Forward(head, elems) <==> |old(elems)| == 1 || k < |old(elems)| - 1)
      ensures p != null && p in old(elems) ==>
                (Backward(tail, elems) <==> |old(elems)| == 1 || k == |old(elems)| - 1)
      ensures p != null && p in old(elems) ==> (Valid() <==> |old(elems)| == 1)
      ensures p != null && p !in old(elems) ==>
                elems == old(elems) && Forward(head, elems) && Backward(tail, elems) && !Valid()
                && r == (if |elems| <= 1 then null else p)
    {
      r := p;
      if p == null {
        return;
      }
      ghost var all, inside := elems, p in elems;
      if head == tail {
        if head == p {
          head := null;
          tail := null;
        } else {
          r := null;
        }
      } else {
        if head == p {
          head := p.next;
          p.prev := null;
        } else if tail == p {
          tail := p.prev;
          p.next := null;
        } else {
          if p.prev != null {
            p.prev.next := p.next;
            p.prev := null;
          }
          if p.next != null {
            p.next.prev := p.prev;
            p.next := null;
          }
        }
      }
      count := if count == 0 then SIZE_T_MAX else count - 1;
      if inside {
        elems := Without(all, k);
        RestOf(all, k);
        if |all| == 1 {
          assert elems == [];
        } else if k < |all| - 1 {
          assert forall i :: 0 <= i < |elems| ==> elems[i].next == if i == |elems| - 1 then null else elems[i + 1];
          assert elems[k].prev == if k == 0 then all[0] else null;
        } else {
          assert forall i :: 0 <= i < |elems| ==> elems[i].prev == if i == 0 then null else elems[i - 1];
          assert elems[k - 1].next == p;
        }
      }
    }

    /** The nodes left when one is taken away. */
    lemma RestOf(all: seq<Node<T>>, k: nat)
      requires Distinct(all) && k < |all|
      ensures Distinct(Without(all, k))
      ensures var s := Without(all, k);
              |s| == |all| - 1
              && (forall i :: 0 <= i < k ==> s[i] == all[i]) && (forall i :: k <= i < |s| ==> s[i] == all[i + 1])
    {
    }

    /** The two chains run through the same nodes in opposite directions. */
    lemma ChainsAreInverse(i: nat)
      requires Valid() && i < |elems|
      ensures elems[i].next != null ==> elems[i].next.prev == elems[i]
      ensures elems[i].prev != null ==> elems[i].prev.next == elems[i]
      ensures elems[i].next == null <==> elems[i] == tail
      ensures elems[i].prev == null <==> elems[i] == head
    {
    }
  }
}
