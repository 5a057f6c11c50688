/** The array of preallocated nodes of a linked_list: a circular search for a free one. */
module SlotPool {
  import opened Readers
  import opened Bits
  import opened NodeList

  // ----- the search on values

  /** The slot looked at after `i` steps from slot `last`. */
  function Slot(last: nat, i: nat, depth: nat): (s: nat)
    requires depth > 0
    ensures s < depth
  {
    (last + i) % depth
  }

  /** The first free slot from step `i` on, within one turn. */
  function FindFree(used: seq<bool>, last: nat, i: nat): (r: Option<nat>)
    requires i <= |used|
    ensures r.Some? ==> r.value < |used| && !used[r.value]
    decreases |used| - i
  {
    if i == |used| then None
    else if !used[Slot(last, i, |used|)] then Some(Slot(last, i, |used|))
    else FindFree(used, last, i + 1)
  }

  /** Walking once around passes every slot. */
  lemma SlotsCover(last: nat, k: nat, depth: nat) returns (i: nat)
    requires last < depth && k < depth
    ensures i < depth && Slot(last, i, depth) == k
    ensures i == if last <= k then k - last else depth - last + k
  {
    if last <= k {
      i := k - last;
      assert last + i == k;
    } else {
      i := depth - last + k;
      RemainderIs(last + i, depth, 1, k);
    }
  }

  lemma {:induction false} FreeIsFirst(used: seq<bool>, last: nat, i: nat)
    requires i <= |used|
    ensures var r := FindFree(used, last, i);
            && (r.None? ==> forall j :: i <= j < |used| ==> used[Slot(last, j, |used|)])
            && (r.Some? ==> exists n :: i <= n < |used| && r.value == Slot(last, n, |used|)
                                        && forall j :: i <= j < n ==> used[Slot(last, j, |used|)])
    decreases |used| - i
  {
    if i < |used| && used[Slot(last, i, |used|)] {
      FreeIsFirst(used, last, i + 1);
    } else if i < |used| {
      assert FindFree(used, last, i).value == Slot(last, i, |used|);
    }
  }

  /** A slot is found exactly when one is free. */
  lemma FindsIfAnyFree(used: seq<bool>, last: nat)
    requires used == [] || last < |used|
    ensures FindFree(used, last, 0).Some? <==> false in used
  {
    FreeIsFirst(used, last, 0);
    if k: nat :| k < |used| && !used[k] {
      var i := SlotsCover(last, k, |used|);
      assert !used[Slot(last, i, |used|)];
    }
  }

  // ----- runs

  datatype Call = Alloc | Free(slot: nat)
  datatype Slots = Slots(used: seq<bool>, last: nat)

  function Step(s: Slots, call: Call): Slots
  {
    match call
    case Alloc =>
      var r := FindFree(s.used, s.last, 0);
      if r.None? then s else Slots(s.used[r.value := true], r.value)
    case Free(k) => if k < |s.used| then s.(used := s.used[k := false]) else s
  }

  function Run(s: Slots, calls: seq<Call>): (t: Slots)
    ensures |t.used| == |s.used|
  {
    if calls == [] then s else Step(Run(s, calls[..|calls| - 1]), calls[|calls| - 1])
  }

  /** Slot `k` is the first free one from slot `last` on, going round at the end. */
  predicate Nearest(used: seq<bool>, last: nat, k: nat)
  {
    && last < |used| && k < |used| && !used[k]
    && if last <= k then forall j :: last <= j < k ==> used[j]
       else (forall j :: last <= j < |used| ==> used[j]) && forall j :: 0 <= j < k ==> used[j]
  }

  /** An allocation takes the free slot nearest to the last one taken, that one first, and
      remembers it; without a free slot nothing changes. */
  lemma AllocTakesNearest(s: Slots)
    requires s.last < |s.used|
    ensures var t := Step(s, Call.Alloc);
            if false in s.used then t.used == s.used[t.last := true] && Nearest(s.used, s.last, t.last) else t == s
    ensures !s.used[s.last] ==> Step(s, Call.Alloc).last == s.last
  {
    FreeIsFirst(s.used, s.last, 0);
    FindsIfAnyFree(s.used, s.last);
    var r := FindFree(s.used, s.last, 0);
    if r.Some? {
      var depth := |s.used|;
      var n :| 0 <= n < depth && r.value == Slot(s.last, n, depth)
               && forall j :: 0 <= j < n ==> s.used[Slot(s.last, j, depth)];
      forall k | 0 <= k < depth && (if s.last <= k then k - s.last < n else depth - s.last + k < n)
        ensures s.used[k]
      {
        var i := SlotsCover(s.last, k, depth);
        assert s.used[Slot(s.last, i, depth)];
      }
      SlotReached(s.last, n, depth);
    }
  }

  lemma SlotReached(last: nat, n: nat, depth: nat)
    requires last < depth && n < depth
    ensures Slot(last, n, depth) == if last + n < depth then last + n else last + n - depth
  {
    if last + n >= depth {
      RemainderIs(last + n, depth, 1, last + n - depth);
    }
  }

  /** The `n`-th call of a run hands out slot `k`. */
  predicate HandsOut(s: Slots, calls: seq<Call>, n: nat, k: nat)
    requires n < |calls|
  {
    var t := Run(s, calls[..n]);
    calls[n].Alloc? && FindFree(t.used, t.last, 0) == Some(k)
  }

  /** A slot handed out stays in use until it is freed. */
  lemma {:induction false} StaysUsed(s: Slots, calls: seq<Call>, a: nat, b: nat, k: nat)
    requires a < b <= |calls| && k < |s.used| && HandsOut(s, calls, a, k)
    requires forall c :: a < c < b ==> calls[c] != Free(k)
    ensures Run(s, calls[..b]).used[k]
    decreases b
  {
    assert calls[..b][..b - 1] == calls[..b - 1];
    if a < b - 1 {
      StaysUsed(s, calls, a, b - 1, k);
    }
  }

  /** Over every run: between two times a slot is handed out it was freed. */
  lemma NeverTwice(s: Slots, calls: seq<Call>, a: nat, b: nat, k: nat)
    requires a < b < |calls| && HandsOut(s, calls, a, k) && HandsOut(s, calls, b, k)
    ensures exists c :: a < c < b && calls[c] == Free(k)
  {
    if forall c :: a < c < b ==> calls[c] != Free(k) {
      StaysUsed(s, calls, a, b, k);
    }
  }

  /** Slot `k` was handed out by the `a`-th call and not freed since. */
  predicate Holds(s: Slots, calls: seq<Call>, a: nat, k: nat)
  {
    a < |calls| && HandsOut(s, calls, a, k) && forall c :: a < c < |calls| ==> calls[c] != Free(k)
  }

  lemma HoldsOn(s: Slots, calls: seq<Call>, a: nat, k: nat)
    requires calls != [] && Holds(s, calls[..|calls| - 1], a, k) && calls[|calls| - 1] != Free(k)
    ensures Holds(s, calls, a, k)
  {
    hide Run, FindFree;
    var n := |calls| - 1;
    assert calls[..n][..a] == calls[..a] && calls[..n][a] == calls[a];
    forall c | a < c < |calls|
      ensures calls[c] != Free(k)
    {
      assert c < n ==> calls[..n][c] == calls[c];
    }
  }

  /** A call after which a slot is in use that was not before, or was freed by it, hands the
      slot out. */
  lemma StepUses(t: Slots, call: Call, k: nat)
    requires k < |t.used| && Step(t, call).used[k] && (!t.used[k] || call == Free(k))
    ensures call.Alloc? && FindFree(t.used, t.last, 0) == Some(k)
  {
    hide FindFree;
  }

  lemma RunNone(s: Slots)
    ensures Run(s, []) == s
  {
  }

  lemma RunLast(s: Slots, calls: seq<Call>)
    requires calls != []
    ensures Run(s, calls) == Step(Run(s, calls[..|calls| - 1]), calls[|calls| - 1])
  {
  }

  /** Over every run from a pool of free slots, the slots in use are exactly those handed
      out and not freed since. */
  lemma {:induction false} UsedAreHeld(s: Slots, calls: seq<Call>, k: nat)
    requires k < |s.used| && !s.used[k]
    ensures Run(s, calls).used[k] <==> exists a: nat :: Holds(s, calls, a, k)
    decreases |calls|
  {
    hide FindFree, Step, Run;
    if calls == [] {
      RunNone(s);
    } else {
      var n := |calls| - 1;
      RunLast(s, calls);
      UsedAreHeld(s, calls[..n], k);
      if Run(s, calls).used[k] {
        if a: nat :| Holds(s, calls[..n], a, k) && calls[n] != Free(k) {
          HoldsOn(s, calls, a, k);
        } else {
          StepUses(Run(s, calls[..n]), calls[n], k);
          assert Holds(s, calls, n, k);
        }
      }
    }
    if a: nat :| Holds(s, calls, a, k) {
      assert calls[..|calls|] == calls;
      StaysUsed(s, calls, a, |calls|, k);
    }
  }

  // ----- the nodes

  class Pool<T> {
    const nodes: array<Node<T>>
    var last: nat

    ghost predicate Valid()
      reads this, nodes
    {
      Distinct(nodes[..]) && (nodes.Length == 0 || last < nodes.Length)
    }

    ghost function Used(): (u: seq<bool>)
      reads this, nodes, nodes[..]
      ensures |u| == nodes.Length && forall i :: 0 <= i < |u| ==> u[i] == nodes[i].used
    {
      seq(nodes.Length, i requires 0 <= i < nodes.Length reads this, nodes, nodes[..] => nodes[i].used)
    }

    /** DEF_STATIC_ARRAY_LIST, before linked_list_init_for_array. */
    constructor (nodes: array<Node<T>>)
      requires Distinct(nodes[..])
      ensures Valid() && this.nodes == nodes
    {
      this.nodes, last := nodes, 0;
    }

    /** linked_list_init_for_array: every node detached and free, its data cleared. */
    method Init(zero: T)
      requires Distinct(nodes[..])
      modifies this, nodes[..]
      ensures Valid() && Used() == seq(nodes.Length, _ => false) && (nodes.Length > 0 ==> last == 0)
      ensures forall i :: 0 <= i < nodes.Length ==> 
                nodes[i].next == null && nodes[i].prev == null && nodes[i].data == zero
    {
      if nodes.Length == 0 {
        return;
      }
      var i := 0;
      while i < nodes.Length
        invariant 0 <= i <= nodes.Length
        invariant forall k :: 0 <= k < i ==>
                    nodes[k].next == null && nodes[k].prev == null && !nodes[k].used && nodes[k].data == zero
      {
        nodes[i].next := null;
        nodes[i].prev := null;
        nodes[i].used := false;
        nodes[i].data := zero;
        i := i + 1;
      }
      last := 0;
    }

    /** The index computed in the search: masked when the depth is a power of two. */
    method Probe(i: nat) returns (index: nat)
      requires nodes.Length > 0
      ensures index == Slot(last, i, nodes.Length)
    {
      if Power2Check(nodes.Length) {
        index := Power2GetMod(last + i, nodes.Length);
        MaskIsRemainder(last + i, nodes.Length);
      } else {
        index := (last + i) % nodes.Length;
      }
    }

    /** The search loop of alloc_array_node. */
    method Search() returns (r: Option<nat>)
      requires Valid()
      ensures r == FindFree(Used(), last, 0)
    {
      var i := 0;
      while i < nodes.Length
        invariant 0 <= i <= nodes.Length
        invariant FindFree(Used(), last, 0) == FindFree(Used(), last, i)
      {
        var index := Probe(i);
        if !nodes[index].used {
          return Some(index);
        }
        i := i + 1;
      }
      return None;
    }

    /** alloc_array_node: a node exactly when one is free, and no other node changes. */
    method Alloc() returns (r: Node?<T>)
      requires Valid()
      modifies this, nodes[..]
      ensures Valid()
      ensures Slots(Used(), last) == Step(Slots(old(Used()), old(last)), Call.Alloc)
      ensures r == null <==> false !in old(Used())
      ensures r != null ==> nodes.Length > 0 && r == nodes[last] && !old(r.used) && Used() == old(Used())[last := true]
      ensures forall n :: n in nodes[..] ==> n.next == old(n.next) && n.prev == old(n.prev) && n.data == old(n.data)
    {
      hide FindFree;
      FindsIfAnyFree(Used(), last);
      r := null;
      var index := Search();
      if index.Some? {
        r := nodes[index.value];
        r.used := true;
        last := index.value;
        assert Used() == old(Used())[index.value := true];
      }
    }

    /** linked_list_free_node in an array list. */
    method Free(p: Node<T>, ghost k: nat)
      requires Valid() && k < nodes.Length && nodes[k] == p
      modifies p
      ensures Valid() && Slots(Used(), last) == Step(Slots(old(Used()), last), Call.Free(k))
      ensures p.next == null && p.prev == null && p.data == old(p.data)
    {
      p.next := null;
      p.prev := null;
      p.used := false;
      assert Used() == old(Used())[k := false];
    }
  }
}
