/** Whole runs of a key-value list against a plain map. */
module KvRuns {
  import opened Readers
  import opened KvNodes
  import opened KvList

  /** Remove is what ble_link_remove does: the key is searched and a node found is removed. */
  datatype Op<V> = Add(key: nat, value: V) | Remove(key: nat) | Clear | Sort

  /** What an operation does to a dictionary with room for `depth` entries. */
  function Step<V>(m: map<nat, V>, depth: nat, op: Op<V>): map<nat, V>
  {
    match op
    case Add(k, v) => if |m| < depth then m[k := v] else m
    case Remove(k) => m - {k}
    case Clear => map[]
    case Sort => m
  }

  /** Keys in use are not added again. */
  predicate Allowed<V>(m: map<nat, V>, op: Op<V>)
  {
    match op
    case Add(k, _) => k !in m
    case _ => true
  }

  function Run<V>(m: map<nat, V>, depth: nat, ops: seq<Op<V>>): map<nat, V>
  {
    if ops == [] then m else Step(Run(m, depth, ops[..|ops| - 1]), depth, ops[|ops| - 1])
  }

  predicate AllowedRun<V>(m: map<nat, V>, depth: nat, ops: seq<Op<V>>)
  {
    ops == []
    || (AllowedRun(m, depth, ops[..|ops| - 1]) && Allowed(Run(m, depth, ops[..|ops| - 1]), ops[|ops| - 1]))
  }

  // ----- cells

  /** What an operation does to the cells in use, whatever keys there are: one cell more for
      an addition, one cell less for a removal. */
  ghost predicate CellStep<V>(live: map<nat, (nat, V)>, depth: nat, op: Op<V>, after: map<nat, (nat, V)>)
  {
    match op
    case Add(k, v) =>
      if |live| < depth then exists c :: c !in live && after == AddedCell(live, c, k, v) else after == live
    case Remove(k) =>
      if exists c :: c in live && live[c].0 == k
      then exists c :: c in live && live[c].0 == k && after == live - {c}
      else after == live
    case Clear => after == map[]
    case Sort => after == live
  }

  function AddedCell<V>(live: map<nat, (nat, V)>, c: nat, k: nat, v: V): map<nat, (nat, V)>
  {
    live[c := (k, v)]
  }

  ghost predicate Behaviour<V>(lives: seq<map<nat, (nat, V)>>, depth: nat, ops: seq<Op<V>>)
  {
    && |lives| == |ops| + 1
    && forall i :: 0 <= i < |ops| ==> CellStep(lives[i], depth, ops[i], lives[i + 1])
  }

  /** The cells in use hold the entries of `m`, one cell for each. */
  ghost predicate Represents<V>(live: map<nat, (nat, V)>, m: map<nat, V>)
  {
    && (forall c :: c in live ==> live[c].0 in m && m[live[c].0] == live[c].1)
    && (forall k :: k in m ==> exists c :: c in live && live[c].0 == k)
    && (forall c, d :: c in live && d in live && live[c].0 == live[d].0 ==> c == d)
  }

  lemma {:induction false} SameSize<V>(live: map<nat, (nat, V)>, m: map<nat, V>)
    requires Represents(live, m)
    ensures |live| == |m|
    decreases |live|
  {
    if c :| c in live {
      var k := live[c].0;
      Removed(live, m, c);
      assert (live - {c}).Keys == live.Keys - {c};
      assert (m - {k}).Keys == m.Keys - {k};
      SameSize(live - {c}, m - {k});
    } else {
      assert live.Keys == {};
      assert m.Keys == {};
    }
  }

  lemma Added<V>(live: map<nat, (nat, V)>, m: map<nat, V>, c: nat, k: nat, v: V)
    requires Represents(live, m) && c !in live && k !in m
    ensures Represents(live[c := (k, v)], m[k := v])
  {
    var more, n := live[c := (k, v)], m[k := v];
    forall l | l in n
      ensures exists d :: d in more && more[d].0 == l
    {
      if l == k {
        assert more[c].0 == k;
      } else {
        var d :| d in live && live[d].0 == l;
        assert d in more && more[d].0 == l;
      }
    }
  }

  lemma Removed<V>(live: map<nat, (nat, V)>, m: map<nat, V>, c: nat)
    requires Represents(live, m) && c in live
    ensures Represents(live - {c}, m - {live[c].0})
  {
    var less, n := live - {c}, m - {live[c].0};
    forall l | l in n
      ensures exists d :: d in less && less[d].0 == l
    {
      var d :| d in live && live[d].0 == l;
      assert d in less && less[d].0 == l;
    }
  }

  lemma KeyInUse<V>(live: map<nat, (nat, V)>, m: map<nat, V>, k: nat)
    requires Represents(live, m)
    ensures k in m <==> exists c :: c in live && live[c].0 == k
  {
    if c :| c in live && live[c].0 == k {
      assert live[c].0 in m;
    }
  }

  lemma EntryInUse<V>(live: map<nat, (nat, V)>, m: map<nat, V>, c: nat)
    requires Represents(live, m) && c in live
    ensures live[c].0 in m && m[live[c].0] == live[c].1
  {
  }

  lemma StepRepresents<V>(live: map<nat, (nat, V)>, m: map<nat, V>, depth: nat, op: Op<V>,
                          after: map<nat, (nat, V)>)
    requires Represents(live, m) && Allowed(m, op) && CellStep(live, depth, op, after)
    ensures Represents(after, Step(m, depth, op))
  {
    hide Represents;
    match op
    case Add(k, v) =>
      SameSize(live, m);
      if |live| < depth {
        var c :| c !in live && after == AddedCell(live, c, k, v);
        Added(live, m, c, k, v);
      }
    case Remove(k) =>
      KeyInUse(live, m, k);
      if k in m {
        var c :| c in live && live[c].0 == k && after == live - {c};
        Removed(live, m, c);
      } else {
        assert m - {k} == m;
      }
    case Clear => NothingPresent<V>();
    case Sort =>
  }

  lemma NothingPresent<V>()
    ensures Represents<V>(map[], map[])
  {
  }

  /** Over every run with distinct keys the cells in use are the plain map. */
  lemma {:induction false} RunIsMap<V>(lives: seq<map<nat, (nat, V)>>, depth: nat, ops: seq<Op<V>>, m: map<nat, V>)
    requires Behaviour(lives, depth, ops) && Represents(lives[0], m) && AllowedRun(m, depth, ops)
    ensures Represents(lives[|ops|], Run(m, depth, ops)) && |lives[|ops|]| == |Run(m, depth, ops)|
    decreases |ops|
  {
    hide Represents, CellStep, Step, Allowed;
    if ops != [] {
      var n := |ops| - 1;
      assert forall i :: 0 <= i < n ==> ops[..n][i] == ops[i];
      RunIsMap(lives[..n + 1], depth, ops[..n], m);
      StepRepresents(lives[n], Run(m, depth, ops[..n]), depth, ops[n], lives[n + 1]);
    }
    SameSize(lives[|ops|], Run(m, depth, ops));
  }

  /** The `a`-th operation added `k` with `v` while there was room, and no later one took it out. */
  predicate LastAdded<V(==)>(depth: nat, ops: seq<Op<V>>, a: nat, k: nat, v: V)
  {
    && a < |ops| && ops[a] == Add(k, v) && |Run(map[], depth, ops[..a])| < depth
    && forall b :: a < b < |ops| ==> !ops[b].Clear? && ops[b] != Remove(k)
  }

  lemma LastAddedStep<V>(depth: nat, ops: seq<Op<V>>, a: nat, k: nat, v: V)
    requires ops != [] && a < |ops| - 1
    ensures LastAdded(depth, ops, a, k, v)
            <==> LastAdded(depth, ops[..|ops| - 1], a, k, v) && !ops[|ops| - 1].Clear? && ops[|ops| - 1] != Remove(k)
  {
    hide Run;
    var before := ops[..|ops| - 1];
    assert before[..a] == ops[..a] && before[a] == ops[a];
    assert forall b :: a < b < |before| ==> before[b] == ops[b];
  }

  lemma StepKeeps<V>(m: map<nat, V>, depth: nat, op: Op<V>, k: nat, v: V)
    requires Allowed(m, op)
    ensures k in Step(m, depth, op) && Step(m, depth, op)[k] == v
            <==> (op == Add(k, v) && |m| < depth) || (k in m && m[k] == v && !op.Clear? && op != Remove(k))
  {
  }

  lemma RunStep<V>(depth: nat, ops: seq<Op<V>>)
    requires ops != [] && AllowedRun(map[], depth, ops)
    ensures var before := ops[..|ops| - 1];
            && AllowedRun(map[], depth, before) && Allowed(Run(map[], depth, before), ops[|ops| - 1])
            && Run(map[], depth, ops) == Step(Run(map[], depth, before), depth, ops[|ops| - 1])
  {
  }

  /** Over every such run from an empty list: a key has the value it was last added with,
      unless it was removed, or everything cleared, since. */
  lemma {:induction false} EntriesAreAdded<V>(depth: nat, ops: seq<Op<V>>, k: nat, v: V)
    requires AllowedRun(map[], depth, ops)
    ensures var m := Run(map[], depth, ops);
            k in m && m[k] == v <==> exists a :: LastAdded(depth, ops, a, k, v)
    decreases |ops|
  {
    hide Step, Allowed, AllowedRun, Run;
    if ops == [] {
      RunNone<V>(depth);
    } else {
      var n := |ops| - 1;
      RunStep(depth, ops);
      StepKeeps(Run(map[], depth, ops[..n]), depth, ops[n], k, v);
      EntriesAreAdded(depth, ops[..n], k, v);
      if ops[n] == Add(k, v) && |Run(map[], depth, ops[..n])| < depth {
        assert LastAdded(depth, ops, n, k, v);
      }
      forall a: nat | a < n
        ensures LastAdded(depth, ops, a, k, v)
                <==> LastAdded(depth, ops[..n], a, k, v) && !ops[n].Clear? && ops[n] != Remove(k)
      {
        LastAddedStep(depth, ops, a, k, v);
      }
    }
  }

  lemma RunNone<V>(depth: nat)
    ensures Run<V>(map[], depth, []) == map[]
  {
  }

  /** One operation on a list is one step of its cells. */
  method Perform<V>(list: KvList<V>, op: Op<V>)
    requires list.Valid()
    modifies list, list.nodes, list.data
    ensures list.Valid() && CellStep(old(list.Live()), list.nodes.Length, op, list.Live())
  {
    hide LiveCells, SortedNodes, Bound, UsedEntries, Packed;
    match op
    case Add(k, v) =>
      ghost var before := list.Live();
      var node := list.Add(k, v);
      if node.Some? {
        assert list.Live() == AddedCell(before, list.nodes[node.value].data, k, v);
      }
    case Remove(k) =>
      ghost var before := list.Live();
      var node := list.Search(k);
      if node.Some? {
        ghost var c := list.nodes[node.value].data;
        assert c in before && before[c].0 == k;
        list.RemoveNode(node.value);
      }
    case Clear =>
      list.Clear();
    case Sort =>
      list.Sort();
  }

  /** Every run on a list, with whatever keys, is a run of its cells. */
  method Execute<V>(list: KvList<V>, ops: seq<Op<V>>) returns (ghost lives: seq<map<nat, (nat, V)>>)
    requires list.Valid()
    modifies list, list.nodes, list.data
    ensures list.Valid() && Behaviour(lives, list.nodes.Length, ops)
    ensures lives[0] == old(list.Live()) && lives[|ops|] == list.Live() && list.count == |lives[|ops|]|
  {
    hide CellStep, KvList.Live, KvList.WellBound;
    lives := [list.Live()];
    var i := 0;
    while i < |ops|
      invariant 0 <= i <= |ops| && |lives| == i + 1
      invariant list.Valid() && lives[0] == old(list.Live()) && lives[i] == list.Live()
      invariant forall j :: 0 <= j < i ==> CellStep(lives[j], list.nodes.Length, ops[j], lives[j + 1])
    {
      Perform(list, ops[i]);
      lives := lives + [list.Live()];
      i := i + 1;
    }
  }

  /** Looking a key up, as ble_link_get does: the value added for it, or nothing. */
  method Lookup<V>(list: KvList<V>, key: nat, ghost m: map<nat, V>) returns (r: Option<V>)
    requires list.Valid() && Represents(list.Live(), m)
    ensures r == if key in m then Some(m[key]) else None
  {
    hide Represents, KvList.Live, KvList.Valid;
    ghost var live := list.Live();
    r := list.Get(key);
    assert live == list.Live();
    KeyInUse(live, m, key);
    if r.Some? {
      ghost var c :| c in live && live[c] == (key, r.value);
      EntryInUse(live, m, c);
      assert live[c].0 == key && m[key] == r.value;
    }
  }
}
