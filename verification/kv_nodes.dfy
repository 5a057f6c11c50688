/** The nodes of a key-value list as values: their order, their binding to data cells, and
    what the list means to its users. */
module KvNodes {
  import opened Readers

  /** kv_node_t; `data` is the index of the data cell the node points to. */
  datatype KvNode = KvNode(valid: bool, key: nat, data: nat)

  /** size_t has 32 bits on the target. */
  const KV_KEY_INVALID: nat := 0xFFFF_FFFF

  function AsInt(b: bool): int { if b then 1 else 0 }

  /** compare_node_key */
  function CompareNodeKey(a: KvNode, b: KvNode): int
  {
    if !a.valid && !b.valid then 0
    else if a.valid && b.valid then AsInt(a.key > b.key) - AsInt(a.key < b.key)
    else AsInt(b.valid) - AsInt(a.valid)
  }

  /** What qsort asks of its comparison (section 7.22.5 of ISO/IEC 9899:2011): a total
      preorder. Zero means two unused nodes or two used ones with the same key. */
  lemma CompareIsPreorder(a: KvNode, b: KvNode, c: KvNode)
    ensures CompareNodeKey(a, b) == -CompareNodeKey(b, a)
    ensures CompareNodeKey(a, b) <= 0 && CompareNodeKey(b, c) <= 0 ==> CompareNodeKey(a, c) <= 0
    ensures CompareNodeKey(a, b) == 0 <==> a.valid == b.valid && (a.valid ==> a.key == b.key)
  {
  }

  ghost predicate SortedNodes(s: seq<KvNode>)
  {
    forall i, j :: 0 <= i < j < |s| ==> CompareNodeKey(s[i], s[j]) <= 0
  }

  lemma Above(target: KvNode, s: seq<KvNode>, mid: nat)
    requires SortedNodes(s) && mid < |s| && CompareNodeKey(target, s[mid]) < 0
    ensures forall i :: mid <= i < |s| ==> CompareNodeKey(s[i], target) > 0
  {
  }

  lemma Below(target: KvNode, s: seq<KvNode>, mid: nat)
    requires SortedNodes(s) && mid < |s| && CompareNodeKey(target, s[mid]) > 0
    ensures forall i :: 0 <= i <= mid ==> CompareNodeKey(s[i], target) < 0
  {
  }

  /** Cells of `width` bytes each do not overlap and lie inside the data array. */
  lemma CellBytesDisjoint(c: nat, d: nat, width: nat, depth: nat)
    requires c < d < depth
    ensures c * width + width <= d * width && d * width + width <= depth * width
  {
    Multiples(c + 1, d, width);
    Multiples(d + 1, depth, width);
  }

  lemma Multiples(a: nat, b: nat, width: nat)
    requires a <= b
    ensures a * width <= b * width
  {
    assert (b - a) * width >= 0;
  }

  /** Nodes and cells are bound one to one. */
  ghost predicate Bound(ns: seq<KvNode>, home: seq<nat>)
  {
    && |home| == |ns|
    && (forall i :: 0 <= i < |ns| ==> ns[i].data < |home| && home[ns[i].data] == i)
    && (forall c :: 0 <= c < |home| ==> home[c] < |ns| && ns[home[c]].data == c)
  }

  /** For every cell in use its key and its value. */
  ghost function LiveCells<V>(ns: seq<KvNode>, ds: seq<V>, home: seq<nat>): (m: map<nat, (nat, V)>)
    requires Bound(ns, home) && |ds| == |ns|
  {
    map c: nat | c < |home| && ns[home[c]].valid :: (ns[home[c]].key, ds[c])
  }

  lemma NoneLive<V>(ns: seq<KvNode>, ds: seq<V>, home: seq<nat>)
    requires Bound(ns, home) && |ds| == |ns|
    ensures |LiveCells(ns, ds, home)| == 0 <==> forall i :: 0 <= i < |ns| ==> !ns[i].valid
    ensures (forall i :: 0 <= i < |ns| ==> !ns[i].valid) ==> LiveCells(ns, ds, home) == map[]
  {
    if i :| 0 <= i < |ns| && ns[i].valid {
      assert ns[i].data in LiveCells(ns, ds, home);
    } else {
      assert LiveCells(ns, ds, home) == map[];
    }
  }

  lemma NodeAdded<V>(ns: seq<KvNode>, ds: seq<V>, home: seq<nat>, i: nat, key: nat, value: V)
    requires Bound(ns, home) && |ds| == |ns| && i < |ns| && !ns[i].valid
    ensures var c := ns[i].data;
            var ms, es := ns[i := KvNode(true, key, c)], ds[c := value];
            && Bound(ms, home) && c !in LiveCells(ns, ds, home)
            && LiveCells(ms, es, home) == LiveCells(ns, ds, home)[c := (key, value)]
            && |LiveCells(ms, es, home)| == |LiveCells(ns, ds, home)| + 1
  {
    var c := ns[i].data;
    assert LiveCells(ns[i := KvNode(true, key, c)], ds[c := value], home) == LiveCells(ns, ds, home)[c := (key, value)];
  }

  lemma NodeRemoved<V>(ns: seq<KvNode>, ds: seq<V>, home: seq<nat>, i: nat)
    requires Bound(ns, home) && |ds| == |ns| && i < |ns|
    ensures var c := ns[i].data;
            var ms := ns[i := KvNode(false, KV_KEY_INVALID, c)];
            && Bound(ms, home)
            && LiveCells(ms, ds, home) == LiveCells(ns, ds, home) - {c}
            && (ns[i].valid ==> |LiveCells(ms, ds, home)| == |LiveCells(ns, ds, home)| - 1)
            && (!ns[i].valid ==> LiveCells(ns, ds, home) - {c} == LiveCells(ns, ds, home))
  {
    var c := ns[i].data;
    var before, after := LiveCells(ns, ds, home), LiveCells(ns[i := KvNode(false, KV_KEY_INVALID, c)], ds, home);
    assert after == before - {c};
    EntryRemoved(before, c);
  }

  lemma EntryRemoved<K, W>(m: map<K, W>, k: K)
    ensures k in m ==> |m - {k}| == |m| - 1
    ensures k !in m ==> m - {k} == m
  {
    assert (m - {k}).Keys == m.Keys - {k};
  }

  lemma NodesSwapped<V>(ns: seq<KvNode>, ds: seq<V>, home: seq<nat>, i: nat, j: nat)
    requires Bound(ns, home) && |ds| == |ns| && i < |ns| && j < |ns|
    ensures var ms, away := ns[i := ns[j]][j := ns[i]], home[ns[i].data := j][ns[j].data := i];
            Bound(ms, away) && LiveCells(ms, ds, away) == LiveCells(ns, ds, home)
  {
  }

  // ----- counting

  /** Fewer than `n` numbers below `n` leave one out. */
  lemma {:induction false} Pigeonhole(s: set<nat>, n: nat)
    requires forall c :: c in s ==> c < n
    ensures |s| <= n
    ensures |s| == n ==> forall c :: 0 <= c < n ==> c in s
  {
    if n > 0 {
      Pigeonhole(s - {n - 1}, n - 1);
    } else {
      assert s == {};
    }
  }

  /** If as many cells are in use as there are, every node is. */
  lemma CellsBelowDepth<V>(ns: seq<KvNode>, ds: seq<V>, home: seq<nat>)
    requires Bound(ns, home) && |ds| == |ns|
    ensures |LiveCells(ns, ds, home)| <= |ns|
    ensures |LiveCells(ns, ds, home)| == |ns| <==> forall i :: 0 <= i < |ns| ==> ns[i].valid
  {
    var live := LiveCells(ns, ds, home);
    Pigeonhole(live.Keys, |ns|);
    if |live| == |ns| {
      forall i | 0 <= i < |ns|
        ensures ns[i].valid
      {
        assert ns[i].data in live;
      }
    }
    if forall i :: 0 <= i < |ns| ==> ns[i].valid {
      assert live.Keys == CellNumbers(|ns|);
    }
  }

  /** All cell numbers below `n`. */
  function CellNumbers(n: nat): (s: set<nat>)
    ensures |s| == n && forall c :: c in s <==> 0 <= c < n
  {
    if n == 0 then {} else CellNumbers(n - 1) + {n - 1}
  }

  /** Cells in use among the first `i` nodes. */
  ghost function Seen<V>(ns: seq<KvNode>, ds: seq<V>, home: seq<nat>, i: nat): set<nat>
    requires Bound(ns, home) && |ds| == |ns|
  {
    set c | c in LiveCells(ns, ds, home) && home[c] < i
  }

  lemma SeenNone<V>(ns: seq<KvNode>, ds: seq<V>, home: seq<nat>)
    requires Bound(ns, home) && |ds| == |ns|
    ensures |Seen(ns, ds, home, 0)| == 0
  {
    assert Seen(ns, ds, home, 0) == {};
  }

  lemma SeenNext<V>(ns: seq<KvNode>, ds: seq<V>, home: seq<nat>, i: nat)
    requires Bound(ns, home) && |ds| == |ns| && i < |ns|
    ensures |Seen(ns, ds, home, i + 1)| == |Seen(ns, ds, home, i)| + AsInt(ns[i].valid)
  {
    var a, b := Seen(ns, ds, home, i), Seen(ns, ds, home, i + 1);
    assert ns[i].data !in a;
    if ns[i].valid {
      assert b == a + {ns[i].data};
    } else {
      assert b == a;
    }
  }

  lemma SeenEnd<V>(ns: seq<KvNode>, ds: seq<V>, home: seq<nat>)
    requires Bound(ns, home) && |ds| == |ns|
    ensures |Seen(ns, ds, home, |ns|)| == |LiveCells(ns, ds, home)|
  {
    assert Seen(ns, ds, home, |ns|) == LiveCells(ns, ds, home).Keys;
  }

  /** Once as many cells in use were seen as there are, no node in use is left. */
  lemma SeenAll<V>(ns: seq<KvNode>, ds: seq<V>, home: seq<nat>, i: nat)
    requires Bound(ns, home) && |ds| == |ns| && i <= |ns|
    requires i == |ns| || |Seen(ns, ds, home, i)| >= |LiveCells(ns, ds, home)|
    ensures forall k :: i <= k < |ns| ==> !ns[k].valid
  {
    if k :| i <= k < |ns| && ns[k].valid {
      var seen, live := Seen(ns, ds, home, i), LiveCells(ns, ds, home).Keys;
      assert ns[k].data in live && ns[k].data !in seen;
      SubsetSize(seen, live - {ns[k].data});
    }
  }

  lemma SubsetSize<T>(a: set<T>, b: set<T>)
    requires a <= b
    ensures |a| <= |b|
  {
    assert b == a + (b - a);
  }

  /** In sorted order the nodes in use come first, ascending, and they are as many as the
      cells in use. */
  lemma UsedFirst<V>(ns: seq<KvNode>, ds: seq<V>, home: seq<nat>)
    requires Bound(ns, home) && |ds| == |ns| && SortedNodes(ns)
    ensures var n := |LiveCells(ns, ds, home)|;
            && n <= |ns|
            && (forall i :: 0 <= i < |ns| ==> (ns[i].valid <==> i < n))
            && (forall i, j :: 0 <= i < j < n ==> ns[i].key <= ns[j].key)
  {
    var k := 0;
    SeenNone(ns, ds, home);
    while k < |ns| && ns[k].valid
      invariant 0 <= k <= |ns|
      invariant forall l :: 0 <= l < k ==> ns[l].valid
      invariant |Seen(ns, ds, home, k)| == k
    {
      SeenNext(ns, ds, home, k);
      k := k + 1;
    }
    assert forall l :: k <= l < |ns| ==> !ns[l].valid;
    assert Seen(ns, ds, home, k) == LiveCells(ns, ds, home).Keys;
    assert forall i, j :: 0 <= i < j < k ==> CompareNodeKey(ns[i], ns[j]) <= 0;
  }

  // ----- entries in slot order

  /** Nodes point at cells. */
  predicate InCells(ns: seq<KvNode>, cells: nat)
  {
    forall i :: 0 <= i < |ns| ==> ns[i].data < cells
  }

  lemma CellsBound(ns: seq<KvNode>, home: seq<nat>)
    requires Bound(ns, home)
    ensures InCells(ns, |home|) && |home| == |ns|
  {
  }

  /** Keys and values in use, in the order of the nodes. */
  function UsedEntries<V>(ns: seq<KvNode>, ds: seq<V>): seq<(nat, V)>
    requires InCells(ns, |ds|)
  {
    if ns == [] then [] else UsedEntries(ns[..|ns| - 1], ds) + OwnEntry(ns[|ns| - 1], ds)
  }

  function OwnEntry<V>(n: KvNode, ds: seq<V>): seq<(nat, V)>
    requires n.data < |ds|
  {
    if n.valid then [(n.key, ds[n.data])] else []
  }

  lemma {:induction false} EntriesConcat<V>(a: seq<KvNode>, b: seq<KvNode>, ds: seq<V>)
    requires InCells(a, |ds|) && InCells(b, |ds|)
    ensures UsedEntries(a + b, ds) == UsedEntries(a, ds) + UsedEntries(b, ds)
  {
    if b == [] {
      assert a + b == a;
    } else {
      var n := |b| - 1;
      EntriesConcat(a, b[..n], ds);
      assert (a + b)[..|a| + n] == a + b[..n];
      assert (a + b)[|a + b| - 1] == b[n];
      Regroup(UsedEntries(a, ds), UsedEntries(b[..n], ds), OwnEntry(b[n], ds));
    }
  }

  lemma Regroup<X>(a: seq<X>, b: seq<X>, c: seq<X>)
    ensures a + b + c == a + (b + c)
  {
  }

  lemma EntriesOne<V>(n: KvNode, ds: seq<V>)
    requires n.data < |ds|
    ensures UsedEntries([n], ds) == OwnEntry(n, ds)
  {
    assert [n][..0] == [];
    assert UsedEntries([], ds) == [];
  }

  /** The entries around one node. */
  lemma EntriesAround<V>(ns: seq<KvNode>, ds: seq<V>, i: nat)
    requires InCells(ns, |ds|) && i < |ns|
    ensures UsedEntries(ns, ds) == UsedEntries(ns[..i], ds) + OwnEntry(ns[i], ds) + UsedEntries(ns[i + 1..], ds)
  {
    assert ns == ns[..i] + [ns[i]] + ns[i + 1..];
    EntriesConcat(ns[..i] + [ns[i]], ns[i + 1..], ds);
    EntriesConcat(ns[..i], [ns[i]], ds);
    EntriesOne(ns[i], ds);
  }

  /** Exchanging two nodes only changes the order of the entries. */
  lemma EntriesSwapped<V>(ns: seq<KvNode>, ds: seq<V>, i: nat, j: nat)
    requires InCells(ns, |ds|) && i <= j < |ns|
    ensures InCells(ns[i := ns[j]][j := ns[i]], |ds|)
    ensures multiset(UsedEntries(ns[i := ns[j]][j := ns[i]], ds)) == multiset(UsedEntries(ns, ds))
  {
    hide UsedEntries, OwnEntry;
    var ms := ns[i := ns[j]][j := ns[i]];
    if i < j {
      EntriesAround(ns, ds, i);
      EntriesAround(ms, ds, i);
      EntriesAround(ns[i + 1..], ds, j - i - 1);
      EntriesAround(ms[i + 1..], ds, j - i - 1);
      assert ms[..i] == ns[..i];
      assert ms[i + 1..][..j - i - 1] == ns[i + 1..][..j - i - 1];
      assert ms[i + 1..][j - i..] == ns[i + 1..][j - i..];
      assert ms[i] == ns[j] && ms[j] == ns[i];
    } else {
      assert ms == ns;
    }
  }

  /** Every used node has its entry among the entries, and no other entry is there. */
  lemma {:induction false} EntryOf<V>(ns: seq<KvNode>, ds: seq<V>)
    requires InCells(ns, |ds|)
    ensures forall i :: 0 <= i < |ns| && ns[i].valid ==> (ns[i].key, ds[ns[i].data]) in UsedEntries(ns, ds)
    ensures forall e :: e in UsedEntries(ns, ds) ==>
              exists i :: 0 <= i < |ns| && ns[i].valid && e == (ns[i].key, ds[ns[i].data])
  {
    if ns != [] {
      var n := |ns| - 1;
      EntryOf(ns[..n], ds);
      forall i | 0 <= i < |ns| && ns[i].valid
        ensures (ns[i].key, ds[ns[i].data]) in UsedEntries(ns, ds)
      {
        if i < n {
          assert ns[..n][i] == ns[i];
        }
      }
      forall e | e in UsedEntries(ns, ds)
        ensures exists i :: 0 <= i < |ns| && ns[i].valid && e == (ns[i].key, ds[ns[i].data])
      {
        if e in UsedEntries(ns[..n], ds) {
          var i :| 0 <= i < n && ns[..n][i].valid && e == (ns[..n][i].key, ds[ns[..n][i].data]);
          assert ns[i] == ns[..n][i];
        } else {
          assert ns[n].valid;
        }
      }
    }
  }

  /** What a search may return: the first entry with the key, or, when the nodes are sorted
      and searched by bsearch, any. */
  ghost predicate Finds<V>(es: seq<(nat, V)>, sorted: bool, key: nat, r: Option<V>)
  {
    if sorted then
      if r.Some? then (key, r.value) in es else forall e :: e in es ==> e.0 != key
    else r == FirstWith(es, key)
  }

  function FirstWith<V>(es: seq<(nat, V)>, key: nat): (r: Option<V>)
    ensures r.Some? ==> (key, r.value) in es
    ensures r.None? <==> forall e :: e in es ==> e.0 != key
  {
    if es == [] then None
    else if es[0].0 == key then Some(es[0].1)
    else
      assert forall e :: e in es ==> e == es[0] || e in es[1..];
      FirstWith(es[1..], key)
  }

  lemma {:induction false} FirstBehind<V>(a: seq<(nat, V)>, b: seq<(nat, V)>, key: nat)
    requires forall e :: e in a ==> e.0 != key
    ensures FirstWith(a + b, key) == FirstWith(b, key)
  {
    if a == [] {
      assert a + b == b;
    } else {
      assert (a + b)[0] == a[0] && (a + b)[1..] == a[1..] + b;
      FirstBehind(a[1..], b, key);
    }
  }

  /** `i` is the lowest used slot with the key. */
  ghost predicate LowestWith(ns: seq<KvNode>, key: nat, i: nat)
  {
    && i < |ns| && ns[i].valid && ns[i].key == key
    && forall k :: 0 <= k < i && ns[k].valid ==> ns[k].key != key
  }

  /** The lowest used slot with a key holds the first entry with it. */
  lemma LowestIsFirst<V>(ns: seq<KvNode>, ds: seq<V>, key: nat, i: nat)
    requires InCells(ns, |ds|) && LowestWith(ns, key, i)
    ensures FirstWith(UsedEntries(ns, ds), key) == Some(ds[ns[i].data])
  {
    hide UsedEntries;
    EntriesAround(ns, ds, i);
    EntryOf(ns[..i], ds);
    var a, b := UsedEntries(ns[..i], ds), UsedEntries(ns[i + 1..], ds);
    var e := (key, ds[ns[i].data]);
    FirstBehind(a, [e] + b, key);
    assert a + OwnEntry(ns[i], ds) + b == a + ([e] + b);
    assert ([e] + b)[0] == e;
  }

  /** Used slots come first. */
  ghost predicate Packed(ns: seq<KvNode>)
  {
    forall i, j :: 0 <= i < j < |ns| && ns[j].valid ==> ns[i].valid
  }

  lemma SortedIsPacked(ns: seq<KvNode>)
    requires SortedNodes(ns)
    ensures Packed(ns)
  {
    forall i, j | 0 <= i < j < |ns| && ns[j].valid
      ensures ns[i].valid
    {
      assert CompareNodeKey(ns[i], ns[j]) <= 0;
    }
  }

  lemma {:induction false} NoEntries<V>(ns: seq<KvNode>, ds: seq<V>)
    requires InCells(ns, |ds|) && forall i :: 0 <= i < |ns| ==> !ns[i].valid
    ensures UsedEntries(ns, ds) == []
  {
    if ns != [] {
      NoEntries(ns[..|ns| - 1], ds);
    }
  }

  /** Values of cells no used node points to do not matter. */
  lemma {:induction false} EntriesKept<V>(ns: seq<KvNode>, ds: seq<V>, es: seq<V>)
    requires |ds| == |es| && InCells(ns, |ds|)
    requires forall i :: 0 <= i < |ns| && ns[i].valid ==> ds[ns[i].data] == es[ns[i].data]
    ensures UsedEntries(ns, ds) == UsedEntries(ns, es)
  {
    if ns != [] {
      EntriesKept(ns[..|ns| - 1], ds, es);
    }
  }

  /** Taking the lowest free slot of a packed list appends the entry. */
  lemma EntryAppended<V>(ns: seq<KvNode>, ds: seq<V>, home: seq<nat>, i: nat, key: nat, value: V)
    requires Bound(ns, home) && |ds| == |ns| && InCells(ns, |ds|) && Packed(ns) && i < |ns| && !ns[i].valid
    requires forall k :: 0 <= k < i ==> ns[k].valid
    ensures var c := ns[i].data;
            var ms, es := ns[i := KvNode(true, key, c)], ds[c := value];
            InCells(ms, |es|) && Packed(ms) && UsedEntries(ms, es) == UsedEntries(ns, ds) + [(key, value)]
  {
    hide UsedEntries;
    var c := ns[i].data;
    var ms, es := ns[i := KvNode(true, key, c)], ds[c := value];
    EntriesAround(ns, ds, i);
    EntriesAround(ms, es, i);
    assert ms[..i] == ns[..i] && ms[i + 1..] == ns[i + 1..];
    forall k | 0 <= k < i
      ensures ns[k].data != c
    {
      assert home[ns[k].data] == k && home[c] == i;
    }
    EntriesKept(ns[..i], ds, es);
    NoEntries(ns[i + 1..], ds);
    NoEntries(ns[i + 1..], es);
  }

  /** There are as many entries as cells in use. */
  lemma {:induction false} EntriesSeen<V>(ns: seq<KvNode>, ds: seq<V>, home: seq<nat>, i: nat)
    requires Bound(ns, home) && |ds| == |ns| && InCells(ns, |ds|) && i <= |ns|
    ensures |UsedEntries(ns[..i], ds)| == |Seen(ns, ds, home, i)|
  {
    if i == 0 {
      SeenNone(ns, ds, home);
    } else {
      EntriesSeen(ns, ds, home, i - 1);
      SeenNext(ns, ds, home, i - 1);
      assert ns[..i][..i - 1] == ns[..i - 1];
    }
  }

  lemma EntriesCount<V>(ns: seq<KvNode>, ds: seq<V>, home: seq<nat>)
    requires Bound(ns, home) && |ds| == |ns| && InCells(ns, |ds|)
    ensures |UsedEntries(ns, ds)| == |LiveCells(ns, ds, home)|
  {
    EntriesSeen(ns, ds, home, |ns|);
    SeenEnd(ns, ds, home);
    assert ns[..|ns|] == ns;
  }

  lemma EntriesNext<V>(ns: seq<KvNode>, ds: seq<V>, i: nat)
    requires InCells(ns, |ds|) && i < |ns|
    ensures UsedEntries(ns[..i + 1], ds) == UsedEntries(ns[..i], ds) + OwnEntry(ns[i], ds)
  {
    assert ns[..i + 1][..i] == ns[..i];
  }

  /** Keys in ascending order. */
  ghost predicate Ordered<V>(es: seq<(nat, V)>)
  {
    forall i, j :: 0 <= i < j < |es| ==> es[i].0 <= es[j].0
  }

  lemma EntriesBelow<V>(ns: seq<KvNode>, ds: seq<V>, bound: nat)
    requires InCells(ns, |ds|) && forall i :: 0 <= i < |ns| && ns[i].valid ==> ns[i].key <= bound
    ensures forall e :: e in UsedEntries(ns, ds) ==> e.0 <= bound
  {
    hide UsedEntries;
    EntryOf(ns, ds);
  }

  /** Nodes before a used one in sorted order have smaller keys, if used, or the same. */
  lemma SortedBefore(ns: seq<KvNode>, n: nat)
    requires SortedNodes(ns) && n < |ns| && ns[n].valid
    ensures forall i :: 0 <= i < n && ns[..n][i].valid ==> ns[..n][i].key <= ns[n].key
  {
    forall i | 0 <= i < n && ns[..n][i].valid
      ensures ns[..n][i].key <= ns[n].key
    {
      assert CompareNodeKey(ns[i], ns[n]) <= 0;
    }
  }

  lemma OrderedNext<V>(es: seq<(nat, V)>, e: (nat, V))
    requires Ordered(es) && forall d :: d in es ==> d.0 <= e.0
    ensures Ordered(es + [e])
  {
  }

  lemma {:induction false} SortedEntries<V>(ns: seq<KvNode>, ds: seq<V>)
    requires InCells(ns, |ds|) && SortedNodes(ns)
    ensures Ordered(UsedEntries(ns, ds))
  {
    hide Ordered, CompareNodeKey;
    if ns == [] {
      NothingOrdered<V>();
    } else {
      var n := |ns| - 1;
      SortedEntries(ns[..n], ds);
      if ns[n].valid {
        SortedBefore(ns, n);
        EntriesBelow(ns[..n], ds, ns[n].key);
        OrderedNext(UsedEntries(ns[..n], ds), (ns[n].key, ds[ns[n].data]));
      } else {
        assert UsedEntries(ns, ds) == UsedEntries(ns[..n], ds);
      }
    }
  }

  lemma NothingOrdered<V>()
    ensures Ordered<V>([])
  {
  }
}
