/** The key-value list: an array of nodes bound one to one to an array of data cells, searched
    linearly or, while it is sorted, by bisection. */
module KvList {
  import opened Readers
  import opened KvNodes

  class KvList<V> {
    const nodes: array<KvNode>
    const data: array<V>
    var count: nat
    var sorted: bool
    /** The node each data cell is bound to. */
    ghost var home: seq<nat>

    /** The storage of the list: as many cells as nodes. */
    ghost predicate Shaped()
      reads this
    {
      nodes.Length == data.Length && nodes as object != data as object
    }

    ghost predicate WellBound()
      reads this, nodes
    {
      Shaped() && Bound(nodes[..], home)
    }

    /** The list as its users see it: for every cell in use its key and its value. */
    ghost function Live(): map<nat, (nat, V)>
      reads this, nodes, data
      requires WellBound()
    {
      LiveCells(nodes[..], data[..], home)
    }

    /** Keys and values in use, in the order of the slots. */
    ghost function Entries(): seq<(nat, V)>
      reads this, nodes, data
      requires WellBound()
    {
      UsedEntries(nodes[..], data[..])
    }

    ghost predicate Valid()
      reads this, nodes, data
      ensures Valid() ==> WellBound() && count == |Live()|
    {
      && WellBound()
      && count == |Live()|
      && (sorted ==> SortedNodes(nodes[..]))
    }

    /** In order, with the used slots first. */
    ghost predicate Compact()
      reads this, nodes, data
      ensures Compact() ==> Valid()
    {
      Valid() && Packed(nodes[..])
    }

    /** Storage as it is before kv_list_init: no slot is used. */
    ghost predicate Unused()
      reads this, nodes
      ensures Unused() ==> Shaped()
    {
      Shaped() && forall i :: 0 <= i < nodes.Length ==> !nodes[i].valid
    }

    /** DEF_STATIC_KV_LIST: the list over given storage, before kv_list_init. */
    constructor (nodes: array<KvNode>, data: array<V>)
      ensures this.nodes == nodes && this.data == data && count == 0 && !sorted
    {
      this.nodes, this.data, count, sorted, home := nodes, data, 0, false, [];
    }

    /** kv_list_init does not clear the `valid` flags: the list is in order exactly when no
        node was in use. */
    method Init()
      requires Shaped()
      modifies this, nodes
      ensures Valid() <==> forall i :: 0 <= i < nodes.Length ==> !old(nodes[i].valid)
      ensures Valid() ==> Live() == map[]
      ensures WellBound() && count == 0 && !sorted
      ensures old(Unused()) ==> Unused() && Compact() && Entries() == []
    {
      hide LiveCells, UsedEntries;
      count, sorted := 0, false;
      var i := 0;
      while i < nodes.Length
        invariant 0 <= i <= nodes.Length
        invariant forall k :: 0 <= k < i ==> nodes[k] == KvNode(old(nodes[k].valid), KV_KEY_INVALID, k)
        invariant forall k :: i <= k < nodes.Length ==> nodes[k] == old(nodes[k])
        invariant count == 0 && !sorted
      {
        nodes[i] := nodes[i].(data := i);
        nodes[i] := nodes[i].(key := KV_KEY_INVALID);
        i := i + 1;
      }
      home := seq(nodes.Length, k => k);
      NoneLive(nodes[..], data[..], home);
      if Unused() {
        NoEntries(nodes[..], data[..]);
      }
    }

    /** kv_list_add: on a list that is not full it always finds a free node. While used slots
        come first it appends to them. */
    method Add(key: nat, value: V) returns (r: Option<nat>)
      requires Valid()
      modifies this, nodes, data
      ensures Valid()
      ensures old(count) <= nodes.Length && (r.None? <==> old(count) == nodes.Length)
      ensures r.None? ==> Live() == old(Live()) && sorted == old(sorted)
      ensures r.Some? ==> r.value < nodes.Length
                          && var c := nodes[r.value].data;
                             c !in old(Live()) && Live() == old(Live())[c := (key, value)] && !sorted
      ensures old(Compact()) ==> Compact() && Entries() == old(Entries()) + if r.None? then [] else [(key, value)]
    {
      hide LiveCells, SortedNodes, UsedEntries, Packed;
      CellsBelowDepth(nodes[..], data[..], home);
      if count >= nodes.Length {
        return None;
      }
      var i := 0;
      while i < nodes.Length
        invariant 0 <= i <= nodes.Length
        invariant forall k :: 0 <= k < i ==> nodes[k].valid
      {
        if !nodes[i].valid {
          NodeAdded(nodes[..], data[..], home, i, key, value);
          if Packed(nodes[..]) {
            EntryAppended(nodes[..], data[..], home, i, key, value);
          }
          ghost var ns, ds, c := nodes[..], data[..], nodes[i].data;
          nodes[i] := nodes[i].(valid := true);
          nodes[i] := nodes[i].(key := key);
          data[nodes[i].data] := value;
          count := count + 1;
          sorted := false;
          assert nodes[..] == ns[i := KvNode(true, key, c)] && data[..] == ds[c := value];
          return Some(i);
        }
        i := i + 1;
      }
      assert false;
    }

    /** kv_list_clear */
    method Clear()
      requires Valid()
      modifies this, nodes
      ensures Valid() && Live() == map[] && !sorted
    {
      hide LiveCells, SortedNodes;
      var i := 0;
      while i < nodes.Length
        invariant 0 <= i <= nodes.Length
        invariant forall k :: 0 <= k < i ==> nodes[k] == KvNode(false, KV_KEY_INVALID, old(nodes[k].data))
        invariant forall k :: i <= k < nodes.Length ==> nodes[k] == old(nodes[k])
        invariant unchanged(this)
      {
        nodes[i] := nodes[i].(valid := false);
        nodes[i] := nodes[i].(key := KV_KEY_INVALID);
        i := i + 1;
      }
      count, sorted := 0, false;
      NoneLive(nodes[..], data[..], home);
    }

    /** kv_list_remove_node */
    method RemoveNode(index: nat)
      requires Valid() && index < nodes.Length
      modifies this, nodes
      ensures Valid()
      ensures Live() == old(Live()) - {old(nodes[index].data)}
      ensures sorted == (old(sorted) && !old(nodes[index].valid))
    {
      hide LiveCells, SortedNodes;
      NodeRemoved(nodes[..], data[..], home, index);
      if !nodes[index].valid {
        return;
      }
      ghost var ns, c := nodes[..], nodes[index].data;
      nodes[index] := nodes[index].(valid := false);
      nodes[index] := nodes[index].(key := KV_KEY_INVALID);
      assert nodes[..] == ns[index := KvNode(false, KV_KEY_INVALID, c)];
      count := count - 1;
      sorted := false;
    }

    /** general_search: it finds the lowest slot with the key, and leaving as soon as `count`
        used nodes were seen misses nothing. */
    method GeneralSearch(key: nat) returns (r: Option<nat>)
      requires Valid()
      ensures r.Some? ==> LowestWith(nodes[..], key, r.value)
      ensures r.None? ==> forall i :: 0 <= i < nodes.Length && nodes[i].valid ==> nodes[i].key != key
    {
      hide LiveCells, SortedNodes;
      var i, j := 0, 0;
      SeenNone(nodes[..], data[..], home);
      while i < nodes.Length && j < count
        invariant 0 <= i <= nodes.Length && j == |Seen(nodes[..], data[..], home, i)|
        invariant forall k :: 0 <= k < i && nodes[k].valid ==> nodes[k].key != key
      {
        SeenNext(nodes[..], data[..], home, i);
        if nodes[i].valid {
          j := j + 1;
          if nodes[i].key == key {
            return Some(i);
          }
        }
        i := i + 1;
      }
      SeenAll(nodes[..], data[..], home, i);
      return None;
    }

    /** binary_search: bsearch over the sorted nodes. */
    method BinarySearch(key: nat) returns (r: Option<nat>)
      requires Valid() && sorted
      ensures r.Some? ==> r.value < nodes.Length && nodes[r.value].valid && nodes[r.value].key == key
      ensures r.None? ==> forall i :: 0 <= i < nodes.Length && nodes[i].valid ==> nodes[i].key != key
    {
      hide LiveCells, SortedNodes;
      var target := KvNode(true, key, 0);
      var low, high := 0, nodes.Length;
      while low < high
        invariant 0 <= low <= high <= nodes.Length
        invariant forall i :: 0 <= i < low ==> CompareNodeKey(nodes[i], target) < 0
        invariant forall i :: high <= i < nodes.Length ==> CompareNodeKey(nodes[i], target) > 0
      {
        var mid := (low + high) / 2;
        var order := CompareNodeKey(target, nodes[mid]);
        if order == 0 {
          return Some(mid);
        } else if order < 0 {
          Above(target, nodes[..], mid);
          high := mid;
        } else {
          Below(target, nodes[..], mid);
          low := mid + 1;
        }
      }
      return None;
    }

    /** kv_list_search: whichever path is taken, it finds a cell in use with the key, or
        there is none. */
    method Search(key: nat) returns (r: Option<nat>)
      requires Valid()
      ensures r.Some? ==> r.value < nodes.Length
                          && var c := nodes[r.value].data; c in Live() && Live()[c] == (key, data[c])
      ensures r.None? ==> forall c :: c in Live() ==> Live()[c].0 != key
      ensures r.None? ==> forall i :: 0 <= i < nodes.Length && nodes[i].valid ==> nodes[i].key != key
      ensures r.Some? ==> nodes[r.value].valid && nodes[r.value].key == key
      ensures r.Some? && !sorted ==> LowestWith(nodes[..], key, r.value)
    {
      if sorted {
        r := BinarySearch(key);
      } else {
        r := GeneralSearch(key);
      }
    }

    /** A search and the value behind its result, as ble_link_get does it. */
    method Get(key: nat) returns (r: Option<V>)
      requires Valid()
      ensures Finds(Entries(), sorted, key, r)
      ensures r.Some? <==> exists c :: c in Live() && Live()[c].0 == key
      ensures r.Some? ==> exists c :: c in Live() && Live()[c] == (key, r.value)
    {
      hide LiveCells, SortedNodes, UsedEntries;
      var node := Search(key);
      EntryOf(nodes[..], data[..]);
      if node.None? {
        return None;
      }
      if !sorted {
        LowestIsFirst(nodes[..], data[..], key, node.value);
      }
      var c := nodes[node.value].data;
      assert c in Live() && Live()[c] == (key, data[c]);
      return Some(data[c]);
    }

    /** kv_list_remove: the source requires the key to be there. */
    method Remove(key: nat) returns (ghost c: nat)
      requires Valid()
      requires exists c :: c in Live() && Live()[c].0 == key
      modifies this, nodes
      ensures Valid()
      ensures c in old(Live()) && old(Live())[c].0 == key && Live() == old(Live()) - {c}
    {
      hide LiveCells, SortedNodes;
      ghost var d :| d in Live() && Live()[d].0 == key;
      var node := Search(key);
      assert d in Live();
      c := nodes[node.value].data;
      RemoveNode(node.value);
    }

    /** kv_list_walk: the keys in use, in the order of the slots. */
    method Walk(keys: array<nat>) returns (n: nat)
      requires Valid() && keys.Length >= count && keys as object != nodes as object && keys as object != data as object
      modifies keys
      ensures n == count == |Entries()| && forall k :: 0 <= k < n ==> keys[k] == Entries()[k].0
    {
      hide LiveCells, SortedNodes, Bound, Seen, UsedEntries, Valid;
      n := 0;
      var i := 0;
      CellsBound(nodes[..], home);
      NoEntries(nodes[..0], data[..]);
      EntriesCount(nodes[..], data[..], home);
      while i < nodes.Length
        invariant 0 <= i <= nodes.Length && n == |UsedEntries(nodes[..i], data[..])| <= keys.Length
        invariant forall k :: 0 <= k < n ==> keys[k] == UsedEntries(nodes[..i], data[..])[k].0
        invariant unchanged(this) && unchanged(nodes) && unchanged(data)
      {
        EntriesNext(nodes[..], data[..], i);
        EntriesAround(nodes[..], data[..], i);
        if nodes[i].valid {
          keys[n] := nodes[i].key;
          n := n + 1;
        }
        i := i + 1;
      }
      assert nodes[..i] == nodes[..];
    }

    /** One exchange of qsort, which moves whole nodes. */
    method Swap(i: nat, j: nat)
      requires WellBound() && i <= j < nodes.Length
      modifies `home, nodes
      ensures WellBound() && Live() == old(Live()) && multiset(Entries()) == multiset(old(Entries()))
      ensures nodes[..] == old(nodes[..])[i := old(nodes[j])][j := old(nodes[i])]
    {
      hide LiveCells, UsedEntries;
      NodesSwapped(nodes[..], data[..], home, i, j);
      EntriesSwapped(nodes[..], data[..], i, j);
      ghost var a, b := nodes[i].data, nodes[j].data;
      nodes[i], nodes[j] := nodes[j], nodes[i];
      home := home[a := j][b := i];
    }

    /** kv_list_sort, with a selection sort in the place of qsort: users see no change, not
        even in the cell a key is bound to. */
    method Sort()
      requires Valid()
      modifies this, nodes
      ensures Valid() && Live() == old(Live()) && sorted
      ensures multiset(Entries()) == multiset(old(Entries())) && Ordered(Entries()) && Compact()
    {
      hide LiveCells, Bound, CompareNodeKey, UsedEntries, Ordered, Packed;
      var i := 0;
      while i < nodes.Length
        invariant 0 <= i <= nodes.Length
        invariant WellBound() && Live() == old(Live()) && count == old(count)
        invariant multiset(Entries()) == multiset(old(Entries()))
        invariant forall a, b :: 0 <= a < i && a < b < nodes.Length ==> CompareNodeKey(nodes[a], nodes[b]) <= 0
      {
        var least := Least(i);
        ghost var ns := nodes[..];
        Swap(i, least);
        assert forall k :: 0 <= k < i ==> nodes[k] == ns[k];
        assert forall k :: i <= k < nodes.Length ==> nodes[..][k] in ns[i..];
        i := i + 1;
      }
      sorted := true;
      CellsBound(nodes[..], home);
      SortedEntries(nodes[..], data[..]);
      SortedIsPacked(nodes[..]);
    }

    /** A node from `start` on that compares below all others from there on. */
    method Least(start: nat) returns (m: nat)
      requires start < nodes.Length
      ensures start <= m < nodes.Length
      ensures forall k :: start <= k < nodes.Length ==> CompareNodeKey(nodes[m], nodes[k]) <= 0
    {
      m := start;
      var k := start + 1;
      while k < nodes.Length
        invariant start <= m < k <= nodes.Length
        invariant forall l :: start <= l < k ==> CompareNodeKey(nodes[m], nodes[l]) <= 0
      {
        if CompareNodeKey(nodes[k], nodes[m]) < 0 {
          m := k;
        }
        k := k + 1;
      }
    }

    /** Two slots never share bytes of the data array: with cells of `width` bytes, theirs do
        not overlap and lie inside it. */
    lemma SlotsOwnTheirBytes(i: nat, j: nat, width: nat)
      requires Valid() && i < nodes.Length && j < nodes.Length && i != j
      ensures var a, b := nodes[i].data * width, nodes[j].data * width;
              && (a + width <= b || b + width <= a)
              && a + width <= nodes.Length * width && b + width <= nodes.Length * width
    {
      var c, d := nodes[i].data, nodes[j].data;
      assert home[c] == i && home[d] == j;
      if c < d {
        CellBytesDisjoint(c, d, width, nodes.Length);
      } else {
        CellBytesDisjoint(d, c, width, nodes.Length);
      }
    }

    /** While the list is sorted, the nodes in use come first, in ascending key order, and
        there are `count` of them. */
    lemma SortedLayout()
      requires Valid() && sorted
      ensures count <= nodes.Length
      ensures forall i :: 0 <= i < nodes.Length ==> (nodes[i].valid <==> i < count)
      ensures forall i, j :: 0 <= i < j < count ==> nodes[i].key <= nodes[j].key
    {
      UsedFirst(nodes[..], data[..], home);
      assert forall i :: 0 <= i < nodes.Length ==> nodes[i] == nodes[..][i];
    }
  }
}
