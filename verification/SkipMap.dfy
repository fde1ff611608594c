/** `lxcd::map`: an ordered map kept in a skip list. */
module SkipMaps {
  import L = SkipLevels
  import opened Options
  import opened SkipNodes
  import opened SortedEntries

  /** One operation of a run, with the coins it tosses. */
  datatype Op<K, V> =
    | InsertOp(item: Pair<K, V>, coins: nat -> bool)
    | SetOp(item: Pair<K, V>, default: V, coins: nat -> bool)
    | EraseOp(key: K)

  function AfterOp<K(==), V>(less: (K, K) -> bool, es: seq<Pair<K, V>>, op: Op<K, V>): seq<Pair<K, V>> {
    match op
    case InsertOp(item, _) => InsertAbsent(less, es, item)
    case SetOp(item, _, _) => Put(less, es, item)
    case EraseOp(key) => Remove(less, es, key)
  }

  function AfterRun<K(==), V>(less: (K, K) -> bool, es: seq<Pair<K, V>>, ops: seq<Op<K, V>>): seq<Pair<K, V>>
    decreases ops
  {
    if ops == [] then es else AfterRun(less, AfterOp(less, es, ops[0]), ops[1..])
  }

  /** No erasure of the run is asked for a key above all others. */
  ghost predicate RunDefined<K, V>(less: (K, K) -> bool, es: seq<Pair<K, V>>, ops: seq<Op<K, V>>)
    decreases ops
  {
    ops != [] ==>
      && (ops[0].EraseOp? ==> Rank(less, es, ops[0].key) < |es|)
      && RunDefined(less, AfterOp(less, es, ops[0]), ops[1..])
  }

  /** The same run on a finite map; the coins play no part in it. */
  function MapAfterRun<K(==), V>(m: map<K, V>, ops: seq<Op<K, V>>): map<K, V>
    decreases ops
  {
    if ops == [] then m
    else
      var n := match ops[0]
               case InsertOp(item, _) => if item.key in m then m else m[item.key := item.value]
               case SetOp(item, _, _) => m[item.key := item.value]
               case EraseOp(key) => m - {key};
      MapAfterRun(n, ops[1..])
  }

  lemma {:induction false} RunIsMapRun<K(!new), V>(less: (K, K) -> bool, es: seq<Pair<K, V>>, ops: seq<Op<K, V>>)
    requires TotalOrder(less) && Sorted(less, es)
    ensures Sorted(less, AfterRun(less, es, ops))
    ensures MapOf(AfterRun(less, es, ops)) == MapAfterRun(MapOf(es), ops)
    decreases ops
  {
    if ops == [] {
    } else {
      match ops[0] {
        case InsertOp(item, _) => InsertAbsentIsMapInsert(less, es, item);
        case SetOp(item, _, _) => PutIsMapUpdate(less, es, item);
        case EraseOp(key) => RemoveIsMapRemove(less, es, key);
      }
      RunIsMapRun(less, AfterOp(less, es, ops[0]), ops[1..]);
    }
  }

  function KeysLess<K, V>(less: (K, K) -> bool, es: seq<Pair<K, V>>, fs: seq<Pair<K, V>>): bool
    requires |es| == |fs|
  {
    es != [] && (less(es[0].key, fs[0].key)
                 || (!less(fs[0].key, es[0].key) && KeysLess(less, es[1..], fs[1..])))
  }

  lemma KeysLessStep<K, V>(less: (K, K) -> bool, es: seq<Pair<K, V>>, fs: seq<Pair<K, V>>, p: nat)
    requires p < |es| == |fs|
    ensures KeysLess(less, es[p..], fs[p..]) ==
              (less(es[p].key, fs[p].key) || (!less(fs[p].key, es[p].key) && KeysLess(less, es[p + 1..], fs[p + 1..])))
  {
    assert es[p..][1..] == es[p + 1..] && fs[p..][1..] == fs[p + 1..];
  }

  lemma Grown<K(!new), V>(less: (K, K) -> bool, es: seq<Pair<K, V>>, e: Pair<K, V>)
    requires TotalOrder(less) && Sorted(less, es) && !Has(less, es, e.key)
    ensures Sorted(less, InsertAbsent(less, es, e))
    ensures InsertAbsent(less, es, e) == es[..Rank(less, es, e.key)] + [e] + es[Rank(less, es, e.key)..]
    ensures |InsertAbsent(less, es, e)| == |es| + 1
  {
    OrderKept(less, es, e);
  }

  lemma Shrunk<K(!new), V>(less: (K, K) -> bool, es: seq<Pair<K, V>>, key: K)
    requires TotalOrder(less) && Sorted(less, es) && Has(less, es, key)
    ensures Sorted(less, Remove(less, es, key))
    ensures Remove(less, es, key) == es[..Rank(less, es, key)] + es[Rank(less, es, key) + 1..]
    ensures |Remove(less, es, key)| == |es| - 1
  {
    RemoveIsMapRemove(less, es, key);
  }

  function MapLess<K, V>(less: (K, K) -> bool, es: seq<Pair<K, V>>, fs: seq<Pair<K, V>>): bool {
    |es| < |fs| || (|es| == |fs| && KeysLess(less, es, fs))
  }

  /** `operator<` on maps is a strict weak order that looks at keys only: two maps are
      unordered exactly when they have the same keys, and otherwise one way round. */
  lemma {:induction false} MapLessDecides<K(!new), V>(less: (K, K) -> bool, es: seq<Pair<K, V>>, fs: seq<Pair<K, V>>)
    requires TotalOrder(less)
    ensures !(MapLess(less, es, fs) && MapLess(less, fs, es))
    ensures !MapLess(less, es, fs) && !MapLess(less, fs, es) <==>
              |es| == |fs| && forall i :: 0 <= i < |es| ==> es[i].key == fs[i].key
  {
    if |es| != |fs| || es == [] {
    } else {
      MapLessDecides(less, es[1..], fs[1..]);
      var a, b := es[0].key, fs[0].key;
      Asymmetric(less, a, b);
      assert Below(less, a, b) || a == b || less(b, a);
      assert forall i :: 0 < i < |es| ==> es[i] == es[1..][i - 1] && fs[i] == fs[1..][i - 1];
    }
  }

  /** Which way round: a map whose keys are some of another's, but not all, is less; and of two maps
      of one size the one with the smaller key at the first place where they differ. */
  lemma {:induction false} MapLessSubset<K(!new), V>(less: (K, K) -> bool, es: seq<Pair<K, V>>, fs: seq<Pair<K, V>>)
    requires TotalOrder(less) && Sorted(less, es) && Sorted(less, fs)
    requires MapOf(es).Keys < MapOf(fs).Keys
    ensures MapLess(less, es, fs) && !MapLess(less, fs, es)
  {
    SortedIsDistinct(less, es);
    SortedIsDistinct(less, fs);
    MapOfEntries(es);
    MapOfEntries(fs);
    var left := MapOf(fs).Keys - MapOf(es).Keys;
    assert MapOf(fs).Keys == MapOf(es).Keys + left && left != {};
    assert |MapOf(fs).Keys| == |MapOf(es).Keys| + |left|;
  }

  lemma {:induction false} MapLessAt<K(!new), V>(less: (K, K) -> bool, es: seq<Pair<K, V>>, fs: seq<Pair<K, V>>, i: nat)
    requires TotalOrder(less) && i < |es| == |fs| && less(es[i].key, fs[i].key)
    requires forall j :: 0 <= j < i ==> es[j].key == fs[j].key
    ensures MapLess(less, es, fs)
  {
    if i == 0 {
    } else {
      assert forall j :: 0 <= j < i - 1 ==> es[1..][j] == es[j + 1] && fs[1..][j] == fs[j + 1];
      assert !less(es[0].key, es[0].key);
      MapLessAt(less, es[1..], fs[1..], i - 1);
    }
  }

  lemma {:induction false} MapLessIsTransitive<K(!new), V>(less: (K, K) -> bool,
      es: seq<Pair<K, V>>, fs: seq<Pair<K, V>>, gs: seq<Pair<K, V>>)
    requires TotalOrder(less) && MapLess(less, es, fs) && MapLess(less, fs, gs)
    ensures MapLess(less, es, gs)
  {
    if |es| == |fs| == |gs| {
      var a, b, c := es[0].key, fs[0].key, gs[0].key;
      assert Below(less, a, b) || a == b || less(b, a);
      assert Below(less, b, c) || b == c || less(c, b);
      Asymmetric(less, a, c);
      Asymmetric(less, a, b);
      if !less(a, b) && !less(b, c) {
        MapLessIsTransitive(less, es[1..], fs[1..], gs[1..]);
      }
    }
  }

  class SkipMap<K(==, !new), V> {
    const less: (K, K) -> bool
    var head: Node<K, V>
    var tail: Node<K, V>
    var max: nat
    var size: nat

    ghost var nodes: seq<Node<K, V>>       // the head, then the data nodes in key order
    ghost var entries: seq<Pair<K, V>>     // the items of the data nodes
    ghost var Repr: set<object>

    ghost predicate Valid()
      reads this, Repr
    {
      && this in Repr && Shaped(nodes, head, tail, entries, max, Repr - {this})
      && TotalOrder(less) && Sorted(less, entries) && size == |entries|
    }

    /** The node that holds a present key. */
    ghost function NodeAt(key: K): (n: Node<K, V>)
      requires Valid() && Has(less, entries, key)
      reads this, Repr
      ensures n in nodes && n in Repr && n.item == Some(entries[Rank(less, entries, key)]) && n.item.value.key == key
    {
      nodes[Rank(less, entries, key) + 1]
    }

    constructor (less: (K, K) -> bool)
      requires TotalOrder(less)
      ensures Valid() && fresh(Repr) && this.less == less
      ensures entries == [] && nodes == [head]
    {
      var first, last := Sentinels();
      this.less, head, tail := less, first, last;
      max, size := 0, 0;
      nodes, entries := [first], [];
      Repr := {this, first, last, first.links, last.links};
    }

    /** One step along level 0. */
    lemma Step(p: nat)
      requires Valid() && p < |nodes|
      ensures nodes[p].links[0] == if p < |entries| then nodes[p + 1] else tail
      ensures p > 0 ==> nodes[p].item == Some(entries[p - 1])
      ensures nodes[p] != tail
    {
      Ground(nodes, tail, p);
    }

    /** What the node at position `at` leads to on level `i`: the end, or a node whose key is below
        `key` exactly when it is not behind the splice point. */
    lemma Ahead(key: K, at: nat, i: nat)
      requires Valid() && at < |nodes| && i < nodes[at].links.Length
      ensures var q, stop := L.First(HeightsOf(nodes), at + 1, i), if i == 0 then tail else null;
              if q == |nodes| then nodes[at].links[i] == stop
              else nodes[at].links[i] == nodes[q] && nodes[q] != stop && i < nodes[q].links.Length
                   && nodes[q].item.Some? && (less(nodes[q].item.value.key, key) <==> q <= Rank(less, entries, key))
    {
      RankSplits(less, entries, key);
      assert nodes[at].links[i] == Next(nodes, tail, at, i);
    }

    /** Walks level `i` from `temp` to the last node below `key`. */
    method Advance(key: K, temp: Node<K, V>, i: nat, ghost p: nat) returns (t: Node<K, V>)
      requires Valid() && i <= LEVELS
      requires p <= Rank(less, entries, key) && temp == nodes[p] && i < temp.links.Length
      ensures t == nodes[LastOn(nodes, Rank(less, entries, key), i)] && i < t.links.Length
    {
      ghost var k, at := Rank(less, entries, key), p;
      t := temp;
      Ahead(key, at, i);
      var stop := if i == 0 then tail else null;
      while t.links[i] != stop && less(t.links[i].item.value.key, key)
        invariant at <= k && t == nodes[at] && i < t.links.Length
        invariant var q := L.First(HeightsOf(nodes), at + 1, i);
                  if q == |nodes| then t.links[i] == stop
                  else t.links[i] == nodes[q] && nodes[q] != stop && i < nodes[q].links.Length
                       && nodes[q].item.Some? && (less(nodes[q].item.value.key, key) <==> q <= k)
        decreases |nodes| - at
      {
        at := L.First(HeightsOf(nodes), at + 1, i);
        t := t.links[i];
        Ahead(key, at, i);
      }
      L.StepCrosses(HeightsOf(nodes), k, i, at);
    }

    /** The splice points of `key`: on every level in use, the last node below it. */
    method Predecessors(key: K) returns (updated: seq<Node?<K, V>>)
      requires Valid()
      ensures |updated| == LEVELS + 1
      ensures forall i :: 0 <= i <= max ==> updated[i] == nodes[LastOn(nodes, Rank(less, entries, key), i)]
    {
      ghost var k: nat, p: nat, ns := Rank(less, entries, key), 0, nodes;
      updated := seq(LEVELS + 1, _ => null);
      var temp, i := head, max;
      while i >= 1
        invariant 0 <= i <= max && |updated| == LEVELS + 1
        invariant p <= k && temp == ns[p] && i < temp.links.Length
        invariant forall j :: i < j <= max ==> updated[j] == ns[LastOn(ns, k, j)]
      {
        temp := Advance(key, temp, i, p);
        p := LastOn(ns, k, i);
        updated := updated[i := temp];
        i := i - 1;
      }
      temp := Advance(key, temp, 0, p);
      updated := updated[0 := temp];
    }

    /** The splice points of `key` and the node behind them on level 0. */
    method Locate(key: K) returns (updated: seq<Node?<K, V>>, next: Node<K, V>)
      requires Valid()
      ensures next == if Rank(less, entries, key) < |entries| then nodes[Rank(less, entries, key) + 1] else tail
      ensures Rank(less, entries, key) < |entries| ==> next.item == Some(entries[Rank(less, entries, key)])
      ensures |updated| == LEVELS + 1
      ensures forall i :: 0 <= i <= max ==> updated[i] == nodes[LastOn(nodes, Rank(less, entries, key), i)]
    {
      ghost var k: nat := Rank(less, entries, key);
      updated := Predecessors(key);
      Ground(nodes, tail, k);
      Step(k);
      next := updated[0].links[0];
    }

    /** The descent of a lookup: from the head down to level 0. */
    method Descend(key: K) returns (temp: Node<K, V>)
      requires Valid()
      ensures temp == nodes[Rank(less, entries, key)]
    {
      ghost var k: nat, p: nat := Rank(less, entries, key), 0;
      temp := head;
      var i := max;
      while i >= 1
        invariant 0 <= i <= max
        invariant p <= k && temp == nodes[p] && i < temp.links.Length
      {
        temp := Advance(key, temp, i, p);
        p := LastOn(nodes, k, i);
        i := i - 1;
      }
      temp := Advance(key, temp, 0, p);
      Ground(nodes, tail, k);
    }

    method FindAtBottom(key: K) returns (node: Node?<K, V>)
      requires Valid()
      ensures node == if Has(less, entries, key) then NodeAt(key) else null
    {
      var temp := Descend(key);
      Ground(nodes, tail, Rank(less, entries, key));
      var next := temp.links[0];
      if next == tail { return null; }
      if next != null {
        if next.item.value.key == key { return next; }
      }
      return null;
    }

    /** Makes `ms`, `es` and `repr` the order, the contents and, with the map itself, the footprint. */
    method Adopt(ghost ms: seq<Node<K, V>>, ghost es: seq<Pair<K, V>>, ghost repr: set<object>,
                 newMax: nat, newSize: nat)
      requires this !in repr && Shaped(ms, head, tail, es, newMax, repr)
      requires TotalOrder(less) && Sorted(less, es) && newSize == |es|
      modifies this`nodes, this`entries, this`Repr, this`max, this`size
      ensures Valid() && nodes == ms && entries == es && Repr == repr + {this}
    {
      max, size := newMax, newSize;
      nodes, entries, Repr := ms, es, repr + {this};
      assert Repr - {this} == repr;
    }

    /** The second half of an insertion: a new node of the drawn level takes its place. */
    method Splice(item: Pair<K, V>, level: nat, raised: seq<Node?<K, V>>, top: nat, ghost k: nat)
      returns (node: Node<K, V>)
      requires Valid() && !Has(less, entries, item.key) && k == Rank(less, entries, item.key)
      requires level <= LEVELS && level < |raised| && top == if level > max then level else max
      requires forall i :: 0 <= i <= level ==> raised[i] == nodes[LastOn(nodes, k, i)]
      modifies Repr
      ensures Valid() && fresh(Repr - old(Repr))
      ensures entries == InsertAbsent(less, old(entries), item)
      ensures head == old(head) && tail == old(tail)
      ensures fresh(node) && node.item == Some(item) && L.InsertedBehind(old(nodes), k, node, nodes)
      ensures forall n :: n in old(nodes) ==> n.item == old(n.item)
    {
      ghost var ns, es := nodes, InsertAbsent(less, entries, item);
      Grown(less, entries, item);
      ghost var ms: seq<Node<K, V>>;
      ghost var more;
      node, ms, more := PutIn(item, level, max, tail, raised, head, ns, entries, k, Repr - {this});
      assert unchanged(this);
      Adopt(ms, es, more, top, size + 1);
    }

    lemma Arrived(key: K, ns: seq<Node<K, V>>, k: nat, node: Node<K, V>)
      requires Valid() && L.InsertedBehind(ns, k, node, nodes)
      requires Has(less, entries, key) && Rank(less, entries, key) == k
      ensures node == NodeAt(key)
    {
    }

    /** Inserts unless the key is present. Neither the resulting contents nor the flag
        depend on the coins. */
    method Insert(item: Pair<K, V>, coins: nat -> bool) returns (node: Node<K, V>, inserted: bool)
      requires Valid()
      modifies Repr
      ensures Valid() && fresh(Repr - old(Repr))
      ensures entries == InsertAbsent(less, old(entries), item)
      ensures inserted == !Has(less, old(entries), item.key)
      ensures head == old(head) && tail == old(tail)
      ensures Has(less, entries, item.key) && node == NodeAt(item.key)
      ensures !inserted ==> nodes == old(nodes)
      ensures inserted ==> fresh(node) && node.item == Some(item)
      ensures inserted ==>
                L.InsertedBehind(old(nodes), Rank(less, old(entries), item.key), node, nodes)
      ensures forall n :: n in old(nodes) ==> n.item == old(n.item)
    {
      var updated, at := Locate(item.key);
      if at.item != None && at.item.value.key == item.key {
        return at, false;
      }
      node := InsertNew(item, updated, coins);
      inserted := true;
    }

    /** The rest of an insertion, once the key is known to be absent. */
    method InsertNew(item: Pair<K, V>, updated: seq<Node?<K, V>>, coins: nat -> bool) returns (node: Node<K, V>)
      requires Valid() && !Has(less, entries, item.key)
      requires |updated| == LEVELS + 1
      requires forall i :: 0 <= i <= max ==> updated[i] == nodes[LastOn(nodes, Rank(less, entries, item.key), i)]
      modifies Repr
      ensures Valid() && fresh(Repr - old(Repr))
      ensures entries == InsertAbsent(less, old(entries), item)
      ensures head == old(head) && tail == old(tail)
      ensures Has(less, entries, item.key) && node == NodeAt(item.key)
      ensures fresh(node) && node.item == Some(item)
      ensures L.InsertedBehind(old(nodes), Rank(less, old(entries), item.key), node, nodes)
      ensures forall n :: n in old(nodes) ==> n.item == old(n.item)
    {
      ghost var k, ns := Rank(less, entries, item.key), nodes;
      var level, raised, top := RandomLevel(head, max, updated, coins, nodes, k);
      RankOfInserted(less, entries, item);
      node := Splice(item, level, raised, top, k);
      Arrived(item.key, ns, k, node);
    }

    /** Erases the entry of `key`. The source looks at the key of the node behind the splice
        point without asking whether it is the tail: some key must not be below `key`. */
    method Erase(key: K)
      requires Valid() && Rank(less, entries, key) < |entries|
      modifies Repr
      ensures Valid() && Repr == old(Repr)
      ensures entries == Remove(less, old(entries), key)
      ensures head == old(head) && tail == old(tail)
      ensures !Has(less, old(entries), key) ==> nodes == old(nodes)
      ensures Has(less, old(entries), key) ==>
                var k := Rank(less, old(entries), key);
                L.InsertedBehind(nodes, k, old(nodes)[k + 1], old(nodes)) && old(nodes)[k + 1].freed
      ensures forall n :: n in old(nodes) ==> n.item == old(n.item)
    {
      var updated, node := Locate(key);
      if node.item.value.key == key {
        Unsplice(node, key, updated, Rank(less, entries, key));
      }
    }

    /** Erases the entry an iterator stands on, by the key it holds. */
    method EraseAt(node: Node<K, V>)
      requires Valid() && node in nodes && node != head
      modifies Repr
      ensures Valid() && Repr == old(Repr)
      ensures exists k :: 0 <= k < |old(entries)| && old(node.item) == Some(old(entries)[k])
                && entries == old(entries)[..k] + old(entries)[k + 1..]
                && L.InsertedBehind(nodes, k, node, old(nodes))
      ensures head == old(head) && tail == old(tail) && node.freed
      ensures forall n :: n in old(nodes) ==> n.item == old(n.item)
    {
      ghost var p :| 0 <= p < |nodes| && nodes[p] == node;
      assert p > 0 && node.item == Some(entries[p - 1]);
      RankFinds(less, entries, node.item.value.key);
      Erase(node.item.value.key);
    }

    method Unsplice(node: Node<K, V>, key: K, updated: seq<Node?<K, V>>, ghost k: nat)
      requires Valid() && Has(less, entries, key) && k == Rank(less, entries, key) && node == nodes[k + 1]
      requires |updated| == LEVELS + 1
      requires forall i :: 0 <= i <= max ==> updated[i] == nodes[LastOn(nodes, k, i)]
      modifies Repr
      ensures Valid() && Repr == old(Repr)
      ensures entries == Remove(less, old(entries), key)
      ensures head == old(head) && tail == old(tail)
      ensures L.InsertedBehind(nodes, k, node, old(nodes)) && node.freed
      ensures forall n :: n in old(nodes) ==> n.item == old(n.item)
    {
      ghost var ms, es := nodes, Remove(less, entries, key);
      Shrunk(less, entries, key);
      var top;
      ghost var ns;
      top, ns := TakeOut(node, head, max, tail, updated, ms, entries, k, Repr - {this});
      assert unchanged(this);
      Adopt(ns, es, Repr - {this}, top, size - 1);
    }

    /** `operator[]`: a reference to the value of `key`, which is inserted with a default value if absent. */
    method Index(key: K, default: V, coins: nat -> bool) returns (node: Node<K, V>)
      requires Valid()
      modifies Repr
      ensures Valid() && fresh(Repr - old(Repr))
      ensures entries == InsertAbsent(less, old(entries), Pair(key, default))
      ensures head == old(head) && tail == old(tail)
      ensures Has(less, entries, key) && node == NodeAt(key)
    {
      var found := FindAtBottom(key);
      if found == null {
        var inserted;
        node, inserted := Insert(Pair(key, default), coins);
      } else {
        node := found;
      }
    }

    /** Assignment through `operator[]`. */
    method Set(key: K, value: V, default: V, coins: nat -> bool)
      requires Valid()
      modifies Repr
      ensures Valid() && fresh(Repr - old(Repr))
      ensures entries == Put(less, old(entries), Pair(key, value))
    {
      var node := Index(key, default, coins);
      ghost var k, es := Rank(less, entries, key), entries;
      PutAfterInsert(less, old(entries), Pair(key, default), Pair(key, value));
      OrderKept(less, es, Pair(key, value));
      Replace(node, Pair(key, value), k);
    }

    method Replace(node: Node<K, V>, item: Pair<K, V>, ghost k: nat)
      requires Valid() && k < |entries| && node == nodes[k + 1]
      requires Sorted(less, entries[k := item])
      modifies node`item, this`entries
      ensures Valid() && entries == old(entries)[k := item] && Repr == old(Repr)
    {
      SetItem(node, item, head, tail, nodes, entries, k, max, Repr - {this});
      entries := entries[k := item];
    }

    // ----- iteration -----

    /** `begin()` to `end()`. */
    method Walk() returns (es: seq<Pair<K, V>>)
      requires Valid()
      ensures es == entries
    {
      es := [];
      ghost var p: nat, all := 0, entries;
      Step(0);
      var cur := head.links[0];
      while cur != tail
        invariant p <= |all| && es == all[..p]
        invariant cur == if p < |all| then nodes[p + 1] else tail
        decreases |all| - p
      {
        Step(p + 1);
        es := es + [cur.item.value];
        cur := cur.links[0];
        p := p + 1;
      }
    }

    /** `rbegin()` to `rend()`. */
    method WalkBack() returns (es: seq<Pair<K, V>>)
      requires Valid()
      ensures |es| == |entries| && forall k :: 0 <= k < |es| ==> es[k] == entries[|entries| - 1 - k]
    {
      es := [];
      ghost var p := |entries|;
      var cur := tail.prev;
      TowersApart(nodes, tail);
      while cur != head
        invariant 0 <= p <= |entries| && cur == nodes[p]
        invariant |es| == |entries| - p && forall k :: 0 <= k < |es| ==> es[k] == entries[|entries| - 1 - k]
        decreases p
      {
        es := es + [cur.item.value];
        cur := cur.prev;
        p := p - 1;
      }
    }

    /** The links of every level thread exactly the nodes on that level, head first, and these
        are among the nodes of the level below. */
    lemma LevelsAreThreaded(l: nat)
      requires Valid() && l <= LEVELS
      ensures Threaded(OnLevel(nodes, l), l, if l == 0 then tail else null)
      ensures l > 0 ==> OnLevel(nodes, l) == OnLevel(OnLevel(nodes, l - 1), l)
      ensures OnLevel(nodes, 0) == nodes
    {
      LevelIsThreaded(nodes, tail, 0, l);
      if l > 0 {
        LevelsNest(nodes, l - 1, l);
      }
      EveryoneIsOnGround(nodes);
    }

    /** `operator<`: a smaller map first, and maps of one size by their keys in order. */
    method LessThan(other: SkipMap<K, V>) returns (lt: bool)
      requires Valid() && other.Valid() && less == other.less
      ensures lt == MapLess(less, entries, other.entries)
    {
      if size < other.size { return true; }
      if other.size < size { return false; }
      ghost var p: nat, es, fs := 0, entries, other.entries;
      Step(0);
      other.Step(0);
      var cur, cur2 := head.links[0], other.head.links[0];
      while cur != tail && cur2 != other.tail
        invariant p <= |es| == |fs|
        invariant cur == if p < |es| then nodes[p + 1] else tail
        invariant cur2 == if p < |es| then other.nodes[p + 1] else other.tail
        invariant MapLess(less, es, fs) == KeysLess(less, es[p..], fs[p..])
        decreases |es| - p
      {
        Step(p + 1);
        other.Step(p + 1);
        var key, key2 := cur.item.value.key, cur2.item.value.key;
        assert key == es[p].key && key2 == fs[p].key;
        KeysLessStep(less, es, fs, p);
        if less(key, key2) { return true; }
        if less(key2, key) { return false; }
        cur, cur2 := cur.links[0], cur2.links[0];
        p := p + 1;
      }
      return false;
    }

    // ----- whole runs -----

    /** Carries out one operation. */
    method Apply(op: Op<K, V>)
      requires Valid() && (op.EraseOp? ==> Rank(less, entries, op.key) < |entries|)
      modifies Repr
      ensures Valid() && fresh(Repr - old(Repr))
      ensures entries == AfterOp(less, old(entries), op)
    {
      match op {
        case InsertOp(item, coins) => var node, inserted := Insert(item, coins);
        case SetOp(item, default, coins) => Set(item.key, item.value, default, coins);
        case EraseOp(key) => Erase(key);
      }
    }

    /** Carries out a run of operations. The contents at the end are those of the same run
        on a finite map, whatever levels are drawn on the way (`RunIsMapRun`). */
    method Run(ops: seq<Op<K, V>>)
      requires Valid() && RunDefined(less, entries, ops)
      modifies Repr
      ensures Valid() && fresh(Repr - old(Repr))
      ensures entries == AfterRun(less, old(entries), ops)
    {
      var i: nat := 0;
      while i < |ops|
        invariant i <= |ops| && Valid() && fresh(Repr - old(Repr))
        invariant RunDefined(less, entries, ops[i..])
        invariant AfterRun(less, entries, ops[i..]) == AfterRun(less, old(entries), ops)
      {
        Apply(ops[i]);
        i := i + 1;
      }
    }

    // ----- copying and destruction -----

    /** Range insertion, the loop that copying is made of: the i-th item draws its level from `coins(i, _)`. */
    method InsertRange(items: seq<Pair<K, V>>, coins: (nat, nat) -> bool)
      requires Valid()
      modifies Repr
      ensures Valid() && fresh(Repr - old(Repr))
      ensures entries == InsertAll(less, old(entries), items)
    {
      var i: nat := 0;
      while i < |items|
        invariant i <= |items| && Valid() && fresh(Repr - old(Repr))
        invariant InsertAll(less, entries, items[i..]) == InsertAll(less, old(entries), items)
      {
        InsertAllStep(less, entries, items, i);
        var node, inserted := Insert(items[i], (j: nat) => coins(i, j));
        i := i + 1;
      }
    }

    /** The copy constructor: a map of its own, on nodes of its own, with the same contents. */
    method Clone(coins: (nat, nat) -> bool) returns (copy: SkipMap<K, V>)
      requires Valid()
      ensures copy.Valid() && fresh(copy) && fresh(copy.Repr) && copy.less == less
      ensures copy.entries == entries
    {
      copy := new SkipMap(less);
      var items := Walk();
      InsertSorted(less, items);
      copy.InsertRange(items, coins);
    }

    /** `map_ctor`: a fresh pair of sentinels. */
    method MapCtor()
      requires TotalOrder(less)
      modifies this
      ensures Valid() && fresh(Repr - {this}) && entries == []
    {
      head, tail := Sentinels();
      Adopt([head], [], {head, tail, head.links, tail.links}, 0, 0);
    }

    /** The destructor: deletes the head, every data node and the tail. */
    method Destroy()
      requires Valid()
      modifies (set n | n in nodes)`freed, tail`freed
      ensures tail.freed && forall n :: n in nodes ==> n.freed
    {
      DeleteAll(head, tail, nodes);
    }

    method CopyFrom(other: SkipMap<K, V>, coins: (nat, nat) -> bool)
      requires TotalOrder(less) && other.Valid() && less == other.less && this !in other.Repr
      modifies this
      ensures Valid() && fresh(Repr - {this}) && entries == other.entries && other.Valid()
    {
      MapCtor();
      var items := other.Walk();
      InsertSorted(less, items);
      InsertRange(items, coins);
    }

    /** Assignment: drops its own nodes and copies the other map's entries. */
    method Assign(other: SkipMap<K, V>, coins: (nat, nat) -> bool)
      requires Valid() && other.Valid() && less == other.less
      requires this != other ==> Repr !! other.Repr
      modifies Repr
      ensures Valid() && entries == old(other.entries)
      ensures this != other ==> fresh(Repr - {this}) && other.Valid()
      ensures this != other ==> old(tail).freed && forall n :: n in old(nodes) ==> n.freed
    {
      if this == other {
        return;
      }
      Destroy();
      CopyFrom(other, coins);
    }
  }
}
