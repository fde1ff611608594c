/** The heap nodes of a skip list, the shape of their links, and the two pointer surgeries. */
module SkipNodes {
  import L = SkipLevels
  import opened Options
  import opened SortedEntries

  /** The tallest tower has links on levels 0 to LEVELS. */
  const LEVELS: nat := 100

  /** A node owns an array of forward links, one for each level it is on. The two
      sentinels of a list hold no item. `freed` records that the node was deleted. */
  class Node<K, V> {
    const links: array<Node?<K, V>>
    var prev: Node?<K, V>
    var item: Option<Pair<K, V>>
    ghost var freed: bool

    constructor (level: nat, item: Option<Pair<K, V>>)
      ensures fresh(links) && links.Length == level + 1
      ensures forall l :: 0 <= l <= level ==> links[l] == null
      ensures prev == null && this.item == item && !freed
    {
      links := new Node?<K, V>[level + 1](_ => null);
      prev := null;
      this.item := item;
      freed := false;
    }

    /** `delete` on a node: allowed once. */
    method Delete()
      requires !freed
      modifies this`freed
      ensures freed
    {
      freed := true;
    }
  }

  ghost function HeightsOf<K, V>(ns: seq<Node<K, V>>): (hs: seq<nat>)
    ensures |hs| == |ns|
    ensures forall p :: 0 <= p < |ns| ==> hs[p] == ns[p].links.Length
  {
    seq(|ns|, p requires 0 <= p < |ns| => ns[p].links.Length)
  }

  /** The node that a link on level `l` leads to when it should lead to position `q`:
      level 0 ends at the tail sentinel, the levels above it end at null. */
  ghost function Target<K, V>(ns: seq<Node<K, V>>, tail: Node<K, V>, q: nat, l: nat): Node?<K, V> {
    if q < |ns| then ns[q] else if l == 0 then tail else null
  }

  /** What the node at position `p` should be linked to on level `l`: the first later node on it. */
  ghost function Next<K, V>(ns: seq<Node<K, V>>, tail: Node<K, V>, p: nat, l: nat): Node?<K, V>
    requires p < |ns|
  {
    Target(ns, tail, L.First(HeightsOf(ns), p + 1, l), l)
  }

  /** The last position at or before `k` that is on level `l`. */
  ghost function LastOn<K, V>(ns: seq<Node<K, V>>, k: nat, l: nat): (p: nat)
    requires k < |ns|
    ensures p <= k
    ensures l < ns[0].links.Length ==> l < ns[p].links.Length
  {
    L.Last(HeightsOf(ns), k, l)
  }

  ghost predicate Apart<K, V>(ns: seq<Node<K, V>>, p: nat, q: nat)
    requires p < |ns| && q < |ns|
  {
    ns[p].links != ns[q].links
  }

  /** A head of full height, towers of at most that height, and no link array shared. */
  ghost predicate Towers<K, V>(ns: seq<Node<K, V>>, tail: Node<K, V>) {
    && 1 <= |ns|
    && ns[0].links.Length == LEVELS + 1
    && (forall p :: 0 <= p < |ns| ==> 1 <= ns[p].links.Length <= LEVELS + 1 && ns[p].links != tail.links)
    && (forall p, q {:trigger Apart(ns, p, q)} :: 0 <= p < q < |ns| ==> Apart(ns, p, q))
  }

  lemma TowersApart<K, V>(ns: seq<Node<K, V>>, tail: Node<K, V>)
    requires Towers(ns, tail)
    ensures forall p, q :: 0 <= p < q < |ns| ==> ns[p].links != ns[q].links
  {
    forall p, q | 0 <= p < q < |ns| ensures ns[p].links != ns[q].links {
      assert Apart(ns, p, q);
    }
  }

  ghost predicate LevelLinked<K, V>(ns: seq<Node<K, V>>, tail: Node<K, V>)
    reads set p | 0 <= p < |ns| :: ns[p].links
  {
    forall p, l {:trigger ns[p].links[l]} :: 0 <= p < |ns| && 0 <= l < ns[p].links.Length ==>
      ns[p].links[l] == Next(ns, tail, p, l)
  }

  ghost predicate BackLinked<K, V>(ns: seq<Node<K, V>>, tail: Node<K, V>)
    requires 1 <= |ns|
    reads ns, tail
  {
    && ns[0].prev == null
    && (forall p {:trigger ns[p].prev} :: 1 <= p < |ns| ==> ns[p].prev == ns[p - 1])
    && tail.prev == ns[|ns| - 1]
  }

  /** On level 0 every position is its own last node and steps to its neighbour. */
  lemma Ground<K, V>(ns: seq<Node<K, V>>, tail: Node<K, V>, k: nat)
    requires Towers(ns, tail) && k < |ns|
    ensures LastOn(ns, k, 0) == k
    ensures Next(ns, tail, k, 0) == if k + 1 < |ns| then ns[k + 1] else tail
  {
    var hs := HeightsOf(ns);
    assert hs[k] > 0 && (k + 1 < |ns| ==> hs[k + 1] > 0);
    assert L.First(hs, k + 1, 0) == k + 1;
  }

  /** The head holds nothing and the nodes behind it hold `es`, in order. */
  ghost predicate Holds<K, V>(ns: seq<Node<K, V>>, es: seq<Pair<K, V>>)
    reads ns
  {
    && |ns| == |es| + 1 && ns[0].item == None
    && (forall p {:trigger ns[p].item} :: 1 <= p < |ns| ==> ns[p].item == Some(es[p - 1]))
  }

  /** `max` is the highest level in use behind the head, 0 if there is none. */
  ghost predicate TopLevel<K, V>(ns: seq<Node<K, V>>, max: nat) {
    && max <= LEVELS
    && (forall p :: 1 <= p < |ns| ==> ns[p].links.Length <= max + 1)
    && (max > 0 ==> exists p :: 1 <= p < |ns| && ns[p].links.Length == max + 1)
  }

  /** All links, forward and back, fit the order `ns`. */
  ghost predicate Linked<K, V>(ns: seq<Node<K, V>>, tail: Node<K, V>)
    reads ns, tail, set p | 0 <= p < |ns| :: ns[p].links
  {
    Towers(ns, tail) && LevelLinked(ns, tail) && BackLinked(ns, tail)
  }

  /** What does not depend on the links: the nodes hold `es`, neither they nor the tail have been
      deleted, and all their objects are in `repr`. */
  ghost predicate Carries<K, V>(ns: seq<Node<K, V>>, head: Node<K, V>, tail: Node<K, V>, es: seq<Pair<K, V>>,
                                repr: set<object>)
    reads repr
  {
    && tail in repr && tail.links in repr && !tail.freed
    && (forall n :: n in ns ==> n in repr && n.links in repr && !n.freed)
    && tail.links.Length == LEVELS + 1 && tail.links[0] == null && tail.item == None
    && Holds(ns, es) && head == ns[0]
  }

  /** The whole shape of a list. */
  ghost predicate Shaped<K, V>(ns: seq<Node<K, V>>, head: Node<K, V>, tail: Node<K, V>, es: seq<Pair<K, V>>,
                               max: nat, repr: set<object>)
    reads repr
  {
    Carries(ns, head, tail, es, repr) && Linked(ns, tail) && TopLevel(ns, max)
  }

  // ----- sentinels, and deleting a whole list -----

  /** A head that leads to a tail, and nothing in between. */
  method Sentinels<K, V>() returns (head: Node<K, V>, tail: Node<K, V>)
    ensures fresh(head) && fresh(tail) && fresh(head.links) && fresh(tail.links) && !head.freed && !tail.freed
    ensures Shaped([head], head, tail, [], 0, {head, tail, head.links, tail.links})
  {
    head := new Node(LEVELS, None);
    tail := new Node(LEVELS, None);
    head.links[0] := tail;
    tail.prev := head;
  }

  /** Deletes along level 0 from the head through the tail. Every node is deleted, and none
      twice, which `Delete` refuses. */
  method DeleteAll<K, V>(head: Node<K, V>, tail: Node<K, V>, ghost ns: seq<Node<K, V>>)
    requires Towers(ns, tail) && LevelLinked(ns, tail) && head == ns[0]
    requires tail.links.Length > 0 && tail.links[0] == null
    requires !tail.freed && forall p :: 0 <= p < |ns| ==> !ns[p].freed
    modifies (set p | 0 <= p < |ns| :: ns[p])`freed, tail`freed
    ensures tail.freed && forall p :: 0 <= p < |ns| ==> ns[p].freed
  {
    var temp: Node?<K, V> := head;
    ghost var p: nat := 0;
    TowersApart(ns, tail);
    while temp != null
      invariant p <= |ns| + 1
      invariant temp == if p < |ns| then ns[p] else if p == |ns| then tail else null
      invariant forall q :: 0 <= q < |ns| ==> ns[q].freed == (q < p)
      invariant tail.freed == (p > |ns|)
      decreases |ns| + 1 - p
    {
      if p < |ns| {
        Ground(ns, tail, p);
      }
      var next := temp.links[0];
      temp.Delete();
      temp := next;
      p := p + 1;
    }
  }

  // ----- drawing a level -----

  /** Tosses the coin until it fails or the top level is reached. A level above `max`
      raises `max`, and the head becomes the splice point of the levels in between,
      where no other node is. */
  method RandomLevel<K, V>(head: Node<K, V>, max: nat, updated: seq<Node?<K, V>>, coins: nat -> bool,
                           ghost ns: seq<Node<K, V>>, ghost k: nat)
    returns (level: nat, raised: seq<Node?<K, V>>, top: nat)
    requires |updated| == LEVELS + 1 && TopLevel(ns, max) && k < |ns| && head == ns[0]
    requires forall i :: 0 <= i <= max ==> updated[i] == ns[LastOn(ns, k, i)]
    ensures level <= LEVELS && (forall i :: 0 <= i < level ==> coins(i)) && (level < LEVELS ==> !coins(level))
    ensures top == if level > max then level else max
    ensures |raised| == LEVELS + 1
    ensures forall i :: 0 <= i <= level ==> raised[i] == ns[LastOn(ns, k, i)]
  {
    level, raised, top := 0, updated, max;
    while level < LEVELS && coins(level)
      invariant level <= LEVELS && forall i :: 0 <= i < level ==> coins(i)
    {
      level := level + 1;
    }
    if level > max {
      var temp := max + 1;
      while temp <= level
        invariant max < temp <= level + 1 && |raised| == LEVELS + 1
        invariant forall i :: 0 <= i < temp ==> raised[i] == ns[LastOn(ns, k, i)]
      {
        raised := raised[temp := head];
        assert LastOn(ns, k, temp) == 0;
        temp := temp + 1;
      }
      top := level;
    }
  }

  // ----- inserting a node behind position k -----

  /** The levels of `n` have been taken over: it is reachable on them from the last node
      in front of it, and leads to what that node used to lead to. */
  ghost predicate Hooked<K, V>(ns: seq<Node<K, V>>, tail: Node<K, V>, k: nat, n: Node<K, V>)
    requires k < |ns|
    reads n.links, set p | 0 <= p < |ns| :: ns[p].links
  {
    && (forall l {:trigger n.links[l]} :: 0 <= l < n.links.Length ==> n.links[l] == Next(ns, tail, k, l))
    && (forall p, l {:trigger ns[p].links[l]} :: 0 <= p < |ns| && 0 <= l < ns[p].links.Length ==>
          ns[p].links[l] == if l < n.links.Length && p == LastOn(ns, k, l) then n else Next(ns, tail, p, l))
  }

  /** The last node in front of a position steps, on each of its levels, over that position. */
  lemma NextOfLast<K, V>(ns: seq<Node<K, V>>, tail: Node<K, V>, k: nat, l: nat)
    requires k < |ns| && l < ns[0].links.Length
    ensures Next(ns, tail, LastOn(ns, k, l), l) == Next(ns, tail, k, l)
  {
    L.StepCrosses(HeightsOf(ns), k, l, LastOn(ns, k, l));
  }

  /** The pointer loop of an insertion, for any splice points `updated[i]` at position `at[i]`. */
  method Rewire<K, V>(n: Node<K, V>, updated: seq<Node?<K, V>>, ghost ns: seq<Node<K, V>>, ghost at: seq<nat>)
    requires |at| == n.links.Length <= |updated|
    requires forall p, q :: 0 <= p < q < |ns| ==> ns[p].links != ns[q].links
    requires forall p :: 0 <= p < |ns| ==> ns[p].links != n.links
    requires forall i :: 0 <= i < |at| ==> at[i] < |ns| && updated[i] == ns[at[i]] && i < ns[at[i]].links.Length
    modifies n.links, set p | 0 <= p < |ns| :: ns[p].links
    ensures forall i :: 0 <= i < |at| ==> n.links[i] == old(ns[at[i]].links[i])
    ensures forall p, l :: 0 <= p < |ns| && 0 <= l < ns[p].links.Length ==>
              ns[p].links[l] == if l < |at| && p == at[l] then n else old(ns[p].links[l])
  {
    var i := 0;
    while i < n.links.Length
      invariant 0 <= i <= n.links.Length
      invariant forall j :: 0 <= j < i ==> n.links[j] == old(ns[at[j]].links[j])
      invariant forall p, l :: 0 <= p < |ns| && 0 <= l < ns[p].links.Length ==>
                  ns[p].links[l] == if l < i && p == at[l] then n else old(ns[p].links[l])
    {
      n.links[i] := updated[i].links[i];
      updated[i].links[i] := n;
      i := i + 1;
    }
  }

  /** Hooks `n` in behind its splice point on each of its levels. */
  method HookIn<K, V>(n: Node<K, V>, updated: seq<Node?<K, V>>,
                      ghost ns: seq<Node<K, V>>, ghost tail: Node<K, V>, ghost k: nat)
    requires Towers(ns, tail) && LevelLinked(ns, tail) && k < |ns|
    requires 1 <= n.links.Length <= LEVELS + 1 && n.links.Length <= |updated|
    requires forall p :: 0 <= p < |ns| ==> ns[p].links != n.links
    requires forall i :: 0 <= i < n.links.Length ==> updated[i] == ns[LastOn(ns, k, i)]
    modifies n.links, set p | 0 <= p < |ns| :: ns[p].links
    ensures Hooked(ns, tail, k, n)
  {
    ghost var at := seq(n.links.Length, i requires 0 <= i => LastOn(ns, k, i));
    TowersApart(ns, tail);
    Rewire(n, updated, ns, at);
    forall l | 0 <= l < n.links.Length ensures n.links[l] == Next(ns, tail, k, l) {
      NextOfLast(ns, tail, k, l);
      assert n.links[l] == old(ns[at[l]].links[l]);
    }
  }

  /** After `n` is inserted behind position `k`, every link of the new order is a link of the
      old order, except that the last node in front of `n` on each of its levels leads to `n`. */
  lemma NextAfterInsertion<K, V>(ns: seq<Node<K, V>>, tail: Node<K, V>, k: nat, n: Node<K, V>,
                                 ms: seq<Node<K, V>>, p: nat, l: nat)
    requires L.InsertedBehind(ns, k, n, ms) && p < |ms| && l < ms[p].links.Length
    ensures Next(ms, tail, p, l) ==
              if p == k + 1 then Next(ns, tail, k, l)
              else if p > k then Next(ns, tail, p - 1, l)
              else if p == LastOn(ns, k, l) && l < n.links.Length then n
              else Next(ns, tail, p, l)
  {
    if p <= k {
      NextBeforeInsertion(ns, tail, k, n, ms, p, l);
    } else {
      HeightsInserted(ns, k, n, ms);
      L.FirstAfter(HeightsOf(ns), k, n.links.Length, HeightsOf(ms), p, l);
      MovedTarget(ns, tail, k, n, ms, L.First(HeightsOf(ns), p, l), l);
    }
  }

  lemma HeightsInserted<K, V>(ns: seq<Node<K, V>>, k: nat, n: Node<K, V>, ms: seq<Node<K, V>>)
    requires L.InsertedBehind(ns, k, n, ms)
    ensures L.InsertedBehind(HeightsOf(ns), k, n.links.Length, HeightsOf(ms))
  {
  }

  lemma {:induction false} StepsBefore<K, V>(ns: seq<Node<K, V>>, k: nat, n: Node<K, V>, ms: seq<Node<K, V>>,
                                             p: nat, l: nat)
    requires L.InsertedBehind(ns, k, n, ms) && p <= k && l < ms[p].links.Length
    ensures if p != LastOn(ns, k, l) then
              L.First(HeightsOf(ms), p + 1, l) == L.First(HeightsOf(ns), p + 1, l) <= k
            else
              && L.First(HeightsOf(ns), p + 1, l) == L.First(HeightsOf(ns), k + 1, l)
              && L.First(HeightsOf(ms), p + 1, l) ==
                   if l < n.links.Length then k + 1 else L.First(HeightsOf(ns), k + 1, l) + 1
  {
    var hs, gs := HeightsOf(ns), HeightsOf(ms);
    HeightsInserted(ns, k, n, ms);
    assert hs[p] == gs[p];
    L.FirstBefore(hs, k, n.links.Length, gs, p, l);
    L.StepCrosses(hs, k, l, p);
  }

  lemma NextBeforeInsertion<K, V>(ns: seq<Node<K, V>>, tail: Node<K, V>, k: nat, n: Node<K, V>,
                                  ms: seq<Node<K, V>>, p: nat, l: nat)
    requires L.InsertedBehind(ns, k, n, ms) && p <= k && l < ms[p].links.Length
    ensures Next(ms, tail, p, l) == if p == LastOn(ns, k, l) && l < n.links.Length then n else Next(ns, tail, p, l)
  {
    StepsBefore(ns, k, n, ms, p, l);
    if p != LastOn(ns, k, l) {
      KeptTarget(ns, tail, k, n, ms, L.First(HeightsOf(ns), p + 1, l), l);
    } else if l < n.links.Length {
      NewTarget(ns, tail, k, n, ms, l);
    } else {
      MovedTarget(ns, tail, k, n, ms, L.First(HeightsOf(ns), k + 1, l), l);
    }
  }

  lemma KeptTarget<K, V>(ns: seq<Node<K, V>>, tail: Node<K, V>, k: nat, n: Node<K, V>,
                         ms: seq<Node<K, V>>, q: nat, l: nat)
    requires L.InsertedBehind(ns, k, n, ms) && q <= k
    ensures Target(ms, tail, q, l) == Target(ns, tail, q, l)
  {
  }

  lemma NewTarget<K, V>(ns: seq<Node<K, V>>, tail: Node<K, V>, k: nat, n: Node<K, V>, ms: seq<Node<K, V>>, l: nat)
    requires L.InsertedBehind(ns, k, n, ms)
    ensures Target(ms, tail, k + 1, l) == n
  {
  }

  lemma MovedTarget<K, V>(ns: seq<Node<K, V>>, tail: Node<K, V>, k: nat, n: Node<K, V>,
                          ms: seq<Node<K, V>>, q: nat, l: nat)
    requires L.InsertedBehind(ns, k, n, ms) && k < q <= |ns|
    ensures Target(ms, tail, q + 1, l) == Target(ns, tail, q, l)
  {
  }

  lemma LinkedAfterInsertion<K, V>(ns: seq<Node<K, V>>, tail: Node<K, V>, k: nat, n: Node<K, V>, ms: seq<Node<K, V>>)
    requires Towers(ns, tail) && L.InsertedBehind(ns, k, n, ms)
    requires Hooked(ns, tail, k, n)
    ensures LevelLinked(ms, tail)
  {
    forall p, l | 0 <= p < |ms| && 0 <= l < ms[p].links.Length
      ensures ms[p].links[l] == Next(ms, tail, p, l)
    {
      NextAfterInsertion(ns, tail, k, n, ms, p, l);
      assert p <= k ==> ms[p] == ns[p];
      assert p > k + 1 ==> ms[p] == ns[p - 1];
    }
  }

  lemma TowersAfterInsertion<K, V>(ns: seq<Node<K, V>>, tail: Node<K, V>, k: nat, n: Node<K, V>, ms: seq<Node<K, V>>)
    requires Towers(ns, tail) && L.InsertedBehind(ns, k, n, ms)
    requires 1 <= n.links.Length <= LEVELS + 1 && n.links != tail.links
    requires forall p :: 0 <= p < |ns| ==> ns[p].links != n.links
    ensures Towers(ms, tail)
  {
    TowersApart(ns, tail);
    forall p, q | 0 <= p < q < |ms| ensures Apart(ms, p, q) {
      assert ms[p] == if p <= k then ns[p] else if p == k + 1 then n else ns[p - 1];
      assert ms[q] == if q <= k then ns[q] else if q == k + 1 then n else ns[q - 1];
    }
    assert forall p :: k + 1 < p < |ms| ==> ms[p] == ns[p - 1];
  }

  /** Gives `n`, now between position `k` and its neighbour, its back links. */
  method LinkBack<K, V>(n: Node<K, V>, front: Node<K, V>, tail: Node<K, V>,
                        ghost ns: seq<Node<K, V>>, ghost k: nat, ghost ms: seq<Node<K, V>>)
    requires Towers(ns, tail) && BackLinked(ns, tail) && L.InsertedBehind(ns, k, n, ms) && front == ns[k]
    requires n.links.Length > 0 && n.links[0] == (if k + 1 < |ns| then ns[k + 1] else tail)
    requires n != tail && forall p :: 0 <= p < |ns| ==> ns[p] != n
    modifies n`prev, tail`prev, (set p | 0 <= p < |ns| :: ns[p])`prev
    ensures BackLinked(ms, tail)
  {
    TowersApart(ns, tail);
    n.prev := front;
    if n.links[0] != tail {
      n.links[0].prev := n;
    } else {
      tail.prev := n;
    }
    forall p | 1 <= p < |ms| ensures ms[p].prev == ms[p - 1] {
      assert ms[p] == if p <= k then ns[p] else if p == k + 1 then n else ns[p - 1];
      assert ms[p - 1] == if p - 1 <= k then ns[p - 1] else if p == k + 2 then n else ns[p - 2];
      assert p <= k ==> old(ns[p].prev) == ns[p - 1];
      assert p > k + 2 ==> old(ns[p - 1].prev) == ns[p - 2];
    }
  }

  /** Inserts `n` behind position `k`: all links, forward and back, fit the new order. */
  method InsertNode<K, V>(n: Node<K, V>, tail: Node<K, V>, updated: seq<Node?<K, V>>,
                          ghost ns: seq<Node<K, V>>, ghost k: nat, ghost ms: seq<Node<K, V>>)
    requires Towers(ns, tail) && LevelLinked(ns, tail) && BackLinked(ns, tail) && L.InsertedBehind(ns, k, n, ms)
    requires 1 <= n.links.Length <= LEVELS + 1 && n.links.Length <= |updated|
    requires n.links != tail.links && forall p :: 0 <= p < |ns| ==> ns[p].links != n.links
    requires forall i :: 0 <= i < n.links.Length ==> updated[i] == ns[LastOn(ns, k, i)]
    modifies n.links, (set p | 0 <= p < |ns| :: ns[p].links)
    modifies n`prev, tail`prev, (set p | 0 <= p < |ns| :: ns[p])`prev
    ensures Towers(ms, tail) && LevelLinked(ms, tail) && BackLinked(ms, tail)
  {
    Ground(ns, tail, k);
    HookIn(n, updated, ns, tail, k);
    LinkedAfterInsertion(ns, tail, k, n, ms);
    assert n.links[0] == Next(ns, tail, k, 0);
    LinkBack(n, updated[0], tail, ns, k, ms);
    TowersAfterInsertion(ns, tail, k, n, ms);
  }

  lemma HoldsAfterInsertion<K, V>(ns: seq<Node<K, V>>, es: seq<Pair<K, V>>, k: nat, n: Node<K, V>, e: Pair<K, V>,
                                  ms: seq<Node<K, V>>)
    requires Holds(ns, es) && L.InsertedBehind(ns, k, n, ms) && n.item == Some(e)
    ensures Holds(ms, es[..k] + [e] + es[k..])
  {
    var fs := es[..k] + [e] + es[k..];
    forall p | 1 <= p < |ms| ensures ms[p].item == Some(fs[p - 1]) {
      assert ms[p] == if p <= k then ns[p] else if p == k + 1 then n else ns[p - 1];
    }
  }

  lemma TopAfterInsertion<K, V>(ns: seq<Node<K, V>>, max: nat, k: nat, n: Node<K, V>, ms: seq<Node<K, V>>)
    requires TopLevel(ns, max) && L.InsertedBehind(ns, k, n, ms) && 1 <= n.links.Length <= LEVELS + 1
    ensures TopLevel(ms, if n.links.Length - 1 > max then n.links.Length - 1 else max)
  {
    forall p | 1 <= p < |ms| && p != k + 1 ensures ms[p].links.Length <= max + 1 {
      assert ms[p] == if p <= k then ns[p] else ns[p - 1];
    }
    if n.links.Length - 1 >= max {
      assert ms[k + 1].links.Length == n.links.Length;
    } else {
      var p :| 1 <= p < |ns| && ns[p].links.Length == max + 1;
      assert ms[if p <= k then p else p + 1] == ns[p];
    }
  }

  /** Allocates a node of the given level for `item` and inserts it behind position `k`. */
  method AddNode<K, V>(item: Pair<K, V>, level: nat, tail: Node<K, V>, updated: seq<Node?<K, V>>,
                       ghost ns: seq<Node<K, V>>, ghost k: nat)
    returns (n: Node<K, V>, ghost ms: seq<Node<K, V>>)
    requires Towers(ns, tail) && LevelLinked(ns, tail) && BackLinked(ns, tail) && k < |ns|
    requires level <= LEVELS && level < |updated|
    requires forall i :: 0 <= i <= level ==> updated[i] == ns[LastOn(ns, k, i)]
    modifies (set p | 0 <= p < |ns| :: ns[p].links)
    modifies tail`prev, (set p | 0 <= p < |ns| :: ns[p])`prev
    ensures fresh(n) && fresh(n.links) && n.links.Length == level + 1
    ensures n.item == Some(item) && !n.freed && L.InsertedBehind(ns, k, n, ms)
    ensures forall m :: m in ns ==> m.item == old(m.item) && m.freed == old(m.freed)
    ensures tail.item == old(tail.item) && tail.freed == old(tail.freed)
    ensures tail.links.Length > 0 ==> tail.links[0] == old(tail.links[0])
    ensures Towers(ms, tail) && LevelLinked(ms, tail) && BackLinked(ms, tail)
  {
    n := new Node(level, Some(item));
    assert forall p :: 0 <= p < |ns| ==> ns[p] != n && ns[p].links != n.links;
    ms := L.InsertAt(ns, k, n);
    L.InsertAtIsInserted(ns, k, n);
    InsertNode(n, tail, updated, ns, k, ms);
  }

  /** Adds a node behind position `k` and raises the top level to fit. */
  method PutIn<K, V>(item: Pair<K, V>, level: nat, max: nat, tail: Node<K, V>, updated: seq<Node?<K, V>>,
                     ghost head: Node<K, V>, ghost ns: seq<Node<K, V>>, ghost es: seq<Pair<K, V>>, ghost k: nat,
                     ghost repr: set<object>)
    returns (n: Node<K, V>, ghost ms: seq<Node<K, V>>, ghost more: set<object>)
    requires Shaped(ns, head, tail, es, max, repr) && k < |ns|
    requires level <= LEVELS && level < |updated|
    requires forall i :: 0 <= i <= level ==> updated[i] == ns[LastOn(ns, k, i)]
    modifies repr
    ensures fresh(n) && n.item == Some(item) && L.InsertedBehind(ns, k, n, ms)
    ensures forall m :: m in ns ==> m.item == old(m.item)
    ensures fresh(more - repr)
    ensures Shaped(ms, head, tail, es[..k] + [item] + es[k..], if level > max then level else max, more)
  {
    assert forall p :: 0 <= p < |ns| ==> ns[p] in repr && ns[p].links in repr;
    n, ms := AddNode(item, level, tail, updated, ns, k);
    more := repr + {n, n.links};
    CarriesMore(ns, head, tail, es, repr, k, n, item, ms);
    TopAfterInsertion(ns, max, k, n, ms);
  }

  lemma CarriesMore<K, V>(ns: seq<Node<K, V>>, head: Node<K, V>, tail: Node<K, V>, es: seq<Pair<K, V>>,
                          repr: set<object>, k: nat, n: Node<K, V>, e: Pair<K, V>, ms: seq<Node<K, V>>)
    requires Carries(ns, head, tail, es, repr) && L.InsertedBehind(ns, k, n, ms)
    requires n.item == Some(e) && !n.freed
    ensures Carries(ms, head, tail, es[..k] + [e] + es[k..], repr + {n, n.links})
  {
    HoldsAfterInsertion(ns, es, k, n, e, ms);
    MembersAfterInsertion(ns, k, n, ms);
  }

  lemma MembersAfterInsertion<K, V>(ns: seq<Node<K, V>>, k: nat, n: Node<K, V>, ms: seq<Node<K, V>>)
    requires L.InsertedBehind(ns, k, n, ms)
    ensures ms[0] == ns[0] && forall m :: m in ms ==> m == n || m in ns
  {
    forall m | m in ms ensures m == n || m in ns {
      var p :| 0 <= p < |ms| && ms[p] == m;
      assert m == if p <= k then ns[p] else if p == k + 1 then n else ns[p - 1];
    }
  }

  // ----- removing the node at position k + 1 -----

  /** The pointer loop of a removal, for links given by `rows`. It stops at the first level
      that does not lead to `n`, the node at position `k`. */
  method Unwire<K, V>(n: Node<K, V>, max: nat, updated: seq<Node?<K, V>>,
                      ghost ms: seq<Node<K, V>>, ghost k: nat, ghost at: seq<nat>, ghost rows: seq<seq<Node?<K, V>>>)
    requires n.links.Length <= max + 1 == |at| <= |updated| && k < |ms| && n == ms[k]
    requires forall p, q :: 0 <= p < q < |ms| ==> ms[p].links != ms[q].links
    requires |rows| == |ms| && forall p :: 0 <= p < |ms| ==> ms[p].links[..] == rows[p]
    requires forall i :: 0 <= i <= max ==>
               && at[i] < |ms| && updated[i] == ms[at[i]] && i < ms[at[i]].links.Length && at[i] != k
               && (rows[at[i]][i] == n <==> i < n.links.Length)
    modifies set p | 0 <= p < |ms| && ms[p].links != n.links :: ms[p].links
    ensures forall p, l {:trigger ms[p].links[l]} :: 0 <= p < |ms| && 0 <= l < ms[p].links.Length ==>
              ms[p].links[l] == if l < n.links.Length && p == at[l] then rows[k][l] else rows[p][l]
  {
    var i := 0;
    while i <= max && updated[i].links[i] == n
      invariant 0 <= i <= n.links.Length
      invariant forall p, l {:trigger ms[p].links[l]} :: 0 <= p < |ms| && 0 <= l < ms[p].links.Length ==>
                  ms[p].links[l] == if l < i && p == at[l] then rows[k][l] else rows[p][l]
    {
      updated[i].links[i] := n.links[i];
      i := i + 1;
    }
  }

  /** A splice point leads to the node behind it exactly on that node's levels. */
  lemma LeadsTo<K, V>(ms: seq<Node<K, V>>, tail: Node<K, V>, k: nat, l: nat)
    requires Towers(ms, tail) && k + 1 < |ms| && l <= LEVELS
    ensures l < ms[LastOn(ms, k, l)].links.Length
    ensures Next(ms, tail, LastOn(ms, k, l), l) == ms[k + 1] <==> l < ms[k + 1].links.Length
  {
    var q := L.First(HeightsOf(ms), k + 1, l);
    TowersApart(ms, tail);
    NextOfLast(ms, tail, k, l);
    assert l < ms[LastOn(ms, k, l)].links.Length;
    if l < ms[k + 1].links.Length {
      assert q == k + 1;
    } else {
      assert q > k + 1;
      assert q < |ms| ==> ms[q].links != ms[k + 1].links;
    }
  }

  /** The levels of the node behind position `k` have been given back: the last node in
      front of it leads, on each of them, to where it leads itself. */
  ghost predicate Unhooked<K, V>(ms: seq<Node<K, V>>, tail: Node<K, V>, k: nat)
    requires k + 1 < |ms|
    reads set p | 0 <= p < |ms| :: ms[p].links
  {
    forall p, l {:trigger ms[p].links[l]} :: 0 <= p < |ms| && 0 <= l < ms[p].links.Length ==>
      ms[p].links[l] ==
        if l < ms[k + 1].links.Length && p == LastOn(ms, k, l) then Next(ms, tail, k + 1, l)
        else Next(ms, tail, p, l)
  }

  lemma LeadExactly<K, V>(ms: seq<Node<K, V>>, tail: Node<K, V>, k: nat, max: nat, at: seq<nat>)
    requires Towers(ms, tail) && LevelLinked(ms, tail) && k + 1 < |ms| && max <= LEVELS
    requires |at| == max + 1 && forall i :: 0 <= i <= max ==> at[i] == LastOn(ms, k, i)
    ensures forall i :: 0 <= i <= max ==> at[i] <= k && i < ms[at[i]].links.Length
    ensures forall i :: 0 <= i <= max ==> (ms[at[i]].links[i] == ms[k + 1] <==> i < ms[k + 1].links.Length)
  {
    assert forall i :: 0 <= i <= max ==> at[i] <= k;
    forall i | 0 <= i <= max
      ensures i < ms[at[i]].links.Length
      ensures ms[at[i]].links[i] == ms[k + 1] <==> i < ms[k + 1].links.Length
    {
      LeadsTo(ms, tail, k, i);
      assert ms[at[i]].links[i] == Next(ms, tail, at[i], i);
    }
  }

  /** Unhooks the node behind position `k` from each of its levels. */
  method Unhook<K, V>(n: Node<K, V>, max: nat, updated: seq<Node?<K, V>>,
                      ghost ms: seq<Node<K, V>>, ghost tail: Node<K, V>, ghost k: nat)
    requires Towers(ms, tail) && LevelLinked(ms, tail) && k + 1 < |ms| && n == ms[k + 1]
    requires n.links.Length <= max + 1 <= |updated| && max <= LEVELS
    requires forall i :: 0 <= i <= max ==> updated[i] == ms[LastOn(ms, k, i)]
    modifies set p | 0 <= p < |ms| && ms[p].links != n.links :: ms[p].links
    ensures Unhooked(ms, tail, k)
  {
    ghost var at := seq(max + 1, i requires 0 <= i => LastOn(ms, k, i));
    ghost var rows := Rows(ms, tail);
    LeadExactly(ms, tail, k, max, at);
    TowersApart(ms, tail);
    Unwire(n, max, updated, ms, k + 1, at, rows);
  }

  /** The links of a linked order, row by row. */
  ghost function Rows<K, V>(ns: seq<Node<K, V>>, tail: Node<K, V>): (rows: seq<seq<Node?<K, V>>>)
    requires LevelLinked(ns, tail)
    reads set p | 0 <= p < |ns| :: ns[p].links
    ensures |rows| == |ns| && forall p :: 0 <= p < |ns| ==> rows[p] == ns[p].links[..]
    ensures forall p, l :: 0 <= p < |ns| && 0 <= l < |rows[p]| ==> rows[p][l] == Next(ns, tail, p, l)
  {
    seq(|ns|, p requires 0 <= p < |ns| => seq(ns[p].links.Length, l requires 0 <= l => Next(ns, tail, p, l)))
  }

  lemma {:induction false} LinkedAfterRemoval<K, V>(ns: seq<Node<K, V>>, tail: Node<K, V>, k: nat, n: Node<K, V>,
                                                    ms: seq<Node<K, V>>)
    requires Towers(ms, tail) && L.InsertedBehind(ns, k, n, ms)
    requires Unhooked(ms, tail, k)
    ensures LevelLinked(ns, tail)
  {
    forall p, l | 0 <= p < |ns| && 0 <= l < ns[p].links.Length
      ensures ns[p].links[l] == Next(ns, tail, p, l)
    {
      LinkAfterRemoval(ns, tail, k, n, ms, p, if p <= k then p else p + 1, l);
    }
  }

  lemma LinkAfterRemoval<K, V>(ns: seq<Node<K, V>>, tail: Node<K, V>, k: nat, n: Node<K, V>, ms: seq<Node<K, V>>,
                               p: nat, q: nat, l: nat)
    requires Towers(ms, tail) && L.InsertedBehind(ns, k, n, ms)
    requires Unhooked(ms, tail, k)
    requires p < |ns| && l < ns[p].links.Length && q == if p <= k then p else p + 1
    ensures ns[p].links[l] == Next(ns, tail, p, l)
  {
    assert ns[0] == ms[0] && ns[p] == ms[q];
    assert ms[q].links[l] ==
           if l < ms[k + 1].links.Length && q == LastOn(ms, k, l) then Next(ms, tail, k + 1, l)
           else Next(ms, tail, q, l);
    NextAfterRemoval(ns, tail, k, n, ms, p, l);
  }

  lemma NextAfterRemoval<K, V>(ns: seq<Node<K, V>>, tail: Node<K, V>, k: nat, n: Node<K, V>,
                               ms: seq<Node<K, V>>, p: nat, l: nat)
    requires L.InsertedBehind(ns, k, n, ms) && p < |ns| && l < ns[p].links.Length && l < ns[0].links.Length
    ensures Next(ns, tail, p, l) ==
              if p > k then Next(ms, tail, p + 1, l)
              else if p == LastOn(ms, k, l) && l < n.links.Length then Next(ms, tail, k + 1, l)
              else Next(ms, tail, p, l)
  {
    L.LastUnchanged(HeightsOf(ns), HeightsOf(ms), k, l);
    NextAfterInsertion(ns, tail, k, n, ms, if p <= k then p else p + 1, l);
    if p <= k && p == LastOn(ns, k, l) && l < n.links.Length {
      NextAfterInsertion(ns, tail, k, n, ms, k + 1, l);
      NextOfLast(ns, tail, k, l);
    }
  }

  lemma TowersAfterRemoval<K, V>(ns: seq<Node<K, V>>, tail: Node<K, V>, k: nat, n: Node<K, V>, ms: seq<Node<K, V>>)
    requires Towers(ms, tail) && L.InsertedBehind(ns, k, n, ms)
    ensures Towers(ns, tail)
  {
    TowersApart(ms, tail);
    assert forall p :: 0 <= p < |ns| ==> ns[p] == ms[if p <= k then p else p + 1];
    forall p, q | 0 <= p < q < |ns| ensures Apart(ns, p, q) {
    }
  }

  /** Makes the last node lead to the tail, as it already does. */
  method LeadToTail<K, V>(last: Node<K, V>, tail: Node<K, V>, ghost ns: seq<Node<K, V>>, ghost k: nat)
    requires Towers(ns, tail) && LevelLinked(ns, tail) && k < |ns| && last == ns[k] && last.links[0] == tail
    modifies last.links
    ensures last.links[..] == old(last.links[..]) && LevelLinked(ns, tail)
  {
    ghost var rows := Rows(ns, tail);
    last.links[0] := tail;
    assert last.links[..] == old(last.links[..]);
    forall p, l | 0 <= p < |ns| && 0 <= l < ns[p].links.Length ensures ns[p].links[l] == Next(ns, tail, p, l) {
      assert ns[p].links[l] == rows[p][l];
    }
  }

  /** Repairs the back links around `n`, which is being removed from behind position `k`.
      If `n` was the last node, its predecessor is also made to lead to the tail, as it already does. */
  method UnlinkBack<K, V>(n: Node<K, V>, tail: Node<K, V>,
                          ghost ns: seq<Node<K, V>>, ghost k: nat, ghost ms: seq<Node<K, V>>)
    requires Towers(ms, tail) && BackLinked(ms, tail) && L.InsertedBehind(ns, k, n, ms)
    requires n.links[0] == (if k + 1 < |ns| then ns[k + 1] else tail)
    requires Towers(ns, tail) && LevelLinked(ns, tail)
    requires k + 1 == |ns| ==> ns[k].links[0] == tail
    modifies tail`prev, ms[k].links, (set p | 0 <= p < |ms| :: ms[p])`prev
    ensures BackLinked(ns, tail) && LevelLinked(ns, tail)
    ensures ms[k].links[..] == old(ms[k].links[..])
  {
    assert n == ms[k + 1] && n.prev == ms[k] == ns[k];
    var last := n.prev;
    assert k + 1 < |ns| ==> ns[k + 1].links != tail.links;
    RelinkPrev(n, tail, ns, k, ms);
    if n.links[0] == tail {
      LeadToTail(last, tail, ns, k);
    }
  }

  method RelinkPrev<K, V>(n: Node<K, V>, tail: Node<K, V>,
                          ghost ns: seq<Node<K, V>>, ghost k: nat, ghost ms: seq<Node<K, V>>)
    requires Towers(ms, tail) && BackLinked(ms, tail) && L.InsertedBehind(ns, k, n, ms)
    requires n.links[0] == (if k + 1 < |ns| then ns[k + 1] else tail)
    modifies tail`prev, (set p | 0 <= p < |ms| :: ms[p])`prev
    ensures BackLinked(ns, tail)
  {
    TowersApart(ms, tail);
    assert n == ms[k + 1] && n.prev == ms[k] == ns[k];
    assert k + 1 < |ns| ==> ns[k + 1] == ms[k + 2] && ns[k + 1] != tail;
    if n.links[0] != tail {
      n.links[0].prev := n.prev;
    } else {
      tail.prev := n.prev;
    }
    forall p | 1 <= p < |ns| ensures ns[p].prev == ns[p - 1] {
      assert ns[p] == ms[if p <= k then p else p + 1];
      assert ns[p - 1] == ms[if p - 1 <= k then p - 1 else p];
      assert p != k + 1 ==> ns[p].prev == old(ns[p].prev);
    }
  }

  /** Removes `n` from behind position `k`: all links, forward and back, fit the new order. */
  method RemoveNode<K, V>(n: Node<K, V>, max: nat, tail: Node<K, V>, updated: seq<Node?<K, V>>,
                          ghost ns: seq<Node<K, V>>, ghost k: nat, ghost ms: seq<Node<K, V>>)
    requires Towers(ms, tail) && LevelLinked(ms, tail) && BackLinked(ms, tail) && L.InsertedBehind(ns, k, n, ms)
    requires n.links.Length <= max + 1 <= |updated| && max <= LEVELS
    requires forall i :: 0 <= i <= max ==> updated[i] == ms[LastOn(ms, k, i)]
    modifies set p | 0 <= p < |ms| && ms[p].links != n.links :: ms[p].links
    modifies tail`prev, (set p | 0 <= p < |ms| :: ms[p])`prev
    ensures Linked(ns, tail)
    ensures forall m :: m in ms ==> m.item == old(m.item) && m.freed == old(m.freed)
    ensures tail.item == old(tail.item) && tail.freed == old(tail.freed)
    ensures tail.links.Length > 0 ==> tail.links[0] == old(tail.links[0])
  {
    Detach(n, max, tail, updated, ns, k, ms);
    UnlinkBack(n, tail, ns, k, ms);
  }

  /** The forward half of a removal. */
  method Detach<K, V>(n: Node<K, V>, max: nat, tail: Node<K, V>, updated: seq<Node?<K, V>>,
                      ghost ns: seq<Node<K, V>>, ghost k: nat, ghost ms: seq<Node<K, V>>)
    requires Towers(ms, tail) && LevelLinked(ms, tail) && L.InsertedBehind(ns, k, n, ms)
    requires n.links.Length <= max + 1 <= |updated| && max <= LEVELS
    requires forall i :: 0 <= i <= max ==> updated[i] == ms[LastOn(ms, k, i)]
    modifies set p | 0 <= p < |ms| && ms[p].links != n.links :: ms[p].links
    ensures Towers(ns, tail) && LevelLinked(ns, tail)
    ensures n.links[0] == if k + 1 < |ns| then ns[k + 1] else tail
    ensures k + 1 == |ns| ==> ns[k].links[0] == tail
    ensures ms[k].links != n.links && ns[k] == ms[k]
  {
    assert n.links[0] == Next(ms, tail, k + 1, 0) by {
      assert n == ms[k + 1];
    }
    Ground(ms, tail, k + 1);
    Unhook(n, max, updated, ms, tail, k);
    TowersAfterRemoval(ns, tail, k, n, ms);
    LinkedAfterRemoval(ns, tail, k, n, ms);
    Ground(ns, tail, k);
    assert ns[k].links[0] == Next(ns, tail, k, 0);
    assert Apart(ms, k, k + 1);
  }

  lemma HoldsAfterRemoval<K, V>(ns: seq<Node<K, V>>, es: seq<Pair<K, V>>, k: nat, n: Node<K, V>, ms: seq<Node<K, V>>)
    requires Holds(ms, es) && L.InsertedBehind(ns, k, n, ms)
    ensures k < |es| && n.item == Some(es[k]) && Holds(ns, es[..k] + es[k + 1..])
  {
    assert n == ms[k + 1];
    var fs := es[..k] + es[k + 1..];
    forall p | 1 <= p < |ns| ensures ns[p].item == Some(fs[p - 1]) {
      assert ns[p] == ms[if p <= k then p else p + 1];
    }
  }

  /** Lowers a level that may have become empty to the highest level in use. */
  method LowerMax<K, V>(head: Node<K, V>, max: nat, ghost ns: seq<Node<K, V>>, ghost tail: Node<K, V>)
    returns (top: nat)
    requires Towers(ns, tail) && LevelLinked(ns, tail) && head == ns[0] && max <= LEVELS
    requires forall p :: 1 <= p < |ns| ==> ns[p].links.Length <= max + 1
    ensures TopLevel(ns, top)
  {
    top := max;
    while top > 0 && head.links[top] == null
      invariant top <= max
      invariant forall p :: 1 <= p < |ns| ==> ns[p].links.Length <= top + 1
    {
      EmptyLevel(ns, tail, top);
      top := top - 1;
    }
    if top > 0 {
      ghost var p := L.First(HeightsOf(ns), 1, top);
      assert ns[0].links[top] == Next(ns, tail, 0, top);
      assert p < |ns| && ns[p].links.Length == top + 1;
    }
  }

  /** A level above 0 on which the head leads nowhere has no other node. */
  lemma EmptyLevel<K, V>(ns: seq<Node<K, V>>, tail: Node<K, V>, l: nat)
    requires Towers(ns, tail) && LevelLinked(ns, tail) && 0 < l <= LEVELS && ns[0].links[l] == null
    ensures forall p :: 1 <= p < |ns| ==> ns[p].links.Length <= l
  {
    assert ns[0].links[l] == Next(ns, tail, 0, l);
    assert L.First(HeightsOf(ns), 1, l) == |ns|;
    assert forall p :: 1 <= p < |ns| ==> HeightsOf(ns)[p] <= l;
  }

  lemma Without<T>(ms: seq<T>, k: nat) returns (ns: seq<T>)
    requires k + 1 < |ms|
    ensures L.InsertedBehind(ns, k, ms[k + 1], ms)
  {
    ns := ms[..k + 1] + ms[k + 2..];
  }

  lemma MembersAfterRemoval<K, V>(ns: seq<Node<K, V>>, tail: Node<K, V>, k: nat, n: Node<K, V>, ms: seq<Node<K, V>>)
    requires Towers(ms, tail) && L.InsertedBehind(ns, k, n, ms)
    ensures ns[0] == ms[0]
    ensures forall m :: m in ns ==> m in ms && m != n && m.links != n.links
  {
    TowersApart(ms, tail);
    assert n == ms[k + 1];
    forall m | m in ns ensures m in ms && m.links != n.links {
      var p :| 0 <= p < |ns| && ns[p] == m;
      assert m == ms[if p <= k then p else p + 1];
    }
  }

  lemma BoundAfterRemoval<K, V>(ns: seq<Node<K, V>>, max: nat, k: nat, n: Node<K, V>, ms: seq<Node<K, V>>)
    requires TopLevel(ms, max) && L.InsertedBehind(ns, k, n, ms)
    ensures n.links.Length <= max + 1
    ensures forall p :: 1 <= p < |ns| ==> ns[p].links.Length <= max + 1
  {
    forall p | 1 <= p < |ns| ensures ns[p].links.Length <= max + 1 {
      assert ns[p] == ms[if p <= k then p else p + 1];
    }
  }

  /** Removes the node behind position `k`, lowers the top level to fit and deletes the node. */
  method TakeOut<K, V>(n: Node<K, V>, head: Node<K, V>, max: nat, tail: Node<K, V>, updated: seq<Node?<K, V>>,
                       ghost ms: seq<Node<K, V>>, ghost es: seq<Pair<K, V>>, ghost k: nat, ghost repr: set<object>)
    returns (top: nat, ghost ns: seq<Node<K, V>>)
    requires Shaped(ms, head, tail, es, max, repr) && k + 1 < |ms| && n == ms[k + 1]
    requires max < |updated| && forall i :: 0 <= i <= max ==> updated[i] == ms[LastOn(ms, k, i)]
    modifies repr
    ensures L.InsertedBehind(ns, k, n, ms) && n.freed
    ensures forall m :: m in ms ==> m.item == old(m.item)
    ensures k < |es| && Shaped(ns, head, tail, es[..k] + es[k + 1..], top, repr)
  {
    top, ns := CutOut(n, head, max, tail, updated, ms, es, k, repr);
    Discard(n, ns, head, tail, es[..k] + es[k + 1..], top, repr);
  }

  /** All of that but the deletion. */
  method CutOut<K, V>(n: Node<K, V>, head: Node<K, V>, max: nat, tail: Node<K, V>, updated: seq<Node?<K, V>>,
                      ghost ms: seq<Node<K, V>>, ghost es: seq<Pair<K, V>>, ghost k: nat, ghost repr: set<object>)
    returns (top: nat, ghost ns: seq<Node<K, V>>)
    requires Shaped(ms, head, tail, es, max, repr) && k + 1 < |ms| && n == ms[k + 1]
    requires max < |updated| && forall i :: 0 <= i <= max ==> updated[i] == ms[LastOn(ms, k, i)]
    modifies repr
    ensures L.InsertedBehind(ns, k, n, ms) && !n.freed
    ensures forall m :: m in ms ==> m.item == old(m.item)
    ensures k < |es| && Shaped(ns, head, tail, es[..k] + es[k + 1..], top, repr - {n})
  {
    ns := Without(ms, k);
    BoundAfterRemoval(ns, max, k, n, ms);
    assert forall p :: 0 <= p < |ms| ==> ms[p] in repr && ms[p].links in repr;
    RemoveNode(n, max, tail, updated, ns, k, ms);
    top := LowerMax(head, max, ns, tail);
    CarriesLess(ns, head, tail, es, repr, k, n, ms);
  }

  method Discard<K, V>(n: Node<K, V>, ghost ns: seq<Node<K, V>>, ghost head: Node<K, V>, ghost tail: Node<K, V>,
                       ghost es: seq<Pair<K, V>>, ghost max: nat, ghost repr: set<object>)
    requires Shaped(ns, head, tail, es, max, repr - {n}) && !n.freed
    modifies n`freed
    ensures Shaped(ns, head, tail, es, max, repr) && n.freed
  {
    n.Delete();
    ShapedIn(ns, head, tail, es, max, repr - {n}, repr);
  }

  lemma ShapedIn<K, V>(ns: seq<Node<K, V>>, head: Node<K, V>, tail: Node<K, V>, es: seq<Pair<K, V>>,
                       max: nat, repr: set<object>, more: set<object>)
    requires Shaped(ns, head, tail, es, max, repr) && repr <= more
    ensures Shaped(ns, head, tail, es, max, more)
  {
  }

  lemma CarriesLess<K, V>(ns: seq<Node<K, V>>, head: Node<K, V>, tail: Node<K, V>, es: seq<Pair<K, V>>,
                          repr: set<object>, k: nat, n: Node<K, V>, ms: seq<Node<K, V>>)
    requires Carries(ms, head, tail, es, repr) && Towers(ms, tail) && L.InsertedBehind(ns, k, n, ms)
    ensures k < |es| && Carries(ns, head, tail, es[..k] + es[k + 1..], repr - {n})
  {
    HoldsAfterRemoval(ns, es, k, n, ms);
    MembersAfterRemoval(ns, tail, k, n, ms);
  }

  /** Assigns to the item of the node behind position `k`. */
  method SetItem<K, V>(n: Node<K, V>, item: Pair<K, V>, ghost head: Node<K, V>, ghost tail: Node<K, V>,
                       ghost ns: seq<Node<K, V>>, ghost es: seq<Pair<K, V>>, ghost k: nat, ghost max: nat,
                       ghost repr: set<object>)
    requires Shaped(ns, head, tail, es, max, repr) && k < |es| && n == ns[k + 1]
    modifies n`item
    ensures Shaped(ns, head, tail, es[k := item], max, repr)
  {
    TowersApart(ns, tail);
    n.item := Some(item);
  }

  // ----- the levels as lists -----

  /** The nodes of a sequence that are on level `l`, in order. */
  ghost function OnLevel<K, V>(ns: seq<Node<K, V>>, l: nat): seq<Node<K, V>> {
    if ns == [] then []
    else if l < ns[0].links.Length then [ns[0]] + OnLevel(ns[1..], l)
    else OnLevel(ns[1..], l)
  }

  /** Every level is a subsequence of the levels below it, and as such in key order. */
  lemma {:induction false} LevelsNest<K, V>(ns: seq<Node<K, V>>, l: nat, m: nat)
    requires l <= m
    ensures OnLevel(OnLevel(ns, l), m) == OnLevel(ns, m)
    ensures |OnLevel(ns, m)| <= |OnLevel(ns, l)| <= |ns|
  {
    if ns == [] {
    } else {
      LevelsNest(ns[1..], l, m);
      if l < ns[0].links.Length {
        assert OnLevel(ns, l)[1..] == OnLevel(ns[1..], l);
      }
    }
  }

  lemma {:induction false} EveryoneIsOnGround<K, V>(ns: seq<Node<K, V>>)
    requires forall p :: 0 <= p < |ns| ==> ns[p].links.Length >= 1
    ensures OnLevel(ns, 0) == ns
  {
    if ns == [] {
    } else {
      EveryoneIsOnGround(ns[1..]);
    }
  }

  /** The stretch between a position and the next node on a level has no node on it. */
  lemma {:induction false} SkipShort<K, V>(ns: seq<Node<K, V>>, p: nat, q: nat, l: nat)
    requires p <= q <= |ns|
    requires forall r :: p <= r < q ==> ns[r].links.Length <= l
    requires q < |ns| ==> l < ns[q].links.Length
    ensures OnLevel(ns[p..], l) == if q < |ns| then [ns[q]] + OnLevel(ns[q + 1..], l) else []
    decreases q - p
  {
    if p < q {
      assert ns[p..][1..] == ns[p + 1..];
      SkipShort(ns, p + 1, q, l);
    } else if q < |ns| {
      assert ns[p..][1..] == ns[p + 1..];
    }
  }

  /** The nodes on level `l` from position `q`, the first of them, on. */
  ghost function From<K, V>(ns: seq<Node<K, V>>, q: nat, l: nat): seq<Node<K, V>>
    requires q <= |ns|
  {
    if q < |ns| then [ns[q]] + OnLevel(ns[q + 1..], l) else []
  }

  lemma BetweenLevels<K, V>(ns: seq<Node<K, V>>, p: nat, q: nat, l: nat)
    requires p <= |ns| && q == L.First(HeightsOf(ns), p, l)
    ensures OnLevel(ns[p..], l) == From(ns, q, l)
  {
    var hs := HeightsOf(ns);
    forall r | p <= r < q ensures ns[r].links.Length <= l {
      assert ns[r].links.Length == hs[r];
    }
    assert q < |ns| ==> ns[q].links.Length == hs[q];
    SkipShort(ns, p, q, l);
  }

  /** Each node of `chain` leads, on level `l`, to the next one, and the last one to `stop`. */
  ghost predicate Threaded<K, V>(chain: seq<Node<K, V>>, l: nat, stop: Node?<K, V>)
    reads set i | 0 <= i < |chain| :: chain[i].links
  {
    forall i {:trigger chain[i]} :: 0 <= i < |chain| ==>
      l < chain[i].links.Length && chain[i].links[l] == if i + 1 < |chain| then chain[i + 1] else stop
  }

  /** The links of level `l` thread exactly the nodes on that level, down to the end of the level. */
  lemma {:induction false} LevelIsThreaded<K, V>(ns: seq<Node<K, V>>, tail: Node<K, V>, p: nat, l: nat)
    requires Towers(ns, tail) && LevelLinked(ns, tail) && p <= |ns|
    ensures Threaded(OnLevel(ns[p..], l), l, if l == 0 then tail else null)
    decreases |ns| - p
  {
    if p == |ns| {
    } else {
      LevelIsThreaded(ns, tail, p + 1, l);
      assert ns[p..][1..] == ns[p + 1..];
      if l < ns[p].links.Length {
        var q := L.First(HeightsOf(ns), p + 1, l);
        BetweenLevels(ns, p + 1, q, l);
        assert ns[p].links[l] == Next(ns, tail, p, l);
        ThreadedCons(ns[p], OnLevel(ns[p + 1..], l), l, if l == 0 then tail else null);
      }
    }
  }

  lemma ThreadedCons<K, V>(n: Node<K, V>, chain: seq<Node<K, V>>, l: nat, stop: Node?<K, V>)
    requires Threaded(chain, l, stop) && l < n.links.Length
    requires n.links[l] == if chain == [] then stop else chain[0]
    ensures Threaded([n] + chain, l, stop)
  {
  }
}
