/** The level structure of a skip list, as arithmetic on tower heights.

    A skip list with its head at position 0 is described by `hs`, where `hs[p]` is the
    number of links held by the node at position `p`. On level `l` a node is linked to
    the first later node that is taller than `l`, so the whole pointer structure is a
    function of the heights and of the order of the nodes. Splicing a node in or out
    moves exactly the links described by the two theorems below. */
module SkipLevels {
  import opened Sequences

  /** The first position at or after `j` whose node is on level `l`; `|hs|` if there is none. */
  ghost function First(hs: seq<nat>, j: nat, l: nat): (q: nat)
    requires j <= |hs|
    ensures j <= q <= |hs|
    ensures forall r :: j <= r < q ==> hs[r] <= l
    ensures q < |hs| ==> hs[q] > l
    decreases |hs| - j
  {
    if j == |hs| || hs[j] > l then j else First(hs, j + 1, l)
  }

  /** The last position at or before `k` whose node is on level `l` (the head is on every level). */
  ghost function Last(hs: seq<nat>, k: nat, l: nat): (p: nat)
    requires k < |hs|
    ensures p <= k
    ensures forall r :: p < r <= k ==> hs[r] <= l
    ensures p == 0 || hs[p] > l
  {
    if k == 0 || hs[k] > l then k else Last(hs, k - 1, l)
  }

  lemma FirstIsUnique(hs: seq<nat>, j: nat, l: nat, q: nat)
    requires j <= q <= |hs|
    requires forall r :: j <= r < q ==> hs[r] <= l
    requires q < |hs| ==> hs[q] > l
    ensures First(hs, j, l) == q
  {
  }

  /** A node on level `l` at or before `k` steps beyond `k` on that level exactly when it is
      the last such node, and then it steps to the first node after `k`. */
  lemma StepCrosses(hs: seq<nat>, k: nat, l: nat, p: nat)
    requires k < |hs| && p <= k && hs[p] > l
    ensures First(hs, p + 1, l) > k <==> p == Last(hs, k, l)
    ensures p == Last(hs, k, l) ==> First(hs, p + 1, l) == First(hs, k + 1, l)
  {
    if p == Last(hs, k, l) {
      FirstIsUnique(hs, p + 1, l, First(hs, k + 1, l));
    }
  }

  /** `gs` is `hs` with `h` inserted behind position `k`. */
  ghost predicate InsertedBehind<T>(hs: seq<T>, k: nat, h: T, gs: seq<T>) {
    k < |hs| && Inserted(hs, h, k + 1, gs)
  }

  function InsertAt<T>(hs: seq<T>, k: nat, h: T): seq<T>
    requires k < |hs|
  {
    hs[..k + 1] + [h] + hs[k + 1..]
  }

  lemma InsertAtIsInserted<T>(hs: seq<T>, k: nat, h: T)
    requires k < |hs|
    ensures InsertedBehind(hs, k, h, InsertAt(hs, k, h))
  {
  }

  lemma {:induction false} LastUnchanged(hs: seq<nat>, gs: seq<nat>, k: nat, l: nat)
    requires k < |hs| && k < |gs|
    requires forall p :: 0 <= p <= k ==> gs[p] == hs[p]
    ensures Last(gs, k, l) == Last(hs, k, l)
  {
    if k == 0 || hs[k] > l {
    } else {
      LastUnchanged(hs, gs, k - 1, l);
    }
  }

  /** Where the steps behind the insertion point lead. */
  lemma FirstAfter(hs: seq<nat>, k: nat, h: nat, gs: seq<nat>, j: nat, l: nat)
    requires InsertedBehind(hs, k, h, gs) && k + 1 <= j <= |hs|
    ensures First(gs, j + 1, l) == First(hs, j, l) + 1
  {
    var q := First(hs, j, l);
    assert forall r :: j + 1 <= r < q + 1 ==> gs[r] == hs[r - 1];
    FirstIsUnique(gs, j + 1, l, q + 1);
  }

  /** A step that ends in front of the insertion point is not changed. */
  lemma Inside(hs: seq<nat>, k: nat, h: nat, gs: seq<nat>, p: nat, l: nat)
    requires InsertedBehind(hs, k, h, gs) && p <= k && First(hs, p + 1, l) <= k
    ensures First(gs, p + 1, l) == First(hs, p + 1, l)
  {
    var q := First(hs, p + 1, l);
    assert forall r :: p + 1 <= r <= q ==> gs[r] == hs[r];
    FirstIsUnique(gs, p + 1, l, q);
  }

  /** A step that crosses the insertion point stops at a new node that is on the level. */
  lemma OntoTall(hs: seq<nat>, k: nat, h: nat, gs: seq<nat>, p: nat, l: nat)
    requires InsertedBehind(hs, k, h, gs) && h > l && p == Last(hs, k, l)
    ensures First(gs, p + 1, l) == k + 1
  {
    assert forall r :: p + 1 <= r <= k ==> gs[r] == hs[r];
    FirstIsUnique(gs, p + 1, l, k + 1);
  }

  /** A step that crosses the insertion point passes over a new node that is not on the level. */
  lemma OverShort(hs: seq<nat>, k: nat, h: nat, gs: seq<nat>, p: nat, l: nat)
    requires InsertedBehind(hs, k, h, gs) && h <= l && p == Last(hs, k, l)
    ensures First(gs, p + 1, l) == First(hs, k + 1, l) + 1
  {
    var q := First(hs, k + 1, l);
    forall r | p + 1 <= r < q + 1 ensures gs[r] <= l {
      assert r > k + 1 ==> gs[r] == hs[r - 1];
      assert r <= k ==> gs[r] == hs[r];
    }
    assert q < |hs| ==> gs[q + 1] == hs[q];
    FirstIsUnique(gs, p + 1, l, q + 1);
  }

  /** Where the steps in front of the insertion point lead: a step that crossed it now stops
      at the new node if that node is on the level, and every other step keeps its target. */
  lemma FirstBefore(hs: seq<nat>, k: nat, h: nat, gs: seq<nat>, p: nat, l: nat)
    requires InsertedBehind(hs, k, h, gs) && p <= k && hs[p] > l
    ensures First(gs, p + 1, l) ==
      if p != Last(hs, k, l) then First(hs, p + 1, l)
      else if l < h then k + 1
      else First(hs, k + 1, l) + 1
  {
    StepCrosses(hs, k, l, p);
    if p != Last(hs, k, l) {
      Inside(hs, k, h, gs, p, l);
    } else if l < h {
      OntoTall(hs, k, h, gs, p, l);
    } else {
      OverShort(hs, k, h, gs, p, l);
    }
  }
}
