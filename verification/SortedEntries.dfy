/** The contents of an ordered map, as the sequence of its entries in key order.

    `lxcd::map` promises to behave as a finite map that is iterated in key order.
    A strictly sorted sequence of entries is the canonical form of such a map
    (`CanonicalForm`), so every operation is specified here on sequences and shown
    to be the corresponding operation on mathematical maps. */
module SortedEntries {
  import opened Sequences

  datatype Pair<+K, +V> = Pair(key: K, value: V)

  ghost predicate Below<K>(less: (K, K) -> bool, a: K, b: K) {
    less(a, b)
  }

  /** The key type's `<` is a strict total order that agrees with its `==`. */
  ghost predicate TotalOrder<K(!new)>(less: (K, K) -> bool) {
    && (forall a {:trigger less(a, a)} :: !less(a, a))
    && (forall a, b {:trigger Below(less, a, b)} :: a == b || less(a, b) || less(b, a))
    && (forall a, b, c {:trigger Below(less, a, b), Below(less, b, c)} :: less(a, b) && less(b, c) ==> less(a, c))
  }

  ghost predicate Sorted<K, V>(less: (K, K) -> bool, es: seq<Pair<K, V>>) {
    forall i, j {:trigger Below(less, es[i].key, es[j].key)} :: 0 <= i < j < |es| ==> Below(less, es[i].key, es[j].key)
  }

  /** The number of leading entries whose key is below `key`. */
  function Rank<K, V>(less: (K, K) -> bool, es: seq<Pair<K, V>>, key: K): (k: nat)
    ensures k <= |es|
    ensures forall i :: 0 <= i < k ==> less(es[i].key, key)
    ensures k < |es| ==> !less(es[k].key, key)
  {
    if es == [] || !less(es[0].key, key) then 0 else 1 + Rank(less, es[1..], key)
  }

  predicate Has<K(==), V>(less: (K, K) -> bool, es: seq<Pair<K, V>>, key: K) {
    var k := Rank(less, es, key);
    k < |es| && es[k].key == key
  }

  /** Insertion that never replaces: an entry whose key is present is dropped. */
  function InsertAbsent<K(==), V>(less: (K, K) -> bool, es: seq<Pair<K, V>>, e: Pair<K, V>): seq<Pair<K, V>> {
    var k := Rank(less, es, e.key);
    if Has(less, es, e.key) then es else es[..k] + [e] + es[k..]
  }

  /** Assignment through `operator[]`: replaces the value of a present key, inserts an absent one. */
  function Put<K(==), V>(less: (K, K) -> bool, es: seq<Pair<K, V>>, e: Pair<K, V>): seq<Pair<K, V>> {
    var k := Rank(less, es, e.key);
    if Has(less, es, e.key) then es[k := e] else es[..k] + [e] + es[k..]
  }

  function Remove<K(==), V>(less: (K, K) -> bool, es: seq<Pair<K, V>>, key: K): seq<Pair<K, V>> {
    var k := Rank(less, es, key);
    if Has(less, es, key) then es[..k] + es[k + 1..] else es
  }

  /** The finite map that a sequence of entries stands for. */
  function MapOf<K, V>(es: seq<Pair<K, V>>): map<K, V> {
    if es == [] then map[]
    else MapOf(es[..|es| - 1])[es[|es| - 1].key := es[|es| - 1].value]
  }

  ghost predicate Distinct<K, V>(es: seq<Pair<K, V>>) {
    forall i, j :: 0 <= i < j < |es| ==> es[i].key != es[j].key
  }

  ghost predicate Within<K, V>(es: seq<Pair<K, V>>, m: map<K, V>) {
    forall i :: 0 <= i < |es| ==> es[i].key in m && m[es[i].key] == es[i].value
  }

  ghost predicate Occurs<K, V>(es: seq<Pair<K, V>>, key: K) {
    exists i :: 0 <= i < |es| && es[i].key == key
  }

  // ----- sequences with distinct keys, and their maps -----

  lemma {:induction false} MapOfEntries<K, V>(es: seq<Pair<K, V>>)
    requires Distinct(es)
    ensures Within(es, MapOf(es)) && |MapOf(es)| == |es|
    ensures forall x :: x in MapOf(es) ==> Occurs(es, x)
  {
    if es == [] {
    } else {
      var init, last := es[..|es| - 1], es[|es| - 1];
      MapOfEntries(init);
      assert forall i :: 0 <= i < |init| ==> es[i] == init[i];
      assert es[|es| - 1].key == last.key;
      assert last.key !in MapOf(init);
    }
  }

  /** Distinct entries of `m`, as many as `m` has, stand for `m`. */
  lemma SameMap<K, V>(es: seq<Pair<K, V>>, m: map<K, V>)
    requires Distinct(es) && |es| == |m| && Within(es, m)
    ensures MapOf(es) == m
  {
    MapOfEntries(es);
    var n := MapOf(es);
    forall x | x in n ensures x in m && m[x] == n[x] {
      assert Occurs(es, x);
      var i :| 0 <= i < |es| && es[i].key == x;
    }
    assert m.Keys == n.Keys + (m.Keys - n.Keys);
    assert |m.Keys| == |n.Keys| + |m.Keys - n.Keys|;
    assert m.Keys - n.Keys == {};
  }

  lemma InsertedAt<K, V>(es: seq<Pair<K, V>>, e: Pair<K, V>, k: nat, fs: seq<Pair<K, V>>)
    requires Distinct(es) && Inserted(es, e, k, fs) && e.key !in MapOf(es)
    ensures Distinct(fs) && MapOf(fs) == MapOf(es)[e.key := e.value]
  {
    var m := MapOf(es)[e.key := e.value];
    MapOfEntries(es);
    assert m.Keys == MapOf(es).Keys + {e.key};
    forall i | 0 <= i < |fs| ensures fs[i].key in m && m[fs[i].key] == fs[i].value {
      if i != k {
        assert fs[i] == es[if i < k then i else i - 1];
      }
    }
    DistinctInsertion(es, e, k, fs);
    SameMap(fs, m);
  }

  lemma DistinctInsertion<K, V>(es: seq<Pair<K, V>>, e: Pair<K, V>, k: nat, fs: seq<Pair<K, V>>)
    requires Distinct(es) && Inserted(es, e, k, fs)
    requires forall i :: 0 <= i < |es| ==> es[i].key != e.key
    ensures Distinct(fs)
  {
  }

  lemma DistinctWithout<K, V>(es: seq<Pair<K, V>>, k: nat, fs: seq<Pair<K, V>>)
    requires k < |es| && Inserted(fs, es[k], k, es) && Distinct(es)
    ensures Distinct(fs) && forall i :: 0 <= i < |fs| ==> fs[i].key != es[k].key
  {
    assert forall i :: 0 <= i < |fs| ==> fs[i] == es[if i < k then i else i + 1];
  }

  lemma Without<T>(es: seq<T>, k: nat)
    requires k < |es|
    ensures Inserted(es[..k] + es[k + 1..], es[k], k, es)
  {
  }

  lemma RemovedAt<K, V>(es: seq<Pair<K, V>>, k: nat, fs: seq<Pair<K, V>>)
    requires k < |es| && Inserted(fs, es[k], k, es) && Distinct(es)
    ensures MapOf(fs) == MapOf(es) - {es[k].key}
  {
    DistinctWithout(es, k, fs);
    MapOfEntries(fs);
    InsertedAt(fs, es[k], k, es);
  }

  lemma ReplacedAt<K, V>(es: seq<Pair<K, V>>, e: Pair<K, V>, k: nat)
    requires Distinct(es) && k < |es| && es[k].key == e.key
    ensures MapOf(es[k := e]) == MapOf(es)[e.key := e.value]
  {
    var fs, m := es[k := e], MapOf(es)[e.key := e.value];
    MapOfEntries(es);
    assert m.Keys == MapOf(es).Keys;
    SameMap(fs, m);
  }

  // ----- sorted sequences -----

  lemma Asymmetric<K(!new)>(less: (K, K) -> bool, a: K, b: K)
    requires TotalOrder(less)
    ensures !(less(a, b) && less(b, a))
  {
    assert less(a, b) && less(b, a) ==> Below(less, a, b) && Below(less, b, a);
    assert !less(a, a);
  }

  lemma SortedPairs<K(!new), V>(less: (K, K) -> bool, es: seq<Pair<K, V>>)
    requires Sorted(less, es)
    ensures forall i, j :: 0 <= i < j < |es| ==> less(es[i].key, es[j].key)
  {
    forall i, j | 0 <= i < j < |es| ensures less(es[i].key, es[j].key) {
      assert Below(less, es[i].key, es[j].key);
    }
  }

  lemma SortedIsDistinct<K(!new), V>(less: (K, K) -> bool, es: seq<Pair<K, V>>)
    requires TotalOrder(less) && Sorted(less, es)
    ensures Distinct(es)
  {
    SortedPairs(less, es);
  }

  /** `Rank` splits a sorted sequence into the keys below `key` and the rest. */
  lemma RankSplits<K(!new), V>(less: (K, K) -> bool, es: seq<Pair<K, V>>, key: K)
    requires TotalOrder(less) && Sorted(less, es)
    ensures forall i :: 0 <= i < |es| ==> (less(es[i].key, key) <==> i < Rank(less, es, key))
  {
    var k := Rank(less, es, key);
    forall i | k < i < |es| ensures !less(es[i].key, key) {
      assert Below(less, es[k].key, es[i].key) && !Below(less, es[k].key, key);
      assert Below(less, es[i].key, key) || !less(es[i].key, key);
    }
  }

  /** Only the entry at `Rank` can have the key itself. */
  lemma RankFinds<K(!new), V>(less: (K, K) -> bool, es: seq<Pair<K, V>>, key: K)
    requires TotalOrder(less) && Sorted(less, es)
    ensures Has(less, es, key) <==> Occurs(es, key)
    ensures forall i :: 0 <= i < |es| && es[i].key == key ==> i == Rank(less, es, key)
  {
    var k := Rank(less, es, key);
    RankSplits(less, es, key);
    forall i | k < i < |es| ensures es[i].key != key {
      assert Below(less, es[k].key, es[i].key);
    }
    assert !less(key, key);
  }

  lemma HasIsMembership<K(!new), V>(less: (K, K) -> bool, es: seq<Pair<K, V>>, key: K)
    requires TotalOrder(less) && Sorted(less, es)
    ensures Has(less, es, key) <==> key in MapOf(es)
    ensures |MapOf(es)| == |es|
  {
    SortedIsDistinct(less, es);
    MapOfEntries(es);
    RankFinds(less, es, key);
  }

  lemma SortedInsertion<K(!new), V>(less: (K, K) -> bool, es: seq<Pair<K, V>>, e: Pair<K, V>, k: nat)
    requires Sorted(less, es) && k <= |es|
    requires forall i :: 0 <= i < k ==> less(es[i].key, e.key)
    requires forall i :: k <= i < |es| ==> less(e.key, es[i].key)
    ensures Sorted(less, es[..k] + [e] + es[k..])
  {
    var fs := es[..k] + [e] + es[k..];
    SortedPairs(less, es);
    forall i, j | 0 <= i < j < |fs| ensures less(fs[i].key, fs[j].key) {
      assert fs[i] == if i < k then es[i] else if i == k then e else es[i - 1];
      assert fs[j] == if j < k then es[j] else if j == k then e else es[j - 1];
    }
  }

  lemma SortedRemoval<K(!new), V>(less: (K, K) -> bool, es: seq<Pair<K, V>>, k: nat)
    requires Sorted(less, es) && k < |es|
    ensures Sorted(less, es[..k] + es[k + 1..])
  {
    var fs := es[..k] + es[k + 1..];
    SortedPairs(less, es);
    forall i, j | 0 <= i < j < |fs| ensures less(fs[i].key, fs[j].key) {
      assert fs[i] == es[if i < k then i else i + 1];
      assert fs[j] == es[if j < k then j else j + 1];
    }
  }

  // ----- the operations are those of a finite map -----

  lemma InsertAbsentIsMapInsert<K(!new), V>(less: (K, K) -> bool, es: seq<Pair<K, V>>, e: Pair<K, V>)
    requires TotalOrder(less) && Sorted(less, es)
    ensures Sorted(less, InsertAbsent(less, es, e))
    ensures MapOf(InsertAbsent(less, es, e)) == if e.key in MapOf(es) then MapOf(es) else MapOf(es)[e.key := e.value]
  {
    HasIsMembership(less, es, e.key);
    if !Has(less, es, e.key) {
      InsertionOfAbsent(less, es, e);
    }
  }

  /** The entries behind the rank of an absent key are above it. */
  lemma AbsentKey<K(!new), V>(less: (K, K) -> bool, es: seq<Pair<K, V>>, key: K)
    requires TotalOrder(less) && Sorted(less, es) && !Has(less, es, key)
    ensures forall i :: Rank(less, es, key) <= i < |es| ==> less(key, es[i].key)
  {
    RankSplits(less, es, key);
    RankFinds(less, es, key);
    forall i | Rank(less, es, key) <= i < |es| ensures less(key, es[i].key) {
      assert Below(less, es[i].key, key) || less(key, es[i].key);
    }
  }

  lemma InsertionOfAbsent<K(!new), V>(less: (K, K) -> bool, es: seq<Pair<K, V>>, e: Pair<K, V>)
    requires TotalOrder(less) && Sorted(less, es) && !Has(less, es, e.key)
    ensures var k := Rank(less, es, e.key); var fs := es[..k] + [e] + es[k..];
            Sorted(less, fs) && MapOf(fs) == MapOf(es)[e.key := e.value]
  {
    var k := Rank(less, es, e.key);
    AbsentKey(less, es, e.key);
    SortedInsertion(less, es, e, k);
    HasIsMembership(less, es, e.key);
    SortedIsDistinct(less, es);
    InsertedAt(es, e, k, es[..k] + [e] + es[k..]);
  }

  lemma PutIsMapUpdate<K(!new), V>(less: (K, K) -> bool, es: seq<Pair<K, V>>, e: Pair<K, V>)
    requires TotalOrder(less) && Sorted(less, es)
    ensures Sorted(less, Put(less, es, e))
    ensures MapOf(Put(less, es, e)) == MapOf(es)[e.key := e.value]
  {
    if Has(less, es, e.key) {
      SortedIsDistinct(less, es);
      ReplacedAt(es, e, Rank(less, es, e.key));
    } else {
      InsertionOfAbsent(less, es, e);
    }
  }

  lemma RemoveIsMapRemove<K(!new), V>(less: (K, K) -> bool, es: seq<Pair<K, V>>, key: K)
    requires TotalOrder(less) && Sorted(less, es)
    ensures Sorted(less, Remove(less, es, key))
    ensures MapOf(Remove(less, es, key)) == MapOf(es) - {key}
  {
    if Has(less, es, key) {
      var k := Rank(less, es, key);
      SortedIsDistinct(less, es);
      SortedRemoval(less, es, k);
      Without(es, k);
      RemovedAt(es, k, es[..k] + es[k + 1..]);
    } else {
      HasIsMembership(less, es, key);
      assert MapOf(es) - {key} == MapOf(es);
    }
  }

  lemma OrderKept<K(!new), V>(less: (K, K) -> bool, es: seq<Pair<K, V>>, e: Pair<K, V>)
    requires TotalOrder(less) && Sorted(less, es)
    ensures Sorted(less, InsertAbsent(less, es, e)) && Sorted(less, Put(less, es, e))
    ensures Sorted(less, Remove(less, es, e.key))
  {
    InsertAbsentIsMapInsert(less, es, e);
    PutIsMapUpdate(less, es, e);
    RemoveIsMapRemove(less, es, e.key);
  }

  lemma RankOfInserted<K(!new), V>(less: (K, K) -> bool, es: seq<Pair<K, V>>, e: Pair<K, V>)
    requires TotalOrder(less) && Sorted(less, es)
    ensures var fs := InsertAbsent(less, es, e);
            Rank(less, fs, e.key) == Rank(less, es, e.key) < |fs| && fs[Rank(less, es, e.key)].key == e.key
  {
    var fs, k := InsertAbsent(less, es, e), Rank(less, es, e.key);
    OrderKept(less, es, e);
    assert fs[k].key == e.key;
    RankFinds(less, fs, e.key);
  }

  /** Removing a key takes back its insertion, and more if the key was there before. */
  lemma RemoveAfterInsert<K(!new), V>(less: (K, K) -> bool, es: seq<Pair<K, V>>, e: Pair<K, V>)
    requires TotalOrder(less) && Sorted(less, es)
    ensures Remove(less, InsertAbsent(less, es, e), e.key) == Remove(less, es, e.key)
  {
    RankOfInserted(less, es, e);
    var fs, k := InsertAbsent(less, es, e), Rank(less, es, e.key);
    if !Has(less, es, e.key) {
      assert fs[..k] + fs[k + 1..] == es;
    }
  }

  /** Finding or inserting a key and then assigning to it assigns the key. */
  lemma PutAfterInsert<K(!new), V>(less: (K, K) -> bool, es: seq<Pair<K, V>>, d: Pair<K, V>, e: Pair<K, V>)
    requires TotalOrder(less) && Sorted(less, es) && d.key == e.key
    ensures Put(less, InsertAbsent(less, es, d), e) == Put(less, es, e)
  {
    RankOfInserted(less, es, d);
  }

  function InsertAll<K(==), V>(less: (K, K) -> bool, es: seq<Pair<K, V>>, items: seq<Pair<K, V>>): seq<Pair<K, V>>
    decreases items
  {
    if items == [] then es else InsertAll(less, InsertAbsent(less, es, items[0]), items[1..])
  }

  lemma InsertAllStep<K, V>(less: (K, K) -> bool, es: seq<Pair<K, V>>, items: seq<Pair<K, V>>, i: nat)
    requires i < |items|
    ensures InsertAll(less, es, items[i..]) == InsertAll(less, InsertAbsent(less, es, items[i]), items[i + 1..])
  {
    assert items[i..][1..] == items[i + 1..];
  }

  /** Inserting the entries of a sorted sequence one by one into nothing rebuilds it. */
  lemma InsertSorted<K(!new), V>(less: (K, K) -> bool, es: seq<Pair<K, V>>)
    requires TotalOrder(less) && Sorted(less, es)
    ensures InsertAll(less, [], es) == es
  {
    InsertRest(less, es, 0);
  }

  lemma {:induction false} InsertRest<K(!new), V>(less: (K, K) -> bool, es: seq<Pair<K, V>>, p: nat)
    requires TotalOrder(less) && Sorted(less, es) && p <= |es|
    ensures InsertAll(less, es[..p], es[p..]) == es
    decreases |es| - p
  {
    if p == |es| {
    } else {
      AppendLargest(less, es, p);
      InsertRest(less, es, p + 1);
    }
  }

  lemma AppendLargest<K(!new), V>(less: (K, K) -> bool, es: seq<Pair<K, V>>, p: nat)
    requires TotalOrder(less) && Sorted(less, es) && p < |es|
    ensures InsertAbsent(less, es[..p], es[p]) == es[..p + 1]
  {
    var fs := es[..p];
    SortedPairs(less, es);
    var k := Rank(less, fs, es[p].key);
    assert forall i :: 0 <= i < p ==> less(fs[i].key, es[p].key);
  }

  /** Two sorted sequences that stand for the same map are the same sequence:
      key order leaves no freedom in how a map's contents are laid out. */
  lemma CanonicalForm<K(!new), V>(less: (K, K) -> bool, es: seq<Pair<K, V>>, fs: seq<Pair<K, V>>)
    requires TotalOrder(less) && Sorted(less, es) && Sorted(less, fs)
    ensures MapOf(es) == MapOf(fs) <==> es == fs
  {
    if MapOf(es) == MapOf(fs) {
      SortedIsDistinct(less, es);
      SortedIsDistinct(less, fs);
      MapOfEntries(es);
      MapOfEntries(fs);
      forall i | 0 <= i < |es| ensures es[i] == fs[i] {
        SamePosition(less, es, fs, i);
      }
    }
  }

  lemma {:induction false} SamePosition<K(!new), V>(less: (K, K) -> bool, es: seq<Pair<K, V>>, fs: seq<Pair<K, V>>,
                                                    i: nat)
    requires TotalOrder(less) && Sorted(less, es) && Sorted(less, fs) && |es| == |fs|
    requires MapOf(es) == MapOf(fs)
    requires i < |es|
    ensures es[i] == fs[i]
  {
    SortedIsDistinct(less, es);
    SortedIsDistinct(less, fs);
    MapOfEntries(es);
    MapOfEntries(fs);
    assert fs[i].key in MapOf(es) && es[i].key in MapOf(fs);
    var a :| 0 <= a < |es| && es[a].key == fs[i].key;
    var b :| 0 <= b < |fs| && fs[b].key == es[i].key;
    // a key of one sequence that sat at an earlier place of the other would occur twice
    Asymmetric(less, es[i].key, fs[i].key);
    SortedPairs(less, es);
    SortedPairs(less, fs);
    if a < i { SamePosition(less, es, fs, a); }
    if b < i { SamePosition(less, es, fs, b); }
  }
}
