module Sequences {
  /** `fs` is `es` with `e` inserted at place `k`. */
  ghost predicate Inserted<T>(es: seq<T>, e: T, k: nat, fs: seq<T>) {
    && k <= |es| && |fs| == |es| + 1 && fs[k] == e
    && (forall i :: 0 <= i < k ==> fs[i] == es[i])
    && (forall i :: k < i < |fs| ==> fs[i] == es[i - 1])
  }
}
