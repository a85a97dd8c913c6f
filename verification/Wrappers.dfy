/** Small value types shared by every component. */
module Wrappers {

  datatype Option<+T> = None | Some(value: T)

  predicate Distinct<T(==)>(s: seq<T>) {
    forall i, j | 0 <= i < j < |s| :: s[i] != s[j]
  }

  predicate Increasing(at: seq<nat>) {
    forall j, k | 0 <= j < k < |at| :: at[j] < at[k]
  }

  lemma IncreasingLonger(at: seq<nat>, n: nat)
    requires Increasing(at) && forall m | m in at :: m < n
    ensures Increasing(at + [n])
    ensures forall m: nat :: m in at + [n] <==> m in at || m == n
  {
    assert forall j | 0 <= j < |at| :: at[j] in at;
  }

  function Max(a: int, b: int): int {
    if a >= b then a else b
  }

  function Min(a: int, b: int): int {
    if a <= b then a else b
  }
}
