/** Facts about sequences that large proofs should not have to find again. */
module Sequences {
  lemma {:induction false} SplitAt<T>(a: seq<T>, k: nat)
    requires k <= |a|
    ensures a == a[..k] + a[k..]
  {
  }

  lemma {:induction false} NextPrefix<T>(a: seq<T>, k: nat)
    requires k < |a|
    ensures a[..k + 1] == a[..k] + [a[k]]
    ensures a[..k + 1][..k] == a[..k]
  {
  }

  lemma {:induction false} LastOf<T>(a: seq<T>)
    requires a != []
    ensures a == a[..|a| - 1] + [a[|a| - 1]]
  {
  }

  lemma {:induction false} AppendAssoc<T>(a: seq<T>, b: seq<T>, c: seq<T>)
    ensures a + (b + c) == (a + b) + c
  {
  }

  lemma {:induction false} TailOfCons<T>(x: T, a: seq<T>, k: nat)
    requires k <= |a|
    ensures ([x] + a)[k + 1..] == a[k..]
  {
  }
}
