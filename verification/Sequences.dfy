/** Sequences with one element taken out, as the linked lists of lib/malloc.c and
    lib/scheduler.c lose theirs; and concatenation. */
module Sequences {

  /** The place of what stands at i once place k is gone. */
  function Skip(k: int, i: int): (j: int) {
    if i < k then i else i + 1
  }

  /** q without what is at k. */
  function RemoveAt<T>(q: seq<T>, k: int): (r: seq<T>)
    requires 0 <= k < |q|
    ensures |r| == |q| - 1
    ensures forall i {:trigger r[i]} | 0 <= i < |r| :: r[i] == q[Skip(k, i)]
  {
    q[..k] + q[k + 1..]
  }

  lemma RemoveFirst<T>(q: seq<T>)
    requires q != []
    ensures RemoveAt(q, 0) == q[1..]
  {
  }

  lemma RemoveLater<T>(q: seq<T>, k: int)
    requires 0 < k < |q|
    ensures RemoveAt(q, k) == [q[0]] + RemoveAt(q[1..], k - 1)
  {
  }

  lemma RemoveKeeps<T>(q: seq<T>, k: int)
    requires 0 <= k < |q|
    ensures forall t | t in RemoveAt(q, k) :: t in q
  {
  }

  lemma ConcatAssociates<T>(a: seq<T>, b: seq<T>, c: seq<T>)
    ensures (a + b) + c == a + (b + c)
  {
  }
}
