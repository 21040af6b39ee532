/** The slicing of the pending articles into batches of ten: batch `k`
    covers positions `10k` up to `min(10k + 10, n)`. */
module Batching {

  const BatchSize: nat := 10

  /** `(n + batch_size - 1) // batch_size`: the least number of batches of
      ten that hold `n` items. */
  function BatchCount(n: nat): (c: nat)
    ensures c * BatchSize >= n
    ensures c > 0 ==> (c - 1) * BatchSize < n
    ensures c == 0 <==> n == 0
  {
    (n + BatchSize - 1) / BatchSize
  }

  function BatchStart(k: nat): nat
  {
    k * BatchSize
  }

  function BatchEnd(k: nat, n: nat): nat
  {
    if BatchStart(k) + BatchSize < n then BatchStart(k) + BatchSize else n
  }

  /** Batch `k` of `s`: `s[10k : min(10k + 10, n)]`. It is never empty, it
      is full unless it is the last one, and it holds the items of `s` from
      position `10k` on, in order. */
  function Batch<T>(s: seq<T>, k: nat): (b: seq<T>)
    requires k < BatchCount(|s|)
    ensures 1 <= |b| <= BatchSize
    ensures k + 1 < BatchCount(|s|) ==> |b| == BatchSize
    ensures k + 1 == BatchCount(|s|) ==> |b| == |s| - k * BatchSize
    ensures forall i :: 0 <= i < |b| ==> b[i] == s[k * BatchSize + i]
  {
    s[BatchStart(k)..BatchEnd(k, |s|)]
  }

  /** The first `k` batches of `s`, in order. */
  function Batches<T>(s: seq<T>, k: nat): (bs: seq<seq<T>>)
    requires k <= BatchCount(|s|)
    ensures |bs| == k
    ensures forall j :: 0 <= j < k ==> bs[j] == Batch(s, j)
  {
    if k == 0 then [] else Batches(s, k - 1) + [Batch(s, k - 1)]
  }

  function Flatten<T>(bs: seq<seq<T>>): seq<T>
  {
    if bs == [] then [] else Flatten(bs[..|bs| - 1]) + bs[|bs| - 1]
  }

  /** Where the first `k` batches end: `10k`, or `n` once `k` is the batch
      count. */
  lemma BatchBoundary(n: nat, k: nat)
    requires 0 < k <= BatchCount(n)
    ensures BatchStart(k - 1) + BatchSize == BatchStart(k)
    ensures k < BatchCount(n) ==> BatchEnd(k - 1, n) == BatchStart(k) && BatchStart(k) < n
    ensures k == BatchCount(n) ==> BatchEnd(k - 1, n) == n
  {
  }

  /** The first `k` batches put back together are the first `10k` items
      (all of them once `k` is the batch count). */
  lemma {:induction false} BatchesFlattenToPrefix<T>(s: seq<T>, k: nat)
    requires k <= BatchCount(|s|)
    ensures k < BatchCount(|s|) ==> Flatten(Batches(s, k)) == s[..BatchStart(k)]
    ensures k == BatchCount(|s|) ==> Flatten(Batches(s, k)) == s
  {
    if k > 0 {
      var bs := Batches(s, k);
      var a, b := BatchStart(k - 1), BatchEnd(k - 1, |s|);
      BatchBoundary(|s|, k);
      assert k - 1 < BatchCount(|s|);
      BatchesFlattenToPrefix(s, k - 1);
      assert Flatten(Batches(s, k - 1)) == s[..a];
      assert bs[..k - 1] == Batches(s, k - 1);
      assert Flatten(bs) == s[..a] + s[a..b];
      SlicesJoin(s, a, b);
      assert Flatten(bs) == s[..b];
    }
  }

  lemma SlicesJoin<T>(s: seq<T>, a: nat, b: nat)
    requires a <= b <= |s|
    ensures s[..a] + s[a..b] == s[..b]
    ensures b == |s| ==> s[..b] == s
  {
  }

  /** The batches, concatenated in order, are the input: nothing is lost,
      repeated or reordered. */
  lemma BatchesConcatenateToInput<T>(s: seq<T>)
    ensures Flatten(Batches(s, BatchCount(|s|))) == s
  {
    BatchesFlattenToPrefix(s, BatchCount(|s|));
  }

  /** Item `i` of the input lies in batch `i / 10`, at position `i % 10`. */
  lemma ItemInItsBatch<T>(s: seq<T>, i: nat)
    requires i < |s|
    ensures i / BatchSize < BatchCount(|s|)
    ensures i % BatchSize < |Batch(s, i / BatchSize)|
    ensures Batch(s, i / BatchSize)[i % BatchSize] == s[i]
  {
  }
}
