/** A reference description of batching, independent of any cursor or buffer:
    a sequence is cut into consecutive groups of `n`, plus a shorter remainder. */
module Chunking {
  import opened Bytes

  /** The complete groups of `n` consecutive elements, in order. */
  function Chunks<T>(xs: seq<T>, n: nat): (r: seq<seq<T>>)
    requires n > 0
    ensures forall i | 0 <= i < |r| :: |r[i]| == n
    decreases |xs|
  {
    if |xs| < n then [] else [xs[..n]] + Chunks(xs[n..], n)
  }

  /** The elements after the last complete group. */
  function Leftover<T>(xs: seq<T>, n: nat): (r: seq<T>)
    requires n > 0
    ensures |r| < n
    decreases |xs|
  {
    if |xs| < n then xs else Leftover(xs[n..], n)
  }

  /** The groups and the remainder, laid end to end, give back the sequence. */
  lemma {:induction false} ChunksPartition<T>(xs: seq<T>, n: nat)
    requires n > 0
    ensures xs == Concat(Chunks(xs, n)) + Leftover(xs, n)
    decreases |xs|
  {
    if |xs| >= n {
      ChunksPartition(xs[n..], n);
      ConcatCons(xs[..n], Chunks(xs[n..], n));
      assert xs == xs[..n] + xs[n..];
    }
  }

  /** One more element either completes the pending group or joins the remainder. */
  lemma {:induction false} ChunksSnoc<T>(xs: seq<T>, x: T, n: nat)
    requires n > 0
    ensures |Leftover(xs, n)| + 1 == n ==>
              && Chunks(xs + [x], n) == Chunks(xs, n) + [Leftover(xs, n) + [x]]
              && Leftover(xs + [x], n) == []
    ensures |Leftover(xs, n)| + 1 < n ==>
              && Chunks(xs + [x], n) == Chunks(xs, n)
              && Leftover(xs + [x], n) == Leftover(xs, n) + [x]
    decreases |xs|
  {
    var ys := xs + [x];
    if |xs| < n {
      if |xs| + 1 == n {
        assert ys[..n] == ys && ys[n..] == [];
      }
    } else {
      assert ys[..n] == xs[..n];
      assert ys[n..] == xs[n..] + [x];
      ChunksSnoc(xs[n..], x, n);
    }
  }

  /** The groups and the remainder account for every element: |xs| / n groups
      and |xs| % n left over, stated without division. */
  lemma {:induction false} ChunkCount<T>(xs: seq<T>, n: nat)
    requires n > 0
    ensures |Chunks(xs, n)| * n + |Leftover(xs, n)| == |xs|
    decreases |xs|
  {
    if |xs| >= n {
      ChunkCount(xs[n..], n);
      var c := |Chunks(xs[n..], n)|;
      assert (c + 1) * n == c * n + n;
    }
  }

  /** The k-th group is the n elements from position k*n on. */
  lemma {:induction false} ChunkAt<T>(xs: seq<T>, n: nat, k: nat)
    requires n > 0 && k < |Chunks(xs, n)|
    ensures k * n + n <= |xs| && Chunks(xs, n)[k] == xs[k * n..k * n + n]
    decreases |xs|
  {
    if k > 0 {
      var rest := xs[n..];
      ChunkAt(rest, n, k - 1);
      assert k * n == (k - 1) * n + n;
      assert Chunks(xs, n)[k] == Chunks(rest, n)[k - 1];
      assert rest[(k - 1) * n..(k - 1) * n + n] == xs[k * n..k * n + n];
    }
  }
}
