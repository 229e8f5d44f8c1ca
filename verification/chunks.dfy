/** Cutting a range into consecutive chunks of one size, and dealing them to workers. */
module Chunks {
  // Where chunk k starts: k times the chunk size.
  function Base(size: nat, k: nat): nat { if k == 0 then 0 else Base(size, k - 1) + size }

  lemma {:induction false} BaseIsProduct(size: nat, k: nat)
    ensures Base(size, k) == k * size
  {
    if k == 0 {
    } else {
      BaseIsProduct(size, k - 1);
      assert (k - 1) * size + size == k * size;
    }
  }

  lemma {:induction false} BaseApart(size: nat, q: nat, j: nat)
    requires q < j
    ensures Base(size, q) + size <= Base(size, j)
  {
    if q + 1 == j {
    } else {
      BaseApart(size, q, j - 1);
    }
  }

  function Clip(n: nat, i: nat): nat { if i < n then i else n }

  lemma CeilingCovers(u: nat, n: nat)
    requires u > 0 && n > 0
    ensures (u + n - 1) / n > 0 && u <= (u + n - 1) / n * n
  {
    var x := u + n - 1;
    var q, r := x / n, x % n;
    assert x == n * q + r;
    assert q == 0 ==> n * q == 0;
  }

  method StartOf(chunk: nat, w: nat) returns (lo: nat)
    ensures lo == Base(chunk, w)
  {
    BaseIsProduct(chunk, w);
    lo := w * chunk;
  }

  method ChunkSize(n: nat, workers: nat) returns (chunk: nat)
    requires n > 0 && workers > 0
    ensures chunk > 0 && n <= Base(chunk, workers)
  {
    CeilingCovers(n, workers);
    chunk := (n + workers - 1) / workers;
    BaseIsProduct(chunk, workers);
  }

  // The workers that get a chunk.
  method Started(n: nat, chunk: nat, workers: nat) returns (pending: set<nat>)
    requires chunk > 0
    ensures forall w: nat {:trigger w in pending} :: w in pending <==> w < workers && Base(chunk, w) < n
  {
    pending := {};
    for w := 0 to workers
      invariant forall v: nat {:trigger v in pending} :: v in pending <==> v < w && Base(chunk, v) < n
    {
      var lo := StartOf(chunk, w);
      if lo >= n {
        forall v: nat | w < v
          ensures Base(chunk, v) >= n
        {
          BaseApart(chunk, w, v);
        }
        return;
      }
      pending := pending + {w};
    }
  }
}
