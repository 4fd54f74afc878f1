/**
  `slice::chunks(n)`: consecutive, non-overlapping pieces of at most `n`
  elements, in order, the last one possibly shorter. The standard library
  panics when `n` is zero, so `Chunks` and the lemmas about it require `n > 0`.
 */
module Chunking {

  function Min(a: int, b: int): int {
    if a <= b then a else b
  }

  function Flatten<T>(cs: seq<seq<T>>): seq<T>
    decreases |cs|
  {
    if cs == [] then [] else cs[0] + Flatten(cs[1..])
  }

  function Chunks<T>(s: seq<T>, n: nat): (r: seq<seq<T>>)
    requires n > 0
    ensures Flatten(r) == s
    ensures forall k :: 0 <= k < |r| ==> 0 < |r[k]| <= n
    ensures forall k :: 0 <= k < |r| - 1 ==> |r[k]| == n
    decreases |s|
  {
    if |s| == 0 then []
    else
      var c := s[..Min(n, |s|)];
      var rest := Chunks(s[|c|..], n);
      assert ([c] + rest)[1..] == rest;
      [c] + rest
  }

  /** Splitting a list in two splits its concatenation. */
  lemma {:induction false} FlattenAppend<T>(a: seq<seq<T>>, b: seq<seq<T>>)
    ensures Flatten(a + b) == Flatten(a) + Flatten(b)
    decreases |a|
  {
    if a == [] {
      assert a + b == b;
    } else {
      assert (a + b)[0] == a[0] && (a + b)[1..] == a[1..] + b;
      FlattenAppend(a[1..], b);
    }
  }

  lemma {:induction false} MulAtLeast(a: int, n: int)
    requires a >= 1 && n > 0
    ensures a * n >= n
    decreases a
  {
    if a > 1 {
      MulAtLeast(a - 1, n);
      assert a * n == (a - 1) * n + n;
    }
  }

  /** Euclidean division has one quotient. */
  lemma DivideExactly(x: int, n: int, q: int)
    requires n > 0 && q * n <= x < q * n + n
    ensures x / n == q
  {
    var d := x / n;
    assert x == d * n + x % n && 0 <= x % n < n;
    if d > q {
      MulAtLeast(d - q, n);
    } else if d < q {
      MulAtLeast(q - d, n);
    }
  }

  lemma DivAtLeast(x: int, n: int, q: int)
    requires n > 0 && q * n <= x
    ensures x / n >= q
  {
    var d := x / n;
    assert x == d * n + x % n && 0 <= x % n < n;
    if d < q {
      MulAtLeast(q - d, n);
    }
  }

  lemma DivStep(x: int, n: int)
    requires n > 0 && x >= 0
    ensures (x + n) / n == x / n + 1
  {
    var q := x / n;
    assert x == q * n + x % n && 0 <= x % n < n;
    assert (q + 1) * n == q * n + n;
    DivideExactly(x + n, n, q + 1);
  }

  /** There are `ceil(|s| / n)` chunks; in particular none for an empty list. */
  lemma {:induction false} ChunkCount<T>(s: seq<T>, n: nat)
    requires n > 0
    ensures |Chunks(s, n)| == (|s| + n - 1) / n
    decreases |s|
  {
    if |s| == 0 {
      DivideExactly(n - 1, n, 0);
    } else if |s| <= n {
      DivideExactly(|s| + n - 1, n, 1);
    } else {
      ChunkCount(s[n..], n);
      DivStep(|s| - 1, n);
    }
  }

  /** Past the first chunk, the chunks are those of the rest of the list. */
  lemma ChunksTail<T>(s: seq<T>, n: nat, k: nat)
    requires n > 0 && 0 < k < |Chunks(s, n)|
    ensures |s| > n && Chunks(s, n)[k] == Chunks(s[n..], n)[k - 1]
  {
  }

  lemma SliceShift<T>(s: seq<T>, n: nat, k: nat)
    requires n > 0 && 0 < k && |s| > n
    requires (k - 1) * n < |s[n..]|
    requires k * n == (k - 1) * n + n
    ensures k * n < |s|
    ensures s[n..][(k - 1) * n..Min((k - 1) * n + n, |s[n..]|)] == s[k * n..Min(k * n + n, |s|)]
  {
  }

  lemma MulStep(k: int, n: int)
    ensures k * n == (k - 1) * n + n
  {
  }

  /** Chunk `k` is the slice that starts at `k * n`, cut short by the end of the list. */
  lemma {:induction false} ChunkAt<T>(s: seq<T>, n: nat, k: nat)
    requires n > 0 && k < |Chunks(s, n)|
    ensures k * n < |s|
    ensures Chunks(s, n)[k] == s[k * n..Min(k * n + n, |s|)]
    decreases k
  {
    if k > 0 {
      ChunksTail(s, n, k);
      ChunkAt(s[n..], n, k - 1);
      MulStep(k, n);
      SliceShift(s, n, k);
    }
  }

  /** Five assets in batches of two form batches of sizes 2, 2 and 1. */
  lemma ExampleFiveByTwo<T>(s: seq<T>)
    requires |s| == 5
    ensures |Chunks(s, 2)| == 3
    ensures |Chunks(s, 2)[0]| == 2 && |Chunks(s, 2)[1]| == 2 && |Chunks(s, 2)[2]| == 1
  {
    ChunkCount(s, 2);
    ChunkAt(s, 2, 0);
    ChunkAt(s, 2, 1);
    ChunkAt(s, 2, 2);
  }
}
