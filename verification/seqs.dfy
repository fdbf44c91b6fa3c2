/** Sequence helpers: concatenation of a sequence of sequences, and the
    fixed-size chunking that PHP's `array_chunk` and the encoders'
    `substr($data, $i * n, n)` loops perform. */
module Seqs {

  import opened Arith

  function Min(a: int, b: int): int {
    if a < b then a else b
  }

  /** In-order concatenation of the members of `ss`. */
  function Flatten<T>(ss: seq<seq<T>>): seq<T> {
    if |ss| == 0 then [] else ss[0] + Flatten(ss[1..])
  }

  lemma {:induction false} FlattenAppend<T>(a: seq<seq<T>>, b: seq<seq<T>>)
    ensures Flatten(a + b) == Flatten(a) + Flatten(b)
  {
    if |a| == 0 {
      assert a + b == b;
    } else {
      assert (a + b)[1..] == a[1..] + b;
      FlattenAppend(a[1..], b);
    }
  }

  /** `f` applied to every element of `xs`, in order. */
  function Map<T, U>(f: T -> U, xs: seq<T>): (r: seq<U>)
    ensures |r| == |xs|
    ensures forall i :: 0 <= i < |xs| ==> r[i] == f(xs[i])
  {
    seq(|xs|, i requires 0 <= i < |xs| => f(xs[i]))
  }

  lemma MapAppend<T, U>(f: T -> U, xs: seq<T>, ys: seq<T>)
    ensures Map(f, xs + ys) == Map(f, xs) + Map(f, ys)
  {
  }

  /** Concatenating pieces of one length `n` gives `n` elements per piece. */
  lemma {:induction false} FlattenUniformLength<T>(ss: seq<seq<T>>, n: nat)
    requires forall i :: 0 <= i < |ss| ==> |ss[i]| == n
    ensures |Flatten(ss)| == n * |ss|
  {
    if |ss| > 0 {
      FlattenUniformLength(ss[1..], n);
      MulPred(|ss|, n);
    }
  }

  /** The shape `Chunks` produces: non-empty pieces of `n` elements, only the
      last one possibly shorter. */
  ghost predicate ChunkShaped<T>(ss: seq<seq<T>>, n: nat) {
    && (forall i :: 0 <= i < |ss| ==> 0 < |ss[i]| <= n)
    && (forall i :: 0 <= i < |ss| - 1 ==> |ss[i]| == n)
  }

  /** `s` cut into consecutive pieces of `n` elements, the last one possibly
      shorter: `array_chunk($s, n)`, and equally the pieces a loop over
      `substr($s, $i * n, n)` for `$i < ceil(strlen($s) / n)` visits. */
  function Chunks<T>(s: seq<T>, n: nat): (r: seq<seq<T>>)
    requires n > 0
    ensures ChunkShaped(r, n)
    decreases |s|
  {
    if |s| == 0 then
      []
    else if |s| <= n then
      [s]
    else
      [s[..n]] + Chunks(s[n..], n)
  }

  /** Chunking loses nothing: the chunks concatenate back to `s`. */
  lemma {:induction false} FlattenChunks<T>(s: seq<T>, n: nat)
    requires n > 0
    ensures Flatten(Chunks(s, n)) == s
    decreases |s|
  {
    if |s| > n {
      FlattenChunks(s[n..], n);
      assert s == s[..n] + s[n..];
    }
  }

  /** There are `ceil(|s| / n)` chunks, the PHP loops' `$chunkCount`. */
  lemma {:induction false} ChunksCount<T>(s: seq<T>, n: nat)
    requires n > 0
    ensures |Chunks(s, n)| == (|s| + n - 1) / n
    decreases |s|
  {
    if 0 < |s| <= n {
      CeilOfShort(|s|, n);
    } else if |s| > n {
      ChunksCount(s[n..], n);
      CeilStep(|s| - n, n);
    }
  }

  /** A sequence whose length is a multiple of `n` has only full chunks. */
  lemma {:induction false} ChunksExact<T>(s: seq<T>, n: nat)
    requires n > 0 && |s| % n == 0
    ensures forall i :: 0 <= i < |Chunks(s, n)| ==> |Chunks(s, n)[i]| == n
    decreases |s|
  {
    if |s| > n {
      ModStep(|s| - n, n);
      ChunksExact(s[n..], n);
    } else if 0 < |s| < n {
      ModOfShort(|s|, n);
    }
  }

  /** Chunking a prefix whose length is a multiple of `n` does not affect the
      chunks of what follows it. */
  lemma {:induction false} ChunksAppend<T>(a: seq<T>, b: seq<T>, n: nat)
    requires n > 0 && |a| % n == 0
    ensures Chunks(a + b, n) == Chunks(a, n) + Chunks(b, n)
    decreases |a|
  {
    if |a| == 0 {
      assert a + b == b;
    } else {
      if |a| < n {
        ModOfShort(|a|, n);
      }
      if |b| == 0 {
        assert a + b == a;
      } else if |a| == n {
        assert (a + b)[..n] == a;
        assert (a + b)[n..] == b;
        assert Chunks(a, n) == [a];
      } else {
        assert (a + b)[..n] == a[..n];
        assert (a + b)[n..] == a[n..] + b;
        ModStep(|a| - n, n);
        ChunksAppend(a[n..], b, n);
      }
    }
  }

  /** Chunk `i` is the slice the PHP loop takes with `substr($s, $i * n, n)`. */
  lemma ChunkAt<T>(s: seq<T>, n: nat, i: nat)
    requires n > 0 && i < |Chunks(s, n)|
    ensures i * n < |s|
    ensures Chunks(s, n)[i] == s[i * n .. Min(i * n + n, |s|)]
  {
    ChunkAtOffset(s, n, i);
    OffsetIsProduct(i, n);
  }

  /** `i * n`, written as repeated addition. */
  function Offset(i: nat, n: nat): nat {
    if i == 0 then 0 else Offset(i - 1, n) + n
  }

  lemma {:induction false} OffsetIsProduct(i: nat, n: nat)
    ensures Offset(i, n) == i * n
  {
    if i > 0 {
      OffsetIsProduct(i - 1, n);
      MulPred(i, n);
    }
  }

  lemma {:induction false} ChunkAtOffset<T>(s: seq<T>, n: nat, i: nat)
    requires n > 0 && i < |Chunks(s, n)|
    ensures Offset(i, n) < |s|
    ensures Chunks(s, n)[i] == s[Offset(i, n) .. Min(Offset(i, n) + n, |s|)]
    decreases i
  {
    if i == 0 {
      ChunkFirst(s, n);
    } else {
      ChunkNext(s, n, i);
      ChunkAtOffset(s[n..], n, i - 1);
      var lo := Offset(i - 1, n);
      SliceOfSuffix(s, n, lo, Min(lo + n, |s| - n));
    }
  }

  lemma ChunkFirst<T>(s: seq<T>, n: nat)
    requires n > 0 && |s| > 0
    ensures Chunks(s, n)[0] == s[..Min(n, |s|)]
  {
  }

  lemma ChunkNext<T>(s: seq<T>, n: nat, i: nat)
    requires n > 0 && 0 < i < |Chunks(s, n)|
    ensures |s| > n
    ensures Chunks(s, n)[i] == Chunks(s[n..], n)[i - 1]
  {
  }

  lemma SliceOfSuffix<T>(s: seq<T>, n: nat, lo: nat, hi: nat)
    requires n <= |s| && lo <= hi <= |s| - n
    ensures s[n..][lo..hi] == s[lo + n .. hi + n]
  {
  }

  /** Chunking undoes flattening for any sequence of the chunked shape. */
  lemma {:induction false} ChunksOfFlatten<T>(ss: seq<seq<T>>, n: nat)
    requires n > 0 && ChunkShaped(ss, n)
    ensures Chunks(Flatten(ss), n) == ss
  {
    if |ss| == 1 {
      assert Flatten(ss) == ss[0];
    } else if |ss| > 1 {
      var rest := Flatten(ss[1..]);
      assert Flatten(ss) == ss[0] + rest;
      assert rest == ss[1] + Flatten(ss[2..]);
      assert ChunkShaped(ss[1..], n);
      ChunksOfFlatten(ss[1..], n);
      FlattenChunks(Flatten(ss), n);
      assert (ss[0] + rest)[..n] == ss[0];
      assert (ss[0] + rest)[n..] == rest;
    }
  }
}
