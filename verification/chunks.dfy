/**
 * `splitArrayChunk`: cuts an array into consecutive pieces of `size`
 * elements, the last one possibly shorter. The source does it with a
 * `reduce` whose callback starts a new piece at every index divisible by
 * `size`; that fold is `ChunkPrefix` below.
 */
module ArrayChunk {

  function Min(a: int, b: int): int {
    if a < b then a else b
  }

  /** The concatenation of the pieces. */
  function Flatten<T>(chunks: seq<seq<T>>): seq<T> {
    if chunks == [] then [] else chunks[0] + Flatten(chunks[1..])
  }

  /**
   * The `reduce` accumulator after the callback has seen indices `0 .. n-1`:
   * index `i` starts the piece `a.slice(i, i + size)` when `i % size` is 0 and
   * leaves the accumulator alone otherwise.
   */
  function ChunkPrefix<T>(a: seq<T>, size: nat, n: nat): (r: seq<seq<T>>)
    requires size > 0 && n <= |a|
    ensures |r| <= n
    ensures n > 0 ==> |r| > 0 && r[0] == a[..Min(size, |a|)]
  {
    if n == 0 then []
    else
      var result := ChunkPrefix(a, size, n - 1);
      var index := n - 1;
      if index % size != 0 then result
      else result + [a[index..Min(index + size, |a|)]]
  }

  /**
   * `splitArrayChunk(array, size)`: pieces of at most `size` elements, none
   * empty and all but the last full, that concatenate to the array.
   */
  function SplitArrayChunk<T>(a: seq<T>, size: nat): (r: seq<seq<T>>)
    requires size > 0
    ensures IsChunking(r, a, size)
  {
    ChunkPrefixInvariant(a, size, |a|);
    assert a[..|a|] == a;
    ChunkPrefix(a, size, |a|)
  }

  /**
   * `chunks` cuts `a` into pieces of `size`: they concatenate to `a`, none is
   * empty or longer than `size`, and all but the last have exactly `size`
   * elements.
   */
  ghost predicate IsChunking<T>(chunks: seq<seq<T>>, a: seq<T>, size: nat) {
    && Flatten(chunks) == a
    && (forall k :: 0 <= k < |chunks| ==> 0 < |chunks[k]| <= size)
    && (forall k :: 0 <= k < |chunks| - 1 ==> |chunks[k]| == size)
  }

  /** A reference definition: take `size` elements off the front until none are left. */
  function Chunked<T>(a: seq<T>, size: nat): seq<seq<T>>
    requires size > 0
    decreases |a|
  {
    if a == [] then []
    else if |a| <= size then [a]
    else [a[..size]] + Chunked(a[size..], size)
  }

  lemma {:induction false} FlattenAppend<T>(chunks: seq<seq<T>>, c: seq<T>)
    ensures Flatten(chunks + [c]) == Flatten(chunks) + c
  {
    if chunks != [] {
      assert (chunks + [c])[1..] == chunks[1..] + [c];
      FlattenAppend(chunks[1..], c);
    }
  }

  lemma {:induction false} MulAtLeast(a: int, size: int)
    requires a >= 1 && size > 0
    ensures a * size >= size
  {
    if a > 1 {
      MulAtLeast(a - 1, size);
      assert a * size == (a - 1) * size + size;
    }
  }

  /** Euclidean remainders are unique. */
  lemma ModUnique(n: int, size: int, q: int, r: int)
    requires size > 0 && 0 <= r < size && n == q * size + r
    ensures n % size == r
  {
    var q0, r0 := n / size, n % size;
    assert n == q0 * size + r0;
    assert (q - q0) * size == r0 - r;
    if q > q0 {
      MulAtLeast(q - q0, size);
    } else if q < q0 {
      MulAtLeast(q0 - q, size);
    }
  }

  /** The remainder of the next index counts up by one and wraps at `size`. */
  lemma ModSucc(n: nat, size: nat)
    requires size > 0
    ensures (n + 1) % size == if n % size == size - 1 then 0 else n % size + 1
  {
    var q, r := n / size, n % size;
    assert n == q * size + r;
    if r == size - 1 {
      ModUnique(n + 1, size, q + 1, 0);
    } else {
      ModUnique(n + 1, size, q, r + 1);
    }
  }

  /** How far the pieces started at indices below `n` reach into a sequence of length `len`. */
  function Cover(len: nat, size: nat, n: nat): nat
    requires size > 0
  {
    if n == 0 then 0
    else if (n - 1) % size == 0 then Min(n - 1 + size, len)
    else Cover(len, size, n - 1)
  }

  lemma ModSmall(x: int, size: int)
    requires 0 <= x < size
    ensures x % size == x
  {
    ModUnique(x, size, 0, x);
  }

  lemma ModSelf(size: int)
    requires size > 0
    ensures size % size == 0
  {
    ModUnique(size, size, 1, 0);
  }

  /** In closed form: up to the next multiple of `size` at or after `n`, within the sequence. */
  lemma {:induction false} CoverClosed(len: nat, size: nat, n: nat)
    requires size > 0 && n <= len
    ensures Cover(len, size, n) == Min(len, n + (size - n % size) % size)
  {
    ModSelf(size);
    if n == 0 {
      ModSmall(0, size);
    } else {
      var m := n - 1;
      var r := m % size;
      CoverClosed(len, size, m);
      ModSucc(m, size);
      if r == 0 {
        if size > 1 {
          ModSmall(size - 1, size);
        }
      } else {
        ModSmall(size - r, size);
        if r < size - 1 {
          ModSmall(size - r - 1, size);
        }
      }
    }
  }

  /** How the covered prefix grows when the fold sees index `m`. */
  lemma CoverStep(len: nat, size: nat, m: nat)
    requires size > 0 && m < len
    ensures m <= Cover(len, size, m) <= len
    ensures m % size == 0 ==> Cover(len, size, m) == m
    ensures m + 1 <= Cover(len, size, m + 1) <= len
  {
    CoverClosed(len, size, m);
    CoverClosed(len, size, m + 1);
    ModSelf(size);
  }

  /** What the fold has built after `n` indices: a chunking of the prefix it covers. */
  lemma {:induction false} ChunkPrefixInvariant<T>(a: seq<T>, size: nat, n: nat)
    requires size > 0 && n <= |a|
    ensures n <= Cover(|a|, size, n) <= |a|
    ensures IsChunking(ChunkPrefix(a, size, n), a[..Cover(|a|, size, n)], size)
    ensures var cs := ChunkPrefix(a, size, n);
            |cs| > 0 ==> |cs[|cs| - 1]| == size || Cover(|a|, size, n) == |a|
  {
    if n == 0 {
      assert 0 % size == 0;
    } else {
      var m := n - 1;
      ChunkPrefixInvariant(a, size, m);
      CoverStep(|a|, size, m);
      if m % size == 0 {
        ChunkPrefixStart(a, size, m);
      }
    }
  }

  /** The step of `ChunkPrefixInvariant` at an index that starts a new piece. */
  lemma ChunkPrefixStart<T>(a: seq<T>, size: nat, m: nat)
    requires size > 0 && m < |a| && m % size == 0 && Cover(|a|, size, m) == m
    requires Cover(|a|, size, m + 1) == Min(m + size, |a|)
    requires IsChunking(ChunkPrefix(a, size, m), a[..m], size)
    requires var cs := ChunkPrefix(a, size, m); |cs| > 0 ==> |cs[|cs| - 1]| == size
    ensures IsChunking(ChunkPrefix(a, size, m + 1), a[..Cover(|a|, size, m + 1)], size)
  {
    var prev := ChunkPrefix(a, size, m);
    var c := a[m..Min(m + size, |a|)];
    var cs := prev + [c];
    assert ChunkPrefix(a, size, m + 1) == cs;
    FlattenAppend(prev, c);
    assert a[..m] + c == a[..Min(m + size, |a|)];
    assert forall k :: 0 <= k < |prev| ==> cs[k] == prev[k];
  }

  /**
   * The pieces `splitArrayChunk` returns are the pieces of the reference
   * definition.
   */
  lemma SplitArrayChunkCorrect<T>(a: seq<T>, size: nat)
    requires size > 0
    ensures SplitArrayChunk(a, size) == Chunked(a, size)
  {
    ChunkingUnique(SplitArrayChunk(a, size), a, size);
  }

  /** There is only one way to cut a sequence into `size`-sized pieces. */
  lemma {:induction false} ChunkingUnique<T>(chunks: seq<seq<T>>, a: seq<T>, size: nat)
    requires size > 0 && IsChunking(chunks, a, size)
    ensures chunks == Chunked(a, size)
    decreases |chunks|
  {
    if |chunks| == 1 {
      assert a == chunks[0];
    } else if |chunks| > 1 {
      var rest := chunks[1..];
      assert a == chunks[0] + Flatten(rest);
      assert rest[0] == chunks[1];
      assert |Flatten(rest)| >= |rest[0]| > 0;
      assert a[..size] == chunks[0] && a[size..] == Flatten(rest);
      ChunkingUnique(rest, a[size..], size);
    }
  }
}
