/** `weakRandomBytes`: a cache of leftover bytes in front of `Math.random`.
    A refill draws the fewest numbers whose 52-bit mantissas cover the bytes
    the cache is short of, packs them with `floatsToBytes` and appends the
    result; a request then takes its bytes off the front of the cache.

    The cache is the module-level `randomCache`; here it is an explicit pool
    value passed in and returned. `Math.random` is a parameter: the mantissa
    of its k-th output (k counted from the first draw of the process). */
module WeakByteSource {
  import opened Arith
  import opened Bytes
  import opened MantissaStream

  /** The mantissas of `Math.random`'s successive outputs: draw k is source(k). */
  type Source = nat -> Mantissa

  /** The cache, and how many numbers have been drawn so far. */
  datatype Pool = Pool(cache: seq<bv8>, drawn: nat)

  /** `numRandom` in `addBytesToRandomCache`: the fewest mantissas that carry
      8*size bits. */
  function DrawCount(size: nat): (n: nat)
    ensures 8 * size <= 52 * n
    ensures n == 0 || 52 * (n - 1) < 8 * size
  {
    CeilDiv(size * 8, 52)
  }

  /** The n draws that follow the first `from`. */
  function Draws(source: Source, from: nat, n: nat): (ms: seq<Mantissa>)
    ensures |ms| == n
    ensures forall i :: 0 <= i < n ==> ms[i] == source(from + i)
  {
    seq(n, i requires 0 <= i < n => source(from + i))
  }

  /** The packed draws of the fewest mantissas covering `size` bytes: at least
      `size` bytes, and at most 6 more, since 52*n stays within 48 bits of 8*size. */
  lemma BatchLength(size: nat)
    ensures size <= CeilDiv(52 * DrawCount(size), 8) <= size + 6
  {
    var n := DrawCount(size);
    var len := CeilDiv(52 * n, 8);
    if n > 0 {
      assert 13 * n < 2 * size + 13;
      assert 52 * n <= 8 * size + 48;
    }
  }

  /** The bytes one refill for `size` bytes appends: the packing of the next
      DrawCount(size) draws. */
  function Batch(p: Pool, size: nat, source: Source): (bytes: seq<bv8>)
    ensures size <= |bytes| <= size + 6
    ensures LE(bytes) == Value(Draws(source, p.drawn, DrawCount(size)))
    ensures size == 0 ==> bytes == []
  {
    BatchLength(size);
    Packed(Draws(source, p.drawn, DrawCount(size)))
  }

  /** `addBytesToRandomCache(size)`: the cache keeps what it held and grows by
      between size and size + 6 bytes; the draw counter moves past the draws. */
  function AddBytes(p: Pool, size: nat, source: Source): (r: Pool)
    ensures r.drawn == p.drawn + DrawCount(size)
    ensures |p.cache| + size <= |r.cache| <= |p.cache| + size + 6
    ensures r.cache[..|p.cache|] == p.cache
    ensures r.cache[|p.cache|..] == Batch(p, size, source)
  {
    Pool(p.cache + Batch(p, size, source), p.drawn + DrawCount(size))
  }

  /** `toGenerateLength`: how many bytes the cache is short of `size`. */
  function Deficit(p: Pool, size: nat): (d: nat)
    ensures |p.cache| + d >= size
    ensures d == 0 || |p.cache| + d == size
    ensures size <= |p.cache| <==> d == 0
  {
    if size - |p.cache| > 0 then size - |p.cache| else 0
  }

  /** `weakRandomBytes(size)`: exactly `size` bytes, taken off the front of the
      refilled cache. No byte is lost or served twice: the bytes served followed
      by the cache left behind are the old cache followed by the refill. A
      request the cache covers draws nothing; one it does not cover leaves at
      most 6 bytes behind. */
  function WeakRandomBytes(p: Pool, size: nat, source: Source): (out: (seq<bv8>, Pool))
    ensures |out.0| == size
    ensures out.0 + out.1.cache == p.cache + Batch(p, Deficit(p, size), source)
    ensures out.1.drawn == p.drawn + DrawCount(Deficit(p, size))
    ensures size <= |p.cache| ==> out.1.drawn == p.drawn && out.0 == p.cache[..size] && out.1.cache == p.cache[size..]
    ensures |p.cache| < size ==> |out.1.cache| <= 6
  {
    var d := Deficit(p, size);
    var filled := AddBytes(p, d, source);
    assert filled.cache == p.cache + Batch(p, d, source);
    assert d == 0 ==> DrawCount(d) == 0 && filled.cache == p.cache;
    TakeDrop(filled.cache, size);
    (Subarray(filled.cache, 0, size), Pool(Subarray(filled.cache, size, |filled.cache|), filled.drawn))
  }

  /** Taking the first k bytes and the bytes after them splits a buffer in two. */
  lemma TakeDrop(s: seq<bv8>, k: nat)
    requires k <= |s|
    ensures Subarray(s, 0, k) == s[..k] && Subarray(s, k, |s|) == s[k..]
    ensures s[..k] + s[k..] == s
  {
  }

  /** The number of bytes fed to the cache when the module loads. */
  const PrefillBytes: nat := 128

  /** The pool after the load-time `addBytesToRandomCache(128)`: 20 draws,
      packed into 130 bytes. */
  function Prefilled(source: Source): (p: Pool)
    ensures p.drawn == 20
    ensures |p.cache| == 130
    ensures LE(p.cache) == Value(Draws(source, 0, 20))
  {
    var p := AddBytes(Pool([], 0), PrefillBytes, source);
    assert p.cache == Batch(Pool([], 0), PrefillBytes, source);
    p
  }

  /** The last byte of a batch of an odd number of mantissas holds only their
      final 4 bits: its high nibble is the zero padding up to a byte boundary. */
  lemma OddBatchNibble(ms: seq<Mantissa>)
    requires |ms| % 2 == 1
    ensures Packed(ms)[|Packed(ms)| - 1] as nat < 16
  {
    var n := |ms|;
    var bytes := Packed(ms);
    var off := Offset(n);
    assert |bytes| == off + 1;
    ValueBound(ms);
    OddPower(n);
    TopNibble(bytes, off);
    LowFirstByte(bytes[off..]);
  }

  /** The padding nibble is served as random: after the prefill, a request of
      131 bytes draws one number and leaves its last 6 bytes cached, and the last
      of the next 6 bytes served is below 16 whatever `Math.random` returned. */
  lemma ServedNibble(source: Source)
    ensures var p1 := WeakRandomBytes(Prefilled(source), 131, source).1;
            WeakRandomBytes(p1, 6, source).0[5] as nat < 16
  {
    var p0 := Prefilled(source);
    var (first, p1) := WeakRandomBytes(p0, 131, source);
    var batch := Batch(p0, 1, source);
    var ms := Draws(source, p0.drawn, DrawCount(1));
    assert |ms| == 1;
    OddBatchNibble(ms);
    assert first + p1.cache == p0.cache + batch;
    assert p1.cache == (p0.cache + batch)[131..];
    assert p1.cache[5] == batch[6];
  }

  /** Successive calls, one per requested size: everything served, in order, and
      the pool left behind. */
  function Serve(p: Pool, sizes: seq<nat>, source: Source): (out: (seq<bv8>, Pool))
    decreases |sizes|
  {
    if |sizes| == 0 then ([], p)
    else
      var (first, p1) := WeakRandomBytes(p, sizes[0], source);
      var (rest, p2) := Serve(p1, sizes[1..], source);
      (first + rest, p2)
  }

  /** The refills successive calls make, concatenated. */
  function Refills(p: Pool, sizes: seq<nat>, source: Source): seq<bv8>
    decreases |sizes|
  {
    if |sizes| == 0 then []
    else
      var p1 := WeakRandomBytes(p, sizes[0], source).1;
      Batch(p, Deficit(p, sizes[0]), source) + Refills(p1, sizes[1..], source)
  }

  function Total(sizes: seq<nat>): nat
  {
    if |sizes| == 0 then 0 else sizes[0] + Total(sizes[1..])
  }

  /** The induction step of ServeConserves: if the later calls conserve the
      bytes (rest + tail == mid + later) and the first call does too
      (first + mid == start + batch), so does the whole run. */
  lemma Regroup(first: seq<bv8>, rest: seq<bv8>, tail: seq<bv8>, mid: seq<bv8>, later: seq<bv8>, start: seq<bv8>, batch: seq<bv8>)
    requires rest + tail == mid + later
    requires first + mid == start + batch
    ensures (first + rest) + tail == start + (batch + later)
  {
    calc {
      (first + rest) + tail;
      first + (mid + later);
      (start + batch) + later;
    }
  }

  /** Over any run of calls the cache neither loses nor repeats a byte: the
      bytes served, then the cache left behind, are the first cache followed by
      every refill, and the bytes served number the sizes requested. */
  lemma {:induction false} ServeConserves(p: Pool, sizes: seq<nat>, source: Source)
    ensures |Serve(p, sizes, source).0| == Total(sizes)
    ensures Serve(p, sizes, source).0 + Serve(p, sizes, source).1.cache == p.cache + Refills(p, sizes, source)
    decreases |sizes|
  {
    if |sizes| > 0 {
      var out := WeakRandomBytes(p, sizes[0], source);
      var first, p1 := out.0, out.1;
      var tail := Serve(p1, sizes[1..], source);
      ServeConserves(p1, sizes[1..], source);
      var batch := Batch(p, Deficit(p, sizes[0]), source);
      var later := Refills(p1, sizes[1..], source);
      assert Serve(p, sizes, source) == (first + tail.0, tail.1);
      assert Refills(p, sizes, source) == batch + later;
      Regroup(first, tail.0, tail.1.cache, p1.cache, later, p.cache, batch);
    }
  }
}
