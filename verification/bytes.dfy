/** Node `Buffer`s as sequences of bytes: the little-endian integer a buffer
    spells, the 8-byte little-endian reads and writes the mantissa codec uses,
    and the byte-wise `xor` helper of the CBC and CTR demonstrations. */
module Bytes {
  import opened Arith

  /** The byte whose unsigned value is v, built without an int-to-bit-vector cast. */
  function ByteOf(v: nat): (b: bv8)
    requires v < 256
    ensures b as nat == v
  {
    if v == 0 then 0 else ByteOf(v - 1) + 1
  }

  /** Two bytes with the same unsigned value are the same byte. */
  lemma ByteInjective(a: bv8, b: bv8)
    requires a as nat == b as nat
    ensures a == b
  {
  }

  lemma ByteOfValue(b: bv8)
    ensures ByteOf(b as nat) == b
  {
    ByteInjective(ByteOf(b as nat), b);
  }

  /** `Buffer.alloc(n)`: n zero bytes. */
  function Zeros(n: nat): (z: seq<bv8>)
    ensures |z| == n
    ensures forall i :: 0 <= i < n ==> z[i] == 0
  {
    seq(n, _ => 0)
  }

  /** The unsigned integer a buffer spells when its bytes are read least significant first. */
  function LE(s: seq<bv8>): nat
  {
    if |s| == 0 then 0 else s[0] as nat + 256 * LE(s[1..])
  }

  /** The len-byte little-endian spelling of v, dropping the bits from 8*len up. */
  function ToLE(v: nat, len: nat): (s: seq<bv8>)
    ensures |s| == len
  {
    if len == 0 then [] else [ByteOf(v % 256)] + ToLE(v / 256, len - 1)
  }

  lemma {:induction false} LEBound(s: seq<bv8>)
    ensures LE(s) < Pow2(8 * |s|)
  {
    if |s| > 0 {
      LEBound(s[1..]);
      Pow2Byte(|s|);
    }
  }

  /** The value of a concatenation: the second part sits 8*|a| bits up. */
  lemma {:induction false} LEAppend(a: seq<bv8>, b: seq<bv8>)
    ensures LE(a + b) == LE(a) + Pow2(8 * |a|) * LE(b)
  {
    if |a| > 0 {
      assert (a + b)[1..] == a[1..] + b;
      LEAppend(a[1..], b);
      Pow2Byte(|a|);
      var x, p, y := LE(a[1..]), Pow2(8 * (|a| - 1)), LE(b);
      calc {
        LE(a + b);
        a[0] as nat + 256 * (x + p * y);
        { MulDistrib(256, x, p, y); }
        a[0] as nat + 256 * x + (256 * p) * y;
      }
    } else {
      assert a + b == b;
    }
  }

  /** The value of a buffer with a window spliced in between a prefix and a suffix. */
  lemma LESpliced(pre: seq<bv8>, w: seq<bv8>, post: seq<bv8>)
    ensures LE(pre + w + post) == LE(pre) + Pow2(8 * |pre|) * LE(w) + Pow2(8 * |pre| + 8 * |w|) * LE(post)
  {
    LEAppend(pre + w, post);
    assert 8 * |pre + w| == 8 * |pre| + 8 * |w|;
    LEAppend(pre, w);
  }

  /** Cutting a buffer at k: the low part and the high part k bytes up. */
  lemma LESplit(s: seq<bv8>, k: nat)
    requires k <= |s|
    ensures LE(s) == LE(s[..k]) + Pow2(8 * k) * LE(s[k..])
  {
    assert s == s[..k] + s[k..];
    LEAppend(s[..k], s[k..]);
  }

  /** A buffer whose value is below 2^(8k) has only zero bytes from index k on. */
  lemma HighBytesZero(s: seq<bv8>, k: nat)
    requires k <= |s| && LE(s) < Pow2(8 * k)
    ensures LE(s[k..]) == 0
    ensures LE(s[..k]) == LE(s)
  {
    LESplit(s, k);
    SmallHigh(LE(s[..k]), Pow2(8 * k), LE(s[k..]));
    MulZero(Pow2(8 * k), LE(s[k..]));
  }

  /** A buffer of value 0 has value 0 from any index on. */
  lemma ZeroTail(s: seq<bv8>, k: nat)
    requires k <= |s| && LE(s) == 0
    ensures LE(s[k..]) == 0
  {
    LESplit(s, k);
    if LE(s[k..]) > 0 {
      MulLe(Pow2(8 * k), 1, LE(s[k..]));
    }
  }

  lemma LEZeros(n: nat)
    ensures LE(Zeros(n)) == 0
  {
    if n > 0 {
      assert Zeros(n)[1..] == Zeros(n - 1);
      LEZeros(n - 1);
    }
  }

  /** Spelling v in len bytes keeps exactly v modulo 2^(8*len). */
  lemma {:induction false} LEToLE(v: nat, len: nat)
    ensures LE(ToLE(v, len)) == v % Pow2(8 * len)
  {
    if len > 0 {
      LEToLE(v / 256, len - 1);
      assert ToLE(v, len)[1..] == ToLE(v / 256, len - 1);
      Pow2Byte(len);
      DivDivMod(v, 256, Pow2(8 * (len - 1)));
    }
  }

  /** A buffer is the spelling of its own value. */
  lemma {:induction false} ToLEOfLE(s: seq<bv8>)
    ensures ToLE(LE(s), |s|) == s
  {
    if |s| > 0 {
      var x, rest := LE(s), LE(s[1..]);
      calc {
        ToLE(x, |s|);
        [ByteOf(x % 256)] + ToLE(x / 256, |s| - 1);
        { DivModSplit(s[0] as nat, 256, rest); ByteOfValue(s[0]); }
        [s[0]] + ToLE(rest, |s[1..]|);
        { ToLEOfLE(s[1..]); }
        [s[0]] + s[1..];
        s;
      }
    }
  }

  /** The width, in bytes, of the words `readBigUint64LE` and `writeBigUint64LE` move. */
  const WordBytes: nat := 8

  /** `buf.readBigUint64LE(off)`: the unsigned 64-bit integer stored little-endian at off. */
  function ReadU64LE(buf: seq<bv8>, off: nat): (v: nat)
    requires off + WordBytes <= |buf|
    ensures v == (LE(buf) / Pow2(8 * off)) % Pow2(8 * WordBytes)
  {
    var end := off + WordBytes;
    LESplit(buf, off);
    LESplit(buf[off..], WordBytes);
    assert buf[off..][..WordBytes] == buf[off..end];
    LEBound(buf[..off]);
    LEBound(buf[off..end]);
    DigitSplit(LE(buf), LE(buf[..off]), Pow2(8 * off), LE(buf[off..]), LE(buf[off..end]), Pow2(8 * WordBytes), LE(buf[off..][WordBytes..]));
    LE(buf[off..end])
  }

  /** A window w spliced between pre and post: where each part sits, and the
      value of the whole and of everything from the window on. */
  lemma Splice(pre: seq<bv8>, w: seq<bv8>, post: seq<bv8>)
    ensures (pre + w + post)[..|pre|] == pre
    ensures (pre + w + post)[|pre|..|pre| + |w|] == w
    ensures (pre + w + post)[|pre| + |w|..] == post
    ensures LE((pre + w + post)[|pre|..]) == LE(w) + Pow2(8 * |w|) * LE(post)
    ensures LE(pre + w + post) == LE(pre) + Pow2(8 * |pre|) * LE((pre + w + post)[|pre|..])
  {
    var r := pre + w + post;
    assert r[|pre|..] == w + post;
    assert r == pre + (w + post);
    LEAppend(w, post);
    LEAppend(pre, w + post);
  }

  /** `buf.writeBigUint64LE(v, off)`: Node refuses a value outside [0, 2^64) or a
      write reaching past the end, so both are demanded of the caller. */
  function WriteU64LE(buf: seq<bv8>, v: nat, off: nat): (r: seq<bv8>)
    requires v < Pow2(8 * WordBytes)
    requires off + WordBytes <= |buf|
    ensures |r| == |buf|
    ensures r[..off] == buf[..off] && r[off + WordBytes..] == buf[off + WordBytes..]
    ensures r[off..off + WordBytes] == ToLE(v, WordBytes)
    ensures LE(r[off..]) == v + Pow2(8 * WordBytes) * LE(buf[off + WordBytes..])
    ensures LE(r) == LE(buf[..off]) + Pow2(8 * off) * LE(r[off..])
  {
    var w := ToLE(v, WordBytes);
    LEToLE(v, WordBytes);
    ModSmall(v, Pow2(8 * WordBytes));
    Splice(buf[..off], w, buf[off + WordBytes..]);
    buf[..off] + w + buf[off + WordBytes..]
  }

  /** `buf.subarray(start, end)` for non-negative bounds: both bounds are clamped
      to the buffer's length, and an end before the start gives an empty view. */
  function Subarray(buf: seq<bv8>, start: nat, end: nat): (r: seq<bv8>)
    ensures start <= end <= |buf| ==> r == buf[start..end]
    ensures start <= |buf| <= end ==> r == buf[start..]
    ensures end <= start || |buf| <= start ==> r == []
  {
    var hi := if end < |buf| then end else |buf|;
    if start < hi then buf[start..hi] else []
  }

  /** The byte of b at i, or 0 past its end: what `b ^ buf2[i]` uses in JavaScript,
      where an index past the end reads `undefined` and `undefined` xors as 0. */
  function ByteAtOrZero(b: seq<bv8>, i: nat): bv8
  {
    if i < |b| then b[i] else 0
  }

  /** The `xor(buf1, buf2)` helper: buf1 mapped byte-wise against buf2. */
  function Xor(a: seq<bv8>, b: seq<bv8>): (r: seq<bv8>)
    ensures |r| == |a|
    ensures forall i :: 0 <= i < |a| ==> r[i] == a[i] ^ ByteAtOrZero(b, i)
  {
    seq(|a|, i requires 0 <= i < |a| => a[i] ^ ByteAtOrZero(b, i))
  }

  /** Xoring twice with the same key undoes the first xor, provided the key
      covers the buffer. */
  lemma XorInvolutive(a: seq<bv8>, k: seq<bv8>)
    requires |a| <= |k|
    ensures Xor(Xor(a, k), k) == a
  {
    var r := Xor(Xor(a, k), k);
    forall i | 0 <= i < |a|
      ensures r[i] == a[i]
    {
      assert r[i] == (a[i] ^ k[i]) ^ k[i];
    }
  }

  /** Xoring with zero bytes, or with nothing at all, changes nothing. */
  lemma XorZeros(a: seq<bv8>, n: nat)
    ensures Xor(a, Zeros(n)) == a
    ensures Xor(a, []) == a
  {
    var r, z := Xor(a, Zeros(n)), Zeros(n);
    forall i | 0 <= i < |a|
      ensures r[i] == a[i]
    {
      assert ByteAtOrZero(z, i) == 0;
    }
  }

  /** On buffers of one length the operands of xor may be swapped. */
  lemma XorCommutes(a: seq<bv8>, b: seq<bv8>)
    requires |a| == |b|
    ensures Xor(a, b) == Xor(b, a)
  {
    var l, r := Xor(a, b), Xor(b, a);
    forall i | 0 <= i < |a|
      ensures l[i] == r[i]
    {
      assert l[i] == a[i] ^ b[i] && r[i] == b[i] ^ a[i];
    }
  }
}
