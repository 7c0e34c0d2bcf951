/** The 52-bit mantissa stream codec: `floatsToBytes` packs mantissas into a
    byte buffer 52 bits apart, so that two mantissas fill 13 bytes and every
    odd-indexed one starts half-way into a byte; `bytesToFloats` unpacks them.

    Both are specified by one number: the little-endian value of the packed
    buffer is the sum of m_i * 2^(52*i). The encoder and decoder below follow
    the source's loops (8-byte little-endian writes and reads at the byte
    offsets it computes); `Packed` and `Unpacked` are the reference
    definitions they are proved against. */
module MantissaStream {
  import opened Arith
  import opened Bytes

  /** The number of mantissa bits in a double. */
  const MantissaWidth: nat := 52

  /** 2^52: mantissas are the numbers below it. */
  const MantissaBound: nat := 0x10_0000_0000_0000

  /** A 52-bit mantissa, as `floatToMantissa` returns and `Math.random` draws. */
  type Mantissa = m: nat | m < 0x10_0000_0000_0000

  lemma MantissaPow()
    ensures Pow2(MantissaWidth) == MantissaBound
  {
    calc {
      Pow2(MantissaWidth);
      { Pow2Add(26, 26); }
      Pow2(26) * Pow2(26);
      { Pow2Add(13, 13); }
      (Pow2(13) * Pow2(13)) * (Pow2(13) * Pow2(13));
      MantissaBound;
    }
  }

  /** A 64-bit word holds a mantissa and 12 more bits. */
  lemma WordPow()
    ensures Pow2(8 * WordBytes) == MantissaBound * 4096
  {
    MantissaPow();
    Pow2Add(MantissaWidth, 12);
    assert MantissaWidth + 12 == 8 * WordBytes;
  }

  /** The number a mantissa stream spells: mantissa i sits at bit 52*i. */
  function Value(ms: seq<Mantissa>): nat
  {
    if |ms| == 0 then 0 else ms[0] + MantissaBound * Value(ms[1..])
  }

  /** Bits [52*i, 52*i + 52) of x: the i-th mantissa x spells. */
  function Digit(x: nat, i: nat): Mantissa
  {
    (x / Pow2(52 * i)) % MantissaBound
  }

  /** 52 more bits multiply by 2^52. */
  lemma Pow2Mantissa(n: nat)
    requires n > 0
    ensures Pow2(52 * n) == MantissaBound * Pow2(52 * (n - 1))
  {
    MantissaPow();
    Pow2Add(MantissaWidth, 52 * (n - 1));
    assert MantissaWidth + 52 * (n - 1) == 52 * n;
  }

  /** The reference packing: the value of the stream as ceil(52*n/8) little-endian bytes. */
  function Packed(ms: seq<Mantissa>): (bytes: seq<bv8>)
    ensures |bytes| == CeilDiv(52 * |ms|, 8)
    ensures LE(bytes) == Value(ms)
  {
    var len := CeilDiv(52 * |ms|, 8);
    ValueBound(ms);
    Pow2Le(52 * |ms|, 8 * len);
    LEToLE(Value(ms), len);
    ModSmall(Value(ms), Pow2(8 * len));
    ToLE(Value(ms), len)
  }

  /** The reference unpacking: every whole 52-bit group of the buffer's value. */
  function Unpacked(bytes: seq<bv8>): (ms: seq<Mantissa>)
    ensures |ms| == 8 * |bytes| / 52
    ensures forall i :: 0 <= i < |ms| ==> ms[i] == Digit(LE(bytes), i)
  {
    seq(8 * |bytes| / 52, i requires 0 <= i => Digit(LE(bytes), i))
  }

  lemma {:induction false} ValueBound(ms: seq<Mantissa>)
    ensures Value(ms) < Pow2(52 * |ms|)
  {
    if |ms| > 0 {
      ValueBound(ms[1..]);
      Pow2Mantissa(|ms|);
      MulLe(MantissaBound, Value(ms[1..]), Pow2(52 * (|ms| - 1)) - 1);
    }
  }

  /** The value of a concatenation: the second stream sits 52*|a| bits up. */
  lemma {:induction false} ValueAppend(a: seq<Mantissa>, b: seq<Mantissa>)
    ensures Value(a + b) == Value(a) + Pow2(52 * |a|) * Value(b)
  {
    if |a| > 0 {
      assert (a + b)[1..] == a[1..] + b;
      ValueAppend(a[1..], b);
      Pow2Mantissa(|a|);
      MulDistrib(MantissaBound, Value(a[1..]), Pow2(52 * (|a| - 1)), Value(b));
      assert Value(a + b) == a[0] + MantissaBound * Value(a[1..] + b);
    } else {
      assert a + b == b;
    }
  }

  /** Appending one mantissa to a stream of i adds it at bit 52*i. */
  lemma ValueSnoc(a: seq<Mantissa>, m: Mantissa, i: nat)
    requires |a| == i
    ensures Value(a + [m]) == Value(a) + Pow2(52 * i) * m
  {
    ValueAppend(a, [m]);
    assert [m][1..] == [];
    MulZero(MantissaBound, Value([m][1..]));
  }

  /** The lowest mantissa of lo + 2^52 * y is lo. */
  lemma DigitZero(x: nat, lo: Mantissa, y: nat)
    requires x == lo + MantissaBound * y
    ensures Digit(x, 0) == lo
  {
    DivModSplit(lo, MantissaBound, y);
  }

  /** Mantissa i of lo + 2^52 * y is mantissa i - 1 of y. */
  lemma DigitShift(x: nat, lo: Mantissa, y: nat, i: nat)
    requires x == lo + MantissaBound * y && i > 0
    ensures Digit(x, i) == Digit(y, i - 1)
  {
    Pow2Mantissa(i);
    DivStep(x, lo, MantissaBound, y, Pow2(52 * i), Pow2(52 * (i - 1)));
  }

  /** Every mantissa can be read back from the value at its own 52-bit position. */
  lemma {:induction false} DigitOfValue(ms: seq<Mantissa>, i: nat)
    requires i < |ms|
    ensures Digit(Value(ms), i) == ms[i]
  {
    if i == 0 {
      DigitZero(Value(ms), ms[0], Value(ms[1..]));
    } else {
      DigitShift(Value(ms), ms[0], Value(ms[1..]), i);
      DigitOfValue(ms[1..], i - 1);
    }
  }

  /** Unpacking the reference packing gives the stream back. */
  lemma UnpackPacked(ms: seq<Mantissa>)
    ensures Unpacked(Packed(ms)) == ms
  {
    var n := |ms|;
    var len := CeilDiv(52 * n, 8);
    DivModUnique(8 * len, 52, n, 8 * len - 52 * n);
    forall i | 0 <= i < n
      ensures Unpacked(Packed(ms))[i] == ms[i]
    {
      DigitOfValue(ms, i);
    }
  }

  /** The byte offset of the i-th 8-byte write or read: `i * 52 / 8` for an even
      index, `(i * 52 - 4) / 8` for an odd one, whose mantissa starts 4 bits
      into that byte. */
  function Offset(i: nat): (off: nat)
    ensures i % 2 == 0 ==> 8 * off == 52 * i
    ensures i % 2 == 1 ==> 8 * off + 4 == 52 * i
  {
    if i % 2 == 0 then
      DivModUnique(i * 52, 8, 13 * (i / 2), 0);
      (i * 52) / 8
    else
      DivModUnique(i * 52 - 4, 8, 13 * (i / 2) + 6, 0);
      (i * 52 - 4) / 8
  }

  /** An even-indexed mantissa starts on a byte boundary. */
  lemma EvenPower(i: nat)
    requires i % 2 == 0
    ensures Pow2(52 * i) == Pow2(8 * Offset(i))
  {
  }

  /** An odd-indexed mantissa starts 4 bits into its byte. */
  lemma OddPower(i: nat)
    requires i % 2 == 1
    ensures Pow2(52 * i) == Pow2(8 * Offset(i)) * 16
  {
    Pow2Plus4(8 * Offset(i));
  }

  /** `bufferSize` in `floatsToBytes`: one past the last 8-byte write. The
      source tests `(n - 1) % 2 === 0` with JavaScript's remainder, which is -1
      for n == 0, so the empty input takes the odd branch and gets a 1-byte
      buffer. Every write fits, and the buffer holds the ceil(52*n/8) bytes
      that are returned. */
  function BufferSize(n: nat): (size: nat)
    ensures forall i :: 0 <= i < n ==> Offset(i) + WordBytes <= size
    ensures CeilDiv(52 * n, 8) <= size
  {
    if n >= 1 && (n - 1) % 2 == 0 then (n - 1) * 52 / 8 + 8 else ((n - 1) * 52 - 4) / 8 + 8
  }

  /** An 8-byte write of mantissa m at a byte-aligned offset past the value so far. */
  lemma EvenWrite(buf: seq<bv8>, m: Mantissa, off: nat)
    requires off + WordBytes <= |buf| && LE(buf) < Pow2(8 * off)
    ensures m < Pow2(8 * WordBytes)
    ensures LE(WriteU64LE(buf, m, off)) == LE(buf) + Pow2(8 * off) * m
  {
    WordPow();
    LESplit(buf, off);
    HighBytesZero(buf, off);
    ZeroTail(buf[off..], WordBytes);
    assert buf[off..][WordBytes..] == buf[off + WordBytes..];
    var r := WriteU64LE(buf, m, off);
    WindowAdd(LE(r), LE(buf[..off]), Pow2(8 * off), LE(r[off..]), m, Pow2(8 * WordBytes), LE(buf[off + WordBytes..]),
              LE(buf), LE(buf[off..]), m);
  }

  /** When the value so far ends 4 bits into byte off, the bytes from off on
      spell a number below 16. */
  lemma TopNibble(buf: seq<bv8>, off: nat)
    requires off <= |buf| && LE(buf) < 16 * Pow2(8 * off)
    ensures LE(buf[off..]) < 16
  {
    LESplit(buf, off);
    SmallQuotient(LE(buf[..off]), Pow2(8 * off), LE(buf[off..]), 16);
  }

  /** A buffer spelling a number below 16 holds it in its first byte alone. */
  lemma LowFirstByte(s: seq<bv8>)
    requires |s| > 0 && LE(s) < 16
    ensures LE(s) == s[0] as nat
    ensures LE(s[1..]) == 0
  {
    SmallHigh(s[0] as nat, 256, LE(s[1..]));
    MulZero(256, LE(s[1..]));
  }

  /** When the value so far ends 4 bits into byte off, that byte holds only a
      low nibble and everything from 8 bytes later on is zero. */
  lemma SharedByte(buf: seq<bv8>, off: nat)
    requires off + WordBytes <= |buf| && LE(buf) < 16 * Pow2(8 * off)
    ensures LE(buf[off..]) == buf[off] as nat < 16
    ensures LE(buf[off + WordBytes..]) == 0
  {
    var rest := buf[off..];
    TopNibble(buf, off);
    LowFirstByte(rest);
    ZeroTail(rest[1..], WordBytes - 1);
    assert rest[1..][WordBytes - 1..] == buf[off + WordBytes..];
  }

  /** The shared byte or-ed with m shifted 4 bits up is their sum, and fits in 64 bits. */
  lemma NibbleOr(previous: nat, m: Mantissa)
    requires previous < 16
    ensures BitOr(previous, m * 16) == previous + m * 16 < Pow2(8 * WordBytes)
  {
    WordPow();
    assert Pow2(4) == 16;
    DivModSplit(0, 16, m);
    BitOrDisjoint(previous, m * 16, 4);
  }

  /** An 8-byte write, at the byte holding the previous mantissa's top nibble, of
      that byte or-ed with m shifted 4 bits up: the byte's low nibble is kept. */
  lemma OddWrite(buf: seq<bv8>, m: Mantissa, off: nat)
    requires off + WordBytes <= |buf| && LE(buf) < 16 * Pow2(8 * off)
    ensures (buf[off] as nat) < 16
    ensures BitOr(buf[off] as nat, m * 16) == buf[off] as nat + m * 16 < Pow2(8 * WordBytes)
    ensures LE(WriteU64LE(buf, BitOr(buf[off] as nat, m * 16), off)) == LE(buf) + Pow2(8 * off) * (16 * m)
    ensures WriteU64LE(buf, BitOr(buf[off] as nat, m * 16), off)[off] as nat % 16 == buf[off] as nat
  {
    SharedByte(buf, off);
    LESplit(buf, off);
    var previous := buf[off] as nat;
    NibbleOr(previous, m);
    var v := BitOr(previous, m * 16);
    var r := WriteU64LE(buf, v, off);
    WindowAdd(LE(r), LE(buf[..off]), Pow2(8 * off), LE(r[off..]), v, Pow2(8 * WordBytes), LE(buf[off + WordBytes..]),
              LE(buf), LE(buf[off..]), 16 * m);
    KeepsNibble(previous, m, v);
    assert r[off] == r[off..off + WordBytes][0];
  }

  /** The first byte written for an odd index keeps the shared byte's low nibble. */
  lemma KeepsNibble(previous: nat, m: Mantissa, v: nat)
    requires previous < 16 && v == previous + m * 16
    ensures ToLE(v, WordBytes)[0] as nat % 16 == previous
  {
    DivModSplit(previous, 16, m);
    ModMod(v, 16, 16, 256);
  }

  /** One pass of the `floatsToBytes` loop: mantissa i written at its offset,
      directly for an even index, or-ed 4 bits up into the shared byte for an
      odd one. On a buffer holding the mantissas before i, the mantissa lands
      at bit 52*i and nothing else changes. */
  function WriteMantissa(buf: seq<bv8>, m: Mantissa, i: nat): (r: seq<bv8>)
    requires Offset(i) + WordBytes <= |buf| && LE(buf) < Pow2(52 * i)
    ensures |r| == |buf|
    ensures LE(r) == LE(buf) + Pow2(52 * i) * m
    ensures r[..Offset(i)] == buf[..Offset(i)]
    ensures i % 2 == 1 ==> r[Offset(i)] as nat % 16 == buf[Offset(i)] as nat
  {
    var off := Offset(i);
    if i % 2 == 0 then
      EvenPower(i);
      EvenWrite(buf, m, off);
      WriteU64LE(buf, m, off)
    else
      var previous := buf[off];
      OddPower(i);
      OddWrite(buf, m, off);
      ScaleShift(Pow2(52 * i), Pow2(8 * off), m);
      WriteU64LE(buf, BitOr(previous as nat, m * 16), off)
  }

  /** A buffer spelling the stream's value, cut to ceil(52*n/8) bytes, is the reference packing. */
  lemma PackedPrefix(buf: seq<bv8>, ms: seq<Mantissa>)
    requires LE(buf) == Value(ms) && CeilDiv(52 * |ms|, 8) <= |buf|
    ensures buf[..CeilDiv(52 * |ms|, 8)] == Packed(ms)
  {
    var len := CeilDiv(52 * |ms|, 8);
    ValueBound(ms);
    Pow2Le(52 * |ms|, 8 * len);
    HighBytesZero(buf, len);
    ToLEOfLE(buf[..len]);
  }

  /** `floatsToBytes`, over the mantissas of its numbers: the output is the
      reference packing, so its little-endian value is the sum of m_i * 2^(52*i)
      and its length is ceil(52*n/8). */
  method Encode(ms: seq<Mantissa>) returns (r: seq<bv8>)
    ensures r == Packed(ms)
  {
    var n := |ms|;
    var numBytes := CeilDiv(n * 52, 8);
    var size := BufferSize(n);
    var buf := Zeros(size);
    LEZeros(size);
    var i := 0;
    while i < n
      invariant i <= n && |buf| == size
      invariant LE(buf) == Value(ms[..i])
    {
      ValueBound(ms[..i]);
      buf := WriteMantissa(buf, ms[i], i);
      assert ms[..i + 1] == ms[..i] + [ms[i]];
      ValueSnoc(ms[..i], ms[i], i);
      i := i + 1;
    }
    assert ms[..n] == ms;
    PackedPrefix(buf, ms);
    r := buf[..numBytes];
  }

  /** The decoder's zero padding: up to 2 bytes so that the last 8-byte read
      has its 8 bytes. `numMantissas % 2` is non-zero exactly for an odd count. */
  function DecodePadding(len: nat, n: nat): (pad: nat)
    requires 52 * n <= 8 * len
    ensures forall i :: 0 <= i < n ==> Offset(i) + WordBytes <= len + pad
  {
    var wanted := if n % 2 != 0 then 1 else 2;
    var missing := wanted - (len - CeilDiv(n * 52, 8));
    if missing > 0 then missing else 0
  }

  /** The low 52 bits of an 8-byte read at an even index's offset are that index's mantissa. */
  lemma ReadEven(x: nat, i: nat)
    requires i % 2 == 0
    ensures ((x / Pow2(8 * Offset(i))) % Pow2(8 * WordBytes)) % MantissaBound == Digit(x, i)
  {
    EvenPower(i);
    WordPow();
    ModMod(x / Pow2(8 * Offset(i)), MantissaBound, 4096, Pow2(8 * WordBytes));
  }

  /** Shifted down 4 bits, the low 52 bits of an 8-byte read at an odd index's
      offset are that index's mantissa. */
  lemma ReadOdd(x: nat, i: nat)
    requires i % 2 == 1
    ensures ((x / Pow2(8 * Offset(i))) % Pow2(8 * WordBytes)) / 16 % MantissaBound == Digit(x, i)
  {
    var p := Pow2(8 * Offset(i));
    DivNat(x, p);
    var y: nat := x / p;
    DivNat(y, 16);
    OddPower(i);
    WordPow();
    ModDiv(y, 16, MantissaBound * 256, Pow2(8 * WordBytes));
    ModMod(y / 16, MantissaBound, 256, MantissaBound * 256);
    DivDiv(x, p, 16, Pow2(52 * i));
  }

  /** One pass of the `bytesToFloats` loop: the 8 bytes at the i-th offset, read
      little-endian, shifted down 4 bits for an odd index, and masked to 52 bits.
      The result is the i-th 52-bit group of the buffer's value. */
  function ReadMantissa(data: seq<bv8>, i: nat): (m: Mantissa)
    requires Offset(i) + WordBytes <= |data|
    ensures m == Digit(LE(data), i)
  {
    var word := ReadU64LE(data, Offset(i));
    if i % 2 == 0 then
      ReadEven(LE(data), i);
      word % MantissaBound
    else
      ReadOdd(LE(data), i);
      word / 16 % MantissaBound
  }

  /** `bytesToFloats`, yielding the mantissas of the numbers it returns: one for
      every whole 52 bits of the buffer, each the matching 52-bit group of the
      buffer's little-endian value. A buffer under 7 bytes yields none. */
  method Decode(buffer: seq<bv8>) returns (ms: seq<Mantissa>)
    ensures ms == Unpacked(buffer)
  {
    var n := |buffer| * 8 / 52;
    var pad := DecodePadding(|buffer|, n);
    var data := buffer + Zeros(pad);
    LEAppend(buffer, Zeros(pad));
    LEZeros(pad);
    MulZero(Pow2(8 * |buffer|), LE(Zeros(pad)));
    ms := [];
    var i := 0;
    while i < n
      invariant i <= n && |ms| == i
      invariant forall j :: 0 <= j < i ==> ms[j] == Digit(LE(buffer), j)
    {
      ms := ms + [ReadMantissa(data, i)];
      i := i + 1;
    }
  }

  /** The source's bitwise or on non-negative `BigInt`s, a bit at a time. */
  function BitOr(a: nat, b: nat): (r: nat)
    ensures a <= r && b <= r && r <= a + b
    decreases a + b
  {
    if a == 0 then b
    else if b == 0 then a
    else 2 * BitOr(a / 2, b / 2) + (if a % 2 == 1 || b % 2 == 1 then 1 else 0)
  }

  /** Or-ing numbers whose bits do not overlap adds them. */
  lemma {:induction false} BitOrDisjoint(a: nat, b: nat, k: nat)
    requires a < Pow2(k) && b % Pow2(k) == 0
    ensures BitOr(a, b) == a + b
  {
    if a != 0 && b != 0 {
      assert k > 0;
      var q := b / Pow2(k);
      assert b == 2 * (Pow2(k - 1) * q);
      DivModSplit(0, Pow2(k - 1), q);
      BitOrDisjoint(a / 2, b / 2, k - 1);
    }
  }
}
