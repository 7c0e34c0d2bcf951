/** The IV-reuse demonstration for AES-CTR: two messages are zero-padded so
    that xoring them concatenates them, both are encrypted under the same key
    and IV, and xoring the two ciphertext bodies gives the xor of the
    plaintexts, which here is the concatenation itself.

    The cipher is left abstract. CTR mode (section 6.5 of NIST SP 800-38A)
    xors the message with a keystream that depends only on the key and the
    initial counter block; with the key fixed, `ctr(iv)` is that keystream,
    byte by byte. An encrypted message is laid out `<IV><ciphertext>`. */
module IvReuseCtr {
  import opened Bytes

  /** Byte i of a keystream. */
  type Keystream = nat -> bv8

  /** The keystream CTR mode produces under the fixed key from each IV. */
  type Ctr = seq<bv8> -> Keystream

  /** `Buffer.concat([message1, Buffer.alloc(message2.length)])`. */
  function PadFirst(m1: seq<bv8>, m2: seq<bv8>): (r: seq<bv8>)
    ensures |r| == |m1| + |m2|
    ensures r[..|m1|] == m1
    ensures forall i :: |m1| <= i < |r| ==> r[i] == 0
  {
    m1 + Zeros(|m2|)
  }

  /** `Buffer.concat([Buffer.alloc(message1.length), message2])`. */
  function PadSecond(m1: seq<bv8>, m2: seq<bv8>): (r: seq<bv8>)
    ensures |r| == |m1| + |m2|
    ensures r[|m1|..] == m2
    ensures forall i :: 0 <= i < |m1| ==> r[i] == 0
  {
    Zeros(|m1|) + m2
  }

  /** Xoring the two padded messages concatenates the messages: each byte has a
      message byte on one side and a zero on the other. This holds whatever the
      two lengths are. */
  lemma PaddedXor(m1: seq<bv8>, m2: seq<bv8>)
    ensures Xor(PadFirst(m1, m2), PadSecond(m1, m2)) == m1 + m2
  {
    var a, b, r := PadFirst(m1, m2), PadSecond(m1, m2), Xor(PadFirst(m1, m2), PadSecond(m1, m2));
    forall i | 0 <= i < |r|
      ensures r[i] == (m1 + m2)[i]
    {
      if i < |m1| {
        assert a[i] == m1[i] && b[i] == 0;
      } else {
        assert a[i] == 0 && b[i] == m2[i - |m1|];
      }
    }
  }

  /** The two checks the demonstration makes before it runs. */
  datatype Setup = Ready | LengthsDiffer | PaddingIncorrect

  /** The demonstration's two checks before it runs: the messages must be
      equally long, and the padded messages must xor to the concatenation of
      the messages. The second never fails, so the demonstration runs exactly
      when the lengths agree. */
  function CheckSetup(m1: seq<bv8>, m2: seq<bv8>): (r: Setup)
    ensures r == Ready <==> |m1| == |m2|
    ensures r != PaddingIncorrect
  {
    PaddedXor(m1, m2);
    if |m1| != |m2| then LengthsDiffer
    else if Xor(PadFirst(m1, m2), PadSecond(m1, m2)) != m1 + m2 then PaddingIncorrect
    else Ready
  }

  /** A message xored with a keystream, byte by byte: CTR encryption and
      decryption alike. */
  function Apply(ks: Keystream, m: seq<bv8>): (r: seq<bv8>)
    ensures |r| == |m|
    ensures forall i :: 0 <= i < |m| ==> r[i] == m[i] ^ ks(i)
  {
    seq(|m|, i requires 0 <= i < |m| => m[i] ^ ks(i))
  }

  /** Applying the same keystream twice gives the message back. */
  lemma ApplyTwice(ks: Keystream, m: seq<bv8>)
    ensures Apply(ks, Apply(ks, m)) == m
  {
    var r := Apply(ks, Apply(ks, m));
    forall i | 0 <= i < |m|
      ensures r[i] == m[i]
    {
      assert r[i] == (m[i] ^ ks(i)) ^ ks(i);
    }
  }

  /** The AES block size: CTR mode takes a 16-byte initial counter block. */
  const IvBytes: nat := 16

  /** What the encryption helpers return: a buffer, or the error Node's
      `createCipheriv` and `createDecipheriv` raise for an IV that is not 16
      bytes long. */
  datatype CtrResult = Ok(bytes: seq<bv8>) | InvalidIv

  /** `encryptCTR(iv, message, key)`: the IV, then the message under the
      keystream of that IV. */
  function EncryptCtr(ctr: Ctr, iv: seq<bv8>, m: seq<bv8>): (r: CtrResult)
    ensures r.Ok? <==> |iv| == IvBytes
    ensures r.Ok? ==> |r.bytes| == IvBytes + |m| && r.bytes[..IvBytes] == iv
  {
    if |iv| != IvBytes then InvalidIv else Ok(iv + Apply(ctr(iv), m))
  }

  /** `decryptCTR(message, key)`: the IV is the first 16 bytes (fewer if the
      buffer is shorter, which the cipher refuses), the ciphertext everything
      after them. */
  function DecryptCtr(ctr: Ctr, data: seq<bv8>): (r: CtrResult)
    ensures r.Ok? <==> |data| >= IvBytes
    ensures r.Ok? ==> |r.bytes| == |data| - IvBytes
  {
    var iv := Subarray(data, 0, IvBytes);
    if |iv| != IvBytes then InvalidIv else Ok(Apply(ctr(iv), Subarray(data, IvBytes, |data|)))
  }

  /** Decrypting an encrypted message gives the message back. */
  lemma CtrRoundTrip(ctr: Ctr, iv: seq<bv8>, m: seq<bv8>)
    requires |iv| == IvBytes
    ensures EncryptCtr(ctr, iv, m).Ok?
    ensures DecryptCtr(ctr, EncryptCtr(ctr, iv, m).bytes) == Ok(m)
  {
    var data := EncryptCtr(ctr, iv, m).bytes;
    assert data == iv + Apply(ctr(iv), m);
    assert Subarray(data, 0, IvBytes) == iv;
    assert Subarray(data, IvBytes, |data|) == Apply(ctr(iv), m);
    ApplyTwice(ctr(iv), m);
  }

  /** The same keystream on two equally long messages cancels out when the
      ciphertexts are xored: (m1 xor k) xor (m2 xor k) == m1 xor m2. */
  lemma KeystreamCancels(ks: Keystream, m1: seq<bv8>, m2: seq<bv8>)
    requires |m1| == |m2|
    ensures Xor(Apply(ks, m1), Apply(ks, m2)) == Xor(m1, m2)
  {
    var lhs, rhs := Xor(Apply(ks, m1), Apply(ks, m2)), Xor(m1, m2);
    forall i | 0 <= i < |m1|
      ensures lhs[i] == rhs[i]
    {
      assert lhs[i] == (m1[i] ^ ks(i)) ^ (m2[i] ^ ks(i));
    }
  }

  /** Reusing the key and IV: the two ciphertext bodies, after the 16-byte IV,
      xor to the xor of the two plaintexts. */
  lemma ReusedIvLeaksXor(ctr: Ctr, iv: seq<bv8>, m1: seq<bv8>, m2: seq<bv8>)
    requires |iv| == IvBytes && |m1| == |m2|
    ensures EncryptCtr(ctr, iv, m1).Ok? && EncryptCtr(ctr, iv, m2).Ok?
    ensures var e1, e2 := EncryptCtr(ctr, iv, m1).bytes, EncryptCtr(ctr, iv, m2).bytes;
            Xor(Subarray(e1, IvBytes, |e1|), Subarray(e2, IvBytes, |e2|)) == Xor(m1, m2)
  {
    var e1, e2 := EncryptCtr(ctr, iv, m1).bytes, EncryptCtr(ctr, iv, m2).bytes;
    assert e1 == iv + Apply(ctr(iv), m1) && e2 == iv + Apply(ctr(iv), m2);
    assert Subarray(e1, IvBytes, |e1|) == Apply(ctr(iv), m1);
    assert Subarray(e2, IvBytes, |e2|) == Apply(ctr(iv), m2);
    KeystreamCancels(ctr(iv), m1, m2);
  }

  /** `reuseIVAndDecrypt` with the padded messages: an eavesdropper who xors the
      two ciphertext bodies reads both messages, one after the other. */
  lemma ReusedIvRevealsMessages(ctr: Ctr, iv: seq<bv8>, m1: seq<bv8>, m2: seq<bv8>)
    requires |iv| == IvBytes
    ensures EncryptCtr(ctr, iv, PadFirst(m1, m2)).Ok? && EncryptCtr(ctr, iv, PadSecond(m1, m2)).Ok?
    ensures var e1, e2 := EncryptCtr(ctr, iv, PadFirst(m1, m2)).bytes, EncryptCtr(ctr, iv, PadSecond(m1, m2)).bytes;
            Xor(Subarray(e1, IvBytes, |e1|), Subarray(e2, IvBytes, |e2|)) == m1 + m2
  {
    ReusedIvLeaksXor(ctr, iv, PadFirst(m1, m2), PadSecond(m1, m2));
    PaddedXor(m1, m2);
  }
}
