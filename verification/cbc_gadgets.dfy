/** `injectGadget`: splicing two chosen plaintext blocks into an AES-CBC
    message whose first plaintext block is known (the EFAIL gadget technique).

    The message is a buffer `<IV><C1><C2>...`. The block cipher is left
    uninterpreted: an enciphering and a deciphering function on 16-byte
    blocks, assumed only to undo each other. Decryption is the CBC mode of
    section 6.2 of NIST SP 800-38A, P_j = CIPH^-1(C_j) xor C_(j-1) with
    C_0 = IV; the padding check a library applies afterwards is not part of
    the model. */
module CbcGadgets {
  import opened Arith
  import opened Bytes

  /** A block cipher under a fixed key, in one direction. AES blocks are 16 bytes. */
  type Cipher = seq<bv8> -> seq<bv8>

  /** enc and dec are the two directions of one block cipher: enc maps blocks
      to blocks and dec undoes it. */
  ghost predicate BlockCipher(enc: Cipher, dec: Cipher)
  {
    forall b: seq<bv8> {:trigger enc(b)} :: |b| == 16 ==> |enc(b)| == 16 && dec(enc(b)) == b
  }

  /** enc maps 16-byte blocks to 16-byte blocks. */
  ghost predicate BlockSized(enc: Cipher)
  {
    forall b: seq<bv8> {:trigger enc(b)} :: |b| == 16 ==> |enc(b)| == 16
  }

  predicate AllBlocks(bs: seq<seq<bv8>>)
  {
    forall j :: 0 <= j < |bs| ==> |bs[j]| == 16
  }

  lemma AllBlocksTail(bs: seq<seq<bv8>>)
    requires AllBlocks(bs) && |bs| > 0
    ensures |bs[0]| == 16 && AllBlocks(bs[1..])
  {
    assert forall j :: 0 <= j < |bs| - 1 ==> bs[1..][j] == bs[j + 1];
  }

  /** The blocks of a buffer laid end to end. */
  function Join(bs: seq<seq<bv8>>): (r: seq<bv8>)
    ensures AllBlocks(bs) ==> |r| == 16 * |bs|
  {
    if |bs| == 0 then [] else bs[0] + Join(bs[1..])
  }

  /** A buffer of whole blocks cut into its blocks. */
  function Blocks(data: seq<bv8>): (bs: seq<seq<bv8>>)
    requires |data| % 16 == 0
    ensures AllBlocks(bs)
    ensures 16 * |bs| == |data|
    decreases |data|
  {
    if |data| == 0 then [] else [data[..16]] + Blocks(data[16..])
  }

  /** Cutting joined blocks gives the blocks back. */
  lemma {:induction false} BlocksJoin(bs: seq<seq<bv8>>)
    requires AllBlocks(bs)
    ensures |Join(bs)| % 16 == 0
    ensures Blocks(Join(bs)) == bs
  {
    if |bs| > 0 {
      var rest := Join(bs[1..]);
      assert Join(bs) == bs[0] + rest;
      assert (bs[0] + rest)[..16] == bs[0];
      assert (bs[0] + rest)[16..] == rest;
      BlocksJoin(bs[1..]);
      assert bs == [bs[0]] + bs[1..];
    }
  }

  /** Cutting a concatenation at a block boundary cuts each part. */
  lemma {:induction false} BlocksAppend(a: seq<bv8>, b: seq<bv8>)
    requires |a| % 16 == 0 && |b| % 16 == 0
    ensures |a + b| % 16 == 0
    ensures Blocks(a + b) == Blocks(a) + Blocks(b)
    decreases |a|
  {
    if |a| > 0 {
      assert (a + b)[..16] == a[..16];
      assert (a + b)[16..] == a[16..] + b;
      BlocksAppend(a[16..], b);
    } else {
      assert a + b == b;
    }
  }

  /** CBC encryption (section 6.2 of NIST SP 800-38A): each block is enciphered
      after being xored with the previous ciphertext block, prev for the first. */
  function CbcEncrypt(enc: Cipher, prev: seq<bv8>, ps: seq<seq<bv8>>): (cs: seq<seq<bv8>>)
    ensures |cs| == |ps|
    ensures |ps| > 0 ==> cs[0] == enc(Xor(ps[0], prev))
    ensures forall j :: 0 < j < |ps| ==> cs[j] == enc(Xor(ps[j], cs[j - 1]))
    ensures BlockSized(enc) && AllBlocks(ps) ==> AllBlocks(cs)
    decreases |ps|
  {
    if |ps| == 0 then []
    else
      var c := enc(Xor(ps[0], prev));
      [c] + CbcEncrypt(enc, c, ps[1..])
  }

  /** CBC decryption (section 6.2 of NIST SP 800-38A): every block is deciphered
      and xored with the ciphertext block before it, prev for the first. */
  function CbcDecrypt(dec: Cipher, prev: seq<bv8>, cs: seq<seq<bv8>>): (ps: seq<seq<bv8>>)
    ensures |ps| == |cs|
    ensures |cs| > 0 ==> ps[0] == Xor(dec(cs[0]), prev)
    ensures forall j :: 0 < j < |cs| ==> ps[j] == Xor(dec(cs[j]), cs[j - 1])
    decreases |cs|
  {
    if |cs| == 0 then []
    else [Xor(dec(cs[0]), prev)] + CbcDecrypt(dec, cs[0], cs[1..])
  }

  /** CBC decryption undoes CBC encryption, block for block. */
  lemma {:induction false} CbcRoundTrip(enc: Cipher, dec: Cipher, prev: seq<bv8>, ps: seq<seq<bv8>>)
    requires BlockCipher(enc, dec)
    requires |prev| == 16 && AllBlocks(ps)
    ensures AllBlocks(CbcEncrypt(enc, prev, ps))
    ensures CbcDecrypt(dec, prev, CbcEncrypt(enc, prev, ps)) == ps
    decreases |ps|
  {
    if |ps| > 0 {
      AllBlocksTail(ps);
      var x := Xor(ps[0], prev);
      var c := enc(x);
      assert |x| == 16;
      assert |c| == 16 && dec(c) == x;
      CbcRoundTrip(enc, dec, c, ps[1..]);
      assert CbcEncrypt(enc, prev, ps) == [c] + CbcEncrypt(enc, c, ps[1..]);
      assert ([c] + CbcEncrypt(enc, c, ps[1..]))[1..] == CbcEncrypt(enc, c, ps[1..]);
      XorInvolutive(ps[0], prev);
      assert ps == [ps[0]] + ps[1..];
    }
  }

  /** `encrypt(message, key)` on a message of whole blocks: the IV, then the
      CBC ciphertext blocks. A cipher that keeps blocks 16 bytes long gives a
      message of one more block than the plaintext. */
  function EncryptMessage(enc: Cipher, iv: seq<bv8>, ps: seq<seq<bv8>>): (data: seq<bv8>)
    ensures |iv| <= |data| && data[..|iv|] == iv
    ensures BlockSized(enc) && |iv| == 16 && AllBlocks(ps) ==> |data| == 16 * (|ps| + 1)
  {
    iv + Join(CbcEncrypt(enc, iv, ps))
  }

  /** `decrypt(encryptedData, key)`: the IV is the first 16 bytes, the
      ciphertext the whole blocks after it, and the first ciphertext block is
      deciphered against the IV. */
  function DecryptMessage(dec: Cipher, data: seq<bv8>): (ps: seq<seq<bv8>>)
    requires |data| >= 16 && |data| % 16 == 0
    ensures 16 * (|ps| + 1) == |data|
    ensures |data| >= 32 ==> ps[0] == Xor(dec(data[16..32]), data[..16])
  {
    var bs := Blocks(data[16..]);
    assert |data| >= 32 ==> bs[0] == data[16..32];
    CbcDecrypt(dec, data[..16], bs)
  }

  /** Decrypting an encrypted message gives its plaintext blocks back. */
  lemma MessageRoundTrip(enc: Cipher, dec: Cipher, iv: seq<bv8>, ps: seq<seq<bv8>>)
    requires BlockCipher(enc, dec)
    requires |iv| == 16 && AllBlocks(ps)
    ensures var data := EncryptMessage(enc, iv, ps);
            |data| >= 16 && |data| % 16 == 0 && DecryptMessage(dec, data) == ps
  {
    var cs := CbcEncrypt(enc, iv, ps);
    var data := EncryptMessage(enc, iv, ps);
    CbcRoundTrip(enc, dec, iv, ps);
    BlocksJoin(cs);
    assert |data| == 16 * (|cs| + 1);
    DivModUnique(|data|, 16, |cs| + 1, 0);
    assert data[..16] == iv && data[16..] == Join(cs);
  }

  /** `injectGadget(encryptedData, p0, gadget0, gadget1)`. The IV, the first
      ciphertext block c0 and the rest c1 are `subarray` views, clamped to the
      buffer; x0 and x1 are the IV xor p0 xor each gadget, each as long as the
      IV view. The result is x0, c0, x1, c0, c1: 32 bytes longer than a buffer
      of at least two blocks, with both copies of c0 and the tail c1 unchanged. */
  function InjectGadget(data: seq<bv8>, p0: seq<bv8>, gadget0: seq<bv8>, gadget1: seq<bv8>): (r: seq<bv8>)
    ensures |r| == |data| + (if |data| < 32 then |data| else 32)
    ensures |data| >= 32 ==>
      && |r| == |data| + 32
      && r[16..32] == data[16..32] && r[48..64] == data[16..32] && r[64..] == data[32..]
      && (forall i :: 0 <= i < 16 ==> r[i] == data[i] ^ ByteAtOrZero(p0, i) ^ ByteAtOrZero(gadget0, i))
      && (forall i :: 0 <= i < 16 ==> r[32 + i] == data[i] ^ ByteAtOrZero(p0, i) ^ ByteAtOrZero(gadget1, i))
  {
    var iv := Subarray(data, 0, 16);
    var c0 := Subarray(data, 16, 32);
    var c1 := Subarray(data, 32, |data|);
    var x := Xor(iv, p0);
    var x0 := Xor(x, gadget0);
    var x1 := Xor(x, gadget1);
    x0 + c0 + x1 + c0 + c1
  }

  /** Joining two runs of blocks joins their joins. */
  lemma {:induction false} JoinAppend(a: seq<seq<bv8>>, b: seq<seq<bv8>>)
    ensures Join(a + b) == Join(a) + Join(b)
  {
    if |a| > 0 {
      assert (a + b)[0] == a[0] && (a + b)[1..] == a[1..] + b;
      JoinAppend(a[1..], b);
    } else {
      assert a + b == b;
    }
  }

  /** Three blocks joined. */
  lemma JoinThree(a: seq<bv8>, b: seq<bv8>, c: seq<bv8>)
    ensures Join([a, b, c]) == a + b + c
  {
    assert [a, b, c][1..] == [b, c] && [b, c][1..] == [c] && [c][1..] == [];
    assert Join([c]) == c + Join([]) == c;
    assert Join([b, c]) == b + c;
    assert Join([a, b, c]) == a + (b + c);
  }

  /** The forged buffer regrouped as its first block and the rest. */
  lemma RegroupFive(a: seq<bv8>, b: seq<bv8>, c: seq<bv8>, d: seq<bv8>, e: seq<bv8>)
    ensures a + b + c + d + e == a + ((b + c + d) + e)
  {
  }

  /** A message of at least two blocks, forged: its x0, c0, x1, c0, c1 in full. */
  lemma ForgedLayout(data: seq<bv8>, p0: seq<bv8>, gadget0: seq<bv8>, gadget1: seq<bv8>)
    requires |data| >= 32
    ensures var x := Xor(data[..16], p0);
            InjectGadget(data, p0, gadget0, gadget1)
              == Xor(x, gadget0) + (data[16..32] + Xor(x, gadget1) + data[16..32]) + data[32..]
  {
    var x := Xor(data[..16], p0);
    assert Subarray(data, 0, 16) == data[..16];
    RegroupFive(Xor(x, gadget0), data[16..32], Xor(x, gadget1), data[16..32], data[32..]);
  }

  lemma AllBlocksAppend(a: seq<seq<bv8>>, b: seq<seq<bv8>>)
    requires AllBlocks(a) && AllBlocks(b)
    ensures AllBlocks(a + b)
  {
    assert forall j :: |a| <= j < |a| + |b| ==> (a + b)[j] == b[j - |a|];
  }

  /** The block layout of the forged message: x0 in front as the IV, then c0,
      x1, c0, then the original ciphertext blocks after the first. */
  lemma ForgedBlocks(enc: Cipher, iv: seq<bv8>, ps: seq<seq<bv8>>, gadget0: seq<bv8>, gadget1: seq<bv8>)
    requires |iv| == 16 && |ps| >= 1
    requires AllBlocks(CbcEncrypt(enc, iv, ps))
    ensures var forged := InjectGadget(EncryptMessage(enc, iv, ps), ps[0], gadget0, gadget1);
            var cs := CbcEncrypt(enc, iv, ps);
            var x := Xor(iv, ps[0]);
            && |forged| >= 16 && |forged| % 16 == 0
            && forged[..16] == Xor(x, gadget0)
            && Blocks(forged[16..]) == [cs[0], Xor(x, gadget1), cs[0]] + cs[1..]
  {
    var cs := CbcEncrypt(enc, iv, ps);
    var data := EncryptMessage(enc, iv, ps);
    var x := Xor(iv, ps[0]);
    var x0, x1 := Xor(x, gadget0), Xor(x, gadget1);
    AllBlocksTail(cs);
    var tail := Join(cs[1..]);
    assert Join(cs) == cs[0] + tail;
    Splice(iv, cs[0], tail);
    assert data == iv + cs[0] + tail;
    ForgedLayout(data, ps[0], gadget0, gadget1);
    var forged := InjectGadget(data, ps[0], gadget0, gadget1);
    var mid := cs[0] + x1 + cs[0];
    assert forged == x0 + mid + tail;
    var front := [cs[0], x1, cs[0]];
    var blocks := front + cs[1..];
    JoinThree(cs[0], x1, cs[0]);
    JoinAppend(front, cs[1..]);
    assert Join(blocks) == mid + tail;
    DropFront(x0, mid, tail);
    assert |x0| == 16;
    assert forged[16..] == Join(blocks);
    AllBlocksThree(cs[0], x1, cs[0]);
    AllBlocksAppend(front, cs[1..]);
    BlocksJoin(blocks);
    assert |Join(blocks)| == 16 * |blocks|;
    assert |forged| == 16 * (|blocks| + 1);
    DivModUnique(|forged|, 16, |blocks| + 1, 0);
  }

  /** What follows the front part of a three-part buffer. */
  lemma DropFront(a: seq<bv8>, b: seq<bv8>, c: seq<bv8>)
    ensures (a + b + c)[|a|..] == b + c
  {
    assert a + b + c == a + (b + c);
  }

  lemma AllBlocksThree(a: seq<bv8>, b: seq<bv8>, c: seq<bv8>)
    requires |a| == 16 && |b| == 16 && |c| == 16
    ensures AllBlocks([a, b, c])
  {
  }

  /** Xoring the known block's decipherment with the forged IV leaves the gadget:
      (p0 xor iv) xor ((iv xor p0) xor g) == g. */
  lemma GadgetCancels(p0: seq<bv8>, iv: seq<bv8>, g: seq<bv8>)
    requires |p0| == 16 && |iv| == 16 && |g| == 16
    ensures Xor(Xor(p0, iv), Xor(Xor(iv, p0), g)) == g
  {
    var r := Xor(Xor(p0, iv), Xor(Xor(iv, p0), g));
    forall i | 0 <= i < 16
      ensures r[i] == g[i]
    {
      assert r[i] == (p0[i] ^ iv[i]) ^ ((iv[i] ^ p0[i]) ^ g[i]);
    }
  }

  /** Decryption from a block boundary on depends only on the block before it:
      the blocks after a run `front` decrypt as if front's last block were the IV. */
  lemma {:induction false} CbcDecryptAfter(dec: Cipher, prev: seq<bv8>, front: seq<seq<bv8>>, rest: seq<seq<bv8>>)
    requires |front| > 0
    ensures CbcDecrypt(dec, prev, front + rest)[|front|..] == CbcDecrypt(dec, front[|front| - 1], rest)
    decreases |front|
  {
    var all := front + rest;
    assert all[0] == front[0] && all[1..] == front[1..] + rest;
    assert CbcDecrypt(dec, prev, all) == [Xor(dec(front[0]), prev)] + CbcDecrypt(dec, front[0], front[1..] + rest);
    if |front| > 1 {
      CbcDecryptAfter(dec, front[0], front[1..], rest);
    } else {
      assert front[1..] + rest == rest;
    }
  }

  /** The first ciphertext block deciphers to the first plaintext block xored with the IV. */
  lemma FirstBlockDeciphers(enc: Cipher, dec: Cipher, iv: seq<bv8>, ps: seq<seq<bv8>>)
    requires BlockCipher(enc, dec)
    requires |iv| == 16 && |ps| >= 1 && |ps[0]| == 16
    ensures dec(CbcEncrypt(enc, iv, ps)[0]) == Xor(ps[0], iv)
  {
    var known := Xor(ps[0], iv);
    assert CbcEncrypt(enc, iv, ps)[0] == enc(known);
  }

  /** The EFAIL gadget attack: when the message is the CBC encryption of blocks
      whose first block p0 is known, the forged message decrypts to gadget0,
      a garbage block, gadget1, and then the original plaintext from its
      second block on, two blocks longer than the original. */
  lemma GadgetDecrypts(enc: Cipher, dec: Cipher, iv: seq<bv8>, ps: seq<seq<bv8>>, gadget0: seq<bv8>, gadget1: seq<bv8>)
    requires BlockCipher(enc, dec)
    requires |iv| == 16 && AllBlocks(ps) && |ps| >= 1
    requires |gadget0| == 16 && |gadget1| == 16
    ensures var forged := InjectGadget(EncryptMessage(enc, iv, ps), ps[0], gadget0, gadget1);
            && |forged| >= 16 && |forged| % 16 == 0
            && var plain := DecryptMessage(dec, forged);
               && |plain| == |ps| + 2
               && plain[0] == gadget0
               && plain[2] == gadget1
               && plain[3..] == ps[1..]
  {
    var cs := CbcEncrypt(enc, iv, ps);
    CbcRoundTrip(enc, dec, iv, ps);
    AllBlocksTail(ps);
    FirstBlockDeciphers(enc, dec, iv, ps);
    var x := Xor(iv, ps[0]);
    var x0, x1 := Xor(x, gadget0), Xor(x, gadget1);
    ForgedBlocks(enc, iv, ps, gadget0, gadget1);
    var forged := InjectGadget(EncryptMessage(enc, iv, ps), ps[0], gadget0, gadget1);
    var front := [cs[0], x1, cs[0]];
    var plain := CbcDecrypt(dec, x0, front + cs[1..]);
    assert plain[0] == Xor(dec(cs[0]), x0);
    assert DecryptMessage(dec, forged) == plain;
    GadgetCancels(ps[0], iv, gadget0);
    GadgetCancels(ps[0], iv, gadget1);
    var forgedBlocks := front + cs[1..];
    assert forgedBlocks[2] == cs[0] && forgedBlocks[1] == x1;
    assert plain[2] == Xor(dec(forgedBlocks[2]), forgedBlocks[1]);
    CbcDecryptAfter(dec, x0, front, cs[1..]);
    CbcDecryptAfter(dec, iv, [cs[0]], cs[1..]);
    assert [cs[0]] + cs[1..] == cs;
  }
}
