/** The XorShift128+ generator behind V8's `Math.random`, as 64-bit bit-vector
    arithmetic: its forward step, the closed-form inverse step, and the
    52-bit mantissa each state exposes.

    The source works on `BigInt`s and truncates each left shift with
    `BigInt.asUintN(64, ...)`; on words below 2^64 that is exactly `bv64`
    arithmetic, and right shifts and xors never leave that range. */
module XorShift128 {

  /** The generator's 128-bit state as two 64-bit words [state0, state1]. */
  datatype State = State(s0: bv64, s1: bv64)

  /** `s ^= asUintN(64, s << 23)`: the left xor-shift of the forward step. */
  function MixLeft(v: bv64): bv64
  {
    v ^ (v << 23)
  }

  /** `s ^= s >> 17`: the right xor-shift of the forward step. */
  function MixRight(v: bv64): bv64
  {
    v ^ (v >> 17)
  }

  /** Both xor-shifts of the old first word, in the forward step's order. */
  function Mix(v: bv64): bv64
  {
    MixRight(MixLeft(v))
  }

  /** The reverse step's right fold `t ^ t>>17 ^ t>>34 ^ t>>51`. */
  function UnmixRight(t: bv64): bv64
  {
    t ^ (t >> 17) ^ (t >> 34) ^ (t >> 51)
  }

  /** The reverse step's masked left fold `t ^ asUintN(64, t<<23) ^ asUintN(64, t<<46)`. */
  function UnmixLeft(t: bv64): bv64
  {
    t ^ (t << 23) ^ (t << 46)
  }

  /** Both folds, in the reverse step's order. */
  function Unmix(t: bv64): bv64
  {
    UnmixLeft(UnmixRight(t))
  }

  /** `s1 ^= s0; s1 ^= s0 >> 26`: the forward step's last two xors, which fold
      the old second word b into the mixed old first word m. */
  function Blend(b: bv64, m: bv64): bv64
  {
    m ^ b ^ (b >> 26)
  }

  /** `prevState0 ^= seState0 >> 26; prevState0 ^= seState0`: the reverse
      step's first two xors, which strip the current first word a back out of
      the current second word b. */
  function Unblend(a: bv64, b: bv64): bv64
  {
    b ^ (a >> 26) ^ a
  }

  /** The right fold undoes the right xor-shift and the other way round:
      shifting by 17 four times moves every bit out of a 64-bit word. */
  lemma {:induction false} UnmixRightInverts(v: bv64)
    ensures UnmixRight(MixRight(v)) == v
    ensures MixRight(UnmixRight(v)) == v
  {
    calc {
      UnmixRight(MixRight(v));
      UnmixRight(v ^ (v >> 17));
      v;
    }
    calc {
      MixRight(UnmixRight(v));
      MixRight(v ^ (v >> 17) ^ (v >> 34) ^ (v >> 51));
      v;
    }
  }

  /** The masked left fold undoes the left xor-shift and the other way round:
      shifting by 23 three times moves every bit out of a 64-bit word. */
  lemma {:induction false} UnmixLeftInverts(v: bv64)
    ensures UnmixLeft(MixLeft(v)) == v
    ensures MixLeft(UnmixLeft(v)) == v
  {
    calc {
      UnmixLeft(MixLeft(v));
      UnmixLeft(v ^ (v << 23));
      v;
    }
    calc {
      MixLeft(UnmixLeft(v));
      MixLeft(v ^ (v << 23) ^ (v << 46));
      v;
    }
  }

  /** Unmix and Mix are inverse permutations of the 64-bit words. */
  lemma MixInverse(v: bv64)
    ensures Unmix(Mix(v)) == v
    ensures Mix(Unmix(v)) == v
  {
    UnmixRightInverts(MixLeft(v));
    UnmixLeftInverts(v);
    UnmixLeftInverts(UnmixRight(v));
    UnmixRightInverts(v);
  }

  /** Unblend and Blend are inverse to each other for a fixed first word. */
  lemma {:induction false} BlendInverse(a: bv64, m: bv64, b: bv64)
    ensures Unblend(a, Blend(a, m)) == m
    ensures Blend(a, Unblend(a, b)) == b
  {
    calc {
      Unblend(a, Blend(a, m));
      Unblend(a, m ^ a ^ (a >> 26));
      m;
    }
    calc {
      Blend(a, Unblend(a, b));
      Blend(a, b ^ (a >> 26) ^ a);
      b;
    }
  }

  /** `xorShift128p`: the old second word becomes the first word, and the new
      second word is the mixed old first word blended with the old second word. */
  function Forward(s: State): (r: State)
    ensures r.s0 == s.s1
  {
    State(s.s1, Blend(s.s1, Mix(s.s0)))
  }

  /** `reverseXorShift128p`: the old first word becomes the second word, and
      the old first word is recovered by unblending and unmixing. */
  function Reverse(s: State): (r: State)
    ensures r.s1 == s.s0
  {
    State(Unmix(Unblend(s.s0, s.s1)), s.s0)
  }

  /** Reverse undoes Forward on every one of the 2^128 states. */
  lemma ReverseForward(s: State)
    ensures Reverse(Forward(s)) == s
  {
    BlendInverse(s.s1, Mix(s.s0), 0);
    MixInverse(s.s0);
  }

  /** Forward undoes Reverse on every state: together with ReverseForward,
      Forward is a bijection of the state space and Reverse its inverse. */
  lemma ForwardReverse(s: State)
    ensures Forward(Reverse(s)) == s
  {
    MixInverse(Unblend(s.s0, s.s1));
    BlendInverse(s.s0, 0, s.s1);
  }

  /** Forward applied n times. */
  function ForwardN(s: State, n: nat): State
  {
    if n == 0 then s else Forward(ForwardN(s, n - 1))
  }

  /** Reverse applied n times. */
  function ReverseN(s: State, n: nat): State
  {
    if n == 0 then s else Reverse(ReverseN(s, n - 1))
  }

  lemma {:induction false} ForwardNShift(s: State, n: nat)
    ensures ForwardN(Forward(s), n) == ForwardN(s, n + 1)
  {
    if n > 0 {
      ForwardNShift(s, n - 1);
    }
  }

  lemma {:induction false} ReverseNShift(s: State, n: nat)
    ensures ReverseN(Reverse(s), n) == ReverseN(s, n + 1)
  {
    if n > 0 {
      ReverseNShift(s, n - 1);
    }
  }

  /** Stepping n times back after n times forward returns to the start. */
  lemma {:induction false} ReverseNForwardN(s: State, n: nat)
    ensures ReverseN(ForwardN(s, n), n) == s
  {
    if n > 0 {
      var y := ForwardN(s, n - 1);
      calc {
        ReverseN(ForwardN(s, n), n);
        ReverseN(Forward(y), n);
        { ReverseNShift(Forward(y), n - 1); }
        ReverseN(Reverse(Forward(y)), n - 1);
        { ReverseForward(y); }
        ReverseN(y, n - 1);
        { ReverseNForwardN(s, n - 1); }
        s;
      }
    }
  }

  /** Stepping n times forward after n times back returns to the start: a
      recovered state can be moved freely in time. */
  lemma {:induction false} ForwardNReverseN(s: State, n: nat)
    ensures ForwardN(ReverseN(s, n), n) == s
  {
    if n > 0 {
      var z := ReverseN(s, n - 1);
      calc {
        ForwardN(ReverseN(s, n), n);
        ForwardN(Reverse(z), n);
        { ForwardNShift(Reverse(z), n - 1); }
        ForwardN(Forward(Reverse(z)), n - 1);
        { ForwardReverse(z); }
        ForwardN(z, n - 1);
        { ForwardNReverseN(s, n - 1); }
        s;
      }
    }
  }

  /** The 52-bit mantissa V8 draws from a state, `state[0] >> 12`: below 2^52,
      and exactly the top 52 bits of the first word. */
  function ExtractMantissa(s: State): (m: bv64)
    ensures m < 1 << 52
    ensures m << 12 == s.s0 & 0xFFFF_FFFF_FFFF_F000
  {
    s.s0 >> 12
  }
}
