/** `findXorShiftStates`: recovering the XorShift128+ state behind a run of
    `Math.random` outputs. The unknown state is a pair of symbolic 64-bit
    words; the loop replays the generator's forward step on them, one step per
    observation, and asserts that each step's first word, shifted right 12
    bits, is the observed mantissa. A bit-vector solver then picks a state
    meeting every assertion.

    V8 computes its outputs in batches and serves each batch last-first, so
    the observations are matched to the steps in reverse: the last
    observation is the first step from the unknown state.

    The solver is a parameter: whatever it answers for a constraint system.
    Its correctness is a hypothesis of the contracts below, never assumed. */
module StateRecovery {
  import opened XorShift128
  import opened MantissaBits

  /** The bit-vector operations the loop applies, one function each. Every
      shift amount the loop uses is a constant, so each shift is its own
      operation rather than a shift by a variable amount. */
  function XorBits(a: bv64, b: bv64): bv64
  {
    a ^ b
  }

  /** `shl(23)`: the high 23 bits drop off the 64-bit word. */
  function ShiftLeft23(a: bv64): bv64
  {
    a << 23
  }

  function ShiftRight17(a: bv64): bv64
  {
    a >> 17
  }

  function ShiftRight26(a: bv64): bv64
  {
    a >> 26
  }

  function ShiftRight12(a: bv64): bv64
  {
    a >> 12
  }

  /** A 64-bit bit-vector expression over the two unknowns, built from the
      operations the loop uses: `xor`, `shl(23)`, and `lshr` by 17, 26 and 12. */
  datatype Term =
    | Target0
    | Target1
    | Xor(left: Term, right: Term)
    | Shl23(arg: Term)
    | Lshr17(arg: Term)
    | Lshr26(arg: Term)
    | Lshr12(arg: Term)

  /** The value of a term once the unknowns are given the words of s. */
  function Eval(t: Term, s: State): bv64
  {
    match t
    case Target0 => s.s0
    case Target1 => s.s1
    case Xor(a, b) => XorBits(Eval(a, s), Eval(b, s))
    case Shl23(a) => ShiftLeft23(Eval(a, s))
    case Lshr17(a) => ShiftRight17(Eval(a, s))
    case Lshr26(a) => ShiftRight26(Eval(a, s))
    case Lshr12(a) => ShiftRight12(Eval(a, s))
  }

  /** The loop's symbolic pair `[currentState0, currentState1]`. */
  datatype SymState = SymState(c0: Term, c1: Term)

  function EvalState(c: SymState, s: State): State
  {
    State(Eval(c.c0, s), Eval(c.c1, s))
  }

  /** One pass of the loop body before its assertion: the forward step
      written out on terms, with the words swapped as `s1 = currentState0`,
      `s0 = currentState1`. */
  function SymStep(c: SymState): (r: SymState)
    ensures r.c0 == c.c1
  {
    var s1 := c.c0;
    var s0 := c.c1;
    var a := Xor(s1, Shl23(s1));
    var b := Xor(a, Lshr17(a));
    var d := Xor(b, s0);
    var e := Xor(d, Lshr26(s0));
    SymState(s0, e)
  }

  /** `s1.xor(s1.shl(23))` computes the forward step's left xor-shift. */
  lemma MixLeftBits(v: bv64)
    ensures XorBits(v, ShiftLeft23(v)) == MixLeft(v)
  {
    calc {
      XorBits(v, ShiftLeft23(v));
      XorBits(v, v << 23);
      v ^ (v << 23);
      MixLeft(v);
    }
  }

  /** `s1.xor(s1.lshr(17))` computes the forward step's right xor-shift. */
  lemma MixRightBits(a: bv64)
    ensures XorBits(a, ShiftRight17(a)) == MixRight(a)
  {
    calc {
      XorBits(a, ShiftRight17(a));
      XorBits(a, a >> 17);
      a ^ (a >> 17);
      MixRight(a);
    }
  }

  /** `s1.xor(s0)` then `s1.xor(s0.lshr(26))` computes the forward step's blend. */
  lemma BlendBits(w: bv64, m: bv64)
    ensures XorBits(XorBits(m, w), ShiftRight26(w)) == Blend(w, m)
  {
    calc {
      XorBits(XorBits(m, w), ShiftRight26(w));
      XorBits(m ^ w, ShiftRight26(w));
      XorBits(m ^ w, w >> 26);
      (m ^ w) ^ (w >> 26);
      Blend(w, m);
    }
  }

  /** The three parts of the loop body, on terms, evaluate to the generator's
      xor-shifts and blend of the terms' values. */
  lemma EvalMixLeft(t: Term, s: State)
    ensures Eval(Xor(t, Shl23(t)), s) == MixLeft(Eval(t, s))
  {
    MixLeftBits(Eval(t, s));
  }

  lemma EvalMixRight(t: Term, s: State)
    ensures Eval(Xor(t, Lshr17(t)), s) == MixRight(Eval(t, s))
  {
    MixRightBits(Eval(t, s));
  }

  lemma EvalBlend(t: Term, u: Term, s: State)
    ensures Eval(Xor(Xor(t, u), Lshr26(u)), s) == Blend(Eval(u, s), Eval(t, s))
  {
    BlendBits(Eval(u, s), Eval(t, s));
  }

  /** Whatever the unknowns stand for, a pass computes the generator's forward step. */
  lemma SymStepEval(c: SymState, s: State)
    ensures EvalState(SymStep(c), s) == Forward(EvalState(c, s))
  {
    var a := Xor(c.c0, Shl23(c.c0));
    var b := Xor(a, Lshr17(a));
    EvalMixLeft(c.c0, s);
    EvalMixRight(a, s);
    EvalBlend(b, c.c1, s);
  }

  /** The symbolic pair after k passes of the loop. */
  function SymStateN(k: nat): SymState
  {
    if k == 0 then SymState(Target0, Target1) else SymStep(SymStateN(k - 1))
  }

  /** After k passes the symbolic pair stands for the unknown state stepped
      forward k times. */
  lemma {:induction false} SymStateNEval(k: nat, s: State)
    ensures EvalState(SymStateN(k), s) == ForwardN(s, k)
  {
    if k > 0 {
      SymStateNEval(k - 1, s);
      SymStepEval(SymStateN(k - 1), s);
    }
  }

  /** `currentState0.lshr(12).eq(BitVec.val(mantissa, 64))`. */
  datatype Constraint = Constraint(lhs: Term, rhs: bv64)

  predicate Holds(c: Constraint, s: State)
  {
    Eval(c.lhs, s) == c.rhs
  }

  predicate AllHold(cs: seq<Constraint>, s: State)
  {
    forall j :: 0 <= j < |cs| ==> Holds(cs[j], s)
  }

  /** Observation i of n agrees with a candidate state s: the mantissa of the
      state n - i forward steps from s is the mantissa observed. */
  ghost predicate Matches(observed: seq<bv64>, s: State, i: nat)
    requires i < |observed|
  {
    ExtractMantissa(ForwardN(s, |observed| - i)) == FloatToMantissa(observed[i])
  }

  /** What the solver is asked for: a state every observation agrees with.
      The last observation is one step from it, the first n steps. */
  ghost predicate Consistent(observed: seq<bv64>, s: State)
  {
    forall i :: 0 <= i < |observed| ==> Matches(observed, s, i)
  }

  /** The loop of `findXorShiftStates` over the bit patterns of
      `numbers[i] + 1`, from the last to the first: constraint j is asserted on
      pass j + 1 and ties the first word after j + 1 steps to the mantissa of
      observation n - 1 - j. */
  method BuildConstraints(observed: seq<bv64>) returns (cs: seq<Constraint>)
    ensures |cs| == |observed|
    ensures forall j :: 0 <= j < |cs| ==>
      cs[j] == ConstraintFor(observed, j)
  {
    var n := |observed|;
    var current := SymState(Target0, Target1);
    cs := [];
    var i: int := n - 1;
    while i >= 0
      invariant -1 <= i < n
      invariant |cs| == n - 1 - i
      invariant current == SymStateN(n - 1 - i)
      invariant forall j :: 0 <= j < |cs| ==>
        cs[j] == ConstraintFor(observed, j)
    {
      current := SymStep(current);
      var mantissa := FloatToMantissa(observed[i]);
      cs := cs + [Constraint(Lshr12(current.c0), mantissa)];
      i := i - 1;
    }
  }

  /** The constraint the loop asserts on pass j + 1. */
  function ConstraintFor(observed: seq<bv64>, j: nat): Constraint
    requires j < |observed|
  {
    Constraint(Lshr12(SymStateN(j + 1).c0), FloatToMantissa(observed[|observed| - 1 - j]))
  }

  /** `lshr(12)` of a state's first word is the mantissa the state exposes:
      ShiftRight12Extract stated on the two words, a separate step only to keep
      the solver's work small. */
  lemma ExtractOfWords(x: bv64, y: bv64)
    ensures ExtractMantissa(State(x, y)) == ShiftRight12(x)
  {
  }

  lemma ShiftRight12Extract(t: State)
    ensures ShiftRight12(t.s0) == ExtractMantissa(t)
  {
    ExtractOfWords(t.s0, t.s1);
    assert t == State(t.s0, t.s1);
  }

  /** The constraint of pass j + 1 holds exactly when observation n - 1 - j agrees. */
  lemma ConstraintAt(observed: seq<bv64>, s: State, j: nat)
    requires j < |observed|
    ensures Holds(ConstraintFor(observed, j), s) <==> Matches(observed, s, |observed| - 1 - j)
  {
    var c := SymStateN(j + 1);
    var t := ForwardN(s, j + 1);
    SymStateNEval(j + 1, s);
    assert Eval(c.c0, s) == t.s0;
    assert Eval(Lshr12(c.c0), s) == ShiftRight12(t.s0);
    ShiftRight12Extract(t);
    assert |observed| - (|observed| - 1 - j) == j + 1;
  }

  /** A state meets every constraint the loop builds exactly when it is
      consistent with the observations. */
  lemma ConstraintsMeaning(observed: seq<bv64>, cs: seq<Constraint>, s: State)
    requires |cs| == |observed|
    requires forall j :: 0 <= j < |cs| ==> cs[j] == ConstraintFor(observed, j)
    ensures AllHold(cs, s) <==> Consistent(observed, s)
  {
    var n := |observed|;
    if AllHold(cs, s) {
      forall i | 0 <= i < n
        ensures Matches(observed, s, i)
      {
        ConstraintAt(observed, s, n - 1 - i);
        assert Holds(cs[n - 1 - i], s);
      }
    }
    if Consistent(observed, s) {
      forall j | 0 <= j < n
        ensures Holds(cs[j], s)
      {
        ConstraintAt(observed, s, j);
      }
    }
  }

  /** The answers of `solver.check()`, with the model a satisfiable system comes with. */
  datatype CheckResult = Sat(model: State) | Unsat | Unknown

  /** A bit-vector solver, seen only through what it answers for a system. */
  type Solver = seq<Constraint> -> CheckResult

  /** A solver whose models meet every constraint of the system. */
  ghost predicate Sound(solver: Solver)
  {
    forall cs :: solver(cs).Sat? ==> AllHold(cs, solver(cs).model)
  }

  /** A solver that answers `sat` whenever some state meets every constraint. */
  ghost predicate Complete(solver: Solver)
  {
    forall cs, s :: AllHold(cs, s) ==> solver(cs).Sat?
  }

  /** The outcome of a recovery: the state, or the `could not find solution` error. */
  datatype Recovery = Recovered(state: State) | RecoveryFailed

  /** `findXorShiftStates(numbers)`, given the bit patterns of `numbers[i] + 1`:
      a recovered state is consistent with every observation when the solver
      is sound, and a recovery fails only when no state is consistent, when the
      solver is complete. */
  method FindXorShiftState(observed: seq<bv64>, solver: Solver) returns (r: Recovery)
    ensures Sound(solver) && r.Recovered? ==> Consistent(observed, r.state)
    ensures Complete(solver) && (exists s :: Consistent(observed, s)) ==> r.Recovered?
  {
    var cs := BuildConstraints(observed);
    SolverAnswers(observed, cs, solver);
    var verdict := solver(cs);
    if verdict.Sat? {
      r := Recovered(verdict.model);
    } else {
      r := RecoveryFailed;
    }
  }

  /** What a sound or complete solver answers for the system the loop builds. */
  lemma SolverAnswers(observed: seq<bv64>, cs: seq<Constraint>, solver: Solver)
    requires |cs| == |observed|
    requires forall j :: 0 <= j < |cs| ==> cs[j] == ConstraintFor(observed, j)
    ensures Sound(solver) && solver(cs).Sat? ==> Consistent(observed, solver(cs).model)
    ensures Complete(solver) && (exists s :: Consistent(observed, s)) ==> solver(cs).Sat?
  {
    if solver(cs).Sat? {
      ConstraintsMeaning(observed, cs, solver(cs).model);
    }
    if exists s :: Consistent(observed, s) {
      var s :| Consistent(observed, s);
      ConstraintsMeaning(observed, cs, s);
    }
  }

  /** Outputs that really came from a generator started at s, served last-first,
      are consistent with s: the pass that steps n - i times produces
      observation i. */
  lemma GeneratedIsConsistent(observed: seq<bv64>, s: State)
    requires forall i :: 0 <= i < |observed| ==> observed[i] == NumberBits(ForwardN(s, |observed| - i))
    ensures Consistent(observed, s)
  {
    forall i | 0 <= i < |observed|
      ensures Matches(observed, s, i)
    {
      var t := ForwardN(s, |observed| - i);
      assert FloatToMantissa(NumberBits(t)) == ExtractMantissa(t);
    }
  }
}
