/**
 * `ModularExponentiationGate`: the basis permutation |j>|k> -> |j>|k xor (x^j mod M)>
 * on dimQ0 + dimQ1 qubits, and the square-and-multiply routine `mod_pow`.
 */
module ModularExponentiation {
  import opened Bits
  import opened Wrappers
  import opened Utils
  import opened NumberTheory
  import opened BasisPermutation
  import opened AutoOracleGate

  /** The nested `action(state)`: split off j, xor x^j mod M into the rest, put j back. */
  function Action(x: nat, modulus: nat, dimQ0: nat, state: nat): nat
    requires dimQ0 >= 1 && modulus >= 1
  {
    var (j, k) := ReduceBasisState(state, dimQ0).value;
    CombineBasisState(j, Xor(k, Pow(x, j) % modulus), dimQ0).value
  }

  /** The exponent function whose oracle this gate is. */
  function Residues(x: nat, modulus: nat): nat -> nat
    requires modulus >= 1
  {
    (j: nat) => Pow(x, j) % modulus
  }

  /** The action is the oracle extension of j -> x^j mod M. */
  lemma ActionIsExtension(x: nat, modulus: nat, dimQ0: nat, state: nat)
    requires dimQ0 >= 1 && modulus >= 1
    ensures Action(x, modulus, dimQ0, state) == ExtendToPermutation(Residues(x, modulus), dimQ0, state)
  {
  }

  /** On the state (j, k) the action xors x^j mod M into k and keeps j. */
  lemma ActionOnPair(x: nat, modulus: nat, dimQ0: nat, j: nat, k: nat)
    requires dimQ0 >= 1 && modulus >= 1 && j < Pow2(dimQ0)
    ensures Action(x, modulus, dimQ0, Pack(k, j, dimQ0)) == Pack(Xor(k, Pow(x, j) % modulus), j, dimQ0)
  {
    ActionIsExtension(x, modulus, dimQ0, Pack(k, j, dimQ0));
    ExtendAction(Residues(x, modulus), dimQ0, j, k);
  }

  /** The exponent register j is never changed. */
  lemma ActionKeepsExponent(x: nat, modulus: nat, dimQ0: nat, state: nat)
    requires dimQ0 >= 1 && modulus >= 1
    ensures Action(x, modulus, dimQ0, state) % Pow2(dimQ0) == state % Pow2(dimQ0)
  {
    ActionIsExtension(x, modulus, dimQ0, state);
    ExtendKeepsInput(Residues(x, modulus), dimQ0, state);
  }

  /** Applying the action twice gives the state back. */
  lemma ActionIsInvolution(x: nat, modulus: nat, dimQ0: nat, state: nat)
    requires dimQ0 >= 1 && modulus >= 1
    ensures Action(x, modulus, dimQ0, Action(x, modulus, dimQ0, state)) == state
  {
    var f := Residues(x, modulus);
    ActionIsExtension(x, modulus, dimQ0, state);
    ActionIsExtension(x, modulus, dimQ0, Action(x, modulus, dimQ0, state));
    ExtendIsInvolution(f, dimQ0, state);
  }

  /** Residues modulo M fit in dimQ1 bits whenever M <= 2^dimQ1. */
  lemma SmallModulusFits(x: nat, modulus: nat, dimQ0: nat, dimQ1: nat)
    requires modulus >= 1 && modulus <= Pow2(dimQ1)
    ensures Fits(Residues(x, modulus), dimQ0, dimQ1)
  {
  }

  /**
   * The action permutes the basis states of dimQ0 + dimQ1 qubits exactly when every
   * x^j mod M with j < 2^dimQ0 fits in dimQ1 bits (in particular when M <= 2^dimQ1).
   */
  lemma ActionIsPermutationIff(x: nat, modulus: nat, dimQ0: nat, dimQ1: nat)
    requires dimQ0 >= 1 && modulus >= 1
    ensures IsPermutation((s: nat) => Action(x, modulus, dimQ0, s), dimQ0 + dimQ1) <==>
      Fits(Residues(x, modulus), dimQ0, dimQ1)
  {
    var f := Residues(x, modulus);
    var g := (s: nat) => Action(x, modulus, dimQ0, s);
    var size := Pow2(dimQ0 + dimQ1);
    if Fits(f, dimQ0, dimQ1) {
      forall s: nat | s < size
        ensures g(s) < size
      {
        ActionIsExtension(x, modulus, dimQ0, s);
        ExtendBound(f, dimQ0, dimQ1, s);
      }
      forall s: nat, t: nat | g(s) == g(t)
        ensures s == t
      {
        ActionIsInvolution(x, modulus, dimQ0, s);
        ActionIsInvolution(x, modulus, dimQ0, t);
      }
    } else {
      var j: nat :| j < Pow2(dimQ0) && f(j) >= Pow2(dimQ1);
      ExtendLeavesRange(f, dimQ0, dimQ1, j);
      ActionIsExtension(x, modulus, dimQ0, j);
      assert j < size && g(j) >= size;
    }
  }

  /** A circuit sends (j, k) to (j, k xor x^j mod M) for every j < 2^dimQ0 and k < 2^dimQ1. */
  ghost predicate ComputesResidues(ops: seq<Op>, x: nat, modulus: nat, dimQ0: nat, dimQ1: nat)
    requires modulus >= 1
  {
    forall j: nat, k: nat :: j < Pow2(dimQ0) && k < Pow2(dimQ1) ==>
      Run(ops, Pack(k, j, dimQ0)) == Pack(Xor(k, Pow(x, j) % modulus), j, dimQ0)
  }

  /** A circuit that implements the action computes the residues. */
  lemma CompiledActionComputesResidues(ops: seq<Op>, action: nat -> nat, x: nat, modulus: nat, dimQ0: nat, dimQ1: nat)
    requires dimQ0 >= 1 && modulus >= 1
    requires forall s: nat :: action(s) == Action(x, modulus, dimQ0, s)
    requires Implements(ops, action, dimQ0 + dimQ1)
    ensures ComputesResidues(ops, x, modulus, dimQ0, dimQ1)
  {
    var f := Residues(x, modulus);
    forall s: nat
      ensures action(s) == ExtendToPermutation(f, dimQ0, s)
    {
      ActionIsExtension(x, modulus, dimQ0, s);
    }
    CompiledOracleActs(ops, f, action, dimQ0, dimQ1);
  }

  class ModularExponentiationGate {
    const x: nat
    const modulus: nat
    const dimQ0: nat
    const dimQ1: nat
    const numQubits: nat
    /** The compiled permutation of the action. */
    const permutationGate: BasisPermutationGate
    /** `_gate`, filled on the first `get_native` call. */
    var gate: Option<seq<Op>>

    /** The compiled permutation, and the cached circuit once there is one, compute the residues. */
    ghost predicate Valid()
      reads this, permutationGate
    {
      && modulus >= 1 && numQubits == dimQ0 + dimQ1
      && permutationGate.gate.Some?
      && ComputesResidues(permutationGate.gate.value, x, modulus, dimQ0, dimQ1)
      && (gate.Some? ==> ComputesResidues(gate.value, x, modulus, dimQ0, dimQ1))
    }

    constructor(x: nat, modulus: nat, dimQ0: nat, dimQ1: nat)
      requires dimQ0 >= 1 && modulus >= 1
      requires Fits(Residues(x, modulus), dimQ0, dimQ1)
      ensures this.x == x && this.modulus == modulus && this.dimQ0 == dimQ0 && this.dimQ1 == dimQ1
      ensures numQubits == dimQ0 + dimQ1 && gate == None
      ensures permutationGate.numQubits == numQubits && permutationGate.Valid()
      ensures Valid()
    {
      this.x := x;
      this.modulus := modulus;
      this.dimQ0 := dimQ0;
      this.dimQ1 := dimQ1;
      numQubits := dimQ0 + dimQ1;
      gate := None;
      ActionIsPermutationIff(x, modulus, dimQ0, dimQ1);
      var action := (s: nat) => Action(x, modulus, dimQ0, s);
      permutationGate := new BasisPermutationGate(action, dimQ0 + dimQ1);
      new;
      CompiledActionComputesResidues(permutationGate.gate.value, action, x, modulus, dimQ0, dimQ1);
    }

    /** `get_native`: compiled once, then the cached circuit is handed out. */
    method GetNative() returns (g: seq<Op>)
      requires Valid()
      modifies this
      ensures Valid() && gate == Some(g)
      ensures ComputesResidues(g, x, modulus, dimQ0, dimQ1)
      ensures old(gate).Some? ==> g == old(gate).value
      ensures old(gate).None? ==> g == permutationGate.gate.value
    {
      if gate.None? {
        gate := permutationGate.gate;
      }
      g := gate.value;
    }
  }

  datatype Error = ZeroModulus   // `base % 0` raises ZeroDivisionError

  /**
   * `mod_pow(base, exponent, modulus)` by repeated squaring: base^exponent mod modulus,
   * 0 for modulus 1, and a failure for modulus 0.
   */
  method ModPow(base: nat, exponent: nat, modulus: nat) returns (r: Result<nat, Error>)
    ensures r.Failure? <==> modulus == 0
    ensures r.Success? ==> r.value == Pow(base, exponent) % modulus && r.value < modulus
  {
    if modulus == 1 {
      return Success(0);
    }
    if modulus == 0 {
      return Failure(ZeroModulus);
    }
    var result: nat := 1;
    var b: nat := base % modulus;
    var e: nat := exponent;
    PowMod(base, exponent, modulus);
    while e > 0
      invariant result < modulus && b < modulus
      invariant (result * Pow(b, e)) % modulus == Pow(base, exponent) % modulus
      decreases e
    {
      ModPowStep(result, b, e, modulus);
      if e % 2 == 1 {
        result := (result * b) % modulus;
      }
      e := e / 2;   // exponent >> 1
      b := (b * b) % modulus;
    }
    assert result * Pow(b, e) == result;
    DivModUnique(result, modulus, 0, result);
    r := Success(result);
  }

  /** One round of the loop keeps result * base^exponent fixed modulo m. */
  lemma ModPowStep(r: nat, b: nat, e: nat, m: nat)
    requires m >= 1 && e > 0
    ensures var r' := if e % 2 == 1 then (r * b) % m else r;
      (r' * Pow((b * b) % m, e / 2)) % m == (r * Pow(b, e)) % m
  {
    var h := e / 2;
    var p := Pow((b * b) % m, h);
    var q := Pow(b, 2 * h);
    PowMod(b * b, h, m);
    PowSquare(b, h);
    assert p % m == q % m;
    if e % 2 == 1 {
      var rb := r * b;
      assert Pow(b, e) == b * q by {
        assert e == 2 * h + 1;
      }
      ModMul(rb % m, p, m);
      ModMul(rb, q, m);
      ModOfMod(rb, m);
      assert ((rb % m) * p) % m == (rb * q) % m;
      assert rb * q == r * (b * q);
    } else {
      assert e == 2 * h;
      ModMul(r, p, m);
      ModMul(r, q, m);
    }
  }
}
