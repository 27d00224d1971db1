/**
 * `AutoOracleGate`: the oracle |j>|k> -> |j>|k xor f(j)> of a function
 * f: {0,1}^n -> {0,1}^m, built as a basis permutation on n + m qubits.
 * The low n bits of a basis index hold j, the high m bits hold k.
 */
module AutoOracleGate {
  import opened Bits
  import opened Wrappers
  import opened Utils
  import opened BasisPermutation

  /** `f_extended_to_permutation(x)`: split x into (j, k), return the state for (j, k xor f(j)). */
  function ExtendToPermutation(f: nat -> nat, n: nat, x: nat): nat
    requires n >= 1
  {
    var parts := ReduceBasisState(x, n).value;
    var (j, k) := parts;
    CombineBasisState(j, Xor(k, f(j)), n).value
  }

  /** The extension leaves the input register alone and xors f of it into the output register. */
  lemma ExtendAction(f: nat -> nat, n: nat, j: nat, k: nat)
    requires n >= 1 && j < Pow2(n)
    ensures ExtendToPermutation(f, n, Pack(k, j, n)) == Pack(Xor(k, f(j)), j, n)
  {
    ReduceAfterCombine(j, k, n);
  }

  /** The low n bits, the input j, are never changed. */
  lemma ExtendKeepsInput(f: nat -> nat, n: nat, x: nat)
    requires n >= 1
    ensures ExtendToPermutation(f, n, x) % Pow2(n) == x % Pow2(n)
  {
    var parts := ReduceBasisState(x, n).value;
    ReduceAfterCombine(parts.0, Xor(parts.1, f(parts.0)), n);
  }

  /** Applying the extension twice gives the identity, so it is a bijection of the naturals. */
  lemma ExtendIsInvolution(f: nat -> nat, n: nat, x: nat)
    requires n >= 1
    ensures ExtendToPermutation(f, n, ExtendToPermutation(f, n, x)) == x
  {
    var p := Pow2(n);
    DivMod(x, p);
    var j: nat, k: nat := x % p, x / p;
    assert x == Pack(k, j, n);
    var y := Xor(k, f(j));
    ExtendAction(f, n, j, k);
    assert ExtendToPermutation(f, n, x) == Pack(y, j, n);
    ExtendAction(f, n, j, y);
    XorCancel(k, f(j));
  }

  /** When f fits in m bits the extension stays within the basis states of n + m qubits. */
  lemma ExtendBound(f: nat -> nat, n: nat, m: nat, x: nat)
    requires n >= 1 && x < Pow2(n + m)
    requires f(x % Pow2(n)) < Pow2(m)
    ensures ExtendToPermutation(f, n, x) < Pow2(n + m)
  {
    var j, k := x % Pow2(n), x / Pow2(n);
    ReduceBound(x, n, m);
    XorBound(k, f(j), m);
    CombineBound(j, Xor(k, f(j)), n, m);
  }

  /** f sends every input of n bits to an output of m bits. */
  ghost predicate Fits(f: nat -> nat, n: nat, m: nat) {
    forall j: nat :: j < Pow2(n) ==> f(j) < Pow2(m)
  }

  /** An output of f wider than m bits sends a basis state of n + m qubits outside them. */
  lemma ExtendLeavesRange(f: nat -> nat, n: nat, m: nat, j: nat)
    requires n >= 1 && j < Pow2(n) && f(j) >= Pow2(m)
    ensures j < Pow2(n + m) && ExtendToPermutation(f, n, j) >= Pow2(n + m)
  {
    var p, q := Pow2(n), Pow2(m);
    Pow2Add(n, m);
    Pow2Monotone(n, n + m);
    ExtendAction(f, n, j, 0);
    XorZero(f(j));
    assert Pack(0, j, n) == j;
    MulMonotone(p, q, f(j));
  }

  /** The extension permutes the basis states of n + m qubits exactly when f fits in m bits. */
  lemma ExtendIsPermutationIff(f: nat -> nat, n: nat, m: nat)
    requires n >= 1
    ensures IsPermutation((x: nat) => ExtendToPermutation(f, n, x), n + m) <==> Fits(f, n, m)
  {
    var g := (x: nat) => ExtendToPermutation(f, n, x);
    if Fits(f, n, m) {
      ExtendIsPermutation(f, g, n, m);
    } else {
      var j: nat :| j < Pow2(n) && f(j) >= Pow2(m);
      ExtendLeavesRange(f, n, m, j);
      assert j < Pow2(n + m) && g(j) >= Pow2(n + m);
    }
  }

  /** When f fits in m bits the extension permutes the basis states of n + m qubits. */
  lemma ExtendIsPermutation(f: nat -> nat, g: nat -> nat, n: nat, m: nat)
    requires n >= 1
    requires Fits(f, n, m)
    requires forall x: nat :: g(x) == ExtendToPermutation(f, n, x)
    ensures IsPermutation(g, n + m)
  {
    forall x: nat | x < Pow2(n + m)
      ensures g(x) < Pow2(n + m)
    {
      ExtendBound(f, n, m, x);
    }
    forall x: nat, y: nat | g(x) == g(y)
      ensures x == y
    {
      ExtendIsInvolution(f, n, x);
      ExtendIsInvolution(f, n, y);
    }
  }

  /** A compiled extension of f sends (j, k) to (j, k xor f(j)). */
  lemma CompiledOracleActs(ops: seq<Op>, f: nat -> nat, g: nat -> nat, n: nat, m: nat)
    requires n >= 1
    requires forall x: nat :: g(x) == ExtendToPermutation(f, n, x)
    requires Implements(ops, g, n + m)
    ensures forall j: nat, k: nat :: j < Pow2(n) && k < Pow2(m) ==>
      Run(ops, Pack(k, j, n)) == Pack(Xor(k, f(j)), j, n)
  {
    forall j: nat, k: nat | j < Pow2(n) && k < Pow2(m)
      ensures Run(ops, Pack(k, j, n)) == Pack(Xor(k, f(j)), j, n)
    {
      PackBound(k, j, n, m);
      ImplementsAt(ops, g, n + m, Pack(k, j, n));
      ExtendAction(f, n, j, k);
    }
  }

  class AutoOracleGate {
    const n: nat
    const m: nat
    /** The basis permutation this oracle is, on n + m qubits. */
    const permutation: BasisPermutationGate

    constructor(f: nat -> nat, n: nat, m: nat)
      requires n >= 1
      requires Fits(f, n, m)
      ensures this.n == n && this.m == m
      ensures permutation.numQubits == n + m && permutation.Valid() && permutation.gate.Some?
      ensures forall j: nat, k: nat :: j < Pow2(n) && k < Pow2(m) ==>
        Run(permutation.gate.value, Pack(k, j, n)) == Pack(Xor(k, f(j)), j, n)
    {
      this.n := n;
      this.m := m;
      var g := (x: nat) => ExtendToPermutation(f, n, x);
      ExtendIsPermutation(f, g, n, m);
      permutation := new BasisPermutationGate(g, n + m);
      new;
      CompiledOracleActs(permutation.gate.value, f, g, n, m);
    }
  }
}
