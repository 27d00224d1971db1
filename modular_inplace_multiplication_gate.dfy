/**
 * `ModularInplaceMultiplicationGate`: U_a, which takes |x> on a working register of width
 * qubits to |(a * x) mod N>, using an ancilla register of width + 2 qubits that starts
 * and ends at 0. It multiplies by a into the ancillas, swaps, and un-multiplies by a^-1.
 */
module ModularInplaceMultiplication {
  import opened Bits
  import opened Wrappers
  import opened NumberTheory
  import opened ArithmeticCircuit
  import opened CModularMultiplication

  /**
   * A basis state: the working register, the low width + 1 ancilla qubits as the number b,
   * and the last ancilla qubit.
   */
  datatype InplaceMachine = InplaceMachine(working: nat, b: nat, ancilla: bool)

  datatype InplaceStep =
    | Multiply(circuit: seq<MultStep>)   // a multiplier on all qubits, its control held at 1
    | SwapLow                            // swap of the working register with ancilla[:-2]

  function ExecInplaceStep(width: nat, s: InplaceStep, m: InplaceMachine): Option<InplaceMachine> {
    match s
    case Multiply(g) =>
      (match ExecMult(width, g, MultMachine(true, m.working, m.b, Computational, m.ancilla))
       case None => None
       case Some(r) => if r.basis == Computational then Some(InplaceMachine(r.x, r.b, r.ancilla)) else None)
    case SwapLow =>
      Some(InplaceMachine(m.b % Pow2(width), Pack(ShiftRight(m.b, width), m.working, width), m.ancilla))
  }

  function ExecInplace(width: nat, steps: seq<InplaceStep>, m: InplaceMachine): Option<InplaceMachine> {
    if steps == [] then Some(m)
    else
      match ExecInplace(width, steps[..|steps| - 1], m)
      case None => None
      case Some(m') => ExecInplaceStep(width, steps[|steps| - 1], m')
  }

  lemma ExecInplaceThree(width: nat, s1: InplaceStep, s2: InplaceStep, s3: InplaceStep, m: InplaceMachine,
                         m1: InplaceMachine, m2: InplaceMachine)
    requires ExecInplaceStep(width, s1, m) == Some(m1) && ExecInplaceStep(width, s2, m1) == Some(m2)
    ensures ExecInplace(width, [s1, s2, s3], m) == ExecInplaceStep(width, s3, m2)
  {
    assert [s1][..0] == [];
    assert ExecInplace(width, [s1], m) == Some(m1);
    assert [s1, s2][..1] == [s1];
    assert ExecInplace(width, [s1, s2], m) == Some(m2);
    assert [s1, s2, s3][..2] == [s1, s2];
  }

  /**
   * What U_a promises: for x < N < 2^width with all ancillas clear, the working register
   * becomes (a * x) mod N and the ancillas are clear again.
   */
  ghost predicate MultipliesInPlace(a: nat, n: nat, width: nat, g: seq<InplaceStep>) {
    n < Pow2(width) ==>
      forall x: nat :: x < n ==>
        ExecInplace(width, g, InplaceMachine(x, 0, false)) == Some(InplaceMachine((a * x) % n, 0, false))
  }

  /** Un-multiplying (a * x) mod N by an inverse of a gives back x, so x - a^-1 * y vanishes mod N. */
  lemma UndoFactor(a: nat, aInv: nat, n: nat, x: nat)
    requires n >= 1 && x < n && (a * aInv) % n == 1 % n
    ensures (x - aInv * ((a * x) % n)) % n == 0
  {
    var t := aInv * ((a * x) % n);
    InverseCancels(a, aInv, n, x);
    DivMod(t, n);
    var q := t / n;
    assert x - t == n * (-q);
    ModMultiple(0, -q, n);
  }

  lemma InverseCancels(a: nat, aInv: nat, n: nat, x: nat)
    requires n >= 1 && x < n && (a * aInv) % n == 1 % n
    ensures (aInv * ((a * x) % n)) % n == x
  {
    var u := a * aInv;
    var p := a * x;
    ModMulRight(aInv, p, n);
    MulRotate(aInv, a, x);
    assert aInv * p == x * u;
    ModMulRight(x, u, n);
    assert (aInv * (p % n)) % n == (x * (u % n)) % n;
    if n == 1 {
      assert x == 0;
    } else {
      ModBelow(1, n);
      ModBelow(x, n);
    }
  }

  /** Reducing a factor modulo n first does not change a product modulo n. */
  lemma ModMulRight(k: int, z: int, n: int)
    requires n >= 1
    ensures (k * (z % n)) % n == (k * z) % n
  {
    ModMul(k, z % n, n);
    ModMul(k, z, n);
    ModOfMod(z, n);
  }

  /** One working value x: multiply, swap, un-multiply. */
  lemma InplaceAt(a: nat, n: nat, width: nat, aInv: nat, forward: seq<MultStep>, backward: seq<MultStep>, x: nat)
    requires 1 <= n < Pow2(width) && x < n && (a * aInv) % n == 1 % n
    requires AddsProductWhenControlled(a, n, width, forward)
    requires AddsProductWhenControlled(aInv, n, width, backward)
    ensures ExecInplace(width, [Multiply(forward), SwapLow, Multiply(InverseMult(backward))], InplaceMachine(x, 0, false)) ==
      Some(InplaceMachine((a * x) % n, 0, false))
  {
    var y := (a * x) % n;
    var m1 := MultiplyAt(a, n, width, forward, x);
    var m2 := SwapAt(n, width, x, y);
    UnmultiplyAt(a, n, width, aInv, backward, x);
    ExecInplaceThree(width, Multiply(forward), SwapLow, Multiply(InverseMult(backward)), InplaceMachine(x, 0, false), m1, m2);
  }

  lemma MultiplyAt(a: nat, n: nat, width: nat, forward: seq<MultStep>, x: nat) returns (m1: InplaceMachine)
    requires 1 <= n < Pow2(width) && x < n
    requires AddsProductWhenControlled(a, n, width, forward)
    ensures m1 == InplaceMachine(x, (a * x) % n, false)
    ensures ExecInplaceStep(width, Multiply(forward), InplaceMachine(x, 0, false)) == Some(m1)
  {
    m1 := InplaceMachine(x, (a * x) % n, false);
    assert ExecMult(width, forward, MultMachine(true, x, 0, Computational, false)) ==
      Some(MultMachine(true, x, (0 + a * x) % n, Computational, false));
  }

  lemma UnmultiplyAt(a: nat, n: nat, width: nat, aInv: nat, backward: seq<MultStep>, x: nat)
    requires 1 <= n < Pow2(width) && x < n && (a * aInv) % n == 1 % n
    requires AddsProductWhenControlled(aInv, n, width, backward)
    ensures ExecInplaceStep(width, Multiply(InverseMult(backward)), InplaceMachine((a * x) % n, x, false)) ==
      Some(InplaceMachine((a * x) % n, 0, false))
  {
    var y := (a * x) % n;
    InverseSubtractsProduct(aInv, n, width, backward, y, x);
    UndoFactor(a, aInv, n, x);
  }

  lemma SwapAt(n: nat, width: nat, x: nat, y: nat) returns (m2: InplaceMachine)
    requires n < Pow2(width) && y < n
    ensures m2 == InplaceMachine(y, x, false)
    ensures ExecInplaceStep(width, SwapLow, InplaceMachine(x, y, false)) == Some(m2)
  {
    m2 := InplaceMachine(y, x, false);
    DivModUnique(y, Pow2(width), 0, y);
  }

  lemma InplaceCorrect(a: nat, n: nat, width: nat, aInv: nat, forward: seq<MultStep>, backward: seq<MultStep>)
    requires n >= 1 && (a * aInv) % n == 1 % n
    requires AddsProductWhenControlled(a, n, width, forward)
    requires AddsProductWhenControlled(aInv, n, width, backward)
    ensures MultipliesInPlace(a, n, width, [Multiply(forward), SwapLow, Multiply(InverseMult(backward))])
  {
    if n < Pow2(width) {
      forall x: nat | x < n
        ensures ExecInplace(width, [Multiply(forward), SwapLow, Multiply(InverseMult(backward))], InplaceMachine(x, 0, false)) ==
          Some(InplaceMachine((a * x) % n, 0, false))
      {
        InplaceAt(a, n, width, aInv, forward, backward, x);
      }
    }
  }

  /** The two assertions of the constructor. */
  datatype Error = NotBelowModulus | NotCoprime

  class ModularInplaceMultiplicationGate {
    const a: nat
    const n: nat
    const width: nat
    var numQubits: Option<nat>
    var gate: Option<seq<InplaceStep>>

    ghost predicate Valid()
      reads this
    {
      && a < n && Gcd(a, n) == 1
      && (gate.None? <==> numQubits.None?)
      && (gate.Some? ==> MultipliesInPlace(a, n, width, gate.value) && numQubits == Some(2 * width + 2))
    }

    constructor(a: nat, n: nat, width: nat)
      requires a < n && Gcd(a, n) == 1
      ensures this.a == a && this.n == n && this.width == width
      ensures numQubits == None && gate == None && Valid()
    {
      this.a := a;
      this.n := n;
      this.width := width;
      numQubits := None;
      gate := None;
    }

    /** Construction with the constructor's checks: a < N first, then gcd(a, N) == 1. */
    static method Create(a: nat, n: nat, width: nat) returns (r: Result<ModularInplaceMultiplicationGate, Error>)
      ensures a >= n ==> r == Failure(NotBelowModulus)
      ensures a < n && Gcd(a, n) != 1 ==> r == Failure(NotCoprime)
      ensures r.Success? ==> a < n && Gcd(a, n) == 1
      ensures r.Success? ==> fresh(r.value) && r.value.a == a && r.value.n == n && r.value.width == width
      ensures r.Success? ==> r.value.Valid() && r.value.gate == None
    {
      if a >= n {
        return Failure(NotBelowModulus);
      }
      if Gcd(a, n) != 1 {
        return Failure(NotCoprime);
      }
      var gate := new ModularInplaceMultiplicationGate(a, n, width);
      r := Success(gate);
    }

    /** `get_native`: multiply by a into the ancillas, swap, and un-multiply by a^-1 mod N. */
    method GetNative() returns (g: seq<InplaceStep>)
      requires Valid()
      modifies this
      ensures Valid() && gate == Some(g) && numQubits == Some(2 * width + 2)
      ensures MultipliesInPlace(a, n, width, g)
      ensures old(gate).Some? ==> g == old(gate).value
    {
      if gate.None? {
        var multA := new CModularMultiplicationGate(a, n, width);
        var forward := multA.GetNative();
        var qc: seq<InplaceStep> := [Multiply(forward)];
        qc := qc + [SwapLow];
        var aInv := ModInverse(a, n);
        var multAInv := new CModularMultiplicationGate(aInv, n, width);
        var backward := multAInv.GetNative();
        qc := qc + [Multiply(InverseMult(backward))];
        InplaceCorrect(a, n, width, aInv, forward, backward);
        assert qc == [Multiply(forward), SwapLow, Multiply(InverseMult(backward))];
        gate := Some(qc);
        numQubits := Some(2 * width + 2);
      }
      g := gate.value;
    }
  }
}
