/**
 * `CModularMultiplicationGate`: CMULT(a)MOD(N) on a control qubit, an x register of width
 * qubits, a b register of width + 1 qubits and one ancilla. It adds a * x mod N to b,
 * one CCModularAdditionGate of (a * 2^i) mod N per bit i of x.
 */
module CModularMultiplication {
  import opened Bits
  import opened Wrappers
  import opened NumberTheory
  import opened ArithmeticCircuit
  import opened ModularAdder
  import opened CCModularAdditionGate

  /** A basis state of the four registers; b is tracked in the basis it is in. */
  datatype MultMachine = MultMachine(control: bool, x: nat, b: nat, basis: Basis, ancilla: bool)

  /** The pieces `get_native` appends, each a circuit of the adder model on b and the ancilla. */
  datatype MultStep =
    | QftB                                  // the QFT on b
    | QftInverseB                           // its inverse
    | Controlled(adder: seq<Step>, bit: nat) // an adder wired to [control, x[bit]] + b + ancilla

  function Circuit(s: MultStep): seq<Step> {
    match s
    case QftB => [Qft]
    case QftInverseB => [QftInverse]
    case Controlled(adder, _) => adder
  }

  /** The x qubit wired to the second control of a piece (the QFT ignores its controls). */
  function WiredBit(s: MultStep): nat {
    if s.Controlled? then s.bit else 0
  }

  /** What a piece sees: the control and one x qubit as its controls, b as its working register. */
  function View(m: MultMachine, bit: nat): Machine {
    Machine([m.control, Bit(m.x, bit)], m.b, m.basis, m.ancilla)
  }

  function ExecMultStep(width: nat, s: MultStep, m: MultMachine): Option<MultMachine> {
    match Exec(width, Circuit(s), View(m, WiredBit(s)))
    case None => None
    case Some(r) => Some(m.(b := r.working, basis := r.basis, ancilla := r.ancilla))
  }

  function ExecMult(width: nat, steps: seq<MultStep>, m: MultMachine): Option<MultMachine> {
    if steps == [] then Some(m)
    else
      match ExecMult(width, steps[..|steps| - 1], m)
      case None => None
      case Some(m') => ExecMultStep(width, steps[|steps| - 1], m')
  }

  function InverseMultStep(s: MultStep): MultStep {
    match s
    case QftB => QftInverseB
    case QftInverseB => QftB
    case Controlled(adder, bit) => Controlled(Inverse(adder), bit)
  }

  /** `.inverse()` of the whole gate. */
  function InverseMult(steps: seq<MultStep>): seq<MultStep> {
    if steps == [] then []
    else [InverseMultStep(steps[|steps| - 1])] + InverseMult(steps[..|steps| - 1])
  }

  // ---------------------------------------------------------------------------
  // Running and inverting the pieces

  lemma ExecMultSnoc(width: nat, p: seq<MultStep>, s: MultStep, m: MultMachine)
    ensures ExecMult(width, p + [s], m) ==
      match ExecMult(width, p, m)
      case None => None
      case Some(m') => ExecMultStep(width, s, m')
  {
    assert (p + [s])[..|p|] == p;
  }

  /** A piece changes only b, its basis and the ancilla, and keeps b in range. */
  lemma MultStepKeeps(width: nat, s: MultStep, m: MultMachine)
    requires m.b < Pow2(width + 1) && ExecMultStep(width, s, m).Some?
    ensures var r := ExecMultStep(width, s, m).value;
      r.control == m.control && r.x == m.x && r.b < Pow2(width + 1)
  {
    ExecKeepsRange(width, Circuit(s), View(m, WiredBit(s)));
  }

  /** Running pieces keeps the control and x, and b in range. */
  lemma {:induction false} ExecMultKeeps(width: nat, steps: seq<MultStep>, m: MultMachine)
    requires m.b < Pow2(width + 1) && ExecMult(width, steps, m).Some?
    ensures var r := ExecMult(width, steps, m).value;
      r.control == m.control && r.x == m.x && r.b < Pow2(width + 1)
  {
    if steps != [] {
      var p := steps[..|steps| - 1];
      ExecMultKeeps(width, p, m);
      MultStepKeeps(width, steps[|steps| - 1], ExecMult(width, p, m).value);
    }
  }

  lemma CircuitOfInverse(s: MultStep)
    ensures Circuit(InverseMultStep(s)) == Inverse(Circuit(s)) && WiredBit(InverseMultStep(s)) == WiredBit(s)
  {
    match s
    case QftB => assert Inverse([Qft]) == [QftInverse] + Inverse([]);
    case QftInverseB => assert Inverse([QftInverse]) == [Qft] + Inverse([]);
    case Controlled(_, _) =>
  }

  /** The inverse of a piece undoes it. */
  lemma MultStepInverseUndoes(width: nat, s: MultStep, m: MultMachine)
    requires m.b < Pow2(width + 1) && ExecMultStep(width, s, m).Some?
    ensures ExecMultStep(width, InverseMultStep(s), ExecMultStep(width, s, m).value) == Some(m)
  {
    var v := View(m, WiredBit(s));
    var r := Exec(width, Circuit(s), v).value;
    ExecKeepsControls(width, Circuit(s), v);
    InverseUndoes(width, Circuit(s), v);
    CircuitOfInverse(s);
    assert View(ExecMultStep(width, s, m).value, WiredBit(s)) == r;
  }

  /** `CMULT.inverse()` undoes CMULT on every basis state it tracks. */
  lemma {:induction false} InverseMultUndoes(width: nat, steps: seq<MultStep>, m: MultMachine)
    requires m.b < Pow2(width + 1) && ExecMult(width, steps, m).Some?
    ensures ExecMult(width, InverseMult(steps), ExecMult(width, steps, m).value) == Some(m)
    decreases |steps|
  {
    if steps != [] {
      var p, s := steps[..|steps| - 1], steps[|steps| - 1];
      var mid := ExecMult(width, p, m).value;
      var last := ExecMult(width, steps, m).value;
      ExecMultKeeps(width, p, m);
      MultStepInverseUndoes(width, s, mid);
      InverseMultUndoes(width, p, m);
      InverseFirst(width, InverseMultStep(s), InverseMult(p), last, mid);
    }
  }

  /** Running [s] + q from a state that s takes to mid is running q from mid. */
  lemma {:induction false} InverseFirst(width: nat, s: MultStep, q: seq<MultStep>, m: MultMachine, mid: MultMachine)
    requires ExecMultStep(width, s, m) == Some(mid)
    ensures ExecMult(width, [s] + q, m) == ExecMult(width, q, mid)
    decreases |q|
  {
    if q == [] {
      ExecMultSnoc(width, [], s, m);
      assert [s] + q == [] + [s];
    } else {
      var q', t := q[..|q| - 1], q[|q| - 1];
      assert [s] + q == ([s] + q') + [t];
      InverseFirst(width, s, q', m, mid);
      ExecMultSnoc(width, [s] + q', t, m);
    }
  }

  // ---------------------------------------------------------------------------
  // The arithmetic of the construction

  /**
   * What the loop has built after bits 0 .. i - 1: from the computational basis with the
   * ancilla clear, b holds b + a * (x mod 2^i) mod N in the Fourier basis when the
   * control is set.
   */
  ghost predicate AddsPartialProduct(a: nat, n: nat, width: nat, i: nat, g: seq<MultStep>) {
    n < Pow2(width) ==>
      forall c: bool, x: nat, b: nat :: x < Pow2(width) && b < n ==>
        ExecMult(width, g, MultMachine(c, x, b, Computational, false)) ==
          Some(MultMachine(c, x, if c then (b + a * (x % Pow2(i))) % n else b, Fourier, false))
  }

  /**
   * What the gate promises: for b < N < 2^width and x < 2^width with the ancilla clear,
   * b becomes (b + a * x) mod N when the control is set and stays b otherwise; control, x
   * and the ancilla are unchanged.
   */
  ghost predicate AddsProductWhenControlled(a: nat, n: nat, width: nat, g: seq<MultStep>) {
    n < Pow2(width) ==>
      forall c: bool, x: nat, b: nat :: x < Pow2(width) && b < n ==>
        ExecMult(width, g, MultMachine(c, x, b, Computational, false)) ==
          Some(MultMachine(c, x, if c then (b + a * x) % n else b, Computational, false))
  }

  /** Adding a * (x mod 2^(i + 1)) is adding a * (x mod 2^i) and then (a * 2^i) mod N if bit i is set. */
  lemma AccumulateBit(a: nat, n: nat, b: nat, x: nat, i: nat)
    requires n >= 1
    ensures var acc := (b + a * (x % Pow2(i))) % n;
      (b + a * (x % Pow2(i + 1))) % n == if Bit(x, i) then ((a * Pow2(i)) % n + acc) % n else acc
  {
    var p := Pow2(i);
    var lo, hi := x % p, x % Pow2(i + 1);
    LowBitsStep(x, i);
    if Bit(x, i) {
      var k := a * p;
      assert a * hi == a * lo + k by {
        Distribute(a, lo, p);
      }
      ModAdd(k, b + a * lo, n);
    }
  }

  lemma Distribute(a: int, u: int, v: int)
    ensures a * (u + v) == a * u + a * v
  {
  }

  /** Appending the adder of bit i extends the partial product by bit i. */
  lemma AddBit(a: nat, n: nat, width: nat, i: nat, g: seq<MultStep>, adder: seq<Step>)
    requires n >= 1 && AddsPartialProduct(a, n, width, i, g)
    requires AddsModuloWhenControlled((a * Pow2(i)) % n, n, width, false, adder)
    ensures AddsPartialProduct(a, n, width, i + 1, g + [Controlled(adder, i)])
  {
    if n < Pow2(width) {
      forall c: bool, x: nat, b: nat | x < Pow2(width) && b < n
        ensures ExecMult(width, g + [Controlled(adder, i)], MultMachine(c, x, b, Computational, false)) ==
          Some(MultMachine(c, x, if c then (b + a * (x % Pow2(i + 1))) % n else b, Fourier, false))
      {
        AddBitAt(a, n, width, i, g, adder, c, x, b);
      }
    }
  }

  /** One basis state of `AddBit`. */
  lemma AddBitAt(a: nat, n: nat, width: nat, i: nat, g: seq<MultStep>, adder: seq<Step>, c: bool, x: nat, b: nat)
    requires 1 <= n < Pow2(width) && x < Pow2(width) && b < n
    requires AddsPartialProduct(a, n, width, i, g)
    requires AddsModuloWhenControlled((a * Pow2(i)) % n, n, width, false, adder)
    ensures ExecMult(width, g + [Controlled(adder, i)], MultMachine(c, x, b, Computational, false)) ==
      Some(MultMachine(c, x, if c then (b + a * (x % Pow2(i + 1))) % n else b, Fourier, false))
  {
    var acc := PartialAt(a, n, width, i, g, c, x, b);
    AdderAt((a * Pow2(i)) % n, n, width, adder, c, Bit(x, i), acc);
    ExecMultSnoc(width, g, Controlled(adder, i), MultMachine(c, x, b, Computational, false));
    if c {
      AccumulateBit(a, n, b, x, i);
    }
  }

  lemma PartialAt(a: nat, n: nat, width: nat, i: nat, g: seq<MultStep>, c: bool, x: nat, b: nat) returns (acc: nat)
    requires n < Pow2(width) && x < Pow2(width) && b < n
    requires AddsPartialProduct(a, n, width, i, g)
    ensures acc == if c then (b + a * (x % Pow2(i))) % n else b
    ensures acc < n
    ensures ExecMult(width, g, MultMachine(c, x, b, Computational, false)) == Some(MultMachine(c, x, acc, Fourier, false))
  {
    acc := if c then (b + a * (x % Pow2(i))) % n else b;
  }

  lemma AdderAt(fa: nat, n: nat, width: nat, adder: seq<Step>, c0: bool, c1: bool, acc: nat)
    requires fa < n < Pow2(width) && acc < n
    requires AddsModuloWhenControlled(fa, n, width, false, adder)
    ensures Exec(width, adder, Machine([c0, c1], acc, Fourier, false)) ==
      Some(Machine([c0, c1], if c0 && c1 then (fa + acc) % n else acc, Fourier, false))
  {
    assert InputBasis(false) == Fourier;
  }

  /** The QFT pair around the adders turns the partial product of all width bits into the promise. */
  lemma CloseProduct(a: nat, n: nat, width: nat, g: seq<MultStep>)
    requires n >= 1 && AddsPartialProduct(a, n, width, width, g)
    ensures AddsProductWhenControlled(a, n, width, g + [QftInverseB])
  {
    if n < Pow2(width) {
      forall c: bool, x: nat, b: nat | x < Pow2(width) && b < n
        ensures ExecMult(width, g + [QftInverseB], MultMachine(c, x, b, Computational, false)) ==
          Some(MultMachine(c, x, if c then (b + a * x) % n else b, Computational, false))
      {
        var m := MultMachine(c, x, b, Computational, false);
        ModBelow(x, Pow2(width));
        var acc := if c then (b + a * x) % n else b;
        ExecMultSnoc(width, g, QftInverseB, m);
        var mid := MultMachine(c, x, acc, Fourier, false);
        assert ExecMult(width, g, m) == Some(mid);
        ExecSingle(width, QftInverse, View(mid, 0));
      }
    }
  }

  /** The initial QFT on b: nothing added yet. */
  lemma OpenProduct(a: nat, n: nat, width: nat)
    requires n >= 1
    ensures AddsPartialProduct(a, n, width, 0, [QftB])
  {
    if n < Pow2(width) {
      forall c: bool, x: nat, b: nat | x < Pow2(width) && b < n
        ensures ExecMult(width, [QftB], MultMachine(c, x, b, Computational, false)) ==
          Some(MultMachine(c, x, if c then (b + a * (x % Pow2(0))) % n else b, Fourier, false))
      {
        var m := MultMachine(c, x, b, Computational, false);
        ExecMultSnoc(width, [], QftB, m);
        assert [] + [QftB] == [QftB];
        ExecSingle(width, Qft, View(m, 0));
        assert x % Pow2(0) == 0;
        ModBelow(b, n);
      }
    }
  }

  /**
   * `CMULT(a).inverse()` subtracts: for y < N < 2^width and x < 2^width with the control
   * set, it takes b = y to (y - a * x) mod N.
   */
  lemma InverseSubtractsProduct(a: nat, n: nat, width: nat, g: seq<MultStep>, x: nat, y: nat)
    requires AddsProductWhenControlled(a, n, width, g)
    requires n < Pow2(width) && x < Pow2(width) && y < n
    ensures ExecMult(width, InverseMult(g), MultMachine(true, x, y, Computational, false)) ==
      Some(MultMachine(true, x, (y - a * x) % n, Computational, false))
  {
    var before: nat := (y - a * x) % n;
    var m := MultMachine(true, x, before, Computational, false);
    assert (before + a * x) % n == y by {
      ShiftBack(y - a * x, a * x, n);
      ModBelow(y, n);
    }
    assert ExecMult(width, g, m) == Some(MultMachine(true, x, y, Computational, false));
    Pow2Monotone(width, width + 1);
    InverseMultUndoes(width, g, m);
  }

  class CModularMultiplicationGate {
    const a: nat
    const n: nat
    const width: nat
    var numQubits: Option<nat>
    var gate: Option<seq<MultStep>>

    ghost predicate Valid()
      reads this
    {
      && (gate.None? <==> numQubits.None?)
      && (gate.Some? ==> AddsProductWhenControlled(a, n, width, gate.value) && numQubits == Some(2 * width + 3))
    }

    constructor(a: nat, n: nat, width: nat)
      ensures this.a == a && this.n == n && this.width == width
      ensures numQubits == None && gate == None && Valid()
    {
      this.a := a;
      this.n := n;
      this.width := width;
      numQubits := None;
      gate := None;
    }

    /**
     * `get_native`: a QFT on b, for each bit i of x a CCModularAdditionGate adding
     * (a * 2^i) mod N controlled by the control qubit and x[i], and the inverse QFT.
     */
    method GetNative() returns (g: seq<MultStep>)
      requires n >= 1 && Valid()
      modifies this
      ensures Valid() && gate == Some(g) && numQubits == Some(2 * width + 3)
      ensures AddsProductWhenControlled(a, n, width, g)
      ensures old(gate).Some? ==> g == old(gate).value
    {
      if gate.None? {
        var qc: seq<MultStep> := [QftB];
        OpenProduct(a, n, width);
        var factor: nat := a;
        for bit := 0 to width
          invariant factor == a * Pow2(bit)
          invariant AddsPartialProduct(a, n, width, bit, qc)
        {
          var modAdd := new CCModularAdditionGate(factor % n, n, width, false);
          var adder := modAdd.GetNative();
          AddBit(a, n, width, bit, qc, adder);
          qc := qc + [Controlled(adder, bit)];
          factor := factor * 2;
        }
        CloseProduct(a, n, width, qc);
        qc := qc + [QftInverseB];
        gate := Some(qc);
        numQubits := Some(2 * width + 3);
      }
      g := gate.value;
    }
  }
}
