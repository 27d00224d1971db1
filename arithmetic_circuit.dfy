/**
 * Basis-state semantics of the arithmetic circuits of Beauregard's construction
 * ("Circuit for Shor's algorithm using 2n+3 qubits"): a circuit is a list of steps on
 * optional control qubits, a working register of width + 1 qubits and one ancilla.
 * The working register holds a number v < 2^(width+1), either directly (the
 * computational basis |v>) or as its Fourier transform phi(v). Global phases are not
 * tracked, so a phase rotation applied to |v> leaves |v>.
 */
module ArithmeticCircuit {
  import opened Bits
  import opened Wrappers
  import opened NumberTheory

  datatype Basis = Computational | Fourier

  /** What a step is conditioned on (`.control(k)` in qiskit). */
  datatype Control =
    | Uncontrolled
    | OnControls   // `.control(2)` on the two control qubits
    | OnAncilla    // `.control(1)` on the ancilla

  datatype Step =
    | Qft                                                // `QFTGate` on the working register
    | QftInverse                                         // `QFTGate(...).inverse()`
    | Add(amount: nat, inverse: bool, control: Control)  // the Fourier adder PhiADD(amount), `.inverse()` when `inverse`
    | CopyTop                                            // `cx(working_reg[-1], ancilla)`
    | FlipTop                                            // `x(working_reg[-1])`

  datatype Machine = Machine(controls: seq<bool>, working: nat, basis: Basis, ancilla: bool)

  /** The top qubit `working_reg[-1]`: the 2^width bit of the working value. */
  predicate Top(v: nat, width: nat) {
    Bit(v, width)
  }

  predicate Active(c: Control, m: Machine) {
    match c
    case Uncontrolled => true
    case OnControls => forall i :: 0 <= i < |m.controls| ==> m.controls[i]
    case OnAncilla => m.ancilla
  }

  /**
   * One step on a basis state, with W = 2^(width+1):
   * - the QFT sends |v> to phi(v) and phi(v) to |-v mod W> (the QFT squared is v -> -v);
   *   its inverse sends phi(v) to |v> and |v> to phi(-v mod W);
   * - PhiADD(c) sends phi(v) to phi((v + c) mod W), its inverse to phi((v - c) mod W);
   *   on |v> it only contributes a global phase;
   * - the cx and the x act on the top qubit of |v>; on phi(v) that qubit is in
   *   superposition and the result is not a basis state the model tracks (None).
   */
  function ExecStep(width: nat, s: Step, m: Machine): Option<Machine> {
    var w := Pow2(width + 1);
    match s
    case Qft =>
      if m.basis == Computational then Some(m.(basis := Fourier))
      else Some(m.(working := (0 - m.working) % w, basis := Computational))
    case QftInverse =>
      if m.basis == Fourier then Some(m.(basis := Computational))
      else Some(m.(working := (0 - m.working) % w, basis := Fourier))
    case Add(c, inverse, control) =>
      if m.basis == Fourier && Active(control, m) then
        Some(m.(working := (if inverse then m.working - c else m.working + c) % w))
      else Some(m)
    case CopyTop =>
      if m.basis == Computational then Some(m.(ancilla := m.ancilla != Top(m.working, width)))
      else None
    case FlipTop =>
      if m.basis == Computational then Some(m.(working := Xor(m.working, Pow2(width))))
      else None
  }

  /** Running a circuit: its steps in order, stopping at the first untracked state. */
  function Exec(width: nat, steps: seq<Step>, m: Machine): Option<Machine> {
    if steps == [] then Some(m)
    else
      match Exec(width, steps[..|steps| - 1], m)
      case None => None
      case Some(m') => ExecStep(width, steps[|steps| - 1], m')
  }

  /** `.inverse()` of one step. */
  function InverseStep(s: Step): Step {
    match s
    case Qft => QftInverse
    case QftInverse => Qft
    case Add(c, inverse, control) => Add(c, !inverse, control)
    case CopyTop => CopyTop
    case FlipTop => FlipTop
  }

  /** `.inverse()` of a circuit: the inverted steps in reverse order. */
  function Inverse(steps: seq<Step>): seq<Step> {
    if steps == [] then []
    else [InverseStep(steps[|steps| - 1])] + Inverse(steps[..|steps| - 1])
  }

  // ---------------------------------------------------------------------------
  // Running concatenated circuits

  lemma ExecSnoc(width: nat, p: seq<Step>, s: Step, m: Machine)
    ensures Exec(width, p + [s], m) ==
      match Exec(width, p, m)
      case None => None
      case Some(m') => ExecStep(width, s, m')
  {
    assert (p + [s])[..|p|] == p;
  }

  lemma ExecSingle(width: nat, s: Step, m: Machine)
    ensures Exec(width, [s], m) == ExecStep(width, s, m)
  {
    ExecSnoc(width, [], s, m);
    assert [] + [s] == [s];
  }

  lemma ExecTwo(width: nat, s1: Step, s2: Step, m: Machine)
    ensures Exec(width, [s1, s2], m) ==
      match ExecStep(width, s1, m)
      case None => None
      case Some(m') => ExecStep(width, s2, m')
  {
    ExecSnoc(width, [s1], s2, m);
    ExecSingle(width, s1, m);
    assert [s1] + [s2] == [s1, s2];
  }

  /** Running p + q is running p and then q. */
  lemma {:induction false} ExecAppend(width: nat, p: seq<Step>, q: seq<Step>, m: Machine)
    ensures Exec(width, p + q, m) ==
      match Exec(width, p, m)
      case None => None
      case Some(m') => Exec(width, q, m')
    decreases |q|
  {
    if q == [] {
      assert p + q == p;
    } else {
      var q', s := q[..|q| - 1], q[|q| - 1];
      assert q == q' + [s];
      assert p + q == (p + q') + [s];
      ExecAppend(width, p, q', m);
      ExecSnoc(width, p + q', s, m);
      if Exec(width, p, m).Some? {
        ExecSnoc(width, q', s, Exec(width, p, m).value);
      }
    }
  }

  // ---------------------------------------------------------------------------
  // What every circuit keeps

  /** No step touches the control qubits. */
  lemma {:induction false} ExecKeepsControls(width: nat, steps: seq<Step>, m: Machine)
    ensures Exec(width, steps, m).Some? ==> Exec(width, steps, m).value.controls == m.controls
  {
    if steps != [] {
      ExecKeepsControls(width, steps[..|steps| - 1], m);
    }
  }

  /** The working value stays below 2^(width+1). */
  lemma {:induction false} ExecKeepsRange(width: nat, steps: seq<Step>, m: Machine)
    requires m.working < Pow2(width + 1)
    ensures Exec(width, steps, m).Some? ==> Exec(width, steps, m).value.working < Pow2(width + 1)
  {
    if steps != [] {
      ExecKeepsRange(width, steps[..|steps| - 1], m);
      var r := Exec(width, steps[..|steps| - 1], m);
      if r.Some? {
        StepKeepsRange(width, steps[|steps| - 1], r.value);
      }
    }
  }

  lemma StepKeepsRange(width: nat, s: Step, m: Machine)
    requires m.working < Pow2(width + 1)
    ensures ExecStep(width, s, m).Some? ==> ExecStep(width, s, m).value.working < Pow2(width + 1)
  {
    if s == FlipTop {
      Pow2Monotone(width, width + 1);
      XorBound(m.working, Pow2(width), width + 1);
    }
  }

  // ---------------------------------------------------------------------------
  // Inverses

  /** Each inverted step undoes its step. */
  lemma StepInverseUndoes(width: nat, s: Step, m: Machine)
    requires m.working < Pow2(width + 1) && ExecStep(width, s, m).Some?
    ensures ExecStep(width, InverseStep(s), ExecStep(width, s, m).value) == Some(m)
  {
    var w := Pow2(width + 1);
    var v := m.working;
    ModBelow(v, w);
    match s
    case Qft =>
      if m.basis == Fourier {
        NegateTwice(v, w);
      }
    case QftInverse =>
      if m.basis == Computational {
        NegateTwice(v, w);
      }
    case Add(c, inverse, control) =>
      if m.basis == Fourier && Active(control, m) {
        if inverse {
          ShiftBack(v - c, c, w);
          assert v - c + c == v;
        } else {
          ShiftBack(v + c, -(c as int), w);
          assert v + c + -(c as int) == v;
        }
      }
    case CopyTop =>
    case FlipTop =>
      XorCancel(v, Pow2(width));
  }

  /** `circuit.inverse()` undoes the circuit. */
  lemma {:induction false} InverseUndoes(width: nat, steps: seq<Step>, m: Machine)
    requires m.working < Pow2(width + 1) && Exec(width, steps, m).Some?
    ensures Exec(width, Inverse(steps), Exec(width, steps, m).value) == Some(m)
  {
    if steps != [] {
      var p, s := steps[..|steps| - 1], steps[|steps| - 1];
      var mid := Exec(width, p, m).value;
      var last := Exec(width, steps, m).value;
      ExecKeepsRange(width, p, m);
      StepInverseUndoes(width, s, mid);
      InverseUndoes(width, p, m);
      ExecAppend(width, [InverseStep(s)], Inverse(p), last);
      ExecSingle(width, InverseStep(s), last);
    }
  }

  /** Inverting twice gives the circuit back. */
  lemma {:induction false} InverseInverse(steps: seq<Step>)
    ensures Inverse(Inverse(steps)) == steps
  {
    if steps != [] {
      var p, s := steps[..|steps| - 1], steps[|steps| - 1];
      InverseInverse(p);
      var inner := Inverse(p);
      assert Inverse(steps) == [InverseStep(s)] + inner;
      assert ([InverseStep(s)] + inner)[1..] == inner;
      InverseAppendOne(InverseStep(s), inner);
      assert steps == p + [s];
    }
  }

  lemma {:induction false} InverseAppendOne(s: Step, q: seq<Step>)
    ensures Inverse([s] + q) == Inverse(q) + [InverseStep(s)]
    decreases |q|
  {
    if q == [] {
      assert [s] + q == [s];
      assert [s][..0] == [];
    } else {
      var q', t := q[..|q| - 1], q[|q| - 1];
      var r := [s] + q;
      assert r[|r| - 1] == t && r[..|r| - 1] == [s] + q';
      assert Inverse(r) == [InverseStep(t)] + Inverse([s] + q');
      InverseAppendOne(s, q');
      assert Inverse(q) == [InverseStep(t)] + Inverse(q');
    }
  }

  /** `.control(2)` fires exactly when both control qubits are set. */
  lemma ActiveOnTwo(c0: bool, c1: bool, m: Machine)
    requires m.controls == [c0, c1]
    ensures Active(OnControls, m) <==> c0 && c1
  {
    if !c0 {
      assert !m.controls[0];
    } else if !c1 {
      assert !m.controls[1];
    }
  }

  /** A QFT followed by its inverse, or the other way round, changes nothing. */
  lemma QftPair(width: nat, m: Machine)
    requires m.working < Pow2(width + 1)
    ensures Exec(width, [Qft, QftInverse], m) == Some(m)
    ensures Exec(width, [QftInverse, Qft], m) == Some(m)
  {
    ExecTwo(width, Qft, QftInverse, m);
    ExecTwo(width, QftInverse, Qft, m);
    StepInverseUndoes(width, Qft, m);
    StepInverseUndoes(width, QftInverse, m);
  }

  // ---------------------------------------------------------------------------
  // The comparisons on the top qubit

  /** `qft.inverse(); cx(working_reg[-1], ancilla); qft` xors the top bit into the ancilla. */
  lemma CompareTop(width: nat, m: Machine)
    requires m.basis == Fourier
    ensures Exec(width, [QftInverse, CopyTop, Qft], m) ==
      Some(m.(ancilla := m.ancilla != Top(m.working, width)))
  {
    var m1 := m.(basis := Computational);
    var m2 := m1.(ancilla := m.ancilla != Top(m.working, width));
    ExecTwo(width, QftInverse, CopyTop, m);
    ExecSnoc(width, [QftInverse, CopyTop], Qft, m);
    assert [QftInverse, CopyTop] + [Qft] == [QftInverse, CopyTop, Qft];
  }

  /**
   * `qft.inverse(); x(working_reg[-1]); cx(working_reg[-1], ancilla); x(working_reg[-1]); qft`
   * xors the negated top bit into the ancilla.
   */
  lemma CompareNotTop(width: nat, m: Machine)
    requires m.basis == Fourier
    ensures Exec(width, [QftInverse, FlipTop, CopyTop, FlipTop, Qft], m) ==
      Some(m.(ancilla := m.ancilla != !Top(m.working, width)))
  {
    var v := m.working;
    var p := Pow2(width);
    var flipped := Xor(v, p);
    TopOfFlip(v, width);
    XorCancel(v, p);
    var m1 := m.(basis := Computational);
    var m2 := m1.(working := flipped);
    var m3 := m2.(ancilla := m.ancilla != Top(flipped, width));
    var m4 := m3.(working := v);
    ExecTwo(width, QftInverse, FlipTop, m);
    ExecSnoc(width, [QftInverse, FlipTop], CopyTop, m);
    assert [QftInverse, FlipTop] + [CopyTop] == [QftInverse, FlipTop, CopyTop];
    ExecSnoc(width, [QftInverse, FlipTop, CopyTop], FlipTop, m);
    assert [QftInverse, FlipTop, CopyTop] + [FlipTop] == [QftInverse, FlipTop, CopyTop, FlipTop];
    assert Exec(width, [QftInverse, FlipTop, CopyTop, FlipTop], m) == Some(m4);
    ExecSnoc(width, [QftInverse, FlipTop, CopyTop, FlipTop], Qft, m);
    assert [QftInverse, FlipTop, CopyTop, FlipTop] + [Qft] == [QftInverse, FlipTop, CopyTop, FlipTop, Qft];
  }

  /** Flipping the top qubit negates the top bit. */
  lemma TopOfFlip(v: nat, width: nat)
    ensures Top(Xor(v, Pow2(width)), width) == !Top(v, width)
  {
    XorBit(v, Pow2(width), width);
    BitPow2(width, width);
  }

  /** Below 2^(width+1) the top bit is set exactly from 2^width on. */
  lemma {:induction false} TopIsHigh(v: nat, width: nat)
    requires v < Pow2(width + 1)
    ensures Top(v, width) <==> v >= Pow2(width)
  {
    if width > 0 {
      assert Pow2(width + 1) == 2 * Pow2(width);
      TopIsHigh(v / 2, width - 1);
    }
  }

  /**
   * `FourierAdditionGate(a, width, apply_QFT=True)` for a width-bit a: QFT, PhiADD(a),
   * inverse QFT adds a mod 2^(width+1).
   */
  lemma FourierAdditionWithQft(width: nat, a: nat, m: Machine)
    requires a < Pow2(width) && m.basis == Computational
    ensures Exec(width, [Qft, Add(a, false, Uncontrolled), QftInverse], m) ==
      Some(m.(working := (m.working + a) % Pow2(width + 1)))
  {
    ExecTwo(width, Qft, Add(a, false, Uncontrolled), m);
    ExecSnoc(width, [Qft, Add(a, false, Uncontrolled)], QftInverse, m);
    assert [Qft, Add(a, false, Uncontrolled)] + [QftInverse] == [Qft, Add(a, false, Uncontrolled), QftInverse];
  }

  // ---------------------------------------------------------------------------
  // Residues modulo 2^(width+1)

  lemma ModBelow(x: int, w: int)
    requires 0 <= x < w
    ensures x % w == x
  {
    DivModUnique(x, w, 0, x);
  }

  lemma ModWrap(x: int, w: int)
    requires -w <= x < 0
    ensures x % w == x + w
  {
    DivModUnique(x, w, -1, x + w);
  }

  /** Adding c to a residue of x gives the residue of x + c. */
  lemma ShiftBack(x: int, c: int, w: int)
    requires w >= 1
    ensures (x % w + c) % w == (x + c) % w
  {
    DivMod(x, w);
    var q := x / w;
    assert x + c == (x % w + c) + w * q;
    ModMultiple(x % w + c, q, w);
  }

  lemma NegateTwice(v: int, w: int)
    requires 0 <= v < w
    ensures (0 - (0 - v) % w) % w == v
  {
    ShiftBack(0 - v, 0, w);
    DivMod(0 - v, w);
    var q := (0 - v) / w;
    assert 0 - (0 - v) % w == v + w * q;
    ModMultiple(v, q, w);
    ModBelow(v, w);
  }
}
