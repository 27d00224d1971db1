/**
 * `ModularFourierAdditionGate`: the two-control PhiADD(a)MOD(N) built from
 * `FourierAdditionGate`s, in which the subtraction of N is controlled as well.
 * With both controls set it adds a mod N and clears the ancilla; with a control off
 * nothing is subtracted, the comparison sees b < N and the ancilla is left at 1.
 */
module ModularFourierAdditionGate {
  import opened Bits
  import opened Wrappers
  import opened ArithmeticCircuit
  import opened ModularAdder

  /**
   * What the circuit does with the ancilla clear, for n-bit a < N and b < N: (a + b) mod N
   * and a clear ancilla with both controls set; b and a set ancilla otherwise.
   */
  ghost predicate AddsModuloLeavingAncilla(a: nat, n: nat, width: nat, applyQft: bool, g: seq<Step>) {
    a < n < Pow2(width) ==>
      forall c0: bool, c1: bool, b: nat :: b < n ==>
        Exec(width, g, Machine([c0, c1], b, InputBasis(applyQft), false)) ==
          Some(Machine([c0, c1], if c0 && c1 then (a + b) % n else b, InputBasis(applyQft), !(c0 && c1)))
  }

  /** The step sequence of `get_native`, as written. */
  lemma ModularFourierAdditionAsWritten(a: nat, n: nat, width: nat, applyQft: bool)
    ensures AddsModuloLeavingAncilla(a, n, width, applyQft, AdderCircuit(a, n, applyQft, OnControls, OnControls))
  {
    if a < n < Pow2(width) {
      forall c0: bool, c1: bool, b: nat | b < n
        ensures Exec(width, AdderCircuit(a, n, applyQft, OnControls, OnControls),
                     Machine([c0, c1], b, InputBasis(applyQft), false)) ==
          Some(Machine([c0, c1], if c0 && c1 then (a + b) % n else b, InputBasis(applyQft), !(c0 && c1)))
      {
        var m := Machine([c0, c1], b, InputBasis(applyQft), false);
        ActiveOnTwo(c0, c1, m);
        AdderEffect(width, a, n, applyQft, OnControls, OnControls, m);
      }
    }
  }

  /** a = 1, b = 1, N = 2, width = 2 with both controls off: b is kept but the ancilla ends at 1. */
  lemma ControlsOffLeaveAncillaSet()
    ensures Exec(2, AdderCircuit(1, 2, true, OnControls, OnControls), Machine([false, false], 1, Computational, false)) ==
      Some(Machine([false, false], 1, Computational, true))
  {
    assert Pow2(2) == 4;
    ModularFourierAdditionAsWritten(1, 2, 2, true);
    assert InputBasis(true) == Computational;
    var g := AdderCircuit(1, 2, true, OnControls, OnControls);
    assert Exec(2, g, Machine([false, false], 1, InputBasis(true), false)) ==
      Some(Machine([false, false], 1, InputBasis(true), true));
  }

  class ModularFourierAdditionGate {
    const a: nat
    const n: nat
    const width: nat
    const applyQft: bool
    var numQubits: Option<nat>
    var gate: Option<seq<Step>>

    ghost predicate Valid()
      reads this
    {
      && (gate.None? <==> numQubits.None?)
      && (gate.Some? ==> AddsModuloLeavingAncilla(a, n, width, applyQft, gate.value) && numQubits == Some(width + 4))
    }

    constructor(a: nat, n: nat, width: nat, applyQft: bool)
      ensures this.a == a && this.n == n && this.width == width && this.applyQft == applyQft
      ensures numQubits == None && gate == None && Valid()
    {
      this.a := a;
      this.n := n;
      this.width := width;
      this.applyQft := applyQft;
      numQubits := None;
      gate := None;
    }

    /** `get_native`: like the CC gate, but the subtraction of N is controlled too. */
    method GetNative() returns (g: seq<Step>)
      requires Valid()
      modifies this
      ensures Valid() && gate == Some(g) && numQubits == Some(width + 4)
      ensures AddsModuloLeavingAncilla(a, n, width, applyQft, g)
      ensures old(gate).Some? ==> g == old(gate).value
    {
      if gate.None? {
        var qc: seq<Step> := [];
        if applyQft {
          qc := qc + [Qft];
        }
        qc := qc + [Add(a, false, OnControls)];
        qc := qc + [Add(n, true, OnControls)];                    // - N under both controls
        qc := qc + [QftInverse, CopyTop, Qft];
        qc := qc + [Add(n, false, OnAncilla)];
        qc := qc + [Add(a, true, OnControls)];
        qc := qc + [QftInverse, FlipTop, CopyTop, FlipTop, Qft];
        qc := qc + [Add(a, false, OnControls)];
        if applyQft {
          qc := qc + [QftInverse];
        }
        assert qc == AdderCircuit(a, n, applyQft, OnControls, OnControls);
        ModularFourierAdditionAsWritten(a, n, width, applyQft);
        gate := Some(qc);
        numQubits := Some(width + 4);
      }
      g := gate.value;
    }
  }
}
