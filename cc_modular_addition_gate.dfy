/**
 * `CCModularAdditionGate`: PhiADD(a)MOD(N) conditioned on two control qubits. Only the
 * adders of a are controlled; the subtraction and re-addition of N always run, which is
 * what returns the ancilla to 0 when a control is off.
 */
module CCModularAdditionGate {
  import opened Bits
  import opened Wrappers
  import opened ArithmeticCircuit
  import opened ModularAdder

  /**
   * What the circuit promises: for n-bit a < N and b < N with the ancilla clear, b becomes
   * (a + b) mod N when both controls are set and stays b otherwise; the controls are not
   * changed and the ancilla is clear again.
   */
  ghost predicate AddsModuloWhenControlled(a: nat, n: nat, width: nat, applyQft: bool, g: seq<Step>) {
    a < n < Pow2(width) ==>
      forall c0: bool, c1: bool, b: nat :: b < n ==>
        Exec(width, g, Machine([c0, c1], b, InputBasis(applyQft), false)) ==
          Some(Machine([c0, c1], if c0 && c1 then (a + b) % n else b, InputBasis(applyQft), false))
  }

  /** The step sequence of `get_native` adds a mod N under the controls and clears the ancilla. */
  lemma CCModularAdditionCorrect(a: nat, n: nat, width: nat, applyQft: bool)
    ensures AddsModuloWhenControlled(a, n, width, applyQft, AdderCircuit(a, n, applyQft, OnControls, Uncontrolled))
  {
    if a < n < Pow2(width) {
      forall c0: bool, c1: bool, b: nat | b < n
        ensures Exec(width, AdderCircuit(a, n, applyQft, OnControls, Uncontrolled),
                     Machine([c0, c1], b, InputBasis(applyQft), false)) ==
          Some(Machine([c0, c1], if c0 && c1 then (a + b) % n else b, InputBasis(applyQft), false))
      {
        var m := Machine([c0, c1], b, InputBasis(applyQft), false);
        ActiveOnTwo(c0, c1, m);
        AdderEffect(width, a, n, applyQft, OnControls, Uncontrolled, m);
      }
    }
  }

  class CCModularAdditionGate {
    const a: nat
    const n: nat
    const width: nat
    const applyQft: bool
    var numQubits: Option<nat>
    var gate: Option<seq<Step>>

    ghost predicate Valid()
      reads this
    {
      && (gate.None? <==> numQubits.None?)
      && (gate.Some? ==> AddsModuloWhenControlled(a, n, width, applyQft, gate.value) && numQubits == Some(width + 4))
    }

    constructor(a: nat, n: nat, width: nat, applyQft: bool)
      ensures this.a == a && this.n == n && this.width == width && this.applyQft == applyQft
      ensures numQubits == None && gate == None && Valid()
    {
      this.a := a;
      this.n := n;
      this.width := width;
      this.applyQft := applyQft;
      numQubits := None;
      gate := None;
    }

    /** `get_native`: two control qubits, the working register and the ancilla. */
    method GetNative() returns (g: seq<Step>)
      requires Valid()
      modifies this
      ensures Valid() && gate == Some(g) && numQubits == Some(width + 4)
      ensures AddsModuloWhenControlled(a, n, width, applyQft, g)
      ensures old(gate).Some? ==> g == old(gate).value
    {
      if gate.None? {
        var qc: seq<Step> := [];
        if applyQft {
          qc := qc + [Qft];
        }
        qc := qc + [Add(a, false, OnControls)];                   // + a under both controls
        qc := qc + [Add(n, true, Uncontrolled)];                  // - N, always
        qc := qc + [QftInverse, CopyTop, Qft];
        qc := qc + [Add(n, false, OnAncilla)];
        qc := qc + [Add(a, true, OnControls)];
        qc := qc + [QftInverse, FlipTop, CopyTop, FlipTop, Qft];
        qc := qc + [Add(a, false, OnControls)];
        if applyQft {
          qc := qc + [QftInverse];
        }
        assert qc == AdderCircuit(a, n, applyQft, OnControls, Uncontrolled);
        CCModularAdditionCorrect(a, n, width, applyQft);
        gate := Some(qc);
        numQubits := Some(width + 4);
      }
      g := gate.value;
    }
  }
}
