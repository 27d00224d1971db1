/**
 * `ModularAdditionGate`: PhiADD(a)MOD(N) on a working register of width + 1 qubits and
 * one ancilla, with no control qubits.
 */
module ModularAdditionGate {
  import opened Bits
  import opened Wrappers
  import opened ArithmeticCircuit
  import opened ModularAdder

  /**
   * What the circuit promises: for a < N < 2^width (n-bit a and N) and b < N with the
   * ancilla clear, b becomes (a + b) mod N and the ancilla is clear again; the register
   * is read and left in the computational basis with `apply_QFT`, in the Fourier basis
   * without.
   */
  ghost predicate AddsModulo(a: nat, n: nat, width: nat, applyQft: bool, g: seq<Step>) {
    a < n < Pow2(width) ==>
      forall b: nat :: b < n ==>
        Exec(width, g, Machine([], b, InputBasis(applyQft), false)) ==
          Some(Machine([], (a + b) % n, InputBasis(applyQft), false))
  }

  /** The step sequence of `get_native` computes (a + b) mod N. */
  lemma ModularAdditionCorrect(a: nat, n: nat, width: nat, applyQft: bool)
    ensures AddsModulo(a, n, width, applyQft, AdderCircuit(a, n, applyQft, Uncontrolled, Uncontrolled))
  {
    if a < n < Pow2(width) {
      forall b: nat | b < n
        ensures Exec(width, AdderCircuit(a, n, applyQft, Uncontrolled, Uncontrolled),
                     Machine([], b, InputBasis(applyQft), false)) ==
          Some(Machine([], (a + b) % n, InputBasis(applyQft), false))
      {
        AdderEffect(width, a, n, applyQft, Uncontrolled, Uncontrolled, Machine([], b, InputBasis(applyQft), false));
      }
    }
  }

  class ModularAdditionGate {
    const a: nat
    const n: nat
    const width: nat
    const applyQft: bool
    /** `num_qubits`: unknown until the circuit is built. */
    var numQubits: Option<nat>
    /** `_gate`: built by the first `get_native` call. */
    var gate: Option<seq<Step>>

    ghost predicate Valid()
      reads this
    {
      && (gate.None? <==> numQubits.None?)
      && (gate.Some? ==> AddsModulo(a, n, width, applyQft, gate.value) && numQubits == Some(width + 2))
    }

    constructor(a: nat, n: nat, width: nat, applyQft: bool)
      ensures this.a == a && this.n == n && this.width == width && this.applyQft == applyQft
      ensures numQubits == None && gate == None && Valid()
    {
      this.a := a;
      this.n := n;
      this.width := width;
      this.applyQft := applyQft;
      numQubits := None;
      gate := None;
    }

    /**
     * `get_native`: on the first call appends the steps of the construction to an empty
     * circuit and caches it; later calls hand out the cached circuit.
     */
    method GetNative() returns (g: seq<Step>)
      requires Valid()
      modifies this
      ensures Valid() && gate == Some(g) && numQubits == Some(width + 2)
      ensures AddsModulo(a, n, width, applyQft, g)
      ensures old(gate).Some? ==> g == old(gate).value
    {
      if gate.None? {
        var qc: seq<Step> := [];
        if applyQft {
          qc := qc + [Qft];                                      // b into the Fourier basis
        }
        qc := qc + [Add(a, false, Uncontrolled)];                 // + a
        qc := qc + [Add(n, true, Uncontrolled)];                  // - N
        qc := qc + [QftInverse, CopyTop, Qft];                    // ancilla ^= top bit
        qc := qc + [Add(n, false, OnAncilla)];                    // + N if the ancilla is set
        qc := qc + [Add(a, true, Uncontrolled)];                  // - a
        qc := qc + [QftInverse, FlipTop, CopyTop, FlipTop, Qft];  // ancilla ^= not top bit
        qc := qc + [Add(a, false, Uncontrolled)];                 // + a
        if applyQft {
          qc := qc + [QftInverse];                               // b back to the computational basis
        }
        assert qc == AdderCircuit(a, n, applyQft, Uncontrolled, Uncontrolled);
        ModularAdditionCorrect(a, n, width, applyQft);
        gate := Some(qc);
        numQubits := Some(width + 2);
      }
      g := gate.value;
    }
  }
}
