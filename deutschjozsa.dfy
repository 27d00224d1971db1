/**
 * The second Deutsch-Jozsa class (`quantum/algorithms/deutschjozsa.py`): the same circuit
 * and the same classification of the counts, with the counts taken from a simulator run.
 */
module Deutschjozsa {
  import Wrappers
  import Shared = DeutschJozsa

  class DeutschJozsa {
    const n: nat
    var qc: Wrappers.Option<Shared.Circuit>

    constructor(n: nat)
      ensures this.n == n && qc == Wrappers.None
    {
      this.n := n;
      qc := Wrappers.None;
    }

    method BuildCircuit() returns (c: Shared.Circuit)
      modifies this
      ensures c == Shared.Circuit(n + 1, n) && qc == Wrappers.Some(c)
    {
      c := Shared.Circuit(n + 1, n);
      qc := Wrappers.Some(c);
    }

    /**
     * `run`: builds the circuit unless it is already there; `counts` stands for the
     * simulator's `get_counts()`, which `_analyze_counts` completes and classifies exactly
     * as the other class does.
     */
    method Run(counts: Shared.Counts) returns (r: Shared.Result)
      requires qc.Some? ==> qc == Wrappers.Some(Shared.Circuit(n + 1, n))
      modifies this, counts
      ensures qc == Wrappers.Some(Shared.Circuit(n + 1, n))
      ensures old(qc).Some? ==> qc == old(qc)
      ensures counts.entries ==
        if Shared.HasLabel(old(counts.entries), Shared.Zeros(n)) then old(counts.entries)
        else old(counts.entries) + [(Shared.Zeros(n), 0)]
      ensures r == Shared.Classify(Shared.CountOf(old(counts.entries), Shared.Zeros(n)), Shared.Total(old(counts.entries)))
    {
      if qc.None? {
        var c := BuildCircuit();
      }
      r := Shared.AnalyzeCounts(counts, n);
    }
  }
}
