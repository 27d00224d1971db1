/**
 * Deutsch-Jozsa (`quantum/algorithms/deutsch_jozsa.py`): the circuit is built once per
 * instance, and the measured counts are classified by how many shots read all zeros.
 */
module DeutschJozsa {
  import Wrappers

  /** The three answers of the algorithm. */
  datatype Result = Error | Constant | Balanced

  /** A counts dictionary: measured labels with their counts, in insertion order. */
  class Counts {
    var entries: seq<(string, nat)>

    constructor(entries: seq<(string, nat)>)
      ensures this.entries == entries
    {
      this.entries := entries;
    }
  }

  /** The all-zero key `"0" * n`. */
  function Zeros(n: nat): (zeros: string)
    ensures |zeros| == n && forall i :: 0 <= i < n ==> zeros[i] == '0'
  {
    seq(n, _ => '0')
  }

  predicate HasLabel(entries: seq<(string, nat)>, key: string) {
    exists i :: 0 <= i < |entries| && entries[i].0 == key
  }

  /** `counts[key]` for a present key (the first entry holding it), 0 otherwise. */
  function CountOf(entries: seq<(string, nat)>, key: string): nat {
    if entries == [] then 0
    else if entries[0].0 == key then entries[0].1
    else CountOf(entries[1..], key)
  }

  /** `sum(counts.values())`. */
  function Total(entries: seq<(string, nat)>): nat {
    if entries == [] then 0 else entries[0].1 + Total(entries[1..])
  }

  /** The decision on the all-zero count and the number of shots. */
  function Classify(zero: nat, total: nat): Result {
    if zero == total then Constant
    else if zero == 0 then Balanced
    else Error
  }

  /** No key is counted more often than there are shots. */
  lemma {:induction false} CountAtMostTotal(entries: seq<(string, nat)>, key: string)
    ensures CountOf(entries, key) <= Total(entries)
  {
    if entries != [] {
      CountAtMostTotal(entries[1..], key);
    }
  }

  /** A key that is not present counts 0. */
  lemma {:induction false} AbsentCountsZero(entries: seq<(string, nat)>, key: string)
    requires !HasLabel(entries, key)
    ensures CountOf(entries, key) == 0
  {
    if entries != [] {
      assert entries[0].0 != key;
      AbsentCountsZero(entries[1..], key);
    }
  }

  /** Appending an entry with count 0 keeps the total and every count already present. */
  lemma {:induction false} AppendZeroEntry(entries: seq<(string, nat)>, key: string, other: string)
    ensures Total(entries + [(key, 0)]) == Total(entries)
    ensures HasLabel(entries, other) ==> CountOf(entries + [(key, 0)], other) == CountOf(entries, other)
    ensures !HasLabel(entries, key) ==> CountOf(entries + [(key, 0)], key) == 0
  {
    if entries == [] {
      assert [] + [(key, 0)] == [(key, 0)];
    } else {
      assert (entries + [(key, 0)])[1..] == entries[1..] + [(key, 0)];
      AppendZeroEntry(entries[1..], key, other);
      if HasLabel(entries, other) && entries[0].0 != other {
        var i :| 0 <= i < |entries| && entries[i].0 == other;
        assert entries[1..][i - 1].0 == other;
      }
    }
  }

  /**
   * The classification answers Constant exactly when every shot read all zeros (also for
   * no shots), Balanced exactly when none did and there were shots, and Error exactly
   * when some but not all did.
   */
  lemma ClassifyCases(entries: seq<(string, nat)>, key: string)
    ensures var zero, total := CountOf(entries, key), Total(entries);
      && (Classify(zero, total) == Constant <==> zero == total)
      && (Classify(zero, total) == Balanced <==> zero == 0 && total > 0)
      && (Classify(zero, total) == Error <==> 0 < zero < total)
  {
    CountAtMostTotal(entries, key);
  }

  /**
   * `_analyze_counts`: inserts the all-zero key with count 0 when it is missing (no
   * other entry changes), then classifies.
   */
  method AnalyzeCounts(counts: Counts, n: nat) returns (r: Result)
    modifies counts
    ensures counts.entries ==
      if HasLabel(old(counts.entries), Zeros(n)) then old(counts.entries)
      else old(counts.entries) + [(Zeros(n), 0)]
    ensures r == Classify(CountOf(old(counts.entries), Zeros(n)), Total(old(counts.entries)))
  {
    var labelZero := Zeros(n);
    ghost var before := counts.entries;
    if !HasLabel(counts.entries, labelZero) {
      AbsentCountsZero(counts.entries, labelZero);
      AppendZeroEntry(counts.entries, labelZero, labelZero);
      counts.entries := counts.entries + [(labelZero, 0)];
    }
    var numShots := Total(counts.entries);
    r := Error;
    if CountOf(counts.entries, labelZero) == numShots {
      r := Constant;
    } else if CountOf(counts.entries, labelZero) == 0 {
      r := Balanced;
    }
  }

  /** The registers of the built circuit: n + 1 qubits and n classical bits. */
  datatype Circuit = Circuit(qubits: nat, clbits: nat)

  class DeutschJozsa {
    const n: nat
    /** `qc`: built on the first run. */
    var qc: Wrappers.Option<Circuit>

    constructor(n: nat)
      ensures this.n == n && qc == Wrappers.None
    {
      this.n := n;
      qc := Wrappers.None;
    }

    /** `build_circuit`: n input qubits and one target qubit, n measured bits. */
    method BuildCircuit() returns (c: Circuit)
      modifies this
      ensures c == Circuit(n + 1, n) && qc == Wrappers.Some(c)
    {
      c := Circuit(n + 1, n);
      qc := Wrappers.Some(c);
    }

    /**
     * `run`: builds the circuit unless it is already there, and classifies the counts the
     * supplied run of the circuit produced.
     */
    method Run(counts: Counts) returns (r: Result)
      requires qc.Some? ==> qc == Wrappers.Some(Circuit(n + 1, n))
      modifies this, counts
      ensures qc == Wrappers.Some(Circuit(n + 1, n))
      ensures old(qc).Some? ==> qc == old(qc)
      ensures counts.entries ==
        if HasLabel(old(counts.entries), Zeros(n)) then old(counts.entries)
        else old(counts.entries) + [(Zeros(n), 0)]
      ensures r == Classify(CountOf(old(counts.entries), Zeros(n)), Total(old(counts.entries)))
    {
      if qc.None? {
        var c := BuildCircuit();
      }
      r := AnalyzeCounts(counts, n);
    }
  }
}
