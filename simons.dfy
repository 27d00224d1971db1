/**
 * The classical steps of Simon's algorithm: measured count keys into a digit matrix,
 * the case split on the rank of the reduced matrix, and the solution bits into the mask.
 * The row reduction and back-substitution in between are supplied as their results.
 */
module Simons {
  import opened Bits
  import opened Wrappers

  datatype Error =
    | ValueError           // a key character or an empty key set that numpy cannot convert
    | AlgorithmException   // too few independent samples

  /** The integer numpy reads from a one-character byte string, if any. */
  function DigitValue(c: char): Option<nat> {
    if '0' <= c <= '9' then Some(c as nat - '0' as nat) else None
  }

  /**
   * The keys convert when there is at least one, all have the same non-zero length (so
   * the byte array needs no padding) and every character is a decimal digit.
   */
  predicate Convertible(keys: seq<string>) {
    && |keys| > 0 && |keys[0]| > 0
    && (forall i :: 0 <= i < |keys| ==> |keys[i]| == |keys[0]|)
    && (forall i, j :: 0 <= i < |keys| && 0 <= j < |keys[i]| ==> DigitValue(keys[i][j]).Some?)
  }

  /**
   * `_counts_to_bitmatrix` on the keys of the counts (the counts themselves are not read):
   * one row per key in key order, each as long as its key, entry j the digit at
   * position j.
   */
  function CountsToBitmatrix(keys: seq<string>): (r: Result<seq<seq<nat>>, Error>)
    ensures r.Failure? <==> !Convertible(keys)
    ensures r.Success? ==> |r.value| == |keys|
    ensures r.Success? ==> forall i :: 0 <= i < |keys| ==> |r.value[i]| == |keys[i]|
    ensures r.Success? ==> forall i, j :: 0 <= i < |keys| && 0 <= j < |keys[i]| ==>
      Some(r.value[i][j]) == DigitValue(keys[i][j])
  {
    if !Convertible(keys) then Failure(ValueError)
    else
      Success(seq(|keys|, i requires 0 <= i < |keys| =>
        seq(|keys[i]|, j requires 0 <= j < |keys[i]| => DigitValue(keys[i][j]).value)))
  }

  /** On measurement keys of '0' and '1' an entry is 1 exactly where the key has '1', else 0. */
  lemma BinaryKeys(keys: seq<string>, i: nat, j: nat)
    requires Convertible(keys) && i < |keys| && j < |keys[i]|
    requires keys[i][j] == '0' || keys[i][j] == '1'
    ensures var m := CountsToBitmatrix(keys).value;
      (m[i][j] == 1 <==> keys[i][j] == '1') && (m[i][j] == 0 <==> keys[i][j] != '1')
  {
    var m := CountsToBitmatrix(keys).value;
    assert Some(m[i][j]) == DigitValue(keys[i][j]);
  }

  /** `int("".join(bits), 2)`: the bits as a binary numeral, most significant first. */
  function FromBits(bits: seq<bool>): nat {
    if bits == [] then 0
    else 2 * FromBits(bits[..|bits| - 1]) + (if bits[|bits| - 1] then 1 else 0)
  }

  /** The value of k bits lies below 2^k. */
  lemma {:induction false} FromBitsBound(bits: seq<bool>)
    ensures FromBits(bits) < Pow2(|bits|)
  {
    if bits != [] {
      FromBitsBound(bits[..|bits| - 1]);
    }
  }

  /** Entry i of k bits is the bit of weight 2^(k - 1 - i). */
  lemma {:induction false} FromBitsDigits(bits: seq<bool>, i: nat)
    requires i < |bits|
    ensures Bit(FromBits(bits), |bits| - 1 - i) == bits[i]
  {
    var p := bits[..|bits| - 1];
    var v := FromBits(bits);
    var last := if bits[|bits| - 1] then 1 else 0;
    assert v / 2 == FromBits(p) && v % 2 == last by {
      DivModUnique(v, 2, FromBits(p), last);
    }
    if i < |bits| - 1 {
      FromBitsDigits(p, i);
      BitHalf(v, |p| - 1 - i);
    }
  }

  /**
   * The case split of `_analyze_counts` on the rank of the reduced matrix: fewer than
   * n - 1 independent rows fail, rank n gives the mask 0, and rank n - 1 gives the mask
   * whose bits are the back-substituted entries mod 2 followed by the fixed last 1.
   */
  function MaskFromRank(n: nat, rank: nat, solved: seq<int>): (r: Result<nat, Error>)
    requires rank <= n && (rank + 1 == n ==> |solved| == rank)
    ensures r.Failure? <==> rank + 1 < n
    ensures rank == n ==> r == Success(0)
    ensures rank + 1 == n ==> r.Success? && r.value % 2 == 1 && r.value < Pow2(n)
    ensures rank + 1 == n ==> forall i :: 0 <= i < rank ==> (Bit(r.value, n - 1 - i) <==> solved[i] % 2 == 1)
  {
    if rank + 1 < n then Failure(AlgorithmException)
    else if rank == n then Success(0)
    else
      var bits := seq(rank, i requires 0 <= i < rank => solved[i] % 2 == 1) + [true];
      FromBitsBound(bits);
      FromBitsOdd(bits);
      FromBitsPrefix(bits, n);
      assert forall i :: 0 <= i < rank ==> bits[i] == (solved[i] % 2 == 1);
      Success(FromBits(bits))
  }

  lemma FromBitsOdd(bits: seq<bool>)
    requires bits != [] && bits[|bits| - 1]
    ensures FromBits(bits) % 2 == 1
  {
    var h := FromBits(bits[..|bits| - 1]);
    assert FromBits(bits) == 2 * h + 1;
    DivModUnique(2 * h + 1, 2, h, 1);
  }

  lemma FromBitsPrefix(bits: seq<bool>, n: nat)
    requires |bits| == n
    ensures forall i :: 0 <= i < n ==> Bit(FromBits(bits), n - 1 - i) == bits[i]
  {
    forall i | 0 <= i < n
      ensures Bit(FromBits(bits), n - 1 - i) == bits[i]
    {
      FromBitsDigits(bits, i);
    }
  }

  /** The first key set of the conversion tests: six 4-character keys, rows in key order. */
  lemma ConvertsSampleKeys()
    ensures CountsToBitmatrix(["1111", "0111", "1000", "1010", "0000", "0101"]) ==
      Success([[1, 1, 1, 1], [0, 1, 1, 1], [1, 0, 0, 0], [1, 0, 1, 0], [0, 0, 0, 0], [0, 1, 0, 1]])
  {
    var keys := ["1111", "0111", "1000", "1010", "0000", "0101"];
    assert Convertible(keys);
    var expected := [[1, 1, 1, 1], [0, 1, 1, 1], [1, 0, 0, 0], [1, 0, 1, 0], [0, 0, 0, 0], [0, 1, 0, 1]];
    var m := CountsToBitmatrix(keys).value;
    forall i | 0 <= i < 6
      ensures m[i] == expected[i]
    {
      assert |m[i]| == 4;
      forall j | 0 <= j < 4
        ensures m[i][j] == expected[i][j]
      {
        assert Some(m[i][j]) == DigitValue(keys[i][j]);
      }
    }
    assert m == expected;
  }

  /**
   * Rank n - 1 with n = 4: back-substituted entries 0, -1, 2 reduce to the bits 0, 1, 0,
   * and with the fixed last 1 the mask is 0101 = 5.
   */
  lemma MaskOfSolvedEntries()
    ensures MaskFromRank(4, 3, [0, -1, 2]) == Success(5)
  {
    var bits := [false, true, false, true];
    assert seq(3, i requires 0 <= i < 3 => [0, -1, 2][i] % 2 == 1) + [true] == bits;
    assert FromBits(bits[..3]) == 2 by {
      assert bits[..3][..2] == [false, true];
      assert [false, true][..1] == [false];
      assert [false][..0] == [];
    }
  }

  datatype Circuit = Circuit(qubits: nat, clbits: nat)

  class Simons {
    const n: nat
    const m: nat
    /** `qc`: built on the first run. */
    var qc: Option<Circuit>

    constructor(n: nat, m: nat)
      ensures this.n == n && this.m == m && qc == None
    {
      this.n := n;
      this.m := m;
      qc := None;
    }

    /** `build_circuit`: n input and m output qubits of the oracle, the n inputs measured. */
    method BuildCircuit() returns (c: Circuit)
      modifies this
      ensures c == Circuit(n + m, n) && qc == Some(c)
    {
      c := Circuit(n + m, n);
      qc := Some(c);
    }

    /**
     * `run`: builds the circuit unless it is already there, converts the keys of the counts
     * the supplied run produced, and decides on the rank and back-substituted entries that
     * the elimination of that matrix produced.
     */
    method Run(keys: seq<string>, rank: nat, solved: seq<int>) returns (r: Result<nat, Error>)
      requires qc.Some? ==> qc == Some(Circuit(n + m, n))
      requires rank <= n && (rank + 1 == n ==> |solved| == rank)
      modifies this
      ensures qc == Some(Circuit(n + m, n))
      ensures old(qc).Some? ==> qc == old(qc)
      ensures r == if !Convertible(keys) then Failure(ValueError) else MaskFromRank(n, rank, solved)
    {
      if qc.None? {
        var c := BuildCircuit();
      }
      var matrix := CountsToBitmatrix(keys);
      if matrix.Failure? {
        return Failure(matrix.error);
      }
      r := MaskFromRank(n, rank, solved);
    }
  }
}
