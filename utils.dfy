/**
 * Packing of a basis-state index into a low field of `dim` bits and the rest
 * (`combine_basis_state` / `reduce_basis_state`).
 */
module Utils {
  import opened Bits
  import opened Wrappers

  /** Both Python failures are `ValueError`s; the tag says which one. */
  datatype Error =
    | NegativeShift   // `2 << (dim - 1)` with dim = 0
    | LowTooLarge     // x >= 2^dim in combine_basis_state

  /** `combine_basis_state(x, y, dim_x)`: `y << dim_x | x`, refusing an x that is too wide. */
  function CombineBasisState(x: nat, y: nat, dimX: nat): (r: Result<nat, Error>)
    ensures r.Failure? <==> dimX == 0 || x >= Pow2(dimX)
    ensures dimX == 0 ==> r == Failure(NegativeShift)
    ensures r.Success? ==> r.value == y * Pow2(dimX) + x
  {
    if dimX == 0 then Failure(NegativeShift)
    else if x >= 2 * Pow2(dimX - 1) then Failure(LowTooLarge)
    else
      OrShiftIsAdd(y, x, dimX);
      Success(Or(ShiftLeft(y, dimX), x))
  }

  /** `reduce_basis_state(a, dim_first)`: `(a & (2^dim - 1), a >> dim)`. */
  function ReduceBasisState(a: nat, dimFirst: nat): (r: Result<(nat, nat), Error>)
    ensures r.Failure? <==> dimFirst == 0
    ensures r.Failure? ==> r.error == NegativeShift
    ensures r.Success? ==> r.value.0 == a % Pow2(dimFirst) && r.value.1 == a / Pow2(dimFirst)
    ensures r.Success? ==> r.value.0 < Pow2(dimFirst)
  {
    if dimFirst == 0 then Failure(NegativeShift)
    else
      AndMaskIsMod(a, dimFirst);
      Success((And(a, 2 * Pow2(dimFirst - 1) - 1), ShiftRight(a, dimFirst)))
  }

  /** Reducing a combined state gives back its two parts. */
  lemma ReduceAfterCombine(x: nat, y: nat, d: nat)
    requires d >= 1 && x < Pow2(d)
    ensures CombineBasisState(x, y, d).Success?
    ensures ReduceBasisState(CombineBasisState(x, y, d).value, d) == Success((x, y))
  {
    var p := Pow2(d);
    var v := CombineBasisState(x, y, d).value;
    assert v == p * y + x;
    DivModUnique(v, p, y, x);
    var r := ReduceBasisState(v, d);
    assert r.value.0 == x && r.value.1 == y;
  }

  /** Combining the two parts of a reduced state gives back the state. */
  lemma CombineAfterReduce(a: nat, d: nat)
    requires d >= 1
    ensures ReduceBasisState(a, d).Success?
    ensures var (x, y) := ReduceBasisState(a, d).value;
            CombineBasisState(x, y, d) == Success(a)
  {
    var p := Pow2(d);
    var x, y := a % p, a / p;
    DivMod(a, p);
    assert a == y * p + x;
  }

  /** A combined state lies below 2^(d + e) when its high part lies below 2^e. */
  lemma CombineBound(x: nat, y: nat, d: nat, e: nat)
    requires d >= 1 && x < Pow2(d) && y < Pow2(e)
    ensures CombineBasisState(x, y, d).Success?
    ensures CombineBasisState(x, y, d).value < Pow2(d + e)
  {
    PackBound(y, x, d, e);
  }

  /** Reducing a state below 2^(d + e) leaves a high part below 2^e. */
  lemma ReduceBound(a: nat, d: nat, e: nat)
    requires d >= 1 && a < Pow2(d + e)
    ensures ReduceBasisState(a, d).Success?
    ensures ReduceBasisState(a, d).value.1 < Pow2(e)
  {
    Pow2Add(d, e);
    DivBound(a, Pow2(d), Pow2(e));
  }
}
