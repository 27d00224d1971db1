/**
 * `AutoOracle`: the same oracle as `AutoOracleGate`, given as a dense table.
 * Row k * 2^n + j of the table is the one-hot vector of the state (j, k xor f(j)).
 */
module AutoOracle {
  import opened Bits
  import opened Wrappers
  import Utils
  import opened AutoOracleGate

  datatype Error =
    | Packing(cause: Utils.Error)   // a negative shift count in `2 << (d - 1)`
    | StateOutOfRange               // `Statevector.from_int(i, dims)` with i >= dims

  /** `2 << (d - 1)`, which raises for d = 0. */
  function Dim(d: nat): (r: Result<nat, Error>)
    ensures r.Failure? <==> d == 0
    ensures r.Success? ==> r.value == Pow2(d)
  {
    if d == 0 then Failure(Packing(Utils.NegativeShift)) else Success(2 * Pow2(d - 1))
  }

  /** `action = [f(x) for x in range(0, 2 << (n - 1))]`. */
  function Action(f: nat -> nat, n: nat): (r: Result<seq<nat>, Error>)
    ensures r.Failure? <==> n == 0
    ensures r.Success? ==> |r.value| == Pow2(n) && forall x :: 0 <= x < |r.value| ==> r.value[x] == f(x)
  {
    match Dim(n)
    case Failure(e) => Failure(e)
    case Success(size) => Success(seq(size, x requires 0 <= x < size => f(x)))
  }

  /** `itertools.product(range(a), range(b))`: the pairs (k, j) with k outer and j inner. */
  function Product(a: nat, b: nat): (r: seq<(nat, nat)>)
    ensures |r| == a * b
  {
    if b == 0 then []
    else seq(a * b, t requires 0 <= t < a * b => Unpair(t, b))
  }

  /** Entry t of `Product(_, b)`. */
  function Unpair(t: nat, b: nat): (nat, nat)
    requires b > 0
  {
    DivMod(t, b);
    (t / b, t % b)
  }

  /** `Statevector.from_int(i, dims)`: the one-hot vector at i, refused when i is not below dims. */
  function FromInt(i: nat, dims: nat): (r: Result<seq<nat>, Error>)
    ensures r.Failure? <==> i >= dims
  {
    if i < dims then Success(seq(dims, t requires 0 <= t < dims => if t == i then 1 else 0))
    else Failure(StateOutOfRange)
  }

  /** row is the one-hot vector of length dims with its 1 at position i. */
  predicate OneHot(row: seq<nat>, dims: nat, i: nat) {
    |row| == dims && forall d :: 0 <= d < dims ==> row[d] == if d == i then 1 else 0
  }

  /** Row c of the table is one-hot at the extension's image of c, for every basis state c of n + m qubits. */
  ghost predicate IsOracleTable(table: seq<seq<nat>>, f: nat -> nat, n: nat, m: nat)
    requires n >= 1
  {
    |table| == Pow2(n + m) &&
    forall c :: 0 <= c < Pow2(n + m) ==> OneHot(table[c], Pow2(n + m), ExtendToPermutation(f, n, c))
  }

  /** One row of the table, for the pair (k, j). */
  function Row(action: seq<nat>, n: nat, dims: nat, kj: (nat, nat)): Result<seq<nat>, Error>
    requires kj.1 < |action|
  {
    var k, j := kj.0, kj.1;
    match Utils.CombineBasisState(j, Xor(k, action[j]), n)
    case Failure(e) => Failure(Packing(e))
    case Success(state) => FromInt(state, dims)
  }

  /** The list comprehension over the pairs; the first row that raises ends it. */
  function Rows(action: seq<nat>, n: nat, dims: nat, pairs: seq<(nat, nat)>): Result<seq<seq<nat>>, Error>
    requires forall t :: 0 <= t < |pairs| ==> pairs[t].1 < |action|
  {
    if pairs == [] then Success([])
    else
      match Row(action, n, dims, pairs[0])
      case Failure(e) => Failure(e)
      case Success(row) =>
        match Rows(action, n, dims, pairs[1..])
        case Failure(e) => Failure(e)
        case Success(rows) => Success([row] + rows)
  }

  /** `_build_gate`: the table that `qc.unitary` receives. */
  function OracleMatrix(f: nat -> nat, n: nat, m: nat): Result<seq<seq<nat>>, Error> {
    match Action(f, n)
    case Failure(e) => Failure(e)
    case Success(action) =>
      match Dim(n + m)
      case Failure(e) => Failure(e)
      case Success(dims) =>
        match Dim(m)
        case Failure(e) => Failure(e)
        case Success(outputs) =>
          ProductInRange(outputs, |action|);
          Rows(action, n, dims, Product(outputs, |action|))
  }

  lemma ProductInRange(a: nat, b: nat)
    ensures forall t :: 0 <= t < |Product(a, b)| ==> Product(a, b)[t].1 < b
  {
  }

  /** Rows succeeds exactly when every row does, and then lists them in order. */
  lemma {:induction false} RowsFacts(action: seq<nat>, n: nat, dims: nat, pairs: seq<(nat, nat)>)
    requires forall t :: 0 <= t < |pairs| ==> pairs[t].1 < |action|
    ensures Rows(action, n, dims, pairs).Success? <==>
      forall t :: 0 <= t < |pairs| ==> Row(action, n, dims, pairs[t]).Success?
    ensures Rows(action, n, dims, pairs).Success? ==>
      |Rows(action, n, dims, pairs).value| == |pairs| &&
      forall t :: 0 <= t < |pairs| ==> Rows(action, n, dims, pairs).value[t] == Row(action, n, dims, pairs[t]).value
  {
    if pairs != [] {
      var rest := pairs[1..];
      RowsFacts(action, n, dims, rest);
      assert forall t :: 1 <= t < |pairs| ==> pairs[t] == rest[t - 1];
    }
  }

  /** The row for (k, j) is the one-hot vector at the extension's image of k * 2^n + j. */
  lemma RowIsExtension(f: nat -> nat, n: nat, m: nat, action: seq<nat>, k: nat, j: nat)
    requires n >= 1 && m >= 1
    requires action == Action(f, n).value && k < Pow2(m) && j < Pow2(n)
    ensures Row(action, n, Pow2(n + m), (k, j)).Success? <==> f(j) < Pow2(m)
    ensures Row(action, n, Pow2(n + m), (k, j)).Success? ==>
      OneHot(Row(action, n, Pow2(n + m), (k, j)).value, Pow2(n + m), ExtendToPermutation(f, n, Pack(k, j, n)))
  {
    ExtendAction(f, n, j, k);
    var y := Xor(k, f(j));
    var state := Pack(y, j, n);
    assert Utils.CombineBasisState(j, y, n) == Success(state);
    if f(j) < Pow2(m) {
      XorBound(k, f(j), m);
      Utils.CombineBound(j, y, n, m);
    }
    if state < Pow2(n + m) {
      Utils.ReduceBound(state, n, m);
      DivModUnique(state, Pow2(n), y, j);
      XorBound(y, k, m);
      XorCommutes(k, f(j));
      XorCancel(f(j), k);
    }
  }

  /** With both registers present, the table is the list comprehension over all pairs. */
  lemma OracleMatrixUnfold(f: nat -> nat, n: nat, m: nat)
    requires n >= 1 && m >= 1
    ensures Action(f, n).Success?
    ensures forall t :: 0 <= t < |Product(Pow2(m), Pow2(n))| ==> Product(Pow2(m), Pow2(n))[t].1 < |Action(f, n).value|
    ensures OracleMatrix(f, n, m) == Rows(Action(f, n).value, n, Pow2(n + m), Product(Pow2(m), Pow2(n)))
  {
    ProductInRange(Pow2(m), Pow2(n));
  }

  /**
   * The table is built exactly when n, m >= 1 and f fits in m bits; it then has 2^(n+m)
   * one-hot rows, row c having its 1 at the extension's image of c.
   */
  lemma OracleMatrixCharacterised(f: nat -> nat, n: nat, m: nat)
    ensures OracleMatrix(f, n, m).Success? <==> n >= 1 && m >= 1 && Fits(f, n, m)
    ensures OracleMatrix(f, n, m).Success? ==> n >= 1 && IsOracleTable(OracleMatrix(f, n, m).value, f, n, m)
  {
    if n >= 1 && m >= 1 {
      if Fits(f, n, m) {
        TableWhenFits(f, n, m);
      } else {
        NoTableWhenUnfit(f, n, m);
      }
    }
  }

  lemma TableWhenFits(f: nat -> nat, n: nat, m: nat)
    requires n >= 1 && m >= 1 && Fits(f, n, m)
    ensures OracleMatrix(f, n, m).Success? && IsOracleTable(OracleMatrix(f, n, m).value, f, n, m)
  {
    OracleMatrixUnfold(f, n, m);
    var action := Action(f, n).value;
    var dims := Pow2(n + m);
    var pairs := Product(Pow2(m), Pow2(n));
    var rows := Rows(action, n, dims, pairs);
    RowsFacts(action, n, dims, pairs);
    PairsCount(n, m);
    forall c | 0 <= c < dims
      ensures Row(action, n, dims, pairs[c]).Success?
      ensures OneHot(Row(action, n, dims, pairs[c]).value, dims, ExtendToPermutation(f, n, c))
    {
      RowAt(f, n, m, c);
      LowBound(c, n);
    }
    assert rows.Success?;
  }

  lemma NoTableWhenUnfit(f: nat -> nat, n: nat, m: nat)
    requires n >= 1 && m >= 1 && !Fits(f, n, m)
    ensures OracleMatrix(f, n, m).Failure?
  {
    OracleMatrixUnfold(f, n, m);
    var action := Action(f, n).value;
    var dims := Pow2(n + m);
    var pairs := Product(Pow2(m), Pow2(n));
    RowsFacts(action, n, dims, pairs);
    PairsCount(n, m);
    var j: nat :| j < Pow2(n) && f(j) >= Pow2(m);
    Pow2Monotone(n, n + m);
    DivModUnique(j, Pow2(n), 0, j);
    RowAt(f, n, m, j);
    assert !Row(action, n, dims, pairs[j]).Success?;
  }

  lemma LowBound(c: nat, n: nat)
    ensures c % Pow2(n) < Pow2(n)
  {
  }

  /** Row c of the table, for the pair (c div 2^n, c mod 2^n). */
  lemma RowAt(f: nat -> nat, n: nat, m: nat, c: nat)
    requires n >= 1 && m >= 1 && c < Pow2(n + m)
    ensures Action(f, n).Success?
    ensures c < |Product(Pow2(m), Pow2(n))| && Product(Pow2(m), Pow2(n))[c].1 < |Action(f, n).value|
    ensures var row := Row(Action(f, n).value, n, Pow2(n + m), Product(Pow2(m), Pow2(n))[c]);
      (row.Success? <==> f(c % Pow2(n)) < Pow2(m)) &&
      (row.Success? ==> OneHot(row.value, Pow2(n + m), ExtendToPermutation(f, n, c)))
  {
    PairAt(n, m, c);
    Split(n, m, c);
    RowIsExtension(f, n, m, Action(f, n).value, c / Pow2(n), c % Pow2(n));
  }

  lemma PairsCount(n: nat, m: nat)
    ensures |Product(Pow2(m), Pow2(n))| == Pow2(n + m)
  {
    var p, q := Pow2(n), Pow2(m);
    Pow2Add(n, m);
    assert q * p == p * q;
  }

  /** A state c of n + m qubits splits as (c div 2^n, c mod 2^n) with c div 2^n < 2^m. */
  lemma Split(n: nat, m: nat, c: nat)
    requires c < Pow2(n + m)
    ensures 0 <= c / Pow2(n) < Pow2(m) && 0 <= c % Pow2(n) < Pow2(n)
    ensures Pack(c / Pow2(n), c % Pow2(n), n) == c
  {
    var p := Pow2(n);
    Pow2Add(n, m);
    DivBound(c, p, Pow2(m));
    DivMod(c, p);
  }

  /** Entry c of the product is (c div 2^n, c mod 2^n). */
  lemma PairAt(n: nat, m: nat, c: nat)
    requires c < Pow2(n + m)
    ensures c < |Product(Pow2(m), Pow2(n))| && Product(Pow2(m), Pow2(n))[c] == (c / Pow2(n), c % Pow2(n))
  {
    PairsCount(n, m);
  }

  /** The table is symmetric, so it is the same permutation matrix read by rows or by columns. */
  lemma OracleMatrixSymmetric(f: nat -> nat, n: nat, m: nat, c: nat, d: nat)
    requires OracleMatrix(f, n, m).Success?
    requires c < Pow2(n + m) && d < Pow2(n + m)
    ensures |OracleMatrix(f, n, m).value| == Pow2(n + m)
    ensures |OracleMatrix(f, n, m).value[c]| == Pow2(n + m) && |OracleMatrix(f, n, m).value[d]| == Pow2(n + m)
    ensures OracleMatrix(f, n, m).value[c][d] == OracleMatrix(f, n, m).value[d][c]
  {
    OracleMatrixCharacterised(f, n, m);
    ExtendIsInvolution(f, n, c);
    ExtendIsInvolution(f, n, d);
  }
}
