/**
 * The classical side of Shor's algorithm: the even-N shortcut, the gcd rejection, the
 * table of repeated squares that selects the multipliers, the extraction of period
 * guesses from measured outcomes, and the evaluation of a guess into two factors.
 */
module Shor {
  import opened Bits
  import opened Wrappers
  import opened NumberTheory

  datatype Error =
    | AlgorithmException   // a pass or a guess is rejected
    | IndexError           // `factors[0] = a` on an empty table (N = 1)
    | ZeroDivision         // `% self.N` with N = 0
    | ValueError           // `randint(3, N - 1)` with N - 1 < 3
    | OutOfCandidates      // the supplied choices of a ran out (the source keeps drawing)

  /** `int(np.ceil(np.log2(N)))`: the fewest bits whose values reach N. */
  function CeilLog2(n: nat): (k: nat)
    requires n >= 1
    ensures n <= Pow2(k) && (k == 0 || Pow2(k - 1) < n)
    decreases n
  {
    if n == 1 then 0
    else
      var k' := CeilLog2((n + 1) / 2);
      Pow2Even(k' + 1);
      k' + 1
  }

  lemma Pow2Even(k: nat)
    requires k >= 1
    ensures Pow2(k) % 2 == 0
  {
  }

  /** `abs(x - 1)` for x = a ** h, since `gcd(-1, N) == 1` in Python. */
  function PredecessorMagnitude(x: nat): nat {
    if x == 0 then 1 else x - 1
  }

  /**
   * `_evaluate_guess` as written: rejects an odd guess r and a^(r/2) = -1 mod N, and
   * otherwise returns gcd(a^(r/2) + 1, N) and gcd(a^(r/2) - 1, N) if their product is N.
   */
  function EvaluateGuessAsWritten(a: nat, n: nat, guess: nat): (r: Result<(nat, nat), Error>)
    ensures r.Success? ==> r.value.0 * r.value.1 == n
  {
    if guess % 2 != 0 then Failure(AlgorithmException)
    else if n == 0 then Failure(ZeroDivision)
    else
      var half := Pow(a, guess / 2);
      if (half + 1) % n == 0 then Failure(AlgorithmException)
      else
        var d1 := Gcd(half + 1, n);
        var d2 := Gcd(PredecessorMagnitude(half), n);
        if d1 * d2 == n then Success((d1, d2)) else Failure(AlgorithmException)
  }

  /** For N = 15, a = 4 and the guess 4 (4^4 = 1 mod 15) the evaluation returns the trivial split (1, 15). */
  lemma AsWrittenAcceptsTrivialSplit()
    ensures Pow(4, 4) % 15 == 1
    ensures EvaluateGuessAsWritten(4, 15, 4) == Success((1, 15))
  {
    assert Pow(4, 2) == 16;
    assert Pow(4, 4) == 256;
    assert Gcd(17, 15) == 1 by {
      assert Gcd(17, 15) == Gcd(15, 2) == Gcd(2, 1) == Gcd(1, 0);
    }
    assert Gcd(15, 15) == 15 by {
      assert Gcd(15, 15) == Gcd(15, 0);
    }
  }

  /** A proper divisor split of N: both parts strictly between 1 and N, multiplying to N. */
  predicate ProperSplit(n: nat, p: (nat, nat)) {
    p.0 * p.1 == n && 1 < p.0 < n && 1 < p.1 < n
  }

  /** `_evaluate_guess` with the trivial split gcd(a^(r/2) + 1, N) = 1 also rejected. */
  function EvaluateGuess(a: nat, n: nat, guess: nat): (r: Result<(nat, nat), Error>)
    ensures r.Success? ==> ProperSplit(n, r.value)
    ensures r.Success? ==> EvaluateGuessAsWritten(a, n, guess) == r
  {
    match EvaluateGuessAsWritten(a, n, guess)
    case Failure(e) => Failure(e)
    case Success(p) =>
      if p.0 <= 1 || p.1 <= 1 then Failure(AlgorithmException)
      else
        ProperParts(n, p.0, p.1);
        Success(p)
  }

  lemma ProperParts(n: nat, d1: nat, d2: nat)
    requires d1 * d2 == n && d1 >= 2 && d2 >= 2
    ensures d1 < n && d2 < n
  {
    MulMonotone(d1, 2, d2);
    MulMonotone(d2, 2, d1);
  }

  /** The corrected evaluation rejects exactly the as-written rejections plus the trivial splits. */
  lemma EvaluateGuessRejects(a: nat, n: nat, guess: nat)
    requires n >= 1
    ensures EvaluateGuess(a, n, guess).Failure? <==>
      EvaluateGuessAsWritten(a, n, guess).Failure? || EvaluateGuessAsWritten(a, n, guess).value.0 == 1
  {
    var r := EvaluateGuessAsWritten(a, n, guess);
    if r.Success? {
      var half := Pow(a, guess / 2);
      var d1, d2 := Gcd(half + 1, n), Gcd(PredecessorMagnitude(half), n);
      assert r.value == (d1, d2) && (half + 1) % n != 0;
      GcdDivides(half + 1, n);
      GcdDivides(PredecessorMagnitude(half), n);
      assert d1 >= 1 && d2 >= 1;
      assert d2 == 1 ==> d1 == n;
    }
  }

  /**
   * The guesses after `_extract_guesses`' filter: the outcomes other than 0 and 1, in order.
   */
  function Kept(outcomes: seq<nat>): seq<nat> {
    if outcomes == [] then []
    else
      var rest := Kept(outcomes[..|outcomes| - 1]);
      if outcomes[|outcomes| - 1] <= 1 then rest else rest + [outcomes[|outcomes| - 1]]
  }

  /** Kept outcomes are exactly the outcomes that are neither 0 nor 1. */
  lemma {:induction false} KeptMembers(outcomes: seq<nat>, k: nat)
    ensures k in Kept(outcomes) <==> k in outcomes && k >= 2
    ensures |Kept(outcomes)| <= |outcomes|
  {
    if outcomes != [] {
      var p := outcomes[..|outcomes| - 1];
      KeptMembers(p, k);
      assert outcomes == p + [outcomes[|outcomes| - 1]];
    }
  }

  /** One denominator per kept outcome, in order. */
  function Guesses(outcomes: seq<nat>, denominator: nat -> nat): seq<nat> {
    var kept := Kept(outcomes);
    seq(|kept|, i requires 0 <= i < |kept| => denominator(kept[i]))
  }

  /**
   * The guess scan of `_run_single_pass`: a guess r with a^r = 1 mod N is evaluated; a
   * failed evaluation stops the scan and keeps the last success `found`.
   */
  function Scan(a: nat, n: nat, guesses: seq<nat>, found: Option<(nat, nat)>): Option<(nat, nat)>
    requires n >= 1
    decreases |guesses|
  {
    if guesses == [] then found
    else if Pow(a, guesses[0]) % n != 1 then Scan(a, n, guesses[1..], found)
    else
      match EvaluateGuess(a, n, guesses[0])
      case Failure(_) => found
      case Success(p) => Scan(a, n, guesses[1..], Some(p))
  }

  /** Whatever the scan keeps is a proper split of N. */
  lemma {:induction false} ScanSplits(a: nat, n: nat, guesses: seq<nat>, found: Option<(nat, nat)>)
    requires n >= 1 && (found.Some? ==> ProperSplit(n, found.value))
    ensures Scan(a, n, guesses, found).Some? ==> ProperSplit(n, Scan(a, n, guesses, found).value)
    decreases |guesses|
  {
    if guesses != [] {
      if Pow(a, guesses[0]) % n != 1 {
        ScanSplits(a, n, guesses[1..], found);
      } else if EvaluateGuess(a, n, guesses[0]).Success? {
        ScanSplits(a, n, guesses[1..], Some(EvaluateGuess(a, n, guesses[0]).value));
      }
    }
  }

  /** A guess whose evaluation is rejected ends the scan: the guesses after it are never looked at. */
  lemma {:induction false} ScanStopsAtRejection(a: nat, n: nat, guesses: seq<nat>, found: Option<(nat, nat)>, i: nat)
    requires n >= 1 && i < |guesses|
    requires Pow(a, guesses[i]) % n == 1 && EvaluateGuess(a, n, guesses[i]).Failure?
    ensures Scan(a, n, guesses, found) == Scan(a, n, guesses[..i], found)
    decreases i
  {
    if i > 0 {
      var rest := guesses[1..];
      assert rest[..i - 1] == guesses[..i][1..];
      assert rest[i - 1] == guesses[i];
      if Pow(a, guesses[0]) % n != 1 {
        ScanStopsAtRejection(a, n, rest, found, i - 1);
      } else if EvaluateGuess(a, n, guesses[0]).Success? {
        ScanStopsAtRejection(a, n, rest, Some(EvaluateGuess(a, n, guesses[0]).value), i - 1);
      }
    }
  }

  /** An accepted guess replaces whatever the scan had kept before it. */
  lemma ScanKeepsLatest(a: nat, n: nat, guesses: seq<nat>, found: Option<(nat, nat)>)
    requires n >= 1 && |guesses| >= 1
    requires Pow(a, guesses[0]) % n == 1 && EvaluateGuess(a, n, guesses[0]).Success?
    ensures Scan(a, n, guesses, found) == Scan(a, n, guesses[1..], Some(EvaluateGuess(a, n, guesses[0]).value))
  {
  }

  /** The scan as written, evaluating each guess with `EvaluateGuessAsWritten`. */
  function ScanAsWritten(a: nat, n: nat, guesses: seq<nat>, found: Option<(nat, nat)>): Option<(nat, nat)>
    requires n >= 1
    decreases |guesses|
  {
    if guesses == [] then found
    else if Pow(a, guesses[0]) % n != 1 then ScanAsWritten(a, n, guesses[1..], found)
    else
      match EvaluateGuessAsWritten(a, n, guesses[0])
      case Failure(_) => found
      case Success(p) => ScanAsWritten(a, n, guesses[1..], Some(p))
  }

  /** For N = 15, a = 4 and the single guess 4 the scan as written keeps (1, 15); the corrected one keeps nothing. */
  lemma AsWrittenScanKeepsTrivialSplit()
    ensures ScanAsWritten(4, 15, [4], None) == Some((1, 15))
    ensures Scan(4, 15, [4], None) == None
  {
    AsWrittenAcceptsTrivialSplit();
    assert [4][1..] == [];
  }

  /**
   * What `_run_single_pass` returns or raises for one a, given the measured outcomes and
   * the denominators: gcd(a, N) != 1 is rejected, the empty multiplier table of N = 1
   * raises IndexError, and otherwise the scan decides, keeping nothing being rejected.
   */
  function PassResult(a: nat, n: nat, outcomes: seq<nat>, denominator: nat -> nat): (r: Result<(nat, nat), Error>)
    requires n >= 1
    ensures r.Success? ==> ProperSplit(n, r.value)
    ensures r.Failure? ==> r.error == AlgorithmException || r.error == IndexError
  {
    if Gcd(a, n) != 1 then Failure(AlgorithmException)
    else if n == 1 then Failure(IndexError)
    else
      var guesses := Guesses(outcomes, denominator);
      ScanSplits(a, n, guesses, None);
      match Scan(a, n, guesses, None)
      case None => Failure(AlgorithmException)
      case Some(p) => Success(p)
  }

  /**
   * What `run`'s retry loop gives over a sequence of passes: the first pass that does not
   * raise AlgorithmException decides, and when every pass raises it the choices run out.
   */
  function RunResult(n: nat, passes: seq<(nat, seq<nat>)>, denominator: nat -> nat): (r: Result<(nat, nat), Error>)
    requires n >= 1
    ensures r.Success? ==> ProperSplit(n, r.value)
    ensures r.Failure? ==> r.error == IndexError || r.error == OutOfCandidates
    decreases |passes|
  {
    if passes == [] then Failure(OutOfCandidates)
    else
      var first := PassResult(passes[0].0, n, passes[0].1, denominator);
      if first == Failure(AlgorithmException) then RunResult(n, passes[1..], denominator) else first
  }

  /** The choices run out exactly when every pass raises AlgorithmException. */
  lemma {:induction false} RunRunsOut(n: nat, passes: seq<(nat, seq<nat>)>, denominator: nat -> nat)
    requires n >= 1
    ensures RunResult(n, passes, denominator) == Failure(OutOfCandidates) <==>
      forall i :: 0 <= i < |passes| ==> PassResult(passes[i].0, n, passes[i].1, denominator) == Failure(AlgorithmException)
    decreases |passes|
  {
    if passes != [] {
      var rest := passes[1..];
      RunRunsOut(n, rest, denominator);
      assert forall i :: 1 <= i < |passes| ==> passes[i] == rest[i - 1];
      assert forall i :: 0 <= i < |rest| ==> rest[i] == passes[i + 1];
    }
  }

  /** The first pass that does not raise AlgorithmException is the result of the run. */
  lemma {:induction false} RunFirstDecides(n: nat, passes: seq<(nat, seq<nat>)>, denominator: nat -> nat, i: nat)
    requires n >= 1 && i < |passes|
    requires forall j :: 0 <= j < i ==> PassResult(passes[j].0, n, passes[j].1, denominator) == Failure(AlgorithmException)
    requires PassResult(passes[i].0, n, passes[i].1, denominator) != Failure(AlgorithmException)
    ensures RunResult(n, passes, denominator) == PassResult(passes[i].0, n, passes[i].1, denominator)
    decreases i
  {
    if i > 0 {
      var rest := passes[1..];
      assert forall j :: 0 <= j < i - 1 ==> rest[j] == passes[j + 1];
      assert PassResult(passes[0].0, n, passes[0].1, denominator) == Failure(AlgorithmException);
      assert rest[i - 1] == passes[i];
      RunFirstDecides(n, rest, denominator, i - 1);
    }
  }

  /** The reversed table of repeated squares: entry i is a^(2^(L - 1 - i)) mod N, the last is a itself. */
  ghost predicate IsMultiplierTable(a: nat, n: nat, l: nat, factors: seq<nat>)
    requires n >= 1
  {
    && |factors| == l && l >= 1
    && factors[l - 1] == a
    && forall i :: 0 <= i < l - 1 ==> factors[i] == Pow(a, Pow2(l - 1 - i)) % n
  }

  /** Every table entry is a^(2^(L - 1 - i)) modulo N. */
  lemma TableEntries(a: nat, n: nat, l: nat, factors: seq<nat>, i: nat)
    requires n >= 1 && IsMultiplierTable(a, n, l, factors) && i < l
    ensures factors[i] % n == Pow(a, Pow2(l - 1 - i)) % n
  {
    if i < l - 1 {
      ModOfMod(Pow(a, Pow2(l - 1 - i)), n);
    } else {
      assert Pow(a, Pow2(0)) == a;
    }
  }

  /** Squaring a representative of a^(2^j) mod N gives a^(2^(j + 1)) mod N. */
  lemma SquareEntry(x: nat, a: nat, j: nat, n: nat)
    requires n >= 1 && x % n == Pow(a, Pow2(j)) % n
    ensures (x * x) % n == Pow(a, Pow2(j + 1)) % n
  {
    var p := Pow(a, Pow2(j));
    ModMul(x, x, n);
    ModMul(p, p, n);
    PowPow2Step(a, j);
  }

  /** Entry j of the table before reversal: a itself, then a^(2^j) mod N. */
  function Square(a: nat, n: nat, j: nat): nat
    requires n >= 1
  {
    if j == 0 then a else Pow(a, Pow2(j)) % n
  }

  /** The step of the table loop: the square of entry j mod N is entry j + 1. */
  lemma NextSquare(x: nat, a: nat, j: nat, n: nat)
    requires n >= 1 && x == Square(a, n, j)
    ensures (x * x) % n == Square(a, n, j + 1)
  {
    if j == 0 {
      assert Pow(a, Pow2(0)) == a;
    } else {
      ModOfMod(Pow(a, Pow2(j)), n);
    }
    SquareEntry(x, a, j, n);
  }

  /** Reversing the filled table gives the multiplier table. */
  lemma SquaresReversed(a: nat, n: nat, s: seq<nat>)
    requires n >= 1 && |s| >= 1
    requires forall j :: 0 <= j < |s| ==> s[j] == Square(a, n, j)
    ensures IsMultiplierTable(a, n, |s|, Reversed(s))
  {
    var r := Reversed(s);
    forall i | 0 <= i < |s| - 1
      ensures r[i] == Pow(a, Pow2(|s| - 1 - i)) % n
    {
      assert r[i] == s[|s| - 1 - i];
    }
  }

  /** The table is empty exactly for N = 1. */
  lemma CeilLog2Zero(n: nat)
    requires n >= 1
    ensures CeilLog2(n) == 0 <==> n == 1
  {
    if CeilLog2(n) == 0 {
      assert Pow2(0) == 1;
    }
  }

  function Reversed(s: seq<nat>): (r: seq<nat>)
    ensures |r| == |s| && forall i :: 0 <= i < |s| ==> r[i] == s[|s| - 1 - i]
  {
    seq(|s|, i requires 0 <= i < |s| => s[|s| - 1 - i])
  }

  class Shor {
    const n: nat
    /** `L`, the number of phase bits, set when the circuit is built. */
    var l: Option<nat>

    constructor(n: nat)
      ensures this.n == n && l == None
    {
      this.n := n;
      l := None;
    }

    /**
     * The classical part of `_build_circuit`: n = ceil(log2 N) and L = 2n, and the table
     * of multipliers a, a^2, a^4, ... mod N, reversed. An empty table (N = 1) fails.
     */
    method BuildFactors(a: nat) returns (r: Result<seq<nat>, Error>)
      requires n >= 1
      modifies this
      ensures l == Some(2 * CeilLog2(n))
      ensures r.Failure? <==> n == 1
      ensures r.Failure? ==> r.error == IndexError
      ensures r.Success? ==> IsMultiplierTable(a, n, 2 * CeilLog2(n), r.value)
    {
      var width := CeilLog2(n);
      var size := 2 * width;
      l := Some(size);
      CeilLog2Zero(n);
      if size == 0 {
        return Failure(IndexError);
      }
      var factors := new nat[size];
      factors[0] := a;
      for bit := 1 to size
        invariant l == Some(size)
        invariant forall j :: 0 <= j < bit ==> factors[j] == Square(a, n, j)
      {
        var previous := factors[bit - 1];
        NextSquare(previous, a, bit - 1, n);
        factors[bit] := (previous * previous) % n;
      }
      SquaresReversed(a, n, factors[..]);
      r := Success(Reversed(factors[..]));
    }

    /** `_extract_guesses`: one denominator per outcome other than 0 and 1, in order. */
    method ExtractGuesses(outcomes: seq<nat>, denominator: nat -> nat) returns (guesses: seq<nat>)
      ensures guesses == Guesses(outcomes, denominator)
    {
      guesses := [];
      for i := 0 to |outcomes|
        invariant guesses == Guesses(outcomes[..i], denominator)
      {
        assert outcomes[..i + 1][..i] == outcomes[..i];
        if outcomes[i] > 1 {
          guesses := guesses + [denominator(outcomes[i])];
        }
      }
      assert outcomes[..|outcomes|] == outcomes;
    }

    /**
     * `_run_single_pass` for one choice of a, with the measured outcomes and the
     * continued-fraction denominators supplied: a gcd(a, N) != 1 is rejected before any
     * circuit; otherwise the circuit is built, setting L, and the scan decides.
     */
    method RunSinglePass(a: nat, outcomes: seq<nat>, denominator: nat -> nat) returns (r: Result<(nat, nat), Error>)
      requires n >= 1
      modifies this
      ensures r == PassResult(a, n, outcomes, denominator)
      ensures Gcd(a, n) == 1 ==> l == Some(2 * CeilLog2(n))
      ensures Gcd(a, n) != 1 ==> l == old(l)
    {
      if Gcd(a, n) != 1 {
        return Failure(AlgorithmException);
      }
      var factors := BuildFactors(a);
      if factors.Failure? {
        return Failure(IndexError);
      }
      var guesses := ExtractGuesses(outcomes, denominator);
      var result: Option<(nat, nat)> := None;
      var i := 0;
      while i < |guesses|
        invariant 0 <= i <= |guesses|
        invariant Scan(a, n, guesses[i..], result) == Scan(a, n, guesses, None)
      {
        var guess := guesses[i];
        assert guesses[i..][1..] == guesses[i + 1..];
        if Pow(a, guess) % n == 1 {
          var evaluation := EvaluateGuess(a, n, guess);
          if evaluation.Failure? {
            break;
          }
          result := Some(evaluation.value);
        }
        i := i + 1;
      }
      if result.Some? {
        r := Success(result.value);
      } else {
        r := Failure(AlgorithmException);
      }
    }

    /**
     * `run`: an even N is split as (2, N / 2) without a circuit; an odd N below 4 leaves
     * `randint(3, N - 1)` an empty range; otherwise the passes, whose choices of a lie in
     * that range, are tried in order. An AlgorithmException moves on to the next choice
     * of a; any other outcome ends the run.
     */
    method Run(passes: seq<(nat, seq<nat>)>, denominator: nat -> nat) returns (r: Result<(nat, nat), Error>)
      requires forall i :: 0 <= i < |passes| ==> 3 <= passes[i].0 < n
      modifies this
      ensures n % 2 == 0 ==> r == Success((2, n / 2)) && l == old(l)
      ensures n % 2 == 1 && n < 4 ==> r == Failure(ValueError) && l == old(l)
      ensures n % 2 == 1 && n >= 4 ==> r == RunResult(n, passes, denominator)
      ensures n % 2 == 1 ==>
        l == if exists i :: 0 <= i < |passes| && Gcd(passes[i].0, n) == 1 then Some(2 * CeilLog2(n)) else old(l)
    {
      if n % 2 == 0 {
        return Success((2, n / 2));
      }
      if n < 4 {
        return Failure(ValueError);
      }
      var i := 0;
      while i < |passes|
        invariant 0 <= i <= |passes|
        invariant RunResult(n, passes[i..], denominator) == RunResult(n, passes, denominator)
        invariant l == if exists j :: 0 <= j < i && Gcd(passes[j].0, n) == 1 then Some(2 * CeilLog2(n)) else old(l)
      {
        assert passes[i..][1..] == passes[i + 1..];
        var pass := RunSinglePass(passes[i].0, passes[i].1, denominator);
        if pass.Success? || pass.error != AlgorithmException {
          return pass;
        }
        i := i + 1;
      }
      r := Failure(OutOfCandidates);
    }
  }
}
