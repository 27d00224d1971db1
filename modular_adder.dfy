/**
 * The PhiADD(a)MOD(N) step sequence of `ModularAdditionGate`, `CCModularAdditionGate`
 * and `ModularFourierAdditionGate`. The three gates differ only in which adders are
 * conditioned on the two control qubits: `ca` for the adders of a, `cn` for the first
 * subtraction of N.
 */
module ModularAdder {
  import opened Bits
  import opened Wrappers
  import opened NumberTheory
  import opened ArithmeticCircuit

  /** Add a, subtract N, compare, add N back if the ancilla is set, subtract a, compare, add a. */
  function AdderBody(a: nat, n: nat, ca: Control, cn: Control): seq<Step> {
    [Add(a, false, ca), Add(n, true, cn)]
      + [QftInverse, CopyTop, Qft]
      + [Add(n, false, OnAncilla), Add(a, true, ca)]
      + [QftInverse, FlipTop, CopyTop, FlipTop, Qft]
      + [Add(a, false, ca)]
  }

  /** `apply_QFT` brackets a circuit by the QFT and its inverse. */
  function WithQft(applyQft: bool, body: seq<Step>): seq<Step> {
    if applyQft then [Qft] + body + [QftInverse] else body
  }

  /** The basis the working register is expected and returned in. */
  function InputBasis(applyQft: bool): Basis {
    if applyQft then Computational else Fourier
  }

  function AdderCircuit(a: nat, n: nat, applyQft: bool, ca: Control, cn: Control): seq<Step> {
    WithQft(applyQft, AdderBody(a, n, ca, cn))
  }

  /**
   * A circuit run on phi(v) and leaving phi(v') runs, once bracketed, from |v> to |v'>:
   * the bracket only adds a basis change and its inverse.
   */
  lemma WithQftEffect(width: nat, body: seq<Step>, m: Machine, r: Machine)
    requires m.basis == Fourier && Exec(width, body, m) == Some(r) && r.basis == Fourier
    ensures Exec(width, WithQft(true, body), m.(basis := Computational)) == Some(r.(basis := Computational))
    ensures Exec(width, WithQft(false, body), m) == Some(r)
  {
    var mc := m.(basis := Computational);
    ExecSingle(width, Qft, mc);
    ExecAppend(width, [Qft], body, mc);
    ExecSnoc(width, [Qft] + body, QftInverse, mc);
  }

  /**
   * Subtracting N from t < 2N sets the top bit exactly when t < N, and adding N back in
   * that case leaves t mod N.
   */
  lemma SubtractCompare(t: nat, n: nat, width: nat)
    requires n < Pow2(width) && t < 2 * n
    ensures var v2 := (t - n) % Pow2(width + 1);
      && v2 < Pow2(width + 1)
      && (Top(v2, width) <==> t < n)
      && (if Top(v2, width) then (v2 + n) % Pow2(width + 1) else v2) == t % n
  {
    var w := Pow2(width + 1);
    assert w == 2 * Pow2(width);
    var v2 := (t - n) % w;
    if t < n {
      ModWrap(t - n, w);
      ModBelow(t, n);
      ModMultiple(t, 1, w);
      assert v2 + n == t + w * 1;
      ModBelow(t, w);
    } else {
      ModBelow(t - n, w);
      DivModUnique(t, n, 1, t - n);
    }
    TopIsHigh(v2, width);
  }

  /**
   * Subtracting a from (a + b) mod N sets the top bit exactly when a + b >= N, and adding
   * a again gives (a + b) mod N back.
   */
  lemma RestoreCompare(a: nat, b: nat, n: nat, width: nat)
    requires a < n < Pow2(width) && b < n
    ensures var v4 := ((a + b) % n - a) % Pow2(width + 1);
      && v4 < Pow2(width + 1)
      && (Top(v4, width) <==> a + b >= n)
      && (v4 + a) % Pow2(width + 1) == (a + b) % n
  {
    var w := Pow2(width + 1);
    assert w == 2 * Pow2(width);
    var v4 := ((a + b) % n - a) % w;
    if a + b < n {
      ModBelow(a + b, n);
      ModBelow(b, w);
      ModBelow(b + a, w);
    } else {
      DivModUnique(a + b, n, 1, a + b - n);
      ModWrap(b - n, w);
      assert v4 + a == (a + b - n) + w * 1;
      ModMultiple(a + b - n, 1, w);
      ModBelow(a + b - n, w);
    }
    TopIsHigh(v4, width);
  }

  /** The values the body's working register and ancilla pass through, for a, b < N < 2^width. */
  lemma BodyValues(a: nat, n: nat, b: nat, width: nat, on: bool, sub: bool)
    requires a < n < Pow2(width) && b < n
    requires on ==> sub
    ensures var w := Pow2(width + 1);
      var t := if on then a + b else b;
      var v2 := if sub then (t - n) % w else t;
      var v3 := if Top(v2, width) then (v2 + n) % w else v2;
      var v4 := if on then (v3 - a) % w else v3;
      var v5 := if on then (v4 + a) % w else v4;
      && v2 < w && v4 < w
      && v5 == (if on then (a + b) % n else b)
      && (Top(v2, width) != !Top(v4, width)) == !sub
  {
    var w := Pow2(width + 1);
    TopIsHigh(b, width);
    ModBelow(b, n);
    if on {
      SubtractCompare(a + b, n, width);
      RestoreCompare(a, b, n, width);
    } else if sub {
      SubtractCompare(b, n, width);
    }
  }

  lemma ExecThen(width: nat, p: seq<Step>, q: seq<Step>, m: Machine, mid: Machine)
    requires Exec(width, p, m) == Some(mid)
    ensures Exec(width, p + q, m) == Exec(width, q, mid)
  {
    ExecAppend(width, p, q, m);
  }

  /** The adders of a and the subtraction of N, on phi(b) with a + b < 2^(width+1). */
  lemma AddSubtract(width: nat, a: nat, n: nat, ca: Control, cn: Control, m: Machine)
    requires a < n < Pow2(width) && m.working < n && m.basis == Fourier
    ensures var t := if Active(ca, m) then a + m.working else m.working;
      Exec(width, [Add(a, false, ca), Add(n, true, cn)], m) ==
        Some(m.(working := if Active(cn, m) then (t - n) % Pow2(width + 1) else t))
  {
    ExecTwo(width, Add(a, false, ca), Add(n, true, cn), m);
    if Active(ca, m) {
      ModBelow(m.working + a, Pow2(width + 1));
    }
  }

  /**
   * The body on phi(b) with the ancilla clear and a, b < N < 2^width: if the adders of a
   * are active the register ends at phi((a + b) mod N), otherwise at phi(b); the ancilla
   * ends clear exactly when the subtraction of N was active.
   */
  lemma BodyEffect(width: nat, a: nat, n: nat, ca: Control, cn: Control, m: Machine)
    requires a < n < Pow2(width) && m.working < n && m.basis == Fourier && !m.ancilla
    requires ca != OnAncilla && cn != OnAncilla
    requires Active(ca, m) ==> Active(cn, m)
    ensures Exec(width, AdderBody(a, n, ca, cn), m) ==
      Some(m.(working := if Active(ca, m) then (a + m.working) % n else m.working,
              ancilla := !Active(cn, m)))
  {
    BodyValues(a, n, m.working, width, Active(ca, m), Active(cn, m));
    BodyTrace(width, a, n, ca, cn, m);
  }

  /** The body step by step, on phi(b) with the ancilla clear and a + b below 2^(width+1). */
  lemma BodyTrace(width: nat, a: nat, n: nat, ca: Control, cn: Control, m: Machine)
    requires a < n < Pow2(width) && m.working < n && m.basis == Fourier && !m.ancilla
    requires ca != OnAncilla && cn != OnAncilla
    ensures var w := Pow2(width + 1);
      var on, sub := Active(ca, m), Active(cn, m);
      var b := m.working;
      var t := if on then a + b else b;
      var v2 := if sub then (t - n) % w else t;
      var v3 := if Top(v2, width) then (v2 + n) % w else v2;
      var v4 := if on then (v3 - a) % w else v3;
      var v5 := if on then (v4 + a) % w else v4;
      Exec(width, AdderBody(a, n, ca, cn), m) ==
        Some(m.(working := v5, ancilla := Top(v2, width) != !Top(v4, width)))
  {
    var m4 := FirstHalf(width, a, n, ca, cn, m);
    var m6 := SecondHalf(width, a, ca, m4);
    var first := [Add(a, false, ca), Add(n, true, cn)] + [QftInverse, CopyTop, Qft]
      + [Add(n, false, OnAncilla), Add(a, true, ca)];
    ExecThen(width, first, [QftInverse, FlipTop, CopyTop, FlipTop, Qft] + [Add(a, false, ca)], m, m4);
    assert AdderBody(a, n, ca, cn) == first + ([QftInverse, FlipTop, CopyTop, FlipTop, Qft] + [Add(a, false, ca)]);
  }

  /** The second comparison, clearing the ancilla by the negated top bit, then adding a. */
  lemma SecondHalf(width: nat, a: nat, ca: Control, m: Machine) returns (r: Machine)
    requires m.basis == Fourier && ca != OnAncilla
    ensures var anc := m.ancilla != !Top(m.working, width);
      r == m.(working := if Active(ca, m) then (m.working + a) % Pow2(width + 1) else m.working, ancilla := anc)
    ensures Exec(width, [QftInverse, FlipTop, CopyTop, FlipTop, Qft] + [Add(a, false, ca)], m) == Some(r)
  {
    var w := Pow2(width + 1);
    var m5 := m.(ancilla := m.ancilla != !Top(m.working, width));
    CompareNotTop(width, m);
    r := m5.(working := if Active(ca, m5) then (m5.working + a) % w else m5.working);
    ExecSingle(width, Add(a, false, ca), m5);
    ExecThen(width, [QftInverse, FlipTop, CopyTop, FlipTop, Qft], [Add(a, false, ca)], m, m5);
  }

  /** Add a, subtract N, compare, add N back if the ancilla is set, subtract a. */
  lemma FirstHalf(width: nat, a: nat, n: nat, ca: Control, cn: Control, m: Machine) returns (m4: Machine)
    requires a < n < Pow2(width) && m.working < n && m.basis == Fourier && !m.ancilla
    requires ca != OnAncilla && cn != OnAncilla
    ensures var w := Pow2(width + 1);
      var on, sub := Active(ca, m), Active(cn, m);
      var b := m.working;
      var t := if on then a + b else b;
      var v2 := if sub then (t - n) % w else t;
      var v3 := if Top(v2, width) then (v2 + n) % w else v2;
      var v4 := if on then (v3 - a) % w else v3;
      m4 == m.(working := v4, ancilla := Top(v2, width))
    ensures Exec(width, [Add(a, false, ca), Add(n, true, cn)] + [QftInverse, CopyTop, Qft]
      + [Add(n, false, OnAncilla), Add(a, true, ca)], m) == Some(m4)
  {
    var m3 := FirstThree(width, a, n, ca, cn, m);
    assert m3.controls == m.controls;
    ActiveSameControls(ca, m, m3);
    m4 := AddBackSubtract(width, a, n, ca, m3);
    ExecThen(width, [Add(a, false, ca), Add(n, true, cn)] + [QftInverse, CopyTop, Qft],
      [Add(n, false, OnAncilla), Add(a, true, ca)], m, m3);
  }

  /** Whether a step not conditioned on the ancilla fires depends on the controls only. */
  lemma ActiveSameControls(c: Control, m: Machine, m': Machine)
    requires c != OnAncilla && m.controls == m'.controls
    ensures Active(c, m) == Active(c, m')
  {
  }

  /** Add a, subtract N, and copy the top bit into the clear ancilla. */
  lemma FirstThree(width: nat, a: nat, n: nat, ca: Control, cn: Control, m: Machine) returns (m3: Machine)
    requires a < n < Pow2(width) && m.working < n && m.basis == Fourier && !m.ancilla
    ensures var w := Pow2(width + 1);
      var t := if Active(ca, m) then a + m.working else m.working;
      var v2 := if Active(cn, m) then (t - n) % w else t;
      m3 == m.(working := v2, ancilla := Top(v2, width))
    ensures Exec(width, [Add(a, false, ca), Add(n, true, cn)] + [QftInverse, CopyTop, Qft], m) == Some(m3)
  {
    var w := Pow2(width + 1);
    var t := if Active(ca, m) then a + m.working else m.working;
    var m2 := m.(working := if Active(cn, m) then (t - n) % w else t);
    AddSubtract(width, a, n, ca, cn, m);
    m3 := m2.(ancilla := m2.ancilla != Top(m2.working, width));
    CompareTop(width, m2);
    ExecThen(width, [Add(a, false, ca), Add(n, true, cn)], [QftInverse, CopyTop, Qft], m, m2);
  }

  /** Adding N back when the ancilla is set, then subtracting a. */
  lemma AddBackSubtract(width: nat, a: nat, n: nat, ca: Control, m: Machine) returns (r: Machine)
    requires m.basis == Fourier && ca != OnAncilla
    ensures var w := Pow2(width + 1);
      var v3 := if m.ancilla then (m.working + n) % w else m.working;
      r == m.(working := if Active(ca, m) then (v3 - a) % w else v3)
    ensures Exec(width, [Add(n, false, OnAncilla), Add(a, true, ca)], m) == Some(r)
  {
    var w := Pow2(width + 1);
    var v3 := if m.ancilla then (m.working + n) % w else m.working;
    r := m.(working := if Active(ca, m) then (v3 - a) % w else v3);
    ExecTwo(width, Add(n, false, OnAncilla), Add(a, true, ca), m);
  }

  /** The whole circuit, bracketed or not, on its input basis. */
  lemma AdderEffect(width: nat, a: nat, n: nat, applyQft: bool, ca: Control, cn: Control, m: Machine)
    requires a < n < Pow2(width) && m.working < n && m.basis == InputBasis(applyQft) && !m.ancilla
    requires ca != OnAncilla && cn != OnAncilla
    requires Active(ca, m) ==> Active(cn, m)
    ensures Exec(width, AdderCircuit(a, n, applyQft, ca, cn), m) ==
      Some(m.(working := if Active(ca, m) then (a + m.working) % n else m.working,
              ancilla := !Active(cn, m)))
  {
    var body := AdderBody(a, n, ca, cn);
    var r := m.(working := if Active(ca, m) then (a + m.working) % n else m.working,
                ancilla := !Active(cn, m));
    if applyQft {
      var mf := m.(basis := Fourier);
      BodyEffect(width, a, n, ca, cn, mf);
      WithQftEffect(width, body, mf, r.(basis := Fourier));
    } else {
      BodyEffect(width, a, n, ca, cn, m);
    }
  }
}
