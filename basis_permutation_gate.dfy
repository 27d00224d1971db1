/**
 * `BasisPermutationGate`: compiles a bijection f on the basis states [0, 2^n)
 * into a list of multi-controlled bit flips via cycle decomposition and
 * transpositions.
 */
module BasisPermutation {
  import opened Bits
  import opened Wrappers

  /**
   * One X-MCX-X sandwich: toggle `bit` of the basis index when the index agrees with
   * `pattern` on every other bit. (The pattern's own `bit` plays no part; the program
   * sets it to 1 only so that the target qubit is not wrapped in X gates.)
   */
  datatype Op = Flip(pattern: nat, bit: nat)

  /** x agrees with the pattern on every bit other than `bit` exactly when x xor pattern is 0 or 2^bit. */
  function Apply(op: Op, x: nat): nat {
    var diff := Xor(x, op.pattern);
    if diff == 0 || diff == Pow2(op.bit) then Xor(x, Pow2(op.bit)) else x
  }

  /** The basis state a circuit sends x to; ops act left to right. */
  function Run(ops: seq<Op>, x: nat): nat
    decreases |ops|
  {
    if ops == [] then x else Run(ops[1..], Apply(ops[0], x))
  }

  /** The exchange of basis states a and b. */
  function Transposition(a: nat, b: nat, x: nat): nat {
    if x == a then b else if x == b then a else x
  }

  ghost predicate IsPermutation(f: nat -> nat, n: nat) {
    && (forall x: nat :: x < Pow2(n) ==> f(x) < Pow2(n))
    && (forall x: nat, y: nat :: x < Pow2(n) && y < Pow2(n) && f(x) == f(y) ==> x == y)
  }

  /** The circuit sends every basis state x < 2^n to f(x) and only touches qubits below n. */
  ghost predicate Implements(ops: seq<Op>, f: nat -> nat, n: nat) {
    && (forall x: nat :: x < Pow2(n) ==> Run(ops, x) == f(x))
    && (forall i :: 0 <= i < |ops| ==> ops[i].bit < n)
  }

  predicate Distinct(s: seq<nat>) {
    forall i, j :: 0 <= i < j < |s| ==> s[i] != s[j]
  }

  predicate Increasing(s: seq<nat>) {
    forall i, j :: 0 <= i < j < |s| ==> s[i] < s[j]
  }

  /** A cycle of f: f sends each element to the next one and the last back to the first. */
  ghost predicate IsCycle(f: nat -> nat, c: seq<nat>) {
    && |c| > 0
    && (forall i :: 0 <= i < |c| - 1 ==> f(c[i]) == c[i + 1])
    && f(c[|c| - 1]) == c[0]
  }

  function Flatten(cs: seq<seq<nat>>): seq<nat> {
    if cs == [] then [] else Flatten(cs[..|cs| - 1]) + cs[|cs| - 1]
  }

  /**
   * The cycles partition [0, size): every state is in exactly one of them, and each
   * cycle starts with the smallest state not in an earlier cycle.
   */
  ghost predicate IsCycleDecomposition(f: nat -> nat, size: nat, cycles: seq<seq<nat>>) {
    && (forall k :: 0 <= k < |cycles| ==> IsCycle(f, cycles[k]))
    && Distinct(Flatten(cycles))
    && (forall x: nat :: x in Flatten(cycles) <==> x < size)
    && MinStart(cycles)
  }

  // ---------------------------------------------------------------------------
  // Single-bit flips and basis-state swaps

  /** `_flip_single_bit_circuit(a, bit)`. */
  function FlipSingleBitCircuit(a: nat, bit: nat): (op: Op)
    ensures op.bit == bit
    ensures forall x: nat :: Apply(op, x) == Transposition(a, Xor(a, Pow2(bit)), x)
  {
    FlipExchanges(a, bit);
    Flip(a, bit)
  }

  lemma FlipExchanges(a: nat, bit: nat)
    ensures forall x: nat :: Apply(Flip(a, bit), x) == Transposition(a, Xor(a, Pow2(bit)), x)
  {
    var p := Pow2(bit);
    var b := Xor(a, p);
    XorSelf(a);
    XorZero(a);
    XorZero(p);
    XorCommutes(a, p);
    XorCancel(p, a);
    assert Xor(b, a) == p;
    XorCancel(a, p);
    assert Xor(b, p) == a;
    forall x: nat
      ensures Apply(Flip(a, bit), x) == Transposition(a, b, x)
    {
      var diff := Xor(x, a);
      if x != a && x != b {
        if diff == 0 {
          XorInjective(x, a, a);
        } else if diff == p {
          XorCancel(x, a);
          XorCommutes(p, a);
        }
      }
    }
  }

  /** A flip undoes itself. */
  lemma FlipIsInvolution(a: nat, bit: nat, x: nat)
    ensures Apply(FlipSingleBitCircuit(a, bit), Apply(FlipSingleBitCircuit(a, bit), x)) == x
  {
    var op := FlipSingleBitCircuit(a, bit);
    var b := Xor(a, Pow2(bit));
    assert Apply(op, x) == Transposition(a, b, x);
    assert Apply(op, Apply(op, x)) == Transposition(a, b, Transposition(a, b, x));
  }

  /** The ascending positions i in [lo, n) with bit i of v set (`np.where(get_bitmask(v, n) == 1)`). */
  function SetBits(v: nat, lo: nat, n: nat): seq<nat>
    decreases n - lo
  {
    if lo >= n then [] else (if Bit(v, lo) then [lo] else []) + SetBits(v, lo + 1, n)
  }

  lemma {:induction false} SetBitsFacts(v: nat, lo: nat, n: nat)
    ensures forall i: nat :: i in SetBits(v, lo, n) <==> lo <= i < n && Bit(v, i)
    ensures Increasing(SetBits(v, lo, n))
    decreases n - lo
  {
    if lo < n {
      SetBitsFacts(v, lo + 1, n);
      var rest := SetBits(v, lo + 1, n);
      assert forall i :: 0 <= i < |rest| ==> lo < rest[i] by {
        forall i | 0 <= i < |rest|
          ensures lo < rest[i]
        {
          assert rest[i] in rest;
        }
      }
    }
  }

  /** The state reached from g by toggling the bits of s one after the other. */
  function Walk(g: nat, s: seq<nat>): nat {
    if s == [] then g else Xor(Walk(g, s[..|s| - 1]), Pow2(s[|s| - 1]))
  }

  /** The flips along that walk, in order. */
  function PathOps(g: nat, s: seq<nat>): seq<Op> {
    if s == [] then []
    else PathOps(g, s[..|s| - 1]) + [FlipSingleBitCircuit(Walk(g, s[..|s| - 1]), s[|s| - 1])]
  }

  function Reverse(ops: seq<Op>): (r: seq<Op>)
    ensures |r| == |ops|
  {
    if ops == [] then [] else Reverse(ops[1..]) + [ops[0]]
  }

  lemma {:induction false} ReverseSnoc(ops: seq<Op>, op: Op)
    ensures Reverse(ops + [op]) == [op] + Reverse(ops)
  {
    if ops != [] {
      assert (ops + [op])[1..] == ops[1..] + [op];
      ReverseSnoc(ops[1..], op);
    }
  }

  lemma {:induction false} RunAppend(p: seq<Op>, q: seq<Op>, x: nat)
    ensures Run(p + q, x) == Run(q, Run(p, x))
    decreases |p|
  {
    if p == [] {
      assert p + q == q;
    } else {
      assert (p + q)[0] == p[0];
      assert (p + q)[1..] == p[1..] + q;
      RunAppend(p[1..], q, Apply(p[0], x));
    }
  }

  lemma {:induction false} PathOpsBits(g: nat, s: seq<nat>, n: nat)
    requires forall i :: 0 <= i < |s| ==> s[i] < n
    ensures forall i :: 0 <= i < |PathOps(g, s)| ==> PathOps(g, s)[i].bit < n
    ensures |PathOps(g, s)| == |s|
  {
    if s != [] {
      PathOpsBits(g, s[..|s| - 1], n);
    }
  }

  /** Bit i of the walk's end is bit i of g, toggled when i is one of the (distinct) steps. */
  lemma {:induction false} WalkBit(g: nat, s: seq<nat>, i: nat)
    requires Distinct(s)
    ensures Bit(Walk(g, s), i) == (Bit(g, i) != (i in s))
  {
    if s != [] {
      var s', d := s[..|s| - 1], s[|s| - 1];
      assert s == s' + [d];
      WalkBit(g, s', i);
      XorBit(Walk(g, s'), Pow2(d), i);
      BitPow2(d, i);
    }
  }

  /**
   * The mirrored walk: the flips along a walk, then M, then the same flips in reverse.
   * When M exchanges the walk's end with t, and t is none of the walk's states,
   * the whole exchanges the walk's start g with t.
   */
  lemma {:induction false} MirrorExchanges(g: nat, s: seq<nat>, m: seq<Op>, t: nat)
    requires forall x: nat :: Run(m, x) == Transposition(Walk(g, s), t, x)
    requires forall j :: 0 <= j <= |s| ==> Walk(g, s[..j]) != t
    ensures forall x: nat :: Run(PathOps(g, s) + m + Reverse(PathOps(g, s)), x) == Transposition(g, t, x)
  {
    if s == [] {
      assert PathOps(g, s) + m + Reverse(PathOps(g, s)) == m;
    } else {
      var s', d := s[..|s| - 1], s[|s| - 1];
      var u := Walk(g, s');
      var v := Walk(g, s);
      assert v == Xor(u, Pow2(d));
      var flip := FlipSingleBitCircuit(u, d);
      var m' := [flip] + m + [flip];
      XorPow2Changes(u, d);
      assert s[..|s'|] == s';
      assert s[..|s|] == s;
      assert u != t && v != t;
      forall x: nat
        ensures Run(m', x) == Transposition(u, t, x)
      {
        RunAppend([flip] + m, [flip], x);
        RunAppend([flip], m, x);
      }
      forall j | 0 <= j <= |s'|
        ensures Walk(g, s'[..j]) != t
      {
        assert s'[..j] == s[..j];
      }
      MirrorExchanges(g, s', m', t);
      var ops := PathOps(g, s');
      assert PathOps(g, s) == ops + [flip];
      ReverseSnoc(ops, flip);
      assert PathOps(g, s) + m + Reverse(PathOps(g, s)) == ops + m' + Reverse(ops);
    }
  }

  /** Toggling a bit changes the value. */
  lemma XorPow2Changes(u: nat, d: nat)
    ensures Xor(u, Pow2(d)) != u
  {
    BitPow2(d, d);
    XorBit(u, Pow2(d), d);
  }

  /** Every nonzero natural has a set bit. */
  lemma NonzeroHasBit(v: nat) returns (i: nat)
    requires v != 0
    ensures Bit(v, i)
  {
    if forall j: nat :: !Bit(v, j) {
      forall j: nat
        ensures Bit(v, j) == Bit(0, j)
      {
        BitZero(j);
      }
      BitsDetermine(v, 0);
    }
    i :| Bit(v, i);
  }

  // ---------------------------------------------------------------------------
  // Cycles, transpositions and their action

  /** `_permutation_cycle_get_transpositions(cycle)`: (c[k-2], c[k-1]), ..., (c[0], c[1]). */
  function Transpositions(c: seq<nat>): seq<(nat, nat)> {
    if |c| <= 1 then []
    else seq(|c| - 1, i requires 0 <= i < |c| - 1 => (c[|c| - 2 - i], c[|c| - 1 - i]))
  }

  /** Applies the transpositions one after the other. */
  function RunSwaps(ts: seq<(nat, nat)>, x: nat): nat {
    if ts == [] then x else Transposition(ts[|ts| - 1].0, ts[|ts| - 1].1, RunSwaps(ts[..|ts| - 1], x))
  }

  function IndexOf(c: seq<nat>, x: nat): (i: nat)
    requires x in c
    ensures i < |c| && c[i] == x
    ensures forall j :: 0 <= j < i ==> c[j] != x
  {
    if c[0] == x then 0 else 1 + IndexOf(c[1..], x)
  }

  /** The cyclic shift along c: each element goes to the next, the last to the first. */
  function Shift(c: seq<nat>, x: nat): nat {
    if x in c then
      var i := IndexOf(c, x);
      if i + 1 < |c| then c[i + 1] else c[0]
    else x
  }

  /** Applying the transpositions of a cycle shifts the states along the cycle. */
  lemma {:induction false} TranspositionsShift(c: seq<nat>, x: nat)
    requires Distinct(c)
    ensures RunSwaps(Transpositions(c), x) == Shift(c, x)
    decreases |c|
  {
    if |c| == 1 {
      assert Transpositions(c) == [];
    } else if |c| >= 2 {
      var c' := c[1..];
      assert Distinct(c');
      TranspositionsUnfold(c, x);
      TranspositionsShift(c', x);
      ShiftStep(c, x);
    }
  }

  /** The transpositions of c are those of its tail followed by (c[0], c[1]). */
  lemma TranspositionsUnfold(c: seq<nat>, x: nat)
    requires |c| >= 2
    ensures RunSwaps(Transpositions(c), x) == Transposition(c[0], c[1], RunSwaps(Transpositions(c[1..]), x))
  {
    var ts := Transpositions(c[1..]);
    assert Transpositions(c) == ts + [(c[0], c[1])];
    assert (ts + [(c[0], c[1])])[..|ts|] == ts;
  }

  /** Shifting along c is shifting along its tail, then exchanging c[0] and c[1]. */
  lemma ShiftStep(c: seq<nat>, x: nat)
    requires |c| >= 2 && Distinct(c)
    ensures Transposition(c[0], c[1], Shift(c[1..], x)) == Shift(c, x)
  {
    var c' := c[1..];
    if x !in c {
      assert x !in c';
    } else if x == c[0] {
      assert x !in c' by {
        forall k | 0 <= k < |c'|
          ensures c'[k] != x
        {
          assert c'[k] == c[k + 1];
        }
      }
    } else {
      var i := IndexOf(c, x);
      assert i >= 1;
      assert x in c' by {
        assert c'[i - 1] == x;
      }
      var k := IndexOf(c', x);
      assert c[k + 1] == x;
      assert k == i - 1;
      if i + 1 < |c| {
        assert Shift(c', x) == c[i + 1];
        assert c[i + 1] != c[0] && c[i + 1] != c[1];
      } else {
        assert Shift(c', x) == c[1];
      }
    }
  }


  /** The transpositions of a cycle only pair up elements of that cycle. */
  lemma TranspositionsWithin(c: seq<nat>)
    ensures forall i :: 0 <= i < |Transpositions(c)| ==>
      Transpositions(c)[i].0 in c && Transpositions(c)[i].1 in c
  {
  }

  /** The cycles' shifts applied one cycle after the other. */
  function CyclesShift(cs: seq<seq<nat>>, x: nat): nat {
    if cs == [] then x else Shift(cs[|cs| - 1], CyclesShift(cs[..|cs| - 1], x))
  }

  lemma DistinctSplit(a: seq<nat>, b: seq<nat>)
    requires Distinct(a + b)
    ensures Distinct(a) && Distinct(b)
    ensures forall x: nat :: x in a ==> x !in b
  {
    forall x: nat | x in a
      ensures x !in b
    {
      var i :| 0 <= i < |a| && a[i] == x;
      assert (a + b)[i] == a[i];
      forall j | 0 <= j < |b|
        ensures b[j] != x
      {
        assert (a + b)[|a| + j] == b[j];
      }
    }
    forall i, j | 0 <= i < j < |a|
      ensures a[i] != a[j]
    {
      assert (a + b)[i] == a[i] && (a + b)[j] == a[j];
    }
    forall i, j | 0 <= i < j < |b|
      ensures b[i] != b[j]
    {
      assert (a + b)[|a| + i] == b[i] && (a + b)[|a| + j] == b[j];
    }
  }

  lemma {:induction false} FlattenMember(cs: seq<seq<nat>>, x: nat)
    ensures x in Flatten(cs) <==> exists k :: 0 <= k < |cs| && x in cs[k]
  {
    if cs != [] {
      var cs' := cs[..|cs| - 1];
      FlattenMember(cs', x);
      if x in Flatten(cs') {
        var k :| 0 <= k < |cs'| && x in cs'[k];
        assert cs[k] == cs'[k];
      }
      if exists k :: 0 <= k < |cs| && x in cs[k] {
        var k :| 0 <= k < |cs| && x in cs[k];
        if k < |cs'| {
          assert cs'[k] == cs[k];
        }
      }
    }
  }

  /** Within a cycle, f sends an element to its successor, which is what the shift does. */
  lemma ShiftIsF(f: nat -> nat, c: seq<nat>, x: nat)
    requires IsCycle(f, c) && x in c
    ensures Shift(c, x) == f(x) && f(x) in c
  {
  }

  /** Shifting along every cycle of a decomposition is f on the states the cycles cover. */
  lemma {:induction false} CyclesShiftIsF(f: nat -> nat, cs: seq<seq<nat>>, x: nat)
    requires forall k :: 0 <= k < |cs| ==> IsCycle(f, cs[k])
    requires Distinct(Flatten(cs))
    ensures CyclesShift(cs, x) == if x in Flatten(cs) then f(x) else x
  {
    if cs != [] {
      var cs', c := cs[..|cs| - 1], cs[|cs| - 1];
      DistinctSplit(Flatten(cs'), c);
      CyclesShiftIsF(f, cs', x);
      if x in Flatten(cs') {
        FlattenMember(cs', x);
        var k :| 0 <= k < |cs'| && x in cs'[k];
        ShiftIsF(f, cs'[k], x);
        FlattenMember(cs', f(x));
      } else if x in c {
        ShiftIsF(f, c, x);
      }
    }
  }

  // ---------------------------------------------------------------------------
  // Removal from the sorted list of unvisited states (`list.remove`)

  function Remove(s: seq<nat>, v: nat): seq<nat> {
    if s == [] then []
    else if s[0] == v then s[1..]
    else [s[0]] + Remove(s[1..], v)
  }

  lemma {:induction false} RemoveFacts(s: seq<nat>, v: nat)
    requires Increasing(s)
    ensures Increasing(Remove(s, v))
    ensures forall y :: y in Remove(s, v) <==> y in s && y != v
    ensures v in s ==> |Remove(s, v)| == |s| - 1
  {
    if s != [] && s[0] != v {
      var rest := s[1..];
      RemoveFacts(rest, v);
      var r := Remove(rest, v);
      forall i | 0 <= i < |r|
        ensures s[0] < r[i]
      {
        assert r[i] in rest;
      }
    }
  }

  /**
   * The step that keeps the cycle search going: once v has been moved from the
   * unvisited list to the current cycle, f(v) either closes the cycle or is still
   * unvisited.
   */
  lemma NextIsUnvisitedOrStart(f: nat -> nat, n: nat, cycles: seq<seq<nat>>, current: seq<nat>,
                               indices: seq<nat>)
    requires IsPermutation(f, n)
    requires forall k :: 0 <= k < |cycles| ==> IsCycle(f, cycles[k])
    requires |current| > 0
    requires forall i :: 0 <= i < |current| - 1 ==> f(current[i]) == current[i + 1]
    requires Distinct(Flatten(cycles) + current)
    requires forall y: nat :: y < Pow2(n) <==> y in indices || y in Flatten(cycles) + current
    requires current[|current| - 1] < Pow2(n)
    ensures var w := f(current[|current| - 1]); w == current[0] || w in indices
  {
    var last := current[|current| - 1];
    var w := f(last);
    var visited := Flatten(cycles) + current;
    DistinctSplit(Flatten(cycles), current);
    assert last in visited;
    forall y | y in Flatten(cycles)
      ensures y < Pow2(n)
    {
      assert y in visited;
    }
    assert last in current;
    ImageOutsideCycles(f, n, cycles, last);
    forall j | 0 < j < |current|
      ensures current[j] != w
    {
      var q := current[j - 1];
      assert q in visited;
      assert q != last;
    }
  }

  /** f sends a state outside the cycles found so far to a state outside them. */
  lemma ImageOutsideCycles(f: nat -> nat, n: nat, cycles: seq<seq<nat>>, x: nat)
    requires IsPermutation(f, n)
    requires forall k :: 0 <= k < |cycles| ==> IsCycle(f, cycles[k])
    requires forall y :: y in Flatten(cycles) ==> y < Pow2(n)
    requires x < Pow2(n) && x !in Flatten(cycles)
    ensures f(x) !in Flatten(cycles)
  {
    forall k | 0 <= k < |cycles|
      ensures f(x) !in cycles[k]
    {
      var c := cycles[k];
      forall j | 0 <= j < |c|
        ensures c[j] != f(x)
      {
        var p := if j == 0 then c[|c| - 1] else c[j - 1];
        assert f(p) == c[j];
        FlattenMember(cycles, p);
      }
    }
    FlattenMember(cycles, f(x));
  }

  /** a != b differ in some bit below n, so the walk has at least one step. */
  lemma SetBitsNonempty(a: nat, b: nat, n: nat)
    requires a != b && a < Pow2(n) && b < Pow2(n)
    ensures |SetBits(Xor(a, b), 0, n)| >= 1
  {
    var v := Xor(a, b);
    SetBitsFacts(v, 0, n);
    XorBound(a, b, n);
    assert v != 0 by {
      if v == 0 {
        XorSelf(b);
        XorInjective(a, b, b);
      }
    }
    var setBit := NonzeroHasBit(v);
    if setBit >= n {
      BitAboveWidth(v, n, setBit);
    }
    assert setBit in SetBits(v, 0, n);
  }

  /** Toggling every differing bit of a and b walks from a to b. */
  lemma WalkReaches(a: nat, b: nat, n: nat)
    requires a < Pow2(n) && b < Pow2(n)
    ensures Walk(a, SetBits(Xor(a, b), 0, n)) == b
  {
    var v := Xor(a, b);
    var bits := SetBits(v, 0, n);
    SetBitsFacts(v, 0, n);
    XorBound(a, b, n);
    forall j: nat
      ensures Bit(Walk(a, bits), j) == Bit(b, j)
    {
      WalkBit(a, bits, j);
      XorBit(a, b, j);
      if j >= n {
        BitAboveWidth(v, n, j);
      }
    }
    BitsDetermine(Walk(a, bits), b);
  }

  /** A walk along distinct bits never comes back to a state it has left. */
  lemma WalkAvoidsEnd(g: nat, s: seq<nat>, j: nat)
    requires Distinct(s) && j < |s|
    ensures Walk(g, s[..j]) != Walk(g, s)
  {
    var k := s[j];
    var p := s[..j];
    assert k !in p;
    WalkBit(g, p, k);
    WalkBit(g, s, k);
  }

  /**
   * `_swap_basis_states_circuit` as a value: the walk over all but the last
   * differing bit, the last flip, then the walk's flips in reverse order.
   */
  function GrayWalkCircuit(a: nat, bits: seq<nat>): seq<Op>
    requires |bits| >= 1
  {
    var prefix := bits[..|bits| - 1];
    PathOps(a, prefix) + [FlipSingleBitCircuit(Walk(a, prefix), bits[|bits| - 1])] + Reverse(PathOps(a, prefix))
  }

  lemma GrayWalkExchanges(a: nat, b: nat, n: nat)
    requires a != b && a < Pow2(n) && b < Pow2(n)
    ensures |SetBits(Xor(a, b), 0, n)| >= 1
    ensures forall x: nat :: Run(GrayWalkCircuit(a, SetBits(Xor(a, b), 0, n)), x) == Transposition(a, b, x)
  {
    SetBitsNonempty(a, b, n);
    SetBitsFacts(Xor(a, b), 0, n);
    WalkReaches(a, b, n);
    GrayWalkOn(a, b, SetBits(Xor(a, b), 0, n));
  }

  /** The mirrored walk along distinct bits from a to b exchanges a and b. */
  lemma GrayWalkOn(a: nat, b: nat, bits: seq<nat>)
    requires |bits| >= 1 && Distinct(bits) && Walk(a, bits) == b
    ensures forall x: nat :: Run(GrayWalkCircuit(a, bits), x) == Transposition(a, b, x)
  {
    var prefix := bits[..|bits| - 1];
    var last := bits[|bits| - 1];
    var middle := [FlipSingleBitCircuit(Walk(a, prefix), last)];
    assert bits == prefix + [last];
    assert Walk(a, bits) == Xor(Walk(a, prefix), Pow2(last));
    forall j | 0 <= j <= |prefix|
      ensures Walk(a, prefix[..j]) != b
    {
      assert prefix[..j] == bits[..j];
      WalkAvoidsEnd(a, bits, j);
    }
    forall x: nat
      ensures Run(middle, x) == Transposition(Walk(a, prefix), b, x)
    {
    }
    MirrorExchanges(a, prefix, middle, b);
  }

  lemma GrayWalkBits(a: nat, b: nat, n: nat)
    requires a != b && a < Pow2(n) && b < Pow2(n)
    ensures |SetBits(Xor(a, b), 0, n)| >= 1
    ensures var qc := GrayWalkCircuit(a, SetBits(Xor(a, b), 0, n));
      forall i :: 0 <= i < |qc| ==> qc[i].bit < n
  {
    SetBitsNonempty(a, b, n);
    SetBitsFacts(Xor(a, b), 0, n);
    var bits := SetBits(Xor(a, b), 0, n);
    assert forall i :: 0 <= i < |bits| ==> bits[i] in bits;
    GrayWalkOnBits(a, bits, n);
  }

  /** Every flip of the mirrored walk acts on one of the walk's bits. */
  lemma GrayWalkOnBits(a: nat, bits: seq<nat>, n: nat)
    requires |bits| >= 1 && forall i :: 0 <= i < |bits| ==> bits[i] < n
    ensures var qc := GrayWalkCircuit(a, bits);
      forall i :: 0 <= i < |qc| ==> qc[i].bit < n
  {
    var prefix := bits[..|bits| - 1];
    var ops := PathOps(a, prefix);
    var qc := GrayWalkCircuit(a, bits);
    PathOpsBits(a, prefix, n);
    ReverseBits(ops, n);
    var last := bits[|bits| - 1];
    assert qc == ops + [FlipSingleBitCircuit(Walk(a, prefix), last)] + Reverse(ops);
    forall i | 0 <= i < |qc|
      ensures qc[i].bit < n
    {
      if i < |ops| {
        assert qc[i] == ops[i];
      } else if i > |ops| {
        assert qc[i] == Reverse(ops)[i - |ops| - 1];
      }
    }
  }

  lemma {:induction false} ReverseBits(ops: seq<Op>, n: nat)
    requires forall i :: 0 <= i < |ops| ==> ops[i].bit < n
    ensures forall i :: 0 <= i < |Reverse(ops)| ==> Reverse(ops)[i].bit < n
  {
    if ops != [] {
      ReverseBits(ops[1..], n);
    }
  }

  /** [0, size) is split between the sorted unvisited list and the distinct visited states. */
  ghost predicate Unvisited(size: nat, indices: seq<nat>, visited: seq<nat>) {
    && Increasing(indices)
    && Distinct(visited)
    && (forall y: nat :: y < size <==> y in indices || y in visited)
    && (forall y :: y in indices ==> y !in visited)
  }

  ghost predicate Chain(f: nat -> nat, current: seq<nat>) {
    forall i :: 0 <= i < |current| - 1 ==> f(current[i]) == current[i + 1]
  }

  /** Each cycle starts at or below every state of itself and of every later cycle. */
  ghost predicate MinStart(cycles: seq<seq<nat>>) {
    forall k1, k2, j :: 0 <= k1 <= k2 < |cycles| && 0 < |cycles[k1]| && 0 <= j < |cycles[k2]| ==>
      cycles[k1][0] <= cycles[k2][j]
  }

  ghost predicate StartsBelow(cycles: seq<seq<nat>>, s: seq<nat>) {
    forall k, j :: 0 <= k < |cycles| && 0 < |cycles[k]| && 0 <= j < |s| ==> cycles[k][0] <= s[j]
  }

  /** The cycle under construction starts at or below its own states and every unvisited one. */
  ghost predicate Leads(current: seq<nat>, indices: seq<nat>) {
    current != [] ==>
      && (forall j :: 0 <= j < |indices| ==> current[0] <= indices[j])
      && (forall j :: 0 <= j < |current| ==> current[0] <= current[j])
  }

  lemma LeadsFirst(indices: seq<nat>)
    requires Increasing(indices) && |indices| > 0
    ensures Leads([indices[0]], indices)
  {
  }

  lemma VisitStep(size: nat, indices: seq<nat>, visited: seq<nat>, v: nat)
    requires Unvisited(size, indices, visited) && v in indices
    ensures Unvisited(size, Remove(indices, v), visited + [v])
    ensures |Remove(indices, v)| < |indices|
  {
    RemoveFacts(indices, v);
    var visited' := visited + [v];
    forall i, j | 0 <= i < j < |visited'|
      ensures visited'[i] != visited'[j]
    {
      if j == |visited| {
        assert visited'[i] in visited;
      }
    }
  }

  lemma MinStep(cycles: seq<seq<nat>>, current: seq<nat>, indices: seq<nat>, v: nat, indices': seq<nat>)
    requires StartsBelow(cycles, indices) && StartsBelow(cycles, current) && Leads(current, indices)
    requires v in indices
    requires current == [] ==> Leads([v], indices)
    requires forall y :: y in indices' ==> y in indices
    ensures StartsBelow(cycles, current + [v]) && StartsBelow(cycles, indices')
    ensures Leads(current + [v], indices')
  {
    forall k, j | 0 <= k < |cycles| && 0 < |cycles[k]| && 0 <= j < |indices'|
      ensures cycles[k][0] <= indices'[j]
    {
      assert indices'[j] in indices;
    }
    var c := current + [v];
    forall k, j | 0 <= k < |cycles| && 0 < |cycles[k]| && 0 <= j < |c|
      ensures cycles[k][0] <= c[j]
    {
      if j == |current| {
        assert v in indices;
      }
    }
    forall j | 0 <= j < |indices'|
      ensures c[0] <= indices'[j]
    {
      assert indices'[j] in indices;
    }
  }

  lemma MinClose(cycles: seq<seq<nat>>, current: seq<nat>, indices: seq<nat>)
    requires MinStart(cycles) && StartsBelow(cycles, indices) && StartsBelow(cycles, current)
    requires Leads(current, indices) && current != []
    ensures MinStart(cycles + [current]) && StartsBelow(cycles + [current], indices)
  {
  }

  /** What holds between steps of `_permutation_get_cycles`. */
  ghost predicate SearchInv(f: nat -> nat, size: nat, indices: seq<nat>, visited: seq<nat>,
                            cycles: seq<seq<nat>>, current: seq<nat>, v: nat)
  {
    && visited == Flatten(cycles) + current
    && Unvisited(size, indices, visited)
    && (forall k :: 0 <= k < |cycles| ==> IsCycle(f, cycles[k]))
    && Chain(f, current)
    && (current != [] ==> v == f(current[|current| - 1]) && v in indices)
    && (current == [] && |indices| > 0 ==> v == indices[0])
    && MinStart(cycles) && StartsBelow(cycles, indices) && StartsBelow(cycles, current)
    && Leads(current, indices)
  }

  /** Facts shared by both outcomes of one step of the search. */
  lemma StepCommon(f: nat -> nat, n: nat, indices: seq<nat>, visited: seq<nat>,
                   cycles: seq<seq<nat>>, current: seq<nat>, v: nat)
    requires IsPermutation(f, n) && |indices| > 0
    requires SearchInv(f, Pow2(n), indices, visited, cycles, current, v)
    ensures var c := current + [v]; var r := Remove(indices, v);
      && Flatten(cycles) + c == visited + [v]
      && Unvisited(Pow2(n), r, visited + [v])
      && Chain(f, c)
      && StartsBelow(cycles, c) && StartsBelow(cycles, r) && Leads(c, r)
      && (f(v) == c[0] || f(v) in r)
      && |r| < |indices|
  {
    var c := current + [v];
    var r := Remove(indices, v);
    assert v in indices;
    if current == [] {
      LeadsFirst(indices);
    }
    VisitStep(Pow2(n), indices, visited, v);
    RemoveFacts(indices, v);
    MinStep(cycles, current, indices, v, r);
    assert Flatten(cycles) + c == visited + [v];
    assert v in visited + [v];
    NextIsUnvisitedOrStart(f, n, cycles, c, r);
  }

  /** Extending the cycle under construction keeps the search invariant. */
  lemma StepOpen(f: nat -> nat, size: nat, r: seq<nat>, visited: seq<nat>,
                 cycles: seq<seq<nat>>, c: seq<nat>)
    requires c != [] && Flatten(cycles) + c == visited
    requires Unvisited(size, r, visited)
    requires forall k :: 0 <= k < |cycles| ==> IsCycle(f, cycles[k])
    requires Chain(f, c) && f(c[|c| - 1]) in r
    requires MinStart(cycles) && StartsBelow(cycles, c) && StartsBelow(cycles, r) && Leads(c, r)
    ensures SearchInv(f, size, r, visited, cycles, c, f(c[|c| - 1]))
  {
  }

  /**
   * One step of the search: v joins the cycle under construction and leaves the unvisited
   * indices; if f(v) is where the cycle started it is closed and the next starts at the
   * smallest unvisited index.
   */
  lemma SearchStep(f: nat -> nat, n: nat, indices: seq<nat>, visited: seq<nat>,
                   cycles: seq<seq<nat>>, current: seq<nat>, v: nat)
    requires IsPermutation(f, n) && |indices| > 0
    requires SearchInv(f, Pow2(n), indices, visited, cycles, current, v)
    ensures var c := current + [v]; var r := Remove(indices, v);
      && |r| < |indices|
      && (f(v) == c[0] ==>
            SearchInv(f, Pow2(n), r, visited + [v], cycles + [c], [], if |r| > 0 then r[0] else c[0]))
      && (f(v) != c[0] ==> SearchInv(f, Pow2(n), r, visited + [v], cycles, c, f(v)))
  {
    StepCommon(f, n, indices, visited, cycles, current, v);
    var c := current + [v];
    if f(v) == c[0] {
      StepClose(f, Pow2(n), Remove(indices, v), visited + [v], cycles, c);
    } else {
      StepOpen(f, Pow2(n), Remove(indices, v), visited + [v], cycles, c);
    }
  }

  /** Closing the cycle under construction keeps the search invariant. */
  lemma StepClose(f: nat -> nat, size: nat, r: seq<nat>, visited: seq<nat>,
                  cycles: seq<seq<nat>>, c: seq<nat>)
    requires c != [] && Flatten(cycles) + c == visited
    requires Unvisited(size, r, visited)
    requires forall k :: 0 <= k < |cycles| ==> IsCycle(f, cycles[k])
    requires Chain(f, c) && f(c[|c| - 1]) == c[0]
    requires MinStart(cycles) && StartsBelow(cycles, c) && StartsBelow(cycles, r) && Leads(c, r)
    ensures SearchInv(f, size, r, visited, cycles + [c], [], if |r| > 0 then r[0] else c[0])
  {
    var cs := cycles + [c];
    assert IsCycle(f, c);
    MinClose(cycles, c, r);
    FlattenSnoc(cycles, c);
    assert Flatten(cs) + [] == visited;
    CyclesSnoc(f, cycles, c);
    assert Chain(f, []) && Leads([], r) && StartsBelow(cs, []);
  }

  lemma FlattenSnoc(cycles: seq<seq<nat>>, c: seq<nat>)
    ensures Flatten(cycles + [c]) == Flatten(cycles) + c
  {
    assert (cycles + [c])[..|cycles|] == cycles;
  }

  lemma CyclesSnoc(f: nat -> nat, cycles: seq<seq<nat>>, c: seq<nat>)
    requires forall k :: 0 <= k < |cycles| ==> IsCycle(f, cycles[k])
    requires IsCycle(f, c)
    ensures forall k :: 0 <= k < |cycles + [c]| ==> IsCycle(f, (cycles + [c])[k])
  {
    forall k | 0 <= k < |cycles + [c]|
      ensures IsCycle(f, (cycles + [c])[k])
    {
      if k < |cycles| {
        assert (cycles + [c])[k] == cycles[k];
      } else {
        assert (cycles + [c])[k] == c;
      }
    }
  }

  /** A circuit implementing f sends each basis state below 2^n to its image. */
  lemma ImplementsAt(ops: seq<Op>, f: nat -> nat, n: nat, x: nat)
    requires Implements(ops, f, n) && x < Pow2(n)
    ensures Run(ops, x) == f(x)
  {
  }

  // ---------------------------------------------------------------------------
  // The gate

  class BasisPermutationGate {
    const f: nat -> nat
    const numQubits: nat
    var gate: Option<seq<Op>>

    ghost predicate Valid()
      reads this
    {
      && IsPermutation(f, numQubits)
      && (gate.Some? ==> Implements(gate.value, f, numQubits))
    }

    /** The constructor records f and n and builds the gate at once. */
    constructor(f: nat -> nat, numQubits: nat)
      requires IsPermutation(f, numQubits)
      ensures this.f == f && this.numQubits == numQubits
      ensures Valid() && gate.Some?
    {
      this.f := f;
      this.numQubits := numQubits;
      gate := None;
      new;
      BuildGate();
    }

    /** `_permutation_get_cycles`: walk f from the smallest unvisited state until it returns. */
    method PermutationGetCycles() returns (cycles: seq<seq<nat>>)
      requires IsPermutation(f, numQubits)
      ensures IsCycleDecomposition(f, Pow2(numQubits), cycles)
    {
      var size := Pow2(numQubits);
      var indices: seq<nat> := seq(size, i requires 0 <= i < size => i);
      var current: seq<nat> := [];
      var v := indices[0];
      cycles := [];
      ghost var visited: seq<nat> := [];
      forall y: nat | y < size
        ensures y in indices
      {
        assert indices[y] == y;
      }
      while |indices| > 0
        invariant SearchInv(f, size, indices, visited, cycles, current, v)
        decreases |indices|
      {
        SearchStep(f, numQubits, indices, visited, cycles, current, v);
        current := current + [v];
        indices := Remove(indices, v);
        visited := visited + [v];
        v := f(v);
        if v == current[0] {
          cycles := cycles + [current];
          current := [];
          if |indices| > 0 {
            v := indices[0];
          }
        }
      }
      assert visited == Flatten(cycles);
    }

    /** `_swap_basis_states_circuit(a, b)`: a Gray-code walk from a to b, mirrored around its last flip. */
    method SwapBasisStatesCircuit(a: nat, b: nat) returns (qc: seq<Op>)
      requires a < Pow2(numQubits) && b < Pow2(numQubits)
      ensures forall x: nat :: Run(qc, x) == Transposition(a, b, x)
      ensures forall i :: 0 <= i < |qc| ==> qc[i].bit < numQubits
      ensures a == b ==> qc == []
    {
      qc := [];
      if a == b {
        return;
      }
      var bitsToFlip := SetBits(Xor(a, b), 0, numQubits);
      SetBitsNonempty(a, b, numQubits);
      var cur := a;
      var i := 0;
      while i < |bitsToFlip| - 1
        invariant 0 <= i <= |bitsToFlip| - 1
        invariant qc == PathOps(a, bitsToFlip[..i])
        invariant cur == Walk(a, bitsToFlip[..i])
      {
        assert bitsToFlip[..i + 1][..i] == bitsToFlip[..i];
        qc := qc + [FlipSingleBitCircuit(cur, bitsToFlip[i])];
        cur := Xor(cur, Pow2(bitsToFlip[i]));
        i := i + 1;
      }
      var reversed := Reverse(qc);
      qc := qc + [FlipSingleBitCircuit(cur, bitsToFlip[|bitsToFlip| - 1])] + reversed;
      assert qc == GrayWalkCircuit(a, bitsToFlip);
      GrayWalkExchanges(a, b, numQubits);
      GrayWalkBits(a, b, numQubits);
    }

    /** `_build_gate`: the swap circuits of every transposition of every cycle, built once. */
    method BuildGate()
      requires Valid()
      modifies this
      ensures Valid() && gate.Some?
      ensures old(gate).Some? ==> gate == old(gate)
    {
      if gate.Some? {
        return;
      }
      var qc: seq<Op> := [];
      var cycles := PermutationGetCycles();
      var k := 0;
      while k < |cycles|
        invariant 0 <= k <= |cycles|
        invariant forall x: nat :: Run(qc, x) == CyclesShift(cycles[..k], x)
        invariant forall i :: 0 <= i < |qc| ==> qc[i].bit < numQubits
      {
        FlattenDistinctPart(cycles, k);
        forall y | y in cycles[k]
          ensures y < Pow2(numQubits)
        {
          FlattenMember(cycles, y);
        }
        qc := AppendCycleSwaps(qc, cycles[k]);
        assert cycles[..k + 1][..k] == cycles[..k];
        k := k + 1;
      }
      forall x: nat | x < Pow2(numQubits)
        ensures Run(qc, x) == f(x)
      {
        assert cycles[..|cycles|] == cycles;
        CyclesShiftIsF(f, cycles, x);
      }
      gate := Some(qc);
    }

    /** The inner loop of `_build_gate`: append the swap circuit of each transposition of one cycle. */
    method AppendCycleSwaps(qc0: seq<Op>, cycle: seq<nat>) returns (qc: seq<Op>)
      requires Distinct(cycle)
      requires forall y :: y in cycle ==> y < Pow2(numQubits)
      requires forall i :: 0 <= i < |qc0| ==> qc0[i].bit < numQubits
      ensures forall x: nat :: Run(qc, x) == Shift(cycle, Run(qc0, x))
      ensures forall i :: 0 <= i < |qc| ==> qc[i].bit < numQubits
    {
      qc := qc0;
      var ts := Transpositions(cycle);
      TranspositionsWithin(cycle);
      var j := 0;
      while j < |ts|
        invariant 0 <= j <= |ts|
        invariant forall x: nat :: Run(qc, x) == RunSwaps(ts[..j], Run(qc0, x))
        invariant forall i :: 0 <= i < |qc| ==> qc[i].bit < numQubits
      {
        var swap := SwapBasisStatesCircuit(ts[j].0, ts[j].1);
        ghost var previous := qc;
        qc := qc + swap;
        forall x: nat
          ensures Run(qc, x) == RunSwaps(ts[..j + 1], Run(qc0, x))
        {
          RunAppend(previous, swap, x);
          assert ts[..j + 1][..j] == ts[..j];
        }
        j := j + 1;
      }
      forall x: nat
        ensures Run(qc, x) == Shift(cycle, Run(qc0, x))
      {
        assert ts[..|ts|] == ts;
        TranspositionsShift(cycle, Run(qc0, x));
      }
    }
  }

  lemma ReverseElements(ops: seq<Op>, i: nat)
    requires i < |ops|
    ensures Reverse(ops)[i] == ops[|ops| - 1 - i]
  {
    if i < |ops| - 1 {
      ReverseElements(ops[1..], i);
    }
  }

  lemma {:induction false} FlattenDistinctPart(cs: seq<seq<nat>>, k: nat)
    requires Distinct(Flatten(cs)) && k < |cs|
    ensures Distinct(cs[k])
  {
    var cs' := cs[..|cs| - 1];
    DistinctSplit(Flatten(cs'), cs[|cs| - 1]);
    if k < |cs'| {
      FlattenDistinctPart(cs', k);
    }
  }
}
