# quantum-basics, classical core, in Dafny

This project models the classical, integer-only logic of the `quantum-basics` Python
package and proves what that logic promises. The package builds quantum circuits with
qiskit. Here every circuit is described by how it acts on computational basis states.

- **Basis-state packing** (`Utils`). `combine_basis_state` and `reduce_basis_state` split a
  basis index into a low field of `dim` bits and the rest. Both fail for `dim = 0`, and
  combine also fails when the low part is too wide. They invert each other.
- **Permutation compiler** (`BasisPermutation`). `BasisPermutationGate` turns a bijection
  f of [0, 2^n) into a list of multi-controlled bit flips (`Op.Flip(pattern, bit)`, one
  X–MCX–X sandwich). It works in three stages:
  - a cycle decomposition (a `while` loop over a shrinking index list);
  - the transpositions of each cycle;
  - for each transposition, a Gray-code walk of flips mirrored around its last flip.

  The compiled list sends every x < 2^n to f(x).
- **The permutations fed to the compiler**:
  - `AutoOracleGate`: the oracle extension (j, k) ↦ (j, k xor f(j));
  - `ModularExponentiation`: the exponentiation action (j, k) ↦ (j, k xor x^j mod M), plus
    the square-and-multiply `mod_pow` loop;
  - `AutoOracle`: the dense one-hot table, built by rows.

  For each of these the model proves involution and bijection lemmas, including when
  the map permutes n + m qubits.
- **Reversible modular arithmetic**, after Beauregard's "Circuit for Shor's algorithm using
  2n+3 qubits". `ArithmeticCircuit` gives the basis-state semantics of the steps these
  gates append:
  - the QFT and its inverse;
  - the Fourier adder PhiADD(c), as `+c mod 2^(width+1)`, possibly inverted or controlled;
  - `cx` from the top working qubit into the ancilla;
  - `x` on the top qubit.

  `ModularAdder` proves the seven-step PhiADD(a)MOD(N) sequence step by step. Built on it:
  - `ModularAdditionGate`: no controls;
  - `CCModularAdditionGate`: two controls on the adders of a;
  - `ModularFourierAdditionGate`: two controls, and the subtraction of N controlled too;
  - `CModularMultiplication`: CMULT, a `for` loop of controlled modular additions with a
    doubling factor;
  - `ModularInplaceMultiplication`: U_a, which multiplies, swaps, then un-multiplies by the
    modular inverse.
- **Classical decoding in the algorithms**:
  - `Shor`: the even-N shortcut, the gcd rejection, the table of repeated squares, guess
    extraction, the guess scan and factor evaluation;
  - `DeutschJozsa` and `Deutschjozsa`: the two copies of the count classifier, which
    inserts the all-zero key when it is missing;
  - `Simons`: count keys into a digit matrix, the rank case split, and the big-endian
    bits-to-integer step.

Classes stand for the Python classes whose fields the source assigns:
- the cached `_gate` / `num_qubits` of each gate;
- `self.gate` of `BasisPermutationGate`;
- `self.qc` of the algorithms;
- `self.L` of `Shor`;
- the counts dictionary that `_analyze_counts` mutates.

Their methods carry `modifies` clauses. Loops in the source are `while`/`for` loops here, with invariants. The methods are proved against specification predicates:
- `IsCycleDecomposition`;
- `Implements`;
- `AddsModulo`, `AddsModuloWhenControlled` and `AddsModuloLeavingAncilla`;
- `AddsProductWhenControlled`;
- `MultipliesInPlace`;
- `IsMultiplierTable`;
- `Classify`.

The lemmas beside them prove the properties of those predicates.

Inputs that the source gets from I/O, randomness or qiskit become parameters:
- the measured outcomes;
- the continued-fraction denominators;
- the sequence of choices of `a`;
- the count keys;
- the rank and back-substituted entries of Simon's elimination.

## Model

| member | source | states |
|---|---|---|
| Utils.CombineBasisState | quantum/utils.py:1-5 | fails exactly when dim = 0 (negative shift) or x >= 2^dim; otherwise returns y·2^dim + x |
| Utils.ReduceBasisState | quantum/utils.py:8-11 | fails exactly when dim = 0; otherwise returns (a mod 2^dim, a div 2^dim), with first part < 2^dim |
| Utils.ReduceAfterCombine | quantum/utils.py:1-11 | for d >= 1 and x < 2^d, reducing combine(x, y, d) gives back (x, y) |
| Utils.CombineAfterReduce | quantum/utils.py:1-11 | for d >= 1, combining the two parts of reduce(a, d) gives back a |
| Utils.CombineBound | quantum/utils.py:5 | a combined state with y < 2^e lies below 2^(d+e) |
| Utils.ReduceBound | quantum/utils.py:10 | reducing a state below 2^(d+e) leaves a high part below 2^e |
| Bits.OrShiftIsAdd | quantum/utils.py:5 | y shifted left by d and or-ed with x equals y·2^d + x when x < 2^d |
| Bits.AndMaskIsMod | quantum/utils.py:9 | `a & (2^d - 1)` equals a mod 2^d |
| Bits.XorBit | quantum/gates/basis_permutation_gate.py:74-79 | bit i of a xor b is set iff exactly one of bit i of a, of b is set |
| BasisPermutation.Apply | quantum/gates/basis_permutation_gate.py:55-67 | definition: one X–MCX–X flip on a basis state; FlipExchanges and FlipIsInvolution are about it |
| BasisPermutation.Run | quantum/gates/basis_permutation_gate.py:28-33 | definition: appended circuits act in order |
| BasisPermutation.Implements | quantum/gates/basis_permutation_gate.py:12 | definition: every x < 2^n goes to f(x) and only qubits below n are touched; BuildGate and the constructor establish it |
| BasisPermutation.FlipSingleBitCircuit | quantum/gates/basis_permutation_gate.py:55-67 | the op works on `bit` and exchanges exactly p and p xor 2^bit, fixing every other state |
| BasisPermutation.FlipExchanges | quantum/gates/basis_permutation_gate.py:55-67 | the X–MCX–X sandwich on pattern a is the transposition of a and a xor 2^bit |
| BasisPermutation.FlipIsInvolution | quantum/gates/basis_permutation_gate.py:55-67 | a single-bit flip applied twice is the identity |
| BasisPermutation.SetBitsFacts | quantum/gates/basis_permutation_gate.py:74 | the list of set bits below n is strictly increasing, each below n, and holds exactly the set bits |
| BasisPermutation.WalkReaches | quantum/gates/basis_permutation_gate.py:74-79 | toggling every bit where a and b differ walks from a to b |
| BasisPermutation.WalkAvoidsEnd | quantum/gates/basis_permutation_gate.py:76-79 | a walk along distinct bits never visits its end before the last step |
| BasisPermutation.MirrorExchanges | quantum/gates/basis_permutation_gate.py:76-85 | flips along a walk, then a swap of the walk's end with t, then the flips reversed, exchange the start with t |
| BasisPermutation.GrayWalkOn | quantum/gates/basis_permutation_gate.py:74-85 | the mirrored walk along distinct bits from a to b is the transposition of a and b |
| BasisPermutation.GrayWalkExchanges | quantum/gates/basis_permutation_gate.py:69-86 | for a != b below 2^n, the mirrored Gray walk over the differing bits exchanges a and b |
| BasisPermutation.GrayWalkBits | quantum/gates/basis_permutation_gate.py:74-85 | every flip of that walk acts on a qubit below n |
| BasisPermutation.BasisPermutationGate.SwapBasisStatesCircuit | quantum/gates/basis_permutation_gate.py:69-86 | the loop-built circuit maps a→b, b→a and fixes all else, touches only qubits below n, and is empty for a = b |
| BasisPermutation.Transpositions | quantum/gates/basis_permutation_gate.py:51-53 | definition of `_permutation_cycle_get_transpositions`; TranspositionsShift and TranspositionsWithin are about it |
| BasisPermutation.TranspositionsShift | quantum/gates/basis_permutation_gate.py:51-53 | applying (c[k-2], c[k-1]), …, (c[0], c[1]) in order shifts every element of a distinct cycle to its successor and the last to c[0] |
| BasisPermutation.TranspositionsWithin | quantum/gates/basis_permutation_gate.py:51-53 | every transposition pairs two elements of its cycle |
| BasisPermutation.IsCycleDecomposition | quantum/gates/basis_permutation_gate.py:36-49 | definition: cycles of f that partition [0, size), each starting at the smallest state not in an earlier cycle; PermutationGetCycles establishes it |
| BasisPermutation.RemoveFacts | quantum/gates/basis_permutation_gate.py:43 | `indices.remove(v)` keeps the list increasing, drops exactly v and shortens it by one |
| BasisPermutation.NextIsUnvisitedOrStart | quantum/gates/basis_permutation_gate.py:44-45 | for a bijection, f of the cycle's last element is its first element or a still-unvisited index |
| BasisPermutation.ImageOutsideCycles | quantum/gates/basis_permutation_gate.py:41-49 | f sends a state outside the cycles found so far to a state outside them |
| BasisPermutation.SearchStep | quantum/gates/basis_permutation_gate.py:41-49 | one loop step keeps the search invariant when it closes the cycle and when it extends it, and shortens the index list |
| BasisPermutation.BasisPermutationGate.PermutationGetCycles | quantum/gates/basis_permutation_gate.py:36-49 | for a bijection, the cycles partition [0, 2^n); f maps each element to the next and the last to the first; each cycle starts at the smallest unvisited index |
| BasisPermutation.CyclesShiftIsF | quantum/gates/basis_permutation_gate.py:19-34 | shifting along every cycle of a decomposition is f on the covered states |
| BasisPermutation.BasisPermutationGate.AppendCycleSwaps | quantum/gates/basis_permutation_gate.py:24-33 | appending the swap circuits of one cycle's transpositions composes the circuit with the shift along that cycle |
| BasisPermutation.BasisPermutationGate.BuildGate | quantum/gates/basis_permutation_gate.py:19-34 | builds the gate once; afterwards it sends every x < 2^n to f(x) with flips on qubits below n, and an existing gate is kept |
| BasisPermutation.BasisPermutationGate.constructor | quantum/gates/basis_permutation_gate.py:11-17 | stores f and n and leaves a gate that implements f |
| AutoOracleGate.ExtendToPermutation | quantum/gates/auto_oracle_gate.py:18-20 | definition of `f_extended_to_permutation`; ExtendAction, ExtendKeepsInput, ExtendIsInvolution and ExtendIsPermutationIff state what it does |
| AutoOracleGate.ExtendAction | quantum/gates/auto_oracle_gate.py:18-20 | the extension sends combine(j, k) to combine(j, k xor f(j)) for j < 2^n |
| AutoOracleGate.ExtendKeepsInput | quantum/gates/auto_oracle_gate.py:18-20 | the low n bits (the input j) are never changed |
| AutoOracleGate.ExtendIsInvolution | quantum/gates/auto_oracle_gate.py:18-20 | applying the extension twice gives x back |
| AutoOracleGate.ExtendBound | quantum/gates/auto_oracle_gate.py:18-20 | with f(j) < 2^m the image of a state below 2^(n+m) stays below 2^(n+m) |
| AutoOracleGate.ExtendLeavesRange | quantum/gates/auto_oracle_gate.py:18-20 | an output f(j) >= 2^m sends the state j outside 2^(n+m) |
| AutoOracleGate.ExtendIsPermutationIff | quantum/gates/auto_oracle_gate.py:18-24 | the extension permutes the basis states of n + m qubits iff every f(j) < 2^m |
| AutoOracleGate.ExtendIsPermutation | quantum/gates/auto_oracle_gate.py:18-24 | when f fits in m bits the extension meets the compiler's bijection requirement |
| AutoOracleGate.CompiledOracleActs | quantum/gates/auto_oracle_gate.py:18-24 | a circuit implementing the extension sends (j, k) to (j, k xor f(j)) |
| AutoOracleGate.AutoOracleGate.constructor | quantum/gates/auto_oracle_gate.py:15-24 | stores n and m; the permutation gate acts on n + m qubits and maps (j, k) to (j, k xor f(j)) |
| AutoOracle.Dim | quantum/oracles/auto_oracle.py:24 | `2 << (d - 1)` fails exactly for d = 0 and is 2^d otherwise |
| AutoOracle.Action | quantum/oracles/auto_oracle.py:24 | the action list has 2^n entries with action[x] = f(x), and fails for n = 0 |
| AutoOracle.Product | quantum/oracles/auto_oracle.py:33-35 | `itertools.product` yields a·b pairs |
| AutoOracle.PairAt | quantum/oracles/auto_oracle.py:33-35 | pair c, with k outer and j inner, is (c div 2^n, c mod 2^n) |
| AutoOracle.FromInt | quantum/oracles/auto_oracle.py:30-32 | `Statevector.from_int(i, dims)` fails exactly when i >= dims |
| AutoOracle.Row | quantum/oracles/auto_oracle.py:30-32 | definition: `Statevector.from_int(combine_basis_state(j, k ^ action[j], n), dims)` for one pair; RowAt characterises it |
| AutoOracle.Rows | quantum/oracles/auto_oracle.py:28-37 | definition: the list comprehension over the pairs, ended by the first row that raises |
| AutoOracle.OracleMatrix | quantum/oracles/auto_oracle.py:22-39 | definition: the table `qc.unitary` receives; OracleMatrixCharacterised and OracleMatrixSymmetric are about it |
| AutoOracle.RowAt | quantum/oracles/auto_oracle.py:28-37 | row c exists iff f(c mod 2^n) < 2^m, and is then one-hot at the extension's image of c |
| AutoOracle.TableWhenFits | quantum/oracles/auto_oracle.py:22-39 | with n, m >= 1 and f fitting in m bits, the table is built with 2^(n+m) one-hot rows |
| AutoOracle.NoTableWhenUnfit | quantum/oracles/auto_oracle.py:28-37 | an output of f wider than m bits makes the construction fail |
| AutoOracle.OracleMatrixCharacterised | quantum/oracles/auto_oracle.py:22-39 | the table is built iff n, m >= 1 and f fits in m bits; row c is then one-hot at the extension's image of c |
| AutoOracle.OracleMatrixSymmetric | quantum/oracles/auto_oracle.py:28-38 | the table is symmetric, so it is a permutation matrix of an involution |
| ModularExponentiation.Action | quantum/gates/modular_exponentiation_gate.py:9-12 | definition of the nested `action`; ActionIsExtension proves it to be the oracle extension of Residues |
| ModularExponentiation.Residues | quantum/gates/modular_exponentiation_gate.py:11 | definition: j ↦ x^j mod M, what `pow(x, j, M)` computes |
| ModularExponentiation.ActionIsExtension | quantum/gates/modular_exponentiation_gate.py:9-12 | the action is the oracle extension of j ↦ x^j mod M |
| ModularExponentiation.ActionOnPair | quantum/gates/modular_exponentiation_gate.py:9-12 | the action sends combine(j, k) to combine(j, k xor (x^j mod M)) |
| ModularExponentiation.ActionKeepsExponent | quantum/gates/modular_exponentiation_gate.py:9-12 | the exponent register j is never changed |
| ModularExponentiation.ActionIsInvolution | quantum/gates/modular_exponentiation_gate.py:9-12 | applying the action twice gives the state back |
| ModularExponentiation.SmallModulusFits | quantum/gates/modular_exponentiation_gate.py:18-21 | with M <= 2^dim_q1 every residue fits in dim_q1 bits |
| ModularExponentiation.ActionIsPermutationIff | quantum/gates/modular_exponentiation_gate.py:9-21 | the action permutes dim_q0 + dim_q1 qubits iff every x^j mod M with j < 2^dim_q0 fits in dim_q1 bits |
| ModularExponentiation.ComputesResidues | quantum/gates/modular_exponentiation_gate.py:9-12 | definition: a circuit sends (j, k) to (j, k xor x^j mod M) for every j < 2^dim_q0 and k < 2^dim_q1 |
| ModularExponentiation.CompiledActionComputesResidues | quantum/gates/modular_exponentiation_gate.py:9-21 | a circuit that implements the action on dim_q0 + dim_q1 qubits computes the residues as ComputesResidues says |
| ModularExponentiation.ModularExponentiationGate.constructor | quantum/gates/modular_exponentiation_gate.py:8-21 | stores the parameters, num_qubits = dim_q0 + dim_q1, no cached gate, and a permutation gate; establishes Valid(): the permutation's circuit maps (j, k) to (j, k xor x^j mod M) |
| ModularExponentiation.ModularExponentiationGate.GetNative | quantum/gates/modular_exponentiation_gate.py:23-27 | keeps Valid(); the returned circuit maps (j, k) to (j, k xor x^j mod M) for all j < 2^dim_q0, k < 2^dim_q1; the first call caches the permutation gate's circuit and later calls return the cached one |
| ModularExponentiation.ModPow | quantum/gates/modular_exponentiation_gate.py:29-41 | returns 0 for modulus 1, base^e mod m (< m) for m >= 2, and fails for modulus 0 |
| ModularExponentiation.ModPowStep | quantum/gates/modular_exponentiation_gate.py:35-40 | one loop round keeps result·base^exponent fixed modulo m |
| NumberTheory.PowMod | quantum/gates/modular_exponentiation_gate.py:34 | reducing the base first leaves base^e mod m unchanged |
| NumberTheory.GcdDivides | quantum/algorithms/shor.py:41 | gcd(a, b) is 0 only for a = b = 0, and otherwise divides both |
| NumberTheory.CommonDivisorDividesGcd | quantum/algorithms/shor.py:112-113 | every common divisor divides the gcd |
| NumberTheory.Bezout | quantum/gates/modular_inplace_multiplication_gate.py:38 | a·x + b·y = gcd(a, b) |
| NumberTheory.ModInverse | quantum/gates/modular_inplace_multiplication_gate.py:38 | for gcd(a, N) = 1, `pow(a, -1, N)` is below N and a·a_inv ≡ 1 (mod N) |
| NumberTheory.ModInverseUnique | quantum/gates/modular_inplace_multiplication_gate.py:38 | any inverse of a mod N is congruent to `ModInverse` |
| ArithmeticCircuit.ExecStep | quantum/gates/modular_addition_gate.py:29-63 | definition: the basis-state effect of `QFTGate`, its inverse, PhiADD(c) as +c mod 2^(width+1) on φ(v), `cx(working_reg[-1], ancilla)` and `x(working_reg[-1])`; StepKeepsRange and StepInverseUndoes are about it |
| ArithmeticCircuit.Exec | quantum/gates/modular_addition_gate.py:27-68 | definition: the appended steps run in order, stopping at an untracked state; ExecAppend, ExecKeepsRange and ExecKeepsControls are about it |
| ArithmeticCircuit.Inverse | quantum/gates/modular_addition_gate.py:42 | definition of `.inverse()`: the inverted steps in reverse order; InverseUndoes and InverseInverse are about it |
| ArithmeticCircuit.StepKeepsRange | quantum/gates/fourier_addition_gate.py:11-13 | no step takes the working value outside [0, 2^(width+1)) |
| ArithmeticCircuit.ExecKeepsRange | quantum/gates/fourier_addition_gate.py:11-13 | a whole circuit keeps the working value below 2^(width+1) |
| ArithmeticCircuit.ExecKeepsControls | quantum/gates/cc_modular_addition_gate.py:41-72 | no step changes the control qubits |
| ArithmeticCircuit.ExecAppend | quantum/gates/modular_addition_gate.py:37-68 | running p + q is running p, then q |
| ArithmeticCircuit.StepInverseUndoes | quantum/gates/modular_addition_gate.py:42 | `.inverse()` of a step undoes the step |
| ArithmeticCircuit.InverseUndoes | quantum/gates/c_modular_multiplication_gate.py:24-58 | `.inverse()` of a circuit undoes it on every tracked basis state |
| ArithmeticCircuit.InverseInverse | quantum/gates/modular_addition_gate.py:42 | inverting twice gives the circuit back |
| ArithmeticCircuit.ActiveOnTwo | quantum/gates/cc_modular_addition_gate.py:41-44 | `.control(2)` fires exactly when both control qubits are 1 |
| ArithmeticCircuit.QftPair | quantum/gates/modular_addition_gate.py:46-48 | a QFT followed by its inverse, or the reverse, is the identity |
| ArithmeticCircuit.CompareTop | quantum/gates/modular_addition_gate.py:46-48 | QFT†, cx(top, ancilla), QFT xors the 2^width bit into the ancilla and keeps φ(v) |
| ArithmeticCircuit.CompareNotTop | quantum/gates/modular_addition_gate.py:59-63 | QFT†, x, cx, x, QFT xors the negated 2^width bit into the ancilla and keeps φ(v) |
| ArithmeticCircuit.TopIsHigh | quantum/gates/modular_addition_gate.py:47 | below 2^(width+1) the top bit is set iff v >= 2^width |
| ArithmeticCircuit.FourierAdditionWithQft | quantum/gates/fourier_addition_gate.py:11-13 | for a width-bit constant a < 2^width, PhiADD(a) with apply_QFT sends b to (a+b) mod 2^(width+1) in the computational basis |
| ModularAdder.AdderBody | quantum/gates/modular_addition_gate.py:34-68 | definition: the seven PhiADD(a)MOD(N) steps in the source's order, with the controls of the a-adders and of the subtraction of N as parameters; BodyTrace and BodyEffect are about it |
| ModularAdder.AdderCircuit | quantum/gates/modular_addition_gate.py:29-72 | definition: the body, bracketed by the QFT and its inverse when `apply_QFT`; AdderEffect is about it |
| ModularAdder.SubtractCompare | quantum/gates/modular_addition_gate.py:41-53 | after subtracting N from t < 2N the top bit is set iff t < N, and the conditional re-addition of N leaves t mod N |
| ModularAdder.RestoreCompare | quantum/gates/modular_addition_gate.py:54-62 | after subtracting a from (a+b) mod N the top bit is set iff a + b < N, which clears the ancilla in the x–cx–x step |
| ModularAdder.BodyValues | quantum/gates/modular_addition_gate.py:37-68 | the working values and ancilla bits the seven steps pass through, with and without the adders of a |
| ModularAdder.FirstThree | quantum/gates/modular_addition_gate.py:37-48 | add a, subtract N and compare leave (b + a − N) mod 2^(width+1) and copy its top bit into the ancilla |
| ModularAdder.AddBackSubtract | quantum/gates/modular_addition_gate.py:50-57 | the ancilla-controlled add of N, then the subtraction of a, give the expected working value |
| ModularAdder.SecondHalf | quantum/gates/modular_addition_gate.py:59-68 | the second comparison xors the negated top bit into the ancilla, and a is added back |
| ModularAdder.FirstHalf | quantum/gates/modular_addition_gate.py:37-57 | the first five steps on φ(b), step by step |
| ModularAdder.BodyTrace | quantum/gates/modular_addition_gate.py:37-68 | the whole body on φ(b), step by step, for any controls not on the ancilla |
| ModularAdder.BodyEffect | quantum/gates/modular_addition_gate.py:37-68 | with a, b < N < 2^width and a clear ancilla: (a+b) mod N when the adders of a fire, b otherwise; the ancilla ends clear exactly when the subtraction of N fired |
| ModularAdder.WithQftEffect | quantum/gates/modular_addition_gate.py:30-32 | `apply_QFT` only brackets the body by a basis change and its inverse (also lines 70-72) |
| ModularAdder.AdderEffect | quantum/gates/modular_addition_gate.py:23-78 | for a, b < N < 2^width, the whole circuit, bracketed or not, on its input basis has the effect of `BodyEffect` |
| ModularAdditionGate.ModularAdditionCorrect | quantum/gates/modular_addition_gate.py:9-13 | for a, b < N < 2^width with the ancilla at 0: working → (a+b) mod N, ancilla back at 0 |
| ModularAdditionGate.ModularAdditionGate.constructor | quantum/gates/modular_addition_gate.py:15-21 | stores a, N, width and apply_QFT; no gate and no num_qubits yet |
| ModularAdditionGate.ModularAdditionGate.GetNative | quantum/gates/modular_addition_gate.py:23-78 | appends the seven steps once; for a, b < N < 2^width the cached circuit adds a mod N and clears the ancilla; num_qubits = width + 2 |
| CCModularAdditionGate.CCModularAdditionCorrect | quantum/gates/cc_modular_addition_gate.py:12-15 | for a, b < N < 2^width with the ancilla at 0: with both controls 1, (a+b) mod N; with either control 0, b; the ancilla ends at 0 and the controls are unchanged |
| CCModularAdditionGate.CCModularAdditionGate.constructor | quantum/gates/cc_modular_addition_gate.py:18-24 | stores a, N, width and apply_QFT; no gate yet |
| CCModularAdditionGate.CCModularAdditionGate.GetNative | quantum/gates/cc_modular_addition_gate.py:26-82 | appends the steps once, with only the adders of a controlled; the result meets `AddsModuloWhenControlled` (for a, b < N < 2^width); num_qubits = width + 4 |
| ModularFourierAdditionGate.ModularFourierAdditionAsWritten | quantum/gates/modular_fourier_addition_gate.py:39-70 | for a, b < N < 2^width with the ancilla at 0: with both controls 1, (a+b) mod N and ancilla 0; with a control 0, b and ancilla 1 |
| ModularFourierAdditionGate.ControlsOffLeaveAncillaSet | quantum/gates/modular_fourier_addition_gate.py:43-50 | a = 1, b = 1, N = 2, width = 2 with controls off ends with the ancilla at 1 |
| ModularFourierAdditionGate.ModularFourierAdditionGate.constructor | quantum/gates/modular_fourier_addition_gate.py:16-22 | stores a, N, width and apply_QFT; no gate yet |
| ModularFourierAdditionGate.ModularFourierAdditionGate.GetNative | quantum/gates/modular_fourier_addition_gate.py:24-80 | appends the steps once, the subtraction of N controlled too; meets `AddsModuloLeavingAncilla` (for a, b < N < 2^width); num_qubits = width + 4 |
| CModularMultiplication.ExecMult | quantum/gates/c_modular_multiplication_gate.py:33-52 | definition: the QFT, the adders wired to [control, x[bit]] + b + ancilla and the inverse QFT, run in order; ExecMultKeeps and InverseMultUndoes are about it |
| CModularMultiplication.ExecMultKeeps | quantum/gates/c_modular_multiplication_gate.py:44-47 | the pieces never change the control or the x register, and keep b in range |
| CModularMultiplication.InverseMultUndoes | quantum/gates/c_modular_multiplication_gate.py:24-58 | the inverse of CMULT undoes it on every tracked basis state |
| CModularMultiplication.AccumulateBit | quantum/gates/c_modular_multiplication_gate.py:36-49 | adding a·(x mod 2^(i+1)) is adding a·(x mod 2^i), then (a·2^i) mod N if bit i of x is set |
| CModularMultiplication.OpenProduct | quantum/gates/c_modular_multiplication_gate.py:32-34 | after the first QFT nothing has been added |
| CModularMultiplication.AddBit | quantum/gates/c_modular_multiplication_gate.py:37-49 | for N < 2^width, appending the adder of (a·2^i) mod N on bit i extends the partial product b + a·(x mod 2^i) by bit i |
| CModularMultiplication.CloseProduct | quantum/gates/c_modular_multiplication_gate.py:51-52 | the closing inverse QFT turns the full partial product into (b + a·x) mod N in the computational basis |
| CModularMultiplication.InverseSubtractsProduct | quantum/gates/modular_inplace_multiplication_gate.py:39-40 | for y < N < 2^width, the inverse of CMULT(a) with the control set takes b = y to (y − a·x) mod N |
| CModularMultiplication.CModularMultiplicationGate.constructor | quantum/gates/c_modular_multiplication_gate.py:17-22 | stores a, N and width; no gate yet |
| CModularMultiplication.CModularMultiplicationGate.GetNative | quantum/gates/c_modular_multiplication_gate.py:24-58 | the loop hands each adder the constant factor mod N < N, with factor = a·2^bit. For b < N < 2^width, with control 1: (x, b, 0) → (x, (b + a·x) mod N, 0). With control 0 nothing changes. num_qubits = 2·width + 3 |
| ModularInplaceMultiplication.ExecInplace | quantum/gates/modular_inplace_multiplication_gate.py:33-40 | definition: the multiplier, the swap and the inverse multiplier, run in order; MultiplyAt, SwapAt, UnmultiplyAt and InplaceCorrect are about it |
| ModularInplaceMultiplication.InverseCancels | quantum/gates/modular_inplace_multiplication_gate.py:38-40 | a_inv·((a·x) mod N) ≡ x (mod N) for x < N |
| ModularInplaceMultiplication.UndoFactor | quantum/gates/modular_inplace_multiplication_gate.py:38-40 | un-multiplying (a·x) mod N by a_inv brings the ancilla back to 0 |
| ModularInplaceMultiplication.MultiplyAt | quantum/gates/modular_inplace_multiplication_gate.py:33-34 | after the first multiplication the state is (x, (a·x) mod N, 0) |
| ModularInplaceMultiplication.SwapAt | quantum/gates/modular_inplace_multiplication_gate.py:36 | the swap exchanges working with the low ancilla qubits: ((a·x) mod N, x, 0) |
| ModularInplaceMultiplication.UnmultiplyAt | quantum/gates/modular_inplace_multiplication_gate.py:38-40 | the inverse multiplication by a_inv clears the ancillas |
| ModularInplaceMultiplication.InplaceCorrect | quantum/gates/modular_inplace_multiplication_gate.py:12-14 | for N < 2^width, multiply, swap, un-multiply takes (x, 0, 0) to ((a·x) mod N, 0, 0) for x < N |
| ModularInplaceMultiplication.ModularInplaceMultiplicationGate.Create | quantum/gates/modular_inplace_multiplication_gate.py:17-25 | rejects a >= N first, then gcd(a, N) != 1; otherwise a fresh gate with no circuit yet |
| ModularInplaceMultiplication.ModularInplaceMultiplicationGate.constructor | quantum/gates/modular_inplace_multiplication_gate.py:17-25 | requires the two assertions; stores a, N and width |
| ModularInplaceMultiplication.ModularInplaceMultiplicationGate.GetNative | quantum/gates/modular_inplace_multiplication_gate.py:27-46 | builds multiply / swap / inverse-multiply once; the result meets `MultipliesInPlace` (for N < 2^width); num_qubits = 2·width + 2 |
| Shor.CeilLog2 | quantum/algorithms/shor.py:66 | the least k with N <= 2^k |
| Shor.CeilLog2Zero | quantum/algorithms/shor.py:66-77 | the table is empty exactly for N = 1 |
| Shor.EvaluateGuessAsWritten | quantum/algorithms/shor.py:108-117 | rejects odd guesses and a^(r/2) ≡ −1; on success the two gcds multiply to N |
| Shor.AsWrittenAcceptsTrivialSplit | quantum/algorithms/shor.py:112-115 | N = 15, a = 4, guess 4 passes a^4 ≡ 1 and returns (1, 15) |
| Shor.EvaluateGuess | quantum/algorithms/shor.py:108-117 | on success returns a proper split of N (both parts in (1, N), product N) that agrees with the source's result |
| Shor.EvaluateGuessRejects | quantum/algorithms/shor.py:108-117 | the corrected evaluation fails iff the source's fails or returns gcd 1 as first part |
| Shor.Kept | quantum/algorithms/shor.py:102 | definition: the outcomes other than 0 and 1, in order; KeptMembers is about it |
| Shor.Guesses | quantum/algorithms/shor.py:100-106 | definition: one denominator per kept outcome; ExtractGuesses is proved equal to it |
| Shor.Scan | quantum/algorithms/shor.py:52-58 | definition: the guess loop with the corrected evaluation; ScanSplits, ScanStopsAtRejection and ScanKeepsLatest are about it |
| Shor.KeptMembers | quantum/algorithms/shor.py:102 | the kept outcomes are exactly those other than 0 and 1 |
| Shor.Shor.ExtractGuesses | quantum/algorithms/shor.py:100-106 | one denominator per outcome other than 0 and 1, in order |
| Shor.ScanSplits | quantum/algorithms/shor.py:53-63 | whatever the guess scan keeps is a proper split of N |
| Shor.ScanStopsAtRejection | quantum/algorithms/shor.py:53-58 | when guess i passes the a^r ≡ 1 test but its evaluation raises, the scan's result is that of the guesses before i alone: later guesses are never looked at |
| Shor.ScanKeepsLatest | quantum/algorithms/shor.py:53-55 | an accepted guess replaces whatever result was kept before it |
| Shor.ScanAsWritten | quantum/algorithms/shor.py:52-58 | definition: the same guess loop evaluating with `_evaluate_guess` as written |
| Shor.AsWrittenScanKeepsTrivialSplit | quantum/algorithms/shor.py:52-58 | for N = 15, a = 4 and the guesses [4], the loop as written keeps (1, 15) and the corrected loop keeps nothing |
| Shor.PassResult | quantum/algorithms/shor.py:38-63 | what one pass returns or raises: AlgorithmException when gcd(a, N) ≠ 1 or the scan keeps nothing, IndexError for N = 1, otherwise the kept split; a success is always a proper split and the only failures are those two |
| Shor.RunResult | quantum/algorithms/shor.py:29-36 | what the retry loop gives over the passes: the first pass not raising AlgorithmException decides, else OutOfCandidates; a success is a proper split and AlgorithmException never escapes |
| Shor.RunRunsOut | quantum/algorithms/shor.py:29-36 | both directions: the choices run out exactly when every pass raises AlgorithmException |
| Shor.RunFirstDecides | quantum/algorithms/shor.py:29-36 | if passes 0..i−1 raise AlgorithmException and pass i does not, the run's result is pass i's result |
| Shor.TableEntries | quantum/algorithms/shor.py:76-80 | every entry of the reversed table is a^(2^(L−1−i)) mod N |
| Shor.NextSquare | quantum/algorithms/shor.py:78-79 | squaring entry j mod N gives entry j + 1 |
| Shor.SquaresReversed | quantum/algorithms/shor.py:76-80 | reversing the filled table gives the multiplier table |
| Shor.Reversed | quantum/algorithms/shor.py:80 | `factors[::-1]`: same length, entry i is entry len−1−i |
| Shor.Shor.BuildFactors | quantum/algorithms/shor.py:65-80 | sets L = 2·ceil(log2 N); fails with IndexError exactly for N = 1; otherwise returns factors with last entry a and entry i = a^(2^(L−1−i)) mod N |
| Shor.Shor.RunSinglePass | quantum/algorithms/shor.py:38-63 | the result is PassResult of a, the outcomes and the denominators; L becomes 2·ceil(log2 N) when gcd(a, N) = 1 and the circuit is built, and is unchanged when the gcd test rejects |
| Shor.Shor.Run | quantum/algorithms/shor.py:22-36 | even N gives (2, N/2) with L unchanged; odd N < 4 gives ValueError from `randint(3, N - 1)`; otherwise the result is RunResult over the passes, each with a in [3, N−1]; L is 2·ceil(log2 N) if some pass has gcd(a, N) = 1, else unchanged |
| DeutschJozsa.Classify | quantum/algorithms/deutsch_jozsa.py:51-55 | definition: Constant, else Balanced, else Error; ClassifyCases characterises it |
| DeutschJozsa.CountOf | quantum/algorithms/deutsch_jozsa.py:46-52 | definition of `counts[key]`, 0 for a missing key; CountAtMostTotal and AbsentCountsZero are about it |
| DeutschJozsa.Total | quantum/algorithms/deutsch_jozsa.py:49 | definition of `sum(counts.values())` |
| DeutschJozsa.Zeros | quantum/algorithms/deutsch_jozsa.py:45 | `"0" * n` is n zeros |
| DeutschJozsa.CountAtMostTotal | quantum/algorithms/deutsch_jozsa.py:49 | no key counts more than the number of shots |
| DeutschJozsa.AbsentCountsZero | quantum/algorithms/deutsch_jozsa.py:46-47 | a missing key counts 0 |
| DeutschJozsa.AppendZeroEntry | quantum/algorithms/deutsch_jozsa.py:46-49 | inserting the key with count 0 keeps the total and every present count |
| DeutschJozsa.ClassifyCases | quantum/algorithms/deutsch_jozsa.py:51-55 | Constant iff zero count = total (empty counts included); Balanced iff zero count 0 and total > 0; Error iff 0 < zero count < total |
| DeutschJozsa.AnalyzeCounts | quantum/algorithms/deutsch_jozsa.py:44-57 | inserts the missing all-zero key with count 0 and changes nothing else; returns the classification of the original counts |
| DeutschJozsa.DeutschJozsa.BuildCircuit | quantum/algorithms/deutsch_jozsa.py:30-42 | a circuit of n + 1 qubits and n clbits, stored in qc |
| DeutschJozsa.DeutschJozsa.Run | quantum/algorithms/deutsch_jozsa.py:22-28 | builds the circuit at most once and reuses it; result and counts as `AnalyzeCounts` |
| Deutschjozsa.DeutschJozsa.BuildCircuit | quantum/algorithms/deutschjozsa.py:32-44 | a circuit of n + 1 qubits and n clbits, stored in qc |
| Deutschjozsa.DeutschJozsa.Run | quantum/algorithms/deutschjozsa.py:22-59 | builds the circuit at most once; completes and classifies the counts as the other copy does |
| Simons.DigitValue | quantum/algorithms/simons.py:62 | definition: the integer `astype(np.int8)` reads from a one-character byte string, if any |
| Simons.Convertible | quantum/algorithms/simons.py:61-62 | definition: when the byte view and the integer conversion succeed; CountsToBitmatrix fails exactly when it does not hold |
| Simons.FromBits | quantum/algorithms/simons.py:57 | definition of `int("".join(...), 2)`; FromBitsBound and FromBitsDigits are about it |
| Simons.CountsToBitmatrix | quantum/algorithms/simons.py:60-63 | fails iff the keys are not a non-empty set of equal-length digit strings; otherwise one row per key, in key order, each as long as its key, entry j the digit at j; the counts are not read |
| Simons.BinaryKeys | quantum/algorithms/simons.py:62 | on '0'/'1' keys, entry [i][j] is 1 iff character j of key i is '1', else 0 |
| Simons.ConvertsSampleKeys | test/test_simons.py:46-75 | the six sample keys convert to the expected matrix |
| Simons.FromBitsBound | quantum/algorithms/simons.py:57 | a numeral of k bits is below 2^k |
| Simons.FromBitsDigits | quantum/algorithms/simons.py:57 | bit n−1−i of the numeral is bits[i] (big-endian) |
| Simons.MaskFromRank | quantum/algorithms/simons.py:42-58 | rank < n−1 raises; rank n gives 0; rank n−1 gives an odd mask < 2^n whose big-endian bit i is solved[i] mod 2 |
| Simons.MaskOfSolvedEntries | test/test_simons.py:78-98 | entries 0, −1, 2 with the fixed last 1 give the mask 0101 = 5 |
| Simons.Simons.BuildCircuit | quantum/algorithms/simons.py:19-27 | a circuit of n + m qubits and n clbits, stored in qc |
| Simons.Simons.Run | quantum/algorithms/simons.py:29-35 | builds the circuit at most once; fails with ValueError on unconvertible keys; otherwise the rank case split |

## Left out

- qiskit itself is not modelled: circuits, `QFTGate`, `.control()`/`.inverse()` as library calls, `to_gate`, transpilation, simulation, measurement and `Statevector`. Each gate is modelled only by its action on computational basis states.
- The floating-point phase rotations of `FourierAdditionGate` are left out (quantum/gates/fourier_addition_gate.py:37-45). Only their documented effect, +a mod 2^(width+1) on φ(b), is used, and global phases are not tracked. The loop at fourier_addition_gate.py:39 reads only bits 0 to width − 1 of the constant, so that effect holds for the width-bit constants the docstrings name. Every adder and multiplier contract therefore requires a < 2^width, or a < N < 2^width.
- ArithmeticCircuit.ExecStep: PhiADD(c) adds c itself, while the source's adder adds only c mod 2^width. The two agree for c < 2^width, which is all that the contracts use. For N = 2^width, for example, the source's subtraction of N does nothing, and no contract here covers that case.
- `ArithmeticCircuit.ExecStep`: the QFT is an abstract basis change, so the model does not track qiskit's bit order inside the QFT. A `cx` or `x` on a register in the Fourier basis is treated as leaving the tracked states (`None`).
- `get_bitmask`, `split_state`, `unitary_from_action_on_basis` and `lower_triangular_form` come from `quantum/utils.py` and are not modelled. The only property used is that bit i of an index stands for 2^i, as `a ^= 2**bit` shows.
- Simons.Run: Gaussian elimination (`lower_triangular_form`) and the floating-point back-substitution are not modelled. So `Run` takes the rank and the back-substituted entries, already truncated to integers, as inputs.
- `randint` and the unbounded `while True` retry of `Shor.run` are not modelled. Shor.Shor.Run instead tries a supplied finite sequence of passes, each with a in [3, N − 1] as `randint(3, N - 1)` draws it, and fails with `OutOfCandidates` when it runs out, where the source keeps drawing. For odd N < 4 that range is empty and the model returns the `ValueError` that `randint` raises.
- Shor.Shor.RunSinglePass: the guess loop uses the corrected evaluation (see Findings). So it rejects a trivial split (1, N) that the source's pass returns, as for N = 15, a = 4 and the guesses [4]. `ScanAsWritten` models the loop as written.
- Shor.Shor.Run: through RunSinglePass it also rejects the trivial splits that the source returns, and moves on to the next a instead.
- `Fraction.limit_denominator` over a float phase is not modelled; the denominators are a supplied function of the outcome.
- The phase-estimation circuit of `_build_circuit` (`rz`, `if_test`, `reset`, shor.py:82-96) is not modelled, nor is the `print` at shor.py:43.
- Shor.Shor.Run: `int(N / 2)` is computed in floating point. The model uses exact N / 2, which differs from the source only for N above 2^53.
- Shor.CeilLog2: `np.log2` is a float function; the model uses the exact ceiling of log2 N.
- Shor.Shor.BuildFactors: `np.empty(..., dtype=int)` holds int64, so the square `factors[bit - 1] * factors[bit - 1]` wraps around in the source once N exceeds about 3·10^9. The model uses unbounded integers.
- `quantum/algorithms/deutsch.py` is pure circuit assembly and is not modelled. `quantum/gates/__init__.py` is import wiring and is not modelled either.
- `AdditionGate` (quantum/gates/addition_gate.py) and `CModularInplaceMultiplicationGate` are imported by the gates package (quantum/gates/__init__.py:3, 8-10). `ModularMultiplicationGate` is imported by modular_inplace_multiplication_gate.py:5. None of the three is modelled.
- `AdditionGate`, which `ModularAdditionGate` uses (modular_addition_gate.py:5, 34-35), is given the documented effect of `FourierAdditionGate`: +c mod 2^(width+1) on φ(b). That is an assumption, since its source is not part of this model. The in-place gate's multiplier is modelled as CMULT with its control held at 1.
- `BasisPermutationGate.get_native` is called by `ModularExponentiationGate.get_native` but is absent from the class, which exposes `.gate`. ModularExponentiation.ModularExponentiationGate.GetNative returns that `.gate`.
- AutoOracleGate.AutoOracleGate.constructor requires n >= 1. For n = 0 the source raises ValueError inside `BasisPermutationGate(...)` (auto_oracle_gate.py:24), because the cycle search calls the extension and `2 << (n - 1)` is a negative shift (quantum/utils.py:2, 9). The model does not return that error. `AutoOracleGate.ExtendToPermutation` requires n >= 1 for the same reason.
- AutoOracleGate.AutoOracleGate.constructor requires f to fit in m bits. Without that, the extension is not a bijection of the n + m qubits, which the docstring at basis_permutation_gate.py:12 demands. `ExtendIsPermutationIff` proves this requirement necessary.
- ModularExponentiation.ModularExponentiationGate.constructor requires dim_q0 >= 1 and M >= 1. For dim_q0 = 0 the source raises ValueError through the shift `2 << (dim_q0 - 1)` (quantum/utils.py:2, 9), and for M = 0 through `pow(x, j, 0)` (modular_exponentiation_gate.py:11). Both errors are raised inside `BasisPermutationGate(...)` (modular_exponentiation_gate.py:21), and the model does not return either. `ModularExponentiation.Action` has the same requirements.
- ModularExponentiation.ModularExponentiationGate.constructor requires every x^j mod M to fit in dim_q1 bits, for the same reason; `ActionIsPermutationIff` proves this requirement necessary.
- CModularMultiplication.CModularMultiplicationGate.GetNative requires N >= 1, because `factor % self.N` raises for N = 0.
- The circuit contents of Deutsch–Jozsa and Simon (Hadamards, the oracle, measurement) are not modelled; only the register sizes and the memoization are.
- The `numpy` byte-string view in Simons.CountsToBitmatrix is modelled for keys of equal length; keys of unequal length are modelled as a failure.

## Findings

| source | as written | input that shows it | evidently intended | confidence | as-written member | corrected member |
|---|---|---|---|---|---|---|
| quantum/gates/modular_fourier_addition_gate.py:43-46 | the subtraction of N is controlled on the two controls, so with a control off nothing is added or subtracted. The first comparison (lines 48-50) then copies the top bit 0 and leaves the ancilla 0, but the negated comparison x–cx–x (lines 61-64) sets it to 1, and nothing clears it | a = 1, b = 1, N = 2, width = 2, both controls 0: working stays 1 but the ancilla ends at 1 | the ancilla returns to 0 in every control case, as in `CCModularAdditionGate`, whose subtraction of N is uncontrolled (cc_modular_addition_gate.py:45-48) | not executed | ModularFourierAdditionGate.ControlsOffLeaveAncillaSet | CCModularAdditionGate.CCModularAdditionCorrect |
| quantum/algorithms/shor.py:112-115 | `_evaluate_guess` accepts any pair with d1·d2 = N, including the trivial split (1, N) | N = 15, a = 4, guess = 4: 4^4 ≡ 1 (mod 15), 4^2 + 1 = 17 ≢ 0, gcd(17, 15) = 1 and gcd(15, 15) = 15, so (1, 15) is returned | only proper factors are returned: a trivial split is rejected, which ends the guess loop through the `break` at shor.py:57-58 and moves `run` on to another a | not executed | Shor.AsWrittenAcceptsTrivialSplit | Shor.EvaluateGuess |

`CModularMultiplication` builds on the corrected adder, `CCModularAdditionGate`, as the source's CMULT does. `Shor.Scan`, `Shor.PassResult`, `Shor.RunResult` and the methods of `Shor.Shor` use `Shor.EvaluateGuess`. `Shor.ScanAsWritten` is the guess loop with the evaluation as written, and `Shor.AsWrittenScanKeepsTrivialSplit` shows the two loops differ on the input above.
