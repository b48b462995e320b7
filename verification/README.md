# A model of the private-transfer stack

The repository implements a private payment system: a client wallet selects
notes and prepares the input of a Groth16 circuit, a generated runtime computes
the circuit's witness over the BN254 scalar field, and a pallet is meant to
check the proof. This project models the parts with real algorithms in them and
proves what they are for.

1. **The field runtime.** Limbs are 64-bit words with explicit carries; every
   `adcx`/`adox` chain is executed word by word and proved against naturals,
   and the tag dispatch over the four element representations is proved against
   Z/q. Elements and limb buffers are objects, so aliasing of destination and
   operand is part of every contract.
   That q is prime, on which inversion and the binding of Merkle paths rest, is
   proved by a certificate.
   `Words`, `Modulus`, `RawField`, `Montgomery`, `Elements`, `Arithmetic`,
   `Multiplication`, `Comparison`, `Bits`, `Shift`, `TaggedShift`,
   `TaggedBitwise`, `FieldRuntime`, `Primality`, `ModulusPrime`, `Inverses`.
2. **The circuit and what feeds it.** The hash functions are arbitrary
   functions of field elements; nothing is assumed about them, and binding is
   stated as extraction of a collision.
   `Merkle`, `Authenticity`, `Transaction`, `CircuitAdapter`, `Prover`.
3. **The wallet.** Coin selection is proved optimal, and a whole transfer
   conserves value. `Sums`, `Notes`, `Transfer`.
4. **The witness runtime.** Signal lookup by linear probing, the
   input-assignment machine over whole runs, flattening against positions, the
   loading of a whole input, and the two writers of the witness file.
   `InputTable`, `InputMachine`, `Flatten`, `PositionText`, `Loading`,
   `WordArrays`, `WordBuffers`, `WitnessFile`, `WitnessReader`.

`Wrappers` and `Products` hold shared result types and laws of multiplication.

An element *denotes* a residue modulo q: a short its value, a long normal
element its limbs, a long Montgomery element its limbs times 2^−256. A property
that holds for "every representation" is stated about that residue.

Where the code departs from what one would expect, the model follows the code
and the exact condition is proved:

- addition and subtraction write the destination's tag, or its limbs, before
  they have read every operand; the aliases that break are characterised, and
  everything else may alias (`Arithmetic.Add`, `Arithmetic.Sub`);
- the bitwise operations also tag first; the aliases that read stale limbs and
  the contents for which they are harmless are characterised, for one operand
  and for both (`TaggedBitwise.Combine`, `TaggedBitwise.StaleOperandHarmless`,
  `TaggedBitwise.StalePairRight`);
- short multiplication falls through to the long case (`Multiplication.MulShorts`);
- conversion from a negative integer that does not fit 32 bits loses the sign
  (`FieldRuntime.FromInteger`);
- the circuit does not constrain path selectors to bits: openings bind
  exactly where no selector is 1/2, and prove membership exactly where all are
  bits (`Merkle.BindingExactly`, `Authenticity.AuthenticExactly`);
- the circuit bounds no amount, so outputs can wrap around q;
  q/4 is the exact bound for four notes (`Transaction.FourNotesConserve`);
- the adapter pads with literal zeros where the circuit requires hashes, so a
  transfer with fewer than four inputs or outputs satisfies the circuit only for
  hashes that map zeros to zero (`CircuitAdapter.PreparedSatisfiesCircuit`,
  `Transfer.TransferSatisfiesCircuit`);
- the prover hashes a nullifier's arguments in the opposite order from the
  circuit, does not check commitments, and recognises a missing amount by its
  spelling (`Prover`);
- every report of inclusion rewrites the wallet again
  (`Transfer.ReportsConserve`);
- the statistics count unspent notes with a null leaf index as spendable, the
  selection does not (`Notes.BalancesAgree`);
- hash 0 is mistaken for an empty slot (`InputTable.LookupMisses`,
  `Loading.FitsExactly`), and a circuit without inputs runs for the empty input
  only (`Loading.LoadRuns`);
- the JavaScript writer cuts an unpadded hexadecimal string into words, which
  is right only below 2^32 (`WitnessFile.LengthsAgree`).

## Model

| member | source | states |
|---|---|---|
| Modulus.ConstantsAgree | parachain/pallets/zk_privacy/src/circom/circuit_cpp/fr.asm:8784-8793 | the stored q, q/2, R2 and R3 are what the algebra needs: q = 2·half + 1, R2 = R² mod q, R3 = R³ mod q for R = 2^256 |
| Modulus.RedcToMont | parachain/pallets/zk_privacy/src/circom/circuit_cpp/fr.asm:950-964 | reducing the Montgomery form of any integer gives its residue: the two forms are mutually inverse |
| Modulus.ToMontRedc | parachain/pallets/zk_privacy/src/circom/circuit_cpp/fr.asm:950-964 | the Montgomery form of a reduced value is the value modulo q |
| Modulus.RedcInjective | parachain/pallets/zk_privacy/src/circom/circuit_cpp/fr.asm:8213-8253 | x ↦ x·R⁻¹ is one-to-one on residues, so elements may be compared in Montgomery form |
| Modulus.RedcProduct | parachain/pallets/zk_privacy/src/circom/circuit_cpp/fr.asm:365-532 | the Montgomery product of two forms denotes the product of what they denote |
| Modulus.RedcRestoredByR3 | parachain/pallets/zk_privacy/src/circom/circuit_cpp/fr.asm:2631-2652 | a product of two normal operands becomes a Montgomery form by one more product with R³ |
| Words.LimbsUnique | parachain/pallets/zk_privacy/src/circom/circuit_cpp/fr.asm:8236-8265 | four limbs hold one number in exactly one way, so limb equality is value equality |
| RawField.RawAdd | parachain/pallets/zk_privacy/src/circom/circuit_cpp/fr.asm:1445-1510 | for any limbs: the 256-bit sum with at most one subtraction of q; the carry-out and the limb comparison take the same branch as the number |
| RawField.RawAddLS | parachain/pallets/zk_privacy/src/circom/circuit_cpp/fr.asm:1522-1580 | the same for a long plus an unsigned word |
| RawField.RawSub | parachain/pallets/zk_privacy/src/circom/circuit_cpp/fr.asm:2054-2091 | for any limbs: the difference, with q added back once on a borrow |
| RawField.RawSubLS | parachain/pallets/zk_privacy/src/circom/circuit_cpp/fr.asm:1948-1986 | the same for a long minus a word |
| RawField.RawSubSL | parachain/pallets/zk_privacy/src/circom/circuit_cpp/fr.asm:2002-2038 | the same for a word minus a long |
| RawField.RawNegLS | parachain/pallets/zk_privacy/src/circom/circuit_cpp/fr.asm:2106-2163 | q − s − a with one correction; when the destination is the operand the first stores destroy it and the result is 0 |
| RawField.RawNeg | parachain/pallets/zk_privacy/src/circom/circuit_cpp/fr.asm:2226-2290 | 0 for 0, otherwise q − a |
| RawField.RawIsZero | parachain/pallets/zk_privacy/src/circom/circuit_cpp/fr.asm:8422-8445 | true exactly for the value 0 |
| RawField.CanonicalArithmetic | parachain/pallets/zk_privacy/src/circom/circuit_cpp/fr.asm:1445-1510 | on canonical operands the raw sum, difference and negation are those of Z/q |
| Montgomery.LowLimbClears | parachain/pallets/zk_privacy/src/circom/circuit_cpp/fr.asm:385-389 | the multiplier m = t·np mod 2^64 makes the lowest limb of t + m·q zero, for every t |
| Montgomery.RowBound | parachain/pallets/zk_privacy/src/circom/circuit_cpp/fr.asm:403-435 | an accumulator below b + q leaves room for one more row and one more reduction, so no carry leaves the fifth limb |
| Montgomery.AccumulatorBound | parachain/pallets/zk_privacy/src/circom/circuit_cpp/fr.asm:374-503 | every round keeps the accumulator below b + q |
| Montgomery.RoundsCompose | parachain/pallets/zk_privacy/src/circom/circuit_cpp/fr.asm:374-503 | four rounds, each an exact division by 2^64, give a·b·2^−256 modulo q |
| Montgomery.FirstRow | parachain/pallets/zk_privacy/src/circom/circuit_cpp/fr.asm:374-384 | the interleaved chain of round 0 holds exactly x·b in five limbs, with no carry out |
| Montgomery.AccumulateRow | parachain/pallets/zk_privacy/src/circom/circuit_cpp/fr.asm:403-418 | the two interleaved chains of a later round add exactly x·b to the accumulator; both end with clear flags |
| Montgomery.ReduceRow | parachain/pallets/zk_privacy/src/circom/circuit_cpp/fr.asm:385-401 | one reduction step: result·2^64 = t + m·q exactly, for the m the code computes; both chains end with clear flags |
| Montgomery.StoreReduced | parachain/pallets/zk_privacy/src/circom/circuit_cpp/fr.asm:505-527 | one conditional subtraction is enough below 2q |
| Montgomery.RawMMul | parachain/pallets/zk_privacy/src/circom/circuit_cpp/fr.asm:365-532 | for every a < 2^256 and every b < q, in any aliasing, the stored limbs are the canonical a·b·2^−256 mod q |
| Montgomery.RawMSquare | parachain/pallets/zk_privacy/src/circom/circuit_cpp/fr.asm:533-700 | the same value as the product of a with itself |
| Montgomery.RawMMul1 | parachain/pallets/zk_privacy/src/circom/circuit_cpp/fr.asm:701-823 | the same value as the product with the word as a long |
| Montgomery.RawFromMontgomery | parachain/pallets/zk_privacy/src/circom/circuit_cpp/fr.asm:824-940 | for every four limbs, canonical or not: the canonical a·2^−256 mod q |
| Montgomery.RawToMontgomery | parachain/pallets/zk_privacy/src/circom/circuit_cpp/fr.asm:950-955 | for every four limbs: the canonical a·2^256 mod q |
| Elements.MontgomeryLimbs | parachain/pallets/zk_privacy/src/circom/circuit_cpp/fr.hpp:12-30 | a well-formed element of either Montgomery kind carries the canonical Montgomery form of what it denotes |
| Elements.CopyIntToLong | parachain/pallets/zk_privacy/src/circom/circuit_cpp/fr.asm:227-270 | a signed 64-bit integer becomes its canonical residue, q being added to a negative one through the carry chain |
| Elements.ToMontgomery | parachain/pallets/zk_privacy/src/circom/circuit_cpp/fr.asm:966-1018 | keeps the denoted value, whatever the representation; the result has Montgomery limbs |
| Elements.ToNormal | parachain/pallets/zk_privacy/src/circom/circuit_cpp/fr.asm:1027-1050 | keeps the denoted value; only a long Montgomery element changes |
| Elements.ToLongNormal | parachain/pallets/zk_privacy/src/circom/circuit_cpp/fr.asm:1058-1094 | keeps the denoted value and produces canonical normal limbs from every representation |
| Arithmetic.Add | parachain/pallets/zk_privacy/src/circom/circuit_cpp/fr.asm:1110-1428 | for all sixteen pairs of representations the sum in Z/q, 32-bit overflow and negative shorts included, in any aliasing except one; there (an operand that needs conversion is the destination and the other is long Montgomery) the operand is read through the new tag, and the contract gives the limbs that come out |
| Arithmetic.AddShorts | parachain/pallets/zk_privacy/src/circom/circuit_cpp/fr.asm:1122-1147 | the short sum stays short exactly when it fits 32 signed bits; either way it denotes the sum |
| Arithmetic.Sub | parachain/pallets/zk_privacy/src/circom/circuit_cpp/fr.asm:1607-1933 | the same for the difference, with a second failing alias: a negative short minus a long normal destination gives 0 |
| Arithmetic.Neg | parachain/pallets/zk_privacy/src/circom/circuit_cpp/fr.asm:2180-2211 | the negation in Z/q in every representation, the most negative short included |
| Arithmetic.RetaggedSumRight | parachain/pallets/zk_privacy/src/circom/circuit_cpp/fr.asm:1192-1215 | for every stale content of the limbs: the retagged alias gives the canonical form of the right sum if and only if the stale limbs are congruent to the operand's Montgomery form and the unreduced sum is below 2q |
| Arithmetic.RetaggedSubtrahendRight | parachain/pallets/zk_privacy/src/circom/circuit_cpp/fr.asm:1685-1715 | the same for a retagged subtrahend: congruent, and at most q more than the minuend |
| Arithmetic.RetaggedMinuendRight | parachain/pallets/zk_privacy/src/circom/circuit_cpp/fr.asm:1780-1840 | the same for a retagged minuend: congruent, and less than q more than the subtrahend |
| Arithmetic.OverwrittenSubtrahendRight | parachain/pallets/zk_privacy/src/circom/circuit_cpp/fr.asm:1741-1778 | the overwritten subtrahend gives the right difference if and only if the operands were equal |
| Arithmetic.AliasedSumExample | parachain/pallets/zk_privacy/src/circom/circuit_cpp/fr.asm:1192-1215 | a concrete destination aliasing for which 0 + 1 comes out as 0 |
| Arithmetic.AliasedDifferenceExample | parachain/pallets/zk_privacy/src/circom/circuit_cpp/fr.asm:1685-1715 | a concrete retagged alias for which 0 − 1 comes out as 0 |
| Arithmetic.OverwrittenSubtrahendExample | parachain/pallets/zk_privacy/src/circom/circuit_cpp/fr.asm:1741-1778 | a concrete overwritten subtrahend for which −1 − 0 comes out as 0 |
| Multiplication.Mul | parachain/pallets/zk_privacy/src/circom/circuit_cpp/fr.asm:2379-2697 | for all sixteen pairs, in any aliasing, the product in Z/q, and which kind of element carries it |
| Multiplication.MulShorts | parachain/pallets/zk_privacy/src/circom/circuit_cpp/fr.asm:2387-2406 | two shorts: the branch for products that fit 32 bits falls through into the overflow branch, so the result is always long, and right |
| Multiplication.MulLongByShort | parachain/pallets/zk_privacy/src/circom/circuit_cpp/fr.asm:2418-2502 | a long times a short by its magnitude, negated for a negative short |
| Multiplication.LimbProduct | parachain/pallets/zk_privacy/src/circom/circuit_cpp/fr.asm:2628-2697 | what a Montgomery product of two limb values denotes, for each combination of forms |
| Multiplication.Square | parachain/pallets/zk_privacy/src/circom/circuit_cpp/fr.asm:2303-2363 | the square in Z/q in every representation |
| Comparison.SignedOrder | parachain/pallets/zk_privacy/src/circom/circuit_cpp/fr.asm:7606-7703 | the signed reading is one-to-one into −half … half, so the comparisons are a total order on residues |
| Comparison.SignedGreater | parachain/pallets/zk_privacy/src/circom/circuit_cpp/fr.asm:7606-7740 | signs first, then limbs: exactly the order of the signed readings |
| Comparison.LimbsEqual | parachain/pallets/zk_privacy/src/circom/circuit_cpp/fr.asm:8236-8265 | limb equality decides equality of values, both directions |
| Comparison.Greater | parachain/pallets/zk_privacy/src/circom/circuit_cpp/fr.asm:7421-7740 | decides signed(a) > signed(b) across all pairs of representations |
| Comparison.Less | parachain/pallets/zk_privacy/src/circom/circuit_cpp/fr.asm:7762-8080 | decides signed(a) < signed(b) across all pairs of representations |
| Comparison.Equal | parachain/pallets/zk_privacy/src/circom/circuit_cpp/fr.asm:8097-8265 | decides equality of the denoted residues across all pairs, comparing Montgomery forms where one operand has one |
| Comparison.Gt | parachain/pallets/zk_privacy/src/circom/circuit_cpp/fr.asm:8283-8297 | stores 1 exactly when greater, 0 otherwise |
| Comparison.Lt | parachain/pallets/zk_privacy/src/circom/circuit_cpp/fr.asm:8299-8313 | stores 1 exactly when less |
| Comparison.Geq | parachain/pallets/zk_privacy/src/circom/circuit_cpp/fr.asm:8348-8362 | stores 1 exactly when not less |
| Comparison.Leq | parachain/pallets/zk_privacy/src/circom/circuit_cpp/fr.asm:8365-8379 | stores 1 exactly when not greater |
| Comparison.Eq | parachain/pallets/zk_privacy/src/circom/circuit_cpp/fr.asm:8315-8329 | stores 1 exactly when equal |
| Comparison.Neq | parachain/pallets/zk_privacy/src/circom/circuit_cpp/fr.asm:8331-8345 | stores 1 exactly when different |
| Comparison.Trichotomy | parachain/pallets/zk_privacy/src/circom/circuit_cpp/fr.asm:8283-8329 | of the three stored answers exactly one is 1, whatever the representations |
| Shift.Funnel | parachain/pallets/zk_privacy/src/circom/circuit_cpp/fr.asm:6573-6582 | the shift-and-or of two neighbouring limbs joins the high bits of one with the low bits of the other |
| Shift.RawShr | parachain/pallets/zk_privacy/src/circom/circuit_cpp/fr.asm:6545-6732 | floor(a / 2^n) for every n, across limb boundaries, aligned or not |
| Shift.RawShl | parachain/pallets/zk_privacy/src/circom/circuit_cpp/fr.asm:6745-7051 | ((a·2^n) mod 2^254) mod q for every n |
| Shift.ShlLosses | parachain/pallets/zk_privacy/src/circom/circuit_cpp/fr.asm:6745-6953 | whole-limb and funnelled bits together are the low 256 bits of a·2^n |
| Shift.ShrCombines | parachain/pallets/zk_privacy/src/circom/circuit_cpp/fr.asm:6545-6687 | the four funnelled limbs are the quotient by 2^n |
| TaggedShift.DecodeCount | parachain/pallets/zk_privacy/src/circom/circuit_cpp/fr.asm:7069-7165 | a count is in range exactly when its signed reading is between −254 and 254, in every representation, and is then that reading |
| TaggedShift.Shl | parachain/pallets/zk_privacy/src/circom/circuit_cpp/fr.asm:7169-7400 | for a signed count c the result is ((v·2^c) mod 2^254) mod q, or v / 2^−c for a negative one; every representation of both operands |
| TaggedShift.Shr | parachain/pallets/zk_privacy/src/circom/circuit_cpp/fr.asm:7069-7400 | for a signed count c the result is v / 2^c, or ((v·2^−c) mod 2^254) mod q for a negative one |
| TaggedShift.FarShift | parachain/pallets/zk_privacy/src/circom/circuit_cpp/fr.asm:7069-7400 | counts of 254 or more in either direction leave nothing, so cutting them off changes no result |
| TaggedShift.ShiftRoundTrip | parachain/pallets/zk_privacy/src/circom/circuit_cpp/fr.asm:7069-7404 | a left shift that loses no bits is undone by the right shift |
| TaggedShift.RightShiftsCompose | parachain/pallets/zk_privacy/src/circom/circuit_cpp/fr.asm:6545-6732 | right shifts compose by adding their counts |
| TaggedBitwise.Combine | parachain/pallets/zk_privacy/src/circom/circuit_cpp/fr.asm:2728-6400 | and, or and xor of the denoted residues, bit by bit, reduced modulo q, for all pairs of representations and every aliasing except one; there (the destination is an operand that still has to be converted when it is tagged) the operand's stale limbs take its place, and the contract gives the result |
| TaggedBitwise.StaleOperandHarmless | parachain/pallets/zk_privacy/src/circom/circuit_cpp/fr.asm:2728-6400 | one operand read through the new tag gives the right result beside every canonical other operand if and only if its low 254 bits are its residue, for each of the three operations |
| TaggedBitwise.StalePairRight | parachain/pallets/zk_privacy/src/circom/circuit_cpp/fr.asm:2728-6400 | if both operands are the destination and both are read so, xor is always right, and and or are right if and only if the low 254 bits denote the residue |
| TaggedBitwise.AliasedOrExample | parachain/pallets/zk_privacy/src/circom/circuit_cpp/fr.asm:3957-5184 | a concrete destination aliasing for which 0 or −1 comes out as 0 |
| TaggedBitwise.LimbwiseValue | parachain/pallets/zk_privacy/src/circom/circuit_cpp/fr.asm:3584-3640 | combining limb by limb combines the numbers bit by bit |
| TaggedBitwise.CombinationFits | parachain/pallets/zk_privacy/src/circom/circuit_cpp/fr.asm:3584-3640 | a combination of two residues has 254 bits, so the mask loses nothing |
| TaggedBitwise.AndOrXor | parachain/pallets/zk_privacy/src/circom/circuit_cpp/fr.asm:2728-6400 | a and b plus a or b is a + b, and a xor b plus twice a and b is a + b |
| TaggedBitwise.BitOfResult | parachain/pallets/zk_privacy/src/circom/circuit_cpp/fr.asm:2728-6400 | bit k of a result is decided by bits k of the operands: both for and, either for or, exactly one for xor |
| TaggedBitwise.Not | parachain/pallets/zk_privacy/src/circom/circuit_cpp/fr.asm:6415-6530 | every one of the 254 bits flipped, i.e. (2^254 − 1 − residue) mod q, in every representation; when the destination is an operand that is not long normal, the same of the low 254 bits of its stale limbs |
| TaggedBitwise.ComplementFlips | parachain/pallets/zk_privacy/src/circom/circuit_cpp/fr.asm:6465-6483 | the complement is the exclusive or with 254 ones, which is the difference from 2^254 − 1, reduced modulo q |
| TaggedBitwise.StaleComplementRight | parachain/pallets/zk_privacy/src/circom/circuit_cpp/fr.asm:6415-6530 | that complement is right if and only if the low 254 bits of the stale limbs denote the residue |
| TaggedBitwise.AliasedNotExample | parachain/pallets/zk_privacy/src/circom/circuit_cpp/fr.asm:6415-6530 | a concrete destination aliasing for which the complement of 1 comes out as that of 0 |
| TaggedBitwise.ComplementInvolution | parachain/pallets/zk_privacy/src/circom/circuit_cpp/fr.asm:6415-6530 | complementing twice gives the residue back, the reduction notwithstanding |
| FieldRuntime.Exp | parachain/pallets/zk_privacy/src/circom/circuit_cpp/fr.cpp:255-275 | the Montgomery form of base^k, k the little-endian value of the bytes, for every length, all-zero included; the destination may be the base |
| FieldRuntime.AboveIsLittleEndian | parachain/pallets/zk_privacy/src/circom/circuit_cpp/fr.cpp:255-260 | the bits the loop reads, from the top, are those of the little-endian number |
| FieldRuntime.PowerAdd | parachain/pallets/zk_privacy/src/circom/circuit_cpp/fr.cpp:260-271 | exponents add: the reference power the loop is proved against |
| FieldRuntime.FirstPower | parachain/pallets/zk_privacy/src/circom/circuit_cpp/fr.cpp:255-275 | the powers start at 1 and x |
| FieldRuntime.LittleEndianAppend | parachain/pallets/zk_privacy/src/circom/circuit_cpp/fr.cpp:255-260 | what follows n bytes of the exponent weighs 256^n times as much, and one byte is itself |
| FieldRuntime.ToInteger | parachain/pallets/zk_privacy/src/circom/circuit_cpp/fr.cpp:17-28 | the denoted residue as an integer, in every representation |
| FieldRuntime.FromInteger | parachain/pallets/zk_privacy/src/circom/circuit_cpp/fr.cpp:30-39 | an element denoting the integer, short exactly when it fits 32 signed bits; a negative integer that does not fit loses its sign, as mpz_export writes magnitudes |
| FieldRuntime.SignLost | parachain/pallets/zk_privacy/src/circom/circuit_cpp/fr.cpp:30-39 | losing the sign is always wrong: the magnitude of a negative integer is never its residue |
| Primality.CertifiedPrime | parachain/pallets/zk_privacy/src/circom/circuit_cpp/fr.asm:8787 | a number is prime if an element of known order beats its square root, the order being a product of primes none of which can be left out |
| ModulusPrime.ModulusIsPrime | parachain/pallets/zk_privacy/src/circom/circuit_cpp/fr.asm:8787 | q is prime, by such a certificate, down to primes found by sieving |
| Inverses.InvertibleExactly | parachain/pallets/zk_privacy/src/circom/circuit_cpp/fr.cpp:235-247 | a number has an inverse modulo q if and only if q does not divide it |
| Inverses.NoZeroDivisors | parachain/pallets/zk_privacy/src/circom/circuit_cpp/fr.asm:8787 | a product vanishes modulo q only if a factor does |
| FieldRuntime.InverseByR3 | parachain/pallets/zk_privacy/src/circom/circuit_cpp/fr.cpp:235-247 | inverting the limbs of a form and multiplying by R³ gives the form of the inverse |
| FieldRuntime.RawInv | parachain/pallets/zk_privacy/src/circom/circuit_cpp/fr.cpp:235-247 | for the form of every a other than 0, in any four limbs, canonical or not, the result is a form whose product with it is 1 modulo q |
| FieldRuntime.RawDiv | parachain/pallets/zk_privacy/src/circom/circuit_cpp/fr.cpp:249-253 | the quotient times the divisor is the dividend, on Montgomery forms, for every divisor other than 0 |
| FieldRuntime.Inv | parachain/pallets/zk_privacy/src/circom/circuit_cpp/fr.cpp:146-157 | for every residue other than 0, in every representation, the result times the operand is 1 modulo q |
| FieldRuntime.Div | parachain/pallets/zk_privacy/src/circom/circuit_cpp/fr.cpp:159-163 | the quotient times the divisor is the dividend, in every representation, for every divisor other than 0 |
| FieldRuntime.QuotientUnique | parachain/pallets/zk_privacy/src/circom/circuit_cpp/fr.cpp:159-253 | there is only one such quotient, so the tagged and the raw division agree |
| Merkle.TemplateComputesRoot | parachain/pallets/zk_privacy/src/circom/circuit.circom:8-37 | any intermediate signals that satisfy the template's constraints give the path's root |
| Merkle.TemplateSatisfiable | parachain/pallets/zk_privacy/src/circom/circuit.circom:8-37 | such signals always exist |
| Merkle.OneLevel | parachain/pallets/zk_privacy/src/circom/circuit.circom:20-36 | one level of the template for any selector: the two hash inputs are leaf + s·(sibling − leaf) and sibling + s·(leaf − sibling) |
| Merkle.MuxInjective | parachain/pallets/zk_privacy/src/circom/circuit.circom:20-29 | the multiplexer's two outputs determine its two inputs for every field element as selector except 1/2 |
| Merkle.CrossBinding | client/utils/prover.ts:59-74 | two different openings leading to one root with the same selectors, each under a hash of its own, yield a computed level where two different pairs have one digest |
| Merkle.Binding | parachain/pallets/zk_privacy/src/circom/circuit.circom:8-37 | two different openings (leaf or path) of one root with the same selectors, none of them 1/2, yield a computed level where two distinct pairs hash alike; any hash, any depth, selectors that are not bits included |
| Merkle.BindingExactly | parachain/pallets/zk_privacy/src/circom/circuit.circom:8-37 | openings with given selectors are binding for every hash if and only if no selector is 1/2 |
| Merkle.FailingOpening | parachain/pallets/zk_privacy/src/circom/circuit.circom:8-37 | wherever 1/2 occurs, leaves 0 and 1 open the same root without a collision, the hash being addition |
| Merkle.MiddleForgets | parachain/pallets/zk_privacy/src/circom/circuit.circom:20-29 | with the selector 1/2 every leaf has a sibling that makes the hashed pair any (m, m), whatever the hash |
| Authenticity.Membership | parachain/pallets/zk_privacy/src/circom/circuit.circom:8-37 | with boolean selectors an opening of a full tree's root is that of the leaf at the position they spell, path included, or it collides with the tree's own pair at a computed level |
| Authenticity.AuthenticExactly | parachain/pallets/zk_privacy/src/circom/circuit.circom:8-37 | the circuit does not ask for bits: openings with given selectors are of leaves in the tree, or meet a collision, for every hash if and only if all the selectors are bits |
| Authenticity.ForeignLeaf | parachain/pallets/zk_privacy/src/circom/circuit.circom:20-29 | they fail to be so for every hash if and only if the lowest selector is not a bit, whatever the others are |
| Authenticity.ForeignOpening | parachain/pallets/zk_privacy/src/circom/circuit.circom:20-29 | wherever a selector is not a bit, a leaf that is not in a full tree opens its root without a collision, under every hash that gives equal arguments back, and at the lowest level under every hash |
| Merkle.Completeness | parachain/pallets/zk_privacy/src/circom/circuit.circom:20-36 | in a full tree of any depth the sibling path of leaf k, with the bits of k low first, leads to the root |
| Merkle.HighestBit | client/utils/prover.ts:63-71 | the bits read low first by repeated halving also split off high first |
| Merkle.VerifyMerkleProof | client/utils/prover.ts:59-74 | the client's loop accepts if and only if hashing upwards, the sibling on the right of an even index and on the left of an odd one, the index being halved, ends at the root, which is when the circuit's template outputs it for the bits of the index |
| Transaction.Check | parachain/pallets/zk_privacy/src/circom/circuit.circom:40-122 | the template's two loops with their running sums decide the whole constraint system |
| Transaction.SatisfiesMeans | parachain/pallets/zk_privacy/src/circom/circuit.circom:60-122 | the constraint system written out: nullifiers, paths to the root, output commitments with the order of their arguments, and the balance modulo q |
| Transaction.OutputsCanWrap | parachain/pallets/zk_privacy/src/circom/circuit.circom:97-121 | the circuit bounds no amount: from any satisfying assignment with an output of 0 there is another, differing in two output amounts and their commitments only, whose outputs are worth q more |
| Transaction.ConservesValue | parachain/pallets/zk_privacy/src/circom/circuit.circom:97-124 | a satisfying assignment conserves value over the integers whenever both sums stay below q, for any number of notes |
| Transaction.FourNotesConserve | parachain/pallets/zk_privacy/src/circom/circuit.circom:97-124 | for all hashes, depths and bounds B below q: the satisfying assignments with four notes a side and amounts up to B all conserve value over the integers if and only if 4·B is below q |
| Transaction.ConservesExactly | parachain/pallets/zk_privacy/src/circom/circuit.circom:97-124 | the same for any numbers of notes with at least as many outputs as inputs, the outputs deciding |
| Transaction.Minting | parachain/pallets/zk_privacy/src/circom/circuit.circom:40-122 | if amounts up to the bound can reach q, an assignment satisfies the circuit whose inputs are worth nothing and whose outputs are worth q, whatever the hashes and the depth |
| Transaction.SmallAmounts | parachain/pallets/zk_privacy/src/circom/circuit.circom:97-124 | four amounts below q/4 have such a sum |
| Transaction.SamePositionSameNote | parachain/pallets/zk_privacy/src/circom/circuit.circom:72-99 | two inputs, of one or two satisfying assignments of any sizes, that spend at one position of one tree, none of its selectors being 1/2, spend the same note with the same nullifier, or two different notes have one commitment, or a collision on the paths is computed |
| CircuitAdapter.PadArray | client/utils/zk/circuit-adapter.ts:31-37 | the given entries, then the default up to the size; never shortens |
| CircuitAdapter.PrepareCircuitInput | client/utils/zk/circuit-adapter.ts:43-181 | each error occurs exactly when its check is the first to fail; otherwise every field of an input or output slot is that of its note, every output commitment the hash of amount, secret and recipient, and the unpadded nullifiers and commitments are returned too |
| CircuitAdapter.PreparedInputs | client/utils/zk/circuit-adapter.ts:74-165 | the input half of the prepared value, slot by slot: fields, path, nullifier of the carried or computed commitment, and zeros in the free slots; the root is that of the first proof |
| CircuitAdapter.PreparedOutputs | client/utils/zk/circuit-adapter.ts:83-169 | the output half, slot by slot: fields, commitment, and zeros in the free slots |
| CircuitAdapter.ValidateCircuitInput | client/utils/zk/circuit-adapter.ts:186-245 | every error occurs exactly when its field is missing or its length is wrong, one for each path of wrong length, and there is none exactly when nothing is missing and the shapes hold |
| CircuitAdapter.PreparedPassesShapeChecks | client/utils/zk/circuit-adapter.ts:137-181 | a prepared input passes validation if and only if every given path has depth 20 |
| CircuitAdapter.PreparedSatisfiesCircuit | client/utils/zk/circuit-adapter.ts:43-181 | with valid proofs for one root, the prepared input satisfies every circuit constraint if and only if the padded slots do, i.e. unconditionally for four inputs and four outputs, and otherwise only where the literal zeros are hashes |
| CircuitAdapter.PreparedBalance | client/utils/zk/circuit-adapter.ts:60-65 | the integer balance the adapter checked is the field balance the circuit sees |
| Prover.GenerateTransferProof | client/utils/prover.ts:103-162 | accepts exactly when initialised, non-empty (a public amount spelled neither empty nor 0 stands in for outputs), every path opens and the values balance with the public amount; gives each nullifier as the hash of secret and commitment and each commitment as that of value, secret and recipient; says which check failed |
| Prover.GenerateWithdrawProof | client/utils/prover.ts:171-177 | accepts exactly when the value is spelled neither empty nor 0 and the path opens, and then publishes the root, one nullifier, no commitment, and the value as spelled |
| Prover.ZeroWithdrawalExample | client/utils/prover.ts:103-117 | a withdrawal of nothing is refused when spelled 0 and accepted when spelled 00 |
| Prover.AcceptedMeetsCircuit | client/utils/prover.ts:122-162 | the prover hashes with functions of its own: what it accepts satisfies the circuit if and only if the public amount is 0 modulo q and the hashes agree on every nullifier, path and output commitment |
| Prover.SwappedNullifiers | client/utils/prover.ts:85-88 | even with one pair of hashes and matching commitments that is so only where the nullifier hash does not depend on the order of its two arguments (prover and circuit use opposite orders) |
| Prover.WrongCommitmentCollides | client/utils/prover.ts:132-137 | the prover never compares a commitment with its note; if the circuit accepts such a note nevertheless, a level is computed where two different pairs have one digest, one under each hash |
| Notes.SortDescending | client/utils/zk/notes.ts:118-123 | descending, and a permutation |
| Notes.SortStable | client/utils/zk/notes.ts:118-123 | notes of one amount keep their order |
| Notes.SpendableExactly | client/utils/zk/notes.ts:106-124 | every stored note that is unspent and has an index is selectable as often as it is stored, and nothing else is |
| Notes.SpendableNotes | client/utils/zk/notes.ts:106-124 | exactly the unspent notes with a leaf index, largest first |
| Notes.MinimumCutsTail | client/utils/zk/notes.ts:113-123 | the optional minimum amount cuts off a tail of that list and keeps the rest in order |
| Notes.SelectNotes | client/utils/zk/notes.ts:221-266 | fails for an empty list, or when no prefix of the sorted notes within the allowed number reaches the target; otherwise returns the shortest prefix whose amounts do, with their sum and the change |
| Notes.LargestPrefix | client/utils/zk/notes.ts:118-123 | no choice of k notes is worth more than the k largest |
| Notes.FailureMeansImpossible | client/utils/zk/notes.ts:252-257 | for non-negative amounts and a positive target, failure means no choice within the limit reaches the target |
| Notes.SelectionIsOptimal | client/utils/zk/notes.ts:238-266 | the selection covers the target with the fewest possible notes, and the change is less than the last note picked |
| Notes.SelectionUnique | client/utils/zk/notes.ts:238-266 | there is only one selection that meets the description |
| Notes.NoteStore.MarkNotesSpent | client/utils/zk/notes.ts:137-152 | afterwards exactly the notes that were selectable and are not named can be selected |
| Notes.NoteStore.AddReceivedNotes | client/utils/zk/notes.ts:157-162 | every total, over whatever class of notes, grows by that of the new notes |
| Notes.NoteStore.UpdateNoteLeafIndex | client/utils/zk/notes.ts:167-174 | the unspent notes with the commitment become selectable and the unspent total is kept |
| Notes.IndexedTotals | client/utils/zk/notes.ts:167-215 | indexing moves exactly the pending notes with the commitment to the spendable balance of the statistics |
| Notes.RunKeepsHistory | client/utils/zk/notes.ts:137-174 | over every run of the three updates no note is lost or altered and no spent note becomes unspent |
| Notes.NeverSelectedAgain | client/utils/zk/notes.ts:106-174 | over every run, a commitment once marked is never selectable again unless an unspent note with it is received |
| Notes.TotalBalance | client/utils/zk/notes.ts:129-132 | the balance, summed over the sorted list, is the sum over the stored spendable notes |
| Notes.BalancesAgree | client/utils/zk/notes.ts:195-215 | the statistics' balance exceeds the spendable one by exactly the unspent notes whose index is null; spendable and pending together are all unspent notes |
| Transfer.SelectionPassesChecks | client/utils/blockchain.ts:108-151 | whenever selection succeeds, for any amount, the payment and change pass every count and balance check of preparation |
| Transfer.ExecutePrivateTransfer | client/utils/blockchain.ts:94-233 | for every sequence of chain reports: a completed transfer pays the amount to the recipient and returns a positive change to the payer, both under fresh secrets, unspent and without index, and its circuit input carries exactly the fields of the selected and the new notes; preparation never fails after selection, validation fails only for a selected note's path of wrong depth, the result is settled by the first inclusion or dispatch error, and past the proof the store is changed by every inclusion and nothing else |
| Transfer.OutputNotes | client/utils/blockchain.ts:118-126 | the payment first, then the change exactly if there is one, with their owners, secrets and commitments |
| Transfer.HandleReports | client/utils/blockchain.ts:189-229 | the callback as a loop over the reports: it changes the store once per inclusion, marking and appending in this order, and the first report that is an inclusion or a dispatch error settles the promise |
| Transfer.StoredAfterReports | client/utils/blockchain.ts:206-221 | after any positive number of inclusions exactly the stored notes with a selected commitment are spent |
| Transfer.CopiesAfterReports | client/utils/blockchain.ts:206-221 | behind them are as many copies of the outputs as inclusions, all but the last marked like the stored notes |
| Transfer.ReportsConserve | client/utils/blockchain.ts:206-221 | the callback has no guard: after n reports of inclusion the unspent total has grown by n − 1 times the selected total, so it is kept if and only if there was one report or that total is 0 |
| Transfer.TransferSatisfiesCircuit | client/utils/blockchain.ts:118-151 | a transfer makes at most two outputs, so its input satisfies the circuit if and only if the hash of three zeros is zero (and, below four inputs, the zero path leads to the root) |
| Transfer.TransferConserves | client/utils/blockchain.ts:206-221 | with distinct commitments an included transfer keeps the sum of unspent notes and moves exactly the selected total from spendable to pending |
| Transfer.NamedAreSelected | client/utils/zk/notes.ts:137-152 | with distinct commitments the notes marked spent are the notes selected |
| Transfer.MarkedTotal | client/utils/zk/notes.ts:137-152 | with or without duplicates, marking removes from any class of unspent notes exactly what is named |
| InputTable.InsertKeepsProbed | parachain/pallets/zk_privacy/src/circom/circuit_cpp/calcwit.cpp:51-69 | probing insertion of a new hash keeps the invariant the lookup relies on |
| InputTable.BuildIsProbed | parachain/pallets/zk_privacy/src/circom/circuit_cpp/calcwit.cpp:51-69 | a table built by probing insertion of distinct hashes satisfies that invariant and loses no entry |
| InputTable.GetInputSignalHashPosition | parachain/pallets/zk_privacy/src/circom/circuit_cpp/calcwit.cpp:51-69 | going round from slot h mod n, the first slot with the hash is returned, every slot passed after the first being occupied; nothing is returned only if an empty slot lies before every slot with the hash |
| InputTable.LookupMeans | parachain/pallets/zk_privacy/src/circom/circuit_cpp/calcwit.cpp:51-69 | the same of the specified scan |
| InputTable.LookupFinds | parachain/pallets/zk_privacy/src/circom/circuit_cpp/calcwit.cpp:51-69 | on a probed table a stored hash is found in its one slot |
| InputTable.LookupMisses | parachain/pallets/zk_privacy/src/circom/circuit_cpp/calcwit.cpp:51-69 | an absent hash is reported missing if and only if it is not 0 or no slot is empty: hash 0 is mistaken for an empty slot |
| InputTable.HashZeroExample | parachain/pallets/zk_privacy/src/circom/circuit_cpp/calcwit.cpp:51-69 | a concrete table that does not hold hash 0 and in which it is found |
| InputTable.BuiltTableLookup | parachain/pallets/zk_privacy/src/circom/circuit_cpp/calcwit.cpp:51-69 | looking up a built table finds every entry, and no other non-zero hash |
| InputMachine.CalcWit.constructor | parachain/pallets/zk_privacy/src/circom/circuit_cpp/calcwit.cpp:26-45 | nothing assigned, the counter at the number of inputs, the constant signal set |
| InputMachine.CalcWit.TryRunCircuit | parachain/pallets/zk_privacy/src/circom/circuit_cpp/calcwit.cpp:71-75 | runs the circuit exactly when every input signal has been assigned, although it looks at the counter only |
| InputMachine.CalcWit.SetInputSignal | parachain/pallets/zk_privacy/src/circom/circuit_cpp/calcwit.cpp:77-97 | each error occurs exactly when its check is the first to fail and changes nothing; on success element i of the signal holds the value, its flag is set, the counter is one less, and the circuit is run exactly if it became 0 |
| InputMachine.TargetMeans | parachain/pallets/zk_privacy/src/circom/circuit_cpp/calcwit.cpp:83-88 | a call addresses element i of the signal its hash finds |
| InputMachine.StepKeepsConsistent | parachain/pallets/zk_privacy/src/circom/circuit_cpp/calcwit.cpp:93-95 | the counter is the number of unassigned flags, before and after |
| InputMachine.RunsExactlyOnce | parachain/pallets/zk_privacy/src/circom/circuit_cpp/calcwit.cpp:71-97 | over any run of successful calls the circuit has run once if there were as many calls as inputs, and not at all otherwise or without calls |
| InputMachine.SucceedsWhenDistinct | parachain/pallets/zk_privacy/src/circom/circuit_cpp/calcwit.cpp:77-97 | a run succeeds if and only if every call resolves and no signal is addressed twice, and then the signals hold exactly what was assigned |
| InputMachine.OrderIrrelevant | parachain/pallets/zk_privacy/src/circom/circuit_cpp/calcwit.cpp:77-97 | every reordering of a successful run succeeds, with the same signal values |
| Flatten.FlattenInto | parachain/pallets/zk_privacy/src/circom/circuit_cpp/main.cpp:144-188 | the recursion appends exactly the depth-first leaves to the vector |
| Flatten.LeafOrder | parachain/pallets/zk_privacy/src/circom/circuit_cpp/main.cpp:182-187 | leaves are taken from left to right at any depth |
| Flatten.GeneratePositions | parachain/pallets/zk_privacy/src/circom/circuit_cpp/calcwit.cpp:116-126 | the loop from the last dimension writes the mixed-radix digits in brackets |
| Flatten.LastRow | parachain/pallets/zk_privacy/src/circom/circuit_cpp/calcwit.cpp:116-126 | element 5 of a 2 by 3 array is written [1][2] |
| PositionText.DecimalDenotes | parachain/pallets/zk_privacy/src/circom/circuit_cpp/calcwit.cpp:121-122 | an index is written in decimal digits without leading zero, and the text denotes it |
| Flatten.TextsDiffer | parachain/pallets/zk_privacy/src/circom/circuit_cpp/calcwit.cpp:116-126 | two elements of one array get the same text only if they are the same element |
| PositionText.BracketedInjective | parachain/pallets/zk_privacy/src/circom/circuit_cpp/calcwit.cpp:116-126 | the bracketed text determines the indices: no two lists of any lengths are written alike |
| Flatten.DigitsInvertRowMajor | parachain/pallets/zk_privacy/src/circom/circuit_cpp/calcwit.cpp:116-126 | for an index below the product of the dimensions the digits are in range and have it as row-major index |
| Flatten.RowMajorInvertsDigits | parachain/pallets/zk_privacy/src/circom/circuit_cpp/calcwit.cpp:116-126 | every list of indices in range is the position of exactly its row-major index |
| Flatten.FlattenedAtPosition | parachain/pallets/zk_privacy/src/circom/circuit_cpp/main.cpp:144-188 | for a rectangular array of any rank, element i of the flattened list is the leaf at the position computed for i |
| Loading.LoadJson | parachain/pallets/zk_privacy/src/circom/circuit_cpp/main.cpp:240-283 | the loader succeeds exactly when every value has the size of its signal and every assignment succeeds, and leaves the state those assignments lead to; an error names the first item that fails and how; an empty input tries to run the circuit |
| Loading.FitsExactly | parachain/pallets/zk_privacy/src/circom/circuit_cpp/main.cpp:258-270 | a value is accepted exactly if it names a signal with its number of elements, or is an empty value whose name hashes to 0 while the table has an empty slot |
| Loading.LoadsExactly | parachain/pallets/zk_privacy/src/circom/circuit_cpp/main.cpp:240-283 | a fresh calculator loads an input if and only if every value is accepted and no non-empty signal is given twice |
| Loading.LoadedAtPosition | parachain/pallets/zk_privacy/src/circom/circuit_cpp/main.cpp:240-283 | after any load, signal i of a range holds the element of its array at the position of i, for any rank |
| Loading.LoadRuns | parachain/pallets/zk_privacy/src/circom/circuit_cpp/main.cpp:252-254 | a load runs the circuit once when as many elements are given as there are inputs and not at all otherwise; without inputs only the empty input runs it |
| Loading.CompleteInputRunsOnce | parachain/pallets/zk_privacy/src/circom/circuit_cpp/main.cpp:240-283 | an input giving every signal once, in any order, loads and runs the circuit once, unless all the signals there are are empty arrays |
| WordArrays.FromArray32 | parachain/pallets/zk_privacy/src/circom/circuit_js/witness_calculator.js:338-345 | the big-endian number of the words |
| WordArrays.JoinWeighs | parachain/pallets/zk_privacy/src/circom/circuit_js/witness_calculator.js:338-345 | in that number what precedes n words weighs 2^(32·n) times as much |
| WordArrays.ToArray32 | parachain/pallets/zk_privacy/src/circom/circuit_js/witness_calculator.js:321-336 | a list with that number, of at least the size asked for, longer only without a leading zero |
| WordArrays.FitsExactly | parachain/pallets/zk_privacy/src/circom/circuit_js/witness_calculator.js:321-336 | a number below 2^(32·size) takes exactly that size, and its words backwards are its low words |
| WordArrays.ArrayRoundTrip | parachain/pallets/zk_privacy/src/circom/circuit_js/witness_calculator.js:321-345 | array to number to array at the same size is the identity |
| WordArrays.JoinReversed | parachain/pallets/zk_privacy/src/circom/circuit_js/witness_calculator.js:183-187 | filling an array from its end exchanges the two word orders |
| WitnessFile.Normalize | parachain/pallets/zk_privacy/src/circom/circuit_js/witness_calculator.js:363-367 | the canonical residue for every integer, negative ones included, although BigInt remainders take the dividend's sign |
| WitnessFile.WriteInput | parachain/pallets/zk_privacy/src/circom/circuit_js/witness_calculator.js:157-160 | an input leaves the eight words of its residue in the shared memory |
| WitnessFile.CalculateWitness | parachain/pallets/zk_privacy/src/circom/circuit_js/witness_calculator.js:176-191 | returns the witness values |
| WitnessFile.CalculateWTNSBin | parachain/pallets/zk_privacy/src/circom/circuit_js/witness_calculator.js:212-276 | word by word: the bytes w, t, n, s, version 2, two sections, section 1 of 40 bytes with the element size, the prime and the number of values, section 2 with the values; every word was stored to exactly once and in order |
| WordBuffers.FilledInOrder | parachain/pallets/zk_privacy/src/circom/circuit_js/witness_calculator.js:212-276 | a buffer whose logged stores ran through its words in order was stored to once at each word and holds what was stored |
| WitnessFile.WriteBinWitness | parachain/pallets/zk_privacy/src/circom/circuit_cpp/main.cpp:288-334 | the same file, with the length of section 2 right in 64 bits, from signals in any of the four representations |
| WitnessReader.NativeReadsBack | parachain/pallets/zk_privacy/src/circom/circuit_cpp/main.cpp:288-334 | a reader that follows only the lengths the sections state gets the prime and the values back, and ends at the end of the file |
| WitnessReader.ScriptReadsBack | parachain/pallets/zk_privacy/src/circom/circuit_js/witness_calculator.js:212-276 | that reader gets them back from the script's file if and only if the data section is shorter than 2^32 bytes |
| WitnessFile.LayoutMeans | parachain/pallets/zk_privacy/src/circom/circuit_js/witness_calculator.js:218-273 | what either layout holds, word by word |
| WitnessFile.HashHalves | parachain/pallets/zk_privacy/src/circom/circuit_js/witness_calculator.js:377-380 | a padded 64-bit hash is passed on as its high and its low word |
| WitnessFile.LengthsAgree | parachain/pallets/zk_privacy/src/circom/circuit_js/witness_calculator.js:260-264 | the hexadecimal slices equal the little-endian 64-bit length if and only if it is below 2^32 |
| WitnessFile.FilesAgree | parachain/pallets/zk_privacy/src/circom/circuit_js/witness_calculator.js:212-276 | the two writers produce the same words if and only if the data section is shorter than 2^32 bytes |
| WitnessFile.CellReadsBack | parachain/pallets/zk_privacy/src/circom/circuit_js/witness_calculator.js:266-273 | in either file cell k read little-endian is value k, which is what calculateWitness returns |

## Left out

- Arithmetic.Add: the apart-limbs precondition rules out two elements sharing one limb buffer without being the same object, which the C structure cannot express.
- Arithmetic.Sub: the same precondition.
- TaggedBitwise.Combine: the same precondition.
- TaggedBitwise.Not: the same precondition.
- FieldRuntime.Inv: the operand 0, for which GMP's inversion promises nothing.
- FieldRuntime.RawInv: the same operand.
- FieldRuntime.FromInteger: integers of magnitude q or more, for which the library would write more than four limbs or leave limbs that are not canonical; no caller in the repository passes one, nor a negative one.
- FieldRuntime.Div: the divisor 0, for the same reason.
- FieldRuntime.RawDiv: the same divisor.
- WitnessFile.WriteBinWitness: the loop counter is unbounded, while the source's signed counter would overflow at 2^31 values.
- WitnessFile.CalculateWTNSBin: the four byte stores of the magic are one word store; the buffer is allocated whatever its size, as JavaScript's limit on array lengths is not modelled.
- Flatten.FlattenInto: leaves are elements already; parsing of number text, its prefixes and its error cases are not part of this model.
- Flatten.GeneratePositions: dimensions of 0, by which the source divides, and the 32-bit width of the index.
- InputMachine.CalcWit.TryRunCircuit: the generated circuit itself is only counted, not executed.
- Transaction.ConservesExactly: circuits with more inputs than outputs, where it depends on the hash whether so many notes can share a root; the circuit has four of each.
- CircuitAdapter.PrepareCircuitInput: amounts, secrets and hashes are integers instead of decimal text, and an empty commitment string is an absent one.
- CircuitAdapter.ValidateCircuitInput: a field may be missing but, when present, is a list; the wording of the errors is dropped.
- Transfer.ExecutePrivateTransfer: the answer of proof verification and the sequence of chain reports are parameters, as are fresh secrets and fetched proofs; exceptions of the services themselves are not modelled.
- Prover.GenerateTransferProof: hashes are functions of field elements instead of bytes, the empty-text tests on the root are dropped, the parsing of amount text is a given number beside the text, and the proof bytes are not produced.
- Prover.AcceptedMeetsCircuit: digests are field elements, while the prover's Blake2 gives 32 bytes (prover.ts:45) that may exceed q; equal digests are taken as equal elements.
- Prover.WrongCommitmentCollides: the same identification of digests with elements.
- The mirror-image code of the assembly: the less-than comparison is the greater-than one with its operands exchanged, and symmetric branches of the dispatch share one method.
- Registers and stores inside a carry chain: a chain's four stores happen together after it; stack frames and the calling convention are not modelled.
- The limb swap (it stores a register it never loads), and the big-endian import and export, which do not invert each other as written.
- The logical operations, truth test and conversion to a machine integer, and the integer quotient, remainder and power of the GMP layer: single calls on top of what is modelled.
- Poseidon, Blake2, Groth16, the circomlib templates and GMP: uninterpreted functions or contracts; the multiplexer is modelled by its equation.
- Loading.LoadJson: name qualification and the string hash (an item comes with the hash of its qualified name), the type checks, and the error texts.
- The memory-mapped circuit data.
- The pallet, whose guards accept only empty lists and whose tree updates are placeholders; the chain clients, storage text, keychain and user interface.
