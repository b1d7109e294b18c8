# Oblivious decision-tree evaluation, modelled on plaintext slot vectors

This project models the evaluation engine of a homomorphic decision-tree
evaluator in Dafny. The client encrypts three 16-bit integers. The server
compares each one with an encrypted threshold using a bit-sliced ripple-carry
circuit. It then combines the three encrypted decisions with three encrypted
leaf values through a fixed selection polynomial. The small slot-vector
builders of the packed-arithmetic demos are modelled as well.

Every ciphertext is modelled by the plaintext slot vector it decrypts to
(`Slots.SlotVector`, a sequence of residues modulo the plaintext prime
`P = 2`). The client driver configures that prime. The engine's operations
act on these vectors slot by slot:

- `+=` is `Slots.Add`.
- `addCtxt(·, true)` is `Slots.Sub`.
- `*=` and `multiplyBy` are `Slots.Mul`.
- `rotate(v, k)` is `Slots.Rotate`, a cyclic shift by `k` towards higher slots.
- `totalSums` is `Slots.TotalSums`, which puts the slot sum modulo `P` into every slot.

Modules:

- `Bits` holds MSB-first and LSB-first bit arrays, their values, and the encoders they invert.
- `Slots` holds the ciphertext algebra.
- `Encoder` holds `getBin` and `getCtxt`.
- `Comparator` holds `compareCtxt`.
- `TreeEvaluator` holds `calculate_result` and `evaluate_decision_tree`.
- `BasicExamples` holds the slot-vector builders.

What the proofs establish:

- `getBin` writes exactly the 16-bit two's-complement pattern of its argument, most significant bit first. For negative inputs it negates the digits of `|x|` with a carry that starts at 1 exactly when the last digit is 0, and that is the ordinary `+1` of two's-complement negation. Bit-exact behaviour therefore needs no special rule.
- `compareCtxt(x, y)` is a 16-bit ripple-carry adder. Every slot of its result is the sign bit of `(x + y) mod 2^16`, which is not "x < y". The evaluator stores its thresholds negated (`-27, -17, -999`), so decision k is `input_k < 27, 17, 999` whenever the difference fits in 16 signed bits.
- The tree the code hard-wires is: if `x0 < 27` then (if `x2 < 999` then 10 else 0), else if `x1 < 17` then 30 else 20. `evaluate_decision_tree` returns the encrypted integer of exactly that leaf. For the client's inputs 10, 23, 18 that leaf is 10.

## Model

| member | source | states |
|---|---|---|
| Encoder.GetBin | source/TreeEvaluator.cpp:8-38 | the array is the 16-bit two's-complement pattern of x, MSB first, for every int except INT_MIN; its last entry is the parity of abs(x); for x in the signed 16-bit range the pattern decodes back to x |
| Encoder.BinaryDigits | source/TreeEvaluator.cpp:16-19 | the digit loop leaves the 16 low binary digits of the non-negative value, MSB first |
| Encoder.NegateDigits | source/TreeEvaluator.cpp:21-35 | the complement-and-carry loop yields bits whose value is minus the input's value modulo 2^16 and keeps the last bit |
| Encoder.NegationStep | source/TreeEvaluator.cpp:27-34 | one pass of the negation loop keeps the rewritten suffix plus its pending carry equal to the suffix weight minus the original digits |
| Encoder.NegatedDigitsEncode | source/TreeEvaluator.cpp:11-35 | negating the digits of -x modulo 2^16 gives the encoding of x |
| Encoder.EncodeRoundTrip | source/TreeEvaluator.cpp:8-38 | decoding the 16-bit encoding of a signed 16-bit x gives x back |
| Encoder.DecodeRoundTrip | source/TreeEvaluator.cpp:8-38 | every 16-bit array decodes to a signed 16-bit value whose encoding is that array |
| Encoder.GetCtxt | source/TreeEvaluator.cpp:41-78 | kind 0 is the slot-0 mask, kinds 1 and 2 are all-zero, any other kind is getBin(val) in slots 0..15 with every later slot zero |
| Encoder.GetCtxtWindow | source/TreeEvaluator.cpp:63-77 | the 16-slot window of an encrypted integer holds val modulo 2^16 and decodes back to val when val fits in 16 signed bits |
| Encoder.EncodedZero | source/TreeEvaluator.cpp:63-77 | the encrypted integer of 0 is the all-zero vector, which is what a failed branch of the tree contributes |
| Encoder.GetCtxtList | source/TreeEvaluator.cpp:81-87 | the three ciphertexts are encrypted integers holding the three values modulo 2^16 |
| Slots.AddIsXorMulIsAnd | source/TreeEvaluator.cpp:140-144 | with p = 2, slot-wise addition and subtraction are exclusive or and multiplication is and |
| Slots.RotateLeftOne | source/TreeEvaluator.cpp:146-147 | rotate by -1 moves slot i+1 into slot i and slot 0 round to the last slot |
| Slots.RotateInverse | source/TreeEvaluator.cpp:146-147 | rotating by k and then by -k restores every slot |
| Slots.MaskBroadcast | source/TreeEvaluator.cpp:152-154 | multiplying by the slot-0 mask and applying totalSums copies slot 0 into every slot |
| Comparator.HalfAdderValue | source/TreeEvaluator.cpp:140-144 | x + y equals (x xor y) + 2 (x and y) on bit arrays read as numbers |
| Comparator.RoundPreservesWindowSum | source/TreeEvaluator.cpp:138-151 | one round keeps the sum of the two windows modulo 2^16 when nothing is carried in from slot 16 |
| Comparator.SumIsWindowResidue | source/TreeEvaluator.cpp:151-154 | once the carry window is empty, the sum window holds the 16-bit sum and its slot 0 is that sum's sign bit |
| Comparator.CompareCtxt | source/TreeEvaluator.cpp:130-156 | every slot of the result is the sign bit of the 16-bit sum of the two encrypted integers |
| Comparator.ThresholdDecision | source/TreeEvaluator.cpp:105-122 | comparing x with the stored negation of t yields 1 exactly when x < t, provided x - t fits in 16 signed bits; equal values yield 0 |
| TreeEvaluator.CtxtOne | source/TreeEvaluator.cpp:112-117 | ctxt_1 holds 1 in every slot |
| TreeEvaluator.CalculateResult | source/TreeEvaluator.cpp:168-206 | with an all-ones ctxt_1, every slot is d0 d2 L0 + (1 - d0)((1 - d1) L1 + d1 L2) modulo p of that slot's decisions and leaves |
| TreeEvaluator.SelectionSlot | source/TreeEvaluator.cpp:169-203 | the term0..term5 chain of slot operations equals the selection polynomial stated in the source comment |
| TreeEvaluator.SelectionPicks | source/TreeEvaluator.cpp:200-202 | on 0/1 decisions the selection polynomial is the tree walk: L0 or 0 by d2 when d0 holds, else L2 or L1 by d1 |
| TreeEvaluator.SelectsOneLeaf | source/TreeEvaluator.cpp:168-206 | with broadcast 0/1 decisions the result is exactly one leaf vector, or all zeros when d0 holds and d2 fails |
| TreeEvaluator.CompareAll | source/TreeEvaluator.cpp:119-123 | decision k is broadcast and equals the sign bit of input k plus threshold k |
| TreeEvaluator.ResultIsSelectedLeaf | source/TreeEvaluator.cpp:101-103 | combining the encrypted leaves 10, 20, 30 with decisions d0, d1, d2 gives the encrypted integer of the selected leaf |
| TreeEvaluator.DecisionIsComparison | source/TreeEvaluator.cpp:108-122 | a decision against a negated threshold is the plaintext comparison input < threshold when it does not overflow |
| TreeEvaluator.DecisionsMatchPlainTree | source/TreeEvaluator.cpp:105-110 | without overflow the leaf chosen by the three decisions is the leaf of the plaintext tree on the decoded inputs |
| TreeEvaluator.EvaluateDecisionTree | source/TreeEvaluator.cpp:99-127 | the result is the encrypted integer of the leaf selected by the three comparator decisions, and without overflow of the plaintext tree's leaf |
| TreeEvaluator.ClientScenario | source/Client.cpp:17-26 | for inputs 10, 23, 18 the result is the encrypted integer of leaf 10 and decodes to 10 |
| BasicExamples.FillPlaintextWithBits | source/BasicExamples.cpp:81-85 | slot i gets bit i of data for i below 16 and later slots are unchanged; the 16 slots are getBin's pattern reversed and read back LSB first as data modulo 2^16 |
| BasicExamples.WrittenBitsAreLsbEncoding | source/BasicExamples.cpp:82-84 | sixteen slots holding bits 0..15 of data are its LSB-first encoding, getBin's pattern reversed, with value data modulo 2^16 |
| BasicExamples.PackThreeWindows | source/BasicExamples.cpp:238-254 | a, b and c land LSB first in slots 0..15, 16..31 and 32..47, and every slot from 48 on is zero |
| BasicExamples.PackedWindows | source/BasicExamples.cpp:240-250 | each window of the packed layout is the LSB-first encoding of its own value |
| BasicExamples.PackedWindowsIndependent | source/BasicExamples.cpp:241-249 | each 16-bit value is read back from its own window whatever the other two values are |
| BasicExamples.FillPlaintextWithNumbers | source/BasicExamples.cpp:300-309 | the forward mode sets entries 0..maxValue to their index; the reverse mode sets only entries 0..maxValue-1; every other entry is unchanged |
| BasicExamples.NumberDownFrom | source/BasicExamples.cpp:306-308 | the descending loop sets entries 0..top to their index and leaves the rest unchanged |
| BasicExamples.FillPlaintextWithNumbersCorrected | source/BasicExamples.cpp:300-309 | both directions set entries 0..maxValue to their index |
| BasicExamples.NumberedAbsorbs | source/BasicExamples.cpp:300-309 | filling is idempotent and a longer fill absorbs a shorter one in either order |
| BasicExamples.ReverseModeSkipsLastEntry | source/BasicExamples.cpp:301-308 | the two directions disagree exactly at entry maxValue, which the reverse mode leaves as it was |
| BasicExamples.ReverseModeCounterexample | source/BasicExamples.cpp:329-330 | on eight zero slots with maxValue 5 the forward mode gives 0..5 while the reverse mode leaves slot 5 at 0 |

## Left out

- Encryption itself is not modelled: keys, noise, modulus chain and multiplicative depth. A ciphertext is the slot vector it decrypts to, and nothing in the code tracks depth.
- Slot count: the number of slots is a parameter (`slots`, `nslots`) because the encryption context computes it and that computation is not modelled.
- Encryptor.cpp, FileSystem.cpp, Util.cpp and main.cpp are context construction, key files and logging, so they are not part of this model.
- Client.cpp is modelled only through the inputs it passes (`TreeEvaluator.ClientScenario`). Its decryption and printing are I/O.
- Console output is omitted: the `std::cout` lines in `getCtxt` and in the packing loop, `print_vector` and `debug`.
- The other BasicExamples demos are left out: slot-count query, decimal arithmetic, packed decimal arithmetic and scalar product. They are demonstrations of library calls.
- The thresholds, leaves and tree shape are the code's hard-wired constants. No general recursive tree is modelled, because the code has none.
- Encoder.GetBin: requires `x > INT_MIN`, because negating `INT_MIN` in 32-bit `int` is undefined behaviour. Every other 32-bit value is modelled, and it keeps its low 16 bits.
- Comparator.CompareCtxt: requires at least 32 slots and operands that are zero outside slots 0..15, as `getCtxt` produces them. With fewer slots a carry leaving slot 0 wraps to the last slot and can travel back into the window, and that case is not modelled.
- Comparator.ThresholdDecision: states "x < t" only when x - t fits in 16 signed bits. Outside that range the decision is the sign bit of the wrapped sum, which `CompareCtxt` states for all inputs.
- TreeEvaluator.EvaluateDecisionTree: relates the result to the plaintext tree only when no comparison overflows 16 bits. Its first postcondition covers every input.
- BasicExamples.PackThreeWindows: takes a, b and c as parameters rather than the demo's constants 8, 3 and 4.
- BasicExamples.FillPlaintextWithNumbers: requires the vector to be long enough for the writes. An out-of-range write is undefined behaviour in the code.

## Findings

| source | as written | input that shows it | evidently intended | confidence | as-written member | corrected member |
|---|---|---|---|---|---|---|
| source/BasicExamples.cpp:305-308 | the reverse loop starts at maxValue - 1, so entry maxValue is never written, while the forward loop writes 0..maxValue | eight zero slots, maxValue 5, reverse true: result 0,1,2,3,4,0,0,0 instead of 0,1,2,3,4,5,0,0 | both directions fill entries 0..maxValue and differ only in visiting order | low, not executed | BasicExamples.FillPlaintextWithNumbers, BasicExamples.ReverseModeCounterexample | BasicExamples.FillPlaintextWithNumbersCorrected |
