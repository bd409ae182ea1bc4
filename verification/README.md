# A verified model of Aspera's computational core

Aspera is a Burstcoin wallet and node in Go, with two C hash kernels. This
project models the parts of it that compute: the curve and scalar arithmetic
behind signatures, the account address code, the automated-transaction machine,
block retargeting and chain building, the ledger, the streaming hash, request
batching, and transaction serialisation. Every routine that works in place is a
method on arrays or object fields, proved against a specification; what the
system promises is then proved about the specification, for all inputs and all
runs. `dafny verify dfyconfig.toml` checks everything.

## Layout

- Shared: `Modular` (congruences, greatest common divisors), `Powers`,
  `MachineWords` (ranges and wrapping), `Options`, `LittleEndian` (byte strings
  as numbers).
- Curve25519: `ByteBignum` (radix 2^8 in place), `Scalar` (the group order:
  extended Euclid, signing), `Limbs` (ten limbs in radix 2^25.5), `FieldBytes`
  (between bytes and limbs), `Field` and `Inverse` (the addition chain),
  `Ladder` (the key exchange and its reference, section 5 of RFC 7748), `Curve`
  (what the ladder's formulas and states mean on the curve).
- Addresses: `GaloisField`, `RsCode` (validity and minimum distance), `RsParity`
  (the shift register), `BaseConversion`, `BurstAddress` (specification and
  round trips), `PrintedAddress` (which place shows what, and two addresses),
  `AddressCodec` (the two loops).
- Automated transactions: `AtMachine` (the step function), `AtVm` (the machine
  on one array), `AtAssembler` (instruction encoding), `AtLaws` (what each
  instruction means), `AtRuns` (whole runs), `AtPrograms` (small programs with their runs).
- Chain: `Difficulty`, `Retargeting` (how targets follow the time taken),
  `RawStorage` in `RawStore.dfy`, `Ledger`, `Payments` (who is paid).
- Hashing: `Shabal` (streaming, for any compression), `ShabalKernels` (the
  unrolled compressions), `ShabalTrace` (a compression word by word),
  `ShabalInit` (the initial state), `ShabalDigests` (the two hashes together),
  `ShabalVector` (a published digest).
- Services: `Collector`, `Encoding`, `Attachments`, `TransactionBytes`,
  `TransactionReading`.

## How the parts fit

- **Byte arithmetic.** `MulaSmall` and `Mula32` are exact for every multiplier;
  `DivMod` rests on the two-byte estimate being at most one too large. `Sign`,
  `IsCanonicalSignature` and `Egcd32` compose them. The cofactor bounds show that
  the truncating updates of the Euclidean loop lose nothing.
- **Field arithmetic.** All limb routines work on a 64-bit newtype, so that every
  intermediate is proved to fit. `Product` carries the schoolbook columns;
  `ProductMeans` says what that stands for. `Recip` follows the exponent through
  the chain, and `Core` refines the integer ladder round by round. What that
  ladder computes is said from the curve's equation: its two formulas are the
  tangent and the chord, and its state after any number of bits is a pair of
  neighbouring multiples.
- **Address code.** Both conversions keep one relation between what is left to
  convert and the digits already out. The parity register is evaluated at the
  four roots; that its output is valid, and that data determines parity, give
  the two round trips. Minimum distance is by eliminating one position per
  syndrome.
- **Machine.** The abstract machine has separate memory and stacks, the built one
  has one array and two counters. That each step agrees is why stack discipline,
  proved about abstract runs, holds of the array, and why the laws of the single
  instructions, stated on their bytes and for every state, do.
- **Chain.** The raw store's files and cache are a function of the blocks that
  came last before their heights were reached; every chain it holds is grown by
  the retargeting rules. The next target grows with the time taken, keeps still
  at the nominal time, and is proportional in between.
- **Ledger.** Conservation holds modulo 2^64 for all amounts, exactly for
  amounts that fit, along whole chains, and nonnegative balances under an exact
  condition; each account's balance after a block is accounted for by the
  transactions that name it.
- **Hashing.** The lanes compute one reference digest for any compression and
  any chunks, the single-lane hash computes it for one write. Both unrolled
  compressions are one permutation, and the constants of the single-lane hash
  are the state that the lanes' initialisation reaches. The digest of the empty
  message comes out as published.
- **Requests.** Collector, channel and workers move as one abstract system, in
  which every arrival waits, is queued or has been signalled.

## Where the code departs from what one might expect

Each of these is part of the model, with its exact condition and an input.

- `pack` corrects a number at most once, and its two corrections can cancel
  (`FieldBytes.PackCanonicalIff`, `FieldBytes.PackCancels`); the sign bit has the
  first limit as well (`FieldBytes.SignBitIff`, `FieldBytes.TwicePNotCanonical`).
- The machine's set instruction adds (`AtPrograms.SetAssignsIff`). Its 32-bit
  address test admits one address beyond the data (`AtMachine.ValidAddrIff`), to
  which a jump makes `execute` spin (`AtRuns.IdlesForever`,
  `AtPrograms.JumpOutSpins`). An external call at the end of the code succeeds
  without advancing (`AtRuns.ExternalAtEndForever`, `AtPrograms.CallAtEndSpins`).
  A call too deep overwrites the last data word before it fails
  (`AtVm.StateMachine.PushCall`, `AtPrograms.DeepCallOverwrites`).
- A transaction amount from 2^63 up turns negative and overdraws its receiver
  (`Ledger.NonNegativeIff`, `Ledger.NegativeAmountOverdraws`).
- The single-lane hash loses or replaces bytes written while a block is pending
  (`Shabal.WriteAppendsIff`, `Shabal.SecondByteLost`).
- Encrypted hexadecimal parts take more room than measured
  (`TransactionBytes.AppendixFitsIff`, `TransactionBytes.HexPartOutgrows`).
- The header reader takes 64 bytes for the key and 32 for the signature, the
  writer's widths the other way round, so that no header is read back
  (`TransactionReading.HeaderReadsAs`, `TransactionReading.HeaderNeverReadsBack`);
  the appendix reader expects keys of 64 bytes and encrypted data without the
  writer's padding (`TransactionReading.AppendixReadsBackIff`,
  `TransactionReading.AnnouncementLost`).
- Upper-case hexadecimal does not survive, and reading a delivery of 2^30 bytes
  or more panics (`Attachments.DeliveryReadsBackIff`, `Attachments.UpperCaseLost`,
  `Attachments.LongDeliveryLost`).

## Model

| member | source | states |
|---|---|---|
| ByteBignum.MulaSmall | pkg/crypto/curve25519/curve25519.go:46-54 | p gets the low n bytes of q + z*x and the return value is the rest, so p + 256^n*v = q + z*x for every z, negative ones included; other bytes stay |
| ByteBignum.Mula32 | pkg/crypto/curve25519/curve25519.go:56-66 | p (32+t bytes) becomes p + z*x*y modulo 256^(32+t), computed row by row in place |
| ByteBignum.Estimate | pkg/crypto/curve25519/curve25519.go:74-78 | the quotient of the top window by the two leading divisor bytes is the true digit or one more |
| ByteBignum.EstimateDigit | pkg/crypto/curve25519/curve25519.go:74-78 | computing that quotient gives such an estimate |
| ByteBignum.DivMod | pkg/crypto/curve25519/curve25519.go:68-87 | Euclidean division for all sizes n >= t >= 1 with a nonzero leading divisor byte: old r = q*d + new r, new r < d, and the bytes from t up end at 0 |
| ByteBignum.SubtractDigit | pkg/crypto/curve25519/curve25519.go:79 | subtracting the estimated digit leaves a carry rn of 0 or -1 |
| Scalar.Numsize | pkg/crypto/curve25519/curve25519.go:672-679 | the number of significant bytes: the byte below is nonzero, everything above is zero, so the value is unchanged by cutting there |
| Scalar.HalfStep | pkg/crypto/curve25519/curve25519.go:696-712 | one half of the Euclidean loop: division, the new size, and the cofactor update truncated to 32 bytes, which loses nothing |
| Scalar.EuclidStep | pkg/crypto/curve25519/curve25519.go:696-712 | every division step keeps both Bezout identities, the greatest common divisor, and the determinant of the cofactors up to sign |
| Scalar.CofactorBounds | pkg/crypto/curve25519/curve25519.go:702-711 | cofactors never outgrow the modulus, so they fit 256 signed bits |
| Scalar.Egcd32 | pkg/crypto/curve25519/curve25519.go:681-714 | terminates for every a and b; for a nonzero a it returns s with s*a = gcd(a, b) modulo b, s read in two's complement, and -b <= s <= b or s = 1, so that gcd 1 makes s the inverse |
| Scalar.InvertScalar | pkg/crypto/curve25519/curve25519.go:474-486 | the last step of key generation: s becomes its inverse modulo the group order, brought up by one order when negative |
| Scalar.ReduceScalar | pkg/crypto/curve25519/curve25519.go:500-501 | division by the order leaves the remainder modulo the order |
| Scalar.SubtractScalars | pkg/crypto/curve25519/curve25519.go:503-504 | x - h, plus the order, in 32 bytes without loss modulo the order |
| Scalar.Sign | pkg/crypto/curve25519/curve25519.go:490-515 | v = ((x mod L) - (h mod L)) * s mod L for all 32-byte h, x, s, and the result says whether that is nonzero |
| Scalar.IsCanonicalSignature | pkg/crypto/curve25519/curve25519.go:643-654 | true exactly when the first 32 bytes stand for a number below the group order |
| Scalar.OrderBounds | pkg/crypto/curve25519/curve25519.go:15-18 | the order lies between 16 and 17 times 256^31 |
| Scalar.OrderIs | pkg/crypto/curve25519/curve25519.go:15-18 | the order is 2^252 + 27742317777372353535851937790883648493 |
| Limbs.MulLimbs | pkg/crypto/curve25519/curve25519.go:239-263 | for inputs whose limbs are sums or differences of reduced ones every intermediate fits int64, and the result is the carried schoolbook product |
| Limbs.SqrLimbs | pkg/crypto/curve25519/curve25519.go:265-289 | equal limb for limb to multiplying the input by itself |
| Limbs.ProductMeans | pkg/crypto/curve25519/curve25519.go:239-263 | the product's limbs are reduced, stand for a number below 2p, and are congruent to the product modulo 2^255 - 19 |
| Limbs.MulSmall | pkg/crypto/curve25519/curve25519.go:213-237 | multiplication by a factor up to 2^20 either way, into the input as well, every intermediate in int64 |
| Limbs.SmallProductMeans | pkg/crypto/curve25519/curve25519.go:213-237 | its limbs are reduced and congruent to the product |
| Limbs.CarryNumber | pkg/crypto/curve25519/curve25519.go:240-262 | the carry chain changes the number by a multiple of 2^255 - 19 only |
| Limbs.CarryReduced | pkg/crypto/curve25519/curve25519.go:240-262 | the carry chain leaves limbs in range, the top one with a little slack |
| Limbs.Add | pkg/crypto/curve25519/curve25519.go:187-198 | limb-wise sum without overflow |
| Limbs.Sub | pkg/crypto/curve25519/curve25519.go:200-211 | limb-wise difference without overflow |
| Limbs.SumMeans | pkg/crypto/curve25519/curve25519.go:187-211 | sums and differences of reduced limbs are wide enough to multiply and stand for the sum and difference |
| Limbs.Cpy | pkg/crypto/curve25519/curve25519.go:161-172 | copies all ten limbs |
| Limbs.Set | pkg/crypto/curve25519/curve25519.go:174-185 | the number given, as limb 0 of ten |
| FieldBytes.Unpack | pkg/crypto/curve25519/curve25519.go:89-100 | the ten limbs of 32 bytes |
| FieldBytes.UnpackedValue | pkg/crypto/curve25519/curve25519.go:89-100 | the limbs stand for exactly the number of the 32 bytes, all 256 bits of it |
| FieldBytes.OverflowMeans | pkg/crypto/curve25519/curve25519.go:102-104 | for limbs in range the test finds the numbers from p up and, by accident, the nineteen just below 0 |
| FieldBytes.Pack | pkg/crypto/curve25519/curve25519.go:106-159 | writes the number, less p where the overflow test fires and plus p where the top limb is negative, in 256 bits; no intermediate overflows |
| FieldBytes.PackCanonicalIff | pkg/crypto/curve25519/curve25519.go:106-159 | packing gives the residue below p exactly when the number is below 2p and the two corrections do not cancel |
| FieldBytes.PackCancels | pkg/crypto/curve25519/curve25519.go:106-159 | for reduced limbs that stand for -19 the two corrections cancel and what is packed is not the residue |
| FieldBytes.TwicePNotCanonical | pkg/crypto/curve25519/curve25519.go:106-159 | for reduced limbs that stand for 2p neither the packing nor the sign bit is the residue's |
| FieldBytes.RepackIff | pkg/crypto/curve25519/curve25519.go:662-664 | unpacking and packing 32 bytes gives them back exactly when their number is below p |
| FieldBytes.IsCanonicalPublicKey | pkg/crypto/curve25519/curve25519.go:656-670 | true exactly for 32-byte keys whose number is below 2^255 - 19 |
| FieldBytes.IsNegative | pkg/crypto/curve25519/curve25519.go:358-364 | the sign bit: the lowest limb's parity, flipped on overflow or a negative top limb |
| FieldBytes.SignBitIff | pkg/crypto/curve25519/curve25519.go:358-364 | the sign bit is the parity of the residue below p exactly when the number is below 2p |
| Inverse.ShiftUp | pkg/crypto/curve25519/curve25519.go:300-352 | a squaring loop of any length, two squarings a round, shifts the exponent up by the number of squarings |
| Inverse.RecipChain | pkg/crypto/curve25519/curve25519.go:291-356 | the whole addition chain reaches the exponent 2^255 - 21, or 2^252 - 3 with square-root assistance |
| Inverse.Recip | pkg/crypto/curve25519/curve25519.go:291-356 | y = x^(2^255 - 21) modulo p, or x^(2^252 - 3) when assisting a square root, for every reduced x |
| Ladder.MontPrep | pkg/crypto/curve25519/curve25519.go:377-380 | sum and difference of the two coordinates |
| Ladder.MontAdd | pkg/crypto/curve25519/curve25519.go:382-390 | differential addition: the x-only formulas of section 5 of RFC 7748, modulo p |
| Ladder.MontDbl | pkg/crypto/curve25519/curve25519.go:392-400 | doubling as the x-only formulas of section 5 of RFC 7748 do it, modulo p; Curve.DoublingLaw and Curve.TangentLaw say what that is on the curve |
| Ladder.BitOfByte | pkg/crypto/curve25519/curve25519.go:432-434 | bit j of byte i of the scalar is bit 8i + j of its number |
| Ladder.LadderStep | pkg/crypto/curve25519/curve25519.go:430-446 | one of the 256 rounds, the two points picked by the scalar's bit, is one round of the ladder of RFC 7748 |
| Ladder.Rounds | pkg/crypto/curve25519/curve25519.go:430-447 | after all rounds the four slots hold the reference ladder's state for every scalar and base |
| Ladder.Core | pkg/crypto/curve25519/curve25519.go:410-453 | for every 32-byte scalar and base the limbs just before packing are congruent to X*Z^(p-2) of the ladder in section 5 of RFC 7748 for these numbers, unclamped, and what is packed is their packing; no int64 overflows on the way |
| Ladder.Canonical | pkg/crypto/curve25519/curve25519.go:449-452 | when those limbs meet the packing condition the output is that residue itself |
| Curve.PrimeIs | pkg/crypto/curve25519/curve25519.go:10-13 | the modulus of the limb arithmetic is 2^255 - 19 |
| Curve.BasePoint | pkg/crypto/curve25519/curve25519.go:466 | the base abscissa 9 has the ordinate squared 39420360 on y^2 = x^3 + 486662 x^2 + x |
| Curve.DoublingLaw | pkg/crypto/curve25519/curve25519.go:392-400 | in terms of the curve's coefficient, doubling (x : z) gives (x^2 - z^2)^2 over 4xz (x^2 + 486662 xz + z^2) |
| Curve.AdditionLaw | pkg/crypto/curve25519/curve25519.go:382-390 | adding, with a difference of abscissa u, gives 4 (x2 x3 - z2 z3)^2 over 4u (x2 z3 - z2 x3)^2 |
| Curve.TangentLaw | pkg/crypto/curve25519/curve25519.go:392-400 | on the curve, modulo any number, that is the abscissa where the tangent meets it again |
| Curve.ChordLaw | pkg/crypto/curve25519/curve25519.go:382-390 | on the curve that is the abscissa where the chord meets it again, if u is that of the difference |
| Curve.ChordProduct | pkg/crypto/curve25519/curve25519.go:382-390 | the abscissas of sum and difference of two points multiply to (x1 x2 - 1)^2 / (x1 - x2)^2, whatever the signs |
| Curve.TopIs | pkg/crypto/curve25519/curve25519.go:430-434 | halving the scalar t times leaves floor(k / 2^t), what its bits from t up say |
| Curve.LadderHolds | pkg/crypto/curve25519/curve25519.go:430-447 | after the bits from t up the reference ladder holds the multiples by floor(k / 2^t) and by one more, a multiple being defined by halving its factor |
| Curve.ResidueIsMultiple | pkg/crypto/curve25519/curve25519.go:449-452 | the residue that the key exchange ends with is X Z^(p-2) of the k-th multiple |
| Curve.LeadingZeros | pkg/crypto/curve25519/curve25519.go:430-447 | leading zero bits of the scalar do not change the multiple, as a ratio modulo p |
| GaloisField.MultPlus | pkg/crypto/rsencoding/rsencoding.go:27-35 | multiplication by logarithm tables distributes over exclusive or |
| GaloisField.MultAssoc | pkg/crypto/rsencoding/rsencoding.go:27-35 | it is associative |
| GaloisField.MultNonZero | pkg/crypto/rsencoding/rsencoding.go:27-35 | a product is zero only if a factor is: there are no zero divisors |
| GaloisField.LogExp | pkg/crypto/rsencoding/rsencoding.go:18-25 | the two tables are inverse to each other: logarithm of power |
| GaloisField.ExpLog | pkg/crypto/rsencoding/rsencoding.go:18-25 | power of logarithm |
| GaloisField.ExpIsPow | pkg/crypto/rsencoding/rsencoding.go:18-19 | entry i of the power table is the i-th power of alpha, a root of x^5 + x^2 + 1 |
| RsCode.IsCodewordValid | pkg/crypto/rsencoding/rsencoding.go:172-194 | true exactly when the first four syndromes vanish, the shortened places 13 to 26 skipped |
| RsCode.NoLightWord | pkg/crypto/rsencoding/rsencoding.go:172-194 | a word with at most n nonzero symbols whose first n syndromes vanish is zero |
| RsCode.MinimumDistance | pkg/crypto/rsencoding/rsencoding.go:172-194 | two different words that pass the validity test differ in at least five places |
| RsCode.FewErrorsDetected | pkg/crypto/rsencoding/rsencoding.go:129-131 | changing one to four symbols of a valid word always makes it invalid |
| RsParity.AppendParity | pkg/crypto/rsencoding/rsencoding.go:75-84 | the shift-register loop turns the data symbols into the systematic word |
| RsParity.Roots | pkg/crypto/rsencoding/rsencoding.go:78-81 | alpha, alpha^2, alpha^3 and alpha^4 are roots of the generator with coefficients 17, 9, 6, 30 |
| RsParity.CellsAt | pkg/crypto/rsencoding/rsencoding.go:75-82 | at each root the register's polynomial is the data's, moved up four places |
| RsParity.SystematicValid | pkg/crypto/rsencoding/rsencoding.go:75-84 | data with the parity appended passes the validity test |
| RsParity.DataDetermines | pkg/crypto/rsencoding/rsencoding.go:75-84 | a valid word is its own data with that parity: the parity leaves no choice |
| BaseConversion.DivideInPlace | pkg/crypto/rsencoding/rsencoding.go:53-66 | one pass over the digits divides the number by the other base in place: quotient without leading zeros, remainder as next digit; also the pass at lines 145-157 |
| BaseConversion.WrittenNumber | pkg/crypto/rsencoding/rsencoding.go:47-73 | a digit sequence is the only one of its length that writes its number |
| BurstAddress.MapInvolutes | pkg/crypto/rsencoding/rsencoding.go:20 | the map of printed places to codeword places is its own inverse |
| BurstAddress.PermutedTwice | pkg/crypto/rsencoding/rsencoding.go:20 | reordering a word twice gives it back |
| BurstAddress.FindInAlphabet | pkg/crypto/rsencoding/rsencoding.go:108-114 | the place of a character in the alphabet, or -1 exactly if it is not there |
| BurstAddress.PositionOfLetter | pkg/crypto/rsencoding/rsencoding.go:21-23 | the alphabet has no letter twice |
| BurstAddress.SymbolsPrinted | pkg/crypto/rsencoding/rsencoding.go:86-99 | reading any prefix of a printed word finds the symbols printed there and skips the dashes |
| BurstAddress.RoundTrip | pkg/crypto/rsencoding/rsencoding.go:38-170 | every unsigned 64-bit account number decodes from its address |
| BurstAddress.Canonical | pkg/crypto/rsencoding/rsencoding.go:103-170 | a string that decodes is, dashes and foreign characters aside, the address of the number it decodes to |
| BurstAddress.MistypedRejected | pkg/crypto/rsencoding/rsencoding.go:129-131 | a string whose symbols differ from those of a valid address in one to four places is refused as invalid |
| PrintedAddress.AlphabetIs | pkg/crypto/rsencoding/rsencoding.go:21-23 | the alphabet is the digits from 2 on and the capital letters but for I and O |
| PrintedAddress.Layout | pkg/crypto/rsencoding/rsencoding.go:86-97 | which printed place shows which base 32 digit of the number, which the parity symbols, and which a dash, for every number |
| PrintedAddress.WrittenDigit | pkg/crypto/rsencoding/rsencoding.go:47-73 | data symbol i is the digit of weight 32^i |
| PrintedAddress.ClockShifts | pkg/crypto/rsencoding/rsencoding.go:76-82 | one step of the parity register by shifts and exclusive or alone, without the logarithm tables |
| PrintedAddress.FirstAddress | pkg/crypto/rsencoding/rsencoding_test.go:9 | account 9225891750247351890 has the address 8KLL-PBYV-6DBC-AM942 |
| PrintedAddress.SecondAddress | pkg/crypto/rsencoding/rsencoding_test.go:10 | account 2293534822941106833 has the address BANK-SNAQ-SZAD-374PZ |
| AddressCodec.FormatUint | pkg/crypto/rsencoding/rsencoding.go:39-45 | decimal digits without leading zeros, most significant first, at most 20 |
| AddressCodec.ParseUint | pkg/crypto/rsencoding/rsencoding.go:165-169 | the number of a digit string, or a range error from 2^64 up |
| AddressCodec.CollectSymbols | pkg/crypto/rsencoding/rsencoding.go:47-73 | base 10 to base 32 in place: the codeword ends up with the data symbols of the number, at most 13 |
| AddressCodec.Print | pkg/crypto/rsencoding/rsencoding.go:86-97 | letters in printed order, dashes after the fourth, eighth and twelfth |
| AddressCodec.Encode | pkg/crypto/rsencoding/rsencoding.go:38-100 | the address of the number, for all 64-bit numbers |
| AddressCodec.ReadSymbols | pkg/crypto/rsencoding/rsencoding.go:104-127 | foreign characters are skipped, an eighteenth symbol is refused, and 17 symbols are put in codeword order |
| AddressCodec.CollectDecimals | pkg/crypto/rsencoding/rsencoding.go:139-163 | base 32 to base 10 in place: at most 20 digits, written from the end, of the same number |
| AddressCodec.Decode | pkg/crypto/rsencoding/rsencoding.go:103-170 | too long, invalid, out of range or the number, for every string |
| AtMachine.ValidAddrIff | pkg/at/at.go:590-592 | the 32-bit address test accepts 0 to 63 and, because it wraps, 0x0fffffff |
| AtMachine.ValidAddr64Iff | pkg/at/at.go:595-597 | the 64-bit test accepts exactly 0 to 63 |
| AtMachine.SkipNops | pkg/at/at.go:743-750 | a run of no-operations ends at the first other byte or at byte 256, and everything skipped is one |
| AtMachine.QuoRemIff | pkg/at/at.go:824-835 | truncating quotient and remainder belong together except for the one quotient that does not fit; the remainder is signed like the dividend (also lines 988-995) |
| AtAssembler.FetchAssembled | pkg/at/at.go:599-727 | any instruction with usable operands, written down as bytes anywhere in the code, is fetched as it was written |
| AtVm.StateMachine.constructor | pkg/at/at.go:168-183 | a fresh machine: the code padded or cut to 512 bytes, all memory zero, both stacks empty |
| AtVm.StateMachine.PushCall | pkg/at/at.go:934-935 | a call within bounds extends the call stack and nothing else; the 33rd overwrites the last data word |
| AtVm.StateMachine.PushUser | pkg/at/at.go:907-909 | a push within bounds extends the user stack and leaves memory and call stack alone |
| AtVm.StateMachine.Store | pkg/at/at.go:758 | a write to a data address changes that word and neither stack |
| AtVm.StateMachine.ExternalAct | pkg/at/at.go:1198-1263 | the six external calls: arguments read, result stored where there is one |
| AtVm.StateMachine.NopOp | pkg/at/at.go:743-750 | a run of no-operations in one step, which ends at byte 256 |
| AtVm.StateMachine.ProcessOp | pkg/at/at.go:729-1278 | one step on the single array, whichever of the instructions it is, is one step of the abstract machine with separate memory and stacks, for every code and state; a step that succeeds leaves the machine valid |
| AtLaws.OperandsLie | pkg/at/at.go:599-727 | where the operands of every instruction stand in its bytes, and in what order |
| AtLaws.SetAndClear | pkg/at/at.go:751-775 | setting a value and clearing: the word named, no other, and the instruction's length |
| AtLaws.CountUpAndDown | pkg/at/at.go:776-791 | increment and decrement: by one, from one end of the 64-bit range to the other |
| AtLaws.UpThenDown | pkg/at/at.go:776-791 | one after the other leaves memory as it was |
| AtLaws.Complement | pkg/at/at.go:792-799 | not: every bit of the word |
| AtLaws.Arithmetic | pkg/at/at.go:760-815 | sum and difference (the second from the first) modulo 2^64; setting adds, too |
| AtLaws.Multiplication | pkg/at/at.go:816-823 | product modulo 2^64 |
| AtLaws.BitByBit | pkg/at/at.go:836-859 | or, and, exclusive or: bit k of the result from bits k of both words, for all 64 |
| AtLaws.Division | pkg/at/at.go:824-835 | the first by the second: a remainder smaller than the divisor and signed like the dividend, the one overflow, and the refused zero |
| AtLaws.Remainder | pkg/at/at.go:988-995 | the second word modulo the first, signed like the dividend; zero panics |
| AtLaws.Shifts | pkg/at/at.go:996-1011 | left multiplies by 2^n modulo 2^64, right divides by 2^n rounding down, from 64 on all bits are out |
| AtLaws.Indirections | pkg/at/at.go:860-874 | reading and writing (lines 949-964) the word whose address is in memory: which word is read, which written, and the overflow outside the data |
| AtLaws.IndexedRead | pkg/at/at.go:875-897 | the same for reading the word whose address is the wrapped sum of two words |
| AtLaws.IndexedWrite | pkg/at/at.go:965-987 | and for writing it |
| AtLaws.UserWords | pkg/at/at.go:898-925 | push and pop: the word that goes on or comes off, where it goes, and the overflow at 32 words and at none |
| AtLaws.CallWords | pkg/at/at.go:926-948 | call and return: the address that goes on or comes off, where the run goes on, and the overflow of a return without a call |
| AtLaws.Branching | pkg/at/at.go:1012-1140 | a branch goes to its offset exactly under the relation it names, else past itself, and changes nothing else |
| AtLaws.Controlling | pkg/at/at.go:1141-1197 | sleep, finish and stop, at once or exactly on zero, and the two marks |
| AtLaws.Calling | pkg/at/at.go:1198-1263 | which words an external call hands over, in which order, and where its result goes |
| AtLaws.Unknown | pkg/at/at.go:1264-1278 | all other operation codes are refused and change nothing |
| AtRuns.Execute | pkg/at/at.go:1280-1301 | the loop, cut off after any number of steps, follows the abstract run and ends as it ends |
| AtRuns.RunKeeps | pkg/at/at.go:1280-1301 | before every step of every run the error address is 0 and both stacks hold at most 32 words |
| AtRuns.StepKeeps | pkg/at/at.go:729-1278 | a step changes each stack by at most one word at its top |
| AtRuns.RunningReaches | pkg/at/at.go:1280-1301 | a run still going has taken every step before |
| AtRuns.CallsFrame | pkg/at/at.go:926-948 | as long as the call stack stays m deep its lowest m words do not change |
| AtRuns.UsersFrame | pkg/at/at.go:898-925 | the same for the user stack |
| AtRuns.EveryReturnMatches | pkg/at/at.go:926-948 | every return in every run goes to five bytes past a call made earlier in it, the last one not yet returned from, and leaves the call stack that call found |
| AtRuns.EveryPopMatches | pkg/at/at.go:898-925 | every pop in every run stores the word that an earlier push read, the last one not yet popped |
| AtRuns.IdlesForever | pkg/at/at.go:732-734 | once the program counter has left the code the run neither stops nor changes anything |
| AtRuns.ExternalAtEndForever | pkg/at/at.go:1198-1205 | an external call whose number would lie past the code is repeated for any number of steps, and only the step count changes |
| AtPrograms.SetAssignsIff | pkg/at/at.go:758 | the set instruction adds: it stores the word it names exactly when the old word was 0 |
| AtPrograms.DeepCallOverwrites | pkg/at/at.go:934-937 | a program of one call to itself: the 33rd call fails, and only after it has overwritten the last data word |
| AtPrograms.JumpOutSpins | pkg/at/at.go:732-734 | a program of one jump to the address beyond the data that the test admits runs for ever, past the code |
| AtPrograms.CallAtEndSpins | pkg/at/at.go:1198-1205 | a program with an external call at byte 510 reaches it and runs for ever |
| Difficulty.Block.SetBaseTargetAndCumulativeDifficulty | pkg/block/block.go:239-325 | in machine words nothing truncates, the result is what the rules give in unbounded integers, and above genesis the target is between 1 and the maximum |
| Difficulty.Block.EarlyTargetOf | pkg/block/block.go:259-280 | the clamps in their order amount to: at most the maximum, within ten percent of the average, never 0 |
| Difficulty.Block.LateTargetOf | pkg/block/block.go:294-318 | a bounded time span, then: at most the maximum, never 0, within twenty percent of the last target |
| Difficulty.Block.WeightedAverage | pkg/block/block.go:288-293 | the loop from the newest to the oldest of 24 computes the weighted average |
| Difficulty.WeightedBetween | pkg/block/block.go:288-293 | the weighted average lies between the least and the greatest target of the window |
| Retargeting.AverageOf24 | pkg/block/block.go:288-293 | 25 times the average is the sum of the 24 targets and the newest once more, up to 299 lost in rounding |
| Retargeting.SlowerIsEasier | pkg/block/block.go:251-318 | after the same blocks, the longer the time taken the greater the next target, never smaller |
| Retargeting.SteadyStays | pkg/block/block.go:251-318 | equal targets and exactly the nominal time give the same target again |
| Retargeting.EarlyProportional | pkg/block/block.go:251-264 | where no bound is reached the target is the average of the last four times the seconds over 960 |
| Retargeting.LateProportional | pkg/block/block.go:287-305 | where no bound is reached it is the weighted average times the bounded seconds over 5760 |
| Difficulty.TargetRange | pkg/block/block.go:251-318 | for any healthy window the next target is between 1 and the maximum |
| Difficulty.WindowHealthy | pkg/block/block.go:251-318 | every window of a grown chain is healthy, also the one that contains genesis with its zero target |
| Difficulty.TargetsInRange | pkg/block/block.go:239-325 | on every chain grown from genesis all targets above it are between 1 and the maximum |
| Difficulty.RetargetGentle | pkg/block/block.go:303-317 | from height 2700 on a target moves by at most twenty percent from one block to the next |
| Difficulty.CumulativeIsSum | pkg/block/block.go:281-323 | the cumulative difficulty at a height is the sum of floor((2^64-1)/target) up to it |
| Difficulty.CumulativeIncreases | pkg/block/block.go:281-323 | it strictly increases with the height |
| RawStorage.RawStore.constructor | pkg/store/raw.go:118-135 | a fresh store holds the genesis block, in file and cache, and an empty queue |
| RawStorage.RawStore.CacheStore | pkg/store/raw.go:54-61 | the cache keeps the last 24 blocks |
| RawStorage.RawStore.Store | pkg/store/raw.go:173-184 | writes the block under its height and moves the current block there |
| RawStorage.RawStore.Enqueue | pkg/store/raw.go:203-236 | queues all blocks, a later one for the same height in place of the earlier, and says whether the awaited height is now there |
| RawStorage.RawStore.Append | pkg/store/raw.go:245-280 | takes the next block out of the queue, retargets it from the cache and extends chain, files and cache by it |
| RawStorage.RawStore.Consume | pkg/store/raw.go:238-290 | drains the queue until the next height is missing |
| RawStorage.RawStore.StoreAndMaybeConsume | pkg/store/raw.go:292-300 | after any calls with any blocks the current height is the largest below which no block is missing, the queue lacks the next one, and files and cache are the chain of the blocks that came last before their heights were reached |
| RawStorage.HighestUnique | pkg/store/raw.go:292-300 | there is only one such height for a set of heights received |
| RawStorage.LastWins | pkg/store/raw.go:207-229 | of several blocks for one height not yet reached the last one received is kept |
| RawStorage.LatestKeeps | pkg/store/raw.go:207-229 | blocks for heights already reached change nothing, and a height has a block exactly when one has come for it in time |
| RawStorage.OneBlockPerHeight | pkg/store/raw.go:203-300 | where only one block exists for each height that block is kept, in whatever order they come |
| RawStorage.BuiltGrown | pkg/store/raw.go:255-266 | the chain built block by block is a chain grown from genesis |
| RawStorage.ArrivalOrderIrrelevant | pkg/store/raw.go:203-300 | two stores that have received the one block of each of the same heights, in whatever order and batches, hold equal files, caches and heights |
| RawStorage.StoredChainSound | pkg/store/raw.go:238-300 | what a store holds has all targets in range and as many cached blocks as it should |
| Ledger.Blockchain.TransferBurst | pkg/blockchain/blockchain.go:112-180 | all or nothing: payer found by key or by derived id and then activated, debited, receiver created if new and credited, in wrapping 64-bit sums |
| Ledger.Blockchain.ExecuteBlock | pkg/block/block.go:183-197 | generator paid reward and fees, then every transaction in order; the first failure stops the block |
| Ledger.TransferKeeps | pkg/blockchain/blockchain.go:112-180 | whatever the amounts, accounts stay filed under their ids, every indexed key points to the existing account derived from it, and a failed transfer changes nothing |
| Ledger.TransferConservesModulo | pkg/blockchain/blockchain.go:112-180 | modulo 2^64 a successful transfer changes the total by the amount created or the fee, whatever wraps |
| Ledger.TransferConserves | pkg/blockchain/blockchain.go:112-180 | with payable amounts and a total below 2^63 the change is exact and no balance becomes negative, self-transfers and new accounts included |
| Ledger.BlockConservesModulo | pkg/block/block.go:183-197 | a block whose transfers all succeed changes the total by its reward modulo 2^64, for all amounts and fees |
| Ledger.BlockConserves | pkg/block/block.go:183-197 | below height 6500 it raises the total by exactly its reward and leaves no balance negative |
| Ledger.ChainMints | pkg/block/block.go:183-197 | after any chain of successful blocks from the empty ledger below height 6500, with payable amounts and bounded fees, no balance is negative and the total is ten thousand coins for every block after the first |
| Ledger.NonNegativeIff | pkg/blockchain/blockchain.go:146-176 | a successful transfer leaves no balance negative exactly when debit and credit stay within their words and above zero |
| Ledger.NegativeAmountOverdraws | pkg/blockchain/blockchain.go:113-176 | a negative amount passes the balance test and overdraws the receiver |
| Payments.TransferPaysModulo | pkg/blockchain/blockchain.go:112-180 | who is paid: after a successful transfer each account differs by what it received less what it sent, modulo 2^64, for all amounts |
| Payments.TransferPays | pkg/blockchain/blockchain.go:112-180 | exactly so for payable amounts |
| Payments.TransferOutcome | pkg/blockchain/blockchain.go:112-163 | a transfer fails exactly when its payer has no account or too little |
| Payments.TransferActivates | pkg/blockchain/blockchain.go:121-140 | afterwards the payer is indexed under its key, and has that key if it was not indexed before |
| Payments.TransferLeavesOthers | pkg/blockchain/blockchain.go:112-180 | no account but the payer's and the receiver's changes or appears, success or not |
| Payments.TransferKeepsNames | pkg/blockchain/blockchain.go:112-180 | reward recipients stay, only the payer's key may be added, and a new account is the receiver's, without a key |
| Payments.BlockPaysModulo | pkg/block/block.go:175-197 | after a successful block each account has what it had, what its transactions brought and took, and reward and fees if it generated the block, modulo 2^64 |
| Payments.BlockPays | pkg/block/block.go:175-197 | exactly so below height 6500 with payable amounts |
| Ledger.RewardFalls | pkg/environment/environment.go:35-48 | the reward never rises from one month to the next |
| Ledger.RewardFits | pkg/environment/environment.go:35-48 | below height 6500 it is 10000 coins, and nothing at height 0 |
| Ledger.RewardTable | pkg/environment/environment.go:35-48 | the reward at the first month borders, at height 0 and at the last |
| Ledger.RewardExact | pkg/block/block.go:175-181 | with payable fees the wrapped sum of reward and fees is the sum |
| Shabal.CounterUp | c/mshabal_sse4.c:202 | incrementing the low word and carrying into the high one is counting in 64 bits |
| Shabal.MultiLane.CompressBlock | c/mshabal_sse4.c:55-203 | one block into every lane changes each lane by the compression as if it were alone, whatever the compression is, then counts |
| ShabalKernels.StepsRegular | c/mshabal_sse4.c:85-134 | each of the 48 unrolled steps names the registers that the periods of A, B, C and the message give; the same registers are named in shabal256.go:266-362 |
| ShabalKernels.SumsRegular | c/mshabal_sse4.c:136-171 | the 36 unrolled additions, and the twelve triples of shabal256.go:364-375, follow one rule |
| ShabalKernels.PPIsStep | c/mshabal_sse4.c:71-82 | the macro's shifts, sums and masks compute the words that the single-lane code writes as products by five and three and a complement |
| ShabalKernels.KernelsAgree | pkg/crypto/shabal256/shabal256.go:212-425 | on every state, counter and block the vector code's compression of a lane, the single-lane one and the permutation given by index arithmetic are one function; core1 at 476-784 is the same code |
| ShabalDigests.InitStateIs | pkg/crypto/shabal256/shabal256.go:15-60 | the 44 constants are the state that the vector code's initialisation reaches from zero by its two blocks |
| ShabalTrace.CompressedIs | pkg/crypto/shabal256/shabal256.go:212-425 | the words that the 48 steps of a compression write, step by step, and the registers they end in |
| Shabal.MultiLane.Init | c/mshabal_sse4.c:215-248 | two blocks under the counters -1 and 0 leave every lane in the initial state and the counter at 1 |
| Shabal.MultiLane.Update | c/mshabal256_avx2.c:300-367 | a chunk of any length extends every lane's message by it, wherever block boundaries fall |
| Shabal.MultiLane.UpdateSparse | c/mshabal_sse4.c:251-314 | the same in the four-lane version, a lane without input sharing that of the first that has one |
| Shabal.MultiLane.CloseRounds | c/mshabal_sse4.c:333-336 | four compressions of the last block under one counter value |
| Shabal.MultiLane.Close | c/mshabal256_avx2.c:369-418 | every lane's digest is the digest of all it was fed, however it was cut into chunks |
| Shabal.HashChunks | c/mshabal_sse4.c:251-363 | initialisation, any sequence of chunks and closing: the digest of the joined chunks in every lane |
| Shabal.AbsorbedConcat | c/mshabal_sse4.c:300-307 | absorbing whole blocks and then more is absorbing the concatenation |
| Shabal.GoDigest.Write | pkg/crypto/shabal256/shabal256.go:87-114 | what counts as written afterwards: at a block boundary the old bytes and the new; with a partial block pending, nothing new if the bytes do not complete it, and otherwise the buffer as it was, stale bytes included, and what follows the bytes that should have filled it |
| Shabal.WriteAppendsIff | pkg/crypto/shabal256/shabal256.go:87-114 | a write appends its bytes exactly when it comes at a block boundary, is empty, or completes the block with the very bytes the buffer holds already |
| Shabal.SecondByteLost | pkg/crypto/shabal256/shabal256.go:87-114 | after two writes of one byte each the digest is that of the first byte |
| Shabal.GoDigest.CheckSum | pkg/crypto/shabal256/shabal256.go:123-153 | the bytes of the digest of what was counted as written |
| Shabal.Sum256 | pkg/crypto/shabal256/shabal256.go:787-792 | for messages below 2^32 bytes, the bytes of the same reference digest |
| ShabalVector.EmptyDigest | pkg/crypto/shabal256/shabal256_test.go:14 | the digest of the empty message is the published AEC750D1...14, through the four rounds of its padded block |
| ShabalVector.PaddedTailIs | pkg/crypto/shabal256/shabal256.go:123-140 | the last block is the rest of the message, a byte with only its top bit set, and zeros |
| ShabalDigests.DigestsAgree | pkg/crypto/shabal256/shabal256.go:87-153 | with either compression the digest of a message is the same |
| ShabalDigests.CompareDigests | c/mshabal_sse4.c:251-363 | the vector code with its own compression and initialisation, fed any chunks, and the single-lane hash with its own compression and constants, given the joined message, produce the same digest in every lane |
| Collector.RequestCollector.OnArrival | pkg/burstmath/burstmath.go:184-194 | a request joins those waiting; a full set of lanes is sent behind the earlier batches, holding exactly what waited, in order |
| Collector.RequestCollector.OnTimeout | pkg/burstmath/burstmath.go:195-199 | whatever waits is sent as one batch, also nothing when the timer is stale; the four-lane loop at 206-237 is the same |
| Collector.RequestCollector.Collect | pkg/burstmath/burstmath.go:173-237 | for every interleaving of arrivals and timeouts the dispatched prefixes followed by what waits are the arrivals in order, fewer wait than there are lanes, and whenever something waits a timer runs |
| Collector.Worker.ProcessReqs | pkg/burstmath/burstmath.go:269-288 | every request that counts gets its deadline and is signalled once, in order; other requests keep theirs unless they fill unused lanes |
| Collector.Handler.OnArrival | pkg/burstmath/burstmath.go:184-194 | on collector, channel and workers together an arrival is one move of the abstract system |
| Collector.Handler.OnTimeout | pkg/burstmath/burstmath.go:195-199 | a firing timer is one move |
| Collector.Handler.FinishBatch | pkg/burstmath/burstmath.go:247-288 | any worker's taking and finishing of any batch is one move, and everyone signalled finds their own deadline |
| Collector.Handler.Handle | pkg/burstmath/burstmath.go:173-288 | any sequence of arrivals, timeouts and finished batches by any workers is a run of the abstract system, everyone signalled finding their own deadline throughout |
| Collector.MoveKeeps | pkg/burstmath/burstmath.go:173-288 | no move loses or repeats a request |
| Collector.RunAccounts | pkg/burstmath/burstmath.go:173-288 | in every run, once nothing waits and no batch is queued every request has been signalled as often as it arrived |
| Encoding.BytesValue | pkg/encoding/encoder.go:40-68 | a written field reads back as the number written |
| Encoding.BytesModulo | pkg/encoding/encoder.go:40-68 | a number too large for its field is cut to it |
| Encoding.HexRoundTripIff | pkg/transaction/digital_goods_delivery.go:37-57 | decoding and encoding hexadecimal text gives it back exactly when it has no upper-case letters |
| Encoding.HexWrites | pkg/transaction/digital_goods_delivery.go:53-57 | a byte is written as its high digit and then its low one, in lower case |
| Encoding.Encoder.WriteBytes | pkg/encoding/encoder.go:80-84 | appends at the cursor and touches nothing beyond |
| Encoding.Encoder.WriteUint | pkg/encoding/encoder.go:40-68 | appends a little-endian field |
| Encoding.Encoder.WriteStringBytesWithInt32Len | pkg/encoding/encoder.go:93-107 | a length with a text bit, then the text or the bytes its hexadecimal stands for; data that is not hexadecimal is reported |
| Encoding.Encoder.WriteBytesWithInt32Len | pkg/encoding/encoder.go:109-122 | the same for encrypted data, which in hexadecimal takes twice the room it needs |
| Encoding.Decoder.ReadBytes | pkg/encoding/decoder.go:77-81 | the bytes at the cursor, or a panic past the end |
| Encoding.Decoder.ReadUint | pkg/encoding/decoder.go:29-58 | a little-endian field at the cursor, or a panic past the end |
| Attachments.WriteCreation | pkg/transaction/automated_transaction_creation.go:31-37 | appends the attachment's bytes |
| Attachments.FieldWidth | pkg/transaction/automated_transaction_creation.go:63-80 | a length field takes one byte up to one page, two below 256 pages and four from there |
| Attachments.ReadBlob | pkg/transaction/automated_transaction_creation.go:52-85 | finds the end of the creation blob by its page-dependent length fields and takes it whole, or panics |
| Attachments.ReadCreation | pkg/transaction/automated_transaction_creation.go:39-86 | what any bytes are read as: an attachment, a refused length or a panic, and where the cursor ends |
| Attachments.CreationReadsBackIff | pkg/transaction/automated_transaction_creation.go:31-86 | a written creation followed by anything reads back as itself exactly when its lengths are accepted and its blob is as long as its own fields say |
| Attachments.CreationFields | pkg/transaction/automated_transaction_creation.go:31-37 | where the fields of a written creation lie |
| Attachments.BlobLengthPrefix | pkg/transaction/automated_transaction_creation.go:52-85 | a blob complete by itself is read the same whatever follows |
| Attachments.BlobLengthIff | pkg/transaction/automated_transaction_creation.go:52-85 | the reader finds the end of a blob at its end exactly when it is a header of 20 bytes, a counted code and counted data, in length fields as wide as the header's pages ask |
| Attachments.CreationReadsBackAlwaysIff | pkg/transaction/automated_transaction_creation.go:31-86 | a written creation reads back as itself before every suffix exactly when its lengths are accepted and its blob is put together like that |
| Attachments.WriteDelivery | pkg/transaction/digital_goods_delivery.go:28-44 | appends the attachment's bytes, cut short when the data is not hexadecimal |
| Attachments.ReadDelivery | pkg/transaction/digital_goods_delivery.go:46-61 | what any bytes are read as, and where the cursor ends; the doubled length wraps in 32 bits, so that lengths from 2^30 up panic |
| Attachments.DeliveryReadsBackIff | pkg/transaction/digital_goods_delivery.go:28-61 | a written delivery followed by anything reads back as itself exactly when its data is in lower case and stands for less than 2^30 bytes |
| Attachments.DeliveryFields | pkg/transaction/digital_goods_delivery.go:28-44 | where the fields of a written delivery lie |
| Attachments.LongDeliveryLost | pkg/transaction/digital_goods_delivery.go:46-57 | a delivery of 2^30 zero bytes in hexadecimal is written but not read back |
| Attachments.UpperCaseLost | pkg/transaction/digital_goods_delivery.go:28-61 | a delivery of the text AA is read back as something else |
| TransactionBytes.HeaderFitsIff | pkg/transaction/transaction.go:286-349 | the header is as long as measured exactly when key, hash and signature take 128 bytes together |
| TransactionBytes.AttachmentFitsIff | pkg/transaction/transaction.go:107 | the attachment is as long as measured exactly when nothing cuts its writing short |
| TransactionBytes.AppendixFitsIff | pkg/transaction/transaction.go:351-482 | the appendix is as long as measured exactly when no encrypted part is nonempty hexadecimal |
| TransactionBytes.HexPartOutgrows | pkg/transaction/transaction.go:351-482 | an appendix with one encrypted byte in hexadecimal is written one byte longer than measured |
| TransactionBytes.AppendixFlagsTell | pkg/transaction/transaction.go:484-499 | each flag bit says whether its part is there |
| TransactionBytes.HeaderLies | pkg/transaction/transaction.go:286-310 | every field of a header by its offset: type and version at 0, timestamp 2, deadline 6, key 8, recipient 40, amount 48, fee 56, hash 64, signature 96, and from 160 on those of later versions |
| TransactionBytes.AppendixLies | pkg/transaction/transaction.go:351-378 | every part of an appendix of four text parts by its offset |
| TransactionBytes.WriteHeader | pkg/transaction/transaction.go:286-310 | appends the header's fields, which TransactionBytes.HeaderLies gives by offset |
| TransactionBytes.WriteAppendix | pkg/transaction/transaction.go:351-378 | appends the parts that are there, each behind its version byte |
| TransactionBytes.ToBytes | pkg/transaction/transaction.go:95-117 | the buffer measured beforehand is filled to its last byte with header, attachment and appendix, and every field of the header stands at its offset with its value |
| TransactionReading.ReadHeader | pkg/transaction/transaction.go:312-336 | the fields that the reader takes from any bytes, or a panic |
| TransactionReading.HeaderReadsAs | pkg/transaction/transaction.go:312-336 | what every written header is read as: the key 64 bytes long and the signature 32, so that all fields between are their neighbours' |
| TransactionReading.HeaderNeverReadsBack | pkg/transaction/transaction.go:286-336 | so no written header is ever read back |
| TransactionReading.ReadAppendix | pkg/transaction/transaction.go:380-441 | the parts that the reader takes from any bytes, or a panic |
| TransactionReading.AppendixReadsBackIff | pkg/transaction/transaction.go:351-441 | a written appendix reads back as itself exactly when encrypted parts are text, hexadecimal is short and in lower case, nonces have 32 bytes and an announced key 64 |
| TransactionReading.AnnouncementLost | pkg/transaction/transaction.go:370-422 | the announcement of a 32-byte key is written and not read back |

## Left out

- Scalar.InvertScalar: stands for the last step of key generation only; the choice of the scalar's sign before it (curve25519.go:454-472) is not part of this model.
- Scalar.Sign: the accumulated bitwise or is a boolean flag, and the output array must not be the scalar array.
- Scalar.Egcd32: the arrays must be distinct and the modulus below 2^255, as in its only call.
- FieldBytes.Pack: stated for limbs as multiplication and unpacking leave them; sums that were never multiplied are not packed in the modelled code.
- Limbs.MulSmall: for factors up to 2^20, the largest in the code being 486662; larger ones would leave limbs out of range.
- Ladder.Core: without the second output (s = nil); clamping and masking, which the code leaves to its callers, are not part of it; where the packing corrections cancel, the packed bytes are given by the packing function instead of the residue.
- Curve.ChordLaw: the abscissas of sum and difference only; that the points form a group, so that multiples add up, is left out.
- Elliptic-curve theory: the primality of the field and of the order, that verification accepts signatures, and square roots.
- BaseConversion.DivideInPlace: one method for the two inner loops of Encode and Decode, which differ only in the two bases; shift and mask are division and remainder.
- AddressCodec.FormatUint: stands for the library's number formatting, as ParseUint does for parsing; a string is a sequence of characters.
- AtVm.StateMachine.ProcessOp: the array holds 64-bit words, since every access is aligned; operands are fetched by one table instead of in each case; an operand window that runs past the code ends the run like a panic; the bytes behind the code are not modelled; bitwise operations are computed bit by bit on integers.
- AtVm.StateMachine.ExternalAct: external functions, with the registers and balances they change, are an arbitrary function that may crash; 256-bit register arithmetic and hashes are not modelled.
- AtRuns.Execute: cut off after a given number of steps, because the loop need not end.
- Difficulty.Block.SetBaseTargetAndCumulativeDifficulty: requires a window on which the code does not divide by zero, which every grown chain provides; the cumulative difficulty is a number instead of its bytes.
- RawStorage.RawStore.StoreAndMaybeConsume: files and the queue database are maps, transactions too big for the database are not split, the lock makes calls sequential, and blocks parse.
- RawStorage.RawStore.constructor: a fresh store with the genesis block at height 0; loading an existing one, whose cache stops one block short, is left out.
- Ledger.Blockchain.TransferBurst: keys have 32 bytes, so that no key collides with an id; the database transaction is an atomic update; addresses and reward assignments are carried along unread.
- Ledger.Blockchain.ExecuteBlock: heights from 6500 up panic and are excluded; the panic after a failed transfer is the result false.
- Shabal.MultiLane.CompressBlock: a vector instruction acts on each lane alone, so that the compression of one lane is a function; the state is a matrix with one row per word, which is its memory layout.
- Shabal.MultiLane.Close: the final bits of the four-lane version, always none in its callers, are left out.
- ShabalKernels.KernelsAgree: the unrolled compressions are functions on registers, their listed steps and sums tables that are folded in order; the assembly of shabal64.s is left out.
- Collector.RequestCollector.Collect: channels and timers are a sequence of events; stopping is left out.
- Collector.Handler.Handle: the channel is unbounded, where the code's delays its sender; moves are atomic, which is what separate slots and batches of their own amount to.
- Collector.Worker.ProcessReqs: the native calculation is a function of a request's parameters; the scoop it also fills in is left out.
- Encoding.Decoder.ReadBytes: a slice has no spare capacity.
- Encoding.Encoder.WriteStringBytesWithInt32Len: the bytes that a failing decoding leaves behind the cursor are left out, as in WriteBytesWithInt32Len.
- TransactionBytes.ToBytes: two of the attachment types, the others being sequences of fixed fields; reading a whole transaction back is left out, since no header is read back.
- Networking, the peer protocol, synchronisation and its glue blocks, configuration, logging, the shell, SHA-256 and AES, and the web interface.
