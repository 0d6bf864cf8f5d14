# 8-byte parity and brute-force correction, modelled in Dafny

This project models the error-localisation core of `8byte_parity.c` in Dafny and proves properties of the model. The core has three parts:

- **Parity.** `fparity32` and `fparity64` compute a block's XOR parity. An unrolled `switch` loop XORs the words into four accumulators `p1..p4`. The result is `p1 ^ p2 ^ p3 ^ p4 ^ seed`.
- **Stripe corrector.** The demonstration program treats a page as 64-bit stripes. Each stripe in turn is overwritten with the recorded parity, then with the parity of the page so modified. The candidate is kept when the page's xxh64 hash matches the recorded hash.
- **Bit-flip corrector.** `crc32_bitflip_corrector` flips each bit of a block in turn, then each pair of bits `i < j`. It stops at the first flip that restores the recorded CRC32C.

Modules:

- `LaneSchedule` (`lane_schedule.dfy`): which word indices the unrolled loop reads.
  - `CaseOf` gives the `switch` label, in the code's wrapping 64-bit arithmetic.
  - `ReadIndices` lists every index the loop reads, in order.
  - `Switch` selects between the selector as written and the selector the unrolling evidently intends.
- `Parity` (`parity.dfy`): the parity functions and their lanes.
  - The lane bookkeeping is proved once for any XOR-like operation (`IsXorGroup`, `Fold`), then used at 32 and 64 bits.
  - `XorFold32` and `XorFold64` are the single-accumulator reference parities.
  - `FParity32` and `FParity64` model the two C functions, including the misaligned-length answer and the 32-bit truncation of the 64-bit seed.
- `Stripe` (`stripe.dfy`): the stripe substitution loop of `main`.
  - `Substitute` is one candidate.
  - `StripeCorrect` is the loop.
  - The xxh64 hash is a function parameter.
- `Bitflip` (`bitflip.dfy`): `ALIGN`, `bitshift`, `struct crc32_correction` and `crc32_bitflip_corrector`.
  - The CRC32C function is a parameter.
  - The corrector's two loop nests are the methods `SingleBitPass` and `DoubleBitPass`.

Blocks are sequences of words (`seq<bv32>`, `seq<bv64>`) or bytes (`seq<bv8>`). The C code updates them in place through a pointer. The model returns the updated sequence instead.

## Behaviour worth knowing

- **Stripe acceptance.** The stripe loop accepts a candidate when the xxh64 hash of the page matches the recorded one (8byte_parity.c:258-259). No CRC is involved there.
- **Misaligned length.** A length that is not a multiple of the word width returns `-1` converted to the result type, which is all ones (8byte_parity.c:24-27, 72-75).
  - `MisalignedIsIndistinguishable64` and `MisalignedIsIndistinguishable32` show that every such answer is also the parity of some aligned block.
  - `MisalignedIgnoresSeed64` and `MisalignedIgnoresSeed32` show that the seed has no effect on it.
- **No initial check.** The bit-flip corrector starts flipping at once; it never compares the unmodified block's CRC first (8byte_parity.c:137-143).

## Model

| member | source | states |
|---|---|---|
| LaneSchedule.CaseOf | 8byte_parity.c:32 | The `switch` label is below 4. While words remain, the written selector `(index - index_end) % 4` on uint64 equals (4 - remaining % 4) % 4: the complement of the remaining count, not the count itself. |
| LaneSchedule.ReadIndices | 8byte_parity.c:31-52 | Every index the loop reads is at least its start index and at most `index_end + 1`. An overrun is at most two words, `ptr[index_end]` and `ptr[index_end + 1]`. |
| LaneSchedule.ReadStepFits | 8byte_parity.c:32-50 | One pass of the `switch` reads between 1 and the remaining number of words. With the selector as written, it never leaves exactly one word behind unless exactly one word was left when it started. |
| LaneSchedule.ReadsRemainder | 8byte_parity.c:31-52 | From any loop state that does not have exactly one word left, the loop reads every remaining word exactly once, in increasing order. |
| LaneSchedule.AsWrittenReadsEachWordOnce | 8byte_parity.c:29-52 | With the selector `(index - index_end) % 4` on uint64, the loop over an n-word block reads exactly the indices 0..n-1, in order, if and only if n != 1. |
| LaneSchedule.SingleWordOverread | 8byte_parity.c:32-50 | For a one-word block the wrapped selector picks case 3, which reads indices 0, 1 and 2, two words past the end. |
| LaneSchedule.IntendedReadsEachWordOnce | 8byte_parity.c:31-52 | With the remaining-count selector, every block size is read exactly once, in order. |
| Parity.XorFold32 | 8byte_parity.c:19-54 | The reference parity: the XOR of all 32-bit words in one accumulator, which the four-lane loop is proved equal to. |
| Parity.XorFold64 | 8byte_parity.c:67-102 | The reference parity: the XOR of all 64-bit words in one accumulator, which the four-lane loop is proved equal to. |
| Parity.AbsorbCase | 8byte_parity.c:33-50 | The first k statements of a case body add exactly the XOR of the k words they read to the XOR of the four lanes. |
| Parity.Lanes | 8byte_parity.c:79-100 | After the loop from `index` to the end, the XOR of the four lanes equals their XOR before the loop combined with the XOR of every word not yet read. |
| Parity.LanesFromZero | 8byte_parity.c:67-102 | Lanes that start at zero end with `p1 ^ p2 ^ p3 ^ p4` equal to the plain XOR fold of the whole block. |
| Parity.LaneParity32 | 8byte_parity.c:19-54 | The four 32-bit lanes combine to the single-accumulator parity of the words. |
| Parity.LaneParity64 | 8byte_parity.c:67-102 | The four 64-bit lanes combine to the single-accumulator parity of the words. |
| Parity.Low32 | 8byte_parity.c:54 | Assigning a uint64 to the uint32 `ret` keeps the low half: the dropped high half and the result together rebuild the original value. |
| Parity.Low32OfXor | 8byte_parity.c:54 | Truncating a 64-bit XOR to 32 bits equals the XOR of the truncations, as when `ret` (uint32) receives a uint64 expression. |
| Parity.FParity32 | 8byte_parity.c:18-57 | A length not divisible by 4 gives all ones. Otherwise the result is the XOR of all words with the low 32 bits of the seed. |
| Parity.FParity64 | 8byte_parity.c:66-105 | A length not divisible by 8 gives all ones. Otherwise the result is the XOR of all words with the seed. |
| Parity.SelectorsAgree64 | 8byte_parity.c:80 | Wherever the written selector reads in bounds, it yields the same parity as the intended one. |
| Parity.SeedLinearity64 | 8byte_parity.c:102 | For an aligned block, the parities under two seeds differ by exactly the XOR of the seeds. |
| Parity.SeedLinearity32 | 8byte_parity.c:54 | For an aligned block of 32-bit words, the parities under two seeds differ by exactly the low 32 bits of the XOR of the seeds. |
| Parity.EmptyBlockYieldsSeed64 | 8byte_parity.c:77-102 | A zero-length block returns the seed. |
| Parity.EmptyBlockYieldsSeed32 | 8byte_parity.c:29-54 | A zero-length block returns the low 32 bits of the seed. |
| Parity.MisalignedIsIndistinguishable64 | 8byte_parity.c:72-75 | Every misaligned call, for any words, length and seed, returns what an aligned two-word block returns under that seed. A caller cannot tell the error from a value. |
| Parity.MisalignedIsIndistinguishable32 | 8byte_parity.c:24-27 | The same for fparity32: every misaligned answer is also the parity of some aligned 8-byte block. |
| Parity.MisalignedIgnoresSeed64 | 8byte_parity.c:72-75 | On a misaligned length the result is the same under every seed, so the XOR of two results is 0, not s1 ^ s2. Seed linearity holds only for aligned lengths. |
| Parity.MisalignedIgnoresSeed32 | 8byte_parity.c:24-27 | The same for fparity32: a misaligned length ignores the seed. |
| Parity.XorFoldUpdate64 | 8byte_parity.c:255-257 | Replacing one stripe changes the block parity by exactly the old stripe XOR the new one. |
| Parity.XorFoldUpdateSame64 | 8byte_parity.c:255-257 | A stripe replacement that leaves the block parity unchanged puts back the same stripe. |
| Stripe.Substitute | 8byte_parity.c:255-257 | The candidate differs from the page only in stripe i, and the XOR parity of the whole candidate equals the recorded parity. |
| Stripe.SubstitutionReconstructs | 8byte_parity.c:243-257 | If the page differs from the original in stripe k only, candidate k against the original's parity is the original page. |
| Stripe.StripeCorrect | 8byte_parity.c:254-265 | The loop stops at the first stripe whose candidate restores the recorded hash, and the page holds that candidate. If there is none, it runs to the end with the page unchanged. Either way the page ends with the recorded hash or unchanged, which is the match / not-match test at 272-277. |
| Stripe.StripeRecoversSingleCorruption | 8byte_parity.c:242-265 | With one corrupted stripe k, the loop stops at or before k and leaves a page with the original's hash. If no earlier candidate collides on the hash, it stops at k and returns the original page. |
| Stripe.StripeLeavesIntactBlock | 8byte_parity.c:243-265 | On an uncorrupted page the first candidate is the page itself, so the loop stops at stripe 0 and changes nothing. |
| Bitflip.Align | 8byte_parity.c:109 | `ALIGN(x, y)` is the quotient x / y, the number of whole y-blocks below x. With y = 8 it is the index of the byte that holds bit x. |
| Bitflip.BitShift | 8byte_parity.c:111-117 | For a bit index taken as unsigned, the table entry `jump_table[shift % 8]` is the single-bit mask `1 << (shift % 8)`. |
| Bitflip.ToCInt | 8byte_parity.c:139 | Passing the `unsigned` bit index to `bitshift(int shift)` gives the `int` in [-2^31, 2^31) that equals i modulo 2^32. Indices from 2^31 on become negative. |
| Bitflip.CRem | 8byte_parity.c:116 | C's `%`, which truncates toward zero. The remainder lies strictly between -n and n, equals Dafny's `%` for a non-negative operand, and is at most 0 for a negative one. |
| Bitflip.TableIndexAsWritten | 8byte_parity.c:111-116 | The index `shift % 8` at which bitshift reads `jump_table` for the corrector's unsigned bit index, as written. It lies strictly between -8 and 8, so it can be negative. |
| Bitflip.TableIndexOutOfBounds | 8byte_parity.c:111-116 | As written, with bit index 2^31 + 1 passed to `int shift`, C's truncating `%` gives table index -7, before the start of `jump_table`. |
| Bitflip.TableIndexInBounds | 8byte_parity.c:111-116 | Below 2^31 bits, the written index `(int)i % 8` is the unsigned bit position within the byte, so the table is read in bounds. |
| Bitflip.FlipBit | 8byte_parity.c:139 | `ptr[ALIGN(i, 8)] ^= bitshift(i)` keeps the block's length and changes no byte other than byte i / 8. |
| Bitflip.FlipBitInvolution | 8byte_parity.c:139-142 | The restore statement undoes the flip: flipping bit i twice gives the block back. |
| Bitflip.FlipsCommute | 8byte_parity.c:149-156 | Two flips give the same block in either order. |
| Bitflip.FlipChangesExactlyOneBit | 8byte_parity.c:139 | `ptr[ALIGN(i, 8)] ^= bitshift(i)` changes bit i of the block and no other bit. |
| Bitflip.FlipPairChangesExactlyTwoBits | 8byte_parity.c:149-151 | Flipping bits i != j changes exactly those two bits of the block. |
| Bitflip.Correction | 8byte_parity.c:119-128 | The record `struct crc32_correction`: the memory (its length is `size`), the CRC to match, the byte offset of the fix, and the one-bit `fixed` flag as a boolean. |
| Bitflip.SingleBitPass | 8byte_parity.c:137-143 | The first loop finds the first bit whose flip gives the recorded CRC and leaves it flipped. If there is none, every flip is undone. |
| Bitflip.DoubleBitPass | 8byte_parity.c:147-157 | The nested loops find the first pair i < j, in loop order, whose two flips give the recorded CRC, and leave both flipped. If there is none, every flip is undone. |
| Bitflip.CrcBitflipCorrector | 8byte_parity.c:130-165 | A single-bit match wins over any pair. A match sets `fixed` and records the byte of bit i, which lies inside the block, as the error offset. With no match, the record is returned untouched. |
| Bitflip.BitflipOutcomeIsUnique | 8byte_parity.c:130-165 | The corrector's outcome (which flip, and the resulting record) is determined by the record and the CRC function. |
| Bitflip.SingleBitRecovery | 8byte_parity.c:137-164 | A block with one flipped bit k is repaired to the intact block, with byte k / 8 recorded, unless an earlier single flip collides on the CRC. |
| Bitflip.DoubleBitRecovery | 8byte_parity.c:147-164 | A block with bits k1 < k2 flipped is repaired to the intact block, with byte k1 / 8 recorded, when no single flip and no earlier pair collides on the CRC. |

## Left out

- Timing, benchmarking and messages: the speed loops of `main` (187-237), every `printf`, and `clock`/`srand`/`rand`.
- The CRC32C and xxh64 implementations: they live in other files and are not part of this model. Both are function parameters, and no property depends on which function they are.
- `corrupt_random_bit` (167-177): it is randomised fault injection, not correction. Its `1 << rand() % 7` never sets bit 7, so on a byte whose bits 0-6 are all set it never changes the byte and loops forever. This is noted here only.
- Byte order and pointer casts: a page is taken directly as the sequence of its 32- or 64-bit words. The reinterpretation of bytes as host-endian words is not modelled.
- In-place mutation: buffers are sequence values, and the correctors return the updated sequence and record.
- Parity.FParity32, Parity.FParity64: with the selector as written, a one-word block is excluded by the precondition, because the C code reads past the buffer there. `LaneSchedule.SingleWordOverread` states what it reads instead.
- Stripe.StripeCorrect: after the loop, the program prints "probably fixed" even when no stripe matched (`i == stripe_num`). The model returns `i == |block|` and the unchanged page instead.
- Bitflip.CrcBitflipCorrector, Bitflip.SingleBitPass, Bitflip.DoubleBitPass: each requires at most 2^31 bits, which is 256 MiB. Above that bound the C code has two defects, and the model does not cover those blocks:
  - Between 2^31 and 2^32 bits, `bitshift(int)` receives negative shifts and reads `jump_table` before its start. This is the second row under "## Findings".
  - From 2^32 bits on, `unsigned i` wraps before reaching `size_t bits_to_flip`, so the loops never end when no flip matches.
- Bitflip.CrcBitflipCorrector: the signed one-bit field `int fixed:1` is a boolean. Assigning 1 to it stores a non-zero value, and only that it is non-zero is modelled.

## Findings

| source | as written | input that shows it | evidently intended | confidence | as-written member | corrected member |
|---|---|---|---|---|---|---|
| 8byte_parity.c:32 (and :80) | `switch ((index - index_end)%4)` on uint64 selects how many words the next pass reads | `fparity32(data, 4, seed)` or `fparity64(data, 8, seed)`: one word, `(0 - 1) mod 2^64 % 4 == 3`, so case 3 reads `ptr[0]`, `ptr[1]` and `ptr[2]`, two words past the buffer | each word read once; for instance `(index_end - index) % 4`, the words still to read, which reads every block exactly once | not executed | LaneSchedule.SingleWordOverread | LaneSchedule.IntendedReadsEachWordOnce |
| 8byte_parity.c:111-116 (called at :139) | `bitshift(int shift)` receives the corrector's `unsigned i` and reads `jump_table[shift % 8]` | a block of more than 2^28 bytes: bit index i = 2^31 + 1 becomes shift -2147483647, and `-2147483647 % 8 == -7` reads `jump_table[-7]` | an unsigned shift, so `shift % 8` always lies in 0..7 | not executed | Bitflip.TableIndexOutOfBounds | Bitflip.BitShift |
