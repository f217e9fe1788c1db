# snark and the course exercises, modelled in Dafny

This project models the C sources of a systems-programming course
repository.  The main part is **snark**, a file archiver
(`Homeworks/proj`).  It has three layers:

- **A growable byte buffer** (`buffer.c`).  It has a read cursor,
  capacity growth by a whole factor, and append and extract operations.
- **A byte-pair compressor** (`compress.c`).  It cuts the data into
  blocks of at most 16384 bytes.  Each block is compressed by replacing
  its most frequent adjacent pair with an unused byte value, recording a
  (code, first, second) rule each time.  It stops when the best pair
  occurs fewer than three times, no value is free, or the block holds 255
  rules (the last two stops are the corrected behaviour; see Findings).  A block is serialized as its length, its bytes, the rule count
  and the rule triples.  Uncompressing reads the blocks back and expands
  the rules last to first.
- **An archive** (`archive.c`).  It keeps records (name, raw bytes,
  compressed bytes) in a list sorted by name.  Records can be added,
  removed and extracted.  The archive is saved as name, NUL, 32-bit
  little-endian length and the compressed bytes, and loaded back from
  that form.

Beside it the project models the smaller programs of the course:

- The AES-128 block cipher of `Homeworks/Temp/aes.c`, over the GF(2^8)
  arithmetic of `Homeworks/hw4/field.c`.
- The spelling corrector of `Homeworks/hw2/correction.c`, with its
  substring helpers in `util.c`.
- A linked list with front, back and sorted insertion (`EX/EX21/list.c`).
- Sorted insertion into a singly linked list (`EX/EX16/insertion.c`).
- A word counter with insertion sort (`EX/EX15/wordlist.c`).
- Overflow checks of a 64-bit calculator (`EX/EX10/calc.c`).
- A bit-packed chessboard decoder (`EX/EX17/chessboard.c`).
- A rock-paper-scissors referee with its counters (`EX/EX05/game.c`,
  `summary.c`).
- Pointer exercises (`EX/EX08/passByReference.c`).

Each C file keeps its own form in the model:

- Code that changes state in place is a Dafny `class` or a method over
  arrays, proved against a specification function.
  - The buffer is a class over an `array<Byte>`.
  - A block is a class over a fixed array.
  - The archive is a class over a sequence of records.
  - AES works on arrays of bytes.
  - The corrector's line and word buffers are arrays.
  - The word list is a class over an array of records.
- Code that only computes is a datatype and functions with lemmas.
  Examples: the wire format, the pair search, field arithmetic and the
  game rules.

The main results are:

- The block round trip (`Bpe.BlockRoundTrip`).
- The data round trip (`DataCodec.DataRoundTrip`).
- The archive save/load round trip (`Archiver.ParseSave`).
- AES decryption undoes encryption (`Aes.DecryptEncrypt`).
- `fieldMul` is multiplication modulo x^8 + x^4 + x^3 + x + 1
  (`GaloisField.FieldMulIsProductModM`).
- Insertion sort of the word records is a stable sorting permutation
  (`WordCount.SortIsStable`).
- The corrected `checkMul` reports overflow exactly on overflow
  (`Calc.CheckMulExact`).
- The expected outputs of the three `compressData` unit tests
  (`CodecExamples.AbabcabcdOutput`, `CodecExamples.SixteenAOutput`,
  `CodecExamples.ZeroBlockOutput`).

Files:

| file | models |
|---|---|
| wrappers.dfy | Option |
| buffer.dfy | `Homeworks/proj/buffer.c` |
| codec_wire.dfy | the block wire format of `compress.c` as functions |
| codec_bpe.dfy | pair counting, pair choice, replacement, expansion and the round trip of `compress.c` as functions |
| codec_block.dfy | `compress.c`'s block functions as methods on a block class |
| codec_data.dfy | `compressData` and `uncompressData` |
| codec_examples.dfy | the expected outputs of the `compressData` unit tests in `compressTest.c` |
| archive.dfy | `Homeworks/proj/archive.c` and the listing width of `snark.c` |
| field.dfy | `Homeworks/hw4/field.c` |
| aes.dfy | `Homeworks/Temp/aes.c` |
| cstrings.dfy | the sign of `strcmp` |
| stringedit.dfy | `Homeworks/hw2/util.c` |
| correction.dfy | `Homeworks/hw2/correction.c` |
| linkedlist.dfy | `EX/EX21/list.c` |
| sortedinsert.dfy | `EX/EX16/insertion.c` |
| wordlist.dfy | `EX/EX15/wordlist.c` |
| calc.dfy | `EX/EX10/calc.c` |
| chessboard.dfy | `EX/EX17/chessboard.c` |
| game.dfy | `EX/EX05/game.c`, `EX/EX05/summary.c` |
| pointers.dfy | `EX/EX08/passByReference.c` |

## Model

| member | source | states |
|---|---|---|
| ByteBuffer.CeilDiv | Homeworks/proj/buffer.c:84 | the integer ceiling of a / b: the least multiple of b not below a, divided by b |
| ByteBuffer.GrownCapBounds | Homeworks/proj/buffer.c:81-91 | after a resize the capacity holds the new bytes, never shrinks, and overshoots what is needed by less than the old capacity |
| ByteBuffer.GrownCapOne | Homeworks/proj/buffer.c:81-91 | appending one byte to a full buffer doubles its capacity; any other buffer keeps its capacity |
| ByteBuffer.GrownCapExamples | Homeworks/proj/bufferTest.c:87-130 | the capacities the unit tests expect: 5 after four single appends, 10 after six, 10 then 20 after appending eight and eight more |
| ByteBuffer.Buffer.constructor | Homeworks/proj/buffer.c:15-23 | an empty buffer with the cursor at 0 and capacity 5 |
| ByteBuffer.Buffer.Resize | Homeworks/proj/buffer.c:81-91 | the capacity becomes GrownCap(cap, len, additional), which holds len + additional; contents, length and cursor are kept |
| ByteBuffer.Buffer.AppendByte | Homeworks/proj/buffer.c:32-38 | the contents gain val at the end; the cursor stays |
| ByteBuffer.Buffer.AppendBytes | Homeworks/proj/buffer.c:40-51 | the contents gain the first n bytes of src at the end; the cursor stays |
| ByteBuffer.Buffer.ExtractByte | Homeworks/proj/buffer.c:53-61 | succeeds exactly when a byte remains; it then yields the byte under the cursor and advances; on failure the cursor stays |
| ByteBuffer.Buffer.ExtractBytes | Homeworks/proj/buffer.c:63-78 | succeeds exactly when the buffer is non-empty and n bytes remain; it then copies them into dest and advances; on failure cursor and dest are kept |
| ByteBuffer.ReadBackScenario | Homeworks/proj/bufferTest.c:137-152 | the extractByte unit test: after appending DB 43 83 8F, four reads return those bytes in order and a fifth read fails |
| BlockWire.RulesBytes | Homeworks/proj/compress.c:41-45 | three bytes per rule; rule i sits at bytes 3i..3i+2 as code, first, second |
| BlockWire.ParseRules | Homeworks/proj/compress.c:61-68 | triples read back as rules, one per three bytes |
| BlockWire.ParseRulesBytes | Homeworks/proj/compress.c:41-68 | reading the triples of a rule list gives the list back |
| BlockWire.RulesBytesParse | Homeworks/proj/compress.c:41-68 | writing the rules read from triples gives the triples back |
| BlockWire.SerializeBlock | Homeworks/proj/compress.c:27-46 | nothing for an empty block; otherwise length low byte, high byte, the bytes, the rule count and the triples |
| BlockWire.ParseBlock | Homeworks/proj/compress.c:48-70 | None when the input ends inside the block or the length is above 16384; otherwise the block, its rules and the bytes it took |
| BlockWire.ParseBlockAsWritten | Homeworks/proj/compress.c:48-70 | deserializeBlock as written: the declared length taken whatever its size; None only when the input ends inside the block |
| BlockWire.ParseSerialize | Homeworks/proj/compress.c:27-70 | deserialize(serialize(b)) == b for every non-empty block of at most 16384 bytes and 255 rules, whatever follows |
| BlockWire.SerializeParse | Homeworks/proj/compress.c:27-70 | a non-empty block that parses re-serializes to exactly the bytes it was read from |
| BlockWire.LengthBytes | Homeworks/proj/compress.c:32-35 | the two length bytes are n mod 256 and n div 256 |
| BlockWire.OverlongLengthAccepted | Homeworks/proj/compress.c:54-57 | as written a block declaring 16385 bytes is read whole; the corrected ParseBlock rejects it |
| Bpe.FindIn | Homeworks/proj/compress.c:101-111 | the first slot of a row holding the pair, or the row length |
| Bpe.AddPair | Homeworks/proj/compress.c:98-116 | one more occurrence counted: the pair's slot bumped or a new slot with count 1 opened at the end of its row |
| Bpe.CountTable | Homeworks/proj/compress.c:88-117 | sixteen rows, one per high nibble of the pair's first byte |
| Bpe.AddPairSlot | Homeworks/proj/compress.c:98-116 | after one more position the counted pair's slot goes up by one and every other slot keeps its count |
| Bpe.CountTableDescribes | Homeworks/proj/compress.c:88-117 | every slot holds a distinct pair of s with its exact number of occurrences, and every pair of s has a slot |
| Bpe.SelectPickSpec | Homeworks/proj/compress.c:119-134 | the search over the slots keeps the largest count and a pair with that count; an equal count replaces the kept pair when its unsigned pair value is below the kept signed short (compress.c:129-131), so a kept short that is not negative is the smallest most frequent pair, and a negative one means no most frequent pair has a first byte below 0x80 and the first slot with the largest count is kept |
| Bpe.SelectPickMax | Homeworks/proj/compress.c:126-131 | the kept count is the largest count and is held by the kept pair's slot |
| Bpe.SelectPickTie | Homeworks/proj/compress.c:126-131 | the signed-short tie-break: a most frequent pair whose first byte is below 0x80 is never below the kept pair |
| Bpe.FlatSlotOf | Homeworks/proj/compress.c:121-134 | the flattened count table holds exactly the pairs of s with their counts, in row order |
| Bpe.FlatOrder | Homeworks/proj/compress.c:121-134 | the flattened table lists pairs by row, so pairs with high first bytes come last |
| Bpe.FlatComplete | Homeworks/proj/compress.c:88-117 | every pair of s has a slot in the flattened table |
| Bpe.BestPairIsMostFrequent | Homeworks/proj/compress.c:118-134 | the chosen pair is a most frequent pair of s; if some most frequent pair has a first byte below 0x80, the chosen pair is the smallest such |
| Bpe.BestPairMax | Homeworks/proj/compress.c:118-134 | the chosen pair occurs as often as the reported count, and no pair occurs more often |
| Bpe.BestPairTie | Homeworks/proj/compress.c:118-134 | among the most frequent pairs the chosen one is the smallest when one of them has a first byte below 0x80 |
| Bpe.SlotMaxIsPairMax | Homeworks/proj/compress.c:126-131 | no pair of s occurs more often than the largest slot count |
| Bpe.LowestFree | Homeworks/proj/compress.c:139-153 | the lowest byte value not in used |
| Bpe.Round | Homeworks/proj/compress.c:135-159 | one round: no rule when the best pair occurs fewer than 3 times, no value is free or the block holds 255 rules; otherwise the lowest free value as the code of the best pair (RoundMakesRule, RoundIsBest, RoundStopReasons) |
| Bpe.RoundAsWritten | Homeworks/proj/compress.c:136-159 | the round as written: with no free value it keeps the previous code, and it has no 255-rule stop |
| Bpe.Replace | Homeworks/proj/compress.c:161-173 | every non-overlapping occurrence of (a, b), left to right, replaced by c; never longer than the input |
| Bpe.ReplaceShrinks | Homeworks/proj/compress.c:161-173 | a pair that occurs is replaced at least once, so the block gets shorter |
| Bpe.ExpandRule | Homeworks/proj/compress.c:195-207 | every occurrence of the code expanded into its pair, scanning to the end of the block; None past 16384 bytes |
| Bpe.LastCodeNotExpanded | Homeworks/proj/compress.c:195 | with "AB" coded as 00, the as-written scan leaves the last 00 unexpanded where the full scan restores "ABABAB" |
| Bpe.ExpandAbsent | Homeworks/proj/compress.c:195-207 | bytes without the code come through an expansion unchanged |
| Bpe.ExpandUndoesReplace | Homeworks/proj/compress.c:161-207 | expansion undoes replacement when the code did not occur in the block and the result fits |
| Bpe.ExpandHead | Homeworks/proj/compress.c:196-206 | a code at the front expands to its pair followed by the expansion of the rest |
| Bpe.ExpandKeep | Homeworks/proj/compress.c:196-206 | any other byte at the front is kept and followed by the expansion of the rest |
| Bpe.Uncompress | Homeworks/proj/compress.c:189-211 | the rules undone last-created first; None when an expansion would pass 16384 bytes |
| Bpe.RoundMakesRule | Homeworks/proj/compress.c:136-159 | a rule is made only for a pair occurring at least 3 times, below 255 rules, with a code neither seen in the block nor issued |
| Bpe.RoundIsBest | Homeworks/proj/compress.c:118-153 | the rule's pair is a most frequent pair and its code the lowest value neither seen nor issued |
| Bpe.RoundStopReasons | Homeworks/proj/compress.c:135-153 | a round stops only when the best pair occurs fewer than 3 times, the block has 255 rules or every value is taken |
| Bpe.CodeReusedAsWritten | Homeworks/proj/compress.c:139-153 | with every value seen or issued and a pair still occurring 3 times, the as-written round issues a code that is already in use |
| Bpe.CompressFrom | Homeworks/proj/compress.c:86-180 | rounds until one stops; the block never grows |
| Bpe.CompressFromSome | Homeworks/proj/compress.c:155-173 | a round that adds rule r continues on the replaced bytes, with r first in the rules |
| Bpe.CompressFromCapacity | Homeworks/proj/compress.c:159 | compression never takes a block past 255 rules |
| Bpe.CompressFromFreshCodes | Homeworks/proj/compress.c:91-153 | no issued code was a byte of the block or issued before |
| Bpe.CompressFromDistinctCodes | Homeworks/proj/compress.c:139-153 | the issued codes are pairwise distinct |
| Bpe.UncompressCons | Homeworks/proj/compress.c:191-209 | with one more earliest rule, uncompress undoes the later rules then expands the earliest |
| Bpe.UncompressConsFails | Homeworks/proj/compress.c:197-199 | uncompress fails when the earliest rule's expansion fails |
| Bpe.CompressFromRoundTrip | Homeworks/proj/compress.c:72-211 | uncompressing what compression produced gives the original bytes back |
| Bpe.RoundShrinks | Homeworks/proj/compress.c:161-173 | a round's pair occurs in the block and its code does not |
| Bpe.BlockRoundTrip | Homeworks/proj/compress.c:72-211 | for every block of at most 16384 bytes, uncompress(compress(s)) == s, with at most 255 rules |
| BlockCodec.SelectPair | Homeworks/proj/compress.c:118-134 | the method's search over the sixteen rows returns the pick SelectPickSpec describes |
| BlockCodec.ScanRow | Homeworks/proj/compress.c:122-133 | the inner search loop over one row extends the search already run over the slots before it |
| BlockCodec.FindCode | Homeworks/proj/compress.c:139-153 | the lowest value not marked used, or none when all 256 are |
| BlockCodec.Mark | Homeworks/proj/compress.c:146 | the issued code is marked used and every other mark is kept |
| BlockCodec.Tally | Homeworks/proj/compress.c:98-116 | the row after bumping the pair's slot or opening one after the last used slot is AddPair's row |
| BlockCodec.CountAt | Homeworks/proj/compress.c:88-117 | one pass of the counting loop marks both bytes used and counts the pair at i |
| BlockCodec.SerializeRules | Homeworks/proj/compress.c:41-45 | the rule loop appends RulesBytes of the rules |
| BlockCodec.ReadLength | Homeworks/proj/compress.c:50-54 | the first two reads yield the length, low byte first, or fail at the end of input |
| BlockCodec.ReadBody | Homeworks/proj/compress.c:54-69 | after the length, reading the bytes, the count and the rules agrees with ParseBlock |
| BlockCodec.ReadRules | Homeworks/proj/compress.c:61-68 | rc triples read as ParseRules reads them, failing when the input ends first |
| BlockCodec.ParseFromNone | Homeworks/proj/compress.c:48-70 | the parse fails when the input ends early or the length is above 16384 |
| BlockCodec.ParseFromSome | Homeworks/proj/compress.c:48-70 | the parse succeeds on a complete block |
| BlockCodec.WriteBlock | Homeworks/proj/compress.c:27-46 | the writes of a non-empty block append SerializeBlock of it |
| BlockCodec.Block.constructor | Homeworks/proj/compress.c:215-217 | an empty block with no rules |
| BlockCodec.Block.Serialize | Homeworks/proj/compress.c:27-46 | buf gains SerializeBlock of the block |
| BlockCodec.Block.Deserialize | Homeworks/proj/compress.c:48-70 | succeeds exactly when ParseBlock does; the block, its rules and the cursor then follow ParseBlock |
| BlockCodec.Block.CountPairs | Homeworks/proj/compress.c:88-117 | the used marks are the block's bytes and the rows are CountTable of the block |
| BlockCodec.Block.ReplacePairs | Homeworks/proj/compress.c:161-173 | the block becomes Replace of its old contents |
| BlockCodec.Block.ShiftUp | Homeworks/proj/compress.c:201-202 | every byte after j moves one place right; the bytes up to j stay |
| BlockCodec.Block.ShiftDown | Homeworks/proj/compress.c:169-170 | every byte after j moves one place left; the bytes before j stay |
| BlockCodec.Block.ReplaceAt | Homeworks/proj/compress.c:165-172 | the code written at i and the rest after i + 1 moved one place left |
| BlockCodec.Block.CompressBlock | Homeworks/proj/compress.c:72-187 | the block and its new rules are CompressFrom of the old contents |
| BlockCodec.Block.CompressRound | Homeworks/proj/compress.c:86-179 | one pass of the loop: the round Round describes, applied or found to stop |
| BlockCodec.Block.ApplyRound | Homeworks/proj/compress.c:155-173 | the rule is appended and its pair replaced by its code throughout |
| BlockCodec.Block.AddRule | Homeworks/proj/compress.c:155-173 | the rules gain r at the end and the block becomes Replace of the old one |
| BlockCodec.Block.ChooseRule | Homeworks/proj/compress.c:87-153 | the rule Round chooses, or none exactly when Round stops |
| BlockCodec.Block.ExpandCode | Homeworks/proj/compress.c:195-208 | the block becomes ExpandRule of it; fails exactly when ExpandRule does |
| BlockCodec.Block.ExpandAt | Homeworks/proj/compress.c:196-207 | one position of the scan: the code there expanded, any other byte passed over |
| BlockCodec.Block.InsertPair | Homeworks/proj/compress.c:200-206 | the bytes after j move one place right and x, y are written at j and j + 1 |
| BlockCodec.Block.UncompressBlock | Homeworks/proj/compress.c:189-211 | succeeds exactly when Uncompress does, leaving its result |
| BlockCodec.BestPairOfRows | Homeworks/proj/compress.c:118-134 | the pick of the row search is the pick BestPair describes |
| BlockCodec.RoundStops | Homeworks/proj/compress.c:135-153 | the round's decision from the count, the rule count and the code found |
| BlockCodec.CompressFromStep | Homeworks/proj/compress.c:136-173 | a round that makes a rule continues on the replaced bytes with one more rule and the code marked used |
| BlockCodec.CompressFromStop | Homeworks/proj/compress.c:136-137 | a round that makes no rule ends compression |
| BlockCodec.PendingMatch | Homeworks/proj/compress.c:195-207 | expanding the code at j writes the pair and resumes after its first byte |
| BlockCodec.PendingSkip | Homeworks/proj/compress.c:195-207 | any other byte is passed over |
| BlockCodec.PendingFull | Homeworks/proj/compress.c:197-199 | a code in a full block cannot be expanded |
| BlockCodec.UncompressStep | Homeworks/proj/compress.c:191-209 | undoing one more rule expands the result of the later rules |
| BlockCodec.UncompressStepFails | Homeworks/proj/compress.c:197-199 | the same step when the expansion fails |
| BlockCodec.UncompressFails | Homeworks/proj/compress.c:197-199 | once the expansion of a rule fails, uncompressBlock fails |
| DataCodec.EncodeBlock | Homeworks/proj/compress.c:239-240 | the wire form of a block of raw bytes is non-empty exactly when the block is, and reads back to the compressed block |
| DataCodec.CompressDataSpec | Homeworks/proj/compress.c:213-257 | compressData's output: blocks of 16384 bytes from the front, each compressed and serialized, the last holding what is left (DataRoundTrip proves it undone) |
| DataCodec.UncompressDataSpec | Homeworks/proj/compress.c:259-273 | uncompressData's output: blocks read and uncompressed while two bytes remain; None when a block cannot be read or uncompressed |
| DataCodec.FillsOneBlock | Homeworks/proj/compress.c:222-247 | bytes that fill the block being formed to 16385 make one block as written |
| DataCodec.OverlongBlock | Homeworks/proj/compress.c:222-254 | 16385 bytes make one block one byte over the limit as written, where the intended split is a full block and one more |
| DataCodec.EncodeBlockThen | Homeworks/proj/compress.c:259-273 | a compressed block is read back, uncompressed to its bytes, and the rest of the input follows |
| DataCodec.DataRoundTrip | Homeworks/proj/compress.c:213-273 | uncompressData(compressData(x)) == x for every input |
| DataCodec.EncodesEmitted | Homeworks/proj/compress.c:222-247 | the wire forms of the closed blocks are the full-block output of their bytes |
| DataCodec.ContainsByte | Homeworks/proj/compress.c:227-231 | true exactly when b is among the first size tracked values |
| DataCodec.EmitBlock | Homeworks/proj/compress.c:239-240 | buf gains EncodeBlock of the block's bytes |
| DataCodec.CompressData | Homeworks/proj/compress.c:213-257 | the output is CompressDataSpec of the bytes from the cursor; the cursor ends at the end |
| DataCodec.Fill | Homeworks/proj/compress.c:222-248 | every byte goes into the block; each full block is closed onto buf |
| DataCodec.Track | Homeworks/proj/compress.c:226-234 | b is added to the tracked values unless already there or the record is full |
| DataCodec.AddByte | Homeworks/proj/compress.c:222-247 | one pass of the loop: b joins the block and the tracked values, and a full block is closed |
| DataCodec.Flush | Homeworks/proj/compress.c:237-247 | the full block is compressed and serialized to buf, then emptied |
| DataCodec.EmitLast | Homeworks/proj/compress.c:250-254 | the last block is closed unless the loop has just closed one |
| DataCodec.UncompressData | Homeworks/proj/compress.c:259-273 | null exactly when UncompressDataSpec fails; otherwise its bytes |
| DataCodec.UncompressStep | Homeworks/proj/compress.c:263-271 | one pass reads a block, uncompresses it and appends its bytes; a failure fails the whole input |
| DataCodec.ParseFails | Homeworks/proj/compress.c:265-266 | a block that cannot be read makes the whole input fail |
| DataCodec.UncompressFails | Homeworks/proj/compress.c:268-269 | a block that cannot be uncompressed makes the whole input fail |
| DataCodec.UncompressDone | Homeworks/proj/compress.c:263 | with fewer than two bytes left nothing more is produced |
| CodecExamples.RunPairs | Homeworks/proj/compress.c:88-117 | in n copies of x the pair (x, x) occurs n - 1 times and no other pair occurs |
| CodecExamples.RunReplaced | Homeworks/proj/compress.c:161-173 | replacing (x, x) by c in 2m copies of x gives m copies of c |
| CodecExamples.RunRound | Homeworks/proj/compress.c:118-159 | a round on 2^(n+1) copies of k, with the values below k taken, makes the rule (k + 1, k, k) for n >= 1 and stops on two bytes |
| CodecExamples.CompressRun | Homeworks/proj/compress.c:72-187 | compressBlock turns 2^(n+1) copies of k into two copies of k + n under the n rules (k + i + 1, k + i, k + i) |
| CodecExamples.CompressStep | Homeworks/proj/compress.c:155-173 | a round that makes rule r and leaves t is followed by the compression of t, with r first |
| CodecExamples.OneBlockOutput | Homeworks/proj/compress.c:213-257 | input of at most one block is written as that block's length, bytes, rule count and rules |
| CodecExamples.GageCompressed | Homeworks/proj/compressTest.c:128-151 | for four distinct non-zero bytes, a b a b c a b c d compresses to 00 00 c 00 c d under the one rule (00, a, b) |
| CodecExamples.GageOutput | Homeworks/proj/compressTest.c:128-151 | compressData writes 06 00 00 00 c 00 c d 01 00 a b for that input |
| CodecExamples.AbabcabcdOutput | Homeworks/proj/compressTest.c:128-151 | compressData on "ABABCABCD" writes 06 00 00 00 43 00 43 44 01 00 41 42, as the unit test expects |
| CodecExamples.SixteenCompressed | Homeworks/proj/compressTest.c:153-177 | sixteen copies of a byte x above 02 compress to 02 02 under the rules (00, x, x), (01, 00, 00), (02, 01, 01) |
| CodecExamples.SixteenOutput | Homeworks/proj/compressTest.c:153-177 | compressData writes 02 00 02 02 03 00 x x 01 00 00 02 01 01 for sixteen copies of x |
| CodecExamples.SixteenAOutput | Homeworks/proj/compressTest.c:153-177 | compressData on sixteen 'A's writes 02 00 02 02 03 00 41 41 01 00 00 02 01 01, as the unit test expects |
| CodecExamples.ZeroBlockCompressed | Homeworks/proj/compressTest.c:179-215 | 16384 zero bytes compress to 0D 0D under the thirteen rules (01, 00, 00) up to (0D, 0C, 0C) |
| CodecExamples.ZeroBlockOutput | Homeworks/proj/compressTest.c:179-215 | compressData on 16384 zero bytes writes 02 00 0D 0D 0D and then the thirteen rules, as the unit test expects |
| Archiver.Find | Homeworks/proj/archive.c:193-226 | the first record with that name, or the record count |
| Archiver.InsertPos | Homeworks/proj/archive.c:160-177 | where the add walk stops: the first record whose name is not below the new name |
| Archiver.InsertPosUnique | Homeworks/proj/archive.c:160-177 | the walk's stopping point is the only index with those two facts |
| Archiver.FindUnique | Homeworks/proj/archive.c:193-204 | the first occurrence of a name is the only index with its facts |
| Archiver.InsertPosFinds | Homeworks/proj/archive.c:162-166 | in a sorted list a name is present exactly when the walk stops on it |
| Archiver.InsertWalk | Homeworks/proj/archive.c:160-177 | the walk stops at InsertPos: past every record whose name is below the new one |
| Archiver.AddFacts | Homeworks/proj/archive.c:160-177 | in a sorted archive the walk's duplicate test finds every duplicate and the insertion keeps the names sorted; in any archive it keeps every record sound |
| Archiver.Added | Homeworks/proj/archive.c:154-181 | the list with r put where the walk stops |
| Archiver.AddedAsWritten | Homeworks/proj/archive.c:166-172 | the list addArchive leaves as written: a record whose walk stops at the second node replaces the head |
| Archiver.SecondSlotLost | Homeworks/proj/archive.c:169-172 | with "a", "c" stored, adding "b" as written leaves "b", "c" instead of "a", "b", "c" |
| Archiver.AddedSorted | Homeworks/proj/archive.c:154-181 | adding a new name keeps the names strictly sorted |
| Archiver.AddedContents | Homeworks/proj/archive.c:154-181 | adding r keeps every old record and gains r alone |
| Archiver.AddedSound | Homeworks/proj/archive.c:154-181 | adding a sound record keeps every record's compressed bytes uncompressing to its raw bytes |
| Archiver.Removed | Homeworks/proj/archive.c:184-206 | the list without record k |
| Archiver.RemovedFacts | Homeworks/proj/archive.c:184-206 | removing a name from a sorted list leaves it sorted, without that name, with every other record kept |
| Archiver.RemovedSound | Homeworks/proj/archive.c:184-206 | removal keeps every record sound |
| Archiver.RemoveAsWritten | Homeworks/proj/archive.c:184-206 | removeArchive as written: None (a null head followed) on an empty archive; otherwise the first record of that name removed, or nothing |
| Archiver.EmptyRemoveFollowsNull | Homeworks/proj/archive.c:187-189 | as written, removing from an empty archive follows a null head; the model finds no such name |
| Archiver.LE32 | Homeworks/proj/archive.c:249-252 | the four bytes of n, least significant first |
| Archiver.SaveBytes | Homeworks/proj/archive.c:231-263 | saveArchive's output: each record as name, NUL, 32-bit little-endian length and compressed bytes, in list order (ParseSave proves it loads back) |
| Archiver.Decode32LE32 | Homeworks/proj/archive.c:109 | decoding the four length bytes gives n back |
| Archiver.NameEnd | Homeworks/proj/archive.c:96-98 | the index of the first NUL, with no NUL before it |
| Archiver.ParseRecord | Homeworks/proj/archive.c:91-122 | one record and the bytes it takes, at least 5; None when the input ends inside it or it does not uncompress |
| Archiver.ParseRecordBytes | Homeworks/proj/archive.c:91-122 | a record parses back from its saved bytes, whatever follows |
| Archiver.ParseArchive | Homeworks/proj/archive.c:70-139 | loadArchive's reading: the records in file order, None when a record is cut short or does not uncompress |
| Archiver.ParseSave | Homeworks/proj/archive.c:70-263 | loading what was saved gives the same records in the same order |
| Archiver.ParsedSound | Homeworks/proj/archive.c:120-122 | every record a load yields is sound |
| Archiver.SpaceRun | Homeworks/proj/archive.c:108 | the white-space run at the front of the input |
| Archiver.LengthMisread | Homeworks/proj/archive.c:107-109 | a compressed form of 8192 bytes is saved as 00 20 00 00, and the as-written scan skips the 0x20 and misreads the length |
| Archiver.BlankSkipped | Homeworks/proj/archive.c:108 | the scan of 00 20 00 00 41 reads 00 00 00 41 and takes five bytes |
| Archiver.NameOverrun | Homeworks/proj/archive.c:101-103 | a name "bb" loaded from an archive at path "a" overruns the allocation as written; ParseRecord keeps the stored name |
| Archiver.ListingWidth | Homeworks/proj/snark.c:82-95 | no column for an empty archive; otherwise at least the longest name and at least 20 |
| Archiver.MakeFileRec | Homeworks/proj/archive.c:279-303 | a record exactly when the file can be read, with its name, bytes and compressed form, which uncompresses back |
| Archiver.Archive.constructor | Homeworks/proj/archive.c:46-53 | an archive with no records |
| Archiver.Archive.Add | Homeworks/proj/archive.c:141-182 | succeeds exactly when the file can be read and the walk does not stop on a record of that name (in a sorted archive: exactly when the name is new), inserting the record where the walk stops; a sorted archive stays sorted; otherwise nothing changes |
| Archiver.Archive.Remove | Homeworks/proj/archive.c:184-206 | in records of any order, succeeds exactly when the name is present, removing its first record; a sorted archive stays sorted; otherwise nothing changes |
| Archiver.Archive.Extract | Homeworks/proj/archive.c:208-229 | in records of any order, found exactly when the name is present; the bytes are its first record's, which its compressed form uncompresses to |
| Archiver.Archive.Save | Homeworks/proj/archive.c:231-263 | the bytes written are SaveBytes of the records |
| Archiver.Archive.LongestName | Homeworks/proj/archive.c:265-276 | no name is longer than the result, and some name has that length unless it is 0 |
| Archiver.Load | Homeworks/proj/archive.c:70-139 | null exactly when the bytes do not parse as whole records; otherwise the parsed records, all sound |
| Archiver.LoadStep | Homeworks/proj/archive.c:91-137 | one record read joins the records and reading resumes after it |
| GaloisField.FieldAdd | Homeworks/hw4/field.c:9-12 | addition is a byte and is the bitwise XOR of its arguments |
| GaloisField.FieldSub | Homeworks/hw4/field.c:14-17 | subtraction equals addition |
| GaloisField.AddCommutes | Homeworks/hw4/field.c:9-12 | a + b == b + a |
| GaloisField.AddAssociates | Homeworks/hw4/field.c:9-12 | (a + b) + c == a + (b + c) |
| GaloisField.AddIdentities | Homeworks/hw4/field.c:9-12 | 0 is the identity and every element is its own negative |
| GaloisField.SubUndoesAdd | Homeworks/hw4/field.c:9-17 | (a + b) - b == a |
| GaloisField.PartialProductFits | Homeworks/hw4/field.c:21-37 | the first stage of fieldMul fits in 15 bits |
| GaloisField.PartialProductIsClMul | Homeworks/hw4/field.c:21-37 | the first stage is the carry-less polynomial product |
| GaloisField.ClMulComm | Homeworks/hw4/field.c:21-37 | the carry-less product commutes |
| GaloisField.PartialProductXor | Homeworks/hw4/field.c:21-37 | the first stage distributes over addition |
| GaloisField.ReducedClears | Homeworks/hw4/field.c:39-51 | after n reduction steps bits 16 - n to 15 are clear |
| GaloisField.ReducedIsAByte | Homeworks/hw4/field.c:39-51 | the second stage leaves a byte, so the final cast loses nothing |
| GaloisField.ReducedXor | Homeworks/hw4/field.c:39-51 | reduction distributes over XOR |
| GaloisField.ReducedIsMod | Homeworks/hw4/field.c:39-51 | after n steps the value differs from the input by a multiple of m(x) with quotient below 256 |
| GaloisField.FieldMulIsProductModM | Homeworks/hw4/field.c:19-51 | fieldMul(a, b) is a byte that differs from the carry-less product by a multiple of x^8 + x^4 + x^3 + x + 1 |
| GaloisField.ProductModMUnique | Homeworks/hw4/field.c:19-51 | only one byte is congruent to a product modulo m(x), so the result is the product in GF(2^8) |
| GaloisField.FieldMulSpec | Homeworks/hw4/field.c:19-51 | fieldMul's result: the 15-bit partial product, reduced by the shifted modulus, cast to a byte (FieldMulIsProductModM proves it the GF(2^8) product) |
| GaloisField.FieldMul | Homeworks/hw4/field.c:19-51 | the two shift-and-XOR loops compute FieldMulSpec |
| GaloisField.MulCommutes | Homeworks/hw4/field.c:19-51 | a * b == b * a |
| GaloisField.MulIdentities | Homeworks/hw4/field.c:19-51 | 1 is the identity and 0 absorbs |
| GaloisField.MulDistributes | Homeworks/hw4/field.c:19-51 | a * (b + c) == a * b + a * c |
| GaloisField.FipsExample57x83 | Homeworks/hw4/field.c:19-51 | {57} * {83} == {c1}, the worked example of section 4.2 of FIPS-197 |
| GaloisField.FipsExample57x13 | Homeworks/hw4/field.c:19-51 | {57} * {13} == {fe}, the worked example of section 4.2.1 of FIPS-197 |
| Aes.RotationsUndo | Homeworks/Temp/aes.c:196-209 | a left rotation of a word and a right rotation undo each other |
| Aes.RotLeftByAt | Homeworks/Temp/aes.c:69-75 | n left rotations move byte (c + n) mod 4 to position c |
| Aes.RotRightByAt | Homeworks/Temp/aes.c:77-83 | n right rotations move byte (c - n) mod 4 to position c |
| Aes.TransposeTwice | Homeworks/Temp/aes.c:45-67 | squaring a block and turning it back gives the block back |
| Aes.ShiftRowsRotates | Homeworks/Temp/aes.c:69-75 | ShiftRows rotates row r left by r places, leaving row 0 alone |
| Aes.UnShiftRowsRotates | Homeworks/Temp/aes.c:77-83 | InvShiftRows rotates row r right by r places |
| Aes.ShiftRowsUndo | Homeworks/Temp/aes.c:69-83 | InvShiftRows undoes ShiftRows |
| Aes.AddKeyTwice | Homeworks/Temp/aes.c:40-43 | adding the same round key twice gives the block back |
| Aes.SubBytesUndo | Homeworks/Temp/aes.c:118-156 | SubBytes with a box and then with its inverse gives the block back |
| Aes.MixColumn | Homeworks/Temp/aes.c:85-103 | column c of the mixed square is the matrix times column c |
| Aes.MixUndo | Homeworks/Temp/aes.c:85-103 | mixing with the inverse matrix undoes mixing with the forward one |
| Aes.SubkeyWords | Homeworks/Temp/aes.c:8-38 | round key i, word j, is word 4i + j of the section 5.2 key expansion of FIPS-197 |
| Aes.RoundUndone | Homeworks/Temp/aes.c:105-160 | decryption round i undoes encryption round i |
| Aes.RoundsUndone | Homeworks/Temp/aes.c:105-160 | undoing rounds n down to m + 1 leaves the block after rounds 1 to m |
| Aes.DecryptEncryptWith | Homeworks/Temp/aes.c:105-160 | decrypting with the same key gives the plaintext back, when the inverse box and inverse matrix undo their partners |
| Aes.DecryptEncrypt | Homeworks/Temp/aes.c:105-160 | decrypting with the same key gives the plaintext back |
| Aes.RoundKeyOfSchedule | Homeworks/Temp/aes.c:8-38 | round key i of the schedule is the one section 5.2 of FIPS-197 derives |
| Aes.Encrypt | Homeworks/Temp/aes.c:105-132 | the cipher of section 5.1 of FIPS-197: the key expanded, round key 0 added, then ten rounds (DecryptEncrypt proves it undone) |
| Aes.Decrypt | Homeworks/Temp/aes.c:134-160 | the inverse cipher of section 5.3 of FIPS-197: ten inverse rounds, then round key 0 added |
| Aes.CopyData | Homeworks/Temp/aes.c:184-188 | dest gets the block at offset at; every other byte is kept |
| Aes.BitOperation | Homeworks/Temp/aes.c:190-194 | dest[i] becomes op(dest[i], source[at + i]), also when source and dest are the same array |
| Aes.AddSubkey | Homeworks/Temp/aes.c:40-43 | the block is XORed with the round key at offset at |
| Aes.ShiftBits | Homeworks/Temp/aes.c:196-209 | the word at offset at rotates one byte left or right; the rest is kept |
| Aes.GFunction | Homeworks/Temp/aes.c:24 | dest receives the g function of the source word and round number; the source is kept |
| Aes.ShiftRows | Homeworks/Temp/aes.c:69-75 | row r of the square rotated left r times |
| Aes.UnShiftRows | Homeworks/Temp/aes.c:77-83 | row r of the square rotated right r times |
| Aes.GetWords | Homeworks/Temp/aes.c:163-172 | the four words are the block's bytes 4j to 4j + 3 |
| Aes.WordsToData | Homeworks/Temp/aes.c:174-182 | the block is the four words one after another |
| Aes.BlockToSquare | Homeworks/Temp/aes.c:45-54 | row c of the square is every fourth byte of the block from byte c |
| Aes.SquareToBlock | Homeworks/Temp/aes.c:56-67 | word c of the block is column c of the square |
| Aes.VectorMultiply | Homeworks/Temp/aes.c:211-220 | column c of the square becomes the matrix times vec; the other columns are kept |
| Aes.MixColumns | Homeworks/Temp/aes.c:85-103 | every column multiplied by the matrix |
| Aes.GetColumn | Homeworks/Temp/aes.c:89-90 | vec becomes column c of the square |
| Aes.NextWords | Homeworks/Temp/aes.c:22-31 | the loop's four steps turn the words of round key i - 1 into those of round key i |
| Aes.FirstRoundKey | Homeworks/Temp/aes.c:10-18 | round key 0 is the cipher key |
| Aes.NextRoundKey | Homeworks/Temp/aes.c:21-36 | round key i is stored behind round keys 0 to i - 1 |
| Aes.GenerateSubkeys | Homeworks/Temp/aes.c:8-38 | the eleven round keys one after another |
| Aes.Substitute | Homeworks/Temp/aes.c:118-119 | every byte of the block replaced by its box value |
| Aes.SubShiftMix | Homeworks/Temp/aes.c:115-128 | SubBytes, ShiftRows and, except in round 10, MixColumns applied to the block |
| Aes.EncryptRoundInPlace | Homeworks/Temp/aes.c:114-131 | one pass of encryptBlock's loop: the block becomes cipher round i of it under round key i |
| Aes.AddFirstSubkey | Homeworks/Temp/aes.c:111-112 | round key 0 added to the block |
| Aes.EncryptWithSubkeys | Homeworks/Temp/aes.c:111-131 | with the expanded key in subkeys, the block becomes its cipher under that schedule |
| Aes.EncryptRounds | Homeworks/Temp/aes.c:114-131 | rounds 1 to 10, each block as the trace says |
| Aes.EncryptBlock | Homeworks/Temp/aes.c:105-132 | the block becomes the cipher of section 5.1 of FIPS-197 under the key |
| Aes.DecryptRounds | Homeworks/Temp/aes.c:140-157 | inverse rounds 10 down to 1, each block as the trace says |
| Aes.DecryptRoundInPlace | Homeworks/Temp/aes.c:140-157 | one pass of decryptBlock's loop: the block becomes inverse round i of it under round key i |
| Aes.DecryptWithSubkeys | Homeworks/Temp/aes.c:140-159 | with the expanded key in subkeys, the block becomes its inverse cipher under that schedule |
| Aes.DecryptBlock | Homeworks/Temp/aes.c:134-160 | the block becomes the inverse cipher of section 5.3 of FIPS-197 under the key |
| CStrings.Strcmp | Homeworks/hw2/correction.c:181 | the sign of strcmp, -1, 0 or 1, by the first differing byte or the shorter string |
| CStrings.StrcmpZero | Homeworks/hw2/correction.c:198-200 | strcmp reports equality exactly for equal strings |
| CStrings.StrcmpFlip | Homeworks/hw2/correction.c:181 | swapping the arguments flips the sign |
| CStrings.StrcmpTrans | Homeworks/hw2/correction.c:181 | the strcmp order is transitive |
| StringEdit.StrLen | Homeworks/hw2/util.c:14 | the index of the first NUL, with no NUL before it |
| StringEdit.Strlen | Homeworks/hw2/util.c:14 | the loop returns StrLen of the string |
| StringEdit.Strcpy | Homeworks/hw2/util.c:17 | the string and its NUL land at dst + di; every other byte of dst is kept |
| StringEdit.Strcat | Homeworks/hw2/util.c:19 | the string in dst becomes its old string followed by src's |
| StringEdit.RemoveInserted | Homeworks/hw2/util.c:11-33 | removing what was just inserted gives the string back |
| StringEdit.InsertRemoved | Homeworks/hw2/util.c:11-33 | inserting what was just removed gives the string back |
| StringEdit.SaveTail | Homeworks/hw2/util.c:14-17 | a fresh array holding the string's tail from the given index |
| StringEdit.Cut | Homeworks/hw2/util.c:18 | the string now ends at pos |
| StringEdit.RemoveSubstr | Homeworks/hw2/util.c:11-20 | the string loses len characters at pos |
| StringEdit.InsertSubstr | Homeworks/hw2/util.c:22-33 | the string gains the inserted string at pos |
| Corrections.ToLower | Homeworks/hw2/correction.c:191-192 | upper-case letters lowered, everything else kept |
| Corrections.Lower | Homeworks/hw2/correction.c:191-192 | every letter of the word lowered |
| Corrections.AcceptedKeepsOrder | Homeworks/hw2/correction.c:180-183 | an accepted target goes strictly after every stored one, so the table stays strictly sorted |
| Corrections.LookupFinds | Homeworks/hw2/correction.c:186-210 | in a strictly sorted table a target sits at one index only |
| Corrections.NothingListed | Homeworks/hw2/correction.c:45-91 | with no corrections every line comes back unchanged |
| Corrections.ScanStartsWithWord | Homeworks/hw2/correction.c:45-91 | a corrected line starts with the correction of its first word |
| Corrections.CorrectionTable.constructor | Homeworks/hw2/correction.c:34-43 | the empty table |
| Corrections.CorrectionTable.CheckCorrections | Homeworks/hw2/correction.c:186-210 | the index of the lowered word among the targets, -1 exactly when it is not one |
| Corrections.CorrectionTable.IsValidCorrection | Homeworks/hw2/correction.c:157-184 | true exactly when both have at most WORD_LIMIT characters and differ, the target is lower-case letters and apostrophes, the replacement letters, digits and apostrophes, neither is already a target, and the target does not sort before the last one stored |
| Corrections.ValidCorrection | Homeworks/hw2/correction.c:157-184 | the conditions isValidCorrection checks, as a predicate over the stored targets |
| Corrections.CorrectionTable.FindCorrection | Homeworks/hw2/correction.c:137-155 | a valid pair below the table limit is appended; otherwise the table is unchanged |
| Corrections.CorrectionTable.ScanWords | Homeworks/hw2/correction.c:45-91 | the line with each listed word replaced by its correction in the word's casing; none when the result exceeds LINE_LIMIT |
| Corrections.CorrectionTable.ScanStep | Homeworks/hw2/correction.c:57-88 | one pass of the loop: a word character joins the word, any other character ends it and is kept |
| Corrections.CorrectionTable.FixWord | Homeworks/hw2/correction.c:64-84 | a finished listed word of at most WORD_LIMIT letters is replaced by its cased correction |
| Corrections.CorrectionTable.FindListed | Homeworks/hw2/correction.c:64-72 | the table entry that corrects the word, none for a word longer than WORD_LIMIT or not listed |
| Corrections.Cased | Homeworks/hw2/correction.c:72-84 | the replacement with a capital wherever the replaced word has one |
| Corrections.CasedOnlyChangesCase | Homeworks/hw2/correction.c:72-84 | lowered, the cased replacement is the replacement |
| Corrections.CasedFollowsWord | Homeworks/hw2/correction.c:72-84 | position j is upper case exactly when word[j] is and the replacement has a letter there |
| Corrections.CapitalsCopyTheWord | Homeworks/hw2/correction.c:78-79 | with teh -> the, the line word "TEH" is written back as "TEH" as written |
| Corrections.TerminatorOverwritten | Homeworks/hw2/correction.c:75-81 | with abc -> x, the word "ABC" loses the replacement's terminator as written |
| Corrections.SpacedCorrected | Homeworks/hw2/correction.c:74-83 | with a -> corr, each "a " becomes the replacement and its space |
| Corrections.WorkingCopyOverflows | Homeworks/hw2/correction.c:48 | a line of 20 bytes grows to 210 under one valid correction, past the working copy |
| Corrections.CopyLine | Homeworks/hw2/correction.c:48-53 | the working copy holds the line and its NUL |
| Corrections.ReplaceWord | Homeworks/hw2/correction.c:74-83 | the word cut out and the cased replacement inserted where it stood |
| Corrections.ReplaceEnding | Homeworks/hw2/correction.c:74-84 | ReplaceWord for the word ending at i, with the index moved past the replacement |
| Corrections.CasedCopy | Homeworks/hw2/correction.c:75-81 | a fresh buffer holding the cased replacement and its NUL |
| Corrections.TooLongToFit | Homeworks/hw2/correction.c:88-89 | when a replacement cannot fit, the corrected line is longer than LINE_LIMIT |
| Corrections.ScanWordStep | Homeworks/hw2/correction.c:58-62 | a word character extends the word in progress |
| Corrections.ScanSeparatorStep | Homeworks/hw2/correction.c:64-85 | any other character finishes the word and is kept |
| LinkedList.SortedSlot | EX/EX21/list.c:134-167 | the first node whose value is not below val, or the end |
| LinkedList.InsertedSortedIsSorted | EX/EX21/list.c:134-167 | sorted insertion keeps a nondecreasing list nondecreasing, gains exactly val, and puts val before equal values |
| LinkedList.Reverse | EX/EX21/listTest.c:15-29 | the values read back to front |
| LinkedList.List.constructor | EX/EX21/list.c:35-45 | no nodes and length 0 |
| LinkedList.List.InsertFront | EX/EX21/list.c:62-90 | val becomes the first value; the length still counts the nodes |
| LinkedList.List.InsertBack | EX/EX21/list.c:97-128 | val becomes the last value; the length still counts the nodes |
| LinkedList.List.InsertSorted | EX/EX21/list.c:134-167 | val linked in at SortedSlot; the length still counts the nodes |
| LinkedList.SlotIsFirst | EX/EX21/list.c:144-145 | the walk stops exactly at SortedSlot |
| LinkedList.FrontAll | EX/EX21/listTest.c:15-29 | filling a list by front insertion leaves the values reversed |
| LinkedList.BackAll | EX/EX21/listTest.c:34-48 | filling a list by back insertion keeps their order |
| LinkedList.SortedAll | EX/EX21/listTest.c:53-67 | filling a list by sorted insertion sorts the values |
| SortedInsertion.AfterEqual | EX/EX16/insertion.c:37-48 | where insert links the new node: after every value not above val |
| SortedInsertion.Insert | EX/EX16/insertion.c:27-64 | the walk links val in after every value not above it |
| SortedInsertion.AfterEqualIsFirst | EX/EX16/insertion.c:43-57 | the walk stops exactly at AfterEqual |
| SortedInsertion.HeadChanges | EX/EX16/insertion.c:30-42 | an empty list becomes [val]; the head changes exactly when val is below the old head |
| SortedInsertion.InsertedIsSorted | EX/EX16/insertion.c:27-64 | the old values and val, still nondecreasing, val after every equal value |
| SortedInsertion.InsertAllSorts | EX/EX16/insertion.c:67-78 | inserting every value read sorts them |
| WordCount.ToLower | EX/EX15/wordlist.c:47-52 | upper-case letters lowered, everything else kept |
| WordCount.WordChar | EX/EX15/wordlist.c:37-42 | a letter of either case or an apostrophe |
| WordCount.ToLowerKeepsWords | EX/EX15/wordlist.c:37-52 | lowering keeps word characters word characters and is idempotent |
| WordCount.Key | EX/EX15/wordlist.c:99-108 | the first WORD_MAX characters of the word, lowered |
| WordCount.Run | EX/EX15/wordlist.c:100-105 | the number of word characters at the front |
| WordCount.Gap | EX/EX15/wordlist.c:92-93 | the number of other characters at the front |
| WordCount.IndexOf | EX/EX15/wordlist.c:57-63 | the first record holding the word, -1 when none does |
| WordCount.CountedTallies | EX/EX15/wordlist.c:117-137 | counting one word keeps the records accurate |
| WordCount.CountedNew | EX/EX15/wordlist.c:119-137 | a new word gets a record with count 1 at the end |
| WordCount.CountedSeen | EX/EX15/wordlist.c:118-137 | a seen word counts once more in its own record |
| WordCount.TallyCounts | EX/EX15/wordlist.c:67-146 | every distinct word read has exactly one record, whose count is its number of occurrences |
| WordCount.InsertWord | EX/EX15/wordlist.c:153-162 | w moves back past every record whose word is above its own |
| WordCount.InsertWordMultiset | EX/EX15/wordlist.c:153-162 | inserting adds exactly w |
| WordCount.InsertWordSorted | EX/EX15/wordlist.c:153-162 | inserting into sorted records keeps them sorted |
| WordCount.InsertWordStable | EX/EX15/wordlist.c:157 | records with the same word keep their order and w comes after them |
| WordCount.SortIsStable | EX/EX15/wordlist.c:149-164 | the sorted records are a permutation of the old ones, in nondecreasing strcmp order, equal words in their old order |
| WordCount.WordList.constructor | EX/EX15/wordlist.c:76-87 | no records in use and room for two |
| WordCount.WordList.FindWord | EX/EX15/wordlist.c:57-63 | the first record whose word equals str, -1 when none does |
| WordCount.WordList.Grow | EX/EX15/wordlist.c:121-124 | twice the capacity, the records kept and the new slots blank |
| WordCount.WordList.CountWord | EX/EX15/wordlist.c:117-137 | the records in use become Counted of the old ones and the word |
| WordCount.WordList.SortList | EX/EX15/wordlist.c:149-164 | the records in use become Sort of the old ones; the rest of the array is kept |
| WordCount.WordList.InsertPass | EX/EX15/wordlist.c:152-163 | record i goes into place among the sorted ones before it |
| WordCount.ShiftBack | EX/EX15/wordlist.c:156-160 | the records above w move up one place and w's place is where the first one not above it stops |
| WordCount.ReadWords | EX/EX15/wordlist.c:67-146 | the records in use are the tally of the words of the input |
| WordCount.ReadStep | EX/EX15/wordlist.c:90-141 | one pass skips to a word and counts it; the file may end first |
| WordCount.SkipGap | EX/EX15/wordlist.c:92-93 | skipping the characters before a word leaves the words to come as they were |
| WordCount.ReadWord | EX/EX15/wordlist.c:99-108 | a word read is its word characters, lowered, cut to WORD_MAX |
| WordCount.TokensSkip | EX/EX15/wordlist.c:92-93 | the words skip what stands before the first word |
| WordCount.TokensAt | EX/EX15/wordlist.c:99-108 | a word starting at p is the next word |
| Calc.Wrap | EX/EX10/calc.c:28-29 | the long congruent to x modulo 2^64, x itself when it fits |
| Calc.QuotTruncates | EX/EX10/calc.c:48 | C's quotient is the multiple of b nearest a on the side of zero |
| Calc.CheckAdd | EX/EX10/calc.c:26-32 | checkAdd's test on the wrapped sum of two longs (CheckAddExact proves it exact) |
| Calc.CheckSub | EX/EX10/calc.c:35-42 | checkSub's test on the wrapped difference (CheckSubExact proves it exact) |
| Calc.CheckAddExact | EX/EX10/calc.c:26-32 | checkAdd fails exactly when the sum leaves the long range |
| Calc.CheckSubExact | EX/EX10/calc.c:35-42 | checkSub fails exactly when the difference leaves the long range |
| Calc.MulPosPos | EX/EX10/calc.c:47-50 | both positive: too large exactly when b exceeds LONG_MAX / c |
| Calc.MulNegPos | EX/EX10/calc.c:53-56 | b negative, c positive: too small exactly when b is below LONG_MIN / c |
| Calc.MulNegNeg | EX/EX10/calc.c:58-61 | both negative: too large exactly when b is below LONG_MAX / c |
| Calc.MulPosNeg | EX/EX10/calc.c:63-66 | b positive, c negative: too small exactly when c is below LONG_MIN / b |
| Calc.CheckMul | EX/EX10/calc.c:45-69 | checkMul with the positive-times-negative case comparing c with LONG_MIN / b (CheckMulExact proves it exact) |
| Calc.CheckMulAsWritten | EX/EX10/calc.c:45-69 | checkMul as written, comparing b with LONG_MIN / c in that case |
| Calc.CheckMulExact | EX/EX10/calc.c:45-69 | the corrected checkMul fails exactly when the product leaves the long range |
| Calc.CheckMulAsWrittenAgrees | EX/EX10/calc.c:45-69 | outside the positive-times-negative case the source's test is the corrected one |
| Calc.CheckMulMisreports | EX/EX10/calc.c:63-66 | 1 * -2 fits in a long, yet the source reports an overflow |
| Calc.CheckDiv | EX/EX10/calc.c:72-79 | checkDiv: false only for LONG_MIN / -1 (CheckDivExact proves it exact) |
| Calc.CheckDivExact | EX/EX10/calc.c:72-79 | checkDiv fails exactly when the quotient leaves the long range; otherwise the quotient is exact |
| Calc.Variables.constructor | EX/EX10/calc.c:9 | 26 variables, all 0 |
| Calc.Variables.Set | EX/EX10/calc.c:20-23 | the variable reads back as val and every other one as before |
| Calc.Variables.Get | EX/EX10/calc.c:13-16 | the value held for the variable named by the letter |
| Chessboard.Col | EX/EX17/chessboard.c:67-71 | bits 0-2 of the input, below 8 |
| Chessboard.Row | EX/EX17/chessboard.c:67-74 | bits 3-5 of the input, below 8 |
| Chessboard.Decoded | EX/EX17/chessboard.c:67-76 | the piece kind is bits 6-8 and the piece is light exactly when bit 9 is set |
| Chessboard.HighBitsIgnored | EX/EX17/chessboard.c:64-77 | inputs agreeing on bits 0-9 place the same piece on the same square |
| Chessboard.InitBoard | EX/EX17/chessboard.c:51-56 | every square empty |
| Chessboard.DecodeInput | EX/EX17/chessboard.c:64-77 | the decoded piece on its square, no other square changed |
| Chessboard.Letter | EX/EX17/chessboard.c:89-131 | '-' exactly for an empty square, '?' exactly for an unknown kind, otherwise the piece letter |
| Chessboard.LetterCase | EX/EX17/chessboard.c:89-131 | a piece letter is upper case exactly for a light piece |
| RockPaperScissors.Decide | EX/EX05/game.c:28-77 | equal letters tie; r beats s, s beats p, p beats r; every other pair is invalid |
| RockPaperScissors.InvalidPairs | EX/EX05/game.c:28-77 | every pair of distinct letters outside the six winning ones is invalid |
| RockPaperScissors.SwapSwapsWinner | EX/EX05/game.c:28-77 | swapping the letters swaps the winner |
| RockPaperScissors.Summary.constructor | EX/EX05/summary.c:11-13 | all three counters 0 |
| RockPaperScissors.Summary.DecideGame | EX/EX05/game.c:28-77 | an invalid game ends the program with no counter changed; otherwise exactly the tie, A-win or B-win counter grows by one |
| PassByReference.IncrementAll | EX/EX08/passByReference.c:5-8 | each cell gains d once for every pointer naming it |
| PassByReference.HitsDistinct | EX/EX08/passByReference.c:5-8 | with distinct pointers each target grows by d and nothing else changes |
| PassByReference.Rotate | EX/EX08/passByReference.c:10-16 | memory becomes Rotated of the old memory |
| PassByReference.RotatedDistinct | EX/EX08/passByReference.c:10-16 | with distinct pointers (a, b, c) becomes (b, c, a) and every other cell is kept |
| PassByReference.RotateThrice | EX/EX08/passByReference.c:10-16 | three rotations through distinct pointers restore every cell |
| PassByReference.GetLargest | EX/EX08/passByReference.c:18-26 | a pointer to a largest of the three values, the earliest among equals |

## Left out

- Files, standard input and output, `malloc`/`realloc`/`free`, error
  reporting (`error.c`) and the command loop of `snark.c` are not
  modelled. The archive's file reads and writes become byte sequences:
  a missing file is `None`, and a saved archive is the bytes `Save`
  returns.
- Archiver.ParseRecord: where `archive.c:120` uses the result of
  `uncompressData` without a null check, the model rejects the record.
  As written, a corrupt record would crash the load.
- Archiver.Archive.Extract: `archive.c:211` opens (and empties) the
  output file before the search, so a missing name still truncates a
  file. File effects are not modelled.
- Archiver.Load: a file that ends inside a record (`archive.c:96`
  reading past the end of the file) makes the whole load null.
- Archiver.ParseRecord: the name is read into `char
  filename[200]` (`archive.c:93-97`) with no bound, so a stored name of
  200 bytes or more overruns the stack array. The model accepts names of
  any length.
- Calc.CheckMulAsWritten: for b > 0 and c == -1, `calc.c:64` computes
  LONG_MIN / -1, which overflows and traps on x86-64. The model wraps
  that quotient to LONG_MIN, as `CDiv` does for every division, so it
  reports no overflow there instead of trapping.
- Archiver.ParseRecord: `archive.c:101-103` runs `makeFileRec` on the
  archive's own path before overwriting the name. That detour is not
  modelled; NameOverrun shows what it does to a long name.
- Bpe.Round: the corrected round stops when no value is free, where
  `compress.c:139-153` reuses the previous code (see Findings). It also
  stops at 255 rules, a test `compress.c:159` lacks. That stop never
  binds: each rule takes a value that is neither in the block nor
  issued before, and the block holds at least one value.
- DataCodec.Track: the distinct-value record of `compress.c:226-234`
  is modelled as written. `compress.c:233` never lets the count pass
  BYTE_LIMIT (224), so the split on `bytesSize > BYTE_LIMIT` at
  `compress.c:237` never fires. The model keeps that dead test.
- ByteBuffer.CeilDiv: `buffer.c:84` computes the ceiling through
  `double`. It is modelled on integers, which is exact for any size a
  buffer can reach.
- Aes: the S-box, its inverse, the g function of the key schedule and
  the two MixColumns matrices come from `aesUtil`. That file is not part
  of this model. They are parameters; `DecryptEncrypt` assumes only that
  the inverse box and inverse matrix undo their partners.
- The command-line drivers `encrypt.c`, `decrypt.c` and `io.c`, and the
  padding they do, are not modelled.
- Corrections: `readCorrections` and `scanLine` read from files. Their
  count increment is folded into `FindCorrection`.
- Corrections.CorrectionTable.IsValidCorrection: for the first
  correction the source reads `misspell[-1]` (`correction.c:181`). The
  model skips the order check when the table is empty.
- Corrections.CorrectionTable.CheckCorrections: on an empty table the
  source still compares with the unused row 0 (`correction.c:195-198`),
  which holds "". So it answers 0 for the empty word, where the model
  answers -1. Both replace "" by "" or leave it, so the line is the same.
- Corrections.CorrectionTable.ScanWords: a word of more than 50 letters
  overruns the word buffer (`correction.c:48, 59`). The model keeps the
  word and leaves it uncorrected, because it is longer than WORD_LIMIT.
- Corrections.CorrectionTable.ScanWords: the `size_t` arithmetic of
  `correction.c:83` is modelled on unbounded integers.
- WordCount.WordList.Grow: `realloc` at `wordlist.c:123` leaves the new
  slots uninitialised; the model fills them with blank records.
- WordCount: `wordlist.c:84, 128` allocate `sizeof(Word *)` for a
  `Word`. The model gives each record its full size.
- LinkedList, SortedInsertion: a chain of nodes is the sequence of its
  values. Node aliasing and the freeing of nodes are not modelled.
- C `int` counters and values (`game.c`, `summary.c`,
  `passByReference.c`, `list.c`, `wordlist.c`) are unbounded integers;
  overflow at 2^31 is not modelled.
- The remaining exercise directories and homeworks (hw3, EX02-EX07,
  EX12, EX18, EX22-EX25) are outside this model.

## Findings

| source | as written | input that shows it | evidently intended | confidence | as-written member | corrected member |
|---|---|---|---|---|---|---|
| Homeworks/proj/compress.c:195 | the expansion scan stops before the last byte of the block, so a code there is never expanded | the block 00 00 00 with the rule 00 -> "AB" | every occurrence of the code expanded | not executed | Bpe.LastCodeNotExpanded | Bpe.BlockRoundTrip |
| Homeworks/proj/compress.c:222-254 | a block is closed only at 16385 bytes, the last one written past the end of `block.data`; the byte that closed it starts the next block again, which is dropped if the input ends there | 16385 input bytes | blocks of at most 16384 bytes, none dropped | not executed | DataCodec.OverlongBlock | DataCodec.DataRoundTrip |
| Homeworks/proj/compress.c:54-57 | the length read is not checked against 16384, so `extractBytes` writes past `block->data` | a block declaring 16385 bytes | a length above 16384 rejected | not executed | BlockWire.OverlongLengthAccepted | BlockWire.ParseSerialize |
| Homeworks/proj/compress.c:139-159 | with no free value the previous code is issued again, and nothing bounds the unsigned-char rule count against the 255 slots of rlist | a block using all 256 values with a pair occurring 3 times | the round stops | not executed | Bpe.CodeReusedAsWritten | Bpe.CompressFromDistinctCodes |
| Homeworks/proj/archive.c:169 | a record that belongs right after the head fails the `prev != arc->head` test and becomes the head, so the old head is lost | archive "a", "c", then add "b" | "a", "b", "c" | not executed | Archiver.SecondSlotLost | Archiver.AddedSorted |
| Homeworks/proj/archive.c:187-189 | the head's name is compared before the list is checked for emptiness | remove from an empty archive | report the name as not found | not executed | Archiver.EmptyRemoveFollowsNull | Archiver.RemovedFacts |
| Homeworks/proj/archive.c:108 | the length is read with `%c %c %c %c`, which skips white-space bytes | a compressed form of 8192 bytes (length bytes 00 20 00 00) | the four bytes read verbatim | not executed | Archiver.LengthMisread | Archiver.ParseSave |
| Homeworks/proj/archive.c:101-103 | the name buffer is sized for the archive's path and the stored name copied into it | a record "bb" in an archive at path "a" | a buffer sized for the stored name | not executed | Archiver.NameOverrun | Archiver.ParseRecordBytes |
| EX/EX10/calc.c:63-66 | b positive, c negative is checked with b < LONG_MIN / c; for c == -1 that division itself overflows, which is undefined behaviour and traps on x86-64 | 1 * -2 | c < LONG_MIN / b | not executed | Calc.CheckMulMisreports | Calc.CheckMulExact |
| Homeworks/hw2/correction.c:78-79 | a capital of the word copies the word's letter, not the replacement's | teh -> the on "TEH" | "THE" | not executed | Corrections.CapitalsCopyTheWord | Corrections.CasedFollowsWord |
| Homeworks/hw2/correction.c:75-81 | the copy loop runs over the word's length and overwrites the replacement's terminator | abc -> x on "ABC" | the replacement and its terminator | not executed | Corrections.TerminatorOverwritten | Corrections.CasedOnlyChangesCase |
| Homeworks/hw2/correction.c:48 | the working copy holds ARBITRARY_LINE_LENGTH bytes, but corrections can grow a line past it | 10 words "a " under a -> a 20-letter word | the corrected line checked against its buffer | not executed | Corrections.WorkingCopyOverflows | Corrections.TooLongToFit |
