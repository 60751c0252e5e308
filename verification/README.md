# Verified models of the qemu-kvm 0.11.0 core

This project models the parts of qemu-kvm 0.11.0 whose correctness is not plain to see, and proves what
they promise. Where the program works in place, the model does: classes whose methods update fields and
arrays, loops with invariants, each proved against a specification function or a property; the lemmas
beside them say what the specifications mean.

Four groups of code are covered.

- **Look-ups through caches and indexes.** The CRIS disassembler memoises the best match of an instruction
  in six tables, one for each class of prefix (`CrisOpcodes`, `CrisConstraints`, `CrisRows`,
  `CrisDisassembler`). The cache of translated blocks by virtual address stands in front of a table by physical
  address (`TbChains`, `TbCache`, `TbRuns`, `TbHash`). The Alpha disassembler has an index by major opcode
  (`AlphaIndex`). ELF symbols are filtered in place, sorted and searched by range (`ElfSymbols`). In each case
  the fast way is proved to give what the slow way gives.
- **I/O under an environment that may do anything.** DMA in batches of whatever could be mapped (`Dma`,
  `DmaRequest`), the rate-limited migration file (`BufferedFile`), byte requests on sectors (`BlockIo`), the
  commit of a copy-on-write image (`BlockCommit`), the list of AIO handlers that callbacks change while it
  is walked (`AioHandlers`). The environment (results of system calls and driver calls, mappings granted,
  what callbacks do) is a parameter: a list of answers, a function, or an unconstrained choice.
- **Ciphers.** AES with its tables, key schedules, equivalent inverse cipher and chaining (`RoundCipher`,
  `AesField`, `AesStandard`, `AesCipher`, `AesWords`, `Aes`, `AesExamples`, `Cbc`, `AesCbc`, `AesRoundTrip`),
  and DES with its reversed key schedule (`Feistel`, `DesBits`, `Des`, `DesKey`, `DesStandard`).
- **Smaller loops.** The splitter of HCI packets (`HciSplitter`), the console's ring buffer (`ConsoleFifo`)
  and the calendar arithmetic of `mktimegm` (`Calendar`). `Bits` has bitwise operations on numbers and
  `Basics` what several modules share.

What the proofs showed about the code:

- The CRIS tables do not remember which CPU family an answer was for. For every opcode table, they can serve two
  families if and only if these make the same of every pair of words (`TablesServeAlikeFamilies`); `addoq` and
  `bdap` are rows for which they do not (`BdapStaysBdap`). The program itself keeps to one family: `disas.c:197`
  installs only the disassembler for CRISv32, and the function that would choose among families is disabled
  (`cris-dis.c:2860-2888`).
- A DMA batch that is not a whole number of sectors makes all later batches start at the wrong place, and this is
  the only way in which they can (`BatchPlacedRight`). It cannot happen when areas and grants are in whole sectors
  (`PlaysWhole`), and a request that is not shows it (`SecondBatchMisplaced`). A list with an empty area can
  never be finished, because mapping no bytes always fails (`DmaRequest.Run`).
- A symbol whose range reaches the very end of the address space is never found, because the sum of address
  and size wraps to 0 (`FoundIfContained`); a table is searchable exactly if no range ends inside an earlier
  one (`SearchableIsOrdered`).
- `mktimegm` multiplies in `int`, so its result is right only up to 2038-01-19 even where `time_t` is wider
  (`FitsAnInt`).
- `buffered_put_buffer` goes on with direct puts after a flush that failed, so the backend can get new data
  before old data. `PutBuffer` says exactly when, `NewBeforeOld` is a run in which it happens.
- The key bits of DES are counted from the least significant bit of each byte on (`KeyBitIs`), and not from the most
  significant one as in the standard, so that the top bit of each byte is the one that does not matter
  (`TopBitsDoNotMatter`).
- The walk that fills the descriptor sets asks `io_flush` of nodes that are already deleted, and there can be
  such nodes (`RemovedIsAsked`, `OnlyLiveAsked`).
- The cache of translated blocks can give another block than the walk along the chain, though one that fits as well:
  with the next page mapped, exactly if two blocks fit, of which one runs into the next page and the other does not (`AgreesIffOneAnswers`,
  `TwoAnswersDiffer`, `CacheMayDisagree`). Where the code at hand decides how far a block goes, this cannot
  happen (`RunByCode`). It takes something else that ends a block early on one processor: `target-i386` ends
  blocks at a processor's own breakpoints and when that processor is stepped
  (`target-i386/translate.c:7690-7699` and `7724-7729`).

## Model

| member | source | states |
|---|---|---|
| `CrisOpcodes.NumberOfBits` | qemu-kvm/qemu-kvm/qemu-kvm-0.11.0/cris-dis.c:1368-1377 | clearing the lowest one bit until nothing is left takes exactly as many turns as the word has one bits |
| `CrisOpcodes.ClearLowestOne` | qemu-kvm/qemu-kvm/qemu-kvm-0.11.0/cris-dis.c:1368-1377 | `val & (val - 1)` has exactly one one bit less than `val`, for every non-zero word |
| `CrisOpcodes.SpecRegInfo` | qemu-kvm/qemu-kvm/qemu-kvm-0.11.0/cris-dis.c:1334-1364 | gives the first special register with the number that applies to the family, and nothing exactly if there is none |
| `CrisOpcodes.SpecRegSizes` | qemu-kvm/qemu-kvm/qemu-kvm-0.11.0/cris-dis.c:58-121 | every register of the table has a size for which the prefix classes are enough |
| `CrisOpcodes.BestIsBest` | qemu-kvm/qemu-kvm/qemu-kvm-0.11.0/cris-dis.c:1491-1582 | the scan's answer is characterised by a property (highest level, first among equals, the first full match ends the search), in both directions |
| `CrisOpcodes.ConstraintDependsOnClass` | qemu-kvm/qemu-kvm/qemu-kvm-0.11.0/cris-dis.c:1433-1483 | two prefixes of the same class get the same verdict from `cris_constraint`, for every template, every position in it and every instruction |
| `CrisOpcodes.BestDependsOnClass` | qemu-kvm/qemu-kvm/qemu-kvm-0.11.0/cris-dis.c:1433-1489 | so the best template of the whole table depends on the prefix only through its class: six tables are enough |
| `CrisOpcodes.SafeSizesExactly` | qemu-kvm/qemu-kvm/qemu-kvm-0.11.0/cris-dis.c:1449-1476 | the class of a prefix decides whether it asks for a size exactly for sizes 1, 2 and 4 and those that no 8-bit offset can ask for |
| `CrisOpcodes.UnsafeSizeBreaksClasses` | qemu-kvm/qemu-kvm/qemu-kvm-0.11.0/cris-dis.c:1449-1476 | with a register of any other size, two prefixes of one class get different verdicts |
| `CrisConstraints.ConstraintAccepts` | qemu-kvm/qemu-kvm/qemu-kvm-0.11.0/cris-dis.c:1603-1754 | the letters accept exactly if at every position the bits of the word are what the letter asks for (`(insn & 0x30) != 0x30`, `insn & 0x400`, registers 0, 4 or 8, and so on for all of them), and a prefix, if there is one, is taken by one of `S`, `s`, `y`, `Y` or `B` |
| `CrisConstraints.ConstraintConfidence` | qemu-kvm/qemu-kvm/qemu-kvm-0.11.0/cris-dis.c:1716-1748 | the confidence is 5 from the last `D` and 3 for each `P` behind it |
| `CrisConstraints.ConsideredIffForFamily` | qemu-kvm/qemu-kvm/qemu-kvm-0.11.0/cris-dis.c:1501-1551 | CRISv32 considers the templates that version 32 has, the others those that some version up to 10 has, and those for disassembly only |
| `CrisConstraints.DescribesIffForFamily` | qemu-kvm/qemu-kvm/qemu-kvm-0.11.0/cris-dis.c:1341-1359 | the same for rows of special registers; CRISv32 takes none with a warning |
| `CrisConstraints.CandidateIff` | qemu-kvm/qemu-kvm/qemu-kvm-0.11.0/cris-dis.c:1496-1570 | a template is a candidate exactly if it is for the family, every bit it wants set is set, every bit it wants clear is clear, every letter accepts, and a prefix is taken |
| `CrisConstraints.CandidateLevel` | qemu-kvm/qemu-kvm/qemu-kvm-0.11.0/cris-dis.c:1550-1572 | its level is the confidence plus two for each bit that it fixes |
| `CrisRows.AddRegisters` | qemu-kvm/qemu-kvm/qemu-kvm-0.11.0/cris-dis.c:228-229 | the word 0x2621 has level 12 for the row `add` of two registers |
| `CrisRows.AddRecognised` | qemu-kvm/qemu-kvm/qemu-kvm-0.11.0/cris-dis.c:228-236 | the word 0x2621 is the row `add` of two registers |
| `CrisRows.AddLetters` | qemu-kvm/qemu-kvm/qemu-kvm-0.11.0/cris-dis.c:228-229 | the letters of that row accept it, and reject size 3 and any prefix |
| `CrisRows.AddPrefixedLetters` | qemu-kvm/qemu-kvm/qemu-kvm-0.11.0/cris-dis.c:234-236 | the letters of the row `add` with a prefix: another register, a side effect, or no prefix are rejected |
| `CrisRows.PushLetters` | qemu-kvm/qemu-kvm/qemu-kvm-0.11.0/cris-dis.c:898-900 | `push` of a general register is accepted after a prefix of -4 only |
| `CrisRows.PopLetters` | qemu-kvm/qemu-kvm/qemu-kvm-0.11.0/cris-dis.c:890-892 | `pop` is accepted without a prefix and for the old CPUs only |
| `CrisRows.ClearLetters` | qemu-kvm/qemu-kvm/qemu-kvm-0.11.0/cris-dis.c:533-534 | `clear` is accepted for special registers 0, 4 and 8, and not for 12 |
| `CrisDisassembler.Disassembler.FindSpecReg` | qemu-kvm/qemu-kvm/qemu-kvm-0.11.0/cris-dis.c:1334-1364 | the loop finds what `SpecRegInfo` describes |
| `CrisDisassembler.Disassembler.PushConstraint` | qemu-kvm/qemu-kvm/qemu-kvm-0.11.0/cris-dis.c:1674-1714 | the `B` letter accepts exactly a push of the size that the next letter asks for, as the tables read the prefix |
| `CrisDisassembler.Disassembler.CrisConstraint` | qemu-kvm/qemu-kvm/qemu-kvm-0.11.0/cris-dis.c:1603-1754 | the letter loop, with its own look-ups of the prefix through the tables, computes the verdict that `ConstraintAccepts` and `ConstraintConfidence` describe, for what the tables make of the prefix, and leaves the tables as they are; the recursion ends because that look-up has no prefix |
| `CrisDisassembler.Disassembler.Scan` | qemu-kvm/qemu-kvm/qemu-kvm-0.11.0/cris-dis.c:1491-1594 | the scan with its early exit finds the best template for what the tables make of the prefix |
| `CrisDisassembler.Disassembler.LookUp` | qemu-kvm/qemu-kvm/qemu-kvm-0.11.0/cris-dis.c:1381-1597 | whatever the tables hold, the answer is what they make of it, and only the entries of the prefix and the instruction are filled |
| `CrisDisassembler.Disassembler.RightIffEntry` | qemu-kvm/qemu-kvm/qemu-kvm-0.11.0/cris-dis.c:1485-1489 | with the prefix read right, the answer is right exactly if the entry that is read holds nothing or the best template of the family |
| `CrisDisassembler.Disassembler.GetOpcodeEntry` | qemu-kvm/qemu-kvm/qemu-kvm-0.11.0/cris-dis.c:1381-1597 | if the tables are right for the family, the memoised answer is the answer of the search without tables, and the tables stay right for every family that reads the two words alike |
| `CrisDisassembler.Disassemble` | qemu-kvm/qemu-kvm/qemu-kvm-0.11.0/cris-dis.c:1381-1597 | every sequence of look-ups for one family gives, call by call, the answers of the search without tables |
| `CrisDisassembler.TwoLookUps` | qemu-kvm/qemu-kvm/qemu-kvm-0.11.0/cris-dis.c:1386-1398 | what a look-up for one family followed by one of the same words for another gives, for every opcode table: an answer that was found stays |
| `CrisDisassembler.TablesServeAlikeFamilies` | qemu-kvm/qemu-kvm/qemu-kvm-0.11.0/cris-dis.c:1386-1398 | two such look-ups are right in both orders for all words if and only if the two families make the same of every pair of words |
| `CrisDisassembler.DisassembleMixed` | qemu-kvm/qemu-kvm/qemu-kvm-0.11.0/cris-dis.c:1381-1597 | then every run that mixes the families is answered right |
| `CrisDisassembler.BdapStaysBdap` | qemu-kvm/qemu-kvm/qemu-kvm-0.11.0/cris-dis.c:263-265 | with the rows of `addoq` and `bdap`, the word 0x01fc looked up for an old CPU stays `bdap` when it is looked up for CRISv32 |
| `AesStandard.SBoxIsAffineOfInverse` | qemu-kvm/qemu-kvm/qemu-kvm-0.11.0/aes.c:47-57 | each entry of the S-box is the affine map of the multiplicative inverse in GF(2^8), as section 5.1.1 of FIPS 197 defines it |
| `AesStandard.MultiplesAreProducts` | qemu-kvm/qemu-kvm/qemu-kvm-0.11.0/aes.c:47-57 | the factors 02, 03, 09, 0b, 0d and 0e of the table comment are products in the field |
| `AesStandard.RconIsPower` | qemu-kvm/qemu-kvm/qemu-kvm-0.11.0/aes.c:722-726 | the round constants are the successive powers of x |
| `AesStandard.StandardIsLawful` | qemu-kvm/qemu-kvm/qemu-kvm-0.11.0/aes.c:47-57 | S-boxes and field arithmetic obey the three laws the cipher rests on: substitution is undone, the inverse matrix is additive, and the two matrices are inverse |
| `AesExamples.RotWordRotates` | qemu-kvm/qemu-kvm/qemu-kvm-0.11.0/aes.c:758-764 | RotWord of every word is `(w << 8) | (w >> 24)` |
| `AesExamples.ShiftRowsMoves` | qemu-kvm/qemu-kvm/qemu-kvm-0.11.0/aes.c:981-1032 | ShiftRows puts at row r, column c the byte of row r, column (c + r) % 4, and its inverse moves it back |
| `AesExamples.BytesAreCells` | qemu-kvm/qemu-kvm/qemu-kvm-0.11.0/aes.c:893-904 | byte r + 4c of a block is row r, column c of the state |
| `AesExamples.MixColumnIsMatrix` | qemu-kvm/qemu-kvm/qemu-kvm-0.11.0/aes.c:47-57 | mixing a column is the product with the matrix of section 5.1.3 |
| `AesExamples.Appendix128` | qemu-kvm/qemu-kvm/qemu-kvm-0.11.0/aes.c:756-773 | the expansion of the 128-bit key of appendix A.1 of FIPS 197, all 44 words |
| `AesExamples.Appendix192` | qemu-kvm/qemu-kvm/qemu-kvm-0.11.0/aes.c:776-795 | the 192-bit key of appendix A.2, as far as the second rotation |
| `AesExamples.Appendix256` | qemu-kvm/qemu-kvm/qemu-kvm-0.11.0/aes.c:798-825 | the 256-bit key of appendix A.3, with the substitution in the middle and the second rotation |
| `AesExamples.AppendixB` | qemu-kvm/qemu-kvm/qemu-kvm-0.11.0/aes.c:885-1070 | the block of appendix B is encrypted to the ciphertext given there |
| `AesExamples.ExampleEncrypted` | qemu-kvm/qemu-kvm/qemu-kvm-0.11.0/aes.c:731-1070 | so is it by the program's tables and loops |
| `AesWords.EncryptWord` | qemu-kvm/qemu-kvm/qemu-kvm-0.11.0/aes.c:981-1032 | four table look-ups and a key word are one column of SubBytes, ShiftRows, MixColumns and AddRoundKey |
| `AesWords.DecryptWord` | qemu-kvm/qemu-kvm/qemu-kvm-0.11.0/aes.c:1172-1223 | the same for the inverse tables |
| `AesWords.InvMixWord` | qemu-kvm/qemu-kvm/qemu-kvm-0.11.0/aes.c:853-876 | `Td0[Te4[x] & 0xff]` and its companions are InvMixColumns of a key word |
| `RoundCipher.Rounds.DecryptionFollowsBack` | qemu-kvm/qemu-kvm/qemu-kvm-0.11.0/aes.c:1076-1261 | after every round, the equivalent inverse cipher stands where encryption stood, counted from the end |
| `RoundCipher.Rounds.DecryptUndoesEncrypt` | qemu-kvm/qemu-kvm/qemu-kvm-0.11.0/aes.c:1076-1261 | the equivalent inverse cipher of section 5.3.5 of FIPS 197, under reversed keys with the inner ones unmixed, undoes the cipher, for any number of rounds |
| `AesCipher.AesRoundsAreLawful` | qemu-kvm/qemu-kvm/qemu-kvm-0.11.0/aes.c:885-1070 | the AES round functions meet the conditions of that argument |
| `Aes.AesKey.Expand128` | qemu-kvm/qemu-kvm/qemu-kvm-0.11.0/aes.c:756-773 | the ten turns of the first loop write the 44 words of section 5.2 of FIPS 197, all inside the array of 60; which words these are for a given key, `Appendix128` shows |
| `Aes.AesKey.Expand192` | qemu-kvm/qemu-kvm/qemu-kvm-0.11.0/aes.c:776-795 | the same for 52 words, with the loop left in the middle of its last turn |
| `Aes.AesKey.Expand256` | qemu-kvm/qemu-kvm/qemu-kvm-0.11.0/aes.c:798-825 | the same for 60 words, with the extra substitution in the middle of each turn |
| `Aes.AesKey.SetEncryptKey` | qemu-kvm/qemu-kvm/qemu-kvm-0.11.0/aes.c:731-827 | the schedule is the key expansion of the standard for each of the three sizes; a missing key and a wrong size are told apart and change nothing |
| `Aes.AesKey.ReverseRoundKeys` | qemu-kvm/qemu-kvm/qemu-kvm-0.11.0/aes.c:846-852 | swapping round keys from both ends in place reverses their order |
| `Aes.AesKey.SetDecryptKey` | qemu-kvm/qemu-kvm/qemu-kvm-0.11.0/aes.c:832-878 | the schedule is the one the equivalent inverse cipher needs: reversed, with InvMixColumns on all but the first and the last key |
| `Aes.AesKey.Encrypt` | qemu-kvm/qemu-kvm/qemu-kvm-0.11.0/aes.c:885-1070 | the loop of two rounds a turn over the tables computes the byte-level cipher of section 5.1 of FIPS 197 and touches only the output block, also in place |
| `Aes.AesKey.Decrypt` | qemu-kvm/qemu-kvm/qemu-kvm-0.11.0/aes.c:1076-1261 | the same for the equivalent inverse cipher |
| `Aes.BlockDecrypts` | qemu-kvm/qemu-kvm/qemu-kvm-0.11.0/aes.c:1076-1261 | for every schedule and block, decryption under the schedule's decryption keys gives the block back |
| `AesRoundTrip.BlockThereAndBack` | qemu-kvm/qemu-kvm/qemu-kvm-0.11.0/aes.c:731-1261 | both key set-ups and both directions together give back the block, for all key sizes |
| `AesRoundTrip.StandardBlockThereAndBack` | qemu-kvm/qemu-kvm/qemu-kvm-0.11.0/aes.c:731-1261 | the same for the real S-boxes and tables |
| `Cbc.PaddedRoundsUp` | qemu-kvm/qemu-kvm/qemu-kvm-0.11.0/aes.c:1286-1294 | the ciphertext is the length rounded up to whole blocks |
| `Cbc.Mode.ChainedBlock` | qemu-kvm/qemu-kvm/qemu-kvm-0.11.0/aes.c:1276-1294 | each block of ciphertext is the encryption of its block of data masked with the block of ciphertext before it, or with the vector |
| `AesCbc.MaskIsXor` | qemu-kvm/qemu-kvm/qemu-kvm-0.11.0/aes.c:1279-1289 | masking is exclusive or byte by byte, and what a partial block lacks counts as zero |
| `Cbc.Mode.DecryptUndoesEncrypt` | qemu-kvm/qemu-kvm/qemu-kvm-0.11.0/aes.c:1265-1314 | chained decryption undoes chained encryption for every length, also when the last block is partial |
| `Cbc.Mode.EncryptInParts` | qemu-kvm/qemu-kvm/qemu-kvm-0.11.0/aes.c:1276-1294 | encrypting whole blocks and then more, with the vector carried over, gives the ciphertext of one call |
| `Cbc.Mode.DecryptInParts` | qemu-kvm/qemu-kvm/qemu-kvm-0.11.0/aes.c:1295-1313 | the same for decryption |
| `AesCbc.AesModeIsLawful` | qemu-kvm/qemu-kvm/qemu-kvm-0.11.0/aes.c:1265-1314 | AES under a schedule and its decryption schedule can be chained |
| `AesCbc.CbcEncrypt` | qemu-kvm/qemu-kvm/qemu-kvm-0.11.0/aes.c:1276-1294 | writes the chained ciphertext of any length, touches nothing else, and leaves the vector at the last ciphertext block; in place when the arrays are the same |
| `AesCbc.CbcDecrypt` | qemu-kvm/qemu-kvm/qemu-kvm-0.11.0/aes.c:1295-1313 | writes exactly the plaintext bytes, not the padding, in place when the arrays are the same; the vector is left at the last ciphertext block, or after a partial block at the decryption of that block |
| `AesRoundTrip.ChainThereAndBack` | qemu-kvm/qemu-kvm/qemu-kvm-0.11.0/aes.c:1265-1314 | encrypting and decrypting in place gives back data of every length under every key |
| `AesRoundTrip.StandardChainThereAndBack` | qemu-kvm/qemu-kvm/qemu-kvm-0.11.0/aes.c:1265-1314 | the same for the real S-boxes and tables |
| `Feistel.Network.ReverseUndoes` | qemu-kvm/qemu-kvm/qemu-kvm-0.11.0/d3des.c:347-372 | a Feistel network with its keys in reverse order undoes itself, for any round function |
| `DesBits.InitialUndoesFinal` | qemu-kvm/qemu-kvm/qemu-kvm-0.11.0/d3des.c:327-345 | the bit swaps at the start undo those at the end |
| `DesBits.FinalUndoesInitial` | qemu-kvm/qemu-kvm/qemu-kvm-0.11.0/d3des.c:374-394 | and the other way round |
| `DesStandard.InitialRow0` | qemu-kvm/qemu-kvm/qemu-kvm-0.11.0/d3des.c:327-345 | the swaps at the start are the initial permutation of the standard, bit by bit: here the bits 0 and 1 of each byte |
| `DesStandard.InitialRow1` | qemu-kvm/qemu-kvm/qemu-kvm-0.11.0/d3des.c:327-345 | the bits 2 and 3 |
| `DesStandard.InitialRow2` | qemu-kvm/qemu-kvm/qemu-kvm-0.11.0/d3des.c:327-345 | the bits 4 and 5 |
| `DesStandard.InitialRow3` | qemu-kvm/qemu-kvm/qemu-kvm-0.11.0/d3des.c:327-345 | the bits 6 and 7 |
| `DesStandard.RoundFunction` | qemu-kvm/qemu-kvm/qemu-kvm-0.11.0/d3des.c:347-372 | each of the eight tables is looked up with the six bits that the standard selects for it, plus six bits of the key |
| `DesStandard.RoundExchanges` | qemu-kvm/qemu-kvm/qemu-kvm-0.11.0/d3des.c:347-372 | a round exchanges the halves and adds the look-ups of the right one to the left one |
| `Des.DecryptUndoesEncrypt` | qemu-kvm/qemu-kvm/qemu-kvm-0.11.0/d3des.c:322-394 | the whole block function under reversed round keys undoes itself, for any S-box tables |
| `Des.RoundValue` | qemu-kvm/qemu-kvm/qemu-kvm-0.11.0/d3des.c:347-372 | the table look-ups of a round on 64-bit longs are the round function on 32-bit halves, whatever is above bit 31 of the key words, and leave nothing there |
| `Des.InitialLong` | qemu-kvm/qemu-kvm/qemu-kvm-0.11.0/d3des.c:327-345 | the initial swaps on 64-bit longs are those on 32-bit halves |
| `Des.FinalLong` | qemu-kvm/qemu-kvm/qemu-kvm-0.11.0/d3des.c:374-394 | the final swaps on 64-bit longs agree with those on 32-bit halves in the low 32 bits, whatever the rotations leave above them |
| `DesKey.StandardTablesComplete` | qemu-kvm/qemu-kvm/qemu-kvm-0.11.0/d3des.c:41-64 | the key tables have the sizes and ranges that the key loops index |
| `DesKey.CookedGroups` | qemu-kvm/qemu-kvm/qemu-kvm-0.11.0/d3des.c:102-122 | the shuffling of `cookey` puts each group of six key bits where a round looks for it, and keeps them all |
| `DesStandard.KeyBitIs` | qemu-kvm/qemu-kvm/qemu-kvm-0.11.0/d3des.c:38-39 | bit m of a byte of the key is counted from the least significant one |
| `DesStandard.FirstChoiceLeft` | qemu-kvm/qemu-kvm/qemu-kvm-0.11.0/d3des.c:51-55 | the first half of the first permuted choice goes down the columns of the bits 0 to 3 of the key |
| `DesStandard.FirstChoiceRight` | qemu-kvm/qemu-kvm/qemu-kvm-0.11.0/d3des.c:51-55 | the second half goes down those of the bits 6 to 3 |
| `DesStandard.TotalRotations` | qemu-kvm/qemu-kvm/qemu-kvm-0.11.0/d3des.c:57-58 | each round shifts the halves by two, but rounds 1, 2, 9 and 16 by one |
| `DesStandard.MasksAreBits` | qemu-kvm/qemu-kvm/qemu-kvm-0.11.0/d3des.c:41-47 | the masks of a raw word are its 24 bits, most significant first |
| `DesStandard.TopBitsDoNotMatter` | qemu-kvm/qemu-kvm/qemu-kvm-0.11.0/d3des.c:67-97 | keys that differ in the top bits of their bytes only have the same schedule |
| `DesKey.DesCipher.SetKey` | qemu-kvm/qemu-kvm/qemu-kvm-0.11.0/d3des.c:67-97 | the key register holds the schedule for encryption and exactly its reverse for decryption |
| `DesKey.DesCipher.Cook` | qemu-kvm/qemu-kvm/qemu-kvm-0.11.0/d3des.c:102-140 | every pair of raw words becomes its round key in the key register |
| `DesKey.DesCipher.Rounds` | qemu-kvm/qemu-kvm/qemu-kvm-0.11.0/d3des.c:347-372 | the loop of two rounds a turn runs the network over all sixteen keys in order |
| `DesKey.DesCipher.Des` | qemu-kvm/qemu-kvm/qemu-kvm-0.11.0/d3des.c:142-176 | a block of bytes is gathered, run through the network and scattered again, and bits above 31 never reach it; also in place |
| `DesKey.BytesDecrypt` | qemu-kvm/qemu-kvm/qemu-kvm-0.11.0/d3des.c:142-176 | on bytes, the block function under reversed keys undoes itself |
| `DesKey.ThereAndBack` | qemu-kvm/qemu-kvm/qemu-kvm-0.11.0/d3des.c:67-176 | `des` after `deskey(k, DE1)` gives back what `des` after `deskey(k, EN0)` was given |
| `Dma.SectorsCountBytes` | qemu-kvm/qemu-kvm/qemu-kvm-0.11.0/dma-helpers.c:88-88 | the sectors counted equal the bytes transferred exactly if every batch is a whole number of sectors |
| `Dma.BatchPlacedRight` | qemu-kvm/qemu-kvm/qemu-kvm-0.11.0/dma-helpers.c:88-90 | a batch starts where its predecessors stopped if and only if all of them were whole numbers of sectors |
| `DmaRequest.Request.Unmap` | qemu-kvm/qemu-kvm/qemu-kvm-0.11.0/dma-helpers.c:71-80 | every area of the batch is unmapped, once and in order |
| `DmaRequest.Request.Map` | qemu-kvm/qemu-kvm/qemu-kvm-0.11.0/dma-helpers.c:100-112 | the batch gets the next addresses of the list, in order and without a gap, for every pattern of partial and failed mappings, and comes out as the grants determine |
| `DmaRequest.Request.Callback` | qemu-kvm/qemu-kvm/qemu-kvm-0.11.0/dma-helpers.c:82-131 | every callback keeps the account: transferred, being transferred and still to come are together the list; and the request goes on as `Step` says |
| `DmaRequest.Run` | qemu-kvm/qemu-kvm/qemu-kvm-0.11.0/dma-helpers.c:147-173 | over a whole request the batches issued are a prefix of the list, and exactly the list on success; each starts at the sector its predecessors advanced to; all that was mapped is unmapped exactly once; a list with an empty area never finishes without an error |
| `DmaRequest.PlaysWhole` | qemu-kvm/qemu-kvm/qemu-kvm-0.11.0/dma-helpers.c:82-131 | if every area is a whole number of sectors, and every grant is one or covers the rest of its area, then every batch is |
| `DmaRequest.SecondBatchMisplaced` | qemu-kvm/qemu-kvm/qemu-kvm-0.11.0/dma-helpers.c:88-90 | a request of two areas of 100 and 412 bytes whose first callback can map only the first puts the second batch at the wrong place |
| `DmaRequest.WriteRequest` | qemu-kvm/qemu-kvm/qemu-kvm-0.11.0/dma-helpers.c:147-181 | so a write request in whole sectors that finishes without an error changes exactly the addressed range of the disk, to the bytes of memory in the order of the list |
| `DmaRequest.ReadRequest` | qemu-kvm/qemu-kvm/qemu-kvm-0.11.0/dma-helpers.c:147-181 | and a read request puts the addressed range of the disk into memory |
| `DmaRequest.DiskGetsMemory` | qemu-kvm/qemu-kvm/qemu-kvm-0.11.0/dma-helpers.c:82-131 | a write in whole sectors changes exactly the addressed range of the disk, to the bytes of memory in the order of the list |
| `DmaRequest.MemoryGetsDisk` | qemu-kvm/qemu-kvm/qemu-kvm-0.11.0/dma-helpers.c:82-131 | a read in whole sectors puts the addressed range of the disk into memory in the order of the list, also when areas overlap |
| `BufferedFile.File.Append` | qemu-kvm/qemu-kvm/qemu-kvm-0.11.0/buffered_file.c:49-71 | the data is added to the buffer and nothing buffered is lost when it grows |
| `BufferedFile.File.Flush` | qemu-kvm/qemu-kvm/qemu-kvm-0.11.0/buffered_file.c:73-108 | the backend gets a prefix of the buffer and exactly the rest stays, as the answers of the backend determine |
| `BufferedFile.File.PutDirectly` | qemu-kvm/qemu-kvm/qemu-kvm-0.11.0/buffered_file.c:128-151 | the backend gets a prefix of the data, as its answers and the limit determine; the transfer limit is exceeded by the last put at most |
| `BufferedFile.File.PutBuffer` | qemu-kvm/qemu-kvm/qemu-kvm-0.11.0/buffered_file.c:110-160 | everything not delivered is buffered, and without an error all is accepted in order; the output is frozen exactly if the backend was busy; new data is delivered before old data if and only if the flush fails, there is new data, the limit allows a put, and the next answer of the backend is positive |
| `BufferedFile.FlushFails` | qemu-kvm/qemu-kvm/qemu-kvm-0.11.0/buffered_file.c:80-101 | a flush fails exactly if an error is among the answers before the backend has taken the whole buffer |
| `BufferedFile.NewBeforeOld` | qemu-kvm/qemu-kvm/qemu-kvm-0.11.0/buffered_file.c:110-160 | with the answers -EAGAIN, 0, 5, the second byte put is delivered while the first is still buffered |
| `BufferedFile.File.RateLimit` | qemu-kvm/qemu-kvm/qemu-kvm-0.11.0/buffered_file.c:185-199 | tells the producer to stop exactly if there is no error and the output is frozen or over its limit |
| `BufferedFile.File.SetRateLimit` | qemu-kvm/qemu-kvm/qemu-kvm-0.11.0/buffered_file.c:201-212 | an error keeps the old limit |
| `BufferedFile.File.RateTick` | qemu-kvm/qemu-kvm/qemu-kvm-0.11.0/buffered_file.c:214-232 | with neither error nor freeze it starts a new window and flushes, with what the answers of the backend make of delivered bytes, buffer, freeze and error; otherwise nothing changes |
| `BufferedFile.File.Close` | qemu-kvm/qemu-kvm/qemu-kvm-0.11.0/buffered_file.c:162-183 | fails if and only if there was an error before, or some answer is an error while the positive answers before it sum to less than what is buffered; a busy backend is waited for; delivered bytes, buffer and answers left are stated for every case |
| `BufferedFile.CloseFails` | qemu-kvm/qemu-kvm/qemu-kvm-0.11.0/buffered_file.c:162-183 | repeated flushes fail exactly at such an answer, and the backend then has what it took before |
| `BufferedFile.Run` | qemu-kvm/qemu-kvm/qemu-kvm-0.11.0/buffered_file.c:110-232 | over any run, delivered and buffered bytes are together exactly those offered, in order, as long as there is no error; the close after it fails exactly as `Close` says, and otherwise they are all delivered; while the rate is not changed, the direct puts of a window exceed the limit by the last put at most |
| `BlockIo.Device.Read` | qemu-kvm/qemu-kvm/qemu-kvm-0.11.0/block.c:557-597 | a read of sectors returns their bytes, or the error for no driver, for no medium or a bad range, or of the driver |
| `BlockIo.Device.Write` | qemu-kvm/qemu-kvm/qemu-kvm-0.11.0/block.c:557-617 | a write of sectors replaces them and nothing else, with the same errors and that of a read-only device |
| `BlockIo.Device.Pread` | qemu-kvm/qemu-kvm/qemu-kvm-0.11.0/block.c:619-661 | a read of any bytes returns exactly those bytes of the image, through partial first and last sectors |
| `BlockIo.Device.Pwrite` | qemu-kvm/qemu-kvm/qemu-kvm-0.11.0/block.c:663-709 | a write of any bytes changes exactly those bytes; after an error at most the touched sectors have changed; a healthy device that may be written fails exactly out of range, and one that may not always fails and keeps its image |
| `BlockIo.WriteThenRead` | qemu-kvm/qemu-kvm/qemu-kvm-0.11.0/block.c:619-709 | a read after a successful write of the same range returns the data |
| `BlockCommit.CowImage.CopySector` | qemu-kvm/qemu-kvm/qemu-kvm-0.11.0/block.c:536-545 | copying an allocated sector, also one that fails half-way, cannot be seen by the guest |
| `BlockCommit.CowImage.CopyAll` | qemu-kvm/qemu-kvm/qemu-kvm-0.11.0/block.c:533-549 | the loops end, keep what the guest sees, and bring every allocated sector into the backing image |
| `BlockCommit.CowImage.DroppingIsInvisible` | qemu-kvm/qemu-kvm/qemu-kvm-0.11.0/block.c:551-552 | dropping sectors that are in the backing image cannot be seen, whichever are dropped |
| `BlockCommit.CowImage.Commit` | qemu-kvm/qemu-kvm/qemu-kvm-0.11.0/block.c:515-555 | whatever happens, also on an early error, the guest sees the same disk; on success the backing image holds it; an early error changes nothing; without driver faults it succeeds exactly if the backing image can take all allocated sectors |
| `AioHandlers.AioContext.Find` | qemu-kvm/qemu-kvm/qemu-kvm-0.11.0/aio.c:41-52 | finds a live node exactly if the descriptor is registered |
| `AioHandlers.AioContext.SetFdHandler` | qemu-kvm/qemu-kvm/qemu-kvm-0.11.0/aio.c:54-96 | afterwards the descriptor is registered exactly if the call has a read or a write handler, with what the call has, and every other descriptor is as before; the list stands for that map, whether nodes are freed at once or only marked; during a walk new nodes go in front, old ones stay, and exactly those removed are marked |
| `AioHandlers.LastCallDecides` | qemu-kvm/qemu-kvm/qemu-kvm-0.11.0/aio.c:64-91 | after any calls a descriptor is registered exactly if the last call about it has a read or a write handler, and with what that call has |
| `AioHandlers.AioContext.React` | qemu-kvm/qemu-kvm/qemu-kvm-0.11.0/aio.c:54-96 | the same for any sequence of calls that a callback makes |
| `AioHandlers.AioContext.Dispatch` | qemu-kvm/qemu-kvm/qemu-kvm-0.11.0/aio.c:166-196 | a walk whose callbacks make any calls ends, touches no freed node, runs only handlers registered at that moment, in the order of the list, on nodes that were there at the start and have not been removed since; a ready handler left alone does run; a node is freed exactly if it was marked when the walk moved on from it |
| `AioHandlers.AioContext.MoveOn` | qemu-kvm/qemu-kvm/qemu-kvm-0.11.0/aio.c:186-192 | the next node is right although the current one may be freed |
| `AioHandlers.AioContext.Fill` | qemu-kvm/qemu-kvm/qemu-kvm-0.11.0/aio.c:130-154 | the descriptors waited for were registered at the start; if `io_flush` changes nothing they are exactly those with a handler and requests pending; `io_flush` is asked of marked nodes too |
| `AioHandlers.OnlyLiveAsked` | qemu-kvm/qemu-kvm/qemu-kvm-0.11.0/aio.c:136-142 | only registered descriptors are asked if and only if no marked node has an `io_flush` |
| `AioHandlers.RemovedIsAsked` | qemu-kvm/qemu-kvm/qemu-kvm-0.11.0/aio.c:136-196 | a walk can leave such a node: two descriptors are ready, the handler that runs second removes the first, and the next walk asks it |
| `AioHandlers.UntouchedKeeps` | qemu-kvm/qemu-kvm/qemu-kvm-0.11.0/aio.c:54-96 | a descriptor that no call is about keeps its registration |
| `AioHandlers.ChangedTwice` | qemu-kvm/qemu-kvm/qemu-kvm-0.11.0/aio.c:64-91 | what calls do to a list during a walk composes |
| `TbHash.HashPageOfNumber` | qemu-kvm/qemu-kvm/qemu-kvm-0.11.0/exec-all.h:159-164 | the page hash is a function of the page number alone |
| `TbHash.PageFallsIntoGroup` | qemu-kvm/qemu-kvm/qemu-kvm-0.11.0/exec-all.h:159-172 | all addresses of a page fall into the aligned group of 64 slots that the page hash gives, for every page size |
| `TbHash.TargetIsLawful` | qemu-kvm/qemu-kvm/qemu-kvm-0.11.0/cpu-exec.c:155-156 | every target's pages and hashes are what the caches rely on: a page is 2^pageBits addresses from a multiple of that on, the page after it is where the next address is (for the last page, page 0), and the page before undoes that |
| `TbChains.FitsInBucket` | qemu-kvm/qemu-kvm/qemu-kvm-0.11.0/cpu-exec.c:142-144 | a block that fits can only be in the chain of the address that the program counter is mapped to |
| `TbChains.AgreesIffOneAnswers` | qemu-kvm/qemu-kvm/qemu-kvm-0.11.0/cpu-exec.c:142-165 | with the next page mapped, the block in the cache is the one the walk finds, whatever the cache holds, if and only if no second hashed block fits |
| `TbChains.TwoAnswersDiffer` | qemu-kvm/qemu-kvm/qemu-kvm-0.11.0/cpu-exec.c:149-161 | two blocks fit only if one of them runs into the next page and the other does not |
| `TbChains.AgreesIffNoneBlocks` | qemu-kvm/qemu-kvm/qemu-kvm-0.11.0/cpu-exec.c:142-165 | with the next page missing, the same if and only if no candidate with a second page stands before a block that fits, where the walk would fault |
| `TbChains.DeterminedAgrees` | qemu-kvm/qemu-kvm/qemu-kvm-0.11.0/exec.c:906-914 | if the code at hand alone decides whether a block runs into the next page, the cache always agrees with the walk |
| `TbCache.Translator.FindFast` | qemu-kvm/qemu-kvm/qemu-kvm-0.11.0/cpu-exec.c:176-192 | the block returned has the program counter, code segment, flags and pages that are in force now, and is the one in the cache or else the one the walk finds; one is generated only if no block of any chain fits; the caches stay right |
| `TbCache.Translator.FindSlow` | qemu-kvm/qemu-kvm/qemu-kvm-0.11.0/cpu-exec.c:127-174 | the same past the cache: exactly what the walk finds, or a new block at the head of the chain; without a result a page was missing |
| `TbCache.Translator.Search` | qemu-kvm/qemu-kvm/qemu-kvm-0.11.0/cpu-exec.c:142-165 | the loop does the walk: a block that fits, or there is none in any chain, or the second page is missing |
| `TbCache.Translator.GenCode` | qemu-kvm/qemu-kvm/qemu-kvm-0.11.0/exec.c:882-917 | a new block fits, no two hashed blocks are alike, and a flush on the way is flagged and leaves the caches of all processors right |
| `TbCache.Translator.Link` | qemu-kvm/qemu-kvm/qemu-kvm-0.11.0/exec.c:1201-1216 | a new block at the head of its chain takes nothing away from chains and caches |
| `TbCache.Translator.Flush` | qemu-kvm/qemu-kvm/qemu-kvm-0.11.0/exec.c:638-663 | no block is left in any chain or cache |
| `TbCache.Translator.PhysInvalidate` | qemu-kvm/qemu-kvm/qemu-kvm-0.11.0/exec.c:771-804 | exactly the block given leaves the chains and all caches |
| `TbCache.Translator.FlushJmpCache` | qemu-kvm/qemu-kvm/qemu-kvm-0.11.0/exec.c:1740-1753 | clearing two groups leaves no block that starts on the page or runs into it |
| `TbCache.Translator.FlushPage` | qemu-kvm/qemu-kvm/qemu-kvm-0.11.0/exec.c:1804-1828 | so the caches are right under any new mapping of the page |
| `TbCache.Translator.FlushTlb` | qemu-kvm/qemu-kvm/qemu-kvm-0.11.0/exec.c:1764-1790 | an empty cache is right under any mapping |
| `TbCache.Translator.Fill` | qemu-kvm/qemu-kvm/qemu-kvm-0.11.0/exec-all.h:315-337 | a page that was missing can be mapped without a flush |
| `TbRuns.Run` | qemu-kvm/qemu-kvm/qemu-kvm-0.11.0/cpu-exec.c:127-192 | over any run of look-ups, invalidations, faults, remappings and flushes on any number of processors, every block given fits the state and the mapping of its processor at that moment |
| `TbRuns.RunByCode` | qemu-kvm/qemu-kvm/qemu-kvm-0.11.0/cpu-exec.c:127-192 | over any such run in which the code alone decides the extent of a block, every block given is the one the walk would find |
| `TbRuns.CacheMayDisagree` | qemu-kvm/qemu-kvm/qemu-kvm-0.11.0/cpu-exec.c:127-192 | otherwise not: two processors with different next pages, one block that runs into its page and one that does not |
| `ElfSymbols.Filter` | qemu-kvm/qemu-kvm/qemu-kvm-0.11.0/elf_ops.h:129-149 | filling holes from the end keeps exactly the defined functions, each as often as in the file and byte-swapped exactly once |
| `ElfSymbols.FilterOne` | qemu-kvm/qemu-kvm/qemu-kvm-0.11.0/elf_ops.h:130-149 | one turn of that loop: the symbol is kept, or the last one takes its place unswapped |
| `ElfSymbols.LoadSymbols` | qemu-kvm/qemu-kvm/qemu-kvm-0.11.0/elf_ops.h:127-152 | the table is sorted and is a permutation of those symbols |
| `ElfSymbols.KeptMembers` | qemu-kvm/qemu-kvm/qemu-kvm-0.11.0/elf_ops.h:133-148 | a symbol is in the table exactly if some wanted symbol of the file becomes it |
| `ElfSymbols.WantedIff` | qemu-kvm/qemu-kvm/qemu-kvm-0.11.0/elf_ops.h:133-147 | a symbol is wanted exactly if its section is below 0xff00 and not 0 and the low four bits of its information are 2; a marked address loses its lowest bit |
| `ElfSymbols.SearchableIsOrdered` | qemu-kvm/qemu-kvm/qemu-kvm-0.11.0/elf_ops.h:63-74 | a sorted table is in the order that `bsearch` needs, for all addresses, if and only if no range ends inside an earlier one |
| `ElfSymbols.DisjointIsSearchable` | qemu-kvm/qemu-kvm/qemu-kvm-0.11.0/elf_ops.h:63-74 | non-empty ranges without a common address are such a table; aliases may repeat |
| `ElfSymbols.FoundIfContained` | qemu-kvm/qemu-kvm/qemu-kvm-0.11.0/elf_ops.h:63-74 | the comparison accepts exactly the addresses of a range, but none of a range that reaches the end of the address space, where the sum wraps |
| `ElfSymbols.LookupSymbol` | qemu-kvm/qemu-kvm/qemu-kvm-0.11.0/elf_ops.h:76-90 | what is found has the address; in a searchable table something is found exactly if a range that does not wrap has it |
| `ElfSymbols.FunctionAt` | qemu-kvm/qemu-kvm/qemu-kvm-0.11.0/elf_ops.h:76-152 | from the file to the answer: a function is found exactly if one of the file has the address |
| `HciSplitter.SlicesInOrder` | qemu-kvm/qemu-kvm/qemu-kvm-0.11.0/bt-vhci.c:53-89 | on any input the slices delivered are inside it, each behind its type byte, in order and without overlap |
| `HciSplitter.PacketsThereAndBack` | qemu-kvm/qemu-kvm/qemu-kvm-0.11.0/bt-vhci.c:53-89 | any list of well-formed command, ACL and SCO packets, one after the other, is delivered as exactly that list |
| `HciSplitter.WellFormedIff` | qemu-kvm/qemu-kvm/qemu-kvm-0.11.0/bt-vhci.c:62-79 | a packet is well-formed exactly if the third byte, or for data the third and fourth with the less significant one first, has the length of what follows |
| `HciSplitter.TypeBytes` | qemu-kvm/qemu-kvm/qemu-kvm-0.11.0/bt-vhci.c:58-79 | the types are 1, 2 and 3 |
| `HciSplitter.SizeIs` | qemu-kvm/qemu-kvm/qemu-kvm-0.11.0/bt-vhci.c:60-79 | a packet has the size that its length bytes say, or all that is left if that is less |
| `HciSplitter.Vhci.Split` | qemu-kvm/qemu-kvm/qemu-kvm-0.11.0/bt-vhci.c:53-89 | the loop ends on any input and delivers those slices |
| `Calendar.DaysCountsDays` | qemu-kvm/qemu-kvm/qemu-kvm-0.11.0/cutils.c:99-111 | the formula counts the days of the calendar, year by year and month by month, from the year 1 on |
| `Calendar.SecondsSinceEpoch` | qemu-kvm/qemu-kvm/qemu-kvm-0.11.0/cutils.c:99-111 | and the seconds at any time of day |
| `Calendar.EpochIsZero` | qemu-kvm/qemu-kvm/qemu-kvm-0.11.0/cutils.c:99-111 | 1970-01-01 is 0 |
| `Calendar.DayAfterDay` | qemu-kvm/qemu-kvm/qemu-kvm-0.11.0/cutils.c:99-111 | the next day is always 86400 more, across months, leap years, centuries and 400 years |
| `Calendar.OrderKept` | qemu-kvm/qemu-kvm/qemu-kvm-0.11.0/cutils.c:99-111 | the seconds are in the order of the dates, and equal only for equal dates |
| `Calendar.FitsAnInt` | qemu-kvm/qemu-kvm/qemu-kvm-0.11.0/cutils.c:107-108 | the product fits the 32 bits it is computed in exactly for the dates from 1901-12-14 to 2038-01-19 |
| `AlphaIndex.MatchHasMajor` | qemu-kvm/qemu-kvm/qemu-kvm-0.11.0/alpha-dis.c:1871 | an opcode whose mask covers the major opcode only matches instructions that have it |
| `AlphaIndex.CompleteIffSorted` | qemu-kvm/qemu-kvm/qemu-kvm-0.11.0/alpha-dis.c:1818-1831 | the index as built reaches every opcode under its major opcode if and only if the table is sorted |
| `AlphaIndex.Disassembler.BuildIndex` | qemu-kvm/qemu-kvm/qemu-kvm-0.11.0/alpha-dis.c:1818-1831 | the loops leave in each entry where a major opcode begins and the one before ends |
| `AlphaIndex.Disassembler.Find` | qemu-kvm/qemu-kvm/qemu-kvm-0.11.0/alpha-dis.c:1864-1894 | finds the first opcode of the whole table that has the instruction's bits under its mask, a common flag with the processor, and no operand that rejects; nothing exactly if there is none |
| `AlphaIndex.MatchesIffAgrees` | qemu-kvm/qemu-kvm/qemu-kvm-0.11.0/alpha-dis.c:1874-1889 | the test of the loop is that, bit by bit |
| `ConsoleFifo.Fifo.Write` | qemu-kvm/qemu-kvm/qemu-kvm-0.11.0/console.c:64-85 | appends the longest prefix that fits |
| `ConsoleFifo.Fifo.Read` | qemu-kvm/qemu-kvm/qemu-kvm-0.11.0/console.c:87-107 | takes off the longest prefix that is there and asked for |
| `ConsoleFifo.WriteExtends` | qemu-kvm/qemu-kvm/qemu-kvm-0.11.0/console.c:72-82 | a chunk written at the write pointer comes behind the contents, also across the end of the buffer |
| `ConsoleFifo.ReadShortens` | qemu-kvm/qemu-kvm/qemu-kvm-0.11.0/console.c:94-104 | a chunk read at the read pointer comes off the front |
| `ConsoleFifo.Run` | qemu-kvm/qemu-kvm/qemu-kvm-0.11.0/console.c:64-107 | over any sequence of writes and reads, what was taken and what is left are what was there and what was accepted |

## Left out

- The printing halves of the disassemblers, the CRIS and Alpha opcode tables as data (any table that meets the stated conditions is covered), and operand extraction.
- The main loop of `cpu_exec`, signal handlers, the patching of direct jumps between blocks, the page lists of blocks, and blocks generated outside `tb_find_slow`.
- Code generation: whether a new block runs into the next page, and whether there is room for it, are parameters. A changed mapping takes effect together with the flush that the program does for it.
- The SP tables of DES are parameters, since the proofs hold for any tables; triple DES is not part of this model.
- The ten tables of AES as data: they are computed from the S-boxes by the formula in the comment above them.
- DMA requests with an empty list, and cancellation; a request whose first callback maps nothing ends the run, since the control block is released there.
- Growable block devices, drivers with their own byte operations, AIO emulation over bounce buffers, image formats and probing.
- BlockCommit: the contents of a sector are a value of any type, and the flushing of the two images is not modelled.
- BufferedFile.File.RateTick: does not model the call that lets the producer put more data.
- BufferedFile.File.Close: the wait for the backend is modelled as the next of its answers, of which there are finitely many.
- AioHandlers.AioContext.Dispatch: callbacks do not wait for AIO themselves, and `select` and the outer loop of `qemu_aio_wait` are not modelled.
- `qsort` and `bsearch` belong to the C library; only their contracts are used. Byte swapping of a symbol is any function.
- ElfSymbols: loading sections and the string table is not modelled; a look-up gives the symbol and not its name.
- `vhci_read` before the loop: the read itself and its error; the handlers that get the packets.
- Calendar: years before 1, and fields outside their ranges other than the time of day.
- Growing and copying I/O vectors (`qemu_iovec_add` and its relatives), ACLs, the rest of the console and the user interfaces: they would only add easy members.
