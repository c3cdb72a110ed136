# Verified model of the Data Mover Library

DML carries out memory operations (move, fill, compare, delta, CRC, DIF) on an Intel Data Streaming Accelerator or in
software. This project models its software kernels, the T10 DIF engine, the page-fault continuation of the automatic
path, descriptor validation, batches and queue probing, and proves what they promise each other.

Memory is flat: an address is an index into one byte array (`Memory`, `BlockLayout`). Each kernel is a method on that
array, proved equal to a function on byte sequences, and the theorems are about those functions.

| file | contents |
|---|---|
| `Memory.dfy` | flat memory, buffers, buffers cut into blocks |
| `Crc16.dfy`, `Crc16Bursts.dfy`, `Dif.dfy`, `DifEngine.dfy`, `DifTheorems.dfy` | the T10 DIF checksum, the integrity field, the four routines, and their laws |
| `Numbers.dfy`, `DifMeaning.dfy`, `DifOperations.dfy` | the field's numbers and faults, and the four DIF operations, by bytes and flag bits |
| `MemMove.dfy`, `RefKernels.dfy`, `Vector.dfy`, `VectorCompare.dfy`, `PatternCompare.dfy` | reference and AVX-512 kernels against byte-wise specifications |
| `Crc32.dfy`, `Crc32Bursts.dfy` | the CRC operation for any polynomial, its check value and what it detects |
| `Delta.dfy`, `DeltaKernels.dfy`, `DeltaTheorems.dfy` | delta records: create, apply, rebase |
| `Operations.dfy`, `SoftwareDevice.dfy` | descriptors, records, one uninterrupted operation, and the software device that performs it |
| `Meanings.dfy` | what each operation leaves in memory and in its record, byte by byte and code by code |
| `Continuation*.dfy`, `StripExtents.dfy`, `StoppingPoints.dfy`, `Interconnect.dfy` | resuming after a page fault, operation by operation and over whole runs; where a resumed strip writes; where the accelerator can stop |
| `Validation.dfy`, `ValidationDelta.dfy`, `DeltaPlacement.dfy`, `AcceptedLosses.dfy`, `Batch.dfy`, `Probing.dfy` | validation and what it lets through, batches, submission |

Assumptions, stated where they are used:

- The accelerator on a page fault has done exactly the part of the operation its record claims (`Continuation.Interrupted`):
  whole 8-byte words for fill, compare-pattern and create-delta, whole notes for apply-delta, whole blocks for DIF, with
  the next block's tags in the record; for a move a prefix, or a suffix when the result is not zero, in a direction that
  is safe for overlapping buffers. This follows chapter 8 of the Intel DSA Architecture Specification.
- The right shift by 64 in `avx512/fill.c:35`, reached when the misalignment is a nonzero multiple of 8, may give either
  zero or the word unchanged; the fill is correct under both readings.
- Completion records and descriptors do not share bytes with data buffers or with each other.
- The status write is the last step of a kernel.

Where the code and its comments disagree the model follows the code:

- the loops that zero the record before a continuation act on a copy, so the record is not zeroed;
- validation estimates strip's output by counting blocks without their fields, which can be less than strip writes;
- a batch that ends on an operation it does not handle counts that entry when its old record says success.

Properties of the code that fail, each with its exact condition:

- a resumed insert or strip equals an uninterrupted one only at the ends (`InsertResumesIff`, `StripResumesIff`; for every
  accepted insert of two blocks, `AcceptedInsertLoses`), and a resumed update only when its source passes or nothing was
  done (`UpdateResumesIff`);
- a resumed strip of a source that passes, stopped inside, writes past the end of its destination, whose length
  sources/c_api/dml_batch.cpp:697 leaves unread (`StripStaysInsideIff`, `StripOverruns`; for every accepted strip of two
  blocks, `AcceptedStripOverruns`, and on one, `StripOverrunExists`);
- a resumed compare may report another position (`ResumedPositionIff`, lost in `ComparePositionLost`), a resumed
  create-delta another result and status (`ResumeCreateDeltaResult`, lost in `CreateDeltaResultLost`), and merging may
  double the byte count (`ByteCountDoubled`);
- the vector compare does not end when its 32-bit counter wraps over bytes that agree (`LoopLeavesIff`, on zeros in
  `ZerosNeverLeave`), and may answer with a position outside the buffers when they differ there (`CompareRightIff`, as in
  `PositionOutside`);
- acceptance keeps insert's output apart from its source only while its size fits 32 bits (`InsertGuaranteeIff`). It lets
  create-delta's record overlap its sources at every size (`CreateDeltaMayOverlap`): the record is right for all accepted
  addresses only for a single word (`CreateDeltaRightIff`), and at given addresses only when the sources are one or no
  note falls on a word still to be read (`CreateDeltaPlacementIff`). It lets apply-delta store outside its destination at
  every size but the largest (`ApplyDeltaMayStoreOutside`, `ApplyDeltaStaysInsideIff`): a given record stays inside only
  when its offsets do (`ApplyRecordInsideIff`);
- devices with unequally many queues lead a thread to index queues that do not exist (`RunsInRangeIff`, `FourAndTwo`);
- a batch may count an unknown last entry (`BatchSucceedsIff`, `UnknownEntryCounted`).

## Model

| member | source | states |
|---|---|---|
| Crc16.CalculateByte | sources/core/src/dif_impl/dml_dif.c:109-124 | the loop over the bits of a byte is eight steps of the shift register |
| Crc16.Calculate | sources/core/src/dif_impl/dml_dif.c:126-134 | the loop over bytes is the left-to-right fold of the register over the buffer |
| Crc16.CrcDetectsPair | sources/core/src/dif_impl/dml_dif.c:109-134 | two payloads that differ only within two adjacent bytes never have the same checksum, for every length, place and seed |
| Crc16Bursts.CrcDetectsBurst | sources/core/src/dif_impl/dml_dif.c:109-134 | two different payloads whose differing bits lie within sixteen consecutive bits, beginning at any bit, never have the same checksum |
| Crc16.TwoBytesInjective | sources/core/src/dif_impl/dml_dif.c:116-123 | the register before and after two bytes determines both bytes |
| Crc16.CrcResidue | sources/core/src/dif_impl/dml_dif.c:126-134 | data followed by its own checksum leaves a zero register |
| Crc16.CrcOfOne | sources/core/src/dif_impl/dml_dif.c:13 | the register divides by the T10 polynomial 0x8BB7 |
| Dif.LoadStoreField | sources/core/src/dif_impl/dml_dif.c:52-59 | a stored integrity field loads as itself |
| Dif.StoreLoadField | sources/core/src/dif_impl/dml_dif.c:52-59 | a loaded field stores as the same eight bytes |
| Dif.FaultBitsExact | include/dml/dmldefs.h:206-209 | each result bit stands for exactly one fault and no other bit is ever set |
| Dif.AppTagCheckedIff | sources/core/src/dif_impl/dml_dif.c:202 | the application tag is compared exactly under a nonzero mask |
| Dif.First | sources/core/src/dif_impl/dml_dif.c:165-226 | the verdict passes iff no block has faults, and otherwise names the first faulty block and precisely its faults |
| DifEngine.DifJob.Check | sources/core/src/dif_impl/dml_dif.c:136-227 | check passes iff every block passes its enabled checks; otherwise it reports the first failing block's offset and exactly its fault bits |
| DifEngine.DifJob.CheckBlock | sources/core/src/dif_impl/dml_dif.c:167-207 | the faults of one block, with F-detect error, F-detect skips and disabled checks |
| DifEngine.DifJob.Insert | sources/core/src/dif_impl/dml_dif.c:229-278 | the destination becomes each source block followed by its new field, and nothing else changes |
| DifEngine.DifJob.Strip | sources/core/src/dif_impl/dml_dif.c:280-310 | a source that passes loses its fields; one that fails leaves memory as it was and reports check's failure |
| DifEngine.DifJob.Update | sources/core/src/dif_impl/dml_dif.c:312-382 | a source that passes is copied with new fields but for the passed-through ones; one that fails leaves memory as it was |
| DifTheorems.RoundTrip | sources/core/src/dif_impl/dml_dif.c:229-310 | strip returns what insert was given, and with matching settings check accepts it iff no written field trips the all-ones error |
| DifTheorems.RoundTripAccepted | sources/core/src/dif_impl/dml_dif.c:136-278 | with matching settings and the all-ones error not enabled, check accepts every output of insert, wrapping tags included |
| DifTheorems.FieldIsBigEndian | sources/core/src/dif_impl/dml_dif.c:266-268 | guard and tags lie in the field most significant byte first |
| DifTheorems.UpdateIsInsertAfterStrip | sources/core/src/dif_impl/dml_dif.c:312-382 | with no pass-through flag update writes byte for byte what strip followed by insert writes |
| DifTheorems.UpdateFieldByField | sources/core/src/dif_impl/dml_dif.c:356-372 | each pass-through flag keeps exactly its own field from the source; the rest is what insert after strip writes |
| DifTheorems.GuardDetectsPair | sources/core/src/dif_impl/dml_dif.c:165-221 | corrupting one or two adjacent payload bytes of an accepted, checked block makes check fail at that block with the guard bit alone |
| DifTheorems.GuardDetectsBytes | sources/core/src/dif_impl/dml_dif.c:165-221 | the same by position in the buffer |
| DifTheorems.GuardDetectsBurst | sources/core/src/dif_impl/dml_dif.c:165-221 | a payload corrupted within sixteen consecutive bits makes check fail at its block with the guard bit alone |
| DifTheorems.CheckResumes | sources/core/src/dif_impl/dml_dif.c:217-220 | checking the rest with block q's tags finds what checking the whole finds, q blocks later |
| DifTheorems.UpdateResumes | sources/core/src/dif_impl/dml_dif.c:374-378 | updating a prefix and then the rest with its tags updates the whole |
| DifMeaning.FaultsMean | sources/core/src/dif_impl/dml_dif.c:165-207 | a block has a fault exactly when its bytes and the flag bits say so: guard, tags under seed, step and mask as numbers, the bytes that pass a block over, and the eight 0xFF |
| DifMeaning.CheckMeans | sources/core/src/dif_impl/dml_dif.c:136-227 | the verdict is the first block with such a fault and exactly its faults, or that there is none |
| DifMeaning.InsertMeans | sources/core/src/dif_impl/dml_dif.c:229-278 | every block insert writes is its payload and, read big-endian, the guard, the application tag (seed + k mod 2^16 if incrementing, masked bits cleared) and the reference tag (seed + k mod 2^32 unless fixed) |
| DifMeaning.UpdateMeans | sources/core/src/dif_impl/dml_dif.c:312-382 | every block update writes is its payload and, part by part as the pass-through bits say, the source's field or such a new one |
| DifMeaning.ReferenceTagDetected | sources/core/src/dif_impl/dml_dif.c:165-221 | a changed reference tag of an accepted, checked block is found at that block and nothing else is, unless the field now says all ones or to pass over |
| DifMeaning.ApplicationTagDetected | sources/core/src/dif_impl/dml_dif.c:165-221 | the same for an application tag that has a mask |
| DifOperations.SettingsMean | sources/core/src/dif_update.cpp:37-54 | block size and every flag bit the routines see, from the descriptor's three flag bytes |
| DifOperations.CheckOperationMeans | sources/core/src/dif_check.cpp:20-58 | status 0x01, or 0x09 with the four fault bits and the byte offset of the first block at fault |
| DifOperations.InsertOperationMeans | sources/core/src/dif_insert.cpp:20-59 | memory holds each source block and its new field, nothing beside it changes, and the record says success |
| DifOperations.FailingOperationMeans | sources/core/src/dif_strip.cpp:20-60 | strip and update report as check does, and leave memory alone when a block is at fault |
| DifOperations.StripOperationMeans | sources/core/src/dif_strip.cpp:20-60 | with no block at fault memory holds each source block without its field, and nothing beside it changes |
| DifOperations.UpdateOperationMeans | sources/core/src/dif_update.cpp:20-67 | with no block at fault memory holds each source block with its updated field, and nothing beside it changes |
| MemMove.RefMemMove | sources/core/src/sw_dispatcher/ref/mem_move.c:32-86 | whichever branch it takes, overlapping or not, memory is as if all bytes moved at once |
| RefKernels.RefFill | sources/core/src/sw_dispatcher/ref/fill.c:11-19 | byte k becomes pattern byte k mod 8 and no other byte changes |
| RefKernels.RefCompare | sources/core/src/sw_dispatcher/ref/compare.c:11-27 | the least differing index, or equal iff there is none |
| RefKernels.RefDualcast | sources/core/src/sw_dispatcher/ref/dualcast.c:11-18 | both destinations become the source and nothing else changes |
| VectorFill.Fill | sources/core/src/sw_dispatcher/avx512/fill.c:83-95 | the vector fill is the byte-wise fill for every address and size |
| VectorFill.FillBig | sources/core/src/sw_dispatcher/avx512/fill.c:19-65 | unaligned head, rotated pattern, aligned body and masked tail together write the byte-wise fill |
| VectorFill.FillSmall | sources/core/src/sw_dispatcher/avx512/fill.c:67-81 | two masked half-register stores write the byte-wise fill below 64 bytes |
| VectorFill.RotatedAt | sources/core/src/sw_dispatcher/avx512/fill.c:35 | the rotated pattern continues the head's phase, under either reading of the shift by 64 |
| VectorCompare.Compare | sources/core/src/sw_dispatcher/avx512/compare.c:17-49 | whenever its loop is left, the vector compare gives the least differing index, or equal, of the bytes the loop may touch |
| VectorCompare.LoopLeavesIff | sources/core/src/sw_dispatcher/avx512/compare.c:24-33 | the loop is left after some number of turns iff the size is below 2^32 - 64 or the 2^32 bytes its wrapping counter passes over differ |
| VectorCompare.CompareRightIff | sources/core/src/sw_dispatcher/avx512/compare.c:24-33 | where the loop is left the answer is that for the two buffers iff the size is below 2^32 - 64 or the buffers differ; otherwise it is a position outside them |
| VectorCompare.ZerosNeverLeave | sources/core/src/sw_dispatcher/avx512/compare.c:24-33 | two buffers of zeros with size 2^32 - 1: no number of turns leaves the loop |
| VectorCompare.PositionOutside | sources/core/src/sw_dispatcher/avx512/compare.c:24-33 | two equal buffers of 2^32 - 1 bytes reported to differ at position 2^32 - 1, the byte after them |
| VectorCompare.LoopEnds | sources/core/src/sw_dispatcher/avx512/compare.c:24 | the loop guard can fail iff the size is below 2^32 - 64, where the 32-bit counter cannot wrap |
| PatternCompare.RefComparePattern | sources/core/src/sw_dispatcher/ref/compare_pattern.c:11-46 | equal iff every byte k is pattern byte k mod 8; else the start of the first odd word, or the byte itself in the last partial word |
| PatternCompare.ComparePattern | sources/core/src/sw_dispatcher/avx512/compare_pattern.c:17-73 | the vector kernel reports exactly what the byte-wise specification does |
| PatternCompare.PatternCompared | sources/core/src/sw_dispatcher/avx512/compare_pattern.c:54-72 | the specification reports equality iff the buffer is the repeated pattern |
| PatternCompare.PositionOfWord | sources/core/src/sw_dispatcher/ref/compare_pattern.c:22-31 | if some whole word is not the pattern, the position is 8 times the least such word's number |
| PatternCompare.PositionOfByte | sources/core/src/sw_dispatcher/ref/compare_pattern.c:33-44 | if only a byte of the last partial word differs, the position is the least such byte |
| Crc32.RefCrc | sources/core/src/sw_dispatcher/ref/crc.c:37-55 | both reference CRC routines are left-to-right byte folds |
| Crc32.Calculate | sources/core/src/crc.cpp:18-65 | the operation's value is the fold between the entry and exit transforms |
| Crc32.ReverseTwice | sources/core/src/crc.cpp:30-39 | reversing the bits is its own inverse |
| Crc32.ReverseBit | sources/core/src/crc.cpp:30-39 | bit k and bit 31 - k trade places |
| Crc32.ChecksumResumes | sources/core/src/crc.cpp:41-61 | the CRC of a whole is the CRC of its rest seeded with that of its first part, for every polynomial and either reflection setting |
| Crc32Bursts.ChecksumDetectsBurst | sources/core/src/sw_dispatcher/ref/crc.c:19-55 | two different buffers whose differing bits lie within 32 consecutive bits, in the order they enter, never have the same checksum, for every polynomial with a constant term, seed and option |
| Crc32Bursts.ChecksumOfOne | sources/core/src/sw_dispatcher/ref/crc.c:19-34 | from zeros a lowest bit unreflected, or a highest one reflected, leaves the polynomial 0x1EDC6F41 |
| Crc32Bursts.CheckValue | sources/core/src/crc.cpp:41-61 | the nine characters 1 to 9 with seed 0 give 0xE3069283, the check value of CRC-32C |
| Delta.DecodeEncode | sources/core/src/sw_dispatcher/ref/apply_delta.c:16-26 | decoding an encoded list of notes gives it back |
| Delta.EncodeDecode | sources/core/src/sw_dispatcher/ref/apply_delta.c:16-26 | a record of whole notes is what its notes encode to |
| Delta.NotesExact | sources/core/src/sw_dispatcher/ref/create_delta.c:26-50 | up to 2^16 words, the notes are exactly the differing words with their new bytes, in strictly increasing order, none wrapped |
| Delta.NotesSplit | sources/middle_layer/src/accumulate_records.hpp:147-153 | the notes of a whole are those of a prefix and then those of the rest, each moved by the prefix's words |
| Delta.KeptSplit | sources/middle_layer/src/partial_completion.hpp:156-157 | what fits the remaining room after a first part is what fits of the whole |
| DeltaKernels.RefCreateDelta | sources/core/src/sw_dispatcher/ref/create_delta.c:11-58 | wherever the three buffers lie, memory, size and result are those of the loop's turns, each on memory as it is then |
| DeltaKernels.CreateLoopClear | sources/core/src/sw_dispatcher/ref/create_delta.c:11-58 | where no note falls on a word still to be read, the record holds the notes that fit, in order; size and result tell how many, and whether none, some or too many |
| DeltaKernels.CreateLoopDisjoint | sources/core/src/sw_dispatcher/ref/create_delta.c:11-58 | the same, in particular, with the record clear of the sources |
| DeltaKernels.RefApplyDelta | sources/core/src/sw_dispatcher/ref/apply_delta.c:11-30 | wherever record and destination lie, and whatever the offsets, memory is as if the notes were read and stored in turn |
| DeltaKernels.ApplyLoopWithin | sources/core/src/sw_dispatcher/ref/apply_delta.c:11-30 | with the record clear of the destination and its offsets within, memory is the destination with the record's notes stored in order |
| DeltaKernels.Rebase | sources/middle_layer/src/accumulate_records.hpp:146-153 | every note of the record moves by the given words and nothing else changes |
| DeltaTheorems.ApplyUndoesCreate | sources/core/src/sw_dispatcher/ref/apply_delta.c:11-30 | applying the whole difference to a copy of source 1 gives source 2 |
| SoftwareDevice.Submit | sources/core/src/software_device.cpp:17-80 | every operation's kernels leave the memory and record of `Operations.Execute`, on processors with or without AVX-512 |
| SoftwareDevice.RunCompare | sources/core/src/compare.cpp:20-37 | position, result and predicate status of the bytes the processor's compare goes over, and those of the buffers whenever that is the same |
| SoftwareDevice.RunComparePattern | sources/core/src/compare_pattern.cpp:20-37 | position, result and predicate status of a compare with a pattern |
| SoftwareDevice.RunCreateDelta | sources/core/src/create_delta.cpp:19-60 | record size, result and the three-bit predicate status of a create-delta, wherever its record lies |
| SoftwareDevice.DeltaStatusMeans | sources/core/src/create_delta.cpp:36-58 | the status is success iff nothing is checked, the mask is 7, or it is 1 for result 0, 2 or 3 for 1, 4 or 5 for 2 |
| SoftwareDevice.RunCopyCrc | sources/core/src/copy_crc.cpp:18-68 | the copy, and the CRC of the source |
| SoftwareDevice.RunDifCheck | sources/core/src/dif_check.cpp:20-58 | the job packed from the descriptor and the record written from the job |
| SoftwareDevice.RunDifInsert | sources/core/src/dif_insert.cpp:20-59 | the same for insert |
| SoftwareDevice.RunDifStrip | sources/core/src/dif_strip.cpp:20-60 | the same for strip |
| SoftwareDevice.RunDifUpdate | sources/core/src/dif_update.cpp:20-67 | the same for update |
| Meanings.NothingMeans | sources/core/src/nop.cpp:12-20 | nop, drain and cache flush leave memory and all of the record but a success status |
| Meanings.MoveMeans | sources/core/src/mem_move.cpp:14-28 | byte by byte, the destination holds what the source held, nothing else changes, and the record says success |
| Meanings.FillMeans | sources/core/src/fill.cpp:14-28 | byte by byte, the destination holds the repeated pattern, nothing else changes, and the record says success |
| Meanings.DualcastMeans | sources/core/src/dualcast.cpp:14-29 | byte by byte, both destinations hold what the source held, nothing else changes, and the record says success |
| Meanings.CompareMeans | sources/core/src/compare.cpp:20-37 | result 0 at position 0, or 1 at the least differing byte, and status 0x01 or 0x02 as the expected result asks |
| Meanings.PatternWordMeans | sources/core/src/compare_pattern.cpp:20-37 | the same for a pattern when a whole word differs |
| Meanings.PatternByteMeans | sources/core/src/compare_pattern.cpp:20-37 | the same when only a byte of the last partial word does |
| Meanings.PatternEqualMeans | sources/core/src/compare_pattern.cpp:20-37 | the same when none does |
| Meanings.CreateDeltaMeans | sources/core/src/create_delta.cpp:19-60 | the result is 0, 1 or 2 as no word differs, some do and a note of each fits, or not; size and status follow |
| Meanings.CreateRecordMeans | sources/core/src/sw_dispatcher/ref/create_delta.c:26-50 | each differing word's ten bytes, its number low byte first and the word of source 2, stand after those of earlier differing words; nothing beside the record changes |
| Meanings.ApplyWordMeans | sources/core/src/sw_dispatcher/ref/apply_delta.c:16-28 | the last note for a word decides its eight bytes |
| Meanings.ApplyElsewhereMeans | sources/core/src/sw_dispatcher/ref/apply_delta.c:16-28 | a byte in no word that has a note stays |
| Meanings.ApplyDeltaMeans | sources/core/src/apply_delta.cpp:14-29 | the operation applies its record's whole notes and says success |
| Meanings.CrcMeans | sources/core/src/crc.cpp:18-65 | memory stays, and the record gets the CRC-32C value and a success status |
| Meanings.CopyCrcMeans | sources/core/src/copy_crc.cpp:18-68 | the copy, byte by byte, the source's CRC-32C value and a success status |
| ContinuationProofs.ResumeMemMove | sources/middle_layer/src/partial_completion.hpp:106-118 | an interrupted move, prefix or suffix, overlapping or not, ends as one whole move |
| ContinuationProofs.ResumeFill | sources/middle_layer/src/partial_completion.hpp:120-127 | a fill interrupted at a multiple of 8 bytes ends as one whole fill |
| ContinuationProofs.ResumeCompare | sources/middle_layer/src/partial_completion.hpp:129-137 | an interrupted compare gives the whole one's status and result, with the accelerator's count as position |
| ContinuationProofs.ResumedPositionIff | sources/middle_layer/src/accumulate_records.hpp:122-128 | that position is the whole one's iff the first difference is where the accelerator stopped, or there is none and it had not begun |
| ContinuationProofs.ResumeComparePattern | sources/middle_layer/src/partial_completion.hpp:139-146 | an interrupted compare-pattern gives the whole one's status, result and mismatch position |
| ContinuationProofs.ResumeDualcast | sources/middle_layer/src/partial_completion.hpp:169-178 | an interrupted dualcast ends as one whole dualcast |
| ContinuationProofs.ResumeCrc | sources/middle_layer/src/partial_completion.hpp:180-188 | an interrupted CRC gives the whole one's value |
| ContinuationProofs.ResumeCopyCrc | sources/middle_layer/src/partial_completion.hpp:190-199 | an interrupted copy with CRC leaves the whole copy and gives the whole value |
| ContinuationDelta.ResumeCreateDelta | sources/middle_layer/src/accumulate_records.hpp:138-155 | an interrupted create-delta leaves the whole one's memory and record size, overflow or not |
| ContinuationDelta.ResumeCreateDeltaResult | sources/middle_layer/src/accumulate_records.hpp:138-155 | it reports the whole one's result iff the first part had no notes or the rest has some, and the whole one's status iff besides the predicate does not tell no difference from some |
| ContinuationDelta.InterruptedDeltaRestores | sources/middle_layer/src/accumulate_records.hpp:146-154 | its record is one record with increasing offsets, and applying it to source 1 gives source 2 |
| ContinuationDelta.ResumeApplyDelta | sources/middle_layer/src/partial_completion.hpp:160-167 | an interrupted apply-delta ends as one whole apply |
| ContinuationDif.ResumeDifCheck | sources/middle_layer/src/partial_completion.hpp:201-210 | an interrupted DIF check gives the whole one's status, fault bits and, on failure, absolute offset |
| ContinuationDif.ResumeDifUpdate | sources/middle_layer/src/partial_completion.hpp:236-249 | an interrupted DIF update gives the whole one's answer, and its memory when the source passes; else the accelerator's blocks stay written |
| ContinuationDif.InsertResumesIff | sources/middle_layer/src/partial_completion.hpp:212-222 | a resumed insert equals a whole one for every destination content iff the accelerator stopped before the first block or after the last |
| ContinuationFailing.StripResumesIff | sources/middle_layer/src/partial_completion.hpp:224-234 | the same for a strip of any source, failing blocks included, where the memory the continuation writes into exists |
| StripExtents.StripStaysInsideIff | sources/middle_layer/src/partial_completion.hpp:224-234 | a resumed strip changes nothing outside its destination, whatever memory holds, iff the accelerator stopped before the first block or after the last, or the source fails |
| StripExtents.StripOverruns | sources/middle_layer/src/partial_completion.hpp:224-234 | stopped after q blocks inside, it ends 8 * q bytes past its destination, with the last payload byte |
| StripExtents.StripLeaves | sources/middle_layer/src/partial_completion.hpp:224-234 | the memory a resumed strip of a passing source leaves, exactly: the remaining payloads where the source's advance puts them |
| StripExtents.InsertLeaves | sources/middle_layer/src/partial_completion.hpp:212-222 | the memory a resumed insert leaves, exactly: the whole one's remaining blocks, tags continued, as far behind as payloads |
| StripExtents.StripAnswer | sources/middle_layer/src/accumulate_records.hpp:205-211 | an interrupted strip, failing sources included, gives the whole one's status, fault bits and absolute offset |
| StripExtents.InsertAnswer | sources/middle_layer/src/accumulate_records.hpp:197-203 | an interrupted insert gives the whole one's status |
| AcceptedLosses.ComparePositionLost | sources/middle_layer/src/accumulate_records.hpp:127 | an accepted compare of three bytes whose reported position is lost |
| AcceptedLosses.CreateDeltaResultLost | sources/middle_layer/src/accumulate_records.hpp:138-155 | an accepted create-delta of two words of which the first differ, interrupted between them: the whole run reports a difference, the resumed one none, with another status |
| AcceptedLosses.AcceptedStripOverruns | sources/middle_layer/src/partial_completion.hpp:224-234 | every accepted strip of two or more blocks that pass can be stopped after the first such that the resumed run changes a byte outside the destination |
| AcceptedLosses.StripOverrunExists | sources/middle_layer/src/partial_completion.hpp:224-234 | an accepted strip of two 512-byte blocks that does |
| AcceptedLosses.AcceptedInsertLoses | sources/middle_layer/src/partial_completion.hpp:212-222 | every accepted insert of two or more blocks can be stopped after the first such that the resumed run leaves other memory |
| ContinuationFailing.UpdateResumesIff | sources/middle_layer/src/partial_completion.hpp:236-249 | a resumed update equals a whole one for every destination content iff its source passes or the accelerator stopped before the first block |
| ContinuationTheorem.InterruptedEqualsWhole | sources/middle_layer/src/core_interconnect.cpp:104-128 | every resumable operation, interrupted anywhere, leaves the memory and the answer of an uninterrupted one |
| ContinuationTheorem.InterruptedIsReady | sources/middle_layer/src/core_interconnect.cpp:119-122 | what is left of an interrupted operation has its buffers in memory and apart, for every operation but strip, whose rest may end past the caller's destination: there iff that memory exists |
| StoppingPoints.InterruptionExists | sources/middle_layer/src/core_interconnect.cpp:114 | an interruption that claims q bytes of an operation exists iff q is one of its stopping points: within its size, on a whole unit, with what came before equal, passing or fitting the record |
| ContinuationTheorem.ResumedStatus | sources/middle_layer/src/core_interconnect.cpp:121-126 | a continuation never ends in a page fault |
| ContinuationTheorem.AnswerIgnoresOldRecord | sources/core/src/software_device.cpp:17-80 | memory and answer do not depend on what the record held before |
| ContinuationTheorem.ByteCountDoubled | sources/middle_layer/src/accumulate_records.hpp:106-120 | where kernels leave the byte count alone, merging doubles the accelerator's count, which is the whole run's count iff it was 0 or 2^31 |
| ContinuationTheorem.FlushResumes | sources/middle_layer/src/partial_completion.hpp:251-258 | a flush's first part and its rest go over exactly the whole's bytes |
| Continuation.PageFaultMeans | sources/middle_layer/src/core_interconnect.cpp:106-114 | a page fault is status 0x03 or 0x83 |
| Interconnect.Job.Submit | sources/middle_layer/src/core_interconnect.cpp:91-102 | a descriptor the accelerator takes has a zeroed record; one it refuses is done in software at once, with the whole answer |
| Interconnect.Job.AccumulateRecords | sources/middle_layer/src/accumulate_records.hpp:43-104 | the merged record, and create-delta's moved notes |
| Interconnect.Job.Poll | sources/middle_layer/src/core_interconnect.cpp:130-153 | finished continues a faulted job and changes no other; what it reports finished is settled |
| Interconnect.Job.Wait | sources/middle_layer/src/core_interconnect.cpp:104-128 | wait leaves a settled job, continued if it had faulted and unchanged otherwise |
| Interconnect.AtMostOneContinuation | sources/middle_layer/src/core_interconnect.cpp:104-153 | over any run of accelerator writes and calls the continuation happens at most once, and a settled job never changes again |
| Interconnect.RunEndsAsWhole | sources/middle_layer/src/core_interconnect.cpp:104-153 | every settled state of every run, interrupted or not, holds the memory and answer of one uninterrupted run |
| Interconnect.InterruptedCanContinue | sources/middle_layer/src/core_interconnect.cpp:119-122 | an interrupted job meets what finishing it in software asks, the vector compare's ending included, iff the memory its continuation touches exists |
| Interconnect.CallsNeverStuck | sources/middle_layer/src/core_interconnect.cpp:121-122 | in every reachable state a call can take its step, but for a faulted job whose continuation would touch memory that does not exist |
| Validation.OverlapsExact | sources/core/src/utils.hpp:29-37 | without address wrap the overlap test is exact |
| Validation.AcceptedIff | sources/core/src/validation.cpp:96-312 | a descriptor other than a batch is accepted iff no address is null, its sizes fit and its checked buffers are apart, create-delta's record and apply-delta's offsets being free; a null address is reported first |
| Validation.RefusedExactly | sources/core/src/validation.cpp:96-312 | which error a descriptor gets: the first of those that hold, in the order the operation looks |
| Validation.OneError | sources/core/src/validation.cpp:96-312 | at most one error fits a descriptor in this sense |
| Validation.BatchRefused | sources/core/src/validation.cpp:314-320 | a batch is refused for a null list first, and then for fewer than four entries |
| Validation.AcceptedIsAdmissible | sources/core/src/validation.cpp:169-312 | every accepted descriptor has disjoint true extents where its kernel and its continuation need them |
| Validation.StripIsDisjoint | sources/core/src/validation.cpp:273-297 | an accepted strip is clear of its source over the source's whole length, though the size estimate is shorter |
| Validation.InsertGuaranteeIff | sources/core/src/validation.cpp:256-271 | acceptance keeps insert's extents apart for every pair of addresses iff the output size fits 32 bits |
| ValidationDelta.CreateDeltaMayOverlap | sources/core/src/validation.cpp:144-167 | for every accepted size some accepted addresses put the record over a source |
| ValidationDelta.CreateDeltaRightIff | sources/core/src/validation.cpp:144-167 | the kernel's record, size and result are right for all accepted addresses and contents iff the size is one word |
| ValidationDelta.ApplyDeltaMayStoreOutside | sources/core/src/validation.cpp:169-193 | for every accepted size but the largest, an accepted record whose offset is outside the destination, and whose store leaves it |
| ValidationDelta.ApplyDeltaStaysInsideIff | sources/core/src/validation.cpp:169-193 | every accepted apply-delta of a size changes only its destination iff the size is 2^19, the largest |
| DeltaPlacement.CreateDeltaPlacementIff | sources/core/src/sw_dispatcher/ref/create_delta.c:26-56 | at any accepted addresses, overlapping sources included, the record is right for every content iff the sources are one or no note falls on a word the loop has still to read |
| DeltaPlacement.ApplyRecordInsideIff | sources/core/src/sw_dispatcher/ref/apply_delta.c:16-28 | an accepted apply-delta whose stores do not fall on its record stays inside its destination, whatever else memory holds, iff every offset does |
| DeltaPlacement.RestoringRecord | sources/core/src/sw_dispatcher/ref/apply_delta.c:16-28 | an accepted record that falls on itself and stores there what it holds: it stays inside though its offset does not |
| Batch.Runner.Run | sources/core/src/batch.cpp:19-106 | the batch ends where submitting its entries one by one ends, at the first that is not handled or does not plainly succeed |
| Batch.BatchIsSequential | sources/core/src/batch.cpp:26-105 | for handled operations the count is the longest successful prefix, and success means that it is the whole list |
| Batch.BatchSucceedsIff | sources/core/src/batch.cpp:83-100 | exactly when any batch reports success |
| Batch.HandledMeans | sources/core/src/batch.cpp:34-83 | the fifteen operations a batch carries out, drain not being one |
| Batch.EndMeans | sources/core/src/batch.cpp:81-100 | where a batch ends: an entry not carried out changes nothing and counts by its old record; another one's kernel reported no success |
| Batch.UnknownEntryCounted | sources/core/src/batch.cpp:83-100 | an accepted batch of three no-ops and an unknown last entry with an old success in its record: all four are counted |
| Batch.EndIsUnique | sources/core/src/batch.cpp:26-105 | a batch has one end |
| Probing.Submitter.Enqueue | sources/core/src/hw_dispatcher/hw_device.cpp:67-98 | queues are tried from the one after the thread's index to the last, then from 0 to the index, until one accepts; the first device a thread comes to sets the index |
| Probing.Submitter.Submit | sources/core/src/hardware_device.cpp:34-78 | devices on the node are tried in circular order; success stops at the first accepting queue, and failure has tried all and kept the index; the record is zeroed iff some queue was tried |
| Probing.OrderExact | sources/core/src/hardware_device.cpp:47-70 | where the index is a queue of the node's devices, a submission in vain has probed every queue of every device on the node exactly once and no other |
| Probing.IndicesCircular | sources/core/src/hw_dispatcher/hw_device.cpp:73-95 | with the index in range the two loops together are one circular order |
| Probing.IndicesExact | sources/core/src/hw_dispatcher/hw_device.cpp:73-95 | each queue is tried exactly once |
| Probing.IndicesInRangeIff | sources/core/src/hw_dispatcher/hw_device.cpp:71-95 | the tried indices are queues of the device iff the thread's last index, perhaps from another device, is |
| Probing.RunsInRangeIff | sources/core/src/hw_dispatcher/hw_device.cpp:67-98 | every run of a fresh thread, for all nodes and accepting queues, tries only queues that exist iff all devices a request can name have equally many |
| Probing.FourAndTwo | sources/core/src/hw_dispatcher/hw_device.cpp:71-95 | two devices with 4 and 2 queues: the first submission that finds all busy indexes queue 3 of the second |

## Left out

- Cache flush is modelled as leaving data memory alone.
- Address wrap-around at 2^64: buffers are taken to exist in memory, so addresses never wrap; sizes and counts wrap at their widths.
- DIF block size: the routines and their laws hold for every block size from 512 up; descriptors select among 512, 520, 4096 and 4104.
- DeltaKernels.RefApplyDelta: requires the stores to fall into memory that exists; beyond it the source's behaviour is undefined.
- Crc32.Calculate: the AVX-512 folding kernels that the dispatcher may select are not modelled, only the reference ones.
- SoftwareDevice.Submit: the AVX-512 move and CRC kernels are replaced by the reference ones; it asks for a compare that ends with the right answer, delta buffers that are apart, and offsets that lie within.
- VectorCompare.Compare: asks that its loop be left, which `LoopLeavesIff` characterises, and that all bytes the loop may touch exist.
- SoftwareDevice.RunCompare: asks the same on processors with AVX-512.
- Validation.AcceptedIsAdmissible: takes create-delta's disjointness, apply-delta's offsets and insert's output size as hypotheses, since acceptance does not give them; `CreateDeltaRightIff`, `ApplyDeltaStaysInsideIff` and `InsertGuaranteeIff` say when it does.
- Interconnect.Job.Wait: starts when the record has been written; the polling and umwait loops before that are not modelled.
- DeltaPlacement.ApplyRecordInsideIff: asks that no store fall on the record, because such a store may restore what is there (`RestoringRecord`).
- ContinuationFailing.StripResumesIff: the flat memory has no buffer at an address beyond it, not even an empty one, so a strip stopped after its last block is continued only where the address after the source's length is one.
- Probing.Submitter: one thread; which queue accepts is an argument, also for a queue the device does not have, where the source's behaviour is undefined.
- Batch.Runner: every entry has its own completion record. A batch that faults in the accelerator is run again in software from its first entry with its descriptor unchanged, which is not modelled.
- Submission to hardware itself (enqcmd, portals, libaccel, NUMA and CPUID queries), fences and weak memory.
- The high-level and C interfaces, option classes, status translation and examples, which are thin.
