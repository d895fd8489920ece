# GLOS container format, stream reader/writer, UDP replay and recorder loop — a Dafny model

GLOS stores raw I/Q samples from a software-defined radio. The file layout is:

- a fixed 128-byte header, holding the magic `GLOS`, the version, the flags, the device, sample-format and compression codes, six integer fields and a CRC-32;
- then back-to-back sample blocks, each a big-endian content size, sample count, timestamp, payload and CRC-32.

This project models the core of that system in Dafny and proves properties of the model.

- **Codec** (`types.dfy`, `bytes.dfy`, `binary.dfy`, `header.dfy`, `block.dfy`, `crc32.dfy`, `lz4.dfy`).
  - The three enumerations and their byte codes.
  - The cursor helpers that read and write the header's integer fields. You pick the byte order with bit 0 of the flags.
  - The imperative header encoder, which fills a zeroed 128-byte `array` through a moving cursor, and its decoder.
  - The block encoder and decoder, with the decoder's error taxonomy.
  - The LZ4 payload transform.
- **Stream writer** (`writer.dfy`).
  - A `GlosWriter` class whose output stream is a byte sequence.
  - It writes the header first, then one frame per block.
  - Its counters advance before each frame is built.
  - `finish` rewrites the header in place with the final totals.
- **Resynchronising reader** (`reader.dfy`, `reader_props.dfy`).
  - `next_block` is written twice: as a function of the reader state (`Advance`), and as the `GlosReader` class that runs the same loop in place and is proved equal to it.
  - The underlying stream is a finite script of read results.
  - The proofs cover the resynchronisation rules and the counters.
  - They prove that the output does not depend on how the stream is cut into reads, and that a clean stream of valid blocks is read back block for block.
- **UDP replay** (`replayer.dfy`).
  - The 10-byte packet framing and how it round-trips.
  - The pacing decision of `TimingController::wait_for`, with the clock readings passed in as numbers.
- **Recorder writer loop** (`pipeline.dfy`).
  - `writer_loop` as imperative Dafny over a script of loop events. It is split into the chunk loop, the inner block-cutting loop, the final partial-block flush and `finish`.
  - It is proved against a reference slicing of the received chunks (`Sliced`), with exact accounting for every counter.
  - A recording whose writes all went through reads back through the reader as exactly the sliced blocks.

Code and comment disagree in one place. The module comment at the top of `glos-core/src/format.rs` says every multi-byte number is big-endian. The code stores the six header integer fields little-endian when bit 0 of the flags is set. The header CRC and all block fields are always big-endian. The model follows the code.

## Model

| member | source | states |
|---|---|---|
| GlosTypes.SdrAsU8 | glos-types/src/sdr.rs:25-27 | the device code is one of 0, 1, 2, 255, and it is 255 exactly for `Unknown` |
| GlosTypes.SdrFromU8 | glos-types/src/sdr.rs:16-23 | decoding never fails; a code outside 0..2 gives `Unknown`; re-encoding gives the code back iff it is 0, 1, 2 or 255 |
| GlosTypes.IqFormatAsU8 | glos-types/src/iq_format.rs:27-29 | the sample-format code is at most 2 |
| GlosTypes.IqFormatFromU8 | glos-types/src/iq_format.rs:16-25 | decoding succeeds iff the code is at most 2, and then re-encodes to the same code; any other code is `FormatViolation(UnknownIqFormat(code))` |
| GlosTypes.SampleSize | glos-types/src/iq_format.rs:32-38 | a sample pair takes twice the component width: 2, 4, 8 bytes |
| GlosTypes.CompressionAsU8 | glos-types/src/compression.rs:24-26 | the compression code is at most 1 |
| GlosTypes.CompressionFromU8 | glos-types/src/compression.rs:14-22 | decoding succeeds iff the code is at most 1, and then re-encodes to it; otherwise `FormatViolation(UnknownCompression(code))` |
| GlosTypes.EnumCodesRoundTrip | glos-core/src/format.rs:102-156 | every device, format and compression variant survives encode-then-decode, `Unknown` (255) included |
| Bytes.LeIsReversedBe | glos-core/src/binary/read.rs:3-38 | the little-endian reading of a window equals the big-endian reading of the reversed window |
| Bytes.LeBytesIsReversedBe | glos-core/src/binary/write.rs:3-29 | the little-endian bytes of a value are its big-endian bytes reversed |
| Bytes.WrapAdd | glos-core/src/replayer.rs:217-230 | an atomic `fetch_add` on a 64-bit counter: the plain sum below 2^64, the sum less 2^64 above it |
| Bytes.WrapAddAcc | glos-recorder/src/pipeline.rs:151-153 | adding to a wrapping counter twice equals adding the sum once |
| Binary.ReadUint | glos-core/src/binary/read.rs:3-38 | the byte-at-a-time loop computes the unsigned value of the window in the chosen byte order |
| Binary.ReadU32Local | glos-core/src/binary/read.rs:3-15 | the four bytes at the cursor, read in the chosen order (for LE, the BE value of the reversed window); the cursor advances by 4 |
| Binary.ReadU64Local | glos-core/src/binary/read.rs:17-38 | the eight bytes at the cursor, read in the chosen order; the cursor advances by 8 |
| Binary.WriteUint | glos-core/src/binary/write.rs:9-13 | the width bytes of the value in the chosen order replace the window, and no byte outside it changes |
| Binary.WriteLe | glos-core/src/binary/write.rs:10 | the little-endian bytes of the value replace the window; the rest of the buffer is unchanged |
| Binary.WriteBe | glos-core/src/binary/write.rs:12 | the big-endian bytes of the value replace the window; the rest of the buffer is unchanged |
| Binary.ShiftStep | glos-core/src/binary/write.rs:10-12 | shifting one more byte out of a value divides it by 256 |
| Binary.WriteU32Local | glos-core/src/binary/write.rs:3-15 | stores val at [off, off+4) in the chosen order, changes nothing else, advances the cursor by 4 |
| Binary.WriteU64Local | glos-core/src/binary/write.rs:17-29 | stores val at [off, off+8) in the chosen order, changes nothing else, advances the cursor by 8 |
| Binary.ReadAfterWrite | glos-core/src/binary/write.rs:3-29 | reading a window back with the byte order it was written in gives the value that was written; the bytes outside the window are the old ones |
| Header.NewHeader | glos-core/src/format.rs:161-184 | version 1, big-endian flags, Int16, no compression, gain 0, start time = the clock reading, end time and total 0 |
| Header.HeaderLayout | glos-core/src/format.rs:187-228 | the field offsets: magic at 0..4, version 4, flags 5, codes 12/13/14, the six integers packed from 16 to 56 in flag order, the big-endian CRC of [0,72) at 72..76, every other byte zero |
| Header.StoredCrc | glos-core/src/format.rs:275 | the stored header checksum is the big-endian value of bytes 72..76 |
| Header.DecodeHeader | glos-core/src/format.rs:232-297 | errors are only bad magic, version, format violation or checksum mismatch; success means the magic, version 1 and stored checksum all matched, and the result carries the flags byte, the device code, and format and compression codes that re-encode to bytes 13 and 14 |
| Header.DecodeHeaderErrorOrder | glos-core/src/format.rs:232-282 | the error order: bad magic, then version, then format code, then compression code, then checksum; each error iff all earlier checks pass |
| Header.DecodeHeaderIgnoresReserved | glos-core/src/format.rs:232-297 | two buffers that agree on bytes 0..76 decode the same: bytes 76..128 are never read |
| Header.HeaderRoundTrip | glos-core/src/format.rs:187-297 | decoding the serialization of any version-1 header gives back every field, in either byte order, with the gain as its bit pattern |
| Header.HeaderStoredCrcFlip | glos-core/src/format.rs:595-605 | changing any byte of the stored checksum of a valid header gives `CrcMismatch(computed, stored)` |
| Header.DecodeHeaderCrcStage | glos-core/src/format.rs:274-282 | once magic, version and codes pass, a stored checksum that differs from the computed one is the result |
| Header.HeaderVersion99 | glos-core/tests/integration_tests.rs:345-357 | a version byte of 99 gives `UnsupportedVersion(99, 1)` |
| Header.SerializeHeader | glos-core/src/format.rs:187-229 | filling a zeroed buffer through the cursor yields exactly the 128 bytes of the layout; it never fails |
| Header.WriteLead | glos-core/src/format.rs:188-211 | the magic, version, flags and three codes written through the cursor, with the padding left zero |
| Header.WriteFields | glos-core/src/format.rs:213-221 | the six integer fields written in flag-selected order at 16..56, with every later byte still zero |
| Header.DeserializeHeader | glos-core/src/format.rs:232-297 | decoding the buffer gives the outcome of the header decoding function on the same 128 bytes |
| Block.BlockLayout | glos-core/src/format.rs:386-406 | a frame is BE32(12+len), BE32(count), BE64(timestamp), the payload, then the BE32 CRC of bytes [4, 16+len) |
| Block.SerializeBlock | glos-core/src/format.rs:386-406 | the frame is built iff 20+len ≤ 1 MiB (so exactly 1 MiB is accepted); otherwise `InvalidBlockSize(20+len)` |
| Block.DecodeBlock | glos-core/src/format.rs:409-467 | only `Corrupted` or `CrcMismatch` errors; success consumes 8+size ≤ len bytes, at least 20, reads count and timestamp big-endian, takes the payload between them and the CRC, takes the compressed flag from the header, and its stored CRC matches the bytes it covers |
| Block.DecodeBlockOutcomes | glos-core/src/format.rs:413-451 | too small iff fewer than 20 bytes; incomplete iff 8+size exceeds the input, checked before size < 12; invalid content size iff the frame fits but size < 12; for a sound frame, `CrcMismatch` iff the stored big-endian CRC differs from the checksum of bytes 4..4+size, and success iff they agree |
| Block.DecodeBlockExtend | glos-core/src/format.rs:409-467 | a verdict of success or checksum mismatch does not change when more bytes follow |
| Block.BlockRoundTrip | glos-core/src/format.rs:634-688 | any serialized block decodes from the front of any stream to its timestamp, count and payload, with the compressed flag taken from the header and the consumed length equal to the frame length |
| Block.BlockStoredCrcFlip | glos-core/src/format.rs:666-674 | changing any byte of a block's stored CRC gives `CrcMismatch`, whatever follows |
| Block.Compress | glos-core/src/format.rs:334-343 | no-op on a compressed block; otherwise the block comes out compressed, with count and timestamp kept |
| Block.Decompress | glos-core/src/format.rs:346-358 | no-op on an uncompressed block; success leaves an uncompressed block with count and timestamp kept; failure is `Corrupted(Lz4Failed)`, and the block is left unchanged |
| Block.DecompressCompress | glos-core/src/format.rs:709-725 | decompressing a freshly compressed block restores payload and flag |
| Block.ValidateSampleCount | glos-core/src/format.rs:362-383 | Ok iff compressed or len = count × sample size; the error carries expected and found |
| Block.GetUncompressedData | glos-core/src/format.rs:470-477 | the payload, with the same success, value and error as decompressing the block |
| Lz4.DecompressSizePrepended | glos-core/src/format.rs:351 | a successful decompression has the length announced in the 4-byte little-endian prefix |
| Lz4.RoundTrip | glos-core/src/format.rs:339-352 | decompressing the compression of any payload under 4 GiB gives it back |
| Reader.Refill | glos-core/src/serialization.rs:181-197 | at end of input it stops with nothing and the state unchanged; an empty or missing read sets eof (None if nothing is held); a chunk is appended to the held bytes, which never shrink; a failed read is `Io`; counters unchanged |
| Reader.Accept | glos-core/src/serialization.rs:132-153 | the block is dropped exactly when decompression or the sample-count check fails, and then the whole frame is removed and exactly one corrupted block is counted; otherwise the decompressed block is returned, the frame is removed and the block is credited with its count and consumed length |
| Reader.Dispatch | glos-core/src/serialization.rs:130-178 | on `CrcMismatch` one byte is dropped and one corrupted counted; on `Corrupted` at eof one byte is dropped uncounted; on `Corrupted` before eof it refills, keeping every held byte and the counters; success goes to `Accept`; ok, samples and bytes counters move only when a block is returned |
| Reader.Step1 | glos-core/src/serialization.rs:129-198 | one pass of the loop makes progress in the termination order, and only a returned block moves the ok, samples and bytes counters |
| Reader.Advance | glos-core/src/serialization.rs:128-199 | counters never decrease; None leaves the reader at eof; a block adds 1 to ok, its count to samples and at least 20 to bytes |
| Reader.ReadAll | glos-core/src/serialization.rs:230-236 | iterating to None ends at eof with counters no smaller than at the start |
| Reader.ValidateTotals | glos-core/src/serialization.rs:202-217 | Ok iff the header total is 0 or equals the recovered samples; the error carries both numbers |
| Reader.ReadExact | glos-core/src/serialization.rs:113 | a successful exact read returns exactly the requested number of bytes; a failure is an I/O error |
| Reader.OpenStream | glos-core/src/serialization.rs:109-125 | an I/O error iff the 128-byte read fails; success gives a version-1 header and the initial reader state over the reads left after the header |
| Reader.CollectBlocks | glos-core/src/serialization.rs:241-251 | counters never decrease; a successful collection ends at eof; a checksum error never ends it |
| Reader.GlosReader.FromParts | glos-core/src/serialization.rs:117-124 | the reader starts with the header, empty leftover, eof false and zero stats |
| Reader.GlosReader.Open | glos-core/src/serialization.rs:109-125 | opening reads 128 bytes and decodes them; an error from either step is passed on, and success gives a fresh reader at the initial state |
| Reader.GlosReader.NextBlock | glos-core/src/serialization.rs:128-199 | the in-place loop returns what the function `Advance` does and leaves the state that `Advance` gives |
| Reader.GlosReader.Pass | glos-core/src/serialization.rs:129-198 | one in-place pass of the loop body agrees with the pass function |
| Reader.GlosReader.DispatchPass | glos-core/src/serialization.rs:131-178 | acting on the decoder's verdict in place agrees with the dispatch function |
| Reader.GlosReader.RefillPass | glos-core/src/serialization.rs:181-197 | the in-place refill agrees with the refill function |
| Reader.GlosReader.ReadAllBlocks | glos-core/src/serialization.rs:241-251 | `read_all_blocks` collects the blocks until None, skips checksum errors, stops on any other error, and matches the collection function |
| ReaderProps.Step1ErrorsAreIo | glos-core/src/serialization.rs:156-196 | a pass hands back an error only for a failed read |
| ReaderProps.AdvanceErrorsAreIo | glos-core/src/serialization.rs:128-199 | `next_block` reports `Some(Err)` only for a failed read; every decoding problem is absorbed |
| ReaderProps.AtEof | glos-core/src/serialization.rs:181-184 | once input has ended the reader stays ended, reads nothing and reports no error |
| ReaderProps.ShortTailAtEof | glos-core/src/serialization.rs:181-184 | at eof fewer than 20 held bytes are silently dropped: None and no state change |
| ReaderProps.ResyncRules | glos-core/src/serialization.rs:132-171 | CRC mismatch counts one and drops one byte; `Corrupted` at eof drops one byte uncounted; before eof it refills, keeping every held byte and the counters; a decoded block that fails its checks drops its whole length and counts one |
| ReaderProps.AdvanceSim | glos-core/src/serialization.rs:128-199 | `next_block` gives the same result from a reader fed by read-sized pieces as from one holding all the bytes already |
| ReaderProps.CollectSim | glos-core/src/serialization.rs:241-251 | `read_all_blocks` gives the same outcome and counters under either feeding |
| ReaderProps.ChunkingIndependence | glos-core/src/serialization.rs:128-199 | two clean streams with the same bytes give the same blocks in order, the same counters and the same `read_all_blocks` result, however the reads split them |
| ReaderProps.OnFrame | glos-core/src/serialization.rs:130-153 | a readable frame at the front is returned, decompressed, and credited with its whole length |
| ReaderProps.FramesAtEof | glos-core/src/serialization.rs:128-199 | a buffer of readable frames yields each block in order, then None, counting every block as ok and none as corrupted |
| ReaderProps.CleanStream | glos-core/src/serialization.rs:298-321 | a clean stream of readable blocks, split any way, comes back block for block with ok = count, corrupted = 0, samples = Σ counts |
| ReaderProps.EofSkipOne | glos-core/src/serialization.rs:156-171 | at eof an undecodable front loses one byte, counted only when it failed its checksum |
| ReaderProps.SkipGarbage | glos-core/src/serialization.rs:156-171 | at eof the reader steps byte by byte over bytes that frame no block, counting CRC failures, then reads on as if they had never been there |
| ReaderProps.SkipGarbageReadAll | glos-core/src/serialization.rs:156-171 | bytes skipped at eof that frame no block leave the returned blocks unchanged and only add their CRC failures to the corrupted count |
| ReaderProps.MiddleCrcDamaged | glos-core/tests/integration_tests.rs:217-235 | with the middle of three blocks given a wrong CRC byte, the outer two come back, at least one is counted corrupted, and the samples are those of the outer two |
| ReaderProps.ReadExactClean | glos-core/src/serialization.rs:113 | over a clean stream `read_exact` takes exactly the first n bytes, leaving the rest to come, or fails with `UnexpectedEof` when fewer exist |
| ReaderProps.OpenClean | glos-core/src/serialization.rs:109-125 | opening consumes exactly 128 bytes: short input is `UnexpectedEof`, a header error is passed on, and otherwise reading resumes right after the header |
| Writer.StoredForm | glos-core/src/serialization.rs:62-64 | a block is written compressed when the file says LZ4, and unchanged otherwise, with count and timestamp kept |
| Writer.FinalHeader | glos-core/src/serialization.rs:76-77 | the final header takes the accumulated total (mod 2^64) and the end time, with every other field unchanged |
| Writer.GlosWriter.constructor | glos-core/src/serialization.rs:41-55 | the serialized header is the whole stream, both counters are zero |
| Writer.GlosWriter.WriteBlock | glos-core/src/serialization.rs:58-71 | both counters advance even when the frame is then refused as too large or the write fails; only a successful write appends the stored frame |
| Writer.GlosWriter.Finish | glos-core/src/serialization.rs:74-89 | after a good flush the header takes the total and end time; a good rewrite replaces exactly the first 128 bytes and leaves the frames; either failure is `Io` |
| Writer.StoredReadable | glos-core/src/serialization.rs:371-391 | the reader's decompression of a stored block is the block as written |
| Writer.WriteThenRead | glos-core/src/serialization.rs:416-435 | a file written from valid blocks, however split into reads, opens with the final header, reads back every block unchanged, counts nothing corrupted, and passes `validate_totals` |
| Replayer.Encode | glos-core/src/replayer.rs:55-82 | refuses payloads over 65,497 bytes first, then counts over 65,535; otherwise 10 + len bytes, never over 65,507 |
| Replayer.Decode | glos-core/src/replayer.rs:85-99 | fails iff shorter than 10 bytes; otherwise BE64 of [0,8), BE16 of [8,10) and the bytes after |
| Replayer.DecodeEncode | glos-core/src/replayer.rs:245-256 | whatever `encode` accepts decodes back to its timestamp, count and payload |
| Replayer.EncodeDecode | glos-core/src/replayer.rs:53-99 | a datagram of 10 up to 65,507 bytes is exactly the encoding of the block it decodes to |
| Replayer.HeaderBigEndian | glos-core/src/replayer.rs:259-271 | timestamp 0x0102030405060708 and count 0x0A0B go out as bytes 01..08 0A 0B |
| Replayer.Elapsed | glos-core/src/replayer.rs:208 | elapsed nanoseconds since the session start, cut to 64 bits, never below zero |
| Replayer.FileOffset | glos-core/src/replayer.rs:202 | timestamp minus origin, saturating at 0 |
| Replayer.Decide | glos-core/src/replayer.rs:210-232 | sleep iff the target exceeds elapsed time, for exactly the difference, with the post-sleep overshoot saturating at 0; otherwise no sleep, lag = elapsed − target, underrun iff lag > 1 ms |
| Replayer.ReplayMetrics.constructor | glos-core/src/replayer.rs:102-105 | all counters start at zero |
| Replayer.TimingController.constructor | glos-core/src/replayer.rs:163-173 | the session starts at the clock reading with no file origin bound |
| Replayer.TimingController.Reset | glos-core/src/replayer.rs:176-179 | restarts the session clock and forgets the origin |
| Replayer.TimingController.WaitFor | glos-core/src/replayer.rs:184-233 | the first call after new or reset binds the origin and later calls keep it; returns the decision's error; the error total moves by exactly it, underruns by one iff underrun; no other counter changes |
| Pipeline.RecorderMetrics.constructor | glos-recorder/src/metrics.rs:33-36 | all five counters start at zero |
| Pipeline.RecordingHeader | glos-recorder/src/pipeline.rs:105-108 | the file header is a new header with the configured gain, format and compression |
| Pipeline.ReceivedStep | glos-recorder/src/pipeline.rs:125-148 | a chunk is taken in, a timeout is retried, and duration, stop or disconnect end the loop |
| Pipeline.BlockTsExtend | glos-recorder/src/pipeline.rs:156-158 | a block already cut keeps its timestamp when more chunks arrive |
| Pipeline.AccumulateChunk | glos-recorder/src/pipeline.rs:156-160 | a chunk's bytes and samples join the accumulator, and it becomes the remembered timestamp only if none is held; the invariant payloads ++ acc = chunk stream continues to hold |
| Pipeline.CutOne | glos-recorder/src/pipeline.rs:163-168 | a full block takes exactly the first block_samples × sample-size accumulator bytes and the remembered timestamp (0 if none), which is then forgotten; the invariant continues to hold |
| Pipeline.Attempt | glos-recorder/src/pipeline.rs:171-183 | each attempted block increments exactly one of blocks_written or write_errors; bytes_written grows by block_samples × sample size + 20 only for a successful full block |
| Pipeline.CountersStep | glos-recorder/src/pipeline.rs:171-183 | one more write outcome moves the three write counters by 1/0, 0/1 and the full-block byte count |
| Pipeline.CutBlocks | glos-recorder/src/pipeline.rs:163-186 | the inner loop cuts blocks while a full block's worth is held, writes each, and leaves fewer than block_samples samples |
| Pipeline.TakeChunk | glos-recorder/src/pipeline.rs:151-186 | a chunk adds its count to samples_recorded, joins the accumulator and has the full blocks it completes cut; the loop invariant continues to hold |
| Pipeline.Gather | glos-recorder/src/pipeline.rs:125-193 | the main loop stops at the first duration, stop or disconnect event, skips timeouts, and ends holding the invariant for exactly the received chunks |
| Pipeline.FullCount | glos-recorder/src/pipeline.rs:163-186 | the number of full blocks n satisfies n × B ≤ total < (n+1) × B |
| Pipeline.Flushed | glos-recorder/src/pipeline.rs:196-198 | what the accumulator holds at exit is nothing or exactly one final short block with the remembered timestamp (0 if none); with it the blocks are the slicing of the chunks |
| Pipeline.FlushRest | glos-recorder/src/pipeline.rs:196-206 | the partial block is attempted iff samples remain; afterwards the attempts are exactly the slicing, with every counter accounted for |
| Pipeline.Record | glos-recorder/src/pipeline.rs:125-206 | the main loop plus the partial flush yields the slicing of the received chunks, the frames of the successful writes and exact counter movements |
| Pipeline.WriterLoop | glos-recorder/src/pipeline.rs:96-213 | from file open to `finish`: the blocks attempted are the slicing of the received chunks (payloads = incoming bytes, Σ counts = Σ chunk counts = growth of samples_recorded); every counter moves exactly as the outcomes say, wrapping at 2^64; the file holds the final header and the frames of the successful writes |
| Pipeline.SlicedBlock | glos-recorder/src/pipeline.rs:168 | every cut block is uncompressed and holds exactly its sample count's worth of bytes |
| Pipeline.StoredFits | glos-core/src/format.rs:389 | an uncompressed block whose write went through has a payload of at most 1 MiB less the 20-byte overhead |
| Pipeline.RecordingReadsBack | glos-recorder/src/pipeline.rs:261-285 | when every write went through (and, under LZ4, a full block's payload is below 4 GiB for the size prefix), the file reads back, however split, with the final header, as exactly the cut blocks, whose payloads are the incoming bytes in order; the reader counts one ok block per cut block, no corrupted block and the total sample count, and the file passes `validate_totals` |

## Left out

- CRC-32 is written out bit by bit, like `crc32fast`. No proof depends on its values, only on it being a function of the covered bytes. Two consequences:
  - A flipped payload byte is not shown to be detected (the block test that flips byte 20 of an 8-byte-payload block).
  - ReaderProps.MiddleCrcDamaged takes as a hypothesis that no offset inside the damaged frame frames a valid block, because a CRC collision cannot be ruled out without computing checksums.
- LZ4 (`lz4_flex`) is a stand-in with a body. It emits a valid literal-only LZ4 block behind a 4-byte length prefix, and decodes such blocks only. Its output is always longer than its input, while `lz4_flex` shrinks compressible data (format.rs:715-718), so compression-ratio claims are not modelled.
- Writer.GlosWriter.WriteBlock: under LZ4, whether the 1 MiB frame limit (format.rs:389) accepts or refuses a block follows the stand-in's output length, not that of `lz4_flex`. A compressible block whose raw payload is close to or above 1 MiB is refused here but would be stored by the program.
- Pipeline.Attempt: under LZ4, the accept/refuse outcome of each block, and so which of `blocks_written` and `write_errors` it moves, follows the stand-in's output length, not that of `lz4_flex` (see Writer.GlosWriter.WriteBlock).
- Pipeline.WriterLoop: under LZ4, the file and counters follow the stand-in's accept/refuse decision for each block, not the one `lz4_flex` would lead to.
- RecordingReadsBack: its hypothesis that every write went through is, under LZ4, judged by the stand-in's output length, so it does not cover recordings whose blocks only `lz4_flex` compresses enough to fit; it also assumes, under LZ4, that a full block's payload is below 4 GiB, the range of the 32-bit size prefix.
- Block.Compress, Block.Decompress: the block is a value, and the functions return the new block instead of overwriting `self.data`/`self.is_compressed` in place.
- Floating point is not modelled.
  - The header gain is its 32-bit pattern.
  - The replay speed, its `max(0.01)` clamp, the f64 division and `elapsed_virtual_ns` become the function `pace` from file offset to real-time offset.
  - Throughput, averages and rate metrics are not modelled.
- Replayer.TimingController.WaitFor: the pause-polling loop and `thread::sleep` are left out. The clock readings before and after the sleep are parameters.
- Concurrency is left out: the capture thread, the crossbeam channel, `recv_timeout`, the stop and pause flags and the duration check. What the writer loop observes at the top of each round is a script of events, and the end of the script is the channel closing.
- Clocks are parameters: the header start time, the `finish` end time (`current_unix_secs`), and the replay session clock.
- I/O outcomes are booleans.
  - Each block write has one (`writeOk` by attempt number).
  - `finish` has two: the first flush, and the seek-and-rewrite.
  - Partial writes inside `BufWriter` are not modelled.
- Writer.GlosWriter.constructor: `File::create` and a failed initial header write are not modelled; the constructor always succeeds.
- Reader: the 2 MiB read buffer is not modelled. A read result is a whole chunk of any size.
- Reader.ReadExact: a `ReadFailure` stands for a read error other than `Interrupted`. `read_exact` retries interrupted reads, and the model treats them as absent from the script.
- Reader.ReadStats and the writer's `total_samples`/`block_count` are unbounded naturals. u64 overflow of these is not modelled; the total is reduced mod 2^64 where it enters the header. The recorder and replay metrics do wrap at 2^64.
- Pipeline.WriterLoop requires `block_samples > 0`, because the source's inner loop never ends with 0.
- Pipeline.WriterLoop requires every chunk to hold exactly count × sample-size bytes. The program does not check this. With chunks that are too short, the drain at pipeline.rs:165 can panic. With chunks that are too long nothing panics, but the extra bytes end up in the wrong blocks: each full block takes the first block_samples × sample-size accumulated bytes, and the final partial block takes everything left. That over-long case is not modelled. It also requires the chunk count plus `block_samples` to fit in 32 bits, so that `acc_samples += chunk.sample_count` cannot overflow.
- `log_progress` and `stats_interval` are logging; they are not modelled.
- The device capture thread's `dropped_samples` counter is not modelled; the loop leaves it unchanged.
- Error messages are not modelled. Each error is a datatype variant carrying the numbers its message shows.
- `GLOS_MIN_BLOCK_SIZE` is declared but never checked, so it is not modelled.
- The `Iterator` adapter and the getters `total_samples`, `block_count`, `header` and `stats` read a field; they are not modelled separately.
