# NovAtel binary log receiver, modelled in Dafny

This project models the receiver side of the NovAtel C# sample program
(`CSharpSampleCode/Program.cs`). It covers four parts of that program:

- **Checksum engine** (`crc32.dfy`). `CRC32Value` and `CalculateBlockCRC32` compute the
  reflected CRC-32 over polynomial 0xEDB88320. The accumulator starts at 0 and no final
  complement is applied. Both are methods with loops, and each is proved equal to a
  recursive specification. The 64-bit `ulong` accumulator and the 32-bit `int` index are
  kept as `bv64` and `bv32`.
- **Frame scanner** (`frame_scanner.dfy`, `scanner_properties.dfy`). `getNovAtelMessage`
  does the following:
  - it hunts for the sync bytes AA 44 12;
  - it reads the header length and then the rest of the header;
  - it reads the body, whose length is the u16 at header bytes 8-9;
  - it reads the 4-byte CRC trailer and returns the frame when the checksum matches.

  The serial port is a class over a finite byte sequence with a read cursor. The loop, with
  its `readFirst` flag and its `header` array reallocated in place, is an imperative method.
  It is proved to produce what the recursive scan specification `ScanFrom` describes. The
  properties of `ScanFrom` are proved as lemmas:
  - every returned frame is a contiguous piece of the input that passed the checksum test;
  - noise without a contiguous AA 44 12 is skipped, stray sync bytes included;
  - a misplaced AA re-anchors the hunt;
  - a sent frame is found;
  - a rejected candidate's bytes are not scanned again;
  - header lengths below 10 are errors.
- **Field decoder** (`decoder.dfy`). `decodeBinaryMessage` dispatches on the u16 log type at
  bytes 4-5. Type 42 (BESTPOS) is decoded into a `PositionLog` record and type 37 (VERSION)
  into a list of component records. Every other type is `Ignored`. The version loop is a
  method proved equal to the specification `VersionLog`. Each log has an encoder of the same
  layout, and a round-trip lemma proves that the decoder reads every field back from the
  offset it was written at.
- **Flag test and label tables** (`labels.dfy`). `IsFlagActive` is the all-bits mask test.
  The four `Get*String` switches are total functions whose contracts say exactly which codes
  get the default label.

`bytes.dfy` holds the little-endian reads that .NET's `BitConverter` performs (`ToUInt16`,
`ToUInt32`, `ToInt32`), each with its inverse write.

## Model

| member | source | states |
|---|---|---|
| Bytes.I32 | CSharpSampleCode/Program.cs:304-307 | the four bytes read as two's complement: in the i32 range, negative exactly when the top byte has its high bit set, and congruent to the unsigned reading modulo 2^32 |
| Bytes.U16 | CSharpSampleCode/Program.cs:207 | the u16 read low byte first is below 2^16; with U16Bytes it is a bijection (the two round-trip lemmas below) |
| Bytes.U32 | CSharpSampleCode/Program.cs:218 | the u32 read low byte first is below 2^32; with U32Bytes it is a bijection (the two round-trip lemmas below) |
| Bytes.U16RoundTrip | CSharpSampleCode/Program.cs:207 | a u16 written low byte first reads back as itself |
| Bytes.U16BytesRoundTrip | CSharpSampleCode/Program.cs:295 | two bytes read as a u16 and written back are the same two bytes |
| Bytes.U32RoundTrip | CSharpSampleCode/Program.cs:218 | a u32 written low byte first reads back through ToUInt32 as itself |
| Bytes.U32BytesRoundTrip | CSharpSampleCode/Program.cs:218 | four bytes read as a u32 and written back are the same four bytes |
| Bytes.U32Injective | CSharpSampleCode/Program.cs:218-220 | two trailers that read as the same u32 are the same bytes |
| Bytes.I32RoundTrip | CSharpSampleCode/Program.cs:304 | an i32 written as two's complement reads back through ToInt32 as itself |
| Crc32.Crc32Value | CSharpSampleCode/Program.cs:251-265 | the loop's result is eight reflection rounds applied to the sign-extended index, and for indices below 256 it fits in 32 bits |
| Crc32.KnownTableEntries | CSharpSampleCode/Program.cs:251-265 | CRC32Value gives entries 0, 1, 0x80 and 0xFF of the published reflected CRC-32 table (0, 0x77073096, 0xEDB88320, 0x2D02EF8D) |
| Crc32.KnownSteps | CSharpSampleCode/Program.cs:280-282 | the three loop iterations over the bytes 31 32 33 ("123") give the accumulators 0x51DE003A, 0x0E8A5632 and 0x7709BAC0 |
| Crc32.ThreeByteBlock | CSharpSampleCode/Program.cs:278-283 | the checksum of any three-byte block is three loop iterations started from 0 |
| Crc32.KnownBlockCrc | CSharpSampleCode/Program.cs:272-285 | the checksum of the block "123" is 0x7709BAC0, the known answer of the reflected CRC-32 started at 0 without final complement |
| Crc32.TableIndex | CSharpSampleCode/Program.cs:281 | the index passed to CRC32Value is below 256 and depends only on the low byte of the accumulator xored with the input byte |
| Crc32.TableEntryBound | CSharpSampleCode/Program.cs:251-265 | every entry CalculateBlockCRC32 can ask for is below 2^32 |
| Crc32.CalculateBlockCrc32 | CSharpSampleCode/Program.cs:272-285 | the loop computes the fold of the per-byte step over the whole buffer, starting from 0 |
| Crc32.CrcFromPrefix | CSharpSampleCode/Program.cs:278-283 | one more loop iteration extends the fold by exactly one byte |
| Crc32.CrcStep | CSharpSampleCode/Program.cs:280-282 | one loop iteration keeps an accumulator below 2^32 below 2^32 |
| Crc32.CrcStepBound | CSharpSampleCode/Program.cs:280-282 | from an accumulator below 2^32 the `& 0x00FFFFFF` after `>> 8` removes nothing, and the next accumulator is below 2^32 |
| Crc32.CrcFromBound | CSharpSampleCode/Program.cs:278-283 | from a seed below 2^32 the accumulator stays below 2^32 over any data |
| Crc32.BlockCrcBound | CSharpSampleCode/Program.cs:272-285 | every block's CRC is below 2^32, and the empty block's CRC is 0 |
| Crc32.CrcAppend | CSharpSampleCode/Program.cs:272-285 | the CRC of a + b is the loop continued over b from the CRC of a |
| FrameScanner.ChecksumMatchesSenderTrailer | CSharpSampleCode/Program.cs:218-220 | the checksum comparison accepts exactly one trailer: the CRC's four low bytes, low first |
| FrameScanner.ReadBodyAndTrailer | CSharpSampleCode/Program.cs:207-223 | after the header: input that runs out is a timeout that drains the port; otherwise the candidate is accepted or rejected, and the port is left right after the trailer either way |
| FrameScanner.ReadCandidate | CSharpSampleCode/Program.cs:195-223 | after AA 44 12: a rejected candidate's length is its length byte, at least 10 and at least the header array's length; an accepted candidate ends after its message; a failure is never a frame and never moves the cursor back |
| FrameScanner.ReadRestOfHeader | CSharpSampleCode/Program.cs:205-207 | a rejected header's length is its length byte and at least 10; an accepted candidate ends after its message; a failure is never a frame and lies after the length byte |
| FrameScanner.AcceptedCandidateValid | CSharpSampleCode/Program.cs:186-221 | an accepted buffer starts with AA 44 12, its length is header length plus body length, and its trailer reads back as its CRC |
| FrameScanner.AcceptedCandidateIsInput | CSharpSampleCode/Program.cs:186-221 | an accepted buffer is exactly the input from its first sync byte to its trailer |
| FrameScanner.CompleteBody | CSharpSampleCode/Program.cs:213-223 | when the body and trailer are present, the checksum test alone decides between accepting and rejecting |
| FrameScanner.Advance | CSharpSampleCode/Program.cs:183-236 | with no candidate started, the hunt is at "AA seen" exactly after a byte AA (so AA always re-anchors), and at "AA 44 seen" exactly after 44 following AA |
| FrameScanner.ScanFrom | CSharpSampleCode/Program.cs:181-241 | the scan never moves the cursor backwards or past the end of the input |
| FrameScanner.InputPort.Read | CSharpSampleCode/Program.cs:184-216 | an exact read: it copies the next count bytes into the buffer and advances the cursor, or drains the port when fewer remain; no other buffer byte changes |
| FrameScanner.CopyTo | CSharpSampleCode/Program.cs:200-211 | Array.CopyTo copies the source into the destination at the index and leaves the rest of the destination unchanged |
| FrameScanner.ReadCandidateFrom | CSharpSampleCode/Program.cs:195-202 | the reads after the third sync byte produce ReadCandidate for the current header array, and a rejected candidate leaves a fresh header array of its own length |
| FrameScanner.GrowHeader | CSharpSampleCode/Program.cs:197-207 | growing the header through tmpBuffer and reading the rest of the header produce ReadRestOfHeader, with the new array as long as the length byte |
| FrameScanner.ReadBodyAndCheck | CSharpSampleCode/Program.cs:207-223 | the body read, trailer read and comparison produce ReadBodyAndTrailer |
| FrameScanner.ReadBody | CSharpSampleCode/Program.cs:207-213 | the message buffer is the assembled header and body when the body is present; otherwise the port is drained |
| FrameScanner.ReadTrailer | CSharpSampleCode/Program.cs:215-220 | reads four bytes and reports whether they are the buffer's checksum |
| FrameScanner.TrailerMatches | CSharpSampleCode/Program.cs:218-220 | the comparison `crc32 == CalculateBlockCRC32(message)` is ChecksumMatches on the buffer and the trailer |
| FrameScanner.GetNovAtelMessage | CSharpSampleCode/Program.cs:173-243 | the outcome and final cursor are those of ScanFrom from the starting cursor with a 4-byte header; with ReuseHeader that is the code as written, with FreshHeader the corrected one |
| FrameScanner.AfterFirstSync | CSharpSampleCode/Program.cs:186-236 | one loop pass after AA: either the call ends with the scan's result, or it has consumed input and the scan from the new state equals the scan from the old |
| FrameScanner.AfterSecondSync | CSharpSampleCode/Program.cs:189-229 | the same for the pass after AA 44 |
| FrameScanner.ScanAtThirdSync | CSharpSampleCode/Program.cs:192-224 | after AA 44 12 the scan ends with the accepted frame or the failure, or resumes hunting after a rejected candidate |
| FrameScanner.ScanAfterOtherThird | CSharpSampleCode/Program.cs:225-228 | after AA 44, a third byte AA keeps header[0] as the first sync byte, and any other byte restarts the hunt |
| ScannerProperties.AdvanceHolds | CSharpSampleCode/Program.cs:183-236 | each phase of the hunt truthfully records the sync bytes just read, and matches at most one more per byte |
| ScannerProperties.AdvanceReturnsInputFrame | CSharpSampleCode/Program.cs:183-236 | skipping one byte keeps the returned frame within the input, starting at or after the sync bytes already matched |
| ScannerProperties.AcceptedReturnsInputFrame | CSharpSampleCode/Program.cs:192-221 | an accepted candidate is returned as a frame that is a piece of the input starting at its AA |
| ScannerProperties.CandidateReturnsInputFrame | CSharpSampleCode/Program.cs:192-223 | the step after AA 44 12 keeps every returned frame a piece of the input |
| ScannerProperties.ScanFrameIsInput | CSharpSampleCode/Program.cs:173-243 | any frame the scan returns is the input from its first sync byte up to its trailer, and it is valid: it starts AA 44 12, has length header length plus body length, and its trailer reads as its CRC |
| ScannerProperties.AssembledIsCandidate | CSharpSampleCode/Program.cs:195-213 | the buffer assembled from a laid-out candidate is that candidate |
| ScannerProperties.CandidateAt | CSharpSampleCode/Program.cs:195-223 | a well-formed candidate whose header fits the array is read in full, then accepted or rejected by its trailer |
| ScannerProperties.ScanAtCandidate | CSharpSampleCode/Program.cs:183-223 | in whatever phase the hunt reaches a laid-out candidate, it returns the candidate when the trailer matches; otherwise it resumes after the trailer |
| ScannerProperties.SentFrameFound | CSharpSampleCode/Program.cs:183-221 | a frame followed by the trailer its sender computed is returned, whatever the phase of the hunt |
| ScannerProperties.SkipNoise | CSharpSampleCode/Program.cs:183-236 | bytes with no AA 44 12 among them, stray sync bytes included, never start a candidate: from a truthful phase the scan reaches the end of the noise with nothing returned |
| ScannerProperties.FrameAfterNoise | CSharpSampleCode/Program.cs:183-236 | noise with no AA 44 12 in it, then a sent frame: the frame is returned and the port is left after its trailer |
| ScannerProperties.ScanFindsSentFrame | CSharpSampleCode/Program.cs:173-243 | the same for getNovAtelMessage as written |
| ScannerProperties.ReanchorOnSync1 | CSharpSampleCode/Program.cs:225-233 | an AA or AA 44 in front of a sent frame does not hide it |
| ScannerProperties.StraySyncBytesSkipped | CSharpSampleCode/Program.cs:183-236 | a lone 12, an AA 12 and an AA 44 00 12 in front of a sent frame are skipped and the frame is returned |
| ScannerProperties.ShortLengthFailsCopy | CSharpSampleCode/Program.cs:195-200 | a header length below the header array's length fails the copy right after the length byte |
| ScannerProperties.ShortHeaderNeverFrame | CSharpSampleCode/Program.cs:205-207 | a header length from the array's length up to 9 is never a frame: the body-length read fails, or the call times out |
| ScannerProperties.RejectedCandidateNotRescanned | CSharpSampleCode/Program.cs:220-223 | after a checksum mismatch, any frame returned later starts after the rejected candidate's trailer |
| ScannerProperties.CorruptedTrailerRejected | CSharpSampleCode/Program.cs:218-220 | changing a trailer byte makes the checksum test fail |
| ScannerProperties.KeptHeaderLosesFrame | CSharpSampleCode/Program.cs:177-223 | as written, a rejected candidate whose header is longer than the next frame's makes the header copy of that frame fail |
| ScannerProperties.FreshHeaderFindsFrame | CSharpSampleCode/Program.cs:177-223 | with a fresh header array per candidate, the valid frame after a rejected one is returned |
| ScannerProperties.KeptHeaderExample | CSharpSampleCode/Program.cs:177-223 | the concrete input of the finding below: it fails as written and yields the frame when corrected |
| Labels.IsFlagActive | CSharpSampleCode/Program.cs:444-448 | a flag is active exactly when setting its bits in the status byte changes nothing, i.e. all of them are already set |
| Labels.FlagUnion | CSharpSampleCode/Program.cs:444-448 | a flag made of two flags' bits is active exactly when both of them are |
| Labels.FlagTrivial | CSharpSampleCode/Program.cs:444-448 | the empty flag is always active, and a byte carries its own bits as a flag |
| Labels.CompositeIonoFlags | CSharpSampleCode/Program.cs:914-925 | MultiFreq (0x06) is active exactly when Klobuchar and SBAS are; NovatelIono (0x0A) exactly when Klobuchar and PSRDIFF are |
| Labels.MultiFreqExamples | CSharpSampleCode/Program.cs:358-367 | status byte 0x06 reports multi-frequency; 0x02 reports Klobuchar but not multi-frequency |
| Labels.GetSolnStatusString | CSharpSampleCode/Program.cs:482-536 | the default label is returned exactly for codes other than SOLN_STATUS_NOT_SET and those strictly between MIN and MAX |
| Labels.SolnStatusExamples | CSharpSampleCode/Program.cs:451-536 | MIN (-1) and MAX (23) get the default label; -2 and 0 get their own labels |
| Labels.GetPosTypeString | CSharpSampleCode/Program.cs:585-637 | "UNKNOWN" is returned exactly for ints that are not POSTYPE values other than MAX_POSTYPE |
| Labels.PosTypeExamples | CSharpSampleCode/Program.cs:539-637 | -1 is NOTSET, 16 is SINGLE, and the gap 4..7 and 81 are UNKNOWN |
| Labels.GetDatumString | CSharpSampleCode/Program.cs:731-911 | "UNKNOWN DATUM" is returned exactly for codes outside {-1} and 1..86 |
| Labels.DatumExamples | CSharpSampleCode/Program.cs:640-911 | -1 is UNKNOWN_DATUM, 1 is ADIND, 61 is WGS84, 86 is TOYM, and 0 and 87 get the default |
| Labels.GetCompTypeString | CSharpSampleCode/Program.cs:960-979 | "Unknown component" is returned exactly for ints that are not a described COMPONENT_TYPE (UNKNOWN included) |
| Labels.CompTypeExamples | CSharpSampleCode/Program.cs:943-979 | 0 is unknown, 1 is the OEM family component, 0x3A7A0005 is auto-starting user firmware |
| Decoder.AsciiChar | CSharpSampleCode/Program.cs:335 | every decoded character is ASCII, and it is the byte's own code exactly when the byte is below 0x80 |
| Decoder.AsciiChars | CSharpSampleCode/Program.cs:335 | one character per byte, each being Encoding.ASCII's decoding of that byte |
| Decoder.NulIndex | CSharpSampleCode/Program.cs:336-337 | IndexOf('\0') is a NUL position with no NUL before it |
| Decoder.TrimAtNul | CSharpSampleCode/Program.cs:336-337 | the result is a prefix of the text with no NUL; when it is shorter, the text's next character is a NUL |
| Decoder.TrimAtNulIdempotent | CSharpSampleCode/Program.cs:336-337 | trimming a trimmed text changes nothing |
| Decoder.TextField | CSharpSampleCode/Program.cs:335-337 | a decoded field is no longer than its width and has no NUL |
| Decoder.TextFieldRoundTrip | CSharpSampleCode/Program.cs:335-337 | an ASCII text without NUL, padded with NULs to the field width, reads back as itself |
| Decoder.PositionFromBody | CSharpSampleCode/Program.cs:304-374 | the BESTPOS fields from the 72 bytes after h: i32 codes in range, raw 8- and 4-byte float fields, and a base-station id of at most 4 characters without NUL |
| Decoder.PositionHeadRoundTrip | CSharpSampleCode/Program.cs:304-331 | the fields at h..h+39 read back as written |
| Decoder.PositionTailRoundTrip | CSharpSampleCode/Program.cs:335-374 | the fields at h+52..h+71 read back as written |
| Decoder.PositionSkipsByte68 | CSharpSampleCode/Program.cs:355-358 | the byte at h+68 is never read: changing it leaves the decoded log unchanged |
| Decoder.PositionRoundTrip | CSharpSampleCode/Program.cs:304-374 | every BESTPOS field is read from the offset it was written at |
| Decoder.Report | CSharpSampleCode/Program.cs:304-379 | GLIDE is reported only for position type SINGLE; multi-frequency implies Klobuchar and SBAS; NovAtel iono implies Klobuchar and PSRDIFF |
| Decoder.ComponentFromRecord | CSharpSampleCode/Program.cs:392-431 | a component's type is an i32, with five 16-byte and two 12-byte text fields, from one 108-byte record |
| Decoder.Describe | CSharpSampleCode/Program.cs:398-431 | the printed component keeps the type code, and each of its seven texts is no longer than its field and has no NUL |
| Decoder.ComponentLayout | CSharpSampleCode/Program.cs:392-431 | each component field is read from the bytes the encoder wrote it to |
| Decoder.ComponentRoundTrip | CSharpSampleCode/Program.cs:392-431 | a component record laid out from a description prints as that description |
| Decoder.EncodeComponentsLayout | CSharpSampleCode/Program.cs:392 | record i of consecutive records occupies bytes i*108 up to (i+1)*108 |
| Decoder.RecordsThatFit | CSharpSampleCode/Program.cs:390-394 | exactly that many 108-byte records lie between h+4 and the end of the message |
| Decoder.FitsBelow | CSharpSampleCode/Program.cs:390-394 | record i lies inside the message exactly when i is below RecordsThatFit |
| Decoder.VersionLog | CSharpSampleCode/Program.cs:387-433 | the log is cut short exactly when the count exceeds the components read; no more than the count is read; a count of zero or less reads nothing |
| Decoder.ComponentsRead | CSharpSampleCode/Program.cs:390-392 | the loop never reads more records than fit in the message |
| Decoder.Components | CSharpSampleCode/Program.cs:390-432 | the first n components are n in number |
| Decoder.ComponentsStep | CSharpSampleCode/Program.cs:390-394 | one more loop turn appends the component read from bytes offset+4 to offset+112 |
| Decoder.ComponentsIndex | CSharpSampleCode/Program.cs:392 | component i is read from the record at h+4+i*108 |
| Decoder.Decode | CSharpSampleCode/Program.cs:292-436 | a BESTPOS result exactly for type 42 with 72 bytes after h; a VERSION result exactly for type 37 with a count after h; Ignored exactly for the other types; messages shorter than 6 bytes are Truncated |
| Decoder.DecodeVersion | CSharpSampleCode/Program.cs:383-433 | the version loop computes VersionLog |
| Decoder.VersionLogAfterLoop | CSharpSampleCode/Program.cs:390-392 | where the loop stops (count reached, or a record that does not fit) determines VersionLog |
| Decoder.DecodeBinaryMessage | CSharpSampleCode/Program.cs:292-436 | decodeBinaryMessage computes Decode of the message |
| Decoder.OtherTypesIgnored | CSharpSampleCode/Program.cs:298-300 | a type other than 42 and 37 is passed over exactly, whatever follows the header |
| Decoder.PositionMessageRoundTrip | CSharpSampleCode/Program.cs:294-381 | a BESTPOS message laid out after a header of length h decodes to the fields it carries, whatever follows them |
| Decoder.RecordAt | CSharpSampleCode/Program.cs:392 | record i of the records laid out at h+4 is the bytes the loop reads for component i |
| Decoder.ComponentReadsBack | CSharpSampleCode/Program.cs:392-431 | component i, laid out from a description, prints as that description |
| Decoder.VersionLogReadsBack | CSharpSampleCode/Program.cs:387-433 | a count and records laid out at h read back complete, as the components described |
| Decoder.VersionMessageRoundTrip | CSharpSampleCode/Program.cs:383-433 | a VERSION message laid out after a header decodes to its count and, complete, to the components described, whatever follows them |
| Decoder.ShortVersionTruncated | CSharpSampleCode/Program.cs:390-394 | when the count exceeds the records present, the log is cut short after reading every record that fits |

## Left out

- Command-line parsing, opening and listing COM ports, `sendBreakSignal` and the request
  writes with their sleeps are serial-port and operating-system I/O. `Main` and its
  exception handling are left out too.
- The `DateTime.Now.Ticks` deadline and the `#if DEBUG` endless loop are wall-clock
  behaviour. The input is a finite sequence, and running out of it is the timeout outcome.
- FrameScanner.InputPort.Read: a read is exact. The return count of `SerialPort.Read` is
  ignored by the source, so a read that cannot be satisfied ends the call with `Timeout` and
  drains the port.
- `Console.WriteLine` output is not modelled. The decoder returns the fields (`Decoded`,
  `PositionReport`, `ComponentText`) instead of printing them.
- The double and float fields (latitude, longitude, height, undulation, standard deviations,
  ages) and their `ToString("F…")` formatting stay as raw 8- and 4-byte slices. They are not
  interpreted as IEEE values.
- Decoder.Decode: where the C# code reads past the end of the array it throws, possibly
  after printing some fields. The model returns `Truncated` for a BESTPOS log shorter than
  72 bytes after h, and for messages shorter than 6 bytes or without a count. It returns a
  `Version` result marked `truncated` when a component record does not fit. The exact point
  of the exception and what was printed before it are not captured.
- Bytes.U16, Bytes.U32, Bytes.I32: `BitConverter` reads in the host's byte order. The model
  reads little-endian, which assumes a little-endian host, the byte order of the receiver's logs.
- Decoder.AsciiChar: .NET's `Encoding.ASCII` decoding is taken as "bytes below 0x80 are their
  character, others are '?'". Nothing else of the library is modelled.
- Crc32.Crc32Value: its bound is proved only for the indices 0..255 that CalculateBlockCRC32
  passes. For negative indices the sign extension is modelled but not bounded.
- FrameScanner.ChecksumMatches: the `ulong` comparison is done on the integer values of the
  trailer and the CRC. Both are below 2^32, so this is the same comparison.
- Crc32.CalculateBlockCrc32: it is proved equal to a byte-at-a-time recursive fold of the same
  step, and checked against known table entries and the known answer for the block "123".
  There is no bit-at-a-time CRC reference proved equal to it, because the GF(2) linearity
  lemmas were beyond the verifier.

## Findings

| source | as written | input that shows it | evidently intended | confidence | as-written member | corrected member |
|---|---|---|---|---|---|---|
| CSharpSampleCode/Program.cs:176-201 | after a candidate fails the checksum test, `header` keeps that candidate's length; the next candidate's `header.CopyTo(tmpBuffer, 0)` into a buffer of its own, shorter header length throws | AA 44 12 0B then seven 00 bytes and a wrong trailer (an 11-byte header that fails the check), followed by AA 44 12 0A then six 00 bytes and its correct trailer (a valid frame with a 10-byte header) | every candidate starts from a 4-byte header array, so the valid frame is returned | high, not executed | ScannerProperties.KeptHeaderLosesFrame | ScannerProperties.FreshHeaderFindsFrame |
