# jpegdump in Dafny

jpegdump prints the markers of a JPEG file. Its core has two parts, and the
model follows both:

- **`class Stream`** (Stream.kt) is a bit reader over a `RandomAccessFile`.
  It offers big-endian reads of up to 32 bits (`readUint`), kept in a 64-bit
  accumulator (`bitBuffer`/`bitBufferLen`) that is refilled one byte at a
  time. It also has a raw byte read (`readByte`), a sign-extending read
  (`readSignedInt`), absolute seeks (`seekTo`), the byte position
  (`getPosition`) and `alignToByte`.
- **`main`** (JPEGDump.kt) checks the start-of-image marker (SOI, `FFD8`).
  It then reads 16-bit marker codes and dispatches on each one:
  - an APPn segment is skipped by its length;
  - a frame header (SOFn) prints its width and height;
  - table and scan markers, and a stuffed `FF00`, are skipped by scanning
    for the next `FF` byte;
  - the run stops at end of image (EOI, `FFD9`), at an unknown code, or at the
    end of the file.

The files:

- `bits.dfy` (module `Bits`) holds the arithmetic the reader needs:
  - powers of two;
  - Kotlin's `Long.toInt()` wrap-around (`ToInt`);
  - shifts (`Shr`) and masks (`Low`);
  - the bit string of a file, most significant bit of each byte first
    (`BitsValue`, `IsBitsOf`, `FileBits`);
  - big-endian 16-bit values (`U16`).
- `stream.dfy` (module `Streams`) has two layers:
  - The reader's state is a value, `Cursor(pos, buffer, buffered)`. Its
    fields are `bytePosition`, the low `bitBufferLen` bits of `bitBuffer`,
    and `bitBufferLen`.
  - Each operation is specified by a function on that state (`ReadBits`,
    `ReadByteAt`, `ReadSigned`, `Align`), and its properties are proved as
    lemmas.
  - `class Stream` keeps the source's mutable fields. Its methods run the
    source's loops and updates and are proved to equal those functions.
  - `Coherent` states that the accumulator holds the file's bits right before
    `bytePosition`. From a coherent state, `readUint` continues the file's bit
    stream (`ReadBitsStream`).
- `jpegdump.dfy` (module `JpegDump`) has the same two layers:
  - `Pass` specifies one pass of the loop as a function of the file and the
    marker offset; `ScanFrom` runs the loop, and `Markers` is the whole
    program.
  - The methods `SkipToMarker`, `ScanMarker`, `ScanApplication`, `ScanFrame`
    and `Dump` do what `main` does through a `Stream`.
  - `Dump` is proved equal to `Markers`.
  - The console output is modelled as a sequence of `Record`s, each one a line
    the program prints, plus an `Outcome` that says how the run ended.

The file is an immutable byte sequence `seq<byte>`. A raw read at
`bytePosition` returns the byte there, or -1 at or past the end. An
`EOFException` becomes `Eof` / `EndOfFile`.

## Model

| member | source | states |
|---|---|---|
| Bits.ToInt | src/main/kotlin/uk/co/cksum/jpegdump/Stream.kt:66 | `Long.toInt()`: the result is an `Int`, in [-2^31, 2^31); ToIntCongruent, ToIntFits and ToIntWraps pin down which one |
| Bits.ToIntCongruent | src/main/kotlin/uk/co/cksum/jpegdump/Stream.kt:66 | `Long.toInt()` keeps the value modulo 2^32 |
| Bits.ToIntFits | src/main/kotlin/uk/co/cksum/jpegdump/Stream.kt:66 | `toInt()` leaves a value that fits an `Int` unchanged |
| Bits.ToIntWraps | src/main/kotlin/uk/co/cksum/jpegdump/Stream.kt:66 | a value in [2^31, 2^32) wraps round to v - 2^32 |
| Bits.FileBitsOf | src/main/kotlin/uk/co/cksum/jpegdump/Stream.kt:61 | every file has a bit string whose every byte, read MSB first, is that byte |
| Bits.BitsOfUnique | src/main/kotlin/uk/co/cksum/jpegdump/Stream.kt:61 | that bit string is unique |
| Bits.U16Bits | src/main/kotlin/uk/co/cksum/jpegdump/Stream.kt:54-71 | 16 bits read from byte p are the big-endian U16 at p, whose high byte is d[p] |
| Streams.FileRead | src/main/kotlin/uk/co/cksum/jpegdump/Stream.kt:56-59 | a raw read gives -1 exactly at or past the end of the file, else a byte |
| Streams.BytesNeeded | src/main/kotlin/uk/co/cksum/jpegdump/Stream.kt:55-63 | the refill loop stops after the fewest whole bytes that make up n bits |
| Streams.BytesNeededMinimal | src/main/kotlin/uk/co/cksum/jpegdump/Stream.kt:55-63 | no smaller count of bytes would give n bits |
| Streams.Refill | src/main/kotlin/uk/co/cksum/jpegdump/Stream.kt:56-62 | no ensures: its body is the model of one refill pass (`shl 8 or temp`, position + 1, length + 8); Fetch and FetchCoherent state what repeated refills do |
| Streams.Fetch | src/main/kotlin/uk/co/cksum/jpegdump/Stream.kt:55-63 | k refills advance the position by k bytes and the buffered count by 8k |
| Streams.ReadBits | src/main/kotlin/uk/co/cksum/jpegdump/Stream.kt:54-71 | no ensures: its body is the model of `readUint(n)` (refill the fewest bytes, else Eof after the whole rest of the file; then Extract); ReadBitsStream, ReadBitsRange, ReadBitsFetches, ReadBitsShape, ReadBitsWellFormed, SequentialEof and ReadBitsSequential prove its properties |
| Streams.Extract | src/main/kotlin/uk/co/cksum/jpegdump/Stream.kt:65-70 | the extraction always succeeds, keeps the position and leaves n fewer bits buffered; ExtractField gives its value on the file's bits |
| Streams.ReadBitsStream | src/main/kotlin/uk/co/cksum/jpegdump/Stream.kt:54-71 | from a coherent state, readUint(n) returns the next n bits of the file, big-endian, and moves the bit position n on; on end of file the position stays; coherence is kept |
| Streams.ReadBitsRange | src/main/kotlin/uk/co/cksum/jpegdump/Stream.kt:65-70 | with the mask, an n-bit read with n < 32 lies in [0, 2^n); a 32-bit read lies in the `Int` range |
| Streams.ReadBitsFetches | src/main/kotlin/uk/co/cksum/jpegdump/Stream.kt:54-71 | a read fails exactly when buffered plus remaining bits are fewer than n; on success it fetches the fewest bytes needed and keeps the surplus bits; on failure it has consumed the whole rest of the file |
| Streams.ReadBitsShape | src/main/kotlin/uk/co/cksum/jpegdump/Stream.kt:54-71 | the same in terms of the byte count k: Eof iff k exceeds the bytes left, else position +k, buffered +8k-n |
| Streams.ReadBitsWellFormed | src/main/kotlin/uk/co/cksum/jpegdump/Stream.kt:54-71 | readUint keeps the accumulator within 64 bits; from fewer than 8 buffered bits it leaves fewer than 8 |
| Streams.ReadBitsAligned | src/main/kotlin/uk/co/cksum/jpegdump/Stream.kt:54-71 | whole-byte reads from an empty accumulator leave it empty and advance exactly n/8 bytes |
| Streams.ReadByteAligned | src/main/kotlin/uk/co/cksum/jpegdump/Stream.kt:54-71 | an aligned readUint(8) is the byte at pos, or Eof at the end |
| Streams.ReadU16Aligned | src/main/kotlin/uk/co/cksum/jpegdump/Stream.kt:54-71 | an aligned readUint(16) is U16 at pos and moves 2 bytes on, or Eof when fewer than 2 bytes are left |
| Streams.SequentialEof | src/main/kotlin/uk/co/cksum/jpegdump/Stream.kt:54-71 | reading a then b bits runs out of file exactly when one read of a + b bits does |
| Streams.ReadBitsSequential | src/main/kotlin/uk/co/cksum/jpegdump/Stream.kt:54-71 | when a read of a + b bits succeeds from a coherent state, reading a then b bits returns its two halves and ends in the same state |
| Streams.ReadByteAt | src/main/kotlin/uk/co/cksum/jpegdump/Stream.kt:73-83 | readByte returns -1 or a byte |
| Streams.ReadByteWellFormed | src/main/kotlin/uk/co/cksum/jpegdump/Stream.kt:73-83 | readByte keeps the state well formed |
| Streams.ReadByteMatchesReadUint | src/main/kotlin/uk/co/cksum/jpegdump/Stream.kt:73-83 | with an empty accumulator or a whole byte in it, readByte agrees with readUint(8), with -1 for end of file |
| Streams.ReadByteSkipsPendingBits | src/main/kotlin/uk/co/cksum/jpegdump/Stream.kt:73-83 | with 4 bits pending on AB CD, readByte gives CD where readUint(8) gives BC |
| Streams.Align | src/main/kotlin/uk/co/cksum/jpegdump/Stream.kt:93-95 | no ensures: its body is the model of `alignToByte()`; AlignProperties and AlignCoherent prove its properties |
| Streams.AlignProperties | src/main/kotlin/uk/co/cksum/jpegdump/Stream.kt:93-95 | alignToByte keeps the position, leaves a multiple of 8 bits and drops fewer than 8 |
| Streams.AlignCoherent | src/main/kotlin/uk/co/cksum/jpegdump/Stream.kt:93-95 | on a coherent state, alignment keeps coherence and moves the bit position up to the next byte boundary |
| Streams.SignedFrom | src/main/kotlin/uk/co/cksum/jpegdump/Stream.kt:86 | no ensures: its body is the model of the two `Int` shifts, distance taken modulo 32; SignExtension and SignedByteExamples prove what they compute |
| Streams.ReadSigned | src/main/kotlin/uk/co/cksum/jpegdump/Stream.kt:85-87 | no ensures: its body is the model of `readSignedInt(n)` on the state; ReadSignedValue proves its value |
| Streams.SignExtension | src/main/kotlin/uk/co/cksum/jpegdump/Stream.kt:85-87 | the two Int shifts sign-extend the n-bit field readUint gives (two's complement), for n in 1..32 |
| Streams.SignedByteExamples | src/main/kotlin/uk/co/cksum/jpegdump/Stream.kt:85-87 | readSignedInt(8) reads FF as -1 and 7F as 127 |
| Streams.ReadSignedValue | src/main/kotlin/uk/co/cksum/jpegdump/Stream.kt:85-87 | readSignedInt(n) is the two's-complement reading of readUint(n) for n < 32 and readUint(32) itself; Eof passes through |
| Streams.TwosComplementRange | src/main/kotlin/uk/co/cksum/jpegdump/Stream.kt:85-87 | a signed n-bit value lies in [-2^(n-1), 2^(n-1)) |
| Streams.Stream.constructor | src/main/kotlin/uk/co/cksum/jpegdump/Stream.kt:26-35 | a new stream is at byte 0 with an empty accumulator |
| Streams.Stream.SeekTo | src/main/kotlin/uk/co/cksum/jpegdump/Stream.kt:37-52 | the state after seekTo(pos) is byte pos, accumulator empty |
| Streams.Stream.ReadUint | src/main/kotlin/uk/co/cksum/jpegdump/Stream.kt:54-71 | the refill loop and extraction return ReadBits of the old state and leave its new state |
| Streams.Stream.ReadByte | src/main/kotlin/uk/co/cksum/jpegdump/Stream.kt:73-83 | result and new state are ReadByteAt of the old state |
| Streams.Stream.ReadSignedInt | src/main/kotlin/uk/co/cksum/jpegdump/Stream.kt:85-87 | result and new state are ReadSigned of the old state |
| Streams.Stream.GetPosition | src/main/kotlin/uk/co/cksum/jpegdump/Stream.kt:89-91 | returns the byte position and changes nothing |
| Streams.Stream.AlignToByte | src/main/kotlin/uk/co/cksum/jpegdump/Stream.kt:93-95 | the new state is Align of the old one |
| JpegDump.IsApp | src/main/kotlin/uk/co/cksum/jpegdump/JPEGDump.kt:45 | no ensures: its body is the list of APPn codes, FFE0 to FFEE; UnrecognizedIsUnknown uses it |
| JpegDump.IsSof | src/main/kotlin/uk/co/cksum/jpegdump/JPEGDump.kt:51 | no ensures: its body is the list of the 13 SOFn codes; FrameFields and RawScanLandsOnFF use it |
| JpegDump.IsTable | src/main/kotlin/uk/co/cksum/jpegdump/JPEGDump.kt:65 | no ensures: its body is the list of the 5 skipped table and scan codes; RawScanLandsOnFF uses it |
| JpegDump.FindFF | src/main/kotlin/uk/co/cksum/jpegdump/JPEGDump.kt:59-63 | the raw-scan target is the first FF byte from p on, or none when no byte from p on is FF |
| JpegDump.Skip | src/main/kotlin/uk/co/cksum/jpegdump/JPEGDump.kt:59-63 | no ensures: its body is the model of the raw-scan skip (also lines 69-73 and 77-81); RawScanLandsOnFF proves where it lands |
| JpegDump.Pass | src/main/kotlin/uk/co/cksum/jpegdump/JPEGDump.kt:43-93 | no ensures: its body is the model of one loop pass; PassProgress, ApplicationNext, RawScanLandsOnFF, FrameFields, FrameTruncated, ApplicationTruncated, TableRecord, StuffedNoRecord, EndOfImageStops, UnknownCodeStops and CodeCutShort prove its cases |
| JpegDump.ScanFrom | src/main/kotlin/uk/co/cksum/jpegdump/JPEGDump.kt:40-97 | no ensures: its body is the model of the loop; ScanOutcomes, ScanSuccess, ScanOffsets and UnrecognizedIsUnknown prove its properties |
| JpegDump.Markers | src/main/kotlin/uk/co/cksum/jpegdump/JPEGDump.kt:33-97 | no ensures: its body is the model of the whole of `main`; StartOfImageCheck, DumpSuccess, DumpOffsets and the Example lemmas prove its properties, and Dump equals it |
| JpegDump.PassProgress | src/main/kotlin/uk/co/cksum/jpegdump/JPEGDump.kt:42-94 | every pass that continues starts the next one at least 2 bytes further, from a code that lies inside the file |
| JpegDump.StartOfImageCheck | src/main/kotlin/uk/co/cksum/jpegdump/JPEGDump.kt:33-38 | FileTooShort iff fewer than 2 bytes; NoStartOfImage iff the first two bytes are not FFD8; no records exactly then; otherwise SOI is printed first |
| JpegDump.ScanOutcomes | src/main/kotlin/uk/co/cksum/jpegdump/JPEGDump.kt:40-97 | the loop ends only in Success, Unrecognized or EndOfFile |
| JpegDump.ScanSuccess | src/main/kotlin/uk/co/cksum/jpegdump/JPEGDump.kt:83-92 | the loop succeeds iff its last record is EOI, and EOI is never followed by another record |
| JpegDump.DumpSuccess | src/main/kotlin/uk/co/cksum/jpegdump/JPEGDump.kt:33-97 | the same for the whole program |
| JpegDump.ScanOffsets | src/main/kotlin/uk/co/cksum/jpegdump/JPEGDump.kt:43-93 | every record names the code that is in the file at its offset; offsets increase by at least 2 |
| JpegDump.DumpOffsets | src/main/kotlin/uk/co/cksum/jpegdump/JPEGDump.kt:33-97 | the same for the whole program, SOI at offset 0 |
| JpegDump.UnrecognizedIsUnknown | src/main/kotlin/uk/co/cksum/jpegdump/JPEGDump.kt:88-92 | an Unrecognized outcome reports a code that is in the file at its offset and is none of the dispatched codes |
| JpegDump.ApplicationNext | src/main/kotlin/uk/co/cksum/jpegdump/JPEGDump.kt:45-50 | an APPn segment of length L at p prints code and length, and the loop continues at p + 2 + L |
| JpegDump.RawScanLandsOnFF | src/main/kotlin/uk/co/cksum/jpegdump/JPEGDump.kt:58-82 | after a table, frame or FF00, the next code starts at the first FF byte, so its high byte is FF; with no FF left, the run ends at end of file |
| JpegDump.ApplicationTruncated | src/main/kotlin/uk/co/cksum/jpegdump/JPEGDump.kt:45-47 | an APPn code whose length field is cut off by the end of the file prints no record and ends the run at end of file |
| JpegDump.TableRecord | src/main/kotlin/uk/co/cksum/jpegdump/JPEGDump.kt:65-67 | a table or scan marker at p prints the line Table(code, p) before the skip |
| JpegDump.FrameFields | src/main/kotlin/uk/co/cksum/jpegdump/JPEGDump.kt:51-57 | a frame header prints width (bytes p+5, p+6) and then height (bytes p+7, p+8), big-endian, after header length and precision |
| JpegDump.FrameTruncated | src/main/kotlin/uk/co/cksum/jpegdump/JPEGDump.kt:51-57 | a frame header cut short by the end of the file prints no record and ends the run |
| JpegDump.StuffedNoRecord | src/main/kotlin/uk/co/cksum/jpegdump/JPEGDump.kt:75-82 | FF00 prints nothing; the records and outcome are those from the next FF on |
| JpegDump.EndOfImageStops | src/main/kotlin/uk/co/cksum/jpegdump/JPEGDump.kt:83-87 | EOI at p prints EOI and ends the run with success |
| JpegDump.UnknownCodeStops | src/main/kotlin/uk/co/cksum/jpegdump/JPEGDump.kt:88-92 | any other code stops the run, reporting the code and its offset |
| JpegDump.CodeCutShort | src/main/kotlin/uk/co/cksum/jpegdump/JPEGDump.kt:43 | fewer than 2 bytes left for a code ends the run at end of file |
| JpegDump.ExampleEmptyImage | src/main/kotlin/uk/co/cksum/jpegdump/JPEGDump.kt:33-97 | `FF D8 FF D9` prints SOI and EOI at 2, success |
| JpegDump.ExampleApplicationSegment | src/main/kotlin/uk/co/cksum/jpegdump/JPEGDump.kt:45-50 | `FF D8 FF E0 00 04 AA BB FF D9` prints SOI, APP0 with length 4, EOI at 8 |
| JpegDump.ExampleTruncatedSegment | src/main/kotlin/uk/co/cksum/jpegdump/JPEGDump.kt:95-97 | `FF D8 FF E0 00 10` prints SOI and APP0, then ends at end of file without EOI |
| JpegDump.ExampleStuffedByte | src/main/kotlin/uk/co/cksum/jpegdump/JPEGDump.kt:75-82 | `FF D8 FF 00 FF D9` prints SOI and EOI at 4 |
| JpegDump.ExampleRejected | src/main/kotlin/uk/co/cksum/jpegdump/JPEGDump.kt:33-36 | a 1-byte file is too short; `FF D9 FF D8` has no SOI |
| JpegDump.SkipToMarker | src/main/kotlin/uk/co/cksum/jpegdump/JPEGDump.kt:59-63 | the byte loop and the seek back find a marker iff FindFF does, and leave the stream on it |
| JpegDump.ScanApplication | src/main/kotlin/uk/co/cksum/jpegdump/JPEGDump.kt:45-50 | the APPn branch is the Pass of its offset and leaves the stream at the next pass |
| JpegDump.ScanFrame | src/main/kotlin/uk/co/cksum/jpegdump/JPEGDump.kt:51-64 | the SOFn branch is the Pass of its offset and leaves the stream at the next pass |
| JpegDump.ScanMarker | src/main/kotlin/uk/co/cksum/jpegdump/JPEGDump.kt:43-93 | one loop body is the Pass of the current offset and leaves the stream at the next pass |
| JpegDump.Dump | src/main/kotlin/uk/co/cksum/jpegdump/JPEGDump.kt:30-97 | running main over a Stream gives exactly Markers(file) |

## Left out

- The command line (lines 25-28 and 30 of JPEGDump.kt: no argument, opening the
  file) and any I/O error other than end of file are left out. The file is
  passed in as bytes.
- The console output is a sequence of records with offsets added, not text in
  hexadecimal and decimal.
  - A line is recorded only once the program has finished printing it. The
    text `main` prints before an end of file cuts a line short (its
    `Current: ..` prefix) is not modelled.
- `error(...)` in the `catch`, which throws, is modelled as the outcome
  `EndOfFile`. The `EOFException` of the first `readUint(16)`, which is
  outside the `try`, is modelled as `FileTooShort`. An unknown code ends
  `main` normally and is modelled as `Unrecognized`.
- The three raw-scan loops of JPEGDump.kt are written out three times in
  the source (lines 59-63, 69-73, 77-81). The model has them once, as
  `SkipToMarker`.
- Streams.Stream.ReadUint: `n` from 0 to 32 only. For `n` > 32 the mask is
  skipped and `toInt()` keeps only the last 32 bits of the field; from `n` >= 58
  the 64-bit accumulator loses bits. `main` never does this.
- Streams.Cursor: `bitBuffer` is a `Long` that the source never clears. The
  model keeps only its low `bitBufferLen` bits, because no read looks at the
  others. So `SeekTo` sets it to 0, and `ReadUint` and `AlignToByte` mask it.
  The source's higher garbage bits are not represented.
- The `BufferedInputStream` that `seekTo` creates is the file read from
  `bytePosition`. Buffering and the `RandomAccessFile` position are not
  modelled separately.
- Where the code and its documentation differ, the model follows the code:
  - `readByte` with 1 to 7 bits pending reads the next raw byte, not the
    next 8 bits (ReadByteSkipsPendingBits).
  - `FFEF`, RSTn, `FFDC`-`FFDE`, COM and other codes are not in any branch,
    so they end the run as unrecognized.
  - SOS (`FFDA`) is skipped like the tables.
  - The precision byte of a frame header is read and not printed.
  - A frame header's first 16-bit field (bytes p+5, p+6) is the number of
    lines, that is the height, in section B.2.2 of ITU-T T.81, and the next is
    the width. The program prints them as "Width" and "Height", and `Frame`
    keeps the program's labels, which may be swapped.
