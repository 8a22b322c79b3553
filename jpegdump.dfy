/**
  * The marker scanner of jpegdump (`main`): check the start-of-image marker,
  * then read 16-bit marker codes and dispatch on them until the end-of-image
  * marker, an unknown code or the end of the file.
  *
  * The console output becomes a sequence of records, each emitted at the point
  * where the program completes its line, and an outcome. Every read the scanner
  * makes is a whole number of bytes from an empty accumulator, so one position
  * describes the stream between reads (ReadByteAligned, ReadU16Aligned).
  */
module JpegDump {
  import opened Bits
  import opened Streams

  datatype Option<T> = None | Some(value: T)

  /** What the program prints for one marker; `offset` is the position of its code. */
  datatype Record =
    | StartOfImage
    | Application(code: nat, offset: nat, length: nat)
    | Frame(code: nat, offset: nat, width: nat, height: nat)
    | Table(code: nat, offset: nat)
    | EndOfImage(offset: nat)

  /**
    * How a run ends: EOI reached; a file shorter than the first marker (the
    * first read is outside the `try`, so its `EOFException` escapes); no SOI
    * marker; an unknown code; or the end of the file inside the loop.
    */
  datatype Outcome =
    | Success
    | FileTooShort
    | NoStartOfImage
    | Unrecognized(code: nat, offset: nat)
    | EndOfFile

  /** One pass of the loop: go on from byte `pos`, or stop. */
  datatype Step =
    | Next(record: Option<Record>, pos: nat)
    | Halt(record: Option<Record>, outcome: Outcome)

  const SOI := 0xFFD8
  const EOI := 0xFFD9
  const STUFFED := 0xFF00

  /** The APPn codes of line 45: 0xFFE0 to 0xFFEE (0xFFEF is not among them). */
  predicate IsApp(code: int)
  {
    0xFFE0 <= code <= 0xFFEE
  }

  /** The SOFn codes of line 51. */
  predicate IsSof(code: int)
  {
    code in {0xFFC0, 0xFFC1, 0xFFC2, 0xFFC3, 0xFFC5, 0xFFC6, 0xFFC7, 0xFFC9, 0xFFCA, 0xFFCB, 0xFFCD, 0xFFCE, 0xFFCF}
  }

  /** The codes of line 65 that are skipped over: DHT, JPG, DAC, SOS and DQT. */
  predicate IsTable(code: int)
  {
    code in {0xFFC4, 0xFFC8, 0xFFCC, 0xFFDA, 0xFFDB}
  }

  /**
    * Where the raw-scan skip from byte p lands: the first 0xFF byte from p on,
    * or None when the file ends first.
    */
  function FindFF(d: seq<byte>, p: nat): (r: Option<nat>)
    ensures r.Some? ==> p <= r.value < |d| && d[r.value] == 0xFF
    ensures r.Some? ==> forall j :: p <= j < r.value ==> d[j] != 0xFF
    ensures r.None? ==> forall j :: p <= j < |d| ==> d[j] != 0xFF
    decreases |d| - p
  {
    if p >= |d| then None
    else if d[p] == 0xFF then Some(p)
    else FindFF(d, p + 1)
  }

  /** A raw-scan skip from byte p after the record rec has been printed. */
  function Skip(d: seq<byte>, p: nat, rec: Option<Record>): Step
  {
    match FindFF(d, p)
    case None => Halt(rec, EndOfFile)
    case Some(i) => Next(rec, i)
  }

  /**
    * One pass of the loop (lines 43-93) whose marker code starts at byte p.
    * SOF reads the header length (p+2), the precision (p+4), then width (p+5)
    * and height (p+7), in that order.
    */
  function Pass(d: seq<byte>, p: nat): Step
  {
    if p + 2 > |d| then Halt(None, EndOfFile)
    else
      var code := U16(d, p);
      if IsApp(code) then
        if p + 4 > |d| then Halt(None, EndOfFile)
        else
          var length := U16(d, p + 2);
          Next(Some(Application(code, p, length)), p + 2 + length)
      else if IsSof(code) then
        if p + 9 > |d| then Halt(None, EndOfFile)
        else Skip(d, p + 9, Some(Frame(code, p, U16(d, p + 5), U16(d, p + 7))))
      else if IsTable(code) then Skip(d, p + 2, Some(Table(code, p)))
      else if code == STUFFED then Skip(d, p + 2, None)
      else if code == EOI then Halt(Some(EndOfImage(p)), Success)
      else Halt(None, Unrecognized(code, p))
  }

  function Emit(rec: Option<Record>): seq<Record>
  {
    if rec.Some? then [rec.value] else []
  }

  /** Every pass of the loop that goes on starts the next one at least 2 bytes further. */
  lemma {:induction false} PassProgress(d: seq<byte>, p: nat)
    ensures Pass(d, p).Next? ==> p + 2 <= |d| && Pass(d, p).pos >= p + 2
  {
  }

  /** The records and the outcome of the loop from a marker code at byte p on. */
  function ScanFrom(d: seq<byte>, p: nat): (seq<Record>, Outcome)
    decreases |d| - p
  {
    PassProgress(d, p);
    match Pass(d, p)
    case Halt(rec, outcome) => (Emit(rec), outcome)
    case Next(rec, q) =>
      var (rest, outcome) := ScanFrom(d, q);
      (Emit(rec) + rest, outcome)
  }

  /** What `main` (lines 33-97) prints and how it ends, for the file d. */
  function Markers(d: seq<byte>): (seq<Record>, Outcome)
  {
    if |d| < 2 then ([], FileTooShort)
    else if U16(d, 0) != SOI then ([], NoStartOfImage)
    else
      var (rest, outcome) := ScanFrom(d, 2);
      ([StartOfImage] + rest, outcome)
  }

  /** The stream is between bytes, at byte p, with nothing buffered. */
  ghost predicate AtByte(s: Stream, p: nat)
    reads s
  {
    s.Valid() && s.State() == Cursor(p, 0, 0)
  }

  /**
    * A raw-scan skip (lines 59-63, 69-73 and 77-81): read bytes until one is
    * 0xFF, then seek back one byte so the next code starts with it. False
    * stands for the `EOFException` of a file that ends first.
    */
  method SkipToMarker(s: Stream) returns (found: bool)
    requires AtByte(s, s.bytePosition)
    modifies s
    ensures found == FindFF(s.data, old(s.bytePosition)).Some?
    ensures found ==> AtByte(s, FindFF(s.data, old(s.bytePosition)).value)
  {
    ghost var p0 := s.bytePosition;
    var marker := false;
    while !marker
      invariant AtByte(s, s.bytePosition) && p0 <= s.bytePosition
      invariant !marker ==> FindFF(s.data, p0) == FindFF(s.data, s.bytePosition)
      invariant marker ==> 1 <= s.bytePosition && FindFF(s.data, p0) == Some(s.bytePosition - 1)
      decreases |s.data| - s.bytePosition, !marker
    {
      ReadByteAligned(s.data, s.bytePosition);
      var r := s.ReadUint(8);
      if r.Eof? {
        return false;
      }
      marker := r.value == 0xFF;
    }
    var pos := s.GetPosition();
    s.SeekTo(pos - 1);
    return true;
  }

  /** One pass of the loop body (lines 43-93) from a marker code at the current position. */
  method ScanMarker(s: Stream) returns (st: Step)
    requires AtByte(s, s.bytePosition)
    modifies s
    ensures st == Pass(s.data, old(s.bytePosition))
    ensures st.Next? ==> AtByte(s, st.pos)
  {
    var p := s.GetPosition();
    ReadU16Aligned(s.data, p);
    var current := s.ReadUint(16);
    if current.Eof? {
      return Halt(None, EndOfFile);
    }
    var code := current.value;
    if IsApp(code) {
      st := ScanApplication(s, code, p);
    } else if IsSof(code) {
      st := ScanFrame(s, code, p);
    } else if IsTable(code) {
      var found := SkipToMarker(s);
      st := SkipResult(s, found, Some(Table(code, p)));
    } else if code == STUFFED {
      var found := SkipToMarker(s);
      st := SkipResult(s, found, None);
    } else if code == EOI {
      st := Halt(Some(EndOfImage(p)), Success);
    } else {
      st := Halt(None, Unrecognized(code, p));
    }
  }

  /** The step after a raw-scan skip that found a marker, or ran out of file. */
  method SkipResult(s: Stream, found: bool, rec: Option<Record>) returns (st: Step)
    requires found ==> AtByte(s, s.bytePosition)
    ensures found ==> st == Next(rec, s.bytePosition)
    ensures !found ==> st == Halt(rec, EndOfFile)
  {
    if found {
      var q := s.GetPosition();
      st := Next(rec, q);
    } else {
      st := Halt(rec, EndOfFile);
    }
  }

  /**
    * An APPn segment (lines 45-50): read its length L and seek to
    * getPosition() + L - 2, that is past the L - 2 bytes after the length field.
    */
  method ScanApplication(s: Stream, code: nat, p: nat) returns (st: Step)
    requires AtByte(s, p + 2) && p + 2 <= |s.data| && code == U16(s.data, p) && IsApp(code)
    modifies s
    ensures st == Pass(s.data, p)
    ensures st.Next? ==> AtByte(s, st.pos)
  {
    ReadU16Aligned(s.data, p + 2);
    var length := s.ReadUint(16);
    if length.Eof? {
      return Halt(None, EndOfFile);
    }
    var pos := s.GetPosition();
    s.SeekTo(pos + length.value - 2);
    st := Next(Some(Application(code, p, length.value)), pos + length.value - 2);
  }

  /**
    * A frame header (lines 51-64): header length, precision, width and height,
    * then a raw-scan skip.
    */
  method ScanFrame(s: Stream, code: nat, p: nat) returns (st: Step)
    requires AtByte(s, p + 2) && p + 2 <= |s.data| && code == U16(s.data, p) && IsSof(code)
    modifies s
    ensures st == Pass(s.data, p)
    ensures st.Next? ==> AtByte(s, st.pos)
  {
    ReadU16Aligned(s.data, p + 2);
    var headerLength := s.ReadUint(16);
    if headerLength.Eof? {
      return Halt(None, EndOfFile);
    }
    ReadByteAligned(s.data, p + 4);
    var precision := s.ReadUint(8);
    if precision.Eof? {
      return Halt(None, EndOfFile);
    }
    ReadU16Aligned(s.data, p + 5);
    var width := s.ReadUint(16);
    if width.Eof? {
      return Halt(None, EndOfFile);
    }
    ReadU16Aligned(s.data, p + 7);
    var height := s.ReadUint(16);
    if height.Eof? {
      return Halt(None, EndOfFile);
    }
    var rec := Some(Frame(code, p, width.value, height.value));
    var found := SkipToMarker(s);
    st := SkipResult(s, found, rec);
  }

  /** `main` (lines 33-97) on the file d: the records it prints and how it ends. */
  method Dump(file: seq<byte>) returns (records: seq<Record>, outcome: Outcome)
    ensures (records, outcome) == Markers(file)
  {
    var s := new Stream(file);
    ReadU16Aligned(file, 0);
    var first := s.ReadUint(16);
    if first.Eof? {
      return [], FileTooShort;
    }
    if first.value != SOI {
      return [], NoStartOfImage;
    }
    records := [StartOfImage];
    outcome := Success;
    var done := false;
    while !done
      invariant s.data == file
      invariant !done ==> AtByte(s, s.bytePosition) && Markers(file) == (records + ScanFrom(file, s.bytePosition).0, ScanFrom(file, s.bytePosition).1)
      invariant done ==> (records, outcome) == Markers(file)
      decreases !done, |file| - s.bytePosition
    {
      ghost var p := s.bytePosition;
      PassProgress(file, p);
      var st := ScanMarker(s);
      match st
      case Halt(rec, o) =>
        records, outcome, done := records + Emit(rec), o, true;
      case Next(rec, q) =>
        ScanAppend(file, p, records);
        records := records + Emit(rec);
    }
  }

  /** Appending one pass's record to the records so far. */
  lemma {:induction false} ScanAppend(d: seq<byte>, p: nat, records: seq<Record>)
    requires Pass(d, p).Next?
    ensures records + ScanFrom(d, p).0 == (records + Emit(Pass(d, p).record)) + ScanFrom(d, Pass(d, p).pos).0
    ensures ScanFrom(d, p).1 == ScanFrom(d, Pass(d, p).pos).1
  {
  }

  /** The byte offset a record was found at (the start-of-image marker is at 0). */
  function Offset(r: Record): nat
  {
    match r
    case StartOfImage => 0
    case Application(_, offset, _) => offset
    case Frame(_, offset, _, _) => offset
    case Table(_, offset) => offset
    case EndOfImage(offset) => offset
  }

  /** The marker code behind a record. */
  function Code(r: Record): nat
  {
    match r
    case StartOfImage => SOI
    case Application(code, _, _) => code
    case Frame(code, _, _, _) => code
    case Table(code, _) => code
    case EndOfImage(_) => EOI
  }

  /** A record that is printed for a marker read from the file. */
  predicate Faithful(d: seq<byte>, r: Record)
  {
    Offset(r) + 2 <= |d| && U16(d, Offset(r)) == Code(r)
  }

  /**
    * The loop never ends in one of the outcomes of the checks before it, and
    * every run of it ends in EOI, an unknown code or the end of the file.
    */
  lemma {:induction false} ScanOutcomes(d: seq<byte>, p: nat)
    ensures ScanFrom(d, p).1.Success? || ScanFrom(d, p).1.Unrecognized? || ScanFrom(d, p).1.EndOfFile?
    decreases |d| - p
  {
    PassProgress(d, p);
    if Pass(d, p).Next? {
      ScanOutcomes(d, Pass(d, p).pos);
    }
  }

  /**
    * The two checks before the loop (lines 33-36): a file of fewer than two
    * bytes, and a file whose first two bytes are not the SOI marker, print
    * nothing more; a file that starts with SOI prints the SOI line first.
    */
  lemma {:induction false} StartOfImageCheck(d: seq<byte>)
    ensures Markers(d).1 == FileTooShort <==> |d| < 2
    ensures Markers(d).1 == NoStartOfImage <==> |d| >= 2 && U16(d, 0) != SOI
    ensures Markers(d).0 == [] <==> |d| < 2 || U16(d, 0) != SOI
    ensures |d| >= 2 && U16(d, 0) == SOI ==> Markers(d).0[0] == StartOfImage
  {
    if |d| >= 2 && U16(d, 0) == SOI {
      ScanOutcomes(d, 2);
    }
  }

  /**
    * A run of the loop succeeds exactly when its last record is the EOI
    * marker, and EOI can only be the last record.
    */
  lemma {:induction false} ScanSuccess(d: seq<byte>, p: nat)
    ensures var (rs, o) := ScanFrom(d, p);
      (o == Success <==> |rs| > 0 && rs[|rs| - 1].EndOfImage?) &&
      forall i :: 0 <= i < |rs| - 1 ==> !rs[i].EndOfImage?
    decreases |d| - p
  {
    PassProgress(d, p);
    if Pass(d, p).Next? {
      ScanSuccess(d, Pass(d, p).pos);
    }
  }

  /** The same for the whole program: success exactly when EOI is found, and nothing follows it. */
  lemma {:induction false} DumpSuccess(d: seq<byte>)
    ensures var (rs, o) := Markers(d);
      (o == Success <==> |rs| > 0 && rs[|rs| - 1].EndOfImage?) &&
      forall i :: 0 <= i < |rs| - 1 ==> !rs[i].EndOfImage?
  {
    if |d| >= 2 && U16(d, 0) == SOI {
      ScanSuccess(d, 2);
      var (rest, o) := ScanFrom(d, 2);
      assert Markers(d).0 == [StartOfImage] + rest;
    }
  }

  /**
    * Every record of rs names a marker code that is in the file at its offset,
    * at or past p, and the offsets increase by at least two.
    */
  predicate InFileOrder(d: seq<byte>, rs: seq<Record>, p: nat)
  {
    AllFaithful(d, rs, p) && Increasing(rs)
  }

  predicate AllFaithful(d: seq<byte>, rs: seq<Record>, p: nat)
  {
    forall i :: 0 <= i < |rs| ==> p <= Offset(rs[i]) && Faithful(d, rs[i])
  }

  predicate Increasing(rs: seq<Record>)
  {
    forall i, j :: 0 <= i < j < |rs| ==> Offset(rs[i]) + 2 <= Offset(rs[j])
  }

  /** The records of the loop from byte p on are in file order, past p. */
  lemma {:induction false} ScanOffsets(d: seq<byte>, p: nat)
    ensures InFileOrder(d, ScanFrom(d, p).0, p)
    decreases |d| - p
  {
    PassProgress(d, p);
    PassRecord(d, p);
    match Pass(d, p)
    case Halt(rec, o) =>
      assert ScanFrom(d, p).0 == Emit(rec);
      OrderPrepend(d, p, rec, [], p + 2);
      assert Emit(rec) + [] == Emit(rec);
    case Next(rec, q) =>
      ScanOffsets(d, q);
      var rest := ScanFrom(d, q).0;
      assert ScanFrom(d, p).0 == Emit(rec) + rest;
      OrderPrepend(d, p, rec, rest, q);
  }

  /** Putting a record found at p before records in file order from q >= p + 2. */
  lemma {:induction false} OrderPrepend(d: seq<byte>, p: nat, rec: Option<Record>, rest: seq<Record>, q: nat)
    requires q >= p + 2 && InFileOrder(d, rest, q)
    requires rec.Some? ==> Offset(rec.value) == p && Faithful(d, rec.value)
    ensures InFileOrder(d, Emit(rec) + rest, p)
  {
    if rec.Some? {
      var r := rec.value;
      assert Emit(rec) + rest == [r] + rest;
      FaithfulPrepend(d, p, r, rest, q);
      IncreasingPrepend(p, r, rest, q);
    } else {
      assert Emit(rec) + rest == rest;
      assert AllFaithful(d, rest, p);
    }
  }

  lemma {:induction false} FaithfulPrepend(d: seq<byte>, p: nat, r: Record, rest: seq<Record>, q: nat)
    requires q >= p && AllFaithful(d, rest, q) && Offset(r) == p && Faithful(d, r)
    ensures AllFaithful(d, [r] + rest, p)
  {
    var all := [r] + rest;
    forall i | 0 <= i < |all|
      ensures p <= Offset(all[i]) && Faithful(d, all[i])
    {
      if i > 0 {
        assert all[i] == rest[i - 1];
      }
    }
  }

  lemma {:induction false} IncreasingPrepend(p: nat, r: Record, rest: seq<Record>, q: nat)
    requires q >= p + 2 && Increasing(rest) && Offset(r) == p
    requires forall i :: 0 <= i < |rest| ==> q <= Offset(rest[i])
    ensures Increasing([r] + rest)
  {
    var all := [r] + rest;
    forall i, j | 0 <= i < j < |all|
      ensures Offset(all[i]) + 2 <= Offset(all[j])
    {
      assert all[j] == rest[j - 1];
      if i > 0 {
        assert all[i] == rest[i - 1];
      }
    }
  }

  /** The record a pass prints names the code it read, at the pass's own offset. */
  lemma {:induction false} PassRecord(d: seq<byte>, p: nat)
    ensures Pass(d, p).record.Some? ==> Offset(Pass(d, p).record.value) == p && Faithful(d, Pass(d, p).record.value)
  {
  }

  /**
    * The unknown code the loop stops at is in the file at the offset it
    * reports, and it is none of the codes the loop dispatches on.
    */
  lemma {:induction false} UnrecognizedIsUnknown(d: seq<byte>, p: nat)
    ensures var o := ScanFrom(d, p).1;
      o.Unrecognized? ==>
        p <= o.offset && o.offset + 2 <= |d| && U16(d, o.offset) == o.code &&
        !IsApp(o.code) && !IsSof(o.code) && !IsTable(o.code) && o.code != STUFFED && o.code != EOI
    decreases |d| - p
  {
    PassProgress(d, p);
    if Pass(d, p).Next? {
      UnrecognizedIsUnknown(d, Pass(d, p).pos);
    }
  }

  /** The records of the whole program are in file order, starting with SOI at offset 0. */
  lemma {:induction false} DumpOffsets(d: seq<byte>)
    ensures InFileOrder(d, Markers(d).0, 0)
  {
    if |d| >= 2 && U16(d, 0) == SOI {
      ScanOffsets(d, 2);
      var rest := ScanFrom(d, 2).0;
      assert Markers(d).0 == Emit(Some(StartOfImage)) + rest;
      OrderPrepend(d, 0, Some(StartOfImage), rest, 2);
    }
  }

  /**
    * An APPn segment of length L at p (lines 45-50) prints its code and
    * length, and the loop goes on from p + 2 + L, the byte after the segment
    * whose length field counts itself but not the marker.
    */
  lemma {:induction false} ApplicationNext(d: seq<byte>, p: nat, code: nat, length: nat, next: nat)
    requires p + 4 <= |d| && code == U16(d, p) && IsApp(code) && length == U16(d, p + 2)
    requires next == p + 2 + length
    ensures ScanFrom(d, p) == ([Application(code, p, length)] + ScanFrom(d, next).0, ScanFrom(d, next).1)
  {
    assert Pass(d, p) == Next(Some(Application(code, p, length)), next);
  }

  /**
    * A raw-scan skip from a table marker, a frame header or a stuffed 0xFF00
    * at p (lines 59-63, 69-73, 77-81) stops at the first 0xFF byte from
    * `from` on, so the next code read starts with 0xFF; when there is none,
    * the run ends at the end of the file.
    */
  lemma {:induction false} RawScanLandsOnFF(d: seq<byte>, p: nat, code: nat, from: nat)
    requires p + 2 <= |d| && code == U16(d, p)
    requires IsTable(code) || code == STUFFED || (IsSof(code) && p + 9 <= |d|)
    requires from == if IsSof(code) then p + 9 else p + 2
    ensures Pass(d, p).Next? ==>
      var q := Pass(d, p).pos;
      from <= q < |d| && d[q] == 0xFF && (forall j :: from <= j < q ==> d[j] != 0xFF) &&
      (q + 2 <= |d| ==> U16(d, q) / 256 == 0xFF)
    ensures Pass(d, p).Halt? ==>
      Pass(d, p).outcome == EndOfFile && forall j :: from <= j < |d| ==> d[j] != 0xFF
  {
    assert Pass(d, p) == Skip(d, from, Pass(d, p).record);
    if Pass(d, p).Next? {
      var q := Pass(d, p).pos;
      if q + 2 <= |d| {
        assert U16(d, q) == 0xFF * 256 + d[q + 1] as int;
      }
    }
  }

  /**
    * A frame header at p (lines 51-64) prints the width, then the height: the
    * 16-bit fields after the header length and the one-byte precision. The
    * record is printed even when the skip after it runs out of file.
    */
  lemma {:induction false} FrameFields(d: seq<byte>, p: nat, code: nat)
    requires p + 9 <= |d| && code == U16(d, p) && IsSof(code)
    ensures Pass(d, p).record == Some(Frame(code, p, d[p + 5] as int * 256 + d[p + 6] as int, d[p + 7] as int * 256 + d[p + 8] as int))
  {
  }

  /** An APPn code whose length field is cut short by the end of the file (line 47) ends the run. */
  lemma {:induction false} ApplicationTruncated(d: seq<byte>, p: nat, code: nat)
    requires p + 2 <= |d| < p + 4 && code == U16(d, p) && IsApp(code)
    ensures ScanFrom(d, p) == ([], EndOfFile)
  {
  }

  /** A table or scan marker at p (lines 65-67) prints its code and offset before the skip. */
  lemma {:induction false} TableRecord(d: seq<byte>, p: nat, code: nat)
    requires p + 2 <= |d| && code == U16(d, p) && IsTable(code)
    ensures Pass(d, p).record == Some(Table(code, p))
  {
  }

  /** A frame header cut short by the end of the file prints nothing and ends the run. */
  lemma {:induction false} FrameTruncated(d: seq<byte>, p: nat, code: nat)
    requires p + 2 <= |d| < p + 9 && code == U16(d, p) && IsSof(code)
    ensures ScanFrom(d, p) == ([], EndOfFile)
  {
  }

  /** A stuffed 0xFF00 at p (lines 75-82) prints nothing. */
  lemma {:induction false} StuffedNoRecord(d: seq<byte>, p: nat)
    requires p + 2 <= |d| && U16(d, p) == STUFFED
    ensures Pass(d, p).record.None?
    ensures Pass(d, p).Next? ==> ScanFrom(d, p) == ScanFrom(d, Pass(d, p).pos)
    ensures Pass(d, p).Halt? ==> ScanFrom(d, p) == ([], EndOfFile)
  {
    PassProgress(d, p);
    if Pass(d, p).Next? {
      var q := Pass(d, p).pos;
      assert ScanFrom(d, p).0 == [] + ScanFrom(d, q).0;
      assert [] + ScanFrom(d, q).0 == ScanFrom(d, q).0;
    }
  }

  /** EOI at p (lines 83-87) ends the run with success, having printed it. */
  lemma {:induction false} EndOfImageStops(d: seq<byte>, p: nat)
    requires p + 2 <= |d| && U16(d, p) == EOI
    ensures ScanFrom(d, p) == ([EndOfImage(p)], Success)
  {
  }

  /** Any other code at p (lines 88-92) ends the run, reporting the code and where it was. */
  lemma {:induction false} UnknownCodeStops(d: seq<byte>, p: nat, code: nat)
    requires p + 2 <= |d| && code == U16(d, p)
    requires !IsApp(code) && !IsSof(code) && !IsTable(code) && code != STUFFED && code != EOI
    ensures ScanFrom(d, p) == ([], Unrecognized(code, p))
  {
  }

  /** Fewer than two bytes left for a marker code: the run ends at the end of the file. */
  lemma {:induction false} CodeCutShort(d: seq<byte>, p: nat)
    requires p + 2 > |d|
    ensures ScanFrom(d, p) == ([], EndOfFile)
  {
  }

  /** SOI directly followed by EOI. */
  lemma {:induction false} ExampleEmptyImage()
    ensures Markers([0xFF, 0xD8, 0xFF, 0xD9]) == ([StartOfImage, EndOfImage(2)], Success)
  {
    var d: seq<byte> := [0xFF, 0xD8, 0xFF, 0xD9];
    assert U16(d, 0) == SOI && U16(d, 2) == EOI;
    EndOfImageStops(d, 2);
    assert Markers(d) == ([StartOfImage] + ScanFrom(d, 2).0, ScanFrom(d, 2).1);
    assert [StartOfImage] + [EndOfImage(2)] == [StartOfImage, EndOfImage(2)];
    assert Markers(d) == ([StartOfImage, EndOfImage(2)], Success);
  }

  /** An APP0 segment of length 4 whose two data bytes are skipped, then EOI at 8. */
  lemma {:induction false} ExampleApplicationSegment()
    ensures Markers([0xFF, 0xD8, 0xFF, 0xE0, 0x00, 0x04, 0xAA, 0xBB, 0xFF, 0xD9]) ==
      ([StartOfImage, Application(0xFFE0, 2, 4), EndOfImage(8)], Success)
  {
    var d: seq<byte> := [0xFF, 0xD8, 0xFF, 0xE0, 0x00, 0x04, 0xAA, 0xBB, 0xFF, 0xD9];
    assert U16(d, 0) == SOI && U16(d, 2) == 0xFFE0 && U16(d, 4) == 4 && U16(d, 8) == EOI;
    EndOfImageStops(d, 8);
    ApplicationNext(d, 2, 0xFFE0, 4, 8);
    assert Markers(d) == ([StartOfImage] + ScanFrom(d, 2).0, ScanFrom(d, 2).1);
    assert [StartOfImage] + ([Application(0xFFE0, 2, 4)] + [EndOfImage(8)]) == [StartOfImage, Application(0xFFE0, 2, 4), EndOfImage(8)];
  }

  /** An APP0 segment whose length runs past the end of the file: no EOI, the run ends at the end of the file. */
  lemma {:induction false} ExampleTruncatedSegment()
    ensures Markers([0xFF, 0xD8, 0xFF, 0xE0, 0x00, 0x10]) ==
      ([StartOfImage, Application(0xFFE0, 2, 16)], EndOfFile)
  {
    var d: seq<byte> := [0xFF, 0xD8, 0xFF, 0xE0, 0x00, 0x10];
    assert U16(d, 0) == SOI && U16(d, 2) == 0xFFE0 && U16(d, 4) == 16;
    CodeCutShort(d, 20);
    ApplicationNext(d, 2, 0xFFE0, 16, 20);
    assert Markers(d) == ([StartOfImage] + ScanFrom(d, 2).0, ScanFrom(d, 2).1);
    assert [StartOfImage] + ([Application(0xFFE0, 2, 16)] + []) == [StartOfImage, Application(0xFFE0, 2, 16)];
  }

  /** A stuffed 0xFF00 prints nothing; the scan resumes at the next 0xFF, here EOI at 4. */
  lemma {:induction false} ExampleStuffedByte()
    ensures Markers([0xFF, 0xD8, 0xFF, 0x00, 0xFF, 0xD9]) == ([StartOfImage, EndOfImage(4)], Success)
  {
    var d: seq<byte> := [0xFF, 0xD8, 0xFF, 0x00, 0xFF, 0xD9];
    assert U16(d, 0) == SOI && U16(d, 2) == STUFFED && U16(d, 4) == EOI;
    assert FindFF(d, 4) == Some(4);
    EndOfImageStops(d, 4);
    StuffedNoRecord(d, 2);
    assert Markers(d) == ([StartOfImage] + ScanFrom(d, 2).0, ScanFrom(d, 2).1);
    assert [StartOfImage] + [EndOfImage(4)] == [StartOfImage, EndOfImage(4)];
  }

  /** One byte is too short for the first marker; two bytes other than SOI are not a JPEG. */
  lemma {:induction false} ExampleRejected()
    ensures Markers([0xFF]) == ([], FileTooShort)
    ensures Markers([0xFF, 0xD9, 0xFF, 0xD8]) == ([], NoStartOfImage)
  {
    var d: seq<byte> := [0xFF, 0xD9, 0xFF, 0xD8];
    assert U16(d, 0) == EOI;
  }
}
