/**
  * The bit cursor of jpegdump (class `Stream`): big-endian reads of up to 32
  * bits from a file through a bit accumulator, a byte read, sign extension,
  * absolute seeks and alignment to a byte boundary.
  *
  * The file is an immutable byte sequence; the position of the underlying
  * `RandomAccessFile`/`BufferedInputStream` pair is `bytePosition` itself, so a
  * raw byte read returns `data[bytePosition]`, or -1 at or past the end.
  */
module Streams {
  import opened Bits

  /** What `readUint` hands back: the field, or the `EOFException` of a file that ran out. */
  datatype ReadResult = Got(value: int) | Eof

  /**
    * The state of a `Stream`: `pos` is `bytePosition`, the number of bytes pulled
    * from the file so far; `buffer` is the low `buffered` bits of the 64-bit
    * `bitBuffer`, which are the only bits of it a read ever looks at; `buffered`
    * is `bitBufferLen`.
    */
  datatype Cursor = Cursor(pos: nat, buffer: nat, buffered: nat)
  {
    /** The bit of the file the next read consumes, when the accumulator holds file bits. */
    function BitPosition(): int
    {
      8 * pos - buffered
    }
  }

  /**
    * Holds in every state the class reaches: the buffered bits fit the `Long`,
    * and bits are buffered only after bytes were actually read from the file.
    */
  predicate WellFormed(d: seq<byte>, c: Cursor)
  {
    c.buffered <= 64 && c.buffer < Pow2(c.buffered) && (c.buffered > 0 ==> c.pos <= |d|)
  }

  /**
    * The accumulator holds exactly the `buffered` bits of the file that come
    * right before byte `pos`, bits being the file's bit string (IsBitsOf): the
    * next read continues the file's bit stream.
    */
  predicate Coherent(d: seq<byte>, bits: seq<bit>, c: Cursor)
  {
    && WellFormed(d, c)
    && c.buffered <= 8 * c.pos
    && c.buffer == BitsValue(bits, 8 * c.pos - c.buffered, c.buffered)
  }

  /** `InputStream.read()` at byte i of the file: the byte, or -1 at or past the end. */
  function FileRead(d: seq<byte>, i: nat): (b: int)
    ensures -1 <= b < 256
    ensures b == -1 <==> i >= |d|
  {
    if i < |d| then d[i] as int else -1
  }

  /** The fewest whole bytes k that get `buffered + 8k` up to n bits. */
  function BytesNeeded(buffered: nat, n: nat): (k: nat)
    ensures buffered + 8 * k >= n
    ensures k == 0 || buffered + 8 * (k - 1) < n
  {
    if buffered >= n then 0 else (n - buffered + 7) / 8
  }

  /** No smaller number of bytes than BytesNeeded would do. */
  lemma {:induction false} BytesNeededMinimal(buffered: nat, n: nat, j: nat)
    requires buffered + 8 * j >= n
    ensures BytesNeeded(buffered, n) <= j
  {
  }

  /** The characterisation of BytesNeeded determines it. */
  lemma {:induction false} BytesNeededUnique(buffered: nat, n: nat, k: nat)
    requires buffered + 8 * k >= n && (k == 0 || buffered + 8 * (k - 1) < n)
    ensures k == BytesNeeded(buffered, n)
  {
    BytesNeededMinimal(buffered, n, k);
  }

  /** The bytes left in the file from pos on. */
  function BytesLeft(d: seq<byte>, pos: nat): (k: nat)
    ensures pos + k == if pos < |d| then |d| else pos
  {
    if pos < |d| then |d| - pos else 0
  }

  /** One pass of the refill loop (lines 56-62): the next byte enters the accumulator from below. */
  function Refill(d: seq<byte>, c: Cursor): Cursor
    requires c.pos < |d|
  {
    Cursor(c.pos + 1, c.buffer * 256 + d[c.pos], c.buffered + 8)
  }

  /** The cursor after k passes of the refill loop. */
  function Fetch(d: seq<byte>, c: Cursor, k: nat): (f: Cursor)
    requires k <= BytesLeft(d, c.pos)
    ensures f.pos == c.pos + k && f.buffered == c.buffered + 8 * k
  {
    if k == 0 then c else Refill(d, Fetch(d, c, k - 1))
  }

  /**
    * `readUint(n)` (lines 54-71): refill byte by byte until n bits are
    * buffered, failing if the file ends first; then hand out the top n
    * buffered bits.
    */
  function ReadBits(d: seq<byte>, c: Cursor, n: nat): (ReadResult, Cursor)
    requires n <= 32
  {
    var k := BytesNeeded(c.buffered, n);
    if k <= BytesLeft(d, c.pos) then Extract(Fetch(d, c, k), n) else (Eof, Fetch(d, c, BytesLeft(d, c.pos)))
  }

  /**
    * The end of `readUint(n)` once n bits are buffered (lines 65-70): the
    * accumulator shifted right past the bits that stay, through `Long.toInt()`
    * and, when n < 32, the n-bit mask; the bits that stay remain buffered.
    */
  function Extract(f: Cursor, n: nat): (r: (ReadResult, Cursor))
    requires n <= 32 && n <= f.buffered
    ensures r.0.Got? && r.1.pos == f.pos && r.1.buffered == f.buffered - n
  {
    var rest := f.buffered - n;
    var v := ToInt(Shr(f.buffer, rest));
    (Got(if n < 32 then Low(v, n) else v), Cursor(f.pos, Low(f.buffer, rest), rest))
  }

  /** Extract with the number of bits that stay buffered named. */
  lemma {:induction false} ExtractShape(f: Cursor, n: nat, rest: nat)
    requires n <= 32 && rest + n == f.buffered
    ensures var v := ToInt(Shr(f.buffer, rest));
      Extract(f, n) == (Got(if n < 32 then Low(v, n) else v), Cursor(f.pos, Low(f.buffer, rest), rest))
  {
  }

  /**
    * The mask of lines 68-70: an n-bit read returns a value of n bits when
    * n < 32, and any `Int` when n = 32.
    */
  lemma {:induction false} ReadBitsRange(d: seq<byte>, c: Cursor, n: nat)
    requires n <= 32
    ensures ReadBits(d, c, n).0.Got? && n < 32 ==> 0 <= ReadBits(d, c, n).0.value < Pow2(n)
    ensures ReadBits(d, c, n).0.Got? && n == 32 ==> -INT_LIMIT <= ReadBits(d, c, n).0.value < INT_LIMIT
  {
    var k := BytesNeeded(c.buffered, n);
    if k <= BytesLeft(d, c.pos) {
      var f := Fetch(d, c, k);
      LowBound(ToInt(Shr(f.buffer, f.buffered - n)), n);
    }
  }

  /** The `Int` that `readUint(n)` returns for the n-bit unsigned field u. */
  function AsInt(u: int, n: nat): int
  {
    if n < 32 then u else ToInt(u)
  }

  /** Refilling keeps the buffered bits below 2 to the power of their count. */
  lemma {:induction false} FetchBound(d: seq<byte>, c: Cursor, k: nat)
    requires c.buffer < Pow2(c.buffered) && k <= BytesLeft(d, c.pos)
    ensures Fetch(d, c, k).buffer < Pow2(c.buffered + 8 * k)
  {
    if k > 0 {
      FetchBound(d, c, k - 1);
      var b := c.buffered + 8 * (k - 1);
      var x := Fetch(d, c, k - 1).buffer;
      Pow2Add(b, 8);
      assert Pow2(8) == 256 by { Pow2Values(); }
      MulByEq(Pow2(b), Pow2(8), 256);
      assert x * 256 + 256 <= Pow2(b) * 256;
    }
  }

  /**
    * When the accumulator holds the file's bits from bit p on, up to byte pos,
    * k refills extend them by the next k bytes: m bits from p on.
    */
  lemma {:induction false} FetchCoherent(d: seq<byte>, bits: seq<bit>, c: Cursor, k: nat, p: nat, m: nat)
    requires IsBitsOf(bits, d) && c.buffer == BitsValue(bits, p, c.buffered) && p + c.buffered == 8 * c.pos
    requires c.pos + k <= |d| && m == c.buffered + 8 * k
    ensures Fetch(d, c, k).buffer == BitsValue(bits, p, m)
  {
    if k > 0 {
      FetchCoherent(d, bits, c, k - 1, p, m - 8);
      AppendByte(bits, d, p, m - 8, c.pos + k - 1, m);
    }
  }

  /** readUint keeps the accumulator well formed; from fewer than 8 buffered bits it leaves fewer than 8. */
  lemma {:induction false} ReadBitsWellFormed(d: seq<byte>, c: Cursor, n: nat)
    requires n <= 32 && WellFormed(d, c)
    ensures WellFormed(d, ReadBits(d, c, n).1)
    ensures ReadBits(d, c, n).0.Got? && c.buffered < 8 ==> ReadBits(d, c, n).1.buffered < 8
  {
    var k := BytesNeeded(c.buffered, n);
    if k <= BytesLeft(d, c.pos) {
      var f := Fetch(d, c, k);
      LowBound(f.buffer, f.buffered - n);
    } else {
      FetchBound(d, c, BytesLeft(d, c.pos));
    }
  }

  /**
    * How many bytes readUint pulls from the file: it fails exactly when the
    * buffered bits and the rest of the file are together fewer than n bits;
    * on success it fetches the fewest bytes that make up n bits and keeps the
    * surplus buffered; on failure it has fetched, and counted, every byte left.
    */
  lemma {:induction false} ReadBitsFetches(d: seq<byte>, c: Cursor, n: nat)
    requires n <= 32 && WellFormed(d, c)
    ensures var (r, c') := ReadBits(d, c, n);
      && (r.Eof? <==> c.buffered + 8 * BytesLeft(d, c.pos) < n)
      && c.pos <= c'.pos
      && (r.Got? ==>
            var k := c'.pos - c.pos;
            && c.buffered + 8 * k >= n
            && (k == 0 || c.buffered + 8 * (k - 1) < n)
            && c'.buffered == c.buffered + 8 * k - n)
      && (r.Eof? ==>
            c'.pos == c.pos + BytesLeft(d, c.pos) && c'.buffered == c.buffered + 8 * BytesLeft(d, c.pos))
  {
    var k := BytesNeeded(c.buffered, n);
    if k > BytesLeft(d, c.pos) {
      assert k >= 1;
    }
  }

  /** Extracting n bits from an accumulator that holds the bits from bit p on. */
  lemma {:induction false} ExtractField(bits: seq<bit>, p: nat, f: Cursor, n: nat, rest: nat)
    requires n <= 32 && f.buffered == n + rest && f.buffer == BitsValue(bits, p, n + rest)
    ensures Extract(f, n) == (Got(AsInt(BitsValue(bits, p, n), n)), Cursor(f.pos, BitsValue(bits, p + n, rest), rest))
  {
    BitsSplit(bits, p, n, rest);
    var raw := BitsValue(bits, p, n);
    if n < 32 {
      BitsValueBound(bits, p, n);
      Pow2Monotone(n, 31);
      Pow2Values();
      ToIntFits(raw);
      LowSmall(raw, n);
    }
  }

  /**
    * A successful read from a coherent cursor whose next bit is p, in closed
    * form: the x = BitsValue(bits, p, n) of the n bits from p on, k bytes
    * fetched and `rest` bits left buffered, whose value y is that of the file
    * bits from q = p + n on, ending at byte e.
    */
  lemma {:induction false} ReadBitsGot(d: seq<byte>, bits: seq<bit>, c: Cursor, n: nat, p: nat, k: nat, rest: nat, q: nat, e: nat, x: nat, y: nat)
    requires n <= 32 && IsBitsOf(bits, d) && Coherent(d, bits, c) && p == c.BitPosition()
    requires k == BytesNeeded(c.buffered, n) && k <= BytesLeft(d, c.pos) && rest == c.buffered + 8 * k - n
    requires q == p + n && e == c.pos + k && x == BitsValue(bits, p, n) && y == BitsValue(bits, q, rest)
    ensures ReadBits(d, c, n) == (Got(AsInt(x, n)), Cursor(e, y, rest))
  {
    ReadBitsUnfold(d, c, n, k);
    if k == 0 {
      ExtractField(bits, p, c, n, rest);
    } else {
      FetchedField(d, bits, c, n, p, k, rest);
    }
  }

  /**
    * readUint on a coherent cursor is a big-endian read of the file's bit
    * stream: it returns the n bits from the next bit on, most significant
    * first, and moves the next bit n places on; when the file runs out the
    * next bit stays where it was. Either way the cursor stays coherent.
    */
  lemma {:induction false} ReadBitsStream(d: seq<byte>, bits: seq<bit>, c: Cursor, n: nat)
    requires n <= 32 && IsBitsOf(bits, d) && Coherent(d, bits, c)
    ensures var (r, c') := ReadBits(d, c, n);
      && Coherent(d, bits, c')
      && (r.Got? ==> r.value == AsInt(BitsValue(bits, c.BitPosition(), n), n) && c'.BitPosition() == c.BitPosition() + n)
      && (r.Eof? ==> c'.BitPosition() == c.BitPosition())
  {
    var p, k, left := c.BitPosition(), BytesNeeded(c.buffered, n), BytesLeft(d, c.pos);
    if k <= left {
      var rest := c.buffered + 8 * k - n;
      var q, e := p + n, c.pos + k;
      var x, y := BitsValue(bits, p, n), BitsValue(bits, q, rest);
      ReadBitsGot(d, bits, c, n, p, k, rest, q, e, x, y);
      CoherentAfter(d, bits, e, q, rest);
    } else {
      ReadBitsFailed(d, c, n);
      FetchRest(d, bits, c, n);
    }
  }

  /** A refill loop that reaches the end of the file after j bytes, still short of n bits. */
  lemma {:induction false} ReadBitsRanOut(d: seq<byte>, c: Cursor, n: nat, j: nat)
    requires n <= 32 && j <= BytesLeft(d, c.pos) && c.pos + j >= |d| && c.buffered + 8 * j < n
    ensures ReadBits(d, c, n) == (Eof, Fetch(d, c, j))
  {
  }

  /** One more pass of the refill loop. */
  lemma {:induction false} FetchNext(d: seq<byte>, c: Cursor, j: nat, j': nat)
    requires j' == j + 1 && j' <= BytesLeft(d, c.pos)
    ensures Fetch(d, c, j') == Refill(d, Fetch(d, c, j))
  {
  }

  /** A read that finds enough bits is the extraction from the refilled accumulator. */
  lemma {:induction false} ReadBitsUnfold(d: seq<byte>, c: Cursor, n: nat, k: nat)
    requires n <= 32 && k == BytesNeeded(c.buffered, n) && k <= BytesLeft(d, c.pos)
    ensures ReadBits(d, c, n) == Extract(Fetch(d, c, k), n)
  {
  }

  /** Extraction after k refills of an accumulator that holds the file's bits from bit p on. */
  lemma {:induction false} FetchedField(d: seq<byte>, bits: seq<bit>, c: Cursor, n: nat, p: nat, k: nat, rest: nat)
    requires n <= 32 && IsBitsOf(bits, d) && c.buffer == BitsValue(bits, p, c.buffered) && p + c.buffered == 8 * c.pos
    requires c.pos + k <= |d| && rest + n == c.buffered + 8 * k
    ensures Extract(Fetch(d, c, k), n) == (Got(AsInt(BitsValue(bits, p, n), n)), Cursor(c.pos + k, BitsValue(bits, p + n, rest), rest))
  {
    FetchCoherent(d, bits, c, k, p, n + rest);
    ExtractField(bits, p, Fetch(d, c, k), n, rest);
  }

  /** An accumulator that holds the `rest` file bits before byte pos, which start at bit q. */
  lemma {:induction false} CoherentAfter(d: seq<byte>, bits: seq<bit>, pos: nat, q: nat, rest: nat)
    requires 8 * pos == q + rest && rest <= 64 && (rest > 0 ==> pos <= |d|)
    ensures Coherent(d, bits, Cursor(pos, BitsValue(bits, q, rest), rest))
    ensures Cursor(pos, BitsValue(bits, q, rest), rest).BitPosition() == q
  {
    BitsValueBound(bits, q, rest);
  }

  /** A read that runs out of file has fetched every byte left, having had too few bits. */
  lemma {:induction false} ReadBitsFailed(d: seq<byte>, c: Cursor, n: nat)
    requires n <= 32 && BytesNeeded(c.buffered, n) > BytesLeft(d, c.pos)
    ensures ReadBits(d, c, n) == (Eof, Fetch(d, c, BytesLeft(d, c.pos)))
    ensures c.buffered + 8 * BytesLeft(d, c.pos) < n
  {
  }

  /** Fetching the rest of the file from a coherent cursor keeps it coherent at the same bit position. */
  lemma {:induction false} FetchRest(d: seq<byte>, bits: seq<bit>, c: Cursor, n: nat)
    requires IsBitsOf(bits, d) && Coherent(d, bits, c) && c.buffered + 8 * BytesLeft(d, c.pos) < n <= 32
    ensures Coherent(d, bits, Fetch(d, c, BytesLeft(d, c.pos)))
    ensures Fetch(d, c, BytesLeft(d, c.pos)).BitPosition() == c.BitPosition()
  {
    var p, left := c.BitPosition(), BytesLeft(d, c.pos);
    var m := c.buffered + 8 * left;
    if left > 0 {
      FetchCoherent(d, bits, c, left, p, m);
    }
    CoherentAfter(d, bits, c.pos + left, p, m);
  }

  /**
    * Whole-byte reads from an empty accumulator leave it empty: the byte
    * position then moves by exactly n / 8 and is the position of the next bit.
    */
  lemma {:induction false} ReadBitsAligned(d: seq<byte>, c: Cursor, n: nat)
    requires n <= 32 && n % 8 == 0 && WellFormed(d, c) && c.buffered == 0
    ensures var (r, c') := ReadBits(d, c, n);
      && (r.Got? <==> n / 8 <= BytesLeft(d, c.pos))
      && (r.Got? ==> c'.buffered == 0 && c'.pos == c.pos + n / 8 && 8 * c'.pos == c.BitPosition() + n)
  {
    assert BytesNeeded(0, n) == n / 8;
  }

  /** One aligned byte read: the byte at pos, or Eof at the end of the file. */
  lemma {:induction false} ReadByteAligned(d: seq<byte>, pos: nat)
    ensures ReadBits(d, Cursor(pos, 0, 0), 8) ==
      if pos < |d| then (Got(d[pos] as int), Cursor(pos + 1, 0, 0)) else (Eof, Cursor(pos, 0, 0))
  {
    assert BytesNeeded(0, 8) == 1;
    if pos < |d| {
      var x := d[pos] as int;
      assert Fetch(d, Cursor(pos, 0, 0), 1) == Cursor(pos + 1, x, 8);
      Pow2Values();
      ToIntFits(x);
      LowSmall(x, 8);
    }
  }

  /** One aligned 16-bit read: U16 at pos, or Eof when fewer than two bytes are left. */
  lemma {:induction false} ReadU16Aligned(d: seq<byte>, pos: nat)
    ensures var (r, c') := ReadBits(d, Cursor(pos, 0, 0), 16);
      if pos + 2 <= |d| then r == Got(U16(d, pos)) && c' == Cursor(pos + 2, 0, 0) else r == Eof
  {
    assert BytesNeeded(0, 16) == 2;
    if pos + 2 <= |d| {
      var x := U16(d, pos);
      assert Fetch(d, Cursor(pos, 0, 0), 1) == Cursor(pos + 1, d[pos], 8);
      assert Fetch(d, Cursor(pos, 0, 0), 2) == Cursor(pos + 2, x, 16);
      Pow2Values();
      ToIntFits(x);
      LowSmall(x, 16);
    }
  }

  /**
    * Whether a read runs out of file, and where a successful one leaves the
    * cursor, given the bytes k it needs and the bytes left.
    */
  lemma {:induction false} ReadBitsShape(d: seq<byte>, c: Cursor, n: nat, k: nat, left: nat)
    requires n <= 32 && k == BytesNeeded(c.buffered, n) && left == BytesLeft(d, c.pos)
    ensures ReadBits(d, c, n).0.Eof? <==> k > left
    ensures k <= left ==> ReadBits(d, c, n).1.pos == c.pos + k && ReadBits(d, c, n).1.buffered == c.buffered + 8 * k - n
  {
  }

  /**
    * Two consecutive reads of a and b bits run out of file exactly when one
    * read of n = a + b bits does.
    */
  lemma {:induction false} SequentialEof(d: seq<byte>, c: Cursor, a: nat, b: nat, n: nat)
    requires n == a + b && n <= 32
    ensures ReadBits(d, c, n).0.Eof? <==>
      ReadBits(d, c, a).0.Eof? || ReadBits(d, ReadBits(d, c, a).1, b).0.Eof?
  {
    var k1, k, left := BytesNeeded(c.buffered, a), BytesNeeded(c.buffered, n), BytesLeft(d, c.pos);
    ReadBitsShape(d, c, a, k1, left);
    ReadBitsShape(d, c, n, k, left);
    BytesNeededMinimal(c.buffered, a, k);
    if k1 <= left {
      var c1 := ReadBits(d, c, a).1;
      var rest1 := c.buffered + 8 * k1 - a;
      BytesNeededSplit(c.buffered, a, b, n, k1, rest1);
      ReadBitsShape(d, c1, b, k - k1, left - k1);
    }
  }

  /**
    * When a read of n = a + b bits from a coherent cursor succeeds, reading a
    * and then b bits succeeds too, returns its bit pattern split in two and
    * leaves the same state.
    */
  lemma {:induction false} ReadBitsSequential(d: seq<byte>, bits: seq<bit>, c: Cursor, a: nat, b: nat, n: nat)
    requires IsBitsOf(bits, d) && Coherent(d, bits, c) && 1 <= a && 1 <= b && n == a + b && n <= 32
    requires BytesNeeded(c.buffered, n) <= BytesLeft(d, c.pos)
    ensures var (r1, c1) := ReadBits(d, c, a);
      var (r2, c2) := ReadBits(d, c1, b);
      var (r, c3) := ReadBits(d, c, n);
      && r1.Got? && r2.Got? && r.Got? && c3 == c2
      && r.value == AsInt(r1.value * Pow2(b) + r2.value, n)
  {
    var bp := c.BitPosition();
    var k1, k := BytesNeeded(c.buffered, a), BytesNeeded(c.buffered, n);
    BytesNeededMinimal(c.buffered, a, k);
    var rest1 := c.buffered + 8 * k1 - a;
    var p1, e1 := bp + a, c.pos + k1;
    var x1, y1 := BitsValue(bits, bp, a), BitsValue(bits, p1, rest1);
    ReadBitsGot(d, bits, c, a, bp, k1, rest1, p1, e1, x1, y1);
    CoherentAfter(d, bits, e1, p1, rest1);
    BytesNeededSplit(c.buffered, a, b, n, k1, rest1);
    var c1 := Cursor(e1, y1, rest1);
    var rest := c.buffered + 8 * k - n;
    var q, e := p1 + b, c.pos + k;
    var x2, x, y := BitsValue(bits, p1, b), BitsValue(bits, bp, n), BitsValue(bits, q, rest);
    ReadBitsGot(d, bits, c1, b, p1, k - k1, rest, q, e, x2, y);
    ReadBitsGot(d, bits, c, n, bp, k, rest, q, e, x, y);
    BitsJoin(bits, bp, a, b, p1, n, x1, x2, x);
    SequentialCompose(d, c, c1, Cursor(e, y, rest), a, b, n, x1, x2, x);
  }

  /** BitsConcat for fields named by their values. */
  lemma {:induction false} BitsJoin(bits: seq<bit>, p: nat, a: nat, b: nat, q: nat, m: nat, x1: nat, x2: nat, x: nat)
    requires q == p + a && m == a + b
    requires x1 == BitsValue(bits, p, a) && x2 == BitsValue(bits, q, b) && x == BitsValue(bits, p, m)
    ensures x == x1 * Pow2(b) + x2
  {
    BitsConcat(bits, p, a, b);
  }

  /** The closed forms of the two reads and of the combined read, put together. */
  lemma {:induction false} SequentialCompose(d: seq<byte>, c: Cursor, c1: Cursor, c2: Cursor, a: nat, b: nat, n: nat, x1: nat, x2: nat, x: nat)
    requires 1 <= a && 1 <= b && n == a + b && n <= 32
    requires ReadBits(d, c, a) == (Got(AsInt(x1, a)), c1)
    requires ReadBits(d, c1, b) == (Got(AsInt(x2, b)), c2)
    requires ReadBits(d, c, n) == (Got(AsInt(x, n)), c2)
    requires x == x1 * Pow2(b) + x2
    ensures var (r1, c1) := ReadBits(d, c, a);
      var (r2, c2) := ReadBits(d, c1, b);
      var (r, c3) := ReadBits(d, c, n);
      && r1.Got? && r2.Got? && r.Got? && c3 == c2
      && r.value == AsInt(r1.value * Pow2(b) + r2.value, n)
  {
    ComposeValue(x1, x2, x, a, b, n);
  }

  /** The value part of SequentialCompose: the a-bit field is below 2^31, so AsInt keeps it. */
  lemma {:induction false} ComposeValue(x1: nat, x2: nat, x: nat, a: nat, b: nat, n: nat)
    requires 1 <= a && 1 <= b && n == a + b && n <= 32
    requires x == x1 * Pow2(b) + x2
    ensures AsInt(x, n) == AsInt(AsInt(x1, a) * Pow2(b) + AsInt(x2, b), n)
  {
  }

  /** The bytes two consecutive reads fetch add up to those of the combined read. */
  lemma {:induction false} BytesNeededSplit(buffered: nat, a: nat, b: nat, n: nat, k1: nat, rest1: nat)
    requires n == a + b && k1 == BytesNeeded(buffered, a) && rest1 == buffered + 8 * k1 - a
    ensures k1 + BytesNeeded(rest1, b) == BytesNeeded(buffered, n)
  {
    BytesNeededUnique(buffered, n, k1 + BytesNeeded(rest1, b));
  }

  /**
    * `readByte()` (lines 73-83): readUint(8) when a whole byte is buffered;
    * otherwise one raw byte from the file, past the accumulator and leaving it
    * as it is, or -1 at the end of the file.
    */
  function ReadByteAt(d: seq<byte>, c: Cursor): (r: (int, Cursor))
    requires WellFormed(d, c)
    ensures -1 <= r.0 < 256
  {
    if c.buffered >= 8 then
      var (u, c') := ReadBits(d, c, 8);
      (u.value, c')
    else
      var b := FileRead(d, c.pos);
      (b, if b != -1 then Cursor(c.pos + 1, c.buffer, c.buffered) else c)
  }

  lemma {:induction false} ReadByteWellFormed(d: seq<byte>, c: Cursor)
    requires WellFormed(d, c)
    ensures WellFormed(d, ReadByteAt(d, c).1)
  {
    if c.buffered >= 8 {
      ReadBitsWellFormed(d, c, 8);
    }
  }

  /**
    * With an empty accumulator, or a whole byte in it, readByte agrees with
    * readUint(8), -1 standing for its end of file.
    */
  lemma {:induction false} ReadByteMatchesReadUint(d: seq<byte>, c: Cursor)
    requires WellFormed(d, c) && (c.buffered == 0 || c.buffered >= 8)
    ensures var (u, c') := ReadBits(d, c, 8);
      ReadByteAt(d, c) == (if u.Got? then u.value else -1, c')
  {
    if c.buffered == 0 {
      assert c.buffer == 0;
      ReadByteAligned(d, c.pos);
    }
  }

  /**
    * With part of a byte buffered the two differ: after readUint(4) on AB CD,
    * readByte returns CD while readUint(8) would return BC.
    */
  lemma {:induction false} ReadByteSkipsPendingBits()
    ensures var d: seq<byte> := [0xAB, 0xCD];
      var (nibble, c) := ReadBits(d, Cursor(0, 0, 0), 4);
      && nibble == Got(0xA)
      && ReadByteAt(d, c).0 == 0xCD
      && ReadBits(d, c, 8).0 == Got(0xBC)
  {
    var d: seq<byte> := [0xAB, 0xCD];
    assert BytesNeeded(0, 4) == 1 && BytesNeeded(4, 8) == 1;
    assert Fetch(d, Cursor(0, 0, 0), 1) == Cursor(1, 0xAB, 8);
    assert Shr(0xAB, 4) == 0xA && Low(0xAB, 4) == 0xB;
    ToIntFits(0xA);
    assert Low(0xA, 4) == 0xA;
    var c := Cursor(1, 0xB, 4);
    assert ReadBits(d, Cursor(0, 0, 0), 4) == (Got(0xA), c);
    assert Fetch(d, c, 1) == Cursor(2, 0xBCD, 12);
    assert Shr(0xBCD, 4) == 0xBC;
    ToIntFits(0xBC);
    assert Low(0xBC, 8) == 0xBC;
  }

  /** `alignToByte()` (lines 93-95): drop the buffered bits that do not make up a whole byte. */
  function Align(c: Cursor): Cursor
  {
    var kept := c.buffered - c.buffered % 8;
    Cursor(c.pos, Low(c.buffer, kept), kept)
  }

  /** Alignment keeps a multiple of 8 bits, drops fewer than 8 and reads nothing. */
  lemma {:induction false} AlignProperties(d: seq<byte>, c: Cursor)
    requires WellFormed(d, c)
    ensures var a := Align(c);
      && WellFormed(d, a)
      && a.pos == c.pos
      && a.buffered % 8 == 0 && a.buffered <= c.buffered < a.buffered + 8
  {
    LowBound(c.buffer, c.buffered - c.buffered % 8);
  }

  /**
    * On a coherent cursor alignment keeps the accumulator coherent and moves
    * the bit position up to the next byte boundary.
    */
  lemma {:induction false} AlignCoherent(d: seq<byte>, bits: seq<bit>, c: Cursor)
    requires Coherent(d, bits, c)
    ensures var a := Align(c);
      && Coherent(d, bits, a)
      && a.BitPosition() % 8 == 0
      && c.BitPosition() <= a.BitPosition() < c.BitPosition() + 8
  {
    var p, drop := c.BitPosition(), c.buffered % 8;
    var kept := c.buffered - drop;
    var q := p + drop;
    LowField(bits, p, drop, kept, c.buffered, q, c.buffer);
    CoherentAfter(d, bits, c.pos, q, kept);
    AlignShape(c, kept);
    var y := c.pos - c.buffered / 8;
    assert q == 8 * y;
    DivModUnique(8 * y, 8, y, 0);
  }

  /** Align keeps the pos and the low `kept` buffered bits. */
  lemma {:induction false} AlignShape(c: Cursor, kept: nat)
    requires kept == c.buffered - c.buffered % 8
    ensures Align(c) == Cursor(c.pos, Low(c.buffer, kept), kept)
  {
  }

  /** The second half of BitsSplit, with the field named by its value x. */
  lemma {:induction false} LowField(bits: seq<bit>, p: nat, n: nat, m: nat, t: nat, q: nat, x: nat)
    requires t == n + m && q == p + n && x == BitsValue(bits, p, t)
    ensures Low(x, m) == BitsValue(bits, q, m)
  {
    BitsSplit(bits, p, n, m);
  }

  /**
    * `readUint(n) shl 32 - n shr 32 - n` on a Kotlin `Int` (line 86): shift
    * the field to the top of the 32 bits, wrapping, then shift it back
    * arithmetically. Kotlin takes `Int` shift distances modulo 32.
    */
  function SignedFrom(v: int, n: nat): int
    requires n <= 32
  {
    var s := (32 - n) % 32;
    Shr(ToInt(v * Pow2(s)), s)
  }

  /** The two's-complement reading of the n-bit field u. */
  function TwosComplement(u: nat, n: nat): int
    requires 1 <= n
  {
    if u < Pow2(n - 1) then u else u - Pow2(n)
  }

  /** readSignedInt's shifts sign-extend the n-bit field that readUint returns. */
  lemma {:induction false} SignExtension(u: nat, n: nat)
    requires 1 <= n <= 32 && u < Pow2(n)
    ensures SignedFrom(AsInt(u, n), n) == TwosComplement(u, n)
  {
    Pow2Values();
    if n == 32 {
      if u < INT_LIMIT {
        ToIntFits(u);
      } else {
        ToIntWraps(u);
      }
      ToIntFits(ToInt(u));
    } else {
      SignExtensionShort(u, n);
    }
  }

  lemma {:induction false} SignExtensionShort(u: nat, n: nat)
    requires 1 <= n < 32 && u < Pow2(n)
    ensures SignedFrom(u, n) == TwosComplement(u, n)
  {
    var s := 32 - n;
    var p, h, m := Pow2(s), Pow2(n - 1), Pow2(n);
    Pow2Values();
    Pow2Sum(n - 1, s, 31);
    Pow2Sum(n, s, 32);
    ShiftedField(u, n, s, p, h, m);
    SignedFromShort(u, n, s, p);
  }

  /** For 1 <= n < 32 the shift distance of SignedFrom is s = 32 - n itself. */
  lemma {:induction false} SignedFromShort(v: int, n: nat, s: nat, p: nat)
    requires 1 <= n < 32 && s == 32 - n && p == Pow2(s)
    ensures SignedFrom(v, n) == Shr(ToInt(v * p), s)
  {
    DivModUnique(32 - n, 32, 0, s);
  }

  /** Pow2Add, with the sum named. */
  lemma {:induction false} Pow2Sum(a: nat, b: nat, c: nat)
    requires a + b == c
    ensures Pow2(a) * Pow2(b) == Pow2(c)
  {
    Pow2Add(a, b);
  }

  /**
    * An n-bit field u shifted left by s = 32 - n lands in the top bits of an
    * `Int`: below the sign bit when u < 2^(n-1), and wrapping round otherwise;
    * shifting back by s then gives its two's-complement reading.
    */
  lemma {:induction false} ShiftedField(u: nat, n: nat, s: nat, p: nat, h: nat, m: nat)
    requires 1 <= n < 32 && s == 32 - n && p == Pow2(s) && h == Pow2(n - 1) && m == Pow2(n) && u < m
    requires h * p == INT_LIMIT && m * p == INT_MODULUS
    ensures Shr(ToInt(u * p), s) == TwosComplement(u, n)
  {
    if u < h {
      ShiftedNonNegative(u, s, p, h);
    } else {
      ShiftedNegative(u, s, p, h, m);
    }
  }

  /** A field below 2^(n-1) stays below the sign bit: it shifts back unchanged. */
  lemma {:induction false} ShiftedNonNegative(u: nat, s: nat, p: nat, h: nat)
    requires p == Pow2(s) && u < h && h * p == INT_LIMIT
    ensures Shr(ToInt(u * p), s) == u
  {
    MulLeft(u + 1, h, p);
    ToIntFits(u * p);
    ShrMul(u, s);
  }

  /** A field from 2^(n-1) on wraps round to u - 2^n times 2^s, which shifts back to u - 2^n. */
  lemma {:induction false} ShiftedNegative(u: nat, s: nat, p: nat, h: nat, m: nat)
    requires p == Pow2(s) && h <= u < m && h * p == INT_LIMIT && m * p == INT_MODULUS
    ensures Shr(ToInt(u * p), s) == u - m
  {
    MulLeft(h, u, p);
    MulLeft(u + 1, m, p);
    ToIntWraps(u * p);
    MulSub(u, m, p);
    ShrMul(u - m, s);
  }

  lemma {:induction false} MulSub(u: int, m: int, p: int)
    ensures (u - m) * p == u * p - m * p
  {
  }

  /** With n = 8, byte FF reads as -1 and byte 7F as 127. */
  lemma {:induction false} SignedByteExamples()
    ensures SignedFrom(0xFF, 8) == -1 && SignedFrom(0x7F, 8) == 127
  {
    Pow2Values();
    SignExtension(0xFF, 8);
    SignExtension(0x7F, 8);
  }

  /**
    * `readSignedInt(n)` (lines 85-87) as a function of the state: readUint(n),
    * then the shifts of SignedFrom; the end of file passes through.
    */
  function ReadSigned(d: seq<byte>, c: Cursor, n: nat): (ReadResult, Cursor)
    requires n <= 32
  {
    var (u, c') := ReadBits(d, c, n);
    (if u.Got? then Got(SignedFrom(u.value, n)) else Eof, c')
  }

  /**
    * A signed read of 1 to 31 bits returns the two's-complement reading of the
    * field that readUint returns, so a value in [-2^(n-1), 2^(n-1)); a signed
    * read of 32 bits returns readUint(32) itself.
    */
  lemma {:induction false} ReadSignedValue(d: seq<byte>, c: Cursor, n: nat)
    requires 1 <= n <= 32
    ensures var (u, c') := ReadBits(d, c, n);
      ReadSigned(d, c, n) == (if u.Got? then Got(if n < 32 then TwosComplement(u.value, n) else u.value) else Eof, c')
  {
    var u := ReadBits(d, c, n).0;
    if u.Got? {
      ReadBitsRange(d, c, n);
      if n < 32 {
        SignExtensionShort(u.value, n);
      } else {
        Pow2Values();
        ToIntFits(u.value);
      }
    }
  }

  /** The two's-complement reading of an n-bit field lies in [-2^(n-1), 2^(n-1)). */
  lemma {:induction false} TwosComplementRange(u: nat, n: nat)
    requires 1 <= n && u < Pow2(n)
    ensures -(Pow2(n - 1) as int) <= TwosComplement(u, n) < Pow2(n - 1)
  {
  }

  /**
    * `class Stream` (lines 26-96) over the bytes of a file. `byteBuffer`, the
    * `BufferedInputStream` over the `RandomAccessFile`, reads the file from
    * `bytePosition` on, so a raw read is FileRead(data, bytePosition).
    * `bitBuffer` holds only the `bitBufferLen` bits a read can still see.
    */
  class Stream {
    const data: seq<byte>
    var bytePosition: nat
    var bitBuffer: nat
    var bitBufferLen: nat

    ghost function State(): Cursor
      reads this
    {
      Cursor(bytePosition, bitBuffer, bitBufferLen)
    }

    ghost predicate Valid()
      reads this
    {
      WellFormed(data, State())
    }

    /** The constructor and `init` (lines 26-35): open the file and seek to its start. */
    constructor (file: seq<byte>)
      ensures data == file && State() == Cursor(0, 0, 0) && Valid()
    {
      data := file;
      new;
      SeekTo(0);
    }

    /** `seekTo(pos)` (lines 37-52): move the file position to pos and empty the accumulator. */
    method SeekTo(pos: nat)
      modifies this
      ensures State() == Cursor(pos, 0, 0) && Valid()
    {
      bytePosition := pos;
      bitBuffer := 0;
      bitBufferLen := 0;
    }

    /**
      * `readUint(n)` (lines 54-71); Eof stands for the `EOFException` thrown
      * when the file ends before n bits are buffered.
      */
    method ReadUint(n: nat) returns (r: ReadResult)
      requires n <= 32 && Valid()
      modifies this
      ensures (r, State()) == ReadBits(data, old(State()), n) && Valid()
    {
      ghost var c0 := State();
      ghost var j := 0;
      ReadBitsWellFormed(data, c0, n);
      while bitBufferLen < n
        invariant bytePosition == c0.pos + j && j <= BytesLeft(data, c0.pos)
        invariant State() == Fetch(data, c0, j)
        invariant j == 0 || c0.buffered + 8 * (j - 1) < n
        decreases n - bitBufferLen
      {
        var temp := FileRead(data, bytePosition);
        if temp == -1 {
          ReadBitsRanOut(data, c0, n, j);
          return Eof;
        }
        FetchNext(data, c0, j, j + 1);
        bytePosition := bytePosition + 1;
        bitBuffer := bitBuffer * 256 + temp;
        bitBufferLen := bitBufferLen + 8;
        j := j + 1;
      }
      BytesNeededUnique(c0.buffered, n, j);
      ReadBitsUnfold(data, c0, n, j);
      var rest := bitBufferLen - n;
      ExtractShape(State(), n, rest);
      bitBufferLen := rest;
      var result := ToInt(Shr(bitBuffer, rest));
      if n < 32 {
        result := Low(result, n);
      }
      bitBuffer := Low(bitBuffer, rest);
      return Got(result);
    }

    /**
      * `readByte()` (lines 73-83): readUint(8) when a whole byte is buffered,
      * otherwise one raw byte of the file, or -1 at its end.
      */
    method ReadByte() returns (b: int)
      requires Valid()
      modifies this
      ensures (b, State()) == ReadByteAt(data, old(State())) && Valid()
    {
      ReadByteWellFormed(data, State());
      if bitBufferLen >= 8 {
        var u := ReadUint(8);
        return u.value;
      }
      b := FileRead(data, bytePosition);
      if b != -1 {
        bytePosition := bytePosition + 1;
      }
    }

    /** `readSignedInt(n)` (lines 85-87). */
    method ReadSignedInt(n: nat) returns (r: ReadResult)
      requires n <= 32 && Valid()
      modifies this
      ensures (r, State()) == ReadSigned(data, old(State()), n) && Valid()
    {
      var u := ReadUint(n);
      r := if u.Got? then Got(SignedFrom(u.value, n)) else Eof;
    }

    /** `getPosition()` (lines 89-91): the number of the next byte to come from the file. */
    method GetPosition() returns (p: nat)
      ensures p == State().pos
    {
      p := bytePosition;
    }

    /** `alignToByte()` (lines 93-95): forget the buffered bits that do not make up a whole byte. */
    method AlignToByte()
      requires Valid()
      modifies this
      ensures State() == Align(old(State())) && Valid()
    {
      AlignProperties(data, State());
      bitBufferLen := bitBufferLen - bitBufferLen % 8;
      bitBuffer := Low(bitBuffer, bitBufferLen);
    }
  }
}
