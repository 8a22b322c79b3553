/**
  * Arithmetic shared by the bit cursor and the marker scanner: bytes, powers
  * of two, the bits of a byte sequence read most-significant-bit first, and
  * Kotlin's 32-bit `Int` conversion.
  */
module Bits {

  /** One byte of the file, as `InputStream.read` returns it when not at the end. */
  type byte = x: int | 0 <= x < 256

  /** 2^32, the number of distinct Kotlin `Int` values. */
  const INT_MODULUS: int := 0x1_0000_0000
  /** 2^31, the least value that does not fit a Kotlin `Int`. */
  const INT_LIMIT: int := 0x8000_0000

  function Pow2(n: nat): (r: nat)
    ensures r >= 1
  {
    if n == 0 then 1 else 2 * Pow2(n - 1)
  }

  lemma {:induction false} Pow2Add(a: nat, b: nat)
    ensures Pow2(a + b) == Pow2(a) * Pow2(b)
  {
    if b > 0 {
      Pow2Add(a, b - 1);
      calc {
        Pow2(a + b);
        2 * Pow2(a + b - 1);
        2 * (Pow2(a) * Pow2(b - 1));
        Pow2(a) * (2 * Pow2(b - 1));
        Pow2(a) * Pow2(b);
      }
    }
  }

  lemma {:induction false} Pow2Monotone(a: nat, b: nat)
    requires a <= b
    ensures Pow2(a) <= Pow2(b)
  {
    if a < b {
      Pow2Monotone(a, b - 1);
    }
  }

  /** The powers of two the cursor and the scanner use, as literals. */
  lemma {:induction false} Pow2Values()
    ensures Pow2(7) == 128 && Pow2(8) == 256 && Pow2(16) == 65536 && Pow2(24) == 0x100_0000
    ensures Pow2(31) == INT_LIMIT && Pow2(32) == INT_MODULUS
  {
    assert Pow2(2) == 4;
    assert Pow2(4) == 16 by { Pow2Add(2, 2); }
    assert Pow2(8) == 256 by { Pow2Add(4, 4); }
    assert Pow2(16) == 65536 by { Pow2Add(8, 8); }
    assert Pow2(24) == 0x100_0000 by { Pow2Add(16, 8); }
    assert Pow2(7) == 128 by { Pow2Add(4, 3); }
    assert Pow2(31) == INT_LIMIT by { Pow2Add(24, 7); }
    assert Pow2(32) == INT_MODULUS by { Pow2Add(16, 16); }
  }

  lemma {:induction false} MulAtLeast(x: int, b: int)
    requires x >= 1 && b > 0
    ensures x * b >= b
  {
  }

  /** Euclidean division has exactly one quotient and remainder. */
  lemma {:induction false} DivModUnique(a: int, b: int, q: int, r: int)
    requires b > 0 && 0 <= r < b && a == q * b + r
    ensures a / b == q && a % b == r
  {
    var q', r' := a / b, a % b;
    assert a == q' * b + r';
    assert (q - q') * b == r' - r;
    if q > q' {
      assert (q - q') * b >= b by { MulAtLeast(q - q', b); }
    } else if q < q' {
      assert (q' - q) * b >= b by { MulAtLeast(q' - q, b); }
    }
  }

  /** Kotlin's `Long.toInt()`: the low 32 bits, read in two's complement. */
  function ToInt(v: int): (r: int)
    ensures -INT_LIMIT <= r < INT_LIMIT
  {
    var w := v % INT_MODULUS;
    if w < INT_LIMIT then w else w - INT_MODULUS
  }

  /** ToInt keeps the value modulo 2^32: together with its range this determines it. */
  lemma {:induction false} ToIntCongruent(v: int)
    ensures (v - ToInt(v)) % INT_MODULUS == 0
  {
    var w := v % INT_MODULUS;
    assert v - w == (v / INT_MODULUS) * INT_MODULUS;
    if w < INT_LIMIT {
      DivModUnique(v - w, INT_MODULUS, v / INT_MODULUS, 0);
    } else {
      DivModUnique(v - (w - INT_MODULUS), INT_MODULUS, v / INT_MODULUS + 1, 0);
    }
  }

  /** A value that already fits an `Int` is kept as it is. */
  lemma {:induction false} ToIntFits(v: int)
    requires -INT_LIMIT <= v < INT_LIMIT
    ensures ToInt(v) == v
  {
    if v >= 0 {
      DivModUnique(v, INT_MODULUS, 0, v);
    } else {
      DivModUnique(v, INT_MODULUS, -1, v + INT_MODULUS);
    }
  }

  /** A value of 2^31 up to 2^32 wraps to a negative `Int`. */
  lemma {:induction false} ToIntWraps(v: int)
    requires INT_LIMIT <= v < INT_MODULUS
    ensures ToInt(v) == v - INT_MODULUS
  {
    DivModUnique(v, INT_MODULUS, 0, v);
  }

  /**
    * Arithmetic shift right by m (Kotlin's `shr`, and `ushr` on a value that is
    * not negative): floor division by 2^m, one bit at a time.
    */
  function Shr(x: int, m: nat): int
    decreases m
  {
    if m == 0 then x else Shr(x / 2, m - 1)
  }

  /** The low m bits of x in two's complement (Kotlin's `and` with an m-bit mask). */
  function Low(x: int, m: nat): nat
    decreases m
  {
    if m == 0 then 0 else 2 * Low(x / 2, m - 1) + x % 2
  }

  lemma {:induction false} LowBound(x: int, m: nat)
    ensures Low(x, m) < Pow2(m)
    decreases m
  {
    if m > 0 {
      LowBound(x / 2, m - 1);
    }
  }

  /** Masking a value below 2^m to m bits keeps it. */
  lemma {:induction false} LowSmall(x: nat, m: nat)
    requires x < Pow2(m)
    ensures Low(x, m) == x
  {
    if m > 0 {
      LowSmall(x / 2, m - 1);
    }
  }

  /** Shifting left by s and back right by s gives the value back, whatever its sign. */
  lemma {:induction false} ShrMul(x: int, s: nat)
    ensures Shr(x * Pow2(s), s) == x
    decreases s
  {
    if s > 0 {
      var y := x * Pow2(s - 1);
      assert x * Pow2(s) == 2 * y;
      assert (2 * y) / 2 == y;
      ShrMul(x, s - 1);
      assert Shr(x * Pow2(s), s) == Shr(y, s - 1);
    }
  }

  /** One bit of the file. */
  type bit = x: int | 0 <= x < 2

  /** Bit i of a bit string; 0 past its end. */
  function Bit(bits: seq<bit>, i: nat): bit
  {
    if i < |bits| then bits[i] else 0
  }

  /** The unsigned big-endian value of the n bits that start at bit p. */
  function BitsValue(bits: seq<bit>, p: nat, n: nat): nat
  {
    if n == 0 then 0 else 2 * BitsValue(bits, p, n - 1) + Bit(bits, p + n - 1)
  }

  lemma {:induction false} BitsValueBound(bits: seq<bit>, p: nat, n: nat)
    ensures BitsValue(bits, p, n) < Pow2(n)
  {
    if n > 0 {
      BitsValueBound(bits, p, n - 1);
    }
  }

  /** An (a+b)-bit field is its first a bits followed by its last b bits. */
  lemma {:induction false} BitsConcat(bits: seq<bit>, p: nat, a: nat, b: nat)
    ensures BitsValue(bits, p, a + b) == BitsValue(bits, p, a) * Pow2(b) + BitsValue(bits, p + a, b)
  {
    if b > 0 {
      BitsConcat(bits, p, a, b - 1);
      Regroup(BitsValue(bits, p, a), Pow2(b - 1), BitsValue(bits, p + a, b - 1), Bit(bits, p + a + b - 1), Pow2(b));
    }
  }

  lemma {:induction false} Regroup(x: int, y: int, z: int, w: int, q: int)
    requires q == 2 * y
    ensures 2 * (x * y + z) + w == x * q + (2 * z + w)
  {
  }

  /**
    * Shifting an (n+m)-bit field right by m keeps its first n bits; masking it
    * to m bits keeps its last m bits.
    */
  lemma {:induction false} BitsSplit(bits: seq<bit>, p: nat, n: nat, m: nat)
    ensures Shr(BitsValue(bits, p, n + m), m) == BitsValue(bits, p, n)
    ensures Low(BitsValue(bits, p, n + m), m) == BitsValue(bits, p + n, m)
  {
    if m > 0 {
      var x := BitsValue(bits, p, n + m);
      assert x / 2 == BitsValue(bits, p, n + m - 1) && x % 2 == Bit(bits, p + n + m - 1);
      BitsSplit(bits, p, n, m - 1);
    }
  }

  /** A field's value depends on its own bits only. */
  lemma {:induction false} BitsValueFrame(b1: seq<bit>, p1: nat, b2: seq<bit>, p2: nat, n: nat)
    requires p1 + n <= |b1| && p2 + n <= |b2| && b1[p1..p1 + n] == b2[p2..p2 + n]
    ensures BitsValue(b1, p1, n) == BitsValue(b2, p2, n)
  {
    if n > 0 {
      assert b1[p1..p1 + n - 1] == b1[p1..p1 + n][..n - 1];
      assert b2[p2..p2 + n - 1] == b2[p2..p2 + n][..n - 1];
      assert b1[p1 + n - 1] == b1[p1..p1 + n][n - 1];
      assert b2[p2 + n - 1] == b2[p2..p2 + n][n - 1];
      BitsValueFrame(b1, p1, b2, p2, n - 1);
    }
  }

  /** Conversely, a field's value determines its bits. */
  lemma {:induction false} BitsValueInjective(b1: seq<bit>, b2: seq<bit>, p: nat, n: nat)
    requires p + n <= |b1| && p + n <= |b2| && BitsValue(b1, p, n) == BitsValue(b2, p, n)
    ensures b1[p..p + n] == b2[p..p + n]
  {
    if n > 0 {
      var x := BitsValue(b1, p, n);
      assert x / 2 == BitsValue(b1, p, n - 1) && x % 2 == b1[p + n - 1];
      assert x / 2 == BitsValue(b2, p, n - 1) && x % 2 == b2[p + n - 1];
      BitsValueInjective(b1, b2, p, n - 1);
      assert b1[p..p + n] == b1[p..p + n - 1] + [b1[p + n - 1]];
      assert b2[p..p + n] == b2[p..p + n - 1] + [b2[p + n - 1]];
    }
  }

  /** The eight bits of a byte, most significant first. */
  function ByteToBits(b: byte): (r: seq<bit>)
    ensures |r| == 8
  {
    [b / 128, b / 64 % 2, b / 32 % 2, b / 16 % 2, b / 8 % 2, b / 4 % 2, b / 2 % 2, b % 2]
  }

  /** The bits of a file, byte after byte, each byte most significant bit first. */
  function FileBits(d: seq<byte>): (r: seq<bit>)
    ensures |r| == 8 * |d|
  {
    if |d| == 0 then [] else FileBits(d[..|d| - 1]) + ByteToBits(d[|d| - 1])
  }

  /**
    * bits is the bit string of the file d: eight bits per byte, and the 8-bit
    * field at bit 8k is byte k.
    */
  predicate IsBitsOf(bits: seq<bit>, d: seq<byte>)
  {
    |bits| == 8 * |d| && forall k :: 0 <= k < |d| ==> BitsValue(bits, 8 * k, 8) == d[k]
  }

  /** The bits of a byte read back as a field give the byte. */
  lemma {:induction false} ByteToBitsValue(b: byte)
    ensures BitsValue(ByteToBits(b), 0, 8) == b
  {
    var r := ByteToBits(b);
    DivHalf(b, 64);
    DivHalf(b, 32);
    DivHalf(b, 16);
    DivHalf(b, 8);
    DivHalf(b, 4);
    DivHalf(b, 2);
    DivHalf(b, 1);
    assert BitsValue(r, 0, 1) == b / 128;
    assert BitsValue(r, 0, 2) == b / 64;
    assert BitsValue(r, 0, 3) == b / 32;
    assert BitsValue(r, 0, 4) == b / 16;
    assert BitsValue(r, 0, 5) == b / 8;
    assert BitsValue(r, 0, 6) == b / 4;
    assert BitsValue(r, 0, 7) == b / 2;
  }

  /** Dividing by 2q is dividing by q, then by 2. */
  lemma {:induction false} DivHalf(b: int, q: int)
    requires q > 0
    ensures b / (2 * q) == (b / q) / 2
  {
    var x, r1 := b / q, b % q;
    var y, r2 := x / 2, x % 2;
    assert b == q * (2 * y + r2) + r1;
    assert q * (2 * y + r2) == (2 * q) * y + q * r2;
    if r2 == 0 {
      DivModUnique(b, 2 * q, y, r1);
    } else {
      DivModUnique(b, 2 * q, y, q + r1);
    }
  }

  /** FileBits is the bit string of the file. */
  lemma {:induction false} FileBitsOf(d: seq<byte>)
    ensures IsBitsOf(FileBits(d), d)
  {
    if |d| > 0 {
      var init, last := d[..|d| - 1], d[|d| - 1];
      var a := FileBits(init);
      var bits := FileBits(d);
      FileBitsOf(init);
      assert bits == a + ByteToBits(last);
      forall k | 0 <= k < |d|
        ensures BitsValue(bits, 8 * k, 8) == d[k]
      {
        if k < |d| - 1 {
          assert bits[8 * k..8 * k + 8] == a[8 * k..8 * k + 8];
          BitsValueFrame(bits, 8 * k, a, 8 * k, 8);
          assert d[k] == init[k];
        } else {
          assert bits[8 * k..8 * k + 8] == ByteToBits(last)[0..8];
          BitsValueFrame(bits, 8 * k, ByteToBits(last), 0, 8);
          ByteToBitsValue(last);
        }
      }
    }
  }

  /** A file has exactly one bit string. */
  lemma {:induction false} BitsOfUnique(b1: seq<bit>, b2: seq<bit>, d: seq<byte>)
    requires IsBitsOf(b1, d) && IsBitsOf(b2, d)
    ensures b1 == b2
  {
    forall i | 0 <= i < |b1|
      ensures b1[i] == b2[i]
    {
      var k := i / 8;
      assert BitsValue(b1, 8 * k, 8) == d[k] == BitsValue(b2, 8 * k, 8);
      BitsValueInjective(b1, b2, 8 * k, 8);
      assert b1[i] == b1[8 * k..8 * k + 8][i - 8 * k];
      assert b2[i] == b2[8 * k..8 * k + 8][i - 8 * k];
    }
  }

  /** Extending a field that ends at byte k by that byte, m being the new width. */
  lemma {:induction false} AppendByte(bits: seq<bit>, d: seq<byte>, p: nat, n: nat, k: nat, m: nat)
    requires IsBitsOf(bits, d) && k < |d| && p + n == 8 * k && m == n + 8
    ensures BitsValue(bits, p, m) == BitsValue(bits, p, n) * 256 + d[k]
  {
    var x := BitsValue(bits, p, n);
    BitsConcat(bits, p, n, 8);
    assert BitsValue(bits, 8 * k, 8) == d[k];
    assert Pow2(8) == 256 by { Pow2Values(); }
    MulByEq(x, Pow2(8), 256);
  }

  lemma {:induction false} MulByEq(x: int, q: int, r: int)
    requires q == r
    ensures x * q == x * r
  {
  }

  lemma {:induction false} MulLeft(x: nat, y: nat, m: nat)
    requires x <= y
    ensures x * m <= y * m
  {
  }

  /** The big-endian 16-bit value of bytes p and p + 1. */
  function U16(d: seq<byte>, p: nat): (v: nat)
    requires p + 2 <= |d|
  {
    d[p] as int * 256 + d[p + 1] as int
  }

  /** Sixteen bits read from byte p are U16(d, p); the high byte is d[p]. */
  lemma {:induction false} U16Bits(bits: seq<bit>, d: seq<byte>, p: nat)
    requires IsBitsOf(bits, d) && p + 2 <= |d|
    ensures BitsValue(bits, 8 * p, 16) == U16(d, p)
    ensures U16(d, p) / 256 == d[p] && U16(d, p) < 65536
  {
    AppendByte(bits, d, 8 * p, 8, p + 1, 16);
    assert BitsValue(bits, 8 * p, 8) == d[p];
    DivModUnique(U16(d, p), 256, d[p], d[p + 1]);
  }
}
