/**
 * Java primitive semantics the memory views rely on: 64- and 32-bit two's complement
 * wrap-around, signed bytes, the native (little-endian) layout of 16-, 32- and 64-bit
 * values in a byte store, Long/Integer/Character.reverseBytes, and the exceptions
 * the library raises, as values.
 */
module Primitives {

  /** The kinds of Utf8CodingException raised by the UTF-8 codec. */
  datatype Utf8Failure =
    | ShortUtf8DecodeByteSequence   // a multi-byte sequence is cut off by the end of the input
    | IllegalUtf8DecodeByteSequence // overlong form, surrogate, out-of-range plane or bad trailing byte
    | OutOfMemory                   // no room left in the memory for the next character
    | UnpairedSurrogate             // the last char of the input is a lone surrogate
    | ShortUtf8EncodeByteLength     // fewer than four bytes left for a surrogate pair
    | IllegalSurrogatePair          // a surrogate not followed by a matching partner

  /** The Java exceptions thrown by the core. */
  datatype Error =
    | IllegalArgument       // IllegalArgumentException
    | ReadOnly              // ReadOnlyException
    | MemoryBounds          // MemoryBoundsException
    | MemoryInvalid         // MemoryInvalidException
    | IllegalState          // IllegalStateException
    | BufferOverflow        // java.nio.BufferOverflowException
    | Utf8Coding(failure: Utf8Failure)

  /** A Java method that returns a value or throws. */
  datatype Result<T> = Ok(value: T) | Err(error: Error)

  /** A void Java method that returns normally or throws. */
  datatype Outcome = Pass | Fail(error: Error)

  const TWO_32: int := 0x1_0000_0000
  const TWO_64: int := 0x1_0000_0000_0000_0000
  const MIN_LONG: int := -0x8000_0000_0000_0000
  const MAX_LONG: int := 0x7FFF_FFFF_FFFF_FFFF
  const MIN_INT: int := -0x8000_0000
  const MAX_INT: int := 0x7FFF_FFFF

  /** A Java `long` value. */
  type i64 = x: int | MIN_LONG <= x <= MAX_LONG
  /** A Java `int` value. */
  type i32 = x: int | MIN_INT <= x <= MAX_INT
  /** A Java `char`: one UTF-16 code unit, surrogate halves included. */
  type JChar = c: int | 0 <= c < 0x1_0000

  /** The `long` that Java's 64-bit arithmetic yields for the mathematical value x. */
  function WrapLong(x: int): (r: i64)
    ensures (x - r) % TWO_64 == 0
    ensures MIN_LONG <= x <= MAX_LONG ==> r == x
    ensures MAX_LONG < x <= MAX_LONG + TWO_64 ==> r == x - TWO_64
    ensures MIN_LONG - TWO_64 <= x < MIN_LONG ==> r == x + TWO_64
  {
    (x - MIN_LONG) % TWO_64 + MIN_LONG
  }

  /** The `int` that Java's 32-bit arithmetic (or a `(int)` cast) yields for x. */
  function WrapInt(x: int): (r: i32)
    ensures (x - r) % TWO_32 == 0
    ensures MIN_INT <= x <= MAX_INT ==> r == x
  {
    (x - MIN_INT) % TWO_32 + MIN_INT
  }

  /**
   * Java's `(x0 | x1 | ... | xn) < 0` over longs. In two's complement the sign bit of a
   * bitwise or is set exactly when it is set in one of the operands, so the test holds
   * exactly when one of the operands is negative.
   */
  predicate OrIsNegative(xs: seq<i64>)
  {
    exists i :: 0 <= i < |xs| && xs[i] < 0
  }

  /** The value of a Java `byte` with bit pattern b. */
  function Signed8(b: bv8): (r: int)
    ensures -128 <= r <= 127
    ensures r >= 0 <==> b < 0x80
    ensures r >= 0 ==> r == b as int
    ensures r < 0 ==> r == b as int - 256
  {
    if b < 0x80 then b as int else b as int - 256
  }

  // ---------------------------------------------------------------------------------
  // Byte layouts. The platform byte order (ByteOrder.nativeOrder()) is little-endian:
  // the least significant byte of a value is stored at the lowest address.

  datatype ByteOrder = LittleEndian | BigEndian

  const NATIVE_ORDER: ByteOrder := LittleEndian
  const NON_NATIVE_ORDER: ByteOrder := BigEndian

  /** 256^n: the number of bit patterns n bytes can hold. */
  function Pow256(n: nat): (r: nat)
    ensures r >= 1
  {
    if n == 0 then 1 else 256 * Pow256(n - 1)
  }

  /** Half of 256^n: the first bit pattern of an n-byte signed type that is negative. */
  function Half(n: nat): (h: nat)
    requires n > 0
    ensures 2 * h == Pow256(n) && h >= 128
  {
    128 * Pow256(n - 1)
  }

  /** v is a value of the n-byte signed Java type. */
  predicate FitsSigned(v: int, n: nat)
  {
    n > 0 && -(Half(n) as int) <= v < Half(n)
  }

  lemma DivModByte(a: int, f: int)
    requires 0 <= a < 256
    ensures (a + 256 * f) % 256 == a && (a + 256 * f) / 256 == f
  {
  }

  lemma ByteValue(a: int)
    requires 0 <= a < 256
    ensures (a as bv8) as int == a
  {
    if a < 128 {
      if a < 64 { } else { }
    } else {
      if a < 192 { } else { }
    }
  }

  /** Reduction modulo m leaves [0, m) alone and lifts [-m, 0) by m. */
  lemma ModOfSmall(v: int, m: int)
    ensures 0 <= v < m ==> v % m == v
    ensures 0 < m && -m <= v < 0 ==> v % m == v + m
  {
  }

  /** The n-byte native layout of the bit pattern u: least significant byte first. */
  function ToLe(u: nat, n: nat): (s: seq<bv8>)
    requires u < Pow256(n)
    ensures |s| == n
  {
    if n == 0 then []
    else
      assert u / 256 < Pow256(n - 1);
      [(u % 256) as bv8] + ToLe(u / 256, n - 1)
  }

  /** The bit pattern held by a native layout (Unsafe.getX read as unsigned). */
  function FromLe(s: seq<bv8>): (u: nat)
    ensures u < Pow256(|s|)
  {
    if |s| == 0 then 0 else s[0] as int + 256 * FromLe(s[1..])
  }

  lemma {:induction false} FromLeToLe(u: nat, n: nat)
    requires u < Pow256(n)
    ensures FromLe(ToLe(u, n)) == u
  {
    if n > 0 {
      var q, r := u / 256, u % 256;
      assert u == r + 256 * q;
      assert q < Pow256(n - 1);
      FromLeToLe(q, n - 1);
      var s := ToLe(u, n);
      ByteValue(r);
      assert s[1..] == ToLe(q, n - 1);
      assert FromLe(s) == s[0] as int + 256 * FromLe(s[1..]);
    }
  }

  lemma {:induction false} ToLeFromLe(s: seq<bv8>)
    ensures ToLe(FromLe(s), |s|) == s
  {
    if |s| > 0 {
      ToLeFromLe(s[1..]);
      var f := FromLe(s[1..]);
      DivModByte(s[0] as int, f);
      var t := ToLe(FromLe(s), |s|);
      assert t[0] == s[0];
      assert t[1..] == ToLe(f, |s| - 1);
      assert t == [t[0]] + t[1..];
      assert s == [s[0]] + s[1..];
    }
  }

  /** Two layouts of the same length are equal exactly when they hold the same pattern. */
  lemma FromLeInjective(s: seq<bv8>, t: seq<bv8>)
    requires |s| == |t|
    ensures FromLe(s) == FromLe(t) <==> s == t
  {
    if FromLe(s) == FromLe(t) {
      ToLeFromLe(s);
      ToLeFromLe(t);
    }
  }

  /** The n-byte two's complement bit pattern of v, as a cast to an n-byte type keeps it. */
  function Bits(v: int, n: nat): (u: nat)
    ensures u < Pow256(n)
    ensures 0 <= v < Pow256(n) ==> u == v
    ensures -(Pow256(n) as int) <= v < 0 ==> u == v + Pow256(n)
  {
    ModOfSmall(v, Pow256(n));
    v % Pow256(n)
  }

  /** The Java value of an n-byte signed type with bit pattern u. */
  function Signed(u: nat, n: nat): (v: int)
    requires 0 < n && u < Pow256(n)
    ensures FitsSigned(v, n)
    ensures Bits(v, n) == u
  {
    if u < Half(n) then u else u - Pow256(n)
  }

  /** A value that fits the signed type is read back from its own bit pattern. */
  lemma SignedBits(v: int, n: nat)
    requires FitsSigned(v, n)
    ensures Signed(Bits(v, n), n) == v
  {
  }

  /** The native layout of a Java value of an n-byte type (Unsafe.putX). */
  function Store(v: int, n: nat): (s: seq<bv8>)
    ensures |s| == n
  {
    ToLe(Bits(v, n), n)
  }

  /** The Java value of a signed type read from a native layout (Unsafe.getX). */
  function LoadSigned(s: seq<bv8>): (v: int)
    requires |s| > 0
    ensures FitsSigned(v, |s|)
  {
    Signed(FromLe(s), |s|)
  }

  /** Storing a value that fits the type and loading it again gives the value back. */
  lemma LoadStore(v: int, n: nat)
    requires FitsSigned(v, n)
    ensures LoadSigned(Store(v, n)) == v
  {
    FromLeToLe(Bits(v, n), n);
    SignedBits(v, n);
  }

  /** Loading a layout and storing the value again gives the same bytes. */
  lemma StoreLoad(s: seq<bv8>)
    requires |s| > 0
    ensures Store(LoadSigned(s), |s|) == s
  {
    ToLeFromLe(s);
  }

  /** The bytes of s in the opposite order. */
  function Reverse(s: seq<bv8>): (r: seq<bv8>)
    ensures |r| == |s|
    ensures forall i :: 0 <= i < |s| ==> r[i] == s[|s| - 1 - i]
  {
    if |s| == 0 then [] else Reverse(s[1..]) + [s[0]]
  }

  lemma ReverseInvolutive(s: seq<bv8>)
    ensures Reverse(Reverse(s)) == s
  {
  }

  /**
   * Short/Integer/Long.reverseBytes for an n-byte signed type: the value whose
   * native layout is the reversed layout of v.
   */
  function ReverseBytes(v: int, n: nat): (r: int)
    requires 0 < n
    ensures Store(r, n) == Reverse(Store(v, n))
  {
    StoreLoad(Reverse(Store(v, n)));
    LoadSigned(Reverse(Store(v, n)))
  }

  lemma ReverseBytesInvolutive(v: int, n: nat)
    requires FitsSigned(v, n)
    ensures ReverseBytes(ReverseBytes(v, n), n) == v
  {
    var r := ReverseBytes(v, n);
    ReverseInvolutive(Store(v, n));
    assert Store(ReverseBytes(r, n), n) == Store(v, n);
    LoadStore(v, n);
    LoadStore(ReverseBytes(r, n), n);
  }

  /** Character.reverseBytes: the char whose layout is the reversed layout of c. */
  function ReverseChar(c: nat): (r: nat)
    requires c < 0x1_0000
    ensures r < 0x1_0000
    ensures ToLe(r, 2) == Reverse(ToLe(c, 2))
  {
    ToLeFromLe(Reverse(ToLe(c, 2)));
    FromLe(Reverse(ToLe(c, 2)))
  }

  lemma ReverseCharInvolutive(c: nat)
    requires c < 0x1_0000
    ensures ReverseChar(ReverseChar(c)) == c
  {
    ReverseInvolutive(ToLe(c, 2));
    FromLeToLe(c, 2);
    FromLeToLe(ReverseChar(ReverseChar(c)), 2);
  }

  // ---------------------------------------------------------------------------------
  // The 32- and 64-bit lanes of XxHash64 are bit patterns, read with shifts.

  function Le32(v: bv32): (s: seq<bv8>)
    ensures |s| == 4
  {
    [(v & 0xFF) as bv8, ((v >> 8) & 0xFF) as bv8, ((v >> 16) & 0xFF) as bv8, (v >> 24) as bv8]
  }

  function Le64(v: bv64): (s: seq<bv8>)
    ensures |s| == 8
  {
    [(v & 0xFF) as bv8, ((v >> 8) & 0xFF) as bv8, ((v >> 16) & 0xFF) as bv8,
     ((v >> 24) & 0xFF) as bv8, ((v >> 32) & 0xFF) as bv8, ((v >> 40) & 0xFF) as bv8,
     ((v >> 48) & 0xFF) as bv8, (v >> 56) as bv8]
  }

  /** The 32-bit value whose native layout is s (Unsafe.getInt). */
  function FromLe32(s: seq<bv8>): (v: bv32)
    requires |s| == 4
    ensures Le32(v) == s
  {
    (s[0] as bv32) | ((s[1] as bv32) << 8) | ((s[2] as bv32) << 16) | ((s[3] as bv32) << 24)
  }

  /** The 64-bit value whose native layout is s (Unsafe.getLong). */
  function FromLe64(s: seq<bv8>): (v: bv64)
    requires |s| == 8
    ensures Le64(v) == s
  {
    (s[0] as bv64) | ((s[1] as bv64) << 8) | ((s[2] as bv64) << 16) | ((s[3] as bv64) << 24)
    | ((s[4] as bv64) << 32) | ((s[5] as bv64) << 40) | ((s[6] as bv64) << 48) | ((s[7] as bv64) << 56)
  }

  lemma Le64Injective(v: bv64, w: bv64)
    ensures Le64(v) == Le64(w) ==> v == w
  {
    if Le64(v) == Le64(w) {
      assert forall i :: 0 <= i < 8 ==> Le64(v)[i] == Le64(w)[i];
    }
  }
}
