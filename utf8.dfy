/**
 * The UTF-8 codec of the memory views (Utf8.java): putCharsToUtf8 encodes a UTF-16
 * char sequence into the bytes of a memory, getCharsFromUtf8 decodes a byte range into
 * an Appendable or into the array of a heap CharBuffer. UTF-8 is the encoding of
 * RFC 3629 (section 3 for the bit layout, section 4 for the well-formed byte sequences);
 * code points above U+FFFF travel in UTF-16 as surrogate pairs (RFC 2781, section 2.1
 * and 2.2).
 *
 * The value-level functions EncodeUtf8, DecodeUtf8 and DecodeBounded follow the
 * branches of the source in order; the methods are the source's loops, proved to
 * compute them.
 */
module Utf8 {
  import opened Primitives
  import NonNativeCopy

  // ---------------------------------------------------------------------------------
  // java.lang.Character

  const MIN_HIGH_SURROGATE: int := 0xD800
  const MIN_LOW_SURROGATE: int := 0xDC00
  const MIN_SUPPLEMENTARY_CODE_POINT: int := 0x10000

  predicate IsHighSurrogate(c: JChar) { 0xD800 <= c <= 0xDBFF }
  predicate IsLowSurrogate(c: JChar) { 0xDC00 <= c <= 0xDFFF }
  predicate IsSurrogate(c: JChar) { 0xD800 <= c <= 0xDFFF }
  predicate IsSurrogatePair(high: JChar, low: JChar) { IsHighSurrogate(high) && IsLowSurrogate(low) }

  /** Character.toCodePoint: the supplementary code point a surrogate pair stands for. */
  function ToCodePoint(high: JChar, low: JChar): (cp: int)
    requires IsSurrogatePair(high, low)
    ensures MIN_SUPPLEMENTARY_CODE_POINT <= cp <= 0x10FFFF
  {
    (high * 0x400 + low) + (MIN_SUPPLEMENTARY_CODE_POINT - MIN_HIGH_SURROGATE * 0x400 - MIN_LOW_SURROGATE)
  }

  /** DecodeUtil.highSurrogate: the high half of the pair for a decoded four-byte code point. */
  function HighSurrogate(cp: int): (c: JChar)
    requires 0 <= cp < 0x20_0000
    ensures MIN_SUPPLEMENTARY_CODE_POINT <= cp <= 0x10FFFF ==> IsHighSurrogate(c)
  {
    (MIN_HIGH_SURROGATE - MIN_SUPPLEMENTARY_CODE_POINT / 0x400) + cp / 0x400
  }

  /** DecodeUtil.lowSurrogate: the low half of the pair for a decoded four-byte code point. */
  function LowSurrogate(cp: int): (c: JChar)
    requires 0 <= cp
    ensures IsLowSurrogate(c)
  {
    MIN_LOW_SURROGATE + cp % 0x400
  }

  /** Splitting a supplementary code point into a pair and joining the pair gives it back. */
  lemma CodePointOfSurrogates(cp: int)
    requires MIN_SUPPLEMENTARY_CODE_POINT <= cp <= 0x10FFFF
    ensures ToCodePoint(HighSurrogate(cp), LowSurrogate(cp)) == cp
  {
  }

  /** Joining a pair and splitting its code point gives the pair back. */
  lemma SurrogatesOfCodePoint(high: JChar, low: JChar)
    requires IsSurrogatePair(high, low)
    ensures HighSurrogate(ToCodePoint(high, low)) == high
    ensures LowSurrogate(ToCodePoint(high, low)) == low
  {
    var cp := ToCodePoint(high, low);
    assert cp == (high - 0xD800) * 0x400 + (low - 0xDC00) + 0x10000;
    assert cp / 0x400 == high - 0xD800 + 0x40;
    assert cp % 0x400 == low - 0xDC00;
  }

  // ---------------------------------------------------------------------------------
  // UTF-16 text

  /** Every surrogate of s is the high half of a pair immediately followed by its low half. */
  predicate WellFormed(s: seq<JChar>)
    decreases |s|
  {
    if |s| == 0 then true
    else if IsHighSurrogate(s[0]) then |s| >= 2 && IsLowSurrogate(s[1]) && WellFormed(s[2..])
    else !IsLowSurrogate(s[0]) && WellFormed(s[1..])
  }

  /**
   * The number of UTF-8 bytes of well-formed text: one per char below U+0080, two per
   * char below U+0800, three per other char outside the surrogates, four per pair.
   */
  function Utf8Length(s: seq<JChar>): (n: nat)
    requires WellFormed(s)
    decreases |s|
  {
    if |s| == 0 then 0
    else if IsHighSurrogate(s[0]) then 4 + Utf8Length(s[2..])
    else (if s[0] < 0x80 then 1 else if s[0] < 0x800 then 2 else 3) + Utf8Length(s[1..])
  }

  // ---------------------------------------------------------------------------------
  // Encoding (putCharsToUtf8)

  /**
   * (byte) x: the low eight bits of x. The source builds lead bytes as
   * (0xF << 6) | (c >>> 6) and so on; the two operands have no bit in common, so the
   * or is written here as a sum.
   */
  function LowByte(x: int): (b: bv8)
    ensures b as int == x % 256
  {
    ByteValue(x % 256);
    (x % 256) as bv8
  }

  /** The bytes of a char below U+0080. */
  function OneByte(c: JChar): (b: seq<bv8>)
  {
    [LowByte(c)]
  }

  /** The bytes of a char below U+0800. */
  function TwoBytes(c: JChar): (b: seq<bv8>)
  {
    [LowByte(0x3C0 + c / 0x40), LowByte(0x80 + c % 0x40)]
  }

  /** The bytes of a char of the rest of the Basic Multilingual Plane. */
  function ThreeBytes(c: JChar): (b: seq<bv8>)
  {
    [LowByte(0x1E0 + c / 0x1000), LowByte(0x80 + c / 0x40 % 0x40), LowByte(0x80 + c % 0x40)]
  }

  /** The bytes of a supplementary code point. */
  function FourBytes(cp: int): (b: seq<bv8>)
  {
    [LowByte(0xF0 + cp / 0x4_0000), LowByte(0x80 + cp / 0x1000 % 0x40),
     LowByte(0x80 + cp / 0x40 % 0x40), LowByte(0x80 + cp % 0x40)]
  }

  /** What an encoding call leaves behind: the bytes written, and how it ended. */
  datatype Encoded = Encoded(bytes: seq<bv8>, outcome: Outcome)

  function PrependBytes(b: seq<bv8>, e: Encoded): (r: Encoded)
  {
    Encoded(b + e.bytes, e.outcome)
  }

  /**
   * The exception putCharsToUtf8 chooses when char c, the first of the rest s of the
   * input, cannot be encoded into the room bytes left, exactly as the source is
   * written: the out-of-memory test for a three-byte char reads c < 0xFFFF.
   */
  function EncodeFailureAsWritten(c: JChar, s: seq<JChar>, room: int): (e: Error)
    requires |s| >= 1 && s[0] == c
  {
    if (c < 0x80 && room <= 0) || (c < 0x800 && room <= 1) || (c < 0xFFFF && room <= 2) then
      Utf8Coding(OutOfMemory)
    else if |s| < 2 then Utf8Coding(UnpairedSurrogate)
    else if room < 4 then Utf8Coding(ShortUtf8EncodeByteLength)
    else if !IsSurrogatePair(c, s[1]) then Utf8Coding(IllegalSurrogatePair)
    else IllegalArgument
  }

  /** The same choice with the three-byte test covering U+FFFF, the last char of the plane. */
  function EncodeFailure(c: JChar, s: seq<JChar>, room: int): (e: Error)
    requires |s| >= 1 && s[0] == c
  {
    if (c < 0x80 && room <= 0) || (c < 0x800 && room <= 1) || (c <= 0xFFFF && room <= 2) then
      Utf8Coding(OutOfMemory)
    else if |s| < 2 then Utf8Coding(UnpairedSurrogate)
    else if room < 4 then Utf8Coding(ShortUtf8EncodeByteLength)
    else if !IsSurrogatePair(c, s[1]) then Utf8Coding(IllegalSurrogatePair)
    else IllegalArgument
  }

  /**
   * The branch putCharsToUtf8 takes for the first char c of s with room bytes left,
   * named by the bytes it writes: 1 for c below U+0080, 2 below U+0800, 3 for the rest
   * of the plane outside the surrogates, 4 for a surrogate pair, and 0 when no test
   * passes and the call throws.
   */
  function EncodeBranch(s: seq<JChar>, room: int): (k: nat)
    requires |s| >= 1
    ensures k <= 4 && (k > 0 ==> k <= room)
    ensures k == 4 ==> |s| >= 2 && IsSurrogatePair(s[0], s[1])
  {
    var c := s[0];
    if c < 0x80 && room >= 1 then 1
    else if c < 0x800 && room >= 2 then 2
    else if !IsSurrogate(c) && room >= 3 then 3
    else if |s| >= 2 && room >= 4 && IsSurrogatePair(c, s[1]) then 4
    else 0
  }

  /** The chars of s the branch consumes: two for a surrogate pair, one otherwise. */
  function Consumed(k: nat): (n: nat)
  {
    if k == 4 then 2 else 1
  }

  /** The bytes branch k writes for the first char, or pair, of s. */
  function BranchBytes(s: seq<JChar>, k: nat): (b: seq<bv8>)
    requires 1 <= k <= 4 && |s| >= 1
    requires k == 4 ==> |s| >= 2 && IsSurrogatePair(s[0], s[1])
    ensures |b| == k
  {
    if k == 1 then OneByte(s[0])
    else if k == 2 then TwoBytes(s[0])
    else if k == 3 then ThreeBytes(s[0])
    else FourBytes(ToCodePoint(s[0], s[1]))
  }

  /**
   * Encoding s into a memory with room bytes left (byteLimit minus the next byte index):
   * each char takes the first branch of the source whose test passes, and when none
   * passes the call throws, keeping the bytes already written.
   */
  function EncodeUtf8(s: seq<JChar>, room: int): (e: Encoded)
    ensures |e.bytes| <= (if room < 0 then 0 else room)
    decreases |s|
  {
    if |s| == 0 then Encoded([], Pass)
    else
      var k := EncodeBranch(s, room);
      if k == 0 then Encoded([], Fail(EncodeFailure(s[0], s, room)))
      else PrependBytes(BranchBytes(s, k), EncodeUtf8(s[Consumed(k)..], room - k))
  }

  /** The source's closing "should not happen" exception indeed cannot happen. */
  lemma {:induction false} EncodeFailsWithCodingException(s: seq<JChar>, room: int)
    ensures EncodeUtf8(s, room).outcome.Fail? ==> EncodeUtf8(s, room).outcome.error.Utf8Coding?
    decreases |s|
  {
    if |s| > 0 {
      var k := EncodeBranch(s, room);
      if k > 0 {
        EncodeFailsWithCodingException(s[Consumed(k)..], room - k);
      }
    }
  }

  /**
   * A char of the Basic Multilingual Plane outside the surrogates that does not fit is
   * reported as OutOfMemory.
   */
  lemma EncodeFailureOfBmpChar(c: JChar, s: seq<JChar>, room: int)
    requires |s| >= 1 && s[0] == c && !IsSurrogate(c)
    requires room < (if c < 0x80 then 1 else if c < 0x800 then 2 else 3)
    ensures EncodeFailure(c, s, room) == Utf8Coding(OutOfMemory)
  {
  }

  /** As written, U+FFFF with two bytes of room is reported as an unpaired surrogate. */
  lemma EncodeFailureAsWrittenAtFfff()
    ensures EncodeFailureAsWritten(0xFFFF, [0xFFFF], 2) == Utf8Coding(UnpairedSurrogate)
    ensures EncodeFailure(0xFFFF, [0xFFFF], 2) == Utf8Coding(OutOfMemory)
  {
  }

  /** The char count of the first branch and the text it leaves are well formed together. */
  lemma WellFormedStep(s: seq<JChar>, room: int)
    requires |s| >= 1 && EncodeBranch(s, room) > 0
    ensures WellFormed(s) <==> WellFormed(s[Consumed(EncodeBranch(s, room))..])
    ensures WellFormed(s) ==>
              Utf8Length(s) == EncodeBranch(s, room) + Utf8Length(s[Consumed(EncodeBranch(s, room))..])
  {
  }

  /** Encoding succeeds exactly when the text is well formed and its bytes fit the room. */
  lemma {:induction false} EncodeSucceeds(s: seq<JChar>, room: int)
    ensures EncodeUtf8(s, room).outcome == Pass <==>
              WellFormed(s) && Utf8Length(s) <= (if room < 0 then 0 else room)
    decreases |s|
  {
    if |s| > 0 {
      var k := EncodeBranch(s, room);
      if k > 0 {
        WellFormedStep(s, room);
        EncodeSucceeds(s[Consumed(k)..], room - k);
      } else if WellFormed(s) {
        var c := s[0];
        if IsHighSurrogate(c) {
          assert Utf8Length(s) == 4 + Utf8Length(s[2..]);
        } else {
          assert Utf8Length(s) == (if c < 0x80 then 1 else if c < 0x800 then 2 else 3) + Utf8Length(s[1..]);
        }
      }
    }
  }

  /** A successful encoding writes Utf8Length(s) bytes, which putCharsToUtf8 returns. */
  lemma {:induction false} EncodeLength(s: seq<JChar>, room: int)
    requires EncodeUtf8(s, room).outcome == Pass
    ensures WellFormed(s) && |EncodeUtf8(s, room).bytes| == Utf8Length(s)
    decreases |s|
  {
    EncodeSucceeds(s, room);
    if |s| > 0 {
      var k := EncodeBranch(s, room);
      WellFormedStep(s, room);
      EncodeLength(s[Consumed(k)..], room - k);
    }
  }

  // ---------------------------------------------------------------------------------
  // Decoding: DecodeUtil

  /** (byte) u for an unsigned byte value u: the Java constant the source compares with. */
  function JByte(u: int): (v: int)
    requires 0 <= u < 256
    ensures -128 <= v < 128
  {
    if u < 0x80 then u else u - 256
  }

  /** isOneByte: the byte is not negative. */
  function IsOneByte(b: bv8): (r: bool)
    ensures r <==> b as int < 0x80
  {
    Signed8(b) >= 0
  }

  /** isTwoBytes (one-byte already excluded): below (byte) 0xE0. */
  function IsTwoBytes(b: bv8): (r: bool)
    ensures r <==> 0x80 <= b as int < 0xE0
  {
    Signed8(b) < JByte(0xE0)
  }

  /** isThreeBytes (two-byte already excluded): below (byte) 0xF0. */
  function IsThreeBytes(b: bv8): (r: bool)
    ensures r <==> 0x80 <= b as int < 0xF0
  {
    Signed8(b) < JByte(0xF0)
  }

  /** isNotTrailingByte: above (byte) 0xBF, that is, not of the form 10xxxxxx. */
  function IsNotTrailingByte(b: bv8): (r: bool)
    ensures r <==> !(0x80 <= b as int <= 0xBF)
  {
    Signed8(b) > JByte(0xBF)
  }

  /** trailingByteValue: the six payload bits of a trailing byte. */
  function TrailingByteValue(b: bv8): (v: int)
    ensures 0 <= v < 0x40
  {
    b as int % 0x40
  }

  /** The bytes of one sequence, by its lead byte: 1, 2, 3 or 4. */
  function SequenceLength(b1: bv8): (n: nat)
    ensures 1 <= n <= 4
  {
    if IsOneByte(b1) then 1 else if IsTwoBytes(b1) then 2 else if IsThreeBytes(b1) then 3 else 4
  }

  /** The chars one sequence decodes to, by its lead byte: two for a four-byte sequence. */
  function CharCount(b1: bv8): (n: nat)
  {
    if SequenceLength(b1) == 4 then 2 else 1
  }

  /**
   * The plane test of handleFourBytes in Java int arithmetic:
   * (((byte1 << 28) + (byte2 - (byte) 0x90)) >> 30) != 0.
   */
  function FourBytesOutOfRange(b1: bv8, b2: bv8): (r: bool)
  {
    WrapInt(WrapInt(Signed8(b1) * 0x1000_0000) + (Signed8(b2) - JByte(0x90))) / 0x4000_0000 != 0
  }

  /**
   * The plane test, for a lead byte of a four-byte sequence and a trailing byte, is the
   * table of section 4 of RFC 3629: F0 needs 90..BF next, F1..F3 anything, F4 80..8F,
   * and F5..FF nothing.
   */
  lemma FourBytesPlanes(b1: bv8, b2: bv8)
    requires 0xF0 <= b1 as int && 0x80 <= b2 as int <= 0xBF
    ensures !FourBytesOutOfRange(b1, b2) <==>
              (b1 == 0xF0 && b2 as int >= 0x90) || (0xF1 <= b1 as int <= 0xF3)
              || (b1 == 0xF4 && b2 as int < 0x90)
  {
    var k, t := b1 as int - 0xF0, b2 as int - 0x80;
    assert Signed8(b1) == k - 16 && Signed8(b2) == t - 128;
    assert JByte(0x90) == -112;
    if k < 8 {
      PlaneSumLow(k, t);
    } else {
      PlaneSumHigh(k, t);
    }
  }

  /** The plane test's sum for lead bytes F0..F7: the shift wraps to k << 28, the sum does not. */
  lemma PlaneSumLow(k: int, t: int)
    requires 0 <= k < 8 && 0 <= t < 0x40
    ensures var sum := WrapInt(WrapInt((k - 16) * 0x1000_0000) + (t - 128 + 112));
            sum / 0x4000_0000 == 0 <==> (k == 0 && t >= 0x10) || (1 <= k <= 3) || (k == 4 && t < 0x10)
  {
    var x := (k - 16) * 0x1000_0000;
    assert WrapInt(x) == k * 0x1000_0000 by {
      assert MIN_INT <= x + 0x1_0000_0000 <= MAX_INT;
    }
    var sum := k * 0x1000_0000 + (t - 16);
    assert WrapInt(sum) == sum;
  }

  /** The plane test's sum for lead bytes F8..FF is negative, or wraps to a large positive value. */
  lemma PlaneSumHigh(k: int, t: int)
    requires 8 <= k < 16 && 0 <= t < 0x40
    ensures WrapInt(WrapInt((k - 16) * 0x1000_0000) + (t - 128 + 112)) / 0x4000_0000 != 0
  {
    var x := (k - 16) * 0x1000_0000;
    assert WrapInt(x) == x;
    var sum := x + (t - 16);
    if k == 8 && t < 16 {
      assert WrapInt(sum) == sum + 0x1_0000_0000;
    } else {
      assert WrapInt(sum) == sum;
    }
  }

  /** The validity test of handleTwoBytes: an overlong lead byte, or a missing trailing byte. */
  function IllegalTwo(b1: bv8, b2: bv8): (r: bool)
  {
    Signed8(b1) < JByte(0xC2) || IsNotTrailingByte(b2)
  }

  /** The validity test of handleThreeBytes: overlong forms after E0, surrogates after ED. */
  function IllegalThree(b1: bv8, b2: bv8, b3: bv8): (r: bool)
  {
    IsNotTrailingByte(b2)
    || (Signed8(b1) == JByte(0xE0) && Signed8(b2) < JByte(0xA0))
    || (Signed8(b1) == JByte(0xED) && Signed8(b2) >= JByte(0xA0))
    || IsNotTrailingByte(b3)
  }

  /** The validity test of handleFourBytes. */
  function IllegalFour(b1: bv8, b2: bv8, b3: bv8, b4: bv8): (r: bool)
  {
    IsNotTrailingByte(b2) || FourBytesOutOfRange(b1, b2) || IsNotTrailingByte(b3) || IsNotTrailingByte(b4)
  }

  /** The validity tests of handleTwoBytes, handleThreeBytes and handleFourBytes. */
  function IllegalSequence(x: seq<bv8>): (r: bool)
    requires 1 <= |x| && |x| == SequenceLength(x[0])
  {
    match |x|
    case 1 => false
    case 2 => IllegalTwo(x[0], x[1])
    case 3 => IllegalThree(x[0], x[1], x[2])
    case 4 => IllegalFour(x[0], x[1], x[2], x[3])
  }

  /** The well-formed byte sequences of section 4 of RFC 3629, one to four bytes long. */
  predicate Rfc3629Sequence(x: seq<bv8>)
  {
    var tail := (i: int) requires 0 <= i < |x| => 0x80 <= x[i] as int <= 0xBF;
    (|x| == 1 && x[0] as int <= 0x7F)
    || (|x| == 2 && 0xC2 <= x[0] as int <= 0xDF && tail(1))
    || (|x| == 3 && tail(2) && (
         (x[0] == 0xE0 && 0xA0 <= x[1] as int <= 0xBF)
         || ((0xE1 <= x[0] as int <= 0xEC || 0xEE <= x[0] as int <= 0xEF) && tail(1))
         || (x[0] == 0xED && 0x80 <= x[1] as int <= 0x9F)))
    || (|x| == 4 && tail(2) && tail(3) && (
         (x[0] == 0xF0 && 0x90 <= x[1] as int <= 0xBF)
         || (0xF1 <= x[0] as int <= 0xF3 && tail(1))
         || (x[0] == 0xF4 && 0x80 <= x[1] as int <= 0x8F)))
  }

  /** The source rejects a complete sequence exactly when RFC 3629 does. */
  lemma IllegalSequenceIsRfc3629(x: seq<bv8>)
    requires 1 <= |x| && |x| == SequenceLength(x[0])
    ensures !IllegalSequence(x) <==> Rfc3629Sequence(x)
  {
    if |x| == 4 && !IsNotTrailingByte(x[1]) {
      FourBytesPlanes(x[0], x[1]);
    }
  }

  /** The char of a two-byte sequence: five bits of the lead byte, six of the trailing one. */
  function CharOfTwo(b1: bv8, b2: bv8): (c: int)
  {
    (b1 as int % 0x20) * 0x40 + TrailingByteValue(b2)
  }

  /** The char of a three-byte sequence: four bits of the lead byte, then six and six. */
  function CharOfThree(b1: bv8, b2: bv8, b3: bv8): (c: int)
  {
    (b1 as int % 0x10) * 0x1000 + TrailingByteValue(b2) * 0x40 + TrailingByteValue(b3)
  }

  /** The code point of a four-byte sequence: three bits of the lead byte, then three groups of six. */
  function CodePointOfFour(b1: bv8, b2: bv8, b3: bv8, b4: bv8): (cp: int)
  {
    (b1 as int % 0x8) * 0x4_0000 + TrailingByteValue(b2) * 0x1000
    + TrailingByteValue(b3) * 0x40 + TrailingByteValue(b4)
  }

  /** The chars a complete, legal sequence decodes to. */
  function SequenceChars(x: seq<bv8>): (cs: seq<JChar>)
    requires 1 <= |x| && |x| == SequenceLength(x[0]) && !IllegalSequence(x)
    ensures |cs| == CharCount(x[0])
  {
    match |x|
    case 1 => [x[0] as int]
    case 2 => [CharOfTwo(x[0], x[1])]
    case 3 => [CharOfThree(x[0], x[1], x[2])]
    case 4 =>
      var cp := CodePointOfFour(x[0], x[1], x[2], x[3]);
      [HighSurrogate(cp), LowSurrogate(cp)]
  }

  /** What a decoding call leaves behind: the chars appended, and how it ended. */
  datatype Decoded = Decoded(chars: seq<JChar>, outcome: Outcome)

  function PrependChars(cs: seq<JChar>, d: Decoded): (r: Decoded)
  {
    Decoded(cs + d.chars, d.outcome)
  }

  /**
   * Decoding b into an Appendable (getNonAsciiCharsFromUtf8): sequence by sequence, a
   * sequence cut off by the end of the input throws shortUtf8DecodeByteSequence, an
   * illegal one illegalUtf8DecodeByteSequence; the chars appended before stay appended.
   */
  function DecodeUtf8(b: seq<bv8>): (d: Decoded)
    ensures |d.chars| <= |b|
    decreases |b|
  {
    if |b| == 0 then Decoded([], Pass)
    else
      var n := SequenceLength(b[0]);
      if |b| < n then Decoded([], Fail(Utf8Coding(ShortUtf8DecodeByteSequence)))
      else if IllegalSequence(b[..n]) then Decoded([], Fail(Utf8Coding(IllegalUtf8DecodeByteSequence)))
      else PrependChars(SequenceChars(b[..n]), DecodeUtf8(b[n..]))
  }

  /**
   * Decoding b into a char array with room chars left (getCharBufferNonAsciiCharsFromUtf8):
   * as DecodeUtf8, but a sequence whose chars do not fit throws BufferOverflowException,
   * tested after the cut-off test and before the validity test.
   */
  function DecodeBounded(b: seq<bv8>, room: int): (d: Decoded)
    ensures |d.chars| <= (if room < 0 then 0 else room)
    decreases |b|
  {
    if |b| == 0 then Decoded([], Pass)
    else
      var n := SequenceLength(b[0]);
      if |b| < n then Decoded([], Fail(Utf8Coding(ShortUtf8DecodeByteSequence)))
      else if room < CharCount(b[0]) then Decoded([], Fail(BufferOverflow))
      else if IllegalSequence(b[..n]) then Decoded([], Fail(Utf8Coding(IllegalUtf8DecodeByteSequence)))
      else PrependChars(SequenceChars(b[..n]), DecodeBounded(b[n..], room - CharCount(b[0])))
  }

  /**
   * With room for every char of a successful decoding, or for as many chars as there
   * are bytes, the bounded decoding is the unbounded one.
   */
  lemma {:induction false} DecodeBoundedWithRoom(b: seq<bv8>, room: int)
    requires (DecodeUtf8(b).outcome == Pass && |DecodeUtf8(b).chars| <= room) || |b| <= room
    ensures DecodeBounded(b, room) == DecodeUtf8(b)
    decreases |b|
  {
    if |b| > 0 {
      var n := SequenceLength(b[0]);
      if |b| >= n && !IllegalSequence(b[..n]) {
        DecodeBoundedWithRoom(b[n..], room - CharCount(b[0]));
      }
    }
  }

  /** The bounded decoding appends a prefix of what the unbounded one appends. */
  lemma {:induction false} DecodeBoundedPrefix(b: seq<bv8>, room: int)
    ensures DecodeBounded(b, room).chars <= DecodeUtf8(b).chars
    ensures DecodeBounded(b, room).outcome == Pass ==> DecodeBounded(b, room) == DecodeUtf8(b)
    decreases |b|
  {
    if |b| > 0 {
      var n := SequenceLength(b[0]);
      if |b| >= n && room >= CharCount(b[0]) && !IllegalSequence(b[..n]) {
        DecodeBoundedPrefix(b[n..], room - CharCount(b[0]));
      }
    }
  }

  // ---------------------------------------------------------------------------------
  // Round trips

  /** The byte of a char below U+0080 is a legal one-byte sequence that decodes to it. */
  lemma OneByteDecodes(c: JChar)
    requires c < 0x80
    ensures var x := OneByte(c);
            SequenceLength(x[0]) == 1 && !IllegalSequence(x) && SequenceChars(x) == [c]
  {
  }

  /** v / m and v % m for a constant divisor m, from a quotient and remainder in range. */
  lemma DivMod64(v: int, q: int, r: int)
    requires 0 <= r < 0x40 && v == 0x40 * q + r
    ensures v / 0x40 == q && v % 0x40 == r
  {
  }

  lemma DivMod256(v: int, q: int, r: int)
    requires 0 <= r < 0x100 && v == 0x100 * q + r
    ensures v / 0x100 == q && v % 0x100 == r
  {
  }

  lemma DivMod4096(v: int, q: int, r: int)
    requires 0 <= r < 0x1000 && v == 0x1000 * q + r
    ensures v / 0x1000 == q && v % 0x1000 == r
  {
  }

  lemma DivMod2p18(v: int, q: int, r: int)
    requires 0 <= r < 0x4_0000 && v == 0x4_0000 * q + r
    ensures v / 0x4_0000 == q && v % 0x4_0000 == r
  {
  }

  /** A two-byte sequence is legal, and decodes, by the tests on its two bytes. */
  lemma SequenceOfTwo(x: seq<bv8>)
    requires |x| == 2 && SequenceLength(x[0]) == 2 && !IllegalTwo(x[0], x[1])
    ensures !IllegalSequence(x) && SequenceChars(x) == [CharOfTwo(x[0], x[1])]
  {
  }

  /** A three-byte sequence is legal, and decodes, by the tests on its three bytes. */
  lemma SequenceOfThree(x: seq<bv8>)
    requires |x| == 3 && SequenceLength(x[0]) == 3 && !IllegalThree(x[0], x[1], x[2])
    ensures !IllegalSequence(x) && SequenceChars(x) == [CharOfThree(x[0], x[1], x[2])]
  {
  }

  /** A four-byte sequence is legal, and decodes, by the tests on its four bytes. */
  lemma SequenceOfFour(x: seq<bv8>)
    requires |x| == 4 && SequenceLength(x[0]) == 4 && !IllegalFour(x[0], x[1], x[2], x[3])
    ensures var cp := CodePointOfFour(x[0], x[1], x[2], x[3]);
            0 <= cp < 0x20_0000 && !IllegalSequence(x) && SequenceChars(x) == [HighSurrogate(cp), LowSurrogate(cp)]
  {
  }

  /** A lead byte 110qqqqq with q >= 2 and a trailing byte 10rrrrrr decode to q * 64 + r. */
  lemma TwoByteSequence(b1: bv8, b2: bv8, q: int, r: int)
    requires 2 <= q < 0x20 && 0 <= r < 0x40
    requires b1 as int == 0xC0 + q && b2 as int == 0x80 + r
    ensures SequenceLength(b1) == 2 && !IllegalTwo(b1, b2) && CharOfTwo(b1, b2) == q * 0x40 + r
  {
    DivMod64(b2 as int, 2, r);
  }

  /** A lead byte 1110qqqq and trailing bytes 10rrrrrr 10dddddd, neither overlong nor a surrogate, decode to their bits. */
  lemma ThreeByteSequence(b1: bv8, b2: bv8, b3: bv8, q: int, r: int, d: int)
    requires 0 <= q < 0x10 && 0 <= r < 0x40 && 0 <= d < 0x40
    requires b1 as int == 0xE0 + q && b2 as int == 0x80 + r && b3 as int == 0x80 + d
    requires (q == 0 ==> r >= 0x20) && (q == 0xD ==> r < 0x20)
    ensures SequenceLength(b1) == 3 && !IllegalThree(b1, b2, b3)
    ensures CharOfThree(b1, b2, b3) == q * 0x1000 + r * 0x40 + d
  {
    DivMod64(b2 as int, 2, r);
    DivMod64(b3 as int, 2, d);
  }

  /** A lead byte 11110ppp and three trailing bytes of a plane from 1 to 16 decode to their bits. */
  lemma FourByteSequence(b1: bv8, b2: bv8, b3: bv8, b4: bv8, p: int, a: int, b: int, d: int)
    requires 0 <= p <= 4 && 0 <= a < 0x40 && 0 <= b < 0x40 && 0 <= d < 0x40
    requires b1 as int == 0xF0 + p && b2 as int == 0x80 + a
    requires b3 as int == 0x80 + b && b4 as int == 0x80 + d
    requires (p == 0 ==> a >= 0x10) && (p == 4 ==> a < 0x10)
    ensures SequenceLength(b1) == 4 && !IllegalFour(b1, b2, b3, b4)
    ensures CodePointOfFour(b1, b2, b3, b4) == p * 0x4_0000 + a * 0x1000 + b * 0x40 + d
  {
    FourBytesPlanes(b1, b2);
    DivMod64(b2 as int, 2, a);
    DivMod64(b3 as int, 2, b);
    DivMod64(b4 as int, 2, d);
  }

  /** The six-bit groups of a value below 2^18, most significant first. */
  lemma Digits3(v: int) returns (q: int, r: int, d: int)
    requires 0 <= v < 0x4_0000
    ensures 0 <= q < 0x40 && 0 <= r < 0x40 && 0 <= d < 0x40
    ensures v == q * 0x1000 + r * 0x40 + d
    ensures v / 0x1000 == q && v / 0x40 % 0x40 == r && v % 0x40 == d
  {
    q := v / 0x1000;
    var rem := v % 0x1000;
    r, d := rem / 0x40, rem % 0x40;
    DivMod64(v, q * 0x40 + r, d);
    DivMod64(q * 0x40 + r, q, r);
  }

  /** The groups of a value below 2^21: three bits, then three groups of six. */
  lemma Digits4(v: int) returns (p: int, a: int, b: int, d: int)
    requires 0 <= v < 0x20_0000
    ensures 0 <= p < 8 && 0 <= a < 0x40 && 0 <= b < 0x40 && 0 <= d < 0x40
    ensures v == p * 0x4_0000 + a * 0x1000 + b * 0x40 + d
    ensures v / 0x4_0000 == p && v / 0x1000 % 0x40 == a && v / 0x40 % 0x40 == b && v % 0x40 == d
  {
    p := v / 0x4_0000;
    var rem := v % 0x4_0000;
    a, b, d := Digits3(rem);
    DivMod4096(v, p * 0x40 + a, b * 0x40 + d);
    DivMod64(p * 0x40 + a, p, a);
    DivMod64(v, (p * 0x40 + a) * 0x40 + b, d);
    DivMod64((p * 0x40 + a) * 0x40 + b, p * 0x40 + a, b);
  }

  /** The bytes TwoBytes writes for c == q * 64 + r. */
  lemma TwoBytesOf(c: JChar, q: int, r: int)
    requires 2 <= q < 0x20 && 0 <= r < 0x40 && c == q * 0x40 + r
    ensures var x := TwoBytes(c);
            x[0] as int == 0xC0 + q && x[1] as int == 0x80 + r
  {
    DivMod64(c, q, r);
    DivMod256(0x3C0 + q, 3, 0xC0 + q);
    DivMod256(0x80 + r, 0, 0x80 + r);
  }

  /** The bytes of a char from U+0080 to U+07FF are a legal two-byte sequence that decodes to it. */
  lemma TwoBytesDecode(c: JChar)
    requires 0x80 <= c < 0x800
    ensures var x := TwoBytes(c);
            SequenceLength(x[0]) == 2 && !IllegalSequence(x) && SequenceChars(x) == [c]
  {
    var q, r := c / 0x40, c % 0x40;
    TwoBytesOf(c, q, r);
    var x := TwoBytes(c);
    TwoByteSequence(x[0], x[1], q, r);
    SequenceOfTwo(x);
  }

  /** The bytes of ThreeBytes(c) carry the three groups of c's bits. */
  lemma ThreeBytesOf(c: JChar) returns (q: int, r: int, d: int)
    requires 0x800 <= c
    ensures 0 <= q < 0x10 && 0 <= r < 0x40 && 0 <= d < 0x40
    ensures c == q * 0x1000 + r * 0x40 + d && (q == 0 ==> r >= 0x20)
    ensures var x := ThreeBytes(c);
            x[0] as int == 0xE0 + q && x[1] as int == 0x80 + r && x[2] as int == 0x80 + d
  {
    q, r, d := Digits3(c);
    DivMod256(0x1E0 + q, 1, 0xE0 + q);
    DivMod256(0x80 + r, 0, 0x80 + r);
    DivMod256(0x80 + d, 0, 0x80 + d);
  }

  /** The bytes of a char from U+0800 outside the surrogates are a legal three-byte sequence that decodes to it. */
  lemma ThreeBytesDecode(c: JChar)
    requires 0x800 <= c && !IsSurrogate(c)
    ensures var x := ThreeBytes(c);
            SequenceLength(x[0]) == 3 && !IllegalSequence(x) && SequenceChars(x) == [c]
  {
    var q, r, d := ThreeBytesOf(c);
    var x := ThreeBytes(c);
    ThreeByteSequence(x[0], x[1], x[2], q, r, d);
    SequenceOfThree(x);
  }

  /** The bytes of FourBytes(cp) carry the four groups of cp's bits, in a plane from 1 to 16. */
  lemma FourBytesOf(cp: int) returns (p: int, a: int, b: int, d: int)
    requires MIN_SUPPLEMENTARY_CODE_POINT <= cp <= 0x10FFFF
    ensures 0 <= p <= 4 && 0 <= a < 0x40 && 0 <= b < 0x40 && 0 <= d < 0x40
    ensures cp == p * 0x4_0000 + a * 0x1000 + b * 0x40 + d
    ensures (p == 0 ==> a >= 0x10) && (p == 4 ==> a < 0x10)
    ensures var x := FourBytes(cp);
            x[0] as int == 0xF0 + p && x[1] as int == 0x80 + a
            && x[2] as int == 0x80 + b && x[3] as int == 0x80 + d
  {
    p, a, b, d := Digits4(cp);
    DivMod256(0xF0 + p, 0, 0xF0 + p);
    DivMod256(0x80 + a, 0, 0x80 + a);
    DivMod256(0x80 + b, 0, 0x80 + b);
    DivMod256(0x80 + d, 0, 0x80 + d);
  }

  /** The bytes of a surrogate pair's code point are a legal four-byte sequence that decodes to the pair. */
  lemma FourBytesDecode(high: JChar, low: JChar)
    requires IsSurrogatePair(high, low)
    ensures var x := FourBytes(ToCodePoint(high, low));
            SequenceLength(x[0]) == 4 && !IllegalSequence(x) && SequenceChars(x) == [high, low]
  {
    var cp := ToCodePoint(high, low);
    var p, a, b, d := FourBytesOf(cp);
    var x := FourBytes(cp);
    FourByteSequence(x[0], x[1], x[2], x[3], p, a, b, d);
    SequenceOfFour(x);
    SurrogatesOfCodePoint(high, low);
  }


  /** A complete, legal sequence followed by any bytes decodes to its chars and then to what the rest decodes to. */
  lemma SequenceDecodes(x: seq<bv8>, rest: seq<bv8>)
    requires 1 <= |x| && |x| == SequenceLength(x[0]) && !IllegalSequence(x)
    ensures DecodeUtf8(x + rest) == PrependChars(SequenceChars(x), DecodeUtf8(rest))
  {
    var b := x + rest;
    assert b[0] == x[0] && b[..|x|] == x && b[|x|..] == rest;
  }

  /** The bytes of one branch, followed by any bytes, decode to the chars the branch consumed and then to what the rest decodes to. */
  lemma BranchDecodes(s: seq<JChar>, room: int, rest: seq<bv8>)
    requires |s| >= 1 && EncodeBranch(s, room) > 0
    ensures var k := EncodeBranch(s, room);
            DecodeUtf8(BranchBytes(s, k) + rest) == PrependChars(s[..Consumed(k)], DecodeUtf8(rest))
  {
    var k := EncodeBranch(s, room);
    var x := BranchBytes(s, k);
    if k == 1 {
      OneByteDecodes(s[0]);
      assert s[..1] == [s[0]];
    } else if k == 2 {
      TwoBytesDecode(s[0]);
      assert s[..1] == [s[0]];
    } else if k == 3 {
      ThreeBytesDecode(s[0]);
      assert s[..1] == [s[0]];
    } else {
      FourBytesDecode(s[0], s[1]);
      assert s[..2] == [s[0], s[1]];
    }
    SequenceDecodes(x, rest);
  }

  /** One step of the encoding: the first branch throws, or writes and leaves the encoding of the chars after it. */
  lemma EncodeStep(s: seq<JChar>, room: int) returns (k: nat, c: nat)
    requires |s| >= 1
    ensures k == EncodeBranch(s, room) && c == Consumed(k)
    ensures k == 0 ==> EncodeUtf8(s, room) == Encoded([], Fail(EncodeFailure(s[0], s, room)))
    ensures k > 0 ==> c <= |s| && EncodeUtf8(s, room) == PrependBytes(BranchBytes(s, k), EncodeUtf8(s[c..], room - k))
  {
    k := EncodeBranch(s, room);
    c := Consumed(k);
  }

  /** Decoding what one successful encoding step wrote gives the chars it consumed, then the rest. */
  lemma EncodeStepDecodes(s: seq<JChar>, room: int) returns (k: nat, c: nat)
    requires |s| >= 1 && EncodeUtf8(s, room).outcome == Pass
    ensures k == EncodeBranch(s, room) && 0 < k && c == Consumed(k) <= |s|
    ensures EncodeUtf8(s[c..], room - k).outcome == Pass
    ensures DecodeUtf8(EncodeUtf8(s, room).bytes) == PrependChars(s[..c], DecodeUtf8(EncodeUtf8(s[c..], room - k).bytes))
  {
    k, c := EncodeStep(s, room);
    BranchDecodes(s, room, EncodeUtf8(s[c..], room - k).bytes);
  }

  /** Chars s[..c] before a successful decoding of s[c..] are a successful decoding of s. */
  lemma PrependSplit(s: seq<JChar>, c: nat, whole: Decoded, tail: Decoded)
    requires c <= |s| && tail == Decoded(s[c..], Pass) && whole == PrependChars(s[..c], tail)
    ensures whole == Decoded(s, Pass)
  {
    assert s[..c] + s[c..] == s;
  }

  /** Decoding what a successful encoding wrote gives the text back. */
  lemma {:induction false} EncodeDecode(s: seq<JChar>, room: int)
    requires EncodeUtf8(s, room).outcome == Pass
    ensures DecodeUtf8(EncodeUtf8(s, room).bytes) == Decoded(s, Pass)
    decreases |s|
  {
    if |s| > 0 {
      var k, c := EncodeStepDecodes(s, room);
      EncodeDecode(s[c..], room - k);
      PrependSplit(s, c, DecodeUtf8(EncodeUtf8(s, room).bytes), DecodeUtf8(EncodeUtf8(s[c..], room - k).bytes));
    }
  }

  /** Bytes with the same value are the same byte. */
  lemma SameByte(x: bv8, y: bv8)
    requires x as int == y as int
    ensures x == y
  {
  }

  /** v / 32 and v % 32, from a quotient and remainder in range. */
  lemma DivMod32(v: int, q: int, r: int)
    requires 0 <= r < 0x20 && v == 0x20 * q + r
    ensures v / 0x20 == q && v % 0x20 == r
  {
  }

  /** v / 16 and v % 16, from a quotient and remainder in range. */
  lemma DivMod16(v: int, q: int, r: int)
    requires 0 <= r < 0x10 && v == 0x10 * q + r
    ensures v / 0x10 == q && v % 0x10 == r
  {
  }

  /** v / 8 and v % 8, from a quotient and remainder in range. */
  lemma DivMod8(v: int, q: int, r: int)
    requires 0 <= r < 8 && v == 8 * q + r
    ensures v / 8 == q && v % 8 == r
  {
  }

  /** The six-bit groups of a value are unique. */
  lemma DigitsUnique3(v: int, q: int, r: int, d: int, q': int, r': int, d': int)
    requires 0 <= r < 0x40 && 0 <= d < 0x40 && 0 <= r' < 0x40 && 0 <= d' < 0x40
    requires v == q * 0x1000 + r * 0x40 + d && v == q' * 0x1000 + r' * 0x40 + d'
    ensures q == q' && r == r' && d == d'
  {
    DivMod64(v, q * 0x40 + r, d);
    DivMod64(v, q' * 0x40 + r', d');
    DivMod64(q * 0x40 + r, q, r);
    DivMod64(q' * 0x40 + r', q', r');
  }

  /** The groups of a value, three bits and then three of six, are unique. */
  lemma DigitsUnique4(v: int, p: int, a: int, b: int, d: int, p': int, a': int, b': int, d': int)
    requires 0 <= a < 0x40 && 0 <= b < 0x40 && 0 <= d < 0x40
    requires 0 <= a' < 0x40 && 0 <= b' < 0x40 && 0 <= d' < 0x40
    requires v == p * 0x4_0000 + a * 0x1000 + b * 0x40 + d
    requires v == p' * 0x4_0000 + a' * 0x1000 + b' * 0x40 + d'
    ensures p == p' && a == a' && b == b' && d == d'
  {
    DivMod64(v, p * 0x1000 + a * 0x40 + b, d);
    DivMod64(v, p' * 0x1000 + a' * 0x40 + b', d');
    DigitsUnique3(p * 0x1000 + a * 0x40 + b, p, a, b, p', a', b');
  }

  /** Two bytes with the values of b1 and b2 are the sequence [b1, b2]. */
  lemma SameTwo(x: seq<bv8>, b1: bv8, b2: bv8)
    requires |x| == 2 && x[0] as int == b1 as int && x[1] as int == b2 as int
    ensures x == [b1, b2]
  {
    SameByte(x[0], b1);
    SameByte(x[1], b2);
  }

  lemma SameThree(x: seq<bv8>, b1: bv8, b2: bv8, b3: bv8)
    requires |x| == 3 && x[0] as int == b1 as int && x[1] as int == b2 as int && x[2] as int == b3 as int
    ensures x == [b1, b2, b3]
  {
    SameByte(x[0], b1);
    SameByte(x[1], b2);
    SameByte(x[2], b3);
  }

  lemma SameFour(x: seq<bv8>, b1: bv8, b2: bv8, b3: bv8, b4: bv8)
    requires |x| == 4 && x[0] as int == b1 as int && x[1] as int == b2 as int
    requires x[2] as int == b3 as int && x[3] as int == b4 as int
    ensures x == [b1, b2, b3, b4]
  {
    SameByte(x[0], b1);
    SameByte(x[1], b2);
    SameByte(x[2], b3);
    SameByte(x[3], b4);
  }

  /** The source accepts a two-byte sequence with lead byte C2..DF and a trailing byte. */
  lemma LegalTwo(b1: bv8, b2: bv8)
    requires SequenceLength(b1) == 2 && !IllegalTwo(b1, b2)
    ensures 0xC2 <= b1 as int <= 0xDF && 0x80 <= b2 as int <= 0xBF
  {
  }

  /** The source accepts a three-byte sequence with lead byte E0..EF, no overlong form and no surrogate. */
  lemma LegalThree(b1: bv8, b2: bv8, b3: bv8)
    requires SequenceLength(b1) == 3 && !IllegalThree(b1, b2, b3)
    ensures 0xE0 <= b1 as int <= 0xEF && 0x80 <= b2 as int <= 0xBF && 0x80 <= b3 as int <= 0xBF
    ensures (b1 as int == 0xE0 ==> b2 as int >= 0xA0) && (b1 as int == 0xED ==> b2 as int < 0xA0)
  {
  }

  /** The source accepts a four-byte sequence of planes 1 to 16 only. */
  lemma LegalFour(b1: bv8, b2: bv8, b3: bv8, b4: bv8)
    requires SequenceLength(b1) == 4 && !IllegalFour(b1, b2, b3, b4)
    ensures 0xF0 <= b1 as int <= 0xF4 && 0x80 <= b2 as int <= 0xBF
    ensures 0x80 <= b3 as int <= 0xBF && 0x80 <= b4 as int <= 0xBF
    ensures (b1 as int == 0xF0 ==> b2 as int >= 0x90) && (b1 as int == 0xF4 ==> b2 as int < 0x90)
  {
    FourBytesPlanes(b1, b2);
  }

  /** The char of a legal two-byte sequence: the lead byte's five bits, then the trailing byte's six. */
  lemma TwoByteChar(b1: bv8, b2: bv8)
    requires 0xC2 <= b1 as int <= 0xDF && 0x80 <= b2 as int <= 0xBF
    ensures CharOfTwo(b1, b2) == (b1 as int - 0xC0) * 0x40 + (b2 as int - 0x80)
    ensures 0x80 <= CharOfTwo(b1, b2) < 0x800
  {
    DivMod32(b1 as int, 6, b1 as int - 0xC0);
    DivMod64(b2 as int, 2, b2 as int - 0x80);
  }

  /** The char of a legal three-byte sequence: four bits, then six and six. */
  lemma ThreeByteChar(b1: bv8, b2: bv8, b3: bv8)
    requires 0xE0 <= b1 as int <= 0xEF && 0x80 <= b2 as int <= 0xBF && 0x80 <= b3 as int <= 0xBF
    requires (b1 as int == 0xE0 ==> b2 as int >= 0xA0) && (b1 as int == 0xED ==> b2 as int < 0xA0)
    ensures CharOfThree(b1, b2, b3) == (b1 as int - 0xE0) * 0x1000 + (b2 as int - 0x80) * 0x40 + (b3 as int - 0x80)
    ensures 0x800 <= CharOfThree(b1, b2, b3) <= 0xFFFF && !IsSurrogate(CharOfThree(b1, b2, b3))
  {
    DivMod16(b1 as int, 14, b1 as int - 0xE0);
    DivMod64(b2 as int, 2, b2 as int - 0x80);
    DivMod64(b3 as int, 2, b3 as int - 0x80);
  }

  /** The code point of a legal four-byte sequence: three bits, then three groups of six. */
  lemma FourByteCodePoint(b1: bv8, b2: bv8, b3: bv8, b4: bv8)
    requires 0xF0 <= b1 as int <= 0xF4 && 0x80 <= b2 as int <= 0xBF
    requires 0x80 <= b3 as int <= 0xBF && 0x80 <= b4 as int <= 0xBF
    requires (b1 as int == 0xF0 ==> b2 as int >= 0x90) && (b1 as int == 0xF4 ==> b2 as int < 0x90)
    ensures CodePointOfFour(b1, b2, b3, b4)
            == (b1 as int - 0xF0) * 0x4_0000 + (b2 as int - 0x80) * 0x1000 + (b3 as int - 0x80) * 0x40 + (b4 as int - 0x80)
    ensures MIN_SUPPLEMENTARY_CODE_POINT <= CodePointOfFour(b1, b2, b3, b4) <= 0x10FFFF
  {
    DivMod8(b1 as int, 30, b1 as int - 0xF0);
    DivMod64(b2 as int, 2, b2 as int - 0x80);
    DivMod64(b3 as int, 2, b3 as int - 0x80);
    DivMod64(b4 as int, 2, b4 as int - 0x80);
  }

  /** TwoBytes writes b1 b2 for the char they carry. */
  lemma TwoBytesAre(c: JChar, b1: bv8, b2: bv8)
    requires 0xC2 <= b1 as int <= 0xDF && 0x80 <= b2 as int <= 0xBF
    requires c == (b1 as int - 0xC0) * 0x40 + (b2 as int - 0x80)
    ensures TwoBytes(c) == [b1, b2]
  {
    var q, r := b1 as int - 0xC0, b2 as int - 0x80;
    TwoBytesOf(c, q, r);
    SameTwo(TwoBytes(c), b1, b2);
  }

  /** ThreeBytes writes b1 b2 b3 for the char they carry. */
  lemma ThreeBytesAre(c: JChar, b1: bv8, b2: bv8, b3: bv8)
    requires 0xE0 <= b1 as int <= 0xEF && 0x80 <= b2 as int <= 0xBF && 0x80 <= b3 as int <= 0xBF
    requires c == (b1 as int - 0xE0) * 0x1000 + (b2 as int - 0x80) * 0x40 + (b3 as int - 0x80) && 0x800 <= c
    ensures ThreeBytes(c) == [b1, b2, b3]
  {
    var q, r, d := ThreeBytesOf(c);
    DigitsUnique3(c, b1 as int - 0xE0, b2 as int - 0x80, b3 as int - 0x80, q, r, d);
    SameThree(ThreeBytes(c), b1, b2, b3);
  }

  /** FourBytes writes b1 b2 b3 b4 for the code point they carry. */
  lemma FourBytesAre(cp: int, b1: bv8, b2: bv8, b3: bv8, b4: bv8)
    requires 0xF0 <= b1 as int <= 0xF4 && 0x80 <= b2 as int <= 0xBF
    requires 0x80 <= b3 as int <= 0xBF && 0x80 <= b4 as int <= 0xBF
    requires cp == (b1 as int - 0xF0) * 0x4_0000 + (b2 as int - 0x80) * 0x1000 + (b3 as int - 0x80) * 0x40 + (b4 as int - 0x80)
    requires MIN_SUPPLEMENTARY_CODE_POINT <= cp <= 0x10FFFF
    ensures FourBytes(cp) == [b1, b2, b3, b4]
  {
    var p, a, b, d := FourBytesOf(cp);
    DigitsUnique4(cp, b1 as int - 0xF0, b2 as int - 0x80, b3 as int - 0x80, b4 as int - 0x80, p, a, b, d);
    SameFour(FourBytes(cp), b1, b2, b3, b4);
  }

  /** A legal two-byte sequence is what putCharsToUtf8 writes for the char it decodes to. */
  lemma TwoByteInverse(b1: bv8, b2: bv8)
    requires SequenceLength(b1) == 2 && !IllegalTwo(b1, b2)
    ensures var c := CharOfTwo(b1, b2);
            0x80 <= c < 0x800 && TwoBytes(c) == [b1, b2]
  {
    LegalTwo(b1, b2);
    TwoByteChar(b1, b2);
    TwoBytesAre(CharOfTwo(b1, b2), b1, b2);
  }

  /** A legal three-byte sequence is what putCharsToUtf8 writes for the char it decodes to. */
  lemma ThreeByteInverse(b1: bv8, b2: bv8, b3: bv8)
    requires SequenceLength(b1) == 3 && !IllegalThree(b1, b2, b3)
    ensures var c := CharOfThree(b1, b2, b3);
            0x800 <= c <= 0xFFFF && !IsSurrogate(c) && ThreeBytes(c) == [b1, b2, b3]
  {
    LegalThree(b1, b2, b3);
    ThreeByteChar(b1, b2, b3);
    ThreeBytesAre(CharOfThree(b1, b2, b3), b1, b2, b3);
  }

  /** A legal four-byte sequence is what putCharsToUtf8 writes for the pair it decodes to. */
  lemma FourByteInverse(b1: bv8, b2: bv8, b3: bv8, b4: bv8)
    requires SequenceLength(b1) == 4 && !IllegalFour(b1, b2, b3, b4)
    ensures var cp := CodePointOfFour(b1, b2, b3, b4);
            MIN_SUPPLEMENTARY_CODE_POINT <= cp <= 0x10FFFF && FourBytes(cp) == [b1, b2, b3, b4]
  {
    LegalFour(b1, b2, b3, b4);
    FourByteCodePoint(b1, b2, b3, b4);
    FourBytesAre(CodePointOfFour(b1, b2, b3, b4), b1, b2, b3, b4);
  }

  /** The byte of a one-byte sequence is what putCharsToUtf8 writes for the char it decodes to. */
  lemma OneByteInverse(b1: bv8)
    requires b1 as int < 0x80
    ensures OneByte(b1 as int) == [b1]
  {
    DivMod256(b1 as int, 0, b1 as int);
    var x := OneByte(b1 as int);
    SameByte(x[0], b1);
  }

  /** A char below U+0080 takes the one-byte branch. */
  lemma BranchOfOne(b1: bv8, rest: seq<JChar>, room: int)
    requires SequenceLength(b1) == 1 && room >= 1
    ensures var s := [b1 as int] + rest;
            EncodeBranch(s, room) == 1 && BranchBytes(s, 1) == [b1]
  {
    OneByteInverse(b1);
  }

  /** The char of a legal two-byte sequence takes the two-byte branch, which writes the sequence back. */
  lemma BranchOfTwo(b1: bv8, b2: bv8, rest: seq<JChar>, room: int)
    requires SequenceLength(b1) == 2 && !IllegalTwo(b1, b2) && room >= 2
    ensures var s := [CharOfTwo(b1, b2)] + rest;
            EncodeBranch(s, room) == 2 && BranchBytes(s, 2) == [b1, b2]
  {
    TwoByteInverse(b1, b2);
  }

  /** The char of a legal three-byte sequence takes the three-byte branch, which writes the sequence back. */
  lemma BranchOfThree(b1: bv8, b2: bv8, b3: bv8, rest: seq<JChar>, room: int)
    requires SequenceLength(b1) == 3 && !IllegalThree(b1, b2, b3) && room >= 3
    ensures var s := [CharOfThree(b1, b2, b3)] + rest;
            EncodeBranch(s, room) == 3 && BranchBytes(s, 3) == [b1, b2, b3]
  {
    ThreeByteInverse(b1, b2, b3);
  }

  /** The pair of a legal four-byte sequence takes the four-byte branch, which writes the sequence back. */
  lemma BranchOfFour(b1: bv8, b2: bv8, b3: bv8, b4: bv8, rest: seq<JChar>, room: int)
    requires SequenceLength(b1) == 4 && !IllegalFour(b1, b2, b3, b4) && room >= 4
    ensures var cp := CodePointOfFour(b1, b2, b3, b4);
            var s := [HighSurrogate(cp), LowSurrogate(cp)] + rest;
            EncodeBranch(s, room) == 4 && BranchBytes(s, 4) == [b1, b2, b3, b4]
  {
    FourByteInverse(b1, b2, b3, b4);
    var cp := CodePointOfFour(b1, b2, b3, b4);
    CodePointOfSurrogates(cp);
  }

  /** The chars of a legal sequence, followed by any text, take the branch that writes the sequence back. */
  lemma SequenceBranch(x: seq<bv8>, rest: seq<JChar>, room: int)
    requires 1 <= |x| && |x| == SequenceLength(x[0]) && !IllegalSequence(x) && room >= |x|
    ensures var s := SequenceChars(x) + rest;
            EncodeBranch(s, room) == |x| && Consumed(|x|) == |SequenceChars(x)| && BranchBytes(s, |x|) == x
  {
    if |x| == 1 {
      BranchOfOne(x[0], rest, room);
      assert x == [x[0]];
    } else if |x| == 2 {
      BranchOfTwo(x[0], x[1], rest, room);
      assert x == [x[0], x[1]];
    } else if |x| == 3 {
      BranchOfThree(x[0], x[1], x[2], rest, room);
      assert x == [x[0], x[1], x[2]];
    } else {
      BranchOfFour(x[0], x[1], x[2], x[3], rest, room);
      assert x == [x[0], x[1], x[2], x[3]];
    }
  }

  /** Encoding the chars of one legal sequence and then more text writes the sequence, then the text's bytes. */
  lemma SequenceEncodes(x: seq<bv8>, rest: seq<JChar>, s: seq<JChar>, room: int, left: int)
    requires 1 <= |x| && |x| == SequenceLength(x[0]) && !IllegalSequence(x) && room >= |x|
    requires s == SequenceChars(x) + rest && left == room - |x|
    ensures EncodeUtf8(s, room) == PrependBytes(x, EncodeUtf8(rest, left))
  {
    SequenceBranch(x, rest, room);
    var k, c := EncodeStep(s, room);
    assert k == |x| && c == |SequenceChars(x)|;
    assert s[c..] == rest;
  }

  /** One step of a successful decoding: a complete, legal first sequence, then a successful decoding of the rest. */
  lemma DecodeStep(b: seq<bv8>, s: seq<JChar>) returns (n: nat, rest: seq<bv8>, tail: seq<JChar>)
    requires |b| >= 1 && DecodeUtf8(b) == Decoded(s, Pass)
    ensures 1 <= n == SequenceLength(b[0]) <= |b| && !IllegalSequence(b[..n])
    ensures rest == b[n..] && |rest| == |b| - n
    ensures DecodeUtf8(rest) == Decoded(tail, Pass) && s == SequenceChars(b[..n]) + tail
  {
    n := SequenceLength(b[0]);
    rest := b[n..];
    tail := DecodeUtf8(b[n..]).chars;
  }

  /** Bytes b[..n] before a successful encoding that wrote b[n..] make a successful encoding that wrote b. */
  lemma PrependJoin(b: seq<bv8>, n: nat, whole: Encoded, tail: Encoded)
    requires n <= |b| && tail == Encoded(b[n..], Pass) && whole == PrependBytes(b[..n], tail)
    ensures whole == Encoded(b, Pass)
  {
    assert b[..n] + b[n..] == b;
  }

  /** One step of DecodeEncodeNamed: the first sequence of b in front of the re-encoded rest. */
  lemma JoinStep(b: seq<bv8>, s: seq<JChar>, room: int, n: nat, tail: seq<JChar>, e: Encoded, t: Encoded)
    requires 1 <= n <= |b| <= room && n == SequenceLength(b[0]) && !IllegalSequence(b[..n])
    requires s == SequenceChars(b[..n]) + tail
    requires e == EncodeUtf8(s, room) && t == EncodeUtf8(tail, room - n) && t == Encoded(b[n..], Pass)
    ensures e == Encoded(b, Pass)
  {
    SequenceEncodes(b[..n], tail, s, room, room - n);
    PrependJoin(b, n, e, t);
  }

  /** DecodeEncode, with the encoding named e. */
  lemma {:induction false} DecodeEncodeNamed(b: seq<bv8>, s: seq<JChar>, room: int, e: Encoded)
    requires DecodeUtf8(b) == Decoded(s, Pass) && |b| <= room && e == EncodeUtf8(s, room)
    ensures e == Encoded(b, Pass)
    decreases |b|
  {
    if |b| > 0 {
      var n, rest, tail := DecodeStep(b, s);
      var t := EncodeUtf8(tail, room - n);
      DecodeEncodeNamed(rest, tail, room - n, t);
      JoinStep(b, s, room, n, tail, e, t);
    } else {
      assert s == [];
    }
  }

  /** Encoding the text s a successful decoding of b produced, with room for every byte, writes b back. */
  lemma DecodeEncode(b: seq<bv8>, s: seq<JChar>, room: int)
    requires DecodeUtf8(b) == Decoded(s, Pass) && |b| <= room
    ensures EncodeUtf8(s, room) == Encoded(b, Pass)
  {
    DecodeEncodeNamed(b, s, room, EncodeUtf8(s, room));
  }

  // ---------------------------------------------------------------------------------
  // The encoding loops (putCharsToUtf8)

  /** What a call reports for its outcome: the count on success, the exception otherwise. */
  function Reported(count: int, outcome: Outcome): (r: Result<int>)
    ensures r.Ok? <==> outcome == Pass
    ensures r.Ok? ==> r.value == count
    ensures r.Err? ==> r.error == outcome.error
  {
    if outcome == Pass then Ok(count) else Err(outcome.error)
  }

  /** target is the bytes written so far followed by the encoding of the chars s left, with left bytes of room. */
  ghost predicate EncodesAs(target: Encoded, written: seq<bv8>, s: seq<JChar>, left: int)
  {
    target == PrependBytes(written, EncodeUtf8(s, left))
  }

  /**
   * The memory after is the memory before with the bytes written from index start on and
   * nothing else changed; a start past the end of the memory writes nothing.
   */
  ghost predicate WroteFrom(after: seq<bv8>, before: seq<bv8>, start: int, written: seq<bv8>)
  {
    (start <= |before| ==> NonNativeCopy.Spliced(after, before, start, written)) &&
    (start > |before| ==> after == before && written == [])
  }

  /**
   * What putCharsToUtf8 leaves behind for src with room bytes of room: the bytes of
   * EncodeUtf8 written into the memory from index start on, and their count returned, or
   * the exception the encoding ends with.
   */
  ghost predicate PutResult(after: seq<bv8>, before: seq<bv8>, start: int, src: seq<JChar>, room: int, r: Result<int>)
  {
    var e := EncodeUtf8(src, room);
    r == Reported(|e.bytes|, e.outcome) &&
    (start <= |before| ==>
      0 <= start && start + |e.bytes| <= |before| && after == before[..start] + e.bytes + before[start + |e.bytes|..]) &&
    (start > |before| ==> after == before)
  }

  /** PutResult for the encoding target once its bytes are written and r is what they report. */
  lemma PutResultOf(after: seq<bv8>, before: seq<bv8>, start: int, src: seq<JChar>, room: int,
                    target: Encoded, r: Result<int>)
    requires target == EncodeUtf8(src, room) && r == Reported(|target.bytes|, target.outcome)
    requires WroteFrom(after, before, start, target.bytes)
    ensures PutResult(after, before, start, src, room, r)
  {
    if start <= |before| {
      NonNativeCopy.SplicedIsSplice(after, before, start, target.bytes);
    }
  }

  /** The encoding of the chars left after written, carried across one char or surrogate pair. */
  lemma EncodeAdvance(src: seq<JChar>, target: Encoded, written: seq<bv8>, i: nat, left: int)
    returns (k: nat, c: nat)
    requires i < |src| && target == PrependBytes(written, EncodeUtf8(src[i..], left))
    ensures k == EncodeBranch(src[i..], left) && c == Consumed(k)
    ensures k == 0 ==> target == Encoded(written, Fail(EncodeFailure(src[i], src[i..], left)))
    ensures k > 0 ==> i + c <= |src|
    ensures k > 0 ==> target == PrependBytes(written + BranchBytes(src[i..], k), EncodeUtf8(src[i + c..], left - k))
  {
    k, c := EncodeStep(src[i..], left);
    if k > 0 {
      assert src[i..][c..] == src[i + c..];
    }
  }

  /**
   * One step of the loops of putCharsToUtf8 that writes the bytes of src[i], or of the
   * pair src[i], src[i + 1] when wide is set: the encoding left moves on past them.
   * The caller names the new state: written2, i2 and left2.
   */
  lemma EncodeWrote(src: seq<JChar>, target: Encoded, written: seq<bv8>, i: nat, left: int, k: nat,
                    written2: seq<bv8>, i2: nat, left2: int)
    requires i < |src| && EncodesAs(target, written, src[i..], left)
    requires k == EncodeBranch(src[i..], left) && k > 0
    requires written2 == written + BranchBytes(src[i..], k) && i2 == i + Consumed(k) && left2 == left - k
    ensures i2 <= |src| && EncodesAs(target, written2, src[i2..], left2)
  {
    var k', c := EncodeAdvance(src, target, written, i, left);
  }

  /** The step of putCharsToUtf8 that throws: no branch fits src[i]. */
  lemma EncodeThrew(src: seq<JChar>, target: Encoded, written: seq<bv8>, i: nat, left: int)
    requires i < |src| && EncodesAs(target, written, src[i..], left)
    requires EncodeBranch(src[i..], left) == 0
    ensures target == Encoded(written, Fail(EncodeFailure(src[i], src[i..], left)))
  {
    var k, c := EncodeAdvance(src, target, written, i, left);
  }

  /** With every char consumed, the bytes written are the whole encoding. */
  lemma EncodeDone(src: seq<JChar>, target: Encoded, written: seq<bv8>, i: nat, left: int)
    requires i == |src| && EncodesAs(target, written, src[i..], left)
    ensures target == Encoded(written, Pass)
  {
    assert src[i..] == [];
  }

  /** The bytes the branches of putCharsToUtf8 write, by the branch taken. */
  lemma BranchBytesOf(s: seq<JChar>, k: nat)
    requires 1 <= k <= 4 && |s| >= 1
    requires k == 4 ==> |s| >= 2 && IsSurrogatePair(s[0], s[1])
    ensures k == 1 ==> BranchBytes(s, k) == OneByte(s[0])
    ensures k == 2 ==> BranchBytes(s, k) == TwoBytes(s[0])
    ensures k == 3 ==> BranchBytes(s, k) == ThreeBytes(s[0])
    ensures k == 4 ==> BranchBytes(s, k) == FourBytes(ToCodePoint(s[0], s[1]))
  {
  }

  /** The ASCII branch: one byte for a char below U+0080, with a byte of room. */
  lemma EncodeWroteOne(src: seq<JChar>, target: Encoded, written: seq<bv8>, i: nat, left: int,
                       written2: seq<bv8>, i2: nat, left2: int)
    requires i < |src| && EncodesAs(target, written, src[i..], left)
    requires src[i] < 0x80 && left >= 1
    requires written2 == written + OneByte(src[i]) && i2 == i + 1 && left2 == left - 1
    ensures i2 <= |src| && EncodesAs(target, written2, src[i2..], left2)
  {
    BranchBytesOf(src[i..], 1);
    EncodeWrote(src, target, written, i, left, 1, written2, i2, left2);
  }

  /** The two-byte branch. */
  lemma EncodeWroteTwo(src: seq<JChar>, target: Encoded, written: seq<bv8>, i: nat, left: int,
                       written2: seq<bv8>, i2: nat, left2: int)
    requires i < |src| && EncodesAs(target, written, src[i..], left)
    requires !(src[i] < 0x80 && left >= 1) && src[i] < 0x800 && left >= 2
    requires written2 == written + TwoBytes(src[i]) && i2 == i + 1 && left2 == left - 2
    ensures i2 <= |src| && EncodesAs(target, written2, src[i2..], left2)
  {
    BranchBytesOf(src[i..], 2);
    EncodeWrote(src, target, written, i, left, 2, written2, i2, left2);
  }

  /** The three-byte branch. */
  lemma EncodeWroteThree(src: seq<JChar>, target: Encoded, written: seq<bv8>, i: nat, left: int,
                         written2: seq<bv8>, i2: nat, left2: int)
    requires i < |src| && EncodesAs(target, written, src[i..], left)
    requires !(src[i] < 0x80 && left >= 1) && !(src[i] < 0x800 && left >= 2)
    requires !IsSurrogate(src[i]) && left >= 3
    requires written2 == written + ThreeBytes(src[i]) && i2 == i + 1 && left2 == left - 3
    ensures i2 <= |src| && EncodesAs(target, written2, src[i2..], left2)
  {
    BranchBytesOf(src[i..], 3);
    EncodeWrote(src, target, written, i, left, 3, written2, i2, left2);
  }

  /** The surrogate-pair branch: four bytes for the code point of src[i], src[i + 1]. */
  lemma EncodeWroteFour(src: seq<JChar>, target: Encoded, written: seq<bv8>, i: nat, left: int,
                        written2: seq<bv8>, i2: nat, left2: int)
    requires i + 1 < |src| && EncodesAs(target, written, src[i..], left)
    requires !(src[i] < 0x80 && left >= 1) && !(src[i] < 0x800 && left >= 2)
    requires !(!IsSurrogate(src[i]) && left >= 3)
    requires left >= 4 && IsSurrogatePair(src[i], src[i + 1])
    requires written2 == written + FourBytes(ToCodePoint(src[i], src[i + 1])) && i2 == i + 2 && left2 == left - 4
    ensures i2 <= |src| && EncodesAs(target, written2, src[i2..], left2)
  {
    BranchBytesOf(src[i..], 4);
    EncodeWrote(src, target, written, i, left, 4, written2, i2, left2);
  }

  /** The branch that throws: the exception the source picks is EncodeFailure's. */
  lemma EncodeThrewAs(src: seq<JChar>, target: Encoded, written: seq<bv8>, i: nat, left: int, error: Error)
    requires i < |src| && EncodesAs(target, written, src[i..], left)
    requires !(src[i] < 0x80 && left >= 1) && !(src[i] < 0x800 && left >= 2)
    requires !(!IsSurrogate(src[i]) && left >= 3)
    requires !(i + 1 < |src| && left >= 4 && IsSurrogatePair(src[i], src[i + 1]))
    requires error == EncodeFailure(src[i], src[i..], left)
    ensures target == Encoded(written, Fail(error))
  {
    EncodeThrew(src, target, written, i, left);
  }

  /**
   * The exception putCharsToUtf8 throws when no branch fits src[cIdx], found by testing
   * the causes one after the other; it is the one EncodeFailure names.
   */
  method EncodeError(src: seq<JChar>, cIdx: int, bIdx: int, byteLimit: int) returns (error: Error)
    requires 0 <= cIdx < |src|
    ensures error == EncodeFailure(src[cIdx], src[cIdx..], byteLimit - bIdx)
  {
    var c := src[cIdx];
    if (c < 0x80 && bIdx >= byteLimit) || (c < 0x800 && bIdx >= byteLimit - 1)
       || (c <= 0xFFFF && bIdx >= byteLimit - 2) {
      error := Utf8Coding(OutOfMemory);
    } else if cIdx > |src| - 2 {
      error := Utf8Coding(UnpairedSurrogate);
    } else if bIdx > byteLimit - 4 {
      error := Utf8Coding(ShortUtf8EncodeByteLength);
    } else if !IsSurrogatePair(c, src[cIdx + 1]) {
      error := Utf8Coding(IllegalSurrogatePair);
    } else {
      error := IllegalArgument;
    }
  }

  /**
   * One pass of the general loop of putCharsToUtf8: writes the bytes of src[cIdx], or of
   * the surrogate pair starting there, from index bIdx of m on and returns how many, or
   * throws without writing. The branch taken is EncodeBranch's.
   */
  method PutChar(m: array<bv8>, src: seq<JChar>, cIdx: int, bIdx: int, byteLimit: int) returns (r: Result<int>)
    requires 0 <= cIdx < |src| && 0 <= bIdx && byteLimit <= m.Length
    modifies m
    ensures var k := EncodeBranch(src[cIdx..], byteLimit - bIdx);
            (k == 0 ==> r == Err(EncodeFailure(src[cIdx], src[cIdx..], byteLimit - bIdx)) && m[..] == old(m[..])) &&
            (k > 0 ==> r == Ok(k) && NonNativeCopy.Spliced(m[..], old(m[..]), bIdx, BranchBytes(src[cIdx..], k)))
  {
    ghost var before := m[..];
    var c := src[cIdx];
    var bytes: seq<bv8>;
    if c < 0x80 && bIdx < byteLimit {
      bytes := OneByte(c);
    } else if c < 0x800 && bIdx < byteLimit - 1 {
      bytes := TwoBytes(c);
    } else if !IsSurrogate(c) && bIdx < byteLimit - 2 {
      bytes := ThreeBytes(c);
    } else if cIdx <= |src| - 2 && bIdx <= byteLimit - 4 && IsSurrogatePair(c, src[cIdx + 1]) {
      var codePoint := ToCodePoint(c, src[cIdx + 1]);
      bytes := FourBytes(codePoint);
    } else {
      var error := EncodeError(src, cIdx, bIdx, byteLimit);
      return Err(error);
    }
    NonNativeCopy.SplicedNone(before, bIdx);
    NonNativeCopy.WriteBytes(m, before, bIdx, [], bIdx, bytes);
    BranchBytesOf(src[cIdx..], |bytes|);
    r := Ok(|bytes|);
  }

  /**
   * The general loop of putCharsToUtf8, from char cIdx and byte index bIdx on, after the
   * ASCII loop wrote written from index start on (bCnt bytes). It completes the encoding
   * target and reports it.
   */
  method PutCharsFrom(m: array<bv8>, src: seq<JChar>, cIdx: int, bIdx: int, byteLimit: int, bCnt: int,
                      ghost before: seq<bv8>, ghost start: int, ghost target: Encoded, ghost written: seq<bv8>)
    returns (r: Result<int>)
    requires 0 <= cIdx <= |src| && 0 <= start && bIdx == start + |written| && bCnt == |written|
    requires byteLimit <= m.Length
    requires WroteFrom(m[..], before, start, written)
    requires EncodesAs(target, written, src[cIdx..], byteLimit - bIdx)
    modifies m
    ensures r == Reported(|target.bytes|, target.outcome) && WroteFrom(m[..], before, start, target.bytes)
  {
    var cIdx, bIdx, bCnt := cIdx, bIdx, bCnt;
    ghost var written := written;
    while cIdx < |src|
      invariant 0 <= cIdx <= |src| && bIdx == start + |written| && bCnt == |written|
      invariant WroteFrom(m[..], before, start, written)
      invariant EncodesAs(target, written, src[cIdx..], byteLimit - bIdx)
    {
      var step, cIdx', bIdx';
      step, cIdx', bIdx', written := PutCharStep(m, src, cIdx, bIdx, byteLimit, before, start, target, written);
      if step.Err? {
        return step;
      }
      bCnt := bCnt + (bIdx' - bIdx);
      cIdx, bIdx := cIdx', bIdx';
    }
    EncodeDone(src, target, written, cIdx, byteLimit - bIdx);
    r := Ok(bCnt);
  }

  /**
   * One pass of putCharsToUtf8's general loop: PutChar at char cIdx and byte index bIdx.
   * Either it writes the branch's bytes and moves past the chars they encode, or it
   * throws and the encoding target ends with the bytes written.
   */
  method PutCharStep(m: array<bv8>, src: seq<JChar>, cIdx: int, bIdx: int, byteLimit: int, ghost before: seq<bv8>,
                     ghost start: int, ghost target: Encoded, ghost written: seq<bv8>)
    returns (step: Result<int>, cIdx': int, bIdx': int, ghost written': seq<bv8>)
    requires 0 <= cIdx < |src| && 0 <= start && bIdx == start + |written| && byteLimit <= m.Length
    requires WroteFrom(m[..], before, start, written)
    requires EncodesAs(target, written, src[cIdx..], byteLimit - bIdx)
    modifies m
    ensures WroteFrom(m[..], before, start, written')
    ensures step.Err? ==> target == Encoded(written', Fail(step.error))
    ensures step.Ok? ==> cIdx < cIdx' <= |src| && bIdx' == start + |written'| && bIdx' - bIdx == |written'| - |written|
                         && EncodesAs(target, written', src[cIdx'..], byteLimit - bIdx')
  {
    ghost var m0 := m[..];
    step := PutChar(m, src, cIdx, bIdx, byteLimit);
    if step.Err? {
      EncodeThrew(src, target, written, cIdx, byteLimit - bIdx);
      return step, cIdx, bIdx, written;
    }
    var k := step.value;
    NonNativeCopy.SplicedCompose(m[..], m0, before, start, written, BranchBytes(src[cIdx..], k));
    written' := written + BranchBytes(src[cIdx..], k);
    bIdx', cIdx' := bIdx + k, cIdx + Consumed(k);
    EncodeWrote(src, target, written, cIdx, byteLimit - bIdx, k, written', cIdx', byteLimit - bIdx');
  }

  /**
   * The ASCII loop of putCharsToUtf8: one byte per char while the chars are ASCII and
   * there is room below byteLimit, written from index bIdx on. It returns how many chars
   * it wrote, and the bytes it wrote carry the encoding target on.
   */
  method PutAsciiRun(m: array<bv8>, src: seq<JChar>, bIdx: int, byteLimit: int,
                     ghost before: seq<bv8>, ghost target: Encoded)
    returns (cIdx: int, ghost written: seq<bv8>)
    requires 0 <= bIdx && byteLimit <= m.Length
    requires WroteFrom(m[..], before, bIdx, [])
    requires EncodesAs(target, [], src, byteLimit - bIdx)
    modifies m
    ensures 0 <= cIdx <= |src| && cIdx == |written|
    ensures WroteFrom(m[..], before, bIdx, written)
    ensures EncodesAs(target, written, src[cIdx..], byteLimit - bIdx - cIdx)
  {
    cIdx := 0;
    written := [];
    ghost var left := byteLimit - bIdx;
    assert src[0..] == src;
    while cIdx < |src| && cIdx + bIdx < byteLimit && src[cIdx] < 0x80
      invariant 0 <= cIdx <= |src| && cIdx == |written| && left == byteLimit - bIdx - cIdx
      invariant WroteFrom(m[..], before, bIdx, written)
      invariant EncodesAs(target, written, src[cIdx..], left)
    {
      ghost var written0, i0, left0 := written, cIdx, left;
      NonNativeCopy.WriteBytes(m, before, bIdx, written, bIdx + cIdx, OneByte(src[cIdx]));
      written, left := written + OneByte(src[cIdx]), left - 1;
      cIdx := cIdx + 1;
      EncodeWroteOne(src, target, written0, i0, left0, written, cIdx, left);
    }
  }

  /**
   * The two loops of putCharsToUtf8 from byte index start on: the ASCII run, then, unless
   * it used up src, the general loop. Together they write and report the encoding target
   * of src into the room below byteLimit.
   */
  method PutCharsInto(m: array<bv8>, src: seq<JChar>, start: int, byteLimit: int,
                      ghost before: seq<bv8>, ghost target: Encoded)
    returns (r: Result<int>)
    requires 0 <= start && byteLimit <= m.Length
    requires WroteFrom(m[..], before, start, [])
    requires EncodesAs(target, [], src, byteLimit - start)
    modifies m
    ensures r == Reported(|target.bytes|, target.outcome) && WroteFrom(m[..], before, start, target.bytes)
  {
    var cIdx, written := PutAsciiRun(m, src, start, byteLimit, before, target);
    if cIdx == |src| {
      EncodeDone(src, target, written, cIdx, byteLimit - start - cIdx);
      return Ok(cIdx);
    }
    r := PutCharsFrom(m, src, cIdx, start + cIdx, byteLimit, cIdx, before, start, target, written);
  }

  /**
   * putCharsToUtf8: encodes src into the memory whose bytes start at index cumBase of m,
   * from offsetBytes onward and below capacityBytes. It writes the bytes of EncodeUtf8,
   * also when it throws part way, and returns their count.
   */
  method PutCharsToUtf8(m: array<bv8>, cumBase: int, offsetBytes: int, capacityBytes: int, src: seq<JChar>)
    returns (r: Result<int>)
    requires 0 <= cumBase && 0 <= offsetBytes && cumBase + capacityBytes <= m.Length
    modifies m
    ensures PutResult(m[..], old(m[..]), cumBase + offsetBytes, src, capacityBytes - offsetBytes, r)
  {
    var bIdx := cumBase + offsetBytes;
    ghost var target := EncodeUtf8(src, capacityBytes - offsetBytes);
    if bIdx <= m.Length {
      NonNativeCopy.SplicedNone(m[..], bIdx);
    }
    assert target.bytes == [] + target.bytes;
    r := PutCharsInto(m, src, bIdx, cumBase + capacityBytes, old(m[..]), target);
    PutResultOf(m[..], old(m[..]), bIdx, src, capacityBytes - offsetBytes, target, r);
  }

  // ---------------------------------------------------------------------------------
  // The decoding loops into an Appendable (getCharsFromUtf8, getNonAsciiCharsFromUtf8)

  /** target is the chars appended so far followed by the decoding of the bytes rest left. */
  ghost predicate DecodesAs(target: Decoded, appended: seq<JChar>, rest: seq<bv8>)
  {
    target == PrependChars(appended, DecodeUtf8(rest))
  }

  /** A complete, legal sequence of n bytes at the head of rest appends its chars. */
  lemma DecodeWrote(target: Decoded, appended: seq<JChar>, rest: seq<bv8>, n: nat)
    requires 1 <= n <= |rest| && n == SequenceLength(rest[0]) && !IllegalSequence(rest[..n])
    requires DecodesAs(target, appended, rest)
    ensures DecodesAs(target, appended + SequenceChars(rest[..n]), rest[n..])
  {
    var cs, tail := SequenceChars(rest[..n]), DecodeUtf8(rest[n..]).chars;
    assert appended + (cs + tail) == (appended + cs) + tail;
  }

  /** An ASCII byte at the head of rest appends itself. */
  lemma DecodeWroteAscii(target: Decoded, appended: seq<JChar>, rest: seq<bv8>)
    requires |rest| >= 1 && IsOneByte(rest[0]) && DecodesAs(target, appended, rest)
    ensures DecodesAs(target, appended + [rest[0] as int], rest[1..])
  {
    assert rest[..1] == [rest[0]];
    DecodeWrote(target, appended, rest, 1);
  }

  /** A sequence cut off by the end of rest, or an illegal one, ends the decoding with its exception. */
  lemma DecodeThrew(target: Decoded, appended: seq<JChar>, rest: seq<bv8>, error: Error)
    requires |rest| >= 1 && DecodesAs(target, appended, rest)
    requires var n := SequenceLength(rest[0]);
             (|rest| < n && error == Utf8Coding(ShortUtf8DecodeByteSequence)) ||
             (n <= |rest| && IllegalSequence(rest[..n]) && error == Utf8Coding(IllegalUtf8DecodeByteSequence))
    ensures target == Decoded(appended, Fail(error))
  {
  }

  /** Once no bytes are left, the decoding has succeeded with the chars appended. */
  lemma DecodeDone(target: Decoded, appended: seq<JChar>, rest: seq<bv8>)
    requires |rest| == 0 && DecodesAs(target, appended, rest)
    ensures target == Decoded(appended, Pass)
  {
  }

  /** DecodeWrote for the bytes s[i..limit], landing on the next index i2 and chars dst2. */
  lemma DecodeAdvance(s: seq<bv8>, target: Decoded, dst: seq<JChar>, i: int, limit: int, dst2: seq<JChar>, i2: int)
    requires 0 <= i < i2 <= limit <= |s| && i2 - i == SequenceLength(s[i]) && !IllegalSequence(s[i..i2])
    requires DecodesAs(target, dst, s[i..limit]) && dst2 == dst + SequenceChars(s[i..i2])
    ensures DecodesAs(target, dst2, s[i2..limit])
  {
    var rest := s[i..limit];
    assert rest[..i2 - i] == s[i..i2] && rest[i2 - i..] == s[i2..limit];
    DecodeWrote(target, dst, rest, i2 - i);
  }

  /** DecodeWroteAscii for the bytes s[i..limit]. */
  lemma DecodeAsciiAt(s: seq<bv8>, target: Decoded, dst: seq<JChar>, i: int, limit: int, dst2: seq<JChar>, i2: int)
    requires 0 <= i < limit <= |s| && i2 == i + 1 && IsOneByte(s[i])
    requires DecodesAs(target, dst, s[i..limit]) && dst2 == dst + [s[i] as int]
    ensures DecodesAs(target, dst2, s[i2..limit])
  {
    var rest := s[i..limit];
    assert rest[1..] == s[i2..limit];
    DecodeWroteAscii(target, dst, rest);
  }

  /** DecodeThrew for the bytes s[i..limit]. */
  lemma DecodeThrewAt(s: seq<bv8>, target: Decoded, dst: seq<JChar>, i: int, limit: int, error: Error)
    requires 0 <= i < limit <= |s| && DecodesAs(target, dst, s[i..limit])
    requires var n := SequenceLength(s[i]);
             (i + n > limit && error == Utf8Coding(ShortUtf8DecodeByteSequence)) ||
             (i + n <= limit && IllegalSequence(s[i..i + n]) && error == Utf8Coding(IllegalUtf8DecodeByteSequence))
    ensures target == Decoded(dst, Fail(error))
  {
    var rest := s[i..limit];
    if i + SequenceLength(s[i]) <= limit {
      assert rest[..SequenceLength(s[i])] == s[i..i + SequenceLength(s[i])];
    }
    DecodeThrew(target, dst, rest, error);
  }

  /**
   * The body of getNonAsciiCharsFromUtf8's loop for a lead byte that is not ASCII, in
   * the memory from address below addressLimit: the cut-off test, then handleTwoBytes,
   * handleThreeBytes or handleFourBytes. It yields the chars of the sequence, or the
   * exception.
   */
  method DecodeNonAscii(m: array<bv8>, address: int, addressLimit: int) returns (r: Result<seq<JChar>>)
    requires 0 <= address < addressLimit <= m.Length && !IsOneByte(m[address])
    ensures var n := SequenceLength(m[address]);
            r.Ok? <==> address + n <= addressLimit && !IllegalSequence(m[address..address + n])
    ensures var n := SequenceLength(m[address]);
            r.Ok? ==> address + n <= addressLimit && r.value == SequenceChars(m[address..address + n])
    ensures r.Err? && address + SequenceLength(m[address]) > addressLimit ==>
              r.error == Utf8Coding(ShortUtf8DecodeByteSequence)
    ensures r.Err? && address + SequenceLength(m[address]) <= addressLimit ==>
              r.error == Utf8Coding(IllegalUtf8DecodeByteSequence)
  {
    var byte1 := m[address];
    var a := address + 1;
    if IsTwoBytes(byte1) {
      if a >= addressLimit {
        return Err(Utf8Coding(ShortUtf8DecodeByteSequence));
      }
      var byte2 := m[a];
      assert m[address..address + 2] == [byte1, byte2];
      if IllegalTwo(byte1, byte2) {
        return Err(Utf8Coding(IllegalUtf8DecodeByteSequence));
      }
      SequenceOfTwo(m[address..address + 2]);
      r := Ok([CharOfTwo(byte1, byte2)]);
    } else if IsThreeBytes(byte1) {
      if a >= addressLimit - 1 {
        return Err(Utf8Coding(ShortUtf8DecodeByteSequence));
      }
      var byte2, byte3 := m[a], m[a + 1];
      assert m[address..address + 3] == [byte1, byte2, byte3];
      if IllegalThree(byte1, byte2, byte3) {
        return Err(Utf8Coding(IllegalUtf8DecodeByteSequence));
      }
      SequenceOfThree(m[address..address + 3]);
      r := Ok([CharOfThree(byte1, byte2, byte3)]);
    } else {
      if a >= addressLimit - 2 {
        return Err(Utf8Coding(ShortUtf8DecodeByteSequence));
      }
      var byte2, byte3, byte4 := m[a], m[a + 1], m[a + 2];
      assert m[address..address + 4] == [byte1, byte2, byte3, byte4];
      if IllegalFour(byte1, byte2, byte3, byte4) {
        return Err(Utf8Coding(IllegalUtf8DecodeByteSequence));
      }
      SequenceOfFour(m[address..address + 4]);
      var codepoint := CodePointOfFour(byte1, byte2, byte3, byte4);
      r := Ok([HighSurrogate(codepoint), LowSurrogate(codepoint)]);
    }
  }

  /**
   * Appends the run of ASCII bytes from address on, stopping at the first other byte or
   * at addressLimit: the leading loop of getCharsFromUtf8 (which the source indexes by
   * an int counter from address) and the inner loop of getNonAsciiCharsFromUtf8.
   */
  method DecodeAsciiRun(m: array<bv8>, dst: seq<JChar>, address: int, addressLimit: int, ghost target: Decoded)
    returns (dst': seq<JChar>, address': int)
    requires 0 <= address <= addressLimit <= m.Length
    requires DecodesAs(target, dst, m[address..addressLimit])
    ensures address <= address' <= addressLimit && |dst'| == |dst| + (address' - address)
    ensures address' < addressLimit ==> !IsOneByte(m[address'])
    ensures DecodesAs(target, dst', m[address'..addressLimit])
  {
    dst', address' := dst, address;
    while address' < addressLimit
      invariant address <= address' <= addressLimit && |dst'| == |dst| + (address' - address)
      invariant DecodesAs(target, dst', m[address'..addressLimit])
    {
      var b := m[address'];
      if !IsOneByte(b) {
        break;
      }
      ghost var dst0, address0 := dst', address';
      address', dst' := address' + 1, dst' + [b as int];
      DecodeAsciiAt(m[..], target, dst0, address0, addressLimit, dst', address');
    }
  }

  /**
   * getNonAsciiCharsFromUtf8: decodes the memory from address below addressLimit onto
   * the chars dst already holds, completing the decoding target: a run of ASCII bytes
   * after each ASCII lead byte, DecodeNonAscii for the others. It returns the count of
   * chars it appended, or throws with the chars appended before the bad sequence left
   * in dst.
   */
  method GetNonAsciiCharsFromUtf8(m: array<bv8>, dst: seq<JChar>, address: int, addressLimit: int, ghost target: Decoded)
    returns (dst': seq<JChar>, r: Result<int>)
    requires 0 <= address <= addressLimit <= m.Length
    requires DecodesAs(target, dst, m[address..addressLimit])
    ensures dst' == target.chars && r == Reported(|dst'| - |dst|, target.outcome)
  {
    var address := address;
    var chars := 0;
    dst' := dst;
    while address < addressLimit
      invariant address <= addressLimit && |dst'| == |dst| + chars
      invariant DecodesAs(target, dst', m[address..addressLimit])
    {
      var byte1 := m[address];
      if IsOneByte(byte1) {
        ghost var dst0, address0 := dst', address;
        address, dst', chars := address + 1, dst' + [byte1 as int], chars + 1;
        DecodeAsciiAt(m[..], target, dst0, address0, addressLimit, dst', address);
        var run;
        dst', run := DecodeAsciiRun(m, dst', address, addressLimit, target);
        chars := chars + (run - address);
        address := run;
      } else {
        var step := DecodeNonAscii(m, address, addressLimit);
        if step.Err? {
          DecodeThrewAt(m[..], target, dst', address, addressLimit, step.error);
          return dst', Err(step.error);
        }
        ghost var dst0, address0 := dst', address;
        address := address + SequenceLength(byte1);
        dst', chars := dst' + step.value, chars + |step.value|;
        DecodeAdvance(m[..], target, dst0, address0, addressLimit, dst', address);
      }
    }
    DecodeDone(target, dst', m[address..addressLimit]);
    r := Ok(chars);
  }

  /** Chars dst' and result r are what decoding b onto the chars dst appends and reports. */
  ghost predicate AppendsDecoded(dst': seq<JChar>, r: Result<int>, dst: seq<JChar>, b: seq<bv8>)
  {
    var d := DecodeUtf8(b);
    dst' == dst + d.chars && r == Reported(|d.chars|, d.outcome)
  }

  /** AppendsDecoded from a completed decoding target. */
  lemma AppendsDecodedOf(dst': seq<JChar>, r: Result<int>, dst: seq<JChar>, b: seq<bv8>, target: Decoded)
    requires target == PrependChars(dst, DecodeUtf8(b))
    requires dst' == target.chars && r == Reported(|dst'| - |dst|, target.outcome)
    ensures AppendsDecoded(dst', r, dst, b)
  {
  }

  /**
   * The body of getCharsFromUtf8 for an Appendable, from address below addressLimit,
   * completing the decoding target: a leading run of ASCII bytes, then, unless it used
   * up the bytes, getNonAsciiCharsFromUtf8, whose count is added to the run's.
   */
  method GetCharsInto(m: array<bv8>, dst: seq<JChar>, address: int, addressLimit: int, ghost target: Decoded)
    returns (dst': seq<JChar>, r: Result<int>)
    requires 0 <= address <= addressLimit <= m.Length
    requires DecodesAs(target, dst, m[address..addressLimit])
    ensures dst' == target.chars && r == Reported(|dst'| - |dst|, target.outcome)
  {
    var run;
    dst', run := DecodeAsciiRun(m, dst, address, addressLimit, target);
    if run == addressLimit {
      DecodeDone(target, dst', m[run..addressLimit]);
      return dst', Ok(run - address);
    }
    var chars;
    dst', chars := GetNonAsciiCharsFromUtf8(m, dst', run, addressLimit, target);
    r := if chars.Ok? then Ok(chars.value + (run - address)) else chars;
  }

  /**
   * getCharsFromUtf8 into an Appendable holding dst: decodes the utf8LengthBytes bytes at
   * offsetBytes of the memory whose bytes start at index cumBase of m, and returns the
   * count of chars appended, or throws with the chars appended before the bad sequence
   * left in dst. The caller has checked the range against the capacity.
   */
  method GetCharsFromUtf8(m: array<bv8>, cumBase: int, offsetBytes: int, utf8LengthBytes: int, dst: seq<JChar>)
    returns (dst': seq<JChar>, r: Result<int>)
    requires 0 <= cumBase && 0 <= offsetBytes && 0 <= utf8LengthBytes
    requires cumBase + offsetBytes + utf8LengthBytes <= m.Length
    ensures AppendsDecoded(dst', r, dst, m[cumBase + offsetBytes..cumBase + offsetBytes + utf8LengthBytes])
  {
    var address := cumBase + offsetBytes;
    ghost var target := PrependChars(dst, DecodeUtf8(m[address..address + utf8LengthBytes]));
    dst', r := GetCharsInto(m, dst, address, address + utf8LengthBytes, target);
    AppendsDecodedOf(dst', r, dst, m[address..address + utf8LengthBytes], target);
  }

  // ---------------------------------------------------------------------------------
  // The decoding loops into a heap CharBuffer (getCharBufferCharsFromUtf8,
  // getCharBufferNonAsciiCharsFromUtf8)

  /** target is the chars written so far followed by the bounded decoding of rest, with room chars left. */
  ghost predicate BoundedAs(target: Decoded, written: seq<JChar>, rest: seq<bv8>, room: int)
  {
    target == PrependChars(written, DecodeBounded(rest, room))
  }

  /** A complete, legal sequence of n bytes at the head of rest whose chars fit writes them. */
  lemma BoundedWrote(target: Decoded, written: seq<JChar>, rest: seq<bv8>, room: int, n: nat)
    requires 1 <= n <= |rest| && n == SequenceLength(rest[0]) && !IllegalSequence(rest[..n])
    requires CharCount(rest[0]) <= room && BoundedAs(target, written, rest, room)
    ensures BoundedAs(target, written + SequenceChars(rest[..n]), rest[n..], room - CharCount(rest[0]))
  {
    var cs, tail := SequenceChars(rest[..n]), DecodeBounded(rest[n..], room - CharCount(rest[0])).chars;
    assert written + (cs + tail) == (written + cs) + tail;
  }

  /** BoundedWrote for the bytes s[i..limit], landing on the next index i2, chars written2 and room room2. */
  lemma BoundedAdvance(s: seq<bv8>, target: Decoded, written: seq<JChar>, i: int, limit: int, room: int,
                       written2: seq<JChar>, i2: int, room2: int)
    requires 0 <= i < i2 <= limit <= |s| && i2 - i == SequenceLength(s[i]) && !IllegalSequence(s[i..i2])
    requires CharCount(s[i]) <= room && room2 == room - CharCount(s[i])
    requires BoundedAs(target, written, s[i..limit], room) && written2 == written + SequenceChars(s[i..i2])
    ensures BoundedAs(target, written2, s[i2..limit], room2)
  {
    var rest := s[i..limit];
    assert rest[..i2 - i] == s[i..i2];
    assert rest[i2 - i..] == s[i2..limit];
    BoundedWrote(target, written, rest, room, i2 - i);
  }

  /** An ASCII byte at s[i] with room left writes itself. */
  lemma BoundedAsciiAt(s: seq<bv8>, target: Decoded, written: seq<JChar>, i: int, limit: int, room: int,
                       written2: seq<JChar>, i2: int, room2: int)
    requires 0 <= i < limit <= |s| && i2 == i + 1 && IsOneByte(s[i]) && room >= 1 && room2 == room - 1
    requires BoundedAs(target, written, s[i..limit], room) && written2 == written + [s[i] as int]
    ensures BoundedAs(target, written2, s[i2..limit], room2)
  {
    assert s[i..i2] == [s[i]];
    BoundedAdvance(s, target, written, i, limit, room, written2, i2, room2);
  }

  /**
   * A sequence at s[i..] cut off by limit, one whose chars do not fit, or an illegal
   * one ends the decoding with its exception, in that order of tests.
   */
  lemma BoundedThrewAt(s: seq<bv8>, target: Decoded, written: seq<JChar>, i: int, limit: int, room: int, error: Error)
    requires 0 <= i < limit <= |s| && BoundedAs(target, written, s[i..limit], room)
    requires var n := SequenceLength(s[i]);
             (i + n > limit && error == Utf8Coding(ShortUtf8DecodeByteSequence)) ||
             (i + n <= limit && room < CharCount(s[i]) && error == BufferOverflow) ||
             (i + n <= limit && room >= CharCount(s[i]) && IllegalSequence(s[i..i + n])
              && error == Utf8Coding(IllegalUtf8DecodeByteSequence))
    ensures target == Decoded(written, Fail(error))
  {
    var rest := s[i..limit];
    if i + SequenceLength(s[i]) <= limit {
      assert rest[..SequenceLength(s[i])] == s[i..i + SequenceLength(s[i])];
    }
  }

  /** Once no bytes are left, the bounded decoding has succeeded with the chars written. */
  lemma BoundedDone(target: Decoded, written: seq<JChar>, rest: seq<bv8>, room: int)
    requires |rest| == 0 && BoundedAs(target, written, rest, room)
    ensures target == Decoded(written, Pass)
  {
  }

  /**
   * The body of getCharBufferNonAsciiCharsFromUtf8's loop for a lead byte that is not
   * ASCII, with the chars of the buffer from cpos below clim free: the cut-off test,
   * then the room test (checkCharBufferPos, or cpos >= clim - 1 for a pair), then
   * handleTwoBytesCharBuffer, handleThreeBytesCharBuffer or handleFourBytesCharBuffer.
   */
  method DecodeNonAsciiBounded(m: seq<bv8>, address: int, addressLimit: int, cpos: int, clim: int)
    returns (r: Result<seq<JChar>>)
    requires 0 <= address < addressLimit <= |m| && !IsOneByte(m[address]) && cpos <= clim
    ensures var n := SequenceLength(m[address]);
            r.Ok? <==> address + n <= addressLimit && CharCount(m[address]) <= clim - cpos
                       && !IllegalSequence(m[address..address + n])
    ensures var n := SequenceLength(m[address]);
            r.Ok? ==> address + n <= addressLimit && r.value == SequenceChars(m[address..address + n])
    ensures r.Err? && address + SequenceLength(m[address]) > addressLimit ==>
              r.error == Utf8Coding(ShortUtf8DecodeByteSequence)
    ensures r.Err? && address + SequenceLength(m[address]) <= addressLimit && CharCount(m[address]) > clim - cpos ==>
              r.error == BufferOverflow
    ensures r.Err? && address + SequenceLength(m[address]) <= addressLimit && CharCount(m[address]) <= clim - cpos ==>
              r.error == Utf8Coding(IllegalUtf8DecodeByteSequence)
  {
    var byte1 := m[address];
    var a := address + 1;
    if IsTwoBytes(byte1) {
      if a >= addressLimit {
        return Err(Utf8Coding(ShortUtf8DecodeByteSequence));
      }
      if cpos == clim {
        return Err(BufferOverflow);
      }
      var byte2 := m[a];
      assert m[address..address + 2] == [byte1, byte2];
      if IllegalTwo(byte1, byte2) {
        return Err(Utf8Coding(IllegalUtf8DecodeByteSequence));
      }
      SequenceOfTwo(m[address..address + 2]);
      r := Ok([CharOfTwo(byte1, byte2)]);
    } else if IsThreeBytes(byte1) {
      if a >= addressLimit - 1 {
        return Err(Utf8Coding(ShortUtf8DecodeByteSequence));
      }
      if cpos == clim {
        return Err(BufferOverflow);
      }
      var byte2, byte3 := m[a], m[a + 1];
      assert m[address..address + 3] == [byte1, byte2, byte3];
      if IllegalThree(byte1, byte2, byte3) {
        return Err(Utf8Coding(IllegalUtf8DecodeByteSequence));
      }
      SequenceOfThree(m[address..address + 3]);
      r := Ok([CharOfThree(byte1, byte2, byte3)]);
    } else {
      if a >= addressLimit - 2 {
        return Err(Utf8Coding(ShortUtf8DecodeByteSequence));
      }
      if cpos >= clim - 1 {
        return Err(BufferOverflow);
      }
      var byte2, byte3, byte4 := m[a], m[a + 1], m[a + 2];
      assert m[address..address + 4] == [byte1, byte2, byte3, byte4];
      if IllegalFour(byte1, byte2, byte3, byte4) {
        return Err(Utf8Coding(IllegalUtf8DecodeByteSequence));
      }
      SequenceOfFour(m[address..address + 4]);
      var codepoint := CodePointOfFour(byte1, byte2, byte3, byte4);
      r := Ok([HighSurrogate(codepoint), LowSurrogate(codepoint)]);
    }
  }

  /**
   * The chars array after holds the chars written from index start on, over the chars
   * before, with cpos the next free index and the bytes mem[address..addressLimit] left
   * to decode into the room up to clim, completing the decoding target.
   */
  ghost predicate CharBufferAt(after: seq<JChar>, before: seq<JChar>, start: int, written: seq<JChar>, cpos: int,
                               clim: int, target: Decoded, mem: seq<bv8>, address: int, addressLimit: int)
  {
    0 <= address <= addressLimit <= |mem| && cpos == start + |written| && cpos <= clim <= |after| &&
    NonNativeCopy.Spliced(after, before, start, written) &&
    BoundedAs(target, written, mem[address..addressLimit], clim - cpos)
  }

  /**
   * A run of ASCII bytes from address on, each written at cpos after checkCharBufferPos:
   * the inner loop of getCharBufferNonAsciiCharsFromUtf8. It stops at the first other
   * byte or at addressLimit, or fails when an ASCII byte finds cpos at clim.
   */
  method BoundedAsciiRun(mem: seq<bv8>, address: int, addressLimit: int, carr: array<JChar>, cpos: int, clim: int,
                         ghost before: seq<JChar>, ghost start: int, ghost written: seq<JChar>, ghost target: Decoded)
    returns (address': int, cpos': int, overflow: bool, ghost written': seq<JChar>)
    requires CharBufferAt(carr[..], before, start, written, cpos, clim, target, mem, address, addressLimit)
    modifies carr
    ensures CharBufferAt(carr[..], before, start, written', cpos', clim, target, mem, address', addressLimit)
    ensures address <= address' && (!overflow ==> address' == addressLimit || !IsOneByte(mem[address']))
    ensures overflow ==> target == Decoded(written', Fail(BufferOverflow))
    ensures AsciiSpan(mem, address, address')
  {
    address', cpos', overflow, written' := address, cpos, false, written;
    while address' < addressLimit
      invariant address <= address' && AsciiSpan(mem, address, address')
      invariant CharBufferAt(carr[..], before, start, written', cpos', clim, target, mem, address', addressLimit)
    {
      var b := mem[address'];
      if !IsOneByte(b) {
        break;
      }
      if cpos' == clim {
        BoundedThrewAt(mem, target, written', address', addressLimit, clim - cpos', BufferOverflow);
        return address', cpos', true, written';
      }
      NonNativeCopy.WriteNext(carr, before, start, written', cpos', b as int);
      ghost var written0, address0 := written', address';
      address', cpos', written' := address' + 1, cpos' + 1, written' + [b as int];
      BoundedAsciiAt(mem, target, written0, address0, addressLimit, clim - cpos' + 1, written', address', clim - cpos');
    }
  }

  /** The chars cs, one or two of them, written from cpos on. */
  method WriteChars(carr: array<JChar>, ghost before: seq<JChar>, ghost start: int, ghost written: seq<JChar>,
                    cpos: int, cs: seq<JChar>)
    requires NonNativeCopy.Spliced(carr[..], before, start, written) && cpos == start + |written|
    requires 1 <= |cs| <= 2 && cpos + |cs| <= carr.Length
    modifies carr
    ensures NonNativeCopy.Spliced(carr[..], before, start, written + cs)
  {
    NonNativeCopy.WriteNext(carr, before, start, written, cpos, cs[0]);
    if |cs| == 2 {
      NonNativeCopy.WriteNext(carr, before, start, written + [cs[0]], cpos + 1, cs[1]);
      assert written + [cs[0]] + [cs[1]] == written + cs;
    } else {
      assert written + [cs[0]] == written + cs;
    }
  }

  /**
   * One pass of getCharBufferNonAsciiCharsFromUtf8's loop at an ASCII lead byte:
   * checkCharBufferPos, the char, then the inner run of ASCII bytes. Either it moves
   * past at least that byte, or it throws BufferOverflowException and the decoding
   * target ends with the chars written.
   */
  method CharBufferAsciiStep(mem: seq<bv8>, carr: array<JChar>, cpos: int, clim: int, address: int,
                             addressLimit: int, ghost before: seq<JChar>, ghost start: int,
                             ghost written: seq<JChar>, ghost target: Decoded)
    returns (address': int, cpos': int, out: Outcome, ghost written': seq<JChar>)
    requires CharBufferAt(carr[..], before, start, written, cpos, clim, target, mem, address, addressLimit)
    requires address < addressLimit && IsOneByte(mem[address])
    modifies carr
    ensures CharBufferAt(carr[..], before, start, written', cpos', clim, target, mem, address', addressLimit)
    ensures out.Pass? ==> address < address'
    ensures out.Fail? ==> target == Decoded(written', out)
  {
    if cpos == clim {
      BoundedThrewAt(mem, target, written, address, addressLimit, clim - cpos, BufferOverflow);
      return address, cpos, Fail(BufferOverflow), written;
    }
    var ch: JChar := mem[address] as int;
    NonNativeCopy.WriteNext(carr, before, start, written, cpos, ch);
    BoundedAsciiAt(mem, target, written, address, addressLimit, clim - cpos, written + [ch], address + 1, clim - cpos - 1);
    var overflow;
    address', cpos', overflow, written' :=
      BoundedAsciiRun(mem, address + 1, addressLimit, carr, cpos + 1, clim, before, start, written + [ch], target);
    out := if overflow then Fail(BufferOverflow) else Pass;
  }

  /**
   * One pass of getCharBufferNonAsciiCharsFromUtf8's loop at any other lead byte:
   * DecodeNonAsciiBounded, then its one or two chars. Either it moves past the whole
   * sequence, or it throws and the decoding target ends with the chars written.
   */
  method CharBufferNonAsciiStep(mem: seq<bv8>, carr: array<JChar>, cpos: int, clim: int, address: int,
                                addressLimit: int, ghost before: seq<JChar>, ghost start: int,
                                ghost written: seq<JChar>, ghost target: Decoded)
    returns (address': int, cpos': int, out: Outcome, ghost written': seq<JChar>)
    requires CharBufferAt(carr[..], before, start, written, cpos, clim, target, mem, address, addressLimit)
    requires address < addressLimit && !IsOneByte(mem[address])
    modifies carr
    ensures CharBufferAt(carr[..], before, start, written', cpos', clim, target, mem, address', addressLimit)
    ensures out.Pass? ==> address < address'
    ensures out.Fail? ==> target == Decoded(written', out)
  {
    var step := DecodeNonAsciiBounded(mem, address, addressLimit, cpos, clim);
    if step.Err? {
      BoundedThrewAt(mem, target, written, address, addressLimit, clim - cpos, step.error);
      return address, cpos, Fail(step.error), written;
    }
    WriteChars(carr, before, start, written, cpos, step.value);
    address', cpos', out, written' := address + SequenceLength(mem[address]), cpos + |step.value|, Pass, written + step.value;
    BoundedAdvance(mem, target, written, address, addressLimit, clim - cpos, written', address', clim - cpos');
  }

  /**
   * getCharBufferNonAsciiCharsFromUtf8: decodes mem[address..addressLimit] into carr from
   * cpos on, below clim; ASCII bytes go through checkCharBufferPos one by one, other
   * lead bytes through DecodeNonAsciiBounded. It completes the decoding target, leaves
   * cpos' after the last char written, and returns cpos' or throws.
   */
  method GetCharBufferNonAsciiCharsFromUtf8(mem: seq<bv8>, carr: array<JChar>, cpos: int, clim: int,
                                            address: int, addressLimit: int, ghost before: seq<JChar>,
                                            ghost start: int, ghost written: seq<JChar>, ghost target: Decoded)
    returns (cpos': int, r: Result<int>)
    requires CharBufferAt(carr[..], before, start, written, cpos, clim, target, mem, address, addressLimit)
    modifies carr
    ensures cpos' == start + |target.chars| && NonNativeCopy.Spliced(carr[..], before, start, target.chars)
    ensures r == Reported(cpos', target.outcome)
  {
    var a := address;
    cpos' := cpos;
    ghost var w: seq<JChar> := written;
    while a < addressLimit
      invariant CharBufferAt(carr[..], before, start, w, cpos', clim, target, mem, a, addressLimit)
      decreases addressLimit - a
    {
      var out;
      if IsOneByte(mem[a]) {
        a, cpos', out, w := CharBufferAsciiStep(mem, carr, cpos', clim, a, addressLimit, before, start, w, target);
      } else {
        a, cpos', out, w := CharBufferNonAsciiStep(mem, carr, cpos', clim, a, addressLimit, before, start, w, target);
      }
      if out.Fail? {
        return cpos', Err(out.error);
      }
    }
    BoundedDone(target, w, mem[a..addressLimit], clim - cpos');
    r := Ok(cpos');
  }

  /** Every byte of mem from lo below hi is ASCII. */
  ghost predicate AsciiSpan(mem: seq<bv8>, lo: int, hi: int)
  {
    forall k | lo <= k < hi :: 0 <= k < |mem| && IsOneByte(mem[k])
  }

  /** Every byte of b is ASCII: the bytes getCharBufferCharsFromUtf8's ASCII loops use up. */
  predicate AllAscii(b: seq<bv8>)
  {
    forall i | 0 <= i < |b| :: IsOneByte(b[i])
  }

  /** The chars of ASCII bytes, one each. */
  function AsciiChars(b: seq<bv8>): seq<JChar>
  {
    seq(|b|, i requires 0 <= i < |b| => b[i] as int)
  }

  lemma AsciiSpanSlice(mem: seq<bv8>, lo: int, hi: int)
    requires 0 <= lo <= hi <= |mem|
    ensures AsciiSpan(mem, lo, hi) <==> AllAscii(mem[lo..hi])
  {
    if AllAscii(mem[lo..hi]) {
      forall k | lo <= k < hi
        ensures IsOneByte(mem[k])
      {
        assert mem[k] == mem[lo..hi][k - lo];
      }
    }
  }

  /**
   * Bytes that are all ASCII decode one char each into the room there is: all of them
   * when they fit, and otherwise as many as fit, followed by BufferOverflowException.
   */
  lemma {:induction false} DecodeBoundedAscii(b: seq<bv8>, room: int)
    requires AllAscii(b) && 0 <= room
    ensures DecodeBounded(b, room) == if |b| <= room then Decoded(AsciiChars(b), Pass)
                                      else Decoded(AsciiChars(b[..room]), Fail(BufferOverflow))
    decreases |b|
  {
    if |b| > 0 && room > 0 {
      assert b[..1] == [b[0]];
      DecodeBoundedAscii(b[1..], room - 1);
      if |b| <= room {
        assert AsciiChars(b) == [b[0] as int] + AsciiChars(b[1..]);
      } else {
        assert b[1..][..room - 1] == b[..room][1..];
        assert AsciiChars(b[..room]) == [b[0] as int] + AsciiChars(b[..room][1..]);
      }
    }
  }

  /**
   * The first loop of getCharBufferCharsFromUtf8: ASCII bytes written without
   * checkCharBufferPos, up to stop, which leaves room for each of them.
   */
  method UncheckedAsciiRun(mem: seq<bv8>, address: int, stop: int, addressLimit: int, carr: array<JChar>,
                           cpos: int, clim: int, ghost before: seq<JChar>, ghost start: int,
                           ghost written: seq<JChar>, ghost target: Decoded)
    returns (address': int, cpos': int, ghost written': seq<JChar>)
    requires CharBufferAt(carr[..], before, start, written, cpos, clim, target, mem, address, addressLimit)
    requires address <= stop <= addressLimit && stop - address <= clim - cpos
    modifies carr
    ensures CharBufferAt(carr[..], before, start, written', cpos', clim, target, mem, address', addressLimit)
    ensures address <= address' <= stop && (address' == stop || !IsOneByte(mem[address']))
    ensures AsciiSpan(mem, address, address')
  {
    address', cpos', written' := address, cpos, written;
    while address' < stop
      invariant address <= address' <= stop && stop - address' <= clim - cpos'
      invariant AsciiSpan(mem, address, address')
      invariant CharBufferAt(carr[..], before, start, written', cpos', clim, target, mem, address', addressLimit)
    {
      var b := mem[address'];
      if !IsOneByte(b) {
        break;
      }
      var ch: JChar := b as int;
      NonNativeCopy.WriteNext(carr, before, start, written', cpos', ch);
      ghost var written0, address0 := written', address';
      address', cpos', written' := address' + 1, cpos' + 1, written' + [ch];
      BoundedAsciiAt(mem, target, written0, address0, addressLimit, clim - cpos' + 1, written', address', clim - cpos');
    }
  }

  /**
   * The body of getCharBufferCharsFromUtf8 from startCpos (position plus arrayOffset)
   * below clim (limit plus arrayOffset): the unchecked and the checked ASCII loops, then
   * getCharBufferNonAsciiCharsFromUtf8 for the rest. It returns the count of chars when
   * every byte was ASCII, and otherwise the new position (cpos' less arrayOffset).
   */
  method GetCharBufferCharsInto(mem: seq<bv8>, carr: array<JChar>, startCpos: int, clim: int, address: int,
                                addressLimit: int, arrayOffset: int, ghost before: seq<JChar>, ghost target: Decoded)
    returns (cpos': int, r: Result<int>)
    requires CharBufferAt(carr[..], before, startCpos, [], startCpos, clim, target, mem, address, addressLimit)
    modifies carr
    ensures cpos' == startCpos + |target.chars| && NonNativeCopy.Spliced(carr[..], before, startCpos, target.chars)
    ensures r == Reported(if AsciiSpan(mem, address, addressLimit) then cpos' - startCpos else cpos' - arrayOffset,
                          target.outcome)
  {
    var noCheckLimit := if addressLimit - address < clim - startCpos then addressLimit - address else clim - startCpos;
    var a, cpos, w := UncheckedAsciiRun(mem, address, address + noCheckLimit, addressLimit, carr, startCpos, clim,
                                        before, startCpos, [], target);
    ghost var a0 := a;
    var overflow;
    a, cpos, overflow, w := BoundedAsciiRun(mem, a, addressLimit, carr, cpos, clim, before, startCpos, w, target);
    if overflow {
      return cpos, Err(BufferOverflow);
    }
    assert AsciiSpan(mem, address, a) by {
      assert AsciiSpan(mem, address, a0) && AsciiSpan(mem, a0, a);
    }
    if a == addressLimit {
      BoundedDone(target, w, mem[a..addressLimit], clim - cpos);
      return cpos, Ok(cpos - startCpos);
    }
    assert !AsciiSpan(mem, address, addressLimit) by {
      assert address <= a < addressLimit && !IsOneByte(mem[a]);
    }
    var res;
    cpos', res := GetCharBufferNonAsciiCharsFromUtf8(mem, carr, cpos, clim, a, addressLimit, before, startCpos, w, target);
    r := if res.Ok? then Ok(res.value - arrayOffset) else res;
  }

  /**
   * What getCharBufferCharsFromUtf8 leaves behind for the bytes b and a heap CharBuffer
   * over the char array before, with arrayOffset, position and limit: the bounded
   * decoding's chars from index arrayOffset + position on and nothing else changed, the
   * position moved past them, and the count of chars returned when every byte was ASCII,
   * the new position otherwise, or the decoding's exception.
   */
  ghost predicate CharBufferResult(after: seq<JChar>, before: seq<JChar>, arrayOffset: int, position: int, limit: int,
                                   b: seq<bv8>, newPosition: int, r: Result<int>)
  {
    var d := DecodeBounded(b, limit - position);
    var start := arrayOffset + position;
    newPosition == position + |d.chars| && 0 <= start && start + |d.chars| <= |before| &&
    after == before[..start] + d.chars + before[start + |d.chars|..] &&
    r == Reported(if AllAscii(b) then |d.chars| else newPosition, d.outcome)
  }

  lemma CharBufferResultOf(after: seq<JChar>, before: seq<JChar>, arrayOffset: int, position: int, limit: int,
                           mem: seq<bv8>, address: int, addressLimit: int, target: Decoded, startCpos: int,
                           cpos': int, r: Result<int>)
    requires 0 <= address <= addressLimit <= |mem| && target == DecodeBounded(mem[address..addressLimit], limit - position)
    requires startCpos == position + arrayOffset
    requires cpos' == startCpos + |target.chars| && NonNativeCopy.Spliced(after, before, startCpos, target.chars)
    requires r == Reported(if AsciiSpan(mem, address, addressLimit) then cpos' - startCpos else cpos' - arrayOffset,
                           target.outcome)
    ensures CharBufferResult(after, before, arrayOffset, position, limit, mem[address..addressLimit], cpos' - arrayOffset, r)
  {
    NonNativeCopy.SplicedIsSplice(after, before, startCpos, target.chars);
    AsciiSpanSlice(mem, address, addressLimit);
  }

  /**
   * getCharBufferCharsFromUtf8: decodes the utf8LengthBytes bytes at offsetBytes of the
   * memory into a heap CharBuffer over carr with arrayOffset, position and limit,
   * returning the new position and the result of the call.
   */
  method GetCharBufferCharsFromUtf8(mem: seq<bv8>, cumBase: int, offsetBytes: int, utf8LengthBytes: int,
                                    carr: array<JChar>, arrayOffset: int, position: int, limit: int)
    returns (newPosition: int, r: Result<int>)
    requires 0 <= cumBase && 0 <= offsetBytes && 0 <= utf8LengthBytes
    requires cumBase + offsetBytes + utf8LengthBytes <= |mem|
    requires 0 <= arrayOffset && 0 <= position <= limit && arrayOffset + limit <= carr.Length
    modifies carr
    ensures CharBufferResult(carr[..], old(carr[..]), arrayOffset, position, limit,
                             mem[cumBase + offsetBytes..cumBase + offsetBytes + utf8LengthBytes], newPosition, r)
  {
    var startCpos := position + arrayOffset;
    var clim := arrayOffset + limit;
    var address := cumBase + offsetBytes;
    var addressLimit := address + utf8LengthBytes;
    ghost var before := carr[..];
    ghost var target := DecodeBounded(mem[address..addressLimit], limit - position);
    NonNativeCopy.SplicedNone(carr[..], startCpos);
    assert target == PrependChars([], target);
    var cpos;
    cpos, r := GetCharBufferCharsInto(mem, carr, startCpos, clim, address, addressLimit, arrayOffset, before, target);
    newPosition := cpos - arrayOffset;
    CharBufferResultOf(carr[..], before, arrayOffset, position, limit, mem, address, addressLimit, target, startCpos,
                       cpos, r);
  }
}
