/**
 * Util: byte-order helpers, argument checks, mask predicates, string padding and the
 * binary search over a region of longs.
 */
module Util {
  import opened Primitives
  import UnsafeUtil

  // ---------------------------------------------------------------------------------
  // Byte order

  /** otherByteOrder: the native order maps to the non-native one and vice versa. */
  function OtherByteOrder(order: ByteOrder): (r: ByteOrder)
    ensures r != order
    ensures order == NATIVE_ORDER <==> r == NON_NATIVE_ORDER
  {
    if order == NATIVE_ORDER then NON_NATIVE_ORDER else NATIVE_ORDER
  }

  lemma OtherByteOrderInvolutive(order: ByteOrder)
    ensures OtherByteOrder(OtherByteOrder(order)) == order
  {
  }

  /** A Java reference that may be null. */
  datatype Nullable<T> = Null | Ref(get: T)

  /** isNativeByteOrder: IllegalArgumentException for a null order. */
  function IsNativeByteOrder(order: Nullable<ByteOrder>): (r: Result<bool>)
    ensures r.Err? <==> order.Null?
    ensures r.Err? ==> r.error == IllegalArgument
    ensures r.Ok? ==> (r.value <==> order.get == NATIVE_ORDER)
  {
    match order
    case Null => Err(IllegalArgument)
    case Ref(o) => Ok(o == NATIVE_ORDER)
  }

  // ---------------------------------------------------------------------------------
  // Argument checks

  /** negativeCheck: IllegalArgumentException exactly for a negative value. */
  function NegativeCheck(value: i64): (r: Outcome)
    ensures r == Pass <==> value >= 0
    ensures r != Pass ==> r == Fail(IllegalArgument)
  {
    if value < 0 then Fail(IllegalArgument) else Pass
  }

  /** zeroCheck: IllegalArgumentException exactly for a value that is not positive. */
  function ZeroCheck(value: i64): (r: Outcome)
    ensures r == Pass <==> value > 0
    ensures r != Pass ==> r == Fail(IllegalArgument)
  {
    if value <= 0 then Fail(IllegalArgument) else Pass
  }

  // ---------------------------------------------------------------------------------
  // Mask predicates. The source tests the complement of the value against the mask;
  // each ensures states the test in terms of the value's own bits.

  function IsAllBitsClear(value: bv64, bitMask: bv64): (r: bool)
    ensures r <==> (value & bitMask) == 0
  {
    (!value & bitMask) == bitMask
  }

  function IsAllBitsSet(value: bv64, bitMask: bv64): (r: bool)
    ensures r <==> (value & bitMask) == bitMask
  {
    (value & bitMask) == bitMask
  }

  function IsAnyBitsClear(value: bv64, bitMask: bv64): (r: bool)
    ensures r <==> (value & bitMask) != bitMask
    ensures r <==> !IsAllBitsSet(value, bitMask)
  {
    ComplementMask(value, bitMask);
    (!value & bitMask) != 0
  }

  /** Under a mask the complement's bits are the mask's bits that the value lacks. */
  lemma ComplementMask(value: bv64, bitMask: bv64)
    ensures !value & bitMask == bitMask ^ (value & bitMask)
  {
  }

  function IsAnyBitsSet(value: bv64, bitMask: bv64): (r: bool)
    ensures r <==> !IsAllBitsClear(value, bitMask)
  {
    (value & bitMask) != 0
  }

  /** With an empty mask every bit of interest is both clear and set. */
  lemma EmptyMask(value: bv64)
    ensures IsAllBitsClear(value, 0) && IsAllBitsSet(value, 0)
    ensures !IsAnyBitsClear(value, 0) && !IsAnyBitsSet(value, 0)
  {
  }

  // ---------------------------------------------------------------------------------
  // Padding

  /**
   * characterPad: a string shorter than the field is copied into a char array of the
   * field's length, after the pad characters or before them; any other string is
   * returned as it is. Lengths count UTF-16 units, as String.length does.
   */
  method CharacterPad(s: seq<JChar>, fieldLength: i32, padChar: JChar, postpend: bool) returns (r: seq<JChar>)
    ensures |s| >= fieldLength ==> r == s
    ensures |s| < fieldLength ==> |r| == fieldLength
    ensures |s| < fieldLength && postpend ==>
              r[..|s|] == s && forall i :: |s| <= i < |r| ==> r[i] == padChar
    ensures |s| < fieldLength && !postpend ==>
              r[|r| - |s|..] == s && forall i :: 0 <= i < |r| - |s| ==> r[i] == padChar
  {
    var sLen := |s|;
    if sLen < fieldLength as int {
      var out := new JChar[fieldLength];
      var blanks := fieldLength as int - sLen;
      if postpend {
        for i := 0 to sLen
          invariant forall k :: 0 <= k < i ==> out[k] == s[k]
        {
          out[i] := s[i];
        }
        for i := sLen to fieldLength as int
          invariant forall k :: 0 <= k < sLen ==> out[k] == s[k]
          invariant forall k :: sLen <= k < i ==> out[k] == padChar
        {
          out[i] := padChar;
        }
      } else {
        for i := 0 to blanks
          invariant forall k :: 0 <= k < i ==> out[k] == padChar
        {
          out[i] := padChar;
        }
        for i := blanks to fieldLength as int
          invariant forall k :: 0 <= k < blanks ==> out[k] == padChar
          invariant forall k :: blanks <= k < i ==> out[k] == s[k - blanks]
        {
          out[i] := s[i - blanks];
        }
      }
      r := out[..];
      assert postpend ==> r[..sLen] == s;
      assert !postpend ==> r[blanks..] == s;
    } else {
      r := s;
    }
  }

  /** The char '0'. */
  const ZERO_CHAR: JChar := 0x30

  /** zeroPad: characterPad with '0' (U+0030) in front. */
  method ZeroPad(s: seq<JChar>, fieldLength: i32) returns (r: seq<JChar>)
    ensures |s| >= fieldLength ==> r == s
    ensures |s| < fieldLength ==> r == seq(fieldLength as int - |s|, _ => ZERO_CHAR) + s
  {
    r := CharacterPad(s, fieldLength, ZERO_CHAR, false);
    if |s| < fieldLength as int {
      var pad := seq(fieldLength as int - |s|, _ => ZERO_CHAR);
      assert r == r[..|r| - |s|] + r[|r| - |s|..];
      assert r[..|r| - |s|] == pad;
    }
  }

  // ---------------------------------------------------------------------------------
  // Binary search over the longs of a region, read in the region's byte order

  /**
   * The long at long-index i of a byte region (Memory.getLong(i << 3)): the native read,
   * and on a view in non-native order its reverseBytes, so the value whose native
   * layout is the stored bytes reversed.
   */
  function LongAt(mem: seq<bv8>, order: ByteOrder, i: int): (v: i64)
    requires 0 <= i && 8 * i + 8 <= |mem|
    ensures Store(v, 8) == if order == NATIVE_ORDER then mem[8 * i..8 * i + 8] else Reverse(mem[8 * i..8 * i + 8])
  {
    var b := mem[8 * i..8 * i + 8];
    StoreLoad(b);
    StoreLoad(Reverse(b));
    if order == NATIVE_ORDER then LoadSigned(b) else LoadSigned(Reverse(b))
  }

  /** On a non-native view the long read is reverseBytes of the native read. */
  lemma LongAtNonNative(mem: seq<bv8>, i: int)
    requires 0 <= i && 8 * i + 8 <= |mem|
    ensures LongAt(mem, NON_NATIVE_ORDER, i) == ReverseBytes(LoadSigned(mem[8 * i..8 * i + 8]), 8)
  {
    StoreLoad(mem[8 * i..8 * i + 8]);
  }

  /** The longs at indices [from, to), read in the view's order, ascend in signed order. */
  predicate SortedLongs(mem: seq<bv8>, order: ByteOrder, from: int, to: int)
    requires 0 <= from <= to && 8 * to <= |mem|
  {
    forall i, j :: from <= i < j < to ==> LongAt(mem, order, i) <= LongAt(mem, order, j)
  }

  /**
   * The range check binarySearchLongs intends: [from, to) is a range of whole longs
   * inside the region.
   */
  predicate SearchRangeOk(capacity: int, from: int, to: int)
  {
    0 <= from <= to && 8 * to <= capacity
  }

  /**
   * The range check as written: checkBounds(from << 3, (to - from) << 3, capacity),
   * where both shifts and the difference wrap at 64 bits.
   */
  function SearchGuardAsWritten(capacity: i64, from: i64, to: i64): (r: Outcome)
    ensures r == Pass || r == Fail(IllegalArgument)
    ensures capacity >= 0 && -0x1000_0000_0000_0000 <= from <= 0x1000_0000_0000_0000
            && -0x1000_0000_0000_0000 <= to <= 0x1000_0000_0000_0000 ==>
              (r == Pass <==> SearchRangeOk(capacity, from, to))
  {
    UnsafeUtil.CheckBounds(WrapLong(from * 8), WrapLong(WrapLong(to - from) * 8), capacity)
  }

  /**
   * For from = 2^61 the shift from << 3 wraps to 0, so the check as written admits a
   * range lying far beyond an eight-byte region, and the first probe, at mid << 3,
   * reads the long at offset 0 and reports it as index 2^61.
   */
  lemma SearchGuardWrapCounterexample()
    ensures SearchGuardAsWritten(8, 0x2000_0000_0000_0000, 0x2000_0000_0000_0001) == Pass
    ensures !SearchRangeOk(8, 0x2000_0000_0000_0000, 0x2000_0000_0000_0001)
    ensures WrapLong(0x2000_0000_0000_0000 * 8) == 0
  {
    assert WrapLong(0x2000_0000_0000_0000 * 8) == 0;
    assert WrapLong(0x2000_0000_0000_0001 - 0x2000_0000_0000_0000) == 1;
  }

  /** In a sorted range, a long below the key at mid puts every long up to mid below it. */
  lemma SortedBelow(mem: seq<bv8>, order: ByteOrder, from: int, to: int, mid: int, key: int)
    requires 0 <= from <= mid < to && 8 * to <= |mem|
    requires SortedLongs(mem, order, from, to) && LongAt(mem, order, mid) < key
    ensures forall i :: from <= i <= mid ==> LongAt(mem, order, i) < key
  {
    forall i | from <= i <= mid ensures LongAt(mem, order, i) < key {
      if i < mid { assert LongAt(mem, order, i) <= LongAt(mem, order, mid); }
    }
  }

  /** In a sorted range, a long above the key at mid puts every long from mid on above it. */
  lemma SortedAbove(mem: seq<bv8>, order: ByteOrder, from: int, to: int, mid: int, key: int)
    requires 0 <= from <= mid < to && 8 * to <= |mem|
    requires SortedLongs(mem, order, from, to) && key < LongAt(mem, order, mid)
    ensures forall i :: mid <= i < to ==> key < LongAt(mem, order, i)
  {
    forall i | mid <= i < to ensures key < LongAt(mem, order, i) {
      if mid < i { assert LongAt(mem, order, mid) <= LongAt(mem, order, i); }
    }
  }

  /**
   * binarySearchLongs with the intended range check. A found index always holds the
   * key. On a sorted range a negative result -(p + 1) names the insertion point p:
   * every long before it is smaller than the key and every long from it on is larger,
   * so the result is non-negative exactly when the key is present.
   */
  method BinarySearchLongs(mem: seq<bv8>, order: ByteOrder, from: i64, to: i64, key: i64) returns (r: Result<i64>)
    requires |mem| <= MAX_LONG
    ensures r.Err? <==> !SearchRangeOk(|mem|, from, to)
    ensures r.Err? ==> r.error == IllegalArgument
    ensures r.Ok? && r.value >= 0 ==> from <= r.value < to && LongAt(mem, order, r.value) == key
    ensures r.Ok? && r.value < 0 ==>
              var p := -(r.value + 1);
              from <= p <= to &&
              (SortedLongs(mem, order, from, to) ==>
                 (forall i :: from <= i < p ==> LongAt(mem, order, i) < key) &&
                 (forall i :: p <= i < to ==> key < LongAt(mem, order, i)))
    ensures r.Ok? && SortedLongs(mem, order, from, to) ==>
              (r.value >= 0 <==> exists i :: from <= i < to && LongAt(mem, order, i) == key)
  {
    if !SearchRangeOk(|mem|, from, to) {
      return Err(IllegalArgument);
    }
    ghost var sorted := SortedLongs(mem, order, from, to);
    var low: int := from;
    var high: int := to - 1;
    while low <= high
      invariant from <= low <= high + 1 <= to
      invariant sorted ==> forall i :: from <= i < low ==> LongAt(mem, order, i) < key
      invariant sorted ==> forall i :: high < i < to ==> key < LongAt(mem, order, i)
      decreases high - low
    {
      var mid := (low + high) / 2;
      var midVal := LongAt(mem, order, mid);
      if midVal < key {
        if sorted { SortedBelow(mem, order, from, to, mid, key); }
        low := mid + 1;
      } else if midVal > key {
        if sorted { SortedAbove(mem, order, from, to, mid, key); }
        high := mid - 1;
      } else {
        return Ok(mid);
      }
    }
    r := Ok(-(low + 1));
    if sorted {
      forall i | from <= i < to ensures LongAt(mem, order, i) != key {
        if i < low { assert LongAt(mem, order, i) < key; }
        else { assert key < LongAt(mem, order, i); }
      }
    }
  }
}
