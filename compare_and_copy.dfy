/**
 * CompareAndCopy: byte-range comparison, equality and hashing, the copy between two
 * resources (overlap allowed, memmove semantics), and the element-wise byte-reversing
 * array transfers of non-native views.
 *
 * Every resource reads and writes bytes of a backing store. The store stands for the
 * unsafe object of the resource (its heap array, or the native address space when
 * the resource is off-heap), so two resources share a store exactly when Java's
 * `arr1 == arr2` holds, and cumBaseOffset + offset is the address inside the store.
 */
module CompareAndCopy {
  import opened Primitives
  import UnsafeUtil

  /** Unsafe.copyMemory is called on at most this many bytes at a time. */
  const UNSAFE_COPY_THRESHOLD_BYTES: int := 1024 * 1024

  /** A resource as CompareAndCopy sees it (a ResourceState). */
  datatype Region = Region(store: array<bv8>, cumBaseOffset: int, capacity: i64, valid: bool)

  /** The resource's bytes lie inside its store. */
  predicate WellFormed(r: Region)
  {
    0 <= r.cumBaseOffset && 0 <= r.capacity && r.cumBaseOffset + r.capacity <= r.store.Length
  }

  /** The bytes [off, off + len) of a resource. */
  function Bytes(r: Region, off: int, len: int): (s: seq<bv8>)
    reads r.store
    requires WellFormed(r) && 0 <= off && 0 <= len && off + len <= r.capacity
    ensures |s| == len
  {
    r.store[r.cumBaseOffset + off..r.cumBaseOffset + off + len]
  }

  /**
   * checkValid then checkBounds on one resource: an invalid resource throws
   * IllegalStateException, a range outside it IllegalArgumentException.
   */
  function CheckRange(r: Region, off: i64, len: i64): (o: Outcome)
    ensures r.capacity >= 0 ==>
              (o == Pass <==> r.valid && 0 <= off && 0 <= len && off + len <= r.capacity)
    ensures !r.valid ==> o == Fail(IllegalState)
    ensures r.valid && o != Pass ==> o == Fail(IllegalArgument)
  {
    if !r.valid then Fail(IllegalState) else UnsafeUtil.CheckBounds(off, len, r.capacity)
  }

  /** The first failure of two checks made one after the other. */
  function Then(first: Outcome, second: Outcome): (o: Outcome)
    ensures o == Pass <==> first == Pass && second == Pass
    ensures first != Pass ==> o == first
  {
    if first != Pass then first else second
  }

  // ---------------------------------------------------------------------------------
  // compare

  /** Long.compare. */
  function LongCompare(x: int, y: int): (r: int)
    ensures r == -1 || r == 0 || r == 1
    ensures r < 0 <==> x < y
    ensures r == 0 <==> x == y
  {
    if x < y then -1 else if x > y then 1 else 0
  }

  /**
   * The order compare implements, from index i on: the first differing byte decides,
   * compared as signed Java bytes; when one range runs out first, the shorter range
   * is the smaller.
   */
  function LexCompareFrom(a: seq<bv8>, b: seq<bv8>, i: nat): (r: int)
    requires i <= |a| && i <= |b|
    ensures r == -1 || r == 0 || r == 1
    decreases |a| - i
  {
    if i == |a| || i == |b| then LongCompare(|a|, |b|)
    else if Signed8(a[i]) < Signed8(b[i]) then -1
    else if Signed8(a[i]) > Signed8(b[i]) then 1
    else LexCompareFrom(a, b, i + 1)
  }

  /** The lexicographic comparison of two byte ranges. */
  function LexCompare(a: seq<bv8>, b: seq<bv8>): (r: int)
    ensures r == -1 || r == 0 || r == 1
  {
    LexCompareFrom(a, b, 0)
  }

  /** Two bytes have the same Java value exactly when they have the same bits. */
  lemma Signed8Injective(x: bv8, y: bv8)
    ensures Signed8(x) == Signed8(y) <==> x == y
  {
    if Signed8(x) == Signed8(y) {
      assert x as int == y as int;
    }
  }

  lemma {:induction false} LexCompareFromZero(a: seq<bv8>, b: seq<bv8>, i: nat)
    requires i <= |a| && i <= |b|
    ensures LexCompareFrom(a, b, i) == 0 <==> |a| == |b| && forall k :: i <= k < |a| ==> a[k] == b[k]
    decreases |a| - i
  {
    if i < |a| && i < |b| {
      Signed8Injective(a[i], b[i]);
      LexCompareFromZero(a, b, i + 1);
    }
  }

  /** Two ranges compare equal exactly when they hold the same bytes. */
  lemma LexCompareZeroIffEqual(a: seq<bv8>, b: seq<bv8>)
    ensures LexCompare(a, b) == 0 <==> a == b
  {
    LexCompareFromZero(a, b, 0);
  }

  lemma {:induction false} LexCompareFromAntisymmetric(a: seq<bv8>, b: seq<bv8>, i: nat)
    requires i <= |a| && i <= |b|
    ensures LexCompareFrom(b, a, i) == -LexCompareFrom(a, b, i)
    decreases |a| - i
  {
    if i < |a| && i < |b| && Signed8(a[i]) == Signed8(b[i]) {
      LexCompareFromAntisymmetric(a, b, i + 1);
    }
  }

  /** Swapping the ranges negates the comparison. */
  lemma LexCompareAntisymmetric(a: seq<bv8>, b: seq<bv8>)
    ensures LexCompare(b, a) == -LexCompare(a, b)
  {
    LexCompareFromAntisymmetric(a, b, 0);
  }

  lemma {:induction false} LexCompareFromPrefixes(s: seq<bv8>, m: nat, n: nat, i: nat)
    requires m <= |s| && n <= |s| && i <= m && i <= n
    ensures LexCompareFrom(s[..m], s[..n], i) == LongCompare(m, n)
    decreases m - i
  {
    if i < m && i < n {
      assert s[..m][i] == s[..n][i];
      LexCompareFromPrefixes(s, m, n, i + 1);
    }
  }

  /** Two prefixes of one sequence compare by their lengths. */
  lemma LexComparePrefixes(s: seq<bv8>, m: nat, n: nat)
    requires m <= |s| && n <= |s|
    ensures LexCompare(s[..m], s[..n]) == LongCompare(m, n)
  {
    LexCompareFromPrefixes(s, m, n, 0);
  }

  /**
   * The byte scan of compare: the common prefix of the two ranges is compared byte by
   * byte; the first difference decides, otherwise the lengths do.
   */
  method CompareBytes(m1: array<bv8>, c1: int, len1: int, m2: array<bv8>, c2: int, len2: int)
    returns (r: int)
    requires 0 <= c1 && 0 <= len1 && c1 + len1 <= m1.Length
    requires 0 <= c2 && 0 <= len2 && c2 + len2 <= m2.Length
    ensures r == LexCompare(m1[c1..c1 + len1], m2[c2..c2 + len2])
  {
    ghost var a, b := m1[c1..c1 + len1], m2[c2..c2 + len2];
    var lenBytes := if len1 <= len2 then len1 else len2;
    var i := 0;
    while i < lenBytes
      invariant 0 <= i <= lenBytes
      invariant LexCompare(a, b) == LexCompareFrom(a, b, i)
    {
      var byte1 := Signed8(m1[c1 + i]);
      var byte2 := Signed8(m2[c2 + i]);
      assert a[i] == m1[c1 + i] && b[i] == m2[c2 + i];
      if byte1 < byte2 {
        return -1;
      }
      if byte1 > byte2 {
        return 1;
      }
      i := i + 1;
    }
    r := LongCompare(len1, len2);
  }

  /**
   * compare: both resources are checked, then the common prefix is scanned unless
   * both ranges start at one address of one store; the result is the lexicographic
   * comparison of the two ranges.
   */
  method Compare(r1: Region, off1: i64, len1: i64, r2: Region, off2: i64, len2: i64) returns (res: Result<int>)
    requires WellFormed(r1) && WellFormed(r2)
    ensures Then(CheckRange(r1, off1, len1), CheckRange(r2, off2, len2)) != Pass ==>
              res == Err(Then(CheckRange(r1, off1, len1), CheckRange(r2, off2, len2)).error)
    ensures Then(CheckRange(r1, off1, len1), CheckRange(r2, off2, len2)) == Pass ==>
              res == Ok(LexCompare(Bytes(r1, off1, len1), Bytes(r2, off2, len2)))
  {
    var check := Then(CheckRange(r1, off1, len1), CheckRange(r2, off2, len2));
    if check != Pass {
      return Err(check.error);
    }
    var cumOff1 := r1.cumBaseOffset + off1;
    var cumOff2 := r2.cumBaseOffset + off2;
    if r1.store != r2.store || cumOff1 != cumOff2 {
      var r := CompareBytes(r1.store, cumOff1, len1, r2.store, cumOff2, len2);
      return Ok(r);
    }
    SameStartCompare(r1, off1, len1, r2, off2, len2);
    res := Ok(LongCompare(len1, len2));
  }

  /** Two ranges starting at the same byte of one store compare by their lengths. */
  lemma SameStartCompare(r1: Region, off1: int, len1: int, r2: Region, off2: int, len2: int)
    requires WellFormed(r1) && WellFormed(r2) && r1.store == r2.store
    requires 0 <= off1 && 0 <= len1 && off1 + len1 <= r1.capacity
    requires 0 <= off2 && 0 <= len2 && off2 + len2 <= r2.capacity
    requires r1.cumBaseOffset + off1 == r2.cumBaseOffset + off2
    ensures LexCompare(Bytes(r1, off1, len1), Bytes(r2, off2, len2)) == LongCompare(len1, len2)
  {
    var c := r1.cumBaseOffset + off1;
    var longer := if len1 <= len2 then len2 else len1;
    var s := r1.store[c..c + longer];
    assert Bytes(r1, off1, len1) == s[..len1] && Bytes(r2, off2, len2) == s[..len2];
    LexComparePrefixes(s, len1, len2);
  }

  // ---------------------------------------------------------------------------------
  // equals

  /** The byte at base + k of a store; a quantifier over k hangs on it. */
  function At(m: array<bv8>, base: int, k: int): (b: bv8)
    reads m
    requires 0 <= base + k < m.Length
    ensures b == m[base + k]
  {
    m[base + k]
  }

  /** The n bytes from c1 in m1 are the n bytes from c2 in m2. */
  predicate SameBytes(m1: array<bv8>, c1: int, m2: array<bv8>, c2: int, n: int)
    reads m1, m2
    requires 0 <= c1 && 0 <= c2 && 0 <= n && c1 + n <= m1.Length && c2 + n <= m2.Length
  {
    forall k :: 0 <= k < n ==> At(m1, c1, k) == At(m2, c2, k)
  }

  lemma SameBytesSlices(m1: array<bv8>, c1: int, m2: array<bv8>, c2: int, n: int)
    requires 0 <= c1 && 0 <= c2 && 0 <= n && c1 + n <= m1.Length && c2 + n <= m2.Length
    ensures SameBytes(m1, c1, m2, c2, n) <==> m1[c1..c1 + n] == m2[c2..c2 + n]
  {
    if m1[c1..c1 + n] == m2[c2..c2 + n] {
      forall k | 0 <= k < n ensures At(m1, c1, k) == At(m2, c2, k) {
        assert m1[c1..c1 + n][k] == m2[c2..c2 + n][k];
      }
    }
    if SameBytes(m1, c1, m2, c2, n) {
      var a, b := m1[c1..c1 + n], m2[c2..c2 + n];
      forall k | 0 <= k < n ensures a[k] == b[k] {
        assert At(m1, c1, k) == At(m2, c2, k);
      }
    }
  }

  /** Agreement on [0, n) and on [n, n + w) is agreement on [0, n + w). */
  lemma SameBytesExtend(m1: array<bv8>, c1: int, m2: array<bv8>, c2: int, n: int, w: int)
    requires 0 <= c1 && 0 <= c2 && 0 <= n && 0 <= w && c1 + n + w <= m1.Length && c2 + n + w <= m2.Length
    requires SameBytes(m1, c1, m2, c2, n) && SameBytes(m1, c1 + n, m2, c2 + n, w)
    ensures SameBytes(m1, c1, m2, c2, n + w)
  {
    forall k | 0 <= k < n + w ensures At(m1, c1, k) == At(m2, c2, k) {
      if k >= n {
        assert At(m1, c1 + n, k - n) == At(m2, c2 + n, k - n);
      }
    }
  }

  /** A difference inside [n, n + w) is a difference inside any longer prefix. */
  lemma SameBytesBreak(m1: array<bv8>, c1: int, m2: array<bv8>, c2: int, n: int, w: int, total: int)
    requires 0 <= c1 && 0 <= c2 && 0 <= n && 0 <= w && n + w <= total
    requires c1 + total <= m1.Length && c2 + total <= m2.Length
    requires !SameBytes(m1, c1 + n, m2, c2 + n, w)
    ensures !SameBytes(m1, c1, m2, c2, total)
  {
    var j :| 0 <= j < w && At(m1, c1 + n, j) != At(m2, c2 + n, j);
    assert At(m1, c1, n + j) != At(m2, c2, n + j);
  }

  /** Two eight-byte words load as the same long exactly when their bytes agree. */
  lemma WordsEqual(m1: array<bv8>, c1: int, m2: array<bv8>, c2: int)
    requires 0 <= c1 && c1 + 8 <= m1.Length && 0 <= c2 && c2 + 8 <= m2.Length
    ensures LoadSigned(m1[c1..c1 + 8]) == LoadSigned(m2[c2..c2 + 8]) <==> SameBytes(m1, c1, m2, c2, 8)
  {
    StoreLoad(m1[c1..c1 + 8]);
    StoreLoad(m2[c2..c2 + 8]);
    SameBytesSlices(m1, c1, m2, c2, 8);
  }

  /** equalsByBytes: the byte-by-byte remainder check. */
  method EqualsByBytes(arr1: array<bv8>, cumOff1: int, arr2: array<bv8>, cumOff2: int, lenBytes: int)
    returns (eq: bool)
    requires 0 <= lenBytes && 0 <= cumOff1 && cumOff1 + lenBytes <= arr1.Length
    requires 0 <= cumOff2 && cumOff2 + lenBytes <= arr2.Length
    ensures eq <==> SameBytes(arr1, cumOff1, arr2, cumOff2, lenBytes)
  {
    for i := 0 to lenBytes
      invariant SameBytes(arr1, cumOff1, arr2, cumOff2, i)
    {
      if arr1[cumOff1 + i] != arr2[cumOff2 + i] {
        assert At(arr1, cumOff1 + i, 0) != At(arr2, cumOff2 + i, 0);
        SameBytesBreak(arr1, cumOff1, arr2, cumOff2, i, 1, lenBytes);
        return false;
      }
      assert At(arr1, cumOff1 + i, 0) == At(arr2, cumOff2 + i, 0);
      SameBytesExtend(arr1, cumOff1, arr2, cumOff2, i, 1);
    }
    eq := true;
  }

  /**
   * The word loop of one chunk: eight-byte words are compared while a whole word is
   * left in the chunk. On a mismatch eq is false and the ranges differ; otherwise i
   * is the number of bytes the words covered.
   */
  method EqualsWords(arr1: array<bv8>, cumOff1: int, arr2: array<bv8>, cumOff2: int, chunk: int)
    returns (eq: bool, i: int)
    requires 0 <= chunk && 0 <= cumOff1 && cumOff1 + chunk <= arr1.Length
    requires 0 <= cumOff2 && cumOff2 + chunk <= arr2.Length
    ensures !eq ==> !SameBytes(arr1, cumOff1, arr2, cumOff2, chunk)
    ensures eq ==> 0 <= i <= chunk && chunk - i < 8 && i % 8 == 0
    ensures eq ==> SameBytes(arr1, cumOff1, arr2, cumOff2, i)
  {
    i := 0;
    while i <= chunk - 8
      invariant 0 <= i <= chunk && i % 8 == 0
      invariant SameBytes(arr1, cumOff1, arr2, cumOff2, i)
    {
      WordsEqual(arr1, cumOff1 + i, arr2, cumOff2 + i);
      if LoadSigned(arr1[cumOff1 + i..cumOff1 + i + 8]) != LoadSigned(arr2[cumOff2 + i..cumOff2 + i + 8]) {
        SameBytesBreak(arr1, cumOff1, arr2, cumOff2, i, 8, chunk);
        return false, i;
      }
      SameBytesExtend(arr1, cumOff1, arr2, cumOff2, i, 8);
      i := i + 8;
    }
    eq := true;
  }

  /**
   * The chunked scan of equals: eight-byte words in chunks of at most
   * UNSAFE_COPY_THRESHOLD_BYTES, then the remaining bytes one by one.
   */
  method EqualsChunked(m1: array<bv8>, c1: int, m2: array<bv8>, c2: int, lengthBytes: int) returns (eq: bool)
    requires 0 <= lengthBytes && 0 <= c1 && c1 + lengthBytes <= m1.Length
    requires 0 <= c2 && c2 + lengthBytes <= m2.Length
    ensures eq <==> SameBytes(m1, c1, m2, c2, lengthBytes)
  {
    var len := lengthBytes;
    var cumOff1, cumOff2 := c1, c2;
    while len >= 8
      invariant 0 <= len && cumOff1 - c1 == cumOff2 - c2 == lengthBytes - len
      invariant SameBytes(m1, c1, m2, c2, cumOff1 - c1)
      decreases len
    {
      var chunk := if len <= UNSAFE_COPY_THRESHOLD_BYTES then len else UNSAFE_COPY_THRESHOLD_BYTES;
      var i;
      eq, i := EqualsWords(m1, cumOff1, m2, cumOff2, chunk);
      if !eq {
        SameBytesBreak(m1, c1, m2, c2, cumOff1 - c1, chunk, lengthBytes);
        return false;
      }
      SameBytesExtend(m1, c1, m2, c2, cumOff1 - c1, i);
      len := len - i;
      cumOff1 := cumOff1 + i;
      cumOff2 := cumOff2 + i;
    }
    if len == 0 {
      return true;
    }
    eq := EqualsByBytes(m1, cumOff1, m2, cumOff2, len);
    if eq {
      SameBytesExtend(m1, c1, m2, c2, cumOff1 - c1, len);
    } else {
      SameBytesBreak(m1, c1, m2, c2, cumOff1 - c1, len, lengthBytes);
    }
  }

  /** SameBytes over two ranges of resources is equality of their bytes. */
  lemma SameBytesRanges(r1: Region, off1: int, r2: Region, off2: int, len: int)
    requires WellFormed(r1) && WellFormed(r2) && 0 <= len
    requires 0 <= off1 && off1 + len <= r1.capacity && 0 <= off2 && off2 + len <= r2.capacity
    ensures SameBytes(r1.store, r1.cumBaseOffset + off1, r2.store, r2.cumBaseOffset + off2, len)
            <==> Bytes(r1, off1, len) == Bytes(r2, off2, len)
  {
    SameBytesSlices(r1.store, r1.cumBaseOffset + off1, r2.store, r2.cumBaseOffset + off2, len);
  }

  /**
   * equals over two ranges of one length: both resources are checked; one start
   * address in one store is equal at once; otherwise the ranges are scanned. The
   * answer is whether the two ranges hold the same bytes.
   */
  method EqualsRange(r1: Region, off1: i64, r2: Region, off2: i64, lengthBytes: i64) returns (res: Result<bool>)
    requires WellFormed(r1) && WellFormed(r2)
    ensures Then(CheckRange(r1, off1, lengthBytes), CheckRange(r2, off2, lengthBytes)) != Pass ==>
              res == Err(Then(CheckRange(r1, off1, lengthBytes), CheckRange(r2, off2, lengthBytes)).error)
    ensures Then(CheckRange(r1, off1, lengthBytes), CheckRange(r2, off2, lengthBytes)) == Pass ==>
              res == Ok(Bytes(r1, off1, lengthBytes) == Bytes(r2, off2, lengthBytes))
  {
    var check := Then(CheckRange(r1, off1, lengthBytes), CheckRange(r2, off2, lengthBytes));
    if check != Pass {
      return Err(check.error);
    }
    var c1, c2 := r1.cumBaseOffset + off1, r2.cumBaseOffset + off2;
    SameBytesRanges(r1, off1, r2, off2, lengthBytes);
    if r1.store == r2.store && c1 == c2 {
      return Ok(true);
    }
    var eq := EqualsChunked(r1.store, c1, r2.store, c2, lengthBytes);
    res := Ok(eq);
  }

  /**
   * equals over whole resources: resources of different capacities are unequal
   * without any check; otherwise the ranges [0, capacity) are compared.
   */
  method Equals(r1: Region, r2: Region) returns (res: Result<bool>)
    requires WellFormed(r1) && WellFormed(r2)
    ensures r1.capacity != r2.capacity ==> res == Ok(false)
    ensures r1.capacity == r2.capacity && (!r1.valid || !r2.valid) ==> res == Err(IllegalState)
    ensures r1.capacity == r2.capacity && r1.valid && r2.valid ==>
              res == Ok(Bytes(r1, 0, r1.capacity) == Bytes(r2, 0, r2.capacity))
  {
    if r1.capacity != r2.capacity {
      return Ok(false);
    }
    res := EqualsRange(r1, 0, r2, 0, r1.capacity);
  }

  // ---------------------------------------------------------------------------------
  // hashCode. Java's int arithmetic is arithmetic modulo 2^32, so the running hash is
  // a 32-bit bit pattern and only the final value is read as a signed int.

  /**
   * `(int) (v ^ (v >>> 32))` for the long v stored in the eight bytes w: the low four
   * bytes of v xor the high four, as a 32-bit pattern.
   */
  function WordHash(w: seq<bv8>): (h: bv32)
    requires |w| == 8
  {
    ((w[0] ^ w[4]) as bv32) | (((w[1] ^ w[5]) as bv32) << 8)
    | (((w[2] ^ w[6]) as bv32) << 16) | (((w[3] ^ w[7]) as bv32) << 24)
  }

  /** The native layout of the word hash is the low half of the word xor its high half. */
  lemma WordHashLayout(w: seq<bv8>)
    requires |w| == 8
    ensures Le32(WordHash(w)) == [w[0] ^ w[4], w[1] ^ w[5], w[2] ^ w[6], w[3] ^ w[7]]
  {
  }

  /** `(31 * result) + vHash` in 32-bit arithmetic. */
  function Mix(acc: bv32, w: seq<bv8>): (h: bv32)
    requires |w| == 8
  {
    31 * acc + WordHash(w)
  }

  /**
   * The hash the loops compute: starting from acc, each eight-byte word folds in by
   * Mix; a last partial word is packed little-endian with zero bytes above it and
   * folded in the same way.
   */
  function HashFold(acc: bv32, s: seq<bv8>): (h: bv32)
    decreases |s|
  {
    if |s| >= 8 then HashFold(Mix(acc, s[..8]), s[8..])
    else if |s| == 0 then acc
    else Mix(acc, s + seq(8 - |s|, _ => 0))
  }

  /** HashFold over the bytes [i, e) of s, walking positions instead of slices. */
  function HashFrom(acc: bv32, s: seq<bv8>, i: int, e: int): (h: bv32)
    requires 0 <= i <= e <= |s|
    decreases e - i
  {
    if e - i >= 8 then HashFrom(Mix(acc, s[i..i + 8]), s, i + 8, e)
    else if i == e then acc
    else Mix(acc, s[i..e] + seq(8 - (e - i), _ => 0))
  }

  /** Walking positions folds the same bytes as folding the slice. */
  lemma {:induction false} HashFromFold(acc: bv32, s: seq<bv8>, i: int, e: int)
    requires 0 <= i <= e <= |s|
    ensures HashFrom(acc, s, i, e) == HashFold(acc, s[i..e])
    decreases e - i
  {
    if e - i >= 8 {
      assert s[i..e][..8] == s[i..i + 8];
      assert s[i..e][8..] == s[i + 8..e];
      HashFromFold(Mix(acc, s[i..i + 8]), s, i + 8, e);
    }
  }

  /** The Java int with bit pattern b: the int whose native layout is b's. */
  function Int32(b: bv32): (v: i32)
  {
    assert Half(4) == 0x8000_0000;
    LoadSigned(Le32(b))
  }

  /** hashCode of a resource's bytes: the fold from 1, read as an int. */
  function HashCodeOf(s: seq<bv8>): (h: i32)
  {
    Int32(HashFold(1, s))
  }

  /**
   * The hash is a polynomial over the words: appending one more word to whole words
   * multiplies the hash so far by 31 and adds the word's own hash.
   */
  lemma {:induction false} HashFoldAppendWord(acc: bv32, s: seq<bv8>, w: seq<bv8>)
    requires |s| % 8 == 0 && |w| == 8
    ensures HashFold(acc, s + w) == Mix(HashFold(acc, s), w)
    decreases |s|
  {
    if |s| == 0 {
      assert s + w == w;
      assert w[..8] == w && w[8..] == [];
      assert HashFold(acc, w) == HashFold(Mix(acc, w), []);
    } else {
      var next := Mix(acc, s[..8]);
      assert (s + w)[..8] == s[..8];
      assert (s + w)[8..] == s[8..] + w;
      assert HashFold(acc, s + w) == HashFold(next, s[8..] + w);
      assert HashFold(acc, s) == HashFold(next, s[8..]);
      HashFoldAppendWord(next, s[8..], w);
    }
  }

  /** A tail of fewer than eight bytes hashes as the long it packs into. */
  lemma HashFoldRemainder(acc: bv32, s: seq<bv8>, v: seq<bv8>)
    requires 0 < |s| < 8 && v == s + seq(8 - |s|, _ => 0)
    ensures HashFold(acc, s) == Mix(acc, v)
  {
  }

  /** n zero bytes. */
  function Zeros(n: nat): (z: seq<bv8>)
    ensures |z| == n && forall k :: 0 <= k < n ==> z[k] == 0
  {
    seq(n, _ => 0)
  }

  /** An all-zero word only multiplies the hash by 31. */
  lemma ZeroWordMix(acc: bv32)
    ensures Mix(acc, Zeros(8)) == 31 * acc
  {
    var w := Zeros(8);
    assert w[0] ^ w[4] == 0 && w[1] ^ w[5] == 0 && w[2] ^ w[6] == 0 && w[3] ^ w[7] == 0;
  }

  /** Zero bytes fold as whole words first, then as one packed remainder. */
  lemma ZerosFold(acc: bv32, n: nat)
    ensures n >= 8 ==> HashFold(acc, Zeros(n)) == HashFold(31 * acc, Zeros(n - 8))
    ensures 0 < n < 8 ==> HashFold(acc, Zeros(n)) == 31 * acc
  {
    ZeroWordMix(acc);
    if n >= 8 {
      assert Zeros(n)[..8] == Zeros(8) && Zeros(n)[8..] == Zeros(n - 8);
    } else if n > 0 {
      assert Zeros(n) + seq(8 - n, _ => 0) == Zeros(8);
    }
  }

  /** Thirty-nine zero bytes are four zero words and a zero remainder: 31^5. */
  lemma HashFoldOfZeros()
    ensures HashFold(1, Zeros(39)) == 28629151
  {
    ZerosFold(1, 39);
    ZerosFold(31, 31);
    ZerosFold(961, 23);
    ZerosFold(29791, 15);
    ZerosFold(923521, 7);
  }

  /** The hash code of thirty-nine zero bytes, read as an int. */
  lemma HashOfZeros()
    ensures HashCodeOf(Zeros(39)) == 28629151
  {
    HashFoldOfZeros();
    assert Le32(28629151) == [0x9F, 0xD8, 0xB4, 0x01];
    assert FromLe([0x9F, 0xD8, 0xB4, 0x01]) == 28629151;
  }

  /**
   * The word loop of one chunk: while a whole word is left in the chunk it is folded
   * into result. i is the number of bytes folded; s is the store's contents.
   */
  method HashWords(m: array<bv8>, ghost s: seq<bv8>, cumOff: int, e: int, chunk: int, acc: bv32)
    returns (result: bv32, i: int)
    requires s == m[..] && 0 <= cumOff && 0 <= chunk && cumOff + chunk <= e <= m.Length
    ensures 0 <= i <= chunk && chunk - i < 8
    ensures HashFrom(result, s, cumOff + i, e) == HashFrom(acc, s, cumOff, e)
  {
    ghost var h := HashFrom(acc, s, cumOff, e);
    var p, end := cumOff, cumOff + chunk;
    result := acc;
    while p + 8 <= end
      invariant cumOff <= p <= end
      invariant HashFrom(result, s, p, e) == h
    {
      var q := p + 8;
      var w := m[p..q];
      assert w == s[p..q];
      result := Mix(result, w);
      p := q;
    }
    i := p - cumOff;
  }

  /**
   * The remainder of fewer than eight bytes packed into one long: the bytes at the
   * low end of its native layout, zeros above them.
   */
  method PackRemainder(m: array<bv8>, cumOff: int, lenBytes: int) returns (v: seq<bv8>)
    requires 0 <= cumOff && 0 <= lenBytes < 8 && cumOff + lenBytes <= m.Length
    ensures v == m[cumOff..cumOff + lenBytes] + seq(8 - lenBytes, _ => 0)
  {
    v := [0, 0, 0, 0, 0, 0, 0, 0];
    for i := 0 to lenBytes
      invariant |v| == 8
      invariant forall k :: 0 <= k < i ==> v[k] == m[cumOff + k]
      invariant forall k :: i <= k < 8 ==> v[k] == 0
    {
      v := v[i := m[cumOff + i]];
    }
  }

  /** The last fewer than eight bytes, if any, folded in as one packed long. */
  method HashTail(m: array<bv8>, ghost s: seq<bv8>, cumOff: int, e: int, acc: bv32) returns (result: bv32)
    requires s == m[..] && 0 <= cumOff <= e <= m.Length && e - cumOff < 8
    ensures result == HashFrom(acc, s, cumOff, e)
  {
    var lenBytes := e - cumOff;
    if lenBytes == 0 {
      return acc;
    }
    var v := PackRemainder(m, cumOff, lenBytes);
    assert m[cumOff..cumOff + lenBytes] == s[cumOff..e];
    result := Mix(acc, v);
  }

  /**
   * The chunked word loop of hashCode over the bytes [base, e) of a store: the words
   * of each chunk of at most UNSAFE_COPY_THRESHOLD_BYTES are folded, and a remainder
   * of fewer than eight bytes is packed into one more long.
   */
  method HashBytes(m: array<bv8>, base: int, e: int) returns (result: bv32)
    requires 0 <= base <= e <= m.Length
    ensures result == HashFrom(1, m[..], base, e)
  {
    ghost var s := m[..];
    ghost var h := HashFrom(1, s, base, e);
    var lenBytes: int := e - base;
    var cumOff := base;
    result := 1;
    while lenBytes >= 8
      invariant 0 <= lenBytes && cumOff + lenBytes == e && base <= cumOff
      invariant HashFrom(result, s, cumOff, e) == h
      decreases lenBytes
    {
      var chunk := if lenBytes <= UNSAFE_COPY_THRESHOLD_BYTES then lenBytes else UNSAFE_COPY_THRESHOLD_BYTES;
      var i;
      result, i := HashWords(m, s, cumOff, e, chunk, result);
      lenBytes := lenBytes - i;
      cumOff := cumOff + i;
    }
    result := HashTail(m, s, cumOff, e, result);
  }

  /**
   * hashCode: an invalid resource throws; otherwise the hash of its bytes [0, capacity)
   * as a Java int.
   */
  method HashCode(r: Region) returns (res: Result<i32>)
    requires WellFormed(r)
    ensures !r.valid ==> res == Err(IllegalState)
    ensures r.valid ==> res == Ok(HashCodeOf(Bytes(r, 0, r.capacity)))
  {
    if !r.valid {
      return Err(IllegalState);
    }
    var e := r.cumBaseOffset + r.capacity;
    var h := HashBytes(r.store, r.cumBaseOffset, e);
    HashFromFold(1, r.store[..], r.cumBaseOffset, e);
    assert r.store[..][r.cumBaseOffset..e] == Bytes(r, 0, r.capacity);
    res := Ok(Int32(h));
  }

  // ---------------------------------------------------------------------------------
  // copy

  /**
   * The store after n bytes from s at srcAdd were written at dstAdd of d, where s and
   * d are the source and destination stores as they were before the write.
   */
  predicate CopiedInto(dst: seq<bv8>, s: seq<bv8>, srcAdd: int, d: seq<bv8>, dstAdd: int, n: int)
    requires 0 <= n && 0 <= srcAdd && srcAdd + n <= |s| && 0 <= dstAdd && dstAdd + n <= |d|
  {
    |dst| == |d| &&
    forall k {:trigger dst[k]} :: 0 <= k < |dst| ==> dst[k] == if dstAdd <= k < dstAdd + n then s[srcAdd + (k - dstAdd)] else d[k]
  }

  /** After the write the destination range holds the source bytes. */
  lemma CopiedIntoRange(dst: seq<bv8>, s: seq<bv8>, srcAdd: int, d: seq<bv8>, dstAdd: int, n: int)
    requires 0 <= n && 0 <= srcAdd && srcAdd + n <= |s| && 0 <= dstAdd && dstAdd + n <= |d|
    requires CopiedInto(dst, s, srcAdd, d, dstAdd, n)
    ensures dst[dstAdd..dstAdd + n] == s[srcAdd..srcAdd + n]
    ensures dst[..dstAdd] == d[..dstAdd] && dst[dstAdd + n..] == d[dstAdd + n..]
  {
    var a := dst[dstAdd..dstAdd + n];
    assert forall k :: 0 <= k < n ==> a[k] == dst[dstAdd + k];
  }

  /**
   * Unsafe.copyMemory: the n bytes at srcAdd of src, as they were before the call,
   * end up at dstAdd of dst, also when the two ranges overlap in one store (memmove).
   * The copy runs upwards unless it must run downwards to read every source byte
   * before it is overwritten.
   */
  method UnsafeCopyMemory(src: array<bv8>, srcAdd: int, dst: array<bv8>, dstAdd: int, n: int)
    requires 0 <= n && 0 <= srcAdd && srcAdd + n <= src.Length && 0 <= dstAdd && dstAdd + n <= dst.Length
    modifies dst
    ensures CopiedInto(dst[..], old(src[..]), srcAdd, old(dst[..]), dstAdd, n)
  {
    ghost var s, d := src[..], dst[..];
    if src != dst || dstAdd <= srcAdd {
      for i := 0 to n
        invariant forall k :: 0 <= k < dst.Length ==>
                    dst[k] == if dstAdd <= k < dstAdd + i then s[srcAdd + (k - dstAdd)] else d[k]
        invariant src == dst ==> forall k :: srcAdd + i <= k < srcAdd + n ==> src[k] == s[k]
        invariant src != dst ==> src[..] == s
      {
        dst[dstAdd + i] := src[srcAdd + i];
      }
    } else {
      var i := n;
      while i > 0
        invariant 0 <= i <= n
        invariant forall k :: 0 <= k < dst.Length ==>
                    dst[k] == if dstAdd + i <= k < dstAdd + n then s[srcAdd + (k - dstAdd)] else d[k]
      {
        i := i - 1;
        dst[dstAdd + i] := src[srcAdd + i];
      }
    }
  }

  /** A copy of i bytes followed by a copy of the next c bytes is a copy of i + c bytes. */
  lemma CopiedIntoExtend(d2: seq<bv8>, s1: seq<bv8>, d1: seq<bv8>, s: seq<bv8>, srcAdd: int, d: seq<bv8>,
                         dstAdd: int, i: int, c: int)
    requires 0 <= i && 0 <= c && 0 <= srcAdd && srcAdd + i + c <= |s| && 0 <= dstAdd && dstAdd + i + c <= |d|
    requires |s1| == |s|
    requires CopiedInto(d1, s, srcAdd, d, dstAdd, i)
    requires CopiedInto(d2, s1, srcAdd + i, d1, dstAdd + i, c)
    requires forall k :: srcAdd + i <= k < srcAdd + i + c ==> s1[k] == s[k]
    ensures CopiedInto(d2, s, srcAdd, d, dstAdd, i + c)
  {
    forall k | 0 <= k < |d2|
      ensures d2[k] == if dstAdd <= k < dstAdd + (i + c) then s[srcAdd + (k - dstAdd)] else d[k]
    {
      if dstAdd + i <= k < dstAdd + i + c {
        assert d2[k] == s1[srcAdd + i + (k - (dstAdd + i))];
      }
    }
  }

  /**
   * Before the next chunk is copied its source bytes are still the original ones: the
   * source is another store that the copy leaves alone, or a range of the same store
   * that the copy so far, going to a disjoint range, has not touched.
   */
  lemma ChunkSourceIntact(sameStore: bool, s1: seq<bv8>, d1: seq<bv8>, s: seq<bv8>, d: seq<bv8>,
                          srcAdd: int, dstAdd: int, n: int, i: int, c: int)
    requires 0 <= i && 0 <= c && i + c <= n && 0 <= srcAdd && srcAdd + n <= |s| && 0 <= dstAdd && dstAdd + n <= |d|
    requires sameStore ==> s1 == d1 && s == d && (srcAdd + n <= dstAdd || dstAdd + n <= srcAdd)
    requires sameStore ==> CopiedInto(d1, s, srcAdd, d, dstAdd, i)
    requires !sameStore ==> s1 == s
    ensures forall k :: srcAdd + i <= k < srcAdd + i + c ==> s1[k] == s[k]
  {
  }

  /**
   * One chunk of copyNonOverlappingMemoryWithChunking: after done bytes are in place,
   * the next c bytes are copied by Unsafe.copyMemory.
   */
  method CopyChunk(src: array<bv8>, ghost s: seq<bv8>, srcAdd: int, dst: array<bv8>, ghost d: seq<bv8>,
                   dstAdd: int, n: int, done: int, c: int)
    requires 0 <= done && 0 < c && done + c <= n
    requires 0 <= srcAdd && srcAdd + n <= src.Length && 0 <= dstAdd && dstAdd + n <= dst.Length
    requires |s| == src.Length && |d| == dst.Length
    requires src == dst ==> s == d && (srcAdd + n <= dstAdd || dstAdd + n <= srcAdd)
    requires src != dst ==> src[..] == s
    requires CopiedInto(dst[..], s, srcAdd, d, dstAdd, done)
    modifies dst
    ensures src != dst ==> src[..] == s
    ensures CopiedInto(dst[..], s, srcAdd, d, dstAdd, done + c)
  {
    ghost var s1, d1 := src[..], dst[..];
    ChunkSourceIntact(src == dst, s1, d1, s, d, srcAdd, dstAdd, n, done, c);
    UnsafeCopyMemory(src, srcAdd + done, dst, dstAdd + done, c);
    CopiedIntoExtend(dst[..], s1, d1, s, srcAdd, d, dstAdd, done, c);
  }

  /**
   * copyNonOverlappingMemoryWithChunking: the bytes move in chunks of at most
   * UNSAFE_COPY_THRESHOLD_BYTES, lowest first. The caller guarantees that two ranges
   * in one store do not overlap.
   */
  method CopyNonOverlappingWithChunking(src: array<bv8>, srcAdd: int, dst: array<bv8>, dstAdd: int, n: int)
    requires 0 <= n && 0 <= srcAdd && srcAdd + n <= src.Length && 0 <= dstAdd && dstAdd + n <= dst.Length
    requires src == dst ==> srcAdd + n <= dstAdd || dstAdd + n <= srcAdd
    modifies dst
    ensures CopiedInto(dst[..], old(src[..]), srcAdd, old(dst[..]), dstAdd, n)
  {
    ghost var s, d := src[..], dst[..];
    var lengthBytes := n;
    while lengthBytes > 0
      invariant 0 <= lengthBytes <= n
      invariant CopiedInto(dst[..], s, srcAdd, d, dstAdd, n - lengthBytes)
      invariant src != dst ==> src[..] == s
    {
      var chunk := if lengthBytes <= UNSAFE_COPY_THRESHOLD_BYTES then lengthBytes else UNSAFE_COPY_THRESHOLD_BYTES;
      CopyChunk(src, s, srcAdd, dst, d, dstAdd, n, n - lengthBytes, chunk);
      lengthBytes := lengthBytes - chunk;
    }
  }

  /**
   * copyMemoryOverlapAddressCheck, for two ranges of one store: disjoint ranges are
   * copied in chunks; a copy exactly in place is refused; overlapping ranges fall back
   * on one Unsafe.copyMemory.
   */
  method CopyMemoryOverlapAddressCheck(src: array<bv8>, srcAdd: int, dst: array<bv8>, dstAdd: int, n: int)
    returns (o: Outcome)
    requires src == dst
    requires 0 <= n && 0 <= srcAdd && srcAdd + n <= src.Length && 0 <= dstAdd && dstAdd + n <= dst.Length
    modifies dst
    ensures o == Fail(IllegalArgument) <==> srcAdd == dstAdd && n > 0
    ensures o == Pass || o == Fail(IllegalArgument)
    ensures o != Pass ==> unchanged(dst)
    ensures o == Pass ==> CopiedInto(dst[..], old(src[..]), srcAdd, old(dst[..]), dstAdd, n)
  {
    if srcAdd + n <= dstAdd || dstAdd + n <= srcAdd {
      CopyNonOverlappingWithChunking(src, srcAdd, dst, dstAdd, n);
      return Pass;
    }
    if srcAdd == dstAdd {
      return Fail(IllegalArgument);
    }
    UnsafeCopyMemory(src, srcAdd, dst, dstAdd, n);
    o := Pass;
  }

  /**
   * copyMemory, once validity and bounds are checked: different stores are copied in
   * chunks, one store goes through the overlap check.
   */
  method CopyMemory(src: array<bv8>, srcAdd: int, dst: array<bv8>, dstAdd: int, n: int) returns (o: Outcome)
    requires 0 <= n && 0 <= srcAdd && srcAdd + n <= src.Length && 0 <= dstAdd && dstAdd + n <= dst.Length
    modifies dst
    ensures o == Fail(IllegalArgument) <==> src == dst && srcAdd == dstAdd && n > 0
    ensures o == Pass || o == Fail(IllegalArgument)
    ensures o != Pass ==> unchanged(dst)
    ensures o == Pass ==> CopiedInto(dst[..], old(src[..]), srcAdd, old(dst[..]), dstAdd, n)
  {
    if src != dst {
      CopyNonOverlappingWithChunking(src, srcAdd, dst, dstAdd, n);
      o := Pass;
    } else {
      o := CopyMemoryOverlapAddressCheck(src, srcAdd, dst, dstAdd, n);
    }
  }

  /**
   * copyMemoryCheckingDifferentObject, used by the array get and put methods: copying
   * between two different stores is a chunked copy; one store is refused.
   */
  method CopyMemoryCheckingDifferentObject(src: array<bv8>, srcAdd: int, dst: array<bv8>, dstAdd: int, n: int)
    returns (o: Outcome)
    requires 0 <= n && 0 <= srcAdd && srcAdd + n <= src.Length && 0 <= dstAdd && dstAdd + n <= dst.Length
    modifies dst
    ensures o == Fail(IllegalArgument) <==> src == dst
    ensures o == Pass || o == Fail(IllegalArgument)
    ensures o != Pass ==> unchanged(dst)
    ensures o == Pass ==> CopiedInto(dst[..], old(src[..]), srcAdd, old(dst[..]), dstAdd, n)
  {
    if src != dst {
      CopyNonOverlappingWithChunking(src, srcAdd, dst, dstAdd, n);
      o := Pass;
    } else {
      o := Fail(IllegalArgument);
    }
  }

  /**
   * copy: the source is checked for validity and bounds, then the destination; the
   * bytes [srcOff, srcOff + len) of the source, as they were before the call, then
   * stand at [dstOff, dstOff + len) of the destination and nothing else changes. A copy
   * of a non-empty range onto itself is refused.
   */
  method Copy(srcRegion: Region, srcOff: i64, dstRegion: Region, dstOff: i64, len: i64) returns (o: Outcome)
    requires WellFormed(srcRegion) && WellFormed(dstRegion)
    modifies dstRegion.store
    ensures Then(CheckRange(srcRegion, srcOff, len), CheckRange(dstRegion, dstOff, len)) != Pass ==>
              o == Then(CheckRange(srcRegion, srcOff, len), CheckRange(dstRegion, dstOff, len))
    ensures Then(CheckRange(srcRegion, srcOff, len), CheckRange(dstRegion, dstOff, len)) == Pass ==>
              (o == Fail(IllegalArgument) <==>
                 srcRegion.store == dstRegion.store && len > 0 &&
                 srcRegion.cumBaseOffset + srcOff == dstRegion.cumBaseOffset + dstOff)
    ensures o != Pass ==> unchanged(dstRegion.store)
    ensures o == Pass ==>
              CopiedInto(dstRegion.store[..], old(srcRegion.store[..]), srcRegion.cumBaseOffset + srcOff,
                         old(dstRegion.store[..]), dstRegion.cumBaseOffset + dstOff, len)
  {
    var check := Then(CheckRange(srcRegion, srcOff, len), CheckRange(dstRegion, dstOff, len));
    if check != Pass {
      return check;
    }
    var srcAdd := srcRegion.cumBaseOffset + srcOff;
    var dstAdd := dstRegion.cumBaseOffset + dstOff;
    o := CopyMemory(srcRegion.store, srcAdd, dstRegion.store, dstAdd, len);
  }

  /**
   * After a copy that passed, the destination range reads as the source range did
   * before the copy, and the destination's bytes outside the range are as they were.
   */
  lemma CopyResult(srcRegion: Region, srcOff: int, dstRegion: Region, dstOff: int, len: int,
                   s: seq<bv8>, d: seq<bv8>, after: seq<bv8>)
    requires WellFormed(srcRegion) && WellFormed(dstRegion)
    requires 0 <= len && 0 <= srcOff && srcOff + len <= srcRegion.capacity
    requires 0 <= dstOff && dstOff + len <= dstRegion.capacity
    requires |s| == srcRegion.store.Length && |d| == dstRegion.store.Length
    requires CopiedInto(after, s, srcRegion.cumBaseOffset + srcOff, d, dstRegion.cumBaseOffset + dstOff, len)
    ensures after[dstRegion.cumBaseOffset + dstOff..dstRegion.cumBaseOffset + dstOff + len]
            == s[srcRegion.cumBaseOffset + srcOff..srcRegion.cumBaseOffset + srcOff + len]
    ensures forall k :: 0 <= k < |d| && !(dstRegion.cumBaseOffset + dstOff <= k < dstRegion.cumBaseOffset + dstOff + len)
              ==> after[k] == d[k]
  {
    CopiedIntoRange(after, s, srcRegion.cumBaseOffset + srcOff, d, dstRegion.cumBaseOffset + dstOff, len);
  }
}
