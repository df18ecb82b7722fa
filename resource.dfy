/**
 * ResourceImpl: the type-id bit field every view carries, the validity, bounds and
 * write checks in the order the accessors apply them, the identity and byte-order
 * queries, and the overlap of two native segments.
 */
module Resource {
  import opened Primitives
  import opened Util

  // ---------------------------------------------------------------------------------
  // Type ids. A Java int of which only the low eight bits are ever set; only the
  // bitwise operators &, | and ~ act on it, so it is kept as an 8-bit pattern.

  type TypeId = bv8

  const WRITABLE: TypeId := 0
  const READONLY: TypeId := 1
  const REGION: TypeId := 2
  const DUPLICATE: TypeId := 4
  const HEAP: TypeId := 0
  const DIRECT: TypeId := 8
  const MAP: TypeId := 16
  const NATIVE: TypeId := 0
  const NONNATIVE: TypeId := 32
  const MEMORY: TypeId := 0
  const BUFFER: TypeId := 64
  const BYTEBUF: TypeId := 128

  // The kind predicates. Java tests `(typeId & BIT) > 0` on an int; every mask is a
  // single bit far below the int's sign bit, so the masked value is positive exactly
  // when it is not zero.

  predicate IsReadOnlyType(typeId: TypeId) { typeId & READONLY != 0 }
  predicate IsWritableType(typeId: TypeId) { typeId & READONLY == 0 }
  predicate IsRegionType(typeId: TypeId) { typeId & REGION != 0 }
  predicate IsDuplicateType(typeId: TypeId) { typeId & DUPLICATE != 0 }
  predicate IsHeapType(typeId: TypeId) { typeId & (MAP | DIRECT) == 0 }
  predicate IsMapType(typeId: TypeId) { typeId & MAP != 0 }
  predicate IsDirectType(typeId: TypeId) { typeId & DIRECT != 0 }
  predicate IsNativeType(typeId: TypeId) { typeId & NONNATIVE == 0 }
  predicate IsNonNativeType(typeId: TypeId) { typeId & NONNATIVE != 0 }
  predicate IsMemoryType(typeId: TypeId) { typeId & BUFFER == 0 }
  predicate IsBufferType(typeId: TypeId) { typeId & BUFFER != 0 }
  predicate IsByteBufferType(typeId: TypeId) { typeId & BYTEBUF != 0 }

  /**
   * The kind predicates come in complementary pairs, and a heap type is one with
   * neither the MAP nor the DIRECT bit.
   */
  lemma KindPredicates(typeId: TypeId)
    ensures IsWritableType(typeId) <==> !IsReadOnlyType(typeId)
    ensures IsNativeType(typeId) <==> !IsNonNativeType(typeId)
    ensures IsMemoryType(typeId) <==> !IsBufferType(typeId)
    ensures IsHeapType(typeId) <==> !IsMapType(typeId) && !IsDirectType(typeId)
  {
    assert typeId & (MAP | DIRECT) == (typeId & MAP) | (typeId & DIRECT);
  }

  /** setReadOnlyType: sets or clears the READONLY bit and no other. */
  function SetReadOnlyType(typeId: TypeId, readOnly: bool): (r: TypeId)
    ensures IsReadOnlyType(r) <==> readOnly
    ensures r & !READONLY == typeId & !READONLY
  {
    if readOnly then typeId | READONLY else typeId & !READONLY
  }

  /** Setting the read-only bit twice is setting it once; the last call decides. */
  lemma SetReadOnlyTypeIdempotent(typeId: TypeId, readOnly: bool, again: bool)
    ensures SetReadOnlyType(SetReadOnlyType(typeId, readOnly), readOnly) == SetReadOnlyType(typeId, readOnly)
    ensures SetReadOnlyType(SetReadOnlyType(typeId, readOnly), again) == SetReadOnlyType(typeId, again)
  {
  }

  /** removeNnBuf: clears the NONNATIVE and BUFFER bits and keeps every other bit. */
  function RemoveNnBuf(typeId: TypeId): (r: TypeId)
    ensures IsNativeType(r) && IsMemoryType(r)
    ensures r & !(NONNATIVE | BUFFER) == typeId & !(NONNATIVE | BUFFER)
    ensures IsReadOnlyType(r) == IsReadOnlyType(typeId) && IsRegionType(r) == IsRegionType(typeId)
    ensures IsHeapType(r) == IsHeapType(typeId) && IsByteBufferType(r) == IsByteBufferType(typeId)
  {
    typeId & !NONNATIVE & !BUFFER
  }

  // ---------------------------------------------------------------------------------
  // Byte order

  /** getByteOrder (getTypeByteOrder): non-native exactly when the NONNATIVE bit is set. */
  function GetByteOrder(typeId: TypeId): (r: ByteOrder)
    ensures r == NON_NATIVE_ORDER <==> IsNonNativeType(typeId)
    ensures r == NATIVE_ORDER <==> IsNativeType(typeId)
  {
    if IsNonNativeType(typeId) then NON_NATIVE_ORDER else NATIVE_ORDER
  }

  /** isByteOrderCompatible: the view is native-order and so is the requested order. */
  function IsByteOrderCompatible(typeId: TypeId, byteOrder: ByteOrder): (r: bool)
    ensures r <==> IsNativeType(typeId) && byteOrder == NATIVE_ORDER
  {
    var typeBO := GetByteOrder(typeId);
    typeBO == NATIVE_ORDER && typeBO == byteOrder
  }

  // ---------------------------------------------------------------------------------
  // Checks

  /**
   * ResourceImpl.checkBounds: the bounds test of UnsafeUtil.checkBounds, thrown as
   * MemoryBoundsException.
   */
  function CheckBounds(reqOff: i64, reqLen: i64, allocSize: i64): (r: Outcome)
    ensures r == Pass || r == Fail(MemoryBounds)
    ensures allocSize >= 0 ==>
              (r == Pass <==> 0 <= reqOff && 0 <= reqLen && reqOff + reqLen <= allocSize)
  {
    if UnsafeUtil.CheckBounds(reqOff, reqLen, allocSize) == Pass then Pass else Fail(MemoryBounds)
  }

  /** checkValid: MemoryInvalidException for a resource that is no longer valid. */
  function CheckValid(valid: bool): (r: Outcome)
    ensures r == Pass <==> valid
    ensures r != Pass ==> r == Fail(MemoryInvalid)
  {
    if valid then Pass else Fail(MemoryInvalid)
  }

  /** checkValidAndBounds: validity first, then bounds. */
  function CheckValidAndBounds(valid: bool, offsetBytes: i64, lengthBytes: i64, capacity: i64): (r: Outcome)
    ensures !valid ==> r == Fail(MemoryInvalid)
    ensures valid ==> r == CheckBounds(offsetBytes, lengthBytes, capacity)
    ensures capacity >= 0 ==>
              (r == Pass <==> valid && 0 <= offsetBytes && 0 <= lengthBytes && offsetBytes + lengthBytes <= capacity)
  {
    if !valid then Fail(MemoryInvalid) else CheckBounds(offsetBytes, lengthBytes, capacity)
  }

  /**
   * checkValidAndBoundsForWrite: not valid gives MemoryInvalidException, out of
   * bounds MemoryBoundsException, read-only ReadOnlyException, in that order.
   */
  function CheckValidAndBoundsForWrite(valid: bool, typeId: TypeId, offsetBytes: i64, lengthBytes: i64,
                                       capacity: i64): (r: Outcome)
    ensures !valid ==> r == Fail(MemoryInvalid)
    ensures valid && CheckBounds(offsetBytes, lengthBytes, capacity) != Pass ==> r == Fail(MemoryBounds)
    ensures valid && CheckBounds(offsetBytes, lengthBytes, capacity) == Pass && IsReadOnlyType(typeId) ==>
              r == Fail(ReadOnly)
    ensures capacity >= 0 ==>
              (r == Pass <==> valid && !IsReadOnlyType(typeId) &&
                              0 <= offsetBytes && 0 <= lengthBytes && offsetBytes + lengthBytes <= capacity)
  {
    var vb := CheckValidAndBounds(valid, offsetBytes, lengthBytes, capacity);
    if vb != Pass then vb
    else if IsReadOnlyType(typeId) then Fail(ReadOnly)
    else Pass
  }

  /** isReadOnly: checks validity, then reads the READONLY bit. */
  function IsReadOnly(valid: bool, typeId: TypeId): (r: Result<bool>)
    ensures r.Err? <==> !valid
    ensures r.Err? ==> r.error == MemoryInvalid
    ensures r.Ok? ==> (r.value <==> IsReadOnlyType(typeId))
  {
    if !valid then Err(MemoryInvalid) else Ok(IsReadOnlyType(typeId))
  }

  /**
   * force, load and isLoaded of a resource that is not a memory-mapped file: each
   * throws IllegalStateException (only the mapped leaves, not modelled, override them).
   */
  function Force(): (r: Outcome)
    ensures r == Fail(IllegalState)
  {
    Fail(IllegalState)
  }

  function Load(): (r: Outcome)
    ensures r == Fail(IllegalState)
  {
    Fail(IllegalState)
  }

  function IsLoaded(): (r: Result<bool>)
    ensures r == Err(IllegalState)
  {
    Err(IllegalState)
  }

  // ---------------------------------------------------------------------------------
  // Identity

  /** What isSameResource compares of a view: where it starts, how long it is, what backs it. */
  datatype ResourceInfo = ResourceInfo(
    valid: bool,
    cumulativeOffset: i64,
    capacity: i64,
    unsafeObj: object?,
    byteBuffer: object?)

  predicate SameBacking(a: ResourceInfo, b: ResourceInfo)
  {
    a.cumulativeOffset == b.cumulativeOffset && a.capacity == b.capacity &&
    a.unsafeObj == b.unsafeObj && a.byteBuffer == b.byteBuffer
  }

  /**
   * isSameResource: this view must be valid, a null argument is not the same, the
   * argument must be valid, and then the two are the same when they are one object
   * or start at the same place, have the same capacity and the same backing array and
   * ByteBuffer. The identity shortcut never changes the answer.
   */
  function IsSameResource(self: ResourceInfo, that: Nullable<ResourceInfo>): (r: Result<bool>)
    ensures !self.valid ==> r == Err(MemoryInvalid)
    ensures self.valid && that.Null? ==> r == Ok(false)
    ensures self.valid && that.Ref? && !that.get.valid ==> r == Err(MemoryInvalid)
    ensures self.valid && that.Ref? && that.get.valid ==> r == Ok(SameBacking(self, that.get))
  {
    if !self.valid then Err(MemoryInvalid)
    else if that.Null? then Ok(false)
    else if !that.get.valid then Err(MemoryInvalid)
    else if self == that.get then Ok(true)
    else Ok(SameBacking(self, that.get))
  }

  /** isSameResource is reflexive and symmetric on valid views. */
  lemma IsSameResourceReflexiveSymmetric(a: ResourceInfo, b: ResourceInfo)
    requires a.valid && b.valid
    ensures IsSameResource(a, Ref(a)) == Ok(true)
    ensures IsSameResource(a, Ref(b)) == IsSameResource(b, Ref(a))
  {
  }

  // ---------------------------------------------------------------------------------
  // Server selection

  /** Which leaf class selectMemory and selectBuffer instantiate. */
  datatype Leaf = NativeLeaf | NonNativeLeaf

  /**
   * selectMemory / selectBuffer: views over a ByteBuffer or a mapped file carry no
   * MemoryRequestServer; others keep the one given. The leaf follows the byte order.
   */
  function Select(memReqSvr: object?, byteBufferType: bool, mapType: bool, nativeBOType: bool)
    : (r: (Leaf, object?))
    ensures byteBufferType || mapType ==> r.1 == null
    ensures !byteBufferType && !mapType ==> r.1 == memReqSvr
    ensures r.0 == NativeLeaf <==> nativeBOType
  {
    var memReqSvr2 := if byteBufferType || mapType then null else memReqSvr;
    (if nativeBOType then NativeLeaf else NonNativeLeaf, memReqSvr2)
  }

  // ---------------------------------------------------------------------------------
  // Overlap of native segments

  /** A memory segment as nativeOverlap sees it: native or not, its address and its size. */
  datatype Segment = Segment(isNative: bool, address: i64, byteSize: i64)

  /** A segment lies in the non-negative address space, so its right edge is a long. */
  predicate WellFormed(s: Segment)
  {
    0 <= s.address && 0 <= s.byteSize && s.address + s.byteSize <= MAX_LONG
  }

  function Min(a: int, b: int): int { if a <= b then a else b }
  function Max(a: int, b: int): int { if a <= b then b else a }

  /** The number of bytes two address ranges share. */
  function Intersection(a: Segment, b: Segment): (n: nat)
  {
    var lo := Max(a.address, b.address);
    var hi := Min(a.address + a.byteSize, b.address + b.byteSize);
    if lo < hi then hi - lo else 0
  }

  function EqualSizes(lA: int, rA: int, lB: int, rB: int): (r: int)
    requires rA - lA == rB - lB && lB < rA && lA < rB
    ensures r == Min(rA, rB) - Max(lA, lB)
  {
    if lA == lB then rA - lA
    else if lA < lB then rA - lB
    else rB - lA
  }

  /** biggerSmaller: the overlap of a range with a strictly shorter one that it meets. */
  function BiggerSmaller(lLarge: int, rLarge: int, lSmall: int, rSmall: int): (r: int)
    requires rSmall - lSmall < rLarge - lLarge && lSmall < rLarge && lLarge < rSmall
    ensures r == Min(rLarge, rSmall) - Max(lLarge, lSmall)
  {
    if rSmall <= rLarge && lLarge <= lSmall then rSmall - lSmall
    else if rLarge < rSmall then rLarge - lSmall
    else rSmall - lLarge
  }

  function NotEqualSizes(lA: int, rA: int, lB: int, rB: int): (r: int)
    requires rA - lA != rB - lB && lB < rA && lA < rB
    ensures r == Min(rA, rB) - Max(lA, lB)
  {
    if rB - lB < rA - lA then BiggerSmaller(lA, rA, lB, rB) else BiggerSmaller(lB, rB, lA, rA)
  }

  /**
   * nativeOverlap(segA, segB): zero unless both segments are native; otherwise the
   * number of bytes they share, negated when B starts below A.
   */
  function NativeOverlap(a: Segment, b: Segment): (r: int)
    requires WellFormed(a) && WellFormed(b)
    ensures !a.isNative || !b.isNative ==> r == 0
    ensures a.isNative && b.isNative ==>
              r == if b.address < a.address then -(Intersection(a, b) as int) else Intersection(a, b)
  {
    if !a.isNative || !b.isNative then 0
    else
      var lA, lB := a.address, b.address;
      var rA, rB := lA + a.byteSize, lB + b.byteSize;
      if rA <= lB || rB <= lA then 0
      else
        var result := if a.byteSize == b.byteSize then EqualSizes(lA, rA, lB, rB)
                      else NotEqualSizes(lA, rA, lB, rB);
        if lB < lA then -result else result
  }

  /**
   * Disjoint or merely adjacent segments do not overlap; a segment overlaps itself
   * in full; a segment inside another overlaps it by its own size.
   */
  lemma NativeOverlapCases(a: Segment, b: Segment)
    requires WellFormed(a) && WellFormed(b) && a.isNative && b.isNative
    ensures a.address + a.byteSize <= b.address || b.address + b.byteSize <= a.address ==>
              NativeOverlap(a, b) == 0
    ensures NativeOverlap(a, a) == a.byteSize
    ensures a.address <= b.address && b.address + b.byteSize <= a.address + a.byteSize ==>
              NativeOverlap(a, b) == b.byteSize
  {
  }

  /** Swapping two segments with distinct start addresses negates the overlap. */
  lemma NativeOverlapAntisymmetric(a: Segment, b: Segment)
    requires WellFormed(a) && WellFormed(b) && a.address != b.address
    ensures NativeOverlap(b, a) == -NativeOverlap(a, b)
  {
    assert Intersection(a, b) == Intersection(b, a);
  }

  /** Cases of the resource tests, each segment written as [left, right). */
  lemma NativeOverlapExamples()
    ensures NativeOverlap(Segment(true, 0, 20), Segment(true, 10, 20)) == 10
    ensures NativeOverlap(Segment(true, 10, 20), Segment(true, 0, 20)) == -10
    ensures NativeOverlap(Segment(true, 0, 20), Segment(true, 20, 20)) == 0
    ensures NativeOverlap(Segment(true, 0, 0), Segment(true, 0, 0)) == 0
    ensures NativeOverlap(Segment(true, 0, 40), Segment(true, 30, 20)) == 10
    ensures NativeOverlap(Segment(true, 0, 40), Segment(true, 10, 20)) == 20
    ensures NativeOverlap(Segment(true, 10, 20), Segment(true, 0, 40)) == -20
    ensures NativeOverlap(Segment(true, 0, 20), Segment(true, 10, 40)) == 10
    ensures NativeOverlap(Segment(false, 0, 20), Segment(true, 0, 20)) == 0
  {
  }

  /** A view as the resource-level nativeOverlap sees it. */
  datatype View = View(segment: Segment, alive: bool)

  /**
   * nativeOverlap(Resource): zero for a null or closed argument, the own size when
   * the argument is this very view, the segment overlap otherwise. Object identity is
   * the parameter `identical`.
   */
  function NativeOverlapResource(self: Segment, that: Nullable<View>, identical: bool): (r: int)
    requires WellFormed(self)
    requires that.Ref? ==> WellFormed(that.get.segment)
    requires identical ==> that.Ref? && that.get.segment == self
    ensures that.Null? ==> r == 0
    ensures that.Ref? && !that.get.alive ==> r == 0
    ensures that.Ref? && that.get.alive && identical ==> r == self.byteSize
    ensures that.Ref? && that.get.alive && !identical ==> r == NativeOverlap(self, that.get.segment)
  {
    if that.Null? then 0
    else if !that.get.alive then 0
    else if identical then self.byteSize
    else NativeOverlap(self, that.get.segment)
  }
}
