/**
 * BaseWritableMemoryImpl and NonNativeWritableMemoryImpl: a Memory is a window of
 * `capacity` bytes that starts at index `cumOffset` of a byte store. Every view
 * derived from a memory (a region, a buffer) shares the store, so a write through one
 * view is seen through all of them. A view's own fields never change after it is
 * built; the operations that write change the bytes of the store in place.
 *
 * The heavy operations (regions, array transfers, fill, clear) check validity, bounds
 * and write permission at run time and report a failure as an Outcome or Result. The
 * light ones (getByte, putByte, setBits, the typed get and put) only assert them, so
 * here they are preconditions that internal callers must meet.
 */
module WritableMemory {
  import opened Primitives
  import Resource
  import UnsafeUtil
  import Util
  import CompareAndCopy
  import NonNativeCopy

  /** The length of EMPTY_BYTES, the block of zeros clear() copies from. */
  const EMPTY_BYTES_LENGTH: int := 1024

  /**
   * A Memory view: the store it reads and writes (the backing object), the index in the
   * store of the view's byte 0 (the cumulative offset), the capacity, the type id
   * (READONLY, NONNATIVE and the resource-kind bits) and whether the resource is valid.
   */
  datatype View = View(store: array<bv8>, cumOffset: int, capacity: i64, typeId: Resource.TypeId, valid: bool)

  /** The window lies inside the store. */
  predicate WellFormed(v: View)
  {
    0 <= v.cumOffset && 0 <= v.capacity && v.cumOffset + v.capacity <= v.store.Length
  }

  /** The view is read-only (its READONLY bit is set). */
  predicate ReadOnlyView(v: View)
  {
    Resource.IsReadOnlyType(v.typeId)
  }

  /** The bytes [off, off + n) of the view, as they are now. */
  function Range(v: View, off: int, n: int): (s: seq<bv8>)
    requires WellFormed(v) && 0 <= off && 0 <= n && off + n <= v.capacity
    reads v.store
    ensures |s| == n
  {
    v.store[v.cumOffset + off..v.cumOffset + off + n]
  }

  /** assertValidAndBoundsForRead(off, n): what a light read asserts. */
  predicate CanRead(v: View, off: int, n: int)
  {
    WellFormed(v) && v.valid && 0 <= off && 0 <= n && off + n <= v.capacity
  }

  /** assertValidAndBoundsForWrite(off, n): a light write also asserts the view is writable. */
  predicate CanWrite(v: View, off: int, n: int)
  {
    CanRead(v, off, n) && !ReadOnlyView(v)
  }

  // ---------------------------------------------------------------------------------
  // Regions

  /**
   * The type id the leaves give a view derived from one of type typeId: the resource
   * kind bits stay, the shape bits (MEMORY or BUFFER, REGION, DUPLICATE) are the ones
   * asked for, READONLY is set when asked for, and NONNATIVE follows the byte order.
   */
  function DerivedTypeId(typeId: Resource.TypeId, shape: Resource.TypeId, readOnly: bool, byteOrder: ByteOrder)
    : (r: Resource.TypeId)
    requires shape & (Resource.NONNATIVE | Resource.READONLY) == 0
    ensures Resource.IsReadOnlyType(r) <==> Resource.IsReadOnlyType(typeId) || readOnly
    ensures Resource.GetByteOrder(r) == byteOrder
    ensures r & shape == shape
  {
    Resource.RemoveNnBuf(typeId) | shape | (if readOnly then Resource.READONLY else 0)
      | (if byteOrder == NATIVE_ORDER then Resource.NATIVE else Resource.NONNATIVE)
  }

  /**
   * writableRegionImpl: a read-only view may only give read-only regions; then the
   * offset and the capacity must not be negative, and the region must lie within the
   * view. The region starts offsetBytes further into the same store and is read-only
   * when the view is or when read-only was asked for.
   */
  function WritableRegionImpl(v: View, offsetBytes: i64, capacityBytes: i64, localReadOnly: bool,
                              byteOrder: ByteOrder): (r: Result<View>)
    requires WellFormed(v)
    ensures r.Ok? <==> v.valid && (!ReadOnlyView(v) || localReadOnly) &&
                       0 <= offsetBytes && 0 <= capacityBytes && offsetBytes + capacityBytes <= v.capacity
    ensures !v.valid ==> r == Err(MemoryInvalid)
    ensures v.valid && ReadOnlyView(v) && !localReadOnly ==> r == Err(ReadOnly)
    ensures v.valid && (!ReadOnlyView(v) || localReadOnly) && (offsetBytes < 0 || capacityBytes < 0) ==>
              r == Err(IllegalArgument)
    ensures (v.valid && (!ReadOnlyView(v) || localReadOnly) && 0 <= offsetBytes && 0 <= capacityBytes &&
             offsetBytes + capacityBytes > v.capacity) ==> r == Err(MemoryBounds)
    ensures r.Ok? ==> WellFormed(r.value) && r.value.store == v.store && r.value.valid == v.valid &&
                      r.value.cumOffset == v.cumOffset + offsetBytes && r.value.capacity == capacityBytes
    ensures r.Ok? ==> (ReadOnlyView(r.value) <==> ReadOnlyView(v) || localReadOnly)
    ensures r.Ok? ==> Resource.GetByteOrder(r.value.typeId) == byteOrder
    ensures r.Ok? ==> Resource.IsRegionType(r.value.typeId) && Resource.IsMemoryType(r.value.typeId)
  {
    var ro := Resource.IsReadOnly(v.valid, v.typeId);
    if ro.Err? then Err(ro.error)
    else if ro.value && !localReadOnly then Err(ReadOnly)
    else if Util.NegativeCheck(offsetBytes) != Pass then Err(IllegalArgument)
    else if Util.NegativeCheck(capacityBytes) != Pass then Err(IllegalArgument)
    else
      var check := Resource.CheckValidAndBounds(v.valid, offsetBytes, capacityBytes, v.capacity);
      if check != Pass then Err(check.error)
      else
        var readOnly := ro.value || localReadOnly;
        var typeId := DerivedTypeId(v.typeId, Resource.MEMORY | Resource.REGION, readOnly, byteOrder);
        assert Resource.IsRegionType(typeId) && Resource.IsMemoryType(typeId) by {
          assert typeId & Resource.REGION == Resource.REGION;
        }
        Ok(View(v.store, v.cumOffset + offsetBytes, capacityBytes, typeId, v.valid))
  }

  /** region: always a read-only view. */
  function Region(v: View, offsetBytes: i64, capacityBytes: i64, byteOrder: ByteOrder): (r: Result<View>)
    requires WellFormed(v)
    ensures r.Ok? <==> v.valid && 0 <= offsetBytes && 0 <= capacityBytes && offsetBytes + capacityBytes <= v.capacity
    ensures r.Ok? ==> ReadOnlyView(r.value)
  {
    WritableRegionImpl(v, offsetBytes, capacityBytes, true, byteOrder)
  }

  /** writableRegion: refused on a read-only view; otherwise the region is writable. */
  function WritableRegion(v: View, offsetBytes: i64, capacityBytes: i64, byteOrder: ByteOrder): (r: Result<View>)
    requires WellFormed(v)
    ensures v.valid && ReadOnlyView(v) ==> r == Err(ReadOnly)
    ensures r.Ok? ==> !ReadOnlyView(r.value)
  {
    WritableRegionImpl(v, offsetBytes, capacityBytes, false, byteOrder)
  }

  /** A region shows the bytes of its parent from offsetBytes on, now and after any write. */
  lemma RegionBytes(v: View, offsetBytes: i64, capacityBytes: i64, localReadOnly: bool, byteOrder: ByteOrder,
                    off: int, n: int)
    requires WellFormed(v)
    requires WritableRegionImpl(v, offsetBytes, capacityBytes, localReadOnly, byteOrder).Ok?
    requires 0 <= off && 0 <= n && off + n <= capacityBytes
    ensures Range(WritableRegionImpl(v, offsetBytes, capacityBytes, localReadOnly, byteOrder).value, off, n)
            == Range(v, offsetBytes + off, n)
  {
  }

  // ---------------------------------------------------------------------------------
  // Single bytes

  /** getByte: the byte at offsetBytes of the view. */
  function GetByte(v: View, offsetBytes: i64): (b: bv8)
    requires CanRead(v, offsetBytes, 1)
    reads v.store
    ensures [b] == Range(v, offsetBytes, 1)
  {
    v.store[v.cumOffset + offsetBytes]
  }

  /** putByte: the byte at offsetBytes becomes value and no other byte of the store changes. */
  method PutByte(v: View, offsetBytes: i64, value: bv8)
    requires CanWrite(v, offsetBytes, 1)
    modifies v.store
    ensures v.store[..] == old(v.store[..])[v.cumOffset + offsetBytes := value]
    ensures GetByte(v, offsetBytes) == value
  {
    v.store[v.cumOffset + offsetBytes] := value;
  }

  /** b | mask: the byte setBits writes. */
  function SetBitsOf(b: bv8, bitMask: bv8): (r: bv8)
    ensures r & bitMask == bitMask
    ensures r & !bitMask == b & !bitMask
  {
    b | bitMask
  }

  /** b & ~mask: the byte clearBits writes. */
  function ClearBitsOf(b: bv8, bitMask: bv8): (r: bv8)
    ensures r & bitMask == 0
    ensures r & !bitMask == b & !bitMask
  {
    b & !bitMask
  }

  /** Setting or clearing the same bits twice is doing it once. */
  lemma BitsIdempotent(b: bv8, bitMask: bv8)
    ensures SetBitsOf(SetBitsOf(b, bitMask), bitMask) == SetBitsOf(b, bitMask)
    ensures ClearBitsOf(ClearBitsOf(b, bitMask), bitMask) == ClearBitsOf(b, bitMask)
  {
  }

  /** setBits: the byte at offsetBytes becomes b | bitMask; nothing else changes. */
  method SetBits(v: View, offsetBytes: i64, bitMask: bv8)
    requires CanWrite(v, offsetBytes, 1)
    modifies v.store
    ensures v.store[..] == old(v.store[..])[v.cumOffset + offsetBytes := SetBitsOf(old(GetByte(v, offsetBytes)), bitMask)]
  {
    var myOffset := v.cumOffset + offsetBytes;
    var value := v.store[myOffset];
    v.store[myOffset] := value | bitMask;
  }

  /** clearBits: the byte at offsetBytes becomes b & ~bitMask; nothing else changes. */
  method ClearBits(v: View, offsetBytes: i64, bitMask: bv8)
    requires CanWrite(v, offsetBytes, 1)
    modifies v.store
    ensures v.store[..] == old(v.store[..])[v.cumOffset + offsetBytes := ClearBitsOf(old(GetByte(v, offsetBytes)), bitMask)]
  {
    var cumBaseOff := v.cumOffset + offsetBytes;
    var value := v.store[cumBaseOff];
    value := value & !bitMask;
    v.store[cumBaseOff] := value;
  }

  // ---------------------------------------------------------------------------------
  // Byte arrays

  /** A copy that writes n bytes at dstAdd writes the source run there and nothing else. */
  lemma CopiedIsSpliced(after: seq<bv8>, s: seq<bv8>, srcAdd: int, before: seq<bv8>, dstAdd: int, n: int)
    requires 0 <= n && 0 <= srcAdd && srcAdd + n <= |s| && 0 <= dstAdd && dstAdd + n <= |before|
    requires CompareAndCopy.CopiedInto(after, s, srcAdd, before, dstAdd, n)
    ensures NonNativeCopy.Spliced(after, before, dstAdd, s[srcAdd..srcAdd + n])
  {
  }

  /**
   * getByteArray: checks validity and the memory range, then the destination range
   * (IllegalArgumentException), then copies; a destination that is the store itself
   * is refused with IllegalArgumentException. On success the destination range holds
   * the view's bytes and the rest of the destination is as it was.
   */
  method GetByteArray(v: View, offsetBytes: i64, dst: array<bv8>, dstOffsetBytes: i32, lengthBytes: i32)
    returns (o: Outcome)
    requires WellFormed(v) && dst.Length <= MAX_INT
    modifies dst
    ensures Resource.CheckValidAndBounds(v.valid, offsetBytes, lengthBytes, v.capacity) != Pass ==>
              o == Resource.CheckValidAndBounds(v.valid, offsetBytes, lengthBytes, v.capacity)
    ensures Resource.CheckValidAndBounds(v.valid, offsetBytes, lengthBytes, v.capacity) == Pass ==>
              (o == Pass <==> UnsafeUtil.CheckBounds(dstOffsetBytes, lengthBytes, dst.Length) == Pass && dst != v.store)
    ensures Resource.CheckValidAndBounds(v.valid, offsetBytes, lengthBytes, v.capacity) == Pass && o != Pass ==>
              o == Fail(IllegalArgument)
    ensures o != Pass ==> unchanged(dst)
    ensures o == Pass ==>
              0 <= offsetBytes && 0 <= dstOffsetBytes && 0 <= lengthBytes &&
              offsetBytes + lengthBytes <= v.capacity && dstOffsetBytes + lengthBytes <= dst.Length &&
              NonNativeCopy.Spliced(dst[..], old(dst[..]), dstOffsetBytes as int, old(Range(v, offsetBytes, lengthBytes)))
  {
    o := Resource.CheckValidAndBounds(v.valid, offsetBytes, lengthBytes, v.capacity);
    if o != Pass {
      return;
    }
    o := UnsafeUtil.CheckBounds(dstOffsetBytes, lengthBytes, dst.Length);
    if o != Pass {
      return;
    }
    ghost var s, d := v.store[..], dst[..];
    o := CompareAndCopy.CopyMemoryCheckingDifferentObject(v.store, v.cumOffset + offsetBytes, dst,
                                                          dstOffsetBytes as int, lengthBytes as int);
    if o == Pass {
      CopiedIsSpliced(dst[..], s, v.cumOffset + offsetBytes, d, dstOffsetBytes as int, lengthBytes as int);
    }
  }

  /**
   * putByteArray: checks validity, the memory range and write permission, then the
   * source range, then copies; a source that is the store itself is refused. A rejected
   * call writes nothing.
   */
  method PutByteArray(v: View, offsetBytes: i64, src: array<bv8>, srcOffsetBytes: i32, lengthBytes: i32)
    returns (o: Outcome)
    requires WellFormed(v) && src.Length <= MAX_INT
    modifies v.store
    ensures Resource.CheckValidAndBoundsForWrite(v.valid, v.typeId, offsetBytes, lengthBytes, v.capacity) != Pass ==>
              o == Resource.CheckValidAndBoundsForWrite(v.valid, v.typeId, offsetBytes, lengthBytes, v.capacity)
    ensures Resource.CheckValidAndBoundsForWrite(v.valid, v.typeId, offsetBytes, lengthBytes, v.capacity) == Pass ==>
              (o == Pass <==> UnsafeUtil.CheckBounds(srcOffsetBytes, lengthBytes, src.Length) == Pass && src != v.store)
    ensures (Resource.CheckValidAndBoundsForWrite(v.valid, v.typeId, offsetBytes, lengthBytes, v.capacity) == Pass &&
             o != Pass) ==> o == Fail(IllegalArgument)
    ensures o != Pass ==> unchanged(v.store)
    ensures o == Pass ==>
              0 <= offsetBytes && 0 <= srcOffsetBytes && 0 <= lengthBytes &&
              offsetBytes + lengthBytes <= v.capacity && srcOffsetBytes + lengthBytes <= src.Length &&
              NonNativeCopy.Spliced(v.store[..], old(v.store[..]), v.cumOffset + offsetBytes,
                                    old(src[srcOffsetBytes..srcOffsetBytes + lengthBytes]))
  {
    o := Resource.CheckValidAndBoundsForWrite(v.valid, v.typeId, offsetBytes, lengthBytes, v.capacity);
    if o != Pass {
      return;
    }
    o := UnsafeUtil.CheckBounds(srcOffsetBytes, lengthBytes, src.Length);
    if o != Pass {
      return;
    }
    ghost var s, d := src[..], v.store[..];
    o := CompareAndCopy.CopyMemoryCheckingDifferentObject(src, srcOffsetBytes as int, v.store,
                                                          v.cumOffset + offsetBytes, lengthBytes as int);
    if o == Pass {
      CopiedIsSpliced(v.store[..], s, srcOffsetBytes as int, d, v.cumOffset + offsetBytes, lengthBytes as int);
    }
  }

  /**
   * putByteArray followed by getByteArray at the same offset and length gives back the
   * bytes that were put.
   */
  method PutThenGetByteArray(v: View, offsetBytes: i64, src: array<bv8>, srcOffsetBytes: i32,
                             dst: array<bv8>, dstOffsetBytes: i32, lengthBytes: i32)
    returns (put: Outcome, get: Outcome)
    requires WellFormed(v) && src.Length <= MAX_INT && dst.Length <= MAX_INT
    modifies v.store, dst
    ensures put == Pass && get == Pass ==>
              0 <= srcOffsetBytes && 0 <= dstOffsetBytes && 0 <= lengthBytes &&
              srcOffsetBytes + lengthBytes <= src.Length && dstOffsetBytes + lengthBytes <= dst.Length &&
              dst[dstOffsetBytes..dstOffsetBytes + lengthBytes] == old(src[srcOffsetBytes..srcOffsetBytes + lengthBytes])
  {
    ghost var s := src[..];
    put := PutByteArray(v, offsetBytes, src, srcOffsetBytes, lengthBytes);
    if put != Pass {
      return put, Pass;
    }
    NonNativeCopy.SplicedSlice(v.store[..], old(v.store[..]), v.cumOffset + offsetBytes,
                               s[srcOffsetBytes..srcOffsetBytes + lengthBytes]);
    label AfterPut:
    get := GetByteArray(v, offsetBytes, dst, dstOffsetBytes, lengthBytes);
    if get == Pass {
      NonNativeCopy.SplicedSlice(dst[..], old@AfterPut(dst[..]), dstOffsetBytes as int,
                                 s[srcOffsetBytes..srcOffsetBytes + lengthBytes]);
    }
  }

  // ---------------------------------------------------------------------------------
  // fill and clear

  /** n copies of the byte value. */
  function Repeat(value: bv8, n: nat): (s: seq<bv8>)
    ensures |s| == n && forall k :: 0 <= k < n ==> s[k] == value
  {
    seq(n, _ => value)
  }

  /** Writing a run of b copies of value right after a run of a copies writes a run of a + b. */
  lemma RunExtended(after: seq<bv8>, mid: seq<bv8>, before: seq<bv8>, at: int, value: bv8, a: nat, b: nat)
    requires (a == 0 && mid == before && 0 <= at <= |mid|) || NonNativeCopy.Spliced(mid, before, at, Repeat(value, a))
    requires NonNativeCopy.Spliced(after, mid, at + a, Repeat(value, b))
    ensures NonNativeCopy.Spliced(after, before, at, Repeat(value, a + b))
  {
    if a == 0 && mid == before {
      NonNativeCopy.SplicedNone(mid, at);
    }
    NonNativeCopy.SplicedCompose(after, mid, before, at, Repeat(value, a), Repeat(value, b));
    assert Repeat(value, a) + Repeat(value, b) == Repeat(value, a + b);
  }

  /** Unsafe.setMemory: n bytes from index at of the store become value. */
  method SetMemory(m: array<bv8>, at: int, n: int, value: bv8)
    requires 0 <= at && 0 <= n && at + n <= m.Length
    modifies m
    ensures NonNativeCopy.Spliced(m[..], old(m[..]), at, Repeat(value, n))
  {
    ghost var before := m[..];
    for i := 0 to n
      invariant forall k :: 0 <= k < m.Length ==> m[k] == if at <= k < at + i then value else before[k]
    {
      m[at + i] := value;
    }
  }

  /**
   * The chunked setMemory loop of fill, run once the checks have passed: every byte of
   * [offsetBytes, offsetBytes + lengthBytes) becomes value, in chunks of at most
   * UNSAFE_COPY_THRESHOLD_BYTES, and no other byte of the store changes.
   */
  method FillChunks(v: View, offsetBytes: i64, lengthBytes: i64, value: bv8)
    requires WellFormed(v) && 0 <= offsetBytes && 0 <= lengthBytes && offsetBytes + lengthBytes <= v.capacity
    modifies v.store
    ensures NonNativeCopy.Spliced(v.store[..], old(v.store[..]), v.cumOffset + offsetBytes, Repeat(value, lengthBytes))
  {
    ghost var before := v.store[..];
    var off, len := offsetBytes, lengthBytes;
    while len > 0
      invariant 0 <= off && 0 <= len && off + len == offsetBytes + lengthBytes && offsetBytes <= off
      invariant (off == offsetBytes && v.store[..] == before) ||
                NonNativeCopy.Spliced(v.store[..], before, v.cumOffset + offsetBytes, Repeat(value, off - offsetBytes))
    {
      var chunk := if len <= CompareAndCopy.UNSAFE_COPY_THRESHOLD_BYTES then len
                   else CompareAndCopy.UNSAFE_COPY_THRESHOLD_BYTES;
      ghost var filled := v.store[..];
      SetMemory(v.store, v.cumOffset + off, chunk, value);
      RunExtended(v.store[..], filled, before, v.cumOffset + offsetBytes, value, off - offsetBytes, chunk);
      off := off + chunk;
      len := len - chunk;
    }
    if lengthBytes == 0 {
      NonNativeCopy.SplicedNone(before, v.cumOffset + offsetBytes);
    }
  }

  /**
   * fill(offsetBytes, lengthBytes, value): validity, bounds and write permission are
   * checked before the first write, so a rejected call writes nothing. Otherwise every
   * byte of [offsetBytes, offsetBytes + lengthBytes) becomes value and no other byte of
   * the store changes.
   */
  method Fill(v: View, offsetBytes: i64, lengthBytes: i64, value: bv8) returns (o: Outcome)
    requires WellFormed(v)
    modifies v.store
    ensures o == Resource.CheckValidAndBoundsForWrite(v.valid, v.typeId, offsetBytes, lengthBytes, v.capacity)
    ensures o == Pass <==> CanWrite(v, offsetBytes, lengthBytes)
    ensures o != Pass ==> unchanged(v.store)
    ensures o == Pass ==>
              NonNativeCopy.Spliced(v.store[..], old(v.store[..]), v.cumOffset + offsetBytes, Repeat(value, lengthBytes))
  {
    o := Resource.CheckValidAndBoundsForWrite(v.valid, v.typeId, offsetBytes, lengthBytes, v.capacity);
    if o != Pass {
      return;
    }
    FillChunks(v, offsetBytes, lengthBytes, value);
  }

  /** fill(value): the whole view. */
  method FillAll(v: View, value: bv8) returns (o: Outcome)
    requires WellFormed(v)
    modifies v.store
    ensures o == Pass <==> v.valid && !ReadOnlyView(v)
    ensures o != Pass ==> unchanged(v.store)
    ensures o == Pass ==> Range(v, 0, v.capacity) == Repeat(value, v.capacity)
    ensures o == Pass ==> v.store[..v.cumOffset] == old(v.store[..v.cumOffset]) &&
                          v.store[v.cumOffset + v.capacity..] == old(v.store[v.cumOffset + v.capacity..])
  {
    o := Fill(v, 0, v.capacity, value);
    if o == Pass {
      NonNativeCopy.SplicedSlice(v.store[..], old(v.store[..]), v.cumOffset, Repeat(value, v.capacity));
    }
  }

  /** The length of clear's next chunk: (int) min(EMPTY_BYTES_LENGTH, endBytes - i). */
  function ChunkLength(endBytes: i64, i: i64): (c: i32)
    ensures 0 <= i < endBytes ==> c == Resource.Min(EMPTY_BYTES_LENGTH, endBytes - i) && 0 < c <= EMPTY_BYTES_LENGTH
  {
    WrapInt(Resource.Min(EMPTY_BYTES_LENGTH, WrapLong(endBytes - i)))
  }

  /** The start of clear's next chunk: i + EMPTY_BYTES_LENGTH as a Java long. */
  function NextChunk(i: i64): (n: i64)
    ensures i + EMPTY_BYTES_LENGTH <= MAX_LONG ==> n == i + EMPTY_BYTES_LENGTH
    ensures 0 <= i && MAX_LONG < i + EMPTY_BYTES_LENGTH ==> n < 0
  {
    WrapLong(i + EMPTY_BYTES_LENGTH)
  }

  /**
   * What clear's loop does from running offset i on, for a view with the given validity,
   * type and capacity: its outcome, and how many bytes from i on it zeroes before that
   * outcome. Each chunk is checked as putByteArray checks it, and a rejected chunk ends
   * the loop.
   */
  function ClearRun(valid: bool, typeId: Resource.TypeId, capacity: i64, endBytes: i64, i: i64): (r: (Outcome, nat))
    requires 0 <= capacity
    decreases if i < 0 then 0 else 1, endBytes - i
  {
    if endBytes <= i then (Pass, 0)
    else
      var chunk := ChunkLength(endBytes, i);
      var o := Resource.CheckValidAndBoundsForWrite(valid, typeId, i, chunk, capacity);
      if o != Pass then (o, 0)
      else
        var rest := ClearRun(valid, typeId, capacity, endBytes, NextChunk(i));
        (rest.0, chunk + rest.1)
  }

  /**
   * What clear(offsetBytes, lengthBytes) does: the loop from offsetBytes up to
   * offsetBytes + lengthBytes, computed as a Java long.
   */
  function ClearSpec(valid: bool, typeId: Resource.TypeId, capacity: i64, offsetBytes: i64, lengthBytes: i64): (r: (Outcome, nat))
    requires 0 <= capacity
    ensures WrapLong(offsetBytes + lengthBytes) <= offsetBytes ==> r == (Pass, 0)
  {
    ClearRun(valid, typeId, capacity, WrapLong(offsetBytes + lengthBytes), offsetBytes)
  }

  /**
   * Whatever clear's loop does, it fails only as putByteArray's checks fail, it zeroes
   * bytes only of a valid writable view and only within its capacity, and when it
   * passes it has zeroed everything up to the end.
   */
  lemma {:induction false} ClearRunOutcome(valid: bool, typeId: Resource.TypeId, capacity: i64, endBytes: i64, i: i64)
    requires 0 <= capacity
    ensures var r := ClearRun(valid, typeId, capacity, endBytes, i);
      (r.0 == Pass || r.0 == Fail(MemoryInvalid) || r.0 == Fail(MemoryBounds) || r.0 == Fail(ReadOnly)) &&
      (r.1 > 0 ==> valid && !Resource.IsReadOnlyType(typeId) && 0 <= i && i + r.1 <= capacity) &&
      (r.0 == Pass && i < endBytes ==> 0 <= i && r.1 == endBytes - i && endBytes <= capacity)
    decreases if i < 0 then 0 else 1, endBytes - i
  {
    if i < endBytes {
      var chunk := ChunkLength(endBytes, i);
      if Resource.CheckValidAndBoundsForWrite(valid, typeId, i, chunk, capacity) == Pass {
        ClearRunOutcome(valid, typeId, capacity, endBytes, NextChunk(i));
      }
    }
  }

  /**
   * A range that lies within a valid writable view is zeroed in full, as long as the
   * running offset cannot wrap (the capacity leaves room for one more chunk).
   */
  lemma {:induction false} ClearRunInBounds(valid: bool, typeId: Resource.TypeId, capacity: i64, endBytes: i64, i: i64)
    requires valid && !Resource.IsReadOnlyType(typeId)
    requires 0 <= i && 0 <= capacity && endBytes <= capacity <= MAX_LONG - EMPTY_BYTES_LENGTH
    ensures ClearRun(valid, typeId, capacity, endBytes, i) == (Pass, if i < endBytes then endBytes - i else 0)
    decreases endBytes - i
  {
    if i < endBytes {
      ClearRunInBounds(valid, typeId, capacity, endBytes, NextChunk(i));
    }
  }

  /** The whole chunks in x are one more than those in x less one chunk. */
  lemma ChunksAfter(x: int)
    requires EMPTY_BYTES_LENGTH <= x
    ensures EMPTY_BYTES_LENGTH * (x / EMPTY_BYTES_LENGTH) ==
            EMPTY_BYTES_LENGTH + EMPTY_BYTES_LENGTH * ((x - EMPTY_BYTES_LENGTH) / EMPTY_BYTES_LENGTH)
  {
  }

  /**
   * A range that runs past the capacity of a valid writable view is zeroed in whole
   * chunks up to the last one that fits, and clear then fails with MemoryBounds.
   */
  lemma {:induction false} ClearRunPastCapacity(valid: bool, typeId: Resource.TypeId, capacity: i64, endBytes: i64, i: i64)
    requires valid && !Resource.IsReadOnlyType(typeId)
    requires 0 <= i <= capacity < endBytes
    ensures ClearRun(valid, typeId, capacity, endBytes, i) ==
            (Fail(MemoryBounds), EMPTY_BYTES_LENGTH * ((capacity - i) / EMPTY_BYTES_LENGTH))
    decreases endBytes - i
  {
    var chunks := EMPTY_BYTES_LENGTH * ((capacity - i) / EMPTY_BYTES_LENGTH);
    if i + EMPTY_BYTES_LENGTH <= capacity {
      ClearRunPastCapacity(valid, typeId, capacity, endBytes, NextChunk(i));
      ChunksAfter(capacity - i);
    } else {
      assert chunks == 0;
    }
  }

  /**
   * clear(offsetBytes, lengthBytes) in the terms of its arguments: an empty or wrapped
   * range passes without writing, an invalid or read-only view is never written, a
   * clear that passes zeroed exactly the range, a range within a view (with room for
   * one more chunk) passes, and one past the capacity fails with MemoryBounds after
   * zeroing the whole chunks that fit.
   */
  lemma ClearSpecFacts(valid: bool, typeId: Resource.TypeId, capacity: i64, offsetBytes: i64, lengthBytes: i64)
    requires 0 <= capacity
    ensures var r := ClearSpec(valid, typeId, capacity, offsetBytes, lengthBytes);
      (r.0 == Pass || r.0 == Fail(MemoryInvalid) || r.0 == Fail(MemoryBounds) || r.0 == Fail(ReadOnly)) &&
      (r.1 > 0 ==> valid && !Resource.IsReadOnlyType(typeId) && 0 <= offsetBytes && offsetBytes + r.1 <= capacity) &&
      (!valid && offsetBytes < WrapLong(offsetBytes + lengthBytes) ==> r == (Fail(MemoryInvalid), 0)) &&
      (r.0 == Pass && offsetBytes < WrapLong(offsetBytes + lengthBytes) ==>
         valid && !Resource.IsReadOnlyType(typeId) && 0 <= offsetBytes && 0 < lengthBytes &&
         offsetBytes + lengthBytes <= capacity && r.1 == lengthBytes) &&
      ((valid && !Resource.IsReadOnlyType(typeId) && 0 <= offsetBytes && 0 < lengthBytes &&
        offsetBytes + lengthBytes <= capacity <= MAX_LONG - EMPTY_BYTES_LENGTH) ==> r == (Pass, lengthBytes)) &&
      (valid && !Resource.IsReadOnlyType(typeId) && 0 <= offsetBytes <= capacity < offsetBytes + lengthBytes <= MAX_LONG ==>
         r == (Fail(MemoryBounds), EMPTY_BYTES_LENGTH * ((capacity - offsetBytes) / EMPTY_BYTES_LENGTH)))
  {
    var endBytes := WrapLong(offsetBytes + lengthBytes);
    ClearRunOutcome(valid, typeId, capacity, endBytes, offsetBytes);
    if valid && !Resource.IsReadOnlyType(typeId) && 0 <= offsetBytes && 0 < lengthBytes &&
       offsetBytes + lengthBytes <= capacity <= MAX_LONG - EMPTY_BYTES_LENGTH {
      ClearRunInBounds(valid, typeId, capacity, endBytes, offsetBytes);
    }
    if valid && !Resource.IsReadOnlyType(typeId) && 0 <= offsetBytes <= capacity < offsetBytes + lengthBytes <= MAX_LONG {
      ClearRunPastCapacity(valid, typeId, capacity, endBytes, offsetBytes);
    }
  }

  /** One chunk of clear's loop: a rejected chunk ends it, an accepted one adds its length. */
  lemma ClearRunStep(valid: bool, typeId: Resource.TypeId, capacity: i64, endBytes: i64, i: i64,
                     o: Outcome, rest: (Outcome, nat))
    requires 0 <= capacity && i < endBytes
    requires o == Resource.CheckValidAndBoundsForWrite(valid, typeId, i, ChunkLength(endBytes, i), capacity)
    requires rest == ClearRun(valid, typeId, capacity, endBytes, NextChunk(i))
    ensures o != Pass ==> ClearRun(valid, typeId, capacity, endBytes, i) == (o, 0)
    ensures o == Pass ==> ClearRun(valid, typeId, capacity, endBytes, i) == (rest.0, ChunkLength(endBytes, i) + rest.1)
  {
  }

  /** One chunk of clear: putByteArray(i, EMPTY_BYTES, 0, chunk). */
  method PutZeros(v: View, empty: array<bv8>, i: i64, chunk: i32) returns (o: Outcome)
    requires WellFormed(v) && empty != v.store && empty[..] == Repeat(0, EMPTY_BYTES_LENGTH)
    requires 0 <= i ==> 0 <= chunk <= EMPTY_BYTES_LENGTH
    modifies v.store
    ensures o == Resource.CheckValidAndBoundsForWrite(v.valid, v.typeId, i, chunk, v.capacity)
    ensures o != Pass ==> v.store[..] == old(v.store[..])
    ensures o == Pass ==> NonNativeCopy.Spliced(v.store[..], old(v.store[..]), v.cumOffset + i, Repeat(0, chunk))
  {
    o := PutByteArray(v, i, empty, 0, chunk);
    if o == Pass {
      assert empty[0..chunk] == Repeat(0, chunk);
    }
  }

  /**
   * One pass of clear's loop at running offset i: the chunk is put, and cleared grows
   * by its length when putByteArray accepts it.
   */
  method ClearChunk(v: View, empty: array<bv8>, ghost before: seq<bv8>, ghost offsetBytes: int, endBytes: i64,
                    i: i64, ghost cleared: nat)
    returns (o: Outcome, next: i64, ghost cleared': nat)
    requires WellFormed(v) && empty != v.store && empty[..] == Repeat(0, EMPTY_BYTES_LENGTH)
    requires i < endBytes && (0 <= i ==> i == offsetBytes + cleared)
    requires cleared == 0 ==> v.store[..] == before
    requires cleared > 0 ==> NonNativeCopy.Spliced(v.store[..], before, v.cumOffset + offsetBytes, Repeat(0, cleared))
    modifies v.store
    ensures next == NextChunk(i)
    ensures o != Pass ==> ClearRun(v.valid, v.typeId, v.capacity, endBytes, i) == (o, 0) && cleared' == cleared &&
                          v.store[..] == old(v.store[..])
    ensures o == Pass ==> ClearRun(v.valid, v.typeId, v.capacity, endBytes, i).0 ==
                          ClearRun(v.valid, v.typeId, v.capacity, endBytes, next).0
    ensures o == Pass ==> ClearRun(v.valid, v.typeId, v.capacity, endBytes, i).1 ==
                          cleared' - cleared + ClearRun(v.valid, v.typeId, v.capacity, endBytes, next).1
    ensures o == Pass ==> cleared < cleared' && (0 <= next < endBytes ==> next == offsetBytes + cleared')
    ensures o == Pass ==>
              NonNativeCopy.Spliced(v.store[..], before, v.cumOffset + offsetBytes, Repeat(0, cleared'))
  {
    var chunk := ChunkLength(endBytes, i);
    ghost var zeroed := v.store[..];
    o := PutZeros(v, empty, i, chunk);
    next := NextChunk(i);
    ClearRunStep(v.valid, v.typeId, v.capacity, endBytes, i, o, ClearRun(v.valid, v.typeId, v.capacity, endBytes, next));
    cleared' := cleared;
    if o == Pass {
      RunExtended(v.store[..], zeroed, before, v.cumOffset + offsetBytes, 0, cleared, chunk);
      cleared' := cleared + chunk;
    }
  }

  /**
   * clear(offsetBytes, lengthBytes): copies zeros from EMPTY_BYTES with putByteArray,
   * 1024 bytes at a time, from offsetBytes while the running offset is below
   * offsetBytes + lengthBytes (both Java longs, so the end and the running offset may
   * wrap). There is no check up front: each chunk is checked by putByteArray, so a
   * clear that runs past the capacity zeroes the whole chunks that fit and then fails.
   * The ghost result cleared is how many bytes from offsetBytes on were zeroed; what
   * the outcome and cleared are for given arguments is stated by ClearSpecFacts.
   */
  method Clear(v: View, offsetBytes: i64, lengthBytes: i64) returns (o: Outcome, ghost cleared: nat)
    requires WellFormed(v)
    modifies v.store
    ensures o == ClearSpec(v.valid, v.typeId, v.capacity, offsetBytes, lengthBytes).0
    ensures cleared == ClearSpec(v.valid, v.typeId, v.capacity, offsetBytes, lengthBytes).1
    ensures cleared == 0 ==> v.store[..] == old(v.store[..])
    ensures cleared > 0 ==>
              NonNativeCopy.Spliced(v.store[..], old(v.store[..]), v.cumOffset + offsetBytes, Repeat(0, cleared))
  {
    var empty := new bv8[EMPTY_BYTES_LENGTH](_ => 0);
    assert empty[..] == Repeat(0, EMPTY_BYTES_LENGTH);
    ghost var before := v.store[..];
    var endBytes := WrapLong(offsetBytes + lengthBytes);
    var i: i64 := offsetBytes;
    cleared := 0;
    o := Pass;
    ghost var spec := ClearSpec(v.valid, v.typeId, v.capacity, offsetBytes, lengthBytes);
    while i < endBytes
      invariant empty[..] == Repeat(0, EMPTY_BYTES_LENGTH)
      invariant o == Pass
      invariant spec.0 == ClearRun(v.valid, v.typeId, v.capacity, endBytes, i).0
      invariant spec.1 == cleared + ClearRun(v.valid, v.typeId, v.capacity, endBytes, i).1
      invariant 0 <= i < endBytes ==> i == offsetBytes + cleared
      invariant cleared == 0 ==> v.store[..] == before
      invariant cleared > 0 ==> NonNativeCopy.Spliced(v.store[..], before, v.cumOffset + offsetBytes, Repeat(0, cleared))
      decreases if i < 0 then 0 else 1, endBytes - i
    {
      o, i, cleared := ClearChunk(v, empty, before, offsetBytes, endBytes, i, cleared);
      if o != Pass {
        return;
      }
    }
  }

  /** clear(): the whole view. */
  method ClearAll(v: View) returns (o: Outcome, ghost cleared: nat)
    requires WellFormed(v)
    modifies v.store
    ensures o == ClearSpec(v.valid, v.typeId, v.capacity, 0, v.capacity).0
    ensures cleared == ClearSpec(v.valid, v.typeId, v.capacity, 0, v.capacity).1
    ensures cleared == 0 ==> v.store[..] == old(v.store[..])
    ensures cleared > 0 ==> NonNativeCopy.Spliced(v.store[..], old(v.store[..]), v.cumOffset, Repeat(0, cleared))
  {
    o, cleared := Clear(v, 0, v.capacity);
  }

  // ---------------------------------------------------------------------------------
  // Typed access in non-native byte order

  /** getNativeOrderedX: the element of type p whose native layout is at offsetBytes. */
  function GetNativeOrdered(v: View, p: NonNativeCopy.Prim, offsetBytes: i64): (x: int)
    requires CanRead(v, offsetBytes, NonNativeCopy.Width(p))
    reads v.store
    ensures NonNativeCopy.Fits(p, x)
    ensures NonNativeCopy.NativeLayout(p, x) == Range(v, offsetBytes, NonNativeCopy.Width(p))
  {
    NonNativeCopy.NativeLayoutValue(p, Range(v, offsetBytes, NonNativeCopy.Width(p)));
    NonNativeCopy.NativeValue(p, Range(v, offsetBytes, NonNativeCopy.Width(p)))
  }

  /** Writes the bytes e into m from index at on. */
  method WriteRun(m: array<bv8>, at: int, e: seq<bv8>)
    requires 0 <= at && at + |e| <= m.Length
    modifies m
    ensures NonNativeCopy.Spliced(m[..], old(m[..]), at, e)
    ensures m[at..at + |e|] == e
  {
    forall j | 0 <= j < |e| {
      m[at + j] := e[j];
    }
    NonNativeCopy.SplicedSlice(m[..], old(m[..]), at, e);
  }

  /** putNativeOrderedX: stores the native layout of x at offsetBytes. */
  method PutNativeOrdered(v: View, p: NonNativeCopy.Prim, offsetBytes: i64, x: int)
    requires CanWrite(v, offsetBytes, NonNativeCopy.Width(p)) && NonNativeCopy.Fits(p, x)
    modifies v.store
    ensures NonNativeCopy.Spliced(v.store[..], old(v.store[..]), v.cumOffset + offsetBytes, NonNativeCopy.NativeLayout(p, x))
    ensures GetNativeOrdered(v, p, offsetBytes) == x
  {
    var e := NonNativeCopy.NativeLayout(p, x);
    WriteRun(v.store, v.cumOffset + offsetBytes, e);
    NonNativeCopy.NativeValueLayout(p, x);
  }

  /** Reversing the bytes of an element twice gives it back. */
  lemma ReverseOfInvolutive(p: NonNativeCopy.Prim, x: int)
    requires NonNativeCopy.Fits(p, x)
    ensures NonNativeCopy.Fits(p, NonNativeCopy.ReverseOf(p, x))
    ensures NonNativeCopy.ReverseOf(p, NonNativeCopy.ReverseOf(p, x)) == x
  {
    NonNativeCopy.ReverseOfLayout(p, x);
    if p == NonNativeCopy.CharType {
      ReverseCharInvolutive(x);
    } else {
      NonNativeCopy.FitsIsSigned(p, x);
      NonNativeCopy.FitsIsSigned(p, NonNativeCopy.ReverseOf(p, x));
      ReverseBytesInvolutive(x, NonNativeCopy.Width(p));
    }
  }

  /**
   * getChar/getShort/getInt/getLong (and getFloat/getDouble as raw bits) on a view in
   * non-native order: reverseBytes of the native-order read, so the value is the one
   * whose native layout is the stored bytes reversed (big-endian).
   */
  function Get(v: View, p: NonNativeCopy.Prim, offsetBytes: i64): (x: int)
    requires CanRead(v, offsetBytes, NonNativeCopy.Width(p))
    reads v.store
    ensures NonNativeCopy.Fits(p, x)
    ensures NonNativeCopy.NativeLayout(p, x) == Reverse(Range(v, offsetBytes, NonNativeCopy.Width(p)))
  {
    var b := Range(v, offsetBytes, NonNativeCopy.Width(p));
    NonNativeCopy.GetElemReversed(p, b);
    NonNativeCopy.NativeLayoutValue(p, Reverse(b));
    NonNativeCopy.ReverseOf(p, GetNativeOrdered(v, p, offsetBytes))
  }

  /**
   * putChar/putShort/putInt/putLong (and the float and double raw bits) on a view in
   * non-native order: the native-order put of reverseBytes(value). The bytes stored are
   * the native layout reversed, and a get at the same offset reads value back.
   */
  method Put(v: View, p: NonNativeCopy.Prim, offsetBytes: i64, value: int)
    requires CanWrite(v, offsetBytes, NonNativeCopy.Width(p)) && NonNativeCopy.Fits(p, value)
    modifies v.store
    ensures NonNativeCopy.Spliced(v.store[..], old(v.store[..]), v.cumOffset + offsetBytes,
                                  Reverse(NonNativeCopy.NativeLayout(p, value)))
    ensures Get(v, p, offsetBytes) == value
  {
    ReverseOfInvolutive(p, value);
    NonNativeCopy.ReverseOfLayout(p, value);
    PutNativeOrdered(v, p, offsetBytes, NonNativeCopy.ReverseOf(p, value));
  }

  /** The native layout of the short 1: low byte first. */
  lemma ShortOneLayout()
    ensures NonNativeCopy.NativeLayout(NonNativeCopy.ShortType, 1) == [1, 0]
  {
    assert Pow256(2) == 0x1_0000 by { assert Pow256(1) == 256; }
    assert ToLe(0, 1) == [0];
  }

  /** The native-order short read from the bytes 0, 1 is 256. */
  lemma ShortFromZeroOne()
    ensures NonNativeCopy.NativeValue(NonNativeCopy.ShortType, [0, 1]) == 256
  {
    var b: seq<bv8> := [0, 1];
    assert b[1..] == [1];
    assert FromLe(b) == 256;
    assert Half(2) == 0x8000 by { assert Pow256(1) == 256; }
  }

  /** A non-native putShort(0, 1) stores bytes that a native-order getShort reads as 256. */
  lemma NonNativeShortOne()
    ensures NonNativeCopy.NativeValue(NonNativeCopy.ShortType, NonNativeCopy.PutElem(NonNativeCopy.ShortType, 1)) == 256
  {
    NonNativeCopy.PutElemReversed(NonNativeCopy.ShortType, 1);
    ShortOneLayout();
    var b: seq<bv8> := [0, 1];
    assert Reverse([1, 0]) == b;
    ShortFromZeroOne();
  }

  /** The bytes taken by length elements of type p: ((long) length) << shift. */
  function CopyBytes(p: NonNativeCopy.Prim, length: i32): (c: i64)
    ensures c == length * NonNativeCopy.Width(p)
    ensures c < 0 <==> length < 0
    ensures 0 <= length ==> c == NonNativeCopy.Span(p, length)
  {
    length * NonNativeCopy.Width(p)
  }

  /**
   * getCharArray/getShortArray/.../getLongArray: copyBytes = lengthElements << shift;
   * validity and bounds of the memory range are checked, then CompareAndCopy's
   * non-native get checks the destination range and copies.
   */
  method GetArray(v: View, p: NonNativeCopy.Prim, offsetBytes: i64, dst: array<int>, dstOffset: i32, length: i32)
    returns (o: Outcome)
    requires WellFormed(v) && dst.Length <= MAX_INT && v.store as object != dst as object
    modifies dst
    ensures Resource.CheckValidAndBounds(v.valid, offsetBytes, CopyBytes(p, length), v.capacity) != Pass ==>
              o == Resource.CheckValidAndBounds(v.valid, offsetBytes, CopyBytes(p, length), v.capacity)
    ensures Resource.CheckValidAndBounds(v.valid, offsetBytes, CopyBytes(p, length), v.capacity) == Pass ==>
              o == UnsafeUtil.CheckBounds(dstOffset, length, dst.Length)
    ensures o != Pass ==> unchanged(dst)
    ensures o == Pass ==> 0 <= length && CanRead(v, offsetBytes, CopyBytes(p, length))
    ensures o == Pass ==>
              NonNativeCopy.Spliced(dst[..], old(dst[..]), dstOffset as int,
                                    NonNativeCopy.Decode(p, old(Range(v, offsetBytes, CopyBytes(p, length)))))
  {
    var copyBytes := CopyBytes(p, length);
    o := Resource.CheckValidAndBounds(v.valid, offsetBytes, copyBytes, v.capacity);
    if o != Pass {
      return;
    }
    o := NonNativeCopy.GetNonNative(p, v.store, v.cumOffset, offsetBytes, copyBytes, dst, dstOffset, length);
  }

  /**
   * putCharArray/putShortArray/.../putLongArray: validity, bounds and write permission
   * are checked first, then CompareAndCopy's non-native put checks the source range and
   * stores each element byte-reversed.
   */
  method PutArray(v: View, p: NonNativeCopy.Prim, offsetBytes: i64, src: array<int>, srcOffset: i32, length: i32)
    returns (o: Outcome)
    requires WellFormed(v) && src.Length <= MAX_INT && v.store as object != src as object
    modifies v.store
    ensures Resource.CheckValidAndBoundsForWrite(v.valid, v.typeId, offsetBytes, CopyBytes(p, length), v.capacity) != Pass ==>
              o == Resource.CheckValidAndBoundsForWrite(v.valid, v.typeId, offsetBytes, CopyBytes(p, length), v.capacity)
    ensures Resource.CheckValidAndBoundsForWrite(v.valid, v.typeId, offsetBytes, CopyBytes(p, length), v.capacity) == Pass ==>
              o == UnsafeUtil.CheckBounds(srcOffset, length, src.Length)
    ensures o != Pass ==> unchanged(v.store)
    ensures o == Pass ==> 0 <= length && CanWrite(v, offsetBytes, CopyBytes(p, length))
    ensures o == Pass ==>
              NonNativeCopy.Spliced(v.store[..], old(v.store[..]), v.cumOffset + offsetBytes,
                                    NonNativeCopy.Layout(p, old(src[srcOffset..srcOffset + length])))
  {
    var copyBytes := CopyBytes(p, length);
    o := Resource.CheckValidAndBoundsForWrite(v.valid, v.typeId, offsetBytes, copyBytes, v.capacity);
    if o != Pass {
      return;
    }
    o := NonNativeCopy.PutNonNative(p, src, srcOffset, length, copyBytes, v.store, v.cumOffset, offsetBytes);
  }

  /** The range a run of bytes was written to holds that run. */
  lemma StoredRange(v: View, before: seq<bv8>, offsetBytes: i64, written: seq<bv8>, n: int)
    requires CanRead(v, offsetBytes, n) && n == |written|
    requires NonNativeCopy.Spliced(v.store[..], before, v.cumOffset + offsetBytes, written)
    ensures Range(v, offsetBytes, n) == written
  {
    NonNativeCopy.SplicedSlice(v.store[..], before, v.cumOffset + offsetBytes, written);
  }

  /** The elements of a run spliced into an array are read back from it. */
  lemma ReadBack(a: array<int>, before: seq<int>, off: int, vals: seq<int>)
    requires NonNativeCopy.Spliced(a[..], before, off, vals)
    ensures 0 <= off && off + |vals| <= a.Length && a[off..off + |vals|] == vals
  {
    NonNativeCopy.SplicedSlice(a[..], before, off, vals);
  }

  /** The bytes a non-native array put leaves in the view decode to the values put. */
  lemma StoredDecodes(v: View, before: seq<bv8>, p: NonNativeCopy.Prim, offsetBytes: i64, vals: seq<int>, n: int)
    requires CanRead(v, offsetBytes, n) && n == NonNativeCopy.Span(p, |vals|) && NonNativeCopy.AllFit(p, vals)
    requires NonNativeCopy.Spliced(v.store[..], before, v.cumOffset + offsetBytes, NonNativeCopy.Layout(p, vals))
    ensures NonNativeCopy.Decode(p, Range(v, offsetBytes, n)) == vals
  {
    var layout := NonNativeCopy.Layout(p, vals);
    NonNativeCopy.LayoutLength(p, vals);
    StoredRange(v, before, offsetBytes, layout, n);
    NonNativeCopy.DecodeLayout(p, vals);
  }

  /** putXArray, stated as what a later get of the same range decodes. */
  method PutArrayDecodes(v: View, p: NonNativeCopy.Prim, offsetBytes: i64, src: array<int>, srcOffset: i32, length: i32,
                         ghost vals: seq<int>)
    returns (o: Outcome)
    requires WellFormed(v) && src.Length <= MAX_INT && v.store as object != src as object
    requires 0 <= srcOffset && 0 <= length && srcOffset + length <= src.Length
    requires vals == src[srcOffset..srcOffset + length] && NonNativeCopy.AllFit(p, vals)
    modifies v.store
    ensures o == Pass ==> CanRead(v, offsetBytes, CopyBytes(p, length)) &&
                          NonNativeCopy.Decode(p, Range(v, offsetBytes, CopyBytes(p, length))) == vals
  {
    o := PutArray(v, p, offsetBytes, src, srcOffset, length);
    if o == Pass {
      StoredDecodes(v, old(v.store[..]), p, offsetBytes, vals, CopyBytes(p, length));
    }
  }

  /**
   * A put of an array of element values followed by a get of the same length at the same
   * offset gives the values back.
   */
  method PutThenGetArray(v: View, p: NonNativeCopy.Prim, offsetBytes: i64, src: array<int>, srcOffset: i32,
                         dst: array<int>, dstOffset: i32, length: i32)
    returns (put: Outcome, get: Outcome)
    requires WellFormed(v) && src.Length <= MAX_INT && dst.Length <= MAX_INT
    requires v.store as object != src as object && v.store as object != dst as object && src != dst
    requires 0 <= srcOffset && 0 <= length && srcOffset + length <= src.Length
    requires NonNativeCopy.AllFit(p, src[srcOffset..srcOffset + length])
    modifies v.store, dst
    ensures put == Pass && get == Pass ==>
              0 <= dstOffset && dstOffset + length <= dst.Length &&
              dst[dstOffset..dstOffset + length] == old(src[srcOffset..srcOffset + length])
  {
    ghost var vals := src[srcOffset..srcOffset + length];
    put := PutArrayDecodes(v, p, offsetBytes, src, srcOffset, length, vals);
    if put != Pass {
      get := put;
      return;
    }
    label AfterPut:
    get := GetArray(v, p, offsetBytes, dst, dstOffset, length);
    if get == Pass {
      ReadBack(dst, old@AfterPut(dst[..]), dstOffset as int, vals);
    }
  }

  // ---------------------------------------------------------------------------------
  // Atomic long access in non-native byte order, for a single thread

  /** Unsafe.compareAndSwapLong on the native-order long at offsetBytes. */
  method CompareAndSwapNative(v: View, offsetBytes: i64, expected: i64, update: i64) returns (swapped: bool)
    requires CanWrite(v, offsetBytes, 8)
    modifies v.store
    ensures swapped <==> old(GetNativeOrdered(v, NonNativeCopy.LongType, offsetBytes)) == expected
    ensures swapped ==> NonNativeCopy.Spliced(v.store[..], old(v.store[..]), v.cumOffset + offsetBytes,
                                              NonNativeCopy.NativeLayout(NonNativeCopy.LongType, update)) &&
                        GetNativeOrdered(v, NonNativeCopy.LongType, offsetBytes) == update
    ensures !swapped ==> unchanged(v.store)
  {
    var current := GetNativeOrdered(v, NonNativeCopy.LongType, offsetBytes);
    swapped := current == expected;
    if swapped {
      PutNativeOrdered(v, NonNativeCopy.LongType, offsetBytes, update);
    }
  }

  /**
   * compareAndSwapLong: swaps in update exactly when the stored (non-native) long is
   * expect, by comparing the native-order long with reverseBytes(expect).
   */
  method CompareAndSwapLong(v: View, offsetBytes: i64, expected: i64, update: i64) returns (swapped: bool)
    requires CanWrite(v, offsetBytes, 8)
    modifies v.store
    ensures swapped <==> old(Get(v, NonNativeCopy.LongType, offsetBytes)) == expected
    ensures swapped ==> Get(v, NonNativeCopy.LongType, offsetBytes) == update &&
                        NonNativeCopy.Spliced(v.store[..], old(v.store[..]), v.cumOffset + offsetBytes,
                                              Reverse(NonNativeCopy.NativeLayout(NonNativeCopy.LongType, update)))
    ensures !swapped ==> unchanged(v.store)
  {
    ReverseOfInvolutive(NonNativeCopy.LongType, expected);
    ReverseOfInvolutive(NonNativeCopy.LongType, update);
    ReverseOfInvolutive(NonNativeCopy.LongType, GetNativeOrdered(v, NonNativeCopy.LongType, offsetBytes));
    NonNativeCopy.ReverseOfLayout(NonNativeCopy.LongType, update);
    swapped := CompareAndSwapNative(v, offsetBytes, NonNativeCopy.ReverseOf(NonNativeCopy.LongType, expected),
                                    NonNativeCopy.ReverseOf(NonNativeCopy.LongType, update));
  }

  /**
   * getAndSetLong: stores newValue (byte-reversed) and returns the long that was stored
   * before, reversed back.
   */
  method GetAndSetLong(v: View, offsetBytes: i64, newValue: i64) returns (previous: i64)
    requires CanWrite(v, offsetBytes, 8)
    modifies v.store
    ensures previous == old(Get(v, NonNativeCopy.LongType, offsetBytes))
    ensures Get(v, NonNativeCopy.LongType, offsetBytes) == newValue
    ensures NonNativeCopy.Spliced(v.store[..], old(v.store[..]), v.cumOffset + offsetBytes,
                                  Reverse(NonNativeCopy.NativeLayout(NonNativeCopy.LongType, newValue)))
  {
    previous := Get(v, NonNativeCopy.LongType, offsetBytes);
    Put(v, NonNativeCopy.LongType, offsetBytes, newValue);
  }

  /**
   * One attempt of getAndAddLong's loop: read the native-order long, reverse it, add
   * delta, and compare-and-swap the reversed sum for the value read.
   */
  method AddAttempt(v: View, offsetBytes: i64, delta: i64) returns (oldValue: i64, swapped: bool)
    requires CanWrite(v, offsetBytes, 8)
    modifies v.store
    ensures swapped
    ensures oldValue == old(Get(v, NonNativeCopy.LongType, offsetBytes))
    ensures Get(v, NonNativeCopy.LongType, offsetBytes) == WrapLong(oldValue + delta)
    ensures NonNativeCopy.Spliced(v.store[..], old(v.store[..]), v.cumOffset + offsetBytes,
                                  Reverse(NonNativeCopy.NativeLayout(NonNativeCopy.LongType, WrapLong(oldValue + delta))))
  {
    var oldReversed := GetNativeOrdered(v, NonNativeCopy.LongType, offsetBytes);
    ReverseOfInvolutive(NonNativeCopy.LongType, oldReversed);
    oldValue := NonNativeCopy.ReverseOf(NonNativeCopy.LongType, oldReversed);
    var sum := WrapLong(oldValue + delta);
    ReverseOfInvolutive(NonNativeCopy.LongType, sum);
    NonNativeCopy.ReverseOfLayout(NonNativeCopy.LongType, sum);
    swapped := CompareAndSwapNative(v, offsetBytes, oldReversed, NonNativeCopy.ReverseOf(NonNativeCopy.LongType, sum));
  }

  /**
   * getAndAddLong: retries AddAttempt until its compare-and-swap succeeds. With one
   * thread the first attempt succeeds: the result is the old value, and old + delta
   * (wrapped to a Java long) is stored.
   */
  method GetAndAddLong(v: View, offsetBytes: i64, delta: i64) returns (oldValue: i64)
    requires CanWrite(v, offsetBytes, 8)
    modifies v.store
    ensures oldValue == old(Get(v, NonNativeCopy.LongType, offsetBytes))
    ensures Get(v, NonNativeCopy.LongType, offsetBytes) == WrapLong(oldValue + delta)
    ensures NonNativeCopy.Spliced(v.store[..], old(v.store[..]), v.cumOffset + offsetBytes,
                                  Reverse(NonNativeCopy.NativeLayout(NonNativeCopy.LongType, WrapLong(oldValue + delta))))
  {
    var swapped := false;
    oldValue := 0;
    while !swapped
      invariant !swapped ==> v.store[..] == old(v.store[..])
      invariant swapped ==> oldValue == old(Get(v, NonNativeCopy.LongType, offsetBytes)) &&
                            Get(v, NonNativeCopy.LongType, offsetBytes) == WrapLong(oldValue + delta) &&
                            NonNativeCopy.Spliced(v.store[..], old(v.store[..]), v.cumOffset + offsetBytes,
                                                  Reverse(NonNativeCopy.NativeLayout(NonNativeCopy.LongType, WrapLong(oldValue + delta))))
      decreases if swapped then 0 else 1
    {
      oldValue, swapped := AddAttempt(v, offsetBytes, delta);
    }
  }
}
