/**
 * BaseWritableBufferImpl: a Buffer is a Memory view with a cursor over it. The view
 * (store, cumulative offset, capacity, type id, validity) never changes after the
 * buffer is built; the cursor (start, position, end) moves. Positional accessors act
 * at the position and move it, absolute ones take an offset and leave it alone.
 *
 * Every derived view (region, duplicate, memory) shares the store of its source, so
 * the bytes are shared, while each derived buffer gets a cursor of its own.
 */
module WritableBuffer {
  import opened Primitives
  import Resource
  import UnsafeUtil
  import BaseBuffer
  import CompareAndCopy
  import NonNativeCopy
  import WritableMemory

  /**
   * A heap ByteBuffer as wrapByteBuffer sees it: the backing array, the array offset
   * of its byte 0, its capacity, position and limit, and whether it is read-only.
   */
  datatype ByteBuf = ByteBuf(backing: array<bv8>, arrayOffset: int, capacity: i64, position: i64, limit: i64,
                             readOnly: bool)

  /** What java.nio guarantees of every ByteBuffer: 0 <= position <= limit <= capacity. */
  predicate ByteBufWellFormed(bb: ByteBuf)
  {
    0 <= bb.arrayOffset && 0 <= bb.position <= bb.limit <= bb.capacity &&
    bb.arrayOffset + bb.capacity <= bb.backing.Length
  }

  // ---------------------------------------------------------------------------------
  // Derived views (the leaves' toWritableRegion, toDuplicate and toWritableMemory)

  /**
   * writableRegionImpl before its cursor is set: a read-only buffer may only give
   * read-only regions; then the region must lie within the buffer (checkValidAndBounds).
   * The region starts offsetBytes further into the same store, is a buffer region, and
   * is read-only when the source is or when read-only was asked for.
   */
  function RegionView(v: WritableMemory.View, offsetBytes: i64, capacityBytes: i64, localReadOnly: bool,
                      byteOrder: ByteOrder): (r: Result<WritableMemory.View>)
    requires WritableMemory.WellFormed(v)
    ensures r.Ok? <==> v.valid && (!WritableMemory.ReadOnlyView(v) || localReadOnly) &&
                       0 <= offsetBytes && 0 <= capacityBytes && offsetBytes + capacityBytes <= v.capacity
    ensures !v.valid ==> r == Err(MemoryInvalid)
    ensures v.valid && WritableMemory.ReadOnlyView(v) && !localReadOnly ==> r == Err(ReadOnly)
    ensures r.Err? && (!WritableMemory.ReadOnlyView(v) || localReadOnly) && v.valid ==> r == Err(MemoryBounds)
    ensures r.Ok? ==> WritableMemory.WellFormed(r.value) && r.value.store == v.store && r.value.valid == v.valid &&
                      r.value.cumOffset == v.cumOffset + offsetBytes && r.value.capacity == capacityBytes
    ensures r.Ok? ==> (WritableMemory.ReadOnlyView(r.value) <==> WritableMemory.ReadOnlyView(v) || localReadOnly)
    ensures r.Ok? ==> Resource.GetByteOrder(r.value.typeId) == byteOrder
    ensures r.Ok? ==> Resource.IsBufferType(r.value.typeId) && Resource.IsRegionType(r.value.typeId)
  {
    var ro := Resource.IsReadOnly(v.valid, v.typeId);
    if ro.Err? then Err(ro.error)
    else if ro.value && !localReadOnly then Err(ReadOnly)
    else
      var check := Resource.CheckValidAndBounds(v.valid, offsetBytes, capacityBytes, v.capacity);
      if check != Pass then Err(check.error)
      else
        var typeId := WritableMemory.DerivedTypeId(v.typeId, Resource.BUFFER | Resource.REGION, ro.value || localReadOnly,
                                                   byteOrder);
        assert Resource.IsBufferType(typeId) && Resource.IsRegionType(typeId) by {
          assert typeId & Resource.BUFFER == Resource.BUFFER && typeId & Resource.REGION == Resource.REGION;
        }
        Ok(WritableMemory.View(v.store, v.cumOffset + offsetBytes, capacityBytes, typeId, v.valid))
  }

  /**
   * The leaves' toDuplicate, toWritableMemory and toWritableBuffer behind the read-only
   * test of their callers: a read-only view may only give read-only views; the result
   * covers the very same bytes and carries the shape bits asked for (BUFFER | DUPLICATE,
   * MEMORY or BUFFER) and the byte order asked for.
   */
  function ConvertedView(v: WritableMemory.View, shape: Resource.TypeId, localReadOnly: bool, byteOrder: ByteOrder)
    : (r: Result<WritableMemory.View>)
    requires shape & (Resource.NONNATIVE | Resource.READONLY) == 0
    ensures r.Ok? <==> v.valid && (!WritableMemory.ReadOnlyView(v) || localReadOnly)
    ensures !v.valid ==> r == Err(MemoryInvalid)
    ensures v.valid && WritableMemory.ReadOnlyView(v) && !localReadOnly ==> r == Err(ReadOnly)
    ensures r.Ok? ==> r.value.store == v.store && r.value.cumOffset == v.cumOffset &&
                      r.value.capacity == v.capacity && r.value.valid == v.valid
    ensures r.Ok? ==> (WritableMemory.ReadOnlyView(r.value) <==> WritableMemory.ReadOnlyView(v) || localReadOnly)
    ensures r.Ok? ==> Resource.GetByteOrder(r.value.typeId) == byteOrder
    ensures r.Ok? ==> r.value.typeId & shape == shape
  {
    var ro := Resource.IsReadOnly(v.valid, v.typeId);
    if ro.Err? then Err(ro.error)
    else if ro.value && !localReadOnly then Err(ReadOnly)
    else
      var typeId := WritableMemory.DerivedTypeId(v.typeId, shape, ro.value || localReadOnly, byteOrder);
      Ok(WritableMemory.View(v.store, v.cumOffset, v.capacity, typeId, v.valid))
  }

  /**
   * asWritableMemory(localReadOnly, byteOrder): a read-only buffer may only become a
   * read-only memory. The memory covers the buffer's whole capacity, whatever the
   * cursor, and its type id no longer says BUFFER.
   */
  function AsWritableMemory(v: WritableMemory.View, localReadOnly: bool, byteOrder: ByteOrder)
    : (r: Result<WritableMemory.View>)
    ensures r.Ok? <==> v.valid && (!WritableMemory.ReadOnlyView(v) || localReadOnly)
    ensures r.Ok? ==> r.value.store == v.store && r.value.cumOffset == v.cumOffset && r.value.capacity == v.capacity
    ensures r.Ok? ==> (WritableMemory.ReadOnlyView(r.value) <==> WritableMemory.ReadOnlyView(v) || localReadOnly)
    ensures r.Ok? ==> Resource.IsMemoryType(r.value.typeId)
  {
    ConvertedView(v, Resource.MEMORY, localReadOnly, byteOrder)
  }

  /**
   * The type id of a wrapped ByteBuffer: READONLY when the ByteBuffer or the caller
   * asks for it, BYTEBUF and BUFFER, and NONNATIVE when the order is not native.
   */
  function ByteBufTypeId(readOnly: bool, byteOrder: ByteOrder): (r: Resource.TypeId)
    ensures Resource.IsReadOnlyType(r) <==> readOnly
    ensures Resource.GetByteOrder(r) == byteOrder
    ensures Resource.IsByteBufferType(r) && Resource.IsBufferType(r)
  {
    var r := WritableMemory.DerivedTypeId(if readOnly then Resource.READONLY else 0, Resource.BYTEBUF | Resource.BUFFER,
                                          false, byteOrder);
    assert r & Resource.BYTEBUF == Resource.BYTEBUF && r & Resource.BUFFER == Resource.BUFFER;
    r
  }

  // ---------------------------------------------------------------------------------
  // The buffer

  class Buffer {
    /** The bytes, type id and validity, shared with every view derived from this one. */
    const mem: WritableMemory.View
    /** start, position, end and capacity. */
    const cursor: BaseBuffer.Cursor

    ghost predicate Valid()
      reads cursor
    {
      WritableMemory.WellFormed(mem) && Resource.IsBufferType(mem.typeId) &&
      cursor.capacity == mem.capacity && cursor.Valid()
    }

    /** The leaf constructors: a fresh cursor (0, 0, capacity) over the view. */
    constructor (m: WritableMemory.View)
      requires WritableMemory.WellFormed(m) && Resource.IsBufferType(m.typeId)
      ensures mem == m && fresh(cursor)
      ensures cursor.start == 0 && cursor.pos == 0 && cursor.end == m.capacity
      ensures Valid()
    {
      mem := m;
      cursor := new BaseBuffer.Cursor(m.capacity);
    }

    // -- regions -------------------------------------------------------------------

    /**
     * writableRegionImpl: the checked region view, with a fresh cursor (0, 0, capacityBytes).
     */
    method WritableRegionImpl(offsetBytes: i64, capacityBytes: i64, localReadOnly: bool, byteOrder: ByteOrder)
      returns (r: Result<Buffer>)
      requires Valid()
      ensures r.Ok? <==> RegionView(mem, offsetBytes, capacityBytes, localReadOnly, byteOrder).Ok?
      ensures r.Err? ==> r.error == RegionView(mem, offsetBytes, capacityBytes, localReadOnly, byteOrder).error
      ensures r.Ok? ==> fresh(r.value) && fresh(r.value.cursor) && r.value.Valid() &&
                        r.value.mem == RegionView(mem, offsetBytes, capacityBytes, localReadOnly, byteOrder).value
      ensures r.Ok? ==> r.value.cursor.start == 0 && r.value.cursor.pos == 0 && r.value.cursor.end == capacityBytes
    {
      var view := RegionView(mem, offsetBytes, capacityBytes, localReadOnly, byteOrder);
      if view.Err? {
        return Err(view.error);
      }
      var b := new Buffer(view.value);
      b.cursor.SetStartPositionEnd(0, 0, capacityBytes);
      return Ok(b);
    }

    /**
     * region(): the read-only region [position, end) of this buffer, in this buffer's
     * byte order, re-based so that its cursor is (0, 0, end - position).
     */
    method Region() returns (r: Result<Buffer>)
      requires Valid()
      ensures r.Ok? <==> mem.valid
      ensures !mem.valid ==> r == Err(MemoryInvalid)
      ensures r.Ok? ==> fresh(r.value) && fresh(r.value.cursor) && r.value.Valid()
      ensures r.Ok? ==> WritableMemory.ReadOnlyView(r.value.mem) &&
                        Resource.GetByteOrder(r.value.mem.typeId) == Resource.GetByteOrder(mem.typeId)
      ensures r.Ok? ==> r.value.mem.store == mem.store && r.value.mem.cumOffset == mem.cumOffset + cursor.pos &&
                        r.value.mem.capacity == cursor.end - cursor.pos
      ensures r.Ok? ==> r.value.cursor.start == 0 && r.value.cursor.pos == 0 &&
                        r.value.cursor.end == cursor.end - cursor.pos
    {
      r := WritableRegionImpl(cursor.pos, cursor.end - cursor.pos, true, Resource.GetByteOrder(mem.typeId));
    }

    /**
     * region(offsetBytes, capacityBytes, byteOrder): a read-only region checked against
     * this buffer's capacity; setAndCheckStartPositionEnd(0, 0, capacityBytes) then
     * always succeeds.
     */
    method RegionAt(offsetBytes: i64, capacityBytes: i64, byteOrder: ByteOrder) returns (r: Result<Buffer>)
      requires Valid()
      ensures r.Ok? <==> mem.valid && 0 <= offsetBytes && 0 <= capacityBytes && offsetBytes + capacityBytes <= mem.capacity
      ensures !mem.valid ==> r == Err(MemoryInvalid)
      ensures mem.valid && r.Err? ==> r == Err(MemoryBounds)
      ensures r.Ok? ==> fresh(r.value) && fresh(r.value.cursor) && r.value.Valid()
      ensures r.Ok? ==> WritableMemory.ReadOnlyView(r.value.mem) && Resource.GetByteOrder(r.value.mem.typeId) == byteOrder
      ensures r.Ok? ==> r.value.mem.store == mem.store && r.value.mem.cumOffset == mem.cumOffset + offsetBytes &&
                        r.value.mem.capacity == capacityBytes
      ensures r.Ok? ==> r.value.cursor.start == 0 && r.value.cursor.pos == 0 && r.value.cursor.end == capacityBytes
    {
      r := WritableRegionImpl(offsetBytes, capacityBytes, true, byteOrder);
      if r.Ok? {
        var checked := r.value.cursor.SetAndCheckStartPositionEnd(0, 0, capacityBytes);
      }
    }

    /**
     * writableRegion(): the region [position, end), refused on a read-only buffer.
     */
    method WritableRegion() returns (r: Result<Buffer>)
      requires Valid()
      ensures r.Ok? <==> mem.valid && !WritableMemory.ReadOnlyView(mem)
      ensures !mem.valid ==> r == Err(MemoryInvalid)
      ensures mem.valid && WritableMemory.ReadOnlyView(mem) ==> r == Err(ReadOnly)
      ensures r.Ok? ==> fresh(r.value) && fresh(r.value.cursor) && r.value.Valid()
      ensures r.Ok? ==> !WritableMemory.ReadOnlyView(r.value.mem) &&
                        Resource.GetByteOrder(r.value.mem.typeId) == Resource.GetByteOrder(mem.typeId)
      ensures r.Ok? ==> r.value.mem.store == mem.store && r.value.mem.cumOffset == mem.cumOffset + cursor.pos &&
                        r.value.mem.capacity == cursor.end - cursor.pos
      ensures r.Ok? ==> r.value.cursor.start == 0 && r.value.cursor.pos == 0 &&
                        r.value.cursor.end == cursor.end - cursor.pos
    {
      r := WritableRegionImpl(cursor.pos, cursor.end - cursor.pos, false, Resource.GetByteOrder(mem.typeId));
    }

    /**
     * writableRegion(offsetBytes, capacityBytes, byteOrder): refused on a read-only
     * buffer, then checked against this buffer's capacity.
     */
    method WritableRegionAt(offsetBytes: i64, capacityBytes: i64, byteOrder: ByteOrder) returns (r: Result<Buffer>)
      requires Valid()
      ensures r.Ok? <==> mem.valid && !WritableMemory.ReadOnlyView(mem) &&
                         0 <= offsetBytes && 0 <= capacityBytes && offsetBytes + capacityBytes <= mem.capacity
      ensures !mem.valid ==> r == Err(MemoryInvalid)
      ensures mem.valid && WritableMemory.ReadOnlyView(mem) ==> r == Err(ReadOnly)
      ensures mem.valid && !WritableMemory.ReadOnlyView(mem) && r.Err? ==> r == Err(MemoryBounds)
      ensures r.Ok? ==> fresh(r.value) && fresh(r.value.cursor) && r.value.Valid()
      ensures r.Ok? ==> !WritableMemory.ReadOnlyView(r.value.mem) && Resource.GetByteOrder(r.value.mem.typeId) == byteOrder
      ensures r.Ok? ==> r.value.mem.store == mem.store && r.value.mem.cumOffset == mem.cumOffset + offsetBytes &&
                        r.value.mem.capacity == capacityBytes
      ensures r.Ok? ==> r.value.cursor.start == 0 && r.value.cursor.pos == 0 && r.value.cursor.end == capacityBytes
    {
      r := WritableRegionImpl(offsetBytes, capacityBytes, false, byteOrder);
      if r.Ok? {
        var checked := r.value.cursor.SetAndCheckStartPositionEnd(0, 0, capacityBytes);
      }
    }

    // -- duplicates and memory -------------------------------------------------------

    /**
     * writableDuplicateImpl: the checked duplicate view with a fresh cursor holding this
     * buffer's start, position and end; moving either cursor later leaves the other alone.
     */
    method WritableDuplicateImpl(localReadOnly: bool, byteOrder: ByteOrder) returns (r: Result<Buffer>)
      requires Valid()
      ensures r.Ok? <==> ConvertedView(mem, Resource.BUFFER | Resource.DUPLICATE, localReadOnly, byteOrder).Ok?
      ensures r.Err? ==> r.error == ConvertedView(mem, Resource.BUFFER | Resource.DUPLICATE, localReadOnly, byteOrder).error
      ensures r.Ok? ==> fresh(r.value) && fresh(r.value.cursor) && r.value.Valid() &&
                        r.value.mem == ConvertedView(mem, Resource.BUFFER | Resource.DUPLICATE, localReadOnly, byteOrder).value
      ensures r.Ok? ==> r.value.cursor.start == cursor.start && r.value.cursor.pos == cursor.pos &&
                        r.value.cursor.end == cursor.end
    {
      var view := ConvertedView(mem, Resource.BUFFER | Resource.DUPLICATE, localReadOnly, byteOrder);
      if view.Err? {
        return Err(view.error);
      }
      var b := new Buffer(view.value);
      b.cursor.SetStartPositionEnd(cursor.start, cursor.pos, cursor.end);
      return Ok(b);
    }

    /** duplicate(byteOrder): always read-only. */
    method Duplicate(byteOrder: ByteOrder) returns (r: Result<Buffer>)
      requires Valid()
      ensures r.Ok? <==> mem.valid
      ensures !mem.valid ==> r == Err(MemoryInvalid)
      ensures r.Ok? ==> fresh(r.value) && fresh(r.value.cursor) && r.value.Valid()
      ensures r.Ok? ==> Resource.GetByteOrder(r.value.mem.typeId) == byteOrder
      ensures r.Ok? ==> WritableMemory.ReadOnlyView(r.value.mem) && r.value.mem.store == mem.store &&
                        r.value.mem.cumOffset == mem.cumOffset && r.value.mem.capacity == mem.capacity
      ensures r.Ok? ==> r.value.cursor.start == cursor.start && r.value.cursor.pos == cursor.pos &&
                        r.value.cursor.end == cursor.end
    {
      r := WritableDuplicateImpl(true, byteOrder);
    }

    /** writableDuplicate(byteOrder): refused on a read-only buffer. */
    method WritableDuplicate(byteOrder: ByteOrder) returns (r: Result<Buffer>)
      requires Valid()
      ensures r.Ok? <==> mem.valid && !WritableMemory.ReadOnlyView(mem)
      ensures !mem.valid ==> r == Err(MemoryInvalid)
      ensures mem.valid && WritableMemory.ReadOnlyView(mem) ==> r == Err(ReadOnly)
      ensures r.Ok? ==> fresh(r.value) && fresh(r.value.cursor) && r.value.Valid()
      ensures r.Ok? ==> Resource.GetByteOrder(r.value.mem.typeId) == byteOrder
      ensures r.Ok? ==> !WritableMemory.ReadOnlyView(r.value.mem) && r.value.mem.store == mem.store &&
                        r.value.mem.cumOffset == mem.cumOffset && r.value.mem.capacity == mem.capacity
      ensures r.Ok? ==> r.value.cursor.start == cursor.start && r.value.cursor.pos == cursor.pos &&
                        r.value.cursor.end == cursor.end
    {
      r := WritableDuplicateImpl(false, byteOrder);
    }

    // -- single bytes ----------------------------------------------------------------

    /**
     * getByte(): the byte at position; position advances by one. The bound is only
     * asserted, so position < end is the caller's obligation.
     */
    method GetByte() returns (b: bv8)
      requires Valid() && mem.valid && cursor.pos < cursor.end
      modifies cursor
      ensures Valid()
      ensures b == WritableMemory.GetByte(mem, old(cursor.pos))
      ensures cursor.pos == old(cursor.pos) + 1 && cursor.start == old(cursor.start) && cursor.end == old(cursor.end)
    {
      var pos := cursor.pos;
      cursor.IncrementAndAssertPositionForRead(pos, 1, mem.valid);
      b := mem.store[mem.cumOffset + pos];
    }

    /** getByte(offsetBytes): the byte at offsetBytes; the cursor is not consulted. */
    function GetByteAt(offsetBytes: i64): (b: bv8)
      requires WritableMemory.CanRead(mem, offsetBytes, 1)
      reads mem.store
      ensures [b] == WritableMemory.Range(mem, offsetBytes, 1)
    {
      mem.store[mem.cumOffset + offsetBytes]
    }

    /**
     * putByte(value): the byte at position becomes value and position advances by one;
     * no other byte changes. Validity, writability and the bound are only asserted.
     */
    method PutByte(value: bv8)
      requires Valid() && mem.valid && !WritableMemory.ReadOnlyView(mem) && cursor.pos < cursor.end
      modifies cursor, mem.store
      ensures Valid()
      ensures mem.store[..] == old(mem.store[..])[mem.cumOffset + old(cursor.pos) := value]
      ensures cursor.pos == old(cursor.pos) + 1 && cursor.start == old(cursor.start) && cursor.end == old(cursor.end)
    {
      var pos := cursor.pos;
      cursor.IncrementAndAssertPositionForWrite(pos, 1, mem.valid, WritableMemory.ReadOnlyView(mem));
      mem.store[mem.cumOffset + pos] := value;
    }

    /** putByte(offsetBytes, value): the byte at offsetBytes becomes value; the cursor stays. */
    method PutByteAt(offsetBytes: i64, value: bv8)
      requires WritableMemory.CanWrite(mem, offsetBytes, 1)
      modifies mem.store
      ensures mem.store[..] == old(mem.store[..])[mem.cumOffset + offsetBytes := value]
      ensures GetByteAt(offsetBytes) == value
      ensures unchanged(cursor)
    {
      WritableMemory.PutByte(mem, offsetBytes, value);
    }

    /**
     * putByte() followed by moving back and getByte() reads the byte that was put, and
     * leaves position one past where it started.
     */
    method PutThenGetByte(value: bv8) returns (b: bv8)
      requires Valid() && mem.valid && !WritableMemory.ReadOnlyView(mem) && cursor.pos < cursor.end
      modifies cursor, mem.store
      ensures Valid()
      ensures b == value
      ensures cursor.pos == old(cursor.pos) + 1
    {
      var pos := cursor.pos;
      PutByte(value);
      cursor.SetPosition(pos);
      b := GetByte();
    }

    // -- byte arrays -----------------------------------------------------------------

    /**
     * getByteArray(dst, dstOffsetBytes, lengthBytes): position moves by lengthBytes first
     * (incrementAndCheckPositionForRead, which needs validity and the new position within
     * [start, end]); only then are the destination bounds checked, so a rejected
     * destination leaves position moved. A destination that is the store itself is
     * refused. On success the destination range holds the bytes from the old position.
     */
    method GetByteArray(dst: array<bv8>, dstOffsetBytes: i32, lengthBytes: i32) returns (o: Outcome)
      requires Valid() && dst.Length <= MAX_INT
      modifies cursor, dst
      ensures Valid()
      ensures cursor.start == old(cursor.start) && cursor.end == old(cursor.end)
      ensures !mem.valid ==> o == Fail(IllegalState)
      ensures mem.valid && !(cursor.start <= old(cursor.pos) + lengthBytes <= cursor.end) ==> o == Fail(IllegalArgument)
      ensures !mem.valid || !(cursor.start <= old(cursor.pos) + lengthBytes <= cursor.end) ==>
                cursor.pos == old(cursor.pos)
      ensures mem.valid && cursor.start <= old(cursor.pos) + lengthBytes <= cursor.end ==>
                cursor.pos == old(cursor.pos) + lengthBytes &&
                (o == Pass <==> UnsafeUtil.CheckBounds(dstOffsetBytes, lengthBytes, dst.Length) == Pass && dst != mem.store)
      ensures o != Pass ==> unchanged(dst)
      ensures o == Pass ==>
                0 <= dstOffsetBytes && 0 <= lengthBytes && dstOffsetBytes + lengthBytes <= dst.Length &&
                0 <= old(cursor.pos) && old(cursor.pos) + lengthBytes <= mem.capacity &&
                NonNativeCopy.Spliced(dst[..], old(dst[..]), dstOffsetBytes as int,
                                      old(WritableMemory.Range(mem, cursor.pos, lengthBytes)))
    {
      var pos := cursor.pos;
      var copyBytes: i64 := lengthBytes as i64;
      o := cursor.IncrementAndCheckPositionForRead(pos, copyBytes, mem.valid);
      if o != Pass {
        return;
      }
      o := UnsafeUtil.CheckBounds(dstOffsetBytes, lengthBytes, dst.Length);
      if o != Pass {
        return;
      }
      ghost var s, d := mem.store[..], dst[..];
      o := CompareAndCopy.CopyMemoryCheckingDifferentObject(mem.store, mem.cumOffset + pos, dst,
                                                            dstOffsetBytes as int, copyBytes);
      if o == Pass {
        WritableMemory.CopiedIsSpliced(dst[..], s, mem.cumOffset + pos, d, dstOffsetBytes as int, copyBytes);
      }
    }

    /**
     * putByteArray(src, srcOffsetBytes, lengthBytes): checkValidForWrite and the new
     * position first (incrementAndCheckPositionForWrite), then the source bounds, so a
     * rejected source leaves position moved; a source that is the store itself is
     * refused. On success the bytes from the old position on are the source range and
     * no other byte of the store changes.
     */
    method PutByteArray(src: array<bv8>, srcOffsetBytes: i32, lengthBytes: i32) returns (o: Outcome)
      requires Valid() && src.Length <= MAX_INT
      modifies cursor, mem.store
      ensures Valid()
      ensures cursor.start == old(cursor.start) && cursor.end == old(cursor.end)
      ensures BaseBuffer.CheckValidForWrite(mem.valid, WritableMemory.ReadOnlyView(mem)) != Pass ==>
                o == BaseBuffer.CheckValidForWrite(mem.valid, WritableMemory.ReadOnlyView(mem))
      ensures (BaseBuffer.CheckValidForWrite(mem.valid, WritableMemory.ReadOnlyView(mem)) == Pass &&
               !(cursor.start <= old(cursor.pos) + lengthBytes <= cursor.end)) ==> o == Fail(IllegalArgument)
      ensures (BaseBuffer.CheckValidForWrite(mem.valid, WritableMemory.ReadOnlyView(mem)) != Pass ||
               !(cursor.start <= old(cursor.pos) + lengthBytes <= cursor.end)) ==> cursor.pos == old(cursor.pos)
      ensures (BaseBuffer.CheckValidForWrite(mem.valid, WritableMemory.ReadOnlyView(mem)) == Pass &&
               cursor.start <= old(cursor.pos) + lengthBytes <= cursor.end) ==>
                cursor.pos == old(cursor.pos) + lengthBytes &&
                (o == Pass <==> UnsafeUtil.CheckBounds(srcOffsetBytes, lengthBytes, src.Length) == Pass && src != mem.store)
      ensures o != Pass ==> unchanged(mem.store)
      ensures o == Pass ==>
                0 <= srcOffsetBytes && 0 <= lengthBytes && srcOffsetBytes + lengthBytes <= src.Length &&
                NonNativeCopy.Spliced(mem.store[..], old(mem.store[..]), mem.cumOffset + old(cursor.pos),
                                      old(src[srcOffsetBytes..srcOffsetBytes + lengthBytes]))
    {
      var pos := cursor.pos;
      var copyBytes: i64 := lengthBytes as i64;
      o := cursor.IncrementAndCheckPositionForWrite(pos, copyBytes, mem.valid, WritableMemory.ReadOnlyView(mem));
      if o != Pass {
        return;
      }
      o := UnsafeUtil.CheckBounds(srcOffsetBytes, lengthBytes, src.Length);
      if o != Pass {
        return;
      }
      ghost var s, d := src[..], mem.store[..];
      o := CompareAndCopy.CopyMemoryCheckingDifferentObject(src, srcOffsetBytes as int, mem.store,
                                                            mem.cumOffset + pos, copyBytes);
      if o == Pass {
        WritableMemory.CopiedIsSpliced(mem.store[..], s, srcOffsetBytes as int, d, mem.cumOffset + pos, copyBytes);
      }
    }

    /**
     * putByteArray, then setPosition back to where it started, then getByteArray of the
     * same length gives back the bytes that were put, and position ends lengthBytes on.
     */
    method PutThenGetByteArray(src: array<bv8>, srcOffsetBytes: i32, dst: array<bv8>, dstOffsetBytes: i32,
                               lengthBytes: i32) returns (put: Outcome, get: Outcome)
      requires Valid() && src.Length <= MAX_INT && dst.Length <= MAX_INT
      modifies cursor, mem.store, dst
      ensures Valid()
      ensures put == Pass && get == Pass ==>
                0 <= srcOffsetBytes && 0 <= dstOffsetBytes && 0 <= lengthBytes &&
                srcOffsetBytes + lengthBytes <= src.Length && dstOffsetBytes + lengthBytes <= dst.Length &&
                dst[dstOffsetBytes..dstOffsetBytes + lengthBytes] == old(src[srcOffsetBytes..srcOffsetBytes + lengthBytes])
      ensures put == Pass && get == Pass ==> cursor.pos == old(cursor.pos) + lengthBytes
    {
      var pos := cursor.pos;
      ghost var s := src[..];
      put := PutByteArray(src, srcOffsetBytes, lengthBytes);
      if put != Pass {
        return put, put;
      }
      NonNativeCopy.SplicedSlice(mem.store[..], old(mem.store[..]), mem.cumOffset + pos,
                                 s[srcOffsetBytes..srcOffsetBytes + lengthBytes]);
      cursor.SetPosition(pos);
      label AfterPut:
      get := GetByteArray(dst, dstOffsetBytes, lengthBytes);
      if get == Pass {
        NonNativeCopy.SplicedSlice(dst[..], old@AfterPut(dst[..]), dstOffsetBytes as int,
                                   s[srcOffsetBytes..srcOffsetBytes + lengthBytes]);
      }
    }

    // -- fill and clear --------------------------------------------------------------

    /**
     * fill(value): checkValidForWrite, then every byte of [position, end) becomes value
     * and no other byte of the store changes. The cursor is not moved.
     */
    method Fill(value: bv8) returns (o: Outcome)
      requires Valid()
      modifies mem.store
      ensures o == BaseBuffer.CheckValidForWrite(mem.valid, WritableMemory.ReadOnlyView(mem))
      ensures o != Pass ==> unchanged(mem.store)
      ensures o == Pass ==> NonNativeCopy.Spliced(mem.store[..], old(mem.store[..]), mem.cumOffset + cursor.pos,
                                                   WritableMemory.Repeat(value, cursor.end - cursor.pos))
      ensures unchanged(cursor)
    {
      o := BaseBuffer.CheckValidForWrite(mem.valid, WritableMemory.ReadOnlyView(mem));
      if o != Pass {
        return;
      }
      var pos := cursor.pos;
      var len := WrapLong(cursor.end - pos);
      // checkInvariants(start, pos + len, end, capacity) cannot fail on a valid cursor.
      var invariants := BaseBuffer.CheckInvariants(cursor.start, WrapLong(pos + len), cursor.end, cursor.capacity);
      assert invariants == Pass;
      WritableMemory.FillChunks(mem, pos, len, value);
    }

    /** clear(): fill(0). */
    method Clear() returns (o: Outcome)
      requires Valid()
      modifies mem.store
      ensures o == BaseBuffer.CheckValidForWrite(mem.valid, WritableMemory.ReadOnlyView(mem))
      ensures o != Pass ==> unchanged(mem.store)
      ensures o == Pass ==> NonNativeCopy.Spliced(mem.store[..], old(mem.store[..]), mem.cumOffset + cursor.pos,
                                                   WritableMemory.Repeat(0, cursor.end - cursor.pos))
      ensures unchanged(cursor)
    {
      o := Fill(0);
    }
  }

  // ---------------------------------------------------------------------------------
  // Buffers made from outside a buffer

  /**
   * wrapByteBuffer(byteBuf, localReadOnly, byteOrder): a buffer over the ByteBuffer's
   * whole capacity whose cursor is seeded with (0, position, limit) of the ByteBuffer.
   */
  method WrapByteBuffer(bb: ByteBuf, localReadOnly: bool, byteOrder: ByteOrder) returns (b: Buffer)
    requires ByteBufWellFormed(bb)
    ensures fresh(b) && fresh(b.cursor) && b.Valid()
    ensures b.mem.store == bb.backing && b.mem.cumOffset == bb.arrayOffset && b.mem.capacity == bb.capacity
    ensures b.mem.valid
    ensures WritableMemory.ReadOnlyView(b.mem) <==> bb.readOnly || localReadOnly
    ensures Resource.GetByteOrder(b.mem.typeId) == byteOrder && Resource.IsByteBufferType(b.mem.typeId)
    ensures b.cursor.start == 0 && b.cursor.pos == bb.position && b.cursor.end == bb.limit
  {
    var typeId := ByteBufTypeId(bb.readOnly || localReadOnly, byteOrder);
    b := new Buffer(WritableMemory.View(bb.backing, bb.arrayOffset, bb.capacity, typeId, true));
    b.cursor.SetStartPositionEnd(0, bb.position, bb.limit);
  }

  /**
   * A memory's asWritableBuffer(localReadOnly, byteOrder): the checked buffer view with
   * a fresh cursor (0, 0, capacity) over the memory's bytes.
   */
  method AsWritableBuffer(v: WritableMemory.View, localReadOnly: bool, byteOrder: ByteOrder)
    returns (r: Result<Buffer>)
    requires WritableMemory.WellFormed(v)
    ensures r.Ok? <==> ConvertedView(v, Resource.BUFFER, localReadOnly, byteOrder).Ok?
    ensures r.Err? ==> r.error == ConvertedView(v, Resource.BUFFER, localReadOnly, byteOrder).error
    ensures r.Ok? ==> fresh(r.value) && fresh(r.value.cursor) && r.value.Valid() &&
                      r.value.mem == ConvertedView(v, Resource.BUFFER, localReadOnly, byteOrder).value
    ensures r.Ok? ==> r.value.cursor.start == 0 && r.value.cursor.pos == 0 && r.value.cursor.end == v.capacity
  {
    var view := ConvertedView(v, Resource.BUFFER, localReadOnly, byteOrder);
    if view.Err? {
      return Err(view.error);
    }
    var b := new Buffer(view.value);
    b.cursor.SetStartPositionEnd(0, 0, v.capacity);
    return Ok(b);
  }
}
