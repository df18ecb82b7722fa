/**
 * ResourceState (com.yahoo.memory): the mutable description of a memory resource
 * shared by the views over it: base offsets, capacity, the backing object, the
 * ByteBuffer and mapped-file handles, two one-way flags and the byte order.
 *
 * Java references that the state only stores (the backing array, the MemoryRequest
 * callback, the File, RandomAccessFile, MappedByteBuffer, ByteBuffer and BaseBuffer)
 * are `object?` fields; their own behaviour is not part of this model.
 */
module ResourceStates {
  import opened Primitives
  import UnsafeUtil

  /**
   * StepBoolean: a flag that starts in a fixed state and can be flipped once, to the
   * opposite state, and never back.
   */
  class StepBoolean {
    const initialState: bool
    var state: bool

    constructor (initialState: bool)
      ensures this.initialState == initialState && state == initialState
    {
      this.initialState := initialState;
      state := initialState;
    }

    /**
     * change(): the flag takes the opposite of its initial state, however often it is
     * called, so a flag that has changed already stays where it is.
     */
    method Change()
      modifies this
      ensures state == !initialState
      ensures HasChanged()
      ensures old(HasChanged()) ==> state == old(state)
    {
      state := !initialState;
    }

    /** hasChanged(): the flag has left its initial state. */
    function HasChanged(): (b: bool)
      reads this
      ensures b <==> state != initialState
      ensures b <==> state == !initialState
    {
      state != initialState
    }
  }

  /** The cumulative base offset as compute() derives it. */
  function CumBaseOffset(regionOffset: i64, unsafeObj: object?, nativeBaseOffset: i64, unsafeObjHeader: i64): (r: i64)
    ensures unsafeObj == null ==> r == WrapLong(regionOffset + nativeBaseOffset)
    ensures unsafeObj != null ==> r == WrapLong(regionOffset + unsafeObjHeader)
  {
    WrapLong(regionOffset + (if unsafeObj == null then nativeBaseOffset else unsafeObjHeader))
  }

  class ResourceState {
    var nativeBaseOffset: i64
    var unsafeObj: object?
    var unsafeObjHeader: i64
    var capacity: i64
    var cumBaseOffset: i64
    var memReq: object?
    var resourceIsReadOnly: StepBoolean
    var valid: StepBoolean
    var regionOffset: i64
    var byteBuf: object?
    var file: object?
    var fileOffset: i64
    var raf: object?
    var mbb: object?
    var baseBuf: object?
    var resourceOrder: ByteOrder
    var swapBytes: bool

    /**
     * The derived fields agree with the ones they are derived from: cumBaseOffset is
     * what compute() gives, and swapBytes says whether the order is the non-native one.
     * The read-only flag starts writable and the validity flag starts valid.
     */
    ghost predicate Valid()
      reads this
    {
      cumBaseOffset == CumBaseOffset(regionOffset, unsafeObj, nativeBaseOffset, unsafeObjHeader) &&
      swapBytes == (resourceOrder != NATIVE_ORDER) &&
      !resourceIsReadOnly.initialState && valid.initialState
    }

    /** ResourceState(): every field at its default, writable, valid, native order. */
    constructor ()
      ensures nativeBaseOffset == 0 && unsafeObj == null && unsafeObjHeader == 0 && capacity == 0
      ensures memReq == null && regionOffset == 0 && byteBuf == null && file == null
      ensures fileOffset == 0 && raf == null && mbb == null && baseBuf == null
      ensures resourceOrder == NATIVE_ORDER && !swapBytes
      ensures fresh(resourceIsReadOnly) && fresh(valid) && !IsResourceReadOnly() && IsValid()
      ensures Valid() && cumBaseOffset == 0
    {
      nativeBaseOffset := 0;
      unsafeObj := null;
      unsafeObjHeader := 0;
      capacity := 0;
      cumBaseOffset := 0;
      memReq := null;
      resourceIsReadOnly := new StepBoolean(false);
      valid := new StepBoolean(true);
      regionOffset := 0;
      byteBuf := null;
      file := null;
      fileOffset := 0;
      raf := null;
      mbb := null;
      baseBuf := null;
      resourceOrder := NATIVE_ORDER;
      swapBytes := false;
    }

    /** compute(): cumBaseOffset from the region offset and the heap or native base. */
    method Compute()
      modifies this`cumBaseOffset
      ensures cumBaseOffset == CumBaseOffset(regionOffset, unsafeObj, nativeBaseOffset, unsafeObjHeader)
      ensures (swapBytes == (resourceOrder != NATIVE_ORDER) &&
               !resourceIsReadOnly.initialState && valid.initialState) ==> Valid()
    {
      cumBaseOffset := CumBaseOffset(regionOffset, unsafeObj, nativeBaseOffset, unsafeObjHeader);
    }

    /**
     * The heap constructor: the array and its header are recorded, a non-positive
     * length is refused with IllegalArgumentException, and the capacity is
     * arrLen << shift bytes.
     */
    static method NewHeap(obj: object?, header: i64, prim: UnsafeUtil.Prim, arrLen: i64)
      returns (r: Result<ResourceState>)
      ensures r.Err? <==> arrLen <= 0
      ensures r.Err? ==> r.error == IllegalArgument
      ensures r.Ok? ==> fresh(r.value) && r.value.Valid()
      ensures r.Ok? ==> r.value.unsafeObj == obj && r.value.unsafeObjHeader == header
      ensures r.Ok? ==> r.value.capacity == WrapLong(arrLen * UnsafeUtil.IndexScale(prim))
      ensures r.Ok? ==> r.value.nativeBaseOffset == 0 && r.value.regionOffset == 0
      ensures r.Ok? ==> r.value.cumBaseOffset == CumBaseOffset(0, obj, 0, header)
      ensures r.Ok? ==> fresh(r.value.resourceIsReadOnly) && fresh(r.value.valid)
      ensures r.Ok? ==> !r.value.IsResourceReadOnly() && r.value.IsValid()
      ensures r.Ok? ==> r.value.memReq == null && r.value.byteBuf == null && r.value.file == null
      ensures r.Ok? ==> r.value.fileOffset == 0 && r.value.raf == null && r.value.mbb == null
      ensures r.Ok? ==> r.value.baseBuf == null && r.value.resourceOrder == NATIVE_ORDER && !r.value.swapBytes
    {
      var s := new ResourceState();
      s.unsafeObj := obj;
      s.unsafeObjHeader := header;
      if arrLen <= 0 {
        return Err(IllegalArgument);
      }
      UnsafeUtil.ScaleIsOneShifted(prim);
      s.capacity := WrapLong(arrLen * UnsafeUtil.Pow2(UnsafeUtil.Shift(prim)));
      s.Compute();
      r := Ok(s);
    }

    /**
     * copy(): a shallow copy. Every field is equal, cumBaseOffset is recomputed, and
     * the two flags are the very same objects, so flipping one in either state is
     * seen by both.
     */
    method Copy() returns (out: ResourceState)
      requires Valid()
      ensures fresh(out) && out.Valid()
      ensures out.nativeBaseOffset == nativeBaseOffset && out.unsafeObj == unsafeObj
      ensures out.unsafeObjHeader == unsafeObjHeader && out.capacity == capacity
      ensures out.cumBaseOffset == cumBaseOffset && out.memReq == memReq
      ensures out.resourceIsReadOnly == resourceIsReadOnly && out.valid == valid
      ensures out.regionOffset == regionOffset && out.byteBuf == byteBuf && out.file == file
      ensures out.fileOffset == fileOffset && out.raf == raf && out.mbb == mbb
      ensures out.baseBuf == baseBuf && out.resourceOrder == resourceOrder && out.swapBytes == swapBytes
    {
      out := new ResourceState.ShallowCopy(this);
    }

    /** The fields of copy() assigned in one step: every field of src, cumBaseOffset recomputed. */
    constructor ShallowCopy(src: ResourceState)
      requires src.Valid()
      ensures Valid()
      ensures nativeBaseOffset == src.nativeBaseOffset && unsafeObj == src.unsafeObj
      ensures unsafeObjHeader == src.unsafeObjHeader && capacity == src.capacity
      ensures cumBaseOffset == src.cumBaseOffset && memReq == src.memReq
      ensures resourceIsReadOnly == src.resourceIsReadOnly && valid == src.valid
      ensures regionOffset == src.regionOffset && byteBuf == src.byteBuf && file == src.file
      ensures fileOffset == src.fileOffset && raf == src.raf && mbb == src.mbb
      ensures baseBuf == src.baseBuf && resourceOrder == src.resourceOrder && swapBytes == src.swapBytes
    {
      nativeBaseOffset := src.nativeBaseOffset;
      unsafeObj := src.unsafeObj;
      unsafeObjHeader := src.unsafeObjHeader;
      capacity := src.capacity;
      memReq := src.memReq;
      resourceIsReadOnly := src.resourceIsReadOnly;
      valid := src.valid;
      regionOffset := src.regionOffset;
      byteBuf := src.byteBuf;
      file := src.file;
      fileOffset := src.fileOffset;
      raf := src.raf;
      mbb := src.mbb;
      baseBuf := src.baseBuf;
      resourceOrder := src.resourceOrder;
      swapBytes := src.swapBytes;
      cumBaseOffset := CumBaseOffset(src.regionOffset, src.unsafeObj, src.nativeBaseOffset, src.unsafeObjHeader);
    }

    /** putNativeBaseOffset: any value is accepted and cumBaseOffset follows it. */
    method PutNativeBaseOffset(value: i64)
      requires Valid()
      modifies this`nativeBaseOffset, this`cumBaseOffset
      ensures nativeBaseOffset == value && Valid()
      ensures unsafeObj == null ==> cumBaseOffset == WrapLong(regionOffset + value)
    {
      nativeBaseOffset := value;
      Compute();
    }

    /** putUnsafeObject: null is refused with IllegalArgumentException and nothing changes. */
    method PutUnsafeObject(obj: object?) returns (r: Outcome)
      requires Valid()
      modifies this`unsafeObj, this`cumBaseOffset
      ensures r == Pass <==> obj != null
      ensures r != Pass ==> r == Fail(IllegalArgument) && unchanged(this)
      ensures r == Pass ==> unsafeObj == obj && cumBaseOffset == WrapLong(regionOffset + unsafeObjHeader)
      ensures Valid()
    {
      if obj == null {
        return Fail(IllegalArgument);
      }
      unsafeObj := obj;
      Compute();
      r := Pass;
    }

    /** putUnsafeObjectHeader: a negative header is refused and nothing changes. */
    method PutUnsafeObjectHeader(header: i64) returns (r: Outcome)
      requires Valid()
      modifies this`unsafeObjHeader, this`cumBaseOffset
      ensures r == Pass <==> header >= 0
      ensures r != Pass ==> r == Fail(IllegalArgument) && unchanged(this)
      ensures r == Pass ==> unsafeObjHeader == header
      ensures r == Pass && unsafeObj != null ==> cumBaseOffset == WrapLong(regionOffset + header)
      ensures Valid()
    {
      if header < 0 {
        return Fail(IllegalArgument);
      }
      unsafeObjHeader := header;
      Compute();
      r := Pass;
    }

    /**
     * putCapacity: a capacity that is not positive is refused and nothing changes.
     * The capacity takes no part in cumBaseOffset, so nothing is recomputed.
     */
    method PutCapacity(newCapacity: i64) returns (r: Outcome)
      requires Valid()
      modifies this`capacity
      ensures r == Pass <==> newCapacity > 0
      ensures r != Pass ==> r == Fail(IllegalArgument) && capacity == old(capacity)
      ensures r == Pass ==> capacity == newCapacity
      ensures Valid()
    {
      if newCapacity <= 0 {
        return Fail(IllegalArgument);
      }
      capacity := newCapacity;
      r := Pass;
    }

    /** putMemoryRequest: stores the callback, null included. */
    method PutMemoryRequest(request: object?)
      modifies this`memReq
      ensures memReq == request
    {
      memReq := request;
    }

    function IsResourceReadOnly(): (b: bool)
      reads this, resourceIsReadOnly
      ensures b <==> resourceIsReadOnly.state
    {
      resourceIsReadOnly.state
    }

    function IsValid(): (b: bool)
      reads this, valid
      ensures b <==> valid.state
    {
      valid.state
    }

    /** setResourceReadOnly: the read-only flag steps from writable to read-only. */
    method SetResourceReadOnly()
      requires Valid()
      modifies resourceIsReadOnly
      ensures IsResourceReadOnly() && Valid()
    {
      resourceIsReadOnly.Change();
    }

    /** setInvalid: the validity flag steps from valid to invalid. */
    method SetInvalid()
      requires Valid()
      modifies valid
      ensures !IsValid() && Valid()
    {
      valid.Change();
    }

    /** isDirect: the resource lives off-heap exactly when it has a positive native base offset. */
    function IsDirect(): (b: bool)
      reads this
      ensures b <==> nativeBaseOffset > 0
    {
      nativeBaseOffset > 0
    }

    /** putRegionOffset: a negative offset is refused and nothing changes. */
    method PutRegionOffset(offset: i64) returns (r: Outcome)
      requires Valid()
      modifies this`regionOffset, this`cumBaseOffset
      ensures r == Pass <==> offset >= 0
      ensures r != Pass ==> r == Fail(IllegalArgument) && unchanged(this)
      ensures r == Pass ==> regionOffset == offset
      ensures Valid()
    {
      if offset < 0 {
        return Fail(IllegalArgument);
      }
      regionOffset := offset;
      Compute();
      r := Pass;
    }

    /**
     * putByteBuffer: null is refused; otherwise the buffer is recorded and its byte
     * order, bbOrder, becomes the resource order, with swapBytes kept in step.
     */
    method PutByteBuffer(bb: object?, bbOrder: ByteOrder) returns (r: Outcome)
      requires Valid()
      modifies this`byteBuf, this`resourceOrder, this`swapBytes
      ensures r == Pass <==> bb != null
      ensures r != Pass ==> r == Fail(IllegalArgument) && unchanged(this)
      ensures r == Pass ==> byteBuf == bb && resourceOrder == bbOrder
      ensures r == Pass ==> (swapBytes <==> bbOrder != NATIVE_ORDER)
      ensures Valid()
    {
      if bb == null {
        return Fail(IllegalArgument);
      }
      byteBuf := bb;
      resourceOrder := bbOrder;
      swapBytes := resourceOrder != NATIVE_ORDER;
      r := Pass;
    }

    /** putFile: null is refused and nothing changes. */
    method PutFile(f: object?) returns (r: Outcome)
      modifies this`file
      ensures r == Pass <==> f != null
      ensures r != Pass ==> r == Fail(IllegalArgument) && file == old(file)
      ensures r == Pass ==> file == f
    {
      if f == null {
        return Fail(IllegalArgument);
      }
      file := f;
      r := Pass;
    }

    /** putFileOffset: a negative offset is refused and nothing changes. */
    method PutFileOffset(offset: i64) returns (r: Outcome)
      modifies this`fileOffset
      ensures r == Pass <==> offset >= 0
      ensures r != Pass ==> r == Fail(IllegalArgument) && fileOffset == old(fileOffset)
      ensures r == Pass ==> fileOffset == offset
    {
      if offset < 0 {
        return Fail(IllegalArgument);
      }
      fileOffset := offset;
      r := Pass;
    }

    /** putRandomAccessFile: null is refused and nothing changes. */
    method PutRandomAccessFile(f: object?) returns (r: Outcome)
      modifies this`raf
      ensures r == Pass <==> f != null
      ensures r != Pass ==> r == Fail(IllegalArgument) && raf == old(raf)
      ensures r == Pass ==> raf == f
    {
      if f == null {
        return Fail(IllegalArgument);
      }
      raf := f;
      r := Pass;
    }

    /** putMappedByteBuffer: null is refused and nothing changes. */
    method PutMappedByteBuffer(m: object?) returns (r: Outcome)
      modifies this`mbb
      ensures r == Pass <==> m != null
      ensures r != Pass ==> r == Fail(IllegalArgument) && mbb == old(mbb)
      ensures r == Pass ==> mbb == m
    {
      if m == null {
        return Fail(IllegalArgument);
      }
      mbb := m;
      r := Pass;
    }

    /** putBaseBuffer: stores the buffer, null included. */
    method PutBaseBuffer(b: object?)
      modifies this`baseBuf
      ensures baseBuf == b
    {
      baseBuf := b;
    }

    /** order(ByteOrder): sets the resource order and keeps swapBytes in step with it. */
    method SetOrder(order: ByteOrder)
      requires Valid()
      modifies this`resourceOrder, this`swapBytes
      ensures resourceOrder == order && (swapBytes <==> order != NATIVE_ORDER)
      ensures Valid()
    {
      resourceOrder := order;
      swapBytes := resourceOrder != NATIVE_ORDER;
    }
  }

  /**
   * The flags of a copy are shared: invalidating the copy invalidates the original,
   * and marking the original read-only marks the copy.
   */
  method CopySharesFlags(s: ResourceState) returns (c: ResourceState)
    requires s.Valid()
    modifies s.valid, s.resourceIsReadOnly
    ensures !s.IsValid() && !c.IsValid()
    ensures s.IsResourceReadOnly() && c.IsResourceReadOnly()
  {
    c := s.Copy();
    c.SetInvalid();
    s.SetResourceReadOnly();
  }
}
