# datasketches-memory: a Dafny model of the byte-level core

This project models the logic that sits under the Memory and Buffer views of
Apache DataSketches Memory: views and cursors over one shared byte store, and the
codecs, comparisons and hashes that work on those bytes. The model follows the Java 8
implementation (`datasketches-memory-java8`) and the shared helpers in `src/`.

The modules, one per component:

- `Primitives` (primitives.dfy): Java `long`/`int` wrap-around, signed bytes,
  native (little-endian) layouts of 1- to 8-byte values, `reverseBytes`, the
  exceptions as an `Error` datatype, and `Result`/`Outcome`.
- `BaseBuffer` (base_buffer.dfy): the `Cursor` class of `BaseBufferImpl`. It has a
  fixed capacity and start, position and end fields. The checked setters
  validate before they assign, and every method keeps
  `0 <= start <= position <= end <= capacity`.
- `Resource` (resource.dfy): type-id bits and their predicates, the validity, bounds
  and write checks of `ResourceImpl`, `isSameResource`, `nativeOverlap`, and the
  leaf and server selection.
- `ResourceStates` (resource_state.dfy): `ResourceState` as a class.
  - Its validating setters keep `cumBaseOffset` derived from the other fields.
  - Its one-way `StepBoolean` flags are shared objects, so a `copy()` sees every flag change made through the original, and the other way round.
- `UnsafeUtil` and `Util`:
  - bounds checks;
  - index-scale constants;
  - Java version parsing;
  - `binarySearchLongs`, reading each long in the view's byte order;
  - padding, counted in UTF-16 units;
  - bit-mask predicates;
  - argument checks.
- `NonNativeCopy` and `CompareAndCopy`: the byte-range operations of `CompareAndCopy`.
  - Lexicographic `compare`.
  - Chunked `equals`, proved equal to byte-wise equality.
  - The 31-based `hashCode`.
  - `copy` with memmove semantics.
  - The byte-swapping array transfers.
- `Utf8`: `putCharsToUtf8` and the two decoders. They are proved against the
  recursive specifications `EncodeUtf8`, `DecodeUtf8` and `DecodeBounded`. The proofs give
  the round trip in both directions and show that the accepted sequences are those
  of the table in section 4 of RFC 3629. Surrogate pairs are composed as in sections 2.1 and 2.2 of RFC 2781.
- `XxHash64`: the XXH64 loops, proved equal to a functional statement of the algorithm
  of the xxHash specification. The typed-array wrappers are proved to hash the byte
  range of the element slice.
- `WritableMemory`: a memory view is a value. It holds the shared `array<bv8>`
  store, a cumulative offset, the capacity, a validity bit and a type id. The module
  covers:
  - regions;
  - byte and array get/put;
  - `fill`, `clear`, `setBits` and `clearBits`;
  - the native-ordered accessors;
  - the non-native (byte-reversed) accessors with their array variants and
    `getAndSetLong`/`getAndAddLong`/`compareAndSwapLong`.
- `WritableBuffer`: the `Buffer` class, a memory view plus its own `Cursor`. It
  covers:
  - region, duplicate and `asWritableMemory` derivation;
  - positional and absolute byte and byte-array get/put;
  - `fill`/`clear`;
  - `wrapByteBuffer`.

Where the code and its documentation differ, the model follows the code:

- The buffer's `fill` never moves the cursor, although the interface documentation
  says that position becomes end.
- The buffer's `getByteArray` and `putByteArray` move position before they check the
  array bounds. A rejected array therefore leaves position moved, and a negative
  length moves it backwards.
- `clear(offsetBytes, lengthBytes)` checks each 1024-byte chunk through
  `putByteArray`. A range that runs past the capacity is zeroed up to the last whole
  chunk that fits before the call fails.
- The CharBuffer decoder returns the char count when every byte is ASCII. Otherwise
  it returns the final buffer position, not a count.

Java `assert`s are preconditions of the methods that use them, since internal
callers must meet them. Checked operations return a `Result` or an `Outcome` that
carries the exception the source throws. The native byte order is little-endian.

## Model

| member | source | states |
|---|---|---|
| BaseBuffer.InvariantsViolatedMeaning | src/main/java/org/apache/datasketches/memory/internal/BaseBufferImpl.java:202-216 | The sign test on start, pos, end, cap and their differences is violated exactly when 0 <= start <= pos <= end <= cap fails. |
| BaseBuffer.CheckInvariants | src/main/java/org/apache/datasketches/memory/internal/BaseBufferImpl.java:202-216 | IllegalArgumentException exactly when 0 <= start <= pos <= end <= cap does not hold; Pass otherwise. |
| BaseBuffer.AssertInvariants | src/main/java/org/apache/datasketches/memory/internal/BaseBufferImpl.java:181-192 | The asserted form of the same test holds exactly when the invariant holds. |
| BaseBuffer.CheckValidForWrite | src/main/java/org/apache/datasketches/memory/internal/BaseBufferImpl.java:165-170 | An invalid resource fails with IllegalStateException, a valid read-only one with ReadOnlyException, a valid writable one passes. |
| BaseBuffer.Cursor.constructor | src/main/java/org/apache/datasketches/memory/internal/BaseBufferImpl.java:49-53 | A new cursor is (start, position, end) = (0, 0, capacity) and keeps the capacity it was given. |
| BaseBuffer.Cursor.Remaining | src/main/java/org/apache/datasketches/memory/internal/BaseBufferImpl.java:83-85 | getRemaining is end - position and is never negative on a valid cursor. |
| BaseBuffer.Cursor.HasRemaining | src/main/java/org/apache/datasketches/memory/internal/BaseBufferImpl.java:88-90 | hasRemaining holds exactly when end - position > 0. |
| BaseBuffer.Cursor.ResetPosition | src/main/java/org/apache/datasketches/memory/internal/BaseBufferImpl.java:93-96 | position becomes start; start, end and capacity stay, and the invariant is kept. |
| BaseBuffer.Cursor.SetPosition | src/main/java/org/apache/datasketches/memory/internal/BaseBufferImpl.java:99-103 | position becomes the argument and nothing else changes; the invariant is the caller's obligation (an assertion in the source). |
| BaseBuffer.Cursor.SetAndCheckPosition | src/main/java/org/apache/datasketches/memory/internal/BaseBufferImpl.java:106-110 | Only position changes, and only when the cursor is valid and start <= position <= end; otherwise the error is returned and the cursor is unchanged. |
| BaseBuffer.Cursor.SetStartPositionEnd | src/main/java/org/apache/datasketches/memory/internal/BaseBufferImpl.java:113-120 | All three fields are assigned; the invariant is the caller's obligation. |
| BaseBuffer.Cursor.SetAndCheckStartPositionEnd | src/main/java/org/apache/datasketches/memory/internal/BaseBufferImpl.java:123-130 | Validates before assigning: an accepted triple sets all three fields, a rejected one leaves all three unchanged and reports IllegalArgument. |
| BaseBuffer.Cursor.IncrementAndAssertPositionForRead | src/main/java/org/apache/datasketches/memory/internal/BaseBufferImpl.java:135-140 | position advances by the increment, which must stay within [start, end]. |
| BaseBuffer.Cursor.IncrementAndAssertPositionForWrite | src/main/java/org/apache/datasketches/memory/internal/BaseBufferImpl.java:142-148 | The same, on a resource that must also be writable. |
| BaseBuffer.Cursor.IncrementAndCheckPositionForRead | src/main/java/org/apache/datasketches/memory/internal/BaseBufferImpl.java:151-156 | An invalid resource fails with IllegalStateException; otherwise position becomes old + n exactly when that lies in [start, end], else IllegalArgumentException with the cursor unchanged. |
| BaseBuffer.Cursor.IncrementAndCheckPositionForWrite | src/main/java/org/apache/datasketches/memory/internal/BaseBufferImpl.java:158-163 | checkValidForWrite first (IllegalState, then ReadOnly) with the cursor unchanged; then the same checked increment as for a read. |
| BaseBuffer.Cursor.IncrementPosition | src/main/java/org/apache/datasketches/memory/internal/BaseBufferImpl.java:56-59 | The asserted read increment from the current position. |
| BaseBuffer.Cursor.IncrementAndCheckPosition | src/main/java/org/apache/datasketches/memory/internal/BaseBufferImpl.java:62-65 | The checked read increment from the current position, with the same outcome and state as incrementAndCheckPositionForRead. |
| Resource.KindPredicates | datasketches-memory-java8/src/main/java/org/apache/datasketches/memory/internal/ResourceImpl.java:217-307 | The kind predicates come in complementary pairs and isHeapType holds exactly when neither MAP nor DIRECT is set. |
| Resource.SetReadOnlyType | datasketches-memory-java8/src/main/java/org/apache/datasketches/memory/internal/ResourceImpl.java:372-374 | Only the READONLY bit changes: it is set exactly when asked for, every other bit is kept. |
| Resource.SetReadOnlyTypeIdempotent | datasketches-memory-java8/src/main/java/org/apache/datasketches/memory/internal/ResourceImpl.java:372-374 | Setting the read-only bit twice is setting it once, with the last call deciding. |
| Resource.RemoveNnBuf | datasketches-memory-java8/src/main/java/org/apache/datasketches/memory/internal/ResourceImpl.java:365 | Exactly the NONNATIVE and BUFFER bits are cleared; every other bit is kept. |
| Resource.GetByteOrder | src/main/java/org/apache/datasketches/memory/internal/ResourceImpl.java:317-319 | The type byte order is non-native exactly when the NONNATIVE bit is set. |
| Resource.IsByteOrderCompatible | src/main/java/org/apache/datasketches/memory/internal/ResourceImpl.java:341-344 | True exactly when the view is native-order and the requested order is the native one. |
| Resource.CheckBounds | datasketches-memory-java8/src/main/java/org/apache/datasketches/memory/internal/ResourceImpl.java:110-116 | MemoryBoundsException exactly when 0 <= reqOff, 0 <= reqLen and reqOff + reqLen <= allocSize do not all hold. |
| Resource.CheckValid | datasketches-memory-java8/src/main/java/org/apache/datasketches/memory/internal/ResourceImpl.java:131-135 | MemoryInvalidException exactly for a view that is no longer valid. |
| Resource.CheckValidAndBounds | datasketches-memory-java8/src/main/java/org/apache/datasketches/memory/internal/ResourceImpl.java:138-141 | Validity is tested first, then bounds; Pass exactly when both hold. |
| Resource.CheckValidAndBoundsForWrite | datasketches-memory-java8/src/main/java/org/apache/datasketches/memory/internal/ResourceImpl.java:143-149 | Fails in order: not valid gives MemoryInvalid, out of bounds gives MemoryBounds, read-only gives ReadOnly. |
| Resource.IsReadOnly | datasketches-memory-java8/src/main/java/org/apache/datasketches/memory/internal/ResourceImpl.java:292-295 | An invalid view fails with MemoryInvalidException; a valid one reports its READONLY bit. |
| Resource.Force | datasketches-memory-java8/src/main/java/org/apache/datasketches/memory/internal/ResourceImpl.java:159-161 | On a resource that is not memory-mapped force fails with IllegalStateException. |
| Resource.Load | datasketches-memory-java8/src/main/java/org/apache/datasketches/memory/internal/ResourceImpl.java:334-336 | On a resource that is not memory-mapped load fails with IllegalStateException. |
| Resource.IsLoaded | datasketches-memory-java8/src/main/java/org/apache/datasketches/memory/internal/ResourceImpl.java:256-258 | On a resource that is not memory-mapped isLoaded fails with IllegalStateException. |
| Resource.IsSameResource | datasketches-memory-java8/src/main/java/org/apache/datasketches/memory/internal/ResourceImpl.java:311-321 | This view must be valid, a null argument is not the same, the argument must be valid; then the answer is identity, or the same start, capacity, backing object and ByteBuffer. |
| Resource.IsSameResourceReflexiveSymmetric | datasketches-memory-java8/src/main/java/org/apache/datasketches/memory/internal/ResourceImpl.java:311-321 | isSameResource is reflexive and symmetric on valid views. |
| Resource.Select | src/main/java/org/apache/datasketches/memory/internal/ResourceImpl.java:183-215 | Views over a ByteBuffer or a mapped file carry no MemoryRequestServer; other views keep the one given; the leaf chosen follows the byte order. |
| Resource.BiggerSmaller | src/main/java/org/apache/datasketches/memory/internal/ResourceImpl.java:450-455 | The overlap with a strictly shorter range it meets: the smaller right edge minus the larger left edge. |
| Resource.NativeOverlap | src/main/java/org/apache/datasketches/memory/internal/ResourceImpl.java:418-435 | Zero unless both segments are native; otherwise the number of bytes the two ranges share, negative exactly when B starts below A. |
| Resource.NativeOverlapCases | src/main/java/org/apache/datasketches/memory/internal/ResourceImpl.java:418-455 | Disjoint or merely adjacent segments give 0; a segment overlaps itself in full; a segment inside another overlaps by its own size. |
| Resource.NativeOverlapAntisymmetric | src/main/java/org/apache/datasketches/memory/internal/ResourceImpl.java:434 | Swapping two segments with distinct start addresses negates the overlap. |
| Resource.NativeOverlapExamples | src/test/java/org/apache/datasketches/memory/internal/ResourceTest.java:44-78 | The overlaps the tests expect: [0,20) with [10,30) is 10 and -10 the other way round, adjacent or empty segments give 0, [10,30) inside [0,40) gives 20 and -20, a non-native segment gives 0. |
| Resource.NativeOverlapResource | src/main/java/org/apache/datasketches/memory/internal/ResourceImpl.java:410-416 | Zero for a null or closed argument, the own size for the same object, the segment overlap otherwise. |
| UnsafeUtil.BoundsViolatedMeaning | datasketches-memory-java8/src/main/java/org/apache/datasketches/memory/internal/UnsafeUtil.java:215-221 | For a non-negative allocation the OR-of-signs test is violated exactly when the range does not fit, including sums that wrap past MAX_LONG. |
| UnsafeUtil.CheckBounds | datasketches-memory-java8/src/main/java/org/apache/datasketches/memory/internal/UnsafeUtil.java:215-221 | IllegalArgumentException exactly when the requested range does not lie within [0, allocSize). |
| UnsafeUtil.AssertBounds | datasketches-memory-java8/src/main/java/org/apache/datasketches/memory/internal/UnsafeUtil.java:201-205 | The asserted form holds exactly when the range fits. |
| UnsafeUtil.CheckBoundsExamples | datasketches-memory-java8/src/main/java/org/apache/datasketches/memory/internal/UnsafeUtil.java:215-221 | (50, 50, 100) passes and (999, 2, 1000) fails. |
| UnsafeUtil.ScaleIsOneShifted | datasketches-memory-java8/src/main/java/org/apache/datasketches/memory/internal/UnsafeUtil.java:60-78 | For every primitive type ARRAY_X_INDEX_SCALE equals 1 << X_SHIFT. |
| UnsafeUtil.Trim | datasketches-memory-java8/src/main/java/org/apache/datasketches/memory/internal/UnsafeUtil.java:132-144 | String.trim: the result is no longer than the input and starts and ends with a character above ' '. |
| UnsafeUtil.PiecesJoin | datasketches-memory-java8/src/main/java/org/apache/datasketches/memory/internal/UnsafeUtil.java:132-144 | Splitting on '.' loses nothing: joining the pieces with '.' restores the string. |
| UnsafeUtil.PiecesHaveNoDot | datasketches-memory-java8/src/main/java/org/apache/datasketches/memory/internal/UnsafeUtil.java:132-144 | No piece of a split on '.' contains a '.'. |
| UnsafeUtil.DropTrailingEmptyKeeps | datasketches-memory-java8/src/main/java/org/apache/datasketches/memory/internal/UnsafeUtil.java:132-144 | String.split with limit 0 keeps every piece up to the last non-empty one. |
| UnsafeUtil.ParseInt | datasketches-memory-java8/src/main/java/org/apache/datasketches/memory/internal/UnsafeUtil.java:132-144 | Integer.parseInt of a digit string: NumberFormatException for the empty string or a value above MAX_INT, else its value. |
| UnsafeUtil.ParseJavaVersion | datasketches-memory-java8/src/main/java/org/apache/datasketches/memory/internal/UnsafeUtil.java:132-144 | Non-negative major and minor on success, IllegalArgumentException otherwise; the lemmas below pin the values. |
| UnsafeUtil.CheckJavaVersion | datasketches-memory-java8/src/main/java/org/apache/datasketches/memory/internal/UnsafeUtil.java:146-151 | Rejects a major below 1, 1.x below 1.8 and a major above 13 with IllegalArgumentException, and accepts all others. |
| UnsafeUtil.ParseJavaVersionGroups | datasketches-memory-java8/src/main/java/org/apache/datasketches/memory/internal/UnsafeUtil.java:132-144 | For digit groups a and b followed by a tail that does not continue b, the version is (a, b). |
| UnsafeUtil.ParseJavaVersionMajorOnly | datasketches-memory-java8/src/main/java/org/apache/datasketches/memory/internal/UnsafeUtil.java:132-144 | A major version alone gives minor 0, as "17" gives (17, 0). |
| UnsafeUtil.ParseJavaVersionExample8 | datasketches-memory-java8/src/main/java/org/apache/datasketches/memory/internal/UnsafeUtil.java:132-144 | "1.8.0_292" parses to (1, 8). |
| UnsafeUtil.ParseJavaVersionExample17 | datasketches-memory-java8/src/main/java/org/apache/datasketches/memory/internal/UnsafeUtil.java:132-144 | "17" parses to (17, 0). |
| UnsafeUtil.ParseJavaVersionRejects | datasketches-memory-java8/src/main/java/org/apache/datasketches/memory/internal/UnsafeUtil.java:132-144 | A version with no leading digit is rejected with IllegalArgumentException. |
| Util.OtherByteOrder | datasketches-memory-java8/src/main/java/org/apache/datasketches/memory/internal/Util.java:45-47 | The native order maps to the non-native one and vice versa. |
| Util.OtherByteOrderInvolutive | datasketches-memory-java8/src/main/java/org/apache/datasketches/memory/internal/Util.java:45-47 | otherByteOrder applied twice gives the order back. |
| Util.IsNativeByteOrder | datasketches-memory-java8/src/main/java/org/apache/datasketches/memory/internal/Util.java:71-76 | A null order is IllegalArgumentException; otherwise true exactly for the native order. |
| Util.NegativeCheck | datasketches-memory-java8/src/main/java/org/apache/datasketches/memory/internal/Util.java:293-297 | IllegalArgumentException exactly for a negative value. |
| Util.ZeroCheck | datasketches-memory-java8/src/main/java/org/apache/datasketches/memory/internal/Util.java:287-291 | IllegalArgumentException exactly for a value that is not positive. |
| Util.IsAllBitsClear | datasketches-memory-java8/src/main/java/org/apache/datasketches/memory/internal/Util.java:168-170 | True exactly when no bit of the mask is set in the value. |
| Util.IsAllBitsSet | datasketches-memory-java8/src/main/java/org/apache/datasketches/memory/internal/Util.java:178-180 | True exactly when every bit of the mask is set in the value. |
| Util.IsAnyBitsClear | datasketches-memory-java8/src/main/java/org/apache/datasketches/memory/internal/Util.java:188-190 | The negation of isAllBitsSet. |
| Util.IsAnyBitsSet | datasketches-memory-java8/src/main/java/org/apache/datasketches/memory/internal/Util.java:198-200 | The negation of isAllBitsClear. |
| Util.ComplementMask | datasketches-memory-java8/src/main/java/org/apache/datasketches/memory/internal/Util.java:168-200 | Under a mask the set bits of ~value are the mask bits the value lacks: (~v & m) == m ^ (v & m). |
| Util.EmptyMask | datasketches-memory-java8/src/main/java/org/apache/datasketches/memory/internal/Util.java:168-200 | With an empty mask every bit of interest is both clear and set, and none is set or clear. |
| Util.CharacterPad | datasketches-memory-java8/src/main/java/org/apache/datasketches/memory/internal/Util.java:133-160 | A string at least fieldLength UTF-16 units long is returned as is; a shorter one becomes fieldLength units holding the string in order, with the pad char after it when postpend and before it otherwise. |
| Util.ZeroPad | datasketches-memory-java8/src/main/java/org/apache/datasketches/memory/internal/Util.java:118-120 | zeroPad is characterPad with '0' in front, counted in UTF-16 units. |
| Util.SearchGuardAsWritten | datasketches-memory-java8/src/main/java/org/apache/datasketches/memory/internal/Util.java:96 | The range check as written, with 64-bit wrapping shifts, fails only with IllegalArgument and agrees with the intended range test for moderate indices. |
| Util.SearchGuardWrapCounterexample | datasketches-memory-java8/src/main/java/org/apache/datasketches/memory/internal/Util.java:96 | For from = 2^61, to = 2^61 + 1 and an eight-byte region the check as written passes though the range is far out of bounds. |
| Util.LongAtNonNative | datasketches-memory-java8/src/main/java/org/apache/datasketches/memory/internal/NonNativeWritableMemoryImpl.java:123-125 | On a non-native view the long the search reads is Long.reverseBytes of the native read, as getLong does. |
| Util.BinarySearchLongs | datasketches-memory-java8/src/main/java/org/apache/datasketches/memory/internal/Util.java:94-109 | IllegalArgument exactly when the range is out of bounds; each long is read as getLong reads it, byte-reversed on a non-native view; a non-negative result is an index in [from, to) holding the key; a negative result -(p + 1) names the insertion point of a sorted range, so the result is non-negative exactly when the key is present. |
| ResourceStates.StepBoolean.constructor | src/main/java/com/yahoo/memory/ResourceState.java:78-84 | A new flag holds its initial state. |
| ResourceStates.StepBoolean.Change | src/main/java/com/yahoo/memory/ResourceState.java:249-259 | The flag takes the opposite of its initial state, however often change is called; a flag that has changed already keeps its state. |
| ResourceStates.StepBoolean.HasChanged | src/main/java/com/yahoo/memory/ResourceState.java:74-84 | hasChanged holds exactly when the flag has left its initial state. |
| ResourceStates.CumBaseOffset | src/main/java/com/yahoo/memory/ResourceState.java:182-185 | cumBaseOffset is regionOffset plus the object header for a heap resource, or plus the native base offset otherwise. |
| ResourceStates.ResourceState.constructor | src/main/java/com/yahoo/memory/ResourceState.java:64-133 | Every field at its default: writable, valid, native order, no swapping, offsets zero, cumBaseOffset consistent. |
| ResourceStates.ResourceState.Compute | src/main/java/com/yahoo/memory/ResourceState.java:182-185 | cumBaseOffset is recomputed from the region offset and the heap or native base; nothing else changes. |
| ResourceStates.ResourceState.NewHeap | src/main/java/com/yahoo/memory/ResourceState.java:136-144 | A non-positive length is refused with IllegalArgumentException; otherwise the array and its header are recorded, capacity is arrLen << shift, and every other field is at its default: fresh writable and valid flags, native order, no swapping, null handles and zero offsets. |
| ResourceStates.ResourceState.Copy | src/main/java/com/yahoo/memory/ResourceState.java:146-180 | A shallow copy: every field is equal, cumBaseOffset is consistent, and the valid and read-only flags are the very same objects. |
| ResourceStates.ResourceState.ShallowCopy | src/main/java/com/yahoo/memory/ResourceState.java:146-180 | Every field of the source copied, the flag objects shared, cumBaseOffset recomputed. |
| ResourceStates.ResourceState.PutNativeBaseOffset | src/main/java/com/yahoo/memory/ResourceState.java:192-195 | Any value is accepted and cumBaseOffset follows it; only nativeBaseOffset and cumBaseOffset may change. |
| ResourceStates.ResourceState.PutUnsafeObject | src/main/java/com/yahoo/memory/ResourceState.java:201-207 | null is refused with IllegalArgumentException and nothing changes; otherwise the object is stored and cumBaseOffset recomputed; only those two fields may change, so the shared flags stay. |
| ResourceStates.ResourceState.PutUnsafeObjectHeader | src/main/java/com/yahoo/memory/ResourceState.java:213-219 | A negative header is refused and nothing changes; otherwise it is stored and cumBaseOffset recomputed; only those two fields may change. |
| ResourceStates.ResourceState.PutCapacity | src/main/java/com/yahoo/memory/ResourceState.java:225-230 | A capacity that is not positive is refused and nothing changes; otherwise only the capacity changes. |
| ResourceStates.ResourceState.PutMemoryRequest | src/main/java/com/yahoo/memory/ResourceState.java:240-242 | The callback is stored, null included, and nothing else changes. |
| ResourceStates.ResourceState.IsResourceReadOnly | src/main/java/com/yahoo/memory/ResourceState.java:245-247 | True exactly when the shared read-only flag is set. |
| ResourceStates.ResourceState.IsValid | src/main/java/com/yahoo/memory/ResourceState.java:253-255 | True exactly when the shared validity flag is still set. |
| ResourceStates.ResourceState.SetResourceReadOnly | src/main/java/com/yahoo/memory/ResourceState.java:249-251 | The read-only flag steps from writable to read-only, one way; the state stays consistent. |
| ResourceStates.ResourceState.SetInvalid | src/main/java/com/yahoo/memory/ResourceState.java:257-259 | The validity flag steps from valid to invalid, one way; the state stays consistent. |
| ResourceStates.ResourceState.IsDirect | src/main/java/com/yahoo/memory/ResourceState.java:261-263 | True exactly when the native base offset is positive. |
| ResourceStates.ResourceState.PutRegionOffset | src/main/java/com/yahoo/memory/ResourceState.java:270-276 | A negative offset is refused and nothing changes; otherwise it is stored and cumBaseOffset recomputed; only those two fields may change. |
| ResourceStates.ResourceState.PutByteBuffer | src/main/java/com/yahoo/memory/ResourceState.java:283-290 | null is refused; otherwise the buffer is recorded, its order becomes the resource order and swapBytes is set exactly when that order is not native; only those three fields may change. |
| ResourceStates.ResourceState.PutFile | src/main/java/com/yahoo/memory/ResourceState.java:297-302 | null is refused and nothing changes; otherwise the file is stored. |
| ResourceStates.ResourceState.PutFileOffset | src/main/java/com/yahoo/memory/ResourceState.java:308-313 | A negative offset is refused and nothing changes; otherwise it is stored. |
| ResourceStates.ResourceState.PutRandomAccessFile | src/main/java/com/yahoo/memory/ResourceState.java:319-324 | null is refused and nothing changes; otherwise it is stored. |
| ResourceStates.ResourceState.PutMappedByteBuffer | src/main/java/com/yahoo/memory/ResourceState.java:330-335 | null is refused and nothing changes; otherwise it is stored. |
| ResourceStates.ResourceState.PutBaseBuffer | src/main/java/com/yahoo/memory/ResourceState.java:342-344 | The buffer is stored, null included. |
| ResourceStates.ResourceState.SetOrder | src/main/java/com/yahoo/memory/ResourceState.java:351-354 | The resource order is set and swapBytes holds exactly when it is not the native order. |
| ResourceStates.CopySharesFlags | src/main/java/com/yahoo/memory/ResourceState.java:146-180 | Invalidating a copy invalidates the original, and marking the original read-only marks the copy. |
| Primitives.ReverseBytes | datasketches-memory-java8/src/main/java/org/apache/datasketches/memory/internal/NonNativeWritableMemoryImpl.java:63-65 | Short/Integer/Long.reverseBytes: the value of the type whose native layout is the reversed layout. |
| Primitives.ReverseBytesInvolutive | datasketches-memory-java8/src/main/java/org/apache/datasketches/memory/internal/NonNativeWritableMemoryImpl.java:63-65 | reverseBytes applied twice gives the value back. |
| Primitives.ReverseChar | datasketches-memory-java8/src/main/java/org/apache/datasketches/memory/internal/NonNativeWritableMemoryImpl.java:63-65 | Character.reverseBytes: the char whose layout is the reversed layout of the char. |
| Primitives.ReverseCharInvolutive | datasketches-memory-java8/src/main/java/org/apache/datasketches/memory/internal/NonNativeWritableMemoryImpl.java:63-65 | Character.reverseBytes applied twice gives the char back. |
| Primitives.LoadStore | datasketches-memory-java8/src/main/java/org/apache/datasketches/memory/internal/NonNativeWritableMemoryImpl.java:109-111 | Storing a value of an n-byte type and loading it back gives the value. |
| Primitives.StoreLoad | datasketches-memory-java8/src/main/java/org/apache/datasketches/memory/internal/NonNativeWritableMemoryImpl.java:109-111 | Loading a layout and storing the value gives the same bytes. |
| NonNativeCopy.NativeValueLayout | src/main/java/com/yahoo/memory/CompareAndCopy.java:227-242 | Reading an element back from its native layout gives the element. |
| NonNativeCopy.PutElemReversed | src/main/java/com/yahoo/memory/CompareAndCopy.java:397-411 | A non-native put writes the element's bytes in big-endian order, the native layout reversed. |
| NonNativeCopy.GetElemReversed | src/main/java/com/yahoo/memory/CompareAndCopy.java:227-242 | A non-native get reads the element whose native layout is the reversed bytes. |
| NonNativeCopy.GetPutElem | src/main/java/com/yahoo/memory/CompareAndCopy.java:227-411 | Getting an element that was put gives the element back. |
| NonNativeCopy.PutGetElem | src/main/java/com/yahoo/memory/CompareAndCopy.java:227-411 | Putting an element that was got writes the same bytes. |
| NonNativeCopy.DecodeLayout | src/main/java/com/yahoo/memory/CompareAndCopy.java:227-562 | Getting a run of elements that was put gives the run back. |
| NonNativeCopy.LayoutDecode | src/main/java/com/yahoo/memory/CompareAndCopy.java:227-562 | Putting a run of elements that was got writes the same bytes. |
| NonNativeCopy.GetArrayChunk | src/main/java/com/yahoo/memory/CompareAndCopy.java:244-253 | Entry dstOff + i of the destination becomes the element read, byte-reversed, from the bytes at cumOff + (i << SHIFT); no other entry changes. |
| NonNativeCopy.PutArrayChunk | src/main/java/com/yahoo/memory/CompareAndCopy.java:413-422 | The byte-reversed layout of source entry srcOff + i goes to the bytes at cumOff + (i << SHIFT); no other byte changes. |
| NonNativeCopy.ThresholdElems | src/main/java/com/yahoo/memory/CompareAndCopy.java:227-242 | A chunk of UNSAFE_COPY_THRESHOLD_BYTES holds a whole number of elements of any type. |
| NonNativeCopy.ReadRunDecode | src/main/java/com/yahoo/memory/CompareAndCopy.java:227-242 | The run the chunk loop reads is the run Decode cuts from the same bytes. |
| NonNativeCopy.GetNonNative | src/main/java/com/yahoo/memory/CompareAndCopy.java:227-395 | A destination range out of bounds is IllegalArgument with nothing written; otherwise dst[dstOff..dstOff + len] becomes the decoded, byte-reversed elements of the memory range, in chunks, and no other entry changes. |
| NonNativeCopy.PutNonNative | src/main/java/com/yahoo/memory/CompareAndCopy.java:397-562 | A source range out of bounds is IllegalArgument with nothing written; otherwise the memory range holds the byte-reversed layouts of src[srcOff..srcOff + len] and no other byte changes. |
| CompareAndCopy.CheckRange | src/main/java/com/yahoo/memory/CompareAndCopy.java:36-57 | An invalid resource fails with IllegalStateException, a range outside it with IllegalArgumentException. |
| CompareAndCopy.LongCompare | src/main/java/com/yahoo/memory/CompareAndCopy.java:36-57 | Long.compare: -1, 0 or 1 by the order of the two longs. |
| CompareAndCopy.LexCompare | src/main/java/com/yahoo/memory/CompareAndCopy.java:36-57 | The result is -1, 0 or 1; the lemmas below state its order (the first differing signed byte, else the length). |
| CompareAndCopy.LexCompareZeroIffEqual | src/main/java/com/yahoo/memory/CompareAndCopy.java:36-57 | Two ranges compare equal exactly when they hold the same bytes. |
| CompareAndCopy.LexCompareAntisymmetric | src/main/java/com/yahoo/memory/CompareAndCopy.java:36-57 | Swapping the ranges negates the comparison. |
| CompareAndCopy.LexComparePrefixes | src/main/java/com/yahoo/memory/CompareAndCopy.java:36-57 | Two prefixes of one sequence compare by their lengths. |
| CompareAndCopy.CompareBytes | src/main/java/com/yahoo/memory/CompareAndCopy.java:47-56 | The byte scan returns the lexicographic comparison of the two ranges. |
| CompareAndCopy.Compare | src/main/java/com/yahoo/memory/CompareAndCopy.java:36-57 | Both resources are checked (errors as checkValid and checkBounds); on success the result is the lexicographic comparison of the two ranges. |
| CompareAndCopy.SameStartCompare | src/main/java/com/yahoo/memory/CompareAndCopy.java:47-56 | Two ranges starting at the same byte of one store compare by their lengths; a range against itself gives 0. |
| CompareAndCopy.WordsEqual | src/main/java/com/yahoo/memory/CompareAndCopy.java:68-97 | Two eight-byte words load as the same long exactly when their bytes agree. |
| CompareAndCopy.EqualsByBytes | src/main/java/com/yahoo/memory/CompareAndCopy.java:100-109 | The byte-by-byte check answers whether the two ranges hold the same bytes. |
| CompareAndCopy.EqualsWords | src/main/java/com/yahoo/memory/CompareAndCopy.java:68-97 | The word loop of one chunk finds a mismatch exactly when the chunk's words differ, and otherwise extends the agreeing prefix. |
| CompareAndCopy.EqualsChunked | src/main/java/com/yahoo/memory/CompareAndCopy.java:68-97 | The chunked word scan plus the byte remainder answers exactly whether the two ranges hold the same bytes. |
| CompareAndCopy.SameBytesRanges | src/main/java/com/yahoo/memory/CompareAndCopy.java:68-97 | Byte-wise agreement over two ranges is equality of their byte sequences. |
| CompareAndCopy.EqualsRange | src/main/java/com/yahoo/memory/CompareAndCopy.java:68-97 | Both resources are checked; on success the answer is whether the two ranges hold the same bytes. |
| CompareAndCopy.Equals | src/main/java/com/yahoo/memory/CompareAndCopy.java:59-63 | Resources of different capacities are unequal without any check; otherwise the answer is whether their whole contents are equal. |
| CompareAndCopy.WordHashLayout | src/main/java/com/yahoo/memory/CompareAndCopy.java:111-139 | The word hash (int)(v ^ (v >>> 32)) of a long is the low half of its layout xor the high half. |
| CompareAndCopy.HashFromFold | src/main/java/com/yahoo/memory/CompareAndCopy.java:111-139 | Walking positions folds the same bytes as folding the slice. |
| CompareAndCopy.HashFoldAppendWord | src/main/java/com/yahoo/memory/CompareAndCopy.java:111-139 | Appending one more word multiplies the hash so far by 31 and adds the word hash. |
| CompareAndCopy.HashFoldRemainder | src/main/java/com/yahoo/memory/CompareAndCopy.java:111-139 | A tail of fewer than eight bytes hashes as the long it packs into, low bytes first. |
| CompareAndCopy.HashOfZeros | src/test/java/com/yahoo/memory/MemoryTest.java:320-325 | Thirty-nine zero bytes hash to 28629151. |
| CompareAndCopy.HashWords | src/main/java/com/yahoo/memory/CompareAndCopy.java:111-139 | The word loop of one chunk folds 31 * r + wordHash over the chunk's words. |
| CompareAndCopy.PackRemainder | src/main/java/com/yahoo/memory/CompareAndCopy.java:111-139 | The remainder bytes packed into one long sit at the low end of its native layout, zeros above. |
| CompareAndCopy.HashTail | src/main/java/com/yahoo/memory/CompareAndCopy.java:111-139 | The last fewer than eight bytes, if any, are folded in as one packed long. |
| CompareAndCopy.HashBytes | src/main/java/com/yahoo/memory/CompareAndCopy.java:111-139 | The chunked word loop over a store's bytes computes the specification hash of those bytes. |
| CompareAndCopy.HashCode | src/main/java/com/yahoo/memory/CompareAndCopy.java:111-139 | An invalid resource throws; otherwise the result is the specification hash (start 1, 31-fold over words, packed remainder) of its bytes, as a Java int. |
| CompareAndCopy.UnsafeCopyMemory | src/main/java/com/yahoo/memory/CompareAndCopy.java:166-175 | The n source bytes as they were before the call end up at the destination also when both ranges overlap in one store (memmove); no other byte changes. |
| CompareAndCopy.CopyChunk | src/main/java/com/yahoo/memory/CompareAndCopy.java:216-225 | After done bytes are in place the next chunk is copied and the copied prefix grows by it. |
| CompareAndCopy.CopyNonOverlappingWithChunking | src/main/java/com/yahoo/memory/CompareAndCopy.java:216-225 | The bytes move in chunks of at most UNSAFE_COPY_THRESHOLD_BYTES and the destination range then holds the source bytes; nothing else changes. |
| CompareAndCopy.CopyMemoryOverlapAddressCheck | src/main/java/com/yahoo/memory/CompareAndCopy.java:190-204 | Within one store: disjoint ranges are chunk-copied; a non-empty copy onto the same address is IllegalArgument with nothing written; overlapping ranges are copied as memmove. |
| CompareAndCopy.CopyMemory | src/main/java/com/yahoo/memory/CompareAndCopy.java:166-175 | Different stores are chunk-copied, one store goes through the overlap check; on success the destination holds the old source bytes. |
| CompareAndCopy.CopyMemoryCheckingDifferentObject | src/main/java/com/yahoo/memory/CompareAndCopy.java:154-163 | Copying between two different stores is a chunked copy; a copy within one store is IllegalArgument with nothing written. |
| CompareAndCopy.Copy | src/main/java/com/yahoo/memory/CompareAndCopy.java:141-151 | The source is checked for validity and bounds, then the destination, before any write; on success the destination range holds the source bytes as they were before the call and nothing else changes. |
| CompareAndCopy.CopyResult | src/main/java/com/yahoo/memory/CompareAndCopy.java:141-151 | After a copy that passed, the destination range reads as the source range did before, and the bytes outside it are unchanged. |
| Utf8.ToCodePoint | src/main/java/org/apache/datasketches/memory/internal/Utf8.java:553-577 | Character.toCodePoint maps a surrogate pair to a supplementary code point in [0x10000, 0x10FFFF]. |
| Utf8.HighSurrogate | src/main/java/org/apache/datasketches/memory/internal/Utf8.java:620-625 | The high half of the pair for a supplementary code point is a high surrogate. |
| Utf8.LowSurrogate | src/main/java/org/apache/datasketches/memory/internal/Utf8.java:627-629 | The low half of the pair for a supplementary code point is a low surrogate. |
| Utf8.CodePointOfSurrogates | src/main/java/org/apache/datasketches/memory/internal/Utf8.java:620-629 | Splitting a supplementary code point into a pair and joining the pair gives it back. |
| Utf8.SurrogatesOfCodePoint | src/main/java/org/apache/datasketches/memory/internal/Utf8.java:620-629 | Joining a pair and splitting its code point gives the pair back. |
| Utf8.EncodeBranch | src/main/java/org/apache/datasketches/memory/internal/Utf8.java:295-368 | The branch taken for the first char: 1 byte below U+0080, 2 below U+0800, 3 for other non-surrogate BMP chars, 4 for a surrogate pair, each only with room; 0 when the call throws. |
| Utf8.EncodeUtf8 | src/main/java/org/apache/datasketches/memory/internal/Utf8.java:283-403 | Encoding a text into a room of bytes never writes more bytes than the room; its outcome and bytes are stated by EncodeSucceeds, EncodeLength and EncodeDecode; the exception it picks follows the corrected out-of-memory test (see Findings). |
| Utf8.EncodeFailsWithCodingException | src/main/java/org/apache/datasketches/memory/internal/Utf8.java:396-397 | The closing "unknown" IllegalArgumentException can never be thrown; every failure is a Utf8CodingException. |
| Utf8.EncodeFailureOfBmpChar | src/main/java/org/apache/datasketches/memory/internal/Utf8.java:375-378 | A non-surrogate BMP char that does not fit is reported as outOfMemory (corrected test, U+FFFF included). |
| Utf8.EncodeFailureAsWrittenAtFfff | src/main/java/org/apache/datasketches/memory/internal/Utf8.java:375-378 | As written, U+FFFF with two bytes of room is reported as an unpaired surrogate, not outOfMemory. |
| Utf8.WellFormedStep | src/main/java/org/apache/datasketches/memory/internal/Utf8.java:295-368 | The first branch keeps well-formedness and its bytes add up to Utf8Length. |
| Utf8.EncodeSucceeds | src/main/java/org/apache/datasketches/memory/internal/Utf8.java:283-403 | Encoding succeeds exactly when the text is well formed (no lone or mis-paired surrogate) and its bytes fit the room. |
| Utf8.EncodeLength | src/main/java/org/apache/datasketches/memory/internal/Utf8.java:295-368 | A successful encoding writes Utf8Length bytes: 1, 2 or 3 per BMP char by range, 4 per surrogate pair. |
| Utf8.IsOneByte | src/main/java/org/apache/datasketches/memory/internal/Utf8.java:427-429 | True exactly when the byte is ASCII (below 0x80). |
| Utf8.IsTwoBytes | src/main/java/org/apache/datasketches/memory/internal/Utf8.java:448-450 | True exactly for bytes 0x80..0xDF (the caller has excluded ASCII). |
| Utf8.IsThreeBytes | src/main/java/org/apache/datasketches/memory/internal/Utf8.java:470-472 | True exactly for bytes 0x80..0xEF (the caller has excluded two-byte leads). |
| Utf8.IsNotTrailingByte | src/main/java/org/apache/datasketches/memory/internal/Utf8.java:609-611 | True exactly when the byte is not of the form 10xxxxxx. |
| Utf8.TrailingByteValue | src/main/java/org/apache/datasketches/memory/internal/Utf8.java:616-618 | The six payload bits of a trailing byte, a value below 64. |
| Utf8.FourBytesPlanes | src/main/java/org/apache/datasketches/memory/internal/Utf8.java:553-577 | The source's plane test on a four-byte lead and its next byte is the table in section 4 of RFC 3629: F0 with 90..BF, F1..F3 with 80..BF, F4 with 80..8F. |
| Utf8.IllegalSequenceIsRfc3629 | src/main/java/org/apache/datasketches/memory/internal/Utf8.java:489-577 | The source rejects a complete sequence exactly when the table in section 4 of RFC 3629 does: overlong forms, surrogates, bad trailing bytes and planes above 16. |
| Utf8.DecodeUtf8 | src/main/java/org/apache/datasketches/memory/internal/Utf8.java:210-272 | Decoding sequence by sequence appends at most one char per byte; a cut-off sequence fails with shortUtf8DecodeByteSequence, an illegal one with illegalUtf8DecodeByteSequence. |
| Utf8.DecodeBounded | src/main/java/org/apache/datasketches/memory/internal/Utf8.java:134-206 | The decoding into a char array never writes more chars than the room; a sequence whose chars do not fit fails with BufferOverflowException. |
| Utf8.DecodeBoundedWithRoom | src/main/java/org/apache/datasketches/memory/internal/Utf8.java:134-206 | With room for every char, the bounded decoding is the unbounded one. |
| Utf8.DecodeBoundedPrefix | src/main/java/org/apache/datasketches/memory/internal/Utf8.java:134-206 | The bounded decoding writes a prefix of what the unbounded one appends. |
| Utf8.OneByteDecodes | src/main/java/org/apache/datasketches/memory/internal/Utf8.java:58-88 | A char below U+0080 is a legal one-byte sequence that decodes to it. |
| Utf8.TwoBytesDecode | src/main/java/org/apache/datasketches/memory/internal/Utf8.java:489-501 | The two bytes of a char in U+0080..U+07FF are a legal sequence that decodes to it. |
| Utf8.ThreeBytesDecode | src/main/java/org/apache/datasketches/memory/internal/Utf8.java:518-533 | The three bytes of a char from U+0800 outside the surrogates are a legal sequence that decodes to it. |
| Utf8.FourBytesDecode | src/main/java/org/apache/datasketches/memory/internal/Utf8.java:553-577 | The four bytes of a surrogate pair's code point are a legal sequence that decodes to the pair. |
| Utf8.EncodeDecode | src/main/java/org/apache/datasketches/memory/internal/Utf8.java:283-403 | Decoding what a successful encoding wrote gives the text back. |
| Utf8.DecodeEncode | src/main/java/org/apache/datasketches/memory/internal/Utf8.java:210-272 | Encoding the text a successful decoding produced, with room for every byte, writes the bytes back. |
| Utf8.TwoByteInverse | src/main/java/org/apache/datasketches/memory/internal/Utf8.java:489-501 | A legal two-byte sequence is what the encoder writes for the char it decodes to. |
| Utf8.ThreeByteInverse | src/main/java/org/apache/datasketches/memory/internal/Utf8.java:518-533 | A legal three-byte sequence is what the encoder writes for the char it decodes to. |
| Utf8.FourByteInverse | src/main/java/org/apache/datasketches/memory/internal/Utf8.java:553-577 | A legal four-byte sequence is what the encoder writes for the pair it decodes to. |
| Utf8.EncodeError | src/main/java/org/apache/datasketches/memory/internal/Utf8.java:370-397 | The exception thrown when no branch fits is the one EncodeFailure names, testing the causes in the source's order with the corrected out-of-memory test for U+FFFF (see Findings). |
| Utf8.PutChar | src/main/java/org/apache/datasketches/memory/internal/Utf8.java:338-397 | One pass of the general loop: writes the bytes of the char or surrogate pair and returns how many, or throws EncodeError's exception without writing, as EncodeUtf8's first step says. |
| Utf8.PutCharsToUtf8 | src/main/java/org/apache/datasketches/memory/internal/Utf8.java:283-403 | The memory range receives exactly the bytes EncodeUtf8 writes, also when it throws part way, never at or past offset + capacity; the result is the byte count or EncodeUtf8's exception, chosen with the corrected out-of-memory test; no other byte changes. |
| Utf8.DecodeNonAscii | src/main/java/org/apache/datasketches/memory/internal/Utf8.java:231-269 | One non-ASCII lead byte: the cut-off test, then handleTwoBytes, handleThreeBytes or handleFourBytes, appending the chars DecodeUtf8's step appends or failing as it fails. |
| Utf8.DecodeAsciiRun | src/main/java/org/apache/datasketches/memory/internal/Utf8.java:75-82 | Appends the run of ASCII bytes up to the first other byte or the limit, one char per byte. |
| Utf8.GetNonAsciiCharsFromUtf8 | src/main/java/org/apache/datasketches/memory/internal/Utf8.java:210-272 | Appends to dst exactly what DecodeUtf8 appends, or stops with its exception. |
| Utf8.GetCharsFromUtf8 | src/main/java/org/apache/datasketches/memory/internal/Utf8.java:58-88 | The chars appended are DecodeUtf8 of the byte range, and the result is their count (a 4-byte sequence counts two), or the decoding's exception. |
| Utf8.DecodeBoundedAscii | src/main/java/org/apache/datasketches/memory/internal/Utf8.java:105-124 | ASCII bytes decode one char each into the room there is, followed by BufferOverflowException when they do not all fit. |
| Utf8.DecodeNonAsciiBounded | src/main/java/org/apache/datasketches/memory/internal/Utf8.java:155-202 | One non-ASCII lead byte into a CharBuffer: the cut-off test, the room test, then the handler, writing only below the limit. |
| Utf8.GetCharBufferCharsFromUtf8 | src/main/java/org/apache/datasketches/memory/internal/Utf8.java:94-132 | The chars of DecodeBounded of the byte range are written from arrayOffset + position on, never at or past the limit, and nothing else changes; the new position is position plus their count; the result is that count for all-ASCII input but the final position otherwise, or the decoding's exception (BufferOverflowException when the chars do not fit). |
| XxHash64.EmptyInput | datasketches-memory-java8/src/main/java/org/apache/datasketches/memory/internal/XxHash64.java:140-144 | The empty input hashes to finalize(seed + P5). |
| XxHash64.EmptyInputSeedZero | datasketches-memory-java8/src/main/java/org/apache/datasketches/memory/internal/XxHash64.java:193-200 | With seed 0 that is 0xEF46DB3751D8E999, XXH64's value for the empty input. |
| XxHash64.ThirtyNineZeros | datasketches-memory-java8-tests/src/test/java/org/apache/datasketches/memory/test/MemoryTest.java:440-445 | 39 zero bytes with seed 0 hash to 0x483C0D7D8F0A0C35, whose low int is -1895166923. |
| XxHash64.StripesEndAt | datasketches-memory-java8/src/main/java/org/apache/datasketches/memory/internal/XxHash64.java:84-109 | The stripes stop at the last multiple of 32 that leaves fewer than 32 bytes. |
| XxHash64.StripeAt | datasketches-memory-java8/src/main/java/org/apache/datasketches/memory/internal/XxHash64.java:90-109 | One stripe: each accumulator takes a round with its own 8-byte lane of the 32 bytes. |
| XxHash64.StripeLoop | datasketches-memory-java8/src/main/java/org/apache/datasketches/memory/internal/XxHash64.java:84-114 | The stripe loop leaves the accumulators of the specification's stripes and reaches the last whole stripe. |
| XxHash64.Tail8Loop | datasketches-memory-java8/src/main/java/org/apache/datasketches/memory/internal/XxHash64.java:146-155 | 8-byte lanes are mixed in while 8 bytes or more remain, as the specification's tail does. |
| XxHash64.Tail4Step | datasketches-memory-java8/src/main/java/org/apache/datasketches/memory/internal/XxHash64.java:157-162 | One unsigned 4-byte lane when 4 bytes or more remain. |
| XxHash64.Tail1Loop | datasketches-memory-java8/src/main/java/org/apache/datasketches/memory/internal/XxHash64.java:164-169 | The remaining bytes, unsigned, one at a time, until none remain. |
| XxHash64.StartAt | datasketches-memory-java8/src/main/java/org/apache/datasketches/memory/internal/XxHash64.java:84-142 | The stripes and their convergence from 32 bytes on, else seed + P5. |
| XxHash64.HeadAt | datasketches-memory-java8/src/main/java/org/apache/datasketches/memory/internal/XxHash64.java:84-144 | The start of the hash plus the length. |
| XxHash64.TailAt | datasketches-memory-java8/src/main/java/org/apache/datasketches/memory/internal/XxHash64.java:146-169 | 8-byte lanes, then at most one 4-byte lane, then single bytes, ending with nothing left. |
| XxHash64.Hash | datasketches-memory-java8/src/main/java/org/apache/datasketches/memory/internal/XxHash64.java:79-172 | The result is the XXH64 of the lengthBytes bytes from the offset: a function of those bytes and the seed only. |
| XxHash64.HashOfEightBytes | datasketches-memory-java8/src/main/java/org/apache/datasketches/memory/internal/XxHash64.java:181-191 | The 8 bytes of a long hash as one 8-byte lane after the head seed + P5 + 8. |
| XxHash64.HashLong | datasketches-memory-java8/src/main/java/org/apache/datasketches/memory/internal/XxHash64.java:181-191 | hash(long, seed) equals the byte-range hash of the long's native layout. |
| XxHash64.HashBytes | datasketches-memory-java8/src/main/java/org/apache/datasketches/memory/internal/XxHash64.java:227-230 | The hash of arr[offsetBytes..offsetBytes + lengthBytes]. |
| XxHash64.HashBooleans | datasketches-memory-java8/src/main/java/org/apache/datasketches/memory/internal/XxHash64.java:213-216 | The hash of one byte per element, 1 for true and 0 for false. |
| XxHash64.FlattenSlice | datasketches-memory-java8/src/main/java/org/apache/datasketches/memory/internal/XxHash64.java:241-320 | The bytes [offset << SHIFT, (offset + length) << SHIFT) of an array's layout are the layouts of the elements offset..offset + length. |
| XxHash64.ArrayBytesSlice | datasketches-memory-java8/src/main/java/org/apache/datasketches/memory/internal/XxHash64.java:241-320 | That byte range of the array's region is the region of the element slice. |
| XxHash64.HashElements | datasketches-memory-java8/src/main/java/org/apache/datasketches/memory/internal/XxHash64.java:241-320 | hashShorts, hashChars, hashInts, hashLongs, hashFloats and hashDoubles: the hash of the layouts of the element slice, that is of bytes [offset << SHIFT, (offset + length) << SHIFT). |
| XxHash64.HashString | datasketches-memory-java8/src/main/java/org/apache/datasketches/memory/internal/XxHash64.java:331-334 | hashString is hashChars of the string's UTF-16 code units. |
| WritableMemory.WritableRegionImpl | datasketches-memory-java8/src/main/java/org/apache/datasketches/memory/internal/BaseWritableMemoryImpl.java:177-188 | A read-only view asked for a writable region fails with ReadOnly; a region out of bounds fails; otherwise the region starts offsetBytes further, has the capacity asked for, and is read-only exactly when the source is or read-only was asked. |
| WritableMemory.Region | datasketches-memory-java8/src/main/java/org/apache/datasketches/memory/internal/BaseWritableMemoryImpl.java:168-170 | region always gives a read-only view. |
| WritableMemory.WritableRegion | datasketches-memory-java8/src/main/java/org/apache/datasketches/memory/internal/BaseWritableMemoryImpl.java:173-175 | Refused on a read-only view; otherwise the region is writable. |
| WritableMemory.RegionBytes | datasketches-memory-java8/src/main/java/org/apache/datasketches/memory/internal/BaseWritableMemoryImpl.java:177-188 | A region shows the bytes of its parent from offsetBytes on, now and after any write through either. |
| WritableMemory.GetByte | datasketches-memory-java8/src/main/java/org/apache/datasketches/memory/internal/BaseWritableMemoryImpl.java:240-243 | The byte at offsetBytes of the view. |
| WritableMemory.PutByte | datasketches-memory-java8/src/main/java/org/apache/datasketches/memory/internal/BaseWritableMemoryImpl.java:353-356 | The byte at offsetBytes becomes value and no other byte changes. |
| WritableMemory.BitsIdempotent | datasketches-memory-java8/src/main/java/org/apache/datasketches/memory/internal/BaseWritableMemoryImpl.java:425-455 | Setting or clearing the same bits twice is doing it once. |
| WritableMemory.SetBits | datasketches-memory-java8/src/main/java/org/apache/datasketches/memory/internal/BaseWritableMemoryImpl.java:450-455 | The byte at offsetBytes becomes b OR bitMask (bitwise); nothing else changes. |
| WritableMemory.ClearBits | datasketches-memory-java8/src/main/java/org/apache/datasketches/memory/internal/BaseWritableMemoryImpl.java:425-431 | The byte at offsetBytes becomes b AND NOT bitMask (bitwise); nothing else changes. |
| WritableMemory.GetByteArray | datasketches-memory-java8/src/main/java/org/apache/datasketches/memory/internal/BaseWritableMemoryImpl.java:246-257 | Checks validity and the memory range, then the destination range (IllegalArgument), then copies; a destination that is the store itself is refused; on success dst holds the range and nothing else changes. |
| WritableMemory.PutByteArray | datasketches-memory-java8/src/main/java/org/apache/datasketches/memory/internal/BaseWritableMemoryImpl.java:359-371 | Checks validity, range and write permission, then the source range, before any write; a rejected call writes nothing; on success the range holds the source bytes and no other byte changes. |
| WritableMemory.PutThenGetByteArray | datasketches-memory-java8/src/main/java/org/apache/datasketches/memory/internal/BaseWritableMemoryImpl.java:246-371 | putByteArray followed by getByteArray at the same offset and length gives back the bytes that were put. |
| WritableMemory.FillChunks | datasketches-memory-java8/src/main/java/org/apache/datasketches/memory/internal/BaseWritableMemoryImpl.java:439-447 | Every byte of [offsetBytes, offsetBytes + lengthBytes) becomes value, chunk by chunk, and no other byte changes. |
| WritableMemory.Fill | datasketches-memory-java8/src/main/java/org/apache/datasketches/memory/internal/BaseWritableMemoryImpl.java:439-447 | Validity, bounds and write permission are checked before the first write, so a rejected call writes nothing; otherwise exactly the range holds value. |
| WritableMemory.FillAll | datasketches-memory-java8/src/main/java/org/apache/datasketches/memory/internal/BaseWritableMemoryImpl.java:434-436 | fill(value) over the whole view. |
| WritableMemory.ClearSpec | datasketches-memory-java8/src/main/java/org/apache/datasketches/memory/internal/BaseWritableMemoryImpl.java:414-422 | The outcome and the cleared length of clear's chunk loop; an empty or wrapped range passes without clearing. |
| WritableMemory.ClearRunOutcome | datasketches-memory-java8/src/main/java/org/apache/datasketches/memory/internal/BaseWritableMemoryImpl.java:414-422 | Clear fails only as putByteArray's checks fail, zeroes bytes only of a valid writable view within its capacity, and on success has zeroed the whole range. |
| WritableMemory.ClearRunInBounds | datasketches-memory-java8/src/main/java/org/apache/datasketches/memory/internal/BaseWritableMemoryImpl.java:414-422 | A range within a valid writable view is zeroed in full. |
| WritableMemory.ClearRunPastCapacity | datasketches-memory-java8/src/main/java/org/apache/datasketches/memory/internal/BaseWritableMemoryImpl.java:414-422 | A range running past the capacity is zeroed in whole chunks up to the last that fits, then clear fails with MemoryBounds: a partial write. |
| WritableMemory.ClearSpecFacts | datasketches-memory-java8/src/main/java/org/apache/datasketches/memory/internal/BaseWritableMemoryImpl.java:414-422 | An empty or wrapped range passes without writing, an invalid or read-only view is never written, and a clear that passes zeroed exactly the range. |
| WritableMemory.ClearChunk | datasketches-memory-java8/src/main/java/org/apache/datasketches/memory/internal/BaseWritableMemoryImpl.java:419-421 | One pass of clear's loop: the chunk is put and the cleared prefix grows by its length when putByteArray accepts it. |
| WritableMemory.Clear | datasketches-memory-java8/src/main/java/org/apache/datasketches/memory/internal/BaseWritableMemoryImpl.java:414-422 | The store afterwards is the old store with the bytes ClearSpec zeroes set to 0, and the outcome is ClearSpec's. |
| WritableMemory.ClearAll | datasketches-memory-java8/src/main/java/org/apache/datasketches/memory/internal/BaseWritableMemoryImpl.java:409-411 | clear() over the whole view. |
| WritableMemory.GetNativeOrdered | datasketches-memory-java8/src/main/java/org/apache/datasketches/memory/internal/BaseWritableMemoryImpl.java:280-298 | getNativeOrderedX: the element whose native layout is at offsetBytes. |
| WritableMemory.PutNativeOrdered | datasketches-memory-java8/src/main/java/org/apache/datasketches/memory/internal/BaseWritableMemoryImpl.java:381-399 | putNativeOrderedX: the native layout of the value is stored at offsetBytes and nothing else changes. |
| WritableMemory.Get | datasketches-memory-java8/src/main/java/org/apache/datasketches/memory/internal/NonNativeWritableMemoryImpl.java:63-139 | getChar/getShort/getInt/getLong on a non-native view: the value whose native layout is the stored bytes reversed. |
| WritableMemory.Put | datasketches-memory-java8/src/main/java/org/apache/datasketches/memory/internal/NonNativeWritableMemoryImpl.java:152-228 | putChar/putShort/putInt/putLong on a non-native view: the reversed native layout is stored, no other byte changes, and a get at the offset gives the value back. |
| WritableMemory.NonNativeShortOne | datasketches-memory-java8/src/test/java/org/apache/datasketches/memory/internal/LeafImplTest.java:178-181 | A non-native putShort(0, 1) stores bytes that a native-order getShort reads as 256. |
| WritableMemory.GetArray | datasketches-memory-java8/src/main/java/org/apache/datasketches/memory/internal/NonNativeWritableMemoryImpl.java:68-148 | Validity and the memory range are checked, then the destination range; dst then holds the byte-reversed elements and nothing else changes. |
| WritableMemory.PutArray | datasketches-memory-java8/src/main/java/org/apache/datasketches/memory/internal/NonNativeWritableMemoryImpl.java:157-237 | Validity, bounds and write permission are checked first, then the source range, before any write; then the range holds the byte-reversed layouts and no other byte changes. |
| WritableMemory.StoredDecodes | datasketches-memory-java8/src/main/java/org/apache/datasketches/memory/internal/NonNativeWritableMemoryImpl.java:157-237 | The bytes a non-native array put leaves in the view decode to the values put. |
| WritableMemory.PutThenGetArray | datasketches-memory-java8/src/main/java/org/apache/datasketches/memory/internal/NonNativeWritableMemoryImpl.java:113-209 | A put of an array of values followed by a get of the same length at the same offset gives the values back. |
| WritableMemory.CompareAndSwapLong | datasketches-memory-java8/src/main/java/org/apache/datasketches/memory/internal/NonNativeWritableMemoryImpl.java:264-268 | update is stored (byte-reversed) and true returned exactly when the stored long equals expect; otherwise nothing changes. |
| WritableMemory.GetAndSetLong | datasketches-memory-java8/src/main/java/org/apache/datasketches/memory/internal/NonNativeWritableMemoryImpl.java:256-261 | newValue is stored and the long stored before is returned. |
| WritableMemory.AddAttempt | datasketches-memory-java8/src/main/java/org/apache/datasketches/memory/internal/NonNativeWritableMemoryImpl.java:246-250 | One attempt of the retry loop: read, reverse, add delta with 64-bit wrap-around, compare-and-swap. |
| WritableMemory.GetAndAddLong | datasketches-memory-java8/src/main/java/org/apache/datasketches/memory/internal/NonNativeWritableMemoryImpl.java:241-253 | Single-threaded: the old long is returned and old + delta, wrapped to 64 bits, is stored; nothing else changes. |
| WritableBuffer.RegionView | datasketches-memory-java8/src/main/java/org/apache/datasketches/memory/internal/BaseWritableBufferImpl.java:116-127 | A read-only buffer asked for a writable region fails with ReadOnly; the region must lie within the buffer; it starts offsetBytes further with the capacity asked for, read-only exactly when the source is or it was asked. |
| WritableBuffer.ConvertedView | datasketches-memory-java8/src/main/java/org/apache/datasketches/memory/internal/BBWritableBufferImpl.java:89-116 | A read-only view may only give read-only views; the result covers the very same bytes with the same capacity, read-only exactly when the source is or it was asked. |
| WritableBuffer.AsWritableMemory | datasketches-memory-java8/src/main/java/org/apache/datasketches/memory/internal/BaseWritableBufferImpl.java:176-185 | A read-only buffer may only become a read-only memory; the memory covers the buffer's whole capacity whatever the cursor. |
| WritableBuffer.ByteBufTypeId | datasketches-memory-java8/src/main/java/org/apache/datasketches/memory/internal/BBWritableBufferImpl.java:43-64 | READONLY when the ByteBuffer or the caller asks for it, BYTEBUF and BUFFER set, NONNATIVE exactly when the order is not native. |
| WritableBuffer.Buffer.constructor | datasketches-memory-java8/src/main/java/org/apache/datasketches/memory/internal/BBWritableBufferImpl.java:43-64 | A fresh cursor (0, 0, capacity) over the view. |
| WritableBuffer.Buffer.WritableRegionImpl | datasketches-memory-java8/src/main/java/org/apache/datasketches/memory/internal/BaseWritableBufferImpl.java:116-127 | The checked region view with a fresh cursor (0, 0, capacityBytes); errors as RegionView. |
| WritableBuffer.Buffer.Region | datasketches-memory-java8/src/main/java/org/apache/datasketches/memory/internal/BaseWritableBufferImpl.java:93-96 | The read-only region [position, end) of this buffer, re-based with cursor (0, 0, end - position). |
| WritableBuffer.Buffer.RegionAt | datasketches-memory-java8/src/main/java/org/apache/datasketches/memory/internal/BaseWritableBufferImpl.java:98-126 | Succeeds exactly when the buffer is valid and [offsetBytes, offsetBytes + capacityBytes) lies within its capacity. An invalid buffer gives MemoryInvalid and an out-of-range region MemoryBounds. The result is a fresh read-only buffer over the same store, starting offsetBytes further in, in the requested byte order, with cursor (0, 0, capacityBytes). |
| WritableBuffer.Buffer.WritableRegion | datasketches-memory-java8/src/main/java/org/apache/datasketches/memory/internal/BaseWritableBufferImpl.java:105-126 | Succeeds exactly when the buffer is valid and writable. An invalid buffer gives MemoryInvalid and a read-only one ReadOnly. The result is a fresh writable buffer over [position, end) of the same store, in this buffer's byte order, with cursor (0, 0, end - position). |
| WritableBuffer.Buffer.WritableRegionAt | datasketches-memory-java8/src/main/java/org/apache/datasketches/memory/internal/BaseWritableBufferImpl.java:110-126 | Succeeds exactly when the buffer is valid, writable and the region lies within its capacity. An invalid buffer gives MemoryInvalid, a read-only one ReadOnly, and an out-of-range region MemoryBounds. The result is a fresh writable buffer over the same store, starting offsetBytes further in, in the requested byte order, with cursor (0, 0, capacityBytes). |
| WritableBuffer.Buffer.WritableDuplicateImpl | datasketches-memory-java8/src/main/java/org/apache/datasketches/memory/internal/BaseWritableBufferImpl.java:153-161 | The duplicate covers the same bytes with a fresh cursor holding this buffer's start, position and end, so moving either cursor leaves the other alone. |
| WritableBuffer.Buffer.Duplicate | datasketches-memory-java8/src/main/java/org/apache/datasketches/memory/internal/BaseWritableBufferImpl.java:130-148 | Succeeds exactly when the buffer is valid, else MemoryInvalid. The result is a fresh read-only buffer over the same bytes, in the requested byte order, with a cursor of its own holding this buffer's start, position and end. |
| WritableBuffer.Buffer.WritableDuplicate | datasketches-memory-java8/src/main/java/org/apache/datasketches/memory/internal/BaseWritableBufferImpl.java:130-148 | Succeeds exactly when the buffer is valid and writable. An invalid buffer gives MemoryInvalid and a read-only one ReadOnly. The result is a fresh writable buffer over the same bytes, in the requested byte order, with a cursor of its own holding this buffer's start, position and end. |
| WritableBuffer.Buffer.GetByte | datasketches-memory-java8/src/main/java/org/apache/datasketches/memory/internal/BaseWritableBufferImpl.java:219-224 | The byte at position; position advances by one; nothing else changes. |
| WritableBuffer.Buffer.GetByteAt | datasketches-memory-java8/src/main/java/org/apache/datasketches/memory/internal/BaseWritableBufferImpl.java:226-230 | The byte at offsetBytes; the cursor is not consulted. |
| WritableBuffer.Buffer.PutByte | datasketches-memory-java8/src/main/java/org/apache/datasketches/memory/internal/BaseWritableBufferImpl.java:334-338 | The byte at position becomes value and position advances by one; no other byte changes. |
| WritableBuffer.Buffer.PutByteAt | datasketches-memory-java8/src/main/java/org/apache/datasketches/memory/internal/BaseWritableBufferImpl.java:340-344 | The byte at offsetBytes becomes value; the cursor stays. |
| WritableBuffer.Buffer.PutThenGetByte | datasketches-memory-java8/src/main/java/org/apache/datasketches/memory/internal/BaseWritableBufferImpl.java:219-338 | putByte, moving back and getByte reads the byte that was put. |
| WritableBuffer.Buffer.GetByteArray | datasketches-memory-java8/src/main/java/org/apache/datasketches/memory/internal/BaseWritableBufferImpl.java:232-244 | position moves by lengthBytes first (IllegalState when invalid, IllegalArgument when outside [start, end]); then the destination bounds are checked, so a rejected destination leaves position moved; on success dst holds the bytes. |
| WritableBuffer.Buffer.PutByteArray | datasketches-memory-java8/src/main/java/org/apache/datasketches/memory/internal/BaseWritableBufferImpl.java:347-359 | checkValidForWrite and the new position first, then the source bounds, so a rejected source leaves position moved and writes nothing; on success the bytes at the old position are the source bytes. |
| WritableBuffer.Buffer.PutThenGetByteArray | datasketches-memory-java8/src/main/java/org/apache/datasketches/memory/internal/BaseWritableBufferImpl.java:232-359 | putByteArray, setPosition back and getByteArray of the same length give back the bytes that were put. |
| WritableBuffer.Buffer.Fill | datasketches-memory-java8/src/main/java/org/apache/datasketches/memory/internal/BaseWritableBufferImpl.java:419-430 | checkValidForWrite, then every byte of [position, end) becomes value, no other byte changes and the cursor is not moved. |
| WritableBuffer.Buffer.Clear | datasketches-memory-java8/src/main/java/org/apache/datasketches/memory/internal/BaseWritableBufferImpl.java:414-417 | clear() is fill(0). |
| WritableBuffer.WrapByteBuffer | datasketches-memory-java8/src/main/java/org/apache/datasketches/memory/internal/BaseWritableBufferImpl.java:78-90 | A buffer over the ByteBuffer's whole capacity whose cursor is (0, position, limit) of the ByteBuffer. |
| WritableBuffer.AsWritableBuffer | datasketches-memory-java8/src/main/java/org/apache/datasketches/memory/internal/BaseWritableMemoryImpl.java:204-214 | A read-only memory may only give a read-only buffer; the buffer covers the same bytes with cursor (0, 0, capacity). |

## Left out

- Concurrency: `getAndAddLong`, `getAndSetLong` and `compareAndSwapLong` are modelled for a single thread. With one thread, `getAndAddLong`'s retry loop succeeds on its first attempt. Thread-ownership checks are not modelled.
- Floating point: `float` and `double` elements are their raw 32- and 64-bit patterns, as `floatToRawIntBits` and `doubleToRawLongBits` give them.
- Off-heap and mapped storage: native allocation, memory-mapped files and direct ByteBuffers are not modelled. The store is one heap `array<bv8>`, and a ByteBuffer is a heap ByteBuffer.
  - `force`, `load` and `isLoaded` are modelled only for non-mapped resources, where they throw.
- Aliasing of typed arrays with the store: Java keeps `char[]`, `long[]` and the like apart from a `byte[]`. Here the typed arrays are separate Dafny arrays.
  - Array transfers require the array to be distinct from the store. The byte-array transfers instead model the source's refusal of the very same object.
- Validity as a snapshot: a `WritableMemory.View` carries its validity as a bit taken when the view was made. Closing a resource while its views live is modelled only in `ResourceStates`, where the flags are shared objects.
- Unsafe address arithmetic: array base offsets, native addresses and `getArrayBaseOffset` are not modelled. The cumulative offset is an index into the store.
- `ResourceImpl.setMemoryRequestServer` in the Java 8 tree is not modelled. The server only matters for growing a direct resource, and its implementation is not part of this model. The rule that ByteBuffer and mapped views carry no server is `Resource.Select`.
- Diagnostics and output: `toHex`, `toHexString`, `typeDecode`, `writeTo` and the exception messages and their payloads are not modelled. Only the exception kind is.
- Buffer typed positional accessors (`getInt()`, `putLongArray` and the like) are not modelled. The cursor logic they share is the one modelled for bytes and byte arrays.
- BaseBuffer.CheckValidForWrite: an invalid resource fails with IllegalStateException, as `checkValid` does in the `BaseStateImpl` base class (BaseStateImpl.java:260-263 of the Java 8 tree). The Java 8 buffer extends `ResourceImpl` instead, whose `checkValid` throws MemoryInvalidException (ResourceImpl.java:131-133). The derived views (`WritableBuffer.RegionView`, `WritableBuffer.ConvertedView` and the region, duplicate and memory methods of `WritableBuffer.Buffer`) follow `ResourceImpl` and fail with MemoryInvalid.
- BaseBuffer.Cursor.IncrementAndCheckPositionForRead: follows `src/main`'s BaseBufferImpl.java:151-156, so an invalid resource gives IllegalStateException and a position outside [start, end] gives IllegalArgumentException. The Java 8 tree gives MemoryInvalidException and BufferPositionInvariantsException instead.
- BaseBuffer.Cursor.IncrementAndCheckPositionForWrite: follows `src/main`'s BaseBufferImpl.java:158-163, so validity is checked before the read-only test. The Java 8 tree (BaseBufferImpl.java:139-142) tests read-only first, so on an invalid read-only buffer it throws ReadOnlyException where the model reports IllegalState.
- WritableBuffer.Buffer.GetByteArray: reports an invalid buffer as IllegalState through `BaseBuffer.Cursor.IncrementAndCheckPositionForRead`, not as the MemoryInvalid of the Java 8 tree.
- WritableBuffer.Buffer.PutByteArray: reports an invalid or read-only buffer through `BaseBuffer.CheckValidForWrite`, so invalid means IllegalState, checked before read-only, not the Java 8 tree's read-only-first order and MemoryInvalid.
- WritableBuffer.Buffer.Fill: checks the buffer with `BaseBuffer.CheckValidForWrite`, the `src/main` check (IllegalState, then ReadOnly). The Java 8 tree's own `checkValidForWrite`, called at BaseWritableBufferImpl.java:420, is not part of this model; if it goes through `ResourceImpl.checkValid`, an invalid buffer gives MemoryInvalid there.
- WritableBuffer.Buffer.Clear: is `fill(0)`, so it carries the same IllegalState-for-invalid choice as `WritableBuffer.Buffer.Fill`.
- The read-only variants are not separate members. `asMemory`, `asBuffer` and `region` are the writable variants with `localReadOnly` set, as the source calls them, and `WritableBuffer.Buffer.Duplicate` is that call for `duplicate`.
- `getCharsFromUtf8`'s choice of the CharBuffer path is not modelled. The choice is an `instanceof` test on the destination. The two paths are separate methods: `Utf8.GetCharsFromUtf8` is the path for an Appendable, and `Utf8.GetCharBufferCharsFromUtf8` is the path for a heap CharBuffer.
  - An Appendable is modelled as the sequence of chars it holds. Its `IOException` cannot occur.
- `StepBoolean.java` is not part of this model. `ResourceStates.StepBoolean` follows the description in the field comments of `ResourceState.java`, lines 74-84: a flag that can change once from its initial state.
- Test helpers are not modelled: `RandomCodePoints`, the resource-file helpers of `Util`, and `nullCheck`.
- `XxHash64.Hash`: `lengthBytes` is a non-negative length within the store. A negative length is excluded by the precondition. For such a length the source's byte loop would run on past the range until its counter reached zero.
- `WritableMemory.ClearSpecFacts` states the full in-bounds clear only for capacity <= MAX_LONG - 1024. Beyond that, the running offset `i += 1024` of the source could wrap past MAX_LONG. `ClearSpec` itself models that wrap.
- `WritableMemory.GetByte`, `WritableMemory.PutByte`, `WritableMemory.SetBits`, `WritableMemory.ClearBits` and the non-native single-value accessors assert validity and bounds in the source. That assertion is their precondition here, so the contract says nothing about out-of-bounds calls.
- `UnsafeUtil.ParseJavaVersion`'s own contract states only non-negativity and the error kind. Its values are pinned by `ParseJavaVersionGroups`, `ParseJavaVersionMajorOnly` and the example lemmas.
- `Utf8.PutCharsToUtf8` picks its exception with the corrected out-of-memory test `c <= 0xFFFF`, not the `c < 0xFFFF` of `Utf8.java` line 377. For U+FFFF with exactly two bytes of room it throws outOfMemory, where the code as written throws unpairedSurrogate, or shortUtf8EncodeByteLength when another char follows. The bytes written and the success condition are the same under both tests. The code as written is `Utf8.EncodeFailureAsWritten` (see Findings).
- `Utf8.EncodeUtf8` uses the same corrected test through `Utf8.EncodeFailure`.
- `Utf8.EncodeError` tests `c <= 0xFFFF` where line 377 tests `c < 0xFFFF`.
- `Utf8.PutChar` throws `Utf8.EncodeError`'s exception, so it follows the corrected test too.
- `Utf8.ToCodePoint`, `Utf8.HighSurrogate` and `Utf8.LowSurrogate` state their ranges. That they invert each other is stated by `Utf8.CodePointOfSurrogates` and `Utf8.SurrogatesOfCodePoint`.

## Findings

| source | as written | input that shows it | evidently intended | confidence | as-written member | corrected member |
|---|---|---|---|---|---|---|
| src/main/java/org/apache/datasketches/memory/internal/Utf8.java:375-378 | The out-of-memory test for a three-byte char reads `c < 0xFFFF`. | A text holding only U+FFFF, with two bytes of room left: the encoder skips the out-of-memory case, then reports an unpaired surrogate although U+FFFF is not a surrogate. | `c <= 0xFFFF`: every non-surrogate BMP char that does not fit is reported as out of memory (`Utf8.EncodeFailureOfBmpChar`); the encoder uses this test. | not executed | Utf8.EncodeFailureAsWrittenAtFfff | Utf8.PutCharsToUtf8 |
| datasketches-memory-java8/src/main/java/org/apache/datasketches/memory/internal/Util.java:96 | The range is checked as `checkBounds(fromLongIndex << 3, (toLongIndex - fromLongIndex) << 3, capacity)`, and the shifts wrap at 64 bits. | fromLongIndex = 2^61, toLongIndex = 2^61 + 1, capacity 8: `from << 3` wraps to 0, the check passes, and the search reads the long at offset 0 as index 2^61. | Reject any range whose byte offsets do not fit in the capacity, computed without wrap-around. | not executed | Util.SearchGuardWrapCounterexample | Util.BinarySearchLongs |
