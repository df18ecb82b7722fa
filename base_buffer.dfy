/**
 * BaseBufferImpl: the cursor of a Buffer view, four longs start, position, end and
 * capacity with the invariant 0 <= start <= position <= end <= capacity.
 *
 * Validity and read-only-ness belong to the resource under the buffer; the methods
 * that consult them take them as the parameters `valid` and `readOnly`.
 */
module BaseBuffer {
  import opened Primitives

  /**
   * The sign test of assertInvariants and checkInvariants:
   * `(start | pos | end | cap | (pos - start) | (end - pos) | (cap - end)) < 0`.
   */
  predicate InvariantsViolated(start: i64, pos: i64, end: i64, cap: i64)
  {
    OrIsNegative([start, pos, end, cap, WrapLong(pos - start), WrapLong(end - pos), WrapLong(cap - end)])
  }

  /**
   * The sign test fails exactly when the four values are out of order: differences
   * of non-negative longs never wrap, and a wrapped difference of a negative operand
   * is caught by that operand's own sign.
   */
  lemma InvariantsViolatedMeaning(start: i64, pos: i64, end: i64, cap: i64)
    ensures !InvariantsViolated(start, pos, end, cap) <==> 0 <= start <= pos <= end <= cap
  {
    var xs := [start, pos, end, cap, WrapLong(pos - start), WrapLong(end - pos), WrapLong(cap - end)];
    if 0 <= start <= pos <= end <= cap {
      assert forall i :: 0 <= i < |xs| ==> xs[i] >= 0;
    } else if start < 0 {
      assert xs[0] < 0;
    } else if pos < 0 {
      assert xs[1] < 0;
    } else if end < 0 {
      assert xs[2] < 0;
    } else if cap < 0 {
      assert xs[3] < 0;
    } else if pos < start {
      assert xs[4] < 0;
    } else if end < pos {
      assert xs[5] < 0;
    } else {
      assert xs[6] < 0;
    }
  }

  /** checkInvariants: IllegalArgumentException unless 0 <= start <= pos <= end <= cap. */
  function CheckInvariants(start: i64, pos: i64, end: i64, cap: i64): (r: Outcome)
    ensures r == Pass <==> 0 <= start <= pos <= end <= cap
    ensures r != Pass ==> r == Fail(IllegalArgument)
  {
    InvariantsViolatedMeaning(start, pos, end, cap);
    if InvariantsViolated(start, pos, end, cap) then Fail(IllegalArgument) else Pass
  }

  /** assertInvariants: the same test as a Java assertion; the result is whether it holds. */
  function AssertInvariants(start: i64, pos: i64, end: i64, cap: i64): (holds: bool)
    ensures holds <==> 0 <= start <= pos <= end <= cap
    ensures holds <==> CheckInvariants(start, pos, end, cap) == Pass
  {
    InvariantsViolatedMeaning(start, pos, end, cap);
    !InvariantsViolated(start, pos, end, cap)
  }

  /**
   * checkValidForWrite: an invalid resource fails with IllegalStateException, a
   * read-only one with ReadOnlyException, in that order.
   */
  function CheckValidForWrite(valid: bool, readOnly: bool): (r: Outcome)
    ensures r == Pass <==> valid && !readOnly
    ensures !valid ==> r == Fail(IllegalState)
    ensures valid && readOnly ==> r == Fail(ReadOnly)
  {
    if !valid then Fail(IllegalState)
    else if readOnly then Fail(ReadOnly)
    else Pass
  }

  class Cursor {
    /** Assigned once, by the constructor. */
    const capacity: i64
    var start: i64
    var pos: i64
    var end: i64

    ghost predicate Valid()
      reads this
    {
      0 <= start <= pos <= end <= capacity
    }

    /** A new cursor covers the whole capacity: (0, 0, capacity). */
    constructor (capacityBytes: i64)
      ensures capacity == capacityBytes
      ensures start == 0 && pos == 0 && end == capacityBytes
      ensures capacityBytes >= 0 ==> Valid()
    {
      capacity := capacityBytes;
      start := 0;
      pos := 0;
      end := capacityBytes;
    }

    /** getRemaining: end - position, never negative on a valid cursor. */
    function Remaining(): (r: i64)
      reads this
      ensures Valid() ==> r == end - pos && 0 <= r <= capacity
    {
      WrapLong(end - pos)
    }

    /** hasRemaining: the position has not reached the end. */
    function HasRemaining(): (b: bool)
      reads this
      ensures b <==> Remaining() > 0
      ensures Valid() ==> (b <==> pos < end)
    {
      WrapLong(end - pos) > 0
    }

    /** resetPosition: position goes back to start; nothing else changes. */
    method ResetPosition()
      modifies this
      ensures pos == start
      ensures start == old(start) && end == old(end)
      ensures old(Valid()) ==> Valid()
    {
      pos := start;
    }

    /** setPosition: the invariant is only asserted, so the caller must keep it. */
    method SetPosition(position: i64)
      requires AssertInvariants(start, position, end, capacity)
      modifies this
      ensures pos == position && start == old(start) && end == old(end)
      ensures Valid()
    {
      pos := position;
    }

    /**
     * setAndCheckPosition: only position changes, and only when
     * start <= position <= end on a valid cursor; otherwise nothing changes.
     */
    method SetAndCheckPosition(position: i64) returns (r: Outcome)
      modifies this
      ensures r == CheckInvariants(old(start), position, old(end), capacity)
      ensures old(Valid()) ==> (r == Pass <==> old(start) <= position <= old(end))
      ensures r == Pass ==> pos == position && Valid()
      ensures r != Pass ==> pos == old(pos)
      ensures start == old(start) && end == old(end)
    {
      r := CheckInvariants(start, position, end, capacity);
      if r == Pass {
        pos := position;
      }
    }

    /** setStartPositionEnd: the invariant is only asserted, so the caller must keep it. */
    method SetStartPositionEnd(newStart: i64, position: i64, newEnd: i64)
      requires AssertInvariants(newStart, position, newEnd, capacity)
      modifies this
      ensures start == newStart && pos == position && end == newEnd
      ensures Valid()
    {
      start := newStart;
      end := newEnd;
      pos := position;
    }

    /**
     * setAndCheckStartPositionEnd: validates before assigning. An accepted triple
     * sets all three fields, a rejected one leaves all three as they were.
     */
    method SetAndCheckStartPositionEnd(newStart: i64, position: i64, newEnd: i64) returns (r: Outcome)
      modifies this
      ensures r == Pass <==> 0 <= newStart <= position <= newEnd <= capacity
      ensures r != Pass ==> r == Fail(IllegalArgument)
      ensures r == Pass ==> start == newStart && pos == position && end == newEnd && Valid()
      ensures r != Pass ==> start == old(start) && pos == old(pos) && end == old(end)
    {
      r := CheckInvariants(newStart, position, newEnd, capacity);
      if r == Pass {
        start := newStart;
        end := newEnd;
        pos := position;
      }
    }

    /** incrementAndAssertPositionForRead: the new position is only asserted. */
    method IncrementAndAssertPositionForRead(position: i64, increment: i64, valid: bool)
      requires valid
      requires AssertInvariants(start, WrapLong(position + increment), end, capacity)
      modifies this
      ensures pos == WrapLong(position + increment) && start == old(start) && end == old(end)
      ensures Valid()
    {
      pos := WrapLong(position + increment);
    }

    /** incrementAndAssertPositionForWrite: also asserts the resource is writable. */
    method IncrementAndAssertPositionForWrite(position: i64, increment: i64, valid: bool, readOnly: bool)
      requires valid && !readOnly
      requires AssertInvariants(start, WrapLong(position + increment), end, capacity)
      modifies this
      ensures pos == WrapLong(position + increment) && start == old(start) && end == old(end)
      ensures Valid()
    {
      pos := WrapLong(position + increment);
    }

    /**
     * incrementAndCheckPositionForRead: an invalid resource fails with
     * IllegalStateException; otherwise position becomes position + increment exactly
     * when that stays within [start, end]. A failure changes nothing.
     */
    method IncrementAndCheckPositionForRead(position: i64, increment: i64, valid: bool) returns (r: Outcome)
      modifies this
      ensures !valid ==> r == Fail(IllegalState)
      ensures valid ==> r == CheckInvariants(old(start), WrapLong(position + increment), old(end), capacity)
      ensures r == Pass ==> pos == WrapLong(position + increment) && Valid()
      ensures r == Pass && position >= 0 ==> pos == position + increment
      ensures r != Pass ==> pos == old(pos)
      ensures start == old(start) && end == old(end)
    {
      if !valid {
        return Fail(IllegalState);
      }
      var newPos := WrapLong(position + increment);
      r := CheckInvariants(start, newPos, end, capacity);
      if r == Pass {
        pos := newPos;
      }
    }

    /**
     * incrementAndCheckPositionForWrite: checkValidForWrite first, so a read-only
     * resource fails with ReadOnlyException before the position is looked at.
     */
    method IncrementAndCheckPositionForWrite(position: i64, increment: i64, valid: bool, readOnly: bool)
      returns (r: Outcome)
      modifies this
      ensures CheckValidForWrite(valid, readOnly) != Pass ==> r == CheckValidForWrite(valid, readOnly)
      ensures CheckValidForWrite(valid, readOnly) == Pass ==>
                r == CheckInvariants(old(start), WrapLong(position + increment), old(end), capacity)
      ensures r == Pass ==> pos == WrapLong(position + increment) && Valid()
      ensures r == Pass && position >= 0 ==> pos == position + increment
      ensures r != Pass ==> pos == old(pos)
      ensures start == old(start) && end == old(end)
    {
      r := CheckValidForWrite(valid, readOnly);
      if r != Pass {
        return;
      }
      var newPos := WrapLong(position + increment);
      r := CheckInvariants(start, newPos, end, capacity);
      if r == Pass {
        pos := newPos;
      }
    }

    /** incrementPosition: the asserted read increment from the current position. */
    method IncrementPosition(increment: i64, valid: bool)
      requires valid
      requires AssertInvariants(start, WrapLong(pos + increment), end, capacity)
      modifies this
      ensures pos == WrapLong(old(pos) + increment) && start == old(start) && end == old(end)
      ensures Valid()
    {
      IncrementAndAssertPositionForRead(pos, increment, valid);
    }

    /** incrementAndCheckPosition: the checked read increment from the current position. */
    method IncrementAndCheckPosition(increment: i64, valid: bool) returns (r: Outcome)
      modifies this
      ensures !valid ==> r == Fail(IllegalState)
      ensures valid && old(Valid()) ==> (r == Pass <==> old(start) <= old(pos) + increment <= old(end))
      ensures r == Pass ==> pos == WrapLong(old(pos) + increment) && Valid()
      ensures r == Pass && old(pos) >= 0 ==> pos == old(pos) + increment
      ensures r != Pass ==> pos == old(pos)
      ensures start == old(start) && end == old(end)
    {
      r := IncrementAndCheckPositionForRead(pos, increment, valid);
    }
  }
}
