/** The millisecond clock both factories read. The readings it will give
    are fixed in advance as a sequence, and the conversion of an epoch
    millisecond count to UTC civil fields is a function the clock carries;
    sleeping between readings is left out, since only the readings matter. */
module Clock {
  import opened CivilTime

  /** The conversion of epoch milliseconds to UTC fields names a real
      date-time and keeps the order of the readings. */
  ghost predicate IsCalendar(utcOf: int -> DateTime)
  {
    (forall t :: IsValid(utcOf(t))) &&
    (forall t, u :: t < u ==> Before(utcOf(t), utcOf(u)))
  }

  /** Some reading still to come is later than prev. */
  ghost predicate PassesEventually(readings: seq<int>, prev: int)
  {
    exists k :: 0 <= k < |readings| && readings[k] > prev
  }

  /** The index of the first reading later than prev. */
  function FirstAfter(readings: seq<int>, prev: int): (k: nat)
    requires PassesEventually(readings, prev)
    ensures k < |readings| && readings[k] > prev
    ensures forall j :: 0 <= j < k ==> readings[j] <= prev
    decreases |readings|
  {
    if readings[0] > prev then 0
    else
      assert PassesEventually(readings[1..], prev) by {
        var k :| 0 <= k < |readings| && readings[k] > prev;
        assert readings[1..][k - 1] == readings[k];
      }
      1 + FirstAfter(readings[1..], prev)
  }

  class MillisClock {
    /** The readings still to come, in order. */
    var readings: seq<int>
    /** Epoch milliseconds to UTC fields. */
    const utcOf: int -> DateTime

    constructor(readings: seq<int>, utcOf: int -> DateTime)
      ensures this.readings == readings && this.utcOf == utcOf
    {
      this.readings := readings;
      this.utcOf := utcOf;
    }

    /** System.currentTimeMillis: the next reading. */
    method CurrentTimeMillis() returns (time: int)
      requires |readings| > 0
      modifies this
      ensures time == old(readings)[0] && readings == old(readings)[1..]
    {
      time := readings[0];
      readings := readings[1..];
    }

    /** The wait loop of generateReferenceNumber: read the clock until it
        passes prev. It returns the first later reading, and the clock has
        used up exactly the readings up to that one. */
    method ReadAfter(prev: int) returns (time: int)
      requires PassesEventually(readings, prev)
      modifies this
      ensures time > prev
      ensures time == old(readings)[FirstAfter(old(readings), prev)]
      ensures readings == old(readings)[FirstAfter(old(readings), prev) + 1..]
    {
      ghost var start := readings;
      ghost var k := FirstAfter(start, prev);
      ghost var used: nat := 1;
      time := CurrentTimeMillis();
      while time <= prev
        invariant 1 <= used <= k + 1
        invariant readings == start[used..] && time == start[used - 1]
        decreases |readings|
      {
        time := CurrentTimeMillis();
        used := used + 1;
      }
    }
  }
}
