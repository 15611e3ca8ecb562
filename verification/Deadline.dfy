/**
 `Condition::timedwait`: from the current time and a timeout in milliseconds to
 the absolute deadline handed to `pthread_cond_timedwait`.
 */
module Deadline {

  const NS_PER_SEC := 1_000_000_000
  const NS_PER_MS := 1_000_000

  /** C's division and remainder: the quotient is truncated toward zero. */
  function Quot(a: int, b: int): int
    requires b > 0
  {
    if a >= 0 then a / b else -(-a / b)
  }

  function Rem(a: int, b: int): int
    requires b > 0
  {
    a - Quot(a, b) * b
  }

  datatype Timespec = Timespec(sec: int, nsec: int) {
    /** What POSIX asks of a timespec. */
    predicate Valid() {
      0 <= nsec < NS_PER_SEC
    }

    function Nanoseconds(): int {
      sec * NS_PER_SEC + nsec
    }
  }

  /** The value of tv_nsec before it is normalised. */
  function NsecSum(now: Timespec, timeout: int): int {
    now.nsec + Rem(timeout, 1000) * NS_PER_MS
  }

  /** The deadline the four updates arrive at. */
  function DeadlineOf(now: Timespec, timeout: int): Timespec {
    var sum := NsecSum(now, timeout);
    Timespec(now.sec + Quot(timeout, 1000) + Quot(sum, NS_PER_SEC), Rem(sum, NS_PER_SEC))
  }

  /** The deadline is exactly `timeout` after `now`, for every timeout. At this
      `now` it is a timespec `pthread_cond_timedwait` accepts if and only if the
      nanoseconds before normalising were not negative. */
  method TimedWaitDeadline(now: Timespec, timeout: int) returns (ts: Timespec)
    requires now.Valid()
    ensures ts == DeadlineOf(now, timeout)
    ensures ts.Nanoseconds() == now.Nanoseconds() + timeout * NS_PER_MS
    ensures ts.Valid() <==> NsecSum(now, timeout) >= 0
    ensures -NS_PER_SEC < ts.nsec < NS_PER_SEC
  {
    ts := now;
    ts := ts.(sec := ts.sec + Quot(timeout, 1000));
    ts := ts.(nsec := ts.nsec + Rem(timeout, 1000) * NS_PER_MS);
    assert ts.Nanoseconds() == now.Nanoseconds() + timeout * NS_PER_MS;
    ghost var sum := ts.nsec;
    ts := ts.(sec := ts.sec + Quot(ts.nsec, NS_PER_SEC));
    ts := ts.(nsec := Rem(ts.nsec, NS_PER_SEC));
    assert sum < 0 ==> ts.nsec == sum;
  }

  /** What a caller can check, who passes the timeout and does not see the clock:
      the deadline is accepted whatever the time if and only if the timeout is
      not negative or is a whole number of seconds. */
  lemma AcceptedWheneverIff(timeout: int)
    ensures (forall now: Timespec :: now.Valid() ==> DeadlineOf(now, timeout).Valid())
       <==> (timeout >= 0 || timeout % 1000 == 0)
  {
    if timeout >= 0 || timeout % 1000 == 0 {
      RemOfAccepted(timeout);
      forall now: Timespec | now.Valid() ensures DeadlineOf(now, timeout).Valid() {
        ValidIff(now, timeout);
      }
    } else {
      var now := Timespec(0, 0);
      RemOfRejected(timeout);
      ValidIff(now, timeout);
      assert now.Valid() && !DeadlineOf(now, timeout).Valid();
    }
  }

  lemma ValidIff(now: Timespec, timeout: int)
    requires now.Valid()
    ensures DeadlineOf(now, timeout).Valid() <==> NsecSum(now, timeout) >= 0
  {
  }

  lemma RemOfAccepted(timeout: int)
    requires timeout >= 0 || timeout % 1000 == 0
    ensures Rem(timeout, 1000) >= 0
  {
  }

  lemma RemOfRejected(timeout: int)
    requires timeout < 0 && timeout % 1000 != 0
    ensures Rem(timeout, 1000) < 0
  {
  }

  /** One millisecond before a whole second: the deadline has tv_nsec == -1000000. */
  lemma RejectedDeadline()
    ensures DeadlineOf(Timespec(0, 0), -1) == Timespec(0, -NS_PER_MS)
    ensures !DeadlineOf(Timespec(0, 0), -1).Valid()
  {
  }

  /** A valid timespec is the only one for its time. */
  lemma NanosecondsDetermine(a: Timespec, b: Timespec)
    requires a.Valid() && b.Valid() && a.Nanoseconds() == b.Nanoseconds()
    ensures a == b
  {
  }

  /** The unnormalised nanoseconds fit a 32-bit long, whatever the timeout. */
  lemma NsecSumFits(now: Timespec, timeout: int)
    requires now.Valid()
    ensures -0x8000_0000 <= NsecSum(now, timeout) < 0x8000_0000
  {
  }

  ghost predicate InRange(seconds: int, bound: int) {
    -bound <= seconds < bound
  }

  /** The time_t arithmetic, for every timeout: both values that tv_sec takes stay
      in the range of the type if and only if the last one does; and if the
      deadline is accepted, if and only if the exact time is in range. */
  lemma SecondsFitIff(now: Timespec, timeout: int, bound: int)
    requires now.Valid() && InRange(now.sec, bound)
    ensures (InRange(now.sec + Quot(timeout, 1000), bound) && InRange(DeadlineOf(now, timeout).sec, bound))
       <==> InRange(DeadlineOf(now, timeout).sec, bound)
    ensures DeadlineOf(now, timeout).Valid() ==>
              (InRange(DeadlineOf(now, timeout).sec, bound)
          <==> InRange(now.Nanoseconds() + timeout * NS_PER_MS, bound * NS_PER_SEC))
  {
    var d := DeadlineOf(now, timeout);
    assert d.Nanoseconds() == now.Nanoseconds() + timeout * NS_PER_MS;
  }
}
