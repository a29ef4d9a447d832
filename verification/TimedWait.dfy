/** The two polling loops of the node layer, request_mode and wait_flag: poll a flag, and give up
    once a 32-bit millisecond tick has moved timeout ticks past the start. */
module TimedWait {
  import opened Bits

  /** True milliseconds at the successive tick reads: read 0 starts the wait, read k + 1 belongs
      to poll k. The program sees them modulo 2^32. */
  type Clock = nat -> nat

  /** What one wait meets: the tick source, if the node has one, and whether the flag is up at each
      poll. */
  datatype Poll = Poll(hasClock: bool, clock: Clock, shows: nat -> bool)

  ghost predicate Monotone(clock: Clock) {
    forall i: nat, j: nat :: i <= j ==> clock(i) <= clock(j)
  }

  function Elapsed(clock: Clock, k: nat): int {
    clock(k + 1) - clock(0)
  }

  /** (get_ms() - start) >= timeout_ms, in unsigned 32-bit arithmetic. */
  predicate Expired(clock: Clock, k: nat, timeout: u32) {
    (clock(k + 1) % U32 - clock(0) % U32) % U32 >= timeout
  }

  /** Time is checked only by a node with a tick source and a timeout. */
  predicate GivesUp(p: Poll, k: nat, timeout: u32) {
    p.hasClock && timeout != 0 && Expired(p.clock, k, timeout)
  }

  /** The flag is up, and no earlier poll gave up. */
  ghost predicate ShowsInTime(p: Poll, k: nat, timeout: u32) {
    p.shows(k) && forall j: nat | j < k :: !GivesUp(p, j, timeout)
  }

  ghost predicate InTime(p: Poll, timeout: u32) {
    exists k: nat :: ShowsInTime(p, k, timeout)
  }

  /** A poll at which the wait ends, if it has not before. */
  predicate Decides(p: Poll, k: nat, timeout: u32) {
    p.shows(k) || GivesUp(p, k, timeout)
  }

  /** A wait that comes to an end: the flag or the clock ends it. */
  ghost predicate Ends(p: Poll, timeout: u32) {
    exists k: nat :: Decides(p, k, timeout)
  }

  /** Until the timeout is reached, no two reads are further apart than the part of the tick range
      the timeout leaves free. */
  ghost predicate SmallGaps(clock: Clock, timeout: u32) {
    && Monotone(clock)
    && forall i: nat :: clock(i) - clock(0) < timeout ==> clock(i + 1) - clock(i) <= U32 - timeout
  }

  lemma TickDifference(start: nat, now: nat)
    requires start <= now
    ensures (now % U32 - start % U32) % U32 == (now - start) % U32
  {}

  lemma ShortDifference(start: nat, now: nat)
    requires start <= now < start + U32
    ensures (now % U32 - start % U32) % U32 == now - start
  {
    TickDifference(start, now);
  }

  /** A timeout is never reported early, whatever the clock does, wrap-around included. */
  lemma NeverEarly(clock: Clock, k: nat, timeout: u32)
    requires clock(0) <= clock(k + 1) && Expired(clock, k, timeout)
    ensures Elapsed(clock, k) >= timeout
  {
    TickDifference(clock(0), clock(k + 1));
  }

  /** With bounded gaps the wrapped comparison decides exactly as true time would. */
  lemma {:induction false} ExpiredIsExact(clock: Clock, k: nat, timeout: u32)
    requires 0 < timeout && SmallGaps(clock, timeout)
    requires forall j: nat | j < k :: !Expired(clock, j, timeout)
    ensures Expired(clock, k, timeout) <==> Elapsed(clock, k) >= timeout
    ensures Elapsed(clock, k) < U32
  {
    if k > 0 {
      ExpiredIsExact(clock, k - 1, timeout);
    }
    assert clock(k) - clock(0) < timeout;
    assert clock(0) <= clock(k + 1) < clock(0) + U32;
    ShortDifference(clock(0), clock(k + 1));
  }

  /** With bounded gaps a wait for a flag that never comes ends exactly when the clock ever reaches
      the timeout. */
  lemma TimeoutIff(clock: Clock, timeout: u32)
    requires 0 < timeout && SmallGaps(clock, timeout)
    ensures (exists k: nat :: Expired(clock, k, timeout)) <==> (exists k: nat :: Elapsed(clock, k) >= timeout)
  {
    if k: nat :| Expired(clock, k, timeout) {
      NeverEarly(clock, k, timeout);
    } else if k: nat :| Elapsed(clock, k) >= timeout {
      ExpiredIsExact(clock, k, timeout);
    }
  }

  lemma {:induction false} ClockReaches(clock: Clock, stall: nat, n: nat)
    requires Monotone(clock) && forall i: nat :: clock(i + stall) > clock(i)
    ensures clock(stall * n) >= clock(0) + n
  {
    if n > 0 {
      ClockReaches(clock, stall, n - 1);
      assert stall * n == stall * (n - 1) + stall;
    }
  }

  /** A clock that never stalls for more than stall reads does reach it, within a known number of
      polls. */
  lemma MustExpire(clock: Clock, stall: nat, timeout: u32) returns (k: nat)
    requires 0 < timeout && SmallGaps(clock, timeout) && forall i: nat :: clock(i + stall) > clock(i)
    ensures k <= stall * timeout && Expired(clock, k, timeout)
  {
    k := stall * timeout;
    ClockReaches(clock, stall, timeout);
    assert Elapsed(clock, k) >= timeout;
    if j: nat :| j < k && Expired(clock, j, timeout) {
      k := j;
    } else {
      ExpiredIsExact(clock, k, timeout);
    }
  }

  /** Being in time is decided at the first poll that shows the flag or gives up. */
  lemma DecidedAt(p: Poll, timeout: u32, k: nat)
    requires forall j: nat | j < k :: !p.shows(j) && !GivesUp(p, j, timeout)
    requires Decides(p, k, timeout)
    ensures InTime(p, timeout) <==> p.shows(k)
  {
    if p.shows(k) {
      assert ShowsInTime(p, k, timeout);
    }
    if m: nat :| ShowsInTime(p, m, timeout) {
      assert m >= k;
    }
  }

  /** Without a tick source, or with a timeout of zero, a wait that ends is in time. */
  lemma Untimed(p: Poll, timeout: u32)
    requires Ends(p, timeout) && (!p.hasClock || timeout == 0)
    ensures InTime(p, timeout)
  {
    var k: nat :| Decides(p, k, timeout);
    assert ShowsInTime(p, k, timeout);
  }

  /** The loop, for a flag that comes up or a wait that gives up by some poll; there is no other way
      it ends. It answers whether the flag was in time. */
  method Wait(p: Poll, timeout: u32, ghost horizon: nat) returns (ready: bool, k: nat)
    requires Decides(p, horizon, timeout)
    ensures k <= horizon && forall j: nat | j < k :: !p.shows(j) && !GivesUp(p, j, timeout)
    ensures ready == p.shows(k) == InTime(p, timeout)
    ensures forall j: nat | j < k :: p.hasClock && 0 < timeout ==> !Expired(p.clock, j, timeout)
    ensures !ready ==> p.hasClock && 0 < timeout && Expired(p.clock, k, timeout)
    ensures !ready && p.clock(0) <= p.clock(k + 1) ==> Elapsed(p.clock, k) >= timeout
    ensures p.hasClock && 0 < timeout && SmallGaps(p.clock, timeout) ==>
              forall j: nat | j < k :: Elapsed(p.clock, j) < timeout
  {
    k := 0;
    while !p.shows(k)
      invariant k <= horizon
      invariant forall j: nat | j < k :: !p.shows(j) && !GivesUp(p, j, timeout)
      invariant forall j: nat | j < k :: p.hasClock && 0 < timeout ==> !Expired(p.clock, j, timeout)
      invariant p.hasClock && 0 < timeout && SmallGaps(p.clock, timeout) ==>
                  forall j: nat | j < k :: Elapsed(p.clock, j) < timeout
      decreases horizon - k
    {
      if p.hasClock && timeout != 0 {
        if (p.clock(k + 1) % U32 - p.clock(0) % U32) % U32 >= timeout {
          if p.clock(0) <= p.clock(k + 1) {
            NeverEarly(p.clock, k, timeout);
          }
          DecidedAt(p, timeout, k);
          return false, k;
        }
        if SmallGaps(p.clock, timeout) {
          ExpiredIsExact(p.clock, k, timeout);
        }
      }
      k := k + 1;
    }
    DecidedAt(p, timeout, k);
    return true, k;
  }

  /** A tick source stuck at one value, such as the driver's weak default, never times out. */
  lemma StuckClockNeverExpires(clock: Clock, timeout: u32)
    requires 0 < timeout && forall i: nat :: clock(i) == clock(0)
    ensures forall k: nat :: !Expired(clock, k, timeout)
  {
    forall k: nat ensures !Expired(clock, k, timeout) {
      assert clock(k + 1) == clock(0);
    }
  }

  /** Nor does a clock that is always read a whole tick range later: the gap bound is needed. */
  lemma FullTurnsNeverExpire(timeout: u32)
    requires 0 < timeout
    ensures var clock := (i: nat) => i * U32;
            && Monotone(clock) && (exists k: nat :: Elapsed(clock, k) >= timeout)
            && forall k: nat :: !Expired(clock, k, timeout)
  {
    var clock := (i: nat) => i * U32;
    assert Elapsed(clock, 0) >= timeout;
    forall k: nat ensures !Expired(clock, k, timeout) {
      assert clock(k + 1) % U32 == 0;
    }
  }
}
