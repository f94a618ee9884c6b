/** The firmware's notion of time: `millis()` readings held in a 32-bit
    `unsigned long`, and the unsigned subtraction used to measure how long
    a locker has been open. */
module Clock {

  /** 2^32: `unsigned long` on the target board is 32 bits wide. */
  const WORD: int := 0x1_0000_0000

  /** A `millis()` reading; it wraps to 0 after about 49.7 days. */
  type Millis = x: int | 0 <= x < WORD

  /** How long a locker stays unlocked before the sweep re-locks it. */
  const LOCKER_OPEN_TIME: int := 5000

  /** `now - openedAt` evaluated in 32-bit unsigned arithmetic: the number
      of ticks that, added to `openedAt` modulo 2^32, lands on `now`. */
  function Elapsed(now: Millis, openedAt: Millis): (r: Millis)
    ensures (openedAt + r) % WORD == now
    ensures r == (now - openedAt) % WORD
  {
    if openedAt <= now then now - openedAt else now - openedAt + WORD
  }

  /** At most one reading below 2^32 takes `openedAt` to `now`, so Elapsed is
      the only answer the unsigned subtraction can give. */
  lemma ElapsedUnique(now: Millis, openedAt: Millis, d: Millis)
    requires (openedAt + d) % WORD == now
    ensures d == Elapsed(now, openedAt)
  {
  }

  /** The reading `k` ticks after `t`, on the 32-bit clock. */
  function Advance(t: Millis, k: nat): (r: Millis)
    ensures Elapsed(r, t) == k % WORD
  {
    ElapsedUnique((t + k) % WORD, t, k % WORD);
    (t + k) % WORD
  }

  /** `now` lies within `LOCKER_OPEN_TIME` ticks after `openedAt` exactly
      when the elapsed time is at most `LOCKER_OPEN_TIME`. */
  lemma ElapsedWindow(now: Millis, openedAt: Millis)
    ensures Elapsed(now, openedAt) <= LOCKER_OPEN_TIME <==>
            exists k :: 0 <= k <= LOCKER_OPEN_TIME && Advance(openedAt, k) == now
  {
    if Elapsed(now, openedAt) <= LOCKER_OPEN_TIME {
      assert Advance(openedAt, Elapsed(now, openedAt)) == now;
    }
  }

  /** Wrap-around safety: if the true wall-clock times are `t0` (open) and
      `t1` (sweep), less than 2^32 ms apart, then the elapsed time computed
      from their truncated 32-bit readings is exactly `t1 - t0`, even when
      `t1` has wrapped past zero and `t0` has not. */
  lemma ElapsedTracksWallClock(t0: nat, t1: nat)
    requires t0 <= t1 < t0 + WORD
    ensures Elapsed(t1 % WORD, t0 % WORD) == t1 - t0
  {
  }

  /** The expiry test `currentTime - openedAt > lockerOpenTime`, decided on
      the wall clock across any wrap of the 32-bit counter: the strict `>`
      means exactly 5000 ms is not yet expired. */
  lemma ExpiryAcrossWrap(t0: nat, t1: nat)
    requires t0 <= t1 < t0 + WORD
    ensures Elapsed(t1 % WORD, t0 % WORD) > LOCKER_OPEN_TIME <==> t1 - t0 > LOCKER_OPEN_TIME
  {
    ElapsedTracksWallClock(t0, t1);
  }
}
