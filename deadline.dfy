/** Deadlines on a steady clock. Time points and durations are 64-bit
    counts of clock ticks; time points here are never before the clock's
    epoch. A deadline is computed without overflow: it saturates at the
    latest representable time point. */
module Deadlines {
  import opened Wrappers

  const MaxTick: int := 0x7fff_ffff_ffff_ffff
  const MinTick: int := -0x8000_0000_0000_0000

  /** `time_traits::time_point` */
  type TimePoint = t: int | 0 <= t <= MaxTick
  /** `time_traits::duration` */
  type Duration = d: int | MinTick <= d <= MaxTick

  /** What a caller may bound an operation by: nothing (`none`), a time
      point, or a duration from now. */
  datatype TimeConstraint = NoConstraint | Until(tp: TimePoint) | Within(d: Duration)

  /** `deadline(after, t)`: t moved forward by `after`; a negative duration
      leaves t where it is and an addition past the end of the clock gives
      its last time point. */
  function DeadlineAfter(after: Duration, t: TimePoint): (r: TimePoint)
    ensures t <= r
    ensures after <= 0 ==> r == t
    ensures after > 0 && t + after <= MaxTick ==> r == t + after
    ensures t + after > MaxTick ==> r == MaxTick
  {
    if after < 0 then t
    else if MaxTick - t > after then t + after
    else MaxTick
  }

  /** `deadline(constraint)` at clock reading `now`: none stays none, a time
      point is its own deadline, a duration counts from now. */
  function Deadline(c: TimeConstraint, now: TimePoint): (r: Option<TimePoint>)
    ensures r.None? <==> c.NoConstraint?
    ensures c.Until? ==> r == Some(c.tp)
    ensures c.Within? ==> r == Some(DeadlineAfter(c.d, now)) && now <= r.value
  {
    match c
    case NoConstraint => None
    case Until(tp) => Some(tp)
    case Within(d) => Some(DeadlineAfter(d, now))
  }

  /** `time_left(deadline, now)`: how long until the deadline, never
      negative. */
  function TimeLeft(deadline: TimePoint, now: TimePoint): (r: Duration)
    ensures 0 <= r
    ensures now < deadline ==> now + r == deadline
    ensures now >= deadline ==> r == 0
  {
    if now < deadline then deadline - now else 0
  }

  /** `expired(deadline, now)`: a deadline is expired exactly when no time
      is left before it. */
  predicate Expired(deadline: TimePoint, now: TimePoint): (r: bool)
    ensures r <==> TimeLeft(deadline, now) == 0
  {
    now >= deadline
  }

  /** Saturated addition is exact whenever it can be: the deadline is as far
      ahead as asked, or the end of the clock, and the time left at t is
      then the duration itself or all that the clock has. */
  lemma DeadlineThenTimeLeft(after: Duration, t: TimePoint)
    ensures after > 0 ==> TimeLeft(DeadlineAfter(after, t), t) == if t + after <= MaxTick then after else MaxTick - t
    ensures after <= 0 ==> Expired(DeadlineAfter(after, t), t)
  {
  }

  /** A longer duration never gives an earlier deadline, and a later start
      never does either. */
  lemma DeadlineMonotonic(a1: Duration, a2: Duration, t1: TimePoint, t2: TimePoint)
    requires a1 <= a2 && t1 <= t2
    ensures DeadlineAfter(a1, t1) <= DeadlineAfter(a2, t2)
  {
  }

  /** Time left only shrinks as the clock moves on, by no more than the
      time that passed. */
  lemma TimeLeftShrinks(deadline: TimePoint, now1: TimePoint, now2: TimePoint)
    requires now1 <= now2
    ensures TimeLeft(deadline, now2) <= TimeLeft(deadline, now1)
    ensures TimeLeft(deadline, now1) - TimeLeft(deadline, now2) <= now2 - now1
  {
  }

  /** The library's cases, with one second as s ticks: epoch plus a second,
      saturation from epoch plus a second, a negative duration. */
  lemma PinnedCases(s: Duration)
    requires s > 0
    ensures Deadline(NoConstraint, 0) == None
    ensures Deadline(Until(0), 0) == Some(0)
    ensures DeadlineAfter(s, 0) == s
    ensures DeadlineAfter(MaxTick, s) == MaxTick
    ensures DeadlineAfter(-s, 0) == 0
    ensures TimeLeft(s, 0) == s && TimeLeft(0, 0) == 0 && TimeLeft(0, s) == 0
    ensures !Expired(s, 0) && Expired(0, 0) && Expired(0, s)
  {
  }
}
