/**
 The countdown view: it splits the distance to the birthday into days,
 hours, minutes and seconds, recomposes them into a total number of
 seconds for the "how far away" message, and stops itself once the
 distance is no longer positive. The clock reading `now` and the target
 instant are integer milliseconds supplied by the caller.
 */
module Countdown {

  const MsPerSecond: nat := 1000
  const MsPerMinute: nat := 1000 * 60
  const MsPerHour: nat := 1000 * 60 * 60
  const MsPerDay: nat := 1000 * 60 * 60 * 24

  datatype TimeLeft = TimeLeft(days: nat, hours: nat, minutes: nat, seconds: nat)

  const Zero := TimeLeft(0, 0, 0, 0)

  /** Every field below days stays within its clock range. */
  predicate InRange(t: TimeLeft) {
    t.hours < 24 && t.minutes < 60 && t.seconds < 60
  }

  /** The number of milliseconds a time-left record stands for. */
  function Millis(t: TimeLeft): nat {
    t.days * MsPerDay + t.hours * MsPerHour + t.minutes * MsPerMinute + t.seconds * MsPerSecond
  }

  /** The seconds total the view computes from its state for the message. */
  function TotalTime(t: TimeLeft): nat {
    t.days * 24 * 60 * 60 + t.hours * 60 * 60 + t.minutes * 60 + t.seconds
  }

  /**
   The field-by-field split of a positive distance. Each field is floored;
   hours, minutes and seconds are taken from the remainder of the distance
   by the next larger unit. Only the sub-second milliseconds are lost.
   */
  function Decompose(distance: int): (t: TimeLeft)
    requires distance > 0
    ensures t.days == distance / MsPerDay
    ensures InRange(t)
    ensures Millis(t) <= distance < Millis(t) + MsPerSecond
  {
    DecomposeBounds(distance);
    TimeLeft(distance / MsPerDay,
             (distance % MsPerDay) / MsPerHour,
             (distance % MsPerHour) / MsPerMinute,
             (distance % MsPerMinute) / MsPerSecond)
  }

  /** Each remainder taken by the source is the remainder of the previous stage, so the stages add up. */
  lemma DecomposeBounds(d: int)
    requires d > 0
    ensures (d % MsPerDay) / MsPerHour < 24
    ensures (d % MsPerHour) / MsPerMinute < 60
    ensures (d % MsPerMinute) / MsPerSecond < 60
    ensures d == (d / MsPerDay) * MsPerDay + ((d % MsPerDay) / MsPerHour) * MsPerHour
                 + ((d % MsPerHour) / MsPerMinute) * MsPerMinute
                 + ((d % MsPerMinute) / MsPerSecond) * MsPerSecond + d % MsPerSecond
  {
    var days, r1 := d / MsPerDay, d % MsPerDay;
    assert d == MsPerDay * days + r1 && 0 <= r1 < MsPerDay;
    var hours, r2 := r1 / MsPerHour, r1 % MsPerHour;
    assert r1 == MsPerHour * hours + r2 && 0 <= r2 < MsPerHour;
    assert hours < 24;
    DivModUniqueHour(d, 24 * days + hours, r2);
    var minutes, r3 := r2 / MsPerMinute, r2 % MsPerMinute;
    assert r2 == MsPerMinute * minutes + r3 && 0 <= r3 < MsPerMinute;
    assert minutes < 60;
    DivModUniqueMinute(d, 60 * (24 * days + hours) + minutes, r3);
    var seconds, r4 := r3 / MsPerSecond, r3 % MsPerSecond;
    assert r3 == MsPerSecond * seconds + r4 && 0 <= r4 < MsPerSecond;
    assert seconds < 60;
    DivModUnique(d, 60 * (60 * (24 * days + hours) + minutes) + seconds, r4);
  }

  /** The quotient and remainder by an hour are the only ones of their kind. */
  lemma DivModUniqueHour(d: int, q: int, r: int)
    requires 0 <= r < MsPerHour && d == MsPerHour * q + r
    ensures d / MsPerHour == q && d % MsPerHour == r
  {
  }

  /** The quotient and remainder by a minute are the only ones of their kind. */
  lemma DivModUniqueMinute(d: int, q: int, r: int)
    requires 0 <= r < MsPerMinute && d == MsPerMinute * q + r
    ensures d / MsPerMinute == q && d % MsPerMinute == r
  {
  }

  /** The quotient and remainder by a thousand are the only ones of their kind. */
  lemma DivModUnique(d: int, q: int, r: int)
    requires 0 <= r < MsPerSecond && d == MsPerSecond * q + r
    ensures d / MsPerSecond == q && d % MsPerSecond == r
  {
  }

  /** Millis is exactly a thousand times the seconds total. */
  lemma MillisIsTotalTime(t: TimeLeft)
    ensures Millis(t) == TotalTime(t) * MsPerSecond
  {
  }

  /**
   The split is the only in-range record that brackets the distance: a
   record is the decomposition of `d` exactly when its fields are in range
   and its milliseconds lie within one second below `d`.
   */
  lemma DecomposeUnique(d: int, t: TimeLeft)
    requires d > 0
    ensures t == Decompose(d) <==> (InRange(t) && Millis(t) <= d < Millis(t) + MsPerSecond)
  {
    if InRange(t) && Millis(t) <= d < Millis(t) + MsPerSecond {
      var u := Decompose(d);
      MillisIsTotalTime(t);
      MillisIsTotalTime(u);
      assert TotalTime(t) == d / MsPerSecond by {
        DivModUnique(d, TotalTime(t), d - Millis(t));
      }
      assert TotalTime(u) == d / MsPerSecond by {
        DivModUnique(d, TotalTime(u), d - Millis(u));
      }
      TotalTimeInjective(t, u);
    }
  }

  /** Two in-range records with the same seconds total are the same record. */
  lemma TotalTimeInjective(a: TimeLeft, b: TimeLeft)
    requires InRange(a) && InRange(b) && TotalTime(a) == TotalTime(b)
    ensures a == b
  {
    LexFromTotal(a, b);
    LexFromTotal(b, a);
  }

  /** The example of a target 90,061 seconds away: one of each unit. */
  lemma DecomposeExample()
    ensures Decompose(90061000) == TimeLeft(1, 1, 1, 1)
  {
  }

  /** The seconds total of a split distance is the whole number of seconds in it. */
  lemma TotalTimeOfDecompose(d: int)
    requires d > 0
    ensures TotalTime(Decompose(d)) == d / MsPerSecond
  {
    var t := Decompose(d);
    MillisIsTotalTime(t);
    DivModUnique(d, TotalTime(t), d - Millis(t));
  }

  /** Lexicographic order on (days, hours, minutes, seconds). */
  predicate LexLe(a: TimeLeft, b: TimeLeft) {
    || a.days < b.days
    || (a.days == b.days && a.hours < b.hours)
    || (a.days == b.days && a.hours == b.hours && a.minutes < b.minutes)
    || (a.days == b.days && a.hours == b.hours && a.minutes == b.minutes && a.seconds <= b.seconds)
  }

  /** On in-range records a smaller-or-equal seconds total means lexicographically smaller-or-equal. */
  lemma LexFromTotal(a: TimeLeft, b: TimeLeft)
    requires InRange(a) && InRange(b) && TotalTime(a) <= TotalTime(b)
    ensures LexLe(a, b)
  {
    var ra := a.hours * 3600 + a.minutes * 60 + a.seconds;
    var rb := b.hours * 3600 + b.minutes * 60 + b.seconds;
    assert ra < 86400 && rb < 86400;
  }

  /** A larger distance never decomposes to a lexicographically smaller record. */
  lemma DecomposeMonotone(d1: int, d2: int)
    requires 0 < d1 <= d2
    ensures LexLe(Decompose(d1), Decompose(d2))
  {
    TotalTimeOfDecompose(d1);
    TotalTimeOfDecompose(d2);
    assert d1 / MsPerSecond <= d2 / MsPerSecond;
    LexFromTotal(Decompose(d1), Decompose(d2));
  }

  /** The four messages under the countdown. */
  datatype Message = DaysAway | HoursAway | MinutesAway | SecondsAway

  /** The message for a seconds total; every threshold is strict. */
  function MessageFor(total: int): Message {
    if total > 86400 then DaysAway
    else if total > 3600 then HoursAway
    else if total > 60 then MinutesAway
    else SecondsAway
  }

  /** A day exactly is still "hours", an hour exactly "minutes", a minute exactly "seconds". */
  lemma MessageBoundaries()
    ensures MessageFor(86400) == HoursAway && MessageFor(86401) == DaysAway
    ensures MessageFor(3600) == MinutesAway && MessageFor(3601) == HoursAway
    ensures MessageFor(60) == SecondsAway && MessageFor(61) == MinutesAway
    ensures MessageFor(0) == SecondsAway
  {
  }

  /** The message shown for a positive distance, stated in milliseconds of distance. */
  lemma MessageForDistance(d: int)
    requires d > 0
    ensures MessageFor(TotalTime(Decompose(d))) == DaysAway <==> d >= 86401 * MsPerSecond
    ensures MessageFor(TotalTime(Decompose(d))) == HoursAway <==> 3601 * MsPerSecond <= d < 86401 * MsPerSecond
    ensures MessageFor(TotalTime(Decompose(d))) == MinutesAway <==> 61 * MsPerSecond <= d < 3601 * MsPerSecond
    ensures MessageFor(TotalTime(Decompose(d))) == SecondsAway <==> d < 61 * MsPerSecond
  {
    TotalTimeOfDecompose(d);
  }

  /**
   The view's own state: the displayed record, whether the countdown is
   still active, and how many times the completion callback has been called.
   */
  datatype CountdownState = CountdownState(timeLeft: TimeLeft, isActive: bool, completions: nat)

  /** The state before the first update: all zero and active. */
  const Initial := CountdownState(Zero, true, 0)

  /**
   One run of the update: with the distance `target - now` not positive the
   record is cleared, the countdown goes inactive and the callback (when
   one is given) is called; otherwise the distance is split.
   */
  function Update(s: CountdownState, target: int, now: int, hasOnComplete: bool): (s': CountdownState)
    ensures target - now <= 0 ==>
              && s'.timeLeft == Zero
              && !s'.isActive
              && s'.completions == s.completions + (if hasOnComplete then 1 else 0)
    ensures target - now > 0 ==>
              && InRange(s'.timeLeft)
              && Millis(s'.timeLeft) <= target - now < Millis(s'.timeLeft) + MsPerSecond
              && s'.isActive == s.isActive
              && s'.completions == s.completions
  {
    var distance := target - now;
    if distance <= 0 then
      CountdownState(Zero, false, s.completions + if hasOnComplete then 1 else 0)
    else
      s.(timeLeft := Decompose(distance))
  }

  /** The seconds total shown after an update: whole seconds left, or zero once complete. */
  lemma TotalTimeAfterUpdate(s: CountdownState, target: int, now: int, hasOnComplete: bool)
    ensures TotalTime(Update(s, target, now, hasOnComplete).timeLeft)
            == if target - now > 0 then (target - now) / MsPerSecond else 0
  {
    if target - now > 0 {
      TotalTimeOfDecompose(target - now);
    }
  }

  /** A later clock reading never shows more time left. */
  lemma UpdateNeverIncreases(s: CountdownState, target: int, now1: int, now2: int, hasOnComplete: bool)
    requires now1 <= now2
    ensures TotalTime(Update(s, target, now2, hasOnComplete).timeLeft)
            <= TotalTime(Update(s, target, now1, hasOnComplete).timeLeft)
  {
    TotalTimeAfterUpdate(s, target, now1, hasOnComplete);
    TotalTimeAfterUpdate(s, target, now2, hasOnComplete);
    if target - now2 > 0 {
      assert (target - now2) / MsPerSecond <= (target - now1) / MsPerSecond;
    }
  }

  /** The outcome of one run of the view's effect. */
  datatype EffectRun = EffectRun(state: CountdownState, intervalScheduled: bool)

  /**
   One run of the effect: an update is computed at once, and the one-second
   interval is scheduled only when the state the effect ran with was active.
   */
  function RunEffect(s: CountdownState, target: int, now: int, hasOnComplete: bool): (r: EffectRun)
    ensures r.intervalScheduled <==> s.isActive
    ensures target - now > 0 ==> r.state.timeLeft == Decompose(target - now)
    ensures target - now <= 0 ==> r.state.timeLeft == Zero && !r.state.isActive
  {
    EffectRun(Update(s, target, now, hasOnComplete), s.isActive)
  }

  /**
   Mounting the view shows the right record straight away, before any tick,
   and schedules the interval even when that first update completes.
   */
  lemma MountUpdatesImmediately(target: int, now: int, hasOnComplete: bool)
    ensures RunEffect(Initial, target, now, hasOnComplete).intervalScheduled
    ensures RunEffect(Initial, target, now, hasOnComplete).state.timeLeft
            == if target - now > 0 then Decompose(target - now) else Zero
    ensures target - now <= 0 && hasOnComplete ==>
              RunEffect(Initial, target, now, hasOnComplete).state.completions == 1
  {
  }

  /** Once the countdown is inactive, a rerun of the effect schedules no interval and stays inactive. */
  lemma InactiveSchedulesNothing(s: CountdownState, target: int, now: int, hasOnComplete: bool)
    requires !s.isActive
    ensures !RunEffect(s, target, now, hasOnComplete).intervalScheduled
    ensures !RunEffect(s, target, now, hasOnComplete).state.isActive
  {
  }
}
