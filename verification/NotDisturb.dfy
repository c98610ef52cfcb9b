/** The do-not-disturb window and the trigger test of the timed-task scheduler. */
module NotDisturb {
  const DAY := 1440

  datatype AppNotDisturbTime = AppNotDisturbTime(version: int, onoff: int, starTime: int, endTime: int, endDay: int)

  // `time >> 8 & 0xFF` and `time & 0xFF`
  function HourOf(time: int): nat {
    time / 0x100 % 0x100
  }

  function MinuteOf(time: int): nat {
    time % 0x100
  }

  /** The high byte is the hour, the low byte the minute. */
  lemma ClockTimeOf(hour: nat, minute: nat)
    requires hour < 0x100 && minute < 0x100
    ensures HourOf(hour * 0x100 + minute) == hour && MinuteOf(hour * 0x100 + minute) == minute
  {}

  // IsInNotDisturbTime
  predicate IsInNotDisturbTime(hour: int, minute: int, d: AppNotDisturbTime) {
    var startHour, startMinute := HourOf(d.starTime), MinuteOf(d.starTime);
    var endHour, endMinute := HourOf(d.endTime), MinuteOf(d.endTime);
    if d.endDay == 1 then
      || hour > startHour || (hour == startHour && minute >= startMinute)
      || hour < endHour || (hour == endHour && minute <= endMinute)
    else
      || (hour > startHour && hour < endHour)
      || (hour == startHour && minute >= startMinute)
      || (hour == endHour && minute <= endMinute)
  }

  predicate IsClockTime(hour: int, minute: int) {
    0 <= hour < 24 && 0 <= minute < 60
  }

  function MinuteOfDay(time: int): nat {
    HourOf(time) * 60 + MinuteOf(time)
  }

  // The window as a closed interval of minutes that may reach into the next day; a time of day is inside
  // if today's or tomorrow's occurrence of it is.
  predicate InsideWindow(t: int, d: AppNotDisturbTime) {
    var start, end := MinuteOfDay(d.starTime), MinuteOfDay(d.endTime) + if d.endDay == 1 then DAY else 0;
    start <= t <= end || start <= t + DAY <= end
  }

  predicate HasClockTimes(d: AppNotDisturbTime) {
    IsClockTime(HourOf(d.starTime), MinuteOf(d.starTime)) && IsClockTime(HourOf(d.endTime), MinuteOf(d.endTime))
  }

  // Windows the code tests as intended: past midnight, or spanning several hours, or one whole hour.
  predicate IsTestedExactly(d: AppNotDisturbTime) {
    || d.endDay == 1
    || HourOf(d.starTime) < HourOf(d.endTime)
    || (HourOf(d.starTime) == HourOf(d.endTime) && MinuteOf(d.starTime) == 0 && MinuteOf(d.endTime) == 59)
  }

  lemma TestIsExact(hour: int, minute: int, d: AppNotDisturbTime)
    requires HasClockTimes(d) && IsTestedExactly(d) && IsClockTime(hour, minute)
    ensures IsInNotDisturbTime(hour, minute, d) <==> InsideWindow(hour * 60 + minute, d)
  {}

  /** The test in minutes of the day, for every window with clock times: past midnight two rays; otherwise the rest of
      the first hour, the hours between, and the beginning of the last one. */
  lemma WindowTestInMinutes(hour: int, minute: int, d: AppNotDisturbTime)
    requires HasClockTimes(d) && IsClockTime(hour, minute)
    ensures var t, start, end := hour * 60 + minute, MinuteOfDay(d.starTime), MinuteOfDay(d.endTime);
            var second, last := HourOf(d.starTime) * 60 + 60, HourOf(d.endTime) * 60;
            IsInNotDisturbTime(hour, minute, d) <==>
              if d.endDay == 1 then t >= start || t <= end
              else start <= t < second || second <= t < last || last <= t <= end
  {}

  // A time of day on which the test is wrong for every other window.
  function Misjudged(d: AppNotDisturbTime): (int, int) {
    var startMinute, endMinute := MinuteOf(d.starTime), MinuteOf(d.endTime);
    var minute := if HourOf(d.starTime) > HourOf(d.endTime) || startMinute > endMinute then startMinute
                  else if startMinute > 0 then startMinute - 1
                  else 59;
    (HourOf(d.starTime), minute)
  }

  lemma TestIsWrong(d: AppNotDisturbTime)
    requires HasClockTimes(d) && !IsTestedExactly(d)
    ensures var (hour, minute) := Misjudged(d);
            IsClockTime(hour, minute) && IsInNotDisturbTime(hour, minute, d) && !InsideWindow(hour * 60 + minute, d)
  {}

  /** For every window with clock times: the test agrees with the interval on all times of day exactly when
      the window reaches into the next day, starts in an earlier hour than it ends, or is one whole hour. */
  lemma WindowTestIff(d: AppNotDisturbTime)
    requires HasClockTimes(d)
    ensures (forall hour, minute :: IsClockTime(hour, minute) ==>
               (IsInNotDisturbTime(hour, minute, d) <==> InsideWindow(hour * 60 + minute, d)))
            <==> IsTestedExactly(d)
  {
    if IsTestedExactly(d) {
      forall hour, minute | IsClockTime(hour, minute) {
        TestIsExact(hour, minute, d);
      }
    } else {
      TestIsWrong(d);
    }
  }

  /** Past midnight with end before start, the window is the cyclic interval from start to end. */
  lemma CyclicWindow(t: int, d: AppNotDisturbTime)
    requires HasClockTimes(d) && d.endDay == 1 && MinuteOfDay(d.endTime) < MinuteOfDay(d.starTime)
    requires 0 <= t < DAY
    ensures InsideWindow(t, d) <==>
              (t - MinuteOfDay(d.starTime)) % DAY <= (MinuteOfDay(d.endTime) - MinuteOfDay(d.starTime)) % DAY
  {}

  // ---- the trigger ----

  // One reading of the wall clock; weekDay counts from Sunday.
  datatype Clock = Clock(hour: int, minute: int, weekDay: int)

  predicate IsReading(c: Clock) {
    IsClockTime(c.hour, c.minute) && 0 <= c.weekDay < 7
  }

  predicate Bit(mask: int, weight: int)
    requires weight > 0
  {
    mask / weight % 2 == 1
  }

  // IsTimeToTrigger
  predicate IsTimeToTrigger(mask: int, hour: int, minute: int, now: Clock) {
    var sameDay :=
      || (Bit(mask, 0x01) && now.weekDay == 1)
      || (Bit(mask, 0x02) && now.weekDay == 2)
      || (Bit(mask, 0x04) && now.weekDay == 3)
      || (Bit(mask, 0x08) && now.weekDay == 4)
      || (Bit(mask, 0x10) && now.weekDay == 5)
      || (Bit(mask, 0x20) && now.weekDay == 6)
      || (Bit(mask, 0x40) && now.weekDay == 0);
    (sameDay || mask == 0) && hour == now.hour && minute == now.minute
  }

  function Pow2(n: nat): (p: nat)
    ensures p > 0
  {
    if n == 0 then 1 else 2 * Pow2(n - 1)
  }

  /** A task is due at its hour and minute, on the days whose bit is set counting from Monday, or on any day
      when no bit is. */
  lemma DueIff(mask: int, hour: int, minute: int, now: Clock)
    requires IsReading(now)
    ensures IsTimeToTrigger(mask, hour, minute, now) <==>
              hour == now.hour && minute == now.minute && (mask == 0 || Bit(mask, Pow2((now.weekDay + 6) % 7)))
  {
    assert Pow2(0) == 1 && Pow2(1) == 2 && Pow2(2) == 4;
    assert Pow2(3) == 8 && Pow2(4) == 16;
    assert Pow2(5) == 32 && Pow2(6) == 64;
  }

  function Flag(on: bool): nat {
    if on then 1 else 0
  }

  // The days from the k-th on, Monday first, as a binary number with the first of them lowest.
  function MaskFrom(days: seq<bool>, k: nat): nat
    decreases |days| - k
  {
    if k >= |days| then 0 else Flag(days[k]) + 2 * MaskFrom(days, k + 1)
  }

  lemma Halves(m: nat, m1: nat, m2: nat, m3: nat, m4: nat, m5: nat, m6: nat)
    requires m / 2 == m1 && m1 / 2 == m2 && m2 / 2 == m3 && m3 / 2 == m4 && m4 / 2 == m5 && m5 / 2 == m6
    ensures m / 4 == m2 && m / 8 == m3 && m / 16 == m4 && m / 32 == m5 && m / 64 == m6
  {}

  lemma MaskDigit(days: seq<bool>, k: nat)
    requires k < |days|
    ensures MaskFrom(days, k) / 2 == MaskFrom(days, k + 1) && MaskFrom(days, k) % 2 == Flag(days[k])
  {}

  lemma MaskBits(days: seq<bool>)
    requires |days| == 7
    ensures var m := MaskFrom(days, 0);
            && Bit(m, 1) == days[0] && Bit(m, 2) == days[1] && Bit(m, 4) == days[2] && Bit(m, 8) == days[3]
            && Bit(m, 16) == days[4] && Bit(m, 32) == days[5] && Bit(m, 64) == days[6]
  {
    forall k | 0 <= k < 7
      ensures MaskFrom(days, k) / 2 == MaskFrom(days, k + 1) && MaskFrom(days, k) % 2 == Flag(days[k])
    {
      MaskDigit(days, k);
    }
    Halves(MaskFrom(days, 0), MaskFrom(days, 1), MaskFrom(days, 2), MaskFrom(days, 3), MaskFrom(days, 4),
           MaskFrom(days, 5), MaskFrom(days, 6));
  }

  lemma {:induction false} MaskIsZero(days: seq<bool>, k: nat)
    ensures MaskFrom(days, k) == 0 <==> forall i :: k <= i < |days| ==> !days[i]
    decreases |days| - k
  {
    if k < |days| {
      MaskIsZero(days, k + 1);
    }
  }

  /** A task is due at its hour and minute on the days it was set for, and on any day if on none. */
  lemma DueOnDays(days: seq<bool>, hour: int, minute: int, now: Clock)
    requires |days| == 7 && IsReading(now)
    ensures IsTimeToTrigger(MaskFrom(days, 0), hour, minute, now) <==>
              hour == now.hour && minute == now.minute && (days[(now.weekDay + 6) % 7] || true !in days)
  {
    MaskBits(days);
    MaskIsZero(days, 0);
  }
}
