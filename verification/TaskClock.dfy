/**
 * Clock arithmetic of the weekly scheduler.  Instants are microseconds since 1970-01-01 00:00 UTC,
 * the UTC offset is in seconds, and a weekday is 0 (Sunday) to 6 (Saturday).
 */
module TaskClock {
  import opened Common

  const MINUTES_A_DAY := 1440

  // ---------- first firing ----------

  /** Does instant t fall exactly on hour:minute of the local clock? */
  predicate OnLocalTime(t: int, offset: int, hour: int, minute: int) {
    (t + offset * SECOND) % DAY == (hour * 60 + minute) * MINUTE
  }

  /** The start of the minute that contains now. */
  function MinuteStart(now: int, offset: int): int {
    var local := now + offset * SECOND;
    local - local % MINUTE - offset * SECOND
  }

  /** The instant at which a task is first scheduled, as CTaskManager computes it. */
  function FirstFiring(now: int, offset: int, hour: int, minute: int): int {
    var local := now + offset * SECOND;
    var base := local - local % MINUTE;
    var target := local - local % DAY + (hour * 60 + minute) * MINUTE;
    var diffMinutes := ((target - base) / MINUTE + MINUTES_A_DAY) % MINUTES_A_DAY;
    var ahead := if diffMinutes <= 1 then diffMinutes + MINUTES_A_DAY else diffMinutes;
    base + ahead * MINUTE - offset * SECOND
  }

  /** Splits an instant into whole days, whole minutes of the day, and a rest below one minute. */
  lemma DayMinuteRest(t: int) returns (days: int, minutes: int, rest: int)
    ensures t == days * DAY + minutes * MINUTE + rest
    ensures 0 <= minutes < MINUTES_A_DAY && 0 <= rest < MINUTE
    ensures t % DAY == minutes * MINUTE + rest && t % MINUTE == rest && t / DAY == days
  {
    var u := t / MINUTE;
    rest := t % MINUTE;
    days := u / MINUTES_A_DAY;
    minutes := u % MINUTES_A_DAY;
    assert t == days * DAY + (minutes * MINUTE + rest);
    DivMod(t, days, minutes * MINUTE + rest);
  }

  lemma DivMod(t: int, q: int, r: int)
    requires t == q * DAY + r && 0 <= r < DAY
    ensures t / DAY == q && t % DAY == r
  {
  }

  /** FirstFiring in terms of the day, the minute now, and the minute wanted. */
  lemma FirstFiringInMinutes(now: int, offset: int, hour: int, minute: int)
    returns (days: int, current: int, rest: int, first: int, firstDay: int, start: int)
    requires 0 <= hour <= 23 && 0 <= minute <= 59
    ensures now + offset * SECOND == days * DAY + current * MINUTE + rest
    ensures 0 <= current < MINUTES_A_DAY && 0 <= rest < MINUTE
    ensures first == FirstFiring(now, offset, hour, minute) && start == MinuteStart(now, offset)
    ensures var wanted := hour * 60 + minute;
            && firstDay == (if wanted - current >= 2 then days
                            else if wanted - current >= 2 - MINUTES_A_DAY then days + 1 else days + 2)
            && first + offset * SECOND == firstDay * DAY + wanted * MINUTE
    ensures start + offset * SECOND == days * DAY + current * MINUTE
  {
    days, current, rest := DayMinuteRest(now + offset * SECOND);
    first, start := FirstFiring(now, offset, hour, minute), MinuteStart(now, offset);
    var wanted := hour * 60 + minute;
    firstDay := if wanted - current >= 2 then days
                else if wanted - current >= 2 - MINUTES_A_DAY then days + 1 else days + 2;
    assert days * DAY + wanted * MINUTE - (days * DAY + current * MINUTE) == MINUTE * (wanted - current);
    assert MINUTE * (wanted - current) / MINUTE == wanted - current;
  }

  /** An instant on local time hour:minute is a whole number of days plus that time. */
  lemma OnLocalTimeDays(t: int, offset: int, hour: int, minute: int) returns (days: int)
    requires 0 <= hour <= 23 && 0 <= minute <= 59
    ensures OnLocalTime(t, offset, hour, minute)
            <==> t + offset * SECOND == days * DAY + (hour * 60 + minute) * MINUTE
  {
    days := (t + offset * SECOND) / DAY;
  }

  /** A local time `wanted` on day d is not earlier than the one chosen, once it is two minutes ahead. */
  lemma EarliestDay(days: int, current: int, wanted: int, d: int)
    requires 0 <= current < MINUTES_A_DAY && 0 <= wanted < MINUTES_A_DAY
    requires days * DAY + (current + 2) * MINUTE <= d * DAY + wanted * MINUTE
    ensures (if wanted - current >= 2 then days
             else if wanted - current >= 2 - MINUTES_A_DAY then days + 1 else days + 2) <= d
  {
    assert DAY == MINUTES_A_DAY * MINUTE;
    assert days * MINUTES_A_DAY + current + 2 <= d * MINUTES_A_DAY + wanted;
  }

  /** First-firing arithmetic: on time, 1 to 1441 minutes ahead, and the earliest choice allowed. */
  lemma FirstFiringIsEarliest(now: int, offset: int, hour: int, minute: int)
    requires 0 <= hour <= 23 && 0 <= minute <= 59
    ensures var first := FirstFiring(now, offset, hour, minute);
            && OnLocalTime(first, offset, hour, minute)
            && now + MINUTE < first <= now + 1441 * MINUTE
            && MinuteStart(now, offset) + 2 * MINUTE <= first
            && (forall t :: OnLocalTime(t, offset, hour, minute) && MinuteStart(now, offset) + 2 * MINUTE <= t
                            ==> first <= t)
  {
    var wanted := hour * 60 + minute;
    var days, current, rest, first, firstDay, start := FirstFiringInMinutes(now, offset, hour, minute);
    assert OnLocalTime(first, offset, hour, minute) by {
      assert first + offset * SECOND == DAY * firstDay + wanted * MINUTE;
    }
    forall t | OnLocalTime(t, offset, hour, minute) && start + 2 * MINUTE <= t
      ensures first <= t
    {
      var d := OnLocalTimeDays(t, offset, hour, minute);
      EarliestDay(days, current, wanted, d);
    }
  }

  /** The timer repeats every 24 hours: every later firing keeps the task's local time. */
  lemma LaterFiringsKeepLocalTime(t: int, offset: int, hour: int, minute: int, k: nat)
    requires OnLocalTime(t, offset, hour, minute)
    ensures OnLocalTime(Firing(t, k), offset, hour, minute)
  {
    assert t + k * DAY + offset * SECOND == (t + offset * SECOND) + DAY * k;
  }

  // ---------- weekday mask ----------

  /** Weekday of the UTC date; 1970-01-01 was a Thursday. */
  function Weekday(t: int): int {
    (t / DAY + 4) % 7
  }

  /** TaskSunday >> dayOffset: bit 6 is Sunday, bit 0 is Saturday. */
  function DayMask(weekday: int): bv8
    requires 0 <= weekday < 7
  {
    0x40 >> weekday
  }

  predicate MaskHas(mask: bv8, weekday: int)
    requires 0 <= weekday < 7
  {
    DayMask(weekday) & mask != 0
  }

  /** Does the firing at instant t reach the door-operation branch? */
  predicate Acts(mask: bv8, t: int) {
    MaskHas(mask, Weekday(t))
  }

  /** The k-th daily firing of a task first fired at t. */
  function Firing(t: int, k: nat): int {
    t + k * DAY
  }

  /** Number of the n daily firings starting at t that act. */
  function ActCount(mask: bv8, t: int, n: nat): nat {
    if n == 0 then 0 else ActCount(mask, t, n - 1) + if Acts(mask, Firing(t, n - 1)) then 1 else 0
  }

  /** Number of weekdays in a mask. */
  function MaskSize(mask: bv8, days: nat): nat
    requires days <= 7
  {
    if days == 0 then 0 else MaskSize(mask, days - 1) + if MaskHas(mask, days - 1) then 1 else 0
  }

  lemma WeekdayAdvances(t: int, k: nat)
    ensures Weekday(Firing(t, k)) == (Weekday(t) + k) % 7
    ensures k < 7 ==> Weekday(Firing(t, k)) == if Weekday(t) + k < 7 then Weekday(t) + k else Weekday(t) + k - 7
  {
    assert t + k * DAY == t + DAY * k;
    assert (t + k * DAY) / DAY == t / DAY + k;
  }

  /** Any seven consecutive firings act once for every weekday in the mask. */
  lemma SevenFiringsActOncePerMaskDay(mask: bv8, t: int)
    ensures ActCount(mask, t, 7) == MaskSize(mask, 7)
  {
    var bits := seq(7, day requires 0 <= day < 7 => Bit(mask, day));
    ActCountIsSum(mask, t, bits, 7);
    MaskSizeIsSum(mask, bits, 7);
    RotatedWeek(bits, Weekday(t));
  }

  /** The sum of n entries of a week, from day w on and around. */
  function WeekSum(bits: seq<nat>, w: nat, n: nat): nat
    requires |bits| == 7
  {
    if n == 0 then 0 else WeekSum(bits, w, n - 1) + bits[(w + n - 1) % 7]
  }

  lemma {:induction false} ActCountIsSum(mask: bv8, t: int, bits: seq<nat>, n: nat)
    requires |bits| == 7 && forall day :: 0 <= day < 7 ==> bits[day] == Bit(mask, day)
    ensures ActCount(mask, t, n) == WeekSum(bits, Weekday(t), n)
  {
    if n > 0 {
      ActCountIsSum(mask, t, bits, n - 1);
      WeekdayAdvances(t, n - 1);
    }
  }

  lemma {:induction false} MaskSizeIsSum(mask: bv8, bits: seq<nat>, n: nat)
    requires |bits| == 7 && forall day :: 0 <= day < 7 ==> bits[day] == Bit(mask, day)
    requires n <= 7
    ensures MaskSize(mask, n) == WeekSum(bits, 0, n)
  {
    if n > 0 {
      MaskSizeIsSum(mask, bits, n - 1);
      assert (n - 1) % 7 == n - 1;
    }
  }

  lemma {:induction false} WeekSumFromFront(bits: seq<nat>, w: nat, n: nat)
    requires |bits| == 7
    ensures WeekSum(bits, w, n + 1) == bits[w % 7] + WeekSum(bits, w + 1, n)
  {
    if n > 0 {
      WeekSumFromFront(bits, w, n - 1);
    }
  }

  /** A whole week has the same sum from whichever day it starts. */
  lemma {:induction false} RotatedWeek(bits: seq<nat>, w: nat)
    requires |bits| == 7
    ensures WeekSum(bits, w, 7) == WeekSum(bits, 0, 7)
  {
    if w > 0 {
      WeekSumFromFront(bits, w - 1, 7);
      assert (w - 1 + 7) % 7 == (w - 1) % 7;
      RotatedWeek(bits, w - 1);
    }
  }

  /** Among seven consecutive firings each weekday comes up exactly once, and acts there exactly if it is masked. */
  lemma EveryWeekdayFiresOnce(mask: bv8, t: int, weekday: int)
    requires 0 <= weekday < 7
    ensures exists k: nat :: k < 7 && Weekday(Firing(t, k)) == weekday
                             && (Acts(mask, Firing(t, k)) <==> MaskHas(mask, weekday))
                             && forall j: nat :: j < 7 && Weekday(Firing(t, j)) == weekday ==> j == k
  {
    var w := Weekday(t);
    forall j: nat | j < 7 ensures Weekday(Firing(t, j)) == if w + j < 7 then w + j else w + j - 7 {
      WeekdayAdvances(t, j);
    }
    var k: nat := if weekday >= w then weekday - w else weekday - w + 7;
    assert Weekday(Firing(t, k)) == weekday;
  }

  function Bit(mask: bv8, weekday: int): nat
    requires 0 <= weekday < 7
  {
    if MaskHas(mask, weekday) then 1 else 0
  }

  // ---------- the mask against the calendar ----------

  /** Does the UTC date of t fall on the weekday?  Day 3, 1970-01-04, was a Sunday, weekday 0. */
  predicate FallsOn(t: int, weekday: int) {
    (t / DAY - 3 - weekday) % 7 == 0
  }

  /** TaskSunday to TaskSaturday. */
  function TaskDay(weekday: int): bv8
    requires 0 <= weekday < 7
  {
    match weekday
    case 0 => 0x40
    case 1 => 0x20
    case 2 => 0x10
    case 3 => 0x08
    case 4 => 0x04
    case 5 => 0x02
    case 6 => 0x01
  }

  lemma ShiftIsTaskDay(weekday: int)
    requires 0 <= weekday < 7
    ensures DayMask(weekday) == TaskDay(weekday)
  {
    assert DayMask(0) == 0x40 && DayMask(1) == 0x20 && DayMask(2) == 0x10 && DayMask(3) == 0x08;
    assert DayMask(4) == 0x04 && DayMask(5) == 0x02 && DayMask(6) == 0x01;
  }

  lemma WeekdayFalls(t: int, weekday: int)
    requires 0 <= weekday < 7
    ensures FallsOn(t, weekday) <==> weekday == Weekday(t)
  {
    var d := t / DAY;
    assert (d + 4) % 7 == (d - 3) % 7;
    assert (d - 3 - weekday) % 7 == 0 <==> (d - 3) % 7 == weekday;
  }

  /** A firing acts exactly if the mask has the constant of the weekday on which its UTC date falls. */
  lemma ActsExactly(mask: bv8, t: int, weekday: int)
    requires 0 <= weekday < 7 && (t / DAY - 3 - weekday) % 7 == 0
    ensures Acts(mask, t) <==> [0x40, 0x20, 0x10, 0x08, 0x04, 0x02, 0x01][weekday] & mask != 0
  {
    WeekdayFalls(t, weekday);
    ShiftIsTaskDay(weekday);
  }

  /** A task for one weekday acts exactly on that weekday. */
  lemma OneDayTaskActsExactly(t: int, weekday: int)
    requires 0 <= weekday < 7
    ensures Acts([0x40, 0x20, 0x10, 0x08, 0x04, 0x02, 0x01][weekday], t) <==> (t / DAY - 3 - weekday) % 7 == 0
  {
    WeekdayFalls(t, Weekday(t));
    ActsExactly(TaskDay(weekday), t, Weekday(t));
    MaskBitsAreSeparate(weekday, Weekday(t));
    ShiftIsTaskDay(weekday);
    WeekdayFalls(t, weekday);
  }

  /** A mask distinguishes any two different weekdays. */
  lemma MaskBitsAreSeparate(v: int, w: int)
    requires 0 <= v < 7 && 0 <= w < 7
    ensures MaskHas(DayMask(v), w) <==> v == w
  {
    assert DayMask(0) == 0x40 && DayMask(1) == 0x20 && DayMask(2) == 0x10 && DayMask(3) == 0x08;
    assert DayMask(4) == 0x04 && DayMask(5) == 0x02 && DayMask(6) == 0x01;
  }

  // ---------- which calendar the mask follows ----------

  /** The UTC date and the local date agree at instant t. */
  predicate DatesAgree(t: int, offset: int) {
    t / DAY == (t + offset * SECOND) / DAY
  }

  /** For every mask, the firing at t acts exactly if the mask has the constant of the local date's weekday. */
  ghost predicate FollowsLocalDays(t: int, offset: int) {
    forall mask: bv8, weekday: int :: 0 <= weekday < 7 && FallsOn(t + offset * SECOND, weekday) ==>
      (Acts(mask, t) <==> TaskDay(weekday) & mask != 0)
  }

  /**
   * The weekday is read before the clock is made local, so the acting days are the masked local
   * weekdays for every mask exactly when the two dates agree.
   */
  lemma MaskFollowsLocalCalendar(t: int, offset: int)
    requires -86_400 < offset < 86_400
    ensures FollowsLocalDays(t, offset) <==> DatesAgree(t, offset)
  {
    var utc, local := Weekday(t), Weekday(t + offset * SECOND);
    WeekdayFalls(t + offset * SECOND, local);
    assert -1 <= (t + offset * SECOND) / DAY - t / DAY <= 1;
    assert utc == local <==> DatesAgree(t, offset);
    if DatesAgree(t, offset) {
      forall mask: bv8, weekday: int | 0 <= weekday < 7 && FallsOn(t + offset * SECOND, weekday)
        ensures Acts(mask, t) <==> TaskDay(weekday) & mask != 0
      {
        WeekdayFalls(t + offset * SECOND, weekday);
        ShiftIsTaskDay(weekday);
      }
    } else {
      ShiftIsTaskDay(utc);
      ShiftIsTaskDay(local);
      MaskBitsAreSeparate(utc, utc);
      MaskBitsAreSeparate(utc, local);
      assert Acts(TaskDay(utc), t) && TaskDay(local) & TaskDay(utc) == 0;
    }
  }

  /** For a firing at hour:minute the dates agree exactly when that local time, seen from UTC, is on the same day. */
  lemma DatesAgreeForTask(t: int, offset: int, hour: int, minute: int)
    requires 0 <= hour <= 23 && 0 <= minute <= 59
    requires OnLocalTime(t, offset, hour, minute)
    ensures DatesAgree(t, offset) <==> 0 <= (hour * 60 + minute) * 60 - offset < 86_400
  {
    var days, minutes, rest := DayMinuteRest(t + offset * SECOND);
    var inDay := (hour * 60 + minute) * MINUTE - offset * SECOND;
    assert t == days * DAY + inDay;
    if 0 <= inDay < DAY {
      assert t / DAY == days;
    } else {
      assert t / DAY != days;
    }
  }

  /** Every firing of a scheduled task follows the local calendar exactly if the guard on its time and offset holds. */
  lemma ScheduledTaskFollowsLocalCalendar(now: int, offset: int, hour: int, minute: int)
    requires 0 <= hour <= 23 && 0 <= minute <= 59 && -86_400 < offset < 86_400
    ensures var first := FirstFiring(now, offset, hour, minute);
            (forall k: nat :: FollowsLocalDays(Firing(first, k), offset))
            <==> 0 <= (hour * 60 + minute) * 60 - offset < 86_400
  {
    var first := FirstFiring(now, offset, hour, minute);
    FirstFiringIsEarliest(now, offset, hour, minute);
    forall k: nat
      ensures FollowsLocalDays(Firing(first, k), offset) <==> 0 <= (hour * 60 + minute) * 60 - offset < 86_400
    {
      LaterFiringsKeepLocalTime(first, offset, hour, minute, k);
      MaskFollowsLocalCalendar(Firing(first, k), offset);
      DatesAgreeForTask(Firing(first, k), offset, hour, minute);
    }
    assert FollowsLocalDays(Firing(first, 0), offset) <==> 0 <= (hour * 60 + minute) * 60 - offset < 86_400;
  }
}
