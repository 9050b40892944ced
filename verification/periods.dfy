/**
 * The period calculator of domain/model/Period.kt.
 *
 * An instant is a count of seconds since 1970-01-01T00:00:00Z. The UTC
 * calendar day of instant t is t / 86400 (Dafny's division is Euclidean,
 * which for a positive divisor is the floor, so instants before 1970 fall on
 * the right day too) and its time of day is t % 86400. Day 0 was a Thursday.
 */
module Periods {

  datatype Period = Daytime | Nighttime | Weekend

  const SecondsPerHour: int := 3600
  const SecondsPerDay: int := 86400
  /** 06:00 and 18:00 as seconds after midnight. */
  const SixAm: int := 6 * SecondsPerHour
  const SixPm: int := 18 * SecondsPerHour

  /** The UTC calendar day of instant t, counted from 1970-01-01. */
  function EpochDay(t: int): int {
    t / SecondsPerDay
  }

  /** The UTC time of day of instant t, in seconds after midnight. */
  function TimeOfDay(t: int): (s: int)
    ensures 0 <= s < SecondsPerDay
  {
    t % SecondsPerDay
  }

  /** The instant at time of day s on calendar day d. */
  function At(d: int, s: int): int {
    d * SecondsPerDay + s
  }

  /** Day of the week of calendar day d: 0 is Monday, 5 Saturday, 6 Sunday. */
  function DayOfWeek(d: int): (w: int)
    ensures 0 <= w < 7
  {
    (d + 3) % 7
  }

  predicate IsWeekendDay(d: int) {
    DayOfWeek(d) == 5 || DayOfWeek(d) == 6
  }

  /** A half-open interval of instants [start, end). */
  datatype Window = Window(start: int, end: int) {
    predicate Contains(t: int) {
      start <= t < end
    }
  }

  /** Classifies an instant (Period.kt `getPeriod`). */
  function GetPeriod(t: int): (p: Period)
    ensures CalculatePeriodRange(p, t).Contains(t)
  {
    if IsWeekendDay(EpochDay(t)) then Weekend
    else if SixAm <= TimeOfDay(t) < SixPm then Daytime
    else Nighttime
  }

  /** The aggregation window of a period around an instant (Period.kt `calculatePeriodRange`). */
  function CalculatePeriodRange(p: Period, t: int): (w: Window)
    ensures w.start < w.end
    ensures w.end - w.start == if p == Weekend then SecondsPerDay else 12 * SecondsPerHour
  {
    var d := EpochDay(t);
    match p
    case Daytime => Window(At(d, SixAm), At(d, SixPm))
    case Nighttime =>
      if SixPm <= TimeOfDay(t) then Window(At(d, SixPm), At(d + 1, SixAm))
      else Window(At(d - 1, SixPm), At(d, SixAm))
    case Weekend => Window(At(d, 0), At(d + 1, 0))
  }

  /** Splitting an instant into day and time of day undoes At. */
  lemma AtSplits(d: int, s: int)
    requires 0 <= s < SecondsPerDay
    ensures EpochDay(At(d, s)) == d && TimeOfDay(At(d, s)) == s
  {
  }

  /** Every instant is At(its day, its time of day). */
  lemma AtOfSplit(t: int)
    ensures t == At(EpochDay(t), TimeOfDay(t))
  {
  }

  /** Any instant of a Saturday or a Sunday is WEEKEND, whatever its time of day. */
  lemma {:induction false} WeekendWholeDay(d: int, s: int)
    requires IsWeekendDay(d) && 0 <= s < SecondsPerDay
    ensures GetPeriod(At(d, s)) == Weekend
  {
    AtSplits(d, s);
  }

  /** On Monday to Friday, [06:00, 18:00) is DAYTIME and every other time of day is NIGHTTIME. */
  lemma {:induction false} WeekdayClassification(d: int, s: int)
    requires !IsWeekendDay(d) && 0 <= s < SecondsPerDay
    ensures GetPeriod(At(d, s)) == if SixAm <= s < SixPm then Daytime else Nighttime
  {
    AtSplits(d, s);
  }

  /** The DAYTIME window of any instant of day d is [d 06:00, d 18:00). */
  lemma {:induction false} DaytimeWindow(d: int, s: int)
    requires 0 <= s < SecondsPerDay
    ensures CalculatePeriodRange(Daytime, At(d, s)) == Window(At(d, SixAm), At(d, SixPm))
  {
    AtSplits(d, s);
  }

  /**
   * The NIGHTTIME window spans midnight: from 18:00 on it is
   * [d 18:00, d+1 06:00), before 18:00 it is [d-1 18:00, d 06:00).
   */
  lemma {:induction false} NighttimeWindow(d: int, s: int)
    requires 0 <= s < SecondsPerDay
    ensures CalculatePeriodRange(Nighttime, At(d, s)) ==
      if SixPm <= s then Window(At(d, SixPm), At(d + 1, SixAm))
      else Window(At(d - 1, SixPm), At(d, SixAm))
  {
    AtSplits(d, s);
  }

  /** The WEEKEND window is the single calendar day [d 00:00, d+1 00:00), not the whole weekend. */
  lemma {:induction false} WeekendWindow(d: int, s: int)
    requires 0 <= s < SecondsPerDay
    ensures CalculatePeriodRange(Weekend, At(d, s)) == Window(At(d, 0), At(d + 1, 0))
  {
    AtSplits(d, s);
  }

  /**
   * Windows of one period do not overlap: every instant inside the window of
   * period p around t has that same window. So the windows of a period
   * partition the time line and a running sum per window is well defined.
   */
  lemma {:induction false} WindowIsStable(p: Period, t: int, u: int)
    requires CalculatePeriodRange(p, t).Contains(u)
    ensures CalculatePeriodRange(p, u) == CalculatePeriodRange(p, t)
  {
    var d, e := EpochDay(t), EpochDay(u);
    AtOfSplit(t);
    AtOfSplit(u);
    match p
    case Daytime =>
      assert At(d, SixAm) <= u < At(d, SixPm);
      assert e == d by { AtSplits(d, u - At(d, 0)); }
    case Weekend =>
      assert e == d by { AtSplits(d, u - At(d, 0)); }
    case Nighttime =>
      if SixPm <= TimeOfDay(t) {
        assert At(d, SixPm) <= u < At(d + 1, SixAm);
        if u < At(d + 1, 0) {
          AtSplits(d, u - At(d, 0));
        } else {
          AtSplits(d + 1, u - At(d + 1, 0));
        }
      } else {
        assert At(d - 1, SixPm) <= u < At(d, SixAm);
        if u < At(d, 0) {
          AtSplits(d - 1, u - At(d - 1, 0));
        } else {
          AtSplits(d, u - At(d, 0));
        }
      }
  }

  /** 22:00 on day d and 02:00 on day d+1 share one NIGHTTIME window: one night is one window. */
  lemma {:induction false} OneNightOneWindow(d: int)
    ensures CalculatePeriodRange(Nighttime, At(d, 22 * SecondsPerHour))
         == CalculatePeriodRange(Nighttime, At(d + 1, 2 * SecondsPerHour))
         == Window(At(d, SixPm), At(d + 1, SixAm))
  {
    NighttimeWindow(d, 22 * SecondsPerHour);
    NighttimeWindow(d + 1, 2 * SecondsPerHour);
  }

  /** 2024-08-26T00:00:00Z, a Monday. */
  const Monday20240826: int := 1724630400
  /** 2024-08-24T00:00:00Z, a Saturday. */
  const Saturday20240824: int := 1724457600

  /** The classification boundaries exercised on 2024-08-24/25/26. */
  lemma ClassificationExamples()
    ensures GetPeriod(Monday20240826 + 5 * SecondsPerHour + 59 * 60 + 59) == Nighttime
    ensures GetPeriod(Monday20240826 + SixAm) == Daytime
    ensures GetPeriod(Monday20240826 + 17 * SecondsPerHour + 59 * 60 + 59) == Daytime
    ensures GetPeriod(Monday20240826 + SixPm) == Nighttime
    ensures GetPeriod(Saturday20240824 + 12 * SecondsPerHour) == Weekend
    ensures GetPeriod(Saturday20240824 + SecondsPerDay + 12 * SecondsPerHour) == Weekend
    ensures GetPeriod(Monday20240826) == Nighttime
  {
  }

  /** The windows computed on 2024-08-24 and 2024-08-26. */
  lemma WindowExamples()
    ensures CalculatePeriodRange(Daytime, Monday20240826 + 10 * SecondsPerHour)
         == Window(Monday20240826 + SixAm, Monday20240826 + SixPm)
    ensures CalculatePeriodRange(Nighttime, Monday20240826 + 22 * SecondsPerHour)
         == Window(Monday20240826 + SixPm, Monday20240826 + SecondsPerDay + SixAm)
    ensures CalculatePeriodRange(Nighttime, Monday20240826 + 2 * SecondsPerHour)
         == Window(Monday20240826 - SecondsPerDay + SixPm, Monday20240826 + SixAm)
    ensures CalculatePeriodRange(Weekend, Saturday20240824 + 14 * SecondsPerHour)
         == Window(Saturday20240824, Saturday20240824 + SecondsPerDay)
  {
  }
}
