/** A time tracker data entry: when tracking started and ended, and an optional category. */
module Records {
  import opened Wrappers
  import opened Timestamps
  import opened Categories
  import TimeSpanExtension

  /** `TimeTrackerData`: `StartTime` and `EndTime` are fixed at construction; `Category` may be
      `null` (`None`) and is reassigned through `WithCategory`. No order between start and end is
      required. */
  datatype TimeTrackerData = TimeTrackerData(
    startTime: DateTimeOffset,
    endTime: DateTimeOffset,
    category: Option<TrackedDataCategory>)

  /** `new TimeTrackerData(endTime, category)`: the entry starts at the clock reading `now`. */
  function Ending(now: DateTimeOffset, endTime: DateTimeOffset, category: Option<TrackedDataCategory>): (r: TimeTrackerData)
    ensures r.startTime == now && r.endTime == endTime && r.category == category
    ensures GetTimeElapsed(r) == Subtract(endTime, now)
  {
    TimeTrackerData(now, endTime, category)
  }

  /** `GetTimeElapsed()`: the time span from the start to the end instant. */
  function GetTimeElapsed(d: TimeTrackerData): (t: TimeSpanExtension.TimeSpan)
    ensures t == UtcTicks(d.endTime) - UtcTicks(d.startTime)
  {
    Subtract(d.endTime, d.startTime)
  }

  /** `TimeElapsed`: the elapsed time in the display format of durations, which shows a day
      count exactly when the entry lasts more than one day. */
  function TimeElapsed(d: TimeTrackerData): (s: string)
    ensures GetTimeElapsed(d) > TicksPerDay <==> 'd' in s
  {
    TimeSpanExtension.Format(GetTimeElapsed(d))
  }

  /** `Category = category`: only the category changes. */
  function WithCategory(d: TimeTrackerData, category: Option<TrackedDataCategory>): (r: TimeTrackerData)
    ensures r.startTime == d.startTime && r.endTime == d.endTime && r.category == category
    ensures GetTimeElapsed(r) == GetTimeElapsed(d)
  {
    d.(category := category)
  }

  /** The entry's elapsed time, read back from its display, is its whole seconds whenever the
      end is not before the start (apart from the two threshold values). */
  lemma TimeElapsedReadsBack(d: TimeTrackerData)
    requires UtcTicks(d.startTime) <= UtcTicks(d.endTime)
    requires GetTimeElapsed(d) != TicksPerHour && GetTimeElapsed(d) != TicksPerDay
    ensures TimeSpanExtension.DisplayedSeconds(TimeElapsed(d)) == Some(GetTimeElapsed(d) / TicksPerSecond)
  {
    TimeSpanExtension.FormatReadsBack(GetTimeElapsed(d));
  }

  /** Nothing orders the two instants: an entry that ends before it starts has a negative
      elapsed time, and swapping the instants negates it. */
  lemma NegativeElapsed(a: DateTimeOffset, b: DateTimeOffset, c: Option<TrackedDataCategory>)
    requires UtcTicks(b) < UtcTicks(a)
    ensures GetTimeElapsed(TimeTrackerData(a, b, c)) < 0
    ensures GetTimeElapsed(TimeTrackerData(a, b, c)) == -GetTimeElapsed(TimeTrackerData(b, a, c))
  {
  }

  /** Elapsed times of consecutive entries add up. */
  lemma ElapsedAdds(a: DateTimeOffset, b: DateTimeOffset, c: DateTimeOffset, category: Option<TrackedDataCategory>)
    ensures GetTimeElapsed(TimeTrackerData(a, b, category)) + GetTimeElapsed(TimeTrackerData(b, c, category))
         == GetTimeElapsed(TimeTrackerData(a, c, category))
  {
  }

  /** A negative entry does exist: one midnight ends a day before the next one starts. */
  lemma NegativeElapsedExample()
    ensures var a := DateTimeFields(2020, 1, 2, 0, 0, 0, 0, 0);
            var b := DateTimeFields(2020, 1, 1, 0, 0, 0, 0, 0);
            && IsValid(a) && IsValid(b)
            && GetTimeElapsed(TimeTrackerData(a, b, None)) == -TicksPerDay
  {
    var a := DateTimeFields(2020, 1, 2, 0, 0, 0, 0, 0);
    var b := DateTimeFields(2020, 1, 1, 0, 0, 0, 0, 0);
    assert UtcTicks(a) - UtcTicks(b) == TicksPerDay;
  }
}
