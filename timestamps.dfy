/** `DateTimeOffset` as the codec sees it: a Gregorian clock reading with a UTC offset, written
    and read in the fixed custom pattern `yyyy-MM-ddTHH:mm:ss.fffffffzzz`. */
module Timestamps {
  import opened Wrappers
  import opened Digits

  const TicksPerSecond: int := 10_000_000
  const TicksPerMinute: int := 600_000_000
  const TicksPerHour: int := 36_000_000_000
  const TicksPerDay: int := 864_000_000_000
  /** `DateTime.MaxValue.Ticks`: the last tick of 9999-12-31. */
  const MaxTicks: int := 3_155_378_975_999_999_999
  /** A `DateTimeOffset` offset lies within fourteen hours of UTC. */
  const MaxOffsetMinutes: int := 840
  /** Length of a timestamp written in the fixed pattern. */
  const FormattedLength: int := 33

  /** The components a `DateTimeOffset` decomposes into: the local clock reading (`fraction` is the
      tick count within the second, seven digits' worth) and the offset from UTC in minutes. */
  datatype DateTimeFields = DateTimeFields(
    year: int, month: int, day: int,
    hour: int, minute: int, second: int, fraction: int,
    offsetMinutes: int)

  predicate IsLeapYear(y: int) {
    y % 4 == 0 && (y % 100 != 0 || y % 400 == 0)
  }

  function DaysInMonth(y: int, m: int): int {
    if m == 2 then (if IsLeapYear(y) then 29 else 28)
    else if m == 4 || m == 6 || m == 9 || m == 11 then 30
    else 31
  }

  /** Days of the year `y` before the first of month `m`. */
  function DaysBeforeMonth(y: int, m: int): int
    requires 1 <= m <= 12
  {
    if m == 1 then 0 else DaysBeforeMonth(y, m - 1) + DaysInMonth(y, m - 1)
  }

  /** Days from 0001-01-01 to the first of January of year `y` in the proleptic Gregorian calendar. */
  function DaysBeforeYear(y: int): int {
    var p := y - 1;
    p * 365 + p / 4 - p / 100 + p / 400
  }

  /** The clock reading in ticks since 0001-01-01T00:00, as `DateTimeOffset.DateTime.Ticks`. */
  function ClockTicks(d: DateTimeFields): int
    requires 1 <= d.month <= 12
  {
    (DaysBeforeYear(d.year) + DaysBeforeMonth(d.year, d.month) + d.day - 1) * TicksPerDay
    + d.hour * TicksPerHour + d.minute * TicksPerMinute + d.second * TicksPerSecond + d.fraction
  }

  /** The instant in UTC ticks, as `DateTimeOffset.UtcTicks`: the clock reading minus the offset. */
  function UtcTicks(d: DateTimeFields): int
    requires 1 <= d.month <= 12
  {
    ClockTicks(d) - d.offsetMinutes * TicksPerMinute
  }

  /** The components of a value `DateTimeOffset` can hold: a real calendar date in years 1 to 9999,
      a time of day, a whole-minute offset of at most fourteen hours, and a UTC instant in range. */
  predicate IsValid(d: DateTimeFields) {
    && 1 <= d.year <= 9999 && 1 <= d.month <= 12 && 1 <= d.day <= DaysInMonth(d.year, d.month)
    && 0 <= d.hour < 24 && 0 <= d.minute < 60 && 0 <= d.second < 60
    && 0 <= d.fraction < TicksPerSecond
    && -MaxOffsetMinutes <= d.offsetMinutes <= MaxOffsetMinutes
    && 0 <= UtcTicks(d) <= MaxTicks
  }

  type DateTimeOffset = d: DateTimeFields | IsValid(d)
    witness DateTimeFields(1, 1, 1, 0, 0, 0, 0, 0)

  /** `DateTimeOffset.MinValue`, the value of an unassigned `DateTimeOffset` field. */
  const MinValue: DateTimeOffset := DateTimeFields(1, 1, 1, 0, 0, 0, 0, 0)

  /** `a.Subtract(b)` in ticks: the distance between the two instants, whatever their offsets. */
  function Subtract(a: DateTimeOffset, b: DateTimeOffset): int {
    UtcTicks(a) - UtcTicks(b)
  }

  predicate IsPatternChar(c: char) {
    IsDigit(c) || c == '-' || c == 'T' || c == ':' || c == '.' || c == '+'
  }

  /** `zzz`: the sign, then two-digit hours and minutes of the offset. */
  function FormatOffset(minutes: int): string {
    var a := if minutes < 0 then -minutes else minutes;
    (if minutes < 0 then "-" else "+") + PadDigits(a / 60, 2) + ":" + PadDigits(a % 60, 2)
  }

  /** `yyyy-MM-dd`. */
  function DatePart(year: nat, month: nat, day: nat): string {
    PadDigits(year, 4) + "-" + PadDigits(month, 2) + "-" + PadDigits(day, 2)
  }

  /** `HH:mm:ss.fffffff`. */
  function TimePart(hour: nat, minute: nat, second: nat, fraction: nat): string {
    PadDigits(hour, 2) + ":" + PadDigits(minute, 2) + ":" + PadDigits(second, 2)
    + "." + PadDigits(fraction, 7)
  }

  /** `ToString("yyyy-MM-ddTHH:mm:ss.fffffffzzz")`: always 33 characters, digits and the
      pattern's literals only (in particular no `','` and no line break). */
  function Format(d: DateTimeOffset): (s: string)
    ensures |s| == FormattedLength
  {
    DatePart(d.year, d.month, d.day) + "T" + TimePart(d.hour, d.minute, d.second, d.fraction)
    + FormatOffset(d.offsetMinutes)
  }

  predicate AllPatternChars(s: string) {
    forall k :: 0 <= k < |s| ==> IsPatternChar(s[k])
  }

  /** The formatted text holds digits and the pattern's literals only: in particular no `','`
      and no line break, so it can stand as a field of a comma-separated line. */
  lemma FormatChars(d: DateTimeOffset)
    ensures AllPatternChars(Format(d))
  {
    var date := DatePart(d.year, d.month, d.day);
    var time := TimePart(d.hour, d.minute, d.second, d.fraction);
    var offset := FormatOffset(d.offsetMinutes);
    DatePartChars(d.year, d.month, d.day);
    TimePartChars(d.hour, d.minute, d.second, d.fraction);
    OffsetChars(d.offsetMinutes);
    PatternConcat(date, "T");
    PatternConcat(date + "T", time);
    PatternConcat(date + "T" + time, offset);
  }

  lemma DatePartChars(year: nat, month: nat, day: nat)
    ensures AllPatternChars(DatePart(year, month, day))
  {
    var y, mo, dd := PadDigits(year, 4), PadDigits(month, 2), PadDigits(day, 2);
    DigitsPatternChars(y);
    DigitsPatternChars(mo);
    DigitsPatternChars(dd);
    PatternConcat(y, "-");
    PatternConcat(y + "-", mo);
    PatternConcat(y + "-" + mo, "-");
    PatternConcat(y + "-" + mo + "-", dd);
  }

  lemma TimePartChars(hour: nat, minute: nat, second: nat, fraction: nat)
    ensures AllPatternChars(TimePart(hour, minute, second, fraction))
  {
    var h, mi, se, f := PadDigits(hour, 2), PadDigits(minute, 2), PadDigits(second, 2), PadDigits(fraction, 7);
    DigitsPatternChars(h);
    DigitsPatternChars(mi);
    DigitsPatternChars(se);
    DigitsPatternChars(f);
    PatternConcat(h, ":");
    PatternConcat(h + ":", mi);
    PatternConcat(h + ":" + mi, ":");
    PatternConcat(h + ":" + mi + ":", se);
    PatternConcat(h + ":" + mi + ":" + se, ".");
    PatternConcat(h + ":" + mi + ":" + se + ".", f);
  }

  lemma OffsetChars(minutes: int)
    ensures AllPatternChars(FormatOffset(minutes))
  {
    var a := if minutes < 0 then -minutes else minutes;
    var sign := if minutes < 0 then "-" else "+";
    var oh, om := PadDigits(a / 60, 2), PadDigits(a % 60, 2);
    DigitsPatternChars(oh);
    DigitsPatternChars(om);
    PatternConcat(sign, oh);
    PatternConcat(sign + oh, ":");
    PatternConcat(sign + oh + ":", om);
  }

  lemma DigitsPatternChars(s: string)
    requires AllDigits(s)
    ensures AllPatternChars(s)
  {
    forall k | 0 <= k < |s|
      ensures IsPatternChar(s[k])
    {
      AllDigitsAt(s, k);
    }
  }

  lemma PatternConcat(a: string, b: string)
    requires AllPatternChars(a) && AllPatternChars(b)
    ensures AllPatternChars(a + b)
  {
    forall k | 0 <= k < |a + b|
      ensures IsPatternChar((a + b)[k])
    {
      if k >= |a| {
        assert (a + b)[k] == b[k - |a|];
      }
    }
  }

  /** The digit field of `s` from `i` to `j`, if it is all digits. */
  function Field(s: string, i: nat, j: nat): Option<nat>
    requires i <= j <= |s|
  {
    if AllDigits(s[i..j]) then Some(DigitsValue(s[i..j])) else None
  }

  /** Year, month and day read from `yyyy-MM-dd`. */
  function ParseDate(p: string): Option<(nat, nat, nat)>
    requires |p| == 10
  {
    var year, month, day := Field(p, 0, 4), Field(p, 5, 7), Field(p, 8, 10);
    if p[4] == '-' && p[7] == '-' && year.Some? && month.Some? && day.Some?
    then Some((year.value, month.value, day.value)) else None
  }

  /** Hour, minute, second and fraction read from `HH:mm:ss.fffffff`. */
  function ParseTime(p: string): Option<(nat, nat, nat, nat)>
    requires |p| == 16
  {
    var hour, minute, second, fraction := Field(p, 0, 2), Field(p, 3, 5), Field(p, 6, 8), Field(p, 9, 16);
    if p[2] == ':' && p[5] == ':' && p[8] == '.' && hour.Some? && minute.Some? && second.Some? && fraction.Some?
    then Some((hour.value, minute.value, second.value, fraction.value)) else None
  }

  /** The offset in minutes read from `zzz`, whose minutes must be below 60. */
  function ParseOffset(p: string): Option<int>
    requires |p| == 6
  {
    var hours, minutes := Field(p, 1, 3), Field(p, 4, 6);
    if (p[0] == '+' || p[0] == '-') && p[3] == ':' && hours.Some? && minutes.Some? && minutes.value < 60
    then
      var a := hours.value * 60 + minutes.value;
      Some(if p[0] == '-' then -a else a)
    else None
  }

  /** The components written in `s`, if `s` has the fixed pattern's shape (the values are not yet
      checked against the calendar). */
  function ParseFields(s: string): Option<DateTimeFields> {
    if |s| != FormattedLength || s[10] != 'T' then None
    else
      var date, time, offset := ParseDate(s[0..10]), ParseTime(s[11..27]), ParseOffset(s[27..33]);
      if date.None? || time.None? || offset.None? then None
      else
        Some(DateTimeFields(date.value.0, date.value.1, date.value.2,
                            time.value.0, time.value.1, time.value.2, time.value.3, offset.value))
  }

  /** `DateTimeOffset.Parse` on text in the fixed pattern: `None` (a `FormatException`) unless the
      text has the pattern's shape and denotes a valid `DateTimeOffset`. */
  function Parse(s: string): (r: Option<DateTimeOffset>)
    ensures r.Some? ==> |s| == FormattedLength
  {
    match ParseFields(s)
    case Some(d) => if IsValid(d) then Some(d) else None
    case None => None
  }

  /** `Parse` inverts `Format`: every `DateTimeOffset` survives being written and read back. */
  lemma FormatParse(d: DateTimeOffset)
    ensures Parse(Format(d)) == Some(d)
  {
    FormatParseFields(d);
  }

  lemma FormatParseFields(d: DateTimeOffset)
    ensures ParseFields(Format(d)) == Some(d)
  {
    var date := DatePart(d.year, d.month, d.day);
    var time := TimePart(d.hour, d.minute, d.second, d.fraction);
    var offset := FormatOffset(d.offsetMinutes);
    var s := Format(d);
    assert s == date + "T" + time + offset;
    FormatSlices(date, time, offset);
    ParseDatePart(d.year, d.month, d.day);
    ParseTimePart(d.hour, d.minute, d.second, d.fraction);
    ParseFormatOffset(d.offsetMinutes);
  }

  lemma ParseDatePart(year: nat, month: nat, day: nat)
    requires year < 10000 && month < 100 && day < 100
    ensures ParseDate(DatePart(year, month, day)) == Some((year, month, day))
  {
    var p := DatePart(year, month, day);
    FieldOf(p, 0, 4, year);
    FieldOf(p, 5, 7, month);
    FieldOf(p, 8, 10, day);
  }

  lemma ParseTimePart(hour: nat, minute: nat, second: nat, fraction: nat)
    requires hour < 100 && minute < 100 && second < 100 && fraction < Pow10(7)
    ensures ParseTime(TimePart(hour, minute, second, fraction)) == Some((hour, minute, second, fraction))
  {
    var hh, mm, ss, ff := PadDigits(hour, 2), PadDigits(minute, 2), PadDigits(second, 2), PadDigits(fraction, 7);
    var p := TimePart(hour, minute, second, fraction);
    TimeSlices(hh, mm, ss, ff);
    FieldOf(p, 0, 2, hour);
    FieldOf(p, 3, 5, minute);
    FieldOf(p, 6, 8, second);
    FieldOf(p, 9, 16, fraction);
  }

  lemma FormatSlices(date: string, time: string, offset: string)
    requires |date| == 10 && |time| == 16 && |offset| == 6
    ensures var s := date + "T" + time + offset;
      && |s| == FormattedLength && s[0..10] == date && s[10] == 'T' && s[11..27] == time && s[27..33] == offset
  {
  }

  lemma TimeSlices(hh: string, mm: string, ss: string, ff: string)
    requires |hh| == 2 && |mm| == 2 && |ss| == 2 && |ff| == 7
    ensures var p := hh + ":" + mm + ":" + ss + "." + ff;
      && p[0..2] == hh && p[2] == ':' && p[3..5] == mm && p[5] == ':'
      && p[6..8] == ss && p[8] == '.' && p[9..16] == ff
  {
  }

  lemma ParseFormatOffset(minutes: int)
    requires -MaxOffsetMinutes <= minutes <= MaxOffsetMinutes
    ensures ParseOffset(FormatOffset(minutes)) == Some(minutes)
  {
    var a := if minutes < 0 then -minutes else minutes;
    var sign := if minutes < 0 then "-" else "+";
    var hh, mm := PadDigits(a / 60, 2), PadDigits(a % 60, 2);
    var p := FormatOffset(minutes);
    assert p == sign + hh + ":" + mm;
    OffsetSlices(sign, hh, mm);
    assert Pow10(2) == 100;
    FieldOf(p, 1, 3, a / 60);
    FieldOf(p, 4, 6, a % 60);
    ParseOffsetOf(p, minutes < 0, a / 60, a % 60);
  }

  lemma ParseOffsetOf(p: string, negative: bool, hours: nat, minutes: nat)
    requires |p| == 6 && p[0] == (if negative then '-' else '+') && p[3] == ':'
    requires Field(p, 1, 3) == Some(hours) && Field(p, 4, 6) == Some(minutes) && minutes < 60
    ensures ParseOffset(p) == Some(if negative then -(hours * 60 + minutes) else hours * 60 + minutes)
  {
  }

  lemma OffsetSlices(sign: string, hh: string, mm: string)
    requires |sign| == 1 && |hh| == 2 && |mm| == 2
    ensures var p := sign + hh + ":" + mm;
      && p[0] == sign[0] && p[1..3] == hh && p[3] == ':' && p[4..6] == mm
  {
  }

  lemma FieldOf(s: string, i: nat, j: nat, n: nat)
    requires i <= j <= |s| && n < Pow10(j - i)
    requires s[i..j] == PadDigits(n, j - i)
    ensures Field(s, i, j) == Some(n)
  {
    PadDigitsValue(n, j - i);
  }
}
