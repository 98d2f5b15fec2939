/** Durations and the two helpers the program adds to `System.TimeSpan`: a sum over a sequence and
    the display format used for elapsed times. */
module TimeSpanExtension {
  import opened Wrappers
  import opened Digits
  import opened Strings
  import opened Timestamps

  /** A `TimeSpan`, as its signed tick count. */
  type TimeSpan = int

  /** `new TimeSpan()`. */
  const Zero: TimeSpan := 0

  /** `source.Sum(selector)`: `Aggregate` from `Zero` adding `selector` of each element in order;
      a sum of durations none of which is negative is not negative. */
  function Sum<T>(source: seq<T>, selector: T -> TimeSpan): (total: TimeSpan)
    ensures (forall i :: 0 <= i < |source| ==> selector(source[i]) >= 0) ==> total >= 0
  {
    if |source| == 0 then Zero
    else Sum(source[..|source| - 1], selector) + selector(source[|source| - 1])
  }

  /** The sum of nothing is the zero duration, and each element adds its own selected value. */
  lemma SumSteps<T>(xs: seq<T>, x: T, selector: T -> TimeSpan)
    ensures Sum([], selector) == Zero
    ensures Sum(xs + [x], selector) == Sum(xs, selector) + selector(x)
  {
    assert (xs + [x])[..|xs|] == xs;
  }

  /** The sum of a concatenation is the sum of the sums. */
  lemma {:induction false} SumConcat<T>(xs: seq<T>, ys: seq<T>, selector: T -> TimeSpan)
    ensures Sum(xs + ys, selector) == Sum(xs, selector) + Sum(ys, selector)
  {
    if |ys| > 0 {
      var zs := xs + ys;
      assert zs[..|zs| - 1] == xs + ys[..|ys| - 1];
      SumConcat(xs, ys[..|ys| - 1], selector);
    } else {
      assert xs + ys == xs;
    }
  }

  /** Taking one element out of the sequence takes its value out of the sum. */
  lemma SumRemove<T>(ys: seq<T>, j: nat, selector: T -> TimeSpan)
    requires j < |ys|
    ensures Sum(ys, selector) == Sum(ys[..j] + ys[j + 1..], selector) + selector(ys[j])
  {
    var a, x, b := ys[..j], ys[j], ys[j + 1..];
    var ax := a + [x];
    SplitAt(ys, j);
    SumConcat(ax, b, selector);
    SumSteps(a, x, selector);
    SumConcat(a, b, selector);
  }

  lemma SplitAt<T>(ys: seq<T>, j: nat)
    requires j < |ys|
    ensures ys == (ys[..j] + [ys[j]]) + ys[j + 1..]
  {
    assert ys[..j] + [ys[j]] == ys[..j + 1];
    assert ys == ys[..j + 1] + ys[j + 1..];
  }

  /** The sum does not depend on the order of the elements. */
  lemma {:induction false} SumPermutation<T>(xs: seq<T>, ys: seq<T>, selector: T -> TimeSpan)
    requires multiset(xs) == multiset(ys)
    ensures Sum(xs, selector) == Sum(ys, selector)
  {
    if |xs| > 0 {
      var n := |xs| - 1;
      var j := RemoveMatching(xs, ys);
      var rest := ys[..j] + ys[j + 1..];
      SumPermutation(xs[..n], rest, selector);
      SumRemove(ys, j, selector);
      assert Sum(xs, selector) == Sum(xs[..n], selector) + selector(xs[n]);
    } else {
      assert |ys| == |multiset(ys)|;
    }
  }

  /** The last element of `xs` occurs in `ys` at some `j`, and removing it from both keeps the
      multisets equal. */
  lemma RemoveMatching<T>(xs: seq<T>, ys: seq<T>) returns (j: nat)
    requires |xs| > 0 && multiset(xs) == multiset(ys)
    ensures j < |ys| && ys[j] == xs[|xs| - 1]
    ensures multiset(xs[..|xs| - 1]) == multiset(ys[..j] + ys[j + 1..])
  {
    var n := |xs| - 1;
    assert xs[n] in multiset(ys);
    j :| 0 <= j < |ys| && ys[j] == xs[n];
    RemoveFromMultiset(xs, n);
    RemoveFromMultiset(ys, j);
    assert xs[..n] == xs[..n] + xs[n + 1..];
  }

  lemma RemoveFromMultiset<T>(ys: seq<T>, j: nat)
    requires j < |ys|
    ensures multiset(ys[..j] + ys[j + 1..]) == multiset(ys) - multiset{ys[j]}
  {
    assert ys == ys[..j] + [ys[j]] + ys[j + 1..];
  }

  function Magnitude(t: TimeSpan): nat {
    if t < 0 then -t else t
  }

  /** The whole seconds in the magnitude of `t` (custom `TimeSpan` formats print no sign). */
  function WholeSeconds(t: TimeSpan): nat {
    Magnitude(t) / TicksPerSecond
  }

  /** `TimeSpan.Seconds`, `Minutes`, `Hours` and `Days` on the magnitude: `(ticks / TicksPerHour) % 24`
      and its siblings, with each division by a product taken as repeated division. */
  function Seconds(t: TimeSpan): (s: nat)
    ensures s < 60
  {
    WholeSeconds(t) % 60
  }

  function Minutes(t: TimeSpan): (m: nat)
    ensures m < 60
  {
    (WholeSeconds(t) / 60) % 60
  }

  function Hours(t: TimeSpan): (h: nat)
    ensures h < 24
  {
    (WholeSeconds(t) / 60 / 60) % 24
  }

  function Days(t: TimeSpan): nat {
    WholeSeconds(t) / 60 / 60 / 24
  }

  /** `timeSpan.Format()`: `d\d\ hh\:mm\:ss` above one day, `h\:mm\:ss` above one hour, `m\:ss`
      otherwise. `TotalDays > 1` and `TotalHours > 1` are compared on ticks. */
  function Format(t: TimeSpan): (s: string)
    ensures t > TicksPerDay <==> 'd' in s
  {
    DisplaysWithoutDay(t);
    if t > TicksPerDay then DayDisplay(Days(t), Hours(t), Minutes(t), Seconds(t))
    else if t > TicksPerHour then HourDisplay(Hours(t), Minutes(t), Seconds(t))
    else MinuteDisplay(Minutes(t), Seconds(t))
  }

  /** Only the day branch writes the day unit `d`: the other fields are digits and `:`. */
  lemma DisplaysWithoutDay(t: TimeSpan)
    ensures 'd' !in MinuteDisplay(Minutes(t), Seconds(t))
    ensures 'd' !in HourDisplay(Hours(t), Minutes(t), Seconds(t))
    ensures 'd' in DayDisplay(Days(t), Hours(t), Minutes(t), Seconds(t))
  {
    var d, h, mm, ss := Decimal(Days(t)), Decimal(Hours(t)), PadDigits(Minutes(t), 2), PadDigits(Seconds(t), 2);
    DigitsExclude(Decimal(Minutes(t)), 'd');
    DigitsExclude(h, 'd');
    DigitsExclude(mm, 'd');
    DigitsExclude(ss, 'd');
    DigitsExclude(PadDigits(Hours(t), 2), 'd');
    assert DayDisplay(Days(t), Hours(t), Minutes(t), Seconds(t))[|d|] == 'd';
  }

  /** The `m\:ss` text of the given components. */
  function MinuteDisplay(minutes: nat, seconds: nat): string {
    Decimal(minutes) + ":" + PadDigits(seconds, 2)
  }

  predicate IsNumber(s: string) {
    |s| >= 1 && AllDigits(s)
  }

  /** A two-digit field (`hh`, `mm`, `ss`). */
  predicate IsField(s: string) {
    |s| == 2 && AllDigits(s)
  }

  /** A number without leading zeros, as the unpadded `d`, `h` and `m` specifiers write it. */
  predicate IsUnpadded(s: string) {
    IsNumber(s) && (|s| == 1 || s[0] != '0')
  }

  /** A two-digit field whose value is below `bound` (24 for hours, 60 for minutes and seconds). */
  predicate IsFieldBelow(s: string, bound: nat) {
    IsField(s) && DigitsValue(s) < bound
  }

  /** The `m:ss` shape: two `:`-separated fields, an unpadded minute count below 60 and a
      two-digit second count below 60. */
  predicate MinuteShape(s: string) {
    var f := Split(s, ':');
    |f| == 2 && IsUnpadded(f[0]) && DigitsValue(f[0]) < 60 && IsFieldBelow(f[1], 60)
  }

  /** The `h:mm:ss` shape: three `:`-separated fields, an unpadded hour count below 24 and
      two-digit minute and second counts below 60. */
  predicate HourShape(s: string) {
    var f := Split(s, ':');
    && |f| == 3 && IsUnpadded(f[0]) && DigitsValue(f[0]) < 24
    && IsFieldBelow(f[1], 60) && IsFieldBelow(f[2], 60)
  }

  /** The `Dd hh:mm:ss` shape: three `:`-separated fields whose head is not a plain number but an
      unpadded day count followed by `d`, a space and a two-digit hour count below 24; then
      two-digit minute and second counts below 60. */
  predicate DayShape(s: string) {
    var f := Split(s, ':');
    && |f| == 3 && !IsNumber(f[0]) && IsFieldBelow(f[1], 60) && IsFieldBelow(f[2], 60)
    && var parts := Split(f[0], ' ');
       && |parts| == 2 && |parts[0]| >= 1 && IsUnpadded(parts[0][..|parts[0]| - 1])
       && parts[0][|parts[0]| - 1] == 'd' && IsFieldBelow(parts[1], 24)
  }

  /** The unpadded field of `n` has no leading zero and denotes `n`. */
  lemma DecimalUnpadded(n: nat)
    ensures IsUnpadded(Decimal(n)) && DigitsValue(Decimal(n)) == n
  {
    DecimalCanonical(n);
    DecimalValue(n);
  }

  /** The two-digit field of a count below `bound` is a field below `bound`. */
  lemma PadFieldBelow(n: nat, bound: nat)
    requires n < bound <= 100
    ensures IsFieldBelow(PadDigits(n, 2), bound)
  {
    assert Pow10(2) == 100;
    PadDigitsValue(n, 2);
  }

  /** The whole hours written before the minutes: `h`, or `Dd hh` counting each day as 24 hours. */
  function DisplayedHours(head: string): Option<nat> {
    if IsNumber(head) then Some(DigitsValue(head))
    else
      var parts := Split(head, ' ');
      if |parts| == 2 && |parts[0]| >= 2 && parts[0][|parts[0]| - 1] == 'd'
         && IsNumber(parts[0][..|parts[0]| - 1]) && IsField(parts[1])
      then Some(DigitsValue(parts[0][..|parts[0]| - 1]) * 24 + DigitsValue(parts[1]))
      else None
  }

  /** The whole seconds a displayed duration stands for, read back from `m:ss`, `h:mm:ss` or
      `Dd hh:mm:ss` text; `None` for any other text. */
  function DisplayedSeconds(s: string): Option<nat> {
    var fields := Split(s, ':');
    if |fields| == 2 && IsNumber(fields[0]) && IsField(fields[1]) then
      Some(DigitsValue(fields[0]) * 60 + DigitsValue(fields[1]))
    else if |fields| == 3 && IsField(fields[1]) && IsField(fields[2]) then
      match DisplayedHours(fields[0])
      case None => None
      case Some(hours) => Some((hours * 60 + DigitsValue(fields[1])) * 60 + DigitsValue(fields[2]))
    else None
  }

  lemma DigitsExclude(s: string, c: char)
    requires AllDigits(s) && !IsDigit(c)
    ensures c !in s
  {
    if c in s {
      var k :| 0 <= k < |s| && s[k] == c;
      AllDigitsAt(s, k);
    }
  }

  /** Reading the display back gives the duration's whole seconds, except exactly on the strict
      thresholds: one hour shows as `0:00` and one day as `0:00:00`. */
  lemma FormatReadsBack(t: TimeSpan)
    requires t >= 0
    ensures t != TicksPerHour && t != TicksPerDay ==> DisplayedSeconds(Format(t)) == Some(t / TicksPerSecond)
    ensures t == TicksPerHour ==> Format(t) == "0:00"
    ensures t == TicksPerDay ==> Format(t) == "0:00:00"
  {
    if t > TicksPerDay {
      DayBranchReadsBack(t);
    } else if t > TicksPerHour {
      HourBranchReadsBack(t);
    } else {
      MinuteBranchReadsBack(t);
    }
  }

  /** The components of a non-negative duration make up its whole seconds. */
  lemma ComponentsMakeSeconds(t: TimeSpan)
    requires t >= 0
    ensures ((Days(t) * 24 + Hours(t)) * 60 + Minutes(t)) * 60 + Seconds(t) == t / TicksPerSecond
    ensures t < TicksPerDay ==> Days(t) == 0
    ensures t < TicksPerHour ==> Days(t) == 0 && Hours(t) == 0
  {
    var s := t / TicksPerSecond;
    var q1 := s / 60;
    var q2 := q1 / 60;
    var q3 := q2 / 24;
    assert s == 60 * q1 + Seconds(t);
    assert q1 == 60 * q2 + Minutes(t);
    assert q2 == 24 * q3 + Hours(t);
    assert t < TicksPerDay ==> s < 86400;
    assert t < TicksPerHour ==> s < 3600;
  }

  /** Reading `m:ss`. */
  lemma ReadMinutesSeconds(m: string, ss: string)
    requires IsNumber(m) && IsField(ss)
    ensures DisplayedSeconds(m + [':'] + ss) == Some(DigitsValue(m) * 60 + DigitsValue(ss))
    ensures Split(m + [':'] + ss, ':') == [m, ss]
  {
    DigitsExclude(m, ':');
    DigitsExclude(ss, ':');
    SplitTwo(m, ':', ss);
  }

  /** Reading `h:mm:ss`, where `h` is hours in either form `DisplayedHours` reads. */
  lemma ReadHoursMinutesSeconds(head: string, mm: string, ss: string, hours: nat)
    requires DisplayedHours(head) == Some(hours) && ':' !in head && IsField(mm) && IsField(ss)
    ensures DisplayedSeconds(head + [':'] + mm + [':'] + ss)
         == Some((hours * 60 + DigitsValue(mm)) * 60 + DigitsValue(ss))
    ensures Split(head + [':'] + mm + [':'] + ss, ':') == [head, mm, ss]
  {
    DigitsExclude(mm, ':');
    DigitsExclude(ss, ':');
    SplitThree(head, ':', mm, ss);
    var fields := Split(head + [':'] + mm + [':'] + ss, ':');
    assert |fields| == 3 && fields[0] == head && fields[1] == mm && fields[2] == ss;
  }

  /** Reading `Dd hh` as hours. */
  lemma ReadDaysHours(d: string, hh: string)
    requires IsNumber(d) && IsField(hh)
    ensures DisplayedHours(d + "d " + hh) == Some(DigitsValue(d) * 24 + DigitsValue(hh))
    ensures ':' !in d + "d " + hh
  {
    DaysHoursSplit(d, hh);
    DaysHoursNoColon(d, hh);
  }

  lemma DaysHoursSplit(d: string, hh: string)
    requires IsNumber(d) && IsField(hh)
    ensures !IsNumber(d + "d " + hh)
    ensures Split(d + "d " + hh, ' ') == [d + "d", hh]
  {
    var day := d + "d";
    assert d + "d " + hh == day + [' '] + hh;
    DigitsExclude(d, ' ');
    DigitsExclude(hh, ' ');
    SplitTwo(day, ' ', hh);
    DigitsNotAt(d + "d " + hh, |d|);
  }

  lemma DaysHoursNoColon(d: string, hh: string)
    requires IsNumber(d) && IsField(hh)
    ensures ':' !in d + "d " + hh
  {
    DigitsExclude(d, ':');
    DigitsExclude(hh, ':');
  }

  lemma DigitsNotAt(s: string, k: nat)
    requires k < |s| && !IsDigit(s[k])
    ensures !AllDigits(s)
  {
    if AllDigits(s) {
      AllDigitsAt(s, k);
    }
  }

  /** Up to one hour the display is `m:ss`: an unpadded minute count below 60 and a two-digit
      second count below 60. */
  lemma MinuteBranchReadsBack(t: TimeSpan)
    requires 0 <= t <= TicksPerHour
    ensures t < TicksPerHour ==> DisplayedSeconds(Format(t)) == Some(t / TicksPerSecond)
    ensures t == TicksPerHour ==> Format(t) == "0:00"
    ensures MinuteShape(Format(t))
  {
    assert Format(t) == MinuteDisplay(Minutes(t), Seconds(t));
    ReadMinuteDisplay(Minutes(t), Seconds(t));
    MinuteDisplayShape(Minutes(t), Seconds(t));
    if t < TicksPerHour {
      ComponentsMakeSeconds(t);
    } else {
      ThresholdExample(t);
      MinuteZeroDisplay();
    }
  }

  /** Above one hour, up to one day, the display is `h:mm:ss`: an unpadded hour count below 24,
      with no day count, and two-digit minute and second counts below 60. */
  lemma HourBranchReadsBack(t: TimeSpan)
    requires TicksPerHour < t <= TicksPerDay
    ensures t < TicksPerDay ==> DisplayedSeconds(Format(t)) == Some(t / TicksPerSecond)
    ensures t == TicksPerDay ==> Format(t) == "0:00:00"
    ensures HourShape(Format(t))
  {
    assert Format(t) == HourDisplay(Hours(t), Minutes(t), Seconds(t));
    ReadHourDisplay(Hours(t), Minutes(t), Seconds(t));
    HourDisplayShape(Hours(t), Minutes(t), Seconds(t));
    if t < TicksPerDay {
      ComponentsMakeSeconds(t);
    } else {
      DayThresholdExample(t);
      HourZeroDisplay();
    }
  }

  /** Above one day the display is `Dd hh:mm:ss`: its head before the first `:` is not a plain
      number but the unpadded day count, `d`, a space and two hour digits below 24, followed by
      two-digit minute and second counts below 60. */
  lemma DayBranchReadsBack(t: TimeSpan)
    requires t > TicksPerDay
    ensures DisplayedSeconds(Format(t)) == Some(t / TicksPerSecond)
    ensures DayShape(Format(t))
  {
    assert Format(t) == DayDisplay(Days(t), Hours(t), Minutes(t), Seconds(t));
    ReadDayDisplay(Days(t), Hours(t), Minutes(t), Seconds(t));
    DayDisplayShape(Days(t), Hours(t), Minutes(t), Seconds(t));
    ComponentsMakeSeconds(t);
  }

  /** The `h\:mm\:ss` text of the given components. */
  function HourDisplay(hours: nat, minutes: nat, seconds: nat): string {
    Decimal(hours) + ":" + PadDigits(minutes, 2) + ":" + PadDigits(seconds, 2)
  }

  /** The `d\d\ hh\:mm\:ss` text of the given components. */
  function DayDisplay(days: nat, hours: nat, minutes: nat, seconds: nat): string {
    Decimal(days) + "d " + PadDigits(hours, 2) + ":" + PadDigits(minutes, 2) + ":" + PadDigits(seconds, 2)
  }

  lemma ReadMinuteDisplay(minutes: nat, seconds: nat)
    requires seconds < 60
    ensures DisplayedSeconds(MinuteDisplay(minutes, seconds)) == Some(minutes * 60 + seconds)
  {
    var m, ss := Decimal(minutes), PadDigits(seconds, 2);
    DecimalValue(minutes);
    PadDigitsValue(seconds, 2);
    assert MinuteDisplay(minutes, seconds) == m + [':'] + ss;
    ReadMinutesSeconds(m, ss);
  }

  lemma ReadHourDisplay(hours: nat, minutes: nat, seconds: nat)
    requires minutes < 60 && seconds < 60
    ensures DisplayedSeconds(HourDisplay(hours, minutes, seconds)) == Some((hours * 60 + minutes) * 60 + seconds)
  {
    var h, mm, ss := Decimal(hours), PadDigits(minutes, 2), PadDigits(seconds, 2);
    DecimalValue(hours);
    PadDigitsValue(minutes, 2);
    PadDigitsValue(seconds, 2);
    DigitsExclude(h, ':');
    assert HourDisplay(hours, minutes, seconds) == h + [':'] + mm + [':'] + ss;
    ReadHoursMinutesSeconds(h, mm, ss, hours);
  }

  lemma ReadDayDisplay(days: nat, hours: nat, minutes: nat, seconds: nat)
    requires hours < 24 && minutes < 60 && seconds < 60
    ensures DisplayedSeconds(DayDisplay(days, hours, minutes, seconds))
         == Some(((days * 24 + hours) * 60 + minutes) * 60 + seconds)
  {
    var d, hh := Decimal(days), PadDigits(hours, 2);
    var mm, ss := PadDigits(minutes, 2), PadDigits(seconds, 2);
    DecimalValue(days);
    PadDigitsValue(hours, 2);
    PadDigitsValue(minutes, 2);
    PadDigitsValue(seconds, 2);
    var head := d + "d " + hh;
    ReadDaysHours(d, hh);
    assert DayDisplay(days, hours, minutes, seconds) == head + [':'] + mm + [':'] + ss;
    ReadHoursMinutesSeconds(head, mm, ss, days * 24 + hours);
  }

  lemma MinuteDisplayShape(minutes: nat, seconds: nat)
    requires minutes < 60 && seconds < 60
    ensures MinuteShape(MinuteDisplay(minutes, seconds))
  {
    var m, ss := Decimal(minutes), PadDigits(seconds, 2);
    DecimalUnpadded(minutes);
    PadFieldBelow(seconds, 60);
    DigitsExclude(m, ':');
    DigitsExclude(ss, ':');
    assert MinuteDisplay(minutes, seconds) == m + [':'] + ss;
    SplitTwo(m, ':', ss);
  }

  lemma HourDisplayShape(hours: nat, minutes: nat, seconds: nat)
    requires hours < 24 && minutes < 60 && seconds < 60
    ensures HourShape(HourDisplay(hours, minutes, seconds))
  {
    var h, mm, ss := Decimal(hours), PadDigits(minutes, 2), PadDigits(seconds, 2);
    DecimalUnpadded(hours);
    PadFieldBelow(minutes, 60);
    PadFieldBelow(seconds, 60);
    DigitsExclude(h, ':');
    DigitsExclude(mm, ':');
    DigitsExclude(ss, ':');
    assert HourDisplay(hours, minutes, seconds) == h + [':'] + mm + [':'] + ss;
    SplitThree(h, ':', mm, ss);
  }

  lemma DayDisplayShape(days: nat, hours: nat, minutes: nat, seconds: nat)
    requires hours < 24 && minutes < 60 && seconds < 60
    ensures DayShape(DayDisplay(days, hours, minutes, seconds))
  {
    var d, hh := Decimal(days), PadDigits(hours, 2);
    var mm, ss := PadDigits(minutes, 2), PadDigits(seconds, 2);
    var head := d + "d " + hh;
    DecimalUnpadded(days);
    PadFieldBelow(hours, 24);
    PadFieldBelow(minutes, 60);
    PadFieldBelow(seconds, 60);
    DaysHoursSplit(d, hh);
    DaysHoursNoColon(d, hh);
    DigitsExclude(mm, ':');
    DigitsExclude(ss, ':');
    assert (d + "d")[..|d|] == d;
    assert DayDisplay(days, hours, minutes, seconds) == head + [':'] + mm + [':'] + ss;
    SplitThree(head, ':', mm, ss);
  }

  /** The display of some typical durations: 61 s, 3661 s, 90000 s and exactly one hour. */
  lemma FormatExamples()
    ensures Format(61 * TicksPerSecond) == "1:01"
    ensures Format(3661 * TicksPerSecond) == "1:01:01"
    ensures Format(90000 * TicksPerSecond) == "1d 01:00:00"
    ensures Format(3600 * TicksPerSecond) == "0:00"
  {
    MinuteExample(61 * TicksPerSecond);
    HourExample(3661 * TicksPerSecond);
    DayExample(90000 * TicksPerSecond);
    ThresholdExample(3600 * TicksPerSecond);
    MinuteExampleDisplay();
    HourExampleDisplay();
    DayExampleDisplay();
    MinuteZeroDisplay();
  }

  lemma MinuteExample(t: TimeSpan)
    requires t == 61 * TicksPerSecond
    ensures Format(t) == MinuteDisplay(1, 1)
  {
    Components(t, 61);
    assert t <= TicksPerHour;
    assert Minutes(t) == 1 && Seconds(t) == 1;
  }

  lemma HourExample(t: TimeSpan)
    requires t == 3661 * TicksPerSecond
    ensures Format(t) == HourDisplay(1, 1, 1)
  {
    Components(t, 3661);
    assert TicksPerHour < t <= TicksPerDay;
    assert Hours(t) == 1 && Minutes(t) == 1 && Seconds(t) == 1;
  }

  lemma DayExample(t: TimeSpan)
    requires t == 90000 * TicksPerSecond
    ensures Format(t) == DayDisplay(1, 1, 0, 0)
  {
    Components(t, 90000);
    assert TicksPerDay < t;
    assert Days(t) == 1 && Hours(t) == 1 && Minutes(t) == 0 && Seconds(t) == 0;
  }

  lemma ThresholdExample(t: TimeSpan)
    requires t == 3600 * TicksPerSecond
    ensures Format(t) == MinuteDisplay(0, 0)
  {
    Components(t, 3600);
    assert t <= TicksPerHour;
    assert Minutes(t) == 0 && Seconds(t) == 0;
  }

  lemma DayThresholdExample(t: TimeSpan)
    requires t == 86400 * TicksPerSecond
    ensures Format(t) == HourDisplay(0, 0, 0)
  {
    Components(t, 86400);
    assert TicksPerHour < t <= TicksPerDay;
    assert Hours(t) == 0 && Minutes(t) == 0 && Seconds(t) == 0;
  }

  lemma Components(t: TimeSpan, w: nat)
    requires t == w * TicksPerSecond
    ensures WholeSeconds(t) == w
    ensures Seconds(t) == w % 60 && Minutes(t) == (w / 60) % 60
    ensures Hours(t) == (w / 3600) % 24 && Days(t) == w / 86400
  {
    assert WholeSeconds(t) == w;
    assert w / 60 / 60 == w / 3600;
    assert w / 3600 / 24 == w / 86400;
  }

  /** The text of the example components of 61 s. */
  lemma MinuteExampleDisplay()
    ensures MinuteDisplay(1, 1) == "1:01"
  {
    SmallPads();
    SmallDecimals();
  }

  /** The text of the example components of 3661 s. */
  lemma HourExampleDisplay()
    ensures HourDisplay(1, 1, 1) == "1:01:01"
  {
    SmallPads();
    SmallDecimals();
  }

  /** The text of the example components of 90000 s. */
  lemma DayExampleDisplay()
    ensures DayDisplay(1, 1, 0, 0) == "1d 01:00:00"
  {
    SmallPads();
    SmallDecimals();
  }

  /** The `m:ss` text of zero components, shown exactly at one hour. */
  lemma MinuteZeroDisplay()
    ensures MinuteDisplay(0, 0) == "0:00"
  {
    SmallPads();
    SmallDecimals();
  }

  /** The `h:mm:ss` text of zero components, shown exactly at one day. */
  lemma HourZeroDisplay()
    ensures HourDisplay(0, 0, 0) == "0:00:00"
  {
    SmallPads();
    SmallDecimals();
  }
}
