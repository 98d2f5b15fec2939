/** The record codec: one comma-separated line per entry, `'\n'` after each. */
module DataSerializer {
  import opened Wrappers
  import opened Strings
  import opened Timestamps
  import opened Categories
  import opened Records

  /** Why a line could not be read back: `InvalidValue` is a `DeserializationException` (the line
      does not have two or three fields); `InvalidTimestamp` is the `FormatException` of
      `DateTimeOffset.Parse` on a timestamp field. */
  datatype DeserializeError = InvalidValue | InvalidTimestamp

  /** `SerializeValue(value)`: start and end in the fixed pattern, then the category's name when
      there is a category. */
  function SerializeValue(value: TimeTrackerData): (line: string)
    ensures |line| == 2 * FormattedLength + 1
                      + (if value.category.Some? then 1 + |value.category.value.name| else 0)
  {
    var startTime := Timestamps.Format(value.startTime);
    var endTime := Timestamps.Format(value.endTime);
    match value.category
    case None => startTime + "," + endTime
    case Some(c) => startTime + "," + endTime + "," + c.name
  }

  /** An entry built from two timestamp fields, or the `FormatException` of the first that does
      not parse. */
  function FromFields(start: string, end: string, category: Option<TrackedDataCategory>): (r: Result<TimeTrackerData, DeserializeError>)
    ensures r.Ok? <==> Parse(start).Some? && Parse(end).Some?
    ensures r.Ok? ==> r.value == TimeTrackerData(Parse(start).value, Parse(end).value, category)
    ensures r.Err? ==> r.error == InvalidTimestamp
  {
    match (Parse(start), Parse(end))
    case (Some(s), Some(e)) => Ok(TimeTrackerData(s, e, category))
    case _ => Err(InvalidTimestamp)
  }

  /** `DeserializeValue(value, categoryMaxLength)`: two fields give an entry without category,
      three give one whose category is the third field cut to `categoryMaxLength` characters,
      any other number of fields is a `DeserializationException`. */
  function DeserializeValue(value: string, categoryMaxLength: nat): (r: Result<TimeTrackerData, DeserializeError>)
    ensures var n := |Split(value, ',')|; (n != 2 && n != 3) <==> r == Err(InvalidValue)
    ensures var n := |Split(value, ',')|; (n == 2 || n == 3) ==>
              (r.Ok? <==> Parse(Split(value, ',')[0]).Some? && Parse(Split(value, ',')[1]).Some?)
    ensures r.Err? ==> r.error == InvalidValue || r.error == InvalidTimestamp
    ensures r.Ok? ==> (Parse(Split(value, ',')[0]) == Some(r.value.startTime)
                    && Parse(Split(value, ',')[1]) == Some(r.value.endTime))
    ensures r.Ok? ==> (r.value.category.Some? <==> |Split(value, ',')| == 3)
    ensures r.Ok? && r.value.category.Some? ==>
              var name := r.value.category.value.name;
              && |name| <= categoryMaxLength && name <= Split(value, ',')[2]
              && (|Split(value, ',')[2]| <= categoryMaxLength ==> name == Split(value, ',')[2])
              && (|Split(value, ',')[2]| > categoryMaxLength ==> |name| == categoryMaxLength)
  {
    var pieces := Split(value, ',');
    if |pieces| == 2 then FromFields(pieces[0], pieces[1], None)
    else if |pieces| == 3 then
      var category := Truncate(pieces[2], categoryMaxLength);
      FromFields(pieces[0], pieces[1], Some(TrackedDataCategory(category)))
    else Err(InvalidValue)
  }

  /** The lines `Serialize` writes, one per entry in list order. */
  function SerializedLines(data: seq<TimeTrackerData>): seq<string> {
    Map(data, SerializeValue)
  }

  /** `f` applied to each element, in order. */
  function Map<A, B>(xs: seq<A>, f: A -> B): (ys: seq<B>)
    ensures |ys| == |xs| && forall i :: 0 <= i < |xs| ==> ys[i] == f(xs[i])
  {
    seq(|xs|, i requires 0 <= i < |xs| => f(xs[i]))
  }

  lemma MapPrefix<A, B>(xs: seq<A>, i: nat, f: A -> B)
    requires i < |xs|
    ensures Map(xs[..i + 1], f) == Map(xs[..i], f) + [f(xs[i])]
  {
  }

  /** `Serialize(data)`: every entry's line followed by `'\n'`, appended in list order. */
  method Serialize(data: seq<TimeTrackerData>) returns (result: string)
    ensures result == Terminated(SerializedLines(data))
  {
    result := "";
    var i := 0;
    while i < |data|
      invariant 0 <= i <= |data|
      invariant result == Terminated(SerializedLines(data[..i]))
    {
      MapPrefix(data, i, SerializeValue);
      TerminatedAppend(SerializedLines(data[..i]), SerializeValue(data[i]));
      result := result + SerializeValue(data[i]) + "\n";
      i := i + 1;
    }
    assert data[..i] == data;
  }

  /** A category name one line carries unchanged: no field separator, and within the length
      the reader keeps. */
  predicate NameReadsBack(value: TimeTrackerData, categoryMaxLength: nat) {
    value.category.Some? ==>
      var name := value.category.value.name;
      ',' !in name && |name| <= categoryMaxLength
  }

  /** A category name without a line break, so that the entry's line is one line of the file. */
  predicate SingleLine(value: TimeTrackerData) {
    value.category.Some? ==> '\n' !in value.category.value.name
  }

  /** A category name the file format carries unchanged. */
  predicate Storable(value: TimeTrackerData, categoryMaxLength: nat) {
    NameReadsBack(value, categoryMaxLength) && SingleLine(value)
  }

  /** The fields of a serialized line. */
  lemma SerializeValueFields(value: TimeTrackerData)
    requires value.category.Some? ==> ',' !in value.category.value.name
    ensures value.category.None? ==>
              Split(SerializeValue(value), ',') == [Timestamps.Format(value.startTime), Timestamps.Format(value.endTime)]
    ensures value.category.Some? ==>
              Split(SerializeValue(value), ',')
              == [Timestamps.Format(value.startTime), Timestamps.Format(value.endTime), value.category.value.name]
  {
    if value.category.Some? {
      CategoryFields(value);
      SplitNoSeparator(value.category.value.name, ',');
    } else {
      var s, e := Timestamps.Format(value.startTime), Timestamps.Format(value.endTime);
      NoComma(value.startTime);
      NoComma(value.endTime);
      assert SerializeValue(value) == s + [','] + e;
      SplitTwo(s, ',', e);
    }
  }

  lemma NoComma(d: DateTimeOffset)
    ensures ',' !in Timestamps.Format(d) && '\n' !in Timestamps.Format(d)
  {
    FormatChars(d);
  }

  /** Reading a serialized line gives back the entry, for every entry whose category name has
      no comma and fits the maximum length. */
  lemma RoundTrip(value: TimeTrackerData, categoryMaxLength: nat)
    requires NameReadsBack(value, categoryMaxLength)
    ensures DeserializeValue(SerializeValue(value), categoryMaxLength) == Ok(value)
  {
    var start, end := Timestamps.Format(value.startTime), Timestamps.Format(value.endTime);
    SerializeValueFields(value);
    FromFormattedFields(value);
    if value.category.Some? {
      assert Truncate(value.category.value.name, categoryMaxLength) == value.category.value.name;
    }
  }

  lemma FromFormattedFields(value: TimeTrackerData)
    ensures FromFields(Timestamps.Format(value.startTime), Timestamps.Format(value.endTime), value.category) == Ok(value)
  {
    FormatParse(value.startTime);
    FormatParse(value.endTime);
  }

  /** An empty third field gives a category named `""`, not a missing category. */
  lemma EmptyCategoryField(startTime: DateTimeOffset, endTime: DateTimeOffset, categoryMaxLength: nat)
    ensures DeserializeValue(Timestamps.Format(startTime) + "," + Timestamps.Format(endTime) + ",", categoryMaxLength)
         == Ok(TimeTrackerData(startTime, endTime, Some(TrackedDataCategory(""))))
  {
    var value := TimeTrackerData(startTime, endTime, Some(TrackedDataCategory("")));
    assert SerializeValue(value) == Timestamps.Format(startTime) + "," + Timestamps.Format(endTime) + ",";
    RoundTrip(value, categoryMaxLength);
  }

  /** A name with a comma in it does not survive: its line has more than three fields and is
      refused as a whole. */
  lemma CommaInNameRejected(value: TimeTrackerData, categoryMaxLength: nat)
    requires value.category.Some? && ',' in value.category.value.name
    ensures |Split(SerializeValue(value), ',')| > 3
    ensures DeserializeValue(SerializeValue(value), categoryMaxLength) == Err(InvalidValue)
  {
    var name := value.category.value.name;
    CategoryFields(value);
    SplitJoin(name, ',');
    CountPositive(name, ',');
  }

  lemma CategoryFields(value: TimeTrackerData)
    requires value.category.Some?
    ensures Split(SerializeValue(value), ',')
         == [Timestamps.Format(value.startTime), Timestamps.Format(value.endTime)] + Split(value.category.value.name, ',')
  {
    var s, e, name := Timestamps.Format(value.startTime), Timestamps.Format(value.endTime), value.category.value.name;
    NoComma(value.startTime);
    NoComma(value.endTime);
    CategoryLine(value);
    ThreeFields(s, e, name);
  }

  lemma ThreeFields(s: string, e: string, name: string)
    requires ',' !in s && ',' !in e
    ensures Split(s + [','] + (e + [','] + name), ',') == [s, e] + Split(name, ',')
  {
    SplitAround(s, ',', e + [','] + name);
    SplitAround(e, ',', name);
  }

  lemma CategoryLine(value: TimeTrackerData)
    requires value.category.Some?
    ensures SerializeValue(value)
         == Timestamps.Format(value.startTime) + [','] + (Timestamps.Format(value.endTime) + [','] + value.category.value.name)
  {
  }

  lemma {:induction false} CountPositive(s: string, c: char)
    requires c in s
    ensures Count(s, c) >= 1
  {
    if s[0] != c {
      assert c in s[1..];
      CountPositive(s[1..], c);
    }
  }

  /** The entry lines of entries whose names hold no line break hold none either. */
  lemma LinesWithoutBreaks(data: seq<TimeTrackerData>)
    requires forall i :: 0 <= i < |data| ==> SingleLine(data[i])
    ensures forall k :: 0 <= k < |data| ==> '\n' !in SerializedLines(data)[k]
  {
    forall k | 0 <= k < |data|
      ensures '\n' !in SerializedLines(data)[k]
    {
      NoBreak(data[k]);
    }
  }

  lemma NoBreak(value: TimeTrackerData)
    requires SingleLine(value)
    ensures '\n' !in SerializeValue(value)
  {
    NoComma(value.startTime);
    NoComma(value.endTime);
  }

  /** The whole text holds exactly one `'\n'` per entry, and reading its lines gives back each
      entry's line in order. */
  lemma SerializedText(data: seq<TimeTrackerData>)
    requires forall i :: 0 <= i < |data| ==> SingleLine(data[i])
    ensures Count(Terminated(SerializedLines(data)), '\n') == |data|
    ensures Lines(Terminated(SerializedLines(data))) == SerializedLines(data)
  {
    LinesWithoutBreaks(data);
    LinesTerminated(SerializedLines(data));
    SplitTerminated(SerializedLines(data));
    SplitJoin(Terminated(SerializedLines(data)), '\n');
  }

  /** An empty list serializes to the empty text. */
  lemma SerializeEmpty()
    ensures Terminated(SerializedLines([])) == ""
  {
  }
}
