/** The rules of the main form, without its controls: the category text filter, the statistics,
    the used categories, the saved flag and the file commands that load and store the list. */
module MainForm {
  import opened Wrappers
  import opened Strings
  import opened Categories
  import opened Records
  import opened DataSerializer
  import opened Tracking
  import Timestamps
  import TimeSpanExtension

  /** `CATEGORY_MAXLENGTH`. */
  const CategoryMaxLength: nat := 255

  // ---------------------------------------------------------------- category text

  /** The characters the category filter keeps: `-`, `_`, `:`, space and the word characters
      `\w`, whose Unicode membership test is the parameter `isWord`. */
  predicate Allowed(c: char, isWord: char -> bool) {
    c == '-' || c == '_' || c == ':' || c == ' ' || isWord(c)
  }

  /** `Regex("[^-_: \\w]").Replace(text, "")`: every other character removed. */
  function RemoveDisallowed(text: string, isWord: char -> bool): (r: string)
    ensures |r| <= |text|
    ensures forall k :: 0 <= k < |r| ==> Allowed(r[k], isWord)
  {
    if |text| == 0 then ""
    else
      var last := text[|text| - 1];
      RemoveDisallowed(text[..|text| - 1], isWord) + (if Allowed(last, isWord) then [last] else "")
  }

  /** The filter works character by character: filtering a concatenation filters each part,
      so the kept characters stay in their order. */
  lemma {:induction false} RemoveDisallowedConcat(a: string, b: string, isWord: char -> bool)
    ensures RemoveDisallowed(a + b, isWord) == RemoveDisallowed(a, isWord) + RemoveDisallowed(b, isWord)
  {
    if |b| > 0 {
      assert (a + b)[..|a + b| - 1] == a + b[..|b| - 1];
      RemoveDisallowedConcat(a, b[..|b| - 1], isWord);
    } else {
      assert a + b == a;
    }
  }

  /** A single character is kept when it is allowed and removed otherwise; with
      `RemoveDisallowedConcat` this fixes the filter's result on every text. */
  lemma RemoveDisallowedSingle(c: char, isWord: char -> bool)
    ensures RemoveDisallowed([c], isWord) == (if Allowed(c, isWord) then [c] else "")
  {
    assert [c][..0] == "";
  }

  /** Text made of allowed characters only passes the filter unchanged. */
  lemma {:induction false} RemoveDisallowedKeeps(text: string, isWord: char -> bool)
    requires forall k :: 0 <= k < |text| ==> Allowed(text[k], isWord)
    ensures RemoveDisallowed(text, isWord) == text
  {
    if |text| > 0 {
      RemoveDisallowedKeeps(text[..|text| - 1], isWord);
    }
  }

  /** The category text after `TextUpdate`: the filtered text cut to `CATEGORY_MAXLENGTH`. */
  function Sanitize(text: string, isWord: char -> bool): (r: string)
    ensures |r| <= CategoryMaxLength
    ensures forall k :: 0 <= k < |r| ==> Allowed(r[k], isWord)
    ensures r <= RemoveDisallowed(text, isWord)
    ensures |RemoveDisallowed(text, isWord)| <= CategoryMaxLength ==> r == RemoveDisallowed(text, isWord)
    ensures |RemoveDisallowed(text, isWord)| > CategoryMaxLength ==> |r| == CategoryMaxLength
  {
    Truncate(RemoveDisallowed(text, isWord), CategoryMaxLength)
  }

  /** Sanitising again changes nothing. */
  lemma SanitizeIdempotent(text: string, isWord: char -> bool)
    ensures Sanitize(Sanitize(text, isWord), isWord) == Sanitize(text, isWord)
  {
    RemoveDisallowedKeeps(Sanitize(text, isWord), isWord);
  }

  /** As `\w` holds neither `,` nor a line break, neither survives the filter, and a category
      taken from the sanitised text, trimmed of spaces, is one the file format carries unchanged. */
  lemma SanitizedCategoryStorable(text: string, isWord: char -> bool, d: TimeTrackerData)
    requires !isWord(',') && !isWord('\n')
    requires d.category == Some(TrackedDataCategory(Trim(Sanitize(text, isWord), ' ')))
    ensures ',' !in Sanitize(text, isWord) && '\n' !in Sanitize(text, isWord)
    ensures Storable(d, CategoryMaxLength)
  {
    var s := Sanitize(text, isWord);
    NotAllowed(s, ',', isWord);
    NotAllowed(s, '\n', isWord);
    TrimSlice(s, ' ');
    var i, j :| 0 <= i <= j <= |s| && Trim(s, ' ') == s[i..j];
    SliceLacks(s, i, j, ',');
    SliceLacks(s, i, j, '\n');
  }

  lemma SliceLacks(s: string, i: nat, j: nat, c: char)
    requires i <= j <= |s| && c !in s
    ensures c !in s[i..j] && |s[i..j]| <= |s|
  {
    assert forall k :: 0 <= k < j - i ==> s[i..j][k] == s[i + k];
  }

  lemma NotAllowed(s: string, c: char, isWord: char -> bool)
    requires forall k :: 0 <= k < |s| ==> Allowed(s[k], isWord)
    requires !Allowed(c, isWord)
    ensures c !in s
  {
  }

  // ---------------------------------------------------------------- statistics

  /** `Where(predicate)`: the elements satisfying `p`, in their order, each as often as it
      occurs in `xs`. */
  function Where<T(!new)>(xs: seq<T>, p: T -> bool): (ys: seq<T>)
    ensures |ys| <= |xs|
    ensures forall y :: y in ys <==> y in xs && p(y)
    ensures forall y :: multiset(ys)[y] == if p(y) then multiset(xs)[y] else 0
  {
    if |xs| == 0 then []
    else
      var last := xs[|xs| - 1];
      assert xs == xs[..|xs| - 1] + [last];
      Where(xs[..|xs| - 1], p) + (if p(last) then [last] else [])
  }

  function Not<T>(p: T -> bool): T -> bool {
    x => !p(x)
  }

  /** Summing the elements that satisfy `p` and those that do not gives the sum of all. */
  lemma {:induction false} SumWherePartition<T(!new)>(xs: seq<T>, p: T -> bool, f: T -> TimeSpanExtension.TimeSpan)
    ensures TimeSpanExtension.Sum(xs, f)
         == TimeSpanExtension.Sum(Where(xs, p), f) + TimeSpanExtension.Sum(Where(xs, Not(p)), f)
  {
    if |xs| > 0 {
      var init, last := xs[..|xs| - 1], xs[|xs| - 1];
      SumWherePartition(init, p, f);
      SumOfSingle(last, p, f);
      SumOfSingle(last, Not(p), f);
      TimeSpanExtension.SumConcat(Where(init, p), if p(last) then [last] else [], f);
      TimeSpanExtension.SumConcat(Where(init, Not(p)), if Not(p)(last) then [last] else [], f);
    }
  }

  lemma SumOfSingle<T>(x: T, p: T -> bool, f: T -> TimeSpanExtension.TimeSpan)
    ensures TimeSpanExtension.Sum(if p(x) then [x] else [], f) == if p(x) then f(x) else 0
  {
    if p(x) {
      assert [x][..0] == [];
    }
  }

  /** The per-category filter: for no category, the entries without one; for a category, the
      entries whose category `Equals` it. */
  function InCategory(category: Option<TrackedDataCategory>): TimeTrackerData -> bool {
    (value: TimeTrackerData) =>
      if category.None? then value.category.None?
      else value.category.Some? && Categories.Equals(value.category.value, category)
  }

  /** No entry of the list ends before it starts. */
  predicate AllForward(data: seq<TimeTrackerData>) {
    forall i :: 0 <= i < |data| ==> GetTimeElapsed(data[i]) >= 0
  }

  /** `Data.Sum(value => value.GetTimeElapsed())`: the total statistic, never negative for a list
      of forward entries. */
  function TotalStatistic(data: seq<TimeTrackerData>): (t: TimeSpanExtension.TimeSpan)
    ensures AllForward(data) ==> t >= 0
  {
    TimeSpanExtension.Sum(data, GetTimeElapsed)
  }

  /** The category statistic of the selected entry's `category`: for forward entries, between
      zero and the total. */
  function CategoryStatistic(data: seq<TimeTrackerData>, category: Option<TrackedDataCategory>): (t: TimeSpanExtension.TimeSpan)
    ensures AllForward(data) ==> 0 <= t <= TotalStatistic(data)
  {
    var p := InCategory(category);
    SumWherePartition(data, p, GetTimeElapsed);
    WhereForward(data, p);
    WhereForward(data, Not(p));
    TimeSpanExtension.Sum(Where(data, p), GetTimeElapsed)
  }

  /** A selection from forward entries holds forward entries only. */
  lemma WhereForward(data: seq<TimeTrackerData>, p: TimeTrackerData -> bool)
    ensures AllForward(data) ==> AllForward(Where(data, p))
  {
    var ys := Where(data, p);
    if AllForward(data) {
      forall i | 0 <= i < |ys| ensures GetTimeElapsed(ys[i]) >= 0 {
        assert ys[i] in data;
      }
    }
  }

  /** The category statistic sums exactly the entries of that category: with no category the
      entries without one, with a category the entries carrying an equal one. */
  lemma CategoryStatisticSelects(data: seq<TimeTrackerData>, category: Option<TrackedDataCategory>, value: TimeTrackerData)
    ensures value in Where(data, InCategory(category)) <==> value in data && value.category == category
  {
  }

  /** A new entry adds its elapsed time to the statistic of its own category and leaves every
      other category's statistic as it was. */
  lemma CategoryStatisticAppend(data: seq<TimeTrackerData>, value: TimeTrackerData, category: Option<TrackedDataCategory>)
    ensures CategoryStatistic(data + [value], category)
         == CategoryStatistic(data, category) + (if value.category == category then GetTimeElapsed(value) else 0)
  {
    var p := InCategory(category);
    assert (data + [value])[..|data|] == data;
    SumOfSingle(value, p, GetTimeElapsed);
    TimeSpanExtension.SumConcat(Where(data, p), if p(value) then [value] else [], GetTimeElapsed);
  }

  /** The entries without category and those with one make up the total. */
  lemma TotalIsUncategorisedPlusCategorised(data: seq<TimeTrackerData>)
    ensures TotalStatistic(data)
         == CategoryStatistic(data, None) + TimeSpanExtension.Sum(Where(data, Not(InCategory(None))), GetTimeElapsed)
  {
    SumWherePartition(data, InCategory(None), GetTimeElapsed);
  }

  /** The total does not depend on the order of the list. */
  lemma TotalStatisticOrder(data: seq<TimeTrackerData>, other: seq<TimeTrackerData>)
    requires multiset(data) == multiset(other)
    ensures TotalStatistic(data) == TotalStatistic(other)
  {
    TimeSpanExtension.SumPermutation(data, other, GetTimeElapsed);
  }

  // ---------------------------------------------------------------- loading

  /** What the load loop leaves: the entries read, and the error that ended it if one did. */
  datatype Loaded = Loaded(records: seq<TimeTrackerData>, error: Option<DeserializeError>)

  /** A reader of one line: an entry or the reason it is not one. */
  type LineReader = string -> Result<TimeTrackerData, DeserializeError>

  /** The reader `Open` uses: `DeserializeValue` with the category length limit. */
  function Deserializer(categoryMaxLength: nat): LineReader {
    line => DeserializeValue(line, categoryMaxLength)
  }

  /** The load loop over `lines`: each line is read in turn and appended; the first line that
      cannot be read ends the loop, keeping what was read before it. */
  function Load(lines: seq<string>, read: LineReader): (l: Loaded)
    ensures |l.records| <= |lines|
  {
    if |lines| == 0 then Loaded([], None)
    else
      var previous := Load(lines[..|lines| - 1], read);
      if previous.error.Some? then previous
      else match read(lines[|lines| - 1])
      case Ok(value) => Loaded(previous.records + [value], None)
      case Err(e) => Loaded(previous.records, Some(e))
  }

  /** One more line: read and appended, or its error recorded, while no line has failed yet. */
  lemma LoadNext(lines: seq<string>, i: nat, read: LineReader)
    requires i < |lines| && Load(lines[..i], read).error.None?
    ensures read(lines[i]).Ok? ==>
              Load(lines[..i + 1], read) == Loaded(Load(lines[..i], read).records + [read(lines[i]).value], None)
    ensures read(lines[i]).Err? ==>
              Load(lines[..i + 1], read) == Loaded(Load(lines[..i], read).records, Some(read(lines[i]).error))
  {
    assert lines[..i + 1][..i] == lines[..i];
  }

  /** Once a line has failed, the lines after it are not read. */
  lemma {:induction false} LoadStops(lines: seq<string>, k: nat, read: LineReader)
    requires k <= |lines| && Load(lines[..k], read).error.Some?
    ensures Load(lines, read) == Load(lines[..k], read)
    decreases |lines| - k
  {
    if k < |lines| {
      var n := |lines|;
      assert lines[..n - 1][..k] == lines[..k];
      LoadStops(lines[..n - 1], k, read);
      assert lines[..n] == lines;
    } else {
      assert lines[..k] == lines;
    }
  }

  /** Lines that all read successfully load as their entries, in file order. */
  lemma {:induction false} LoadAllRead(lines: seq<string>, read: LineReader)
    requires forall i :: 0 <= i < |lines| ==> read(lines[i]).Ok?
    ensures Load(lines, read).error.None?
    ensures |Load(lines, read).records| == |lines|
    ensures forall i :: 0 <= i < |lines| ==> Load(lines, read).records[i] == read(lines[i]).value
  {
    if |lines| > 0 {
      var n := |lines|;
      var init := lines[..n - 1];
      assert forall i :: 0 <= i < |init| ==> init[i] == lines[i];
      LoadAllRead(init, read);
      var previous, value := Load(init, read), read(lines[n - 1]).value;
      assert Load(lines, read) == Loaded(previous.records + [value], None);
      forall i | 0 <= i < n
        ensures Load(lines, read).records[i] == read(lines[i]).value
      {
        if i < n - 1 {
          assert Load(lines, read).records[i] == previous.records[i];
        }
      }
    }
  }

  /** The first line that cannot be read ends the load with its error, after the entries of
      all lines before it. */
  lemma LoadFirstError(lines: seq<string>, j: nat, read: LineReader)
    requires j < |lines| && read(lines[j]).Err?
    requires forall i :: 0 <= i < j ==> read(lines[i]).Ok?
    ensures Load(lines, read) == Loaded(Load(lines[..j], read).records, Some(read(lines[j]).error))
    ensures Load(lines[..j], read).error.None? && |Load(lines[..j], read).records| == j
  {
    LoadAllRead(lines[..j], read);
    assert lines[..j + 1][..j] == lines[..j];
    LoadStops(lines, j + 1, read);
  }

  /** The lines written for entries whose names read back load back as exactly those
      entries. */
  lemma LoadSerialized(data: seq<TimeTrackerData>, categoryMaxLength: nat)
    requires forall i :: 0 <= i < |data| ==> NameReadsBack(data[i], categoryMaxLength)
    ensures Load(SerializedLines(data), Deserializer(categoryMaxLength)) == Loaded(data, None)
  {
    var read := Deserializer(categoryMaxLength);
    forall i | 0 <= i < |data|
      ensures read(SerializeValue(data[i])) == Ok(data[i])
    {
      RoundTrip(data[i], categoryMaxLength);
    }
    LoadWritten(data, SerializeValue, read);
  }

  /** Lines written by `write` load back as the entries they were written from whenever `read`
      inverts `write` on each of them. */
  lemma {:induction false} LoadWritten(data: seq<TimeTrackerData>, write: TimeTrackerData -> string, read: LineReader)
    requires forall i :: 0 <= i < |data| ==> read(write(data[i])) == Ok(data[i])
    ensures Load(Map(data, write), read) == Loaded(data, None)
  {
    if |data| > 0 {
      var n := |data|;
      assert Map(data, write)[..n - 1] == Map(data[..n - 1], write);
      LoadWritten(data[..n - 1], write, read);
      assert data[..n - 1] + [data[n - 1]] == data;
    }
  }

  /** The whole file text written for storable entries loads back as those entries. */
  lemma LoadSavedText(data: seq<TimeTrackerData>)
    requires forall i :: 0 <= i < |data| ==> Storable(data[i], CategoryMaxLength)
    ensures Load(Lines(Terminated(SerializedLines(data))), Deserializer(CategoryMaxLength)) == Loaded(data, None)
  {
    SerializedText(data);
    LoadSerialized(data, CategoryMaxLength);
  }

  // ---------------------------------------------------------------- the form

  /** The state of the main form behind its controls. Files are named by path; the file system
      is the `disk` map given to `Open`, and `Save` returns the text it writes. */
  class Application {
    /** `Data`, the list shown in the grid. */
    var data: seq<TimeTrackerData>
    /** `isSaved`. */
    var isSaved: bool
    /** `file`: the path of the opened file, if any. */
    var file: Option<string>
    /** The text of the category box. */
    var categoryText: string
    const trackingService: TrackingService

    constructor()
      ensures data == [] && isSaved && file.None? && categoryText == ""
      ensures fresh(trackingService) && !trackingService.tracking
    {
      data := [];
      isSaved := true;
      file := None;
      categoryText := "";
      trackingService := new TrackingService();
    }

    /** `SaveAvailable()`: there are unsaved changes to a non-empty list. A saved state or an
        empty list offers nothing to save. */
    predicate SaveAvailable()
      reads this
      ensures isSaved || data == [] ==> !SaveAvailable()
      ensures !isSaved && data != [] ==> SaveAvailable()
    {
      !isSaved && |data| > 0
    }

    /** `DataListChanged`: any change of the list marks the state unsaved. */
    method DataListChanged()
      modifies this
      ensures !isSaved && data == old(data) && file == old(file) && categoryText == old(categoryText)
    {
      isSaved := false;
    }

    /** `Data.Add(value)` with its `ListChanged` notification. */
    method AddData(value: TimeTrackerData)
      modifies this
      ensures data == old(data) + [value] && !isSaved && SaveAvailable()
      ensures file == old(file) && categoryText == old(categoryText)
    {
      data := data + [value];
      DataListChanged();
    }

    /** `Data.Clear()`, whose reset notification also marks the state unsaved. */
    method ClearData()
      modifies this
      ensures data == [] && !isSaved && !SaveAvailable()
      ensures file == old(file) && categoryText == old(categoryText)
    {
      data := [];
      DataListChanged();
    }

    /** `GetUsedCategories()`: the set of categories some entry carries; entries without category
        add nothing, and equal categories are one element. */
    method GetUsedCategories() returns (result: set<TrackedDataCategory>)
      ensures forall c :: c in result <==> exists i :: 0 <= i < |data| && data[i].category == Some(c)
    {
      result := {};
      for i := 0 to |data|
        invariant forall c :: c in result <==> exists j :: 0 <= j < i && data[j].category == Some(c)
      {
        if data[i].category.None? {
          continue;
        }
        result := result + {data[i].category.value};
      }
    }

    /** `categoryToolStripComboBox_TextUpdate`: the box keeps the sanitised text. */
    method UpdateCategoryText(text: string, isWord: char -> bool)
      modifies this
      ensures categoryText == Sanitize(text, isWord)
      ensures data == old(data) && isSaved == old(isSaved) && file == old(file)
    {
      categoryText := Sanitize(text, isWord);
    }

    /** The start button: the service starts tracking at `now`. */
    method StartTracking(now: Timestamps.DateTimeOffset) returns (r: Result<Timestamps.DateTimeOffset, TrackingServiceException>)
      modifies trackingService
      ensures old(trackingService.tracking) ==> r == Err(AlreadyStarted) && trackingService.startTime == old(trackingService.startTime)
      ensures !old(trackingService.tracking) ==> r == Ok(now) && trackingService.startTime == now
      ensures trackingService.tracking
    {
      r := trackingService.Start(now);
    }

    /** The stop button: the service's entry gets the trimmed category text as its category when
        the box is not empty, and is appended to the list. */
    method StopTracking(now: Timestamps.DateTimeOffset) returns (r: Result<TimeTrackerData, TrackingServiceException>)
      modifies this, trackingService
      ensures !trackingService.tracking && trackingService.startTime == old(trackingService.startTime)
      ensures file == old(file) && categoryText == old(categoryText)
      ensures !old(trackingService.tracking) ==> r == Err(NotStarted) && data == old(data) && isSaved == old(isSaved)
      ensures old(trackingService.tracking) ==>
                && r.Ok?
                && r.value == TimeTrackerData(old(trackingService.startTime), now,
                                              if |categoryText| > 0 then Some(TrackedDataCategory(Trim(categoryText, ' '))) else None)
                && data == old(data) + [r.value] && SaveAvailable()
    {
      r := trackingService.Stop(now);
      if r.Err? {
        return;
      }
      var item := r.value;
      if |categoryText| > 0 {
        item := WithCategory(item, Some(TrackedDataCategory(Trim(categoryText, ' '))));
      }
      AddData(item);
      r := Ok(item);
    }

    /** `Save(forceOpenSaveWindow)`: the dialog's choice `chosen` replaces the file when the dialog
        is shown (forced, or no file yet) and accepted; with a file, the serialized list is written
        to it, returned as path and text, and the state is saved. */
    method Save(forceOpenSaveWindow: bool, chosen: Option<string>) returns (written: Option<(string, string)>)
      modifies this
      ensures var f := if (forceOpenSaveWindow || old(file).None?) && chosen.Some? then chosen else old(file);
              && file == f && data == old(data) && categoryText == old(categoryText)
              && (f.None? ==> written.None? && isSaved == old(isSaved))
              && (f.Some? ==> written == Some((f.value, Terminated(SerializedLines(data)))) && isSaved && !SaveAvailable())
    {
      if forceOpenSaveWindow || file.None? {
        if chosen.Some? {
          file := chosen;
        }
      }
      if file.Some? {
        var text := Serialize(data);
        written := Some((file.value, text));
        isSaved := true;
      } else {
        written := None;
      }
    }

    /** `Open()`: the dialog's choice `chosen`, if any, becomes the file; an existing file replaces
        the list by the entries of its lines. A line that is not an entry ends the load, keeping the
        entries read so far; a wrong field count also forgets the file, a bad timestamp does not. */
    method Open(chosen: Option<string>, disk: map<string, string>)
      modifies this
      ensures categoryText == old(categoryText)
      ensures var f := if chosen.Some? then chosen else old(file);
              && (f.None? ==> file == old(file) && data == old(data) && isSaved == old(isSaved))
              && (f.Some? && f.value !in disk ==> file == f && data == old(data) && isSaved == old(isSaved))
              && (f.Some? && f.value in disk ==>
                    var l := Load(Lines(disk[f.value]), Deserializer(CategoryMaxLength));
                    && data == l.records
                    && isSaved == l.error.None?
                    && file == (if l.error == Some(InvalidValue) then None else f))
    {
      if chosen.Some? {
        file := chosen;
      }
      if file.None? {
        return;
      }
      var path := file.value;
      if path !in disk {
        return;
      }
      ClearData();
      var error := ReadLines(Lines(disk[path]), Deserializer(CategoryMaxLength));
      if error == Some(InvalidValue) {
        file := None;
      } else if error.None? {
        isSaved := true;
      }
    }

    /** The read loop of `Open`: each line read is appended to the list, and the first line that
        cannot be read ends the loop with its error. */
    method ReadLines(lines: seq<string>, read: LineReader) returns (error: Option<DeserializeError>)
      modifies this
      ensures var l := Load(lines, read);
              && data == old(data) + l.records && error == l.error
              && (|l.records| > 0 ==> !isSaved) && (|l.records| == 0 ==> isSaved == old(isSaved))
      ensures file == old(file) && categoryText == old(categoryText)
    {
      var i := 0;
      while i < |lines|
        invariant 0 <= i <= |lines|
        invariant Load(lines[..i], read).error.None?
        invariant data == old(data) + Load(lines[..i], read).records
        invariant |Load(lines[..i], read).records| > 0 ==> !isSaved
        invariant |Load(lines[..i], read).records| == 0 ==> isSaved == old(isSaved)
        invariant file == old(file) && categoryText == old(categoryText)
      {
        var value := read(lines[i]);
        LoadNext(lines, i, read);
        if value.Err? {
          LoadStops(lines, i + 1, read);
          return Some(value.error);
        }
        AddData(value.value);
        i := i + 1;
      }
      assert lines[..i] == lines;
      return None;
    }

    /** The close (and new) command: the list is emptied, the file forgotten and the state saved. */
    method Close()
      modifies this
      ensures data == [] && file.None? && isSaved && !SaveAvailable() && categoryText == old(categoryText)
    {
      ClearData();
      file := None;
      isSaved := true;
    }
  }

  /** Saving to a path and opening that path again restores the list and leaves it saved, for
      every list whose category names the file format carries. */
  method SaveThenOpen(app: Application, path: string, disk: map<string, string>)
    returns (written: Option<(string, string)>)
    requires forall i :: 0 <= i < |app.data| ==> Storable(app.data[i], CategoryMaxLength)
    modifies app
    ensures written.Some? && written.value.0 == path
    ensures app.data == old(app.data) && app.isSaved && app.file == Some(path)
  {
    written := app.Save(true, Some(path));
    LoadSavedText(app.data);
    app.Open(None, disk[path := written.value.1]);
  }
}
