# TimeTracker in Dafny

TimeTracker is a small desktop time tracker. The user starts tracking, stops it, and gets a
table row: start instant, end instant and an optional category. Rows are saved to a text file
with one comma-separated line per row and opened again later. The form shows:

- the total tracked time;
- the time tracked in the selected row's category;
- the categories in use.

This project models the program's logic without its user interface:

- `Timestamps` (`timestamps.dfy`): `DateTimeOffset` as a Gregorian clock reading plus a UTC
  offset in minutes. It has its UTC tick count and the fixed pattern
  `yyyy-MM-ddTHH:mm:ss.fffffffzzz`, both as formatter and as parser; the parser is proved to
  invert the formatter.
- `TimeSpanExtension` (`timespan_extension.dfy`): durations as signed tick counts. It covers
  the `Sum` fold and the three-branch display format `d\d\ hh\:mm\:ss` / `h\:mm\:ss` / `m\:ss`
  with its strict thresholds. A reader of the displayed text recovers the whole seconds from it.
- `Categories` (`categories.dfy`): `TrackedDataCategory`, a name compared by value.
- `Records` (`records.dfy`): `TimeTrackerData`, its constructors, the elapsed time and the
  category setter.
- `DataSerializer` (`data_serializer.dfy`): the line codec and the whole-list `Serialize` loop.
- `Tracking` (`tracking.dfy`): `TrackingService`, a class with the tracking flag and the
  captured start instant, driven by a `now` clock argument.
- `MainForm` (`application.dfy`): the rules of the main form:
  - the category text filter;
  - the total and per-category statistics;
  - the used-category set;
  - the saved flag and `SaveAvailable`;
  - the stop command;
  - saving, the load loop of the open command, and closing.

  The form is a class over the list, the saved flag, the current file and the category text.
- `Wrappers`, `Digits` and `Strings`: `Option`/`Result`, decimal digit strings and the .NET
  string operations used (`Split`, `Substring` truncation, `Trim`, line reading).

Exceptions become `Result` values whose error cases carry the source's exception and message.
`DateTimeOffset.Now` is a `now` parameter. The file system is a parameter as well:
- `Save` returns the path and text it writes;
- `Open` takes the file dialog's choice and a map from paths to file contents.

## Model

| member | source | states |
|---|---|---|
| Strings.SplitJoin | TimeTracker/DataSerializer.cs:56 | `Split(',')` loses nothing: the pieces join back to the line, hold no separator, and number one more than the separators |
| Strings.Truncate | TimeTracker/DataSerializer.cs:66-69 | the cut text is a prefix of at most `max` characters, and is the whole text when that fits |
| Strings.TrimSlice | TimeTracker/Form/Application.cs:371 | `Trim(' ')` keeps a contiguous slice that does not start or end with a space, and drops only spaces |
| Strings.LinesTerminated | TimeTracker/Form/Application.cs:483-487 | reading the lines of text written line by line gives those lines back, for lines without line breaks |
| Timestamps.Format | TimeTracker/DataSerializer.cs:35-36 | every timestamp is written in exactly 33 characters |
| Timestamps.FormatChars | TimeTracker/DataSerializer.cs:35-36 | the written timestamp holds only digits and the pattern's literals, so no comma and no line break |
| Timestamps.Parse | TimeTracker/DataSerializer.cs:60 | parsing succeeds only on text of the pattern's length |
| Timestamps.FormatParse | TimeTracker/DataSerializer.cs:35-36 | parsing the written text gives back the same `DateTimeOffset`, for every valid value |
| TimeSpanExtension.Sum | TimeTracker/TimeSpanExtension.cs:19-23 | a sum of durations none of which is negative is not negative |
| TimeSpanExtension.SumSteps | TimeTracker/TimeSpanExtension.cs:19-23 | the sum of nothing is the zero duration, and one more element adds its selected duration |
| TimeSpanExtension.SumConcat | TimeTracker/TimeSpanExtension.cs:22 | the sum over a concatenation is the sum of the two sums |
| TimeSpanExtension.SumPermutation | TimeTracker/TimeSpanExtension.cs:19-23 | the sum does not depend on the order of the elements |
| TimeSpanExtension.Format | TimeTracker/TimeSpanExtension.cs:30-39 | the display holds the day unit `d` exactly when the duration is more than one day |
| TimeSpanExtension.DayBranchReadsBack | TimeTracker/TimeSpanExtension.cs:32-33 | above one day the display has the `<days>d hh:mm:ss` shape (an unpadded day count, `d`, a space and two hour digits below 24, then two-digit minutes and seconds below 60) and reads back as the whole seconds |
| TimeSpanExtension.HourBranchReadsBack | TimeTracker/TimeSpanExtension.cs:35-36 | above one hour, up to one day, the display has the `h:mm:ss` shape (an unpadded hour count below 24, then two-digit minutes and seconds below 60) and reads back as the whole seconds, except exactly one day, which shows `0:00:00` |
| TimeSpanExtension.MinuteBranchReadsBack | TimeTracker/TimeSpanExtension.cs:38 | up to one hour the display has the `m:ss` shape (an unpadded minute count below 60, then two-digit seconds below 60) and reads back as the whole seconds, except exactly one hour, which shows `0:00` |
| TimeSpanExtension.FormatReadsBack | TimeTracker/TimeSpanExtension.cs:30-39 | any non-negative duration reads back from its display as its whole seconds, except on the strict thresholds: exactly one hour shows `0:00` and exactly one day `0:00:00` |
| TimeSpanExtension.FormatExamples | TimeTracker/TimeSpanExtension.cs:30-39 | 61 s shows `1:01`, 3661 s `1:01:01`, 90000 s `1d 01:00:00`, 3600 s `0:00` |
| Categories.Equals | TimeTracker/Model/TrackedDataCategory.cs:31-34 | a category equals exactly a category with the same name; `null` and non-categories are unequal |
| Categories.ToString | TimeTracker/Model/TrackedDataCategory.cs:51-54 | the text is the name, from which the constructor rebuilds an equal category |
| Categories.HashCode | TimeTracker/Model/TrackedDataCategory.cs:42-45 | every category that `Equals` this one has the same hash code, the string hash of its text |
| Categories.EqualsHashCode | TimeTracker/Model/TrackedDataCategory.cs:42-45 | equal categories have equal hash codes, for any string hash |
| Categories.EqualsEquivalence | TimeTracker/Model/TrackedDataCategory.cs:31-34 | `Equals` is reflexive, symmetric and transitive |
| Categories.EqualsToString | TimeTracker/Model/TrackedDataCategory.cs:51-54 | two categories are equal exactly when their texts are |
| Records.Ending | TimeTracker/Model/TimeTrackerData.cs:39-44 | the two-argument constructor starts the entry at the clock reading and stores the end and category |
| Records.GetTimeElapsed | TimeTracker/Model/TimeTrackerData.cs:60-63 | the elapsed time is the end's UTC ticks minus the start's |
| Records.WithCategory | TimeTracker/Model/TimeTrackerData.cs:23 | setting the category changes only the category, so the instants and elapsed time stay |
| Records.TimeElapsed | TimeTracker/Model/TimeTrackerData.cs:29-35 | the displayed elapsed time shows a day count exactly when the entry lasts more than one day |
| Records.TimeElapsedReadsBack | TimeTracker/Model/TimeTrackerData.cs:29-35 | the displayed elapsed time reads back as the elapsed whole seconds when the end is not before the start, apart from the two thresholds |
| Records.NegativeElapsed | TimeTracker/Model/TimeTrackerData.cs:49-54 | an entry ending before it starts has a negative elapsed time, the negation of the swapped entry's |
| Records.ElapsedAdds | TimeTracker/Model/TimeTrackerData.cs:60-63 | elapsed times of consecutive entries add up |
| Records.NegativeElapsedExample | TimeTracker/Model/TimeTrackerData.cs:49-54 | the constructor accepts an end one day before the start, giving minus one day |
| DataSerializer.FromFields | TimeTracker/DataSerializer.cs:60 | an entry results exactly when both timestamp fields parse, and it holds the parsed instants; otherwise the error is a bad timestamp |
| DataSerializer.DeserializeValue | TimeTracker/DataSerializer.cs:54-75 | a field count other than 2 or 3 is exactly the invalid-value error; otherwise an entry results exactly when both timestamps parse, with a category exactly for 3 fields, named by a prefix of the third field of at most the maximum length: the whole field when it fits, exactly its first maximum-length characters when it does not |
| DataSerializer.SerializeValue | TimeTracker/DataSerializer.cs:33-46 | the line's length is twice the 33 timestamp characters plus one comma, and one more comma plus the name's length when there is a category |
| DataSerializer.Serialize | TimeTracker/DataSerializer.cs:17-26 | the text is every entry's line followed by `'\n'`, in list order |
| DataSerializer.SerializeValueFields | TimeTracker/DataSerializer.cs:33-46 | the line splits into the two written timestamps, plus the category name when there is one |
| DataSerializer.NoComma | TimeTracker/DataSerializer.cs:35-36 | a written timestamp contains no comma and no line break |
| DataSerializer.RoundTrip | TimeTracker/DataSerializer.cs:33-75 | reading a written line gives the entry back, for every entry whose category name has no comma and fits the maximum |
| DataSerializer.EmptyCategoryField | TimeTracker/DataSerializer.cs:63-72 | an empty third field gives a category named `""`, not a missing category |
| DataSerializer.CommaInNameRejected | TimeTracker/DataSerializer.cs:56-74 | a category name with a comma gives more than three fields, and the line is rejected as invalid |
| DataSerializer.SerializedText | TimeTracker/DataSerializer.cs:17-26 | the text holds one `'\n'` per entry, and its lines are the entries' lines in order, for every list whose category names hold no line break |
| DataSerializer.SerializeEmpty | TimeTracker/DataSerializer.cs:19-25 | an empty list gives the empty text |
| Tracking.TrackingService.constructor | TimeTracker/TrackingService.cs:11-16 | a new service is not tracking |
| Tracking.TrackingService.GetStartTime | TimeTracker/TrackingService.cs:21-31 | the captured start while tracking; otherwise the "Cannot return tracking start time" exception |
| Tracking.TrackingService.Start | TimeTracker/TrackingService.cs:40-51 | while tracking it throws "Tracking has already started." and keeps the start; otherwise tracking starts at `now`, which it returns |
| Tracking.TrackingService.Stop | TimeTracker/TrackingService.cs:57-67 | when not tracking it throws "Tracking was not started."; otherwise tracking ends and the entry from the captured start to `now` without category is returned |
| Tracking.TrackingService.Elapsed | TimeTracker/TrackingService.cs:72-85 | when not tracking it throws; otherwise it is the display of `now` minus the start, with no state change |
| Tracking.Session | TimeTracker/TrackingService.cs:40-67 | stop before start fails, start succeeds, a second start fails, the stop's entry spans the first start to the stop and is not negative on a non-decreasing clock, and the service starts again |
| MainForm.RemoveDisallowed | TimeTracker/Form/Application.cs:685-686 | the filtered text is no longer than the input and holds only `-`, `_`, `:`, space and word characters |
| MainForm.RemoveDisallowedSingle | TimeTracker/Form/Application.cs:685-686 | one character is kept when it is allowed and removed, not replaced, otherwise; with the concatenation lemma this fixes the result on every text |
| MainForm.RemoveDisallowedConcat | TimeTracker/Form/Application.cs:685-686 | the filter works character by character, keeping order: filtering a concatenation concatenates the filtered parts |
| MainForm.RemoveDisallowedKeeps | TimeTracker/Form/Application.cs:685-686 | a text of allowed characters passes the filter unchanged |
| MainForm.Sanitize | TimeTracker/Form/Application.cs:685-699 | the category text keeps only allowed characters, is a prefix of the filtered input of at most 255 characters: all of it when it fits, exactly its first 255 characters when it does not |
| MainForm.SanitizeIdempotent | TimeTracker/Form/Application.cs:685-699 | sanitising the sanitised text changes nothing |
| MainForm.SanitizedCategoryStorable | TimeTracker/Form/Application.cs:685-699 | the sanitised text holds no comma or line break, so an entry named by its trimmed text is carried unchanged by the file format |
| MainForm.Where | TimeTracker/Form/Application.cs:263 | the selection holds exactly the elements of the list satisfying the filter, each as many times as it occurs in the list |
| MainForm.TotalStatistic | TimeTracker/Form/Application.cs:235 | the total over entries that do not end before they start is not negative |
| MainForm.CategoryStatistic | TimeTracker/Form/Application.cs:263 | for entries that do not end before they start, a category statistic lies between zero and the total |
| MainForm.SumWherePartition | TimeTracker/Form/Application.cs:263 | the sum over the entries passing a filter plus the sum over the rest is the sum over all |
| MainForm.CategoryStatisticSelects | TimeTracker/Form/Application.cs:263 | the category statistic sums exactly the entries whose category equals the selected one, or the uncategorised entries for no category |
| MainForm.CategoryStatisticAppend | TimeTracker/Form/Application.cs:263 | a new entry adds its elapsed time to its own category's statistic and leaves every other category's unchanged |
| MainForm.TotalIsUncategorisedPlusCategorised | TimeTracker/Form/Application.cs:235 | the total is the uncategorised statistic plus the sum over the categorised entries |
| MainForm.TotalStatisticOrder | TimeTracker/Form/Application.cs:235 | the total does not depend on the order of the list |
| MainForm.Load | TimeTracker/Form/Application.cs:483-497 | the load never yields more entries than lines |
| MainForm.LoadNext | TimeTracker/Form/Application.cs:483-487 | while no line has failed, one more line is appended as its entry, or its error ends the load |
| MainForm.LoadStops | TimeTracker/Form/Application.cs:483-497 | once a line has failed, the lines after it are not read |
| MainForm.LoadAllRead | TimeTracker/Form/Application.cs:483-487 | lines that all read successfully load as their entries, in file order, without error |
| MainForm.LoadFirstError | TimeTracker/Form/Application.cs:483-497 | the first bad line ends the load with its error and the entries of all lines before it |
| MainForm.LoadSerialized | TimeTracker/Form/Application.cs:483-487 | the lines written for entries whose category names have no comma and fit the maximum load as exactly those entries |
| MainForm.LoadWritten | TimeTracker/Form/Application.cs:483-487 | lines written by any writer that the reader inverts load back as the entries they came from |
| MainForm.LoadSavedText | TimeTracker/Form/Application.cs:418-425 | the whole text a save writes for storable entries loads back as those entries |
| MainForm.Application.constructor | TimeTracker/Form/Application.cs:69-80 | a new form has an empty list, no file, a saved state and a service that is not tracking |
| MainForm.Application.SaveAvailable | TimeTracker/Form/Application.cs:542-545 | saving is offered exactly when the state is unsaved and the list is not empty |
| MainForm.Application.DataListChanged | TimeTracker/Form/Application.cs:279-285 | any list change clears the saved flag and changes nothing else |
| MainForm.Application.AddData | TimeTracker/Form/Application.cs:374 | the entry is appended and saving becomes available |
| MainForm.Application.ClearData | TimeTracker/Form/Application.cs:479 | the list is emptied and marked unsaved, and saving is not available |
| MainForm.Application.GetUsedCategories | TimeTracker/Form/Application.cs:568-582 | a category is in the set exactly when some entry carries it, so no missing category is ever in it |
| MainForm.Application.UpdateCategoryText | TimeTracker/Form/Application.cs:685-699 | the box holds the sanitised text, and nothing else changes |
| MainForm.Application.StartTracking | TimeTracker/Form/Application.cs:354-361 | the service starts at `now`, or reports that it already has |
| MainForm.Application.StopTracking | TimeTracker/Form/Application.cs:363-377 | the stopped entry gets the trimmed box text as its category exactly when the box is not empty, is appended at the end, and saving becomes available; a refused stop changes nothing |
| MainForm.Application.Save | TimeTracker/Form/Application.cs:396-442 | the dialog's choice becomes the file when the dialog is shown and accepted; with a file the serialized list is written to it and the state is saved, without one nothing changes |
| MainForm.Application.Open | TimeTracker/Form/Application.cs:447-514 | the dialog's choice becomes the file; a missing file changes nothing else; otherwise the list is the load of the file's lines, the state is saved exactly when every line was read, and a wrong field count forgets the file while a bad timestamp keeps it |
| MainForm.Application.ReadLines | TimeTracker/Form/Application.cs:481-487 | the loop appends the load of the lines to the list and returns the error that ended it; any appended entry clears the saved flag |
| MainForm.Application.Close | TimeTracker/Form/Application.cs:594-606 | the list is emptied, the file forgotten and the state saved |
| MainForm.SaveThenOpen | TimeTracker/Form/Application.cs:396-514 | saving a list of storable entries and opening the written file restores the same list in a saved state |

## Left out

- User interface: dialogs, message boxes, tooltips, the refresh timer, the grid, menus,
  settings, languages, the notify icon and the title and button refreshes. The delete button and
  the category picker refresh (`RefreshCategoryPicker`) are part of this UI layer. The selection
  statistic over several selected rows is part of it too.
- `SaveIfNecessary`: the unsaved-changes prompt before open, close and exit is an interactive
  dialog. `Open` and `Close` are modelled as if the user answered "No".
- File I/O exceptions: a failing `Delete`, `AppendText` or `OpenText` is not modelled, so
  neither is the `finally` clause's `fs.Close()` on a stream that was never opened. `Save` always
  succeeds, and `Open` fails only through its lines.
- `DateTimeOffset.ToString` and `Parse` are culture- and time-zone-dependent library calls.
  They are modelled only on the fixed invariant pattern: text in any other format that .NET
  would accept is a parse failure here.
- `StreamReader.ReadLine` also ends lines at `"\r"` and `"\r\n"`. Lines are split on `'\n'`
  only.
- Timestamps.Parse: the contract states only the length; its full content is its round trip
  with `Format` (`FormatParse`).
- TimeSpanExtension.Format: the shape and read-back lemmas cover only non-negative durations. Custom
  `TimeSpan` formats print no sign, so a negative duration shows its magnitude in the branch
  chosen by its signed value (always `m:ss`). The components are computed that way, but no
  lemma is stated about it.
- TimeSpanExtension.Format: `TotalDays > 1` and `TotalHours > 1` compare doubles. They are
  modelled as the exact tick comparisons `ticks > TicksPerDay` and `ticks > TicksPerHour`.
  Overflow of `TimeSpan` arithmetic in `Sum` is not modelled, since durations are unbounded
  integers.
- Records are values. The one mutation of `Category` (on the fresh entry in the stop command) is
  `WithCategory`. Aliasing of a mutated entry shared elsewhere is not modelled.
- Categories.HashCode: .NET string hashing is a parameter; only equal names giving equal hashes
  is stated.
- MainForm.Allowed: the regular-expression class `\w` (Unicode word characters) is a parameter
  `isWord`. The filter lemmas that concern commas and line breaks require that it admits neither.
- DataSerializer.DeserializeValue: .NET `Length` and `Substring` count UTF-16 code units, while
  a Dafny `char` is a Unicode scalar value. A category field with text outside the Basic
  Multilingual Plane is therefore cut at a different place: 200 emoji are 400 code units, which
  .NET cuts to 255 units (possibly through a surrogate pair) while the model keeps all 200.
- MainForm.Sanitize: .NET's regular expression tests each UTF-16 code unit, and a surrogate unit
  is not `\w`, so the filter removes every character outside the Basic Multilingual Plane before
  the cut. The model tests whole characters with `isWord`; it agrees with .NET exactly when
  `isWord` rejects every character outside that plane. A Unicode `isWord` that accepts such a
  letter keeps it here, where .NET drops it.
- DataSerializer.DeserializeValue: `categoryMaxLength` is a `nat`. A negative value would make
  .NET `Substring` throw, and the program only passes 255.
- The start-time text box (`LocalDateTime.ToString("h\:mm\:ss")`) is display of local time and
  is not modelled.
- `BindingList` events are an explicit `DataListChanged` call in every list mutation. `Clear`
  raises its reset notification even on an empty list, so `ClearData` marks the state unsaved.
