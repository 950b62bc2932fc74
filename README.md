# EventFiend entry store and filters, in Dafny

EventFiend is a WPF window for browsing Windows event logs. Checking a log loads its
entries into one shared grid, each entry tagged with the log's name, and loads the log's
distinct source names into a source list. Unchecking the log removes both again. Five
filters decide which grid rows are shown: event ids, message words, selected sources,
selected levels and a time range. A text-box guard keeps the event-id box to digits, and
three radio buttons set the grid's grouping and sorting descriptors.

This project models that logic with the WPF and operating-system types replaced by plain
data. Modules:

- `Entries` holds the records: `EventLogEntry`, `LogEntry`, `EventSource` and `EventLog`
  (a name plus its entries in enumeration order).
- `Text` holds the .NET string operations the filters use. These are `Char.IsWhiteSpace`,
  `string.IsNullOrWhiteSpace`, ordinal `Contains`, `Split(',')`, `Int32.ToString()` and
  `Replace`.
- `Sequences` holds `List<T>.Remove`, `Where(...).ToList()` by owning log, and LINQ `Distinct`.
- `Filters` holds the five `IsMatch*` predicates, the grid's filter callback
  (`FilterItem`) and the rows it lets through (`Visible`).
- `EventIdInput` holds the `KeyDown` guard and the `TextChanged` sanitiser, whose loop is
  kept as a loop.
- `GroupView` holds the group and sort descriptor record set by the three radio buttons.
- `Window` holds the class `MainWindow`. Its fields are the two collections, the two
  selection lists and the filter inputs. Its methods are the check/uncheck handlers.

Quirks of the code that the model keeps:

- Without a comma, the event-id filter tests whether the entry's id occurs inside the
  typed text, not the other way round. With the text `10`, ids 1 and 10 pass while 100 and
  210 do not (`Filters.SubstringScenario`). A natural description of the feature, "the
  text is a substring of the id", would give 10, 100 and 210. The model follows the code.
- When exactly one date bound is set, the lifted `DateTime?` comparisons are false, so
  every entry is rejected. Such a bound is not ignored (`Filters.IsMatchDateTime`).
- A comma at either end of the message filter, or two commas in a row, gives an empty
  piece. `Contains("")` is true, so every message matches.
- A log whose enumeration throws part-way keeps the entries added before the throw. No
  sources are added, and nothing is rolled back.
- The sanitiser removes every comma from the event-id box. So once the `TextChanged`
  handler has run, the comma branch of the event-id filter never applies
  (`Filters.SanitizedEventIdsNeverSplit`).
- The sanitiser's regex test lets a line feed through (see "## Findings"). The window's
  `TextChanged` handler (`Window.MainWindow.EventIdsTextChanged`) models the code as
  written, so a line feed stays in the box. The digits-only handler is modelled beside it
  (`EventIdInput.SanitizeEventIds`) as the corrected reading.

## Model

| member | source | states |
|---|---|---|
| `Filters.IsMatchEventIds` | EventFiendWPF/Source/MainWindow.xaml.cs:101-117 | The event-id predicate, branch for branch. Its meaning is proved in `Filters.EventIdsMatchMeaning`. |
| `Filters.EventIdsMatchMeaning` | EventFiendWPF/Source/MainWindow.xaml.cs:101-117 | A blank text accepts every entry. With a comma, an entry passes iff its id's decimal text appears in the filter text bounded by commas or the text's ends. Without a comma, it passes iff the id's text occurs at some offset of the filter text. |
| `Filters.EventIdSubstringDirection` | EventFiendWPF/Source/MainWindow.xaml.cs:114 | Without a comma the containment runs from the id into the text: with text "10", id 1 passes and id 100 does not. |
| `Filters.SanitizedEventIdsNeverSplit` | EventFiendWPF/Source/MainWindow.xaml.cs:101-117 | On a text the TextChanged handler produced, as written, there is no comma. The predicate there is "text blank, or the id occurs inside the text", so the comma branch cannot run. |
| `Filters.CommaListScenario` | EventFiendWPF/Source/MainWindow.xaml.cs:104-110 | With "100,200", the entries with ids 100 and 200 are shown and 150 is not, in collection order. |
| `Filters.SubstringScenario` | EventFiendWPF/Source/MainWindow.xaml.cs:112-115 | With "10", of the ids 1, 10, 100 and 210 exactly 1 and 10 are shown. |
| `Filters.IsMatchMessages` | EventFiendWPF/Source/MainWindow.xaml.cs:119-138 | The message predicate, branch for branch. Its meaning is proved in `Filters.MessagesMatchMeaning`. |
| `Filters.AnyContained` | EventFiendWPF/Source/MainWindow.xaml.cs:127-130 | The foreach over the pieces is true iff some piece is contained in the message. |
| `Filters.MessagesMatchMeaning` | EventFiendWPF/Source/MainWindow.xaml.cs:119-138 | A blank text accepts all. With a comma, an entry passes iff some comma piece occurs at some offset of the message. Without a comma, it passes iff the whole text occurs in the message. |
| `Filters.EmptyPieceMatchesEveryMessage` | EventFiendWPF/Source/MainWindow.xaml.cs:124-129 | A leading or trailing comma, or ",," anywhere, makes every message match. |
| `Filters.IsMatchSources` | EventFiendWPF/Source/MainWindow.xaml.cs:140-149 | An entry passes iff no source is selected or its source is among the selected ones. |
| `Filters.IsMatchLevels` | EventFiendWPF/Source/MainWindow.xaml.cs:151-159 | An entry passes iff no level is selected or its level is among the selected ones. |
| `Filters.SelectionsActAsMultisets` | EventFiendWPF/Source/MainWindow.xaml.cs:140-159 | Two selections with the same multiset make the same source and level decisions. |
| `Filters.IsMatchDateTime` | EventFiendWPF/Source/MainWindow.xaml.cs:161-166 | Passes iff both bounds are absent, or both are present and from ≤ TimeWritten ≤ to. A single bound rejects every entry. |
| `Filters.DateRangeScenario` | EventFiendWPF/Source/MainWindow.xaml.cs:161-166 | The range [1, 31] keeps time 15 and drops 32. A lone lower bound drops both. |
| `Filters.FilterItem` | EventFiendWPF/Source/MainWindow.xaml.cs:185-198 | A null item leaves Accepted as it was. Any other item is accepted iff all five predicates hold. |
| `Filters.Visible` | EventFiendWPF/Source/MainWindow.xaml.cs:185-198 | The rows the filtered grid shows, with Accepted starting true. Its meaning is proved in `Filters.VisibleExact` and `Filters.VisibleConcat`. |
| `Filters.VisibleExact` | EventFiendWPF/Source/MainWindow.xaml.cs:185-198 | Every shown row passes all five predicates and comes from the collection. Every collection entry that passes all five is shown. |
| `Filters.VisibleConcat` | EventFiendWPF/Source/MainWindow.xaml.cs:185-198 | Filtering keeps collection order: the rows of a + b are the rows of a followed by the rows of b. |
| `Filters.UnsetFilterShowsAll` | EventFiendWPF/Source/MainWindow.xaml.cs:185-198 | With blank texts, empty selections and no dates, the whole collection is shown, in order. |
| `Text.IsBlank` | EventFiendWPF/Source/MainWindow.xaml.cs:103 | string.IsNullOrWhiteSpace on a text box's text, which is never null: every character is white space by Char.IsWhiteSpace. The same test is at line 121. |
| `Text.Split` | EventFiendWPF/Source/MainWindow.xaml.cs:106 | Split gives at least one piece. No piece holds the separator. Joining the pieces with the separator gives the text back. |
| `Text.SplitJoin` | EventFiendWPF/Source/MainWindow.xaml.cs:124 | Split undoes Join when no piece holds the separator. |
| `Text.SplitMember` | EventFiendWPF/Source/MainWindow.xaml.cs:109 | A separator-free string is a piece iff it appears bounded by separators or the ends of the text (both directions). |
| `Text.ContainsIffOccurs` | EventFiendWPF/Source/MainWindow.xaml.cs:135 | Ordinal Contains holds iff the needle occurs at some offset. |
| `Text.ContainsEmpty` | EventFiendWPF/Source/MainWindow.xaml.cs:129 | Every string contains the empty string. |
| `Text.IntToStringInjective` | EventFiendWPF/Source/MainWindow.xaml.cs:109 | Distinct ids print differently, and no printed id holds a comma. |
| `Text.IntToString` | EventFiendWPF/Source/MainWindow.xaml.cs:109 | EventID.ToString(): a minus sign for a negative id, then the decimal digits. It is also used at line 114. It is injective and comma-free (`Text.IntToStringInjective`), and it reads back (`Text.ParseNatToString`). |
| `Text.ParseNatToString` | EventFiendWPF/Source/MainWindow.xaml.cs:109 | Reading the decimal text of a number back gives the number. |
| `Text.KeepOnlyExact` | EventFiendWPF/Source/MainWindow.xaml.cs:370-377 | Filtering keeps only accepted characters. It keeps every accepted character as often as it occurs. |
| `Text.KeepOnlyConcat` | EventFiendWPF/Source/MainWindow.xaml.cs:370-377 | Filtering commutes with concatenation, so the original order is kept. |
| `Text.StripRejectedIsKeep` | EventFiendWPF/Source/MainWindow.xaml.cs:370-377 | Removing exactly the rejected characters leaves exactly the accepted ones. |
| `Text.RemoveChar` | EventFiendWPF/Source/MainWindow.xaml.cs:374 | tmp.Replace(c.ToString(), ""). Its effect is proved in `Text.RemoveCharCounts`. |
| `Text.RemoveCharCounts` | EventFiendWPF/Source/MainWindow.xaml.cs:374 | After Replace(c, "") no c remains, and every other character occurs exactly as often as before. |
| `Text.RemoveCharFromStripped` | EventFiendWPF/Source/MainWindow.xaml.cs:374 | Replace(c, "") on a text already stripped of a set of characters strips that set plus c. |
| `EventIdInput.IsNumberKey` | EventFiendWPF/Source/MainWindow.xaml.cs:168-178 | True iff the key is in D0..D9 or NumPad0..NumPad9. |
| `EventIdInput.IsDelOrBackspaceOrTabKey` | EventFiendWPF/Source/MainWindow.xaml.cs:180-183 | Delete, Back or Tab. What the guard makes of it is stated by `EventIdInput.KeyDownHandled`. |
| `EventIdInput.KeyDownHandled` | EventFiendWPF/Source/MainWindow.xaml.cs:357-360 | A key press is swallowed iff the key is in neither digit range and is not Delete, Back or Tab. |
| `EventIdInput.KeptAsWrittenMeaning` | EventFiendWPF/Source/MainWindow.xaml.cs:372 | On one character the .NET pattern "^[0-9]*$" accepts exactly the ASCII digits and the line feed. |
| `EventIdInput.StripRejected` | EventFiendWPF/Source/MainWindow.xaml.cs:367-378 | The loop that removes each rejected character with Replace leaves exactly the accepted characters of the input, in order. |
| `EventIdInput.SanitizeAsWritten` | EventFiendWPF/Source/MainWindow.xaml.cs:367-378 | As written, the handler's result is the input's digits and line feeds, in order. |
| `EventIdInput.LineFeedSurvivesAsWritten` | EventFiendWPF/Source/MainWindow.xaml.cs:372 | "7\n" stays "7\n" as written, where the digit filter gives "7". |
| `EventIdInput.SanitizeEventIds` | EventFiendWPF/Source/MainWindow.xaml.cs:367-378 | The result consists only of ASCII digits. It holds every digit of the input as often as it occurs, in order. |
| `EventIdInput.SanitizeAsWrittenIdempotent` | EventFiendWPF/Source/MainWindow.xaml.cs:367-378 | The handler as written, run again on its own output (setting Text fires TextChanged), changes nothing. |
| `EventIdInput.SanitizeIdempotent` | EventFiendWPF/Source/MainWindow.xaml.cs:367-378 | The corrected digits-only handler, run again on its own output, changes nothing. |
| `GroupView.GroupBySource` | EventFiendWPF/Source/MainWindow.xaml.cs:294-309 | When the view can group, the groups become [Source]. When it can sort, the sorts become [Source asc, TimeWritten asc]. Otherwise each list is left alone. |
| `GroupView.GroupByEventId` | EventFiendWPF/Source/MainWindow.xaml.cs:311-326 | When the view can group, the groups become [EventID]. When it can sort, the sorts become [EventID asc, TimeWritten asc]. Otherwise each list is left alone. |
| `GroupView.GroupByNone` | EventFiendWPF/Source/MainWindow.xaml.cs:328-339 | Clears the groups when the view can group, and never touches the sorts. |
| `GroupView.ModesForgetHistory` | EventFiendWPF/Source/MainWindow.xaml.cs:294-339 | Each mode's descriptors do not depend on the previous mode. Re-selecting a mode changes nothing. |
| `GroupView.NoneKeepsLastSort` | EventFiendWPF/Source/MainWindow.xaml.cs:328-339 | None after a grouping leaves no groups and keeps that grouping's two sort keys. |
| `Window.MainWindow.constructor` | EventFiendWPF/Source/MainWindow.xaml.cs:48-62 | The window opens with empty collections, empty selections, empty text boxes and no dates. |
| `Window.Enumerated` | EventFiendWPF/Source/MainWindow.xaml.cs:214-219 | The number of entries handed out before a throw never exceeds the log's length. Without a throw it is the whole log. |
| `Window.MainWindow.CheckLog` | EventFiendWPF/Source/MainWindow.xaml.cs:205-237 | The entries are the old ones followed by the log's enumerated entries in order, each tagged with the log name. On success, the sources are the old ones followed by one EventSource per distinct source name in first-seen order. After a throw the sources are unchanged and the result is false. |
| `Window.LoadedSourcesExact` | EventFiendWPF/Source/MainWindow.xaml.cs:214-226 | The added sources belong to the log. They name exactly the source names of the log's entries, each once. |
| `Window.SourceNamesMember` | EventFiendWPF/Source/MainWindow.xaml.cs:214-216 | A name is among the collected source names iff some entry of the log has that source. |
| `Window.SourceRefsMember` | EventFiendWPF/Source/MainWindow.xaml.cs:222-226 | The log's EventSource named n is among the appended sources iff n is among the unique names. |
| `Window.MainWindow.UncheckLog` | EventFiendWPF/Source/MainWindow.xaml.cs:239-259 | Both collections become their items of other logs, in their original order. The remove-first-occurrence loop reaches this state. |
| `Window.UnloadRemovesExactly` | EventFiendWPF/Source/MainWindow.xaml.cs:244-258 | After unloading, nothing of the log remains. Every item of another log remains, and nothing new appears. |
| `Window.LoadThenUnload` | EventFiendWPF/Source/MainWindow.xaml.cs:205-258 | If the collections held nothing of the log, loading it (fully or up to a throw) and then unloading it restores them exactly. |
| `Window.MainWindow.CheckSource` | EventFiendWPF/Source/MainWindow.xaml.cs:275-281 | Appends the source's name when the data context is an EventSource; a null one changes nothing. |
| `Window.MainWindow.UncheckSource` | EventFiendWPF/Source/MainWindow.xaml.cs:283-292 | Removes the first occurrence of the source's name when the data context is an EventSource. |
| `Window.MainWindow.CheckLevel` | EventFiendWPF/Source/MainWindow.xaml.cs:341-347 | Appends the level. |
| `Window.MainWindow.UncheckLevel` | EventFiendWPF/Source/MainWindow.xaml.cs:349-355 | Removes the first occurrence of the level. |
| `Window.MainWindow.EventIdsTextChanged` | EventFiendWPF/Source/MainWindow.xaml.cs:367-378 | The event-id box ends up holding exactly the characters the regex test accepts, in order: its digits and its line feeds. |
| `Window.SelectionRoundTrip` | EventFiendWPF/Source/MainWindow.xaml.cs:275-292 | Checking then unchecking a source or level restores the selection's multiset. The filter decision on every entry is unchanged. |
| `Window.SelectionRoundTripReorders` | EventFiendWPF/Source/MainWindow.xaml.cs:289 | The round trip can reorder the list: ["a","b"] with "a" re-checked and unchecked becomes ["b","a"]. |
| `Sequences.RemoveFirst` | EventFiendWPF/Source/MainWindow.xaml.cs:289 | List.Remove leaves the list unchanged when the item is absent. Otherwise it removes exactly one copy of it. |
| `Sequences.RemoveFirstCount` | EventFiendWPF/Source/MainWindow.xaml.cs:289 | The first-match scan behind Remove: no change without a match, otherwise one element fewer and one copy fewer in the multiset. |
| `Sequences.FirstIndex` | EventFiendWPF/Source/MainWindow.xaml.cs:289 | For a value the list holds: a position holding it, with no earlier occurrence. |
| `Sequences.RemoveFirstAt` | EventFiendWPF/Source/MainWindow.xaml.cs:289 | Remove drops exactly the first occurrence: the result is the list before it followed by the list after it. Every other element keeps its relative place. |
| `Sequences.RemoveFirstSplit` | EventFiendWPF/Source/MainWindow.xaml.cs:289 | The same, for any position i holding the value with no earlier occurrence. |
| `Sequences.AddThenRemove` | EventFiendWPF/Source/MainWindow.xaml.cs:345-353 | Add then Remove of the same value restores the multiset. It restores the list itself when the value was absent before. |
| `Sequences.Owned` | EventFiendWPF/Source/MainWindow.xaml.cs:244 | Where(x => owner(x) == name).ToList(), the snapshot of the removal loop. It is also used at line 253. `Sequences.OwnedElements` proves it holds only items of that owner. |
| `Sequences.OwnedElements` | EventFiendWPF/Source/MainWindow.xaml.cs:244 | Every item of the snapshot belongs to the unchecked log. |
| `Sequences.DropStep` | EventFiendWPF/Source/MainWindow.xaml.cs:246-249 | Removing the k-th owned item by value, first occurrence, from a list whose first k owned items are gone drops exactly one more owned item. |
| `Sequences.DistinctMember` | EventFiendWPF/Source/MainWindow.xaml.cs:220 | A value is in the distinct sequence iff it is in the input. |
| `Sequences.Distinct` | EventFiendWPF/Source/MainWindow.xaml.cs:220 | Distinct yields the same elements as its input, each once. |

## Left out

- `RefreshEventLogs`, `EventLog.GetEventLogs` (local or remote), `btnConnectTo_Click` and the
  remote-system dialog are left out. They are operating-system and RPC calls and a modal dialog.
- `MessageBox.Show`, the status-bar text, `InitializeComponent` and the `Resources[...]`
  lookups are left out. The three collections are plain fields of `MainWindow`.
- The `Refresh()` calls in the handlers and the apply-filters button are left out. The shown
  rows are modelled as a function (`Filters.Visible`) that is always re-derived.
- WPF's rendered grouping and sorting is left out, because it is library behaviour. Only the
  descriptor lists are modelled.
- `GroupView.GroupBySource`, `GroupByEventId`, `GroupByNone`: a null collection view or
  data grid is not modelled. The handlers then change nothing.
- `Window.MainWindow.CheckLog`: a `DataContext` that is not an `EventLog` is not modelled.
  In the code its null dereference is caught like any other exception.
- `Filters.FilterItem`: an item that is not a `LogEntry` is not modelled. In the code the
  cast throws.
- `Window.MainWindow.CheckSource`: a `DataContext` that is neither null nor an `EventSource`
  is not modelled. The hard cast at line 278 throws there, and nothing catches it.
- `Window.MainWindow.CheckLevel` and `UncheckLevel`: a null `DataContext` is not modelled.
  The unboxing at lines 344 and 352 throws on it, and nothing catches it.
- `Window.MainWindow.UncheckLog`: a `DataContext` that is not an `EventLog` is not
  modelled. With a null log, lines 244 and 253 dereference it as soon as the collection is
  non-empty, and nothing catches it.
- `Text.IntToString` uses the invariant-culture minus sign. Event ids are never negative in
  practice.
- `EventIdInput.KeyDownHandled` looks only at the `Key`. Modifier keys are not modelled, so
  Shift+D1 passes like D1.
- `EventLogEntryType` numbers and `DateTime` are not modelled as such. TimeWritten is an
  integer tick count, and only its order matters.
- `char` is a Unicode scalar value. .NET's UTF-16 code units, such as lone surrogates, are
  not modelled.
- Identity is value equality. `EventSource` and `LogEntry` are reference types in the code,
  but removing the first equal value gives the same list, because every equal value has the
  same owning log.

## Findings

| source | as written | input that shows it | evidently intended | confidence | as-written member | corrected member |
|---|---|---|---|---|---|---|
| EventFiendWPF/Source/MainWindow.xaml.cs:372 | Each character is tested with `Regex.IsMatch(c.ToString(), "^[0-9]*$")`. In .NET, `$` also matches just before a final line feed, so "\n" passes the test and is not stripped. | "7\n" stays "7\n" (`EventIdInput.LineFeedSurvivesAsWritten`) | only digits remain: "7" | not executed; medium (relies on the documented .NET meaning of `$`) | `EventIdInput.SanitizeAsWritten` | `EventIdInput.SanitizeEventIds` |
