/** The five filter predicates of the entry grid, their conjunction in the grid's filter
    callback, and the visible rows they produce. The filter state is the window's text
    boxes, selection lists and date pickers, read as one value. */
module Filters {
  import opened Wrappers
  import opened Text
  import opened Entries
  import EventIdInput

  /** The inputs every predicate reads: the event-id and message text boxes, the selected
      sources and levels (lists, in selection order), and the two optional date bounds. */
  datatype FilterState = FilterState(
    eventIdsText: string,
    messagesText: string,
    sources: seq<string>,
    levels: seq<EntryType>,
    from: Option<int>,
    to: Option<int>)

  /** Nothing typed, nothing selected, no date picked. */
  predicate IsUnset(f: FilterState) {
    IsBlank(f.eventIdsText) && IsBlank(f.messagesText) && f.sources == [] && f.levels == []
    && f.from.None? && f.to.None?
  }

  // ---------------------------------------------------------------- event ids

  /** IsMatchEventIds. With a comma the text is split and the id must equal a piece;
      without one, the id's digits must occur inside the text. */
  function IsMatchEventIds(f: FilterState, e: LogEntry): bool
  {
    var text := f.eventIdsText;
    var id := IntToString(e.item.eventId);
    if IsBlank(text) then true
    else if ',' in text then
      var eventIds := Split(text, ',');
      |eventIds| > 0 && id in eventIds
    else Contains(text, id)
  }

  /** What the event-id predicate accepts, stated on offsets of the text. */
  lemma EventIdsMatchMeaning(f: FilterState, e: LogEntry)
    ensures var text, id := f.eventIdsText, IntToString(e.item.eventId);
      && (IsBlank(text) ==> IsMatchEventIds(f, e))
      && (!IsBlank(text) && ',' in text ==>
            (IsMatchEventIds(f, e) <==> exists i :: DelimitedAt(text, ',', id, i)))
      && (!IsBlank(text) && ',' !in text ==>
            (IsMatchEventIds(f, e) <==> exists i :: OccursAt(id, text, i)))
  {
    var text, id := f.eventIdsText, IntToString(e.item.eventId);
    IntToStringInjective(e.item.eventId, e.item.eventId);
    SplitMember(text, ',', id);
    ContainsIffOccurs(text, id);
  }

  /** Without a comma the test runs from the entry's id into the text: an id that is a
      prefix of the typed id is accepted while the typed id itself may not be a substring
      of the entry's id. */
  lemma EventIdSubstringDirection()
    ensures IsMatchEventIds(FilterState("10", "", [], [], None, None),
                            LogEntry("System", EventLogEntry(1, "", "", Error, 0)))
    ensures !IsMatchEventIds(FilterState("10", "", [], [], None, None),
                             LogEntry("System", EventLogEntry(100, "", "", Error, 0)))
  {
    assert !IsWhiteSpace("10"[0]);
    assert ',' !in "10";
    assert IntToString(1) == "1";
    assert "10"[..1] == "1";
    assert IntToString(100) == "100";
  }

  /** A text the TextChanged handler has sanitised holds no comma, so the comma branch
      never runs on it: the test is "blank, or the id occurs inside the text". */
  lemma SanitizedEventIdsNeverSplit(f: FilterState, e: LogEntry, typed: string)
    requires f.eventIdsText == KeepOnly(typed, EventIdInput.KeptAsWritten)
    ensures ',' !in f.eventIdsText
    ensures IsMatchEventIds(f, e) <==> IsBlank(f.eventIdsText) || Contains(f.eventIdsText, IntToString(e.item.eventId))
  {
    var text := f.eventIdsText;
    KeepOnlyExact(typed, EventIdInput.KeptAsWritten);
    EventIdInput.KeptAsWrittenMeaning(',');
    assert multiset(text)[','] == 0;
  }

  // ---------------------------------------------------------------- messages

  /** The foreach over the comma pieces: true as soon as one piece occurs in the message. */
  function AnyContained(message: string, words: seq<string>): (r: bool)
    ensures r <==> exists k :: 0 <= k < |words| && Contains(message, words[k])
  {
    if words == [] then false
    else
      assert forall k :: 1 <= k < |words| ==> words[1..][k - 1] == words[k];
      Contains(message, words[0]) || AnyContained(message, words[1..])
  }

  /** IsMatchMessages. With a comma, some piece must occur in the message; without one,
      the whole text must. */
  function IsMatchMessages(f: FilterState, e: LogEntry): bool
  {
    var text := f.messagesText;
    if IsBlank(text) then true
    else if ',' in text then
      var words := Split(text, ',');
      |words| > 0 && AnyContained(e.item.message, words)
    else Contains(e.item.message, text)
  }

  /** What the message predicate accepts, stated on offsets of the message. */
  lemma MessagesMatchMeaning(f: FilterState, e: LogEntry)
    ensures var text, msg := f.messagesText, e.item.message;
      && (IsBlank(text) ==> IsMatchMessages(f, e))
      && (!IsBlank(text) && ',' in text ==>
            (IsMatchMessages(f, e) <==>
              (exists k, i :: 0 <= k < |Split(text, ',')| && OccursAt(Split(text, ',')[k], msg, i))))
      && (!IsBlank(text) && ',' !in text ==>
            (IsMatchMessages(f, e) <==> exists i :: OccursAt(text, msg, i)))
  {
    var text, msg := f.messagesText, e.item.message;
    var words := Split(text, ',');
    forall k | 0 <= k < |words|
      ensures Contains(msg, words[k]) <==> exists i :: OccursAt(words[k], msg, i)
    {
      ContainsIffOccurs(msg, words[k]);
    }
    ContainsIffOccurs(msg, text);
  }

  /** A comma at either end of the message filter, or two commas in a row, leaves an empty
      piece, and the empty string occurs in every message: every entry passes. */
  lemma EmptyPieceMatchesEveryMessage(f: FilterState, e: LogEntry)
    requires var text := f.messagesText;
      |text| > 0 && (text[0] == ',' || text[|text| - 1] == ',' || Contains(text, ",,"))
    ensures IsMatchMessages(f, e)
  {
    var text := f.messagesText;
    var i: int;
    if text[0] == ',' {
      i := 0;
      assert DelimitedAt(text, ',', "", 0);
    } else if text[|text| - 1] == ',' {
      i := |text|;
      assert DelimitedAt(text, ',', "", |text|);
    } else {
      ContainsIffOccurs(text, ",,");
      var j :| OccursAt(",,", text, j);
      assert text[j..j + 2][0] == text[j] && text[j..j + 2][1] == text[j + 1];
      i := j + 1;
      assert DelimitedAt(text, ',', "", j + 1);
    }
    assert text[if i == |text| then i - 1 else i] == ',';
    assert !IsBlank(text) && ',' in text;
    SplitMember(text, ',', "");
    var k :| 0 <= k < |Split(text, ',')| && Split(text, ',')[k] == "";
    ContainsEmpty(e.item.message);
  }

  // ---------------------------------------------------------------- sources and levels

  /** IsMatchSources: an empty selection accepts everything, otherwise the entry's source
      must be selected. */
  function IsMatchSources(f: FilterState, e: LogEntry): (r: bool)
    ensures r <==> (f.sources == [] || e.item.source in f.sources)
  {
    if |f.sources| == 0 then true
    else |f.sources| > 0 && e.item.source in f.sources
  }

  /** IsMatchLevels: an empty selection accepts everything, otherwise the entry's level must
      be selected. */
  function IsMatchLevels(f: FilterState, e: LogEntry): (r: bool)
    ensures r <==> (f.levels == [] || e.item.entryType in f.levels)
  {
    if |f.levels| == 0 then true
    else |f.levels| > 0 && e.item.entryType in f.levels
  }

  /** The source and level decisions depend on the selections only as multisets, so
      checking a box and unchecking it again never changes which entries pass. */
  lemma SelectionsActAsMultisets(f: FilterState, g: FilterState, e: LogEntry)
    requires multiset(f.sources) == multiset(g.sources)
    requires multiset(f.levels) == multiset(g.levels)
    ensures IsMatchSources(f, e) == IsMatchSources(g, e)
    ensures IsMatchLevels(f, e) == IsMatchLevels(g, e)
  {
    assert e.item.source in f.sources <==> e.item.source in multiset(f.sources);
    assert e.item.entryType in f.levels <==> e.item.entryType in multiset(f.levels);
    if f.sources == [] {
      assert |multiset(g.sources)| == 0;
    }
    if g.sources == [] {
      assert |multiset(f.sources)| == 0;
    }
    if f.levels == [] {
      assert |multiset(g.levels)| == 0;
    }
    if g.levels == [] {
      assert |multiset(f.levels)| == 0;
    }
  }

  // ---------------------------------------------------------------- time written

  /** `time >= bound` on a nullable DateTime: the lifted comparison is false against null. */
  predicate AtOrAfter(time: int, bound: Option<int>) {
    bound.Some? && time >= bound.value
  }

  /** `time <= bound` on a nullable DateTime: the lifted comparison is false against null. */
  predicate AtOrBefore(time: int, bound: Option<int>) {
    bound.Some? && time <= bound.value
  }

  /** IsMatchDateTime: no bound accepts everything, two bounds accept the closed range, and
      a single bound accepts nothing. */
  function IsMatchDateTime(f: FilterState, e: LogEntry): (r: bool)
    ensures r <==> ((f.from.None? && f.to.None?)
                    || (f.from.Some? && f.to.Some? && f.from.value <= e.item.timeWritten <= f.to.value))
    ensures f.from.Some? != f.to.Some? ==> !r
  {
    var time := e.item.timeWritten;
    if f.from.None? && f.to.None? then true
    else AtOrAfter(time, f.from) && AtOrBefore(time, f.to)
  }

  // ---------------------------------------------------------------- the grid's filter callback

  function AllMatch(f: FilterState, e: LogEntry): bool {
    IsMatchSources(f, e) && IsMatchMessages(f, e) && IsMatchEventIds(f, e)
    && IsMatchLevels(f, e) && IsMatchDateTime(f, e)
  }

  /** CollectionViewSource_Filter: the new FilterEventArgs.Accepted for `item`, given its
      value `accepted` on entry. A null item leaves it as it was. */
  function FilterItem(f: FilterState, item: Option<LogEntry>, accepted: bool): (r: bool)
    ensures item.None? ==> r == accepted
    ensures item.Some? ==>
      (r <==> (IsMatchSources(f, item.value) && IsMatchMessages(f, item.value)
               && IsMatchEventIds(f, item.value) && IsMatchLevels(f, item.value)
               && IsMatchDateTime(f, item.value)))
  {
    match item
    case None => accepted
    case Some(entry) => AllMatch(f, entry)
  }

  /** The rows the grid shows: the entries the callback accepts (Accepted starts out true),
      in collection order. */
  function Visible(f: FilterState, entries: seq<LogEntry>): seq<LogEntry>
  {
    if entries == [] then []
    else (if FilterItem(f, Some(entries[0]), true) then [entries[0]] else [])
         + Visible(f, entries[1..])
  }

  /** The visible rows are exactly the entries passing all five predicates, in order. */
  lemma {:induction false} VisibleExact(f: FilterState, entries: seq<LogEntry>)
    ensures forall i :: 0 <= i < |Visible(f, entries)| ==> AllMatch(f, Visible(f, entries)[i])
    ensures forall i :: 0 <= i < |entries| && AllMatch(f, entries[i]) ==> entries[i] in Visible(f, entries)
    ensures forall i :: 0 <= i < |Visible(f, entries)| ==> Visible(f, entries)[i] in entries
  {
    if entries != [] {
      VisibleExact(f, entries[1..]);
      assert forall i :: 1 <= i < |entries| ==> entries[i] == entries[1..][i - 1];
    }
  }

  lemma {:induction false} VisibleConcat(f: FilterState, a: seq<LogEntry>, b: seq<LogEntry>)
    ensures Visible(f, a + b) == Visible(f, a) + Visible(f, b)
  {
    if a == [] {
      assert a + b == b;
    } else {
      assert (a + b)[0] == a[0];
      assert (a + b)[1..] == a[1..] + b;
      VisibleConcat(f, a[1..], b);
    }
  }

  /** With every filter input empty the grid shows the whole collection, in order. */
  lemma {:induction false} UnsetFilterShowsAll(f: FilterState, entries: seq<LogEntry>)
    requires IsUnset(f)
    ensures Visible(f, entries) == entries
  {
    if entries != [] {
      UnsetFilterShowsAll(f, entries[1..]);
    }
  }

  // ---------------------------------------------------------------- worked cases

  function IdEntry(id: int, time: int): LogEntry {
    LogEntry("Application", EventLogEntry(id, "", "", Information, time))
  }

  /** Visible on a list of entries, one entry at a time. */
  lemma VisibleCons(f: FilterState, e: LogEntry, rest: seq<LogEntry>)
    ensures Visible(f, [e] + rest) == (if AllMatch(f, e) then [e] else []) + Visible(f, rest)
  {
    assert ([e] + rest)[0] == e;
    assert ([e] + rest)[1..] == rest;
  }

  lemma SplitPair()
    ensures Split("100,200", ',') == ["100", "200"]
  {
    var text := "100,200";
    assert IndexOf(text, ',') == 3;
    assert text[..3] == "100" && text[4..] == "200";
    assert IndexOf("200", ',') == 3;
  }

  lemma CommaTextFacts(text: string)
    requires text == "100,200"
    ensures !IsBlank(text) && ',' in text
    ensures Split(text, ',') == ["100", "200"]
  {
    assert !IsWhiteSpace(text[0]) && text[3] == ',';
    SplitPair();
  }

  lemma IdTexts()
    ensures IntToString(100) == "100" && IntToString(150) == "150" && IntToString(200) == "200"
  {
  }

  lemma CommaListIds(f: FilterState)
    requires f == FilterState("100,200", "", [], [], None, None)
    ensures IsMatchEventIds(f, IdEntry(100, 0))
    ensures !IsMatchEventIds(f, IdEntry(150, 0))
    ensures IsMatchEventIds(f, IdEntry(200, 0))
  {
    CommaTextFacts(f.eventIdsText);
    IdTexts();
  }

  lemma CommaListAll(f: FilterState)
    requires f == FilterState("100,200", "", [], [], None, None)
    ensures AllMatch(f, IdEntry(100, 0)) && !AllMatch(f, IdEntry(150, 0)) && AllMatch(f, IdEntry(200, 0))
  {
    CommaListIds(f);
  }

  /** "100,200" keeps ids 100 and 200 and drops 150. */
  lemma CommaListScenario(f: FilterState, entries: seq<LogEntry>)
    requires f == FilterState("100,200", "", [], [], None, None)
    requires entries == [IdEntry(100, 0), IdEntry(150, 0), IdEntry(200, 0)]
    ensures Visible(f, entries) == [IdEntry(100, 0), IdEntry(200, 0)]
  {
    CommaListAll(f);
    VisibleCons(f, IdEntry(200, 0), []);
    VisibleCons(f, IdEntry(150, 0), [IdEntry(200, 0)]);
    VisibleCons(f, IdEntry(100, 0), [IdEntry(150, 0), IdEntry(200, 0)]);
  }

  lemma SubstringIds(f: FilterState)
    requires f == FilterState("10", "", [], [], None, None)
    ensures AllMatch(f, IdEntry(1, 0)) && AllMatch(f, IdEntry(10, 0))
    ensures !AllMatch(f, IdEntry(100, 0)) && !AllMatch(f, IdEntry(210, 0))
  {
    var text := f.eventIdsText;
    assert !IsWhiteSpace(text[0]);
    assert ',' !in text;
    assert IntToString(1) == "1";
    assert text[..1] == "1";
    assert IntToString(10) == "10";
    assert text[..2] == "10";
    assert IntToString(100) == "100";
    assert IntToString(210) == "210";
  }

  /** "10" without a comma keeps ids 1 and 10 (their digits occur in "10") and drops 100 and 210. */
  lemma SubstringScenario(f: FilterState, entries: seq<LogEntry>)
    requires f == FilterState("10", "", [], [], None, None)
    requires entries == [IdEntry(1, 0), IdEntry(10, 0), IdEntry(100, 0), IdEntry(210, 0)]
    ensures Visible(f, entries) == [IdEntry(1, 0), IdEntry(10, 0)]
  {
    SubstringIds(f);
    VisibleCons(f, IdEntry(210, 0), []);
    VisibleCons(f, IdEntry(100, 0), [IdEntry(210, 0)]);
    VisibleCons(f, IdEntry(10, 0), [IdEntry(100, 0), IdEntry(210, 0)]);
    VisibleCons(f, IdEntry(1, 0), [IdEntry(10, 0), IdEntry(100, 0), IdEntry(210, 0)]);
  }

  /** The range [1, 31] keeps an entry written at 15 and drops one written at 32; a lone
      lower bound drops both. */
  lemma DateRangeScenario()
    ensures Visible(FilterState("", "", [], [], Some(1), Some(31)), [IdEntry(7, 15), IdEntry(7, 32)])
         == [IdEntry(7, 15)]
    ensures Visible(FilterState("", "", [], [], Some(1), None), [IdEntry(7, 15), IdEntry(7, 32)])
         == []
  {
  }
}
