/** The main window's state and the handlers that change it: checking and unchecking an
    event log (materialising and removing its entries and sources), the source and level
    filter check boxes, and the event-id text box's TextChanged handler. */
module Window {
  import opened Wrappers
  import opened Text
  import opened Sequences
  import opened Entries
  import opened Filters
  import EventIdInput

  /** How many entries the enumeration hands out before MoveNext throws at call `failAt`
      (calls counted from 0; call |entries| is the one that would report the end). */
  function Enumerated(count: nat, failAt: Option<nat>): (n: nat)
    ensures n <= count
    ensures failAt.None? ==> n == count
  {
    if failAt.Some? && failAt.value <= count then failAt.value else count
  }

  class MainWindow {
    /** Resources["eventLogEntries"]. */
    var entries: seq<LogEntry>
    /** Resources["eventSources"]. */
    var sources: seq<EventSource>
    /** selectedFilterEventSources and selectedFilterLevels, in selection order. */
    var selectedSources: seq<string>
    var selectedLevels: seq<EntryType>
    /** textBoxEventIds.Text, textBoxMessages.Text, and the two date pickers' values. */
    var eventIdsText: string
    var messagesText: string
    var dateFrom: Option<int>
    var dateTo: Option<int>

    /** The window as it opens: empty collections, empty text boxes, nothing selected. */
    constructor ()
      ensures entries == [] && sources == []
      ensures selectedSources == [] && selectedLevels == []
      ensures eventIdsText == "" && messagesText == "" && dateFrom.None? && dateTo.None?
    {
      entries := [];
      sources := [];
      selectedSources := [];
      selectedLevels := [];
      eventIdsText := "";
      messagesText := "";
      dateFrom := None;
      dateTo := None;
    }

    /** checkBoxEventLog_Checked. Appends every entry of the log, tagged with its name, then
        one EventSource per distinct source name, in order of first appearance. When the
        enumeration throws (at MoveNext call `failAt`), the entries appended so far stay,
        no source is added, and `ok` is false. */
    method CheckLog(log: EventLog, failAt: Option<nat>) returns (ok: bool)
      modifies this`entries, this`sources
      ensures ok <==> (failAt.None? || failAt.value > |log.entries|)
      ensures entries == old(entries) + Tagged(log.log, log.entries[..Enumerated(|log.entries|, failAt)])
      ensures ok ==> sources == old(sources) + SourceRefs(log.log, Distinct(SourceNames(log.entries)))
      ensures !ok ==> sources == old(sources)
    {
      var logSources: seq<string> := [];
      var i := 0;
      while i < |log.entries| && failAt != Some(i)
        invariant 0 <= i <= |log.entries|
        invariant failAt.Some? ==> failAt.value >= i
        invariant entries == old(entries) + Tagged(log.log, log.entries[..i])
        invariant logSources == SourceNames(log.entries[..i])
        invariant sources == old(sources)
      {
        var entry := log.entries[i];
        LoadStep(log.log, log.entries, i);
        logSources := logSources + [entry.source];
        entries := entries + [LogEntry(log.log, entry)];
        i := i + 1;
      }
      if failAt == Some(i) {
        // MoveNext threw: the message box is shown and the handler ends here
        assert Enumerated(|log.entries|, failAt) == i;
        return false;
      }
      assert Enumerated(|log.entries|, failAt) == i == |log.entries|;
      assert log.entries[..i] == log.entries;
      var uniqueSources := Distinct(logSources);
      for j := 0 to |uniqueSources|
        invariant sources == old(sources) + SourceRefs(log.log, uniqueSources[..j])
        invariant entries == old(entries) + Tagged(log.log, log.entries)
      {
        SourceRefsStep(log.log, uniqueSources, j);
        sources := sources + [EventSource(log.log, uniqueSources[j])];
      }
      assert uniqueSources[..|uniqueSources|] == uniqueSources;
      ok := true;
    }

    /** checkBoxEventLog_Unchecked. Collects the items owned by the log, then removes them
        one by one (each removal drops the first equal item): what is left is every item of
        another log, in its original order. */
    method UncheckLog(log: EventLog)
      modifies this`entries, this`sources
      ensures sources == Unowned(old(sources), SourceParent, log.log)
      ensures entries == Unowned(old(entries), EntryLog, log.log)
    {
      var sourcesToRemove := Owned(sources, SourceParent, log.log);
      DropNone(sources, SourceParent, log.log);
      for i := 0 to |sourcesToRemove|
        invariant sources == DropOwned(old(sources), SourceParent, log.log, i)
        invariant entries == old(entries)
      {
        DropStep(old(sources), SourceParent, log.log, i);
        sources := RemoveFirst(sources, sourcesToRemove[i]);
      }
      DropAll(old(sources), SourceParent, log.log);

      var entriesToRemove := Owned(entries, EntryLog, log.log);
      DropNone(entries, EntryLog, log.log);
      for i := 0 to |entriesToRemove|
        invariant entries == DropOwned(old(entries), EntryLog, log.log, i)
        invariant sources == Unowned(old(sources), SourceParent, log.log)
      {
        DropStep(old(entries), EntryLog, log.log, i);
        entries := RemoveFirst(entries, entriesToRemove[i]);
      }
      DropAll(old(entries), EntryLog, log.log);
    }

    /** checkBoxEventSource_Checked: a null data context adds nothing. */
    method CheckSource(es: Option<EventSource>)
      modifies this`selectedSources
      ensures selectedSources == if es.Some? then old(selectedSources) + [es.value.name] else old(selectedSources)
    {
      if es.Some? {
        selectedSources := selectedSources + [es.value.name];
      }
    }

    /** checkBoxEventSource_Unchecked: removes the first occurrence of the source's name. */
    method UncheckSource(es: Option<EventSource>)
      modifies this`selectedSources
      ensures selectedSources == if es.Some? then RemoveFirst(old(selectedSources), es.value.name) else old(selectedSources)
    {
      if es.Some? {
        selectedSources := RemoveFirst(selectedSources, es.value.name);
      }
    }

    /** levelCheckBox_Checked. */
    method CheckLevel(level: EntryType)
      modifies this`selectedLevels
      ensures selectedLevels == old(selectedLevels) + [level]
    {
      selectedLevels := selectedLevels + [level];
    }

    /** levelCheckBox_Unchecked: removes the first occurrence of the level. */
    method UncheckLevel(level: EntryType)
      modifies this`selectedLevels
      ensures selectedLevels == RemoveFirst(old(selectedLevels), level)
    {
      selectedLevels := RemoveFirst(selectedLevels, level);
    }

    /** textBoxEventIds_TextChanged as written: the box keeps the characters its per-character
        regex test accepts, which are the digits and the line feed (see EventIdInput). */
    method EventIdsTextChanged()
      modifies this`eventIdsText
      ensures eventIdsText == KeepOnly(old(eventIdsText), EventIdInput.KeptAsWritten)
      ensures forall i :: 0 <= i < |eventIdsText| ==> IsAsciiDigit(eventIdsText[i]) || eventIdsText[i] == '\n'
    {
      eventIdsText := EventIdInput.SanitizeAsWritten(eventIdsText);
    }
  }

  /** One round of the load loop. */
  lemma LoadStep(log: string, es: seq<EventLogEntry>, i: nat)
    requires i < |es|
    ensures Tagged(log, es[..i + 1]) == Tagged(log, es[..i]) + [LogEntry(log, es[i])]
    ensures SourceNames(es[..i + 1]) == SourceNames(es[..i]) + [es[i].source]
  {
    assert es[..i + 1][..i] == es[..i];
  }

  lemma SourceRefsStep(log: string, names: seq<string>, j: nat)
    requires j < |names|
    ensures SourceRefs(log, names[..j + 1]) == SourceRefs(log, names[..j]) + [EventSource(log, names[j])]
  {
    assert names[..j + 1][..j] == names[..j];
  }

  // ---------------------------------------------------------------- what loading and unloading mean

  /** The sources a load appends are tagged with the log, name exactly the source names of
      its entries, and name each of them once. */
  lemma LoadedSourcesExact(log: string, es: seq<EventLogEntry>, name: string)
    ensures var added := SourceRefs(log, Distinct(SourceNames(es)));
      && (forall i :: 0 <= i < |added| ==> added[i].parent == log)
      && (EventSource(log, name) in added <==> exists j :: 0 <= j < |es| && es[j].source == name)
      && (forall i, j :: 0 <= i < j < |added| ==> added[i] != added[j])
  {
    var unique := Distinct(SourceNames(es));
    SourceRefsAt(log, unique);
    SourceRefsMember(log, unique, name);
    DistinctMember(SourceNames(es), name);
    SourceNamesMember(es, name);
  }

  lemma SourceRefsMember(log: string, names: seq<string>, name: string)
    ensures EventSource(log, name) in SourceRefs(log, names) <==> name in names
  {
    SourceRefsAt(log, names);
    if name in names {
      var i :| 0 <= i < |names| && names[i] == name;
      assert SourceRefs(log, names)[i] == EventSource(log, name);
    }
  }

  lemma SourceNamesMember(es: seq<EventLogEntry>, name: string)
    ensures name in SourceNames(es) <==> exists j :: 0 <= j < |es| && es[j].source == name
  {
    SourceNamesAt(es);
    if exists j :: 0 <= j < |es| && es[j].source == name {
      var j :| 0 <= j < |es| && es[j].source == name;
      assert SourceNames(es)[j] == name;
    }
  }

  /** Unloading leaves nothing of the log and keeps every item of another log. */
  lemma UnloadRemovesExactly<T>(items: seq<T>, owner: T -> string, log: string)
    ensures forall i :: 0 <= i < |Unowned(items, owner, log)| ==> owner(Unowned(items, owner, log)[i]) != log
    ensures forall i :: 0 <= i < |items| && owner(items[i]) != log ==> items[i] in Unowned(items, owner, log)
    ensures forall x :: x in Unowned(items, owner, log) ==> x in items
  {
    UnownedHasNoOwned(items, owner, log);
    UnownedSubset(items, owner, log);
  }

  lemma {:induction false} UnownedSubset<T>(items: seq<T>, owner: T -> string, log: string)
    ensures forall x :: x in Unowned(items, owner, log) ==> x in items
  {
    if items != [] {
      UnownedSubset(items[1..], owner, log);
    }
  }

  /** Checking a log that has nothing in the collections yet and unchecking it again gives
      back the collections exactly, also after a load that threw part-way. */
  lemma LoadThenUnload(entries: seq<LogEntry>, sources: seq<EventSource>, log: EventLog, n: nat, names: seq<string>)
    requires n <= |log.entries|
    requires forall i :: 0 <= i < |entries| ==> entries[i].log != log.log
    requires forall i :: 0 <= i < |sources| ==> sources[i].parent != log.log
    ensures Unowned(entries + Tagged(log.log, log.entries[..n]), EntryLog, log.log) == entries
    ensures Unowned(sources + SourceRefs(log.log, names), SourceParent, log.log) == sources
  {
    var added := Tagged(log.log, log.entries[..n]);
    TaggedAt(log.log, log.entries[..n]);
    UnownedConcat(entries, added, EntryLog, log.log);
    UnownedExtremes(entries, EntryLog, log.log);
    UnownedExtremes(added, EntryLog, log.log);
    var refs := SourceRefs(log.log, names);
    SourceRefsAt(log.log, names);
    UnownedConcat(sources, refs, SourceParent, log.log);
    UnownedExtremes(sources, SourceParent, log.log);
    UnownedExtremes(refs, SourceParent, log.log);
  }

  /** Checking a source or level box and unchecking it again restores the selection as a
      multiset (not always its order), so the filter decision on every entry is unchanged. */
  lemma SelectionRoundTrip(f: FilterState, source: string, level: EntryType, e: LogEntry)
    ensures multiset(RemoveFirst(f.sources + [source], source)) == multiset(f.sources)
    ensures multiset(RemoveFirst(f.levels + [level], level)) == multiset(f.levels)
    ensures IsMatchSources(f.(sources := RemoveFirst(f.sources + [source], source)), e) == IsMatchSources(f, e)
    ensures IsMatchLevels(f.(levels := RemoveFirst(f.levels + [level], level)), e) == IsMatchLevels(f, e)
  {
    AddThenRemove(f.sources, source);
    AddThenRemove(f.levels, level);
    SelectionsActAsMultisets(f.(sources := RemoveFirst(f.sources + [source], source),
                                levels := RemoveFirst(f.levels + [level], level)), f, e);
  }

  /** The round trip can reorder: with "a" already selected, re-checking and unchecking
      "a" moves it behind "b". */
  lemma SelectionRoundTripReorders()
    ensures RemoveFirst(["a", "b"] + ["a"], "a") == ["b", "a"]
  {
    assert (["a", "b"] + ["a"])[0] == "a";
    assert (["a", "b"] + ["a"])[1..] == ["b", "a"];
  }
}
