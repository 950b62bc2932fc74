/** The values the window works on: event-log entries as the operating system reports them,
    the window's (log, entry) pairs and (log, source) pairs, and an event log as a name plus
    its entries in enumeration order. */
module Entries {
  /** EventLogEntryType. */
  datatype EntryType = Error | Warning | Information | SuccessAudit | FailureAudit

  /** EventLogEntry, reduced to the fields the filters read; TimeWritten as a tick count. */
  datatype EventLogEntry = EventLogEntry(
    eventId: int,
    message: string,
    source: string,
    entryType: EntryType,
    timeWritten: int)

  /** LogEntry: an entry tagged with the name of the log it was read from. */
  datatype LogEntry = LogEntry(log: string, item: EventLogEntry)

  /** EventSource: a source name tagged with the name of its log (SourceParent). */
  datatype EventSource = EventSource(parent: string, name: string)

  /** EventLog: the log's name (EventLog.Log) and its entries in enumeration order. */
  datatype EventLog = EventLog(log: string, entries: seq<EventLogEntry>)

  function EntryLog(e: LogEntry): string { e.log }

  function SourceParent(s: EventSource): string { s.parent }

  /** `es` wrapped as LogEntry(log, e), in order. */
  function Tagged(log: string, es: seq<EventLogEntry>): seq<LogEntry>
  {
    if es == [] then [] else Tagged(log, es[..|es| - 1]) + [LogEntry(log, es[|es| - 1])]
  }

  /** The Source of each entry, in order. */
  function SourceNames(es: seq<EventLogEntry>): seq<string>
  {
    if es == [] then [] else SourceNames(es[..|es| - 1]) + [es[|es| - 1].source]
  }

  /** `names` wrapped as EventSource(log, n), in order. */
  function SourceRefs(log: string, names: seq<string>): seq<EventSource>
  {
    if names == [] then [] else SourceRefs(log, names[..|names| - 1]) + [EventSource(log, names[|names| - 1])]
  }

  lemma {:induction false} TaggedAt(log: string, es: seq<EventLogEntry>)
    ensures |Tagged(log, es)| == |es|
    ensures forall i :: 0 <= i < |es| ==> Tagged(log, es)[i] == LogEntry(log, es[i])
  {
    if es != [] {
      TaggedAt(log, es[..|es| - 1]);
    }
  }

  lemma {:induction false} SourceNamesAt(es: seq<EventLogEntry>)
    ensures |SourceNames(es)| == |es|
    ensures forall i :: 0 <= i < |es| ==> SourceNames(es)[i] == es[i].source
  {
    if es != [] {
      SourceNamesAt(es[..|es| - 1]);
    }
  }

  lemma {:induction false} SourceRefsAt(log: string, names: seq<string>)
    ensures |SourceRefs(log, names)| == |names|
    ensures forall i :: 0 <= i < |names| ==> SourceRefs(log, names)[i] == EventSource(log, names[i])
  {
    if names != [] {
      SourceRefsAt(log, names[..|names| - 1]);
    }
  }
}
