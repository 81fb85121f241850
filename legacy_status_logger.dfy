/**
 * The older singleton StatusLogger: the same store as LocalStatusLogger, its
 * own event type without a timestamp, and a handler that appends one line
 * per event to statuslogger.log.
 */
module LegacyStatusLogging {
  import opened Wrappers
  import opened Text
  import opened StatusValues
  import opened StatusTree
  import opened StatusEvents

  /** The legacy StatusChangeEventArgs: no timestamp. */
  datatype LegacyChange = LegacyChange(
    key: string,
    oldValue: Entry,
    oldValueString: string,
    newValue: Value,
    newValueString: string)

  function NewLegacyChange(key: string, oldValue: Entry, newValue: Value): LegacyChange
  {
    LegacyChange(key, oldValue, FormatEntry(oldValue), newValue, FormatValue(newValue))
  }

  /**
   * The line OnChanged writes, given the formatted time: "[time] key: old -> new"
   * when the new value is null, "[time] key: new" otherwise.
   */
  function LogLine(timestamp: string, e: LegacyChange): string
  {
    var head := "[" + timestamp + "] " + e.key + ": ";
    if e.newValue == Null then head + e.oldValueString + " -> " + e.newValueString
    else head + e.newValueString
  }

  /**
   * Every log line starts with the bracketed time and the key, and ends with
   * the new value's text; the old value's text appears exactly when the new
   * value is null.
   */
  lemma LogLineShape(timestamp: string, e: LegacyChange)
    ensures var line := LogLine(timestamp, e);
      var head := "[" + timestamp + "] " + e.key + ": ";
      && |line| >= |head| + |e.newValueString|
      && line[..|head|] == head
      && line[|line| - |e.newValueString|..] == e.newValueString
      && (e.newValue == Null <==> line[|head|..] == e.oldValueString + " -> " + e.newValueString)
  {
    var line := LogLine(timestamp, e);
    var head := "[" + timestamp + "] " + e.key + ": ";
    if e.newValue != Null {
      assert line[|head|..] == e.newValueString;
      assert |e.oldValueString + " -> " + e.newValueString| > |e.newValueString|;
    }
  }

  /** The events the legacy logger raises for a report. */
  function LegacyEvents(key: string, report: Option<Entry>, v: Value): (r: seq<LegacyChange>)
    ensures |r| <= 1
    ensures r == [] <==> report.None?
    ensures r != [] ==> r[0].key == key && r[0].oldValue == report.value && r[0].newValue == v
  {
    match report
    case None => []
    case Some(o) => [NewLegacyChange(key, o, v)]
  }

  /** The lines OnChanged appends for a sequence of events. */
  function LogLines(timestamp: string, es: seq<LegacyChange>): (r: seq<string>)
    ensures |r| == |es|
    ensures forall i :: 0 <= i < |es| ==> r[i] == LogLine(timestamp, es[i])
  {
    if es == [] then [] else [LogLine(timestamp, es[0])] + LogLines(timestamp, es[1..])
  }

  class StatusLogger {
    /** The root dictionary. */
    var data: Entry
    /** Every event passed to Changed, oldest first. */
    var changed: seq<LegacyChange>
    /** The lines of statuslogger.log written since the logger was created. */
    var logFile: seq<string>

    ghost predicate Valid()
      reads this
    {
      data.Group? && StatusTree.Valid(data)
    }

    /** The private constructor: OnChanged subscribed, the log file truncated. */
    constructor()
      ensures Valid()
      ensures data == EmptyGroup && changed == [] && logFile == []
    {
      data := EmptyGroup;
      changed := [];
      logFile := [];
    }

    /**
     * SetStatus(key, value) / InnerSetStatus, with `now` the formatted
     * DateTime.Now that OnChanged stamps on its line: on an
     * ArgumentException nothing changes; otherwise the value is stored and
     * each raised event is also written to the log.
     */
    method SetStatus(key: string, value: Value, now: string) returns (error: Option<string>)
      requires Valid()
      modifies this
      ensures Valid()
      ensures match SetOutcome(old(data), key, value)
        case Conflict(m) =>
          error == Some(m) && data == old(data) && changed == old(changed) && logFile == old(logFile)
        case Stored(d, report) =>
          var es := LegacyEvents(key, report, value);
          error == None && data == d && changed == old(changed) + es && logFile == old(logFile) + LogLines(now, es)
    {
      var r, walked := GetGroupAndKey(data, key);
      match r
      case Err(msg) =>
        OutcomeOfConflict(data, key, value);
        data := walked;
        error := Some(msg);
      case Ok((t, gp, k)) =>
        OutcomeOfWalk(data, key, value, t);
        Assign(key, value, now, t, gp, k);
        error := None;
    }

    /** `group[key] = value` in the walked tree t, after the event for the report has been raised and logged. */
    method Assign(key: string, value: Value, now: string, t: Entry, gp: Path, k: string)
      requires IsGroupAt(t, gp)
      modifies this
      ensures var es := LegacyEvents(key, GroupReport(At(t, gp).value, k, value), value);
        data == PutAt(t, gp, k, Leaf(value)) && changed == old(changed) + es
        && logFile == old(logFile) + LogLines(now, es)
    {
      var g := At(t, gp).value;
      var report: Option<Entry> := None;
      if k in g.children {
        if FormatEntry(g.children[k]) != FormatValue(value) {
          report := Some(g.children[k]);
        }
      } else {
        report := Some(Leaf(Null));
      }
      assert report == GroupReport(g, k, value);
      // Changed(this, e): OnChanged writes its line, then the event is delivered.
      var es := LegacyEvents(key, report, value);
      logFile := logFile + LogLines(now, es);
      changed := changed + es;
      data := PutAt(t, gp, k, Leaf(value));
    }

    /** Dump(): one line "." + dotted path + ": " + FormatValue for every stored value, in insertion order. */
    function Dump(): (r: seq<string>)
      reads this
      requires Valid()
      ensures r == Lines(Leaves(data))
    {
      DumpIsLeafLines(data);
      StatusTree.Dump(data)
    }
  }
}
