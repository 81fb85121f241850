/** LocalStatusLogger: the in-process hierarchical status store. */
module LocalStatusLogging {
  import opened Wrappers
  import opened Text
  import opened StatusValues
  import opened StatusTree
  import opened StatusEvents

  class LocalStatusLogger {
    /** The root dictionary `_data`. */
    var data: Entry
    /** Every event passed to Changed, oldest first. */
    var changed: seq<StatusChangeEventArgs>

    ghost predicate Valid()
      reads this
    {
      data.Group? && StatusTree.Valid(data)
    }

    constructor()
      ensures Valid()
      ensures data == EmptyGroup && changed == []
    {
      data := EmptyGroup;
      changed := [];
    }

    /**
     * SetStatus(key, value) / InnerSetStatus: an ArgumentException (returned as
     * the error) when a group segment of the key holds a value, and then nothing
     * changes; otherwise the value is stored under the key, after at most one
     * event that reports the replaced entry.
     */
    method SetStatus(key: string, value: Value) returns (error: Option<string>)
      requires Valid()
      modifies this
      ensures Valid()
      ensures match SetOutcome(old(data), key, value)
        case Conflict(m) =>
          error == Some(m) && data == old(data) && changed == old(changed)
        case Stored(d, report) =>
          error == None && data == d && changed == old(changed) + Events(key, report, value)
    {
      var r, walked := GetGroupAndKey(data, key);
      match r
      case Err(msg) =>
        OutcomeOfConflict(data, key, value);
        data := walked;
        error := Some(msg);
      case Ok((t, gp, k)) =>
        OutcomeOfWalk(data, key, value, t);
        Assign(key, value, t, gp, k);
        error := None;
    }

    /** `group[key] = value` in the walked tree t, after the event for the report has been raised. */
    method Assign(key: string, value: Value, t: Entry, gp: Path, k: string)
      requires IsGroupAt(t, gp)
      modifies this
      ensures data == PutAt(t, gp, k, Leaf(value))
      ensures changed == old(changed) + Events(key, GroupReport(At(t, gp).value, k, value), value)
    {
      var g := At(t, gp).value;
      var report: Option<Entry> := None;
      if k in g.children {
        if FormatEntry(g.children[k]) != FormatValue(value) {
          report := Some(g.children[k]);
        }
      } else {
        report := Some(Leaf(Null));
      }
      assert report == GroupReport(g, k, value);
      changed := changed + Events(key, report, value);
      data := PutAt(t, gp, k, Leaf(value));
    }

    /** Dump(): one line "." + dotted path + ": " + FormatValue for every stored value, in insertion order. */
    function Dump(): (r: seq<string>)
      reads this
      requires Valid()
      ensures r == Lines(Leaves(data))
    {
      DumpIsLeafLines(data);
      StatusTree.Dump(data)
    }
  }
}
