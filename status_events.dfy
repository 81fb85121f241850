/**
 * StatusChangeEventArgs and the rule both status loggers use to decide
 * whether an assignment raises Changed.
 */
module StatusEvents {
  import opened Wrappers
  import opened Text
  import opened StatusValues
  import opened StatusTree

  /** `new DateTime()`: the event constructor never reads the clock, so every event carries tick 0. */
  const DefaultTimestamp: int := 0

  /** The event passed to Changed; a key that had no value reports Leaf(Null) as its old value. */
  datatype StatusChangeEventArgs = StatusChangeEventArgs(
    timestamp: int,
    key: string,
    oldValue: Entry,
    oldValueString: string,
    newValue: Value,
    newValueString: string)

  /** `new StatusChangeEventArgs(key, oldValue, newValue)`. */
  function NewEvent(key: string, oldValue: Entry, newValue: Value): StatusChangeEventArgs
  {
    StatusChangeEventArgs(DefaultTimestamp, key, oldValue, FormatEntry(oldValue), newValue, FormatValue(newValue))
  }

  /** The event built for a key that had no value: old value null, texts "null" and the new value's. */
  lemma NewKeyEvent(key: string, v: Value)
    ensures NewEvent(key, Leaf(Null), v).timestamp == DefaultTimestamp
    ensures NewEvent(key, Leaf(Null), v).oldValueString == "null"
    ensures NewEvent(key, Leaf(Null), v).newValueString == FormatValue(v)
  {
  }

  /**
   * What InnerSetStatus reports before `group[key] = value`: the old entry
   * when it prints differently from the new value, Leaf(Null) when the key
   * is new, and nothing when the texts agree.
   */
  function ChangeReport(root: Entry, parts: Path, v: Value): Option<Entry>
  {
    match At(root, parts)
    case None => Some(Leaf(Null))
    case Some(o) => if FormatEntry(o) != FormatValue(v) then Some(o) else None
  }

  /** The events the local logger raises for a report. */
  function Events(key: string, report: Option<Entry>, v: Value): (r: seq<StatusChangeEventArgs>)
    ensures |r| <= 1
    ensures r == [] <==> report.None?
    ensures r != [] ==> r[0].key == key && r[0].oldValue == report.value && r[0].newValue == v
  {
    match report
    case None => []
    case Some(o) => [NewEvent(key, o, v)]
  }

  /**
   * An event is raised exactly when the key is new or the text FormatValue
   * prints for it changes; it reports the entry being replaced, and then the
   * two texts differ.
   */
  lemma ReportExactly(root: Entry, parts: Path, v: Value)
    ensures ChangeReport(root, parts, v).None? <==>
      At(root, parts).Some? && FormatEntry(At(root, parts).value) == FormatValue(v)
    ensures At(root, parts) == None ==> ChangeReport(root, parts, v) == Some(Leaf(Null))
    ensures At(root, parts).Some? && ChangeReport(root, parts, v).Some? ==>
      ChangeReport(root, parts, v) == At(root, parts) && FormatEntry(At(root, parts).value) != FormatValue(v)
  {
  }

  /** The report as InnerSetStatus computes it, from the group g that holds the last segment k. */
  function GroupReport(g: Entry, k: string, v: Value): Option<Entry>
    requires g.Group?
  {
    if k !in g.children then Some(Leaf(Null))
    else if FormatEntry(g.children[k]) != FormatValue(v) then Some(g.children[k])
    else None
  }

  /**
   * Once the walk of GetGroupAndKey has succeeded with tree t, the store
   * writes into t's last group, and the report read from that group is the
   * report on the original tree.
   */
  lemma WalkedStore(root: Entry, parts: Path, v: Value, t: Entry)
    requires root.Group? && |parts| >= 1 && EnsurePath(root, parts[..|parts| - 1]) == Ok(t)
    ensures IsGroupAt(t, parts[..|parts| - 1])
    ensures Store(root, parts, v) == Ok(PutAt(t, parts[..|parts| - 1], parts[|parts| - 1], Leaf(v)))
    ensures ChangeReport(root, parts, v) == GroupReport(At(t, parts[..|parts| - 1]).value, parts[|parts| - 1], v)
    ensures Valid(root) ==> Valid(Store(root, parts, v).value)
  {
    var gp, k := parts[..|parts| - 1], parts[|parts| - 1];
    GroupAndKeyOfPath(parts);
    EnsurePathSucceeds(root, gp);
    assert gp[..|gp|] == gp;
    AtSnoc(t, gp, k);
    assert !(parts <= gp);
    StoreSucceeds(root, parts, v);
  }

  /**
   * What SetStatus(key, v) does to the tree under root: the ArgumentException
   * for the first group segment of the key that holds a value, or the tree
   * with v stored under the key and the report of the event raised first.
   */
  datatype SetResult = Conflict(message: string) | Stored(tree: Entry, report: Option<Entry>)

  function SetOutcome(root: Entry, key: string, v: Value): (r: SetResult)
    requires root.Group?
    ensures var parts := Split(key, {'.'});
      (r.Conflict? <==> HasLeafPrefix(root, parts[..|parts| - 1]))
      && (r.Stored? ==> At(r.tree, parts) == Some(Leaf(v)))
  {
    var parts := Split(key, {'.'});
    StoreFails(root, parts, v);
    match Store(root, parts, v)
    case Err(i) => Conflict(ConflictMessage(parts[..i + 1]))
    case Ok(d) => StoreSucceeds(root, parts, v); Stored(d, ChangeReport(root, parts, v))
  }

  /** When the walk of GetGroupAndKey stops at a segment holding a value, SetOutcome is the conflict it names. */
  lemma OutcomeOfConflict(root: Entry, key: string, v: Value)
    requires root.Group?
    requires var parts := Split(key, {'.'}); EnsurePath(root, parts[..|parts| - 1]).Err?
    ensures var parts := Split(key, {'.'});
      var i := EnsurePath(root, parts[..|parts| - 1]).error;
      i < |parts| - 1 && SetOutcome(root, key, v) == Conflict(ConflictMessage(parts[..i + 1]))
  {
    var parts := Split(key, {'.'});
    var i := EnsurePath(root, parts[..|parts| - 1]).error;
    assert Store(root, parts, v) == Err(i);
    StoreFails(root, parts, v);
  }

  /**
   * When the walk succeeds with tree t, SetOutcome is `group[key] = value` in
   * t's last group, with the report read from that group.
   */
  lemma OutcomeOfWalk(root: Entry, key: string, v: Value, t: Entry)
    requires root.Group?
    requires var parts := Split(key, {'.'}); EnsurePath(root, parts[..|parts| - 1]) == Ok(t)
    ensures var parts := Split(key, {'.'});
      var gp, k := parts[..|parts| - 1], parts[|parts| - 1];
      IsGroupAt(t, gp)
      && SetOutcome(root, key, v) == Stored(PutAt(t, gp, k, Leaf(v)), GroupReport(At(t, gp).value, k, v))
      && (Valid(root) ==> Valid(PutAt(t, gp, k, Leaf(v))))
  {
    var parts := Split(key, {'.'});
    WalkedStore(root, parts, v, t);
  }

  /** For a key that holds a value, an event is raised exactly when its Dump line would change. */
  lemma {:induction false} ReportIffDumpLineChanges(root: Entry, parts: Path, v: Value)
    requires IsLeafAt(root, parts)
    ensures ChangeReport(root, parts, v).None? <==> DumpLine(parts, At(root, parts).value.value) == DumpLine(parts, v)
  {
    var o := At(root, parts).value.value;
    var head := PathText(parts) + ": ";
    assert DumpLine(parts, o) == head + FormatValue(o);
    assert DumpLine(parts, v) == head + FormatValue(v);
    if DumpLine(parts, o) == DumpLine(parts, v) {
      assert FormatValue(o) == DumpLine(parts, o)[|head|..];
      assert FormatValue(v) == DumpLine(parts, v)[|head|..];
    }
  }

  /** Repeating a successful assignment raises no event and leaves the tree as it was. */
  lemma RepeatIsSilent(root: Entry, parts: Path, v: Value)
    requires root.Group? && |parts| >= 1 && Store(root, parts, v).Ok?
    ensures ChangeReport(Store(root, parts, v).value, parts, v) == None
    ensures Store(Store(root, parts, v).value, parts, v) == Store(root, parts, v)
  {
    StoreSucceeds(root, parts, v);
    StoreIdempotent(root, parts, v);
  }
}
