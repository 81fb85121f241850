/**
 * ListViewObjectBinding: keeps a ListView's items in step with a collection
 * of data objects. An object's item is looked up by the object's hash code
 * in decimal; sub-items follow the view's columns by name. A ListViewItem has
 * no Name of its own: Name reads and writes the name of SubItems[0], so once
 * UpdateItem has put the first column's sub-item first, the item carries that
 * column's name. Hash codes and the reflective property text are parameters.
 */
module ListBinding {
  import opened Wrappers
  import opened Seqs
  import opened Text

  /** A data object, by identity; the model has no null object. */
  type Obj = nat

  datatype SubItem = SubItem(name: string, text: string)

  /** A ListViewItem: its Tag (the data object) and its SubItems. */
  datatype ListItem = ListItem(tag: Obj, subItems: seq<SubItem>)

  /**
   * The items and the column header names of a ListView, and the items
   * collection's `lastAccessedIndex`: where its last successful key lookup hit.
   */
  datatype ListViewState = ListViewState(items: seq<ListItem>, columns: seq<string>, lastAccessed: int)

  /** How UpdateItem or Update ends. */
  datatype Outcome =
    | Done
      /** An Insert's index was beyond the end: ArgumentOutOfRangeException. */
    | InsertOutOfRange
      /** GetProperty or GetValue gave null, so `.ToString()` threw NullReferenceException. */
    | NullProperty
      /** UpdateItem's closing loop never ends (no columns). */
    | NeverEnds

  predicate DistinctNames(s: seq<string>)
  {
    forall i, j :: 0 <= i < j < |s| ==> s[i] != s[j]
  }

  /** ListViewItem.Name: the name of the first sub-item, and "" when there is none. */
  function Name(item: ListItem): string
  {
    if item.subItems == [] then "" else item.subItems[0].name
  }

  /** The SubItems getter: a list without sub-items first gets a new unnamed sub-item 0. */
  function Materialized(subs: seq<SubItem>): (r: seq<SubItem>)
    ensures |r| >= 1
    ensures subs != [] ==> r == subs
  {
    if subs == [] then [SubItem("", "")] else subs
  }

  /** The Name setter: `SubItems[0].Name = name`, through the SubItems getter. */
  function SetName(item: ListItem, name: string): (r: ListItem)
    ensures Name(r) == name && r.tag == item.tag
    ensures |r.subItems| == |Materialized(item.subItems)|
    ensures forall i :: 1 <= i < |r.subItems| ==> r.subItems[i] == item.subItems[i]
  {
    var subs := Materialized(item.subItems);
    item.(subItems := subs[0 := subs[0].(name := name)])
  }

  function ItemNames(s: seq<ListItem>): (r: seq<string>)
    ensures |r| == |s|
  {
    seq(|s|, i requires 0 <= i < |s| => Name(s[i]))
  }

  function SubNames(s: seq<SubItem>): (r: seq<string>)
    ensures |r| == |s|
  {
    seq(|s|, i requires 0 <= i < |s| => s[i].name)
  }

  function FirstIndex(names: seq<string>, key: string): (r: Option<nat>)
    ensures r.Some? ==> r.value < |names| && names[r.value] == key && key !in names[..r.value]
    ensures r.None? ==> key !in names
  {
    if names == [] then None
    else if names[0] == key then Some(0)
    else
      match FirstIndex(names[1..], key)
      case None => None
      case Some(p) => assert names[1..][..p] == names[1..p + 1]; Some(p + 1)
  }

  /**
   * The collections' IndexOfKey / string indexer: the first element with the
   * name, and none at all for the empty key.
   */
  function IndexOfKey(names: seq<string>, key: string): (r: Option<nat>)
    ensures r.Some? <==> key != "" && key in names
    ensures r.Some? ==> r.value < |names| && names[r.value] == key && key !in names[..r.value]
  {
    if key == "" then None else FirstIndex(names, key)
  }

  /**
   * ListViewItemCollection.IndexOfKey, behind the string indexer: the index of
   * the last hit when that item still has the name, otherwise the first match.
   * The collection then remembers the hit, or -1 after a miss.
   */
  function Lookup(names: seq<string>, key: string, last: int): (r: Option<nat>)
    ensures r.Some? <==> key != "" && key in names
    ensures r.Some? ==> r.value < |names| && names[r.value] == key
    ensures r.Some? ==> r.value == last || r == IndexOfKey(names, key)
  {
    if key == "" then None
    else if 0 <= last < |names| && names[last] == key then Some(last)
    else FirstIndex(names, key)
  }

  /** `lastAccessedIndex` after a lookup. */
  function LastAfter(r: Option<nat>): int
  {
    match r
    case Some(p) => p
    case None => -1
  }

  /** Two positions holding the same name make it occur twice. */
  lemma TwoOccurrences(s: seq<string>, i: nat, j: nat)
    requires i < j < |s| && s[i] == s[j]
    ensures multiset(s)[s[i]] >= 2
  {
    assert s == s[..i] + [s[i]] + s[i + 1..j] + [s[j]] + s[j + 1..];
  }

  /** A name carried at most once is found where a first-match lookup finds it, whatever the cache holds. */
  lemma LookupUnique(names: seq<string>, key: string, last: int)
    requires multiset(names)[key] <= 1
    ensures Lookup(names, key, last) == IndexOfKey(names, key)
  {
    var r := Lookup(names, key, last);
    var f := IndexOfKey(names, key);
    if r.Some? && r != f {
      TwoOccurrences(names, f.value, r.value);
    }
  }

  /**
   * The cache can pick a later duplicate: in [A, B, C] with B and C both
   * named "7", a lookup whose last hit was index 2 finds C, not B.
   */
  lemma CacheHitsLaterDuplicate()
    ensures Lookup(["Name", "7", "7"], "7", 2) == Some(2)
    ensures IndexOfKey(["Name", "7", "7"], "7") == Some(1)
  {
  }

  /** The item key of a data object: `data.GetHashCode().ToString()`. */
  function KeyOf(hash: Obj -> int, d: Obj): string
  {
    IntToString(hash(d))
  }

  function Keys(hash: Obj -> int, data: seq<Obj>): (r: seq<string>)
    ensures |r| == |data|
  {
    seq(|data|, i requires 0 <= i < |data| => KeyOf(hash, data[i]))
  }

  /** A name that can start a C# identifier: not a decimal digit and not '-'. */
  predicate IdentifierStart(name: string)
  {
    |name| > 0 && !('0' <= name[0] <= '9') && name[0] != '-'
  }

  /**
   * No item key is a property name: GetProperty resolves only identifiers, and
   * a key is decimal digits after an optional '-'.
   */
  lemma KeyIsNoIdentifier(hash: Obj -> int, data: seq<Obj>, name: string)
    requires IdentifierStart(name)
    ensures name !in Keys(hash, data)
  {
    forall i | 0 <= i < |data| ensures Keys(hash, data)[i] != name {
      var h := hash(data[i]);
      IntToStringSign(h);
      if h >= 0 {
        assert '0' <= NatToString(h)[0] <= '9';
      }
    }
  }

  /** `new ListViewItem()` tagged with the object, then `item.Name = key`. */
  function NewItem(hash: Obj -> int, d: Obj): ListItem
  {
    SetName(ListItem(d, []), KeyOf(hash, d))
  }

  /** The property text of every column is there for the object (no null from GetProperty or GetValue). */
  predicate HasText(text: (Obj, string) -> Option<string>, o: Obj, columns: seq<string>)
  {
    forall c :: c in columns ==> text(o, c).Some?
  }

  ghost predicate TextDefined(text: (Obj, string) -> Option<string>, columns: seq<string>)
  {
    forall o: Obj :: HasText(text, o, columns)
  }

  /** The sub-items UpdateItem makes for a tag: one per column, named after it, showing the property. */
  function Row(o: Obj, columns: seq<string>, text: (Obj, string) -> Option<string>): (r: seq<SubItem>)
    requires HasText(text, o, columns)
    ensures SubNames(r) == columns
    ensures forall j :: 0 <= j < |columns| ==> Some(r[j].text) == text(o, columns[j])
  {
    seq(|columns|, j requires 0 <= j < |columns| => SubItem(columns[j], text(o, columns[j]).value))
  }

  /** The item UpdateItem makes. */
  function Refreshed(item: ListItem, columns: seq<string>, text: (Obj, string) -> Option<string>): ListItem
    requires HasText(text, item.tag, columns)
  {
    item.(subItems := Row(item.tag, columns, text))
  }

  /** The item the collection's string indexer returns for the key. */
  function FirstNamed(s: seq<ListItem>, key: string): Option<ListItem>
  {
    match IndexOfKey(ItemNames(s), key)
    case Some(p) => Some(s[p])
    case None => None
  }

  /** The item an object ends up with: the first one carrying its key, else a new one. */
  function Chosen(items: seq<ListItem>, hash: Obj -> int, d: Obj): ListItem
  {
    match FirstNamed(items, KeyOf(hash, d))
    case Some(it) => it
    case None => NewItem(hash, d)
  }

  /** The items after Update, when Update is Bindable. */
  function Reconciled(items: seq<ListItem>, hash: Obj -> int, data: seq<Obj>, columns: seq<string>,
                      text: (Obj, string) -> Option<string>): (r: seq<ListItem>)
    requires TextDefined(text, columns)
    ensures |r| == |data|
  {
    seq(|data|, j requires 0 <= j < |data| => Refreshed(Chosen(items, hash, data[j]), columns, text))
  }

  /** The items Update makes when no item carries an object's key: new ones, tagged with the objects. */
  function Fresh(hash: Obj -> int, data: seq<Obj>, columns: seq<string>, text: (Obj, string) -> Option<string>): (r: seq<ListItem>)
    requires TextDefined(text, columns)
    ensures |r| == |data|
  {
    seq(|data|, j requires 0 <= j < |data| => Refreshed(NewItem(hash, data[j]), columns, text))
  }

  /**
   * The conditions under which Update's result is stated exactly: distinct
   * keys, at least one column, distinct column names, a first column that is
   * no key, and a property text for every column.
   */
  ghost predicate Bindable(hash: Obj -> int, data: seq<Obj>, columns: seq<string>, text: (Obj, string) -> Option<string>)
  {
    DistinctNames(Keys(hash, data)) && |columns| > 0 && DistinctNames(columns)
    && columns[0] !in Keys(hash, data) && TextDefined(text, columns)
  }

  /** No two items of the view carry the same object key, so the lookup cache cannot pick a later one. */
  predicate KeysUnique(items: seq<ListItem>, hash: Obj -> int, data: seq<Obj>)
  {
    forall j :: 0 <= j < |data| ==> multiset(ItemNames(items))[KeyOf(hash, data[j])] <= 1
  }

  // ---------------------------------------------------------------------
  // UpdateItem

  /**
   * UpdateItem(item): for every column in order, take the sub-item with that
   * name out of SubItems (or make one), Insert it at the next position and
   * set its text from the item's Tag; then drop the sub-items left over.
   * Every `item.SubItems` goes through the getter (Materialized).
   */
  method UpdateItem(item: ListItem, columns: seq<string>, text: (Obj, string) -> Option<string>)
    returns (r: ListItem, outcome: Outcome)
    ensures r.tag == item.tag
    ensures outcome == NeverEnds <==> columns == []
    ensures outcome == Done ==> |r.subItems| == |columns|
    ensures outcome == NullProperty ==> exists c :: c in columns && text(item.tag, c).None?
    ensures DistinctNames(columns) && HasText(text, item.tag, columns) && columns != [] ==>
      outcome == Done && r == Refreshed(item, columns, text) && Name(r) == columns[0]
    ensures DistinctNames(columns) && !HasText(text, item.tag, columns) ==> outcome == NullProperty
  {
    var subs := item.subItems;
    var index := 0;
    ghost var distinct := DistinctNames(columns);
    ghost var regular := distinct && HasText(text, item.tag, columns);
    ghost var want: seq<SubItem> := [];
    if regular {
      want := Row(item.tag, columns, text);
    }
    for j := 0 to |columns|
      invariant index == j <= |subs|
      invariant regular ==> subs[..index] == want[..index]
      invariant distinct ==> SubNames(subs[..index]) == columns[..index]
      invariant forall k :: 0 <= k < index ==> text(item.tag, columns[k]).Some?
    {
      if distinct {
        NameNotPlaced(subs, columns, index);
      }
      var next, placed := PlaceColumn(item.tag, subs, index, columns[j], text);
      if placed != Done {
        return item.(subItems := next), placed;
      }
      if regular {
        PlacedGrows(subs, next, want, index);
      }
      if distinct {
        NamesGrow(subs, next, columns, index);
      }
      subs := next;
      index := index + 1;
    }
    if index == 0 {
      // `while (item.SubItems.Count > 0)` never ends: see ClosingLoopNeverEnds.
      return item.(subItems := subs), NeverEnds;
    }
    while |Materialized(subs)| > index
      invariant 1 <= index == |columns| <= |subs|
      invariant regular ==> subs[..index] == want[..index]
    {
      PrefixKept(subs, index);
      subs := RemoveAt(Materialized(subs), index);
    }
    assert subs == subs[..index];
    return item.(subItems := subs), Done;
  }

  /**
   * One pass of UpdateItem's column loop: take the column's sub-item out (or
   * make one), Insert it at `index` and set its text from the tag's property.
   */
  method PlaceColumn(tag: Obj, subs: seq<SubItem>, index: nat, column: string, text: (Obj, string) -> Option<string>)
    returns (next: seq<SubItem>, outcome: Outcome)
    requires index <= |subs|
    ensures outcome == Done || outcome == InsertOutOfRange || outcome == NullProperty
    ensures outcome == NullProperty ==> text(tag, column).None?
    ensures outcome == Done ==> text(tag, column).Some? && index < |next| && next[index] == SubItem(column, text(tag, column).value)
    ensures column !in SubNames(subs[..index]) ==> outcome != InsertOutOfRange
    ensures column !in SubNames(subs[..index]) && outcome == Done ==> next[..index] == subs[..index]
  {
    var cur := Materialized(subs);
    assert cur[..index] == subs[..index];
    var found := AnyNamed(cur, column);
    var sub := SubItem(column, "");
    if found.Some? {
      sub := cur[found.value];
      if column !in SubNames(subs[..index]) {
        forall i | 0 <= i < index ensures cur[i].name != column {
          assert SubNames(subs[..index])[i] == subs[i].name && cur[i] == subs[i];
        }
      }
      cur := RemoveAt(cur, found.value);
    }
    cur := Materialized(cur);
    if index > |cur| {
      return cur, InsertOutOfRange;
    }
    cur := InsertAt(cur, index, sub);
    var t := text(tag, column);
    if t.None? {
      return cur, NullProperty;
    }
    next := cur[index := sub.(text := t.value)];
    outcome := Done;
  }

  /** With the placed sub-items named after the first columns, the next column's name is not among them. */
  lemma NameNotPlaced(subs: seq<SubItem>, columns: seq<string>, index: nat)
    requires index < |columns| && DistinctNames(columns)
    requires index <= |subs| && SubNames(subs[..index]) == columns[..index]
    ensures columns[index] !in SubNames(subs[..index])
  {
    forall i | 0 <= i < index ensures SubNames(subs[..index])[i] != columns[index] {
      assert columns[..index][i] == columns[i];
    }
  }

  /** The placed names grow by the column just placed. */
  lemma NamesGrow(subs: seq<SubItem>, next: seq<SubItem>, columns: seq<string>, index: nat)
    requires index < |columns| && index <= |subs| && index < |next|
    requires SubNames(subs[..index]) == columns[..index]
    requires next[..index] == subs[..index] && next[index].name == columns[index]
    ensures SubNames(next[..index + 1]) == columns[..index + 1]
  {
    assert SubNames(next[..index + 1]) == SubNames(next[..index]) + [columns[index]];
    assert columns[..index + 1] == columns[..index] + [columns[index]];
  }

  /**
   * `item.SubItems[name]`. The sub-item collection's own last-hit cache is not
   * tracked: the lookup may give any sub-item with the name, which covers
   * whatever the cache holds.
   */
  method AnyNamed(subs: seq<SubItem>, key: string) returns (found: Option<nat>)
    ensures found.Some? <==> key != "" && key in SubNames(subs)
    ensures found.Some? ==> found.value < |subs| && subs[found.value].name == key
  {
    found := None;
    if key != "" && key in SubNames(subs) {
      var p :| 0 <= p < |subs| && subs[p].name == key;
      found := Some(p);
    }
  }

  /** UpdateItem's closing loop `RemoveAt(index)` at index 0, run n times. */
  function ClosingPasses(subs: seq<SubItem>, n: nat): seq<SubItem>
  {
    if n == 0 then subs else RemoveAt(Materialized(ClosingPasses(subs, n - 1)), 0)
  }

  /**
   * With no columns, `item.SubItems.Count > 0` holds before every pass of the
   * closing loop: each pass removes one sub-item until none is left, and from
   * then on the getter brings sub-item 0 back before every test.
   */
  lemma {:induction false} ClosingLoopNeverEnds(subs: seq<SubItem>, n: nat)
    ensures |Materialized(ClosingPasses(subs, n))| > 0
    ensures |ClosingPasses(subs, n)| == if n <= |subs| then |subs| - n else 0
  {
    if n > 0 {
      ClosingLoopNeverEnds(subs, n - 1);
    }
  }

  lemma PrefixKept<T>(s: seq<T>, index: nat)
    requires index < |s|
    ensures RemoveAt(s, index)[..index] == s[..index]
  {
  }

  // ---------------------------------------------------------------------
  // Update

  lemma ItemNamesAppend(a: seq<ListItem>, b: seq<ListItem>)
    ensures ItemNames(a + b) == ItemNames(a) + ItemNames(b)
  {
  }

  /** A key none of the first items carries is looked up among the rest. */
  lemma IndexOfKeyAppend(a: seq<string>, b: seq<string>, key: string)
    requires key !in a
    ensures IndexOfKey(a + b, key) == match IndexOfKey(b, key) case None => None case Some(p) => Some(|a| + p)
  {
    var r := IndexOfKey(b, key);
    if r.Some? {
      assert (a + b)[..|a| + r.value] == a + b[..r.value];
      FirstIndexIs(a + b, key, |a| + r.value);
    } else {
      assert key !in a + b || key == "";
    }
  }

  lemma FirstIndexIs(s: seq<string>, key: string, i: nat)
    requires i < |s| && s[i] == key && key !in s[..i]
    ensures FirstIndex(s, key) == Some(i)
  {
    if i > 0 {
      assert s[1..][..i - 1] == s[1..i];
      FirstIndexIs(s[1..], key, i - 1);
    }
  }

  /** Removing an item with another name does not change what a key finds. */
  lemma {:induction false} FirstNamedRemoveOther(s: seq<ListItem>, p: nat, key: string)
    requires p < |s| && Name(s[p]) != key
    ensures FirstNamed(RemoveAt(s, p), key) == FirstNamed(s, key)
  {
    var r := RemoveAt(s, p);
    ItemNamesSplit(s, p);
    if key != "" {
      if key in ItemNames(s[..p]) {
        var q := FirstIndex(ItemNames(s[..p]), key).value;
        assert ItemNames(s)[..q] == ItemNames(s[..p])[..q];
        assert ItemNames(r)[..q] == ItemNames(s[..p])[..q];
        FirstIndexIs(ItemNames(s), key, q);
        FirstIndexIs(ItemNames(r), key, q);
      } else {
        IndexOfKeyAppend(ItemNames(s[..p]) + [Name(s[p])], ItemNames(s[p + 1..]), key);
        IndexOfKeyAppend(ItemNames(s[..p]), ItemNames(s[p + 1..]), key);
        var tail := s[p + 1..];
        match IndexOfKey(ItemNames(tail), key)
        case None =>
        case Some(q) =>
          assert s[p + 1 + q] == tail[q] && r[p + q] == tail[q];
      }
    }
  }

  /**
   * The facts Update's loop keeps when Bindable: the first `index` items are
   * final, and every key not placed yet finds among the remaining items what
   * it found originally.
   */
  ghost predicate BindInvariant(orig: seq<ListItem>, cur: seq<ListItem>, index: nat, hash: Obj -> int, data: seq<Obj>,
                                columns: seq<string>, text: (Obj, string) -> Option<string>)
    requires index <= |data| && TextDefined(text, columns)
  {
    index <= |cur|
    && cur[..index] == Reconciled(orig, hash, data, columns, text)[..index]
    && (forall k :: k !in Keys(hash, data)[..index] ==> FirstNamed(cur[index..], k) == FirstNamed(orig, k))
    && multiset(ItemNames(cur[index..])) <= multiset(ItemNames(orig))
  }

  lemma BindStart(orig: seq<ListItem>, hash: Obj -> int, data: seq<Obj>, columns: seq<string>,
                  text: (Obj, string) -> Option<string>)
    requires TextDefined(text, columns)
    ensures BindInvariant(orig, orig, 0, hash, data, columns, text)
  {
    assert orig[0..] == orig;
  }

  /** The conditions under which a pass of Update's loop is stated exactly. */
  ghost predicate PassReady(cur: seq<ListItem>, index: nat, hash: Obj -> int, d: Obj, columns: seq<string>,
                            text: (Obj, string) -> Option<string>)
  {
    index <= |cur| && KeyOf(hash, d) !in ItemNames(cur[..index]) && multiset(ItemNames(cur))[KeyOf(hash, d)] <= 1
    && DistinctNames(columns) && columns != [] && TextDefined(text, columns)
  }

  /**
   * The list after such a pass: the items before `index` untouched, then the
   * first item carrying the key (or a new one) refreshed, then the rest
   * without that item.
   */
  function PassResult(cur: seq<ListItem>, index: nat, hash: Obj -> int, d: Obj, columns: seq<string>,
                      text: (Obj, string) -> Option<string>): (r: seq<ListItem>)
    requires index <= |cur| && TextDefined(text, columns)
    ensures index < |r|
  {
    var found := IndexOfKey(ItemNames(cur), KeyOf(hash, d));
    var rest := if found.Some? && index <= found.value then RemoveAt(cur, found.value)[index..] else cur[index..];
    cur[..index] + [Refreshed(Chosen(cur, hash, d), columns, text)] + rest
  }

  /** The list after the first n passes of Update's loop, each one as PassResult states it. */
  function Passes(orig: seq<ListItem>, hash: Obj -> int, data: seq<Obj>, columns: seq<string>,
                  text: (Obj, string) -> Option<string>, n: nat): (r: seq<ListItem>)
    requires n <= |data| && TextDefined(text, columns)
    ensures n <= |r|
  {
    if n == 0 then orig
    else PassResult(Passes(orig, hash, data, columns, text, n - 1), n - 1, hash, data[n - 1], columns, text)
  }

  /**
   * One pass of Update's loop body: look the key up, take the item out or
   * make one, Insert it at `index` (which throws beyond the end) and
   * UpdateItem it there.
   */
  method PlaceItem(cur: seq<ListItem>, last: int, index: nat, hash: Obj -> int, d: Obj, columns: seq<string>,
                   text: (Obj, string) -> Option<string>) returns (next: seq<ListItem>, nextLast: int, outcome: Outcome)
    ensures nextLast == LastAfter(Lookup(ItemNames(cur), KeyOf(hash, d), last))
    ensures outcome == Done ==> index < |next| && columns != []
    ensures index == 0 && columns == [] ==> outcome == NeverEnds
    ensures PassReady(cur, index, hash, d, columns, text) ==>
      outcome == Done && next == PassResult(cur, index, hash, d, columns, text)
  {
    var key := KeyOf(hash, d);
    var found := Lookup(ItemNames(cur), key, last);
    nextLast := LastAfter(found);
    ghost var ready := PassReady(cur, index, hash, d, columns, text);
    if ready {
      LookupUnique(ItemNames(cur), key, last);
      FindInRest(cur, index, key);
    }
    var item := NewItem(hash, d);
    next := cur;
    if found.Some? {
      item := cur[found.value];
      next := RemoveAt(cur, found.value);
      if ready {
        RemoveAtPrefix(cur, found.value, index);
      }
    }
    if index > |next| {
      return next, nextLast, InsertOutOfRange;
    }
    ghost var taken := next;
    next := InsertAt(next, index, item);
    var updated, itemOutcome := UpdateItem(item, columns, text);
    next := next[index := updated];
    if ready {
      InsertSet(taken, index, item, updated);
    }
    outcome := itemOutcome;
  }

  lemma RemoveAtPrefix<T>(s: seq<T>, p: nat, i: nat)
    requires i <= p < |s|
    ensures RemoveAt(s, p)[..i] == s[..i]
  {
    assert RemoveAt(s, p)[..i] == s[..i];
  }

  lemma InsertSet<T>(s: seq<T>, i: nat, x: T, y: T)
    requires i <= |s|
    ensures InsertAt(s, i, x)[i := y] == s[..i] + [y] + s[i..]
  {
    assert InsertAt(s, i, x)[i := y] == s[..i] + [y] + s[i..];
  }

  /** A key the placed items do not carry finds, in the whole list, what it finds in the rest. */
  lemma FindInRest(cur: seq<ListItem>, index: nat, key: string)
    requires index <= |cur| && key !in ItemNames(cur[..index])
    ensures IndexOfKey(ItemNames(cur), key) ==
      match IndexOfKey(ItemNames(cur[index..]), key) case None => None case Some(p) => Some(index + p)
    ensures FirstNamed(cur, key) == FirstNamed(cur[index..], key)
  {
    SplitAt(cur, index);
    ItemNamesAppend(cur[..index], cur[index..]);
    IndexOfKeyAppend(ItemNames(cur[..index]), ItemNames(cur[index..]), key);
  }

  /** The items placed so far carry the first column's name, so the next key is not among them. */
  lemma PlacedSkipped(orig: seq<ListItem>, cur: seq<ListItem>, index: nat, hash: Obj -> int, data: seq<Obj>,
                      columns: seq<string>, text: (Obj, string) -> Option<string>)
    requires index < |data| && Bindable(hash, data, columns, text)
    requires BindInvariant(orig, cur, index, hash, data, columns, text)
    ensures KeyOf(hash, data[index]) !in ItemNames(cur[..index])
  {
    var key := KeyOf(hash, data[index]);
    assert key != columns[0] by {
      assert Keys(hash, data)[index] == key;
    }
    ReconciledNames(orig, hash, data, columns, text);
    AllNamed(cur[..index], Reconciled(orig, hash, data, columns, text), index, columns[0]);
  }

  /** Items equal to items that all carry one name carry only that name. */
  lemma AllNamed(s: seq<ListItem>, t: seq<ListItem>, k: nat, name: string)
    requires k <= |t| && s == t[..k] && forall i :: 0 <= i < |t| ==> Name(t[i]) == name
    ensures forall n :: n in ItemNames(s) ==> n == name
  {
    forall i | 0 <= i < |s| ensures ItemNames(s)[i] == name {
      assert s[i] == t[i];
    }
  }

  /** With no two view items carrying a key, the next key is carried at most once in the current list. */
  lemma PlacedUnique(orig: seq<ListItem>, cur: seq<ListItem>, index: nat, hash: Obj -> int, data: seq<Obj>,
                     columns: seq<string>, text: (Obj, string) -> Option<string>)
    requires index < |data| && Bindable(hash, data, columns, text) && KeysUnique(orig, hash, data)
    requires BindInvariant(orig, cur, index, hash, data, columns, text)
    ensures multiset(ItemNames(cur))[KeyOf(hash, data[index])] <= 1
  {
    var key := KeyOf(hash, data[index]);
    PlacedSkipped(orig, cur, index, hash, data, columns, text);
    SplitAt(cur, index);
    ItemNamesAppend(cur[..index], cur[index..]);
    assert multiset(ItemNames(cur))[key] == multiset(ItemNames(cur[index..]))[key];
  }

  /** Before each pass of Update's loop, when Bindable, PlaceItem's exact case applies. */
  lemma BindReady(orig: seq<ListItem>, cur: seq<ListItem>, index: nat, hash: Obj -> int, data: seq<Obj>,
                  columns: seq<string>, text: (Obj, string) -> Option<string>)
    requires index < |data| && Bindable(hash, data, columns, text) && KeysUnique(orig, hash, data)
    requires BindInvariant(orig, cur, index, hash, data, columns, text)
    ensures PassReady(cur, index, hash, data[index], columns, text)
  {
    PlacedSkipped(orig, cur, index, hash, data, columns, text);
    PlacedUnique(orig, cur, index, hash, data, columns, text);
  }

  /** Removing an item takes its name out of the names and adds none. */
  lemma RemoveAtNames(s: seq<ListItem>, p: nat)
    requires p < |s|
    ensures multiset(ItemNames(RemoveAt(s, p))) <= multiset(ItemNames(s))
  {
    ItemNamesSplit(s, p);
  }

  /** The names around position p, before and after removing it. */
  lemma ItemNamesSplit(s: seq<ListItem>, p: nat)
    requires p < |s|
    ensures ItemNames(s) == ItemNames(s[..p]) + [Name(s[p])] + ItemNames(s[p + 1..])
    ensures ItemNames(RemoveAt(s, p)) == ItemNames(s[..p]) + ItemNames(s[p + 1..])
  {
    assert ItemNames(s) == ItemNames(s[..p]) + [Name(s[p])] + ItemNames(s[p + 1..]);
    assert ItemNames(RemoveAt(s, p)) == ItemNames(s[..p]) + ItemNames(s[p + 1..]);
  }

  /** The rest of the list only loses the item taken out of it. */
  lemma RestShrinks(rest: seq<ListItem>, after: seq<ListItem>, taken: Option<nat>)
    requires taken.Some? ==> taken.value < |rest| && after == RemoveAt(rest, taken.value)
    requires taken.None? ==> after == rest
    ensures multiset(ItemNames(after)) <= multiset(ItemNames(rest))
  {
    if taken.Some? {
      RemoveAtNames(rest, taken.value);
    }
  }

  /** The placed prefix grows by the item just placed. */
  lemma PlacedGrows<T>(cur: seq<T>, next: seq<T>, want: seq<T>, index: nat)
    requires index < |next| && index < |want| && index <= |cur|
    requires next[..index] == cur[..index] && cur[..index] == want[..index] && next[index] == want[index]
    ensures next[..index + 1] == want[..index + 1]
  {
    assert next[..index + 1] == next[..index] + [next[index]];
    assert want[..index + 1] == want[..index] + [want[index]];
  }

  /** Taking the found item out of the rest keeps every other key's lookup. */
  lemma RestKept(orig: seq<ListItem>, cur: seq<ListItem>, next: seq<ListItem>, index: nat, key: string, before: seq<string>)
    requires index <= |cur| && index < |next| && key !in ItemNames(cur[..index])
    requires forall k :: k !in before ==> FirstNamed(cur[index..], k) == FirstNamed(orig, k)
    requires var found := IndexOfKey(ItemNames(cur), key);
      index + (if found.Some? then 1 else 0) <= |cur|
      && next[index + 1..] == (if found.Some? then RemoveAt(cur, found.value)[index..] else cur[index..])
    ensures forall k :: k !in before + [key] ==> FirstNamed(next[index + 1..], k) == FirstNamed(orig, k)
    ensures multiset(ItemNames(next[index + 1..])) <= multiset(ItemNames(cur[index..]))
  {
    var rest := cur[index..];
    var after := next[index + 1..];
    FindInRest(cur, index, key);
    var found := IndexOfKey(ItemNames(cur), key);
    var taken: Option<nat> := None;
    if found.Some? {
      RemoveAtSuffix(cur, index, found.value);
      taken := Some(found.value - index);
      assert ItemNames(cur)[found.value] == Name(rest[taken.value]);
    }
    forall k | k !in before + [key] ensures FirstNamed(after, k) == FirstNamed(orig, k) {
      assert k !in before;
      OtherKeyKept(rest, after, taken, key, k);
    }
    RestShrinks(rest, after, taken);
  }

  /** Taking out the item carrying one key, or nothing, leaves another key's lookup as it was. */
  lemma OtherKeyKept(rest: seq<ListItem>, after: seq<ListItem>, taken: Option<nat>, key: string, k: string)
    requires k != key
    requires taken.Some? ==> taken.value < |rest| && Name(rest[taken.value]) == key && after == RemoveAt(rest, taken.value)
    requires taken.None? ==> after == rest
    ensures FirstNamed(after, k) == FirstNamed(rest, k)
  {
    if taken.Some? {
      FirstNamedRemoveOther(rest, taken.value, k);
    }
  }

  /** PlaceItem keeps BindInvariant, one index further. */
  lemma {:induction false} BindStep(orig: seq<ListItem>, cur: seq<ListItem>, next: seq<ListItem>, index: nat, hash: Obj -> int,
                                    data: seq<Obj>, columns: seq<string>, text: (Obj, string) -> Option<string>)
    requires index < |data| && Bindable(hash, data, columns, text)
    requires BindInvariant(orig, cur, index, hash, data, columns, text)
    requires index < |next| && next[..index] == cur[..index]
    requires next[index] == Refreshed(Chosen(cur, hash, data[index]), columns, text)
    requires var found := IndexOfKey(ItemNames(cur), KeyOf(hash, data[index]));
      index + (if found.Some? then 1 else 0) <= |cur|
      && next[index + 1..] == (if found.Some? then RemoveAt(cur, found.value)[index..] else cur[index..])
    ensures BindInvariant(orig, next, index + 1, hash, data, columns, text)
  {
    var keys := Keys(hash, data);
    var want := Reconciled(orig, hash, data, columns, text);
    StepPlaced(orig, cur, next, index, hash, data, columns, text);
    StepRest(orig, cur, next, index, hash, data, columns, text);
    PrefixSnoc(keys, index);
    BindInvariantIntro(orig, next, index + 1, hash, data, columns, text, want, keys[..index] + [keys[index]]);
  }

  /** The first half of BindStep: the placed prefix grows by the object's reconciled item. */
  lemma StepPlaced(orig: seq<ListItem>, cur: seq<ListItem>, next: seq<ListItem>, index: nat, hash: Obj -> int,
                   data: seq<Obj>, columns: seq<string>, text: (Obj, string) -> Option<string>)
    requires index < |data| && Bindable(hash, data, columns, text)
    requires BindInvariant(orig, cur, index, hash, data, columns, text)
    requires index < |next| && next[..index] == cur[..index]
    requires next[index] == Refreshed(Chosen(cur, hash, data[index]), columns, text)
    ensures next[..index + 1] == Reconciled(orig, hash, data, columns, text)[..index + 1]
  {
    ChosenKept(orig, cur, index, hash, data, columns, text);
    var want := Reconciled(orig, hash, data, columns, text);
    assert next[index] == want[index];
    PlacedGrows(cur, next, want, index);
  }

  /** The second half of BindStep: the rest still finds what the original found, and has no new names. */
  lemma StepRest(orig: seq<ListItem>, cur: seq<ListItem>, next: seq<ListItem>, index: nat, hash: Obj -> int,
                 data: seq<Obj>, columns: seq<string>, text: (Obj, string) -> Option<string>)
    requires index < |data| && Bindable(hash, data, columns, text)
    requires BindInvariant(orig, cur, index, hash, data, columns, text)
    requires index < |next|
    requires var found := IndexOfKey(ItemNames(cur), KeyOf(hash, data[index]));
      index + (if found.Some? then 1 else 0) <= |cur|
      && next[index + 1..] == (if found.Some? then RemoveAt(cur, found.value)[index..] else cur[index..])
    ensures var keys := Keys(hash, data);
      forall k :: k !in keys[..index] + [keys[index]] ==> FirstNamed(next[index + 1..], k) == FirstNamed(orig, k)
    ensures multiset(ItemNames(next[index + 1..])) <= multiset(ItemNames(orig))
  {
    var keys := Keys(hash, data);
    var key := keys[index];
    PlacedSkipped(orig, cur, index, hash, data, columns, text);
    RestKept(orig, cur, next, index, key, keys[..index]);
    MultisetWithin(multiset(ItemNames(next[index + 1..])), multiset(ItemNames(cur[index..])), multiset(ItemNames(orig)));
  }

  lemma SplitAt<T>(s: seq<T>, i: nat)
    requires i <= |s|
    ensures s == s[..i] + s[i..]
  {
  }

  lemma RemoveAtSuffix<T>(s: seq<T>, i: nat, p: nat)
    requires i <= p < |s|
    ensures RemoveAt(s, p)[i..] == RemoveAt(s[i..], p - i)
  {
    assert RemoveAt(s, p)[i..] == RemoveAt(s[i..], p - i);
  }

  lemma WholePrefix<T>(s: seq<T>)
    ensures s[..|s|] == s
  {
  }

  lemma PrefixSnoc<T>(s: seq<T>, i: nat)
    requires i < |s|
    ensures s[..i + 1] == s[..i] + [s[i]]
  {
  }

  lemma MultisetWithin(a: multiset<string>, b: multiset<string>, c: multiset<string>)
    requires a <= b && b <= c
    ensures a <= c
  {
  }

  /** BindInvariant from its parts. */
  lemma BindInvariantIntro(orig: seq<ListItem>, next: seq<ListItem>, n: nat, hash: Obj -> int, data: seq<Obj>,
                           columns: seq<string>, text: (Obj, string) -> Option<string>, want: seq<ListItem>, placed: seq<string>)
    requires n <= |data| && TextDefined(text, columns)
    requires want == Reconciled(orig, hash, data, columns, text) && placed == Keys(hash, data)[..n]
    requires n <= |next| && next[..n] == want[..n]
    requires forall k :: k !in placed ==> FirstNamed(next[n..], k) == FirstNamed(orig, k)
    requires multiset(ItemNames(next[n..])) <= multiset(ItemNames(orig))
    ensures BindInvariant(orig, next, n, hash, data, columns, text)
  {
  }

  /** With distinct keys, the next key is none of the keys placed before it. */
  lemma KeyNotPlaced(hash: Obj -> int, data: seq<Obj>, index: nat)
    requires index < |data| && DistinctNames(Keys(hash, data))
    ensures Keys(hash, data)[index] !in Keys(hash, data)[..index]
  {
  }

  /** The item the next object gets from the current list is the one it would have got from the original. */
  lemma ChosenKept(orig: seq<ListItem>, cur: seq<ListItem>, index: nat, hash: Obj -> int, data: seq<Obj>,
                   columns: seq<string>, text: (Obj, string) -> Option<string>)
    requires index < |data| && Bindable(hash, data, columns, text)
    requires BindInvariant(orig, cur, index, hash, data, columns, text)
    ensures Chosen(cur, hash, data[index]) == Chosen(orig, hash, data[index])
  {
    var key := KeyOf(hash, data[index]);
    KeyNotPlaced(hash, data, index);
    PlacedSkipped(orig, cur, index, hash, data, columns, text);
    FindInRest(cur, index, key);
    assert Keys(hash, data)[index] == key;
    assert FirstNamed(cur[index..], key) == FirstNamed(orig, key);
  }

  /** After Update every item carries the first column's name, not its object's key. */
  lemma ReconciledNames(items: seq<ListItem>, hash: Obj -> int, data: seq<Obj>, columns: seq<string>,
                        text: (Obj, string) -> Option<string>)
    requires |columns| > 0 && TextDefined(text, columns)
    ensures forall i :: 0 <= i < |data| ==> Name(Reconciled(items, hash, data, columns, text)[i]) == columns[0]
  {
  }

  /**
   * The item of the j-th object: named after the first column, one sub-item
   * per column in column order showing the tag's property; an item that
   * carried the object's key is reused with its old Tag, otherwise a new item
   * is tagged with the object.
   */
  lemma ReconciledItem(items: seq<ListItem>, hash: Obj -> int, data: seq<Obj>, columns: seq<string>,
                       text: (Obj, string) -> Option<string>, j: nat)
    requires j < |data| && |columns| > 0 && TextDefined(text, columns)
    ensures var r := Reconciled(items, hash, data, columns, text)[j];
      var prior := FirstNamed(items, KeyOf(hash, data[j]));
      Name(r) == columns[0]
      && SubNames(r.subItems) == columns
      && (forall c :: 0 <= c < |columns| ==> Some(r.subItems[c].text) == text(r.tag, columns[c]))
      && (prior.Some? ==> r.tag == prior.value.tag)
      && (prior.None? ==> r.tag == data[j] && KeyOf(hash, data[j]) !in ItemNames(items))
  {
  }

  /** Item keys are distinct exactly when the objects' hash codes are. */
  lemma KeysDistinct(hash: Obj -> int, data: seq<Obj>)
    ensures DistinctNames(Keys(hash, data)) <==>
      forall i, j :: 0 <= i < j < |data| ==> hash(data[i]) != hash(data[j])
  {
    forall i, j | 0 <= i < j < |data| ensures Keys(hash, data)[i] == Keys(hash, data)[j] <==> hash(data[i]) == hash(data[j]) {
      IntToStringInjective(hash(data[i]), hash(data[j]));
    }
  }

  /** When no item carries an object's key, every object gets a new item. */
  lemma {:induction false} UnkeyedRebuilt(items: seq<ListItem>, hash: Obj -> int, data: seq<Obj>, columns: seq<string>,
                                          text: (Obj, string) -> Option<string>)
    requires TextDefined(text, columns)
    requires forall i :: 0 <= i < |items| ==> Name(items[i]) !in Keys(hash, data)
    ensures Reconciled(items, hash, data, columns, text) == Fresh(hash, data, columns, text)
  {
    forall j | 0 <= j < |data| ensures Chosen(items, hash, data[j]) == NewItem(hash, data[j]) {
      assert Keys(hash, data)[j] == KeyOf(hash, data[j]);
    }
  }

  /**
   * Update twice: the first Update renames every item after the first
   * column, so the second finds no item by key and rebuilds them all, tagged
   * with the objects; from then on Update leaves the items as they are.
   */
  lemma SecondUpdateRebuilds(items: seq<ListItem>, hash: Obj -> int, data: seq<Obj>, columns: seq<string>,
                             text: (Obj, string) -> Option<string>)
    requires Bindable(hash, data, columns, text)
    ensures var once := Reconciled(items, hash, data, columns, text);
      var rebuilt := Fresh(hash, data, columns, text);
      KeysUnique(once, hash, data) && KeysUnique(rebuilt, hash, data)
      && Reconciled(once, hash, data, columns, text) == rebuilt
      && Reconciled(rebuilt, hash, data, columns, text) == rebuilt
      && (forall j :: 0 <= j < |data| ==> rebuilt[j].tag == data[j])
  {
    var once := Reconciled(items, hash, data, columns, text);
    var rebuilt := Fresh(hash, data, columns, text);
    ReconciledNames(items, hash, data, columns, text);
    UnkeyedRebuilt(once, hash, data, columns, text);
    UnkeyedRebuilt([], hash, data, columns, text);
    ReconciledNames([], hash, data, columns, text);
    UnkeyedRebuilt(rebuilt, hash, data, columns, text);
    forall j | 0 <= j < |data|
      ensures KeyOf(hash, data[j]) !in ItemNames(once) && KeyOf(hash, data[j]) !in ItemNames(rebuilt)
    {
      assert Keys(hash, data)[j] == KeyOf(hash, data[j]);
    }
  }

  /** What Update leaves in the view, given the data. */
  ghost predicate Updates(hash: Obj -> int, text: (Obj, string) -> Option<string>, data: Option<seq<Obj>>,
                          before: Option<ListViewState>, after: Option<ListViewState>, outcome: Outcome)
  {
    if before.None? || data.None? then outcome == Done && after == before
    else
      after.Some? && after.value.columns == before.value.columns
      && (outcome == Done ==> |after.value.items| == |data.value|)
      && (data.value == [] ==> outcome == Done && after.value.items == [])
      && (data.value != [] && before.value.columns == [] ==> outcome == NeverEnds)
      && (data.value == [] ==> after.value.lastAccessed == before.value.lastAccessed)
      && (Bindable(hash, data.value, before.value.columns, text) && KeysUnique(before.value.items, hash, data.value) ==>
            outcome == Done && after.value.items == Reconciled(before.value.items, hash, data.value, before.value.columns, text)
            && after.value.lastAccessed ==
                 LastHit(before.value.items, before.value.lastAccessed, hash, data.value, before.value.columns, text))
  }

  /** A pass, when it is ready, is one BindStep: its parts are those BindStep takes. */
  lemma PassParts(cur: seq<ListItem>, index: nat, hash: Obj -> int, d: Obj, columns: seq<string>,
                  text: (Obj, string) -> Option<string>)
    requires PassReady(cur, index, hash, d, columns, text)
    ensures var next := PassResult(cur, index, hash, d, columns, text);
      var found := IndexOfKey(ItemNames(cur), KeyOf(hash, d));
      index + (if found.Some? then 1 else 0) <= |cur| && index < |next| && next[..index] == cur[..index]
      && next[index] == Refreshed(Chosen(cur, hash, d), columns, text)
      && next[index + 1..] == (if found.Some? then RemoveAt(cur, found.value)[index..] else cur[index..])
  {
    FindInRest(cur, index, KeyOf(hash, d));
  }

  /** When Bindable, the first n passes keep BindInvariant. */
  lemma {:induction false} PassesKeepInvariant(orig: seq<ListItem>, hash: Obj -> int, data: seq<Obj>, columns: seq<string>,
                                               text: (Obj, string) -> Option<string>, n: nat)
    requires n <= |data| && Bindable(hash, data, columns, text) && KeysUnique(orig, hash, data)
    ensures BindInvariant(orig, Passes(orig, hash, data, columns, text, n), n, hash, data, columns, text)
  {
    if n == 0 {
      BindStart(orig, hash, data, columns, text);
    } else {
      var cur := Passes(orig, hash, data, columns, text, n - 1);
      PassesKeepInvariant(orig, hash, data, columns, text, n - 1);
      BindReady(orig, cur, n - 1, hash, data, columns, text);
      PassParts(cur, n - 1, hash, data[n - 1], columns, text);
      BindStep(orig, cur, Passes(orig, hash, data, columns, text, n), n - 1, hash, data, columns, text);
    }
  }

  /** When Bindable, every pass of Update's loop is ready, so PlaceItem states it exactly. */
  lemma PassesReady(orig: seq<ListItem>, hash: Obj -> int, data: seq<Obj>, columns: seq<string>,
                    text: (Obj, string) -> Option<string>, n: nat)
    requires n < |data| && Bindable(hash, data, columns, text) && KeysUnique(orig, hash, data)
    ensures PassReady(Passes(orig, hash, data, columns, text, n), n, hash, data[n], columns, text)
  {
    PassesKeepInvariant(orig, hash, data, columns, text, n);
    BindReady(orig, Passes(orig, hash, data, columns, text, n), n, hash, data, columns, text);
  }

  /** When Bindable, after all passes the first |data| items are the reconciled items. */
  lemma PassesReconcile(orig: seq<ListItem>, hash: Obj -> int, data: seq<Obj>, columns: seq<string>,
                        text: (Obj, string) -> Option<string>)
    requires Bindable(hash, data, columns, text) && KeysUnique(orig, hash, data)
    ensures Passes(orig, hash, data, columns, text, |data|)[..|data|] == Reconciled(orig, hash, data, columns, text)
  {
    PassesKeepInvariant(orig, hash, data, columns, text, |data|);
    WholePrefix(Reconciled(orig, hash, data, columns, text));
  }

  /**
   * The items collection's lookup cache after Update's loop, when Bindable:
   * where the last object's key was found in the list before its item was
   * moved, or -1 when the list had no item with it; untouched without data.
   */
  function LastHit(orig: seq<ListItem>, last: int, hash: Obj -> int, data: seq<Obj>, columns: seq<string>,
                   text: (Obj, string) -> Option<string>): int
    requires TextDefined(text, columns)
  {
    if data == [] then last
    else LastAfter(IndexOfKey(ItemNames(Passes(orig, hash, data, columns, text, |data| - 1)), KeyOf(hash, data[|data| - 1])))
  }

  /**
   * What the cache holds after a Bindable Update: -1 exactly when the view
   * had no item carrying the last object's key, and otherwise a position at
   * or after that object's own, since the items placed before it do not
   * carry the key.
   */
  lemma LastHitMeaning(orig: seq<ListItem>, last: int, hash: Obj -> int, data: seq<Obj>, columns: seq<string>,
                       text: (Obj, string) -> Option<string>)
    requires data != [] && Bindable(hash, data, columns, text) && KeysUnique(orig, hash, data)
    ensures LastHit(orig, last, hash, data, columns, text) == -1 <==> FirstNamed(orig, KeyOf(hash, data[|data| - 1])).None?
    ensures LastHit(orig, last, hash, data, columns, text) != -1 ==> |data| - 1 <= LastHit(orig, last, hash, data, columns, text)
  {
    var n := |data| - 1;
    var key := KeyOf(hash, data[n]);
    var cur := Passes(orig, hash, data, columns, text, n);
    PassesKeepInvariant(orig, hash, data, columns, text, n);
    PlacedSkipped(orig, cur, n, hash, data, columns, text);
    KeyNotPlaced(hash, data, n);
    FindInRest(cur, n, key);
    assert Keys(hash, data)[n] == key;
    assert FirstNamed(cur[n..], key) == FirstNamed(orig, key);
  }

  /**
   * The loop of Update over the data: each object's item is placed at the
   * next index. It stops at the first pass that does not end normally, with
   * `items` as that pass left the list. `last` is the items collection's
   * lookup cache, before and after.
   */
  method BindAll(orig: seq<ListItem>, last: int, hash: Obj -> int, d: seq<Obj>, columns: seq<string>,
                 text: (Obj, string) -> Option<string>) returns (items: seq<ListItem>, lastOut: int, outcome: Outcome)
    ensures outcome == Done ==> |d| <= |items|
    ensures d == [] ==> outcome == Done && items == orig && lastOut == last
    ensures d != [] && columns == [] ==> outcome == NeverEnds
    ensures Bindable(hash, d, columns, text) && KeysUnique(orig, hash, d) ==>
      outcome == Done && |d| <= |items| && items[..|d|] == Reconciled(orig, hash, d, columns, text)
      && lastOut == LastHit(orig, last, hash, d, columns, text)
  {
    items := orig;
    lastOut := last;
    var index := 0;
    ghost var bindable := Bindable(hash, d, columns, text) && KeysUnique(orig, hash, d);
    for j := 0 to |d|
      invariant index == j
      invariant bindable ==> items == Passes(orig, hash, d, columns, text, index)
      invariant index <= |items|
      invariant j == 0 ==> items == orig && lastOut == last
      invariant j > 0 ==> columns != []
      invariant bindable && j > 0 ==>
        lastOut == LastAfter(IndexOfKey(ItemNames(Passes(orig, hash, d, columns, text, j - 1)), KeyOf(hash, d[j - 1])))
    {
      if bindable {
        PassesReady(orig, hash, d, columns, text, index);
        LookupUnique(ItemNames(items), KeyOf(hash, d[j]), lastOut);
      }
      var next, nextLast, placed := PlaceItem(items, lastOut, index, hash, d[j], columns, text);
      items := next;
      lastOut := nextLast;
      if placed != Done {
        return items, lastOut, placed;
      }
      index := index + 1;
    }
    if bindable {
      PassesReconcile(orig, hash, d, columns, text);
    }
    outcome := Done;
  }

  /** Update's closing loop: `RemoveAt(index)` while the list is longer than the data. */
  method RemoveBeyond<T>(s: seq<T>, count: nat) returns (r: seq<T>)
    requires count <= |s|
    ensures r == s[..count]
  {
    r := s;
    while |r| > count
      invariant count <= |r| && r[..count] == s[..count]
    {
      PrefixKept(r, count);
      r := RemoveAt(r, count);
    }
  }

  class ListViewObjectBinding {
    /** View: the bound ListView, if any. */
    var view: Option<ListViewState>
    /** Data: the bound collection, if any. */
    var data: Option<seq<Obj>>
    /** GetHashCode of the data objects. */
    const hash: Obj -> int
    /** `DataType.GetProperty(name).GetValue(tag).ToString()`; None when GetProperty or GetValue gives null. */
    const propertyText: (Obj, string) -> Option<string>

    constructor(hash: Obj -> int, propertyText: (Obj, string) -> Option<string>)
      ensures view == None && data == None
      ensures this.hash == hash && this.propertyText == propertyText
    {
      this.hash := hash;
      this.propertyText := propertyText;
      view := None;
      data := None;
    }

    /** The View setter: bind the view, then Update. */
    method SetView(v: Option<ListViewState>) returns (outcome: Outcome)
      modifies this
      ensures data == old(data)
      ensures Updates(hash, propertyText, data, v, view, outcome)
    {
      view := v;
      outcome := Update();
    }

    /** The Data setter: bind the collection, then Update. */
    method SetData(d: Option<seq<Obj>>) returns (outcome: Outcome)
      modifies this
      ensures data == d
      ensures Updates(hash, propertyText, data, old(view), view, outcome)
    {
      data := d;
      outcome := Update();
    }

    /**
     * Update(): nothing without both a view and data; otherwise every data
     * object gets its item, in data order, and the items beyond are removed.
     */
    method Update() returns (outcome: Outcome)
      modifies this
      ensures data == old(data)
      ensures Updates(hash, propertyText, data, old(view), view, outcome)
    {
      if view.None? || data.None? {
        return Done;
      }
      var v := view.value;
      var d := data.value;
      var items, last, placed := BindAll(v.items, v.lastAccessed, hash, d, v.columns, propertyText);
      if placed != Done {
        view := Some(v.(items := items, lastAccessed := last));
        return placed;
      }
      items := RemoveBeyond(items, |d|);
      view := Some(v.(items := items, lastAccessed := last));
      return Done;
    }
  }
}
