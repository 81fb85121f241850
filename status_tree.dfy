/**
 * The nested dictionary behind the status stores: each group maps key
 * segments to a leaf value or to a nested group. A group remembers the
 * order in which its keys were added, which is the order in which a .NET
 * Dictionary that never loses an entry enumerates them.
 */
module StatusTree {
  import opened Wrappers
  import opened Text
  import opened StatusValues

  /** A key split on '.': the segments from the root to an entry. */
  type Path = seq<string>

  /** A stored object: a boxed value, or a nested Dictionary<string, object>. */
  datatype Entry =
    | Leaf(value: Value)
    | Group(keys: seq<string>, children: map<string, Entry>)

  /** `new Dictionary<string, object>()`. */
  const EmptyGroup: Entry := Group([], map[])

  /** What ToString() returns for a nested group. */
  const GroupTypeName: string := "System.Collections.Generic.Dictionary`2[System.String,System.Object]"

  /** FormatValue applied to whatever is stored under a key. */
  function FormatEntry(e: Entry): string
  {
    match e
    case Leaf(v) => FormatValue(v)
    case Group(_, _) => GroupTypeName
  }

  /** Every group lists each of its keys exactly once, in insertion order. */
  ghost predicate Valid(e: Entry)
  {
    match e
    case Leaf(_) => true
    case Group(keys, children) =>
      && (forall i, j :: 0 <= i < j < |keys| ==> keys[i] != keys[j])
      && (forall k :: k in children <==> k in keys)
      && (forall k :: k in children ==> Valid(children[k]))
  }

  /** The entry reached by following a path, if every step exists. */
  function At(e: Entry, p: Path): Option<Entry>
    decreases |p|
  {
    if p == [] then Some(e)
    else if e.Group? && p[0] in e.children then At(e.children[p[0]], p[1..])
    else None
  }

  predicate IsGroupAt(e: Entry, p: Path)
  {
    At(e, p).Some? && At(e, p).value.Group?
  }

  predicate IsLeafAt(e: Entry, p: Path)
  {
    At(e, p).Some? && At(e, p).value.Leaf?
  }

  /** `group[k] = x` on a single group: a new key goes to the end, an existing one keeps its place. */
  function Put(g: Entry, k: string, x: Entry): Entry
    requires g.Group?
  {
    Group(if k in g.children then g.keys else g.keys + [k], g.children[k := x])
  }

  /** `group[k] = x` on the group found at path p. */
  function PutAt(e: Entry, p: Path, k: string, x: Entry): Entry
    requires IsGroupAt(e, p)
    decreases |p|
  {
    if p == [] then Put(e, k, x)
    else Put(e, p[0], PutAt(e.children[p[0]], p[1..], k, x))
  }

  /**
   * The walk of GetGroupAndKey over the group segments p: each missing
   * segment is added as an empty group; a segment already holding a value
   * stops the walk with the index of that segment.
   */
  function EnsurePath(e: Entry, p: Path): Result<Entry, nat>
    requires e.Group?
    decreases |p|
  {
    if p == [] then Ok(e)
    else
      var child := if p[0] in e.children then e.children[p[0]] else EmptyGroup;
      if child.Leaf? then Err(0)
      else match EnsurePath(child, p[1..])
        case Err(i) => Err(i + 1)
        case Ok(c) => Ok(Put(e, p[0], c))
  }

  /** The message of the ArgumentException raised for a segment holding a value. */
  function ConflictMessage(prefix: Path): string
  {
    Join(prefix, '.') + " is used as both a group and a key"
  }

  // ---------------------------------------------------------------------
  // Single-group facts

  lemma PutValid(g: Entry, k: string, x: Entry)
    requires g.Group? && Valid(g) && Valid(x)
    ensures Valid(Put(g, k, x))
  {
    var r := Put(g, k, x);
    if k !in g.children {
      forall i, j | 0 <= i < j < |r.keys| ensures r.keys[i] != r.keys[j] {
        if j == |g.keys| { assert r.keys[j] == k && r.keys[i] == g.keys[i]; }
      }
    }
  }

  lemma PutSame(g: Entry, k: string)
    requires g.Group? && k in g.children
    ensures Put(g, k, g.children[k]) == g
  {
    assert g.children[k := g.children[k]] == g.children;
  }

  lemma PutPut(g: Entry, k: string, x: Entry, y: Entry)
    requires g.Group?
    ensures Put(Put(g, k, x), k, y) == Put(g, k, y)
  {
    assert g.children[k := x][k := y] == g.children[k := y];
  }

  lemma AtCons(e: Entry, k: string, q: Path)
    requires e.Group? && k in e.children
    ensures At(e, [k] + q) == At(e.children[k], q)
  {
    assert ([k] + q)[1..] == q;
  }

  // ---------------------------------------------------------------------
  // PutAt

  /** PutAt changes the entry at p + [k] to x, keeps the groups along p, and changes nothing beside them. */
  lemma AtPutAt(e: Entry, p: Path, k: string, x: Entry, q: Path)
    requires IsGroupAt(e, p)
    ensures p + [k] <= q ==> At(PutAt(e, p, k, x), q) == At(x, q[|p| + 1..])
    ensures q <= p ==> IsGroupAt(PutAt(e, p, k, x), q)
    ensures !(q <= p) && !(p + [k] <= q) ==> At(PutAt(e, p, k, x), q) == At(e, q)
  {
    if p + [k] <= q {
      AtPutAtBelow(e, p, k, x, q);
    } else if q <= p {
      AtPutAtAbove(e, p, k, x, q);
    } else {
      AtPutAtOff(e, p, k, x, q);
    }
  }

  /** Below the new entry, the tree is the new entry. */
  lemma {:induction false} AtPutAtBelow(e: Entry, p: Path, k: string, x: Entry, q: Path)
    requires IsGroupAt(e, p) && p + [k] <= q
    ensures At(PutAt(e, p, k, x), q) == At(x, q[|p| + 1..])
    decreases |p|
  {
    var r := PutAt(e, p, k, x);
    if p == [] {
      assert q[0] == k && [k] + q[1..] == q;
      AtCons(r, k, q[1..]);
    } else {
      var c := e.children[p[0]];
      var c' := PutAt(c, p[1..], k, x);
      assert r == Put(e, p[0], c');
      assert (p + [k])[1..] == p[1..] + [k];
      assert q[0] == p[0] && p[1..] + [k] <= q[1..];
      AtPutAtBelow(c, p[1..], k, x, q[1..]);
      assert [p[0]] + q[1..] == q;
      AtCons(r, p[0], q[1..]);
      assert q[1..][|p[1..]| + 1..] == q[|p| + 1..];
    }
  }

  /** The groups on the way down stay groups. */
  lemma {:induction false} AtPutAtAbove(e: Entry, p: Path, k: string, x: Entry, q: Path)
    requires IsGroupAt(e, p) && q <= p
    ensures IsGroupAt(PutAt(e, p, k, x), q)
    decreases |p|
  {
    var r := PutAt(e, p, k, x);
    if p != [] && q != [] {
      var c := e.children[p[0]];
      var c' := PutAt(c, p[1..], k, x);
      assert r == Put(e, p[0], c');
      assert q[0] == p[0] && q[1..] <= p[1..];
      AtPutAtAbove(c, p[1..], k, x, q[1..]);
      assert [p[0]] + q[1..] == q;
      AtCons(r, p[0], q[1..]);
    }
  }

  /** Off the path to the new entry, nothing changes. */
  lemma {:induction false} AtPutAtOff(e: Entry, p: Path, k: string, x: Entry, q: Path)
    requires IsGroupAt(e, p) && !(q <= p) && !(p + [k] <= q)
    ensures At(PutAt(e, p, k, x), q) == At(e, q)
    decreases |p|
  {
    var r := PutAt(e, p, k, x);
    if p == [] {
      assert q[0] != k;
    } else if q[0] == p[0] {
      var c := e.children[p[0]];
      var c' := PutAt(c, p[1..], k, x);
      assert r == Put(e, p[0], c');
      assert (p + [k])[1..] == p[1..] + [k];
      assert !(q[1..] <= p[1..]) && !(p[1..] + [k] <= q[1..]);
      AtPutAtOff(c, p[1..], k, x, q[1..]);
      assert [p[0]] + q[1..] == q;
      AtCons(r, p[0], q[1..]);
      AtCons(e, p[0], q[1..]);
    }
  }

  lemma {:induction false} PutAtValid(e: Entry, p: Path, k: string, x: Entry)
    requires IsGroupAt(e, p) && Valid(e) && Valid(x)
    ensures Valid(PutAt(e, p, k, x))
    decreases |p|
  {
    if p == [] {
      PutValid(e, k, x);
    } else {
      PutAtValid(e.children[p[0]], p[1..], k, x);
      PutValid(e, p[0], PutAt(e.children[p[0]], p[1..], k, x));
    }
  }

  lemma {:induction false} PutAtCons(e: Entry, a: string, p: Path, k: string, x: Entry)
    requires e.Group? && a in e.children && IsGroupAt(e.children[a], p)
    ensures IsGroupAt(e, [a] + p)
    ensures PutAt(e, [a] + p, k, x) == Put(e, a, PutAt(e.children[a], p, k, x))
  {
    AtCons(e, a, p);
    assert ([a] + p)[1..] == p;
  }

  // ---------------------------------------------------------------------
  // EnsurePath

  /** There is a proper prefix of the group path that already holds a value. */
  ghost predicate HasLeafPrefix(e: Entry, p: Path)
  {
    exists n :: 1 <= n <= |p| && IsLeafAt(e, p[..n])
  }

  /**
   * The walk fails exactly when some segment already holds a value, and the
   * failure names that segment.
   */
  lemma {:induction false} EnsurePathFails(e: Entry, p: Path)
    requires e.Group?
    ensures EnsurePath(e, p).Err? <==> HasLeafPrefix(e, p)
    ensures EnsurePath(e, p).Err? ==>
      EnsurePath(e, p).error < |p| && IsLeafAt(e, p[..EnsurePath(e, p).error + 1])
    decreases |p|
  {
    if p != [] {
      var child := if p[0] in e.children then e.children[p[0]] else EmptyGroup;
      assert At(e, p[..1]) == if p[0] in e.children then Some(child) else None by {
        assert p[..1][1..] == [];
      }
      if child.Group? {
        EnsurePathFails(child, p[1..]);
        forall n | 2 <= n <= |p|
          ensures IsLeafAt(e, p[..n]) <==> p[0] in e.children && IsLeafAt(child, p[1..][..n - 1])
        {
          assert p[..n][1..] == p[1..][..n - 1];
        }
        if HasLeafPrefix(e, p) {
          var n :| 1 <= n <= |p| && IsLeafAt(e, p[..n]);
          assert n > 1;
          assert IsLeafAt(child, p[1..][..n - 1]);
        }
        if EnsurePath(child, p[1..]).Err? {
          var j := EnsurePath(child, p[1..]).error;
          assert IsLeafAt(child, p[1..][..j + 1]);
          EmptyPathNoLeaf(p[1..], j);
          assert p[0] in e.children;
          assert IsLeafAt(e, p[..j + 2]);
        }
      }
    }
  }

  /** Nothing below an empty group holds a value. */
  lemma EmptyPathNoLeaf(p: Path, j: nat)
    requires j < |p|
    ensures !IsLeafAt(EmptyGroup, p[..j + 1])
  {
  }

  /**
   * When the walk succeeds, every prefix of the path is a group, a path that
   * was missing ends in an empty group, and every entry off the path is as
   * before.
   */
  lemma EnsurePathSucceeds(e: Entry, p: Path)
    requires e.Group? && EnsurePath(e, p).Ok?
    ensures forall j :: 0 <= j <= |p| ==> IsGroupAt(EnsurePath(e, p).value, p[..j])
    ensures At(e, p) == None ==> At(EnsurePath(e, p).value, p) == Some(EmptyGroup)
    ensures forall q :: !(q <= p) ==> At(EnsurePath(e, p).value, q) == At(e, q)
    ensures Valid(e) ==> Valid(EnsurePath(e, p).value)
  {
    EnsurePathGroups(e, p);
    EnsurePathKeeps(e, p);
    if Valid(e) {
      EnsurePathValid(e, p);
    }
  }

  lemma {:induction false} EnsurePathGroups(e: Entry, p: Path)
    requires e.Group? && EnsurePath(e, p).Ok?
    ensures forall j :: 0 <= j <= |p| ==> IsGroupAt(EnsurePath(e, p).value, p[..j])
    decreases |p|
  {
    var r := EnsurePath(e, p).value;
    if p == [] {
      assert p[..0] == [];
    } else {
      var child := if p[0] in e.children then e.children[p[0]] else EmptyGroup;
      var c := EnsurePath(child, p[1..]).value;
      EnsurePathGroups(child, p[1..]);
      assert r == Put(e, p[0], c);
      forall j | 0 <= j <= |p| ensures IsGroupAt(r, p[..j]) {
        if j > 0 {
          AtCons(r, p[0], p[1..][..j - 1]);
          assert [p[0]] + p[1..][..j - 1] == p[..j];
        }
      }
    }
  }

  lemma {:induction false} EnsurePathKeeps(e: Entry, p: Path)
    requires e.Group? && EnsurePath(e, p).Ok?
    ensures At(e, p) == None ==> At(EnsurePath(e, p).value, p) == Some(EmptyGroup)
    ensures forall q :: !(q <= p) ==> At(EnsurePath(e, p).value, q) == At(e, q)
    decreases |p|
  {
    var r := EnsurePath(e, p).value;
    if p != [] {
      var child := if p[0] in e.children then e.children[p[0]] else EmptyGroup;
      var c := EnsurePath(child, p[1..]).value;
      EnsurePathKeeps(child, p[1..]);
      assert r == Put(e, p[0], c);
      AtCons(r, p[0], p[1..]);
      assert [p[0]] + p[1..] == p;
      if p[0] in e.children { AtCons(e, p[0], p[1..]); }
      if p[0] !in e.children && p[1..] != [] {
        NothingBelowEmpty(p[1..]);
      }
      forall q | !(q <= p) ensures At(r, q) == At(e, q) {
        KeepsOne(e, p, c, q);
      }
    }
  }

  /** An entry off the walked path is the same in the tree with the child at p[0] replaced. */
  lemma KeepsOne(e: Entry, p: Path, c: Entry, q: Path)
    requires e.Group? && p != [] && !(q <= p)
    requires var child := if p[0] in e.children then e.children[p[0]] else EmptyGroup;
      forall q' :: !(q' <= p[1..]) ==> At(c, q') == At(child, q')
    ensures At(Put(e, p[0], c), q) == At(e, q)
  {
    if q != [] && q[0] == p[0] {
      var r := Put(e, p[0], c);
      AtCons(r, p[0], q[1..]);
      assert [p[0]] + q[1..] == q;
      assert !(q[1..] <= p[1..]);
      if p[0] in e.children {
        AtCons(e, p[0], q[1..]);
      } else {
        NothingBelowEmpty(q[1..]);
      }
    }
  }

  lemma {:induction false} EnsurePathValid(e: Entry, p: Path)
    requires e.Group? && EnsurePath(e, p).Ok? && Valid(e)
    ensures Valid(EnsurePath(e, p).value)
    decreases |p|
  {
    if p != [] {
      var child := if p[0] in e.children then e.children[p[0]] else EmptyGroup;
      var c := EnsurePath(child, p[1..]).value;
      EnsurePathValid(child, p[1..]);
      PutValid(e, p[0], c);
    }
  }

  lemma NothingBelowEmpty(q: Path)
    requires q != []
    ensures At(EmptyGroup, q) == None
  {
  }

  /**
   * The walk over one more segment is the walk over the shorter path
   * followed by one step of GetGroupAndKey's loop.
   */
  lemma {:induction false} EnsurePathSnoc(e: Entry, p: Path, s: string)
    requires e.Group?
    ensures EnsurePath(e, p + [s]) ==
      match EnsurePath(e, p)
      case Err(i) => Err(i)
      case Ok(t) => (EnsurePathSucceeds(e, p); assert p[..|p|] == p; WalkStep(t, p, s))
    decreases |p|
  {
    if p == [] {
      assert [] + [s] == [s];
      if s in e.children && e.children[s].Group? {
        PutSame(e, s);
      }
    } else {
      var child := if p[0] in e.children then e.children[p[0]] else EmptyGroup;
      assert (p + [s])[0] == p[0] && (p + [s])[1..] == p[1..] + [s];
      if child.Group? {
        EnsurePathSnoc(child, p[1..], s);
        match EnsurePath(child, p[1..])
        case Err(i) =>
        case Ok(c) =>
          EnsurePathSucceeds(child, p[1..]);
          assert p[1..][..|p[1..]|] == p[1..];
          var t := Put(e, p[0], c);
          EnsurePathSucceeds(e, p);
          assert t.children[p[0]] == c;
          AtCons(t, p[0], p[1..]);
          assert [p[0]] + p[1..] == p;
          var g := At(c, p[1..]).value;
          if s !in g.children {
            PutAtCons(t, p[0], p[1..], s, EmptyGroup);
            PutPut(e, p[0], c, PutAt(c, p[1..], s, EmptyGroup));
          }
      }
    }
  }

  /** One iteration of GetGroupAndKey's loop, at the group found at path p. */
  function WalkStep(t: Entry, p: Path, s: string): Result<Entry, nat>
    requires IsGroupAt(t, p)
  {
    var g := At(t, p).value;
    if s !in g.children then Ok(PutAt(t, p, s, EmptyGroup))
    else if g.children[s].Leaf? then Err(|p|)
    else Ok(t)
  }

  // ---------------------------------------------------------------------
  // GetGroupAndKey

  /**
   * GetGroupAndKey: split the key on '.', walk the groups named by all but
   * the last segment (creating missing ones), and return the tree with those
   * groups in place, the path of the last group and the last segment; or the
   * message of the ArgumentException for a segment that holds a value.
   * `walked` is the tree as the in-place walk leaves it, also when it throws:
   * a group the walk creates is empty, so no conflict can follow it, and a
   * throw therefore leaves the tree as it was.
   */
  method GetGroupAndKey(root: Entry, key: string) returns (r: Result<(Entry, Path, string), string>, walked: Entry)
    requires root.Group?
    ensures var parts := Split(key, {'.'});
      match EnsurePath(root, parts[..|parts| - 1])
      case Err(i) => i < |parts| - 1 && r == Err(ConflictMessage(parts[..i + 1]))
      case Ok(t) => r == Ok((t, parts[..|parts| - 1], parts[|parts| - 1]))
    ensures r.Err? ==> walked == root
    ensures r.Ok? ==> walked == r.value.0
  {
    var parts := Split(key, {'.'});
    var tree := root;
    var group: Path := [];
    var i := 0;
    while i < |parts| - 1
      invariant 0 <= i <= |parts| - 1
      invariant group == parts[..i]
      invariant EnsurePath(root, group) == Ok(tree)
      invariant tree == root || At(tree, group) == Some(EmptyGroup)
    {
      WalkFacts(root, parts, i, tree);
      var g := At(tree, group).value;
      if parts[i] !in g.children {
        AtPutAt(tree, group, parts[i], EmptyGroup, group + [parts[i]]);
        assert (group + [parts[i]])[|group| + 1..] == [];
        tree := PutAt(tree, group, parts[i], EmptyGroup);
      } else if !g.children[parts[i]].Group? {
        WalkFails(root, parts, i);
        assert EnsurePath(root, parts[..|parts| - 1]) == Err(i);
        return Err(ConflictMessage(parts[..i + 1])), tree;
      } else {
        assert tree == root;
      }
      assert EnsurePath(root, parts[..i + 1]) == Ok(tree);
      group := group + [parts[i]];
      i := i + 1;
    }
    assert group == parts[..|parts| - 1];
    return Ok((tree, group, parts[|parts| - 1])), tree;
  }

  /** One pass of GetGroupAndKey's loop is one step of the walk. */
  lemma WalkFacts(root: Entry, parts: Path, i: nat, tree: Entry)
    requires root.Group? && i < |parts| && EnsurePath(root, parts[..i]) == Ok(tree)
    ensures IsGroupAt(tree, parts[..i])
    ensures parts[..i + 1] == parts[..i] + [parts[i]]
    ensures EnsurePath(root, parts[..i + 1]) == WalkStep(tree, parts[..i], parts[i])
  {
    var group := parts[..i];
    EnsurePathSucceeds(root, group);
    assert group[..|group|] == group;
    EnsurePathSnoc(root, group, parts[i]);
    assert parts[..i + 1] == group + [parts[i]];
  }

  /** A segment holding a value stops the walk over all the group segments there. */
  lemma WalkFails(root: Entry, parts: Path, i: nat)
    requires root.Group? && i < |parts| - 1 && EnsurePath(root, parts[..i + 1]) == Err(i)
    ensures EnsurePath(root, parts[..|parts| - 1]) == Err(i)
  {
    assert parts[..|parts| - 1][..i + 1] == parts[..i + 1];
    EnsurePathPrefixFails(root, parts[..|parts| - 1], i);
  }

  /** A walk that fails on a prefix of the path fails the same way on the whole path. */
  lemma {:induction false} EnsurePathPrefixFails(e: Entry, p: Path, i: nat)
    requires e.Group? && i < |p| && EnsurePath(e, p[..i + 1]) == Err(i)
    ensures EnsurePath(e, p) == Err(i)
    decreases |p|
  {
    if i > 0 {
      var child := if p[0] in e.children then e.children[p[0]] else EmptyGroup;
      assert p[..i + 1][0] == p[0] && p[..i + 1][1..] == p[1..][..i];
      EnsurePathPrefixFails(child, p[1..], i - 1);
    } else {
      assert p[..1][0] == p[0];
    }
  }

  // ---------------------------------------------------------------------
  // The whole assignment `group[key] = value` after the walk

  /** The group and key of a path: all segments but the last, and the last. */
  lemma GroupAndKeyOfPath(parts: Path)
    requires |parts| >= 1
    ensures parts[..|parts| - 1] + [parts[|parts| - 1]] == parts
  {
  }

  /** After a successful walk, the entry at the full path sits directly in the walked group. */
  lemma AtSnoc(t: Entry, p: Path, k: string)
    requires IsGroupAt(t, p)
    ensures At(t, p + [k]) == if k in At(t, p).value.children then Some(At(t, p).value.children[k]) else None
    decreases |p|
  {
    if p != [] {
      assert (p + [k])[1..] == p[1..] + [k];
      AtSnoc(t.children[p[0]], p[1..], k);
    }
  }

  /**
   * The tree after InnerSetStatus stores v under the path: the walk of
   * GetGroupAndKey, then `group[key] = value`; or the index of the segment
   * that already holds a value.
   */
  function Store(root: Entry, parts: Path, v: Value): Result<Entry, nat>
    requires root.Group? && |parts| >= 1
  {
    match EnsurePath(root, parts[..|parts| - 1])
    case Err(i) => Err(i)
    case Ok(t) =>
      EnsurePathSucceeds(root, parts[..|parts| - 1]);
      assert parts[..|parts| - 1][..|parts| - 1] == parts[..|parts| - 1];
      Ok(PutAt(t, parts[..|parts| - 1], parts[|parts| - 1], Leaf(v)))
  }

  /** Storing fails exactly when a proper prefix of the path names a value, and names the first such segment. */
  lemma StoreFails(root: Entry, parts: Path, v: Value)
    requires root.Group? && |parts| >= 1
    ensures Store(root, parts, v).Err? <==> HasLeafPrefix(root, parts[..|parts| - 1])
    ensures Store(root, parts, v).Err? ==>
      Store(root, parts, v).error < |parts| - 1 && IsLeafAt(root, parts[..Store(root, parts, v).error + 1])
  {
    EnsurePathFails(root, parts[..|parts| - 1]);
    if Store(root, parts, v).Err? {
      var i := Store(root, parts, v).error;
      assert parts[..|parts| - 1][..i + 1] == parts[..i + 1];
    }
  }

  /**
   * A successful store puts Leaf(v) at the path, leaves a group at every
   * proper prefix of it, drops whatever lay below the path, and changes no
   * entry off the path.
   */
  lemma StoreSucceeds(root: Entry, parts: Path, v: Value)
    requires root.Group? && |parts| >= 1 && Store(root, parts, v).Ok?
    ensures At(Store(root, parts, v).value, parts) == Some(Leaf(v))
    ensures forall q :: q < parts ==> IsGroupAt(Store(root, parts, v).value, q)
    ensures forall q :: parts < q ==> At(Store(root, parts, v).value, q) == None
    ensures forall q :: !(q <= parts) && !(parts <= q) ==> At(Store(root, parts, v).value, q) == At(root, q)
    ensures Valid(root) ==> Valid(Store(root, parts, v).value)
  {
    var gp, k := parts[..|parts| - 1], parts[|parts| - 1];
    assert gp + [k] == parts;
    var t := EnsurePath(root, gp).value;
    EnsurePathSucceeds(root, gp);
    assert gp[..|gp|] == gp;
    var r := PutAt(t, gp, k, Leaf(v));
    assert gp <= parts;
    assert r == Store(root, parts, v).value;
    AtPutAt(t, gp, k, Leaf(v), parts);
    assert parts[|gp| + 1..] == [];
    forall q | q < parts ensures IsGroupAt(r, q) {
      AtPutAt(t, gp, k, Leaf(v), q);
      assert q <= gp by {
        assert |q| <= |gp|;
        assert q == parts[..|q|] && gp[..|q|] == parts[..|q|];
      }
    }
    forall q | parts < q ensures At(r, q) == None {
      AtPutAt(t, gp, k, Leaf(v), q);
      assert q[|gp| + 1..] != [];
    }
    forall q | !(q <= parts) && !(parts <= q) ensures At(r, q) == At(root, q) {
      AtPutAt(t, gp, k, Leaf(v), q);
      assert !(q <= gp);
    }
    if Valid(root) {
      PutAtValid(t, gp, k, Leaf(v));
    }
  }

  /** Walking groups that all exist already changes nothing. */
  lemma {:induction false} EnsurePathExisting(e: Entry, p: Path)
    requires e.Group? && IsGroupAt(e, p)
    ensures EnsurePath(e, p) == Ok(e)
    decreases |p|
  {
    if p != [] {
      assert At(e, p) == At(e.children[p[0]], p[1..]);
      assert e.children[p[0]].Group?;
      EnsurePathExisting(e.children[p[0]], p[1..]);
      PutSame(e, p[0]);
    }
  }

  /** Storing at a key the entry it already holds changes nothing. */
  lemma {:induction false} PutAtSame(e: Entry, p: Path, k: string)
    requires IsGroupAt(e, p) && At(e, p + [k]).Some?
    ensures PutAt(e, p, k, At(e, p + [k]).value) == e
    decreases |p|
  {
    AtSnoc(e, p, k);
    if p == [] {
      PutSame(e, k);
    } else {
      assert (p + [k])[1..] == p[1..] + [k];
      PutAtSame(e.children[p[0]], p[1..], k);
      PutSame(e, p[0]);
    }
  }

  /** Storing the same value twice leaves the tree as the first store did. */
  lemma StoreIdempotent(root: Entry, parts: Path, v: Value)
    requires root.Group? && |parts| >= 1 && Store(root, parts, v).Ok?
    ensures Store(root, parts, v).value.Group?
    ensures Store(Store(root, parts, v).value, parts, v) == Store(root, parts, v)
  {
    var d := Store(root, parts, v).value;
    var gp, k := parts[..|parts| - 1], parts[|parts| - 1];
    StoreSucceeds(root, parts, v);
    assert gp < parts;
    assert IsGroupAt(d, []);
    EnsurePathExisting(d, gp);
    GroupAndKeyOfPath(parts);
    PutAtSame(d, gp, k);
  }

  // ---------------------------------------------------------------------
  // Dump

  /** The text Dump builds in front of an entry: "." before every segment of its path. */
  function PathText(p: Path): string
  {
    if p == [] then "" else "." + p[0] + PathText(p[1..])
  }

  lemma {:induction false} PathTextSnoc(p: Path, k: string)
    ensures PathText(p + [k]) == PathText(p) + "." + k
  {
    if p != [] {
      assert (p + [k])[1..] == p[1..] + [k];
      PathTextSnoc(p[1..], k);
    } else {
      assert [] + [k] == [k];
    }
  }

  /** For a non-empty path, Dump's text is a leading '.' followed by the dot-joined path. */
  lemma {:induction false} PathTextJoin(p: Path)
    requires p != []
    ensures PathText(p) == "." + Join(p, '.')
  {
    if |p| > 1 {
      var j := Join(p[1..], '.');
      PathTextJoin(p[1..]);
      assert PathText(p) == "." + p[0] + ("." + j);
      JoinCons(p[0], p[1..], '.');
      assert [p[0]] + p[1..] == p;
      assert Join(p, '.') == p[0] + "." + j;
      Regroup(".", p[0], ".", j);
    } else {
      assert PathText(p[1..]) == "";
    }
  }

  lemma Regroup(x: string, a: string, y: string, j: string)
    ensures x + a + (y + j) == x + (a + y + j)
  {
  }

  /**
   * Dump(key, data): for every entry of the group, in enumeration order, a
   * nested group is dumped with "key.name" as its prefix and a value gives
   * the line "key.name: text".
   */
  function DumpKeys(prefix: string, g: Entry, ks: seq<string>): seq<string>
    requires g.Group?
    decreases g, |ks|
  {
    if ks == [] then []
    else
      var k := ks[0];
      var here :=
        if k !in g.children then []
        else match g.children[k]
          case Group(_, _) => DumpKeys(prefix + "." + k, g.children[k], g.children[k].keys)
          case Leaf(v) => [prefix + "." + k + ": " + FormatValue(v)];
      here + DumpKeys(prefix, g, ks[1..])
  }

  /** Dump(): the lines printed for the whole store, starting from the empty prefix. */
  function Dump(root: Entry): seq<string>
    requires root.Group?
  {
    DumpKeys("", root, root.keys)
  }

  /** The leaves below the keys ks of group g, in Dump's order, with their full paths. */
  function LeavesKeys(pp: Path, g: Entry, ks: seq<string>): seq<(Path, Value)>
    requires g.Group?
    decreases g, |ks|
  {
    if ks == [] then []
    else
      var k := ks[0];
      var here :=
        if k !in g.children then []
        else match g.children[k]
          case Group(_, _) => LeavesKeys(pp + [k], g.children[k], g.children[k].keys)
          case Leaf(v) => [(pp + [k], v)];
      here + LeavesKeys(pp, g, ks[1..])
  }

  /** Every leaf of the store with its path, in Dump's order. */
  function Leaves(root: Entry): seq<(Path, Value)>
    requires root.Group?
  {
    LeavesKeys([], root, root.keys)
  }

  /** The line Dump prints for the leaf holding v at path q. */
  function DumpLine(q: Path, v: Value): string
  {
    PathText(q) + ": " + FormatValue(v)
  }

  function Lines(leaves: seq<(Path, Value)>): (r: seq<string>)
    ensures |r| == |leaves|
    ensures forall i :: 0 <= i < |leaves| ==> r[i] == DumpLine(leaves[i].0, leaves[i].1)
  {
    if leaves == [] then [] else [DumpLine(leaves[0].0, leaves[0].1)] + Lines(leaves[1..])
  }

  lemma LinesAppend(a: seq<(Path, Value)>, b: seq<(Path, Value)>)
    ensures Lines(a + b) == Lines(a) + Lines(b)
  {
  }

  lemma {:induction false} DumpKeysLines(pp: Path, g: Entry, ks: seq<string>)
    requires g.Group?
    ensures DumpKeys(PathText(pp), g, ks) == Lines(LeavesKeys(pp, g, ks))
    decreases g, |ks|
  {
    if ks != [] {
      var k := ks[0];
      PathTextSnoc(pp, k);
      DumpKeysLines(pp, g, ks[1..]);
      if k in g.children {
        match g.children[k]
        case Group(_, _) =>
          DumpKeysLines(pp + [k], g.children[k], g.children[k].keys);
          LinesAppend(LeavesKeys(pp + [k], g.children[k], g.children[k].keys), LeavesKeys(pp, g, ks[1..]));
        case Leaf(v) =>
          LinesAppend([(pp + [k], v)], LeavesKeys(pp, g, ks[1..]));
      }
    }
  }

  /** Dump prints one line per entry of Leaves, in order: "." + dot-joined path + ": " + FormatValue. */
  lemma DumpIsLeafLines(root: Entry)
    requires root.Group?
    ensures Dump(root) == Lines(Leaves(root))
    ensures forall i :: 0 <= i < |Leaves(root)| ==>
      Leaves(root)[i].0 != [] &&
      Dump(root)[i] == "." + Join(Leaves(root)[i].0, '.') + ": " + FormatValue(Leaves(root)[i].1)
  {
    DumpKeysLines([], root, root.keys);
    LeavesSound([], root, root.keys);
    forall i | 0 <= i < |Leaves(root)| ensures Leaves(root)[i].0 != [] {
      assert ListedBelow([], root, root.keys, Leaves(root)[i]);
    }
    forall i | 0 <= i < |Leaves(root)| ensures
      Dump(root)[i] == "." + Join(Leaves(root)[i].0, '.') + ": " + FormatValue(Leaves(root)[i].1)
    {
      PathTextJoin(Leaves(root)[i].0);
    }
  }

  /** Leaf (q, v) of a listing for pp lies below one of the keys ks of g and really holds v. */
  ghost predicate ListedBelow(pp: Path, g: Entry, ks: seq<string>, e: (Path, Value))
  {
    |e.0| > |pp| && e.0[..|pp|] == pp && e.0[|pp|] in ks && At(g, e.0[|pp|..]) == Some(Leaf(e.1))
  }

  /** Every listed leaf lies below one of the keys ks and really holds its value. */
  lemma {:induction false} LeavesSound(pp: Path, g: Entry, ks: seq<string>)
    requires g.Group?
    ensures forall e :: e in LeavesKeys(pp, g, ks) ==> ListedBelow(pp, g, ks, e)
    decreases g, |ks|
  {
    if ks != [] {
      var k := ks[0];
      var rest := LeavesKeys(pp, g, ks[1..]);
      LeavesSound(pp, g, ks[1..]);
      forall e | e in rest ensures ListedBelow(pp, g, ks, e) {
        assert ListedBelow(pp, g, ks[1..], e);
      }
      if k in g.children {
        match g.children[k]
        case Group(_, _) =>
          var c := g.children[k];
          var here := LeavesKeys(pp + [k], c, c.keys);
          LeavesSound(pp + [k], c, c.keys);
          assert LeavesKeys(pp, g, ks) == here + rest;
          forall e | e in here ensures ListedBelow(pp, g, ks, e) {
            var q := e.0;
            assert ListedBelow(pp + [k], c, c.keys, e);
            assert q[..|pp|] == q[..|pp| + 1][..|pp|];
            assert q[|pp|] == q[..|pp| + 1][|pp|];
            AtCons(g, k, q[|pp| + 1..]);
            assert q[|pp|..] == [k] + q[|pp| + 1..];
          }
        case Leaf(v) =>
          assert LeavesKeys(pp, g, ks) == [(pp + [k], v)] + rest;
          AtCons(g, k, []);
          assert (pp + [k])[|pp|..] == [k];
          assert ListedBelow(pp, g, ks, (pp + [k], v));
      }
    }
  }

  /** Every value stored below one of the keys ks is listed, with its full path. */
  lemma {:induction false} LeavesComplete(pp: Path, g: Entry, ks: seq<string>, r: Path)
    requires g.Group? && Valid(g)
    requires r != [] && r[0] in ks && IsLeafAt(g, r)
    ensures (pp + r, At(g, r).value.value) in LeavesKeys(pp, g, ks)
    decreases g, |ks|
  {
    var k := ks[0];
    var rest := LeavesKeys(pp, g, ks[1..]);
    if r[0] != k {
      LeavesComplete(pp, g, ks[1..], r);
    } else {
      assert k in g.children;
      AtCons(g, k, r[1..]);
      assert [k] + r[1..] == r;
      match g.children[k]
      case Group(_, _) =>
        var c := g.children[k];
        assert r[1..] != [];
        assert r[1..][0] in c.keys;
        LeavesComplete(pp + [k], c, c.keys, r[1..]);
        assert pp + [k] + r[1..] == pp + r;
      case Leaf(v) =>
        assert r[1..] == [];
        assert r == [k];
        assert LeavesKeys(pp, g, ks) == [(pp + [k], v)] + rest;
    }
  }

  /** No two entries of a listing share a path. */
  ghost predicate DistinctPaths(l: seq<(Path, Value)>)
  {
    forall i, j :: 0 <= i < j < |l| ==> l[i].0 != l[j].0
  }

  lemma DistinctPathsAppend(a: seq<(Path, Value)>, b: seq<(Path, Value)>)
    requires DistinctPaths(a) && DistinctPaths(b)
    requires forall x, y :: x in a && y in b ==> x.0 != y.0
    ensures DistinctPaths(a + b)
  {
    var l := a + b;
    forall i, j | 0 <= i < j < |l| ensures l[i].0 != l[j].0 {
      if i < |a| && j >= |a| {
        assert l[i] == a[i] && l[j] == b[j - |a|];
        assert a[i] in a && b[j - |a|] in b;
      } else if i >= |a| {
        assert l[i] == b[i - |a|] && l[j] == b[j - |a|];
      }
    }
  }

  /** No path is listed twice. */
  lemma {:induction false} LeavesDistinct(pp: Path, g: Entry, ks: seq<string>)
    requires g.Group? && Valid(g)
    requires forall i, j :: 0 <= i < j < |ks| ==> ks[i] != ks[j]
    ensures DistinctPaths(LeavesKeys(pp, g, ks))
    decreases g, |ks|
  {
    if ks != [] {
      var k := ks[0];
      var rest := LeavesKeys(pp, g, ks[1..]);
      LeavesDistinct(pp, g, ks[1..]);
      LeavesSound(pp, g, ks[1..]);
      var here: seq<(Path, Value)> := [];
      if k in g.children {
        match g.children[k]
        case Group(_, _) =>
          var c := g.children[k];
          here := LeavesKeys(pp + [k], c, c.keys);
          LeavesDistinct(pp + [k], c, c.keys);
          LeavesSound(pp + [k], c, c.keys);
          forall x | x in here ensures |x.0| > |pp| && x.0[|pp|] == k {
            assert ListedBelow(pp + [k], c, c.keys, x);
            assert x.0[..|pp| + 1] == pp + [k];
            assert x.0[|pp|] == x.0[..|pp| + 1][|pp|];
          }
        case Leaf(v) =>
          here := [(pp + [k], v)];
      }
      assert LeavesKeys(pp, g, ks) == here + rest;
      forall x, y | x in here && y in rest ensures x.0 != y.0 {
        assert ListedBelow(pp, g, ks[1..], y);
        assert k !in ks[1..];
      }
      DistinctPathsAppend(here, rest);
    }
  }

  /**
   * Leaves lists exactly the values of the store, each path once: Dump
   * therefore prints exactly one line per stored value.
   */
  lemma LeavesExactly(root: Entry)
    requires root.Group? && Valid(root)
    ensures forall i :: 0 <= i < |Leaves(root)| ==> At(root, Leaves(root)[i].0) == Some(Leaf(Leaves(root)[i].1))
    ensures forall q :: IsLeafAt(root, q) ==> (q, At(root, q).value.value) in Leaves(root)
    ensures DistinctPaths(Leaves(root))
  {
    LeavesSound([], root, root.keys);
    forall i | 0 <= i < |Leaves(root)| ensures At(root, Leaves(root)[i].0) == Some(Leaf(Leaves(root)[i].1)) {
      assert ListedBelow([], root, root.keys, Leaves(root)[i]);
      assert Leaves(root)[i].0[0..] == Leaves(root)[i].0;
    }
    forall q | IsLeafAt(root, q) ensures (q, At(root, q).value.value) in Leaves(root) {
      assert q != [];
      LeavesComplete([], root, root.keys, q);
      assert [] + q == q;
    }
    LeavesDistinct([], root, root.keys);
  }

  /** After a successful SetStatus(key, v), Dump prints the line "." + key + ": " + FormatValue(v). */
  lemma StoreShowsInDump(root: Entry, key: string, v: Value)
    requires root.Group? && Valid(root) && Store(root, Split(key, {'.'}), v).Ok?
    ensures Store(root, Split(key, {'.'}), v).value.Group?
    ensures "." + key + ": " + FormatValue(v) in Dump(Store(root, Split(key, {'.'}), v).value)
  {
    var parts := Split(key, {'.'});
    var d := Store(root, parts, v).value;
    StoreSucceeds(root, parts, v);
    assert [] < parts;
    LeavesExactly(d);
    assert IsLeafAt(d, parts);
    var i :| 0 <= i < |Leaves(d)| && Leaves(d)[i] == (parts, v);
    DumpIsLeafLines(d);
    JoinSplit(key, '.');
    assert Dump(d)[i] == "." + key + ": " + FormatValue(v);
  }
}
