/**
 * MoveSelectedTo of ListViewReorderer and ListViewEx: the selected items are
 * taken out one by one, in list order, and re-inserted as one block at the
 * drop index; plus the choice of that index in OnDragDrop.
 */
module ListReorder {
  import opened Wrappers
  import opened Seqs

  /** A ListViewItem, by identity: an item belongs to at most one list, once. */
  type Item = nat

  predicate Distinct(s: seq<Item>)
  {
    forall i, j :: 0 <= i < j < |s| ==> s[i] != s[j]
  }

  /** The items of s that are not in the set, in order. */
  function Without(s: seq<Item>, sel: set<Item>): seq<Item>
  {
    if s == [] then [] else (if s[0] in sel then [] else [s[0]]) + Without(s[1..], sel)
  }

  /** The items of s that are in the set, in order: SelectedItems enumerates in index order. */
  function Only(s: seq<Item>, sel: set<Item>): seq<Item>
  {
    if s == [] then [] else (if s[0] in sel then [s[0]] else []) + Only(s[1..], sel)
  }

  /** The position of the first occurrence of x. */
  function IndexOf(s: seq<Item>, x: Item): (r: nat)
    requires x in s
    ensures r < |s| && s[r] == x && x !in s[..r]
  {
    if s[0] == x then 0 else assert s[1..][..IndexOf(s[1..], x)] == s[1..IndexOf(s[1..], x) + 1]; 1 + IndexOf(s[1..], x)
  }

  lemma Members(s: seq<Item>, sel: set<Item>, x: Item)
    ensures x in Without(s, sel) <==> x in s && x !in sel
    ensures x in Only(s, sel) <==> x in s && x in sel
  {
    if s != [] {
      Members(s[1..], sel, x);
      assert s == [s[0]] + s[1..];
    }
  }

  lemma WithoutAppend(a: seq<Item>, b: seq<Item>, sel: set<Item>)
    ensures Without(a + b, sel) == Without(a, sel) + Without(b, sel)
  {
    if a != [] {
      assert (a + b)[1..] == a[1..] + b;
      WithoutAppend(a[1..], b, sel);
    } else {
      assert a + b == b;
    }
  }

  lemma OnlyAppend(a: seq<Item>, b: seq<Item>, sel: set<Item>)
    ensures Only(a + b, sel) == Only(a, sel) + Only(b, sel)
  {
    if a != [] {
      assert (a + b)[1..] == a[1..] + b;
      OnlyAppend(a[1..], b, sel);
    } else {
      assert a + b == b;
    }
  }

  /** Taking out the selected items and keeping them apart loses and adds nothing. */
  lemma WithoutOnlyMultiset(s: seq<Item>, sel: set<Item>)
    ensures multiset(Without(s, sel)) + multiset(Only(s, sel)) == multiset(s)
  {
    if s != [] {
      WithoutOnlyMultiset(s[1..], sel);
      assert [s[0]] + s[1..] == s;
    }
  }

  /** Only two selections that agree on the items of s filter s alike. */
  lemma FilterAgree(s: seq<Item>, p: set<Item>, q: set<Item>)
    requires forall x :: x in s ==> (x in p <==> x in q)
    ensures Without(s, p) == Without(s, q) && Only(s, p) == Only(s, q)
  {
    if s != [] {
      FilterAgree(s[1..], p, q);
    }
  }

  lemma WithoutAll(s: seq<Item>, sel: set<Item>)
    requires forall x :: x in s ==> x in sel
    ensures Without(s, sel) == []
  {
    if s != [] {
      WithoutAll(s[1..], sel);
    }
  }

  lemma WithoutNone(s: seq<Item>, sel: set<Item>)
    requires forall x :: x in s ==> x !in sel
    ensures Without(s, sel) == s
  {
    if s != [] {
      WithoutNone(s[1..], sel);
      assert [s[0]] + s[1..] == s;
    }
  }

  lemma WithoutTwice(s: seq<Item>, sel: set<Item>)
    ensures Without(Without(s, sel), sel) == Without(s, sel)
  {
    forall x | x in Without(s, sel) ensures x !in sel {
      Members(s, sel, x);
    }
    WithoutNone(Without(s, sel), sel);
  }

  lemma {:induction false} OnlyDistinct(s: seq<Item>, sel: set<Item>)
    requires Distinct(s)
    ensures Distinct(Only(s, sel))
  {
    if s != [] {
      OnlyDistinct(s[1..], sel);
      var r := Only(s[1..], sel);
      assert s[0] !in s[1..] by {
        forall j | 0 <= j < |s[1..]| ensures s[1..][j] != s[0] {
          assert s[1..][j] == s[j + 1];
        }
      }
      Members(s[1..], sel, s[0]);
      assert s[0] !in r;
    }
  }

  lemma IndexOfIs(s: seq<Item>, x: Item, i: nat)
    requires i < |s| && s[i] == x && x !in s[..i]
    ensures IndexOf(s, x) == i
  {
  }

  lemma IndexOfAppendLeft(a: seq<Item>, b: seq<Item>, x: Item)
    requires x in a
    ensures IndexOf(a + b, x) == IndexOf(a, x)
  {
    var i := IndexOf(a, x);
    assert (a + b)[..i] == a[..i];
    IndexOfIs(a + b, x, i);
  }

  lemma IndexOfAppendRight(a: seq<Item>, b: seq<Item>, x: Item)
    requires x !in a && x in b
    ensures IndexOf(a + b, x) == |a| + IndexOf(b, x)
  {
    var i := IndexOf(b, x);
    assert (a + b)[..|a| + i] == a + b[..i];
    IndexOfIs(a + b, x, |a| + i);
  }

  lemma DistinctTail(s: seq<Item>)
    requires s != [] && Distinct(s)
    ensures Distinct(s[1..]) && s[0] !in s[1..]
  {
    forall j | 0 <= j < |s[1..]| ensures s[1..][j] != s[0] {
      assert s[1..][j] == s[j + 1];
    }
    forall i, j | 0 <= i < j < |s[1..]| ensures s[1..][i] != s[1..][j] {
      assert s[1..][i] == s[i + 1] && s[1..][j] == s[j + 1];
    }
  }

  /** Adding an item that occurs once to the removed set removes exactly its one occurrence. */
  lemma {:induction false} WithoutOneMore(s: seq<Item>, p: set<Item>, x: Item)
    requires Distinct(s) && x in s && x !in p
    ensures x in Without(s, p)
    ensures Without(s, p + {x}) == RemoveAt(Without(s, p), IndexOf(Without(s, p), x))
  {
    DistinctTail(s);
    var w1 := Without(s[1..], p);
    if s[0] == x {
      assert Without(s, p) == [x] + w1;
      FilterAgree(s[1..], p, p + {x});
      assert Without(s, p + {x}) == w1;
      assert RemoveAt([x] + w1, 0) == w1;
    } else {
      assert x in s[1..];
      WithoutOneMore(s[1..], p, x);
      if s[0] in p {
        assert Without(s, p) == w1;
        assert Without(s, p + {x}) == Without(s[1..], p + {x});
      } else {
        assert Without(s, p) == [s[0]] + w1;
        assert Without(s, p + {x}) == [s[0]] + Without(s[1..], p + {x});
        WithoutOneMoreStep(s[0], w1, x);
      }
    }
  }

  lemma WithoutOneMoreStep(y: Item, w: seq<Item>, x: Item)
    requires x in w && y != x
    ensures IndexOf([y] + w, x) == 1 + IndexOf(w, x)
    ensures RemoveAt([y] + w, 1 + IndexOf(w, x)) == [y] + RemoveAt(w, IndexOf(w, x))
  {
    IndexOfAppendRight([y], w, x);
  }

  /** `if (index < 0) index = Count + 1 + index;`: -1 means after the last item. */
  function NormalizeIndex(index: int, count: nat): int
  {
    if index < 0 then count + 1 + index else index
  }

  /**
   * The list MoveSelectedTo produces for a target t in [0, Count]: the
   * unselected items before t, then the selected ones in list order, then the
   * unselected items from t on.
   */
  function Moved(items: seq<Item>, sel: set<Item>, t: nat): seq<Item>
    requires t <= |items|
  {
    Without(items[..t], sel) + Only(items, sel) + Without(items[t..], sel)
  }

  /** A move permutes the list: same length, same multiset. */
  lemma MovedIsPermutation(items: seq<Item>, sel: set<Item>, t: nat)
    requires t <= |items|
    ensures |Moved(items, sel, t)| == |items|
    ensures multiset(Moved(items, sel, t)) == multiset(items)
  {
    var a, b, c := Without(items[..t], sel), Only(items, sel), Without(items[t..], sel);
    assert Without(items, sel) == a + c by {
      assert items[..t] + items[t..] == items;
      WithoutAppend(items[..t], items[t..], sel);
    }
    WithoutOnlyMultiset(items, sel);
    assert multiset(a + b + c) == multiset(a + c) + multiset(b);
  }

  /**
   * The selected items form one block, in their original order, right after
   * the unselected items that stood before t.
   */
  lemma MovedBlock(items: seq<Item>, sel: set<Item>, t: nat)
    requires t <= |items|
    ensures var k := |Without(items[..t], sel)|;
      Moved(items, sel, t)[..k] == Without(items[..t], sel)
      && Moved(items, sel, t)[k..k + |Only(items, sel)|] == Only(items, sel)
      && Moved(items, sel, t)[k + |Only(items, sel)|..] == Without(items[t..], sel)
  {
    var a, b, c := Without(items[..t], sel), Only(items, sel), Without(items[t..], sel);
    var m := Moved(items, sel, t);
    assert m == a + b + c;
    assert m[..|a|] == a;
    assert m[|a|..|a| + |b|] == b;
    assert m[|a| + |b|..] == c;
  }

  /** The unselected items keep their relative order. */
  lemma MovedKeepsOrder(items: seq<Item>, sel: set<Item>, t: nat)
    requires t <= |items|
    ensures Without(Moved(items, sel, t), sel) == Without(items, sel)
  {
    var a, b, c := Without(items[..t], sel), Only(items, sel), Without(items[t..], sel);
    assert Without(items, sel) == a + c by {
      assert items[..t] + items[t..] == items;
      WithoutAppend(items[..t], items[t..], sel);
    }
    assert Without(b, sel) == [] by {
      forall x | x in b ensures x in sel {
        Members(items, sel, x);
      }
      WithoutAll(b, sel);
    }
    assert Without(a, sel) == a by {
      WithoutTwice(items[..t], sel);
    }
    assert Without(c, sel) == c by {
      WithoutTwice(items[t..], sel);
    }
    assert Without(a + b + c, sel) == Without(a, sel) + Without(b, sel) + Without(c, sel) by {
      WithoutAppend(a + b, c, sel);
      WithoutAppend(a, b, sel);
    }
  }

  lemma OnlyNone(s: seq<Item>)
    ensures Only(s, {}) == []
  {
  }

  /** With nothing selected, a move leaves the list as it was. */
  lemma MovedNothing(items: seq<Item>, t: nat)
    requires t <= |items|
    ensures Moved(items, {}, t) == items
  {
    var front, back := items[..t], items[t..];
    WithoutNone(front, {});
    WithoutNone(back, {});
    OnlyNone(items);
    assert Moved(items, {}, t) == front + [] + back;
    SplitWhole(items, t);
  }

  // ---------------------------------------------------------------------
  // Distinctness survives the moves

  lemma {:induction false} DistinctCount(s: seq<Item>, x: Item)
    requires Distinct(s)
    ensures multiset(s)[x] <= 1
  {
    if s != [] {
      DistinctTail(s);
      DistinctCount(s[1..], x);
      assert s == [s[0]] + s[1..];
    }
  }

  lemma CountDistinct(s: seq<Item>)
    requires forall x :: multiset(s)[x] <= 1
    ensures Distinct(s)
  {
    forall i, j | 0 <= i < j < |s| ensures s[i] != s[j] {
      assert s == s[..j] + s[j..];
      assert s[i] in s[..j] && s[j] in s[j..];
      assert multiset(s)[s[j]] == multiset(s[..j])[s[j]] + multiset(s[j..])[s[j]];
    }
  }

  lemma PermutationDistinct(a: seq<Item>, b: seq<Item>)
    requires Distinct(a) && multiset(a) == multiset(b)
    ensures Distinct(b)
  {
    forall x ensures multiset(b)[x] <= 1 {
      DistinctCount(a, x);
    }
    CountDistinct(b);
  }

  /** Removing the item at i takes exactly that item out. */
  lemma RemoveAtMultiset(s: seq<Item>, i: nat)
    requires i < |s|
    ensures multiset(RemoveAt(s, i)) + multiset{s[i]} == multiset(s)
  {
    assert s == s[..i] + [s[i]] + s[i + 1..];
  }

  lemma RemoveAtDistinct(s: seq<Item>, i: nat)
    requires Distinct(s) && i < |s|
    ensures Distinct(RemoveAt(s, i))
  {
    assert s == s[..i] + [s[i]] + s[i + 1..];
    assert multiset(RemoveAt(s, i)) + multiset{s[i]} == multiset(s);
    forall x ensures multiset(RemoveAt(s, i))[x] <= 1 {
      DistinctCount(s, x);
    }
    CountDistinct(RemoveAt(s, i));
  }

  lemma DistinctSlices(s: seq<Item>, t: nat)
    requires Distinct(s) && t <= |s|
    ensures Distinct(s[..t]) && Distinct(s[t..])
    ensures forall x :: x in s[..t] ==> x !in s[t..]
  {
    forall x | x in s[..t] ensures x !in s[t..] {
      var i :| 0 <= i < t && s[..t][i] == x;
      forall j | 0 <= j < |s[t..]| ensures s[t..][j] != x {
        assert s[t..][j] == s[t + j] && s[..t][i] == s[i];
      }
    }
    forall i, j | 0 <= i < j < |s[t..]| ensures s[t..][i] != s[t..][j] {
      assert s[t..][i] == s[t + i] && s[t..][j] == s[t + j];
    }
  }

  // ---------------------------------------------------------------------
  // The loop of MoveSelectedTo

  /** The items of a sequence, as a set. */
  function Elems(s: seq<Item>): set<Item>
  {
    set x | x in s
  }

  /** The list after the first k of the selected items `picked` have been moved to t. */
  function Partial(items: seq<Item>, picked: seq<Item>, t: nat, k: nat): seq<Item>
    requires t <= |items| && k <= |picked|
  {
    Without(items[..t], Elems(picked[..k])) + picked[..k] + Without(items[t..], Elems(picked[..k]))
  }

  /** Where the next moved item goes once k of them have moved: just after the block. */
  function InsertPoint(items: seq<Item>, picked: seq<Item>, t: nat, k: nat): nat
    requires t <= |items| && k <= |picked|
  {
    |Without(items[..t], Elems(picked[..k]))| + k
  }

  /** The insertion index after `if (item.Index < index) index--;` for the item x. */
  function StepTarget(cur: seq<Item>, x: Item, i: int): int
    requires x in cur
  {
    if IndexOf(cur, x) < i then i - 1 else i
  }

  /** Insert accepts that index once x has been removed from `cur`. */
  predicate StepInRange(cur: seq<Item>, x: Item, i: int)
  {
    x in cur && 0 <= StepTarget(cur, x, i) <= |cur| - 1
  }

  /** The list after Remove(x) and Insert at the step's target. */
  function StepNext(cur: seq<Item>, x: Item, i: int): seq<Item>
    requires StepInRange(cur, x, i)
  {
    InsertAt(RemoveAt(cur, IndexOf(cur, x)), StepTarget(cur, x, i), x)
  }

  /**
   * One pass of the loop on the list `cur` with insertion index `i`: the
   * item x is found where it stands, the index is decremented only when x
   * stood before it, and Remove then Insert(index++) give `next` and `nextI`.
   */
  predicate StepResult(cur: seq<Item>, x: Item, i: int, next: seq<Item>, nextI: int)
  {
    StepInRange(cur, x, i) && next == StepNext(cur, x, i) && nextI == StepTarget(cur, x, i) + 1
  }

  /** The pass of the loop that moves the (k+1)-th selected item extends the block by it. */
  ghost predicate StepMovesNext(items: seq<Item>, picked: seq<Item>, t: nat, k: nat)
    requires t <= |items| && k < |picked|
  {
    StepResult(Partial(items, picked, t, k), picked[k], InsertPoint(items, picked, t, k),
      Partial(items, picked, t, k + 1), InsertPoint(items, picked, t, k + 1))
  }

  lemma NextNotMoved(picked: seq<Item>, k: nat)
    requires Distinct(picked) && k < |picked|
    ensures picked[k] !in Elems(picked[..k])
    ensures Elems(picked[..k + 1]) == Elems(picked[..k]) + {picked[k]}
    ensures picked[..k + 1] == picked[..k] + [picked[k]]
  {
    assert picked[..k + 1] == picked[..k] + [picked[k]];
  }

  /** Taking an item out of the front part and appending it to the middle block. */
  lemma SpliceBefore(a: seq<Item>, b: seq<Item>, c: seq<Item>, pos: nat)
    requires pos < |a|
    ensures InsertAt(RemoveAt(a + b + c, pos), |a| + |b| - 1, a[pos]) == RemoveAt(a, pos) + (b + [a[pos]]) + c
  {
    var a' := RemoveAt(a, pos);
    assert RemoveAt(a + b + c, pos) == a' + b + c;
    var s := a' + b + c;
    assert s[..|a'| + |b|] == a' + b && s[|a'| + |b|..] == c;
  }

  /** Taking an item out of the back part and appending it to the middle block. */
  lemma SpliceAfter(a: seq<Item>, b: seq<Item>, c: seq<Item>, pos: nat, x: Item)
    requires pos < |c| && c[pos] == x
    ensures InsertAt(RemoveAt(a + b + c, |a| + |b| + pos), |a| + |b|, x) == a + (b + [x]) + RemoveAt(c, pos)
  {
    var c' := RemoveAt(c, pos);
    assert RemoveAt(a + b + c, |a| + |b| + pos) == a + b + c';
    var s := a + b + c';
    assert s[..|a| + |b|] == a + b && s[|a| + |b|..] == c';
  }

  /** An item of the front part: the index drops by one, and so does the part. */
  lemma StepBefore(a: seq<Item>, b: seq<Item>, c: seq<Item>, x: Item)
    requires x in a
    ensures var pos := IndexOf(a, x);
      StepResult(a + b + c, x, |a| + |b|, RemoveAt(a, pos) + (b + [x]) + c, |a| + |b|)
  {
    var pos := IndexOf(a, x);
    assert a + b + c == a + (b + c);
    IndexOfAppendLeft(a, b + c, x);
    assert a[pos] == x;
    SpliceBefore(a, b, c, pos);
    assert StepTarget(a + b + c, x, |a| + |b|) == |a| + |b| - 1;
    assert StepInRange(a + b + c, x, |a| + |b|);
    assert StepNext(a + b + c, x, |a| + |b|) == RemoveAt(a, pos) + (b + [x]) + c;
  }

  /** An item of the back part: the index stays, and the block grows in place. */
  lemma StepAfter(a: seq<Item>, b: seq<Item>, c: seq<Item>, x: Item)
    requires x !in a && x !in b && x in c
    ensures var pos := IndexOf(c, x);
      StepResult(a + b + c, x, |a| + |b|, a + (b + [x]) + RemoveAt(c, pos), |a| + |b| + 1)
  {
    var pos := IndexOf(c, x);
    assert x !in a + b;
    IndexOfAppendRight(a + b, c, x);
    SpliceAfter(a, b, c, pos, x);
    assert x in a + b + c;
    assert IndexOf(a + b + c, x) == |a| + |b| + pos;
    assert 0 <= |a| + |b| <= |a + b + c| - 1;
    assert InsertAt(RemoveAt(a + b + c, |a| + |b| + pos), |a| + |b|, x) == a + (b + [x]) + RemoveAt(c, pos);
    assert StepTarget(a + b + c, x, |a| + |b|) == |a| + |b|;
    assert StepInRange(a + b + c, x, |a| + |b|);
    assert StepNext(a + b + c, x, |a| + |b|) == a + (b + [x]) + RemoveAt(c, pos);
  }

  /** The next item stood before the target: the block and everything after it shift left by one. */
  lemma MoveStepBefore(items: seq<Item>, picked: seq<Item>, t: nat, k: nat)
    requires Distinct(items) && Distinct(picked) && t <= |items| && k < |picked|
    requires picked[k] in items[..t]
    ensures StepMovesNext(items, picked, t, k)
  {
    var p := Elems(picked[..k]);
    var x := picked[k];
    NextNotMoved(picked, k);
    var a, b, c := Without(items[..t], p), picked[..k], Without(items[t..], p);
    assert x in a && Without(items[..t], p + {x}) == RemoveAt(a, IndexOf(a, x)) by {
      DistinctSlices(items, t);
      WithoutOneMore(items[..t], p, x);
    }
    assert Without(items[t..], p + {x}) == c by {
      DistinctSlices(items, t);
      FilterAgree(items[t..], p, p + {x});
    }
    StepBefore(a, b, c, x);
    assert Partial(items, picked, t, k) == a + b + c;
    assert Partial(items, picked, t, k + 1) == RemoveAt(a, IndexOf(a, x)) + (b + [x]) + c;
    assert InsertPoint(items, picked, t, k) == |a| + |b|;
    assert InsertPoint(items, picked, t, k + 1) == |a| + |b|;
  }

  /** The next item stood at or after the target: only the part after the block changes. */
  lemma MoveStepAfter(items: seq<Item>, picked: seq<Item>, t: nat, k: nat)
    requires Distinct(items) && Distinct(picked) && t <= |items| && k < |picked|
    requires picked[k] in items[t..] && picked[k] !in items[..t]
    ensures StepMovesNext(items, picked, t, k)
  {
    var p := Elems(picked[..k]);
    var x := picked[k];
    NextNotMoved(picked, k);
    var a, b, c := Without(items[..t], p), picked[..k], Without(items[t..], p);
    assert x in c && Without(items[t..], p + {x}) == RemoveAt(c, IndexOf(c, x)) by {
      DistinctSlices(items, t);
      WithoutOneMore(items[t..], p, x);
    }
    assert Without(items[..t], p + {x}) == a by {
      FilterAgree(items[..t], p, p + {x});
    }
    assert x !in a by {
      Members(items[..t], p, x);
    }
    StepAfter(a, b, c, x);
    assert Partial(items, picked, t, k) == a + b + c;
    assert Partial(items, picked, t, k + 1) == a + (b + [x]) + RemoveAt(c, IndexOf(c, x));
    assert InsertPoint(items, picked, t, k) == |a| + |b|;
    assert InsertPoint(items, picked, t, k + 1) == |a| + |b| + 1;
  }

  lemma MoveStep(items: seq<Item>, picked: seq<Item>, t: nat, k: nat)
    requires Distinct(items) && Distinct(picked) && t <= |items| && k < |picked|
    requires forall y :: y in picked ==> y in items
    ensures StepMovesNext(items, picked, t, k)
  {
    var x := picked[k];
    assert x in picked;
    assert items == items[..t] + items[t..];
    if x in items[..t] {
      MoveStepBefore(items, picked, t, k);
    } else {
      MoveStepAfter(items, picked, t, k);
    }
  }

  /** The position of the first selected item. */
  function FirstSelected(s: seq<Item>, sel: set<Item>): (r: nat)
    requires Only(s, sel) != []
    ensures r < |s| && s[r] == Only(s, sel)[0]
  {
    if s[0] in sel then 0 else 1 + FirstSelected(s[1..], sel)
  }

  lemma FirstSelectedIndex(s: seq<Item>, sel: set<Item>)
    requires Distinct(s) && Only(s, sel) != []
    ensures Only(s, sel)[0] in s && IndexOf(s, Only(s, sel)[0]) == FirstSelected(s, sel)
  {
    var r := FirstSelected(s, sel);
    IndexOfIs(s, s[r], r);
  }

  lemma PrefixSnoc(s: seq<Item>, k: nat)
    requires k < |s|
    ensures s[..k + 1] == s[..k] + [s[k]]
  {
  }

  /** Before the loop nothing has moved and the insertion point is the target itself. */
  lemma PartialStart(items: seq<Item>, picked: seq<Item>, t: nat)
    requires t <= |items|
    ensures Partial(items, picked, t, 0) == items
    ensures InsertPoint(items, picked, t, 0) == t
  {
    var none := Elems(picked[..0]);
    assert none == {};
    var front, back := items[..t], items[t..];
    WithoutNone(front, none);
    WithoutNone(back, none);
    assert Partial(items, picked, t, 0) == front + [] + back;
    SplitWhole(items, t);
  }

  lemma SplitWhole(items: seq<Item>, t: nat)
    requires t <= |items|
    ensures items[..t] + [] + items[t..] == items
  {
  }

  /** After the loop every selected item has moved: the list is Moved. */
  lemma PartialDone(items: seq<Item>, sel: set<Item>, t: nat)
    requires t <= |items|
    ensures Partial(items, Only(items, sel), t, |Only(items, sel)|) == Moved(items, sel, t)
  {
    var picked := Only(items, sel);
    assert picked[..|picked|] == picked;
    forall y | y in items ensures (y in Elems(picked) <==> y in sel) {
      Members(items, sel, y);
    }
    FilterAgree(items[..t], Elems(picked), sel);
    FilterAgree(items[t..], Elems(picked), sel);
  }

  /** One pass of the loop body keeps the loop invariant. */
  lemma LoopStep(items: seq<Item>, sel: set<Item>, t: nat, k: nat)
    requires Distinct(items) && t <= |items| && k < |Only(items, sel)|
    ensures var picked := Only(items, sel);
      StepResult(Partial(items, picked, t, k), picked[k], InsertPoint(items, picked, t, k),
        Partial(items, picked, t, k + 1), InsertPoint(items, picked, t, k + 1))
  {
    var picked := Only(items, sel);
    OnlyDistinct(items, sel);
    forall y | y in picked ensures y in items {
      Members(items, sel, y);
    }
    MoveStep(items, picked, t, k);
  }

  /**
   * One pass of the loop body: `if (item.Index < index) index--;`, then
   * Remove(item) and Insert(index++, item), which throws when the index is
   * outside [0, Count] of the shortened list.
   */
  method MoveOne(cur: seq<Item>, x: Item, index: int) returns (next: seq<Item>, nextIndex: int, ok: bool)
    requires x in cur
    ensures ok <==> StepInRange(cur, x, index)
    ensures ok ==> next == StepNext(cur, x, index) && nextIndex == StepTarget(cur, x, index) + 1
    ensures !ok ==> next == RemoveAt(cur, IndexOf(cur, x))
  {
    var pos := IndexOf(cur, x);
    nextIndex := index;
    if pos < nextIndex {
      nextIndex := nextIndex - 1;
    }
    next := RemoveAt(cur, pos);
    if nextIndex < 0 || nextIndex > |next| {
      return next, nextIndex, false;
    }
    next := InsertAt(next, nextIndex, x);
    nextIndex := nextIndex + 1;
    ok := true;
  }

  /**
   * MoveSelectedTo's loop, over a snapshot of SelectedItems in list order:
   * the list afterwards, the items added to the event in move order, and
   * whether every Insert succeeded. With a target outside [0, Count] and a
   * non-empty selection, the first Insert throws right after its Remove.
   */
  method MoveSelected(items: seq<Item>, sel: set<Item>, index: int) returns (result: seq<Item>, moved: seq<Item>, ok: bool)
    requires Distinct(items)
    ensures var t := NormalizeIndex(index, |items|);
      if Only(items, sel) == [] then ok && result == items && moved == []
      else if 0 <= t <= |items| then ok && result == Moved(items, sel, t) && moved == Only(items, sel)
      else !ok && moved == [] && result == RemoveAt(items, FirstSelected(items, sel))
  {
    var t := NormalizeIndex(index, |items|);
    var picked := Only(items, sel);
    if picked == [] {
      return items, [], true;
    }
    FirstSelectedIndex(items, sel);
    if t < 0 || t > |items| {
      // The first pass removes the first selected item and its Insert throws.
      var next, i, step := MoveOne(items, picked[0], t);
      return next, [], false;
    }
    PartialStart(items, picked, t);
    var cur := items;
    var i := t;
    moved := [];
    var k := 0;
    // Inside [0, Count] every pass is a StepResult (LoopStep), so no Insert throws.
    while k < |picked|
      invariant 0 <= k <= |picked|
      invariant moved == picked[..k]
      invariant cur == Partial(items, picked, t, k) && i == InsertPoint(items, picked, t, k)
    {
      var x := picked[k];
      LoopStep(items, sel, t, k);
      var next, step;
      next, i, step := MoveOne(cur, x, i);
      cur := next;
      PrefixSnoc(picked, k);
      moved := moved + [x];
      k := k + 1;
    }
    assert picked[..k] == picked;
    PartialDone(items, sel, t);
    return cur, moved, true;
  }

  /** A successful move keeps the items distinct, and the selected ones end as one block. */
  lemma MovedDistinct(items: seq<Item>, sel: set<Item>, t: nat)
    requires Distinct(items) && t <= |items|
    ensures Distinct(Moved(items, sel, t))
  {
    MovedIsPermutation(items, sel, t);
    PermutationDistinct(items, Moved(items, sel, t));
  }

  // ---------------------------------------------------------------------
  // OnDragDrop

  /** The item under the cursor: its Index, Position.Y and Bounds.Height. */
  datatype ItemBounds = ItemBounds(index: int, y: int, height: int)

  /** C#'s `/` by 2 on int: truncates toward zero. */
  function HalfTruncated(h: int): int
  {
    if h >= 0 then h / 2 else -((-h) / 2)
  }

  /**
   * The index OnDragDrop passes to MoveSelectedTo. `firstItemY` is
   * Items[0].Position.Y, None for an empty list (where Items[0] throws);
   * `target` is GetItemAt at the drop point.
   */
  function DropIndex(firstItemY: Option<int>, target: Option<ItemBounds>, pointY: int): Option<int>
  {
    match target
    case Some(b) => Some(if b.y + HalfTruncated(b.height) > pointY then b.index else b.index + 1)
    case None =>
      match firstItemY
      case None => None
      case Some(y0) => Some(if y0 > pointY then 0 else -1)
  }

  /**
   * Dropping on an item moves to its top or bottom edge, whichever half is
   * hit; dropping off the items moves to the front when above the first item
   * and to the end otherwise; only an empty list with no item hit fails.
   * The chosen target always lies in [0, Count].
   */
  lemma DropIndexChoice(firstItemY: Option<int>, target: Option<ItemBounds>, pointY: int, count: nat)
    requires target.Some? ==> 0 <= target.value.index < count
    requires firstItemY.Some? <==> count > 0
    ensures DropIndex(firstItemY, target, pointY).None? <==> target.None? && count == 0
    ensures target.Some? && target.value.height >= 0 ==>
      (DropIndex(firstItemY, target, pointY) == Some(target.value.index) <==>
        pointY < target.value.y + target.value.height / 2)
    ensures target.None? && count > 0 ==>
      NormalizeIndex(DropIndex(firstItemY, target, pointY).value, count) ==
        if firstItemY.value > pointY then 0 else count
    ensures DropIndex(firstItemY, target, pointY).Some? ==>
      0 <= NormalizeIndex(DropIndex(firstItemY, target, pointY).value, count) <= count
  {
  }
}
