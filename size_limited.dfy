/** SizeLimitedCollection<T>: a Collection<T> that drops its oldest items to stay within Limit. */
module SizeLimited {

  /** The last n items of s, in their original order; all of s when it has at most n. */
  function LastN<T>(s: seq<T>, n: nat): seq<T>
  {
    if |s| <= n then s else s[|s| - n..]
  }

  /** LastN keeps min(|s|, n) items, and they are a suffix of s. */
  lemma LastNShape<T>(s: seq<T>, n: nat)
    ensures |LastN(s, n)| == if |s| <= n then |s| else n
    ensures LastN(s, n) == s[|s| - |LastN(s, n)|..]
  {
  }

  /** Below the limit, adding an item simply appends it. */
  lemma LastNBelowLimit<T>(s: seq<T>, x: T, n: nat)
    requires |s| < n
    ensures LastN(s + [x], n) == s + [x]
  {
  }

  /** Trimming early loses nothing that a later trim would keep. */
  lemma LastNConcat<T>(s: seq<T>, t: seq<T>, n: nat)
    ensures LastN(LastN(s, n) + t, n) == LastN(s + t, n)
  {
    var u := LastN(s, n);
    if |u + t| > n {
      assert (u + t)[|u + t| - n..] == (s + t)[|s + t| - n..];
    }
  }

  /** Adding the items xs one by one, each followed by Fit. */
  function AddAll<T>(s: seq<T>, xs: seq<T>, n: nat): seq<T>
    decreases |xs|
  {
    if xs == [] then s else AddAll(LastN(s + [xs[0]], n), xs[1..], n)
  }

  /** After any run of Adds, the collection holds the last Limit items of everything it ever held. */
  lemma {:induction false} AddAllKeepsLast<T>(s: seq<T>, xs: seq<T>, n: nat)
    requires |s| <= n
    ensures AddAll(s, xs, n) == LastN(s + xs, n)
    ensures |AddAll(s, xs, n)| <= n
    decreases |xs|
  {
    if xs != [] {
      var s' := LastN(s + [xs[0]], n);
      AddAllKeepsLast(s', xs[1..], n);
      LastNConcat(s + [xs[0]], xs[1..], n);
      assert s + [xs[0]] + xs[1..] == s + xs;
    }
  }

  class SizeLimitedCollection<T> {
    /** The items of the underlying Collection<T>, oldest first. */
    var items: seq<T>
    /** The public Limit property. */
    var limit: int

    /** SizeLimitedCollection(limit): empty, then fitted. */
    constructor(limit: int)
      requires limit >= 0
      ensures this.limit == limit && items == []
    {
      this.limit := limit;
      items := [];
      new;
      var _ := Fit();
    }

    /** SizeLimitedCollection(limit, list): the list's items, then fitted to the last `limit` of them. */
    constructor FromList(limit: int, list: seq<T>)
      requires limit >= 0
      ensures this.limit == limit && items == LastN(list, limit)
    {
      this.limit := limit;
      items := list;
      new;
      var _ := Fit();
    }

    /**
     * Fit(): RemoveAt(0) while Count > Limit. With a negative Limit the
     * collection empties and the next RemoveAt(0) throws; `ok` is false then.
     */
    method Fit() returns (ok: bool)
      modifies this
      ensures limit == old(limit)
      ensures limit >= 0 ==> ok && items == LastN(old(items), limit)
      ensures limit < 0 ==> !ok && items == []
    {
      ghost var orig := items;
      while |items| > limit
        invariant limit == old(limit)
        invariant |items| <= |orig| && items == orig[|orig| - |items|..]
        invariant limit >= 0 && |orig| > limit ==> |items| >= limit
        invariant |orig| <= limit ==> items == orig
        decreases |items|
      {
        if items == [] {
          return false;
        }
        items := items[1..];
      }
      return true;
    }

    /** The hiding `new void Add(T item)`: append, then Fit. */
    method Add(x: T) returns (ok: bool)
      modifies this
      ensures limit == old(limit)
      ensures limit >= 0 ==> ok && items == LastN(old(items) + [x], limit)
      ensures limit < 0 ==> !ok && items == []
    {
      items := items + [x];
      ok := Fit();
    }

    /** Collection<T>.Add, reached through a Collection<T> reference: append without Fit. */
    method BaseAdd(x: T)
      modifies this
      ensures limit == old(limit) && items == old(items) + [x]
    {
      items := items + [x];
    }

    /** The Limit setter: no refit, so Count may exceed Limit until the next Add. */
    method SetLimit(l: int)
      modifies this
      ensures limit == l && items == old(items)
    {
      limit := l;
    }
  }
}
