/** The three helpers js/tabsaver.js adds to `Array.prototype`: `exists`,
    `upush` and `filter`. A JavaScript array grows in place, so it is modelled
    as an object whose `elems` field the methods reassign. */
module ArrayExt {

  /** No element occurs twice in `s`. */
  predicate NoDuplicates<T(==)>(s: seq<T>) {
    forall i, j :: 0 <= i < j < |s| ==> s[i] != s[j]
  }

  /** The elements of `s` that satisfy `p`, in their original order: the
      value `filter` returns. */
  function Filtered<T>(s: seq<T>, p: T -> bool): (r: seq<T>)
    ensures |r| <= |s|
    ensures forall i :: 0 <= i < |r| ==> p(r[i]) && r[i] in s
    ensures forall i :: 0 <= i < |s| && p(s[i]) ==> s[i] in r
  {
    if s == [] then []
    else if p(s[0]) then [s[0]] + Filtered(s[1..], p)
    else Filtered(s[1..], p)
  }

  /** Filtering distributes over concatenation: it keeps the relative order
      of what it keeps. */
  lemma {:induction false} FilteredAppend<T>(a: seq<T>, b: seq<T>, p: T -> bool)
    ensures Filtered(a + b, p) == Filtered(a, p) + Filtered(b, p)
  {
    if a == [] {
      assert a + b == b;
    } else {
      assert (a + b)[0] == a[0];
      assert (a + b)[1..] == a[1..] + b;
      FilteredAppend(a[1..], b, p);
    }
  }

  /** A kept element `s[i]` sits in the result at the position given by the
      number of kept elements before it; so kept elements keep their order. */
  lemma FilteredPosition<T>(s: seq<T>, p: T -> bool, i: nat)
    requires i < |s| && p(s[i])
    ensures |Filtered(s[..i], p)| < |Filtered(s, p)|
    ensures Filtered(s, p)[|Filtered(s[..i], p)|] == s[i]
  {
    assert s == s[..i] + [s[i]] + s[i + 1..];
    FilteredAppend(s[..i] + [s[i]], s[i + 1..], p);
    FilteredAppend(s[..i], [s[i]], p);
  }

  /** Kept elements appear in the result in the order they had in `s`. */
  lemma FilteredKeepsOrder<T>(s: seq<T>, p: T -> bool, i: nat, j: nat)
    requires i < j < |s| && p(s[i]) && p(s[j])
    ensures |Filtered(s[..i], p)| < |Filtered(s[..j], p)| < |Filtered(s, p)|
    ensures Filtered(s, p)[|Filtered(s[..i], p)|] == s[i]
    ensures Filtered(s, p)[|Filtered(s[..j], p)|] == s[j]
  {
    FilteredPosition(s, p, i);
    FilteredPosition(s, p, j);
    FilteredPosition(s[..j], p, i);
    assert s[..j][..i] == s[..i];
  }

  /** When every element satisfies `p`, filtering changes nothing. */
  lemma {:induction false} FilteredAll<T>(s: seq<T>, p: T -> bool)
    requires forall i :: 0 <= i < |s| ==> p(s[i])
    ensures Filtered(s, p) == s
  {
    if s != [] {
      FilteredAll(s[1..], p);
    }
  }

  /** Filtering a duplicate-free sequence gives a duplicate-free sequence. */
  lemma {:induction false} FilteredNoDuplicates<T>(s: seq<T>, p: T -> bool)
    requires NoDuplicates(s)
    ensures NoDuplicates(Filtered(s, p))
  {
    if s != [] {
      assert NoDuplicates(s[1..]);
      FilteredNoDuplicates(s[1..], p);
      assert s[0] !in s[1..];
    }
  }

  /** A JavaScript array as the helpers see it through `this`. */
  class JsArray<T> {
    var elems: seq<T>

    constructor (init: seq<T>)
      ensures elems == init
    {
      elems := init;
    }

    /** `exists` (js/tabsaver.js:10-15): true exactly when some element
        satisfies `p`. */
    method Exists(p: T -> bool) returns (found: bool)
      ensures found <==> exists i :: 0 <= i < |elems| && p(elems[i])
    {
      var i := 0;
      while i < |elems|
        invariant 0 <= i <= |elems|
        invariant forall j :: 0 <= j < i ==> !p(elems[j])
      {
        if p(elems[i]) {
          return true;
        }
        i := i + 1;
      }
      return false;
    }

    /** `upush` (js/tabsaver.js:19-23): appends `e` when no element satisfies
        `p`, and otherwise leaves the array as it was. */
    method Upush(e: T, p: T -> bool)
      modifies this
      ensures old(elems) <= elems
      ensures (exists i :: 0 <= i < |old(elems)| && p(old(elems)[i])) ==> elems == old(elems)
      ensures (forall i :: 0 <= i < |old(elems)| ==> !p(old(elems)[i])) ==> elems == old(elems) + [e]
    {
      var found := Exists(p);
      if !found {
        elems := elems + [e];
      }
    }

    /** `filter` (js/tabsaver.js:26-33): a new array holding exactly the
        elements that satisfy `p`, in order; the receiver is not changed. */
    method Filter(p: T -> bool) returns (result: seq<T>)
      ensures result == Filtered(elems, p)
    {
      result := [];
      var i := 0;
      while i < |elems|
        invariant 0 <= i <= |elems|
        invariant result == Filtered(elems[..i], p)
      {
        assert elems[..i + 1] == elems[..i] + [elems[i]];
        FilteredAppend(elems[..i], [elems[i]], p);
        if p(elems[i]) {
          result := result + [elems[i]];
        }
        i := i + 1;
      }
      assert elems[..i] == elems;
    }
  }
}
