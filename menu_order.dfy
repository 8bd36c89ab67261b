/**
  The list operations the menu handler performs on its copy of the menu:
  removing the first occurrence of an element (what a list's remove of an
  object does) and moving an element to the end by removing it and adding it
  again.
 */
module MenuOrder {

  /** The position of the first occurrence of `x`. */
  function IndexOf<T(==)>(s: seq<T>, x: T): (i: nat)
    requires x in s
    ensures i < |s| && s[i] == x
    ensures forall j :: 0 <= j < i ==> s[j] != x
  {
    if s[0] == x then 0 else 1 + IndexOf(s[1..], x)
  }

  /** `s` without its first occurrence of `x`; `s` itself when `x` does not occur. */
  function RemoveFirst<T(==)>(s: seq<T>, x: T): seq<T>
  {
    if x in s then s[..IndexOf(s, x)] + s[IndexOf(s, x) + 1..] else s
  }

  /** The list after removing `x` once and adding it at the end. */
  function MoveToEnd<T(==)>(s: seq<T>, x: T): seq<T>
  {
    RemoveFirst(s, x) + [x]
  }

  /**
    Moving an element of the list to the end permutes the list: the result has
    the same elements with the same multiplicities, ends with `x`, and before
    it lists the other entries in their original order, the first `x` left out.
   */
  lemma MoveToEndSpec<T>(s: seq<T>, x: T)
    requires x in s
    ensures multiset(MoveToEnd(s, x)) == multiset(s)
    ensures |MoveToEnd(s, x)| == |s|
    ensures MoveToEnd(s, x)[|s| - 1] == x
    ensures MoveToEnd(s, x)[..|s| - 1] == s[..IndexOf(s, x)] + s[IndexOf(s, x) + 1..]
  {
    var i, r := IndexOf(s, x), RemoveFirst(s, x);
    assert MoveToEnd(s, x)[..|s| - 1] == r;
    assert s == s[..i] + [x] + s[i + 1..];
    assert multiset(r + [x]) == multiset(s[..i]) + multiset(s[i + 1..]) + multiset{x};
  }

  /** An element that occurs once and already last stays where it is. */
  lemma MoveToEndOfLast<T>(s: seq<T>, x: T)
    requires |s| > 0 && s[|s| - 1] == x
    requires forall j :: 0 <= j < |s| - 1 ==> s[j] != x
    ensures MoveToEnd(s, x) == s
  {
    var i := IndexOf(s, x);
    assert i == |s| - 1;
    assert s[i + 1..] == [];
    assert s[..|s| - 1] + [x] == s;
  }
}
