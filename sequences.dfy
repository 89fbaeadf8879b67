/**
 * Sequence functions behind the form's lists: counting entries, finding the
 * first one, and List.remove(Object), which drops the first equal entry.
 */
module Sequences {

  /** How many times x is in s. */
  function Occurrences<T(==)>(s: seq<T>, x: T): (n: nat)
    ensures n == 0 <==> x !in s
    ensures n <= |s|
    decreases |s|
  {
    if s == [] then 0 else (if s[0] == x then 1 else 0) + Occurrences(s[1..], x)
  }

  /** The position of the first x in s. */
  function FirstIndex<T(==)>(s: seq<T>, x: T): (k: nat)
    requires x in s
    ensures k < |s| && s[k] == x && forall i | 0 <= i < k :: s[i] != x
    decreases |s|
  {
    if s[0] == x then 0 else 1 + FirstIndex(s[1..], x)
  }

  /** List.remove(Object): s without its first x; s itself when x is not in it. */
  function RemoveFirst<T(==)>(s: seq<T>, x: T): (r: seq<T>)
    ensures x !in s ==> r == s
    ensures x in s ==> |r| == |s| - 1
    decreases |s|
  {
    if s == [] then []
    else if s[0] == x then s[1..]
    else
      assert x in s ==> x in s[1..];
      [s[0]] + RemoveFirst(s[1..], x)
  }

  lemma {:induction false} OccurrencesAppend<T>(s: seq<T>, x: T, y: T)
    ensures Occurrences(s + [x], y) == Occurrences(s, y) + if x == y then 1 else 0
    decreases |s|
  {
    if s != [] {
      assert (s + [x])[1..] == s[1..] + [x];
      OccurrencesAppend(s[1..], x, y);
    } else {
      assert [x][1..] == [];
    }
  }

  /** Removal cuts out exactly the first entry equal to x and keeps the order of the rest. */
  lemma {:induction false} RemoveFirstCutsFirst<T>(s: seq<T>, x: T)
    ensures x !in s ==> RemoveFirst(s, x) == s
    ensures x in s ==> RemoveFirst(s, x) == s[..FirstIndex(s, x)] + s[FirstIndex(s, x) + 1..]
    decreases |s|
  {
    if s != [] && s[0] != x {
      RemoveFirstCutsFirst(s[1..], x);
      if x in s {
        assert x in s[1..];
        var k := FirstIndex(s[1..], x);
        assert FirstIndex(s, x) == k + 1;
        assert s[..k + 1] == [s[0]] + s[1..][..k];
        assert s[k + 2..] == s[1..][k + 1..];
      } else {
        assert s == [s[0]] + s[1..];
      }
    }
  }

  /** Removal takes away one occurrence of x, when there is one, and no occurrence of anything else. */
  lemma {:induction false} RemoveFirstOccurrences<T>(s: seq<T>, x: T, y: T)
    ensures Occurrences(RemoveFirst(s, x), y) == Occurrences(s, y) - if x == y && x in s then 1 else 0
    decreases |s|
  {
    if s != [] && s[0] != x {
      RemoveFirstOccurrences(s[1..], x, y);
      assert ([s[0]] + RemoveFirst(s[1..], x))[1..] == RemoveFirst(s[1..], x);
    }
  }

  /** Removing a listener just added, that was not registered before, restores the list. */
  lemma {:induction false} RemoveAfterAdd<T>(s: seq<T>, x: T)
    requires x !in s
    ensures RemoveFirst(s + [x], x) == s
    decreases |s|
  {
    if s == [] {
      assert [x][1..] == [];
    } else {
      assert (s + [x])[1..] == s[1..] + [x];
      RemoveAfterAdd(s[1..], x);
      assert s == [s[0]] + s[1..];
    }
  }
}
