/**
  Value-level vocabulary of the list: the C `NULL` as `None`, the errno
  codes the list API returns, and the sequence functions that say what
  removal and membership mean on the abstract contents of a list.
 */
module ListSpec {

  /** A possibly-`NULL` element pointer or a possibly-`NULL` returned element. */
  datatype Option<T> = None | Some(value: T)

  /** errno values as defined on Linux. */
  const ENOENT: int := 2
  const EINVAL: int := 22

  /** Position of the first occurrence of `x` in `s`. */
  function IndexOf<T(==)>(s: seq<T>, x: T): (i: nat)
    requires x in s
    ensures i < |s| && s[i] == x
    ensures forall j :: 0 <= j < i ==> s[j] != x
  {
    if s[0] == x then 0 else 1 + IndexOf(s[1..], x)
  }

  /** `s` without its first occurrence of `x`; `s` itself when `x` does not occur. */
  function RemoveFirst<T(==)>(s: seq<T>, x: T): (r: seq<T>)
    ensures x in s ==> |r| == |s| - 1
    ensures x !in s ==> r == s
  {
    if s == [] then []
    else if s[0] == x then s[1..]
    else [s[0]] + RemoveFirst(s[1..], x)
  }

  /** Removing the first occurrence splices exactly that position out, keeping the order of the rest. */
  lemma {:induction false} RemoveFirstSplices<T>(s: seq<T>, x: T)
    requires x in s
    ensures RemoveFirst(s, x) == s[..IndexOf(s, x)] + s[IndexOf(s, x) + 1..]
  {
    if s[0] != x {
      RemoveFirstSplices(s[1..], x);
      assert s[1..][..IndexOf(s[1..], x)] == s[1..IndexOf(s, x)];
      assert s[1..][IndexOf(s[1..], x) + 1..] == s[IndexOf(s, x) + 1..];
    }
  }

  /** Removal takes out one copy of `x` and nothing else. */
  lemma {:induction false} RemoveFirstMultiset<T>(s: seq<T>, x: T)
    ensures multiset(RemoveFirst(s, x)) == multiset(s) - multiset{x}
  {
    if s != [] {
      assert s == [s[0]] + s[1..];
      if s[0] != x {
        RemoveFirstMultiset(s[1..], x);
      }
    }
  }

  /** An element appended to a list that did not hold it is removed by the next removal, and then it is gone. */
  lemma {:induction false} RemoveAppendedOnce<T>(s: seq<T>, e: T)
    requires e !in s
    ensures RemoveFirst(s + [e], e) == s
    ensures e !in RemoveFirst(s + [e], e)
  {
    if s != [] {
      assert (s + [e])[1..] == s[1..] + [e];
      RemoveAppendedOnce(s[1..], e);
    }
  }

  /** Some element `y` of `s` compares equal to `x` under `cmp`: `cmp(x, y) == 0`. */
  ghost predicate Matches<T>(cmp: (T, T) -> int, s: seq<T>, x: T) {
    exists i :: 0 <= i < |s| && cmp(x, s[i]) == 0
  }

  /** With a comparator that finds an element equal to itself, an inserted element is found at either end. */
  lemma InsertedIsMatched<T>(cmp: (T, T) -> int, s: seq<T>, e: T)
    requires cmp(e, e) == 0
    ensures Matches(cmp, s + [e], e)
    ensures Matches(cmp, [e] + s, e)
  {
    assert (s + [e])[|s|] == e;
    assert ([e] + s)[0] == e;
  }

  /**
    When the comparator agrees with identity on `e` and `e` occurs once,
    removing `e` leaves nothing that compares equal to it.
   */
  lemma NoMatchAfterRemove<T>(cmp: (T, T) -> int, s: seq<T>, e: T)
    requires forall y :: cmp(e, y) == 0 <==> y == e
    requires multiset(s)[e] == 1
    ensures !Matches(cmp, RemoveFirst(s, e), e)
  {
    RemoveFirstMultiset(s, e);
    var r := RemoveFirst(s, e);
    assert multiset(r)[e] == 0;
    forall i | 0 <= i < |r|
      ensures cmp(e, r[i]) != 0
    {
      assert r[i] in multiset(r);
    }
  }
}
