/**
  The list iterator: a cursor pair (`next`, `previous`) of node pointers
  into a list's chain, stepped in place. The iterator does not own the
  list; its `Valid()` ties the cursor pair to the list's current chain,
  so a list changed while the iterator is in use must be reset before
  the iterator is stepped again.

  The abstract position is a `Cursor` of two indices into the chain, with
  `len` standing for a `null` `next` and `-1` for a `null` `previous`.
 */
module ListIterator {
  import opened ListSpec
  import opened LinkedList

  datatype Cursor = Cursor(next: int, previous: int)

  /** Both cursor indices denote a node of a chain of `len` nodes, or `null`. */
  predicate InRange(c: Cursor, len: nat) {
    0 <= c.next <= len && -1 <= c.previous < len
  }

  /** Where a created or reset iterator stands: `next` at the head, `previous` at the tail. */
  function Start(len: nat): (c: Cursor)
    ensures InRange(c, len)
  {
    Cursor(0, len - 1)
  }

  /** The position after a `next` step: past the end nothing moves. */
  function Advance(c: Cursor, len: nat): (c': Cursor)
    requires InRange(c, len)
    ensures InRange(c', len)
  {
    if c.next < len then Cursor(c.next + 1, c.next) else c
  }

  /** The position after a `previous` step: before the start nothing moves. */
  function Retreat(c: Cursor, len: nat): (c': Cursor)
    requires InRange(c, len)
    ensures InRange(c', len)
  {
    if 0 <= c.previous then Cursor(c.previous, c.previous - 1) else c
  }

  /** The element a `next` step returns from `c`, `None` at the end. */
  function NextElement<T>(s: seq<T>, c: Cursor): Option<T>
    requires InRange(c, |s|)
  {
    if c.next < |s| then Some(s[c.next]) else None
  }

  /** The element a `previous` step returns from `c`, `None` at the start. */
  function PreviousElement<T>(s: seq<T>, c: Cursor): Option<T>
    requires InRange(c, |s|)
  {
    if 0 <= c.previous then Some(s[c.previous]) else None
  }

  /** The elements repeated `next` steps return from `c` until the end. */
  function Forward<T>(s: seq<T>, c: Cursor): seq<T>
    requires InRange(c, |s|)
    decreases |s| - c.next
  {
    if c.next < |s| then [s[c.next]] + Forward(s, Advance(c, |s|)) else []
  }

  /** The elements repeated `previous` steps return from `c` until the start. */
  function Backward<T>(s: seq<T>, c: Cursor): seq<T>
    requires InRange(c, |s|)
    decreases c.previous + 1
  {
    if 0 <= c.previous then [s[c.previous]] + Backward(s, Retreat(c, |s|)) else []
  }

  /** `k` successive `next` steps. */
  function AdvanceTimes(c: Cursor, len: nat, k: nat): (c': Cursor)
    requires InRange(c, len)
    ensures InRange(c', len)
    decreases k
  {
    if k == 0 then c else AdvanceTimes(Advance(c, len), len, k - 1)
  }

  function Reversed<T>(s: seq<T>): seq<T> {
    if s == [] then [] else Reversed(s[1..]) + [s[0]]
  }

  /** A `previous` step right after a successful `next` step returns the same element and restores `next`. */
  lemma NextThenPrevious<T>(s: seq<T>, c: Cursor)
    requires InRange(c, |s|) && c.next < |s|
    ensures PreviousElement(s, Advance(c, |s|)) == NextElement(s, c)
    ensures Retreat(Advance(c, |s|), |s|) == Cursor(c.next, c.next - 1)
  {
  }

  /** A `next` step right after a successful `previous` step returns the same element and restores `previous`. */
  lemma PreviousThenNext<T>(s: seq<T>, c: Cursor)
    requires InRange(c, |s|) && 0 <= c.previous
    ensures NextElement(s, Retreat(c, |s|)) == PreviousElement(s, c)
    ensures Advance(Retreat(c, |s|), |s|) == Cursor(c.previous + 1, c.previous)
  {
  }

  /** Stepping forward from `c` yields the elements from position `c.next` to the tail, in order. */
  lemma {:induction false} ForwardIsSuffix<T>(s: seq<T>, c: Cursor)
    requires InRange(c, |s|)
    ensures Forward(s, c) == s[c.next..]
    decreases |s| - c.next
  {
    if c.next < |s| {
      ForwardIsSuffix(s, Advance(c, |s|));
    }
  }

  /** Stepping backward from `c` yields the elements from position `c.previous` down to the head. */
  lemma {:induction false} BackwardIsReversedPrefix<T>(s: seq<T>, c: Cursor)
    requires InRange(c, |s|)
    ensures Backward(s, c) == Reversed(s[..c.previous + 1])
    decreases c.previous + 1
  {
    if 0 <= c.previous {
      BackwardIsReversedPrefix(s, Retreat(c, |s|));
      var p := s[..c.previous + 1];
      assert p[1..] == s[1..c.previous + 1];
      ReversedSnoc(s[..c.previous], s[c.previous]);
      assert s[..c.previous] + [s[c.previous]] == p;
    }
  }

  /** Reversing `s + [x]` puts `x` first. */
  lemma {:induction false} ReversedSnoc<T>(s: seq<T>, x: T)
    ensures Reversed(s + [x]) == [x] + Reversed(s)
  {
    if s != [] {
      assert (s + [x])[1..] == s[1..] + [x];
      ReversedSnoc(s[1..], x);
    }
  }

  /** `k` successful `next` steps leave `next` `k` places on and `previous` just behind it. */
  lemma {:induction false} AdvanceTimesMoves(c: Cursor, len: nat, k: nat)
    requires InRange(c, len) && 0 < k && c.next + k <= len
    ensures AdvanceTimes(c, len, k) == Cursor(c.next + k, c.next + k - 1)
    decreases k
  {
    if k > 1 {
      AdvanceTimesMoves(Advance(c, len), len, k - 1);
    }
  }

  /**
    From a fresh iterator, `next` steps yield the list head to tail, and
    `previous` steps yield it tail to head (the fresh `previous` is the tail).
   */
  lemma StartTraversals<T>(s: seq<T>)
    ensures Forward(s, Start(|s|)) == s
    ensures Backward(s, Start(|s|)) == Reversed(s)
  {
    var c := Start(|s|);
    ForwardIsSuffix(s, c);
    assert s[c.next..] == s;
    BackwardIsReversedPrefix(s, c);
    assert s[..c.previous + 1] == s;
  }

  /**
    After `|s|` `next` steps from a fresh iterator it is at the end, and
    `previous` steps from there replay the list tail to head.
   */
  lemma ReplayAfterExhaustion<T>(s: seq<T>)
    ensures NextElement(s, AdvanceTimes(Start(|s|), |s|, |s|)) == None
    ensures Backward(s, AdvanceTimes(Start(|s|), |s|, |s|)) == Reversed(s)
  {
    var e := AdvanceTimes(Start(|s|), |s|, |s|);
    if |s| > 0 {
      AdvanceTimesMoves(Start(|s|), |s|, |s|);
    }
    assert e == Cursor(|s|, |s| - 1);
    BackwardIsReversedPrefix(s, e);
    assert s[..e.previous + 1] == s;
  }

  class Iterator<T> {
    var next: Node?<T>
    var previous: Node?<T>
    const list: List<T>
    ghost var Position: Cursor

    /** The cursor pair are the chain nodes at `Position`, or `null` past either end. */
    ghost predicate Valid()
      reads this, list, list.Repr
    {
      list.Valid() && InRange(Position, |list.Nodes|) &&
      next == (if Position.next < |list.Nodes| then list.Nodes[Position.next] else null) &&
      previous == (if 0 <= Position.previous then list.Nodes[Position.previous] else null)
    }

    /** An iterator over `list`, positioned by a reset. */
    constructor (list: List<T>)
      requires list.Valid()
      ensures Valid() && this.list == list && Position == Start(|list.Contents|)
    {
      this.list := list;
      new;
      var code := Reset(this);
    }
  }

  /** An iterator over `list` at its start; `null` for a `NULL` list. */
  method Create<T>(list: List?<T>) returns (it: Iterator?<T>)
    requires list != null ==> list.Valid()
    ensures (it == null) == (list == null)
    ensures it != null ==>
      fresh(it) && it.list == list && it.Valid() && it.Position == Start(|list.Contents|)
  {
    if list == null {
      return null;
    }
    it := new Iterator(list);
  }

  /** 1 while a `next` step would return an element, 0 at the end. */
  method HasNext<T>(it: Iterator<T>) returns (r: int)
    requires it.Valid()
    ensures r == if NextElement(it.list.Contents, it.Position).Some? then 1 else 0
  {
    r := if it.next == null then 0 else 1;
  }

  /** 1 while a `previous` step would return an element, 0 at the start. */
  method HasPrevious<T>(it: Iterator<T>) returns (r: int)
    requires it.Valid()
    ensures r == if PreviousElement(it.list.Contents, it.Position).Some? then 1 else 0
  {
    r := if it.previous == null then 0 else 1;
  }

  /** Returns the element at `next` and steps forward; `None`, unmoved, at the end or for a `NULL` iterator. */
  method Next<T>(it: Iterator?<T>) returns (r: Option<T>)
    requires it != null ==> it.Valid()
    modifies it
    ensures r == if it == null then None else NextElement(it.list.Contents, old(it.Position))
    ensures it != null ==> it.Valid() && it.Position == Advance(old(it.Position), |it.list.Contents|)
  {
    if it == null || it.next == null {
      return None;
    }
    r := Some(it.next.element);
    it.previous := it.next;
    it.next := it.next.next;
    it.Position := Advance(it.Position, |it.list.Contents|);
  }

  /** Returns the element at `previous` and steps backward; `None`, unmoved, at the start or for a `NULL` iterator. */
  method Previous<T>(it: Iterator?<T>) returns (r: Option<T>)
    requires it != null ==> it.Valid()
    modifies it
    ensures r == if it == null then None else PreviousElement(it.list.Contents, old(it.Position))
    ensures it != null ==> it.Valid() && it.Position == Retreat(old(it.Position), |it.list.Contents|)
  {
    if it == null || it.previous == null {
      return None;
    }
    r := Some(it.previous.element);
    it.next := it.previous;
    it.previous := it.previous.previous;
    it.Position := Retreat(it.Position, |it.list.Contents|);
  }

  /** Puts `next` back at the head and `previous` at the tail; `EINVAL` for a `NULL` iterator. */
  method Reset<T>(it: Iterator?<T>) returns (code: int)
    requires it != null ==> it.list.Valid()
    modifies it
    ensures code == if it == null then EINVAL else 0
    ensures it != null ==> it.Valid() && it.Position == Start(|it.list.Contents|)
  {
    if it == null {
      return EINVAL;
    }
    it.next := it.list.head;
    it.previous := it.list.tail;
    it.Position := Start(|it.list.Contents|);
    return 0;
  }
}
