/**
  The doubly-linked list of `linkedlist.c`: nodes that are rewired in place,
  and a list record holding `head`, `tail`, the element count and the
  comparator. The C functions that take a `list_t *` are module-level
  methods taking a `List?<T>`, so that their `NULL` paths can be stated;
  a `NULL` element pointer is `None`.

  Each list carries a ghost view: `Nodes`, its chain of nodes from head to
  tail, and `Contents`, the elements those nodes hold. `Valid()` is the
  shape invariant that ties the real links to that view.
 */
module LinkedList {
  import opened ListSpec

  /** A chain link: two neighbour pointers and the element it was created with. */
  class Node<T> {
    var next: Node?<T>
    var previous: Node?<T>
    const element: T

    /** A node that is linked to nothing. */
    constructor (element: T)
      ensures this.element == element
      ensures next == null && previous == null
    {
      this.element := element;
      next, previous := null, null;
    }
  }

  class List<T> {
    var head: Node?<T>
    var tail: Node?<T>
    var numberOfElements: int
    const compare: (T, T) -> int

    ghost var Nodes: seq<Node<T>>
    ghost var Contents: seq<T>
    ghost var Repr: set<Node<T>>

    /**
      The shape invariant: `head` and `tail` are the ends of `Nodes` (both
      `null` exactly when the list is empty), the count is the number of
      nodes, the nodes are distinct and owned (in `Repr`), each `next` is
      the following node and each `previous` the preceding one, with `null`
      past either end.
     */
    ghost predicate Valid()
      reads this, Repr
    {
      (forall i :: 0 <= i < |Nodes| ==> Nodes[i] in Repr) &&
      |Nodes| == |Contents| == numberOfElements &&
      (Nodes == [] ==> head == null && tail == null) &&
      (Nodes != [] ==> head == Nodes[0] && tail == Nodes[|Nodes| - 1]) &&
      (forall i, j :: 0 <= i < j < |Nodes| ==> Nodes[i] != Nodes[j]) &&
      (forall i :: 0 <= i < |Nodes| ==> Nodes[i].element == Contents[i]) &&
      (forall i {:trigger Nodes[i].next} :: 0 <= i < |Nodes| ==>
        Nodes[i].next == if i + 1 < |Nodes| then Nodes[i + 1] else null) &&
      (forall i {:trigger Nodes[i].previous} :: 0 <= i < |Nodes| ==>
        Nodes[i].previous == if 0 < i then Nodes[i - 1] else null)
    }

    /** An empty list that compares elements with `compare`. */
    constructor (compare: (T, T) -> int)
      ensures Valid()
      ensures Contents == [] && Nodes == [] && Repr == {}
      ensures this.compare == compare
    {
      head, tail := null, null;
      numberOfElements := 0;
      this.compare := compare;
      Nodes, Contents, Repr := [], [], {};
    }
  }

  /** Follows `next` links `k` times from `n`, stopping at `null`. */
  ghost function FollowNext<T>(n: Node?<T>, k: nat): Node?<T>
    reads *
  {
    if k == 0 || n == null then n else FollowNext(n.next, k - 1)
  }

  /** Follows `previous` links `k` times from `n`, stopping at `null`. */
  ghost function FollowPrevious<T>(n: Node?<T>, k: nat): Node?<T>
    reads *
  {
    if k == 0 || n == null then n else FollowPrevious(n.previous, k - 1)
  }

  /** Stepping forward `k` times from node `i` of a valid list reaches node `i + k`, or `null` past the tail. */
  lemma {:induction false} FollowNextAt<T>(list: List<T>, i: nat, k: nat)
    requires list.Valid() && i < |list.Nodes|
    ensures FollowNext(list.Nodes[i], k) == if i + k < |list.Nodes| then list.Nodes[i + k] else null
    decreases k
  {
    if k > 0 {
      assert list.Nodes[i].next == if i + 1 < |list.Nodes| then list.Nodes[i + 1] else null;
      if i + 1 < |list.Nodes| {
        FollowNextAt(list, i + 1, k - 1);
      }
    }
  }

  /** Stepping backward `k` times from node `i` of a valid list reaches node `i - k`, or `null` past the head. */
  lemma {:induction false} FollowPreviousAt<T>(list: List<T>, i: nat, k: nat)
    requires list.Valid() && i < |list.Nodes|
    ensures FollowPrevious(list.Nodes[i], k) == if k <= i then list.Nodes[i - k] else null
    decreases k
  {
    if k > 0 {
      assert list.Nodes[i].previous == if 0 < i then list.Nodes[i - 1] else null;
      if 0 < i {
        FollowPreviousAt(list, i - 1, k - 1);
      }
    }
  }

  /**
    The chain is consistent in both directions: `head` is `null` exactly
    when `tail` is and the count is zero; following `next` from `head`
    reaches `tail` after `count - 1` steps and `null` after `count`; and
    following `previous` from `tail` mirrors it.
   */
  lemma ChainIsConsistent<T>(list: List<T>)
    requires list.Valid()
    ensures (list.head == null) == (list.tail == null) == (list.numberOfElements == 0)
    ensures list.numberOfElements > 0 ==>
      FollowNext(list.head, list.numberOfElements - 1) == list.tail &&
      FollowPrevious(list.tail, list.numberOfElements - 1) == list.head
    ensures FollowNext(list.head, list.numberOfElements) == null
    ensures FollowPrevious(list.tail, list.numberOfElements) == null
  {
    var n := list.numberOfElements;
    if n > 0 {
      FollowNextAt(list, 0, n - 1);
      FollowNextAt(list, 0, n);
      FollowPreviousAt(list, n - 1, n - 1);
      FollowPreviousAt(list, n - 1, n);
    }
  }

  /** Releases a node that is no longer linked in and counts it out. */
  method DeleteNode<T>(list: List<T>, node: Node<T>)
    modifies list`numberOfElements
    ensures list.numberOfElements == old(list.numberOfElements) - 1
  {
    list.numberOfElements := list.numberOfElements - 1;
  }

  /** Pops every element; a `NULL` list is ignored. */
  method Destroy<T>(list: List?<T>)
    requires list != null ==> list.Valid()
    modifies list, if list == null then {} else list.Repr
    ensures list != null ==> list.Valid() && list.Contents == [] && list.Nodes == []
  {
    var e := Pop(list);
    while e.Some?
      invariant list != null ==> list.Valid() && list.Repr <= old(list.Repr)
      invariant e.None? ==> list == null || list.Contents == []
      decreases (if list == null then 0 else |list.Contents|) + (if e.Some? then 1 else 0)
    {
      e := Pop(list);
    }
  }

  /** Adds `element` after the tail; `EINVAL` for a `NULL` list or element. Duplicates are allowed. */
  method Append<T>(list: List?<T>, element: Option<T>) returns (code: int)
    requires list != null ==> list.Valid()
    modifies list, if list == null then {} else list.Repr
    ensures code == if list == null || element.None? then EINVAL else 0
    ensures list != null ==> list.Valid() && fresh(list.Repr - old(list.Repr))
    ensures list != null && element.None? ==>
      list.Contents == old(list.Contents) && list.Nodes == old(list.Nodes)
    ensures list != null && element.Some? ==>
      list.Contents == old(list.Contents) + [element.value] &&
      list.numberOfElements == old(list.numberOfElements) + 1 &&
      list.Nodes[..|old(list.Nodes)|] == old(list.Nodes)
  {
    if list == null || element.None? {
      return EINVAL;
    }
    var newNode := new Node(element.value);
    if list.head == null {
      list.head, list.tail := newNode, newNode;
    } else {
      list.tail.next := newNode;
      newNode.previous := list.tail;
      list.tail := newNode;
    }
    list.numberOfElements := list.numberOfElements + 1;
    list.Nodes := list.Nodes + [newNode];
    list.Contents := list.Contents + [element.value];
    list.Repr := list.Repr + {newNode};
    return 0;
  }

  /** Adds `element` before the head; `EINVAL` for a `NULL` list or element. Duplicates are allowed. */
  method Prepend<T>(list: List?<T>, element: Option<T>) returns (code: int)
    requires list != null ==> list.Valid()
    modifies list, if list == null then {} else list.Repr
    ensures code == if list == null || element.None? then EINVAL else 0
    ensures list != null ==> list.Valid() && fresh(list.Repr - old(list.Repr))
    ensures list != null && element.None? ==>
      list.Contents == old(list.Contents) && list.Nodes == old(list.Nodes)
    ensures list != null && element.Some? ==>
      list.Contents == [element.value] + old(list.Contents) &&
      list.numberOfElements == old(list.numberOfElements) + 1 &&
      list.Nodes[1..] == old(list.Nodes)
  {
    if list == null || element.None? {
      return EINVAL;
    }
    var newNode := new Node(element.value);
    if list.head == null {
      list.head, list.tail := newNode, newNode;
    } else {
      list.head.previous := newNode;
      newNode.next := list.head;
      list.head := newNode;
    }
    list.numberOfElements := list.numberOfElements + 1;
    list.Nodes := [newNode] + list.Nodes;
    list.Contents := [element.value] + list.Contents;
    list.Repr := list.Repr + {newNode};
    return 0;
  }

  /**
    Removes the first node whose element is `element` itself (the source
    compares the pointers); `EINVAL` for a `NULL` list or element, `ENOENT`
    when no element is identical to it. Removing the head clears the new
    head's `previous` link.
   */
  method Remove<T(==)>(list: List?<T>, element: Option<T>) returns (code: int)
    requires list != null ==> list.Valid()
    modifies list, if list == null then {} else list.Repr
    ensures code == if list == null || element.None? then EINVAL
                    else if element.value in old(list.Contents) then 0
                    else ENOENT
    ensures list != null ==> list.Valid() && list.Repr <= old(list.Repr)
    ensures list != null && code != 0 ==>
      list.Contents == old(list.Contents) && list.Nodes == old(list.Nodes)
    ensures list != null && code == 0 ==>
      var k := IndexOf(old(list.Contents), element.value);
      list.Contents == RemoveFirst(old(list.Contents), element.value) &&
      list.Nodes == old(list.Nodes)[..k] + old(list.Nodes)[k + 1..] &&
      list.numberOfElements == old(list.numberOfElements) - 1
  {
    if list == null || element.None? {
      return EINVAL;
    }
    if list.head == null {
      return ENOENT;
    }
    var x := element.value;
    var node := list.head;
    if node.element == x {
      RemoveHead(list);
      return 0;
    }
    code := RemoveAfterHead(list, x);
  }

  /**
    Removal exactly as the source writes it. The only difference from
    `Remove` is in the head case: the statement meant to clear the new
    head's `previous` link has no effect, so that link still points at the
    node just released and the shape invariant is broken.
   */
  method RemoveAsWritten<T(==)>(list: List?<T>, element: Option<T>) returns (code: int)
    requires list != null ==> list.Valid()
    modifies list, if list == null then {} else list.Repr
    ensures code == if list == null || element.None? then EINVAL
                    else if element.value in old(list.Contents) then 0
                    else ENOENT
    ensures list != null && element.Some? && |old(list.Contents)| >= 2 &&
            old(list.Contents)[0] == element.value ==>
      list.Contents == old(list.Contents)[1..] &&
      list.numberOfElements == |list.Contents| &&
      list.head == old(list.Nodes)[1] && list.head.previous == old(list.head) &&
      !list.Valid()
    ensures list != null && element.Some? && old(list.Contents) == [element.value] ==>
      list.Valid() && list.Contents == [] && list.head == null && list.tail == null
    ensures list != null && element.Some? && (old(list.Contents) == [] || old(list.Contents)[0] != element.value) ==>
      list.Valid() && list.Repr <= old(list.Repr) &&
      (code != 0 ==> list.Contents == old(list.Contents) && list.Nodes == old(list.Nodes)) &&
      (code == 0 ==> list.Contents == RemoveFirst(old(list.Contents), element.value))
  {
    if list == null || element.None? || list.head == null || list.head.element != element.value {
      code := Remove(list, element);
      return;
    }
    var node := list.head;
    list.head := node.next;
    if list.head == null {
      list.tail := null;
    }
    DeleteNode(list, node);
    list.Nodes := list.Nodes[1..];
    list.Contents := list.Contents[1..];
    list.Repr := list.Repr - {node};
    return 0;
  }

  /**
    The head case of removal: the second node (if any) becomes the head
    and its `previous` link is cleared.
   */
  method RemoveHead<T>(list: List<T>)
    requires list.Valid() && list.Contents != []
    modifies list, list.Repr
    ensures list.Valid() && list.Repr <= old(list.Repr)
    ensures list.Contents == old(list.Contents)[1..] && list.Nodes == old(list.Nodes)[1..]
    ensures list.numberOfElements == old(list.numberOfElements) - 1
  {
    ghost var nodes := list.Nodes;
    var node := list.head;
    assert node.next == if 1 < |nodes| then nodes[1] else null;
    list.head := node.next;
    if list.head == null {
      list.tail := null;
    } else {
      list.head.previous := null;
    }
    DeleteNode(list, node);
    list.Nodes := nodes[1..];
    list.Contents := list.Contents[1..];
    list.Repr := list.Repr - {node};
    forall i | 0 <= i < |list.Nodes|
      ensures list.Nodes[i].next == if i + 1 < |list.Nodes| then list.Nodes[i + 1] else null
      ensures list.Nodes[i].previous == if 0 < i then list.Nodes[i - 1] else null
    {
      assert list.Nodes[i] == nodes[i + 1];
      assert nodes[i + 1].next == if i + 2 < |nodes| then nodes[i + 2] else null;
    }
  }

  /**
    The scan-and-splice part of removal, for a list whose head does not
    hold `x`: walks from the head to the first node holding `x` and links
    its neighbours to each other.
   */
  method RemoveAfterHead<T(==)>(list: List<T>, x: T) returns (code: int)
    requires list.Valid() && list.Contents != [] && list.Contents[0] != x
    modifies list, list.Repr
    ensures code == if x in old(list.Contents) then 0 else ENOENT
    ensures list.Valid() && list.Repr <= old(list.Repr)
    ensures code != 0 ==> list.Contents == old(list.Contents) && list.Nodes == old(list.Nodes)
    ensures code == 0 ==>
      var k := IndexOf(old(list.Contents), x);
      list.Contents == RemoveFirst(old(list.Contents), x) &&
      list.Nodes == old(list.Nodes)[..k] + old(list.Nodes)[k + 1..] &&
      list.numberOfElements == old(list.numberOfElements) - 1
  {
    var node: Node?<T> := list.head;
    ghost var k := 0;
    while node != null && node.element != x
      invariant 0 <= k <= |list.Nodes|
      invariant node == if k < |list.Nodes| then list.Nodes[k] else null
      invariant forall j :: 0 <= j < k ==> list.Contents[j] != x
      decreases |list.Nodes| - k
    {
      assert node.next == if k + 1 < |list.Nodes| then list.Nodes[k + 1] else null;
      node := node.next;
      k := k + 1;
    }
    if node == null {
      return ENOENT;
    }
    assert k == IndexOf(list.Contents, x) by {
      var i := IndexOf(list.Contents, x);
      assert !(i < k) && !(k < i);
    }
    RemoveFirstSplices(list.Contents, x);
    Unlink(list, node, k);
    return 0;
  }

  /**
    Splices out node `k` of the chain, which is not the head: its
    predecessor's `next` skips it and its successor's `previous` (or the
    list's `tail`) points back to the predecessor.
   */
  method Unlink<T>(list: List<T>, node: Node<T>, ghost k: nat)
    requires list.Valid() && 0 < k < |list.Nodes| && node == list.Nodes[k]
    modifies list, list.Repr
    ensures list.Valid() && list.Repr <= old(list.Repr)
    ensures list.Nodes == old(list.Nodes)[..k] + old(list.Nodes)[k + 1..]
    ensures list.Contents == old(list.Contents)[..k] + old(list.Contents)[k + 1..]
    ensures list.numberOfElements == old(list.numberOfElements) - 1
  {
    ghost var nodes, contents := list.Nodes, list.Contents;
    var before, after := node.previous, node.next;
    assert before == nodes[k - 1];
    before.next := after;
    if after == null {
      list.tail := before;
    } else {
      after.previous := before;
    }
    DeleteNode(list, node);
    list.Nodes := nodes[..k] + nodes[k + 1..];
    list.Contents := contents[..k] + contents[k + 1..];
    list.Repr := list.Repr - {node};
    forall i | 0 <= i < |list.Nodes|
      ensures list.Nodes[i].next == if i + 1 < |list.Nodes| then list.Nodes[i + 1] else null
      ensures list.Nodes[i].previous == if 0 < i then list.Nodes[i - 1] else null
    {
      if i < k - 1 {
        assert list.Nodes[i] == nodes[i] && list.Nodes[i + 1] == nodes[i + 1];
        assert old(nodes[i].next) == nodes[i + 1];
      } else if i == k - 1 {
        assert list.Nodes[i] == before;
      } else {
        assert list.Nodes[i] == nodes[i + 1];
        assert old(nodes[i + 1].next) == if i + 2 < |nodes| then nodes[i + 2] else null;
      }
      if i < k {
        assert list.Nodes[i] == nodes[i];
        assert old(nodes[i].previous) == if 0 < i then nodes[i - 1] else null;
      } else if i == k {
        assert list.Nodes[i] == after;
      } else {
        assert list.Nodes[i] == nodes[i + 1] && list.Nodes[i - 1] == nodes[i];
        assert old(nodes[i + 1].previous) == nodes[i];
      }
    }
  }

  /** Removes and returns the head element; `None` on a `NULL` or empty list. */
  method Shift<T>(list: List?<T>) returns (r: Option<T>)
    requires list != null ==> list.Valid()
    modifies list, if list == null then {} else list.Repr
    ensures r == if list == null || old(list.Contents) == [] then None else Some(old(list.Contents)[0])
    ensures list != null ==> list.Valid() && list.Repr <= old(list.Repr)
    ensures list != null && r.None? ==>
      list.Contents == old(list.Contents) && list.Nodes == old(list.Nodes)
    ensures list != null && r.Some? ==>
      list.Contents == old(list.Contents)[1..] &&
      list.Nodes == old(list.Nodes)[1..] &&
      list.numberOfElements == old(list.numberOfElements) - 1
  {
    if list == null || list.tail == null {
      return None;
    }
    var headNode := list.head;
    if headNode.next == null {
      list.tail := null;
    } else {
      headNode.next.previous := null;
    }
    list.head := headNode.next;
    r := Some(headNode.element);
    DeleteNode(list, headNode);
    list.Nodes := list.Nodes[1..];
    list.Contents := list.Contents[1..];
    list.Repr := list.Repr - {headNode};
  }

  /** Removes and returns the tail element; `None` on a `NULL` or empty list. */
  method Pop<T>(list: List?<T>) returns (r: Option<T>)
    requires list != null ==> list.Valid()
    modifies list, if list == null then {} else list.Repr
    ensures r == if list == null || old(list.Contents) == [] then None
                 else Some(old(list.Contents)[|old(list.Contents)| - 1])
    ensures list != null ==> list.Valid() && list.Repr <= old(list.Repr)
    ensures list != null && r.None? ==>
      list.Contents == old(list.Contents) && list.Nodes == old(list.Nodes)
    ensures list != null && r.Some? ==>
      list.Contents == old(list.Contents)[..|old(list.Contents)| - 1] &&
      list.Nodes == old(list.Nodes)[..|old(list.Nodes)| - 1] &&
      list.numberOfElements == old(list.numberOfElements) - 1
  {
    if list == null || list.tail == null {
      return None;
    }
    var tailNode := list.tail;
    if tailNode.previous == null {
      list.head := null;
    } else {
      tailNode.previous.next := null;
    }
    list.tail := tailNode.previous;
    r := Some(tailNode.element);
    DeleteNode(list, tailNode);
    list.Nodes := list.Nodes[..|list.Nodes| - 1];
    list.Contents := list.Contents[..|list.Contents| - 1];
    list.Repr := list.Repr - {tailNode};
  }

  /** The number of elements, or `-EINVAL` for a `NULL` list. */
  method Size<T>(list: List?<T>) returns (n: int)
    requires list != null ==> list.Valid()
    ensures n == if list == null then -EINVAL else |list.Contents|
  {
    n := if list == null then -EINVAL else list.numberOfElements;
  }

  /** 1 when some element `y` satisfies `compare(element, y) == 0`, 0 otherwise. */
  method Contains<T>(list: List<T>, element: T) returns (r: int)
    requires list.Valid()
    ensures r == if Matches(list.compare, list.Contents, element) then 1 else 0
  {
    var node := list.head;
    ghost var k := 0;
    while node != null
      invariant 0 <= k <= |list.Nodes|
      invariant node == if k < |list.Nodes| then list.Nodes[k] else null
      invariant forall j :: 0 <= j < k ==> list.compare(element, list.Contents[j]) != 0
      decreases |list.Nodes| - k
    {
      if list.compare(element, node.element) == 0 {
        return 1;
      }
      node := node.next;
      k := k + 1;
    }
    return 0;
  }

  /**
    A client of the list: builds [1, 2, 3] by appends; popping returns 3,
    shifting returns 1, one element is left and the next shift returns 2.
   */
  method PopShiftScenario() returns (popped: Option<int>, shifted: Option<int>, size: int, last: Option<int>)
    ensures popped == Some(3) && shifted == Some(1) && size == 1 && last == Some(2)
  {
    var list := new List((a: int, b: int) => a - b);
    var code := Append(list, Some(1));
    code := Append(list, Some(2));
    code := Append(list, Some(3));
    popped := Pop(list);
    shifted := Shift(list);
    size := Size(list);
    last := Shift(list);
  }

  /**
    The input that exposes the no-op statement in the source's removal:
    removing the head of [1, 2] as written leaves the new head's `previous`
    link non-null although the list has one element.
   */
  method DanglingHeadScenario() returns (count: int, headHasPrevious: bool)
    ensures count == 1 && headHasPrevious
  {
    var list := new List((a: int, b: int) => a - b);
    var code := Append(list, Some(1));
    code := Append(list, Some(2));
    code := RemoveAsWritten(list, Some(1));
    count := list.numberOfElements;
    headHasPrevious := list.head != null && list.head.previous != null;
  }
}
