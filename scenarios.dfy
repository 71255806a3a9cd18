/** Client-side walks through the lists, each fixing concrete values. They
    pin down behaviours that are easy to misread in the source: the tail
    shortcut of the doubly list's `insert`, the stale counter and tail of
    the draft singly list, and the endless iteration of the ring. */
module Scenarios {
  import opened LinkedSeq
  import Singly
  import Doubly
  import OneWayDraft
  import Circulate

  /** On [5, 7, 5] the tail holds 5, so `insert(5, 8)` appends: 8 lands at
      the end, not behind the first 5. */
  method DoublyInsertAtTailMatch() returns (backwards: seq<int>, r: Outcome)
    ensures r == Pass
    ensures backwards == [8, 5, 7, 5]
  {
    var l := new Doubly.TwoWayLinkedList([5, 7, 5]);
    r := l.Insert(5, 8);
    assert Doubly.Values(l.Nodes) == [5, 7, 5, 8];
    backwards := l.Reversed();
    assert Reverse([5, 7, 5, 8]) == [8] + Reverse([5, 7, 5]);
  }

  /** Without a match at the tail, `insert` goes behind the first match. */
  method DoublyInsertInside() returns (backwards: seq<int>, r: Outcome)
    ensures r == Pass
    ensures backwards == [3, 2, 9, 1]
  {
    var l := new Doubly.TwoWayLinkedList([1, 2, 3]);
    r := l.Insert(1, 9);
    assert Doubly.Values(l.Nodes) == [1, 9, 2, 3];
    backwards := l.Reversed();
    assert Reverse([1, 9, 2, 3]) == [3] + Reverse([1, 9, 2]);
  }

  /** `insert` of a value behind one that is missing raises IndexError and
      leaves the list as it was. */
  method DoublyInsertMissing() returns (backwards: seq<int>, r: Outcome)
    ensures r == Fail(IndexError)
    ensures backwards == [2, 1]
  {
    var l := new Doubly.TwoWayLinkedList([1, 2]);
    r := l.Insert(4, 0);
    backwards := l.Reversed();
    assert Reverse([1, 2]) == [2] + Reverse([1]);
  }

  /** The singly list: `remove` takes out only the first 2, and `popleft`
      then returns the head. */
  method SinglyRemoveThenPopLeft() returns (len: int, popped: int)
    ensures len == 3 && popped == 1
  {
    var l := new Singly.OneWayLinkedList([1, 2, 3, 2]);
    var r := l.Remove(2);
    assert Singly.Values(l.Nodes) == [1, 3, 2];
    len := l.Length();
    var p := l.PopLeft();
    popped := p.value.value;
  }

  /** In the draft singly list `insert_node` behind the last node neither
      counts the new node nor moves the cached tail: `len()` stays 2 while
      three nodes are chained, and `tail_remove` then removes the first 2,
      which is no longer the last node. */
  method OneWayDraftInsertLeavesTailStale() returns (len: int, removed: int, first: Option<int>, second: Option<int>)
    ensures len == 2 && removed == 2
    ensures first == Some(1) && second == Some(3)
  {
    var l := new OneWayDraft.OneWayLinkedList();
    l.TailAppendNode(1);
    l.TailAppendNode(2);
    assert Singly.Values(l.Nodes) == [1, 2];
    l.InsertNode(2, 3);
    assert Singly.Values(l.Nodes) == [1, 2, 3];
    len := l.Length();
    assert l.tail.value == 2;
    var r := l.TailRemove();
    assert Singly.Values(l.Nodes) == [1, 3];
    removed := r.value.value;
    l.Iter();
    first := l.Next();
    second := l.Next();
  }

  /** The singly list's `__next__` deletes `_current` when it raises
      StopIteration, so one more call raises AttributeError. */
  method SinglyNextAfterEnd() returns (a: Result<Option<int>>, b: Result<Option<int>>, c: Result<Option<int>>)
    ensures a == Ok(Some(1)) && b == Ok(None) && c == Err(AttributeError)
  {
    var l := new Singly.OneWayLinkedList([1]);
    l.Iter();
    a := l.Next();
    b := l.Next();
    c := l.Next();
  }

  /** A fresh singly list has no `_current` attribute at all, so
      `__next__` before any `__iter__` raises AttributeError. */
  method SinglyNextBeforeIter() returns (r: Result<Option<int>>)
    ensures r == Err(AttributeError)
  {
    var l := new Singly.OneWayLinkedList([1]);
    r := l.Next();
  }

  /** In the draft singly list the counter can reach 0 while a node is
      still chained: `tail_append_node(1)`, `insert_node(1, 2)` (not
      counted) and `head_remove()` leave the chain [2] with counter 0 and a
      stale tail. A `tail_append_node(3)` then replaces the chain, so the 2
      is lost. */
  method OneWayDraftAppendAfterDrift() returns (len: int, first: Option<int>, second: Option<int>)
    ensures len == 1 && first == Some(3) && second == None
  {
    var l := new OneWayDraft.OneWayLinkedList();
    l.TailAppendNode(1);
    l.InsertNode(1, 2);
    assert Singly.Values(l.Nodes) == [1, 2] && l.length == 1;
    var h := l.HeadRemove();
    assert Singly.Values(l.Nodes) == [2] && l.length == 0;
    l.TailAppendNode(3);
    len := l.Length();
    l.Iter();
    first := l.Next();
    second := l.Next();
  }

  /** The ring: after `append(1)`, `append(2)` and `appendleft(0)`,
      `popleft` returns 0, and iteration goes round without end. */
  method RingPopLeftThenIterate() returns (popped: int, a: Option<int>, b: Option<int>, c: Option<int>)
    ensures popped == 0
    ensures a == Some(1) && b == Some(2) && c == Some(1)
  {
    var l := new Circulate.CirculateLinkedList([7]);
    l.Append(1);
    l.Append(2);
    l.AppendLeft(0);
    assert Circulate.Values(l.Nodes) == [0, 1, 2];
    var p := l.PopLeft();
    popped := p.value.value;
    assert Circulate.Values(l.Nodes) == [1, 2];
    l.Iter();
    a := l.Next();
    b := l.Next();
    c := l.Next();
  }
}
