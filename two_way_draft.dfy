/** The draft doubly linked list of TwoWayLinkedList.py. Its node class has
    the same fields as the one of linked_list/doubly.py, so the model shares
    that node class and the lemmas about its links. */
module TwoWayDraft {
  import opened LinkedSeq
  import D = Doubly

  class TwoWayLinkedList<T(==)> {
    var head: D.TwoWayLinkedListNode?<T>
    var tail: D.TwoWayLinkedListNode?<T>
    var length: int
    /** The iteration cursor `_current`. */
    var current: D.TwoWayLinkedListNode?<T>

    /** The nodes of the chain, head first. */
    ghost var Nodes: seq<D.TwoWayLinkedListNode<T>>
    ghost var Repr: set<object>
    /** How many values the current iteration has produced. */
    ghost var cursor: nat

    /** `next` runs through `Nodes` from `head` to null, `prev` mirrors it
        from `tail` to null, each node occurs once, and `length` counts them. */
    ghost predicate Valid()
      reads this, Repr
      ensures Valid() ==> this in Repr
    {
      this in Repr &&
      length == |Nodes| &&
      (forall i :: 0 <= i < |Nodes| ==> Nodes[i] in Repr) &&
      (forall i {:trigger Nodes[i].next} :: 0 <= i < |Nodes| - 1 ==> Nodes[i].next == Nodes[i + 1]) &&
      (forall i {:trigger Nodes[i].prev} :: 0 < i < |Nodes| ==> Nodes[i].prev == Nodes[i - 1]) &&
      (if Nodes == [] then head == null && tail == null
       else head == Nodes[0] && tail == Nodes[|Nodes| - 1] && head.prev == null && tail.next == null) &&
      Distinct(Nodes)
    }

    /** An iteration is under way and `current` is its next node. */
    ghost predicate Iterating()
      reads this, Repr
    {
      Valid() && cursor <= |Nodes| &&
      current == if cursor < |Nodes| then Nodes[cursor] else null
    }

    /** The constructor called with its default arguments: an empty list. */
    constructor ()
      ensures Valid() && fresh(Repr) && Nodes == []
    {
      head, tail, length, current := null, null, 0, null;
      Nodes, Repr, cursor := [], {this}, 0;
    }

    /** `__len__`. */
    function Length(): (n: int)
      reads this, Repr
      requires Valid()
      ensures n == |D.Values(Nodes)|
    {
      length
    }

    /** `__iter__`: starts an iteration at the head. */
    method Iter()
      requires Valid()
      modifies this`current, this`cursor
      ensures Iterating() && cursor == 0
    {
      current := head;
      cursor := 0;
    }

    /** `__next__`: the next value, or None (StopIteration) at the end. */
    method Next() returns (r: Option<T>)
      requires Iterating()
      modifies this`current, this`cursor
      ensures Iterating()
      ensures old(cursor) < |D.Values(Nodes)| ==>
        r == Some(D.Values(Nodes)[old(cursor)]) && cursor == old(cursor) + 1
      ensures old(cursor) == |D.Values(Nodes)| ==> r == None && cursor == old(cursor)
    {
      if current == null {
        return None;
      }
      r := Some(current.value);
      current := current.next;
      cursor := cursor + 1;
    }

    /** `__reversed__`: the values met walking `prev` links from the tail,
        which are the forward values in reverse. */
    method Reversed() returns (r: seq<T>)
      requires Valid()
      ensures r == Reverse(D.Values(Nodes))
    {
      r := [];
      var currentNode := tail;
      ghost var i := |Nodes|;
      while currentNode != null
        invariant 0 <= i <= |Nodes|
        invariant currentNode == if 0 < i then Nodes[i - 1] else null
        invariant r == Reverse(D.Values(Nodes)[i..])
        decreases i
      {
        ghost var suffix := D.Values(Nodes)[i - 1..];
        assert suffix[0] == currentNode.value && suffix[1..] == D.Values(Nodes)[i..];
        r := r + [currentNode.value];
        currentNode := currentNode.prev;
        i := i - 1;
      }
    }

    /** `_append_node`: an empty list gets `newNode` as head and tail; else
        'tail' links it behind the tail and any other position links it in
        front of the head. */
    method AppendNode(newNode: D.TwoWayLinkedListNode<T>, position: string)
      requires Valid()
      requires newNode !in Repr && newNode.prev == null && newNode.next == null
      modifies Repr, newNode
      ensures Valid() && Repr == old(Repr) + {newNode}
      ensures old(Nodes) == [] || position == "tail" ==> Nodes == old(Nodes) + [newNode]
      ensures old(Nodes) != [] && position != "tail" ==> Nodes == [newNode] + old(Nodes)
    {
      ghost var nodes := Nodes;
      DistinctConcat(nodes, [newNode]);
      DistinctConcat([newNode], nodes);
      if length == 0 {
        head := newNode;
        tail := newNode;
        Nodes := [newNode];
      } else if position == "tail" {
        Nodes := nodes + [newNode];
        var tailNode := tail;
        tailNode.next := newNode;
        tail := newNode;
        tail.prev := tailNode;
        D.JoinLinks(nodes, [newNode]);
      } else {
        Nodes := [newNode] + nodes;
        var headNode := head;
        headNode.prev := newNode;
        head := newNode;
        head.next := headNode;
        D.JoinLinks([newNode], nodes);
      }
      length := length + 1;
      Repr := Repr + {newNode};
    }

    /** `add_head_node`. */
    method AddHeadNode(value: T)
      requires Valid()
      modifies Repr
      ensures Valid() && fresh(Repr - old(Repr))
      ensures D.Values(Nodes) == [value] + D.Values(old(Nodes))
      ensures Nodes[1..] == old(Nodes) && fresh(Nodes[0])
    {
      var newNode := new D.TwoWayLinkedListNode(value);
      AppendNode(newNode, "head");
      D.ValuesConcat([newNode], old(Nodes));
    }

    /** `add_tail_node`. */
    method AddTailNode(value: T)
      requires Valid()
      modifies Repr
      ensures Valid() && fresh(Repr - old(Repr))
      ensures D.Values(Nodes) == D.Values(old(Nodes)) + [value]
      ensures Nodes[..|old(Nodes)|] == old(Nodes) && fresh(Nodes[|old(Nodes)|])
    {
      var newNode := new D.TwoWayLinkedListNode(value);
      AppendNode(newNode, "tail");
      D.ValuesConcat(old(Nodes), [newNode]);
    }

    /** `insert_node`: when the tail holds `before` the value is appended;
        otherwise it goes right behind the first node holding `before`.
        When no node holds `before` it returns without changing anything. */
    method InsertNode(before: T, after: T)
      requires Valid()
      modifies Repr
      ensures Valid() && fresh(Repr - old(Repr))
      ensures before !in D.Values(old(Nodes)) ==> Nodes == old(Nodes)
      ensures before in D.Values(old(Nodes)) ==>
        D.Values(Nodes) == D.InsertShortcut(D.Values(old(Nodes)), before, after)
      ensures before in D.Values(old(Nodes)) && D.Values(old(Nodes))[|old(Nodes)| - 1] == before ==>
        exists n: D.TwoWayLinkedListNode<T> :: fresh(n) && Nodes == old(Nodes) + [n]
      ensures before in D.Values(old(Nodes)) && D.Values(old(Nodes))[|old(Nodes)| - 1] != before ==>
        exists n: D.TwoWayLinkedListNode<T> :: fresh(n) &&
          Nodes == InsertAfter(old(Nodes), FirstIndex(D.Values(old(Nodes)), before), n)
    {
      var currentNode, atTail, i := ScanForInsert(before);
      if currentNode == null {
        return;
      }
      if atTail {
        AddTailNode(after);
        assert Nodes == old(Nodes) + [Nodes[|old(Nodes)|]];
        return;
      }
      FirstIndexAt(D.Values(Nodes), before, i);
      ghost var nodes := Nodes;
      var newNode := LinkAfter(currentNode, i, after);
      D.ValuesInsertAfter(nodes, i, newNode);
    }

    /** The scan of `insert_node`: walks from the head and stops at the
        first pass where the tail holds `before` (`atTail`, which is the
        first pass since the tail does not move), or at the first node
        holding `before`. The result is null when no node holds `before`. */
    method ScanForInsert(before: T) returns (node: D.TwoWayLinkedListNode?<T>, atTail: bool, ghost i: nat)
      requires Valid()
      ensures node == null <==> before !in D.Values(Nodes)
      ensures node != null ==> i < |Nodes| && node == Nodes[i]
      ensures node != null ==> (atTail <==> D.Values(Nodes)[|Nodes| - 1] == before)
      ensures node != null && !atTail ==>
        i + 1 < |Nodes| && D.Values(Nodes)[i] == before && before !in D.Values(Nodes)[..i]
    {
      var currentNode := head;
      i := 0;
      while currentNode != null
        invariant 0 <= i <= |Nodes|
        invariant currentNode == if i < |Nodes| then Nodes[i] else null
        invariant before !in D.Values(Nodes)[..i]
        invariant 0 < i ==> tail.value != before
        decreases |Nodes| - i
      {
        assert D.Values(Nodes)[|Nodes| - 1] == tail.value;
        if tail.value == before {
          return currentNode, true, i;
        }
        if currentNode.value == before {
          assert D.Values(Nodes)[i] == before;
          return currentNode, false, i;
        }
        currentNode := currentNode.next;
        i := i + 1;
      }
      assert D.Values(Nodes)[..i] == D.Values(Nodes);
      return null, false, i;
    }

    /** The splice step of `insert_node`: a new node holding `value` goes
        between `node`, at position `k`, and its successor. */
    method LinkAfter(node: D.TwoWayLinkedListNode<T>, ghost k: nat, value: T) returns (newNode: D.TwoWayLinkedListNode<T>)
      requires Valid() && k + 1 < |Nodes| && node == Nodes[k]
      modifies Repr
      ensures Valid() && fresh(newNode) && newNode.value == value
      ensures Repr == old(Repr) + {newNode}
      ensures Nodes == InsertAfter(old(Nodes), k, newNode)
    {
      newNode := new D.TwoWayLinkedListNode(value);
      ghost var nodes := Nodes;
      DistinctInsertAfter(nodes, k, newNode);
      var succ := node.next;
      assert succ == nodes[k + 1];
      length := length + 1;
      Nodes := InsertAfter(nodes, k, newNode);
      Repr := Repr + {newNode};
      newNode.next, newNode.prev := succ, node;
      succ.prev, node.next := newNode, newNode;
      D.SpliceLinks(nodes, k, newNode);
    }

    /** `_remove_node`: raises IndexError on an empty list, empties a
        one-node list, and otherwise drops the tail for 'tail' and the head
        for any other position. */
    method RemoveEnd(position: string) returns (r: Outcome)
      requires Valid()
      modifies Repr
      ensures Valid() && Repr == old(Repr)
      ensures r == if old(Nodes) == [] then Fail(IndexError) else Pass
      ensures r.Fail? || |old(Nodes)| == 1 ==> Nodes == []
      ensures |old(Nodes)| >= 2 && position == "tail" ==> Nodes == old(Nodes)[..|old(Nodes)| - 1]
      ensures |old(Nodes)| >= 2 && position != "tail" ==> Nodes == old(Nodes)[1..]
    {
      if length == 0 {
        return Fail(IndexError);
      }
      if length == 1 {
        head, tail, length := null, null, 0;
        Nodes := [];
        return Pass;
      }
      if position == "tail" {
        DropTail();
      } else {
        DropHead();
      }
      return Pass;
    }

    /** Unlinks the head of a list of two or more nodes: its successor
        loses its `prev` link and becomes the head. */
    method DropHead()
      requires Valid() && |Nodes| >= 2
      modifies Repr
      ensures Valid() && Repr == old(Repr)
      ensures Nodes == old(Nodes)[1..]
    {
      ghost var nodes := Nodes;
      ghost var n := |nodes|;
      DistinctSlice(nodes, 1, n);
      length := length - 1;
      Nodes := nodes[1..];
      var headNext := head.next;
      headNext.prev := null;
      head := headNext;
      D.TrimLinks(nodes, 1, n);
    }

    /** Unlinks the tail of a list of two or more nodes: its predecessor
        loses its `next` link and becomes the tail. */
    method DropTail()
      requires Valid() && |Nodes| >= 2
      modifies Repr
      ensures Valid() && Repr == old(Repr)
      ensures Nodes == old(Nodes)[..|old(Nodes)| - 1]
    {
      ghost var nodes := Nodes;
      ghost var n := |nodes|;
      DistinctSlice(nodes, 0, n - 1);
      length := length - 1;
      Nodes := nodes[..n - 1];
      var tailPrev := tail.prev;
      tailPrev.next := null;
      tail := tailPrev;
      D.TrimLinks(nodes, 0, n - 1);
    }

    /** Bypasses the interior node `current` at position `k`: its
        neighbours are linked to each other both ways. */
    method Bypass(current: D.TwoWayLinkedListNode<T>, ghost k: nat)
      requires Valid() && 0 < k < |Nodes| - 1 && current == Nodes[k]
      modifies Repr
      ensures Valid() && Repr == old(Repr)
      ensures Nodes == RemoveAt(old(Nodes), k)
    {
      ghost var nodes := Nodes;
      DistinctRemoveAt(nodes, k);
      length := length - 1;
      Nodes := RemoveAt(nodes, k);
      current.prev.next, current.next.prev := current.next, current.prev;
      D.UnspliceLinks(nodes, k);
    }

    /** `remove_tail_node`: drops the last value; IndexError when empty. */
    method RemoveTailNode() returns (r: Outcome)
      requires Valid()
      modifies Repr
      ensures Valid() && Repr == old(Repr)
      ensures r == if old(Nodes) == [] then Fail(IndexError) else Pass
      ensures r.Fail? ==> Nodes == old(Nodes)
      ensures r.Pass? ==>
        Nodes == old(Nodes)[..|old(Nodes)| - 1] &&
        D.Values(Nodes) == D.Values(old(Nodes))[..|old(Nodes)| - 1]
    {
      if Nodes != [] {
        D.ValuesSlice(Nodes, 0, |Nodes| - 1);
      }
      r := RemoveEnd("tail");
    }

    /** `remove_head_node`: drops the first value; IndexError when empty. */
    method RemoveHeadNode() returns (r: Outcome)
      requires Valid()
      modifies Repr
      ensures Valid() && Repr == old(Repr)
      ensures r == if old(Nodes) == [] then Fail(IndexError) else Pass
      ensures r.Fail? ==> Nodes == old(Nodes)
      ensures r.Pass? ==> Nodes == old(Nodes)[1..] && D.Values(Nodes) == D.Values(old(Nodes))[1..]
    {
      if Nodes != [] {
        D.ValuesSlice(Nodes, 1, |Nodes|);
      }
      r := RemoveEnd("head");
    }

    /** `remove_node`: unlinks the first node holding `value` itself,
        fixing the head when the node has no predecessor and the tail when
        it has no successor; raises ValueError, changing nothing, when there
        is none. On a one-node list holding `value` the source dereferences
        the missing successor, so that case is excluded. */
    method RemoveNode(value: T) returns (r: Outcome)
      requires Valid() && D.Values(Nodes) != [value]
      modifies Repr
      ensures Valid() && Repr == old(Repr)
      ensures r == if value in D.Values(old(Nodes)) then Pass else Fail(ValueError)
      ensures r.Fail? ==> Nodes == old(Nodes)
      ensures r.Pass? ==>
        Nodes == RemoveAt(old(Nodes), FirstIndex(D.Values(old(Nodes)), value)) &&
        D.Values(Nodes) == RemoveFirst(D.Values(old(Nodes)), value)
    {
      var currentNode, i := ScanFor(value);
      if currentNode == null {
        return Fail(ValueError);
      }
      FirstIndexAt(D.Values(Nodes), value, i);
      D.ValuesRemoveAt(Nodes, i);
      Unlink(currentNode, i);
      return Pass;
    }

    /** The scan of `remove_node`: the first node holding `value`, or null. */
    method ScanFor(value: T) returns (node: D.TwoWayLinkedListNode?<T>, ghost i: nat)
      requires Valid()
      ensures node == null <==> value !in D.Values(Nodes)
      ensures node != null ==>
        i < |Nodes| && node == Nodes[i] &&
        D.Values(Nodes)[i] == value && value !in D.Values(Nodes)[..i]
    {
      var currentNode := head;
      i := 0;
      while currentNode != null
        invariant 0 <= i <= |Nodes|
        invariant currentNode == if i < |Nodes| then Nodes[i] else null
        invariant value !in D.Values(Nodes)[..i]
        decreases |Nodes| - i
      {
        if currentNode.value == value {
          assert D.Values(Nodes)[i] == value;
          return currentNode, i;
        }
        currentNode := currentNode.next;
        i := i + 1;
      }
      assert D.Values(Nodes)[..i] == D.Values(Nodes);
      return null, i;
    }

    /** The unlinking step of `remove_node` for the node at position `k` of
        a list with at least two nodes: a node without predecessor hands the
        head to its successor, one without successor hands the tail to its
        predecessor, and an interior node is bypassed both ways. */
    method Unlink(current: D.TwoWayLinkedListNode<T>, ghost k: nat)
      requires Valid() && |Nodes| >= 2 && k < |Nodes| && current == Nodes[k]
      modifies Repr
      ensures Valid() && Repr == old(Repr)
      ensures Nodes == RemoveAt(old(Nodes), k)
    {
      ghost var nodes := Nodes;
      ghost var n := |nodes|;
      if k > 0 {
        DistinctAt(nodes, k, 0);
      }
      if k < n - 1 {
        DistinctAt(nodes, k, n - 1);
      }
      if current.prev == null {
        assert RemoveAt(nodes, 0) == nodes[1..];
        DropHead();
      } else if current.next == null {
        assert RemoveAt(nodes, k) == nodes[..n - 1];
        DropTail();
      } else {
        Bypass(current, k);
      }
    }

    /** `clear`: clears both links of every node, then resets to the empty
        list. */
    method Clear()
      requires Valid()
      modifies Repr
      ensures Valid() && Repr == old(Repr)
      ensures Nodes == [] && head == null && tail == null && length == 0
      ensures forall j :: 0 <= j < |old(Nodes)| ==>
        old(Nodes)[j].prev == null && old(Nodes)[j].next == null
    {
      ghost var nodes := Nodes;
      var currentNode := head;
      ghost var i := 0;
      while currentNode != null
        invariant unchanged(this)
        invariant 0 <= i <= |nodes|
        invariant currentNode == if i < |nodes| then nodes[i] else null
        invariant forall j :: 0 <= j < i ==> nodes[j].prev == null && nodes[j].next == null
        invariant forall j {:trigger nodes[j].next} :: i <= j < |nodes| ==>
          nodes[j].next == if j + 1 < |nodes| then nodes[j + 1] else null
        decreases |nodes| - i
      {
        var nextNode := currentNode.next;
        forall j | i < j < |nodes| ensures nodes[j] != nodes[i] {
          DistinctAt(nodes, j, i);
        }
        currentNode.prev, currentNode.next := null, null;
        currentNode := nextNode;
        i := i + 1;
      }
      head, tail, length := null, null, 0;
      Nodes := [];
    }
  }
}
