/** The draft singly linked list of OneWayLinkedList.py. Its node class has
    the same fields as the one of linked_list/singly.py, so the model shares
    that node class. Unlike linked_list/singly.py it caches a tail pointer,
    and `insert_node` and `remove_node` do not keep that cache (nor, for
    `insert_node`, the length) up to date; the model keeps the chain's
    shape in Valid() and states the cache's agreement separately, as
    TailCached() and Counted(). */
module OneWayDraft {
  import opened LinkedSeq
  import S = Singly

  class OneWayLinkedList<T(==)> {
    var head: S.OneWayLinkedListNode?<T>
    var tail: S.OneWayLinkedListNode?<T>
    var length: int
    /** The iteration cursor `_current`. */
    var current: S.OneWayLinkedListNode?<T>

    /** The nodes of the chain, head first. */
    ghost var Nodes: seq<S.OneWayLinkedListNode<T>>
    ghost var Repr: set<object>
    /** How many values the current iteration has produced. */
    ghost var cursor: nat

    /** The chain from `head` visits exactly `Nodes`, each node once, and
        stops at null. `length` never exceeds the number of nodes: only
        `insert_node` lets the two drift apart, and it adds a node without
        counting it. A removal after such a drift can take the counter
        below zero. */
    ghost predicate Valid()
      reads this, Repr
      ensures Valid() ==> this in Repr
    {
      this in Repr &&
      length <= |Nodes| &&
      (forall i :: 0 <= i < |Nodes| ==> Nodes[i] in Repr) &&
      (forall i {:trigger Nodes[i].next} :: 0 <= i < |Nodes| ==>
        Nodes[i].next == if i + 1 < |Nodes| then Nodes[i + 1] else null) &&
      head == (if |Nodes| == 0 then null else Nodes[0]) &&
      Distinct(Nodes)
    }

    /** The cached tail is the last node of the chain. */
    ghost predicate TailCached()
      reads this
    {
      tail == if Nodes == [] then null else Nodes[|Nodes| - 1]
    }

    /** The length counter counts the nodes of the chain. */
    ghost predicate Counted()
      reads this
    {
      length == |Nodes|
    }

    /** An iteration is under way and `current` is its next node. */
    ghost predicate Iterating()
      reads this, Repr
    {
      Valid() && cursor <= |Nodes| &&
      current == if cursor < |Nodes| then Nodes[cursor] else null
    }

    /** The constructor called with its default arguments: an empty list. */
    constructor ()
      ensures Valid() && TailCached() && Counted() && fresh(Repr) && Nodes == []
    {
      head, tail, length, current := null, null, 0, null;
      Nodes, Repr, cursor := [], {this}, 0;
    }

    /** `__len__`: the counter, which may lag behind the chain. */
    function Length(): (n: int)
      reads this, Repr
      requires Valid()
      ensures n <= |S.Values(Nodes)|
      ensures Counted() ==> n == |S.Values(Nodes)|
    {
      length
    }

    /** `__iter__`: starts an iteration at the head. */
    method Iter()
      requires Valid()
      modifies this`current, this`cursor
      ensures Iterating() && cursor == 0
    {
      current := head;
      cursor := 0;
    }

    /** `__next__`: the next value, or None (StopIteration) at the end. */
    method Next() returns (r: Option<T>)
      requires Iterating()
      modifies this`current, this`cursor
      ensures Iterating()
      ensures old(cursor) < |S.Values(Nodes)| ==>
        r == Some(S.Values(Nodes)[old(cursor)]) && cursor == old(cursor) + 1
      ensures old(cursor) == |S.Values(Nodes)| ==> r == None && cursor == old(cursor)
    {
      if current == null {
        return None;
      }
      r := Some(current.value);
      current := current.next;
      cursor := cursor + 1;
    }

    /** `insert_node`: a node holding `after` goes right behind the first
        node holding `before`; when there is none nothing changes. Neither
        the length nor the cached tail is updated. */
    method InsertNode(before: T, after: T)
      requires Valid()
      modifies Repr
      ensures Valid() && fresh(Repr - old(Repr))
      ensures length == old(length) && tail == old(tail)
      ensures before !in S.Values(old(Nodes)) ==> Nodes == old(Nodes)
      ensures before in S.Values(old(Nodes)) ==>
        S.Values(Nodes) == InsertAfterFirst(S.Values(old(Nodes)), before, after)
      ensures before in S.Values(old(Nodes)) ==>
        exists n: S.OneWayLinkedListNode<T> :: fresh(n) &&
          Nodes == InsertAfter(old(Nodes), FirstIndex(S.Values(old(Nodes)), before), n)
    {
      var newNode := new S.OneWayLinkedListNode(after);
      var currentNode := head;
      ghost var i := 0;
      while currentNode != null
        invariant 0 <= i <= |Nodes|
        invariant currentNode == if i < |Nodes| then Nodes[i] else null
        invariant before !in S.Values(Nodes)[..i]
        decreases |Nodes| - i
      {
        if currentNode.value == before {
          break;
        }
        currentNode := currentNode.next;
        i := i + 1;
      }
      if currentNode == null {
        assert S.Values(Nodes)[..i] == S.Values(Nodes);
        return;
      }
      assert S.Values(Nodes)[i] == before;
      FirstIndexAt(S.Values(Nodes), before, i);
      ghost var nodes := Nodes;
      LinkAfter(currentNode, i, newNode);
      S.ValuesInsertAfter(nodes, i, newNode);
    }

    /** The splice step of `insert_node`: links `newNode` in behind `node`,
        the node at position `k`, leaving the counter and the tail alone. */
    method LinkAfter(node: S.OneWayLinkedListNode<T>, ghost k: nat, newNode: S.OneWayLinkedListNode<T>)
      requires Valid() && k < |Nodes| && node == Nodes[k]
      requires newNode !in Repr && newNode.next == null
      modifies Repr, newNode
      ensures Valid() && Repr == old(Repr) + {newNode}
      ensures length == old(length) && tail == old(tail)
      ensures Nodes == InsertAfter(old(Nodes), k, newNode)
    {
      ghost var nodes := Nodes;
      DistinctInsertAfter(nodes, k, newNode);
      Nodes := InsertAfter(nodes, k, newNode);
      Repr := Repr + {newNode};
      newNode.next := node.next;
      node.next := newNode;
      forall j {:trigger Nodes[j].next} | 0 <= j < |Nodes|
        ensures Nodes[j].next == if j + 1 < |Nodes| then Nodes[j + 1] else null
      {
        if j < k {
          DistinctAt(nodes, j, k);
        } else if j > k + 1 {
          DistinctAt(nodes, j - 1, k);
        }
      }
    }

    /** `_append_node`: when the counter is 0 the new node becomes the
        whole chain, head and tail; otherwise 'tail' links it behind the
        cached tail, which must then be the last node of a non-empty
        chain (the source dereferences it), and any other
        direction puts it in front of the head. */
    method AppendNode(newNode: S.OneWayLinkedListNode<T>, direction: string)
      requires Valid()
      requires newNode !in Repr && newNode.next == null
      requires length != 0 && direction == "tail" ==> TailCached() && Nodes != []
      modifies Repr, newNode
      ensures Valid() && Repr == old(Repr) + {newNode}
      ensures length == old(length) + 1
      ensures old(length) == 0 ==> Nodes == [newNode] && head == newNode && tail == newNode
      ensures old(length) != 0 && direction == "tail" ==>
        Nodes == old(Nodes) + [newNode] && tail == newNode
      ensures old(length) != 0 && direction != "tail" ==>
        Nodes == [newNode] + old(Nodes) && tail == old(tail)
    {
      ghost var nodes := Nodes;
      if length == 0 {
        head := newNode;
        tail := newNode;
        Nodes := [newNode];
      } else if direction == "tail" {
        DistinctConcat(nodes, [newNode]);
        var tailNode := tail;
        tailNode.next, tail := newNode, newNode;
        Nodes := nodes + [newNode];
        forall j {:trigger Nodes[j].next} | 0 <= j < |Nodes|
          ensures Nodes[j].next == if j + 1 < |Nodes| then Nodes[j + 1] else null
        {
          if j + 1 < |nodes| {
            DistinctAt(nodes, j, |nodes| - 1);
          }
        }
      } else {
        DistinctConcat([newNode], nodes);
        var headNode := head;
        newNode.next, head := headNode, newNode;
        Nodes := [newNode] + nodes;
      }
      length := length + 1;
      Repr := Repr + {newNode};
    }

    /** `tail_append_node`: when the counter is 0 the value replaces the
        chain, whatever the cached tail; otherwise the cached tail must be
        the last node, and the value goes behind it. Either way the tail is
        cached afterwards. */
    method TailAppendNode(value: T)
      requires Valid() && (length != 0 ==> TailCached() && Nodes != [])
      modifies Repr
      ensures Valid() && fresh(Repr - old(Repr)) && TailCached()
      ensures length == old(length) + 1
      ensures old(length) != 0 ==>
        S.Values(Nodes) == S.Values(old(Nodes)) + [value] &&
        Nodes[..|old(Nodes)|] == old(Nodes) && fresh(Nodes[|old(Nodes)|])
      ensures old(length) == 0 ==> S.Values(Nodes) == [value] && fresh(Nodes[0])
      ensures old(Counted()) ==> Counted() && S.Values(Nodes) == S.Values(old(Nodes)) + [value]
    {
      var newNode := new S.OneWayLinkedListNode(value);
      ghost var nodes := Nodes;
      AppendNode(newNode, "tail");
      S.ValuesConcat(nodes, [newNode]);
    }

    /** `head_append_node`: the value goes in front; when the counter is 0
        the chain is replaced by the one new node. */
    method HeadAppendNode(value: T)
      requires Valid()
      modifies Repr
      ensures Valid() && fresh(Repr - old(Repr))
      ensures length == old(length) + 1
      ensures old(length) != 0 ==>
        S.Values(Nodes) == [value] + S.Values(old(Nodes)) && Nodes[1..] == old(Nodes)
      ensures old(length) == 0 ==> S.Values(Nodes) == [value] && TailCached()
      ensures fresh(Nodes[0])
      ensures old(length) != 0 && old(Nodes) != [] && old(TailCached()) ==> TailCached()
      ensures old(Counted()) ==> Counted() && S.Values(Nodes) == [value] + S.Values(old(Nodes))
    {
      var newNode := new S.OneWayLinkedListNode(value);
      ghost var nodes := Nodes;
      AppendNode(newNode, "head");
      S.ValuesConcat([newNode], nodes);
    }

    /** `find_node`: the first node holding `value`, or null. */
    method FindNode(value: T) returns (node: S.OneWayLinkedListNode?<T>)
      requires Valid()
      ensures node == null <==> value !in S.Values(Nodes)
      ensures node != null ==> node == Nodes[FirstIndex(S.Values(Nodes), value)]
    {
      var currentNode := head;
      ghost var i := 0;
      while currentNode != null
        invariant 0 <= i <= |Nodes|
        invariant currentNode == if i < |Nodes| then Nodes[i] else null
        invariant value !in S.Values(Nodes)[..i]
        decreases |Nodes| - i
      {
        if currentNode.value == value {
          FirstIndexAt(S.Values(Nodes), value, i);
          return currentNode;
        }
        currentNode := currentNode.next;
        i := i + 1;
      }
      assert S.Values(Nodes)[..i] == S.Values(Nodes);
      return null;
    }

    /** `remove_node`: unlinks the first node holding `value` and returns
        it with its link cleared, or returns None, changing nothing, when
        there is none. The counter goes down by one; the cached tail is
        left as it was, even when the removed node was the tail. */
    method RemoveNode(value: T) returns (r: Option<S.OneWayLinkedListNode<T>>)
      requires Valid()
      modifies Repr
      ensures Valid() && Repr == old(Repr) && tail == old(tail)
      ensures r.None? <==> value !in S.Values(old(Nodes))
      ensures r.None? ==> Nodes == old(Nodes) && length == old(length)
      ensures r.Some? ==>
        r.value == old(Nodes)[FirstIndex(S.Values(old(Nodes)), value)] && r.value.next == null &&
        Nodes == RemoveAt(old(Nodes), FirstIndex(S.Values(old(Nodes)), value)) &&
        S.Values(Nodes) == RemoveFirst(S.Values(old(Nodes)), value) &&
        length == old(length) - 1
    {
      var currentNode, previousNode: S.OneWayLinkedListNode?<T> := head, null;
      ghost var i := 0;
      while currentNode != null
        invariant 0 <= i <= |Nodes|
        invariant currentNode == if i < |Nodes| then Nodes[i] else null
        invariant previousNode == if i == 0 then null else Nodes[i - 1]
        invariant value !in S.Values(Nodes)[..i]
        decreases |Nodes| - i
      {
        if currentNode.value == value {
          break;
        }
        previousNode, currentNode := currentNode, currentNode.next;
        i := i + 1;
      }
      if currentNode == null {
        assert S.Values(Nodes)[..i] == S.Values(Nodes);
        return None;
      }
      assert S.Values(Nodes)[i] == value;
      FirstIndexAt(S.Values(Nodes), value, i);
      S.ValuesRemoveAt(Nodes, i);
      Unlink(previousNode, currentNode, i);
      return Some(currentNode);
    }

    /** The unlink step of `remove_node`: `node`, at position `k`, is
        bypassed by its predecessor (or by `head`) and loses its own link;
        the counter goes down by one. */
    method Unlink(previousNode: S.OneWayLinkedListNode?<T>, node: S.OneWayLinkedListNode<T>, ghost k: nat)
      requires Valid() && k < |Nodes| && node == Nodes[k]
      requires previousNode == if k == 0 then null else Nodes[k - 1]
      modifies Repr
      ensures Valid() && Repr == old(Repr) && tail == old(tail)
      ensures Nodes == RemoveAt(old(Nodes), k) && node.next == null
      ensures length == old(length) - 1
    {
      ghost var nodes := Nodes;
      DistinctRemoveAt(nodes, k);
      if previousNode == null {
        head, node.next := node.next, null;
      } else {
        previousNode.next, node.next := node.next, null;
      }
      length := length - 1;
      Nodes := RemoveAt(nodes, k);
      forall j {:trigger Nodes[j].next} | 0 <= j < |Nodes|
        ensures Nodes[j].next == if j + 1 < |Nodes| then Nodes[j + 1] else null
      {
        var j' := if j < k then j else j + 1;
        DistinctAt(nodes, j', k);
        if k > 0 && j' != k - 1 {
          DistinctAt(nodes, j', k - 1);
        }
      }
    }

    /** `head_remove`: removes the first node holding the head's value,
        which is the head itself. The source dereferences the head, so the
        list must not be empty. */
    method HeadRemove() returns (r: Option<S.OneWayLinkedListNode<T>>)
      requires Valid() && Nodes != []
      modifies Repr
      ensures Valid() && Repr == old(Repr) && tail == old(tail)
      ensures r == Some(old(Nodes)[0]) && r.value.next == null
      ensures Nodes == old(Nodes)[1..] && S.Values(Nodes) == S.Values(old(Nodes))[1..]
      ensures length == old(length) - 1
    {
      assert S.Values(Nodes)[0] == head.value;
      FirstIndexOfHead(S.Values(Nodes));
      S.ValuesSlice(Nodes, 1, |Nodes|);
      r := RemoveNode(head.value);
    }

    /** `tail_remove`: removes the first node holding the cached tail's
        value, which is the last node only when that value occurs nowhere
        earlier. The source dereferences the cached tail, so it must be set. */
    method TailRemove() returns (r: Option<S.OneWayLinkedListNode<T>>)
      requires Valid() && tail != null
      modifies Repr
      ensures Valid() && Repr == old(Repr) && tail == old(tail)
      ensures r.None? <==> old(tail.value) !in S.Values(old(Nodes))
      ensures r.None? ==> Nodes == old(Nodes)
      ensures r.Some? ==>
        r.value == old(Nodes)[FirstIndex(S.Values(old(Nodes)), old(tail.value))] &&
        r.value.value == old(tail.value) && r.value.next == null &&
        Nodes == RemoveAt(old(Nodes), FirstIndex(S.Values(old(Nodes)), old(tail.value))) &&
        S.Values(Nodes) == RemoveFirst(S.Values(old(Nodes)), old(tail.value))
      ensures (old(TailCached()) && r.Some? &&
               FirstIndex(S.Values(old(Nodes)), old(tail.value)) == |old(Nodes)| - 1) ==>
        r == Some(old(Nodes)[|old(Nodes)| - 1]) && Nodes == old(Nodes)[..|old(Nodes)| - 1]
    {
      r := RemoveNode(tail.value);
    }

    /** `clear`: clears every node's link, then resets head, tail and the
        counter. */
    method Clear()
      requires Valid()
      modifies Repr
      ensures Valid() && TailCached() && Counted() && Repr == old(Repr)
      ensures Nodes == [] && head == null && tail == null && length == 0
      ensures forall j :: 0 <= j < |old(Nodes)| ==> old(Nodes)[j].next == null
    {
      ghost var nodes := Nodes;
      var current := head;
      ghost var i := 0;
      while current != null
        invariant unchanged(this)
        invariant 0 <= i <= |nodes|
        invariant current == if i < |nodes| then nodes[i] else null
        invariant forall j :: 0 <= j < i ==> nodes[j].next == null
        invariant forall j {:trigger nodes[j].next} :: i <= j < |nodes| ==>
          nodes[j].next == if j + 1 < |nodes| then nodes[j + 1] else null
        decreases |nodes| - i
      {
        var nextNode := current.next;
        forall j | i < j < |nodes| ensures nodes[j] != nodes[i] {
          DistinctAt(nodes, j, i);
        }
        current.next, current := null, nextNode;
        i := i + 1;
      }
      head := null;
      tail := null;
      length := 0;
      Nodes := [];
    }
  }
}
