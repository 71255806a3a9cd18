/** The singly linked list of linked_list/singly.py: a chain of nodes from
    `head` through `next` links ending in null, a length counter, and a tail
    that is found by scanning. */
module Singly {
  import opened LinkedSeq

  /** A chain element: a value and the link to its successor. */
  class OneWayLinkedListNode<T> {
    const value: T
    var next: OneWayLinkedListNode?<T>

    constructor (value: T)
      ensures this.value == value && next == null
    {
      this.value := value;
      next := null;
    }
  }

  /** The values held by `nodes`, in order. Each module has its own node
      class, as the source does, so each states this for its own nodes. */
  ghost function Values<T>(nodes: seq<OneWayLinkedListNode<T>>): (r: seq<T>)
    ensures |r| == |nodes|
    ensures forall i {:trigger r[i]} :: 0 <= i < |nodes| ==> r[i] == nodes[i].value
  {
    if nodes == [] then [] else [nodes[0].value] + Values(nodes[1..])
  }

  lemma ValuesConcat<T>(a: seq<OneWayLinkedListNode<T>>, b: seq<OneWayLinkedListNode<T>>)
    ensures Values(a + b) == Values(a) + Values(b)
  {
  }

  lemma ValuesInsertAfter<T>(s: seq<OneWayLinkedListNode<T>>, k: nat, x: OneWayLinkedListNode<T>)
    requires k < |s|
    ensures Values(InsertAfter(s, k, x)) == InsertAfter(Values(s), k, x.value)
  {
  }

  lemma ValuesRemoveAt<T>(s: seq<OneWayLinkedListNode<T>>, k: nat)
    requires k < |s|
    ensures Values(RemoveAt(s, k)) == RemoveAt(Values(s), k)
  {
  }

  lemma ValuesSlice<T>(s: seq<OneWayLinkedListNode<T>>, lo: nat, hi: nat)
    requires lo <= hi <= |s|
    ensures Values(s[lo..hi]) == Values(s)[lo..hi]
  {
  }

  class OneWayLinkedList<T(==)> {
    var head: OneWayLinkedListNode?<T>
    var length: int
    /** The iteration cursor `_current`. */
    var current: OneWayLinkedListNode?<T>
    /** Whether the attribute `_current` exists: `__iter__` creates it, and
        `__next__` deletes it when it raises StopIteration. */
    var hasCurrent: bool

    /** The nodes of the chain, head first. */
    ghost var Nodes: seq<OneWayLinkedListNode<T>>
    ghost var Repr: set<object>
    /** How many values the current iteration has produced. */
    ghost var cursor: nat

    /** The chain from `head` visits exactly `Nodes`, each node once, and
        stops at null; `length` counts it. */
    ghost predicate Valid()
      reads this, Repr
      ensures Valid() ==> this in Repr
    {
      this in Repr &&
      length == |Nodes| &&
      (forall i :: 0 <= i < |Nodes| ==> Nodes[i] in Repr) &&
      (forall i {:trigger Nodes[i].next} :: 0 <= i < |Nodes| ==>
        Nodes[i].next == if i + 1 < |Nodes| then Nodes[i + 1] else null) &&
      head == (if |Nodes| == 0 then null else Nodes[0]) &&
      Distinct(Nodes)
    }

    /** The list is valid, and while `_current` exists it is the next node
        of the iteration under way. */
    ghost predicate Iterating()
      reads this, Repr
    {
      Valid() &&
      (hasCurrent ==>
        cursor <= |Nodes| && current == if cursor < |Nodes| then Nodes[cursor] else null)
    }

    /** Builds the list by appending the values of `iterable` at the tail. */
    constructor (iterable: seq<T>)
      ensures Valid() && fresh(Repr)
      ensures Values(Nodes) == iterable
      ensures !hasCurrent
    {
      head, length, current, hasCurrent := null, 0, null, false;
      Nodes, Repr, cursor := [], {this}, 0;
      new;
      MakeupLinkedList(iterable);
      hasCurrent := false;
    }

    /** `_makeup_linkedlist`: tail-appends a fresh node per value. */
    method MakeupLinkedList(iterable: seq<T>)
      requires Valid()
      modifies Repr
      ensures Valid() && fresh(Repr - old(Repr))
      ensures Values(Nodes) == Values(old(Nodes)) + iterable
    {
      for k := 0 to |iterable|
        invariant Valid() && fresh(Repr - old(Repr))
        invariant Values(Nodes) == Values(old(Nodes)) + iterable[..k]
      {
        var newNode := new OneWayLinkedListNode(iterable[k]);
        var outcome := AppendNode(newNode, "tail");
        assert iterable[..k + 1] == iterable[..k] + [iterable[k]];
      }
      assert iterable[..|iterable|] == iterable;
    }

    /** `__len__`. */
    function Length(): (n: int)
      reads this, Repr
      requires Valid()
      ensures n == |Values(Nodes)|
    {
      length
    }

    /** `_get_tail_node`: scans the whole chain and keeps the node whose
        successor is null. */
    method GetTailNode() returns (tailNode: OneWayLinkedListNode?<T>)
      requires Valid()
      ensures tailNode == if |Nodes| == 0 then null else Nodes[|Nodes| - 1]
      ensures tailNode != null ==> tailNode.next == null
    {
      var currentNode := head;
      tailNode := null;
      ghost var i := 0;
      while currentNode != null
        invariant 0 <= i <= |Nodes|
        invariant currentNode == if i < |Nodes| then Nodes[i] else null
        invariant tailNode == if 0 < i == |Nodes| then Nodes[i - 1] else null
        decreases |Nodes| - i
      {
        if currentNode.next == null {
          tailNode := currentNode;
        }
        currentNode := currentNode.next;
        i := i + 1;
      }
    }

    /** `_append`: links `newNode` in at the tail or the head; any other
        direction raises ValueError and changes nothing. */
    method AppendNode(newNode: OneWayLinkedListNode<T>, direction: string) returns (r: Outcome)
      requires Valid()
      requires newNode !in Repr && newNode.next == null
      modifies Repr, newNode
      ensures Valid()
      ensures r == if direction == "tail" || direction == "head" then Pass else Fail(ValueError)
      ensures r.Fail? ==> Nodes == old(Nodes) && Repr == old(Repr)
      ensures r.Pass? && direction == "tail" ==>
        Nodes == old(Nodes) + [newNode] && Values(Nodes) == Values(old(Nodes)) + [newNode.value]
      ensures r.Pass? && direction == "head" ==>
        Nodes == [newNode] + old(Nodes) && Values(Nodes) == [newNode.value] + Values(old(Nodes))
      ensures r.Pass? ==> Repr == old(Repr) + {newNode}
    {
      if direction != "tail" && direction != "head" {
        return Fail(ValueError);
      }
      DistinctConcat(Nodes, [newNode]);
      DistinctConcat([newNode], Nodes);
      ValuesConcat(Nodes, [newNode]);
      ValuesConcat([newNode], Nodes);
      if head == null {
        head := newNode;
        Nodes := [newNode];
      } else if direction == "tail" {
        ghost var nodes := Nodes;
        var tailNode := GetTailNode();
        tailNode.next := newNode;
        Nodes := nodes + [newNode];
        forall j {:trigger Nodes[j].next} | 0 <= j < |Nodes|
          ensures Nodes[j].next == if j + 1 < |Nodes| then Nodes[j + 1] else null
        {
          if j + 1 < |nodes| {
            DistinctAt(nodes, j, |nodes| - 1);
          }
        }
      } else {
        var oldHeadNode := head;
        head := newNode;
        head.next := oldHeadNode;
        Nodes := [newNode] + Nodes;
      }
      length := length + 1;
      Repr := Repr + {newNode};
      r := Pass;
    }

    /** `insert`: puts `after` right behind the first node holding `before`;
        raises IndexError, changing nothing, when there is none. */
    method Insert(before: T, after: T) returns (r: Outcome)
      requires Valid()
      modifies Repr
      ensures Valid() && fresh(Repr - old(Repr))
      ensures r == if before in Values(old(Nodes)) then Pass else Fail(IndexError)
      ensures r.Fail? ==> Nodes == old(Nodes)
      ensures r.Pass? ==> Values(Nodes) == InsertAfterFirst(Values(old(Nodes)), before, after)
      ensures r.Pass? ==> exists n: OneWayLinkedListNode<T> :: (fresh(n) &&
        Nodes == InsertAfter(old(Nodes), FirstIndex(Values(old(Nodes)), before), n))
    {
      var newNode := new OneWayLinkedListNode(after);
      var currentNode := head;
      ghost var i := 0;
      while currentNode != null
        invariant 0 <= i <= |Nodes|
        invariant currentNode == if i < |Nodes| then Nodes[i] else null
        invariant before !in Values(Nodes)[..i]
        decreases |Nodes| - i
      {
        if currentNode.value == before {
          break;
        }
        currentNode := currentNode.next;
        i := i + 1;
      }
      if currentNode == null {
        assert Values(Nodes)[..i] == Values(Nodes);
        return Fail(IndexError);
      }
      FirstIndexAt(Values(Nodes), before, i);
      ValuesInsertAfter(Nodes, i, newNode);
      LinkAfter(currentNode, i, newNode);
      return Pass;
    }

    /** The splice step of `insert`: links `newNode` in behind `node`, the
        node at position `k`. */
    method LinkAfter(node: OneWayLinkedListNode<T>, ghost k: nat, newNode: OneWayLinkedListNode<T>)
      requires Valid() && k < |Nodes| && node == Nodes[k]
      requires newNode !in Repr && newNode.next == null
      modifies Repr, newNode
      ensures Valid() && Repr == old(Repr) + {newNode}
      ensures Nodes == InsertAfter(old(Nodes), k, newNode)
    {
      ghost var nodes := Nodes;
      DistinctInsertAfter(nodes, k, newNode);
      newNode.next, node.next := node.next, newNode;
      length := length + 1;
      Nodes := InsertAfter(nodes, k, newNode);
      Repr := Repr + {newNode};
      forall j {:trigger Nodes[j].next} | 0 <= j < |Nodes|
        ensures Nodes[j].next == if j + 1 < |Nodes| then Nodes[j + 1] else null
      {
        if j < k {
          DistinctAt(nodes, j, k);
        } else if j > k + 1 {
          DistinctAt(nodes, j - 1, k);
        }
      }
    }

    /** `append`. */
    method Append(value: T)
      requires Valid()
      modifies Repr
      ensures Valid() && fresh(Repr - old(Repr))
      ensures Values(Nodes) == Values(old(Nodes)) + [value]
      ensures Nodes[..|old(Nodes)|] == old(Nodes)
    {
      var newNode := new OneWayLinkedListNode(value);
      var outcome := AppendNode(newNode, "tail");
    }

    /** `appendleft`. */
    method AppendLeft(value: T)
      requires Valid()
      modifies Repr
      ensures Valid() && fresh(Repr - old(Repr))
      ensures Values(Nodes) == [value] + Values(old(Nodes))
      ensures Nodes[1..] == old(Nodes)
    {
      var newNode := new OneWayLinkedListNode(value);
      var outcome := AppendNode(newNode, "head");
    }

    /** `find`: the first node holding `value`, or null. */
    method Find(value: T) returns (node: OneWayLinkedListNode?<T>)
      requires Valid()
      ensures node == null <==> value !in Values(Nodes)
      ensures node != null ==> node == Nodes[FirstIndex(Values(Nodes), value)]
    {
      var currentNode := head;
      ghost var i := 0;
      while currentNode != null
        invariant 0 <= i <= |Nodes|
        invariant currentNode == if i < |Nodes| then Nodes[i] else null
        invariant value !in Values(Nodes)[..i]
        decreases |Nodes| - i
      {
        if currentNode.value == value {
          FirstIndexAt(Values(Nodes), value, i);
          return currentNode;
        }
        currentNode := currentNode.next;
        i := i + 1;
      }
      assert Values(Nodes)[..i] == Values(Nodes);
      return null;
    }

    /** `_remove`: unlinks the first node holding `value` and returns it
        with its link cleared; raises IndexError, changing nothing, when
        there is none. */
    method RemoveNode(value: T) returns (r: Result<OneWayLinkedListNode<T>>)
      requires Valid()
      modifies Repr
      ensures Valid() && Repr == old(Repr)
      ensures r.Err? <==> value !in Values(old(Nodes))
      ensures r.Err? ==> r.error == IndexError && Nodes == old(Nodes)
      ensures r.Ok? ==>
        r.value == old(Nodes)[FirstIndex(Values(old(Nodes)), value)] && r.value.next == null &&
        Nodes == RemoveAt(old(Nodes), FirstIndex(Values(old(Nodes)), value)) &&
        Values(Nodes) == RemoveFirst(Values(old(Nodes)), value)
    {
      var currentNode, previousNode: OneWayLinkedListNode?<T> := head, null;
      ghost var i := 0;
      while currentNode != null
        invariant 0 <= i <= |Nodes|
        invariant currentNode == if i < |Nodes| then Nodes[i] else null
        invariant previousNode == if i == 0 then null else Nodes[i - 1]
        invariant value !in Values(Nodes)[..i]
        decreases |Nodes| - i
      {
        if currentNode.value == value {
          break;
        }
        previousNode, currentNode := currentNode, currentNode.next;
        i := i + 1;
      }
      if currentNode == null {
        assert Values(Nodes)[..i] == Values(Nodes);
        return Err(IndexError);
      }
      FirstIndexAt(Values(Nodes), value, i);
      ValuesRemoveAt(Nodes, i);
      Unlink(previousNode, currentNode, i);
      return Ok(currentNode);
    }

    /** The unlink step of `_remove`: `node`, at position `k`, is bypassed
        by its predecessor (or by `head`) and loses its own link. */
    method Unlink(previousNode: OneWayLinkedListNode?<T>, node: OneWayLinkedListNode<T>, ghost k: nat)
      requires Valid() && k < |Nodes| && node == Nodes[k]
      requires previousNode == if k == 0 then null else Nodes[k - 1]
      modifies Repr
      ensures Valid() && Repr == old(Repr)
      ensures Nodes == RemoveAt(old(Nodes), k) && node.next == null
    {
      ghost var nodes := Nodes;
      DistinctRemoveAt(nodes, k);
      if previousNode == null {
        head, node.next := node.next, null;
      } else {
        previousNode.next, node.next := node.next, null;
      }
      length := length - 1;
      Nodes := RemoveAt(nodes, k);
      forall j {:trigger Nodes[j].next} | 0 <= j < |Nodes|
        ensures Nodes[j].next == if j + 1 < |Nodes| then Nodes[j + 1] else null
      {
        var j' := if j < k then j else j + 1;
        DistinctAt(nodes, j', k);
        if k > 0 && j' != k - 1 {
          DistinctAt(nodes, j', k - 1);
        }
      }
    }

    /** `remove`. */
    method Remove(value: T) returns (r: Outcome)
      requires Valid()
      modifies Repr
      ensures Valid() && Repr == old(Repr)
      ensures r == if value in Values(old(Nodes)) then Pass else Fail(IndexError)
      ensures r.Pass? ==>
        Nodes == RemoveAt(old(Nodes), FirstIndex(Values(old(Nodes)), value)) &&
        Values(Nodes) == RemoveFirst(Values(old(Nodes)), value)
      ensures r.Fail? ==> Nodes == old(Nodes)
    {
      var removed := RemoveNode(value);
      r := if removed.Ok? then Pass else Fail(removed.error);
    }

    /** `_pop`: detaches the head or the tail node and returns it; an
        unknown direction raises ValueError and an empty list IndexError. */
    method PopNode(direction: string) returns (r: Result<OneWayLinkedListNode<T>>)
      requires Valid()
      requires direction == "tail" ==> |Nodes| != 1
      modifies Repr
      ensures Valid() && Repr == old(Repr)
      ensures direction != "head" && direction != "tail" ==> r == Err(ValueError)
      ensures (direction == "head" || direction == "tail") && old(Nodes) == [] ==> r == Err(IndexError)
      ensures r.Err? ==> Nodes == old(Nodes)
      ensures direction == "head" && old(Nodes) != [] ==>
        r == Ok(old(Nodes)[0]) && r.value.next == null &&
        Nodes == old(Nodes)[1..] && Values(Nodes) == Values(old(Nodes))[1..]
      ensures direction == "tail" && old(Nodes) != [] ==>
        r == Ok(old(Nodes)[|old(Nodes)| - 1]) && r.value.next == null &&
        Nodes == old(Nodes)[..|old(Nodes)| - 1] &&
        Values(Nodes) == Values(old(Nodes))[..|old(Nodes)| - 1]
    {
      if direction != "head" && direction != "tail" {
        return Err(ValueError);
      }
      if head == null {
        return Err(IndexError);
      }
      var currentNode := head;
      if direction == "head" {
        ghost var nodes := Nodes;
        ValuesSlice(nodes, 1, |nodes|);
        DistinctSlice(nodes, 1, |nodes|);
        head, currentNode.next := head.next, null;
        Nodes := nodes[1..];
        forall j {:trigger Nodes[j].next} | 0 <= j < |Nodes|
          ensures Nodes[j].next == if j + 1 < |Nodes| then Nodes[j + 1] else null
        {
          DistinctAt(nodes, j + 1, 0);
        }
      } else {
        var previousNode: OneWayLinkedListNode?<T> := null;
        ghost var i := 0;
        while currentNode != null
          invariant 0 <= i < |Nodes| && currentNode == Nodes[i]
          invariant previousNode == if i == 0 then null else Nodes[i - 1]
          decreases |Nodes| - i
        {
          if currentNode.next == null {
            break;
          }
          previousNode := currentNode;
          currentNode := currentNode.next;
          i := i + 1;
        }
        // The break above leaves `currentNode` at the tail, Nodes[i].
        ghost var nodes := Nodes;
        ValuesSlice(nodes, 0, i);
        DistinctSlice(nodes, 0, i);
        previousNode.next := null;
        Nodes := nodes[..i];
        forall j {:trigger Nodes[j].next} | 0 <= j < |Nodes|
          ensures Nodes[j].next == if j + 1 < |Nodes| then Nodes[j + 1] else null
        {
          if j < i - 1 {
            DistinctAt(nodes, j, i - 1);
          }
        }
      }
      length := length - 1;
      return Ok(currentNode);
    }

    /** `popleft`. */
    method PopLeft() returns (r: Result<OneWayLinkedListNode<T>>)
      requires Valid()
      modifies Repr
      ensures Valid() && Repr == old(Repr)
      ensures r.Err? <==> Values(old(Nodes)) == []
      ensures r.Err? ==> r.error == IndexError && Nodes == old(Nodes)
      ensures r.Ok? ==> r.value == old(Nodes)[0] && r.value.value == Values(old(Nodes))[0] &&
                        Nodes == old(Nodes)[1..] && Values(Nodes) == Values(old(Nodes))[1..]
    {
      r := PopNode("head");
    }

    /** `pop`; on a one-element list the source dereferences a missing
        predecessor, so that case is excluded. */
    method Pop() returns (r: Result<OneWayLinkedListNode<T>>)
      requires Valid()
      requires |Values(Nodes)| != 1
      modifies Repr
      ensures Valid() && Repr == old(Repr)
      ensures r.Err? <==> Values(old(Nodes)) == []
      ensures r.Err? ==> r.error == IndexError && Nodes == old(Nodes)
      ensures r.Ok? ==>
        r.value == old(Nodes)[|old(Nodes)| - 1] &&
        r.value.value == Values(old(Nodes))[|Values(old(Nodes))| - 1] &&
        Nodes == old(Nodes)[..|old(Nodes)| - 1] &&
        Values(Nodes) == Values(old(Nodes))[..|Values(old(Nodes))| - 1]
    {
      r := PopNode("tail");
    }

    /** `clear`: clears every node's link, then resets to the empty list. */
    method Clear()
      requires Valid()
      modifies Repr
      ensures Valid() && Repr == old(Repr)
      ensures Values(Nodes) == [] && Nodes == [] && head == null && length == 0
      ensures forall j :: 0 <= j < |old(Nodes)| ==> old(Nodes)[j].next == null
    {
      ghost var nodes := Nodes;
      var current := head;
      ghost var i := 0;
      while current != null
        invariant unchanged(this)
        invariant 0 <= i <= |nodes|
        invariant current == if i < |nodes| then nodes[i] else null
        invariant forall j :: 0 <= j < i ==> nodes[j].next == null
        invariant forall j {:trigger nodes[j].next} :: i <= j < |nodes| ==>
          nodes[j].next == if j + 1 < |nodes| then nodes[j + 1] else null
        decreases |nodes| - i
      {
        var nextNode := current.next;
        forall j | i < j < |nodes| ensures nodes[j] != nodes[i] {
          DistinctAt(nodes, j, i);
        }
        current.next, current := null, nextNode;
        i := i + 1;
      }
      head := null;
      length := 0;
      Nodes := [];
    }

    /** A list with fresh nodes carrying the same values: the effect of
        `copy.deepcopy` on a list. */
    method DeepCopy() returns (c: OneWayLinkedList<T>)
      requires Valid()
      ensures fresh(c) && fresh(c.Repr) && c.Valid()
      ensures Values(c.Nodes) == Values(Nodes)
    {
      c := new OneWayLinkedList([]);
      var currentNode := head;
      ghost var i := 0;
      while currentNode != null
        invariant 0 <= i <= |Nodes|
        invariant currentNode == if i < |Nodes| then Nodes[i] else null
        invariant fresh(c) && fresh(c.Repr) && c.Valid()
        invariant Values(c.Nodes) == Values(Nodes)[..i]
        decreases |Nodes| - i
      {
        c.Append(currentNode.value);
        assert Values(Nodes)[..i + 1] == Values(Nodes)[..i] + [Values(Nodes)[i]];
        currentNode := currentNode.next;
        i := i + 1;
      }
      assert Values(Nodes)[..i] == Values(Nodes);
    }

    /** `extend`: splices a copy of `other` behind the tail; a missing or
        empty `other` raises TypeError. On an empty receiver the length is
        set from the copy (see ExtendIntoEmptyAsWritten). */
    method Extend(other: OneWayLinkedList?<T>) returns (r: Outcome)
      requires Valid()
      requires other != null ==> other.Valid()
      requires other != null && other != this ==> other.Repr !! Repr
      modifies Repr
      ensures Valid() && fresh(Repr - old(Repr))
      ensures r.Fail? <==> other == null || Values(old(other.Nodes)) == []
      ensures r.Fail? ==> r.error == TypeError && Nodes == old(Nodes)
      ensures r.Pass? ==> Values(Nodes) == Values(old(Nodes)) + Values(old(other.Nodes)) &&
                          Nodes[..|old(Nodes)|] == old(Nodes)
      ensures other != null && other != this ==>
        other.Valid() && Values(other.Nodes) == Values(old(other.Nodes)) && unchanged(other.Repr)
    {
      if other == null || other.head == null {
        return Fail(TypeError);
      }
      var linkedListCopy := other.DeepCopy();
      if head == null {
        head := linkedListCopy.head;
        length := linkedListCopy.length;
        Nodes := linkedListCopy.Nodes;
        Repr := Repr + linkedListCopy.Repr;
        return Pass;
      }
      ValuesConcat(Nodes, linkedListCopy.Nodes);
      LinkAtTail(linkedListCopy);
      return Pass;
    }

    /** `extendleft`: splices a copy of `other` in front of the head; a
        missing or empty `other` raises TypeError. */
    method ExtendLeft(other: OneWayLinkedList?<T>) returns (r: Outcome)
      requires Valid()
      requires other != null ==> other.Valid()
      requires other != null && other != this ==> other.Repr !! Repr
      modifies Repr
      ensures Valid() && fresh(Repr - old(Repr))
      ensures r.Fail? <==> other == null || Values(old(other.Nodes)) == []
      ensures r.Fail? ==> r.error == TypeError && Nodes == old(Nodes)
      ensures r.Pass? ==> Values(Nodes) == Values(old(other.Nodes)) + Values(old(Nodes)) &&
                          Nodes[|Nodes| - |old(Nodes)|..] == old(Nodes)
      ensures other != null && other != this ==>
        other.Valid() && Values(other.Nodes) == Values(old(other.Nodes)) && unchanged(other.Repr)
    {
      if other == null || other.head == null {
        return Fail(TypeError);
      }
      var linkedListCopy := other.DeepCopy();
      if head == null {
        head := linkedListCopy.head;
        length := linkedListCopy.length;
        Nodes := linkedListCopy.Nodes;
        Repr := Repr + linkedListCopy.Repr;
        return Pass;
      }
      ValuesConcat(linkedListCopy.Nodes, Nodes);
      LinkAtHead(linkedListCopy);
      return Pass;
    }

    /** The splice step of `extend`: the tail node of this list is linked
        to the head of `chain`, whose nodes join this list. */
    method LinkAtTail(chain: OneWayLinkedList<T>)
      requires Valid() && chain.Valid() && Nodes != [] && chain.Nodes != []
      requires chain.Repr !! Repr
      modifies Repr
      ensures Valid() && Repr == old(Repr) + old(chain.Repr)
      ensures Nodes == old(Nodes) + old(chain.Nodes)
    {
      ghost var a, b := Nodes, chain.Nodes;
      DistinctConcat(a, b);
      var tailNode := GetTailNode();
      tailNode.next := chain.head;
      length := length + chain.length;
      Nodes := a + b;
      Repr := Repr + chain.Repr;
      forall j {:trigger Nodes[j].next} | 0 <= j < |Nodes|
        ensures Nodes[j].next == if j + 1 < |Nodes| then Nodes[j + 1] else null
      {
        if j + 1 < |a| {
          DistinctAt(a, j, |a| - 1);
        } else if j >= |a| {
          assert Nodes[j] == b[j - |a|] != tailNode;
        }
      }
    }

    /** The splice step of `extendleft`: the tail node of `chain` is linked
        to the head of this list, and `chain`'s head becomes the head. */
    method LinkAtHead(chain: OneWayLinkedList<T>)
      requires Valid() && chain.Valid() && Nodes != [] && chain.Nodes != []
      requires chain.Repr !! Repr
      modifies Repr, chain.Repr
      ensures Valid() && Repr == old(Repr) + old(chain.Repr)
      ensures Nodes == old(chain.Nodes) + old(Nodes)
    {
      ghost var a, b := chain.Nodes, Nodes;
      DistinctConcat(a, b);
      var tailNode := chain.GetTailNode();
      tailNode.next, head := head, chain.head;
      length := length + chain.length;
      Nodes := a + b;
      Repr := Repr + chain.Repr;
      forall j {:trigger Nodes[j].next} | 0 <= j < |Nodes|
        ensures Nodes[j].next == if j + 1 < |Nodes| then Nodes[j + 1] else null
      {
        if j + 1 < |a| {
          DistinctAt(a, j, |a| - 1);
        } else if j >= |a| {
          assert Nodes[j] == b[j - |a|] != tailNode;
        }
      }
    }

    /** The empty-receiver branch of `extend` and `extendleft` as the source
        writes it: the copied chain becomes the list but `_length` stays 0,
        so `len()` disagrees with what iteration yields. */
    method ExtendIntoEmptyAsWritten(other: OneWayLinkedList<T>)
      requires Valid() && Nodes == []
      requires other.Valid() && other.Nodes != []
      modifies this
      ensures head != null && length == 0
      ensures Values(Nodes) == Values(old(other.Nodes)) && |Nodes| > length
      ensures !Valid()
    {
      var linkedListCopy := other.DeepCopy();
      head := linkedListCopy.head;
      Nodes := linkedListCopy.Nodes;
      Repr := Repr + linkedListCopy.Repr;
    }

    /** `__iter__`: starts an iteration at the head. */
    method Iter()
      requires Valid()
      modifies this`current, this`hasCurrent, this`cursor
      ensures Iterating() && hasCurrent && cursor == 0
    {
      current, hasCurrent := head, true;
      cursor := 0;
    }

    /** `__next__`: the next value; at the end it deletes `_current` and
        raises StopIteration (`Ok(None)`), so a further call, like a call
        before any `__iter__`, raises AttributeError. */
    method Next() returns (r: Result<Option<T>>)
      requires Iterating()
      modifies this`current, this`hasCurrent, this`cursor
      ensures Iterating()
      ensures !old(hasCurrent) ==> r == Err(AttributeError) && !hasCurrent
      ensures old(hasCurrent) && old(cursor) < |Values(Nodes)| ==>
        r == Ok(Some(Values(Nodes)[old(cursor)])) && hasCurrent && cursor == old(cursor) + 1
      ensures old(hasCurrent) && old(cursor) == |Values(Nodes)| ==>
        r == Ok(None) && !hasCurrent
    {
      if !hasCurrent {
        return Err(AttributeError);
      }
      if current == null {
        hasCurrent := false;
        return Ok(None);
      }
      r := Ok(Some(current.value));
      current := current.next;
      cursor := cursor + 1;
    }
  }
}
