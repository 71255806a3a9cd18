/** The circular singly linked list of linked_list/circulate.py: a ring of
    nodes entered at `head`, whose last node links back to `head`, with a
    length counter and no tail field. */
module Circulate {
  import opened LinkedSeq

  /** A ring element: a value and the link to its successor. */
  class CirculateLinkedListNode<T> {
    const value: T
    var next: CirculateLinkedListNode?<T>

    constructor (value: T)
      ensures this.value == value && next == null
    {
      this.value := value;
      next := null;
    }
  }

  /** The values held by `nodes`, in order. Each module has its own node
      class, as the source does, so each states this for its own nodes. */
  ghost function Values<T>(nodes: seq<CirculateLinkedListNode<T>>): (r: seq<T>)
    ensures |r| == |nodes|
    ensures forall i {:trigger r[i]} :: 0 <= i < |nodes| ==> r[i] == nodes[i].value
  {
    if nodes == [] then [] else [nodes[0].value] + Values(nodes[1..])
  }

  lemma ValuesConcat<T>(a: seq<CirculateLinkedListNode<T>>, b: seq<CirculateLinkedListNode<T>>)
    ensures Values(a + b) == Values(a) + Values(b)
  {
  }

  class CirculateLinkedList<T(==)> {
    var head: CirculateLinkedListNode?<T>
    var length: int
    /** The iteration cursor `_current_node`. */
    var current: CirculateLinkedListNode?<T>

    /** The nodes of the ring, starting at `head`. */
    ghost var Nodes: seq<CirculateLinkedListNode<T>>
    ghost var Repr: set<object>
    /** Position of `current` in the ring during an iteration. */
    ghost var cursor: nat

    /** `next` runs through `Nodes` from `head`, the last node links back to
        `head`, each node occurs once, and `length` counts them. */
    ghost predicate Valid()
      reads this, Repr
      ensures Valid() ==> this in Repr
    {
      this in Repr &&
      length == |Nodes| &&
      (forall i :: 0 <= i < |Nodes| ==> Nodes[i] in Repr) &&
      (forall i {:trigger Nodes[i].next} :: 0 <= i < |Nodes| - 1 ==> Nodes[i].next == Nodes[i + 1]) &&
      (if Nodes == [] then head == null else head == Nodes[0] && Nodes[|Nodes| - 1].next == head) &&
      Distinct(Nodes)
    }

    /** An iteration is under way and `current` is the node at `cursor`. */
    ghost predicate Iterating()
      reads this, Repr
    {
      Valid() &&
      (if Nodes == [] then current == null else cursor < |Nodes| && current == Nodes[cursor])
    }

    /** The constructor: always an empty ring, whatever `iterable` holds. */
    constructor (iterable: seq<T>)
      ensures Valid() && fresh(Repr) && Nodes == [] && head == null && length == 0
    {
      head, length, current := null, 0, null;
      Nodes, Repr, cursor := [], {this}, 0;
    }

    /** `__len__`. */
    function Length(): (n: int)
      reads this, Repr
      requires Valid()
      ensures n == |Values(Nodes)|
    {
      length
    }

    /** `_get_tail_node`: null for an empty ring, else the node reached by
        walking from `head` until the successor is `head` again, which is
        the last node and the only node linking back to `head`. The source
        loops while its cursor is not None, which on a ring always holds,
        so the model loops on the link test itself. */
    method GetTailNode() returns (tailNode: CirculateLinkedListNode?<T>)
      requires Valid()
      ensures tailNode == if Nodes == [] then null else Nodes[|Nodes| - 1]
      ensures tailNode != null ==> tailNode.next == head
      ensures forall j :: 0 <= j < |Nodes| && Nodes[j].next == head ==> Nodes[j] == tailNode
    {
      if head == null {
        return null;
      }
      forall j | 0 <= j < |Nodes| - 1 ensures Nodes[j].next != head {
        DistinctAt(Nodes, j + 1, 0);
      }
      var currentNode := head;
      ghost var i := 0;
      while currentNode.next != head
        invariant 0 <= i < |Nodes| && currentNode == Nodes[i]
        decreases |Nodes| - i
      {
        currentNode := currentNode.next;
        i := i + 1;
      }
      return currentNode;
    }

    /** `__iter__`: starts an iteration at `head`. */
    method Iter()
      requires Valid()
      modifies this`current, this`cursor
      ensures Iterating() && current == head && cursor == 0
    {
      current := head;
      cursor := 0;
    }

    /** `__next__`: None (StopIteration) on an empty ring; otherwise the
        value at the cursor, which then moves on round the ring without
        ever stopping. */
    method Next() returns (r: Option<T>)
      requires Iterating()
      modifies this`current, this`cursor
      ensures Iterating()
      ensures Nodes == [] ==> r == None
      ensures Nodes != [] ==>
        r == Some(Values(Nodes)[old(cursor)]) &&
        cursor == if old(cursor) + 1 < |Nodes| then old(cursor) + 1 else 0
    {
      if current == null {
        return None;
      }
      r := Some(current.value);
      current := current.next;
      cursor := if cursor + 1 < |Nodes| then cursor + 1 else 0;
    }

    /** `_append`: an empty ring becomes a one-node loop; otherwise the new
        node goes between the tail and `head`, becoming the last node for
        'tail' and the new `head` for 'head'. The source adds to the length
        but links nothing for any other position; `append` and `appendleft`
        only pass these two. */
    method AppendValue(value: T, position: string) returns (newNode: CirculateLinkedListNode<T>)
      requires Valid() && (position == "tail" || position == "head")
      modifies Repr
      ensures Valid() && fresh(newNode) && newNode.value == value
      ensures Repr == old(Repr) + {newNode}
      ensures old(Nodes) == [] ==> Nodes == [newNode] && head == newNode && newNode.next == newNode
      ensures old(Nodes) != [] && position == "tail" ==> Nodes == old(Nodes) + [newNode] && head == old(head)
      ensures old(Nodes) != [] && position == "head" ==> Nodes == [newNode] + old(Nodes)
    {
      newNode := new CirculateLinkedListNode(value);
      ghost var nodes := Nodes;
      if head == null {
        head := newNode;
        head.next := head;
        length := length + 1;
        Nodes := [newNode];
        Repr := Repr + {newNode};
        return;
      }
      var tailNode := GetTailNode();
      if position == "tail" {
        LinkBehindTail(newNode, tailNode);
      } else {
        LinkBeforeHead(newNode, tailNode);
      }
    }

    /** The 'tail' step of `_append`: `newNode` goes between `tailNode`
        and `head`, so it is the new last node. */
    method LinkBehindTail(newNode: CirculateLinkedListNode<T>, tailNode: CirculateLinkedListNode<T>)
      requires Valid() && Nodes != [] && tailNode == Nodes[|Nodes| - 1] && newNode !in Repr
      modifies Repr, newNode
      ensures Valid() && Repr == old(Repr) + {newNode}
      ensures Nodes == old(Nodes) + [newNode] && head == old(head)
    {
      ghost var nodes := Nodes;
      DistinctConcat(nodes, [newNode]);
      length := length + 1;
      Nodes := nodes + [newNode];
      Repr := Repr + {newNode};
      tailNode.next, newNode.next := newNode, head;
      forall j {:trigger Nodes[j].next} | 0 <= j < |Nodes| - 1
        ensures Nodes[j].next == Nodes[j + 1]
      {
        if j < |nodes| - 1 {
          DistinctAt(nodes, j, |nodes| - 1);
        }
      }
    }

    /** The 'head' step of `_append`: `newNode` goes between `tailNode`
        and `head`, and becomes the head. */
    method LinkBeforeHead(newNode: CirculateLinkedListNode<T>, tailNode: CirculateLinkedListNode<T>)
      requires Valid() && Nodes != [] && tailNode == Nodes[|Nodes| - 1] && newNode !in Repr
      modifies Repr, newNode
      ensures Valid() && Repr == old(Repr) + {newNode}
      ensures Nodes == [newNode] + old(Nodes) && head == newNode
    {
      ghost var nodes := Nodes;
      DistinctConcat([newNode], nodes);
      length := length + 1;
      Nodes := [newNode] + nodes;
      Repr := Repr + {newNode};
      newNode.next := head;
      head := newNode;
      tailNode.next := newNode;
      forall j {:trigger Nodes[j].next} | 0 <= j < |Nodes| - 1
        ensures Nodes[j].next == Nodes[j + 1]
      {
        if 0 < j {
          DistinctAt(nodes, j - 1, |nodes| - 1);
        }
      }
    }

    /** `append`: the value goes at the end of the ring. */
    method Append(value: T)
      requires Valid()
      modifies Repr
      ensures Valid() && fresh(Repr - old(Repr))
      ensures Values(Nodes) == Values(old(Nodes)) + [value]
      ensures Nodes[..|old(Nodes)|] == old(Nodes) && fresh(Nodes[|old(Nodes)|])
      ensures old(Nodes) != [] ==> head == old(head)
    {
      var newNode := AppendValue(value, "tail");
      ValuesConcat(old(Nodes), [newNode]);
    }

    /** `appendleft`: the value becomes the new head of the ring. */
    method AppendLeft(value: T)
      requires Valid()
      modifies Repr
      ensures Valid() && fresh(Repr - old(Repr))
      ensures Values(Nodes) == [value] + Values(old(Nodes))
      ensures head != null && head.value == value && Nodes[1..] == old(Nodes) && fresh(Nodes[0])
    {
      var newNode := AppendValue(value, "head");
      ValuesConcat([newNode], old(Nodes));
    }

    /** `_pop` as corrected: ValueError for a position other than 'head'
        or 'tail', IndexError on an empty ring; for 'head' the node after
        `head` becomes the head and the tail links to it, and the old head
        is returned with its link cleared. Popping the only node leaves an
        empty ring. The 'tail' branch of the source is unfinished. */
    method PopNode(position: string) returns (r: Result<CirculateLinkedListNode<T>>)
      requires Valid() && position != "tail"
      modifies Repr
      ensures Valid() && Repr == old(Repr)
      ensures position != "head" ==> r == Err(ValueError) && Nodes == old(Nodes)
      ensures position == "head" && old(Nodes) == [] ==> r == Err(IndexError) && Nodes == old(Nodes)
      ensures position == "head" && old(Nodes) != [] ==>
        r == Ok(old(Nodes)[0]) && r.value.next == null &&
        Nodes == old(Nodes)[1..] && Values(Nodes) == Values(old(Nodes))[1..]
    {
      if position != "head" && position != "tail" {
        return Err(ValueError);
      }
      var headNode := head;
      if headNode == null {
        return Err(IndexError);
      }
      var tailNode := GetTailNode();
      ghost var nodes := Nodes;
      DistinctSlice(nodes, 1, |nodes|);
      if headNode.next == headNode {
        assert |nodes| == 1;
        head := null;
      } else {
        assert |nodes| > 1;
        forall j | 0 < j < |nodes| ensures nodes[j] != headNode {
          DistinctAt(nodes, j, 0);
        }
        var nextNode := headNode.next;
        tailNode.next := nextNode;
        head := nextNode;
      }
      headNode.next := null;
      length := length - 1;
      Nodes := nodes[1..];
      return Ok(headNode);
    }

    /** `_pop('head')` exactly as written, on the one-node ring where it
        differs from PopNode: the chained assignment stores the popped
        node's own successor, which is itself, back into `head`, so `head`
        stays on the popped node, whose link is then cleared while the
        counter drops to 0. A set `head` with a zero count is no ring at
        all, so Valid() fails whatever the ghost nodes are. */
    method PopNodeAsWritten(position: string) returns (r: Result<CirculateLinkedListNode<T>>)
      requires Valid() && position == "head" && |Nodes| == 1
      modifies Repr
      ensures head == old(head) && head != null && r.Ok? && r.value == head
      ensures head.next == null && length == 0
      ensures !Valid()
    {
      var headNode := head;
      var tailNode := GetTailNode();
      var nextNode := headNode.next;
      tailNode.next := nextNode;
      head := nextNode;
      headNode.next := null;
      length := length - 1;
      Nodes := Nodes[1..];
      return Ok(headNode);
    }

    /** `popleft`: removes and returns the head; IndexError when empty. */
    method PopLeft() returns (r: Result<CirculateLinkedListNode<T>>)
      requires Valid()
      modifies Repr
      ensures Valid() && Repr == old(Repr)
      ensures r.Err? <==> old(Nodes) == []
      ensures r.Err? ==> r.error == IndexError && Nodes == old(Nodes)
      ensures r.Ok? ==>
        r.value == old(Nodes)[0] && r.value.value == Values(old(Nodes))[0] &&
        Nodes == old(Nodes)[1..] && Values(Nodes) == Values(old(Nodes))[1..]
    {
      r := PopNode("head");
    }
  }
}
