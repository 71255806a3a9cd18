/** The doubly linked list of linked_list/doubly.py: nodes chained by
    `next` from `head` and by `prev` from `tail`, with a length counter. */
module Doubly {
  import opened LinkedSeq

  /** A chain element: a value and the links to both neighbours. */
  class TwoWayLinkedListNode<T> {
    const value: T
    var prev: TwoWayLinkedListNode?<T>
    var next: TwoWayLinkedListNode?<T>

    constructor (value: T)
      ensures this.value == value && prev == null && next == null
    {
      this.value := value;
      prev, next := null, null;
    }
  }

  /** The values held by `nodes`, in order. Each module has its own node
      class, as the source does, so each states this for its own nodes. */
  ghost function Values<T>(nodes: seq<TwoWayLinkedListNode<T>>): (r: seq<T>)
    ensures |r| == |nodes|
    ensures forall i {:trigger r[i]} :: 0 <= i < |nodes| ==> r[i] == nodes[i].value
  {
    if nodes == [] then [] else [nodes[0].value] + Values(nodes[1..])
  }

  lemma ValuesConcat<T>(a: seq<TwoWayLinkedListNode<T>>, b: seq<TwoWayLinkedListNode<T>>)
    ensures Values(a + b) == Values(a) + Values(b)
  {
  }

  lemma ValuesInsertAfter<T>(s: seq<TwoWayLinkedListNode<T>>, k: nat, x: TwoWayLinkedListNode<T>)
    requires k < |s|
    ensures Values(InsertAfter(s, k, x)) == InsertAfter(Values(s), k, x.value)
  {
  }

  lemma ValuesRemoveAt<T>(s: seq<TwoWayLinkedListNode<T>>, k: nat)
    requires k < |s|
    ensures Values(RemoveAt(s, k)) == RemoveAt(Values(s), k)
  {
  }

  lemma ValuesSlice<T>(s: seq<TwoWayLinkedListNode<T>>, lo: nat, hi: nat)
    requires lo <= hi <= |s|
    ensures Values(s[lo..hi]) == Values(s)[lo..hi]
  {
  }

  /** What `insert(before, after)` does to the values: a match at the tail
      takes the append shortcut, any other match gets `after` behind its
      first occurrence. */
  function InsertShortcut<T(==)>(s: seq<T>, before: T, after: T): (r: seq<T>)
    requires before in s
  {
    if s[|s| - 1] == before then s + [after] else InsertAfterFirst(s, before, after)
  }

  /** The shortcut agrees with inserting after the first occurrence
      exactly when the tail does not hold `before` or the tail is its first
      occurrence (for a value different from `before`; inserting `before`
      itself can coincide by accident). */
  lemma InsertShortcutAgrees<T>(s: seq<T>, before: T, after: T)
    requires before in s && before != after
    ensures InsertShortcut(s, before, after) == InsertAfterFirst(s, before, after)
        <==> (s[|s| - 1] == before ==> FirstIndex(s, before) == |s| - 1)
  {
    var k := FirstIndex(s, before);
    var r, q := InsertShortcut(s, before, after), InsertAfterFirst(s, before, after);
    if s[|s| - 1] == before {
      if k == |s| - 1 {
        assert q == s + [after];
      } else {
        assert r[|s|] == after != before == q[|s|];
      }
    }
  }

  /** Either way `insert` adds exactly one `after` to the values. */
  lemma InsertShortcutMultiset<T>(s: seq<T>, before: T, after: T)
    requires before in s
    ensures multiset(InsertShortcut(s, before, after)) == multiset(s) + multiset{after}
  {
    if s[|s| - 1] != before {
      InsertAfterFirstSpec(s, before, after);
    }
  }

  /** The links after `newNode` is spliced in behind position `k`: the
      splice rewrites `nodes[k].next`, `nodes[k + 1].prev` and the links of
      `newNode`, and every other node keeps the links it had. */
  lemma SpliceLinks<T>(nodes: seq<TwoWayLinkedListNode<T>>, k: nat, newNode: TwoWayLinkedListNode<T>)
    requires Distinct(nodes) && k + 1 < |nodes| && newNode !in nodes
    requires forall i {:trigger nodes[i].next} :: 0 <= i < |nodes| - 1 && nodes[i] != nodes[k] ==>
      nodes[i].next == nodes[i + 1]
    requires forall i {:trigger nodes[i].prev} :: 0 < i < |nodes| && nodes[i] != nodes[k + 1] ==>
      nodes[i].prev == nodes[i - 1]
    requires nodes[k].next == newNode && newNode.next == nodes[k + 1]
    requires newNode.prev == nodes[k] && nodes[k + 1].prev == newNode
    ensures forall j {:trigger InsertAfter(nodes, k, newNode)[j].next} :: 0 <= j < |nodes| ==>
      InsertAfter(nodes, k, newNode)[j].next == InsertAfter(nodes, k, newNode)[j + 1]
    ensures forall j {:trigger InsertAfter(nodes, k, newNode)[j].prev} :: 0 < j <= |nodes| ==>
      InsertAfter(nodes, k, newNode)[j].prev == InsertAfter(nodes, k, newNode)[j - 1]
  {
    var ns := InsertAfter(nodes, k, newNode);
    forall j | 0 <= j < |nodes|
      ensures ns[j].next == ns[j + 1]
    {
      if j < k {
        DistinctAt(nodes, j, k);
      } else if j > k + 1 {
        DistinctAt(nodes, j - 1, k);
      }
    }
    forall j | 0 < j <= |nodes|
      ensures ns[j].prev == ns[j - 1]
    {
      if j <= k {
        DistinctAt(nodes, j, k + 1);
      } else if j > k + 2 {
        DistinctAt(nodes, j - 1, k + 1);
      }
    }
  }

  /** The links after the interior node at position `k` is bypassed: the
      bypass rewrites `nodes[k - 1].next` and `nodes[k + 1].prev`. */
  lemma UnspliceLinks<T>(nodes: seq<TwoWayLinkedListNode<T>>, k: nat)
    requires Distinct(nodes) && 0 < k < |nodes| - 1
    requires forall i {:trigger nodes[i].next} :: 0 <= i < |nodes| - 1 && nodes[i] != nodes[k - 1] ==>
      nodes[i].next == nodes[i + 1]
    requires forall i {:trigger nodes[i].prev} :: 0 < i < |nodes| && nodes[i] != nodes[k + 1] ==>
      nodes[i].prev == nodes[i - 1]
    requires nodes[k - 1].next == nodes[k + 1] && nodes[k + 1].prev == nodes[k - 1]
    ensures forall j {:trigger RemoveAt(nodes, k)[j].next} :: 0 <= j < |nodes| - 2 ==>
      RemoveAt(nodes, k)[j].next == RemoveAt(nodes, k)[j + 1]
    ensures forall j {:trigger RemoveAt(nodes, k)[j].prev} :: 0 < j < |nodes| - 1 ==>
      RemoveAt(nodes, k)[j].prev == RemoveAt(nodes, k)[j - 1]
  {
    var r := RemoveAt(nodes, k);
    forall j | 0 <= j < |nodes| - 2
      ensures r[j].next == r[j + 1]
    {
      if j < k - 1 {
        DistinctAt(nodes, j, k - 1);
      } else if j >= k {
        DistinctAt(nodes, j + 1, k - 1);
      }
    }
    forall j | 0 < j < |nodes| - 1
      ensures r[j].prev == r[j - 1]
    {
      if j < k {
        DistinctAt(nodes, j, k + 1);
      } else if j > k {
        DistinctAt(nodes, j + 1, k + 1);
      }
    }
  }

  /** The links after chain `a` is joined to chain `b`: the join rewrites
      the last `next` of `a` and the first `prev` of `b`. */
  lemma JoinLinks<T>(a: seq<TwoWayLinkedListNode<T>>, b: seq<TwoWayLinkedListNode<T>>)
    requires a != [] && b != [] && Distinct(a + b)
    requires forall i {:trigger a[i].next} :: 0 <= i < |a| - 1 && a[i] != a[|a| - 1] ==> a[i].next == a[i + 1]
    requires forall i {:trigger a[i].prev} :: 0 < i < |a| && a[i] != b[0] ==> a[i].prev == a[i - 1]
    requires forall i {:trigger b[i].next} :: 0 <= i < |b| - 1 && b[i] != a[|a| - 1] ==> b[i].next == b[i + 1]
    requires forall i {:trigger b[i].prev} :: 0 < i < |b| && b[i] != b[0] ==> b[i].prev == b[i - 1]
    requires a[|a| - 1].next == b[0] && b[0].prev == a[|a| - 1]
    ensures forall j {:trigger (a + b)[j].next} :: 0 <= j < |a + b| - 1 ==> (a + b)[j].next == (a + b)[j + 1]
    ensures forall j {:trigger (a + b)[j].prev} :: 0 < j < |a + b| ==> (a + b)[j].prev == (a + b)[j - 1]
  {
    var s := a + b;
    forall j | 0 <= j < |s| - 1
      ensures s[j].next == s[j + 1]
    {
      if j < |a| - 1 {
        DistinctAt(s, j, |a| - 1);
        assert s[j] == a[j] && s[j + 1] == a[j + 1];
      } else if j >= |a| {
        DistinctAt(s, j, |a| - 1);
        assert s[j] == b[j - |a|] && s[j + 1] == b[j + 1 - |a|];
      }
    }
    forall j | 0 < j < |s|
      ensures s[j].prev == s[j - 1]
    {
      if j < |a| {
        DistinctAt(s, j, |a|);
        assert s[j] == a[j] && s[j - 1] == a[j - 1];
      } else if j > |a| {
        DistinctAt(s, j, |a|);
        assert s[j] == b[j - |a|] && s[j - 1] == b[j - 1 - |a|];
      }
    }
  }

  /** The links of `nodes[lo..hi]` after its ends are cut loose: the cut
      rewrites `nodes[hi - 1].next` and `nodes[lo].prev`. */
  lemma TrimLinks<T>(nodes: seq<TwoWayLinkedListNode<T>>, lo: nat, hi: nat)
    requires Distinct(nodes) && lo < hi <= |nodes|
    requires forall i {:trigger nodes[i].next} :: 0 <= i < |nodes| - 1 && nodes[i] != nodes[hi - 1] ==>
      nodes[i].next == nodes[i + 1]
    requires forall i {:trigger nodes[i].prev} :: 0 < i < |nodes| && nodes[i] != nodes[lo] ==>
      nodes[i].prev == nodes[i - 1]
    ensures forall j {:trigger nodes[lo..hi][j].next} :: 0 <= j < hi - lo - 1 ==> nodes[lo..hi][j].next == nodes[lo..hi][j + 1]
    ensures forall j {:trigger nodes[lo..hi][j].prev} :: 0 < j < hi - lo ==> nodes[lo..hi][j].prev == nodes[lo..hi][j - 1]
  {
    var s := nodes[lo..hi];
    forall j | 0 <= j < hi - lo - 1
      ensures s[j].next == s[j + 1]
    {
      DistinctAt(nodes, lo + j, hi - 1);
      assert s[j] == nodes[lo + j] && s[j + 1] == nodes[lo + j + 1];
    }
    forall j | 0 < j < hi - lo
      ensures s[j].prev == s[j - 1]
    {
      DistinctAt(nodes, lo + j, lo);
      assert s[j] == nodes[lo + j] && s[j - 1] == nodes[lo + j - 1];
    }
  }

  class TwoWayLinkedList<T(==)> {
    var head: TwoWayLinkedListNode?<T>
    var tail: TwoWayLinkedListNode?<T>
    var length: int
    /** The iteration cursor `_current`. */
    var current: TwoWayLinkedListNode?<T>

    /** The nodes of the chain, head first. */
    ghost var Nodes: seq<TwoWayLinkedListNode<T>>
    ghost var Repr: set<object>
    /** How many values the current iteration has produced. */
    ghost var cursor: nat

    /** `next` runs through `Nodes` from `head` to null, `prev` mirrors it
        from `tail` to null, each node occurs once, and `length` counts them. */
    ghost predicate Valid()
      reads this, Repr
      ensures Valid() ==> this in Repr
    {
      this in Repr &&
      length == |Nodes| &&
      (forall i :: 0 <= i < |Nodes| ==> Nodes[i] in Repr) &&
      (forall i {:trigger Nodes[i].next} :: 0 <= i < |Nodes| - 1 ==> Nodes[i].next == Nodes[i + 1]) &&
      (forall i {:trigger Nodes[i].prev} :: 0 < i < |Nodes| ==> Nodes[i].prev == Nodes[i - 1]) &&
      (if Nodes == [] then head == null && tail == null
       else head == Nodes[0] && tail == Nodes[|Nodes| - 1] && head.prev == null && tail.next == null) &&
      Distinct(Nodes)
    }

    /** An iteration is under way and `current` is its next node. */
    ghost predicate Iterating()
      reads this, Repr
    {
      Valid() && cursor <= |Nodes| &&
      current == if cursor < |Nodes| then Nodes[cursor] else null
    }

    /** Builds the list by appending the values of `iterable` at the tail. */
    constructor (iterable: seq<T>)
      ensures Valid() && fresh(Repr)
      ensures Values(Nodes) == iterable
    {
      head, tail, length, current := null, null, 0, null;
      Nodes, Repr, cursor := [], {this}, 0;
      new;
      MakeupLinkedList(iterable);
    }

    /** `_makeup_linkedlist`: tail-appends a fresh node per value. */
    method MakeupLinkedList(iterable: seq<T>)
      requires Valid()
      modifies Repr
      ensures Valid() && fresh(Repr - old(Repr))
      ensures Values(Nodes) == Values(old(Nodes)) + iterable
    {
      for k := 0 to |iterable|
        invariant Valid() && fresh(Repr - old(Repr))
        invariant Values(Nodes) == Values(old(Nodes)) + iterable[..k]
      {
        var newNode := new TwoWayLinkedListNode(iterable[k]);
        ValuesConcat(Nodes, [newNode]);
        AppendNode(newNode, "tail");
        assert iterable[..k + 1] == iterable[..k] + [iterable[k]];
      }
      assert iterable[..|iterable|] == iterable;
    }

    /** `__len__`. */
    function Length(): (n: int)
      reads this, Repr
      requires Valid()
      ensures n == |Values(Nodes)|
    {
      length
    }

    /** `_append_node`: an empty list gets `newNode` as head and tail; else
        'tail' links it behind the tail and any other position links it in
        front of the head. */
    method AppendNode(newNode: TwoWayLinkedListNode<T>, position: string)
      requires Valid()
      requires newNode !in Repr && newNode.prev == null && newNode.next == null
      modifies Repr, newNode
      ensures Valid() && Repr == old(Repr) + {newNode}
      ensures old(Nodes) == [] || position == "tail" ==> Nodes == old(Nodes) + [newNode]
      ensures old(Nodes) != [] && position != "tail" ==> Nodes == [newNode] + old(Nodes)
    {
      ghost var nodes := Nodes;
      DistinctConcat(nodes, [newNode]);
      DistinctConcat([newNode], nodes);
      if length == 0 {
        head := newNode;
        tail := newNode;
        Nodes := [newNode];
      } else if position == "tail" {
        Nodes := nodes + [newNode];
        var tailNode := tail;
        tailNode.next := newNode;
        tail := newNode;
        tail.prev := tailNode;
        JoinLinks(nodes, [newNode]);
      } else {
        Nodes := [newNode] + nodes;
        var headNode := head;
        headNode.prev := newNode;
        head := newNode;
        head.next := headNode;
        JoinLinks([newNode], nodes);
      }
      length := length + 1;
      Repr := Repr + {newNode};
    }

    /** `appendleft`. */
    method AppendLeft(value: T)
      requires Valid()
      modifies Repr
      ensures Valid() && fresh(Repr - old(Repr))
      ensures Values(Nodes) == [value] + Values(old(Nodes))
      ensures Nodes[1..] == old(Nodes) && fresh(Nodes[0])
    {
      var newNode := new TwoWayLinkedListNode(value);
      AppendNode(newNode, "head");
      ValuesConcat([newNode], old(Nodes));
    }

    /** `append`. */
    method Append(value: T)
      requires Valid()
      modifies Repr
      ensures Valid() && fresh(Repr - old(Repr))
      ensures Values(Nodes) == Values(old(Nodes)) + [value]
      ensures Nodes[..|old(Nodes)|] == old(Nodes) && fresh(Nodes[|old(Nodes)|])
    {
      var newNode := new TwoWayLinkedListNode(value);
      AppendNode(newNode, "tail");
      ValuesConcat(old(Nodes), [newNode]);
    }

    /** A list with fresh nodes carrying the same values: the effect of
        `copy.deepcopy` on a list. */
    method DeepCopy() returns (c: TwoWayLinkedList<T>)
      requires Valid()
      ensures fresh(c) && fresh(c.Repr) && c.Valid()
      ensures Values(c.Nodes) == Values(Nodes)
    {
      c := new TwoWayLinkedList([]);
      var currentNode := head;
      ghost var i := 0;
      while currentNode != null
        invariant 0 <= i <= |Nodes|
        invariant currentNode == if i < |Nodes| then Nodes[i] else null
        invariant fresh(c) && fresh(c.Repr) && c.Valid()
        invariant Values(c.Nodes) == Values(Nodes)[..i]
        decreases |Nodes| - i
      {
        c.Append(currentNode.value);
        assert Values(Nodes)[..i + 1] == Values(Nodes)[..i] + [Values(Nodes)[i]];
        currentNode := currentNode.next;
        i := i + 1;
      }
      assert Values(Nodes)[..i] == Values(Nodes);
    }

    /** `extend`: splices a copy of `other` behind the tail. The source
        dereferences both lists' ends, so both must be non-empty. */
    method Extend(other: TwoWayLinkedList<T>)
      requires Valid() && Nodes != []
      requires other.Valid() && other.Nodes != []
      requires other != this ==> other.Repr !! Repr
      modifies Repr
      ensures Valid() && fresh(Repr - old(Repr))
      ensures Values(Nodes) == Values(old(Nodes)) + Values(old(other.Nodes))
      ensures Nodes[..|old(Nodes)|] == old(Nodes)
      ensures other != this ==>
        other.Valid() && Values(other.Nodes) == Values(old(other.Nodes)) && unchanged(other.Repr)
    {
      var linkedList := other.DeepCopy();
      ValuesConcat(Nodes, linkedList.Nodes);
      LinkAtTail(linkedList);
    }

    /** The splice step of `extend`: the two ends are linked both ways, the
        tail moves to `chain`'s tail and the length grows by `chain`'s. */
    method LinkAtTail(chain: TwoWayLinkedList<T>)
      requires Valid() && chain.Valid() && Nodes != [] && chain.Nodes != []
      requires chain.Repr !! Repr
      modifies Repr, chain.Repr
      ensures Valid() && Repr == old(Repr) + old(chain.Repr)
      ensures Nodes == old(Nodes) + old(chain.Nodes)
    {
      ghost var a, b := Nodes, chain.Nodes;
      DistinctConcat(a, b);
      length := length + chain.length;
      Nodes := a + b;
      Repr := Repr + chain.Repr;
      tail.next := chain.head;
      chain.head.prev := tail;
      tail := chain.tail;
      JoinLinks(a, b);
    }

    /** `extendleft`: splices a copy of `other` in front of the head. The
        source dereferences both lists' ends, so both must be non-empty. */
    method ExtendLeft(other: TwoWayLinkedList<T>)
      requires Valid() && Nodes != []
      requires other.Valid() && other.Nodes != []
      requires other != this ==> other.Repr !! Repr
      modifies Repr
      ensures Valid() && fresh(Repr - old(Repr))
      ensures Values(Nodes) == Values(old(other.Nodes)) + Values(old(Nodes))
      ensures Nodes[|Nodes| - |old(Nodes)|..] == old(Nodes)
      ensures other != this ==>
        other.Valid() && Values(other.Nodes) == Values(old(other.Nodes)) && unchanged(other.Repr)
    {
      var linkedList := other.DeepCopy();
      ValuesConcat(linkedList.Nodes, Nodes);
      LinkAtHead(linkedList);
    }

    /** The splice step of `extendleft`: the two ends are linked both ways,
        the head moves to `chain`'s head and the length grows by `chain`'s. */
    method LinkAtHead(chain: TwoWayLinkedList<T>)
      requires Valid() && chain.Valid() && Nodes != [] && chain.Nodes != []
      requires chain.Repr !! Repr
      modifies Repr, chain.Repr
      ensures Valid() && Repr == old(Repr) + old(chain.Repr)
      ensures Nodes == old(chain.Nodes) + old(Nodes)
    {
      ghost var a, b := chain.Nodes, Nodes;
      DistinctConcat(a, b);
      length := length + chain.length;
      Nodes := a + b;
      Repr := Repr + chain.Repr;
      head.prev := chain.tail;
      chain.tail.next := head;
      head := chain.head;
      JoinLinks(a, b);
    }

    /** `insert`: when the tail holds `before` the value is appended;
        otherwise it goes right behind the first node holding `before`.
        Raises IndexError, changing nothing, when there is no such node. */
    method Insert(before: T, after: T) returns (r: Outcome)
      requires Valid()
      modifies Repr
      ensures Valid() && fresh(Repr - old(Repr))
      ensures r == if before in Values(old(Nodes)) then Pass else Fail(IndexError)
      ensures r.Fail? ==> Nodes == old(Nodes)
      ensures r.Pass? ==> Values(Nodes) == InsertShortcut(Values(old(Nodes)), before, after)
      ensures r.Pass? && Values(old(Nodes))[|old(Nodes)| - 1] == before ==>
        exists n: TwoWayLinkedListNode<T> :: fresh(n) && Nodes == old(Nodes) + [n]
      ensures r.Pass? && Values(old(Nodes))[|old(Nodes)| - 1] != before ==>
        exists n: TwoWayLinkedListNode<T> :: fresh(n) &&
          Nodes == InsertAfter(old(Nodes), FirstIndex(Values(old(Nodes)), before), n)
    {
      var currentNode, atTail, i := ScanForInsert(before);
      if currentNode == null {
        return Fail(IndexError);
      }
      if atTail {
        Append(after);
        assert Nodes == old(Nodes) + [Nodes[|old(Nodes)|]];
        return Pass;
      }
      FirstIndexAt(Values(Nodes), before, i);
      ghost var nodes := Nodes;
      var newNode := LinkAfter(currentNode, i, after);
      ValuesInsertAfter(nodes, i, newNode);
      return Pass;
    }

    /** The scan of `insert`: walks from the head and stops at the first
        pass where the tail holds `before` (`atTail`, which is the first
        pass since the tail does not move), or at the first node holding
        `before`. The result is null when no node holds `before`. */
    method ScanForInsert(before: T) returns (node: TwoWayLinkedListNode?<T>, atTail: bool, ghost i: nat)
      requires Valid()
      ensures node == null <==> before !in Values(Nodes)
      ensures node != null ==> i < |Nodes| && node == Nodes[i]
      ensures node != null ==> (atTail <==> Values(Nodes)[|Nodes| - 1] == before)
      ensures node != null && !atTail ==>
        i + 1 < |Nodes| && Values(Nodes)[i] == before && before !in Values(Nodes)[..i]
    {
      var currentNode := head;
      i := 0;
      while currentNode != null
        invariant 0 <= i <= |Nodes|
        invariant currentNode == if i < |Nodes| then Nodes[i] else null
        invariant before !in Values(Nodes)[..i]
        invariant 0 < i ==> tail.value != before
        decreases |Nodes| - i
      {
        assert Values(Nodes)[|Nodes| - 1] == tail.value;
        if tail.value == before {
          return currentNode, true, i;
        }
        if currentNode.value == before {
          assert Values(Nodes)[i] == before;
          return currentNode, false, i;
        }
        currentNode := currentNode.next;
        i := i + 1;
      }
      assert Values(Nodes)[..i] == Values(Nodes);
      return null, false, i;
    }

    /** The splice step of `insert`: a new node holding `value` goes
        between `node`, at position `k`, and its successor, which exists
        since `node` is not the tail. */
    method LinkAfter(node: TwoWayLinkedListNode<T>, ghost k: nat, value: T) returns (newNode: TwoWayLinkedListNode<T>)
      requires Valid() && k + 1 < |Nodes| && node == Nodes[k]
      modifies Repr
      ensures Valid() && fresh(newNode) && newNode.value == value
      ensures Repr == old(Repr) + {newNode}
      ensures Nodes == InsertAfter(old(Nodes), k, newNode)
    {
      newNode := new TwoWayLinkedListNode(value);
      ghost var nodes := Nodes;
      DistinctInsertAfter(nodes, k, newNode);
      var succ := node.next;
      assert succ == nodes[k + 1];
      length := length + 1;
      Nodes := InsertAfter(nodes, k, newNode);
      Repr := Repr + {newNode};
      newNode.next, newNode.prev := succ, node;
      succ.prev, node.next := newNode, newNode;
      SpliceLinks(nodes, k, newNode);
    }

    /** `_remove_node`: raises IndexError on an empty list and empties a
        one-element list whatever the position; otherwise 'right' drops the
        tail, 'left' drops the head, and any other position bypasses the
        interior node `current`, at position `k`. The dropped node keeps
        its own links. */
    method RemoveNode(position: string, current: TwoWayLinkedListNode?<T>, ghost k: nat) returns (r: Outcome)
      requires Valid()
      requires |Nodes| >= 2 && position != "right" && position != "left" ==>
        0 < k < |Nodes| - 1 && current == Nodes[k]
      modifies Repr
      ensures Valid() && Repr == old(Repr)
      ensures r == if old(Nodes) == [] then Fail(IndexError) else Pass
      ensures r.Fail? || |old(Nodes)| == 1 ==> Nodes == []
      ensures |old(Nodes)| >= 2 && position == "right" ==> Nodes == old(Nodes)[..|old(Nodes)| - 1]
      ensures |old(Nodes)| >= 2 && position == "left" ==> Nodes == old(Nodes)[1..]
      ensures |old(Nodes)| >= 2 && position != "right" && position != "left" ==>
        Nodes == RemoveAt(old(Nodes), k)
    {
      if length == 0 {
        return Fail(IndexError);
      }
      if length == 1 {
        head, tail, length := null, null, 0;
        Nodes := [];
        return Pass;
      }
      if position == "right" {
        DropTail();
      } else if position == "left" {
        DropHead();
      } else {
        Bypass(current, k);
      }
      return Pass;
    }

    /** Unlinks the head of a list of two or more nodes: its successor
        loses its `prev` link and becomes the head. */
    method DropHead()
      requires Valid() && |Nodes| >= 2
      modifies Repr
      ensures Valid() && Repr == old(Repr)
      ensures Nodes == old(Nodes)[1..]
    {
      ghost var nodes := Nodes;
      ghost var n := |nodes|;
      DistinctSlice(nodes, 1, n);
      length := length - 1;
      Nodes := nodes[1..];
      var headNext := head.next;
      headNext.prev := null;
      head := headNext;
      TrimLinks(nodes, 1, n);
    }

    /** Unlinks the tail of a list of two or more nodes: its predecessor
        loses its `next` link and becomes the tail. */
    method DropTail()
      requires Valid() && |Nodes| >= 2
      modifies Repr
      ensures Valid() && Repr == old(Repr)
      ensures Nodes == old(Nodes)[..|old(Nodes)| - 1]
    {
      ghost var nodes := Nodes;
      ghost var n := |nodes|;
      DistinctSlice(nodes, 0, n - 1);
      length := length - 1;
      Nodes := nodes[..n - 1];
      var tailPrev := tail.prev;
      tailPrev.next := null;
      tail := tailPrev;
      TrimLinks(nodes, 0, n - 1);
    }

    /** Bypasses the interior node `current` at position `k`: its
        neighbours are linked to each other both ways. */
    method Bypass(current: TwoWayLinkedListNode<T>, ghost k: nat)
      requires Valid() && 0 < k < |Nodes| - 1 && current == Nodes[k]
      modifies Repr
      ensures Valid() && Repr == old(Repr)
      ensures Nodes == RemoveAt(old(Nodes), k)
    {
      ghost var nodes := Nodes;
      DistinctRemoveAt(nodes, k);
      length := length - 1;
      Nodes := RemoveAt(nodes, k);
      current.prev.next, current.next.prev := current.next, current.prev;
      UnspliceLinks(nodes, k);
    }

    /** `pop`: removes the tail and returns it; raises IndexError when the
        list is empty. */
    method Pop() returns (r: Result<TwoWayLinkedListNode<T>>)
      requires Valid()
      modifies Repr
      ensures Valid() && Repr == old(Repr)
      ensures r.Err? <==> old(Nodes) == []
      ensures r.Err? ==> r.error == IndexError && Nodes == old(Nodes)
      ensures r.Ok? ==>
        r.value == old(Nodes)[|old(Nodes)| - 1] &&
        r.value.value == Values(old(Nodes))[|old(Nodes)| - 1] &&
        Nodes == old(Nodes)[..|old(Nodes)| - 1] &&
        Values(Nodes) == Values(old(Nodes))[..|old(Nodes)| - 1]
    {
      var popNode := tail;
      ValuesSlice(Nodes, 0, |Nodes| - if Nodes == [] then 0 else 1);
      var outcome := RemoveNode("right", null, 0);
      if outcome.Fail? {
        return Err(outcome.error);
      }
      return Ok(popNode);
    }

    /** `popleft`: removes the head and returns it; raises IndexError when
        the list is empty. */
    method PopLeft() returns (r: Result<TwoWayLinkedListNode<T>>)
      requires Valid()
      modifies Repr
      ensures Valid() && Repr == old(Repr)
      ensures r.Err? <==> old(Nodes) == []
      ensures r.Err? ==> r.error == IndexError && Nodes == old(Nodes)
      ensures r.Ok? ==>
        r.value == old(Nodes)[0] && r.value.value == Values(old(Nodes))[0] &&
        Nodes == old(Nodes)[1..] && Values(Nodes) == Values(old(Nodes))[1..]
    {
      var popNode := head;
      if Nodes != [] {
        ValuesSlice(Nodes, 1, |Nodes|);
      }
      var outcome := RemoveNode("left", null, 0);
      if outcome.Fail? {
        return Err(outcome.error);
      }
      return Ok(popNode);
    }

    /** `remove`: unlinks the first node holding `value`, through the
        'left', 'right' or interior case of `_remove_node` as the node has
        no predecessor, no successor, or both; raises ValueError, changing
        nothing, when there is none. */
    method Remove(value: T) returns (r: Outcome)
      requires Valid()
      modifies Repr
      ensures Valid() && Repr == old(Repr)
      ensures r == if value in Values(old(Nodes)) then Pass else Fail(ValueError)
      ensures r.Fail? ==> Nodes == old(Nodes)
      ensures r.Pass? ==>
        Nodes == RemoveAt(old(Nodes), FirstIndex(Values(old(Nodes)), value)) &&
        Values(Nodes) == RemoveFirst(Values(old(Nodes)), value)
    {
      var currentNode := head;
      ghost var i := 0;
      while currentNode != null
        invariant 0 <= i <= |Nodes|
        invariant currentNode == if i < |Nodes| then Nodes[i] else null
        invariant value !in Values(Nodes)[..i]
        decreases |Nodes| - i
      {
        if currentNode.value == value {
          break;
        }
        currentNode := currentNode.next;
        i := i + 1;
      }
      if currentNode == null {
        assert Values(Nodes)[..i] == Values(Nodes);
        return Fail(ValueError);
      }
      FirstIndexAt(Values(Nodes), value, i);
      ghost var nodes := Nodes;
      ValuesRemoveAt(nodes, i);
      var outcome;
      if currentNode.prev == null {
        assert RemoveAt(nodes, 0) == nodes[1..];
        outcome := RemoveNode("left", null, 0);
      } else if currentNode.next == null {
        assert RemoveAt(nodes, i) == nodes[..i];
        outcome := RemoveNode("right", null, 0);
      } else {
        outcome := RemoveNode("position", currentNode, i);
      }
      return Pass;
    }

    /** `clear`: clears both links of every node, then resets to the empty
        list. */
    method Clear()
      requires Valid()
      modifies Repr
      ensures Valid() && Repr == old(Repr)
      ensures Nodes == [] && head == null && tail == null && length == 0
      ensures forall j :: 0 <= j < |old(Nodes)| ==>
        old(Nodes)[j].prev == null && old(Nodes)[j].next == null
    {
      ghost var nodes := Nodes;
      var currentNode := head;
      ghost var i := 0;
      while currentNode != null
        invariant unchanged(this)
        invariant 0 <= i <= |nodes|
        invariant currentNode == if i < |nodes| then nodes[i] else null
        invariant forall j :: 0 <= j < i ==> nodes[j].prev == null && nodes[j].next == null
        invariant forall j {:trigger nodes[j].next} :: i <= j < |nodes| ==>
          nodes[j].next == if j + 1 < |nodes| then nodes[j + 1] else null
        decreases |nodes| - i
      {
        var nextNode := currentNode.next;
        forall j | i < j < |nodes| ensures nodes[j] != nodes[i] {
          DistinctAt(nodes, j, i);
        }
        currentNode.prev, currentNode.next := null, null;
        currentNode := nextNode;
        i := i + 1;
      }
      head, tail, length := null, null, 0;
      Nodes := [];
    }

    /** `find`: the first node holding `value`, or null. */
    method Find(value: T) returns (node: TwoWayLinkedListNode?<T>)
      requires Valid()
      ensures node == null <==> value !in Values(Nodes)
      ensures node != null ==> node == Nodes[FirstIndex(Values(Nodes), value)]
    {
      var currentNode := head;
      ghost var i := 0;
      while currentNode != null
        invariant 0 <= i <= |Nodes|
        invariant currentNode == if i < |Nodes| then Nodes[i] else null
        invariant value !in Values(Nodes)[..i]
        decreases |Nodes| - i
      {
        if currentNode.value == value {
          FirstIndexAt(Values(Nodes), value, i);
          return currentNode;
        }
        currentNode := currentNode.next;
        i := i + 1;
      }
      assert Values(Nodes)[..i] == Values(Nodes);
      return null;
    }

    /** `__iter__`: starts an iteration at the head. */
    method Iter()
      requires Valid()
      modifies this`current, this`cursor
      ensures Iterating() && cursor == 0
    {
      current := head;
      cursor := 0;
    }

    /** `__next__`: the next value, or None (StopIteration) at the end. */
    method Next() returns (r: Option<T>)
      requires Iterating()
      modifies this`current, this`cursor
      ensures Iterating()
      ensures old(cursor) < |Values(Nodes)| ==>
        r == Some(Values(Nodes)[old(cursor)]) && cursor == old(cursor) + 1
      ensures old(cursor) == |Values(Nodes)| ==> r == None && cursor == old(cursor)
    {
      if current == null {
        return None;
      }
      r := Some(current.value);
      current := current.next;
      cursor := cursor + 1;
    }

    /** `__reversed__`: the values met walking `prev` links from the tail,
        which are the forward values in reverse. */
    method Reversed() returns (r: seq<T>)
      requires Valid()
      ensures r == Reverse(Values(Nodes))
    {
      r := [];
      var currentNode := tail;
      ghost var i := |Nodes|;
      while currentNode != null
        invariant 0 <= i <= |Nodes|
        invariant currentNode == if 0 < i then Nodes[i - 1] else null
        invariant r == Reverse(Values(Nodes)[i..])
        decreases i
      {
        ghost var suffix := Values(Nodes)[i - 1..];
        assert suffix[0] == currentNode.value && suffix[1..] == Values(Nodes)[i..];
        r := r + [currentNode.value];
        currentNode := currentNode.prev;
        i := i - 1;
      }
    }
  }
}
