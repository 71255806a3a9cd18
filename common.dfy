/** Shared vocabulary of the linked-list models: the exceptions the Python
    containers raise, the result wrappers that carry them, and the sequence
    functions that say what each operation does to a list's contents. */
module LinkedSeq {

  /** The Python exception classes the containers raise. */
  datatype Error = IndexError | ValueError | TypeError | AttributeError

  /** The outcome of an operation that returns nothing or raises. */
  datatype Outcome = Pass | Fail(error: Error)

  /** The outcome of an operation that returns a value or raises. */
  datatype Result<R> = Ok(value: R) | Err(error: Error)

  /** A value or nothing; `None` also stands for Python's StopIteration. */
  datatype Option<T> = None | Some(value: T)

  /** Index of the first occurrence of `v` in `s`. */
  function FirstIndex<T(==)>(s: seq<T>, v: T): (k: nat)
    requires v in s
    ensures k < |s| && s[k] == v
    ensures forall j :: 0 <= j < k ==> s[j] != v
  {
    if s[0] == v then 0 else 1 + FirstIndex(s[1..], v)
  }

  /** `s` with `x` placed immediately after position `k`. */
  function InsertAfter<T>(s: seq<T>, k: nat, x: T): (r: seq<T>)
    requires k < |s|
    ensures |r| == |s| + 1 && r[k + 1] == x
    ensures forall j {:trigger r[j]} :: 0 <= j <= k ==> r[j] == s[j]
    ensures forall j :: k + 1 < j < |r| ==> r[j] == s[j - 1]
  {
    s[..k + 1] + [x] + s[k + 1..]
  }

  /** `s` without its element at position `k`. */
  function RemoveAt<T>(s: seq<T>, k: nat): (r: seq<T>)
    requires k < |s|
    ensures |r| == |s| - 1
    ensures forall j {:trigger r[j]} :: 0 <= j < k ==> r[j] == s[j]
    ensures forall j :: k <= j < |r| ==> r[j] == s[j + 1]
  {
    s[..k] + s[k + 1..]
  }

  /** `s` with the first occurrence of `v` taken out. */
  function RemoveFirst<T(==)>(s: seq<T>, v: T): (r: seq<T>)
    requires v in s
  {
    RemoveAt(s, FirstIndex(s, v))
  }

  /** `s` after inserting `x` after the first occurrence of `v`. */
  function InsertAfterFirst<T(==)>(s: seq<T>, v: T, x: T): (r: seq<T>)
    requires v in s
  {
    InsertAfter(s, FirstIndex(s, v), x)
  }

  /** The elements of `s` in the opposite order. */
  function Reverse<T>(s: seq<T>): (r: seq<T>)
    ensures |r| == |s|
    ensures forall j :: 0 <= j < |s| ==> r[j] == s[|s| - 1 - j]
  {
    if s == [] then [] else Reverse(s[1..]) + [s[0]]
  }

  /** No element of `s` occurs twice: a chain visits each node once. It is
      stated recursively so that the solver unfolds it only on demand;
      DistinctIff gives the pairwise reading. */
  ghost predicate Distinct<T>(s: seq<T>)
  {
    s == [] || (s[0] !in s[1..] && Distinct(s[1..]))
  }

  /** Distinct says that elements at different positions differ. */
  lemma {:induction false} DistinctIff<T>(s: seq<T>)
    ensures Distinct(s) <==> forall i, j :: 0 <= i < j < |s| ==> s[i] != s[j]
  {
    if s != [] {
      var t := s[1..];
      DistinctIff(t);
      if Distinct(s) {
        forall i, j | 0 <= i < j < |s| ensures s[i] != s[j] {
          assert s[j] == t[j - 1];
          if i > 0 {
            assert s[i] == t[i - 1];
          }
        }
      }
      if forall i, j :: 0 <= i < j < |s| ==> s[i] != s[j] {
        forall k | 0 <= k < |t| ensures t[k] != s[0] {
          assert t[k] == s[k + 1];
        }
        forall i, j | 0 <= i < j < |t| ensures t[i] != t[j] {
          assert t[i] == s[i + 1] && t[j] == s[j + 1];
        }
      }
    }
  }

  /** Two positions of a repetition-free sequence hold different elements. */
  lemma DistinctAt<T>(s: seq<T>, i: nat, j: nat)
    requires Distinct(s) && i < |s| && j < |s| && i != j
    ensures s[i] != s[j]
  {
    DistinctIff(s);
  }

  /** Placing a new element keeps a sequence free of repetitions. */
  lemma DistinctInsertAfter<T>(s: seq<T>, k: nat, x: T)
    requires Distinct(s) && k < |s| && x !in s
    ensures Distinct(InsertAfter(s, k, x))
  {
    DistinctIff(s);
    var r := InsertAfter(s, k, x);
    forall i, j | 0 <= i < j < |r| ensures r[i] != r[j] {
      var i' := if i <= k then i else i - 1;
      var j' := if j <= k then j else j - 1;
      if i == k + 1 {
        assert r[j] == s[j'];
      } else if j == k + 1 {
        assert r[i] == s[i'];
      } else {
        assert r[i] == s[i'] && r[j] == s[j'];
      }
    }
    DistinctIff(r);
  }

  /** Dropping an element keeps a sequence free of repetitions, and the
      dropped element no longer occurs. */
  lemma DistinctRemoveAt<T>(s: seq<T>, k: nat)
    requires Distinct(s) && k < |s|
    ensures Distinct(RemoveAt(s, k))
    ensures s[k] !in RemoveAt(s, k)
  {
    DistinctIff(s);
    var r := RemoveAt(s, k);
    forall i, j | 0 <= i < j < |r| ensures r[i] != r[j] {
      var i' := if i < k then i else i + 1;
      var j' := if j < k then j else j + 1;
      assert r[i] == s[i'] && r[j] == s[j'];
    }
    forall i | 0 <= i < |r| ensures r[i] != s[k] {
      assert r[i] == s[if i < k then i else i + 1];
    }
    DistinctIff(r);
  }

  /** A slice of a repetition-free sequence is free of repetitions. */
  lemma DistinctSlice<T>(s: seq<T>, lo: nat, hi: nat)
    requires Distinct(s) && lo <= hi <= |s|
    ensures Distinct(s[lo..hi])
  {
    DistinctIff(s);
    var r := s[lo..hi];
    forall i, j | 0 <= i < j < |r| ensures r[i] != r[j] {
      assert r[i] == s[lo + i] && r[j] == s[lo + j];
    }
    DistinctIff(r);
  }

  /** Joining two repetition-free sequences with no common element gives a
      repetition-free sequence. */
  lemma DistinctConcat<T>(a: seq<T>, b: seq<T>)
    requires Distinct(a) && Distinct(b)
    requires forall x :: x in a ==> x !in b
    ensures Distinct(a + b)
  {
    DistinctIff(a);
    DistinctIff(b);
    var r := a + b;
    forall i, j | 0 <= i < j < |r| ensures r[i] != r[j] {
      if j < |a| {
        assert r[i] == a[i] && r[j] == a[j];
      } else if i >= |a| {
        assert r[i] == b[i - |a|] && r[j] == b[j - |a|];
      } else {
        assert r[i] in a && r[j] == b[j - |a|];
      }
    }
    DistinctIff(r);
  }

  /** Removing the first occurrence of `v` takes exactly one `v` out of the
      multiset of elements and leaves the elements before it alone. */
  lemma RemoveFirstSpec<T>(s: seq<T>, v: T)
    requires v in s
    ensures multiset(RemoveFirst(s, v)) == multiset(s) - multiset{v}
    ensures RemoveFirst(s, v)[..FirstIndex(s, v)] == s[..FirstIndex(s, v)]
  {
    var k := FirstIndex(s, v);
    assert s == s[..k] + [v] + s[k + 1..];
  }

  /** Inserting after the first occurrence adds exactly one `x`. */
  lemma InsertAfterFirstSpec<T>(s: seq<T>, v: T, x: T)
    requires v in s
    ensures multiset(InsertAfterFirst(s, v, x)) == multiset(s) + multiset{x}
  {
    var k := FirstIndex(s, v);
    assert s == s[..k + 1] + s[k + 1..];
  }

  /** A match at `i` with no match before it is the first occurrence. */
  lemma FirstIndexAt<T>(s: seq<T>, v: T, i: nat)
    requires i < |s| && s[i] == v && v !in s[..i]
    ensures v in s && FirstIndex(s, v) == i
  {
  }

  /** The first occurrence of the first element is position 0. */
  lemma FirstIndexOfHead<T>(s: seq<T>)
    requires |s| > 0
    ensures FirstIndex(s, s[0]) == 0
  {
  }
}
