/** The linked list of EX/EX21/list.c: a head pointer and a length field,
    with insertion at the front, at the back, and in sorted position.  The
    chain of nodes is represented by the sequence of their values, head
    first; walking the `Node **target` pointer is walking an index into
    that sequence. */
module LinkedList {

  /** Nondecreasing order. */
  ghost predicate Sorted(s: seq<int>)
  {
    forall i, j :: 0 <= i < j < |s| ==> s[i] <= s[j]
  }

  /** The link insertSorted stops at: the first node whose value is not
      below val, or the null pointer at the end. */
  function SortedSlot(s: seq<int>, val: int): (k: nat)
    ensures k <= |s|
    ensures forall i :: 0 <= i < k ==> s[i] < val
    ensures k < |s| ==> val <= s[k]
  {
    if s == [] || val <= s[0] then 0 else 1 + SortedSlot(s[1..], val)
  }

  /** The list with val linked in at SortedSlot. */
  function InsertedSorted(s: seq<int>, val: int): seq<int>
  {
    var k := SortedSlot(s, val);
    s[..k] + [val] + s[k..]
  }

  /** insertSorted keeps a nondecreasing list nondecreasing and gains
      exactly val; val goes before every value equal to it. */
  lemma {:induction false} InsertedSortedIsSorted(s: seq<int>, val: int)
    requires Sorted(s)
    ensures Sorted(InsertedSorted(s, val))
    ensures multiset(InsertedSorted(s, val)) == multiset(s) + multiset{val}
    ensures forall i :: 0 <= i < |s| && s[i] == val ==> SortedSlot(s, val) <= i
  {
    var k := SortedSlot(s, val);
    SortedSplice(s, k, val);
    assert s == s[..k] + s[k..];
  }

  /** A value placed between its neighbours in a nondecreasing list keeps
      it nondecreasing. */
  lemma {:induction false} SortedSplice(s: seq<int>, k: nat, val: int)
    requires Sorted(s) && k <= |s|
    requires forall i :: 0 <= i < k ==> s[i] <= val
    requires k < |s| ==> val <= s[k]
    ensures Sorted(s[..k] + [val] + s[k..])
  {
    var r := s[..k] + [val] + s[k..];
    assert forall i :: 0 <= i < k ==> r[i] == s[i];
    assert forall i :: k < i < |r| ==> r[i] == s[i - 1];
    forall i, j | 0 <= i < j < |r|
      ensures r[i] <= r[j]
    {
      if i == k {
        assert s[k] <= s[j - 1];
      }
    }
  }

  /** The sequence read back to front. */
  function Reverse(s: seq<int>): (r: seq<int>)
    ensures |r| == |s|
    ensures forall i :: 0 <= i < |s| ==> r[i] == s[|s| - 1 - i]
  {
    if s == [] then [] else [s[|s| - 1]] + Reverse(s[..|s| - 1])
  }

  /** A list of ints: the values of its nodes, head first, and the count
      the struct keeps beside them. */
  class List {
    var values: seq<int>
    var length: int

    /** The length field always equals the number of nodes. */
    ghost predicate Valid()
      reads this
    {
      length == |values|
    }

    /** makeList (list.c:35-45): no nodes, length 0. */
    constructor ()
      ensures Valid() && values == [] && length == 0
    {
      values := [];
      length := 0;
    }

    /** insertFront (list.c:62-90): val becomes the first value; the rest
        follow unchanged. */
    method InsertFront(val: int)
      requires Valid()
      modifies this
      ensures Valid() && values == [val] + old(values)
    {
      values := [val] + values;
      length := length + 1;
    }

    /** insertBack (list.c:97-128): the target pointer walks to the null
        link at the end, and val is linked in there. */
    method InsertBack(val: int)
      requires Valid()
      modifies this
      ensures Valid() && values == old(values) + [val]
    {
      var target := 0;
      while target < |values|
        invariant target <= |values|
      {
        target := target + 1;
      }
      values := values[..target] + [val] + values[target..];
      length := length + 1;
    }

    /** insertSorted (list.c:134-167): the target pointer walks past every
        value below val, and val is linked in there. */
    method InsertSorted(val: int)
      requires Valid()
      modifies this
      ensures Valid() && values == InsertedSorted(old(values), val)
    {
      var target := 0;
      while target < |values| && values[target] < val
        invariant target <= |values|
        invariant forall i :: 0 <= i < target ==> values[i] < val
      {
        target := target + 1;
      }
      SlotIsFirst(values, val, target);
      values := values[..target] + [val] + values[target..];
      length := length + 1;
    }
  }

  /** The walk of insertSorted stops exactly at SortedSlot. */
  lemma {:induction false} SlotIsFirst(s: seq<int>, val: int, k: nat)
    requires k <= |s|
    requires forall i :: 0 <= i < k ==> s[i] < val
    requires k < |s| ==> val <= s[k]
    ensures SortedSlot(s, val) == k
  {
    if k > 0 {
      assert s[0] < val;
      SlotIsFirst(s[1..], val, k - 1);
    }
  }

  /** Filling a new list by insertFront, as listTest.c does with the values
      of xs in order, leaves them reversed. */
  method FrontAll(xs: seq<int>) returns (list: List)
    ensures fresh(list) && list.Valid()
    ensures list.values == Reverse(xs)
  {
    list := new List();
    for i := 0 to |xs|
      invariant list.Valid() && list.values == Reverse(xs[..i])
    {
      assert xs[..i + 1][..i] == xs[..i];
      list.InsertFront(xs[i]);
    }
    assert xs[..|xs|] == xs;
  }

  /** Filling a new list by insertBack leaves the values in their order. */
  method BackAll(xs: seq<int>) returns (list: List)
    ensures fresh(list) && list.Valid()
    ensures list.values == xs
  {
    list := new List();
    for i := 0 to |xs|
      invariant list.Valid() && list.values == xs[..i]
    {
      assert xs[..i + 1] == xs[..i] + [xs[i]];
      list.InsertBack(xs[i]);
    }
    assert xs[..|xs|] == xs;
  }

  /** Filling a new list by insertSorted sorts the values. */
  method SortedAll(xs: seq<int>) returns (list: List)
    ensures fresh(list) && list.Valid()
    ensures Sorted(list.values) && multiset(list.values) == multiset(xs)
  {
    list := new List();
    for i := 0 to |xs|
      invariant list.Valid() && Sorted(list.values) && multiset(list.values) == multiset(xs[..i])
    {
      assert xs[..i + 1] == xs[..i] + [xs[i]];
      InsertedSortedIsSorted(list.values, xs[i]);
      list.InsertSorted(xs[i]);
    }
    assert xs[..|xs|] == xs;
  }
}
