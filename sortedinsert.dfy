/** The sorted insertion of EX/EX16/insertion.c: insert takes the head of
    a nondecreasing list of nodes and a value, links a new node in, and
    returns the head of the result.  A chain of nodes is represented by the
    sequence of its values, head first. */
module SortedInsertion {
  import opened LinkedList

  /** Where insert links the new node: after every value not above val,
      since every comparison it makes is the strict val < value. */
  function AfterEqual(s: seq<int>, val: int): (k: nat)
    ensures k <= |s|
    ensures forall i :: 0 <= i < k ==> s[i] <= val
    ensures k < |s| ==> val < s[k]
  {
    if s == [] || val < s[0] then 0 else 1 + AfterEqual(s[1..], val)
  }

  /** The chain insert returns. */
  function Inserted(s: seq<int>, val: int): seq<int>
  {
    var k := AfterEqual(s, val);
    s[..k] + [val] + s[k..]
  }

  /** insert (insertion.c:27-64): a new head for an empty list or for a
      value below the head; otherwise current and previous walk the chain
      until val is below current's value or the chain ends, and the new
      node is linked in after previous. */
  method Insert(head: seq<int>, val: int) returns (r: seq<int>)
    ensures r == Inserted(head, val)
  {
    if head == [] {
      return [val];
    }
    if val < head[0] {
      return [val] + head;
    }
    var current := 1;
    while current < |head|
      invariant 1 <= current <= |head|
      invariant forall i :: 0 <= i < current ==> head[i] <= val
    {
      if val < head[current] {
        AfterEqualIsFirst(head, val, current);
        return head[..current] + [val] + head[current..];
      }
      current := current + 1;
    }
    AfterEqualIsFirst(head, val, current);
    return head + [val];
  }

  /** The walk of insert stops exactly at AfterEqual. */
  lemma {:induction false} AfterEqualIsFirst(s: seq<int>, val: int, k: nat)
    requires k <= |s|
    requires forall i :: 0 <= i < k ==> s[i] <= val
    requires k < |s| ==> val < s[k]
    ensures AfterEqual(s, val) == k
  {
    if k > 0 {
      assert s[0] <= val;
      AfterEqualIsFirst(s[1..], val, k - 1);
    }
  }

  /** An empty list becomes the one node val; the head node changes
      exactly when val is below the old head's value. */
  lemma {:induction false} HeadChanges(s: seq<int>, val: int)
    ensures Inserted([], val) == [val]
    ensures AfterEqual(s, val) == 0 <==> s == [] || val < s[0]
    ensures s != [] && val < s[0] ==> Inserted(s, val) == [val] + s
    ensures s != [] && s[0] <= val ==> Inserted(s, val)[0] == s[0]
  {
    if s != [] && s[0] <= val {
      assert AfterEqual(s, val) > 0;
    }
  }

  /** The result holds the old values and val; a nondecreasing list stays
      nondecreasing; val follows every value equal to it. */
  lemma {:induction false} InsertedIsSorted(s: seq<int>, val: int)
    requires Sorted(s)
    ensures Sorted(Inserted(s, val))
    ensures multiset(Inserted(s, val)) == multiset(s) + multiset{val}
    ensures forall i :: 0 <= i < |s| && s[i] == val ==> i < AfterEqual(s, val)
  {
    var k := AfterEqual(s, val);
    SortedSplice(s, k, val);
    assert s == s[..k] + s[k..];
  }

  /** The list main builds from the values read, one insert at a time
      starting from the empty list. */
  function InsertAll(xs: seq<int>): seq<int>
  {
    if xs == [] then [] else Inserted(InsertAll(xs[..|xs| - 1]), xs[|xs| - 1])
  }

  /** Inserting every value of xs yields xs sorted. */
  lemma {:induction false} InsertAllSorts(xs: seq<int>)
    ensures Sorted(InsertAll(xs))
    ensures multiset(InsertAll(xs)) == multiset(xs)
  {
    if xs != [] {
      var init := xs[..|xs| - 1];
      InsertAllSorts(init);
      InsertedIsSorted(InsertAll(init), xs[|xs| - 1]);
      assert xs == init + [xs[|xs| - 1]];
    }
  }
}
