/** The generic conformance tests of src/kata21/tests.rs and the unit tests
    at the end of src/kata21/cons.rs, as clients of the cons-list: each
    method performs the test's calls and its postcondition is what the
    test asserts, derived from the operations' contracts alone.  The last
    three methods are further scenarios of the same kind, not tests of the
    program. */
module ConsConformance {
  import opened Sequences
  import opened Cons

  /** An empty chain has length zero (`new_is_empty`). */
  method NewIsEmpty<T>() returns (n: nat)
    ensures n == 0
  {
    var empty: ConsNode<T> := Nil;
    n := empty.Len();
  }

  /** One cell in front of an empty chain gives length one (`with_one_added_is_one_long`). */
  method WithOneAddedIsOneLong<T>(v: T) returns (n: nat)
    ensures n == 1
  {
    var empty: ConsNode<T> := Nil;
    var one := Unshift(empty, v);
    n := one.Len();
  }

  /** Two chains built on the same parent both have length two, and both
      have that very parent as their tail (`add_two`). */
  method AddTwo<T>(v0: T, v1: T, v2: T) returns (atwo: ConsNode<T>, btwo: ConsNode<T>)
    ensures atwo.Len() == 2 && btwo.Len() == 2
    ensures NodeAt(atwo, 1) == NodeAt(btwo, 1)
    ensures Elems(NodeAt(atwo, 1)) == [v0]
  {
    var empty: ConsNode<T> := Nil;
    var one := Unshift(empty, v0);
    atwo := Unshift(one, v1);
    btwo := Unshift(one, v2);
  }

  /** Collecting an empty list gives nothing (`test_empty`). */
  method TestEmpty<T(==)>() returns (v: seq<T>)
    ensures |v| == 0
  {
    var list := ConsList<T>.Empty();
    v := list.Collect();
  }

  /** `test_one`. */
  method TestOne<T(==)>(v0: T) returns (v: seq<T>)
    ensures v == [v0]
  {
    var list := ConsList<T>.Empty().Add(v0);
    v := list.Collect();
  }

  /** Elements come out oldest first (`test_two`). */
  method TestTwo<T(==)>(v0: T, v1: T) returns (v: seq<T>)
    ensures v == [v0, v1]
  {
    var list := ConsList<T>.Empty().Add(v0).Add(v1);
    v := list.Collect();
  }

  /** `test_found`. */
  method TestFound<T(==)>(v0: T, v1: T) returns (found: Option<NodeRef<T>>)
    ensures found.Some?
  {
    var list := ConsList<T>.Empty().Add(v0).Add(v1);
    assert Elems(list.head)[1] == v0;
    found := list.Find(v0);
  }

  /** `test_not_found`, for a value other than both elements. */
  method TestNotFound<T(==)>(v0: T, v1: T, x0: T) returns (found: Option<NodeRef<T>>)
    requires x0 != v0 && x0 != v1
    ensures found.None?
  {
    var list := ConsList<T>.Empty().Add(v0).Add(v1);
    assert Elems(list.head) == [v1, v0];
    found := list.Find(x0);
  }

  /** Removing the older of two elements leaves the newer (`test_remove_first`). */
  method TestRemoveFirst<T(==)>(v0: T, v1: T) returns (v: seq<T>)
    ensures v == [v1]
  {
    var list := ConsList<T>.Empty().Add(v0).Add(v1);
    assert Elems(list.head) == [v1, v0];
    var found := list.Find(v0);
    assert found.Some?;
    list := list.Remove(found.value);
    v := list.Collect();
  }

  /** Removing the newer of two elements leaves the older (`test_remove_second`). */
  method TestRemoveSecond<T(==)>(v0: T, v1: T) returns (v: seq<T>)
    ensures v == [v0]
  {
    var list := ConsList<T>.Empty().Add(v0).Add(v1);
    assert Elems(list.head) == [v1, v0];
    var found := list.Find(v1);
    assert Elems(list.head)[0] == v1;
    assert found.Some? && found.value.depth == 0;
    list := list.Remove(found.value);
    v := list.Collect();
  }

  /** Removing the newest of three keeps the other two in order (`test_remove_third`). */
  method TestRemoveThird<T(==)>(v0: T, v1: T, v2: T) returns (v: seq<T>)
    ensures v == [v0, v1]
  {
    var list := ConsList<T>.Empty().Add(v0).Add(v1).Add(v2);
    assert Elems(list.head) == [v2, v1, v0];
    var found := list.Find(v2);
    assert Elems(list.head)[0] == v2;
    assert found.Some? && found.value.depth == 0;
    list := list.Remove(found.value);
    v := list.Collect();
  }

  /** Removing the oldest of three distinct elements with the program's
      `remove` swaps the two that remain. */
  method RemoveOldestOfThree<T(==)>(v0: T, v1: T, v2: T) returns (v: seq<T>)
    requires v0 != v1 && v0 != v2
    ensures v == [v2, v1]
  {
    var list := ConsList<T>.Empty().Add(v0).Add(v1).Add(v2);
    assert Elems(list.head) == [v2, v1, v0];
    var found := list.Find(v0);
    assert found.Some? && found.value.depth == 2;
    var removed := list.Remove(found.value);
    RemovalThirdReorders(v2, v1, v0);
    v := removed.Collect();
    InsertionOrderIsReversed(removed.head);
    assert Reverse([v1, v2]) == [v2, v1] by {
      assert [v1, v2][1..] == [v2];
      assert Reverse([v2]) == [v2] by { assert [v2][1..] == []; }
    }
  }

  /** The same removal with the order-keeping `RemoveInOrder` leaves the two
      remaining elements oldest first. */
  method RemoveOldestOfThreeInOrder<T(==)>(v0: T, v1: T, v2: T) returns (v: seq<T>)
    requires v0 != v1 && v0 != v2
    ensures v == [v1, v2]
  {
    var list := ConsList<T>.Empty().Add(v0).Add(v1).Add(v2);
    assert Elems(list.head) == [v2, v1, v0];
    var found := list.Find(v0);
    assert found.Some? && found.value.depth == 2;
    var removed := list.RemoveInOrder(found.value);
    v := removed.Collect();
  }

  /** Removal leaves the list it was applied to as it was: the original
      still collects both elements. */
  method RemoveLeavesOriginal<T(==)>(v0: T, v1: T) returns (before: seq<T>, after: seq<T>)
    ensures after == [v0]
    ensures before == [v0, v1]
  {
    var list := ConsList<T>.Empty().Add(v0).Add(v1);
    assert Elems(list.head) == [v1, v0];
    var found := list.Find(v1);
    assert Elems(list.head)[0] == v1;
    assert found.Some? && found.value.depth == 0;
    var removed := list.Remove(found.value);
    after := removed.Collect();
    before := list.Collect();
  }
}
