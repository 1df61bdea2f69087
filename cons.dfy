/** The persistent cons-list of kata 21 (src/kata21/cons.rs).

    A list is a handle on the head of an immutable chain of cells.  Every
    operation returns a new handle and leaves the chains it was given as
    they were; new cells are only ever put in front of existing ones, so
    list versions share suffixes.

    Nodes live behind reference-counted pointers in the program, and
    `remove` locates its node by pointer identity.  Here a chain is a
    value, and a reference to one of its nodes is the node's depth on the
    spine it was found on together with the node it points at: the depth
    stands for the pointer's identity, the node for what dereferencing it
    yields.  Identity (equal depth) and element equality (`==` on `T`)
    therefore stay apart. */
module Cons {
  import opened Sequences

  datatype Option<T> = None | Some(value: T)

  /** One cell holding an element and the rest of the chain, or the terminator. */
  datatype ConsNode<T> = Cons(value: T, tail: ConsNode<T>) | Nil
  {
    /** Number of cells in front of the terminator, counted recursively. */
    function Len(): (r: nat)
      ensures r == |Elems(this)|
    {
      match this
      case Cons(_, tail) => 1 + tail.Len()
      case Nil => 0
    }
  }

  /** The elements of a chain from the head, i.e. most recently added first. */
  ghost function Elems<T>(n: ConsNode<T>): (r: seq<T>)
  {
    match n
    case Nil => []
    case Cons(v, tail) => [v] + Elems(tail)
  }

  /** The elements of a chain in the order they were put on it, oldest first:
      the cell in front was added after everything behind it. */
  ghost function InsertionOrder<T>(n: ConsNode<T>): (r: seq<T>)
    ensures |r| == |Elems(n)|
  {
    match n
    case Nil => []
    case Cons(v, tail) => InsertionOrder(tail) + [v]
  }

  /** The node reached from `n` by following `k` tails (the terminator once past it). */
  ghost function NodeAt<T>(n: ConsNode<T>, k: nat): (r: ConsNode<T>)
  {
    if k == 0 then n
    else match n
      case Nil => Nil
      case Cons(_, tail) => NodeAt(tail, k - 1)
  }

  /** The node at depth `k` carries exactly the elements from position `k` on. */
  lemma {:induction false} NodeAtElems<T>(n: ConsNode<T>, k: nat)
    ensures Elems(NodeAt(n, k)) == if k <= |Elems(n)| then Elems(n)[k..] else []
  {
    if k > 0 && n.Cons? {
      NodeAtElems(n.tail, k - 1);
    }
  }

  /** A node at some depth is a cell exactly when the depth is inside the
      chain, and then it holds the element at that position. */
  lemma {:induction false} NodeAtCell<T>(n: ConsNode<T>, k: nat)
    ensures NodeAt(n, k).Cons? <==> k < |Elems(n)|
    ensures k < |Elems(n)| ==> NodeAt(n, k).value == Elems(n)[k]
  {
    NodeAtElems(n, k);
  }

  /** Following the tail of the node at depth `k` reaches the node at depth `k + 1`. */
  lemma {:induction false} NodeAtNext<T>(n: ConsNode<T>, k: nat)
    requires NodeAt(n, k).Cons?
    ensures NodeAt(n, k + 1) == NodeAt(n, k).tail
  {
    if k > 0 {
      NodeAtNext(n.tail, k - 1);
    }
  }

  /** Reading a chain oldest-first is reading it from the head, reversed. */
  lemma {:induction false} InsertionOrderIsReversed<T>(n: ConsNode<T>)
    ensures InsertionOrder(n) == Reverse(Elems(n))
  {
    match n
    case Nil =>
    case Cons(v, tail) =>
      InsertionOrderIsReversed(tail);
      assert Elems(n)[1..] == Elems(tail);
  }

  /** The first match from the head is the most recently added match: in
      insertion order it sits at the mirrored position, and nothing added
      after it is equal to it. */
  lemma MostRecentMatch<T>(n: ConsNode<T>, d: nat, x: T)
    requires d < |Elems(n)| && Elems(n)[d] == x && x !in Elems(n)[..d]
    ensures |InsertionOrder(n)| == |Elems(n)|
    ensures InsertionOrder(n)[|Elems(n)| - 1 - d] == x
    ensures forall j :: |Elems(n)| - 1 - d < j < |InsertionOrder(n)| ==> InsertionOrder(n)[j] != x
  {
    InsertionOrderIsReversed(n);
    ReverseAt(Elems(n));
    var s := Elems(n);
    forall j | |s| - 1 - d < j < |s|
      ensures InsertionOrder(n)[j] != x
    {
      assert InsertionOrder(n)[j] == s[|s| - 1 - j];
      assert s[|s| - 1 - j] in s[..d];
    }
  }

  /** Puts `value` in a new cell in front of `node` (cons.rs `unshift`). */
  function Unshift<T>(node: ConsNode<T>, value: T): (r: ConsNode<T>)
    ensures r.Len() == node.Len() + 1
    ensures NodeAt(r, 1) == node
    ensures Elems(r) == [value] + Elems(node)
  {
    Cons(value, node)
  }

  /** The fold of `remove`: walks `values` front to back, putting each one in
      a new cell in front of what has been built so far, starting from `acc`.
      The first value therefore ends up deepest. */
  function ConsEach<T>(values: seq<T>, acc: ConsNode<T>): (r: ConsNode<T>)
    ensures Elems(r) == Reverse(values) + Elems(acc)
    ensures NodeAt(r, |values|) == acc
    decreases |values|
  {
    if values == [] then acc
    else
      var r := ConsEach(values[1..], Cons(values[0], acc));
      NodeAtNext(r, |values| - 1);
      r
  }

  /** A reference to a node, as `find` hands it out and `remove` takes it:
      `depth` is its position on the spine it was found on (its identity),
      `node` is what it points at. */
  datatype NodeRef<T> = NodeRef(depth: nat, node: ConsNode<T>)

  /** What `remove` builds, as written: the elements in front of position `k`
      re-consed in reverse onto the removed cell's tail. */
  ghost function RemovalAsWritten<T>(s: seq<T>, k: nat): seq<T>
    requires k < |s|
  {
    Reverse(s[..k]) + s[k + 1..]
  }

  /** Removal as written loses exactly one cell. */
  lemma RemovalLength<T>(s: seq<T>, k: nat)
    requires k < |s|
    ensures |RemovalAsWritten(s, k)| == |s| - 1
  {
    ReverseAt(s[..k]);
  }

  /** Removal as written loses exactly the removed element, once. */
  lemma RemovalMultiset<T>(s: seq<T>, k: nat)
    requires k < |s|
    ensures multiset(RemovalAsWritten(s, k)) == multiset(s) - multiset{s[k]}
  {
    ReverseMultiset(s[..k]);
    assert s == s[..k] + [s[k]] + s[k + 1..];
  }

  /** Removal as written keeps the order of the remaining elements exactly
      when the prefix in front of the removed cell reads the same both ways. */
  lemma RemovalKeepsOrderIff<T>(s: seq<T>, k: nat)
    requires k < |s|
    ensures RemovalAsWritten(s, k) == Delete(s, k) <==> Reverse(s[..k]) == s[..k]
  {
    ReverseAt(s[..k]);
  }

  /** Removing the head or the second cell keeps the order; the conformance
      tests only ever remove these. */
  lemma RemovalNearHeadKeepsOrder<T>(s: seq<T>, k: nat)
    requires k < |s| && k <= 1
    ensures RemovalAsWritten(s, k) == Delete(s, k)
  {
    ShortIsPalindrome(s[..k]);
    RemovalKeepsOrderIff(s, k);
  }

  /** Removing the third cell of three swaps the two cells in front of it,
      which differs from deleting it whenever those two differ. */
  lemma RemovalThirdReorders<T>(a: T, b: T, c: T)
    ensures RemovalAsWritten([a, b, c], 2) == [b, a]
    ensures Delete([a, b, c], 2) == [a, b]
    ensures a != b ==> RemovalAsWritten([a, b, c], 2) != Delete([a, b, c], 2)
  {
    assert [a, b, c][..2] == [a, b];
    assert Reverse([a, b]) == [b, a] by {
      assert [a, b][1..] == [b];
      assert Reverse([b]) == [b] by { assert [b][1..] == []; }
    }
  }

  /** A list value: a handle on the head of its chain (cons.rs `ConsList`).
      Its operations follow the `List` trait of src/kata21/list.rs; element
      equality is needed by `find`, as `T: PartialEq` in the program. */
  datatype ConsList<T(==)> = ConsList(head: ConsNode<T>)
  {
    /** The reference designates a node of this list's own chain. */
    ghost predicate Owns(r: NodeRef<T>)
    {
      r.depth <= |Elems(head)| && NodeAt(head, r.depth) == r.node
    }

    /** The list with no elements. */
    static function Empty(): (r: ConsList<T>)
      ensures Elems(r.head) == [] && r.head.Len() == 0
    {
      ConsList(Nil)
    }

    /** A new list with `value` in front; the old chain is its tail, so two
        lists added from the same parent share it, and this list is unchanged. */
    function Add(value: T): (r: ConsList<T>)
      ensures NodeAt(r.head, 1) == head
      ensures r.head.Len() == head.Len() + 1
      ensures InsertionOrder(r.head) == InsertionOrder(head) + [value]
    {
      ConsList(Unshift(head, value))
    }

    /** The first node from the head holding an element equal to `value`. */
    method Find(value: T) returns (r: Option<NodeRef<T>>)
      ensures r.None? <==> value !in Elems(head)
      ensures r.Some? ==> Owns(r.value) && r.value.node.Cons? && r.value.node.value == value
      ensures r.Some? ==> forall j :: 0 <= j < r.value.depth ==> Elems(head)[j] != value
    {
      var node := head;
      var depth: nat := 0;
      NodeAtElems(head, 0);
      while true
        invariant depth <= |Elems(head)|
        invariant node == NodeAt(head, depth)
        invariant Elems(node) == Elems(head)[depth..]
        invariant value !in Elems(head)[..depth]
        decreases node
      {
        match node
        case Cons(content, next) =>
          if value == content {
            assert Elems(head)[depth] == value;
            return Some(NodeRef(depth, node));
          }
          NodeAtNext(head, depth);
          assert Elems(head)[..depth + 1] == Elems(head)[..depth] + [content];
          node := next;
          depth := depth + 1;
        case Nil =>
          return None;
      }
    }

    /** The elements of the chain in front of the referenced node, head first:
        the walk of `remove`, which compares each node it visits with the
        reference by identity and panics if it runs off the end. */
    method PrefixBefore(r: NodeRef<T>) returns (values: seq<T>)
      requires Owns(r)
      ensures values == Elems(head)[..r.depth]
    {
      values := [];
      var node := head;
      var depth: nat := 0;
      while depth != r.depth
        invariant depth <= r.depth
        invariant node == NodeAt(head, depth)
        invariant values == Elems(head)[..depth]
        decreases r.depth - depth
      {
        NodeAtCell(head, depth);
        match node
        case Cons(value, next) =>
          NodeAtNext(head, depth);
          values := values + [value];
          node := next;
          depth := depth + 1;
        case Nil =>
          assert false;  // "Node is not in list"
      }
    }

    /** A new list without the referenced cell, built as the program builds
        it: the visited elements are re-consed in visiting order onto the
        cell's tail, which reverses them.  A reference to a terminator, of
        any list, gives back this list's head. */
    method Remove(r: NodeRef<T>) returns (l: ConsList<T>)
      requires r.node.Cons? ==> Owns(r)
      ensures r.node.Nil? ==> l.head == head
      ensures r.node.Cons? ==> r.depth < |Elems(head)|
      ensures r.node.Cons? ==> Elems(l.head) == RemovalAsWritten(Elems(head), r.depth)
      ensures r.node.Cons? ==> NodeAt(l.head, r.depth) == r.node.tail
      ensures r.node.Cons? && r.depth <= 1 ==>
        InsertionOrder(l.head) == Delete(InsertionOrder(head), |Elems(head)| - 1 - r.depth)
    {
      match r.node
      case Cons(_, tail) =>
        var values := PrefixBefore(r);
        NodeAtCell(head, r.depth);
        NodeAtElems(head, r.depth + 1);
        NodeAtNext(head, r.depth);
        l := ConsList(ConsEach(values, tail));
        ReverseAt(values);
        if r.depth <= 1 {
          RemovalNearHeadKeepsOrder(Elems(head), r.depth);
          InsertionOrderIsReversed(head);
          InsertionOrderIsReversed(l.head);
          ReverseDelete(Elems(head), r.depth);
        }
      case Nil =>
        l := ConsList(head);
    }

    /** `Remove` with the re-consing done from the last visited element back
        to the first, so that every remaining element keeps its place. */
    method RemoveInOrder(r: NodeRef<T>) returns (l: ConsList<T>)
      requires r.node.Cons? ==> Owns(r)
      ensures r.node.Nil? ==> l.head == head
      ensures r.node.Cons? ==> r.depth < |Elems(head)|
      ensures r.node.Cons? ==> Elems(l.head) == Delete(Elems(head), r.depth)
      ensures r.node.Cons? ==> NodeAt(l.head, r.depth) == r.node.tail
      ensures r.node.Cons? ==>
        InsertionOrder(l.head) == Delete(InsertionOrder(head), |Elems(head)| - 1 - r.depth)
    {
      match r.node
      case Cons(_, tail) =>
        var values := PrefixBefore(r);
        NodeAtCell(head, r.depth);
        NodeAtElems(head, r.depth + 1);
        NodeAtNext(head, r.depth);
        ReverseAt(values);
        ReverseAt(Reverse(values));
        var reversed := Reverse(values);
        assert Reverse(reversed) == values;
        l := ConsList(ConsEach(reversed, tail));
        InsertionOrderIsReversed(head);
        InsertionOrderIsReversed(l.head);
        ReverseDelete(Elems(head), r.depth);
      case Nil =>
        l := ConsList(head);
    }

    /** The elements oldest-first: pushed while walking from the head, then
        the buffer is reversed. */
    method Collect() returns (values: seq<T>)
      ensures values == InsertionOrder(head)
    {
      values := [];
      var node := head;
      while node.Cons?
        invariant values + Elems(node) == Elems(head)
        decreases node
      {
        values := values + [node.value];
        node := node.tail;
      }
      assert values == Elems(head);
      values := Reverse(values);
      InsertionOrderIsReversed(head);
    }
  }
}
