# Persistent cons-list (kata 21), modelled in Dafny

The model covers the persistent singly-linked list of `src/kata21/cons.rs`.
A list value (`ConsList`) is a handle on the head of an immutable chain of
cells (`ConsNode`: `Cons(value, tail)` or the terminator `Nil`).

- `empty` gives a list with no cells.
- `add` puts a new cell in front and shares the old chain as its tail.
- `find` walks from the head and returns a reference to the first cell whose element equals the value.
- `remove` takes a node reference. It walks the chain, comparing nodes by identity, and buffers the visited elements. It then re-conses those elements onto the tail of the referenced cell.
- `collect` returns the elements oldest-added first.

Files:

- `cons.dfy`, module `Cons`: the chain, the list handle and its five operations, `len`, `unshift`, and the lemmas about them.
- `sequences.dfy`, module `Sequences`: facts about reversing a sequence and deleting a position from it.
- `conformance.dfy`, module `ConsConformance`: the generic tests of `src/kata21/tests.rs` and the unit tests at the end of `cons.rs`. Each is a client method whose postcondition is what the test asserts, proved from the operations' contracts. Three further methods are extra scenarios, not tests of the source: `RemoveLeavesOriginal`, `RemoveOldestOfThree` and `RemoveOldestOfThreeInOrder`.

Representation choices:

- Chains are Dafny datatype values, so no operation can alter a chain it was given. "The original list is unchanged" holds by construction. Sharing is stated as equality of a sub-chain: `NodeAt(r.head, 1) == head` after `Add`, and `NodeAt(l.head, k) == node.tail` after `Remove`.
- A node reference (`NodeRef`) is a depth on the spine of the list it came from, together with the node it points at. Comparing depths stands for `Rc::ptr_eq`. Element comparison in `Find` uses `==` on `T`. The two never mix.
- `Elems` (head first) and `InsertionOrder` (oldest first) are the specification views of a chain. `NodeAt(n, k)` is the node reached by following `k` tails.
- The `List` trait of `src/kata21/list.rs` only declares signatures. Its five operations appear as the members of `ConsList`. `T: PartialEq` becomes the type characteristic `T(==)`.
- `remove` as written puts the visited prefix back in reverse order, while a list removal is evidently meant to keep the order of the remaining elements. `ConsList.Remove` models the code, `ConsList.RemoveInOrder` the intent; see Findings.

## Model

| member | source | states |
|---|---|---|
| `Cons.ConsNode.Len` | src/kata21/cons.rs:14-19 | the recursive length equals the number of elements on the chain |
| `Cons.Unshift` | src/kata21/cons.rs:22-24 | the new chain is one longer, carries `value` in front of the old elements, and its tail is the old chain itself |
| `Cons.ConsList.Empty` | src/kata21/cons.rs:33-35 | the empty list has no elements and length zero |
| `Cons.ConsList.Add` | src/kata21/cons.rs:37-39 | the old chain is the new one's tail (shared, not copied); length grows by one; in insertion order the new value comes last |
| `Cons.ConsList.Find` | src/kata21/cons.rs:41-50 | `None` exactly when the value is not on the list; otherwise a reference to a node of this list holding an equal element, with no equal element closer to the head |
| `Cons.MostRecentMatch` | src/kata21/cons.rs:41-50 | the first match from the head is the most recently added equal element: nothing added after it is equal |
| `Cons.ConsList.PrefixBefore` | src/kata21/cons.rs:54-72 | the identity walk of `remove` collects exactly the elements in front of the referenced node, head first; it cannot run off the end for a node of this list |
| `Cons.ConsEach` | src/kata21/cons.rs:59-62 | the fold re-conses the values in reverse in front of the start chain, and the start chain sits shared at depth `|values|` |
| `Cons.ConsList.Remove` | src/kata21/cons.rs:52-77 | a terminator reference gives back the same head; a cell reference of this list gives the reversed prefix followed by the removed cell's shared tail; for depth 0 or 1 the collected order is the old one with that element deleted |
| `Cons.RemovalLength` | src/kata21/cons.rs:52-73 | removal loses exactly one cell |
| `Cons.RemovalMultiset` | src/kata21/cons.rs:52-73 | removal loses exactly one occurrence of the removed element and nothing else |
| `Cons.RemovalKeepsOrderIff` | src/kata21/cons.rs:59-62 | removal as written keeps the order of the rest if and only if the prefix in front of the removed cell is a palindrome |
| `Cons.RemovalNearHeadKeepsOrder` | src/kata21/cons.rs:52-73 | removing the head or the second cell keeps the order of the rest |
| `Cons.RemovalThirdReorders` | src/kata21/cons.rs:59-62 | removing the third of three cells swaps the two in front of it, unlike deleting it |
| `Cons.ConsList.RemoveInOrder` | src/kata21/cons.rs:52-77 | corrected removal: the result is the old chain with that cell deleted, order kept at every depth, suffix shared |
| `Cons.ConsList.Collect` | src/kata21/cons.rs:79-90 | the elements come out in insertion order, oldest first |
| `Cons.InsertionOrderIsReversed` | src/kata21/cons.rs:79-90 | insertion order is the head-first order reversed, which is what pushing while walking and then reversing the buffer yields |
| `Cons.NodeAtElems` | src/kata21/cons.rs:6-9 | following `k` tails reaches the chain of the elements from position `k` on |
| `Cons.NodeAtNext` | src/kata21/cons.rs:46 | a cursor step along the tail moves one depth further down |
| `ConsConformance.NewIsEmpty` | src/kata21/cons.rs:99-102 | an empty chain has length 0 |
| `ConsConformance.WithOneAddedIsOneLong` | src/kata21/cons.rs:105-109 | one cell on an empty chain has length 1 |
| `ConsConformance.AddTwo` | src/kata21/cons.rs:112-121 | two chains built on one parent both have length 2 and share that parent as tail |
| `ConsConformance.TestEmpty` | src/kata21/tests.rs:5-8 | collecting the empty list gives no elements |
| `ConsConformance.TestOne` | src/kata21/tests.rs:10-16 | one added value collects as `[v0]` |
| `ConsConformance.TestTwo` | src/kata21/tests.rs:18-26 | two added values collect oldest first, `[v0, v1]` |
| `ConsConformance.TestFound` | src/kata21/tests.rs:28-32 | an added value is found |
| `ConsConformance.TestNotFound` | src/kata21/tests.rs:34-37 | a value equal to neither element is not found |
| `ConsConformance.TestRemoveFirst` | src/kata21/tests.rs:39-49 | removing the older of two leaves `[v1]` |
| `ConsConformance.TestRemoveSecond` | src/kata21/tests.rs:51-61 | removing the newer of two leaves `[v0]` |
| `ConsConformance.TestRemoveThird` | src/kata21/tests.rs:63-75 | removing the newest of three leaves `[v0, v1]` |
| `ConsConformance.RemoveLeavesOriginal` | src/kata21/cons.rs:52-77 | `remove` takes the list by shared reference and builds a new one: after removing the newer of two elements the result collects `[v0]` and the original still collects `[v0, v1]` |
| `ConsConformance.RemoveOldestOfThree` | src/kata21/cons.rs:52-73 | removing the oldest of three distinct elements with the code as written collects `[v2, v1]` |
| `ConsConformance.RemoveOldestOfThreeInOrder` | src/kata21/cons.rs:52-73 | the same removal done in order collects `[v1, v2]` |

## Left out

- Reference counts and the `Rc::strong_count` assertions in `add_two` (src/kata21/cons.rs:117-118) are memory bookkeeping. Sharing is stated as equality of the shared sub-chain instead.
- `Borrow` and returning `Vec<&T>`: `Collect` returns the element values as a `seq<T>`.
- `Vec::reverse` in `collect` is the function `Sequences.Reverse`, not an in-place loop.
- References to nodes of other lists. A reference is a depth on the list it was found on. A terminator reference from any list is accepted and, as in the program, ignored. A cell reference must belong to the list: where the program panics ("Node is not in list"), `Remove` has the precondition `Owns`. Two consequences follow. A cell of another list that is physically shared with this one is only recognised when it sits at the same depth. A cell of a structurally equal but separate list at the same depth is accepted where the program would panic.
- `ConsList.Remove`: the precondition above replaces the panic, so the model says nothing about the panicking path.
- Thread safety of shared ownership: nothing in the program is concurrent.

## Findings

| source | as written | input that shows it | evidently intended | confidence | as-written member | corrected member |
|---|---|---|---|---|---|---|
| src/kata21/cons.rs:59-62 | `remove` folds the visited elements head first onto the removed cell's tail, which puts the prefix back in reverse order | add `v0`, `v1`, `v2` (distinct), find `v0` (depth 2), remove it: `collect` gives `[v2, v1]` | the remaining elements keep their order: `[v1, v2]` | high; not executed | `Cons.RemovalThirdReorders` | `Cons.ConsList.RemoveInOrder` |
