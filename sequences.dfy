/** Facts about reversing a sequence and deleting one position from it.
    The cons-list reverses its element buffer in two places (collecting
    oldest-first, and re-consing the prefix during removal), so these
    are the sequence-level building blocks of its proofs. */
module Sequences {

  /** The elements of `s` in the opposite order. */
  function Reverse<T>(s: seq<T>): (r: seq<T>)
  {
    if s == [] then [] else Reverse(s[1..]) + [s[0]]
  }

  /** `s` without the element at position `i`, the others in their order. */
  function Delete<T>(s: seq<T>, i: nat): (r: seq<T>)
    requires i < |s|
    ensures |r| == |s| - 1
    ensures forall j :: 0 <= j < i ==> r[j] == s[j]
    ensures forall j :: i <= j < |r| ==> r[j] == s[j + 1]
  {
    s[..i] + s[i + 1..]
  }

  lemma {:induction false} ReverseAt<T>(s: seq<T>)
    ensures |Reverse(s)| == |s|
    ensures forall i :: 0 <= i < |s| ==> Reverse(s)[i] == s[|s| - 1 - i]
  {
    if s != [] {
      ReverseAt(s[1..]);
    }
  }

  lemma {:induction false} ReverseMultiset<T>(s: seq<T>)
    ensures multiset(Reverse(s)) == multiset(s)
  {
    if s != [] {
      ReverseMultiset(s[1..]);
      assert s == [s[0]] + s[1..];
    }
  }

  /** Deleting a position and reversing commute, the position being mirrored. */
  lemma ReverseDelete<T>(s: seq<T>, i: nat)
    requires i < |s|
    ensures |Reverse(s)| == |s|
    ensures Reverse(Delete(s, i)) == Delete(Reverse(s), |s| - 1 - i)
  {
    ReverseAt(s);
    ReverseAt(Delete(s, i));
  }

  /** A sequence of at most one element is its own reverse. */
  lemma ShortIsPalindrome<T>(s: seq<T>)
    requires |s| <= 1
    ensures Reverse(s) == s
  {
  }
}
