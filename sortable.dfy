/**
 * `arrayMove` of @dnd-kit/sortable: a copy of the array with the element at
 * `from` removed and inserted again at `to`.
 */
module Sortable {

  function ArrayMove<T>(s: seq<T>, from: int, to: int): (r: seq<T>)
    requires 0 <= from < |s| && 0 <= to < |s|
    ensures |r| == |s| && r[to] == s[from]
  {
    var rest := s[..from] + s[from + 1..];
    rest[..to] + [s[from]] + rest[to..]
  }

  /** The moved sequence is a permutation of the original. */
  lemma ArrayMovePermutation<T>(s: seq<T>, from: int, to: int)
    requires 0 <= from < |s| && 0 <= to < |s|
    ensures multiset(ArrayMove(s, from, to)) == multiset(s)
  {
    var rest := s[..from] + s[from + 1..];
    assert s == s[..from] + [s[from]] + s[from + 1..];
    assert multiset(s) == multiset(s[..from]) + multiset{s[from]} + multiset(s[from + 1..]);
    assert multiset(rest) == multiset(s[..from]) + multiset(s[from + 1..]);
    assert rest == rest[..to] + rest[to..];
    assert multiset(rest) == multiset(rest[..to]) + multiset(rest[to..]);
    assert ArrayMove(s, from, to) == rest[..to] + [s[from]] + rest[to..];
    var x := multiset{s[from]};
    calc {
      multiset(ArrayMove(s, from, to));
      multiset(rest[..to]) + x + multiset(rest[to..]);
      multiset(rest) + x;
      multiset(s[..from]) + multiset(s[from + 1..]) + x;
      multiset(s);
    }
  }

  /**
   * Where every other element goes: outside the span between `from` and `to`
   * nothing moves; inside it, elements shift by one towards the gap.
   */
  lemma ArrayMoveAt<T>(s: seq<T>, from: int, to: int, k: int)
    requires 0 <= from < |s| && 0 <= to < |s| && 0 <= k < |s|
    ensures (k < from && k < to) || (k > from && k > to) ==> ArrayMove(s, from, to)[k] == s[k]
    ensures from <= k < to ==> ArrayMove(s, from, to)[k] == s[k + 1]
    ensures to < k <= from ==> ArrayMove(s, from, to)[k] == s[k - 1]
  {
  }

  /** Every element of the result is an element of the input. */
  lemma ArrayMoveMembers<T>(s: seq<T>, from: int, to: int)
    requires 0 <= from < |s| && 0 <= to < |s|
    ensures forall x :: x in ArrayMove(s, from, to) <==> x in s
  {
    ArrayMovePermutation(s, from, to);
    assert forall x :: x in ArrayMove(s, from, to) <==> x in multiset(ArrayMove(s, from, to));
  }

  lemma ArrayMoveSame<T>(s: seq<T>, i: int)
    requires 0 <= i < |s|
    ensures ArrayMove(s, i, i) == s
  {
    assert s == s[..i] + [s[i]] + s[i + 1..];
  }

  /** The group [A, B, C, D] moved from 0 to 2 reads [B, C, A, D]. */
  lemma ArrayMoveExample()
    ensures ArrayMove(['A', 'B', 'C', 'D'], 0, 2) == ['B', 'C', 'A', 'D']
  {
  }
}
