/** The array edits the board code performs on fresh copies:
    `splice(i, 1)`, `splice(j, 0, x)` and a destructuring swap. */
module Seqs {

  /** `copy.splice(i, 1)` on a copy of `s`: the element at `i` is dropped
      and the rest keep their order. */
  function RemoveAt<T>(s: seq<T>, i: nat): (r: seq<T>)
    requires i < |s|
    ensures |r| == |s| - 1
    ensures forall k :: 0 <= k < i ==> r[k] == s[k]
    ensures forall k :: i <= k < |r| ==> r[k] == s[k + 1]
    ensures multiset(r) + multiset{s[i]} == multiset(s)
  {
    assert s == s[..i] + [s[i]] + s[i + 1..];
    s[..i] + s[i + 1..]
  }

  /** `copy.splice(j, 0, x)` on a copy of `s`: `x` is inserted before
      position `j`; a `j` beyond the end appends, as `splice` clamps the
      start index to the length. */
  function InsertAt<T>(s: seq<T>, j: nat, x: T): (r: seq<T>)
    ensures |r| == |s| + 1
    ensures var p := if j <= |s| then j else |s|;
      && r[p] == x
      && (forall k :: 0 <= k < p ==> r[k] == s[k])
      && (forall k :: p < k < |r| ==> r[k] == s[k - 1])
    ensures multiset(r) == multiset(s) + multiset{x}
  {
    var p := if j <= |s| then j else |s|;
    assert s == s[..p] + s[p..];
    s[..p] + [x] + s[p..]
  }

  /** Removing what was just inserted gives the sequence back. */
  lemma RemoveInserted<T>(s: seq<T>, j: nat, x: T)
    requires j <= |s|
    ensures RemoveAt(InsertAt(s, j, x), j) == s
  {
    var r := RemoveAt(InsertAt(s, j, x), j);
    assert forall k :: 0 <= k < |s| ==> r[k] == s[k];
  }

  /** `[copy[i], copy[j]] = [copy[j], copy[i]]` on a copy of `s`. */
  function Swap<T>(s: seq<T>, i: nat, j: nat): (r: seq<T>)
    requires i < |s| && j < |s|
    ensures |r| == |s|
    ensures r[i] == s[j] && r[j] == s[i]
    ensures forall k :: 0 <= k < |s| && k != i && k != j ==> r[k] == s[k]
    ensures multiset(r) == multiset(s)
  {
    var r := s[i := s[j]][j := s[i]];
    SwapPermutes(s, i, j);
    r
  }

  /** Exchanging two positions keeps the multiset of elements. */
  lemma SwapPermutes<T>(s: seq<T>, i: nat, j: nat)
    requires i < |s| && j < |s|
    ensures multiset(s[i := s[j]][j := s[i]]) == multiset(s)
  {
    var t := s[i := s[j]];
    assert multiset(t) == multiset(s) - multiset{s[i]} + multiset{s[j]};
    assert t[j] == if i == j then s[i] else s[j];
    assert multiset(t[j := s[i]]) == multiset(t) - multiset{t[j]} + multiset{s[i]};
  }

  /** The order of the two positions does not matter. */
  lemma SwapSymmetric<T>(s: seq<T>, i: nat, j: nat)
    requires i < |s| && j < |s|
    ensures Swap(s, i, j) == Swap(s, j, i)
  {
  }

  /** Swapping the same two positions again undoes a swap. */
  lemma SwapTwice<T>(s: seq<T>, i: nat, j: nat)
    requires i < |s| && j < |s|
    ensures Swap(Swap(s, i, j), i, j) == s
  {
  }
}
