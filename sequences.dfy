/**
 * The abstract meaning of the list operations, stated on the sequence of
 * values a list holds from head to tail.  The list classes are specified
 * against these functions, and the lemmas here are what the classes' loops
 * rely on.
 */
module Sequences {

  /** `s` with `v` spliced in directly after position `k` (the effect of `pushAfter(k, v)`). */
  function InsertAfter<T>(s: seq<T>, k: int, v: T): (r: seq<T>)
    requires 0 <= k < |s|
    ensures |r| == |s| + 1
    ensures r[k + 1] == v
    ensures forall i {:trigger r[i]} :: 0 <= i <= k ==> r[i] == s[i]
    ensures forall i {:trigger r[i]} :: k + 1 < i < |r| ==> r[i] == s[i - 1]
  {
    s[..k + 1] + [v] + s[k + 1..]
  }

  /** Appending is splicing in after the last position. */
  lemma AppendIsInsertAfterLast<T>(s: seq<T>, v: T)
    requires |s| > 0
    ensures InsertAfter(s, |s| - 1, v) == s + [v]
  {
  }

  /** `s` without its element at position `k` (the effect of `remove(k)`). */
  function RemoveAt<T>(s: seq<T>, k: int): (r: seq<T>)
    requires 0 <= k < |s|
    ensures |r| == |s| - 1
    ensures forall i {:trigger r[i]} :: 0 <= i < k ==> r[i] == s[i]
    ensures forall i {:trigger r[i]} :: k <= i < |r| ==> r[i] == s[i + 1]
  {
    s[..k] + s[k + 1..]
  }

  /** Element-wise image of `s` under `f`, as `Array.prototype.map` computes it. */
  function MapSeq<T, U>(f: T -> U, s: seq<T>): (r: seq<U>)
    ensures |r| == |s|
    ensures forall i :: 0 <= i < |s| ==> r[i] == f(s[i])
  {
    if s == [] then [] else [f(s[0])] + MapSeq(f, s[1..])
  }

  /** The elements of `s` that satisfy `p`, in their original order, as `Array.prototype.filter` computes it. */
  function FilterSeq<T>(p: T -> bool, s: seq<T>): (r: seq<T>)
    ensures |r| <= |s|
    ensures forall i :: 0 <= i < |r| ==> p(r[i])
  {
    if s == [] then [] else (if p(s[0]) then [s[0]] else []) + FilterSeq(p, s[1..])
  }

  /** A value occurs in the filtered sequence exactly when it occurs in `s` and satisfies `p`. */
  lemma {:induction false} FilterSeqMembers<T>(p: T -> bool, s: seq<T>, x: T)
    ensures x in FilterSeq(p, s) <==> x in s && p(x)
  {
    if s != [] {
      FilterSeqMembers(p, s[1..], x);
      assert s == [s[0]] + s[1..];
    }
  }

  /** Removing what was just spliced in after `k` gives back the original sequence. */
  lemma RemoveAfterInsert<T>(s: seq<T>, k: int, v: T)
    requires 0 <= k < |s|
    ensures RemoveAt(InsertAfter(s, k, v), k + 1) == s
  {
  }

  /** Removing the first element undoes prepending one (last in, first out). */
  lemma RemoveFirstAfterPrepend<T>(s: seq<T>, v: T)
    ensures RemoveAt([v] + s, 0) == s
  {
  }

  /** Removing the first element and appending commute on a non-empty sequence (first in, first out). */
  lemma RemoveFirstBeforeAppend<T>(s: seq<T>, v: T)
    requires |s| > 0
    ensures RemoveAt(s + [v], 0) == RemoveAt(s, 0) + [v]
  {
  }

  /** Left fold of `s` starting from `a`, as `Array.prototype.reduce` with an initial value computes it. */
  function FoldLeft<A, T>(f: (A, T) -> A, a: A, s: seq<T>): A
  {
    if s == [] then a else FoldLeft(f, f(a, s[0]), s[1..])
  }

  /** A prefix one longer is the prefix followed by the next element. */
  lemma TakeSnoc<T>(s: seq<T>, i: int)
    requires 0 <= i < |s|
    ensures s[..i + 1] == s[..i] + [s[i]]
  {
  }

  /** Moving the first element of `e` to the end of `d` keeps `d + e` unchanged. */
  lemma MoveFirst<T>(d: seq<T>, e: seq<T>)
    requires |e| > 0
    ensures (d + [e[0]]) + e[1..] == d + e
  {
  }

  /** A slice one longer is the slice followed by the next element. */
  lemma SliceSnoc<T>(s: seq<T>, j: int, i: int)
    requires 0 <= j <= i < |s|
    ensures s[j..i + 1] == s[j..i] + [s[i]]
  {
  }

  /** Mapping a sequence one element longer adds the image of that element at the end. */
  lemma MapSeqSnoc<T, U>(f: T -> U, s: seq<T>, x: T)
    ensures MapSeq(f, s + [x]) == MapSeq(f, s) + [f(x)]
  {
  }

  /** Filtering is compositional: the last element is kept exactly when it satisfies `p`. */
  lemma {:induction false} FilterSeqSnoc<T>(p: T -> bool, s: seq<T>, x: T)
    ensures FilterSeq(p, s + [x]) == FilterSeq(p, s) + (if p(x) then [x] else [])
  {
    if s == [] {
      assert [x][1..] == [];
    } else {
      assert (s + [x])[1..] == s[1..] + [x];
      FilterSeqSnoc(p, s[1..], x);
    }
  }

  /** A left fold over a sequence one element longer applies `f` once more at the end. */
  lemma {:induction false} FoldLeftSnoc<A, T>(f: (A, T) -> A, a: A, s: seq<T>, x: T)
    ensures FoldLeft(f, a, s + [x]) == f(FoldLeft(f, a, s), x)
  {
    if s == [] {
      assert [x][1..] == [];
    } else {
      assert (s + [x])[1..] == s[1..] + [x];
      FoldLeftSnoc(f, f(a, s[0]), s[1..], x);
    }
  }

  /** `n, n - 1, ..., 1`: the order in which a stack fed `1, ..., n` gives its values back. */
  function CountDown(n: nat): (r: seq<int>)
    ensures |r| == n
    ensures forall i :: 0 <= i < n ==> r[i] == n - i
  {
    if n == 0 then [] else [n] + CountDown(n - 1)
  }

  /** `1, ..., n`: the order in which a queue fed `1, ..., n` gives its values back. */
  function CountUp(n: nat): (r: seq<int>)
    ensures |r| == n
    ensures forall i :: 0 <= i < n ==> r[i] == i + 1
  {
    if n == 0 then [] else CountUp(n - 1) + [n]
  }
}
