// Facts about sequences that several components need.
module Sequences {
  import opened Wrappers

  function RemoveAt<T>(s: seq<T>, i: nat): (r: seq<T>)
    requires i < |s|
    ensures |r| == |s| - 1
    ensures forall j {:trigger r[j]} :: 0 <= j < |r| ==> r[j] == if j < i then s[j] else s[j + 1]
  {
    s[..i] + s[i + 1..]
  }

  function InsertAt<T>(s: seq<T>, i: nat, x: T): (r: seq<T>)
    requires i <= |s|
    ensures |r| == |s| + 1
    ensures forall j {:trigger r[j]} :: 0 <= j < |r| ==> r[j] == if j < i then s[j] else if j == i then x else s[j - 1]
  {
    s[..i] + [x] + s[i..]
  }

  lemma Regroup<T>(a: seq<T>, b: seq<T>, c: seq<T>)
    ensures a + (b + c) == (a + b) + c
  {
  }

  lemma AppendNothing<T>(s: seq<T>)
    ensures s + [] == s
  {
  }

  /** `a` in front of a result, if there is one. */
  function PutBefore<T>(a: seq<T>, r: Option<seq<T>>): Option<seq<T>> {
    if r.None? then None else Some(a + r.value)
  }

  lemma NothingBefore<T>(r: Option<seq<T>>)
    ensures PutBefore([], r) == r
  {
    if r.Some? { assert [] + r.value == r.value; }
  }

  lemma TwiceBefore<T>(a: seq<T>, b: seq<T>, r: Option<seq<T>>)
    ensures PutBefore(a, PutBefore(b, r)) == PutBefore(a + b, r)
  {
    if r.Some? { Regroup(a, b, r.value); }
  }

  /** `n` neighbouring elements. */
  function Part<T>(s: seq<T>, start: nat, n: nat): (r: seq<T>)
    requires start + n <= |s|
    ensures |r| == n && forall i {:trigger r[i]} :: 0 <= i < n ==> r[i] == s[start + i]
  {
    seq(n, (i: nat) requires i < n => s[start + i])
  }
}
