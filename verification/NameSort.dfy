// The order in which sort_list leaves a list of named nodes.
module NameSort {
  import opened CText

  /** `a` is sorted strictly before `b`. */
  predicate Before(a: CString, b: CString) {
    StrCmp(a, b) < 0
  }

  /** The test at the start of sort_list: every entry strictly before its neighbour. */
  predicate Ascending<T>(s: seq<T>, key: T -> CString) {
    forall i :: 0 <= i < |s| - 1 ==> Before(key(s[i]), key(s[i + 1]))
  }

  /** Every entry strictly before every later one. */
  predicate Strict<T>(s: seq<T>, key: T -> CString) {
    forall i, j :: 0 <= i < j < |s| ==> Before(key(s[i]), key(s[j]))
  }

  /** No entry after a later one. */
  predicate Ordered<T>(s: seq<T>, key: T -> CString) {
    forall i, j :: 0 <= i < j < |s| ==> !Before(key(s[j]), key(s[i]))
  }

  /** Where the two pointers of sort_list find the middle. */
  function Middle(n: nat): nat { (n + 1) / 2 }

  /** The merge loop: on a tie the entry of the second list goes first. */
  function Merge<T>(a: seq<T>, b: seq<T>, key: T -> CString): (r: seq<T>)
    ensures |r| == |a| + |b|
    decreases |a| + |b|
  {
    if a == [] then b
    else if b == [] then a
    else if Before(key(a[0]), key(b[0])) then [a[0]] + Merge(a[1..], b, key)
    else [b[0]] + Merge(a, b[1..], key)
  }

  function Sort<T>(s: seq<T>, key: T -> CString): (r: seq<T>)
    ensures |r| == |s|
    decreases |s|
  {
    if |s| <= 1 || Ascending(s, key) then s
    else Merge(Sort(s[..Middle(|s|)], key), Sort(s[Middle(|s|)..], key), key)
  }

  // ----- permutation -----

  lemma {:induction false} MergePermutes<T>(a: seq<T>, b: seq<T>, key: T -> CString)
    ensures multiset(Merge(a, b, key)) == multiset(a) + multiset(b)
    decreases |a| + |b|
  {
    if a != [] && b != [] {
      assert a == [a[0]] + a[1..] && b == [b[0]] + b[1..];
      if Before(key(a[0]), key(b[0])) {
        MergePermutes(a[1..], b, key);
      } else {
        MergePermutes(a, b[1..], key);
      }
    }
  }

  lemma {:induction false} SortPermutes<T>(s: seq<T>, key: T -> CString)
    ensures multiset(Sort(s, key)) == multiset(s)
    decreases |s|
  {
    if |s| > 1 && !Ascending(s, key) {
      var l, r := s[..Middle(|s|)], s[Middle(|s|)..];
      assert s == l + r;
      SortPermutes(l, key);
      SortPermutes(r, key);
      MergePermutes(Sort(l, key), Sort(r, key), key);
    }
  }

  /** Sorting keeps exactly the entries there were. */
  lemma SortMembership<T>(s: seq<T>, key: T -> CString, x: T)
    ensures x in Sort(s, key) <==> x in s
  {
    SortPermutes(s, key);
    assert x in Sort(s, key) <==> x in multiset(Sort(s, key));
    assert x in s <==> x in multiset(s);
  }

  lemma SortEntries<T>(s: seq<T>, key: T -> CString)
    ensures forall y :: y in Sort(s, key) <==> y in s
  {
    forall y ensures y in Sort(s, key) <==> y in s { SortMembership(s, key, y); }
  }

  lemma MergeMembership<T>(a: seq<T>, b: seq<T>, key: T -> CString, x: T)
    ensures x in Merge(a, b, key) <==> x in a || x in b
  {
    MergePermutes(a, b, key);
    assert x in Merge(a, b, key) <==> x in multiset(Merge(a, b, key));
    assert x in a <==> x in multiset(a);
    assert x in b <==> x in multiset(b);
  }

  // ----- order -----

  lemma {:induction false} AscendingIsStrict<T>(s: seq<T>, key: T -> CString)
    requires Ascending(s, key)
    ensures Strict(s, key)
  {
    if |s| > 1 {
      var t := s[1..];
      AscendingIsStrict(t, key);
      forall i, j | 0 <= i < j < |s| ensures Before(key(s[i]), key(s[j])) {
        if i > 0 {
          assert s[i] == t[i - 1] && s[j] == t[j - 1];
        } else if j > 1 {
          assert s[1] == t[0] && s[j] == t[j - 1];
          StrCmpTransitive(key(s[0]), key(s[1]), key(s[j]));
        }
      }
    }
  }

  lemma StrictIsOrdered<T>(s: seq<T>, key: T -> CString)
    requires Strict(s, key)
    ensures Ordered(s, key)
  {
    forall i, j | 0 <= i < j < |s| ensures !Before(key(s[j]), key(s[i])) {
      StrCmpAntisymmetric(key(s[i]), key(s[j]));
    }
  }

  /** `a` not after `b` and `b` not after `c`. */
  lemma NotAfterTransitive(a: CString, b: CString, c: CString)
    requires !Before(b, a) && !Before(c, b)
    ensures !Before(c, a)
  {
    StrCmpAntisymmetric(a, b);
    StrCmpAntisymmetric(b, c);
    StrCmpAntisymmetric(a, c);
    StrCmpZero(a, b);
    StrCmpZero(b, c);
    if Before(a, b) && Before(b, c) {
      StrCmpTransitive(a, b, c);
    }
  }

  lemma {:induction false} MergeOrdered<T>(a: seq<T>, b: seq<T>, key: T -> CString)
    requires Ordered(a, key) && Ordered(b, key)
    ensures Ordered(Merge(a, b, key), key)
    decreases |a| + |b|
  {
    if a != [] && b != [] {
      if Before(key(a[0]), key(b[0])) {
        StrCmpAntisymmetric(key(a[0]), key(b[0]));
        MergeOrdered(a[1..], b, key);
        OrderedCons(a[0], a[1..], b, key);
      } else {
        MergeOrdered(a, b[1..], key);
        OrderedCons(b[0], b[1..], a, key);
        forall x | x in Merge(a, b[1..], key) ensures !Before(key(x), key(b[0])) {
          MergeMembership(a, b[1..], key, x);
        }
      }
    }
  }

  /** A first entry not after those of two lists is not after their merge. */
  lemma OrderedCons<T>(h: T, own: seq<T>, other: seq<T>, key: T -> CString)
    requires Ordered([h] + own, key) && Ordered(other, key)
    requires other != [] ==> !Before(key(other[0]), key(h))
    ensures forall x :: x in own || x in other ==> !Before(key(x), key(h))
    ensures Ordered(Merge(own, other, key), key) ==> Ordered([h] + Merge(own, other, key), key)
  {
    forall x | x in own || x in other ensures !Before(key(x), key(h)) {
      if x in own {
        var i :| 0 <= i < |own| && own[i] == x;
        assert ([h] + own)[i + 1] == x && ([h] + own)[0] == h;
      } else {
        var i :| 0 <= i < |other| && other[i] == x;
        if i > 0 {
          NotAfterTransitive(key(h), key(other[0]), key(x));
        }
      }
    }
    forall x | x in Merge(own, other, key) ensures !Before(key(x), key(h)) {
      MergeMembership(own, other, key, x);
    }
  }

  /** sort_list orders every list, with or without repeated names. */
  lemma {:induction false} SortOrders<T>(s: seq<T>, key: T -> CString)
    ensures Ordered(Sort(s, key), key)
    decreases |s|
  {
    if |s| > 1 {
      if Ascending(s, key) {
        AscendingIsStrict(s, key);
        StrictIsOrdered(s, key);
      } else {
        var m := Middle(|s|);
        SortOrders(s[..m], key);
        SortOrders(s[m..], key);
        MergeOrdered(Sort(s[..m], key), Sort(s[m..], key), key);
      }
    }
  }

  // ----- distinct names -----

  predicate DistinctKeys<T>(s: seq<T>, key: T -> CString) {
    forall i, j :: 0 <= i < j < |s| ==> key(s[i]) != key(s[j])
  }

  lemma {:induction false} MergeStrict<T>(a: seq<T>, b: seq<T>, key: T -> CString)
    requires Strict(a, key) && Strict(b, key)
    requires forall x, y :: x in a && y in b ==> key(x) != key(y)
    ensures Strict(Merge(a, b, key), key)
    decreases |a| + |b|
  {
    if a != [] && b != [] {
      if Before(key(a[0]), key(b[0])) {
        MergeStrict(a[1..], b, key);
        StrictCons(a, b, key);
      } else {
        StrCmpZero(key(a[0]), key(b[0]));
        StrCmpAntisymmetric(key(a[0]), key(b[0]));
        MergeStrict(a, b[1..], key);
        forall x | x in Merge(a, b[1..], key) ensures Before(key(b[0]), key(x)) {
          MergeMembership(a, b[1..], key, x);
          if x in a {
            var i :| 0 <= i < |a| && a[i] == x;
            if i > 0 { StrCmpTransitive(key(b[0]), key(a[0]), key(x)); }
          }
        }
      }
    }
  }

  lemma StrictCons<T>(a: seq<T>, b: seq<T>, key: T -> CString)
    requires a != [] && b != [] && Strict(a, key) && Strict(b, key)
    requires Before(key(a[0]), key(b[0]))
    ensures forall x :: x in Merge(a[1..], b, key) ==> Before(key(a[0]), key(x))
  {
    forall x | x in Merge(a[1..], b, key) ensures Before(key(a[0]), key(x)) {
      MergeMembership(a[1..], b, key, x);
      if x in b {
        var i :| 0 <= i < |b| && b[i] == x;
        if i > 0 { StrCmpTransitive(key(a[0]), key(b[0]), key(x)); }
      }
    }
  }

  lemma HalvesDistinct<T>(s: seq<T>, m: nat, key: T -> CString)
    requires DistinctKeys(s, key) && m <= |s|
    ensures DistinctKeys(s[..m], key) && DistinctKeys(s[m..], key)
    ensures forall x, y :: x in s[..m] && y in s[m..] ==> key(x) != key(y)
  {
    forall x, y | x in s[..m] && y in s[m..] ensures key(x) != key(y) {
      var i :| 0 <= i < m && s[..m][i] == x;
      var j :| 0 <= j < |s| - m && s[m..][j] == y;
      assert s[i] == x && s[m + j] == y;
    }
  }

  lemma KeysApart<T>(l: seq<T>, r: seq<T>, a: seq<T>, b: seq<T>, key: T -> CString)
    requires (forall x :: x in a <==> x in l) && (forall y :: y in b <==> y in r)
    requires forall x, y :: x in l && y in r ==> key(x) != key(y)
    ensures forall x, y :: x in a && y in b ==> key(x) != key(y)
  {
  }

  /** With distinct names the result is strictly ascending. */
  lemma {:induction false} SortStrict<T>(s: seq<T>, key: T -> CString)
    requires DistinctKeys(s, key)
    ensures Strict(Sort(s, key), key)
    decreases |s|
  {
    if |s| > 1 {
      if Ascending(s, key) {
        AscendingIsStrict(s, key);
      } else {
        var m := Middle(|s|);
        HalvesDistinct(s, m, key);
        SortStrict(s[..m], key);
        SortStrict(s[m..], key);
        SortEntries(s[..m], key);
        SortEntries(s[m..], key);
        KeysApart(s[..m], s[m..], Sort(s[..m], key), Sort(s[m..], key), key);
        MergeStrict(Sort(s[..m], key), Sort(s[m..], key), key);
      }
    }
  }

  // ----- when the ends stay in place -----

  /** The first entry is strictly before all others. */
  predicate FirstIsLeast<T>(s: seq<T>, key: T -> CString) {
    forall i :: 0 < i < |s| ==> Before(key(s[0]), key(s[i]))
  }

  /** The last entry is strictly after all others. */
  predicate LastIsGreatest<T>(s: seq<T>, key: T -> CString) {
    forall i :: 0 <= i < |s| - 1 ==> Before(key(s[i]), key(s[|s| - 1]))
  }

  lemma BeforeNotAfter(a: CString, b: CString, c: CString)
    requires Before(a, b) && !Before(c, b)
    ensures Before(a, c)
  {
    StrCmpAntisymmetric(b, c);
    StrCmpZero(b, c);
    if Before(b, c) { StrCmpTransitive(a, b, c); }
  }

  lemma NotAfterBefore(a: CString, b: CString, c: CString)
    requires !Before(b, a) && Before(b, c)
    ensures Before(a, c)
  {
    StrCmpAntisymmetric(a, b);
    StrCmpZero(a, b);
    if Before(a, b) { StrCmpTransitive(a, b, c); }
  }

  predicate BeforeAll<T(==)>(x: T, s: seq<T>, key: T -> CString) {
    forall y | y in s :: Before(key(x), key(y))
  }

  predicate AfterAll<T(==)>(s: seq<T>, x: T, key: T -> CString) {
    forall y | y in s :: Before(key(y), key(x))
  }

  lemma OrderedFirst<T>(x: T, r: seq<T>, key: T -> CString)
    requires Ordered(r, key) && r != []
    ensures Before(key(x), key(r[0])) <==> BeforeAll(x, r, key)
  {
    if Before(key(x), key(r[0])) {
      forall y | y in r ensures Before(key(x), key(y)) {
        var j :| 0 <= j < |r| && r[j] == y;
        if j > 0 { BeforeNotAfter(key(x), key(r[0]), key(r[j])); }
      }
    }
  }

  lemma OrderedLast<T>(r: seq<T>, x: T, key: T -> CString)
    requires Ordered(r, key) && r != []
    ensures Before(key(r[|r| - 1]), key(x)) <==> AfterAll(r, x, key)
  {
    if Before(key(r[|r| - 1]), key(x)) {
      forall y | y in r ensures Before(key(y), key(x)) {
        var j :| 0 <= j < |r| && r[j] == y;
        if j < |r| - 1 { NotAfterBefore(key(r[j]), key(r[|r| - 1]), key(x)); }
      }
    }
  }

  /** The same entries in another order are before or after the same. */
  lemma SameEntries<T>(x: T, r: seq<T>, s: seq<T>, key: T -> CString)
    requires forall y :: y in r <==> y in s
    ensures BeforeAll(x, r, key) <==> BeforeAll(x, s, key)
    ensures AfterAll(r, x, key) <==> AfterAll(s, x, key)
  {
  }

  /** Which of two last entries a merge ends with: the later one, the first list's on a tie. */
  function LaterOf<T>(x: T, y: T, key: T -> CString): T {
    if Before(key(x), key(y)) then y else x
  }

  lemma {:induction false} MergeLast<T>(a: seq<T>, b: seq<T>, key: T -> CString)
    requires a != [] && b != [] && Ordered(a, key) && Ordered(b, key)
    ensures Merge(a, b, key)[|a| + |b| - 1] == LaterOf(a[|a| - 1], b[|b| - 1], key)
    decreases |a| + |b|
  {
    if Before(key(a[0]), key(b[0])) {
      if |a| > 1 { MergeLast(a[1..], b, key); }
      LastBehindFirst(a, b, key);
    } else {
      if |b| > 1 { MergeLast(a, b[1..], key); }
      LastBehindSecond(a, b, key);
    }
  }

  lemma {:induction false} LastBehindFirst<T>(a: seq<T>, b: seq<T>, key: T -> CString)
    requires a != [] && b != [] && Ordered(b, key) && Before(key(a[0]), key(b[0]))
    requires |a| > 1 ==> Merge(a[1..], b, key)[|a| + |b| - 2] == LaterOf(a[|a| - 1], b[|b| - 1], key)
    ensures Merge(a, b, key)[|a| + |b| - 1] == LaterOf(a[|a| - 1], b[|b| - 1], key)
  {
    LastOfCons(a[0], Merge(a[1..], b, key));
    if |a| == 1 {
      LastNotBefore(b, key);
      BeforeNotAfter(key(a[0]), key(b[0]), key(b[|b| - 1]));
    }
  }

  lemma {:induction false} LastBehindSecond<T>(a: seq<T>, b: seq<T>, key: T -> CString)
    requires a != [] && b != [] && Ordered(a, key) && !Before(key(a[0]), key(b[0]))
    requires |b| > 1 ==> Merge(a, b[1..], key)[|a| + |b| - 2] == LaterOf(a[|a| - 1], b[|b| - 1], key)
    ensures Merge(a, b, key)[|a| + |b| - 1] == LaterOf(a[|a| - 1], b[|b| - 1], key)
  {
    LastOfCons(b[0], Merge(a, b[1..], key));
    if |b| == 1 {
      LastNotBefore(a, key);
      NotAfterTransitive(key(b[0]), key(a[0]), key(a[|a| - 1]));
    }
  }

  lemma LastOfCons<T>(x: T, rest: seq<T>)
    requires rest != []
    ensures ([x] + rest)[|rest|] == rest[|rest| - 1]
  {
  }

  lemma LastNotBefore<T>(s: seq<T>, key: T -> CString)
    requires s != [] && Ordered(s, key)
    ensures !Before(key(s[|s| - 1]), key(s[0]))
  {
    StrCmpZero(key(s[0]), key(s[0]));
  }

  predicate NoRepeats<T(==)>(s: seq<T>) {
    forall i, j :: 0 <= i < j < |s| ==> s[i] != s[j]
  }

  lemma EndsInTwo<T>(l: seq<T>, r: seq<T>, key: T -> CString)
    requires l != [] && r != []
    ensures FirstIsLeast(l + r, key) <==> FirstIsLeast(l, key) && BeforeAll(l[0], r, key)
    ensures LastIsGreatest(l + r, key) <==> LastIsGreatest(r, key) && AfterAll(l, r[|r| - 1], key)
  {
    var s := l + r;
    assert forall i :: 0 <= i < |l| ==> s[i] == l[i];
    assert forall i :: 0 <= i < |r| ==> s[|l| + i] == r[i];
    if FirstIsLeast(l, key) && BeforeAll(l[0], r, key) {
      forall i | 0 < i < |s| ensures Before(key(s[0]), key(s[i])) {
        if i >= |l| { assert r[i - |l|] in r; }
      }
    }
    if LastIsGreatest(r, key) && AfterAll(l, r[|r| - 1], key) {
      forall i | 0 <= i < |s| - 1 ensures Before(key(s[i]), key(s[|s| - 1])) {
        if i < |l| { assert l[i] in l; } else { assert s[i] == r[i - |l|]; }
      }
    }
  }

  lemma LastOfMerge<T>(a: seq<T>, b: seq<T>, x: T, key: T -> CString)
    requires a != [] && b != [] && x !in a && Ordered(a, key) && Ordered(b, key)
    ensures Merge(a, b, key)[|a| + |b| - 1] == x <==> b[|b| - 1] == x && Before(key(a[|a| - 1]), key(x))
  {
    MergeLast(a, b, key);
    assert a[|a| - 1] in a;
  }

  lemma PartsDiffer<T>(l: seq<T>, r: seq<T>)
    requires NoRepeats(l + r)
    ensures NoRepeats(l) && NoRepeats(r) && forall x :: x in l ==> x !in r
  {
    assert forall i :: 0 <= i < |l| ==> (l + r)[i] == l[i];
    assert forall i :: 0 <= i < |r| ==> (l + r)[|l| + i] == r[i];
  }

  /** The merge of two halves, each in order, keeps the first entry of the whole in front. */
  lemma FirstOfHalves<T>(l: seq<T>, r: seq<T>, a: seq<T>, b: seq<T>, key: T -> CString)
    requires NoRepeats(l + r) && |a| == |l| > 0 && |b| == |r| > 0 && Ordered(b, key)
    requires forall y :: y in b <==> y in r
    requires a[0] == l[0] <==> FirstIsLeast(l, key)
    ensures Merge(a, b, key)[0] == l[0] <==> FirstIsLeast(l + r, key)
  {
    PartsDiffer(l, r);
    assert b[0] in b && l[0] in l;
    OrderedFirst(l[0], b, key);
    SameEntries(l[0], b, r, key);
    EndsInTwo(l, r, key);
  }

  /** And its last entry at the end. */
  lemma {:induction false} LastOfHalves<T>(l: seq<T>, r: seq<T>, a: seq<T>, b: seq<T>, key: T -> CString)
    requires NoRepeats(l + r) && |a| == |l| > 0 && |b| == |r| > 0 && Ordered(a, key) && Ordered(b, key)
    requires forall y :: y in a <==> y in l
    requires b[|b| - 1] == r[|r| - 1] <==> LastIsGreatest(r, key)
    ensures Merge(a, b, key)[|a| + |b| - 1] == r[|r| - 1] <==> LastIsGreatest(l + r, key)
  {
    var x := r[|r| - 1];
    PartsDiffer(l, r);
    assert x in r;
    LastOfMerge(a, b, x, key);
    SameEntries(x, a, l, key);
    OrderedLast(a, x, key);
    EndsInTwo(l, r, key);
  }

  /** The two halves that are sorted and merged. */
  lemma {:induction false} Halves<T>(s: seq<T>, key: T -> CString) returns (l: seq<T>, r: seq<T>)
    requires |s| > 1 && !Ascending(s, key)
    ensures s == l + r && l != [] && r != [] && s[0] == l[0] && s[|s| - 1] == r[|r| - 1]
    ensures Sort(s, key) == Merge(Sort(l, key), Sort(r, key), key)
  {
    l, r := s[..Middle(|s|)], s[Middle(|s|)..];
  }

  /** The first of different entries stays first if and only if its name is strictly before all others. */
  lemma {:induction false} FirstStays<T>(s: seq<T>, key: T -> CString)
    requires NoRepeats(s) && s != []
    ensures Sort(s, key)[0] == s[0] <==> FirstIsLeast(s, key)
    decreases |s|
  {
    if |s| > 1 {
      if Ascending(s, key) {
        AscendingIsStrict(s, key);
      } else {
        var l, r := Halves(s, key);
        PartsDiffer(l, r);
        FirstStays(l, key);
        SortOrders(r, key);
        SortEntries(r, key);
        FirstOfHalves(l, r, Sort(l, key), Sort(r, key), key);
      }
    }
  }

  /** The last of different entries stays last if and only if its name is strictly after all others. */
  lemma {:induction false} LastStays<T>(s: seq<T>, key: T -> CString)
    requires NoRepeats(s) && s != []
    ensures Sort(s, key)[|s| - 1] == s[|s| - 1] <==> LastIsGreatest(s, key)
    decreases |s|
  {
    if |s| > 1 {
      if Ascending(s, key) {
        AscendingIsStrict(s, key);
      } else {
        var l, r := Halves(s, key);
        PartsDiffer(l, r);
        LastStays(r, key);
        LastOfSorted(l, r, key);
      }
    }
  }

  lemma {:induction false} LastOfSorted<T>(l: seq<T>, r: seq<T>, key: T -> CString)
    requires NoRepeats(l + r) && l != [] && r != []
    requires Sort(r, key)[|r| - 1] == r[|r| - 1] <==> LastIsGreatest(r, key)
    ensures Merge(Sort(l, key), Sort(r, key), key)[|l| + |r| - 1] == r[|r| - 1] <==> LastIsGreatest(l + r, key)
  {
    SortOrders(l, key);
    SortOrders(r, key);
    SortEntries(l, key);
    LastOfHalves(l, r, Sort(l, key), Sort(r, key), key);
  }

  predicate HasKey<T>(s: seq<T>, key: T -> CString, k: CString) {
    exists j :: 0 <= j < |s| && key(s[j]) == k
  }

  /** A strictly ascending list is determined by its set of keys. */
  lemma {:induction false} StrictUnique<T, U>(a: seq<T>, b: seq<U>, ka: T -> CString, kb: U -> CString)
    requires Strict(a, ka) && Strict(b, kb)
    requires forall i :: 0 <= i < |a| ==> HasKey(b, kb, ka(a[i]))
    requires forall j :: 0 <= j < |b| ==> HasKey(a, ka, kb(b[j]))
    ensures |a| == |b|
    ensures forall i :: 0 <= i < |a| ==> ka(a[i]) == kb(b[i])
  {
    if a == [] || b == [] {
      assert a != [] ==> HasKey(b, kb, ka(a[0]));
      assert b != [] ==> HasKey(a, ka, kb(b[0]));
    } else {
      HeadsAgree(a, b, ka, kb);
      var ta, tb := a[1..], b[1..];
      forall i | 0 <= i < |ta| ensures HasKey(tb, kb, ka(ta[i])) {
        TailHasKey(a, b, ka, kb, i + 1);
      }
      forall j | 0 <= j < |tb| ensures HasKey(ta, ka, kb(tb[j])) {
        TailHasKey(b, a, kb, ka, j + 1);
      }
      StrictUnique(ta, tb, ka, kb);
      forall i | 0 <= i < |a| ensures ka(a[i]) == kb(b[i]) {
        if i > 0 { assert a[i] == ta[i - 1] && b[i] == tb[i - 1]; }
      }
    }
  }

  lemma TailHasKey<T, U>(a: seq<T>, b: seq<U>, ka: T -> CString, kb: U -> CString, i: nat)
    requires Strict(a, ka) && 0 < i < |a| && b != []
    requires ka(a[0]) == kb(b[0]) && HasKey(b, kb, ka(a[i]))
    ensures HasKey(b[1..], kb, ka(a[1..][i - 1]))
  {
    var j :| 0 <= j < |b| && kb(b[j]) == ka(a[i]);
    StrCmpZero(ka(a[0]), ka(a[i]));
    assert j > 0;
    assert kb(b[1..][j - 1]) == ka(a[i]);
  }

  lemma HeadsAgree<T, U>(a: seq<T>, b: seq<U>, ka: T -> CString, kb: U -> CString)
    requires a != [] && b != [] && Strict(a, ka) && Strict(b, kb)
    requires forall i :: 0 <= i < |a| ==> HasKey(b, kb, ka(a[i]))
    requires forall j :: 0 <= j < |b| ==> HasKey(a, ka, kb(b[j]))
    ensures ka(a[0]) == kb(b[0])
  {
    assert HasKey(b, kb, ka(a[0])) && HasKey(a, ka, kb(b[0]));
    var j :| 0 <= j < |b| && ka(a[0]) == kb(b[j]);
    var i :| 0 <= i < |a| && ka(a[i]) == kb(b[0]);
    StrCmpAntisymmetric(ka(a[0]), kb(b[0]));
  }
}
