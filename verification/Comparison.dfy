// compare_json: sort both objects by name, then walk them side by side.
module Comparison {
  import opened CText
  import opened JsonTree
  import opened NameSort

  function MemberKey(cs: bool): Member -> CString {
    (m: Member) => Key(m.name, cs)
  }

  /** sort_object on the members of one object. */
  function SortMembers(members: seq<Member>, cs: bool): (r: seq<Member>)
    ensures |r| == |members|
    ensures forall m :: m in r <==> m in members
  {
    var r := Sort(members, MemberKey(cs));
    assert forall m :: m in r <==> m in members by {
      forall m ensures m in r <==> m in members { SortMembership(members, MemberKey(cs), m); }
    }
    r
  }

  function CompareJson(a: Json, b: Json, cs: bool): bool
    decreases a, 1, 0
  {
    match (a, b)
    case (Number(m), Number(n)) => m == n
    case (Text(s), Text(t)) => s == t
    case (Array(s), Array(t)) => CompareItems(a, s, t, cs)
    case (Object(s), Object(t)) => CompareMembers(a, SortMembers(s, cs), SortMembers(t, cs), cs)
    case (Raw(_), Raw(_)) => true
    case (Invalid, Invalid) => true
    case (Null, Null) => true
    case (False, False) => true
    case (True, True) => true
    case _ => false
  }

  function CompareItems(ghost whole: Json, s: seq<Json>, t: seq<Json>, cs: bool): bool
    requires forall i :: 0 <= i < |s| ==> s[i] < whole
    decreases whole, 0, |s|
  {
    if s == [] || t == [] then s == [] && t == []
    else CompareJson(s[0], t[0], cs) && CompareItems(whole, s[1..], t[1..], cs)
  }

  function CompareMembers(ghost whole: Json, s: seq<Member>, t: seq<Member>, cs: bool): bool
    requires forall m :: m in s ==> m.value < whole
    decreases whole, 0, |s|
  {
    if s == [] || t == [] then s == [] && t == []
    else
      StrCmp(Key(s[0].name, cs), Key(t[0].name, cs)) == 0
      && CompareJson(s[0].value, t[0].value, cs)
      && CompareMembers(whole, s[1..], t[1..], cs)
  }

  /** The sorted members of an object are parts of it. */
  lemma SortedParts(whole: Json, cs: bool)
    requires whole.Object?
    ensures forall m :: m in SortMembers(whole.members, cs) ==> m.value < whole
  {
    assert forall m :: m in whole.members ==> m.value < whole;
  }

  /** compare_json with its loops. */
  method CompareTrees(a: Json, b: Json, cs: bool) returns (same: bool)
    ensures same == CompareJson(a, b, cs)
    decreases a, 1
  {
    if Kind(a) != Kind(b) {
      return false;
    }
    match a
    case Number(n) => same := n == b.n;
    case Text(s) => same := s == b.text;
    case Array(items) => same := CompareItemLists(a, b, cs);
    case Object(members) => same := CompareMemberLists(a, b, cs);
    case _ => same := true;
  }

  method CompareItemLists(a: Json, b: Json, cs: bool) returns (same: bool)
    requires a.Array? && b.Array?
    ensures same == CompareItems(a, a.items, b.items, cs)
    decreases a, 0
  {
    var s, t := a.items, b.items;
    while s != [] && t != []
      invariant forall i :: 0 <= i < |s| ==> s[i] < a
      invariant CompareItems(a, s, t, cs) == CompareItems(a, a.items, b.items, cs)
      decreases |s|
    {
      var identical := CompareTrees(s[0], t[0], cs);
      if !identical {
        return false;
      }
      s, t := s[1..], t[1..];
    }
    same := s == [] && t == [];
  }

  method CompareMemberLists(a: Json, b: Json, cs: bool) returns (same: bool)
    requires a.Object? && b.Object?
    ensures same == CompareMembers(a, SortMembers(a.members, cs), SortMembers(b.members, cs), cs)
    decreases a, 0
  {
    var s, t := SortMembers(a.members, cs), SortMembers(b.members, cs);
    SortedParts(a, cs);
    while s != [] && t != []
      invariant forall m :: m in s ==> m.value < a
      invariant CompareMembers(a, s, t, cs)
           == CompareMembers(a, SortMembers(a.members, cs), SortMembers(b.members, cs), cs)
      decreases |s|
    {
      var order := CompareStrings(s[0].name, t[0].name, cs);
      if order != 0 {
        return false;
      }
      var identical := CompareTrees(s[0].value, t[0].value, cs);
      if !identical {
        return false;
      }
      s, t := s[1..], t[1..];
    }
    same := s == [] && t == [];
  }

  /** Equal values, except that the texts of raw nodes are not looked at. */
  predicate SameButRaw(u: Value, v: Value) {
    match (u, v)
    case (Atom(a), Atom(b)) => a == b || (a.Raw? && b.Raw?)
    case (List(s), List(t)) => |s| == |t| && forall i :: 0 <= i < |s| ==> SameButRaw(s[i], t[i])
    case (Fields(f), Fields(g)) => f.Keys == g.Keys && forall k :: k in f ==> SameButRaw(f[k], g[k])
    case _ => false
  }

  predicate NoRaw(v: Value) {
    match v
    case Atom(a) => !a.Raw?
    case List(s) => forall i :: 0 <= i < |s| ==> NoRaw(s[i])
    case Fields(f) => forall k :: k in f ==> NoRaw(f[k])
  }

  lemma {:induction false} SameWithoutRaw(u: Value, v: Value)
    requires NoRaw(u)
    ensures SameButRaw(u, v) <==> u == v
  {
    match (u, v)
    case (List(s), List(t)) =>
      if |s| == |t| {
        forall i | 0 <= i < |s| ensures SameButRaw(s[i], t[i]) <==> s[i] == t[i] { SameWithoutRaw(s[i], t[i]); }
        assert (forall i :: 0 <= i < |s| ==> s[i] == t[i]) <==> s == t;
      }
    case (Fields(f), Fields(g)) =>
      if f.Keys == g.Keys {
        forall k | k in f ensures SameButRaw(f[k], g[k]) <==> f[k] == g[k] { SameWithoutRaw(f[k], g[k]); }
        assert (forall k :: k in f ==> f[k] == g[k]) <==> f == g;
      }
    case _ =>
  }

  // ----- sorting keeps the meaning -----

  lemma DistinctIsDistinctKeys(members: seq<Member>, cs: bool)
    ensures DistinctNames(members, cs) <==> DistinctKeys(members, MemberKey(cs))
  {
    assert forall m :: MemberKey(cs)(m) == Key(m.name, cs);
  }

  lemma StrictIsDistinct(members: seq<Member>, cs: bool)
    requires Strict(members, MemberKey(cs))
    ensures DistinctNames(members, cs)
  {
    forall i, j | 0 <= i < j < |members| ensures Key(members[i].name, cs) != Key(members[j].name, cs) {
      assert Before(MemberKey(cs)(members[i]), MemberKey(cs)(members[j]));
      StrCmpZero(Key(members[i].name, cs), Key(members[j].name, cs));
    }
  }

  /** With distinct names every member is what the meaning holds under its key. */
  lemma DenoteAt(members: seq<Member>, i: nat, cs: bool)
    requires i < |members| && DistinctNames(members, cs)
    ensures Key(members[i].name, cs) in DenoteMembers(members, cs)
    ensures DenoteMembers(members, cs)[Key(members[i].name, cs)] == Denote(members[i].value, cs)
  {
    FindIs(members, members[i].name, cs, i);
    DenoteFind(members, members[i].name, cs);
  }

  /** Lists with the same members, distinctly named, mean the same. */
  lemma DenoteReorder(a: seq<Member>, b: seq<Member>, cs: bool)
    requires DistinctNames(a, cs) && DistinctNames(b, cs)
    requires forall m :: m in a <==> m in b
    ensures DenoteMembers(a, cs) == DenoteMembers(b, cs)
  {
    DenoteInto(a, b, cs);
    DenoteInto(b, a, cs);
  }

  lemma DenoteInto(a: seq<Member>, b: seq<Member>, cs: bool)
    requires DistinctNames(a, cs) && DistinctNames(b, cs)
    requires forall m :: m in a ==> m in b
    ensures forall k :: k in DenoteMembers(a, cs) ==>
      k in DenoteMembers(b, cs) && DenoteMembers(b, cs)[k] == DenoteMembers(a, cs)[k]
  {
    forall k | k in DenoteMembers(a, cs)
      ensures k in DenoteMembers(b, cs) && DenoteMembers(b, cs)[k] == DenoteMembers(a, cs)[k]
    {
      DenoteKey(a, k, cs);
      var i :| 0 <= i < |a| && Key(a[i].name, cs) == k;
      assert a[i] in b;
      var j :| 0 <= j < |b| && b[j] == a[i];
      DenoteAt(a, i, cs);
      DenoteAt(b, j, cs);
    }
  }

  lemma SortedMeaning(members: seq<Member>, cs: bool)
    requires DistinctNames(members, cs)
    ensures var s := SortMembers(members, cs);
      Strict(s, MemberKey(cs)) && DistinctNames(s, cs) && DenoteMembers(s, cs) == DenoteMembers(members, cs)
  {
    var s := SortMembers(members, cs);
    DistinctIsDistinctKeys(members, cs);
    SortStrict(members, MemberKey(cs));
    StrictIsDistinct(s, cs);
    DenoteReorder(s, members, cs);
  }

  // ----- compare_json decides equality of meanings -----

  /** The side-by-side walk, position by position. */
  lemma {:induction false} CompareMembersIs(whole: Json, s: seq<Member>, t: seq<Member>, cs: bool)
    requires forall m :: m in s ==> m.value < whole
    ensures CompareMembers(whole, s, t, cs) <==> |s| == |t| && forall i :: 0 <= i < |s| ==>
      Key(s[i].name, cs) == Key(t[i].name, cs) && CompareJson(s[i].value, t[i].value, cs)
    decreases |s|
  {
    if s != [] && t != [] {
      StrCmpZero(Key(s[0].name, cs), Key(t[0].name, cs));
      CompareMembersIs(whole, s[1..], t[1..], cs);
      if |s| == |t| {
        assert forall i :: 1 <= i < |s| ==> s[i] == s[1..][i - 1] && t[i] == t[1..][i - 1];
        assert forall i :: 0 <= i < |s| - 1 ==> s[1..][i] == s[i + 1] && t[1..][i] == t[i + 1];
      }
    }
  }

  lemma {:induction false} CompareItemsIs(whole: Json, s: seq<Json>, t: seq<Json>, cs: bool)
    requires forall i :: 0 <= i < |s| ==> s[i] < whole
    ensures CompareItems(whole, s, t, cs) <==> |s| == |t| && forall i :: 0 <= i < |s| ==> CompareJson(s[i], t[i], cs)
    decreases |s|
  {
    if s != [] && t != [] {
      CompareItemsIs(whole, s[1..], t[1..], cs);
      if |s| == |t| {
        assert forall i :: 1 <= i < |s| ==> s[i] == s[1..][i - 1] && t[i] == t[1..][i - 1];
        assert forall i :: 0 <= i < |s| - 1 ==> s[1..][i] == s[i + 1] && t[1..][i] == t[i + 1];
      }
    }
  }

  /** Sorted lists with the same key sets have the same keys in the same places. */
  lemma {:induction false} SameKeysAligned(s: seq<Member>, t: seq<Member>, cs: bool)
    requires Strict(s, MemberKey(cs)) && Strict(t, MemberKey(cs))
    requires DistinctNames(s, cs) && DistinctNames(t, cs)
    requires DenoteMembers(s, cs).Keys == DenoteMembers(t, cs).Keys
    ensures |s| == |t| && forall i :: 0 <= i < |s| ==> Key(s[i].name, cs) == Key(t[i].name, cs)
  {
    var key := MemberKey(cs);
    forall i | 0 <= i < |s| ensures HasKey(t, key, key(s[i])) { KeyShared(s, t, i, cs); }
    forall j | 0 <= j < |t| ensures HasKey(s, key, key(t[j])) { KeyShared(t, s, j, cs); }
    StrictUnique(s, t, key, key);
    forall i | 0 <= i < |s| ensures Key(s[i].name, cs) == Key(t[i].name, cs) {
      assert key(s[i]) == key(t[i]);
    }
  }

  lemma KeyShared(s: seq<Member>, t: seq<Member>, i: nat, cs: bool)
    requires i < |s| && DistinctNames(s, cs)
    requires DenoteMembers(s, cs).Keys <= DenoteMembers(t, cs).Keys
    ensures HasKey(t, MemberKey(cs), MemberKey(cs)(s[i]))
  {
    DenoteAt(s, i, cs);
    DenoteKey(t, Key(s[i].name, cs), cs);
    var j :| 0 <= j < |t| && Key(t[j].name, cs) == Key(s[i].name, cs);
    assert MemberKey(cs)(t[j]) == MemberKey(cs)(s[i]);
  }

  /** Position by position the same, or as maps the same. */
  lemma AlignedMeaning(s: seq<Member>, t: seq<Member>, cs: bool)
    requires DistinctNames(s, cs) && DistinctNames(t, cs) && |s| == |t|
    requires forall i :: 0 <= i < |s| ==> Key(s[i].name, cs) == Key(t[i].name, cs)
    ensures SameButRaw(Fields(DenoteMembers(s, cs)), Fields(DenoteMembers(t, cs))) <==>
      forall i :: 0 <= i < |s| ==> SameButRaw(Denote(s[i].value, cs), Denote(t[i].value, cs))
  {
    var f, g := DenoteMembers(s, cs), DenoteMembers(t, cs);
    SubsetOfKeys(s, t, cs);
    SubsetOfKeys(t, s, cs);
    assert f.Keys == g.Keys;
    if forall i :: 0 <= i < |s| ==> SameButRaw(Denote(s[i].value, cs), Denote(t[i].value, cs)) {
      forall k | k in f ensures SameButRaw(f[k], g[k]) {
        var i := KeyIndex(s, k, cs);
        DenoteAt(s, i, cs);
        DenoteAt(t, i, cs);
      }
    } else {
      var i :| 0 <= i < |s| && !SameButRaw(Denote(s[i].value, cs), Denote(t[i].value, cs));
      DenoteAt(s, i, cs);
      DenoteAt(t, i, cs);
      assert !SameButRaw(f[Key(s[i].name, cs)], g[Key(s[i].name, cs)]);
    }
  }

  lemma KeyIndex(s: seq<Member>, k: CString, cs: bool) returns (i: nat)
    requires k in DenoteMembers(s, cs)
    ensures i < |s| && Key(s[i].name, cs) == k
  {
    DenoteKey(s, k, cs);
    i :| 0 <= i < |s| && Key(s[i].name, cs) == k;
  }

  lemma SubsetOfKeys(s: seq<Member>, t: seq<Member>, cs: bool)
    requires DistinctNames(t, cs) && |s| == |t|
    requires forall i :: 0 <= i < |s| ==> Key(s[i].name, cs) == Key(t[i].name, cs)
    ensures DenoteMembers(s, cs).Keys <= DenoteMembers(t, cs).Keys
  {
    forall k | k in DenoteMembers(s, cs) ensures k in DenoteMembers(t, cs) {
      var i := KeyIndex(s, k, cs);
      DenoteAt(t, i, cs);
    }
  }

  /** compare_json answers true exactly for trees of equal meaning, raw texts apart. */
  lemma {:induction false} CompareDecides(a: Json, b: Json, cs: bool)
    requires Distinct(a, cs) && Distinct(b, cs)
    ensures CompareJson(a, b, cs) <==> SameButRaw(Denote(a, cs), Denote(b, cs))
    decreases a
  {
    match (a, b)
    case (Array(s), Array(t)) =>
      CompareItemsIs(a, s, t, cs);
      if |s| == |t| {
        forall i | 0 <= i < |s|
          ensures CompareJson(s[i], t[i], cs) <==> SameButRaw(Denote(s[i], cs), Denote(t[i], cs)) {
          CompareDecides(s[i], t[i], cs);
        }
      }
    case (Object(s), Object(t)) => CompareObjects(a, b, cs);
    case _ =>
  }

  lemma {:induction false} CompareObjects(a: Json, b: Json, cs: bool)
    requires a.Object? && b.Object? && Distinct(a, cs) && Distinct(b, cs)
    ensures CompareJson(a, b, cs) <==> SameButRaw(Denote(a, cs), Denote(b, cs))
    decreases a, 0
  {
    var s, t := SortMembers(a.members, cs), SortMembers(b.members, cs);
    SortedMeaning(a.members, cs);
    SortedMeaning(b.members, cs);
    CompareMembersIs(a, s, t, cs);
    if DenoteMembers(s, cs).Keys == DenoteMembers(t, cs).Keys {
      SameKeysAligned(s, t, cs);
    }
    if |s| == |t| && forall i :: 0 <= i < |s| ==> Key(s[i].name, cs) == Key(t[i].name, cs) {
      AlignedMeaning(s, t, cs);
      forall i | 0 <= i < |s|
        ensures CompareJson(s[i].value, t[i].value, cs) <==> SameButRaw(Denote(s[i].value, cs), Denote(t[i].value, cs))
      {
        assert s[i] in a.members && t[i] in b.members;
        CompareDecides(s[i].value, t[i].value, cs);
      }
    }
  }
}
