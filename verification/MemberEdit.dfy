// What removing, adding and changing members does to the meaning of a member list.
module MemberEdit {
  import opened Sequences
  import opened CText
  import opened JsonTree
  import opened NameSort
  import opened Comparison
  import opened JsonPatch

  /** Removing a member removes its key. */
  lemma DenoteRemoveAt(ms: seq<Member>, i: nat, cs: bool)
    requires i < |ms| && DistinctNames(ms, cs)
    ensures DistinctNames(RemoveAt(ms, i), cs)
    ensures DenoteMembers(RemoveAt(ms, i), cs) == DenoteMembers(ms, cs) - {Key(ms[i].name, cs)}
  {
    var r := RemoveAt(ms, i);
    var m, mr := DenoteMembers(ms, cs), DenoteMembers(r, cs);
    RemovedOthers(ms, i, cs);
    DenoteInto(r, ms, cs);
    forall k | k in mr ensures k != Key(ms[i].name, cs) {
      var j := KeyIndex(r, k, cs);
    }
    forall k | k in m && k != Key(ms[i].name, cs) ensures k in mr {
      var j := KeyIndex(ms, k, cs);
      assert r[if j < i then j else j - 1] == ms[j];
      DenoteAt(r, if j < i then j else j - 1, cs);
    }
    assert mr == m - {Key(ms[i].name, cs)};
  }

  lemma RemovedOthers(ms: seq<Member>, i: nat, cs: bool)
    requires i < |ms| && DistinctNames(ms, cs)
    ensures DistinctNames(RemoveAt(ms, i), cs)
    ensures forall x :: x in RemoveAt(ms, i) ==> x in ms
    ensures forall j :: 0 <= j < |ms| - 1 ==> Key(RemoveAt(ms, i)[j].name, cs) != Key(ms[i].name, cs)
  {
  }

  /** Adding a member with a new key adds that key. */
  lemma DenoteAppend(ms: seq<Member>, x: Member, cs: bool)
    requires DistinctNames(ms, cs) && Key(x.name, cs) !in DenoteMembers(ms, cs)
    ensures DistinctNames(ms + [x], cs)
    ensures DenoteMembers(ms + [x], cs) == DenoteMembers(ms, cs)[Key(x.name, cs) := Denote(x.value, cs)]
  {
    var r := ms + [x];
    var m, mr := DenoteMembers(ms, cs), DenoteMembers(r, cs);
    forall j | 0 <= j < |ms| ensures Key(ms[j].name, cs) != Key(x.name, cs) { DenoteAt(ms, j, cs); }
    DenoteAt(r, |ms|, cs);
    forall k | k in mr && k != Key(x.name, cs) ensures k in m && m[k] == mr[k] {
      var j := KeyIndex(r, k, cs);
      DenoteAt(r, j, cs);
      DenoteAt(ms, j, cs);
    }
    forall k | k in m ensures k in mr {
      var j := KeyIndex(ms, k, cs);
      DenoteAt(r, j, cs);
    }
  }

  /** Changing the value of a member changes what its key holds. */
  lemma DenoteUpdate(ms: seq<Member>, i: nat, v: Json, cs: bool)
    requires i < |ms| && DistinctNames(ms, cs)
    ensures var r := ms[i := Member(ms[i].name, v)];
      DistinctNames(r, cs) && DenoteMembers(r, cs) == DenoteMembers(ms, cs)[Key(ms[i].name, cs) := Denote(v, cs)]
  {
    var r := ms[i := Member(ms[i].name, v)];
    var m, mr := DenoteMembers(ms, cs), DenoteMembers(r, cs);
    DenoteAt(r, i, cs);
    DenoteAt(ms, i, cs);
    forall k | k in mr && k != Key(ms[i].name, cs) ensures k in m && m[k] == mr[k] {
      var j := KeyIndex(r, k, cs);
      DenoteAt(r, j, cs);
      DenoteAt(ms, j, cs);
    }
    forall k | k in m ensures k in mr {
      var j := KeyIndex(ms, k, cs);
      DenoteAt(r, j, cs);
    }
  }

  /** Deleting by name removes the key, if it was there. */
  lemma DenoteRemoveKey(ms: seq<Member>, name: CString, cs: bool)
    requires DistinctNames(ms, cs)
    ensures DistinctNames(RemoveKey(ms, name, cs), cs)
    ensures DenoteMembers(RemoveKey(ms, name, cs), cs) == DenoteMembers(ms, cs) - {Key(name, cs)}
    ensures forall x :: x in RemoveKey(ms, name, cs) ==> x in ms
  {
    var i := Find(ms, name, cs);
    DenoteFind(ms, name, cs);
    if i < |ms| {
      DenoteRemoveAt(ms, i, cs);
    }
  }

  // ----- strictly sorted member lists -----

  lemma StrictTail(s: seq<Member>, cs: bool)
    requires s != [] && Strict(s, MemberKey(cs))
    ensures Strict(s[1..], MemberKey(cs)) && DistinctNames(s, cs)
    ensures forall m :: m in s[1..] ==>
      m in s && Before(Key(s[0].name, cs), Key(m.name, cs)) && Key(m.name, cs) != Key(s[0].name, cs)
    ensures Key(s[0].name, cs) !in DenoteMembers(s[1..], cs)
  {
    StrictIsDistinct(s, cs);
    forall m | m in s[1..]
      ensures m in s && Before(Key(s[0].name, cs), Key(m.name, cs)) && Key(m.name, cs) != Key(s[0].name, cs) {
      var i :| 0 <= i < |s[1..]| && s[1..][i] == m;
      assert s[i + 1] == m;
      assert Before(MemberKey(cs)(s[0]), MemberKey(cs)(s[i + 1]));
    }
    DenoteFind(s[1..], s[0].name, cs);
  }

  /** Every key of a strictly sorted list is at or after its head's. */
  lemma HeadFirst(s: seq<Member>, k: CString, cs: bool)
    requires s != [] && Strict(s, MemberKey(cs)) && HasKey(s, MemberKey(cs), k)
    ensures k == Key(s[0].name, cs) || Before(Key(s[0].name, cs), k)
  {
    var i :| 0 <= i < |s| && MemberKey(cs)(s[i]) == k;
  }

  /** A key sorted before the head of a list is not a key of the list. */
  lemma NotBeforeHead(ts: seq<Member>, k: CString, cs: bool)
    requires Strict(ts, MemberKey(cs)) && (ts == [] || Before(k, Key(ts[0].name, cs)))
    ensures k !in DenoteMembers(ts, cs) && !HasKey(ts, MemberKey(cs), k)
    ensures forall m :: m in ts ==> Key(m.name, cs) != k
  {
    StrCmpZero(k, k);
    if HasKey(ts, MemberKey(cs), k) {
      HeadFirst(ts, k, cs);
      StrCmpAntisymmetric(k, Key(ts[0].name, cs));
    }
    assert forall i :: 0 <= i < |ts| ==> MemberKey(cs)(ts[i]) == Key(ts[i].name, cs);
    if k in DenoteMembers(ts, cs) {
      DenoteKey(ts, k, cs);
    }
    forall m | m in ts ensures Key(m.name, cs) != k {
      var i :| 0 <= i < |ts| && ts[i] == m;
      assert MemberKey(cs)(ts[i]) == Key(m.name, cs);
    }
  }
}
