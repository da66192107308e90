// JSON Merge Patch: merge_patch against the function of section 2 of RFC 7396, and generate_merge_patch.
module MergePatch {
  import opened Wrappers
  import opened Sequences
  import opened CText
  import opened JsonTree
  import opened NameSort
  import opened Comparison
  import opened JsonPatch
  import opened MemberEdit

  // ----- merge_patch -----

  function Merge(target: Option<Json>, patch: Json, cs: bool): Json
    decreases patch, 1, 0
  {
    if !patch.Object? then patch
    else Object(MergeMembers(patch, StartMembers(target), patch.members, cs))
  }

  /** A target that is no object is replaced by an empty one. */
  function StartMembers(target: Option<Json>): seq<Member> {
    if target.Some? && target.value.Object? then target.value.members else []
  }

  /** The loop over the members of the patch. */
  function MergeMembers(ghost whole: Json, ms: seq<Member>, ps: seq<Member>, cs: bool): seq<Member>
    requires forall p :: p in ps ==> p.value < whole
    decreases whole, 0, |ps|
  {
    if ps == [] then ms else MergeMembers(whole, MergeOne(whole, ms, ps[0], cs), ps[1..], cs)
  }

  function MergeOne(ghost whole: Json, ms: seq<Member>, p: Member, cs: bool): seq<Member>
    requires p.value < whole
    decreases whole, 0, 0
  {
    if p.value.Null? then RemoveKey(ms, p.name, cs)
    else RemoveKey(ms, p.name, cs) + [Member(p.name, Merge(Lookup(ms, p.name, cs), p.value, cs))]
  }

  function Lookup(ms: seq<Member>, name: CString, cs: bool): Option<Json> {
    var i := Find(ms, name, cs);
    if i < |ms| then Some(ms[i].value) else None
  }

  /** merge_patch with its loop; the members of the target object are updated one by one. */
  method MergeInto(target: Option<Json>, patch: Json, cs: bool) returns (r: Json)
    ensures r == Merge(target, patch, cs)
    decreases patch
  {
    if !patch.Object? {
      return patch;
    }
    var ms, ps := StartMembers(target), patch.members;
    while ps != []
      invariant forall p :: p in ps ==> p.value < patch
      invariant MergeMembers(patch, ms, ps, cs) == MergeMembers(patch, StartMembers(target), patch.members, cs)
      decreases |ps|
    {
      var child := ps[0];
      var replaceMe := Lookup(ms, child.name, cs);
      var rest := RemoveKey(ms, child.name, cs);
      if child.value.Null? {
        ms := rest;
      } else {
        var replacement := MergeInto(replaceMe, child.value, cs);
        ms := rest + [Member(child.name, replacement)];
      }
      ps := ps[1..];
    }
    r := Object(ms);
  }

  /** MergePatch of section 2 of RFC 7396, on values. */
  function RfcMerge(target: Option<Value>, patch: Value): Value
    decreases patch
  {
    match patch
    case Fields(p) =>
      var t := StartFields(target);
      Fields(map k | k in t.Keys + p.Keys && !(k in p && p[k] == Atom(Null)) ::
        if k in p then RfcMerge(if k in t then Some(t[k]) else None, p[k]) else t[k])
    case _ => patch
  }

  function StartFields(target: Option<Value>): map<CString, Value> {
    if target.Some? && target.value.Fields? then target.value.fields else map[]
  }

  /** One member of the patch, on maps. */
  function RfcOne(m: map<CString, Value>, k: CString, v: Value): map<CString, Value> {
    if v == Atom(Null) then m - {k} else m[k := RfcMerge(if k in m then Some(m[k]) else None, v)]
  }

  /** The merge of the members still to come. */
  function RfcFields(t: map<CString, Value>, p: map<CString, Value>): map<CString, Value> {
    RfcMerge(Some(Fields(t)), Fields(p)).fields
  }

  lemma RfcFieldsStep(t: map<CString, Value>, p: map<CString, Value>, k: CString, v: Value)
    requires k !in p
    ensures RfcFields(RfcOne(t, k, v), p) == RfcFields(t, p[k := v])
  {
  }

  lemma RfcFieldsNothing(t: map<CString, Value>)
    ensures RfcFields(t, map[]) == t
  {
  }

  function DenoteOption(t: Option<Json>, cs: bool): Option<Value> {
    if t.Some? then Some(Denote(t.value, cs)) else None
  }

  lemma LookupMeaning(ms: seq<Member>, name: CString, cs: bool)
    ensures var m := DenoteMembers(ms, cs); var k := Key(name, cs);
      DenoteOption(Lookup(ms, name, cs), cs) == if k in m then Some(m[k]) else None
  {
    DenoteFind(ms, name, cs);
  }

  /** merge_patch is the RFC's function, member order and folded case apart. */
  lemma {:induction false} MergeIsRfc(target: Option<Json>, patch: Json, cs: bool)
    requires Distinct(patch, cs) && (target.Some? ==> Distinct(target.value, cs))
    ensures Denote(Merge(target, patch, cs), cs) == RfcMerge(DenoteOption(target, cs), Denote(patch, cs))
    ensures Distinct(Merge(target, patch, cs), cs)
    decreases patch, 1, 0
  {
    if patch.Object? {
      var ms := StartMembers(target);
      MergeMembersIsRfc(patch, ms, patch.members, cs);
    }
  }

  lemma {:induction false} MergeMembersIsRfc(whole: Json, ms: seq<Member>, ps: seq<Member>, cs: bool)
    requires forall p :: p in ps ==> p.value < whole && Distinct(p.value, cs)
    requires DistinctNames(ps, cs) && Distinct(Object(ms), cs)
    ensures DenoteMembers(MergeMembers(whole, ms, ps, cs), cs)
         == RfcFields(DenoteMembers(ms, cs), DenoteMembers(ps, cs))
    ensures Distinct(Object(MergeMembers(whole, ms, ps, cs)), cs)
    decreases whole, 0, |ps|
  {
    RfcFieldsNothing(DenoteMembers(ms, cs));
    if ps != [] {
      var p := ps[0];
      var next := MergeOne(whole, ms, p, cs);
      MergeOneIsRfc(whole, ms, p, cs);
      assert DistinctNames(ps[1..], cs);
      MergeMembersIsRfc(whole, next, ps[1..], cs);
      DenoteFind(ps[1..], p.name, cs);
      assert Find(ps[1..], p.name, cs) == |ps[1..]| by { FindIs(ps[1..], p.name, cs, |ps[1..]|); }
      RfcFieldsStep(DenoteMembers(ms, cs), DenoteMembers(ps[1..], cs), Key(p.name, cs), Denote(p.value, cs));
    }
  }

  lemma {:induction false} MergeOneIsRfc(whole: Json, ms: seq<Member>, p: Member, cs: bool)
    requires p.value < whole && Distinct(p.value, cs) && Distinct(Object(ms), cs)
    ensures DenoteMembers(MergeOne(whole, ms, p, cs), cs)
         == RfcOne(DenoteMembers(ms, cs), Key(p.name, cs), Denote(p.value, cs))
    ensures Distinct(Object(MergeOne(whole, ms, p, cs)), cs)
    decreases whole, 0, 0
  {
    DenoteRemoveKey(ms, p.name, cs);
    if !p.value.Null? {
      LookupMeaning(ms, p.name, cs);
      LookupDistinct(ms, p.name, cs);
      MergeIsRfc(Lookup(ms, p.name, cs), p.value, cs);
      SetMember(ms, p.name, Merge(Lookup(ms, p.name, cs), p.value, cs), cs);
    }
  }

  lemma LookupDistinct(ms: seq<Member>, name: CString, cs: bool)
    requires Distinct(Object(ms), cs)
    ensures var v := Lookup(ms, name, cs); v.Some? ==> Distinct(v.value, cs)
  {
  }

  /** Detaching a name and adding it again sets its key. */
  lemma SetMember(ms: seq<Member>, name: CString, v: Json, cs: bool)
    requires Distinct(Object(ms), cs) && Distinct(v, cs)
    ensures var r := RemoveKey(ms, name, cs) + [Member(name, v)];
      Distinct(Object(r), cs) && DenoteMembers(r, cs) == DenoteMembers(ms, cs)[Key(name, cs) := Denote(v, cs)]
  {
    var m, k := DenoteMembers(ms, cs), Key(name, cs);
    var rest := RemoveKey(ms, name, cs);
    DenoteRemoveKey(ms, name, cs);
    DenoteAppend(rest, Member(name, v), cs);
    assert (m - {k})[k := Denote(v, cs)] == m[k := Denote(v, cs)];
    forall x | x in rest + [Member(name, v)] ensures Distinct(x.value, cs) {
      assert x in rest || x == Member(name, v);
    }
  }

  // ----- generate_merge_patch -----

  /** generate_merge_patch for two trees; `None` is its null result. Nested calls ignore case. */
  function Generate(from: Json, to: Json, cs: bool): Option<Json>
    decreases from, 1, 0
  {
    if !to.Object? || !from.Object? then Some(to)
    else
      var members := GenerateMembers(from, SortMembers(from.members, cs), SortMembers(to.members, cs), cs);
      if members == [] then None else Some(Object(members))
  }

  /** The walk over the two sorted lists; the names are compared by `strcmp` in both modes. */
  function GenerateMembers(ghost whole: Json, fs: seq<Member>, ts: seq<Member>, cs: bool): seq<Member>
    requires forall m :: m in fs ==> m.value < whole
    decreases whole, 0, |fs| + |ts|
  {
    if fs == [] && ts == [] then []
    else
      var diff := if fs == [] then 1 else if ts == [] then -1 else StrCmp(fs[0].name, ts[0].name);
      if diff < 0 then [Member(fs[0].name, Null)] + GenerateMembers(whole, fs[1..], ts, cs)
      else if diff > 0 then [ts[0]] + GenerateMembers(whole, fs, ts[1..], cs)
      else
        (if CompareJson(fs[0].value, ts[0].value, cs) then []
         else match Generate(fs[0].value, ts[0].value, false)
              case Some(p) => [Member(ts[0].name, p)]
              case None => [])
        + GenerateMembers(whole, fs[1..], ts[1..], cs)
  }

  /** generate_merge_patch with its loop. */
  method GenerateMergePatch(from: Json, to: Json, cs: bool) returns (patch: Option<Json>)
    ensures patch == Generate(from, to, cs)
    decreases from
  {
    if !to.Object? || !from.Object? {
      return Some(to);
    }
    var fs, ts := SortMembers(from.members, cs), SortMembers(to.members, cs);
    SortedParts(from, cs);
    var members := [];
    while fs != [] || ts != []
      invariant forall m :: m in fs ==> m.value < from
      invariant members + GenerateMembers(from, fs, ts, cs)
             == GenerateMembers(from, SortMembers(from.members, cs), SortMembers(to.members, cs), cs)
      decreases |fs| + |ts|
    {
      var diff;
      if fs == [] {
        diff := 1;
      } else if ts == [] {
        diff := -1;
      } else {
        diff := CompareStrings(fs[0].name, ts[0].name, true);
      }
      if diff < 0 {
        Regroup(members, [Member(fs[0].name, Null)], GenerateMembers(from, fs[1..], ts, cs));
        members := members + [Member(fs[0].name, Null)];
        fs := fs[1..];
      } else if diff > 0 {
        Regroup(members, [ts[0]], GenerateMembers(from, fs, ts[1..], cs));
        members := members + [ts[0]];
        ts := ts[1..];
      } else {
        var changed := [];
        var identical := CompareTrees(fs[0].value, ts[0].value, cs);
        if !identical {
          var nested := GenerateMergePatch(fs[0].value, ts[0].value, false);
          if nested.Some? {
            changed := [Member(ts[0].name, nested.value)];
          }
        }
        Regroup(members, changed, GenerateMembers(from, fs[1..], ts[1..], cs));
        members := members + changed;
        fs, ts := fs[1..], ts[1..];
      }
    }
    AppendNothing(members);
    patch := if members == [] then None else Some(Object(members));
  }

  /** The generator on values: which keys the patch mentions and what it says about them. */
  function GenerateValue(u: Value, v: Value): Value {
    match (u, v)
    case (Fields(f), Fields(t)) => Fields(map k | k in f.Keys + t.Keys && !Unchanged(f, t, k) ::
      if k !in t then Atom(Null) else if k in f then GenerateValue(f[k], t[k]) else t[k])
    case _ => v
  }

  predicate Unchanged(f: map<CString, Value>, t: map<CString, Value>, k: CString) {
    k in f && k in t && SameButRaw(f[k], t[k])
  }

  function PatchFields(f: map<CString, Value>, t: map<CString, Value>): map<CString, Value> {
    GenerateValue(Fields(f), Fields(t)).fields
  }

  lemma {:induction false} PatchFieldsBoth(f: map<CString, Value>, t: map<CString, Value>, k: CString, a: Value,
                                           b: Value)
    requires k !in f && k !in t
    ensures PatchFields(f[k := a], t[k := b])
         == if SameButRaw(a, b) then PatchFields(f, t) else PatchFields(f, t)[k := GenerateValue(a, b)]
    ensures k !in PatchFields(f, t)
  {
  }

  lemma PatchFieldsLeft(f: map<CString, Value>, t: map<CString, Value>, k: CString, a: Value)
    requires k !in f && k !in t
    ensures PatchFields(f[k := a], t) == PatchFields(f, t)[k := Atom(Null)] && k !in PatchFields(f, t)
  {
  }

  lemma PatchFieldsRight(f: map<CString, Value>, t: map<CString, Value>, k: CString, b: Value)
    requires k !in f && k !in t
    ensures PatchFields(f, t[k := b]) == PatchFields(f, t)[k := b] && k !in PatchFields(f, t)
  {
  }

  // ----- names that sort alike with and without their case -----

  /** Both orders agree on these names; names that are equal up to case are then equal. */
  ghost predicate Agreeing(names: set<CString>) {
    forall a, b {:trigger a in names, b in names} :: a in names && b in names ==>
      (Before(a, b) <==> Before(Lower(a), Lower(b)))
  }

  ghost function Names(ms: seq<Member>): set<CString> {
    set m | m in ms :: m.name
  }

  lemma AgreeingKeys(names: set<CString>, a: CString, b: CString, cs: bool)
    requires Agreeing(names) && a in names && b in names
    ensures Before(Key(a, cs), Key(b, cs)) <==> Before(a, b)
    ensures Key(a, cs) == Key(b, cs) <==> a == b
  {
    assert (Before(a, b) <==> Before(Lower(a), Lower(b))) && (Before(b, a) <==> Before(Lower(b), Lower(a)));
    StrCmpZero(a, b);
    StrCmpZero(Lower(a), Lower(b));
    StrCmpAntisymmetric(a, b);
    StrCmpAntisymmetric(Lower(a), Lower(b));
  }

  /** Names without upper-case letters agree. */
  lemma LowerAgrees(names: set<CString>)
    requires forall n :: n in names ==> Lower(n) == n
    ensures Agreeing(names)
  {
  }

  lemma DistinctNamesModes(ms: seq<Member>, cs: bool)
    requires Agreeing(Names(ms))
    ensures DistinctNames(ms, cs) <==> DistinctNames(ms, true)
  {
    forall i, j | 0 <= i < j < |ms|
      ensures Key(ms[i].name, cs) == Key(ms[j].name, cs) <==> ms[i].name == ms[j].name
    {
      AgreeingKeys(Names(ms), ms[i].name, ms[j].name, cs);
    }
  }

  lemma StrictModes(s: seq<Member>, names: set<CString>, cs: bool, mode: bool)
    requires Agreeing(names) && (forall x :: x in s ==> x.name in names) && Strict(s, MemberKey(cs))
    ensures Strict(s, MemberKey(mode))
  {
    forall i, j | 0 <= i < j < |s| ensures Before(MemberKey(mode)(s[i]), MemberKey(mode)(s[j])) {
      assert Before(MemberKey(cs)(s[i]), MemberKey(cs)(s[j]));
      AgreeingKeys(names, s[i].name, s[j].name, cs);
      AgreeingKeys(names, s[i].name, s[j].name, mode);
    }
  }

  // ----- comparing in one mode for the other -----

  /**
   * Wherever comparing the two trees meets two objects, a name of the one that is a name of the other up to
   * case is a name of the other.
   */
  ghost predicate SameCase(a: Json, b: Json) {
    match (a, b)
    case (Array(s), Array(t)) => forall i :: 0 <= i < |s| && i < |t| ==> SameCase(s[i], t[i])
    case (Object(s), Object(t)) =>
      forall f, g :: f in s && g in t && Key(f.name, false) == Key(g.name, false) ==>
        f.name == g.name && SameCase(f.value, g.value)
    case _ => true
  }

  predicate Pair(f: Member, g: Member, cs: bool) {
    Key(f.name, cs) == Key(g.name, cs) && SameButRaw(Denote(f.value, cs), Denote(g.value, cs))
  }

  /** Every member has its counterpart in the other list. */
  ghost predicate Matched(s: seq<Member>, t: seq<Member>, cs: bool) {
    forall f :: f in s ==> exists g :: g in t && Pair(f, g, cs)
  }

  ghost predicate Covered(t: seq<Member>, s: seq<Member>, cs: bool) {
    forall g :: g in t ==> exists f :: f in s && Key(f.name, cs) == Key(g.name, cs)
  }

  lemma FieldsMatched(s: seq<Member>, t: seq<Member>, cs: bool)
    requires DistinctNames(s, cs) && DistinctNames(t, cs)
    ensures SameButRaw(Fields(DenoteMembers(s, cs)), Fields(DenoteMembers(t, cs)))
       <==> Matched(s, t, cs) && Covered(t, s, cs)
  {
    if SameButRaw(Fields(DenoteMembers(s, cs)), Fields(DenoteMembers(t, cs))) {
      MatchedByKeys(s, t, cs);
    }
    if Matched(s, t, cs) && Covered(t, s, cs) {
      FieldsByMatch(s, t, cs);
    }
  }

  lemma MatchedByKeys(s: seq<Member>, t: seq<Member>, cs: bool)
    requires DistinctNames(s, cs) && DistinctNames(t, cs)
    requires SameButRaw(Fields(DenoteMembers(s, cs)), Fields(DenoteMembers(t, cs)))
    ensures Matched(s, t, cs) && Covered(t, s, cs)
  {
    forall f | f in s ensures exists g :: g in t && Pair(f, g, cs) {
      var i :| 0 <= i < |s| && s[i] == f;
      DenoteAt(s, i, cs);
      var j := KeyIndex(t, Key(f.name, cs), cs);
      DenoteAt(t, j, cs);
      assert t[j] in t && Pair(f, t[j], cs);
    }
    forall g | g in t ensures exists f :: f in s && Key(f.name, cs) == Key(g.name, cs) {
      var j :| 0 <= j < |t| && t[j] == g;
      DenoteAt(t, j, cs);
      var i := KeyIndex(s, Key(g.name, cs), cs);
      assert s[i] in s;
    }
  }

  lemma FieldsByMatch(s: seq<Member>, t: seq<Member>, cs: bool)
    requires DistinctNames(s, cs) && DistinctNames(t, cs) && Matched(s, t, cs) && Covered(t, s, cs)
    ensures SameButRaw(Fields(DenoteMembers(s, cs)), Fields(DenoteMembers(t, cs)))
  {
    var f, g := DenoteMembers(s, cs), DenoteMembers(t, cs);
    forall k | k in f ensures k in g && SameButRaw(f[k], g[k]) { FieldByMatch(s, t, k, cs); }
    forall k | k in g ensures k in f { KeyByCover(s, t, k, cs); }
  }

  lemma FieldByMatch(s: seq<Member>, t: seq<Member>, k: CString, cs: bool)
    requires DistinctNames(s, cs) && DistinctNames(t, cs) && Matched(s, t, cs) && k in DenoteMembers(s, cs)
    ensures k in DenoteMembers(t, cs) && SameButRaw(DenoteMembers(s, cs)[k], DenoteMembers(t, cs)[k])
  {
    var i := KeyIndex(s, k, cs);
    assert s[i] in s;
    var y :| y in t && Pair(s[i], y, cs);
    var j :| 0 <= j < |t| && t[j] == y;
    DenoteAt(s, i, cs);
    DenoteAt(t, j, cs);
  }

  lemma KeyByCover(s: seq<Member>, t: seq<Member>, k: CString, cs: bool)
    requires DistinctNames(s, cs) && Covered(t, s, cs) && k in DenoteMembers(t, cs)
    ensures k in DenoteMembers(s, cs)
  {
    var j := KeyIndex(t, k, cs);
    assert t[j] in t;
    var x :| x in s && Key(x.name, cs) == Key(t[j].name, cs);
    var i :| 0 <= i < |s| && s[i] == x;
    DenoteAt(s, i, cs);
  }

  /** Then the two trees are equal in both modes or in none. */
  lemma {:induction false} SameModes(a: Json, b: Json)
    requires Distinct(a, false) && Distinct(b, false) && SameCase(a, b)
    ensures SameButRaw(Denote(a, true), Denote(b, true)) <==> SameButRaw(Denote(a, false), Denote(b, false))
  {
    match (a, b)
    case (Array(s), Array(t)) =>
      forall i | 0 <= i < |s| && i < |t|
        ensures SameButRaw(Denote(s[i], true), Denote(t[i], true))
             <==> SameButRaw(Denote(s[i], false), Denote(t[i], false))
      {
        SameModes(s[i], t[i]);
      }
    case (Object(s), Object(t)) =>
      DistinctExact(a);
      DistinctExact(b);
      forall f, g | f in s && g in t ensures Pair(f, g, true) <==> Pair(f, g, false) {
        if Key(f.name, false) == Key(g.name, false) { SameModes(f.value, g.value); }
      }
      SameMatches(s, t);
      FieldsMatched(s, t, true);
      FieldsMatched(s, t, false);
    case _ =>
  }

  lemma SameMatches(s: seq<Member>, t: seq<Member>)
    requires forall f, g :: f in s && g in t ==> (Pair(f, g, true) <==> Pair(f, g, false))
    requires forall f, g :: f in s && g in t && Key(f.name, false) == Key(g.name, false) ==> f.name == g.name
    ensures Matched(s, t, true) <==> Matched(s, t, false)
    ensures Covered(t, s, true) <==> Covered(t, s, false)
  {
  }

  /** Case decides nothing between the two trees. */
  ghost predicate CaseFree(a: Json, b: Json) {
    Distinct(a, false) && Distinct(b, false) && SameCase(a, b)
  }

  /** What comparing in the mode `cs` needs to say something in the mode `mode`. */
  ghost predicate Comparable(a: Json, b: Json, cs: bool, mode: bool) {
    if cs == mode then Distinct(a, mode) && Distinct(b, mode) else CaseFree(a, b)
  }

  /** compare_json in the mode `cs` decides the relation between the meanings in the mode `mode`. */
  lemma ComparesAs(a: Json, b: Json, cs: bool, mode: bool)
    requires Comparable(a, b, cs, mode)
    ensures CompareJson(a, b, cs) <==> SameButRaw(Denote(a, mode), Denote(b, mode))
  {
    if cs != mode {
      DistinctExact(a);
      DistinctExact(b);
      SameModes(a, b);
    }
    CompareDecides(a, b, cs);
  }

  /** compare_json gives the same answer in both modes. */
  lemma CompareModes(a: Json, b: Json)
    requires CaseFree(a, b)
    ensures CompareJson(a, b, false) <==> CompareJson(a, b, true)
  {
    DistinctExact(a);
    DistinctExact(b);
    CompareDecides(a, b, true);
    ComparesAs(a, b, false, true);
  }

  // ----- the generated tree means the generated value -----

  /** `strcmp` orders the members of the one list against those of the other as their keys are ordered. */
  ghost predicate OrdersAs(fs: seq<Member>, ts: seq<Member>, mode: bool) {
    forall f, t :: f in fs && t in ts ==>
      && (Before(Key(f.name, mode), Key(t.name, mode)) <==> Before(f.name, t.name))
      && (Before(Key(t.name, mode), Key(f.name, mode)) <==> Before(t.name, f.name))
  }

  /** Which member the walk looks at next: negative for the source's, positive for the target's, 0 for both. */
  function Turn(fs: seq<Member>, ts: seq<Member>): int
    requires fs != [] || ts != []
  {
    if fs == [] then 1 else if ts == [] then -1 else StrCmp(fs[0].name, ts[0].name)
  }

  /** Whenever the walk passes a member alone, the other list has none of its key any more. */
  ghost predicate Meets(fs: seq<Member>, ts: seq<Member>, mode: bool)
    decreases |fs| + |ts|
  {
    if fs == [] && ts == [] then true
    else if Turn(fs, ts) < 0 then !HasKey(ts, MemberKey(mode), Key(fs[0].name, mode)) && Meets(fs[1..], ts, mode)
    else if Turn(fs, ts) > 0 then !HasKey(fs, MemberKey(mode), Key(ts[0].name, mode)) && Meets(fs, ts[1..], mode)
    else Meets(fs[1..], ts[1..], mode)
  }

  /** So it is if `strcmp` orders the one list against the other as their keys are ordered. */
  lemma {:induction false} OrdersMeet(fs: seq<Member>, ts: seq<Member>, mode: bool)
    requires Strict(fs, MemberKey(mode)) && Strict(ts, MemberKey(mode)) && OrdersAs(fs, ts, mode)
    ensures Meets(fs, ts, mode)
    decreases |fs| + |ts|
  {
    if fs != [] { StrictTail(fs, mode); }
    if ts != [] { StrictTail(ts, mode); }
    if fs == [] && ts == [] {
    } else if Turn(fs, ts) < 0 {
      NotBeforeHead(ts, Key(fs[0].name, mode), mode);
      OrdersMeet(fs[1..], ts, mode);
    } else if Turn(fs, ts) > 0 {
      if fs != [] { StrCmpAntisymmetric(fs[0].name, ts[0].name); }
      NotBeforeHead(fs, Key(ts[0].name, mode), mode);
      OrdersMeet(fs, ts[1..], mode);
    } else {
      OrdersMeet(fs[1..], ts[1..], mode);
    }
  }

  /**
   * In every pair of objects the generator walks side by side, sorting in the mode `cs` for a merge in the
   * mode `mode`, the walk meets the members of equal key. Where the modes differ, the names of each object sort
   * alike in both, and the members it compares do not rest on case.
   */
  ghost predicate SortedAlike(from: Json, to: Json, cs: bool, mode: bool) {
    match (from, to)
    case (Object(s), Object(t)) =>
      && Meets(SortMembers(s, cs), SortMembers(t, cs), mode)
      && (cs != mode ==> Agreeing(Names(s)) && Agreeing(Names(t)))
      && forall f, g :: f in s && g in t ==> PairReady(f, g, cs, mode)
    case _ => true
  }

  /** What the walk asks of two members of equal name; it goes into them only if their values differ. */
  ghost predicate PairReady(f: Member, g: Member, cs: bool, mode: bool)
    decreases f
  {
    f.name == g.name ==>
      && (cs != mode ==> CaseFree(f.value, g.value))
      && (!SameButRaw(Denote(f.value, mode), Denote(g.value, mode)) ==> SortedAlike(f.value, g.value, false, mode))
  }

  /**
   * What the generator in the mode `cs` and the merge in the mode `mode` ask for. Names in arrays, in added
   * subtrees and in different objects need not sort alike, nor do those at the top level of the case-sensitive
   * pair; nested calls always ignore case in sorting.
   */
  ghost predicate Mergeable(from: Json, to: Json, cs: bool, mode: bool) {
    Distinct(from, mode) && Distinct(to, mode) && SortedAlike(from, to, cs, mode)
  }

  /** One set of names on which both orders agree is enough. */
  lemma {:induction false} AgreeingMergeable(from: Json, to: Json, cs: bool, mode: bool, names: set<CString>)
    requires Agreeing(names) && NamesIn(from, names) && NamesIn(to, names) && Distinct(from, true) && Distinct(to, true)
    ensures Mergeable(from, to, cs, mode)
    decreases from
  {
    DistinctModes(from, names, mode);
    DistinctModes(to, names, mode);
    match (from, to)
    case (Object(s), Object(t)) =>
      AgreeingMeets(from, to, cs, mode, names);
      forall f, g | f in s && g in t ensures PairReady(f, g, cs, mode) {
        AgreeingMergeable(f.value, g.value, false, mode, names);
        DistinctModes(f.value, names, false);
        DistinctModes(g.value, names, false);
        AgreeingCase(f.value, g.value, names);
      }
    case _ =>
  }

  lemma AgreeingMeets(from: Json, to: Json, cs: bool, mode: bool, names: set<CString>)
    requires from.Object? && to.Object? && Agreeing(names) && NamesIn(from, names) && NamesIn(to, names)
    requires Distinct(from, mode) && Distinct(to, mode)
    ensures Meets(SortMembers(from.members, cs), SortMembers(to.members, cs), mode)
  {
    var s, t := from.members, to.members;
    SortedReady(s, cs, mode);
    SortedReady(t, cs, mode);
    forall f, g | f in s && g in t
      ensures (Before(Key(f.name, mode), Key(g.name, mode)) <==> Before(f.name, g.name))
           && (Before(Key(g.name, mode), Key(f.name, mode)) <==> Before(g.name, f.name))
    {
      AgreeingKeys(names, f.name, g.name, mode);
      AgreeingKeys(names, g.name, f.name, mode);
    }
    OrdersMeet(SortMembers(s, cs), SortMembers(t, cs), mode);
  }

  ghost predicate NamesIn(t: Json, names: set<CString>) {
    AllNames(t, (n: CString) => n in names)
  }

  lemma {:induction false} DistinctModes(t: Json, names: set<CString>, cs: bool)
    requires Agreeing(names) && NamesIn(t, names)
    ensures Distinct(t, cs) <==> Distinct(t, true)
  {
    match t
    case Array(items) =>
      forall x | x in items ensures Distinct(x, cs) <==> Distinct(x, true) { DistinctModes(x, names, cs); }
    case Object(members) =>
      forall x | x in members ensures Distinct(x.value, cs) <==> Distinct(x.value, true) {
        DistinctModes(x.value, names, cs);
      }
      DistinctNamesModes(members, cs);
    case _ =>
  }

  lemma {:induction false} AgreeingCase(a: Json, b: Json, names: set<CString>)
    requires Agreeing(names) && NamesIn(a, names) && NamesIn(b, names)
    ensures SameCase(a, b)
  {
    match (a, b)
    case (Array(s), Array(t)) =>
      forall i | 0 <= i < |s| && i < |t| ensures SameCase(s[i], t[i]) { AgreeingCase(s[i], t[i], names); }
    case (Object(s), Object(t)) =>
      forall f, g | f in s && g in t && Key(f.name, false) == Key(g.name, false)
        ensures f.name == g.name && SameCase(f.value, g.value)
      {
        AgreeingKeys(names, f.name, g.name, false);
        AgreeingCase(f.value, g.value, names);
      }
    case _ =>
  }

  /** What Generate promises: no patch only for equal trees, and otherwise the generated value. */
  ghost predicate Generates(from: Json, to: Json, cs: bool, mode: bool) {
    match Generate(from, to, cs)
    case None => from.Object? && to.Object? && SameButRaw(Denote(from, mode), Denote(to, mode))
    case Some(p) => Denote(p, mode) == GenerateValue(Denote(from, mode), Denote(to, mode)) && Distinct(p, mode)
  }

  lemma {:induction false} GenerateMeaning(from: Json, to: Json, cs: bool, mode: bool)
    requires Mergeable(from, to, cs, mode)
    ensures Generates(from, to, cs, mode)
    decreases from, 1, 0
  {
    if from.Object? && to.Object? {
      var fs, ts := SortMembers(from.members, cs), SortMembers(to.members, cs);
      WalkStart(from, to, cs, mode);
      GenerateMembersMeaning(from, fs, ts, cs, mode);
      EmptyPatch(DenoteMembers(fs, mode), DenoteMembers(ts, mode));
    }
  }

  lemma SortedReady(ms: seq<Member>, cs: bool, mode: bool)
    requires DistinctNames(ms, mode) && (cs != mode ==> Agreeing(Names(ms)))
    ensures var s := SortMembers(ms, cs);
      Strict(s, MemberKey(mode)) && DenoteMembers(s, mode) == DenoteMembers(ms, mode)
  {
    if cs == mode {
      SortedMeaning(ms, mode);
    } else {
      DistinctNamesModes(ms, cs);
      DistinctNamesModes(ms, mode);
      SortedMeaning(ms, cs);
      StrictModes(SortMembers(ms, cs), Names(ms), cs, mode);
      StrictIsDistinct(SortMembers(ms, cs), mode);
      DenoteReorder(SortMembers(ms, cs), ms, mode);
    }
  }

  /** An empty patch object only comes from equal maps. */
  lemma EmptyPatch(f: map<CString, Value>, t: map<CString, Value>)
    ensures PatchFields(f, t) == map[] ==> SameButRaw(Fields(f), Fields(t))
  {
    if PatchFields(f, t) == map[] {
      forall k ensures k in f <==> k in t {
        assert k !in PatchFields(f, t);
      }
      forall k | k in f ensures SameButRaw(f[k], t[k]) {
        assert k !in PatchFields(f, t);
      }
    }
  }

  ghost predicate WalkLists(whole: Json, fs: seq<Member>, ts: seq<Member>, cs: bool, mode: bool) {
    && (forall x :: x in fs ==> x.value < whole)
    && Strict(fs, MemberKey(mode)) && Strict(ts, MemberKey(mode)) && Meets(fs, ts, mode)
    && (forall x :: x in fs ==> Distinct(x.value, mode)) && (forall x :: x in ts ==> Distinct(x.value, mode))
    && (forall f, g :: f in fs && g in ts ==> PairReady(f, g, cs, mode))
  }

  lemma WalkStart(from: Json, to: Json, cs: bool, mode: bool)
    requires from.Object? && to.Object? && Mergeable(from, to, cs, mode)
    ensures var fs, ts := SortMembers(from.members, cs), SortMembers(to.members, cs);
      && WalkLists(from, fs, ts, cs, mode)
      && DenoteMembers(fs, mode) == DenoteMembers(from.members, mode)
      && DenoteMembers(ts, mode) == DenoteMembers(to.members, mode)
  {
    SortedReady(from.members, cs, mode);
    SortedReady(to.members, cs, mode);
  }

  /** The walk builds exactly the fields of the generated value, each name once. */
  ghost predicate Built(r: seq<Member>, fs: seq<Member>, ts: seq<Member>, mode: bool) {
    && Distinct(Object(r), mode)
    && DenoteMembers(r, mode) == PatchFields(DenoteMembers(fs, mode), DenoteMembers(ts, mode))
  }

  lemma {:induction false} GenerateMembersMeaning(whole: Json, fs: seq<Member>, ts: seq<Member>, cs: bool, mode: bool)
    requires WalkLists(whole, fs, ts, cs, mode)
    ensures Built(GenerateMembers(whole, fs, ts, cs), fs, ts, mode)
    decreases whole, 0, |fs| + |ts|, 1
  {
    if fs != [] || ts != [] {
      if Turn(fs, ts) < 0 {
        GenerateLeft(whole, fs, ts, cs, mode);
      } else if Turn(fs, ts) > 0 {
        GenerateRight(whole, fs, ts, cs, mode);
      } else {
        StrCmpZero(fs[0].name, ts[0].name);
        GenerateBoth(whole, fs, ts, cs, mode);
      }
    }
  }

  lemma KeyMissing(s: seq<Member>, k: CString, mode: bool)
    requires !HasKey(s, MemberKey(mode), k)
    ensures k !in DenoteMembers(s, mode)
  {
    if k in DenoteMembers(s, mode) {
      var _ := KeyIndex(s, k, mode);
    }
  }

  lemma {:induction false} GenerateLeft(whole: Json, fs: seq<Member>, ts: seq<Member>, cs: bool, mode: bool)
    requires WalkLists(whole, fs, ts, cs, mode) && fs != [] && Turn(fs, ts) < 0
    ensures Built(GenerateMembers(whole, fs, ts, cs), fs, ts, mode)
    decreases whole, 0, |fs| + |ts|, 0
  {
    var k := Key(fs[0].name, mode);
    StrictTail(fs, mode);
    KeyMissing(ts, k, mode);
    GenerateMembersMeaning(whole, fs[1..], ts, cs, mode);
    PatchFieldsLeft(DenoteMembers(fs[1..], mode), DenoteMembers(ts, mode), k, Denote(fs[0].value, mode));
    PrependMember(Member(fs[0].name, Null), GenerateMembers(whole, fs[1..], ts, cs), mode);
  }

  lemma {:induction false} GenerateRight(whole: Json, fs: seq<Member>, ts: seq<Member>, cs: bool, mode: bool)
    requires WalkLists(whole, fs, ts, cs, mode) && ts != [] && Turn(fs, ts) > 0
    ensures Built(GenerateMembers(whole, fs, ts, cs), fs, ts, mode)
    decreases whole, 0, |fs| + |ts|, 0
  {
    var k := Key(ts[0].name, mode);
    StrictTail(ts, mode);
    KeyMissing(fs, k, mode);
    GenerateMembersMeaning(whole, fs, ts[1..], cs, mode);
    PatchFieldsRight(DenoteMembers(fs, mode), DenoteMembers(ts[1..], mode), k, Denote(ts[0].value, mode));
    PrependMember(ts[0], GenerateMembers(whole, fs, ts[1..], cs), mode);
  }

  lemma {:induction false} GenerateBoth(whole: Json, fs: seq<Member>, ts: seq<Member>, cs: bool, mode: bool)
    requires WalkLists(whole, fs, ts, cs, mode) && fs != [] && ts != [] && fs[0].name == ts[0].name
    ensures Built(GenerateMembers(whole, fs, ts, cs), fs, ts, mode)
    decreases whole, 0, |fs| + |ts|, 0
  {
    var f, t := fs[0], ts[0];
    StrCmpZero(f.name, t.name);
    BothReady(whole, fs, ts, cs, mode);
    GenerateMembersMeaning(whole, fs[1..], ts[1..], cs, mode);
    ComparesAs(f.value, t.value, cs, mode);
    var rest := GenerateMembers(whole, fs[1..], ts[1..], cs);
    var same := CompareJson(f.value, t.value, cs);
    if !same { GenerateMeaning(f.value, t.value, false, mode); }
    BothBuilt(f, t, fs[1..], ts[1..], rest, same, Generate(f.value, t.value, false), mode);
    assert [f] + fs[1..] == fs && [t] + ts[1..] == ts;
    if same { assert GenerateMembers(whole, fs, ts, cs) == [] + rest == rest; }
  }

  /** What the two heads and the two tails bring along. */
  lemma BothReady(whole: Json, fs: seq<Member>, ts: seq<Member>, cs: bool, mode: bool)
    requires WalkLists(whole, fs, ts, cs, mode) && fs != [] && ts != [] && fs[0].name == ts[0].name
    ensures WalkLists(whole, fs[1..], ts[1..], cs, mode)
    ensures Comparable(fs[0].value, ts[0].value, cs, mode)
    ensures SameButRaw(Denote(fs[0].value, mode), Denote(ts[0].value, mode))
         || Mergeable(fs[0].value, ts[0].value, false, mode)
    ensures Key(fs[0].name, mode) !in DenoteMembers(fs[1..], mode)
         && Key(ts[0].name, mode) !in DenoteMembers(ts[1..], mode)
  {
    StrictTail(fs, mode);
    StrictTail(ts, mode);
    StrCmpZero(fs[0].name, ts[0].name);
    assert PairReady(fs[0], ts[0], cs, mode);
  }

  /** The walk over the tails, and what it says about the heads. */
  lemma BothBuilt(f: Member, t: Member, fs: seq<Member>, ts: seq<Member>, rest: seq<Member>, same: bool,
                  p: Option<Json>, mode: bool)
    requires f.name == t.name && Built(rest, fs, ts, mode)
    requires Key(f.name, mode) !in DenoteMembers(fs, mode) && Key(f.name, mode) !in DenoteMembers(ts, mode)
    requires same <==> SameButRaw(Denote(f.value, mode), Denote(t.value, mode))
    requires !same ==>
      p.Some? && Distinct(p.value, mode)
      && Denote(p.value, mode) == GenerateValue(Denote(f.value, mode), Denote(t.value, mode))
    ensures Built(if same then rest else [Member(t.name, p.value)] + rest, [f] + fs, [t] + ts, mode)
  {
    assert ([f] + fs)[1..] == fs && ([t] + ts)[1..] == ts;
    PatchFieldsBoth(DenoteMembers(fs, mode), DenoteMembers(ts, mode), Key(f.name, mode),
                    Denote(f.value, mode), Denote(t.value, mode));
    if !same { PrependMember(Member(t.name, p.value), rest, mode); }
  }

  lemma PrependMember(x: Member, rest: seq<Member>, mode: bool)
    requires Distinct(Object(rest), mode) && Distinct(x.value, mode) && Key(x.name, mode) !in DenoteMembers(rest, mode)
    ensures Distinct(Object([x] + rest), mode)
    ensures DenoteMembers([x] + rest, mode) == DenoteMembers(rest, mode)[Key(x.name, mode) := Denote(x.value, mode)]
  {
    var r := [x] + rest;
    assert r[1..] == rest;
    forall j | 0 <= j < |rest| ensures Key(rest[j].name, mode) != Key(x.name, mode) { DenoteAt(rest, j, mode); }
  }

  // ----- the guard is exact for the default generator -----

  lemma HasKeyFront(x: Member, s: seq<Member>, k: CString, mode: bool)
    ensures HasKey([x] + s, MemberKey(mode), k) <==> Key(x.name, mode) == k || HasKey(s, MemberKey(mode), k)
  {
    var r := [x] + s;
    if HasKey(s, MemberKey(mode), k) {
      var i :| 0 <= i < |s| && MemberKey(mode)(s[i]) == k;
      assert MemberKey(mode)(r[i + 1]) == k;
    }
    if HasKey(r, MemberKey(mode), k) {
      var i :| 0 <= i < |r| && MemberKey(mode)(r[i]) == k;
      if i > 0 { assert MemberKey(mode)(s[i - 1]) == k; }
    }
    assert MemberKey(mode)(r[0]) == Key(x.name, mode);
  }

  /** The patch mentions a key that only one of the lists has, and no key that neither has. */
  lemma {:induction false} PatchKeys(whole: Json, fs: seq<Member>, ts: seq<Member>, k: CString)
    requires forall m :: m in fs ==> m.value < whole
    ensures var r := HasKey(GenerateMembers(whole, fs, ts, false), MemberKey(false), k);
      var f, t := HasKey(fs, MemberKey(false), k), HasKey(ts, MemberKey(false), k);
      (f != t ==> r) && (r ==> f || t)
    decreases |fs| + |ts|
  {
    if fs != [] || ts != [] {
      if Turn(fs, ts) <= 0 { SplitFirst(fs); HasKeyFront(fs[0], fs[1..], k, false); }
      if Turn(fs, ts) >= 0 { SplitFirst(ts); HasKeyFront(ts[0], ts[1..], k, false); }
      if Turn(fs, ts) < 0 {
        PatchKeys(whole, fs[1..], ts, k);
        HasKeyFront(Member(fs[0].name, Null), GenerateMembers(whole, fs[1..], ts, false), k, false);
      } else if Turn(fs, ts) > 0 {
        PatchKeys(whole, fs, ts[1..], k);
        HasKeyFront(ts[0], GenerateMembers(whole, fs, ts[1..], false), k, false);
      } else {
        StrCmpZero(fs[0].name, ts[0].name);
        PatchKeys(whole, fs[1..], ts[1..], k);
        BothMembers(whole, fs, ts);
        PatchKeysBoth(whole, fs, ts, k);
      }
    }
  }

  lemma SplitFirst<T>(s: seq<T>)
    requires s != []
    ensures s == [s[0]] + s[1..]
  {
  }

  /** What the walk emits for two members of one name. */
  lemma BothMembers(whole: Json, fs: seq<Member>, ts: seq<Member>)
    requires forall m :: m in fs ==> m.value < whole
    requires fs != [] && ts != [] && fs[0].name == ts[0].name
    ensures var rest, p := GenerateMembers(whole, fs[1..], ts[1..], false), Generate(fs[0].value, ts[0].value, false);
      GenerateMembers(whole, fs, ts, false)
      == if CompareJson(fs[0].value, ts[0].value, false) || p.None? then rest else [Member(ts[0].name, p.value)] + rest
  {
    StrCmpZero(fs[0].name, ts[0].name);
    var rest := GenerateMembers(whole, fs[1..], ts[1..], false);
    assert [] + rest == rest;
  }

  lemma PatchKeysBoth(whole: Json, fs: seq<Member>, ts: seq<Member>, k: CString)
    requires forall m :: m in fs ==> m.value < whole
    requires fs != [] && ts != [] && fs[0].name == ts[0].name
    ensures var r := HasKey(GenerateMembers(whole, fs, ts, false), MemberKey(false), k);
      var rest := HasKey(GenerateMembers(whole, fs[1..], ts[1..], false), MemberKey(false), k);
      (rest ==> r) && (r ==> rest || k == Key(fs[0].name, false))
  {
    BothMembers(whole, fs, ts);
    var p := Generate(fs[0].value, ts[0].value, false);
    if p.Some? {
      HasKeyFront(Member(ts[0].name, p.value), GenerateMembers(whole, fs[1..], ts[1..], false), k, false);
    }
  }

  /** A patch whose first member is taken off. */
  lemma BuiltTail(x: Member, rest: seq<Member>, fields: map<CString, Value>)
    requires Distinct(Object([x] + rest), false) && DenoteMembers([x] + rest, false) == fields
    ensures var k := Key(x.name, false);
      && Distinct(Object(rest), false) && Distinct(x.value, false) && !HasKey(rest, MemberKey(false), k)
      && DenoteMembers(rest, false) == fields - {k} && k in fields && fields[k] == Denote(x.value, false)
  {
    var r, k := [x] + rest, Key(x.name, false);
    assert r[0] == x && r[1..] == rest;
    forall i, j | 0 <= i < j < |rest| ensures Key(rest[i].name, false) != Key(rest[j].name, false) {
      assert rest[i] == r[i + 1] && rest[j] == r[j + 1];
    }
    forall m | m in rest ensures Distinct(m.value, false) { assert m in r; }
    forall i | 0 <= i < |rest| ensures MemberKey(false)(rest[i]) != k { assert rest[i] == r[i + 1]; }
    KeyMissing(rest, k, false);
    assert fields == DenoteMembers(rest, false)[k := Denote(x.value, false)];
  }

  /** What the lists before the walk and the tails after a turn have in common. */
  ghost predicate Lists(whole: Json, fs: seq<Member>, ts: seq<Member>) {
    && (forall x :: x in fs ==> x.value < whole && Distinct(x.value, false))
        && (forall x :: x in ts ==> Distinct(x.value, false))
    && Strict(fs, MemberKey(false)) && Strict(ts, MemberKey(false))
  }

  /** The patches nested in the walk are what they should be. */
  ghost predicate NestedGenerate(fs: seq<Member>, ts: seq<Member>) {
    forall f, g ::
      f in fs && g in ts && f.name == g.name && !SameButRaw(Denote(f.value, false), Denote(g.value, false)) ==>
      Generates(f.value, g.value, false, false)
  }

  lemma {:induction false} BuiltMeets(whole: Json, fs: seq<Member>, ts: seq<Member>)
    requires Lists(whole, fs, ts) && Built(GenerateMembers(whole, fs, ts, false), fs, ts, false)
    ensures Meets(fs, ts, false) && NestedGenerate(fs, ts)
    decreases |fs| + |ts|
  {
    if fs != [] || ts != [] {
      if fs != [] { StrictTail(fs, false); SplitFirst(fs); }
      if ts != [] { StrictTail(ts, false); SplitFirst(ts); }
      if Turn(fs, ts) < 0 {
        LeftMeets(whole, fs, ts);
        BuiltMeets(whole, fs[1..], ts);
        NoPartner(fs[0], ts);
      } else if Turn(fs, ts) > 0 {
        RightMeets(whole, fs, ts);
        BuiltMeets(whole, fs, ts[1..]);
        NoPartner(ts[0], fs);
      } else {
        StrCmpZero(fs[0].name, ts[0].name);
        BothMeet(whole, fs, ts);
        BuiltMeets(whole, fs[1..], ts[1..]);
      }
    }
  }

  lemma NoPartner(x: Member, s: seq<Member>)
    requires !HasKey(s, MemberKey(false), Key(x.name, false))
    ensures forall m :: m in s ==> m.name != x.name
  {
    forall m | m in s ensures m.name != x.name {
      var i :| 0 <= i < |s| && s[i] == m;
      assert MemberKey(false)(s[i]) != Key(x.name, false);
    }
  }

  lemma LeftMeets(whole: Json, fs: seq<Member>, ts: seq<Member>)
    requires Lists(whole, fs, ts) && Built(GenerateMembers(whole, fs, ts, false), fs, ts, false)
    requires fs != [] && Turn(fs, ts) < 0
    ensures !HasKey(ts, MemberKey(false), Key(fs[0].name, false)) && Lists(whole, fs[1..], ts)
    ensures Built(GenerateMembers(whole, fs[1..], ts, false), fs[1..], ts, false)
  {
    var k, rest := Key(fs[0].name, false), GenerateMembers(whole, fs[1..], ts, false);
    StrictTail(fs, false);
    TailHasNot(fs, false);
    PatchKeys(whole, fs[1..], ts, k);
    BuiltTail(Member(fs[0].name, Null), rest, PatchFields(DenoteMembers(fs, false), DenoteMembers(ts, false)));
    KeyMissing(ts, k, false);
    PatchFieldsLeft(DenoteMembers(fs[1..], false), DenoteMembers(ts, false), k, Denote(fs[0].value, false));
  }

  lemma RightMeets(whole: Json, fs: seq<Member>, ts: seq<Member>)
    requires Lists(whole, fs, ts) && Built(GenerateMembers(whole, fs, ts, false), fs, ts, false)
    requires ts != [] && Turn(fs, ts) > 0
    ensures !HasKey(fs, MemberKey(false), Key(ts[0].name, false)) && Lists(whole, fs, ts[1..])
    ensures Built(GenerateMembers(whole, fs, ts[1..], false), fs, ts[1..], false)
  {
    var k, rest := Key(ts[0].name, false), GenerateMembers(whole, fs, ts[1..], false);
    StrictTail(ts, false);
    TailHasNot(ts, false);
    PatchKeys(whole, fs, ts[1..], k);
    BuiltTail(ts[0], rest, PatchFields(DenoteMembers(fs, false), DenoteMembers(ts, false)));
    KeyMissing(fs, k, false);
    PatchFieldsRight(DenoteMembers(fs, false), DenoteMembers(ts[1..], false), k, Denote(ts[0].value, false));
  }

  lemma TailHasNot(s: seq<Member>, mode: bool)
    requires s != [] && Strict(s, MemberKey(mode))
    ensures !HasKey(s[1..], MemberKey(mode), Key(s[0].name, mode))
  {
    StrictTail(s, mode);
    forall i | 0 <= i < |s[1..]| ensures MemberKey(mode)(s[1..][i]) != Key(s[0].name, mode) {
      assert s[1..][i] in s[1..];
    }
  }

  lemma BothMeet(whole: Json, fs: seq<Member>, ts: seq<Member>)
    requires Lists(whole, fs, ts) && Built(GenerateMembers(whole, fs, ts, false), fs, ts, false)
    requires fs != [] && ts != [] && fs[0].name == ts[0].name
    ensures Lists(whole, fs[1..], ts[1..])
         && Built(GenerateMembers(whole, fs[1..], ts[1..], false), fs[1..], ts[1..], false)
    ensures SameButRaw(Denote(fs[0].value, false), Denote(ts[0].value, false))
         || Generates(fs[0].value, ts[0].value, false, false)
  {
    var f, g, k := fs[0], ts[0], Key(fs[0].name, false);
    StrictTail(fs, false);
    StrictTail(ts, false);
    TailHasNot(fs, false);
    TailHasNot(ts, false);
    CompareDecides(f.value, g.value, false);
    BothMembers(whole, fs, ts);
    PatchKeys(whole, fs[1..], ts[1..], k);
    NestedBuilt(f, g, DenoteMembers(fs[1..], false), DenoteMembers(ts[1..], false),
                GenerateMembers(whole, fs[1..], ts[1..], false),
                CompareJson(f.value, g.value, false), Generate(f.value, g.value, false));
  }

  /** The patch for two lists whose heads have one name, taken apart. */
  lemma NestedBuilt(f: Member, g: Member, fs: map<CString, Value>, ts: map<CString, Value>, rest: seq<Member>,
                    same: bool, p: Option<Json>)
    requires f.name == g.name && Key(f.name, false) !in fs && Key(f.name, false) !in ts
    requires !HasKey(rest, MemberKey(false), Key(f.name, false))
    requires same <==> SameButRaw(Denote(f.value, false), Denote(g.value, false))
    requires var r := if same || p.None? then rest else [Member(g.name, p.value)] + rest;
      var k := Key(f.name, false);
      && Distinct(Object(r), false)
      && DenoteMembers(r, false) == PatchFields(fs[k := Denote(f.value, false)], ts[k := Denote(g.value, false)])
    ensures Distinct(Object(rest), false) && DenoteMembers(rest, false) == PatchFields(fs, ts)
    ensures same || (p.Some? && Distinct(p.value, false)
      && Denote(p.value, false) == GenerateValue(Denote(f.value, false), Denote(g.value, false)))
  {
    var k := Key(f.name, false);
    KeyMissing(rest, k, false);
    PatchFieldsBoth(fs, ts, k, Denote(f.value, false), Denote(g.value, false));
    if !same && p.Some? {
      BuiltTail(Member(g.name, p.value), rest,
                PatchFields(fs[k := Denote(f.value, false)], ts[k := Denote(g.value, false)]));
    }
  }

  /**
   * Whatever the names, as long as those of one object differ up to case: the default generator's patch means
   * the difference and names every key once if and only if its walks meet the members of equal key.
   */
  lemma {:induction false} GeneratesExactly(from: Json, to: Json)
    requires Distinct(from, false) && Distinct(to, false)
    ensures Generates(from, to, false, false) <==> SortedAlike(from, to, false, false)
    decreases from
  {
    if SortedAlike(from, to, false, false) {
      GenerateMeaning(from, to, false, false);
    }
    if Generates(from, to, false, false) && from.Object? && to.Object? {
      var fs, ts := SortMembers(from.members, false), SortMembers(to.members, false);
      SortedMeaning(from.members, false);
      SortedMeaning(to.members, false);
      WholePatch(from, to);
      BuiltMeets(from, fs, ts);
      forall f, g | f in from.members && g in to.members ensures PairReady(f, g, false, false) {
        if f.name == g.name { GeneratesExactly(f.value, g.value); }
      }
    }
  }

  lemma WholePatch(from: Json, to: Json)
    requires from.Object? && to.Object? && Generates(from, to, false, false) && Distinct(from, false)
         && Distinct(to, false)
    ensures var fs, ts := SortMembers(from.members, false), SortMembers(to.members, false);
      Lists(from, fs, ts) && Built(GenerateMembers(from, fs, ts, false), fs, ts, false)
  {
    var fs, ts := SortMembers(from.members, false), SortMembers(to.members, false);
    SortedMeaning(from.members, false);
    SortedMeaning(to.members, false);
    var f, g := DenoteMembers(fs, false), DenoteMembers(ts, false);
    if GenerateMembers(from, fs, ts, false) == [] {
      assert SameButRaw(Fields(f), Fields(g));
      assert forall k :: k in f || k in g ==> Unchanged(f, g, k);
      assert PatchFields(f, g) == map[];
    } else {
      assert Fields(PatchFields(f, g)) == GenerateValue(Denote(from, false), Denote(to, false));
    }
  }

  // ----- merging the generated patch -----

  /** When merging the patch for (u, v) into u gives v: no null member has to be set. */
  predicate MergeSafe(u: Option<Value>, v: Value)
    decreases v
  {
    match v
    case Fields(t) =>
      var f := StartFields(u);
      forall k :: k in t ==>
        if Unchanged(f, t, k) then f[k] == t[k]
        else t[k] != Atom(Null) && MergeSafe(if k in f then Some(f[k]) else None, t[k])
    case _ => true
  }

  /** A whole tree used as a patch on something that is no object. */
  lemma {:induction false} MergeWhole(o: Option<Value>, v: Value)
    requires o.None? || !o.value.Fields?
    ensures RfcMerge(o, v) == v <==> MergeSafe(o, v)
    decreases v
  {
    match v
    case Fields(t) =>
      var r := RfcMerge(o, v).fields;
      forall k | k in t ensures RfcMerge(None, t[k]) == t[k] <==> MergeSafe(None, t[k]) { MergeWhole(None, t[k]); }
      assert r == t <==> forall k :: k in t ==> k in r && r[k] == t[k];
    case _ =>
  }

  /** The law on values, with the exact condition. */
  lemma {:induction false} MergeGenerated(u: Value, v: Value)
    ensures RfcMerge(Some(u), GenerateValue(u, v)) == v <==> MergeSafe(Some(u), v)
    decreases v
  {
    if u.Fields? && v.Fields? {
      var f, t := u.fields, v.fields;
      var p := PatchFields(f, t);
      var r := RfcFields(f, p);
      assert RfcMerge(Some(u), GenerateValue(u, v)) == Fields(r);
      forall k | k in t ensures (k in r && r[k] == t[k]) <==>
        if Unchanged(f, t, k) then f[k] == t[k]
        else t[k] != Atom(Null) && MergeSafe(if k in f then Some(f[k]) else None, t[k])
      {
        if k in f {
          MergeGenerated(f[k], t[k]);
        } else {
          MergeWhole(None, t[k]);
        }
      }
      assert r.Keys <= t.Keys;
      assert r == t <==> forall k :: k in t ==> k in r && r[k] == t[k];
    } else if !u.Fields? {
      MergeWhole(Some(u), v);
    }
  }

  /**
   * The generator in the mode `cs` and the merge in the mode `mode`, the default pair and the case-sensitive
   * one among them: no patch means nothing to change; otherwise merging the patch into the source gives the
   * target exactly when no null member would have to be set.
   */
  lemma MergeRoundTrip(from: Json, to: Json, cs: bool, mode: bool)
    requires Mergeable(from, to, cs, mode)
    ensures var patch := Generate(from, to, cs);
      if patch.None? then SameButRaw(Denote(from, mode), Denote(to, mode))
      else Denote(Merge(Some(from), patch.value, mode), mode) == Denote(to, mode)
           <==> MergeSafe(Some(Denote(from, mode)), Denote(to, mode))
  {
    GenerateMeaning(from, to, cs, mode);
    var patch := Generate(from, to, cs);
    if patch.Some? {
      MergeIsRfc(Some(from), patch.value, mode);
      MergeGenerated(Denote(from, mode), Denote(to, mode));
    }
  }

  // ----- what goes wrong otherwise -----

  /**
   * Ignoring case, the lists are sorted one way and compared another: for the source {"a": 1, "B": 2} and
   * the target {"B": 2} the patch sets B and then removes it again.
   */
  lemma MixedCaseLosesMember()
    ensures var a, b := Member([Ascii('a')], Number(1)), Member([Ascii('B')], Number(2));
      var patch := Generate(Object([a, b]), Object([b]), false);
      patch.Some? && Merge(Some(Object([a, b])), patch.value, false) == Object([])
      && !SortedAlike(Object([a, b]), Object([b]), false, false)
  {
    var a, b := Member([Ascii('a')], Number(1)), Member([Ascii('B')], Number(2));
    MixedCaseSorted(a, b);
    MixedCasePatch(a, b);
    MixedCaseMisses(a, b);
    MixedCaseMerge(a, b, Member(a.name, Null), Member(b.name, Null));
  }

  lemma MixedCaseSorted(a: Member, b: Member)
    requires a.name == [Ascii('a')] && b.name == [Ascii('B')]
    ensures Lower(a.name) != Lower(b.name) && StrCmp(a.name, b.name) > 0
    ensures SortMembers([a, b], false) == [a, b] && SortMembers([b], false) == [b]
  {
    assert Lower(a.name) == [Ascii('a')] && Lower(b.name) == [Ascii('b')];
    assert Before(Lower(a.name), Lower(b.name));
    assert Ascending([a, b], MemberKey(false));
  }

  /** The walk passes B alone although the other list still has a B. */
  lemma MixedCaseMisses(a: Member, b: Member)
    requires a.name == [Ascii('a')] && b.name == [Ascii('B')]
    ensures !SortedAlike(Object([a, b]), Object([b]), false, false)
  {
    MixedCaseSorted(a, b);
    assert Turn([a, b], [b]) > 0;
    assert MemberKey(false)([a, b][1]) == Key(b.name, false);
    assert HasKey([a, b], MemberKey(false), Key(b.name, false));
    assert !Meets([a, b], [b], false);
  }

  lemma MixedCasePatch(a: Member, b: Member)
    requires a == Member([Ascii('a')], Number(1)) && b == Member([Ascii('B')], Number(2))
    ensures Generate(Object([a, b]), Object([b]), false)
         == Some(Object([b, Member(a.name, Null), Member(b.name, Null)]))
  {
    var na, nb := Member(a.name, Null), Member(b.name, Null);
    var from := Object([a, b]);
    MixedCaseSorted(a, b);
    assert from.members[0].value < from && from.members[1].value < from;
    assert GenerateMembers(from, [b], [], false) == [nb] + GenerateMembers(from, [], [], false);
    assert GenerateMembers(from, [a, b], [], false) == [na] + [nb];
    assert [a, b][1..] == [b] && [b][1..] == [];
    assert GenerateMembers(from, [a, b], [b], false) == [b] + GenerateMembers(from, [a, b], [], false);
    assert [b] + ([na] + [nb]) == [b, na, nb];
  }

  lemma MixedCaseMerge(a: Member, b: Member, na: Member, nb: Member)
    requires Lower(a.name) != Lower(b.name) && !b.value.Null? && !b.value.Object?
    requires na == Member(a.name, Null) && nb == Member(b.name, Null)
    ensures Merge(Some(Object([a, b])), Object([b, na, nb]), false) == Object([])
  {
    var patch := Object([b, na, nb]);
    assert patch.members[0].value < patch && patch.members[1].value < patch && patch.members[2].value < patch;
    MixedCaseSteps(patch, a, b, na, nb);
    MergeThree(patch, [a, b], b, na, nb, [a, b], [b], [], false);
    MergeObject([a, b], patch, false);
  }

  lemma MergeObject(ms: seq<Member>, patch: Json, cs: bool)
    requires patch.Object?
    ensures Merge(Some(Object(ms)), patch, cs) == Object(MergeMembers(patch, ms, patch.members, cs))
  {
  }

  lemma MixedCaseSteps(patch: Json, a: Member, b: Member, na: Member, nb: Member)
    requires b.value < patch && na.value < patch && nb.value < patch
    requires Lower(a.name) != Lower(b.name) && !b.value.Null? && !b.value.Object?
    requires na == Member(a.name, Null) && nb == Member(b.name, Null)
    ensures MergeOne(patch, [a, b], b, false) == [a, b]
    ensures MergeOne(patch, [a, b], na, false) == [b] && MergeOne(patch, [b], nb, false) == []
  {
    MixedCaseRemovals(a, b);
    assert [a] + [b] == [a, b];
  }

  lemma MixedCaseRemovals(a: Member, b: Member)
    requires Lower(a.name) != Lower(b.name)
    ensures RemoveKey([a, b], b.name, false) == [a]
    ensures RemoveKey([a, b], a.name, false) == [b]
    ensures RemoveKey([b], b.name, false) == []
  {
    FindIs([a, b], b.name, false, 1);
    FindIs([a, b], a.name, false, 0);
    FindIs([b], b.name, false, 0);
  }

  lemma MergeThree(whole: Json, ms: seq<Member>, x: Member, y: Member, z: Member,
                   m1: seq<Member>, m2: seq<Member>, m3: seq<Member>, cs: bool)
    requires x.value < whole && y.value < whole && z.value < whole
    requires MergeOne(whole, ms, x, cs) == m1 && MergeOne(whole, m1, y, cs) == m2 && MergeOne(whole, m2, z, cs) == m3
    ensures MergeMembers(whole, ms, [x, y, z], cs) == m3
  {
    assert [x, y, z][1..] == [y, z] && [y, z][1..] == [z] && [z][1..] == [];
    assert MergeMembers(whole, m2, [z], cs) == MergeMembers(whole, m3, [], cs);
    assert MergeMembers(whole, m1, [y, z], cs) == m3;
  }
}
