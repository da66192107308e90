// Ignoring case, the guard of the patch law is exact: a generated patch that works needs it.
module PatchConverse {
  import opened Wrappers
  import opened Sequences
  import opened CText
  import opened JsonTree
  import opened NameSort
  import opened JsonPointer
  import opened DecodedNames
  import opened Comparison
  import opened JsonPatch
  import opened PatchGenerator
  import opened MemberEdit
  import opened PatchLaw

  // ----- what one edit does to the keys of an object -----

  /** The key an edit for `name` acts on. */
  function Target(name: CString): CString {
    Lower(Landing(name))
  }

  function Meaning(ms: seq<Member>): map<CString, Value> {
    DenoteMembers(ms, false)
  }

  lemma ChildPath(name: CString)
    ensures [] + Token(name) == [SLASH] + Encode(name) && SLASH !in Encode(name)
  {
    EncodeNoSlash(name);
  }

  lemma DetachEffect(ms: seq<Member>, name: CString)
    requires DistinctNames(ms, false)
    ensures var d := DetachPath(Object(ms), [] + Token(name), false);
      && (d.None? <==> Target(name) !in Meaning(ms))
      && (d.Some? ==> d.value.1.Object? && DistinctNames(d.value.1.members, false)
                      && Meaning(d.value.1.members) == Meaning(ms) - {Target(name)})
  {
    ChildPath(name);
    RootDetach(Object(ms), Encode(name), false);
    DenoteFind(ms, Landing(name), false);
    var i := Find(ms, Landing(name), false);
    if i < |ms| { DenoteRemoveAt(ms, i, false); }
  }

  lemma AddEffect(ms: seq<Member>, name: CString, v: Json)
    requires DistinctNames(ms, false)
    ensures var (status, r) := AddPath(Object(ms), [] + Token(name), v, false);
      && status == 0 && r.Object? && DistinctNames(r.members, false)
      && Meaning(r.members) == Meaning(ms)[Target(name) := Denote(v, false)]
  {
    ChildPath(name);
    RootAdd(Object(ms), Encode(name), v, false);
    var rest := RemoveKey(ms, Landing(name), false);
    DenoteRemoveKey(ms, Landing(name), false);
    DenoteAppend(rest, Member(Landing(name), v), false);
    PutBack(Meaning(ms), Target(name), Denote(v, false));
  }

  /** After the edit the object means `m`. */
  ghost predicate Leaves(doc: Json, edits: seq<Edit>, m: map<CString, Value>) {
    var (status, r) := ApplyEdits(doc, edits, false);
    status == 0 && r.Object? && DistinctNames(r.members, false) && Meaning(r.members) == m
  }

  lemma OneEditIs(doc: Json, e: Edit)
    ensures ApplyEdits(doc, [e], false) == ApplyEdit(doc, e, false)
  {
    ApplyFirst(doc, e, [], false);
    assert [e] + [] == [e];
  }

  lemma LeavesOne(doc: Json, e: Edit, r: Json, m: map<CString, Value>)
    requires ApplyEdit(doc, e, false) == (0, r) && r.Object? && DistinctNames(r.members, false)
         && Meaning(r.members) == m
    ensures Leaves(doc, [e], m)
  {
    OneEditIs(doc, e);
  }

  lemma PutBack(m: map<CString, Value>, k: CString, v: Value)
    ensures (m - {k})[k := v] == m[k := v]
  {
  }

  lemma RemoveLeaves(ms: seq<Member>, name: CString)
    requires DistinctNames(ms, false)
    requires ApplyEdits(Object(ms), [Edit(REMOVE, [] + Token(name), None)], false).0 == 0
    ensures Leaves(Object(ms), [Edit(REMOVE, [] + Token(name), None)], Meaning(ms) - {Target(name)})
    ensures Target(name) in Meaning(ms)
  {
    OneEditIs(Object(ms), Edit(REMOVE, [] + Token(name), None));
    ChildPath(name);
    DetachEffect(ms, name);
  }

  lemma AddLeaves(ms: seq<Member>, name: CString, v: Json)
    requires DistinctNames(ms, false)
    ensures Leaves(Object(ms), [Edit(ADD, [] + Token(name), Some(v))], Meaning(ms)[Target(name) := Denote(v, false)])
  {
    OneEditIs(Object(ms), Edit(ADD, [] + Token(name), Some(v)));
    ChildPath(name);
    AddEffect(ms, name, v);
  }

  /** Without its container an operation on a path fails. */
  lemma NoContainer(doc: Json, path: CString, slash: nat, parent: CString, v: Json)
    requires LastSlash(path) == Some(slash) && parent == path[..slash] && Locate(doc, parent, false) == None
    ensures DetachPath(doc, path, false) == None && AddPath(doc, path, v, false) == (9, doc)
  {
  }

  lemma FailsWithout(doc: Json, e: Edit)
    requires Generated(e.op) && e.path != [] && DetachPath(doc, e.path, false) == None
    requires e.value.Some? ==> AddPath(doc, e.path, e.value.value, false).0 != 0
    ensures ApplyEdit(doc, e, false).0 != 0
  {
  }

  lemma ReplaceLeaves(ms: seq<Member>, name: CString, v: Json)
    requires DistinctNames(ms, false)
    requires ApplyEdits(Object(ms), [Edit(REPLACE, [] + Token(name), Some(v))], false).0 == 0
    ensures Leaves(Object(ms), [Edit(REPLACE, [] + Token(name), Some(v))],
                   Meaning(ms)[Target(name) := Denote(v, false)])
    ensures Target(name) in Meaning(ms)
  {
    var e := Edit(REPLACE, [] + Token(name), Some(v));
    OneEditIs(Object(ms), e);
    DetachEffect(ms, name);
    var taken := DetachPath(Object(ms), e.path, false);
    ChildPath(name);
    if taken.None? {
      ReplaceFails(Object(ms), e.path, v);
    } else {
      var rest := taken.value.1.members;
      ApplyReplace(Object(ms), e.path, v, taken.value.0, taken.value.1, false);
      AddEffect(rest, name, v);
      PutBack(Meaning(ms), Target(name), Denote(v, false));
      LeavesOne(Object(ms), e, AddPath(Object(rest), e.path, v, false).1,
                Meaning(ms)[Target(name) := Denote(v, false)]);
    }
  }

  lemma ReplaceFails(doc: Json, path: CString, v: Json)
    requires path != [] && DetachPath(doc, path, false) == None
    ensures ApplyEdit(doc, Edit(REPLACE, path, Some(v)), false) == (13, doc)
  {
  }

  // ----- edits below a member -----

  lemma MissingContainer(ms: seq<Member>, name: CString, q: CString, v: Json)
    requires Find(ms, name, false) == |ms| && q != [] && q[0] == SLASH
    ensures var path := [SLASH] + Encode(name) + q;
      DetachPath(Object(ms), path, false) == None && AddPath(Object(ms), path, v, false).0 != 0
  {
    var step := [SLASH] + Encode(name);
    SplitBelow(step, q);
    var s := LastSlash(q).value;
    LocateMember(ms, name, q[..s], false);
    NoContainer(Object(ms), step + q, |step| + s, step + q[..s], v);
  }

  /** Nothing can be done below a member that is not there. */
  lemma MissingFails(ms: seq<Member>, name: CString, e: Edit)
    requires Find(ms, name, false) == |ms| && Generated(e.op) && e.path != [] && e.path[0] == SLASH
    ensures ApplyEdit(Object(ms), e.(path := [] + Token(name) + e.path), false).0 != 0
  {
    ChildPath(name);
    MissingContainer(ms, name, e.path, if e.value.Some? then e.value.value else Null);
    FailsWithout(Object(ms), e.(path := [] + Token(name) + e.path));
  }

  /** The meaning changed at one key at most. */
  ghost predicate OnlyAt(m: map<CString, Value>, r: map<CString, Value>, k: CString) {
    m.Keys == r.Keys && forall x :: x in m && x != k ==> r[x] == m[x]
  }

  lemma BelowLeaves(ms: seq<Member>, name: CString, e: seq<Edit>)
    requires DistinctNames(ms, false) && Deep(e)
    requires ApplyEdits(Object(ms), Under([] + Token(name), e), false).0 == 0
    ensures var r := ApplyEdits(Object(ms), Under([] + Token(name), e), false).1;
      r.Object? && DistinctNames(r.members, false) && OnlyAt(Meaning(ms), Meaning(r.members), Lower(name))
  {
    var step, i := [] + Token(name), Find(ms, name, false);
    ChildPath(name);
    if e == [] {
      assert Under(step, e) == [];
    } else if i == |ms| {
      assert Under(step, e)[0] == e[0].(path := step + e[0].path);
      MissingFails(ms, name, e[0]);
    } else {
      assert ChildStep(Object(ms), step, i, false);
      ApplyUnder(Object(ms), step, i, e, false);
      var v := ApplyEdits(ms[i].value, e, false).1;
      DenoteUpdate(ms, i, v, false);
      DenoteAt(ms, i, false);
    }
  }

  /** The edits for two members of one name change one key at most. */
  lemma PairLeaves(ms: seq<Member>, name: CString, f: Json, g: Json)
    requires DistinctNames(ms, false)
    requires ApplyEdits(Object(ms), CreateEdits([] + Token(name), f, g, false), false).0 == 0
    ensures var r := ApplyEdits(Object(ms), CreateEdits([] + Token(name), f, g, false), false).1;
      r.Object? && DistinctNames(r.members, false)
      && OnlyAt(Meaning(ms), Meaning(r.members), if Replaced(f, g) then Target(name) else Lower(name))
  {
    var step := [] + Token(name);
    EditsMove(step, f, g, false);
    EditsShape(f, g, false);
    if Replaced(f, g) {
      UnderOne(step, [], REPLACE, Some(g));
      assert step + [] == step;
      ReplaceLeaves(ms, name, g);
    } else {
      BelowLeaves(ms, name, CreateEdits([], f, g, false));
    }
  }

  // ----- which key each edit of the walk acts on -----

  /** No member of the list has the name of `m`, case apart. */
  ghost predicate Lonely(m: Member, s: seq<Member>) {
    !HasKey(s, MemberKey(false), Key(m.name, false))
  }

  ghost predicate Partners(f: Member, g: Member) {
    Key(f.name, false) == Key(g.name, false)
  }

  ghost predicate RemovedAt(fs: seq<Member>, ts: seq<Member>, k: CString) {
    exists f :: f in fs && Lonely(f, ts) && Target(f.name) == k
  }

  ghost predicate AddedAt(fs: seq<Member>, ts: seq<Member>, k: CString) {
    exists t :: t in ts && Lonely(t, fs) && Target(t.name) == k
  }

  ghost predicate SwappedAt(fs: seq<Member>, ts: seq<Member>, k: CString) {
    exists f, g :: f in fs && g in ts && Partners(f, g) && Replaced(f.value, g.value) && Target(f.name) == k
  }

  ghost predicate WalkedAt(fs: seq<Member>, ts: seq<Member>, k: CString) {
    exists f, g :: f in fs && g in ts && Partners(f, g) && !Replaced(f.value, g.value) && Key(f.name, false) == k
  }

  /** What may have happened at the key `k` on the way from `m` to `r`. */
  ghost predicate Explained(m: map<CString, Value>, r: map<CString, Value>, fs: seq<Member>, ts: seq<Member>,
                            k: CString) {
    && (k !in m && k in r ==> AddedAt(fs, ts, k))
    && (k in m && k !in r ==> RemovedAt(fs, ts, k))
    && (k in m && k in r && m[k] != r[k] ==>
          AddedAt(fs, ts, k) || RemovedAt(fs, ts, k) || SwappedAt(fs, ts, k) || WalkedAt(fs, ts, k))
  }

  ghost predicate Sorted(fs: seq<Member>, ts: seq<Member>) {
    Strict(fs, MemberKey(false)) && Strict(ts, MemberKey(false))
  }

  /** Who is lonely among the tails was so before. */
  ghost predicate TailsLonely(fs: seq<Member>, ts: seq<Member>, fs': seq<Member>, ts': seq<Member>) {
    && (forall f :: f in fs' ==> f in fs && (Lonely(f, ts') ==> Lonely(f, ts)))
    && (forall t :: t in ts' ==> t in ts && (Lonely(t, fs') ==> Lonely(t, fs)))
  }

  lemma TailsExplain(fs: seq<Member>, ts: seq<Member>, fs': seq<Member>, ts': seq<Member>, k: CString)
    requires TailsLonely(fs, ts, fs', ts')
    ensures (RemovedAt(fs', ts', k) ==> RemovedAt(fs, ts, k)) && (AddedAt(fs', ts', k) ==> AddedAt(fs, ts, k))
    ensures (SwappedAt(fs', ts', k) ==> SwappedAt(fs, ts, k)) && (WalkedAt(fs', ts', k) ==> WalkedAt(fs, ts, k))
  {
  }

  lemma LonelyTail(m: Member, s: seq<Member>)
    requires s != [] && Lonely(m, s[1..]) && Key(m.name, false) != Key(s[0].name, false)
    ensures Lonely(m, s)
  {
    if HasKey(s, MemberKey(false), Key(m.name, false)) {
      HasKeyTail(s, Key(m.name, false), false);
    }
  }

  lemma LonelyHead(m: Member, s: seq<Member>)
    requires Strict(s, MemberKey(false)) && (s == [] || Before(Key(m.name, false), Key(s[0].name, false)))
    ensures Lonely(m, s) && forall x :: x in s ==> Key(x.name, false) != Key(m.name, false)
  {
    NotBeforeHead(s, Key(m.name, false), false);
  }

  lemma TailsBoth(fs: seq<Member>, ts: seq<Member>)
    requires Sorted(fs, ts) && fs != [] && ts != [] && Partners(fs[0], ts[0])
    ensures Sorted(fs[1..], ts[1..]) && TailsLonely(fs, ts, fs[1..], ts[1..])
  {
    StrictTail(fs, false);
    StrictTail(ts, false);
    forall f | f in fs[1..] && Lonely(f, ts[1..]) ensures Lonely(f, ts) { LonelyTail(f, ts); }
    forall t | t in ts[1..] && Lonely(t, fs[1..]) ensures Lonely(t, fs) { LonelyTail(t, fs); }
  }

  lemma TailsLeft(fs: seq<Member>, ts: seq<Member>)
    requires Sorted(fs, ts) && fs != [] && (ts == [] || Before(Key(fs[0].name, false), Key(ts[0].name, false)))
    ensures Sorted(fs[1..], ts) && TailsLonely(fs, ts, fs[1..], ts) && Lonely(fs[0], ts)
  {
    StrictTail(fs, false);
    LonelyHead(fs[0], ts);
    forall t | t in ts && Lonely(t, fs[1..]) ensures Lonely(t, fs) { LonelyTail(t, fs); }
  }

  lemma TailsRight(fs: seq<Member>, ts: seq<Member>)
    requires Sorted(fs, ts) && ts != [] && (fs == [] || Before(Key(ts[0].name, false), Key(fs[0].name, false)))
    ensures Sorted(fs, ts[1..]) && TailsLonely(fs, ts, fs, ts[1..]) && Lonely(ts[0], fs)
  {
    StrictTail(ts, false);
    LonelyHead(ts[0], fs);
    forall f | f in fs && Lonely(f, ts[1..]) ensures Lonely(f, ts) { LonelyTail(f, ts); }
  }

  // ----- a run that succeeds -----

  /** The edits succeed on the members `ms`. */
  ghost predicate Runs(ms: seq<Member>, edits: seq<Edit>) {
    ApplyEdits(Object(ms), edits, false).0 == 0
  }

  /** What they leave. */
  ghost function Left(ms: seq<Member>, edits: seq<Edit>): Json {
    ApplyEdits(Object(ms), edits, false).1
  }

  ghost predicate GoodObject(doc: Json) {
    doc.Object? && DistinctNames(doc.members, false)
  }

  lemma RunInTwo(ms: seq<Member>, a: seq<Edit>, b: seq<Edit>)
    requires Runs(ms, a + b)
    ensures Runs(ms, a)
    ensures Left(ms, a).Object? ==> Runs(Left(ms, a).members, b) && Left(ms, a + b) == Left(Left(ms, a).members, b)
  {
    ApplyInTwo(Object(ms), a, b, false);
  }

  lemma {:induction false} RunExplained(whole: Json, ms: seq<Member>, fs: seq<Member>, ts: seq<Member>, k: CString)
    requires DistinctNames(ms, false) && Sorted(fs, ts) && forall m :: m in fs ==> m.value < whole
    requires Runs(ms, MemberEdits([], whole, fs, ts, false))
    ensures var r := Left(ms, MemberEdits([], whole, fs, ts, false));
      GoodObject(r) && Explained(Meaning(ms), Meaning(r.members), fs, ts, k)
    decreases |fs| + |ts|
  {
    if fs != [] || ts != [] {
      var diff := Diff(fs, ts, false);
      if diff == 0 {
        BothExplained(whole, ms, fs, ts, k);
      } else if diff < 0 {
        LeftExplained(whole, ms, fs, ts, k);
      } else {
        if fs != [] { StrCmpAntisymmetric(Key(fs[0].name, false), Key(ts[0].name, false)); }
        RightExplained(whole, ms, fs, ts, k);
      }
    }
  }

  /** A turn that changes the one key, and then the rest. */
  lemma BothExplains(m: map<CString, Value>, n: map<CString, Value>, r: map<CString, Value>, fs: seq<Member>,
                     ts: seq<Member>, k: CString)
    requires fs != [] && ts != [] && Partners(fs[0], ts[0]) && TailsLonely(fs, ts, fs[1..], ts[1..])
    requires OnlyAt(m, n, if Replaced(fs[0].value, ts[0].value) then Target(fs[0].name) else Key(fs[0].name, false))
    requires Explained(n, r, fs[1..], ts[1..], k)
    ensures Explained(m, r, fs, ts, k)
  {
    TailsExplain(fs, ts, fs[1..], ts[1..], k);
    if k in m && m[k] != n[k] {
      assert fs[0] in fs && ts[0] in ts;
      assert SwappedAt(fs, ts, k) || WalkedAt(fs, ts, k);
    }
  }

  lemma {:induction false} BothExplained(whole: Json, ms: seq<Member>, fs: seq<Member>, ts: seq<Member>, k: CString)
    requires DistinctNames(ms, false) && Sorted(fs, ts) && forall m :: m in fs ==> m.value < whole
    requires fs != [] && ts != [] && Diff(fs, ts, false) == 0 && Runs(ms, MemberEdits([], whole, fs, ts, false))
    ensures var r := Left(ms, MemberEdits([], whole, fs, ts, false));
      GoodObject(r) && Explained(Meaning(ms), Meaning(r.members), fs, ts, k)
    decreases |fs| + |ts|, 0
  {
    StrCmpZero(Key(fs[0].name, false), Key(ts[0].name, false));
    TailsBoth(fs, ts);
    var e, rest := CreateEdits([] + Token(fs[0].name), fs[0].value, ts[0].value, false),
        MemberEdits([], whole, fs[1..], ts[1..], false);
    RunInTwo(ms, e, rest);
    PairLeaves(ms, fs[0].name, fs[0].value, ts[0].value);
    var ns := Left(ms, e).members;
    RunExplained(whole, ns, fs[1..], ts[1..], k);
    BothExplains(Meaning(ms), Meaning(ns), Meaning(Left(ns, rest).members), fs, ts, k);
  }

  lemma {:induction false} LeftExplained(whole: Json, ms: seq<Member>, fs: seq<Member>, ts: seq<Member>, k: CString)
    requires DistinctNames(ms, false) && Sorted(fs, ts) && forall m :: m in fs ==> m.value < whole
    requires fs != [] && Diff(fs, ts, false) < 0 && Runs(ms, MemberEdits([], whole, fs, ts, false))
    ensures var r := Left(ms, MemberEdits([], whole, fs, ts, false));
      GoodObject(r) && Explained(Meaning(ms), Meaning(r.members), fs, ts, k)
    decreases |fs| + |ts|, 0
  {
    TailsLeft(fs, ts);
    var e, rest := [Edit(REMOVE, [] + Token(fs[0].name), None)], MemberEdits([], whole, fs[1..], ts, false);
    RunInTwo(ms, e, rest);
    RemoveLeaves(ms, fs[0].name);
    var ns := Left(ms, e).members;
    RunExplained(whole, ns, fs[1..], ts, k);
    TailsExplain(fs, ts, fs[1..], ts, k);
    if k == Target(fs[0].name) {
      assert fs[0] in fs;
      assert RemovedAt(fs, ts, k);
    }
  }

  lemma {:induction false} RightExplained(whole: Json, ms: seq<Member>, fs: seq<Member>, ts: seq<Member>, k: CString)
    requires DistinctNames(ms, false) && Sorted(fs, ts) && forall m :: m in fs ==> m.value < whole
    requires ts != [] && Diff(fs, ts, false) > 0 && (fs == [] || Before(Key(ts[0].name, false), Key(fs[0].name, false)))
    requires Runs(ms, MemberEdits([], whole, fs, ts, false))
    ensures var r := Left(ms, MemberEdits([], whole, fs, ts, false));
      GoodObject(r) && Explained(Meaning(ms), Meaning(r.members), fs, ts, k)
    decreases |fs| + |ts|, 0
  {
    TailsRight(fs, ts);
    var e, rest := [Edit(ADD, [] + Token(ts[0].name), Some(ts[0].value))], MemberEdits([], whole, fs, ts[1..], false);
    RunInTwo(ms, e, rest);
    AddLeaves(ms, ts[0].name, ts[0].value);
    var ns := Left(ms, e).members;
    RunExplained(whole, ns, fs, ts[1..], k);
    TailsExplain(fs, ts, fs, ts[1..], k);
    if k == Target(ts[0].name) {
      assert ts[0] in ts;
      assert AddedAt(fs, ts, k);
    }
  }

  // ----- names that land elsewhere do not make up for each other -----

  /** The law's outcome for two objects, with the sorted lists the generator walks. */
  ghost predicate Reaches(whole: Json, ms: seq<Member>, fs: seq<Member>, ts: seq<Member>) {
    && DistinctNames(ms, false) && Sorted(fs, ts) && (forall m :: m in fs ==> m.value < whole)
    && Runs(ms, MemberEdits([], whole, fs, ts, false))
    && var r := Left(ms, MemberEdits([], whole, fs, ts, false));
       r.Object? && Meaning(r.members) == Walked(Meaning(ms), Meaning(fs), Meaning(ts))
  }

  /** The keys of the members that only the target has, only the source has, or that are replaced. */
  ghost function AddedKeys(fs: seq<Member>, ts: seq<Member>): set<CString> {
    set t | t in ts && Lonely(t, fs) :: Key(t.name, false)
  }

  ghost function SwappedKeys(fs: seq<Member>, ts: seq<Member>): set<CString> {
    set f, g | f in fs && g in ts && Partners(f, g) && Replaced(f.value, g.value) :: Key(f.name, false)
  }

  lemma KeyOf(s: seq<Member>, m: Member)
    requires m in s
    ensures HasKey(s, MemberKey(false), Key(m.name, false)) && Key(m.name, false) in Meaning(s)
  {
    var i :| 0 <= i < |s| && s[i] == m;
    assert MemberKey(false)(s[i]) == Key(m.name, false);
    DenoteFind(s, m.name, false);
  }

  lemma LonelyMissing(m: Member, s: seq<Member>)
    requires Lonely(m, s)
    ensures Key(m.name, false) !in Meaning(s)
  {
    forall i | 0 <= i < |s| ensures Key(s[i].name, false) != Key(m.name, false) {
      assert MemberKey(false)(s[i]) != Key(m.name, false);
    }
    if Key(m.name, false) in Meaning(s) { DenoteKey(s, Key(m.name, false), false); }
  }

  lemma HitBy(names: set<CString>, m: Member, k: CString)
    requires Key(m.name, false) in names && Target(m.name) == k
    ensures Hit(names, k)
  {
    LandingLower(m.name);
    assert Landing(Key(m.name, false)) == k;
  }

  lemma FixedDecodes(names: set<CString>, m: Member)
    requires Onto(names) && Key(m.name, false) in names
    ensures DecodesBack(m.name) && Target(m.name) == Key(m.name, false)
  {
    NoCycles(names, Key(m.name, false));
    LandingLower(m.name);
    LandsAtHome(m.name);
  }

  /** At the start of the walk the whole source is still to come. */
  ghost predicate Starts(whole: Json, ms: seq<Member>, fs: seq<Member>, ts: seq<Member>) {
    Reaches(whole, ms, fs, ts) && Meaning(ms) == Meaning(fs)
  }

  lemma AddedOnto(whole: Json, ms: seq<Member>, fs: seq<Member>, ts: seq<Member>)
    requires Starts(whole, ms, fs, ts)
    ensures Onto(AddedKeys(fs, ts))
  {
    var names := AddedKeys(fs, ts);
    forall k | k in names ensures Hit(names, k) {
      var t :| t in ts && Lonely(t, fs) && Key(t.name, false) == k;
      KeyOf(ts, t);
      LonelyMissing(t, fs);
      RunExplained(whole, ms, fs, ts, k);
      var u :| u in ts && Lonely(u, fs) && Target(u.name) == k;
      HitBy(names, u, k);
    }
  }

  lemma RemovedOnto(whole: Json, ms: seq<Member>, fs: seq<Member>, ts: seq<Member>)
    requires Starts(whole, ms, fs, ts)
    ensures Onto(AddedKeys(ts, fs))
  {
    var names := AddedKeys(ts, fs);
    forall k | k in names ensures Hit(names, k) {
      var f :| f in fs && Lonely(f, ts) && Key(f.name, false) == k;
      KeyOf(fs, f);
      LonelyMissing(f, ts);
      RunExplained(whole, ms, fs, ts, k);
      var u :| u in fs && Lonely(u, ts) && Target(u.name) == k;
      HitBy(names, u, k);
    }
  }

  lemma ReplacedDiffers(f: Json, g: Json)
    requires Replaced(f, g)
    ensures Denote(f, false) != Blend(Denote(f, false), Denote(g, false))
  {
  }

  /** Members of one key are one member. */
  lemma OneOfKey(s: seq<Member>, x: Member, y: Member)
    requires Strict(s, MemberKey(false)) && x in s && y in s && Partners(x, y)
    ensures x == y
  {
    StrictIsDistinct(s, false);
    var i, j :| 0 <= i < |s| && 0 <= j < |s| && s[i] == x && s[j] == y;
  }

  lemma MeansAt(s: seq<Member>, m: Member)
    requires Strict(s, MemberKey(false)) && m in s
    ensures Key(m.name, false) in Meaning(s) && Meaning(s)[Key(m.name, false)] == Denote(m.value, false)
  {
    StrictIsDistinct(s, false);
    var i :| 0 <= i < |s| && s[i] == m;
    DenoteAt(s, i, false);
  }

  /** Where a member is replaced, nothing else than a replacement can have happened. */
  lemma SwapExplained(fs: seq<Member>, ts: seq<Member>, f: Member, g: Member)
    requires Sorted(fs, ts) && Onto(AddedKeys(fs, ts)) && Onto(AddedKeys(ts, fs))
    requires f in fs && g in ts && Partners(f, g) && Replaced(f.value, g.value)
    ensures var k := Key(f.name, false); !AddedAt(fs, ts, k) && !RemovedAt(fs, ts, k) && !WalkedAt(fs, ts, k)
  {
    var k := Key(f.name, false);
    KeyOf(fs, f);
    KeyOf(ts, g);
    if AddedAt(fs, ts, k) {
      var t :| t in ts && Lonely(t, fs) && Target(t.name) == k;
      FixedDecodes(AddedKeys(fs, ts), t);
    }
    if RemovedAt(fs, ts, k) {
      var u :| u in fs && Lonely(u, ts) && Target(u.name) == k;
      FixedDecodes(AddedKeys(ts, fs), u);
    }
    if WalkedAt(fs, ts, k) {
      var x, y :| x in fs && y in ts && Partners(x, y) && !Replaced(x.value, y.value) && Key(x.name, false) == k;
      OneOfKey(fs, x, f);
      OneOfKey(ts, y, g);
    }
  }

  lemma SwappedOnto(whole: Json, ms: seq<Member>, fs: seq<Member>, ts: seq<Member>)
    requires Starts(whole, ms, fs, ts)
    ensures Onto(SwappedKeys(fs, ts))
  {
    var names := SwappedKeys(fs, ts);
    AddedOnto(whole, ms, fs, ts);
    RemovedOnto(whole, ms, fs, ts);
    forall k | k in names ensures Hit(names, k) {
      var f, g :| f in fs && g in ts && Partners(f, g) && Replaced(f.value, g.value) && Key(f.name, false) == k;
      MeansAt(fs, f);
      MeansAt(ts, g);
      ReplacedDiffers(f.value, g.value);
      RunExplained(whole, ms, fs, ts, k);
      SwapExplained(fs, ts, f, g);
      var x, y :| x in fs && y in ts && Partners(x, y) && Replaced(x.value, y.value) && Target(x.name) == k;
      HitBy(names, x, k);
    }
  }

  /** So the names that are decoded at all decode back. */
  lemma NamesDecode(whole: Json, ms: seq<Member>, fs: seq<Member>, ts: seq<Member>)
    requires Starts(whole, ms, fs, ts)
    ensures TakenDecode(fs, ts, false) && AddedDecode(fs, ts, false)
  {
    AddedOnto(whole, ms, fs, ts);
    RemovedOnto(whole, ms, fs, ts);
    SwappedOnto(whole, ms, fs, ts);
    forall t | t in ts && Lonely(t, fs) ensures DecodesBack(t.name) { FixedDecodes(AddedKeys(fs, ts), t); }
    forall f | f in fs && Touched(f, ts, false) ensures DecodesBack(f.name) {
      if Lonely(f, ts) {
        FixedDecodes(AddedKeys(ts, fs), f);
      } else {
        var i :| 0 <= i < |ts| && MemberKey(false)(ts[i]) == Key(f.name, false);
        assert ts[i] in ts && Partners(f, ts[i]);
        FixedDecodes(SwappedKeys(fs, ts), f);
      }
    }
  }

  // ----- the nested patches work as well -----

  /** What replaces the root works. */
  lemma ReplacedLawful(f: Json, g: Json)
    requires Replaced(f, g)
    ensures Lawful(f, g, false)
  {
    EditsShape(f, g, false);
    OneEditIs(f, Edit(REPLACE, [], Some(g)));
    assert Denote(g, false) == Blend(Denote(f, false), Denote(g, false));
  }

  /** Once the names decode back, no edit to come touches a key that is done. */
  lemma DoneStays(fs: seq<Member>, ts: seq<Member>, k: CString)
    requires Sorted(fs, ts) && TakenDecode(fs, ts, false) && AddedDecode(fs, ts, false)
    requires (forall f :: f in fs ==> Key(f.name, false) != k) && (forall t :: t in ts ==> Key(t.name, false) != k)
    ensures !AddedAt(fs, ts, k) && !RemovedAt(fs, ts, k) && !SwappedAt(fs, ts, k) && !WalkedAt(fs, ts, k)
  {
    forall t | t in ts && Lonely(t, fs) ensures Target(t.name) != k { LandsAtHome(t.name); }
    forall f | f in fs && Lonely(f, ts) ensures Target(f.name) != k {
      forall t | t in ts ensures !Partners(t, f) { KeyOf(ts, t); }
      assert Touched(f, ts, false);
      LandsAtHome(f.name);
    }
    forall f, g | f in fs && g in ts && Partners(f, g) && Replaced(f.value, g.value) ensures Target(f.name) != k {
      forall t | t in ts && Partners(t, f) ensures t == g { OneOfKey(ts, t, g); }
      assert Touched(f, ts, false);
      LandsAtHome(f.name);
    }
  }

  /** The edits of the head of both lists, in a run that succeeds. */
  lemma HeadRuns(ms: seq<Member>, fs: seq<Member>, ts: seq<Member>) returns (i: nat, v: Json)
    requires WalkState(ms, fs, ts, false) && fs != [] && ts != [] && Partners(fs[0], ts[0])
    requires Runs(ms, CreateEdits([] + Token(fs[0].name), fs[0].value, ts[0].value, false))
    ensures i < |ms| && ms[i] == fs[0]
    ensures Left(ms, CreateEdits([] + Token(fs[0].name), fs[0].value, ts[0].value, false))
         == Object(MemberTurned(ms, i, ts[0].value, v))
    ensures Lawful(fs[0].value, ts[0].value, false)
         <==> Denote(v, false) == Blend(Denote(fs[0].value, false), Denote(ts[0].value, false))
  {
    var f, g := fs[0], ts[0];
    if Replaced(f.value, g.value) {
      ReplacedLawful(f.value, g.value);
      i, v := ApplyHead(ms, fs, ts, false);
    } else {
      i := MemberPlace(ms, f, false);
      v := BelowRuns(ms, i, g.value);
    }
  }

  lemma BelowRuns(ms: seq<Member>, i: nat, g: Json) returns (v: Json)
    requires i < |ms| && Find(ms, ms[i].name, false) == i && !Replaced(ms[i].value, g)
    requires Runs(ms, CreateEdits([] + Token(ms[i].name), ms[i].value, g, false))
    ensures Left(ms, CreateEdits([] + Token(ms[i].name), ms[i].value, g, false)) == Object(MemberTurned(ms, i, g, v))
    ensures Lawful(ms[i].value, g, false) <==> Denote(v, false) == Blend(Denote(ms[i].value, false), Denote(g, false))
  {
    var f, step := ms[i], [] + Token(ms[i].name);
    var e := CreateEdits([], f.value, g, false);
    ChildPath(f.name);
    EditsMove(step, f.value, g, false);
    EditsShape(f.value, g, false);
    assert ChildStep(Object(ms), step, i, false);
    ApplyUnder(Object(ms), step, i, e, false);
    v := ApplyEdits(f.value, e, false).1;
  }

  /** What the run leaves at the key of the head is what its own edits make of it. */
  lemma HeadLawful(whole: Json, ms: seq<Member>, fs: seq<Member>, ts: seq<Member>) returns (rs: seq<Member>)
    requires WalkState(ms, fs, ts, false) && Reaches(whole, ms, fs, ts)
    requires fs != [] && ts != [] && Diff(fs, ts, false) == 0
    ensures Lawful(fs[0].value, ts[0].value, false) && Partners(fs[0], ts[0])
    ensures WalkState(rs, fs[1..], ts[1..], false) && Reaches(whole, rs, fs[1..], ts[1..])
  {
    StrCmpZero(Key(fs[0].name, false), Key(ts[0].name, false));
    var e, rest := CreateEdits([] + Token(fs[0].name), fs[0].value, ts[0].value, false),
        MemberEdits([], whole, fs[1..], ts[1..], false);
    var k, a, b := Key(fs[0].name, false), Denote(fs[0].value, false), Denote(ts[0].value, false);
    RunInTwo(ms, e, rest);
    var i, v := HeadRuns(ms, fs, ts);
    rs := MemberTurned(ms, i, ts[0].value, v);
    StateAfterBoth(ms, i, fs, ts, v, false);
    StrictTail(fs, false);
    StrictTail(ts, false);
    DoneStays(fs[1..], ts[1..], k);
    RunExplained(whole, rs, fs[1..], ts[1..], k);
    WalkedBoth(Meaning(ms), Meaning(fs[1..]), Meaning(ts[1..]), k, a, b);
    WalkedValue(Meaning(ms), Meaning(fs), Meaning(ts), k);
  }

  lemma WalkedValue(m: map<CString, Value>, f: map<CString, Value>, t: map<CString, Value>, k: CString)
    requires k in f && k in t
    ensures k in Walked(m, f, t) && Walked(m, f, t)[k] == Blend(f[k], t[k])
  {
  }

  lemma {:induction false} NestedLawful(whole: Json, ms: seq<Member>, fs: seq<Member>, ts: seq<Member>)
    requires WalkState(ms, fs, ts, false) && Reaches(whole, ms, fs, ts)
    ensures forall f, g :: f in fs && g in ts ==> LawfulPair(f, g, false)
    decreases |fs| + |ts|
  {
    if fs != [] || ts != [] {
      var diff := Diff(fs, ts, false);
      if diff == 0 {
        var rs := HeadLawful(whole, ms, fs, ts);
        NestedLawful(whole, rs, fs[1..], ts[1..]);
        PairsBoth(fs, ts);
      } else if diff < 0 {
        var rs := LeftReaches(whole, ms, fs, ts);
        NestedLawful(whole, rs, fs[1..], ts);
        PairsLeft(fs, ts);
      } else {
        if fs != [] { StrCmpAntisymmetric(Key(fs[0].name, false), Key(ts[0].name, false)); }
        var rs := RightReaches(whole, ms, fs, ts);
        NestedLawful(whole, rs, fs, ts[1..]);
        PairsRight(fs, ts);
      }
    }
  }

  lemma PairsBoth(fs: seq<Member>, ts: seq<Member>)
    requires Sorted(fs, ts) && fs != [] && ts != [] && Partners(fs[0], ts[0]) && LawfulPair(fs[0], ts[0], false)
    requires forall f, g :: f in fs[1..] && g in ts[1..] ==> LawfulPair(f, g, false)
    ensures forall f, g :: f in fs && g in ts ==> LawfulPair(f, g, false)
  {
    StrictTail(fs, false);
    StrictTail(ts, false);
    assert forall f :: f in fs <==> f == fs[0] || f in fs[1..];
    assert forall g :: g in ts <==> g == ts[0] || g in ts[1..];
  }

  lemma PairsLeft(fs: seq<Member>, ts: seq<Member>)
    requires fs != [] && Lonely(fs[0], ts) && forall f, g :: f in fs[1..] && g in ts ==> LawfulPair(f, g, false)
    ensures forall f, g :: f in fs && g in ts ==> LawfulPair(f, g, false)
  {
    forall g | g in ts ensures !Partners(fs[0], g) { KeyOf(ts, g); }
    assert forall f :: f in fs <==> f == fs[0] || f in fs[1..];
  }

  lemma PairsRight(fs: seq<Member>, ts: seq<Member>)
    requires ts != [] && Lonely(ts[0], fs) && forall f, g :: f in fs && g in ts[1..] ==> LawfulPair(f, g, false)
    ensures forall f, g :: f in fs && g in ts ==> LawfulPair(f, g, false)
  {
    forall f | f in fs ensures !Partners(f, ts[0]) { KeyOf(fs, f); }
    assert forall g :: g in ts <==> g == ts[0] || g in ts[1..];
  }

  lemma LeftReaches(whole: Json, ms: seq<Member>, fs: seq<Member>, ts: seq<Member>) returns (rs: seq<Member>)
    requires WalkState(ms, fs, ts, false) && Reaches(whole, ms, fs, ts)
    requires fs != [] && (ts == [] || Before(Key(fs[0].name, false), Key(ts[0].name, false))) && Diff(fs, ts, false) < 0
    ensures Lonely(fs[0], ts) && WalkState(rs, fs[1..], ts, false) && Reaches(whole, rs, fs[1..], ts)
  {
    var e, rest := Edit(REMOVE, [] + Token(fs[0].name), None), MemberEdits([], whole, fs[1..], ts, false);
    TailsLeft(fs, ts);
    RunInTwo(ms, [e], rest);
    var i := RemoveHead(ms, fs, ts, false);
    OneEditIs(Object(ms), e);
    rs := RemoveAt(ms, i);
    StateAfterRemove(ms, i, fs, ts, false);
    StrictTail(fs, false);
    WalkedRemove(Meaning(ms), Meaning(fs[1..]), Meaning(ts), Key(fs[0].name, false), Denote(fs[0].value, false));
  }

  lemma RightReaches(whole: Json, ms: seq<Member>, fs: seq<Member>, ts: seq<Member>) returns (rs: seq<Member>)
    requires WalkState(ms, fs, ts, false) && Reaches(whole, ms, fs, ts)
    requires ts != [] && (fs == [] || Before(Key(ts[0].name, false), Key(fs[0].name, false))) && Diff(fs, ts, false) > 0
    ensures Lonely(ts[0], fs) && WalkState(rs, fs, ts[1..], false) && Reaches(whole, rs, fs, ts[1..])
  {
    var e, rest := Edit(ADD, [] + Token(ts[0].name), Some(ts[0].value)), MemberEdits([], whole, fs, ts[1..], false);
    TailsRight(fs, ts);
    RunInTwo(ms, [e], rest);
    StateAfterAdd(ms, fs, ts, false);
    AddMember(ms, ts[0], false);
    OneEditIs(Object(ms), e);
    rs := ms + [ts[0]];
    StrictTail(ts, false);
    WalkedAdd(Meaning(ms), Meaning(fs), Meaning(ts[1..]), Key(ts[0].name, false), Denote(ts[0].value, false));
  }

  // ----- arrays -----

  ghost predicate ItemsRun(whole: Json, done: seq<Json>, fs: seq<Json>, ts: seq<Json>) {
    && |done + fs| < SizeMax && (forall i :: 0 <= i < |fs| ==> fs[i] < whole)
    && ApplyEdits(Array(done + fs), ItemEdits([], whole, fs, ts, |done|, false), false).0 == 0
  }

  ghost function ItemsLeft(whole: Json, done: seq<Json>, fs: seq<Json>, ts: seq<Json>): Json
    requires ItemsRun(whole, done, fs, ts)
  {
    ApplyEdits(Array(done + fs), ItemEdits([], whole, fs, ts, |done|, false), false).1
  }

  /** One element in a run that succeeds. */
  lemma ItemRuns(whole: Json, done: seq<Json>, fs: seq<Json>, ts: seq<Json>) returns (v: Json)
    requires ItemsRun(whole, done, fs, ts) && fs != [] && ts != []
    ensures ItemsRun(whole, done + [v], fs[1..], ts[1..])
    ensures ItemsLeft(whole, done + [v], fs[1..], ts[1..]) == ItemsLeft(whole, done, fs, ts)
    ensures Lawful(fs[0], ts[0], false) <==> Denote(v, false) == Blend(Denote(fs[0], false), Denote(ts[0], false))
  {
    FirstItemRuns(whole, done, fs, ts);
    if Replaced(fs[0], ts[0]) {
      ReplacedLawful(fs[0], ts[0]);
      v := ApplyNext(done, fs, ts[0], false);
    } else {
      v := ElementRuns(done, fs, ts[0]);
    }
    ItemsNext(whole, done, fs, ts, v);
  }

  /** The edits of the first element. */
  function FirstEdits(done: seq<Json>, fs: seq<Json>, g: Json): seq<Edit>
    requires fs != []
  {
    CreateEdits([] + [SLASH] + Decimal(|done|), fs[0], g, false)
  }

  lemma FirstItemRuns(whole: Json, done: seq<Json>, fs: seq<Json>, ts: seq<Json>)
    requires ItemsRun(whole, done, fs, ts) && fs != [] && ts != []
    ensures ApplyEdits(Array(done + fs), FirstEdits(done, fs, ts[0]), false).0 == 0
  {
    ApplyInTwo(Array(done + fs), FirstEdits(done, fs, ts[0]),
               ItemEdits([], whole, fs[1..], ts[1..], |done| + 1, false), false);
  }

  lemma ItemsNext(whole: Json, done: seq<Json>, fs: seq<Json>, ts: seq<Json>, v: Json)
    requires ItemsRun(whole, done, fs, ts) && fs != [] && ts != []
    requires ApplyEdits(Array(done + fs), FirstEdits(done, fs, ts[0]), false) == (0, Array((done + [v]) + fs[1..]))
    ensures ItemsRun(whole, done + [v], fs[1..], ts[1..])
    ensures ItemsLeft(whole, done + [v], fs[1..], ts[1..]) == ItemsLeft(whole, done, fs, ts)
  {
    ApplyInTwo(Array(done + fs), FirstEdits(done, fs, ts[0]),
               ItemEdits([], whole, fs[1..], ts[1..], |done| + 1, false), false);
    assert |(done + [v]) + fs[1..]| == |done + fs| && |done + [v]| == |done| + 1;
  }

  lemma ElementRuns(done: seq<Json>, fs: seq<Json>, g: Json) returns (v: Json)
    requires fs != [] && |done + fs| < SizeMax && !Replaced(fs[0], g)
    requires ApplyEdits(Array(done + fs), FirstEdits(done, fs, g), false).0 == 0
    ensures ApplyEdits(Array(done + fs), FirstEdits(done, fs, g), false) == (0, Array((done + [v]) + fs[1..]))
    ensures Lawful(fs[0], g, false) <==> Denote(v, false) == Blend(Denote(fs[0], false), Denote(g, false))
  {
    var step, e := [SLASH] + Decimal(|done|), CreateEdits([], fs[0], g, false);
    assert [] + [SLASH] + Decimal(|done|) == step;
    EditsMove(step, fs[0], g, false);
    EditsShape(fs[0], g, false);
    UpdateBehind(done, fs);
    ApplyUnder(Array(done + fs), step, |done|, e, false);
    v := ApplyEdits(fs[0], e, false).1;
    assert (done + fs)[|done| := v] == (done + [v]) + fs[1..];
  }

  /** What is done stays, and the result is as long as the target. */
  lemma {:induction false} ItemsStay(whole: Json, done: seq<Json>, fs: seq<Json>, ts: seq<Json>)
    requires ItemsRun(whole, done, fs, ts)
    ensures var r := ItemsLeft(whole, done, fs, ts);
      r.Array? && |r.items| == |done| + |ts| && forall i :: 0 <= i < |done| ==> r.items[i] == done[i]
    decreases |fs|
  {
    if fs != [] && ts != [] {
      var v := ItemRuns(whole, done, fs, ts);
      ItemsStay(whole, done + [v], fs[1..], ts[1..]);
      assert forall i :: 0 <= i < |done| ==> (done + [v])[i] == done[i];
    } else {
      ItemEnd(whole, done, fs, ts, false);
    }
  }

  /** The elements of the result mean what they should. */
  ghost predicate ItemsMean(at: nat, fs: seq<Json>, ts: seq<Json>, r: seq<Json>) {
    && |r| == at + |ts|
    && forall i :: 0 <= i < |fs| && i < |ts| ==>
         Denote(r[at + i], false) == Blend(Denote(fs[i], false), Denote(ts[i], false))
  }

  lemma ItemsMeanNext(at: nat, fs: seq<Json>, ts: seq<Json>, r: seq<Json>)
    requires ItemsMean(at, fs, ts, r) && fs != [] && ts != []
    ensures ItemsMean(at + 1, fs[1..], ts[1..], r)
    ensures Denote(r[at], false) == Blend(Denote(fs[0], false), Denote(ts[0], false))
  {
    assert r[at + 0] == r[at];
    forall i | 0 <= i < |fs[1..]| && i < |ts[1..]|
      ensures Denote(r[at + 1 + i], false) == Blend(Denote(fs[1..][i], false), Denote(ts[1..][i], false))
    {
      assert r[at + 1 + i] == r[at + (i + 1)];
    }
  }

  lemma HeadStays(whole: Json, done: seq<Json>, v: Json, fs: seq<Json>, ts: seq<Json>, r: seq<Json>)
    requires ItemsRun(whole, done + [v], fs, ts) && ItemsLeft(whole, done + [v], fs, ts) == Array(r)
    ensures |r| > |done| && r[|done|] == v
  {
    ItemsStay(whole, done + [v], fs, ts);
    assert r[|done|] == (done + [v])[|done|];
  }

  /** Then the edits of every element did what they should. */
  lemma {:induction false} ItemsBack(whole: Json, done: seq<Json>, fs: seq<Json>, ts: seq<Json>, r: seq<Json>, i: nat)
    requires ItemsRun(whole, done, fs, ts) && ItemsLeft(whole, done, fs, ts) == Array(r) && ItemsMean(|done|, fs, ts, r)
    requires i < |fs| && i < |ts|
    ensures Lawful(fs[i], ts[i], false)
    decreases i
  {
    var v := ItemRuns(whole, done, fs, ts);
    ItemsMeanNext(|done|, fs, ts, r);
    if i == 0 {
      HeadStays(whole, done, v, fs[1..], ts[1..], r);
    } else {
      assert |done + [v]| == |done| + 1;
      ItemsBack(whole, done + [v], fs[1..], ts[1..], r, i - 1);
    }
  }

  // ----- the law, both ways -----

  lemma ArrayRun(from: Json, to: Json) returns (r: seq<Json>)
    requires from.Array? && to.Array? && Countable(from) && Lawful(from, to, false)
    ensures ItemsRun(from, [], from.items, to.items) && ItemsLeft(from, [], from.items, to.items) == Array(r)
    ensures Denote(Array(r), false) == Blend(Denote(from, false), Denote(to, false))
  {
    var fs, ts := from.items, to.items;
    assert [] + fs == fs && Array(fs) == from;
    assert CreateEdits([], from, to, false) == ItemEdits([], from, fs, ts, 0, false);
    assert ApplyEdits(Array([] + fs), ItemEdits([], from, fs, ts, 0, false), false)
        == ApplyEdits(from, CreateEdits([], from, to, false), false);
    ItemsStay(from, [], fs, ts);
    r := ItemsLeft(from, [], fs, ts).items;
  }

  lemma ArrayMeans(fs: seq<Json>, ts: seq<Json>, r: seq<Json>)
    requires Denote(Array(r), false) == Blend(Denote(Array(fs), false), Denote(Array(ts), false))
    ensures ItemsMean(0, fs, ts, r)
  {
    var b := Blend(Denote(Array(fs), false), Denote(Array(ts), false)).elems;
    assert DenoteItems(r, false) == b && |b| == |ts|;
    forall i | 0 <= i < |fs| && i < |ts|
      ensures Denote(r[0 + i], false) == Blend(Denote(fs[i], false), Denote(ts[i], false)) {
      assert DenoteItems(r, false)[i] == b[i];
    }
  }

  lemma ArrayBack(from: Json, to: Json)
    requires from.Array? && to.Array? && Countable(from) && Lawful(from, to, false)
    ensures forall i :: 0 <= i < |from.items| && i < |to.items| ==> Lawful(from.items[i], to.items[i], false)
  {
    var fs, ts := from.items, to.items;
    var r := ArrayRun(from, to);
    ArrayMeans(fs, ts, r);
    forall i | 0 <= i < |fs| && i < |ts| ensures Lawful(fs[i], ts[i], false) { ItemsBack(from, [], fs, ts, r, i); }
  }

  lemma ObjectBack(from: Json, to: Json)
    requires from.Object? && to.Object? && Distinct(from, false) && Distinct(to, false) && Lawful(from, to, false)
    ensures TakenDecode(from.members, to.members, false) && AddedDecode(from.members, to.members, false)
    ensures forall f, g :: f in from.members && g in to.members ==> LawfulPair(f, g, false)
  {
    var ms, us := from.members, to.members;
    var fs, ts := SortMembers(ms, false), SortMembers(us, false);
    SortedMeaning(ms, false);
    SortedMeaning(us, false);
    WalkedAll(Meaning(fs), Meaning(ts));
    RunExplained(from, ms, fs, ts, []);
    assert Starts(from, ms, fs, ts);
    NamesDecode(from, ms, fs, ts);
    FinallyDecoding(ms, us);
    InitialState(from, to, false);
    NestedLawful(from, ms, fs, ts);
  }

  /** Sorting changes nothing about which members have to decode back. */
  lemma FinallyDecoding(ms: seq<Member>, us: seq<Member>)
    requires TakenDecode(SortMembers(ms, false), SortMembers(us, false), false)
    requires AddedDecode(SortMembers(ms, false), SortMembers(us, false), false)
    ensures TakenDecode(ms, us, false) && AddedDecode(ms, us, false)
  {
    var fs, ts := SortMembers(ms, false), SortMembers(us, false);
    assert forall m :: Touched(m, ts, false) <==> Touched(m, us, false);
    forall t | t in us && Lonely(t, ms) ensures DecodesBack(t.name) {
      forall j | 0 <= j < |fs| ensures MemberKey(false)(fs[j]) != Key(t.name, false) {
        KeyOf(ms, fs[j]);
        assert MemberKey(false)(fs[j]) == Key(fs[j].name, false);
      }
      assert Lonely(t, fs);
    }
  }

  lemma {:induction false} LawfulDecodes(from: Json, to: Json)
    requires Distinct(from, false) && Distinct(to, false) && Countable(from) && Countable(to) && Lawful(from, to, false)
    ensures Decodable(from, to, false)
  {
    match (from, to)
    case (Array(s), Array(t)) =>
      ArrayBack(from, to);
      forall i | 0 <= i < |s| && i < |t| ensures Decodable(s[i], t[i], false) { LawfulDecodes(s[i], t[i]); }
    case (Object(s), Object(t)) =>
      ObjectBack(from, to);
      forall f, g | f in s && g in t && Key(f.name, false) == Key(g.name, false)
        ensures Decodable(f.value, g.value, false) {
        assert LawfulPair(f, g, false);
        LawfulDecodes(f.value, g.value);
      }
    case _ =>
  }

  /**
   * Whatever the names, as long as those of one object differ up to case: the default pair of functions keeps
   * the patch law if and only if the names the patch decodes decode back.
   */
  lemma PatchLawExactly(from: Json, to: Json)
    requires Distinct(from, false) && Distinct(to, false) && Countable(from) && Countable(to)
    ensures var (status, result) := ApplyAll(from, GeneratePatches(from, to, false).items, false);
      Decodable(from, to, false)
      <==> status == 0 && Denote(result, false) == Blend(Denote(from, false), Denote(to, false))
  {
    var e := CreateEdits([], from, to, false);
    EditsShape(from, to, false);
    ApplyComposed(from, e, false);
    if Lawful(from, to, false) { LawfulDecodes(from, to); }
    if Decodable(from, to, false) { PatchRoundTrip(from, to, false); }
  }
}
