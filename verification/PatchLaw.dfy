// The law of the patch pair: generate a patch from two trees, apply it to a copy of the first.
module PatchLaw {
  import opened Wrappers
  import opened Sequences
  import opened CText
  import opened JsonTree
  import opened NameSort
  import opened JsonPointer
  import opened Comparison
  import opened JsonPatch
  import opened PatchGenerator
  import opened MemberEdit

  /**
   * What a patched document means. It is the target, except that a raw node standing where the source
   * also had a raw node keeps the source's text: create_patches has no case for raw nodes.
   */
  function Blend(u: Value, v: Value): Value {
    match (u, v)
    case (Atom(a), Atom(b)) => if a.Raw? && b.Raw? then u else v
    case (List(s), List(t)) =>
      List(seq(|t|, i requires 0 <= i < |t| => if i < |s| then Blend(s[i], t[i]) else t[i]))
    case (Fields(f), Fields(g)) => Fields(map k | k in g :: if k in f then Blend(f[k], g[k]) else g[k])
    case _ => v
  }

  /** No raw node of the source meets a raw node with another text. */
  predicate RawKept(u: Value, v: Value) {
    match (u, v)
    case (Atom(a), Atom(b)) => a.Raw? && b.Raw? ==> a == b
    case (List(s), List(t)) => forall i :: 0 <= i < |s| && i < |t| ==> RawKept(s[i], t[i])
    case (Fields(f), Fields(g)) => forall k :: k in f && k in g ==> RawKept(f[k], g[k])
    case _ => true
  }

  lemma {:induction false} BlendIsTarget(u: Value, v: Value)
    ensures Blend(u, v) == v <==> RawKept(u, v)
  {
    match (u, v)
    case (List(s), List(t)) =>
      forall i | 0 <= i < |s| && i < |t| ensures Blend(s[i], t[i]) == t[i] <==> RawKept(s[i], t[i]) {
        BlendIsTarget(s[i], t[i]);
      }
      var b := Blend(u, v).elems;
      assert b == t <==> forall i :: 0 <= i < |t| ==> b[i] == t[i];
    case (Fields(f), Fields(g)) =>
      forall k | k in f && k in g ensures Blend(f[k], g[k]) == g[k] <==> RawKept(f[k], g[k]) {
        BlendIsTarget(f[k], g[k]);
      }
      var b := Blend(u, v).fields;
      assert b.Keys == g.Keys;
      assert b == g <==> forall k :: k in g ==> b[k] == g[k];
    case _ =>
  }

  /** The patch takes the member `f` out: it has no counterpart among `ts`, or one that replaces it. */
  ghost predicate Touched(f: Member, ts: seq<Member>, cs: bool) {
    forall t :: t in ts && Key(t.name, cs) == Key(f.name, cs) ==> Replaced(f.value, t.value)
  }

  /**
   * detach_path looks a name up ignoring case. A member that is taken out is found if every earlier member
   * with that name, case apart, is taken out before it.
   */
  ghost predicate DetachOrder(fs: seq<Member>, ts: seq<Member>, cs: bool) {
    forall i, j :: 0 <= i < j < |fs| && Key(fs[i].name, false) == Key(fs[j].name, false) && Touched(fs[j], ts, cs) ==>
      Touched(fs[i], ts, cs) && Before(Key(fs[i].name, cs), Key(fs[j].name, cs))
  }

  /** That order in every pair of objects the generator compares. */
  ghost predicate InReach(from: Json, to: Json, cs: bool) {
    match (from, to)
    case (Array(s), Array(t)) => forall i :: 0 <= i < |s| && i < |t| ==> InReach(s[i], t[i], cs)
    case (Object(s), Object(t)) =>
      DetachOrder(s, t, cs)
      && forall f, g :: f in s && g in t && Key(f.name, cs) == Key(g.name, cs) ==> InReach(f.value, g.value, cs)
    case _ => true
  }

  /** The members that are taken out have names that decode back. */
  ghost predicate TakenDecode(fs: seq<Member>, ts: seq<Member>, cs: bool) {
    forall f :: f in fs && Touched(f, ts, cs) ==> DecodesBack(f.name)
  }

  /** And so have those that are added because the source has none of that name. */
  ghost predicate AddedDecode(fs: seq<Member>, ts: seq<Member>, cs: bool) {
    forall t :: t in ts && !HasKey(fs, MemberKey(cs), Key(t.name, cs)) ==> DecodesBack(t.name)
  }

  /**
   * In every pair of objects the generator compares. The names of the members it only walks through are
   * compared while encoded and may be any.
   */
  ghost predicate Decodable(from: Json, to: Json, cs: bool) {
    match (from, to)
    case (Array(s), Array(t)) => forall i :: 0 <= i < |s| && i < |t| ==> Decodable(s[i], t[i], cs)
    case (Object(s), Object(t)) =>
      TakenDecode(s, t, cs) && AddedDecode(s, t, cs)
      && forall f, g :: f in s && g in t && Key(f.name, cs) == Key(g.name, cs) ==> Decodable(f.value, g.value, cs)
    case _ => true
  }

  /** What the law asks of the two trees. Ignoring case, distinct names are in reach. */
  ghost predicate Patchable(from: Json, to: Json, cs: bool) {
    && Distinct(from, cs) && Distinct(to, cs) && (cs ==> InReach(from, to, cs))
    && Countable(from) && Countable(to) && Decodable(from, to, cs)
  }

  /** Names that differ when case is ignored are in reach, whatever the target. */
  lemma {:induction false} DistinctInReach(from: Json, to: Json, cs: bool)
    requires Distinct(from, false)
    ensures InReach(from, to, cs)
  {
    match (from, to)
    case (Array(s), Array(t)) =>
      forall i | 0 <= i < |s| && i < |t| ensures InReach(s[i], t[i], cs) { DistinctInReach(s[i], t[i], cs); }
    case (Object(s), Object(t)) =>
      forall f, g | f in s && g in t ensures InReach(f.value, g.value, cs) { DistinctInReach(f.value, g.value, cs); }
    case _ =>
  }

  /** The outcome the law promises for one pair of trees. */
  ghost predicate Lawful(from: Json, to: Json, cs: bool) {
    var (status, result) := ApplyEdits(from, CreateEdits([], from, to, cs), cs);
    status == 0 && Denote(result, cs) == Blend(Denote(from, cs), Denote(to, cs))
  }

  // ----- arrays -----

  /** A pointer of one token addresses a child of the root. */
  lemma RootPath(child: CString)
    requires SLASH !in child
    ensures var path := [SLASH] + child; LastSlash(path) == Some(0) && path[..0] == [] && path[1..] == child
  {
    LastSlashOfToken([], child);
    assert [] + [SLASH] + child == [SLASH] + child;
  }

  lemma RootDetach(doc: Json, child: CString, cs: bool)
    requires SLASH !in child
    ensures DetachPath(doc, [SLASH] + child, cs) == DetachChild(doc, DecodeInPlace(child))
  {
    RootPath(child);
    DetachSplit(doc, [SLASH] + child, 0, [], child, cs);
  }

  lemma RootAdd(doc: Json, child: CString, v: Json, cs: bool)
    requires SLASH !in child
    ensures AddPath(doc, [SLASH] + child, v, cs) == AddChild(doc, DecodeInPlace(child), v, cs)
  {
    RootPath(child);
    AddSplit(doc, [SLASH] + child, 0, [], child, v, cs);
  }

  lemma IndexDecodes(i: nat)
    requires i < SizeMax
    ensures SLASH !in Decimal(i) && Decimal(i) != DASH && Encode(Decimal(i)) == Decimal(i)
    ensures DecodeInPlace(Decimal(i)) == Decimal(i) && DecodeIndex(Decimal(i)) == Some(i)
  {
    DecimalNoSlash(i);
    PlainNamesDecodeBack(Decimal(i));
    DecodeUndoesEncode(Decimal(i));
    DecodeSmall(i, []);
    AppendNothing(Decimal(i));
    assert Decimal(i)[0] != DASH[0];
  }

  /** Replacing an element takes it out and puts the new one back in the same place. */
  lemma {:induction false} ReplaceItem(items: seq<Json>, i: nat, v: Json, cs: bool)
    requires i < |items| && i < SizeMax
    ensures ApplyOperation(Array(items), REPLACE, [SLASH] + Decimal(i), None, Some(v), cs) == (0, Array(items[i := v]))
  {
    IndexDecodes(i);
    RootDetach(Array(items), Decimal(i), cs);
    var rest := RemoveAt(items, i);
    RootAdd(Array(rest), Decimal(i), v, cs);
    RemoveThenInsert(items, i, v);
  }

  lemma {:induction false} RemoveItem(items: seq<Json>, i: nat, cs: bool)
    requires i < |items| && i < SizeMax
    ensures ApplyEdit(Array(items), Edit(REMOVE, [] + Token(Decimal(i)), None), cs) == (0, Array(RemoveAt(items, i)))
  {
    var path := [SLASH] + Decimal(i);
    IndexDecodes(i);
    assert [] + Token(Decimal(i)) == path;
    RootDetach(Array(items), Decimal(i), cs);
    RemoveByDetach(Array(items), path, items[i], Array(RemoveAt(items, i)), cs);
  }

  lemma RemoveByDetach(doc: Json, path: CString, gone: Json, left: Json, cs: bool)
    requires path != [] && DetachPath(doc, path, cs) == Some((gone, left))
    ensures ApplyEdit(doc, Edit(REMOVE, path, None), cs) == (0, left)
  {
  }

  lemma AppendItem(items: seq<Json>, v: Json, cs: bool)
    ensures ApplyEdit(Array(items), Edit(ADD, [] + Token(DASH), Some(v)), cs) == (0, Array(items + [v]))
  {
    PlainNamesDecodeBack(DASH);
    DecodeUndoesEncode(DASH);
    RootAdd(Array(items), DASH, v, cs);
    assert [] + Token(DASH) == [SLASH] + DASH;
  }

  /** One element: its edits turn it into its counterpart and leave the others alone. */
  lemma ApplyItem(items: seq<Json>, i: nat, to: Json, cs: bool) returns (r: Json)
    requires i < |items| && i < SizeMax && Lawful(items[i], to, cs)
    ensures Yields(Array(items), CreateEdits([] + [SLASH] + Decimal(i), items[i], to, cs), Array(items[i := r]), cs)
    ensures Denote(r, cs) == Blend(Denote(items[i], cs), Denote(to, cs))
  {
    var step := [SLASH] + Decimal(i);
    var e := CreateEdits([], items[i], to, cs);
    assert [] + [SLASH] + Decimal(i) == step;
    EditsMove(step, items[i], to, cs);
    EditsShape(items[i], to, cs);
    r := ApplyEdits(items[i], e, cs).1;
    if Deep(e) {
      ApplyUnder(Array(items), step, i, e, cs);
    } else {
      UnderOne(step, [], REPLACE, Some(to));
      assert step + [] == step;
      ReplaceItem(items, i, to, cs);
      assert Yields(items[i], e, to, cs);
    }
  }

  lemma RemoveBehind<T>(done: seq<T>, rest: seq<T>)
    requires rest != []
    ensures RemoveAt(done + rest, |done|) == done + rest[1..]
  {
  }

  lemma RemoveOnce(done: seq<Json>, fs: seq<Json>, cs: bool)
    requires fs != [] && |done + fs| < SizeMax
         && Yields(Array(done + fs[1..]), RemoveEdits([], |fs| - 1, |done|), Array(done), cs)
    ensures Yields(Array(done + fs), RemoveEdits([], |fs|, |done|), Array(done), cs)
  {
    RemoveItem(done + fs, |done|, cs);
    RemoveBehind(done, fs);
    ApplyFirst(Array(done + fs), Edit(REMOVE, [] + Token(Decimal(|done|)), None), RemoveEdits([], |fs| - 1, |done|),
               cs);
  }

  /** Removing everything behind `done`. */
  lemma {:induction false} RemoveRun(done: seq<Json>, fs: seq<Json>, cs: bool)
    requires |done + fs| < SizeMax
    ensures Yields(Array(done + fs), RemoveEdits([], |fs|, |done|), Array(done), cs)
    decreases |fs|
  {
    if fs == [] {
      AppendNothing(done);
    } else {
      RemoveRun(done, fs[1..], cs);
      RemoveOnce(done, fs, cs);
    }
  }

  /** Appending with the `-` index. */
  lemma {:induction false} AppendRun(items: seq<Json>, ts: seq<Json>, cs: bool)
    ensures Yields(Array(items), AppendEdits([], ts), Array(items + ts), cs)
    decreases |ts|
  {
    MoveOne(items, ts);
    if ts != [] {
      AppendItem(items, ts[0], cs);
      AppendRun(items + [ts[0]], ts[1..], cs);
      ApplyFirst(Array(items), Edit(ADD, [] + Token(DASH), Some(ts[0])), AppendEdits([], ts[1..]), cs);
    }
  }

  lemma MoveOne<T>(a: seq<T>, b: seq<T>)
    ensures if b == [] then a + b == a else a + [b[0]] + b[1..] == a + b
  {
  }

  lemma RemoveThenInsert<T>(a: seq<T>, i: nat, x: T)
    requires i < |a|
    ensures InsertAt(RemoveAt(a, i), i, x) == a[i := x]
  {
  }

  lemma ApplyFirst(doc: Json, e: Edit, rest: seq<Edit>, cs: bool)
    ensures ApplyEdits(doc, [e] + rest, cs) == var (status, next) := ApplyEdit(doc, e, cs);
      if status != 0 then (status, next) else ApplyEdits(next, rest, cs)
  {
    assert ([e] + rest)[1..] == rest;
  }

  /** The law holds for the elements at equal places. */
  ghost predicate AllLawful(fs: seq<Json>, ts: seq<Json>, cs: bool) {
    fs != [] && ts != [] ==> Lawful(fs[0], ts[0], cs) && AllLawful(fs[1..], ts[1..], cs)
  }

  /** What the elements `rs` of the patched array mean, next to those of the source and of the target. */
  ghost predicate ItemsBlended(fs: seq<Json>, ts: seq<Json>, rs: seq<Json>, cs: bool) {
    |rs| == |ts| &&
    (ts != [] ==>
      && Denote(rs[0], cs) == (if fs == [] then Denote(ts[0], cs) else Blend(Denote(fs[0], cs), Denote(ts[0], cs)))
      && ItemsBlended(if fs == [] then [] else fs[1..], ts[1..], rs[1..], cs))
  }

  lemma {:induction false} AddedBlended(ts: seq<Json>, cs: bool)
    ensures ItemsBlended([], ts, ts, cs)
    decreases |ts|
  {
    if ts != [] { AddedBlended(ts[1..], cs); }
  }

  /** The array walk when the elements `done` have been dealt with. */
  lemma {:induction false} ItemWalk(whole: Json, done: seq<Json>, fs: seq<Json>, ts: seq<Json>, cs: bool)
    returns (rs: seq<Json>)
    requires |done + fs| < SizeMax && forall i :: 0 <= i < |fs| ==> fs[i] < whole
    requires AllLawful(fs, ts, cs)
    ensures Yields(Array(done + fs), ItemEdits([], whole, fs, ts, |done|, cs), Array(done + rs), cs)
    ensures ItemsBlended(fs, ts, rs, cs)
    decreases |fs|
  {
    if fs != [] && ts != [] {
      var v := ApplyNext(done, fs, ts[0], cs);
      SameLength(done, v, fs);
      var rest := ItemWalk(whole, done + [v], fs[1..], ts[1..], cs);
      rs := [v] + rest;
      ItemStep(whole, done, fs, ts, v, rest, cs);
    } else {
      rs := ts;
      ItemEnd(whole, done, fs, ts, cs);
    }
  }

  lemma SameLength<T>(done: seq<T>, x: T, rest: seq<T>)
    requires rest != []
    ensures |(done + [x]) + rest[1..]| == |done + rest| && |done + [x]| == |done| + 1
  {
  }

  lemma ItemEnd(whole: Json, done: seq<Json>, fs: seq<Json>, ts: seq<Json>, cs: bool)
    requires |done + fs| < SizeMax && (fs == [] || ts == []) && forall i :: 0 <= i < |fs| ==> fs[i] < whole
    ensures Yields(Array(done + fs), ItemEdits([], whole, fs, ts, |done|, cs), Array(done + ts), cs)
    ensures ItemsBlended(fs, ts, ts, cs)
  {
    LeftoverEdits([], whole, fs, ts, |done|, cs);
    RemoveRun(done, fs, cs);
    RunThenAppend(Array(done + fs), RemoveEdits([], |fs|, |done|), done, ts, cs);
    if fs == [] { AddedBlended(ts, cs); }
  }

  lemma ApplyNext(done: seq<Json>, fs: seq<Json>, to: Json, cs: bool) returns (v: Json)
    requires fs != [] && |done + fs| < SizeMax && Lawful(fs[0], to, cs)
    ensures Yields(Array(done + fs), CreateEdits([] + [SLASH] + Decimal(|done|), fs[0], to, cs),
                   Array((done + [v]) + fs[1..]), cs)
    ensures Denote(v, cs) == Blend(Denote(fs[0], cs), Denote(to, cs))
  {
    UpdateBehind(done, fs);
    v := ApplyItem(done + fs, |done|, to, cs);
  }

  lemma UpdateBehind<T>(done: seq<T>, rest: seq<T>)
    requires rest != []
    ensures (done + rest)[|done|] == rest[0]
    ensures forall x {:trigger (done + rest)[|done| := x]} :: (done + rest)[|done| := x] == (done + [x]) + rest[1..]
  {
  }

  lemma ItemStep(whole: Json, done: seq<Json>, fs: seq<Json>, ts: seq<Json>, v: Json, rest: seq<Json>, cs: bool)
    requires fs != [] && ts != [] && forall i :: 0 <= i < |fs| ==> fs[i] < whole
    requires Yields(Array(done + fs), CreateEdits([] + [SLASH] + Decimal(|done|), fs[0], ts[0], cs),
                    Array((done + [v]) + fs[1..]), cs)
    requires Yields(Array((done + [v]) + fs[1..]), ItemEdits([], whole, fs[1..], ts[1..], |done| + 1, cs),
                    Array((done + [v]) + rest), cs)
    requires Denote(v, cs) == Blend(Denote(fs[0], cs), Denote(ts[0], cs)) && ItemsBlended(fs[1..], ts[1..], rest, cs)
    ensures Yields(Array(done + fs), ItemEdits([], whole, fs, ts, |done|, cs), Array(done + ([v] + rest)), cs)
    ensures ItemsBlended(fs, ts, [v] + rest, cs)
  {
    Regroup(done, [v], rest);
    ApplyBoth(Array(done + fs), CreateEdits([] + [SLASH] + Decimal(|done|), fs[0], ts[0], cs),
              Array((done + [v]) + fs[1..]),
              ItemEdits([], whole, fs[1..], ts[1..], |done| + 1, cs), Array((done + [v]) + rest), cs);
    assert ([v] + rest)[1..] == rest;
  }

  lemma RunThenAppend(doc: Json, edits: seq<Edit>, items: seq<Json>, ts: seq<Json>, cs: bool)
    requires Yields(doc, edits, Array(items), cs)
    ensures Yields(doc, edits + AppendEdits([], ts), Array(items + ts), cs)
  {
    AppendRun(items, ts, cs);
    ApplyBoth(doc, edits, Array(items), AppendEdits([], ts), Array(items + ts), cs);
  }

  lemma ArrayLaw(from: Json, to: Json, cs: bool)
    requires from.Array? && to.Array? && Countable(from)
    requires AllLawful(from.items, to.items, cs)
    ensures Lawful(from, to, cs)
  {
    var fs, ts := from.items, to.items;
    assert [] + fs == fs;
    var r := ItemWalk(from, [], fs, ts, cs);
    assert [] + r == r;
    BlendedList(fs, ts, r, cs);
  }

  lemma {:induction false} BlendedAt(fs: seq<Json>, ts: seq<Json>, rs: seq<Json>, cs: bool, i: nat)
    requires ItemsBlended(fs, ts, rs, cs) && i < |ts|
    ensures |rs| == |ts|
    ensures Denote(rs[i], cs) == if i < |fs| then Blend(Denote(fs[i], cs), Denote(ts[i], cs)) else Denote(ts[i], cs)
    decreases i
  {
    if i > 0 { BlendedAt(if fs == [] then [] else fs[1..], ts[1..], rs[1..], cs, i - 1); }
  }

  lemma {:induction false} BlendedList(fs: seq<Json>, ts: seq<Json>, r: seq<Json>, cs: bool)
    requires ItemsBlended(fs, ts, r, cs)
    ensures Denote(Array(r), cs) == Blend(Denote(Array(fs), cs), Denote(Array(ts), cs))
  {
    var goal := Blend(Denote(Array(fs), cs), Denote(Array(ts), cs)).elems;
    forall i | 0 <= i < |ts| ensures DenoteItems(r, cs)[i] == goal[i] { BlendedAt(fs, ts, r, cs, i); }
    assert DenoteItems(r, cs) == goal;
  }

  // ----- objects -----

  /** `m` is what look-up ignoring case finds under its own name. */
  ghost predicate Holds(ms: seq<Member>, m: Member) {
    var i := Find(ms, m.name, false);
    i < |ms| && ms[i] == m
  }

  /** With names distinct in the mode, look-up in the mode finds every member at its place. */
  lemma MemberPlace(ms: seq<Member>, m: Member, cs: bool) returns (i: nat)
    requires m in ms && DistinctNames(ms, cs)
    ensures i < |ms| && ms[i] == m && Find(ms, m.name, cs) == i
    ensures Holds(ms, m) ==> Find(ms, m.name, false) == i
  {
    i :| 0 <= i < |ms| && ms[i] == m;
    FindIs(ms, m.name, cs, i);
  }

  lemma EncodedChild(name: CString)
    requires DecodesBack(name)
    ensures SLASH !in Encode(name) && DecodeInPlace(Encode(name)) == name && [] + Token(name) == [SLASH] + Encode(name)
  {
    EncodeNoSlash(name);
    DecodeUndoesEncode(name);
  }

  lemma TakeMember(ms: seq<Member>, m: Member, cs: bool)
    requires Holds(ms, m) && DecodesBack(m.name)
    ensures DetachPath(Object(ms), [] + Token(m.name), cs)
         == Some((m.value, Object(RemoveAt(ms, Find(ms, m.name, false)))))
  {
    EncodedChild(m.name);
    RootDetach(Object(ms), Encode(m.name), cs);
    assert DetachChild(Object(ms), m.name) == Some((m.value, Object(RemoveAt(ms, Find(ms, m.name, false)))));
  }

  lemma RemoveMember(ms: seq<Member>, m: Member, cs: bool)
    requires Holds(ms, m) && DecodesBack(m.name)
    ensures ApplyEdit(Object(ms), Edit(REMOVE, [] + Token(m.name), None), cs)
         == (0, Object(RemoveAt(ms, Find(ms, m.name, false))))
  {
    TakeMember(ms, m, cs);
  }

  /** Adding under a key that is not there appends. */
  lemma AddNew(ms: seq<Member>, name: CString, v: Json, cs: bool)
    requires DecodesBack(name) && Key(name, cs) !in DenoteMembers(ms, cs)
    ensures AddPath(Object(ms), [] + Token(name), v, cs) == (0, Object(ms + [Member(name, v)]))
  {
    EncodedChild(name);
    RootAdd(Object(ms), Encode(name), v, cs);
    DenoteFind(ms, name, cs);
    assert AddChild(Object(ms), name, v, cs) == (0, Object(ms + [Member(name, v)]));
  }

  lemma AddMember(ms: seq<Member>, m: Member, cs: bool)
    requires DecodesBack(m.name) && Key(m.name, cs) !in DenoteMembers(ms, cs)
    ensures ApplyEdit(Object(ms), Edit(ADD, [] + Token(m.name), Some(m.value)), cs) == (0, Object(ms + [m]))
  {
    AddNew(ms, m.name, m.value, cs);
  }

  lemma ReplaceMember(ms: seq<Member>, m: Member, v: Json, cs: bool)
    requires Holds(ms, m) && DecodesBack(m.name) && DistinctNames(ms, cs)
    ensures ApplyEdit(Object(ms), Edit(REPLACE, [] + Token(m.name), Some(v)), cs)
         == (0, Object(RemoveAt(ms, Find(ms, m.name, false)) + [Member(m.name, v)]))
  {
    var i := Find(ms, m.name, false);
    TakeMember(ms, m, cs);
    DenoteRemoveAt(ms, i, cs);
    AddNew(RemoveAt(ms, i), m.name, v, cs);
    ApplyReplace(Object(ms), [] + Token(m.name), v, m.value, Object(RemoveAt(ms, i)), cs);
  }

  lemma ApplyReplace(doc: Json, path: CString, v: Json, taken: Json, next: Json, cs: bool)
    requires path != [] && DetachPath(doc, path, cs) == Some((taken, next))
    ensures ApplyEdit(doc, Edit(REPLACE, path, Some(v)), cs) == AddPath(next, path, v, cs)
  {
  }

  // ----- the walk over two sorted member lists -----

  /** A member of `fs` that will be taken out has only such members before it, earlier ones in the walk. */
  ghost predicate Reached(ms: seq<Member>, fs: seq<Member>, ts: seq<Member>, cs: bool) {
    forall i, j ::
      0 <= i < j < |ms| && Key(ms[i].name, false) == Key(ms[j].name, false) && ms[j] in fs && Touched(ms[j], ts, cs) ==>
      ms[i] in fs && Touched(ms[i], ts, cs) && Before(Key(ms[i].name, cs), Key(ms[j].name, cs))
  }

  ghost predicate SameTouched(fs: seq<Member>, ts: seq<Member>, us: seq<Member>, cs: bool) {
    forall f :: f in fs ==> (Touched(f, ts, cs) <==> Touched(f, us, cs))
  }

  /** A target member with another key decides nothing. */
  lemma TouchedTail(fs: seq<Member>, ts: seq<Member>, cs: bool)
    requires ts != [] && forall f :: f in fs ==> Key(f.name, cs) != Key(ts[0].name, cs)
    ensures SameTouched(fs, ts, ts[1..], cs)
  {
    forall f | f in fs ensures Touched(f, ts, cs) <==> Touched(f, ts[1..], cs) {
      assert forall t :: t in ts <==> t == ts[0] || t in ts[1..];
    }
  }

  /** The head of the walk, if it will be taken out, is what look-up ignoring case finds. */
  lemma HeadHolds(ms: seq<Member>, fs: seq<Member>, ts: seq<Member>, cs: bool)
    requires Reached(ms, fs, ts, cs) && Strict(fs, MemberKey(cs)) && fs != [] && fs[0] in ms && Touched(fs[0], ts, cs)
    ensures Holds(ms, fs[0])
  {
    var i := Find(ms, fs[0].name, false);
    var j :| 0 <= j < |ms| && ms[j] == fs[0];
    if i < j {
      assert ms[i] in fs && Before(Key(ms[i].name, cs), Key(fs[0].name, cs));
      var k :| 0 <= k < |fs| && fs[k] == ms[i];
      StrCmpZero(Key(ms[i].name, cs), Key(ms[i].name, cs));
      if k > 0 {
        assert Before(MemberKey(cs)(fs[0]), MemberKey(cs)(fs[k]));
        StrCmpAntisymmetric(Key(fs[0].name, cs), Key(fs[k].name, cs));
      }
    }
  }

  /** Taking the head out keeps the others in reach. */
  lemma ReachedAfterRemove(ms: seq<Member>, k: nat, fs: seq<Member>, ts: seq<Member>, us: seq<Member>, cs: bool)
    requires Reached(ms, fs, ts, cs) && fs != [] && k < |ms| && ms[k] == fs[0] && DistinctNames(ms, cs)
    requires SameTouched(fs[1..], ts, us, cs)
    ensures Reached(RemoveAt(ms, k), fs[1..], us, cs)
  {
    var r := RemoveAt(ms, k);
    forall i, j | 0 <= i < j < |r| && Key(r[i].name, false) == Key(r[j].name, false) && r[j] in fs[1..]
        && Touched(r[j], us, cs)
      ensures r[i] in fs[1..] && Touched(r[i], us, cs) && Before(Key(r[i].name, cs), Key(r[j].name, cs))
    {
      var i', j' := if i < k then i else i + 1, if j < k then j else j + 1;
      assert r[i] == ms[i'] && r[j] == ms[j'] && r[i] in fs && r[i] != fs[0];
    }
  }

  /** Changing the head in place, when it is not taken out, as well. */
  lemma ReachedAfterUpdate(ms: seq<Member>, k: nat, v: Json, fs: seq<Member>, ts: seq<Member>, us: seq<Member>,
                           cs: bool)
    requires Reached(ms, fs, ts, cs) && k < |ms| && fs != [] && ms[k] == fs[0] && DistinctNames(ms, cs)
         && !Touched(fs[0], ts, cs)
    requires SameTouched(fs[1..], ts, us, cs) && forall f :: f in fs[1..] ==> Key(f.name, cs) != Key(fs[0].name, cs)
    ensures Reached(ms[k := Member(ms[k].name, v)], fs[1..], us, cs)
  {
    var r := ms[k := Member(ms[k].name, v)];
    forall i, j | 0 <= i < j < |r| && Key(r[i].name, false) == Key(r[j].name, false) && r[j] in fs[1..]
        && Touched(r[j], us, cs)
      ensures r[i] in fs[1..] && Touched(r[i], us, cs) && Before(Key(r[i].name, cs), Key(r[j].name, cs))
    {
      assert j != k && r[j] == ms[j] && ms[i] in fs && ms[i] != fs[0];
    }
  }

  lemma ReachedAfterAppend(ms: seq<Member>, x: Member, fs: seq<Member>, ts: seq<Member>, us: seq<Member>, cs: bool)
    requires Reached(ms, fs, ts, cs) && SameTouched(fs, ts, us, cs)
    requires forall f :: f in fs ==> Key(f.name, cs) != Key(x.name, cs)
    ensures Reached(ms + [x], fs, us, cs)
  {
  }

  /**
   * The state of the document while the walk stands before `fs` and `ts`: the members still to come from
   * the source are untouched and in reach, and keys only the target has are not there yet.
   */
  ghost predicate WalkState(ms: seq<Member>, fs: seq<Member>, ts: seq<Member>, cs: bool) {
    && DistinctNames(ms, cs)
    && Strict(fs, MemberKey(cs)) && Strict(ts, MemberKey(cs))
    && (forall m :: m in fs ==> m in ms) && TakenDecode(fs, ts, cs) && AddedDecode(fs, ts, cs)
    && (forall m :: m in ts && Key(m.name, cs) in DenoteMembers(ms, cs) ==> HasKey(fs, MemberKey(cs), Key(m.name, cs)))
    && Reached(ms, fs, ts, cs)
  }

  /** The map the walk turns `m` into, where `f` and `t` are the members still to come. */
  ghost function Walked(m: map<CString, Value>, f: map<CString, Value>, t: map<CString, Value>): map<CString, Value> {
    map k | k in t.Keys + (m.Keys - f.Keys) :: if k !in t then m[k] else if k in f then Blend(f[k], t[k]) else t[k]
  }

  lemma WalkedBoth(m: map<CString, Value>, f: map<CString, Value>, t: map<CString, Value>, k: CString, a: Value,
                   b: Value)
    requires k !in f && k !in t
    ensures Walked(m[k := Blend(a, b)], f, t) == Walked(m, f[k := a], t[k := b])
  {
  }

  lemma WalkedRemove(m: map<CString, Value>, f: map<CString, Value>, t: map<CString, Value>, k: CString, a: Value)
    requires k !in f && k !in t
    ensures Walked(m - {k}, f, t) == Walked(m, f[k := a], t)
  {
  }

  lemma WalkedAdd(m: map<CString, Value>, f: map<CString, Value>, t: map<CString, Value>, k: CString, b: Value)
    requires k !in f && k !in t
    ensures Walked(m[k := b], f, t) == Walked(m, f, t[k := b])
  {
  }

  lemma HasKeyTail(s: seq<Member>, k: CString, cs: bool)
    requires HasKey(s, MemberKey(cs), k) && k != Key(s[0].name, cs)
    ensures HasKey(s[1..], MemberKey(cs), k)
  {
    var i :| 0 <= i < |s| && MemberKey(cs)(s[i]) == k;
    assert MemberKey(cs)(s[1..][i - 1]) == k;
  }

  /** The document behind the edits of one shared member: changed in place, or taken out and added at the end. */
  function MemberTurned(ms: seq<Member>, i: nat, to: Json, v: Json): seq<Member>
    requires i < |ms|
  {
    if Replaced(ms[i].value, to) then RemoveAt(ms, i) + [Member(ms[i].name, v)] else ms[i := Member(ms[i].name, v)]
  }

  /** The edits of one shared member turn it into its counterpart. */
  lemma ApplyMember(ms: seq<Member>, i: nat, to: Json, cs: bool) returns (v: Json)
    requires i < |ms| && DistinctNames(ms, cs) && Lawful(ms[i].value, to, cs)
    requires Replaced(ms[i].value, to) ==> Holds(ms, ms[i]) && DecodesBack(ms[i].name)
    ensures Yields(Object(ms), CreateEdits([] + Token(ms[i].name), ms[i].value, to, cs),
                   Object(MemberTurned(ms, i, to, v)), cs)
    ensures Denote(v, cs) == Blend(Denote(ms[i].value, cs), Denote(to, cs))
  {
    var m := ms[i];
    var step := Token(m.name);
    var e := CreateEdits([], m.value, to, cs);
    assert [] + step == step;
    var k := MemberPlace(ms, m, cs);
    FindIs(ms, m.name, cs, i);
    EditsMove(step, m.value, to, cs);
    EditsShape(m.value, to, cs);
    v := ApplyEdits(m.value, e, cs).1;
    if Replaced(m.value, to) {
      ReplacedMember(ms, m, to, cs);
      UnderOne(step, [], REPLACE, Some(to));
      assert step + [] == step;
      assert v == to by { ApplyRootReplace(m.value, to, cs); }
    } else {
      ApplyUnder(Object(ms), step, i, e, cs);
    }
  }

  lemma ApplyRootReplace(doc: Json, to: Json, cs: bool)
    ensures Yields(doc, [Edit(REPLACE, [], Some(to))], to, cs)
  {
  }

  lemma ReplacedMember(ms: seq<Member>, m: Member, v: Json, cs: bool)
    requires Holds(ms, m) && DecodesBack(m.name) && DistinctNames(ms, cs)
    ensures Yields(Object(ms), [Edit(REPLACE, Token(m.name), Some(v))],
                   Object(RemoveAt(ms, Find(ms, m.name, false)) + [Member(m.name, v)]), cs)
  {
    assert [] + Token(m.name) == Token(m.name);
    ReplaceMember(ms, m, v, cs);
  }

  /** What the change of one member means. */
  lemma TurnedMeaning(ms: seq<Member>, i: nat, to: Json, v: Json, cs: bool)
    requires i < |ms| && DistinctNames(ms, cs)
    ensures var r := MemberTurned(ms, i, to, v);
      DistinctNames(r, cs) && DenoteMembers(r, cs) == DenoteMembers(ms, cs)[Key(ms[i].name, cs) := Denote(v, cs)]
    ensures forall n :: n in ms && Key(n.name, cs) != Key(ms[i].name, cs) ==> n in MemberTurned(ms, i, to, v)
  {
    var r, m := MemberTurned(ms, i, to, v), ms[i];
    if Replaced(m.value, to) {
      DenoteRemoveAt(ms, i, cs);
      DenoteAppend(RemoveAt(ms, i), Member(m.name, v), cs);
    } else {
      DenoteUpdate(ms, i, v, cs);
    }
    forall n | n in ms && Key(n.name, cs) != Key(m.name, cs) ensures n in r {
      var j :| 0 <= j < |ms| && ms[j] == n;
      if Replaced(m.value, to) {
        StillThere(ms, i, j);
      } else {
        assert r[j] == n;
      }
    }
  }

  /** Taking one member out leaves the others. */
  lemma StillThere(ms: seq<Member>, i: nat, j: nat)
    requires i < |ms| && j < |ms| && i != j
    ensures ms[j] in RemoveAt(ms, i)
  {
    assert RemoveAt(ms, i)[if j < i then j else j - 1] == ms[j];
  }

  ghost predicate LawfulPair(f: Member, t: Member, cs: bool) {
    Key(f.name, cs) == Key(t.name, cs) ==> Lawful(f.value, t.value, cs)
  }

  lemma ReachedAfterBoth(ms: seq<Member>, i: nat, fs: seq<Member>, ts: seq<Member>, v: Json, cs: bool)
    requires Reached(ms, fs, ts, cs) && DistinctNames(ms, cs) && Strict(fs, MemberKey(cs))
    requires fs != [] && ts != [] && Key(fs[0].name, cs) == Key(ts[0].name, cs) && i < |ms| && ms[i] == fs[0]
    ensures Reached(MemberTurned(ms, i, ts[0].value, v), fs[1..], ts[1..], cs)
  {
    StrictTail(fs, cs);
    TouchedTail(fs[1..], ts, cs);
    if Replaced(ms[i].value, ts[0].value) {
      ReachedAfterRemove(ms, i, fs, ts, ts[1..], cs);
      ReachedAfterAppend(RemoveAt(ms, i), Member(ms[i].name, v), fs[1..], ts[1..], ts[1..], cs);
    } else {
      ReachedAfterUpdate(ms, i, v, fs, ts, ts[1..], cs);
    }
  }

  lemma StateAfterBoth(ms: seq<Member>, i: nat, fs: seq<Member>, ts: seq<Member>, v: Json, cs: bool)
    requires WalkState(ms, fs, ts, cs) && fs != [] && ts != [] && Key(fs[0].name, cs) == Key(ts[0].name, cs)
    requires i < |ms| && ms[i] == fs[0]
    ensures var r := MemberTurned(ms, i, ts[0].value, v);
      WalkState(r, fs[1..], ts[1..], cs)
          && DenoteMembers(r, cs) == DenoteMembers(ms, cs)[Key(fs[0].name, cs) := Denote(v, cs)]
  {
    var r := MemberTurned(ms, i, ts[0].value, v);
    TurnedMeaning(ms, i, ts[0].value, v, cs);
    StrictTail(fs, cs);
    StrictTail(ts, cs);
    ReachedAfterBoth(ms, i, fs, ts, v, cs);
    DecodeAfterBoth(fs, ts, cs);
    forall m | m in ts[1..] && Key(m.name, cs) in DenoteMembers(r, cs)
      ensures HasKey(fs[1..], MemberKey(cs), Key(m.name, cs)) {
      HasKeyTail(fs, Key(m.name, cs), cs);
    }
  }

  lemma StateAfterRemove(ms: seq<Member>, i: nat, fs: seq<Member>, ts: seq<Member>, cs: bool)
    requires WalkState(ms, fs, ts, cs) && fs != [] && (ts == [] || Before(Key(fs[0].name, cs), Key(ts[0].name, cs)))
    requires i < |ms| && ms[i] == fs[0]
    ensures var r := RemoveAt(ms, i);
      WalkState(r, fs[1..], ts, cs) && DenoteMembers(r, cs) == DenoteMembers(ms, cs) - {Key(fs[0].name, cs)}
    ensures Key(fs[0].name, cs) !in DenoteMembers(ts, cs)
  {
    var k := Key(fs[0].name, cs);
    StrictTail(fs, cs);
    DenoteRemoveAt(ms, i, cs);
    forall m | m in fs[1..] ensures m in RemoveAt(ms, i) {
      var j :| 0 <= j < |ms| && ms[j] == m;
      StillThere(ms, i, j);
    }
    NotBeforeHead(ts, k, cs);
    ReachedAfterRemove(ms, i, fs, ts, ts, cs);
    DecodeAfterRemove(fs, ts, cs);
    forall m | m in ts && Key(m.name, cs) in DenoteMembers(RemoveAt(ms, i), cs)
      ensures HasKey(fs[1..], MemberKey(cs), Key(m.name, cs)) {
      HasKeyTail(fs, Key(m.name, cs), cs);
    }
  }

  lemma StateAfterAdd(ms: seq<Member>, fs: seq<Member>, ts: seq<Member>, cs: bool)
    requires WalkState(ms, fs, ts, cs) && ts != [] && (fs == [] || Before(Key(ts[0].name, cs), Key(fs[0].name, cs)))
    ensures Key(ts[0].name, cs) !in DenoteMembers(ms, cs) && Key(ts[0].name, cs) !in DenoteMembers(fs, cs)
    ensures DecodesBack(ts[0].name)
    ensures var r := ms + [ts[0]];
      WalkState(r, fs, ts[1..], cs)
      && DenoteMembers(r, cs) == DenoteMembers(ms, cs)[Key(ts[0].name, cs) := Denote(ts[0].value, cs)]
  {
    StrictTail(ts, cs);
    NotBeforeHead(fs, Key(ts[0].name, cs), cs);
    DenoteAppend(ms, ts[0], cs);
    TouchedTail(fs, ts, cs);
    ReachedAfterAppend(ms, ts[0], fs, ts, ts[1..], cs);
    DecodeAfterAdd(fs, ts, cs);
  }

  /** The walk over the members still to come. */
  lemma {:induction false} MemberWalk(whole: Json, ms: seq<Member>, fs: seq<Member>, ts: seq<Member>, cs: bool)
    returns (r: seq<Member>)
    requires forall m :: m in fs ==> m.value < whole
    requires WalkState(ms, fs, ts, cs)
    requires forall f, t :: f in fs && t in ts ==> LawfulPair(f, t, cs)
    ensures Yields(Object(ms), MemberEdits([], whole, fs, ts, cs), Object(r), cs)
    ensures DenoteMembers(r, cs) == Walked(DenoteMembers(ms, cs), DenoteMembers(fs, cs), DenoteMembers(ts, cs))
    decreases |fs| + |ts|
  {
    if fs == [] && ts == [] {
      r := ms;
      WalkedNothing(DenoteMembers(ms, cs));
    } else {
      var diff := Diff(fs, ts, cs);
      if diff == 0 {
        r := WalkBoth(whole, ms, fs, ts, cs);
      } else if diff < 0 {
        r := WalkRemove(whole, ms, fs, ts, cs);
      } else {
        if fs != [] { StrCmpAntisymmetric(Key(fs[0].name, cs), Key(ts[0].name, cs)); }
        r := WalkAdd(whole, ms, fs, ts, cs);
      }
    }
  }

  lemma WalkedNothing(m: map<CString, Value>)
    ensures Walked(m, map[], map[]) == m
  {
  }

  lemma ApplyHead(ms: seq<Member>, fs: seq<Member>, ts: seq<Member>, cs: bool) returns (i: nat, v: Json)
    requires WalkState(ms, fs, ts, cs) && fs != [] && ts != [] && Key(fs[0].name, cs) == Key(ts[0].name, cs)
    requires Lawful(fs[0].value, ts[0].value, cs)
    ensures i < |ms| && ms[i] == fs[0]
    ensures Yields(Object(ms), CreateEdits([] + Token(fs[0].name), fs[0].value, ts[0].value, cs),
                   Object(MemberTurned(ms, i, ts[0].value, v)), cs)
    ensures Denote(v, cs) == Blend(Denote(fs[0].value, cs), Denote(ts[0].value, cs))
  {
    i := MemberPlace(ms, fs[0], cs);
    if Replaced(fs[0].value, ts[0].value) {
      OnlyHeadMatches(fs[0], ts, cs);
      HeadHolds(ms, fs, ts, cs);
    }
    v := ApplyMember(ms, i, ts[0].value, cs);
  }

  /** Names need decode back no more when the heads of both lists are done with. */
  lemma DecodeAfterBoth(fs: seq<Member>, ts: seq<Member>, cs: bool)
    requires TakenDecode(fs, ts, cs) && AddedDecode(fs, ts, cs) && Strict(fs, MemberKey(cs))
         && Strict(ts, MemberKey(cs))
    requires fs != [] && ts != [] && Key(fs[0].name, cs) == Key(ts[0].name, cs)
    ensures TakenDecode(fs[1..], ts[1..], cs) && AddedDecode(fs[1..], ts[1..], cs)
  {
    StrictTail(fs, cs);
    StrictTail(ts, cs);
    TouchedTail(fs[1..], ts, cs);
    forall t | t in ts[1..] && HasKey(fs, MemberKey(cs), Key(t.name, cs))
      ensures HasKey(fs[1..], MemberKey(cs), Key(t.name, cs)) {
      HasKeyTail(fs, Key(t.name, cs), cs);
    }
  }

  lemma DecodeAfterRemove(fs: seq<Member>, ts: seq<Member>, cs: bool)
    requires TakenDecode(fs, ts, cs) && AddedDecode(fs, ts, cs)
    requires fs != [] && forall t :: t in ts ==> Key(t.name, cs) != Key(fs[0].name, cs)
    ensures TakenDecode(fs[1..], ts, cs) && AddedDecode(fs[1..], ts, cs)
  {
    forall t | t in ts && HasKey(fs, MemberKey(cs), Key(t.name, cs))
      ensures HasKey(fs[1..], MemberKey(cs), Key(t.name, cs)) {
      HasKeyTail(fs, Key(t.name, cs), cs);
    }
  }

  lemma DecodeAfterAdd(fs: seq<Member>, ts: seq<Member>, cs: bool)
    requires TakenDecode(fs, ts, cs) && AddedDecode(fs, ts, cs)
    requires ts != [] && forall f :: f in fs ==> Key(f.name, cs) != Key(ts[0].name, cs)
    ensures TakenDecode(fs, ts[1..], cs) && AddedDecode(fs, ts[1..], cs) && DecodesBack(ts[0].name)
  {
    TouchedTail(fs, ts, cs);
    assert !HasKey(fs, MemberKey(cs), Key(ts[0].name, cs));
  }

  /** In a strictly sorted target only the head can have the head's key. */
  lemma OnlyHeadMatches(f: Member, ts: seq<Member>, cs: bool)
    requires Strict(ts, MemberKey(cs)) && ts != [] && Key(f.name, cs) == Key(ts[0].name, cs)
         && Replaced(f.value, ts[0].value)
    ensures Touched(f, ts, cs)
  {
    StrictTail(ts, cs);
    assert forall t :: t in ts ==> t == ts[0] || t in ts[1..];
  }

  lemma {:induction false} WalkBoth(whole: Json, ms: seq<Member>, fs: seq<Member>, ts: seq<Member>, cs: bool)
    returns (r: seq<Member>)
    requires forall m :: m in fs ==> m.value < whole
    requires WalkState(ms, fs, ts, cs) && fs != [] && ts != [] && Diff(fs, ts, cs) == 0
    requires forall f, t :: f in fs && t in ts ==> LawfulPair(f, t, cs)
    ensures Yields(Object(ms), MemberEdits([], whole, fs, ts, cs), Object(r), cs)
    ensures DenoteMembers(r, cs) == Walked(DenoteMembers(ms, cs), DenoteMembers(fs, cs), DenoteMembers(ts, cs))
    decreases |fs| + |ts|, 0
  {
    var k := Key(fs[0].name, cs);
    StrCmpZero(k, Key(ts[0].name, cs));
    assert LawfulPair(fs[0], ts[0], cs);
    var i, v := ApplyHead(ms, fs, ts, cs);
    var a, b := Denote(fs[0].value, cs), Denote(ts[0].value, cs);
    StateAfterBoth(ms, i, fs, ts, v, cs);
    r := MemberWalk(whole, MemberTurned(ms, i, ts[0].value, v), fs[1..], ts[1..], cs);
    StrictTail(fs, cs);
    StrictTail(ts, cs);
    WalkedBoth(DenoteMembers(ms, cs), DenoteMembers(fs[1..], cs), DenoteMembers(ts[1..], cs), k, a, b);
    ApplyInTwo(Object(ms), CreateEdits([] + Token(fs[0].name), fs[0].value, ts[0].value, cs),
               MemberEdits([], whole, fs[1..], ts[1..], cs), cs);
  }

  lemma RemoveHead(ms: seq<Member>, fs: seq<Member>, ts: seq<Member>, cs: bool) returns (i: nat)
    requires WalkState(ms, fs, ts, cs) && fs != [] && (ts == [] || Before(Key(fs[0].name, cs), Key(ts[0].name, cs)))
    ensures i < |ms| && ms[i] == fs[0]
    ensures ApplyEdit(Object(ms), Edit(REMOVE, [] + Token(fs[0].name), None), cs) == (0, Object(RemoveAt(ms, i)))
  {
    i := MemberPlace(ms, fs[0], cs);
    NotBeforeHead(ts, Key(fs[0].name, cs), cs);
    HeadHolds(ms, fs, ts, cs);
    RemoveMember(ms, fs[0], cs);
  }

  lemma {:induction false} WalkRemove(whole: Json, ms: seq<Member>, fs: seq<Member>, ts: seq<Member>, cs: bool)
    returns (r: seq<Member>)
    requires forall m :: m in fs ==> m.value < whole
    requires WalkState(ms, fs, ts, cs) && fs != [] && Diff(fs, ts, cs) < 0
    requires forall f, t :: f in fs && t in ts ==> LawfulPair(f, t, cs)
    ensures Yields(Object(ms), MemberEdits([], whole, fs, ts, cs), Object(r), cs)
    ensures DenoteMembers(r, cs) == Walked(DenoteMembers(ms, cs), DenoteMembers(fs, cs), DenoteMembers(ts, cs))
    decreases |fs| + |ts|, 0
  {
    var i := RemoveHead(ms, fs, ts, cs);
    StateAfterRemove(ms, i, fs, ts, cs);
    r := MemberWalk(whole, RemoveAt(ms, i), fs[1..], ts, cs);
    StrictTail(fs, cs);
    WalkedRemove(DenoteMembers(ms, cs), DenoteMembers(fs[1..], cs), DenoteMembers(ts, cs), Key(fs[0].name, cs),
                 Denote(fs[0].value, cs));
    ApplyFirst(Object(ms), Edit(REMOVE, [] + Token(fs[0].name), None), MemberEdits([], whole, fs[1..], ts, cs), cs);
  }

  lemma {:induction false} WalkAdd(whole: Json, ms: seq<Member>, fs: seq<Member>, ts: seq<Member>, cs: bool)
    returns (r: seq<Member>)
    requires forall m :: m in fs ==> m.value < whole
    requires WalkState(ms, fs, ts, cs) && ts != [] && Diff(fs, ts, cs) > 0
    requires fs == [] || Before(Key(ts[0].name, cs), Key(fs[0].name, cs))
    requires forall f, t :: f in fs && t in ts ==> LawfulPair(f, t, cs)
    ensures Yields(Object(ms), MemberEdits([], whole, fs, ts, cs), Object(r), cs)
    ensures DenoteMembers(r, cs) == Walked(DenoteMembers(ms, cs), DenoteMembers(fs, cs), DenoteMembers(ts, cs))
    decreases |fs| + |ts|, 0
  {
    StateAfterAdd(ms, fs, ts, cs);
    AddMember(ms, ts[0], cs);
    r := MemberWalk(whole, ms + [ts[0]], fs, ts[1..], cs);
    StrictTail(ts, cs);
    WalkedAdd(DenoteMembers(ms, cs), DenoteMembers(fs, cs), DenoteMembers(ts[1..], cs), Key(ts[0].name, cs),
              Denote(ts[0].value, cs));
    ApplyFirst(Object(ms), Edit(ADD, [] + Token(ts[0].name), Some(ts[0].value)),
               MemberEdits([], whole, fs, ts[1..], cs), cs);
  }

  lemma ObjectLaw(from: Json, to: Json, cs: bool)
    requires from.Object? && to.Object? && Patchable(from, to, cs)
    requires forall f, t :: f in from.members && t in to.members ==> LawfulPair(f, t, cs)
    ensures Lawful(from, to, cs)
  {
    var fs, ts := SortMembers(from.members, cs), SortMembers(to.members, cs);
    InitialState(from, to, cs);
    var r := MemberWalk(from, from.members, fs, ts, cs);
    WalkedAll(DenoteMembers(fs, cs), DenoteMembers(ts, cs));
  }

  /** What the law asks of the members of two objects, whatever their values. */
  ghost predicate MembersReady(ms: seq<Member>, us: seq<Member>, cs: bool) {
    && DistinctNames(ms, cs) && DistinctNames(us, cs) && (cs ==> DetachOrder(ms, us, cs))
    && TakenDecode(ms, us, cs) && AddedDecode(ms, us, cs)
  }

  /** Before the walk the whole source is still to come. */
  lemma InitialState(from: Json, to: Json, cs: bool)
    requires from.Object? && to.Object? && MembersReady(from.members, to.members, cs)
    ensures var fs, ts := SortMembers(from.members, cs), SortMembers(to.members, cs);
      WalkState(from.members, fs, ts, cs) && DenoteMembers(fs, cs) == DenoteMembers(from.members, cs)
      && DenoteMembers(ts, cs) == DenoteMembers(to.members, cs)
  {
    var ms, fs, ts := from.members, SortMembers(from.members, cs), SortMembers(to.members, cs);
    SortedMeaning(ms, cs);
    SortedMeaning(to.members, cs);
    InitiallyReached(from, to, cs);
    InitiallyDecoding(ms, to.members, cs);
    forall t | t in ts && Key(t.name, cs) in DenoteMembers(ms, cs) ensures HasKey(fs, MemberKey(cs), Key(t.name, cs)) {
      var i := KeyIndex(fs, Key(t.name, cs), cs);
      assert MemberKey(cs)(fs[i]) == Key(t.name, cs);
    }
  }

  /** Sorting changes nothing about which members have to decode back. */
  lemma InitiallyDecoding(ms: seq<Member>, us: seq<Member>, cs: bool)
    requires TakenDecode(ms, us, cs) && AddedDecode(ms, us, cs)
    ensures var fs, ts := SortMembers(ms, cs), SortMembers(us, cs); TakenDecode(fs, ts, cs) && AddedDecode(fs, ts, cs)
  {
    var fs, ts := SortMembers(ms, cs), SortMembers(us, cs);
    assert forall m :: Touched(m, ts, cs) <==> Touched(m, us, cs);
    forall t | t in ts && HasKey(ms, MemberKey(cs), Key(t.name, cs))
      ensures HasKey(fs, MemberKey(cs), Key(t.name, cs)) {
      var i :| 0 <= i < |ms| && MemberKey(cs)(ms[i]) == Key(t.name, cs);
      assert ms[i] in fs;
      var j :| 0 <= j < |fs| && fs[j] == ms[i];
      assert MemberKey(cs)(fs[j]) == Key(t.name, cs);
    }
  }

  lemma InitiallyReached(from: Json, to: Json, cs: bool)
    requires from.Object? && to.Object? && MembersReady(from.members, to.members, cs)
    ensures Reached(from.members, SortMembers(from.members, cs), SortMembers(to.members, cs), cs)
  {
    var ms, fs, ts := from.members, SortMembers(from.members, cs), SortMembers(to.members, cs);
    assert forall m :: Touched(m, ts, cs) <==> Touched(m, to.members, cs);
    if cs { assert DetachOrder(ms, to.members, cs); }
  }

  lemma WalkedAll(f: map<CString, Value>, t: map<CString, Value>)
    ensures Fields(Walked(f, f, t)) == Blend(Fields(f), Fields(t))
  {
    assert Walked(f, f, t) == Blend(Fields(f), Fields(t)).fields;
  }

  // ----- the law -----

  lemma {:induction false} EveryPairLawful(from: Json, to: Json, cs: bool)
    requires Patchable(from, to, cs)
    ensures Lawful(from, to, cs)
    decreases from, 1, 0
  {
    if from.Array? && to.Array? {
      ItemsLawful(from, from.items, to.items, cs);
      ArrayLaw(from, to, cs);
    } else if from.Object? && to.Object? {
      forall f, t | f in from.members && t in to.members ensures LawfulPair(f, t, cs) {
        if Key(f.name, cs) == Key(t.name, cs) {
          EveryPairLawful(f.value, t.value, cs);
        }
      }
      ObjectLaw(from, to, cs);
    } else {
      ApplyRootReplace(from, to, cs);
    }
  }

  lemma {:induction false} ItemsLawful(whole: Json, fs: seq<Json>, ts: seq<Json>, cs: bool)
    requires forall i :: 0 <= i < |fs| ==> fs[i] < whole
    requires forall i :: 0 <= i < |fs| && i < |ts| ==> Patchable(fs[i], ts[i], cs)
    ensures AllLawful(fs, ts, cs)
    decreases whole, 0, |fs|
  {
    if fs != [] && ts != [] {
      EveryPairLawful(fs[0], ts[0], cs);
      ItemsLawful(whole, fs[1..], ts[1..], cs);
    }
  }

  /**
   * Every generated patch applies without error, and the patched copy means the target, raw texts apart.
   * `caseSensitive` selects the case-sensitive pair of functions or the other one; in the latter the
   * meaning forgets the case of names, as that pair does.
   */
  lemma PatchRoundTrip(from: Json, to: Json, cs: bool)
    requires Patchable(from, to, cs)
    ensures var (status, result) := ApplyAll(from, GeneratePatches(from, to, cs).items, cs);
      status == 0 && Denote(result, cs) == Blend(Denote(from, cs), Denote(to, cs))
  {
    var e := CreateEdits([], from, to, cs);
    EditsShape(from, to, cs);
    ApplyComposed(from, e, cs);
    EveryPairLawful(from, to, cs);
  }

  /** It is exactly the target when and only when no raw text had to change. */
  lemma PatchReachesTarget(from: Json, to: Json, cs: bool)
    requires Patchable(from, to, cs)
    ensures var (status, result) := ApplyAll(from, GeneratePatches(from, to, cs).items, cs);
      status == 0 && (Denote(result, cs) == Denote(to, cs) <==> RawKept(Denote(from, cs), Denote(to, cs)))
  {
    PatchRoundTrip(from, to, cs);
    BlendIsTarget(Denote(from, cs), Denote(to, cs));
  }

  // ----- names that differ only by case -----

  /**
   * detach_path takes the member found with the case of its name exactly when no earlier one has that name,
   * case apart.
   */
  lemma DetachTakes(ms: seq<Member>, name: CString)
    requires DistinctNames(ms, true) && Find(ms, name, true) < |ms|
    ensures var i := Find(ms, name, true);
      DetachChild(Object(ms), name) == Some((ms[i].value, Object(RemoveAt(ms, i))))
      <==> forall j :: 0 <= j < i ==> Key(ms[j].name, false) != Key(name, false)
  {
    var i, k := Find(ms, name, true), Find(ms, name, false);
    assert ms[i].name == name;
    if k == i {
    } else {
      assert k < i;
      RemovedElsewhere(ms, k, i);
    }
  }

  /** Taking different members out leaves different lists, if names are distinct. */
  lemma RemovedElsewhere(ms: seq<Member>, k: nat, i: nat)
    requires k < i < |ms| && DistinctNames(ms, true)
    ensures RemoveAt(ms, k) != RemoveAt(ms, i)
  {
    assert RemoveAt(ms, k)[k] == ms[k + 1] && RemoveAt(ms, i)[k] == ms[k];
  }

  /** Two names equal up to case, in order. */
  predicate CaseTwins(upper: Member, lower: Member) {
    Before(upper.name, lower.name) && Lower(upper.name) == Lower(lower.name) && DecodesBack(lower.name)
  }

  lemma EditsForUpper(upper: Member, lower: Member)
    requires CaseTwins(upper, lower) && upper.value.Number?
    ensures CreateEdits([], Object([upper, lower]), Object([upper]), true)
         == [Edit(REMOVE, [] + Token(lower.name), None)]
  {
    var from, to := Object([upper, lower]), Object([upper]);
    StrCmpZero(upper.name, upper.name);
    assert SortMembers(from.members, true) == from.members && SortMembers(to.members, true) == to.members;
    assert from.members[1..] == [lower] && to.members[1..] == [] && [lower][1..] == [];
    assert MemberEdits([], from, [], [], true) == [];
    assert MemberEdits([], from, [lower], [], true) == [Edit(REMOVE, [] + Token(lower.name), None)];
    assert CreateEdits([] + Token(upper.name), upper.value, upper.value, true) == [];
    assert MemberEdits([], from, [upper, lower], [upper], true) == [] + MemberEdits([], from, [lower], [], true);
  }

  lemma NotInReach(upper: Member, lower: Member)
    requires CaseTwins(upper, lower) && upper.value.Number?
    ensures !DetachOrder([upper, lower], [upper], true) && DistinctNames([upper, lower], true)
    ensures DenoteMembers([lower], true) != DenoteMembers([upper], true)
  {
    StrCmpZero(upper.name, lower.name);
    assert upper.name in DenoteMembers([upper], true) && upper.name !in DenoteMembers([lower], true);
    var ms := [upper, lower];
    assert Key(ms[0].name, false) == Key(ms[1].name, false);
    assert Touched(ms[1], [upper], true) && !Touched(ms[0], [upper], true);
  }

  lemma TwinDetached(ms: seq<Member>, upper: Member, lower: Member)
    requires ms == [upper, lower] && Lower(upper.name) == Lower(lower.name)
    ensures DetachChild(Object(ms), lower.name) == Some((upper.value, Object([lower])))
  {
    FindIs(ms, lower.name, false, 0);
    assert RemoveAt(ms, 0) == [lower];
  }

  lemma WrongRemove(upper: Member, lower: Member)
    requires CaseTwins(upper, lower)
    ensures Yields(Object([upper, lower]), [Edit(REMOVE, [] + Token(lower.name), None)], Object([lower]), true)
  {
    var ms, e := [upper, lower], Edit(REMOVE, [] + Token(lower.name), None);
    EncodedChild(lower.name);
    RootDetach(Object(ms), Encode(lower.name), true);
    TwinDetached(ms, upper, lower);
    RemoveByDetach(Object(ms), e.path, upper.value, Object([lower]), true);
    ApplyFirst(Object(ms), e, [], true);
    assert [e] + [] == [e];
  }

  /**
   * Objects out of that order: to get rid of the second of two such members the case-sensitive patch takes
   * the first one out, and the result is not the target.
   */
  lemma WrongMemberDetached(upper: Member, lower: Member)
    requires CaseTwins(upper, lower) && upper.value.Number?
    ensures var from, to := Object([upper, lower]), Object([upper]);
      && !InReach(from, to, true) && DistinctNames(from.members, true)
      && ApplyAll(from, GeneratePatches(from, to, true).items, true) == (0, Object([lower]))
      && Denote(Object([lower]), true) != Denote(to, true)
  {
    EditsForUpper(upper, lower);
    WrongRemove(upper, lower);
    ApplyGenerated(Object([upper, lower]), Object([upper]), [Edit(REMOVE, [] + Token(lower.name), None)],
                   Object([lower]), true);
    NotInReach(upper, lower);
  }

  /** The source {"A": 1, "a": 2} and the target {"A": 1} are such objects. */
  lemma WrongMemberExample()
    ensures CaseTwins(Member([Ascii('A')], Number(1)), Member([Ascii('a')], Number(2)))
  {
    PlainNamesDecodeBack([Ascii('a')]);
  }

  /** Applying the generated patch is applying the edits it was composed from. */
  lemma ApplyGenerated(from: Json, to: Json, e: seq<Edit>, end: Json, cs: bool)
    requires CreateEdits([], from, to, cs) == e && AllGenerated(e) && Yields(from, e, end, cs)
    ensures ApplyAll(from, GeneratePatches(from, to, cs).items, cs) == (0, end)
  {
    ApplyComposed(from, e, cs);
  }

  /** Why names must decode back: adding a member puts it under the decoded name, whatever that is. */
  lemma AddedName(name: CString, v: Json, cs: bool)
    ensures var (status, result) :=
      ApplyEdits(Object([]), CreateEdits([], Object([]), Object([Member(name, v)]), cs), cs);
      status == 0 && result == Object([Member(DecodeInPlace(Encode(name)), v)])
    ensures var (status, result) :=
      ApplyEdits(Object([]), CreateEdits([], Object([]), Object([Member(name, v)]), cs), cs);
      result == Object([Member(name, v)]) <==> DecodesBack(name)
  {
    EncodeNoSlash(name);
    assert [] + Token(name) == [SLASH] + Encode(name);
    EditsForOneMember(name, v, cs);
    RootAdd(Object([]), Encode(name), v, cs);
    var m := Member(DecodeInPlace(Encode(name)), v);
    assert RemoveKey([], m.name, cs) + [m] == [m];
    assert AddChild(Object([]), m.name, v, cs) == (0, Object([m]));
    ApplyFirst(Object([]), Edit(ADD, [SLASH] + Encode(name), Some(v)), [], cs);
    DecodeUndoesEncode(name);
  }

  lemma EditsForOneMember(name: CString, v: Json, cs: bool)
    ensures CreateEdits([], Object([]), Object([Member(name, v)]), cs) == [Edit(ADD, [] + Token(name), Some(v))] + []
  {
    var m := Member(name, v);
    assert SortMembers([], cs) == [] && SortMembers([m], cs) == [m];
    assert MemberEdits([], Object([]), [], [], cs) == [];
  }
}
