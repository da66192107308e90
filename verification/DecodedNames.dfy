// Names that the in-place decoder does not give back, and where they end up instead.
module DecodedNames {
  import opened CText
  import opened JsonPointer

  /** The name a patch that mentions `name` acts on. */
  function Landing(name: CString): CString {
    DecodeInPlace(Encode(name))
  }

  /** Byte `i` of it. */
  function Landed(name: CString, i: nat): CChar
    requires i < |name|
  {
    EncodeNoSlash(name);
    if name[i] == TILDE then TILDE
    else if i > 0 && name[i - 1] == SLASH then SLASH
    else Encode(name)[i]
  }

  /** The encoding begins with that of any beginning of the name. */
  lemma EncodePrefix(name: CString, i: nat)
    requires i <= |name|
    ensures Encode(name[..i]) <= Encode(name) && i <= |Encode(name[..i])|
  {
    assert name == name[..i] + name[i..];
    EncodeAppend(name[..i], name[i..]);
    EncodeNoSlash(name[..i]);
  }

  // ----- the decoder over any encoded name -----

  /** The buffer once `w` bytes are decoded: what is still to be read is untouched. */
  predicate Ahead(name: CString, w: nat, buffer: CString) {
    w <= |name| <= |buffer| == |Encode(name)|
    && forall j :: w <= j < |buffer| ==>
         buffer[j] == if j == w && w > 0 && name[w - 1] == SLASH then SLASH else Encode(name)[j]
  }

  /** The byte read next is one of the encoding. */
  lemma ReadsAhead(name: CString, w: nat, buffer: CString)
    requires Ahead(name, w, buffer) && w < |name|
    ensures var r, e := |Encode(name[..w])|, EscapeByte(name[w]);
      && w <= r && r + |e| == |Encode(name[..w + 1])| <= |buffer|
      && buffer[r] == e[0] && (|e| == 2 ==> buffer[r + 1] == e[1])
  {
    EncodeAt(name, w);
    if w > 0 { EncodeAt(name, w - 1); }
  }

  /** The buffer after byte `w` of the name. */
  function Written(name: CString, w: nat, buffer: CString): (next: CString)
    requires Ahead(name, w, buffer) && w < |name|
    ensures |next| == |buffer|
  {
    ReadsAhead(name, w, buffer);
    if name[w] == TILDE then buffer[w := TILDE] else if name[w] == SLASH then buffer[w + 1 := SLASH] else buffer
  }

  lemma WrittenAhead(name: CString, w: nat, buffer: CString)
    requires Ahead(name, w, buffer) && w < |name|
    ensures var next := Written(name, w, buffer); Ahead(name, w + 1, next) && next[w] == Landed(name, w)
  {
    EncodeNoSlash(name);
    ReadsAhead(name, w, buffer);
  }

  lemma {:induction false} DecodeTurn(name: CString, w: nat, buffer: CString)
    requires Ahead(name, w, buffer) && w < |name|
    ensures var r := |Encode(name[..w])|;
      w <= r < |buffer| && w < |Encode(name[..w + 1])| <= |buffer|
      && DecodeFrom(buffer, r, w) == DecodeFrom(Written(name, w, buffer), |Encode(name[..w + 1])|, w + 1)
  {
    ReadsAhead(name, w, buffer);
    DecodeByte(buffer, |Encode(name[..w])|, w);
  }

  /** One step of the decoder. */
  lemma {:induction false} DecodeByte(buffer: CString, r: nat, w: nat)
    requires w <= r < |buffer|
    ensures buffer[r] != TILDE ==> DecodeFrom(buffer, r, w) == DecodeFrom(buffer, r + 1, w + 1)
    ensures buffer[r] == TILDE && Is(buffer, r + 1, DIGIT0) ==>
      DecodeFrom(buffer, r, w) == DecodeFrom(buffer[w := TILDE], r + 2, w + 1)
    ensures buffer[r] == TILDE && Is(buffer, r + 1, DIGIT1) ==>
      DecodeFrom(buffer, r, w) == DecodeFrom(buffer[w + 1 := SLASH], r + 2, w + 1)
  {
  }

  lemma {:induction false} DecodeLands(name: CString, w: nat, buffer: CString)
    requires Ahead(name, w, buffer)
    ensures w <= |Encode(name[..w])| <= |buffer|
    ensures var d := DecodeFrom(buffer, |Encode(name[..w])|, w);
      |d| == |name| && forall i :: w <= i < |name| ==> d[i] == Landed(name, i)
    decreases |name| - w
  {
    if w == |name| {
      assert name[..w] == name;
    } else {
      var next := Written(name, w, buffer);
      DecodeTurn(name, w, buffer);
      WrittenAhead(name, w, buffer);
      DecodeLands(name, w + 1, next);
      KeptFront(next, DecodeFrom(next, |Encode(name[..w + 1])|, w + 1), w);
    }
  }

  lemma KeptFront(a: CString, d: CString, w: nat)
    requires w < |a| && w + 1 <= |d| && d[..w + 1] == a[..w + 1]
    ensures d[w] == a[w]
  {
    assert d[w] == d[..w + 1][w];
  }

  lemma LandingIs(name: CString)
    ensures |Landing(name)| == |name| && forall i :: 0 <= i < |name| ==> Landing(name)[i] == Landed(name, i)
  {
    assert name[..0] == [];
    EncodeNoSlash(name);
    DecodeLands(name, 0, Encode(name));
  }

  // ----- case -----

  lemma LowerAppend(a: CString, b: CString)
    ensures Lower(a + b) == Lower(a) + Lower(b)
  {
  }

  lemma {:induction false} EncodeLower(name: CString)
    ensures Encode(Lower(name)) == Lower(Encode(name))
    decreases |name|
  {
    if name != [] {
      EncodeLower(name[1..]);
      assert Lower(name)[1..] == Lower(name[1..]);
      LowerAppend(EscapeByte(name[0]), Encode(name[1..]));
      assert Lower(EscapeByte(name[0])) == EscapeByte(ToLower(name[0]));
    }
  }

  /** Folding the case of a name folds that of its landing place. */
  lemma LandingLower(name: CString)
    ensures Landing(Lower(name)) == Lower(Landing(name))
  {
    LandingIs(name);
    LandingIs(Lower(name));
    EncodeLower(name);
    EncodeNoSlash(name);
    forall i | 0 <= i < |name| ensures Landing(Lower(name))[i] == Lower(Landing(name))[i] {
      assert Landing(name)[i] == Landed(name, i);
      if i > 0 { assert Lower(name)[i - 1] == ToLower(name[i - 1]); }
    }
  }

  /** Behind its first tilde a name that decodes back has tildes and zeros only. */
  lemma {:induction false} BehindTilde(name: CString, k: nat, j: nat)
    requires DecodesBack(name) && k < j <= |name| && name[k] == TILDE && forall x :: 0 <= x < k ==> name[x] != TILDE
    ensures |Encode(name[..j])| > j
         && forall x :: k <= x < |Encode(name[..j])| ==> Encode(name[..j])[x] in {TILDE, DIGIT0}
    ensures forall x :: k <= x < j ==> name[x] in {TILDE, DIGIT0}
    decreases j
  {
    Around(name, j - 1);
    EncodeAround(name[..j - 1], name[j - 1], []);
    if j == k + 1 {
      PlainNamesDecodeBack(name[..k]);
    } else {
      BehindTilde(name, k, j - 1);
      EncodePrefix(name, j - 1);
      EncodeNoSlash(name);
      assert name[j - 1] != TILDE ==> name[j - 1] == Encode(name)[j - 1] == Encode(name[..j - 1])[j - 1];
    }
  }

  lemma {:induction false} FirstTilde(name: CString, i: nat) returns (k: nat)
    requires i <= |name|
    ensures k <= i && (k < i ==> name[k] == TILDE) && forall x :: 0 <= x < k ==> name[x] != TILDE
    decreases i
  {
    if i == 0 {
      k := 0;
    } else {
      k := FirstTilde(name, i - 1);
      if k == i - 1 && name[k] != TILDE { k := i; }
    }
  }

  /** A name whose folded form decodes back decodes back itself. */
  lemma LowerDecodes(name: CString)
    requires DecodesBack(Lower(name))
    ensures DecodesBack(name)
  {
    var m := Lower(name);
    EncodeNoSlash(name);
    EncodeLower(name);
    forall i | 0 <= i < |name| ensures name[i] != SLASH && (name[i] != TILDE ==> Encode(name)[i] == name[i]) {
      assert m[i] == ToLower(name[i]) && m[i] != SLASH;
      if name[i] != TILDE { LowerByte(name, i); }
    }
  }

  lemma LowerByte(name: CString, i: nat)
    requires DecodesBack(Lower(name)) && i < |name| <= |Encode(name)| && name[i] != TILDE
    requires Encode(Lower(name)) == Lower(Encode(name))
    ensures Encode(name)[i] == name[i]
  {
    var m := Lower(name);
    var k := FirstTilde(m, i);
    assert m[i] == Encode(m)[i] == ToLower(Encode(name)[i]);
    if k < i {
      BehindTilde(m, k, i + 1);
      assert m[i] == DIGIT0;
    } else {
      forall x | 0 <= x < i ensures name[x] != TILDE && name[x] != SLASH { assert m[x] == ToLower(name[x]); }
      EncodeAt(name, i);
      PlainNamesDecodeBack(name[..i]);
      assert m[i] == ToLower(name[i]) != SLASH;
    }
  }

  /** A patch that mentions a name acts on that name, case apart, exactly when the name decodes back. */
  lemma LandsAtHome(name: CString)
    ensures Lower(Landing(name)) == Lower(name) <==> DecodesBack(name)
  {
    LandingLower(name);
    if Lower(Landing(name)) == Lower(name) {
      DecodeUndoesEncode(Lower(name));
      LowerDecodes(name);
    }
    DecodeUndoesEncode(name);
  }

  // ----- landing places do not go round in circles -----

  /** Names with the same beginning have the same bytes ahead of the encoder. */
  lemma SameAhead(s: CString, t: CString, i: nat)
    requires i < |s| == |t| && s[..i] == t[..i] && s[i] != TILDE && t[i] != TILDE && s[i] == Landed(t, i)
    ensures Landed(s, i) == s[i]
  {
    EncodeNoSlash(s);
    EncodeNoSlash(t);
    EncodeAt(s, i);
    EncodeAt(t, i);
    EncodePrefix(s, i);
    EncodePrefix(t, i);
    if i > 0 { assert s[i - 1] == s[..i][i - 1] == t[..i][i - 1] == t[i - 1]; }
    var e := Encode(s[..i]);
    if |e| > i {
      assert Encode(s)[i] == e[i] == Encode(t)[i];
    }
  }

  ghost predicate Hit(names: set<CString>, s: CString) {
    exists t :: t in names && Landing(t) == s
  }

  /** Each of the names is the landing place of one of them. */
  ghost predicate Onto(names: set<CString>) {
    forall s {:trigger Hit(names, s)} :: s in names ==> Hit(names, s)
  }

  /** The first `i` bytes of the names stay where they are. */
  ghost predicate FrontStays(names: set<CString>, i: nat) {
    forall s :: s in names ==> FrontOf(s, i)
  }

  predicate FrontOf(s: CString, i: nat) {
    forall j :: 0 <= j < i && j < |s| ==> Landed(s, j) == s[j]
  }

  lemma FixedStep(s: CString, t: CString, i: nat)
    requires Landing(t) == s && FrontOf(t, i) && FrontOf(s, i)
    ensures FrontOf(s, i + 1)
  {
    LandingIs(t);
    if i < |s| && s[i] != TILDE {
      assert forall x :: 0 <= x < i ==> t[x] == Landed(t, x) == Landing(t)[x] == s[x];
      assert s[..i] == t[..i];
      SameAhead(s, t, i);
    }
  }

  lemma {:induction false} FixedUpTo(names: set<CString>, i: nat)
    requires Onto(names)
    ensures FrontStays(names, i)
    decreases i
  {
    if i > 0 {
      FixedUpTo(names, i - 1);
      forall s | s in names ensures FrontOf(s, i) {
        assert Hit(names, s);
        var t :| t in names && Landing(t) == s;
        FixedStep(s, t, i - 1);
      }
    }
  }

  /** If each of some names is the landing place of one of them, each is its own. */
  lemma NoCycles(names: set<CString>, s: CString)
    requires s in names && Onto(names)
    ensures Landing(s) == s
  {
    FixedUpTo(names, |s|);
    LandingIs(s);
    assert FrontOf(s, |s|);
    assert forall i :: 0 <= i < |s| ==> Landing(s)[i] == s[i];
  }
}
