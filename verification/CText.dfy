// C strings: zero-terminated byte strings, as the JSON library stores names and values.
module CText {
  /** One byte of a C string; the terminating zero is not part of the string. */
  newtype CChar = b: int | 1 <= b <= 255 witness 1

  type CString = seq<CChar>

  const SLASH: CChar := 47
  const TILDE: CChar := 126
  const DIGIT0: CChar := 48
  const DIGIT1: CChar := 49
  const DIGIT9: CChar := 57
  const MINUS: CChar := 45

  /** The bytes of a literal in the C locale. */
  function Ascii(c: char): CChar
    requires 1 <= c as int <= 127
  {
    c as int as CChar
  }

  /** The byte a C program reads at `s[i]`: zero at and after the end. */
  function At(s: CString, i: nat): int {
    if i < |s| then s[i] as int else 0
  }

  /** `tolower` of the C locale. */
  function ToLower(c: CChar): CChar {
    if 65 <= c <= 90 then c + 32 else c
  }

  /** The byte at `s[i]` as a name comparison sees it. */
  function FoldedAt(s: CString, i: nat, caseSensitive: bool): int {
    if i >= |s| then 0 else if caseSensitive then s[i] as int else ToLower(s[i]) as int
  }

  /** Is there a byte `c` at `s[i]`? */
  predicate Is(s: CString, i: nat, c: CChar) {
    i < |s| && s[i] == c
  }

  function Lower(s: CString): (r: CString)
    ensures |r| == |s|
    ensures forall i {:trigger r[i]} :: 0 <= i < |s| ==> r[i] == ToLower(s[i])
  {
    if s == [] then [] else [ToLower(s[0])] + Lower(s[1..])
  }

  /** What a name comparison looks at: the name itself, or its lower-case form. */
  function Key(name: CString, caseSensitive: bool): CString {
    if caseSensitive then name else Lower(name)
  }

  lemma KeyAt(name: CString, caseSensitive: bool)
    ensures |Key(name, caseSensitive)| == |name|
    ensures forall i :: 0 <= i < |name| ==>
      Key(name, caseSensitive)[i] == if caseSensitive then name[i] else ToLower(name[i])
  {
  }

  /** `strcmp`: the difference at the first byte where the strings differ. */
  function StrCmp(a: CString, b: CString): int
    decreases |a| + |b|
  {
    if At(a, 0) != At(b, 0) then At(a, 0) - At(b, 0)
    else if a == [] then 0
    else StrCmp(a[1..], b[1..])
  }

  lemma {:induction false} StrCmpZero(a: CString, b: CString)
    ensures StrCmp(a, b) == 0 <==> a == b
    decreases |a| + |b|
  {
    if a != [] && b != [] {
      if a[0] == b[0] {
        StrCmpZero(a[1..], b[1..]);
        assert a == [a[0]] + a[1..] && b == [b[0]] + b[1..];
      }
    }
  }

  lemma {:induction false} StrCmpAntisymmetric(a: CString, b: CString)
    ensures StrCmp(a, b) == -StrCmp(b, a)
    decreases |a| + |b|
  {
    if a != [] && b != [] {
      StrCmpAntisymmetric(a[1..], b[1..]);
    }
  }

  lemma {:induction false} StrCmpTransitive(a: CString, b: CString, c: CString)
    requires StrCmp(a, b) < 0 && StrCmp(b, c) < 0
    ensures StrCmp(a, c) < 0
    decreases |a| + |b| + |c|
  {
    if a != [] && b != [] && c != [] && a[0] == b[0] == c[0] {
      StrCmpTransitive(a[1..], b[1..], c[1..]);
    }
  }

  /** After the same bytes a string that goes on is the greater one, and otherwise the greater byte decides. */
  lemma {:induction false} StrCmpInOrder(p: CString, x: CChar, r: CString, y: CChar, s: CString)
    ensures StrCmp(p, p + ([y] + s)) < 0 < StrCmp(p + ([x] + r), p)
    ensures StrCmp(p + ([x] + r), p + ([y] + s)) < 0 <==> x < y || (x == y && StrCmp(r, s) < 0)
    decreases |p|
  {
    var a, b := [x] + r, [y] + s;
    if p == [] {
      assert p + a == a && p + b == b && a[1..] == r && b[1..] == s;
    } else {
      StrCmpInOrder(p[1..], x, r, y, s);
      assert (p + a)[1..] == p[1..] + a && (p + b)[1..] == p[1..] + b;
    }
  }

  /** Exactly the capitals change, each to its small letter. */
  lemma CapitalsFold(c: CChar)
    ensures ToLower(c) != c <==> 'A' as int <= c as int <= 'Z' as int
    ensures ToLower(c) != c ==> ToLower(c) as int - 'a' as int == c as int - 'A' as int
  {
  }

  /** The byte loop of `compare_strings` decides exactly the order of the keys. */
  method CompareStrings(a: CString, b: CString, caseSensitive: bool) returns (r: int)
    ensures r == StrCmp(Key(a, caseSensitive), Key(b, caseSensitive))
    ensures r == 0 <==> Key(a, caseSensitive) == Key(b, caseSensitive)
  {
    var i := 0;
    ghost var x, y := Key(a, caseSensitive), Key(b, caseSensitive);
    StrCmpZero(x, y);
    while FoldedAt(a, i, caseSensitive) == FoldedAt(b, i, caseSensitive)
      invariant 0 <= i <= |a| && i <= |b|
      invariant StrCmp(x[i..], y[i..]) == StrCmp(x, y)
      decreases |a| - i
    {
      if At(a, i) == 0 {
        assert x[i..] == [] && y[i..] == [];
        return 0;
      }
      assert x[i..][1..] == x[i + 1..] && y[i..][1..] == y[i + 1..];
      i := i + 1;
    }
    r := FoldedAt(a, i, caseSensitive) - FoldedAt(b, i, caseSensitive);
  }
}
