// JSON Pointer (RFC 6901): escaping, the text walk of get_item_from_pointer, and the
// pointer that cJSONUtils_FindPointerFromObjectTo builds.
module JsonPointer {
  import opened Wrappers
  import opened CText
  import opened JsonTree

  // ----- escaping -----

  /** One byte of a name as it appears in a pointer (section 3 of RFC 6901). */
  function EscapeByte(c: CChar): CString {
    if c == SLASH then [TILDE, DIGIT1] else if c == TILDE then [TILDE, DIGIT0] else [c]
  }

  function Encode(name: CString): CString {
    if name == [] then [] else EscapeByte(name[0]) + Encode(name[1..])
  }

  lemma {:induction false} EncodeAppend(a: CString, b: CString)
    ensures Encode(a + b) == Encode(a) + Encode(b)
  {
    if a == [] {
      assert a + b == b;
    } else {
      EncodeAppend(a[1..], b);
      assert (a + b)[1..] == a[1..] + b;
    }
  }

  /** An encoded name never contains a separator, so it stays one reference token. */
  lemma {:induction false} EncodeNoSlash(name: CString)
    ensures SLASH !in Encode(name)
    ensures |name| <= |Encode(name)| <= 2 * |name|
  {
    if name != [] {
      EncodeNoSlash(name[1..]);
    }
  }

  /** Where the escape of byte `i` starts in the encoding, and what stands there. */
  lemma EncodeAt(name: CString, i: nat)
    requires i < |name|
    ensures var e := EscapeByte(name[i]); var r := |Encode(name[..i])|;
      i <= r && r + |e| == |Encode(name[..i + 1])| <= |Encode(name)| &&
      Encode(name)[r] == e[0] && (|e| == 2 ==> Encode(name)[r + 1] == e[1])
  {
    EncodeNoSlash(name[..i]);
    Around(name, i);
    EncodeAround(name[..i], name[i], name[i + 1..]);
  }

  lemma Around<T>(s: seq<T>, i: nat)
    requires i < |s|
    ensures s[..i + 1] == s[..i] + [s[i]] && s == (s[..i] + [s[i]]) + s[i + 1..]
  {
  }

  lemma EncodeAround(a: CString, x: CChar, b: CString)
    ensures Encode(a + [x]) == Encode(a) + EscapeByte(x)
    ensures Encode((a + [x]) + b) == Encode(a) + EscapeByte(x) + Encode(b)
  {
    assert Encode([x]) == EscapeByte(x) + [] == EscapeByte(x);
    EncodeAppend(a, [x]);
    EncodeAppend(a + [x], b);
  }

  /** Section 3 of RFC 6901: a tilde is written ~0, a slash ~1, any other byte as it is. */
  lemma EncodesAsRfc(a: CString, c: CChar, b: CString)
    ensures Encode((a + [c]) + b)
         == Encode(a) + (if c == Ascii('~') then [Ascii('~'), Ascii('0')]
                         else if c == Ascii('/') then [Ascii('~'), Ascii('1')] else [c]) + Encode(b)
  {
    EncodeAround(a, c, b);
  }

  /** `pointer_encoded_length` predicts the length of the encoding exactly. */
  method PointerEncodedLength(s: CString) returns (length: nat)
    ensures length == |Encode(s)|
  {
    length := 0;
    var i := 0;
    while At(s, i) != 0
      invariant 0 <= i <= |s|
      invariant length == |Encode(s[..i])|
      decreases |s| - i
    {
      EncodeAppend(s[..i], [s[i]]);
      assert s[..i + 1] == s[..i] + [s[i]];
      if s[i] == TILDE || s[i] == SLASH {
        length := length + 1;
      }
      i, length := i + 1, length + 1;
    }
    assert s[..i] == s;
  }

  /** One turn of `encode_string_as_pointer`. */
  method EncodeByte(destination: array<int>, d: nat, c: CChar) returns (next: nat)
    requires d + |EscapeByte(c)| <= destination.Length
    modifies destination
    ensures next == d + |EscapeByte(c)| && destination[d] == EscapeByte(c)[0] as int
    ensures |EscapeByte(c)| == 2 ==> destination[d + 1] == EscapeByte(c)[1] as int
    ensures forall j :: 0 <= j < d || next <= j < destination.Length ==> destination[j] == old(destination[j])
  {
    next := d + 1;
    if c == SLASH {
      destination[d] := TILDE as int;
      destination[d + 1] := DIGIT1 as int;
      next := next + 1;
    } else if c == TILDE {
      destination[d] := TILDE as int;
      destination[d + 1] := DIGIT0 as int;
      next := next + 1;
    } else {
      destination[d] := c as int;
    }
  }

  /** `encode_string_as_pointer` fills exactly the predicted bytes and the terminator, and no others. */
  method EncodeStringAsPointer(destination: array<int>, start: nat, source: CString)
    requires start + |Encode(source)| < destination.Length
    modifies destination
    ensures forall j :: 0 <= j < |Encode(source)| ==> destination[start + j] == Encode(source)[j] as int
    ensures destination[start + |Encode(source)|] == 0
    ensures forall j :: 0 <= j < start || start + |Encode(source)| < j < destination.Length
                        ==> destination[j] == old(destination[j])
  {
    var i, d := 0, start;
    ghost var e := Encode(source);
    while At(source, i) != 0
      invariant 0 <= i <= |source|
      invariant d == start + |Encode(source[..i])| <= start + |e|
      invariant forall j :: 0 <= j < d - start ==> destination[start + j] == e[j] as int
      invariant forall j :: 0 <= j < start || d <= j < destination.Length ==> destination[j] == old(destination[j])
      decreases |source| - i
    {
      EncodeAt(source, i);
      d := EncodeByte(destination, d, source[i]);
      i := i + 1;
    }
    assert source[..i] == source;
    destination[d] := 0;
  }

  // ----- decode_pointer_inplace -----

  /** The buffer after `decode_pointer_inplace` read up to `r` and wrote up to `w`. */
  function DecodeFrom(buffer: CString, r: nat, w: nat): (d: CString)
    requires w <= r <= |buffer|
    ensures w <= |d| <= |buffer| && d[..w] == buffer[..w]
    decreases |buffer| - r
  {
    if r == |buffer| then buffer[..w]
    else if buffer[r] == TILDE then
      if Is(buffer, r + 1, DIGIT0) then DecodeFrom(buffer[w := TILDE], r + 2, w + 1)
      else if Is(buffer, r + 1, DIGIT1) then DecodeFrom(buffer[w + 1 := SLASH], r + 2, w + 1)
      else buffer
    else DecodeFrom(buffer, r + 1, w + 1)
  }

  /**
   * `decode_pointer_inplace`. Ordinary bytes are stepped over without being copied down, and `~1`
   * stores its slash one place too far, exactly as the code does.
   */
  function DecodeInPlace(s: CString): CString {
    DecodeFrom(s, 0, 0)
  }

  /** The string a zero-terminated buffer holds. */
  ghost predicate Holds(buffer: seq<int>, s: CString) {
    |s| < |buffer| && (forall i :: 0 <= i < |s| ==> buffer[i] == s[i] as int) && buffer[|s|] == 0
  }

  method StoreAt(buffer: array<int>, at: nat, c: CChar, ghost s: CString)
    requires Holds(buffer[..], s) && at < |s|
    modifies buffer
    ensures Holds(buffer[..], s[at := c])
  {
    buffer[at] := c as int;
  }

  method DecodePointerInPlace(buffer: array<int>, ghost s: CString)
    requires Holds(buffer[..], s)
    modifies buffer
    ensures Holds(buffer[..], DecodeInPlace(s))
  {
    var r, w := 0, 0;
    ghost var now: CString := s;
    while buffer[r] != 0
      invariant 0 <= w <= r <= |s| == |now|
      invariant Holds(buffer[..], now)
      invariant DecodeFrom(now, r, w) == DecodeInPlace(s)
      decreases |s| - r
    {
      if buffer[r] == TILDE as int {
        assert At(now, r + 1) == buffer[r + 1];
        if buffer[r + 1] == DIGIT0 as int {
          StoreAt(buffer, w, TILDE, now);
          now := now[w := TILDE];
        } else if buffer[r + 1] == DIGIT1 as int {
          StoreAt(buffer, w + 1, SLASH, now);
          now := now[w + 1 := SLASH];
        } else {
          return;
        }
        r := r + 1;
      }
      r, w := r + 1, w + 1;
    }
    assert r == |s|;
    buffer[w] := 0;
  }

  /**
   * Exactly the names the decoder gives back after the encoder: no slash, and every byte that needs no
   * escape already sits where the encoder puts it (so a tilde may only be followed by tildes or by `0`).
   */
  predicate DecodesBack(name: CString) {
    EncodeNoSlash(name);
    forall i :: 0 <= i < |name| ==> name[i] != SLASH && (name[i] != TILDE ==> Encode(name)[i] == name[i])
  }

  lemma {:induction false} PlainNamesDecodeBack(name: CString)
    requires TILDE !in name && SLASH !in name
    ensures Encode(name) == name && DecodesBack(name)
  {
    if name != [] {
      PlainNamesDecodeBack(name[1..]);
    }
  }

  /** One step of the decoder over the encoding of a byte other than a slash. */
  lemma DecodeStep(name: CString, w: nat, buffer: CString)
    requires w < |name| && |buffer| == |Encode(name)| && name[w] != SLASH
    requires forall i :: w <= i < |buffer| ==> buffer[i] == Encode(name)[i]
    ensures w <= |Encode(name[..w])| < |Encode(name[..w + 1])| <= |buffer|
    ensures var next := if name[w] == TILDE then buffer[w := TILDE] else buffer;
      var d := DecodeFrom(buffer, |Encode(name[..w])|, w);
      d == DecodeFrom(next, |Encode(name[..w + 1])|, w + 1) && w < |d| && d[w] == next[w]
  {
    EncodeAt(name, w);
    var next: CString := if name[w] == TILDE then buffer[w := TILDE] else buffer;
    var d := DecodeFrom(next, |Encode(name[..w + 1])|, w + 1);
    assert d[w] == d[..w + 1][w] == next[..w + 1][w];
  }

  /** The decoder at work: the bytes from `w` on are still those of the encoding. */
  lemma {:induction false} DecodeRun(name: CString, encoded: CString, w: nat, buffer: CString)
    requires encoded == Encode(name) && w <= |name| <= |buffer| == |encoded|
    requires SLASH !in name
    requires forall i :: w <= i < |buffer| ==> buffer[i] == encoded[i]
    ensures w <= |Encode(name[..w])| <= |buffer|
    ensures Decoded(name, encoded, w, DecodeFrom(buffer, |Encode(name[..w])|, w))
    decreases |name| - w
  {
    if w < |name| {
      DecodeStep(name, w, buffer);
      var next: CString := if name[w] == TILDE then buffer[w := TILDE] else buffer;
      DecodeRun(name, encoded, w + 1, next);
      OneMoreDecoded(name, encoded, w, DecodeFrom(next, |Encode(name[..w + 1])|, w + 1), next);
    } else {
      assert name[..w] == name;
    }
  }

  lemma OneMoreDecoded(name: CString, encoded: CString, w: nat, d: CString, next: CString)
    requires Decoded(name, encoded, w + 1, d) && w < |name| <= |next| && d[w] == next[w]
    requires next[w] == if name[w] == TILDE then TILDE else encoded[w]
    ensures Decoded(name, encoded, w, d)
  {
  }

  /** The result from `w` on: tildes where the name has them, bytes of the encoding elsewhere. */
  predicate Decoded(name: CString, encoded: CString, w: nat, d: CString) {
    |d| == |name| <= |encoded| && forall i :: w <= i < |name| ==> d[i] == if name[i] == TILDE then TILDE else encoded[i]
  }

  /** At the place of the first slash of the name the decoder leaves something else. */
  lemma {:induction false} DecodeKeepsSlashOut(name: CString, k: nat, w: nat, buffer: CString)
    requires w <= k < |name| <= |buffer| == |Encode(name)|
    requires name[k] == SLASH && forall i :: 0 <= i < k ==> name[i] != SLASH
    requires SLASH !in buffer
    requires forall i :: w <= i < |buffer| ==> buffer[i] == Encode(name)[i]
    ensures w <= |Encode(name[..w])| <= |buffer|
    ensures var d := DecodeFrom(buffer, |Encode(name[..w])|, w); k < |d| ==> d[k] != SLASH
    decreases k - w
  {
    EncodeAt(name, w);
    if w == k {
      var r := |Encode(name[..w])|;
      var next: CString := buffer[w + 1 := SLASH];
      var d := DecodeFrom(next, r + 2, w + 1);
      assert d[w] == d[..w + 1][w] == next[..w + 1][w];
    } else {
      DecodeStep(name, w, buffer);
      DecodeKeepsSlashOut(name, k, w + 1, if name[w] == TILDE then buffer[w := TILDE] else buffer);
    }
  }

  /** The decoder undoes the encoder for exactly the names `DecodesBack` describes. */
  lemma DecodeUndoesEncode(name: CString)
    ensures DecodeInPlace(Encode(name)) == name <==> DecodesBack(name)
  {
    EncodeNoSlash(name);
    if SLASH in name {
      var k := FirstSlash(name);
      assert name[..0] == [];
      DecodeKeepsSlashOut(name, k, 0, Encode(name));
    } else {
      assert name[..0] == [];
      DecodeRun(name, Encode(name), 0, Encode(name));
    }
  }

  lemma {:induction false} FirstSlash(name: CString) returns (k: nat)
    requires SLASH in name
    ensures k < |name| && name[k] == SLASH && forall i :: 0 <= i < k ==> name[i] != SLASH
  {
    if name[0] == SLASH {
      k := 0;
    } else {
      var j := FirstSlash(name[1..]);
      k := j + 1;
    }
  }

  // ----- tokens -----

  /** The pointer after its first token: from the next slash on. */
  function Rest(p: CString): (r: CString)
    ensures |r| <= |p|
    ensures r == [] || r[0] == SLASH
  {
    if p == [] || p[0] == SLASH then p else Rest(p[1..])
  }

  /** What may follow a token. */
  predicate TokenEnd(r: CString) {
    r == [] || r[0] == SLASH
  }

  lemma {:induction false} RestAfterToken(token: CString, r: CString)
    requires SLASH !in token && TokenEnd(r)
    ensures Rest(token + r) == r
  {
    if token == [] {
      assert token + r == r;
    } else {
      var p := token + r;
      assert p[1..] == token[1..] + r;
      RestAfterToken(token[1..], r);
      assert p[0] == token[0] && Rest(p) == Rest(p[1..]);
    }
  }

  /** The bytes before the next slash. */
  function FirstToken(p: CString): CString {
    p[..|p| - |Rest(p)|]
  }

  lemma {:induction false} FirstTokenAlone(p: CString)
    ensures SLASH !in FirstToken(p) && TokenEnd(Rest(p)) && FirstToken(p) + Rest(p) == p
    decreases |p|
  {
    if p != [] && p[0] != SLASH {
      FirstTokenAlone(p[1..]);
      assert FirstToken(p) == [p[0]] + FirstToken(p[1..]);
    }
  }

  /** `compare_pointers`: does the first token of `p` name this member? */
  predicate MatchToken(name: CString, p: CString, cs: bool)
    decreases |p|
  {
    if name != [] && p != [] && p[0] != SLASH then
      if p[0] == TILDE then
        if (!Is(p, 1, DIGIT0) || name[0] != TILDE) && (!Is(p, 1, DIGIT1) || name[0] != SLASH) then false
        else MatchToken(name[1..], p[2..], cs)
      else if (!cs && ToLower(name[0]) != ToLower(p[0])) || (cs && name[0] != p[0]) then false
      else MatchToken(name[1..], p[1..], cs)
    else (p != [] && p[0] != SLASH) == (name != [])
  }

  /** An encoded name matches exactly the names with its key, escapes included. */
  lemma {:induction false} MatchEncoded(name: CString, wanted: CString, r: CString, cs: bool)
    requires TokenEnd(r)
    ensures MatchToken(name, Encode(wanted) + r, cs) <==> Key(name, cs) == Key(wanted, cs)
    decreases |wanted|
  {
    if wanted == [] {
      assert Encode(wanted) + r == r;
      KeyAt(name, cs);
    } else if name == [] {
      KeyAt(wanted, cs);
      assert (Encode(wanted) + r)[0] == EscapeByte(wanted[0])[0];
    } else {
      MatchOne(name, wanted, r, cs);
      MatchEncoded(name[1..], wanted[1..], r, cs);
      KeyCons(name, cs);
      KeyCons(wanted, cs);
      ConsEqual(Key(name, cs), Key(wanted, cs));
    }
  }

  /** One step of the comparison. */
  lemma MatchOne(name: CString, wanted: CString, r: CString, cs: bool)
    requires name != [] && wanted != []
    ensures MatchToken(name, Encode(wanted) + r, cs) <==>
      (if cs then name[0] == wanted[0] else ToLower(name[0]) == ToLower(wanted[0]))
      && MatchToken(name[1..], Encode(wanted[1..]) + r, cs)
  {
    EncodeStep(wanted, r);
  }

  /** The escape of the first character and what is behind it. */
  lemma EncodeStep(wanted: CString, r: CString)
    requires wanted != []
    ensures var e, esc := Encode(wanted) + r, EscapeByte(wanted[0]);
      |e| >= |esc| && e[0] == esc[0] && (|esc| == 2 ==> e[1] == esc[1]) && e[|esc|..] == Encode(wanted[1..]) + r
  {
    var esc := EscapeByte(wanted[0]);
    assert Encode(wanted) == esc + Encode(wanted[1..]);
    Behind(esc, Encode(wanted[1..]), r);
  }

  lemma Behind<T>(a: seq<T>, b: seq<T>, c: seq<T>)
    ensures ((a + b) + c)[|a|..] == b + c
  {
  }

  lemma ConsEqual<T>(a: seq<T>, b: seq<T>)
    requires a != [] && b != []
    ensures a == b <==> a[0] == b[0] && a[1..] == b[1..]
  {
    if a[0] == b[0] && a[1..] == b[1..] {
      assert a == [a[0]] + a[1..] && b == [b[0]] + b[1..];
    }
  }

  lemma KeyCons(name: CString, cs: bool)
    requires name != []
    ensures Key(name, cs) == [if cs then name[0] else ToLower(name[0])] + Key(name[1..], cs)
  {
  }

  /** The member look-up loop inside get_item_from_pointer. */
  function FindToken(members: seq<Member>, p: CString, cs: bool): (i: nat)
    ensures i <= |members|
    ensures i < |members| ==> MatchToken(members[i].name, p, cs)
    ensures forall j :: 0 <= j < i ==> !MatchToken(members[j].name, p, cs)
  {
    if members == [] then 0
    else if MatchToken(members[0].name, p, cs) then 0
    else 1 + FindToken(members[1..], p, cs)
  }

  lemma {:induction false} FindTokenEncoded(members: seq<Member>, name: CString, r: CString, cs: bool)
    requires TokenEnd(r)
    ensures FindToken(members, Encode(name) + r, cs) == Find(members, name, cs)
  {
    if members != [] {
      MatchEncoded(members[0].name, name, r, cs);
      FindTokenEncoded(members[1..], name, r, cs);
    }
  }

  // ----- array indices -----

  const SizeMax: nat := 0x1_0000_0000_0000_0000

  /**
   * The digit loop of decode_array_index_from_pointer. Its upper bound tests the first byte of the token
   * instead of the current one, and the sum wraps at 64 bits.
   */
  function ReadIndex(p: CString, position: nat, parsed: nat): (nat, nat)
    decreases |p| - position
  {
    if position < |p| && p[position] >= DIGIT0 && p[0] <= DIGIT9 then
      ReadIndex(p, position + 1, (10 * parsed + (p[position] as int - DIGIT0 as int)) % SizeMax)
    else (position, parsed)
  }

  function DecodeIndex(p: CString): Option<nat> {
    if Is(p, 0, DIGIT0) && At(p, 1) != 0 && !Is(p, 1, SLASH) then None
    else
      var (position, index) := ReadIndex(p, 0, 0);
      if At(p, position) != 0 && !Is(p, position, SLASH) then None else Some(index)
  }

  /** `%lu` of a 64-bit unsigned number. */
  function Decimal(n: nat): (r: CString)
    ensures r != []
    ensures forall i :: 0 <= i < |r| ==> DIGIT0 <= r[i] <= DIGIT9
    ensures r[0] == DIGIT0 ==> n == 0 && |r| == 1
  {
    if n < 10 then [(48 + n) as CChar] else Decimal(n / 10) + [(48 + n % 10) as CChar]
  }

  /** What the digit loop makes of a token, before it wraps: any byte from '0' on counts as a digit. */
  function IndexValue(t: CString): nat
    requires forall i :: 0 <= i < |t| ==> t[i] >= DIGIT0
  {
    if t == [] then 0 else 10 * IndexValue(t[..|t| - 1]) + (t[|t| - 1] as int - DIGIT0 as int)
  }

  /** The tokens the decoder takes for an index: nothing at all, or a digit and then no byte below '0'. */
  predicate IndexAccepted(t: CString) {
    t == [] || (DIGIT0 <= t[0] <= DIGIT9 && (t[0] == DIGIT0 ==> |t| == 1)
                && forall i :: 0 <= i < |t| ==> t[i] >= DIGIT0)
  }

  /** The array indices of section 4 of RFC 6901: digits without leading zeros. */
  predicate RfcIndexText(t: CString) {
    t != [] && (t[0] == DIGIT0 ==> |t| == 1) && forall i :: 0 <= i < |t| ==> DIGIT0 <= t[i] <= DIGIT9
  }

  function RfcIndex(t: CString): Option<nat> {
    if RfcIndexText(t) then Some(IndexValue(t)) else None
  }

  lemma ModStep(v: nat, d: nat)
    ensures (10 * (v % SizeMax) + d) % SizeMax == (10 * v + d) % SizeMax
  {
    var q := v / SizeMax;
    assert 10 * v + d == 10 * (v % SizeMax) + d + SizeMax * (10 * q);
    ModMultiple(10 * (v % SizeMax) + d, 10 * q);
  }

  lemma {:induction false} ModMultiple(x: nat, k: nat)
    ensures (x + SizeMax * k) % SizeMax == x % SizeMax
    decreases k
  {
    if k > 0 { ModMultiple(x, k - 1); }
  }

  /** The loop over the first `k` bytes. */
  lemma {:induction false} ReadPrefix(p: CString, k: nat)
    requires k <= |p| && (k > 0 ==> p[0] <= DIGIT9) && forall i :: 0 <= i < k ==> p[i] >= DIGIT0
    ensures ReadIndex(p, 0, 0) == ReadIndex(p, k, IndexValue(p[..k]) % SizeMax)
    decreases k
  {
    if k > 0 {
      ReadPrefix(p, k - 1);
      assert p[..k][..k - 1] == p[..k - 1];
      ModStep(IndexValue(p[..k - 1]), p[k - 1] as int - DIGIT0 as int);
    }
  }

  /** The first byte of a token at which the loop stops. */
  lemma FirstBelow(t: CString) returns (k: nat)
    ensures k <= |t| && (forall i :: 0 <= i < k ==> t[i] >= DIGIT0) && (k < |t| ==> t[k] < DIGIT0)
  {
    k := 0;
    while k < |t| && t[k] >= DIGIT0
      invariant k <= |t| && forall i :: 0 <= i < k ==> t[i] >= DIGIT0
    {
      k := k + 1;
    }
  }

  /** What the decoder answers for every token, well formed or not. */
  lemma DecodeIndexIs(t: CString, r: CString)
    requires SLASH !in t && TokenEnd(r)
    ensures DecodeIndex(t + r) == if IndexAccepted(t) then Some(IndexValue(t) % SizeMax) else None
  {
    var p := t + r;
    var k := FirstBelow(t);
    assert forall i :: 0 <= i < |t| ==> p[i] == t[i];
    assert forall i :: |t| <= i ==> At(p, i) == At(r, i - |t|);
    if t == [] {
      assert p == r;
    } else if t[0] > DIGIT9 || (t[0] == DIGIT0 && |t| > 1) {
    } else {
      ReadPrefix(p, k);
      assert p[..k] == t[..k];
      if k == |t| { assert t[..k] == t; }
    }
  }

  /** The decoder takes exactly the accepted tokens for an index. */
  lemma IndexAcceptedExactly(t: CString, r: CString)
    requires SLASH !in t && TokenEnd(r)
    ensures DecodeIndex(t + r).Some? <==> IndexAccepted(t)
  {
    DecodeIndexIs(t, r);
  }

  /**
   * It follows the standard if and only if the token is an index below 2^64, or is no index and the decoder
   * refuses it as well.
   */
  lemma IndexFollowsRfc(t: CString, r: CString)
    requires SLASH !in t && TokenEnd(r)
    ensures DecodeIndex(t + r) == RfcIndex(t)
         <==> if RfcIndexText(t) then IndexValue(t) < SizeMax else !IndexAccepted(t)
  {
    DecodeIndexIs(t, r);
  }

  /** A letter behind a digit counts as a digit, and nothing at all counts as 0. */
  lemma MalformedIndices(items: seq<Json>, cs: bool)
    ensures DecodeIndex([DIGIT1, Ascii('a')]) == Some(59) && RfcIndex([DIGIT1, Ascii('a')]) == None
    ensures DecodeIndex([]) == Some(0) && RfcIndex([]) == None
    ensures |items| > 59 ==> Item(Array(items), [SLASH, DIGIT1, Ascii('a')], cs) == Some(items[59])
    ensures items != [] ==> Item(Array(items), [SLASH], cs) == Some(items[0])
  {
    var t := [DIGIT1, Ascii('a')];
    assert t[..1] == [DIGIT1] && IndexValue(t[..1]) == 1 && IndexValue(t) == 59;
    DecodeIndexIs(t, []);
    assert t + [] == t;
    DecodeIndexIs([], []);
    assert [SLASH] + t == [SLASH, DIGIT1, Ascii('a')] && Rest(t) == [] && [SLASH] + [] == [SLASH];
    if |items| > 59 { PickItem(items, t, 59, cs); }
    if items != [] { PickItem(items, [], 0, cs); }
  }

  lemma PickItem(items: seq<Json>, q: CString, i: nat, cs: bool)
    requires i < |items| && DecodeIndex(q) == Some(i) && Rest(q) == []
    ensures Item(Array(items), [SLASH] + q, cs) == Some(items[i])
  {
    assert ([SLASH] + q)[1..] == q;
    assert Locate(items[i], [], cs) == Some([]);
    assert [i] + [] == [i] && [i][1..] == [];
    assert Sub(Array(items), [i]) == Sub(items[i], []);
  }

  lemma {:induction false} DecimalValue(n: nat)
    ensures IndexValue(Decimal(n)) == n
    decreases n
  {
    var d := Decimal(n);
    if n >= 10 {
      DecimalValue(n / 10);
      assert d[..|d| - 1] == Decimal(n / 10);
    } else {
      assert d[..0] == [];
    }
  }

  /** The index decoder inverts `%lu` up to the width of `size_t`, whatever token follows. */
  lemma DecodeDecimal(n: nat, r: CString)
    requires TokenEnd(r)
    ensures DecodeIndex(Decimal(n) + r) == Some(n % SizeMax)
  {
    DecimalNoSlash(n);
    DecodeIndexIs(Decimal(n), r);
    DecimalValue(n);
  }

  /** Every index a list in memory can have is read back. */
  lemma DecodeSmall(n: nat, r: CString)
    requires n < SizeMax && TokenEnd(r)
    ensures DecodeIndex(Decimal(n) + r) == Some(n)
  {
    DecodeDecimal(n, r);
    BelowModulus(n);
  }

  lemma BelowModulus(n: nat)
    requires n < SizeMax
    ensures n % SizeMax == n
  {
  }

  lemma DecimalNoSlash(n: nat)
    ensures SLASH !in Decimal(n)
  {
  }

  // ----- the walk -----

  /**
   * get_item_from_pointer: the position it stops at. Text that does not start with a slash selects the
   * current element, as in the code.
   */
  function Locate(t: Json, p: CString, cs: bool): (r: Option<Location>)
    ensures r.Some? ==> ValidLocation(t, r.value)
    decreases |p|
  {
    if !Is(p, 0, SLASH) then Some([])
    else
      var q := p[1..];
      match t
      case Array(items) =>
        var index := DecodeIndex(q);
        if index.None? || index.value >= |items| then None
        else Below(index.value, Locate(items[index.value], Rest(q), cs))
      case Object(members) =>
        var i := FindToken(members, q, cs);
        if i == |members| then None
        else Below(i, Locate(members[i].value, Rest(q), cs))
      case _ => None
  }

  function Below(i: nat, r: Option<Location>): Option<Location> {
    if r.Some? then Some([i] + r.value) else None
  }

  /** The while loop over the pointer text computes `Locate`. */
  method GetItemFromPointer(root: Json, pointer: CString, cs: bool) returns (r: Option<Json>)
    ensures r == Item(root, pointer, cs)
  {
    var current: Json, p: CString := root, pointer;
    while Is(p, 0, SLASH)
      invariant Item(current, p, cs) == Item(root, pointer, cs)
      decreases |p|
    {
      p := p[1..];
      match current {
        case Array(items) =>
          var index := DecodeArrayIndex(p);
          if index.None? || index.value >= |items| {
            return None;
          }
          current := items[index.value];
        case Object(members) =>
          var i := MemberForToken(members, p, cs);
          if i == |members| {
            return None;
          }
          current := members[i].value;
        case _ =>
          return None;
      }
      p := SkipToken(p);
    }
    r := Some(current);
  }

  /** The node get_item_from_pointer returns. */
  function Item(root: Json, pointer: CString, cs: bool): Option<Json> {
    var loc := Locate(root, pointer, cs);
    if loc.Some? then Some(Sub(root, loc.value)) else None
  }

  method MemberForToken(members: seq<Member>, p: CString, cs: bool) returns (i: nat)
    ensures i == FindToken(members, p, cs)
  {
    i := 0;
    while i < |members| && !MatchToken(members[i].name, p, cs)
      invariant 0 <= i <= FindToken(members, p, cs)
    {
      i := i + 1;
    }
  }

  method SkipToken(p: CString) returns (r: CString)
    ensures r == Rest(p)
  {
    r := p;
    while At(r, 0) != 0 && !Is(r, 0, SLASH)
      invariant Rest(r) == Rest(p)
      decreases |r|
    {
      r := r[1..];
    }
  }

  method DecodeArrayIndex(p: CString) returns (r: Option<nat>)
    ensures r == DecodeIndex(p)
    ensures r == var t := FirstToken(p); if IndexAccepted(t) then Some(IndexValue(t) % SizeMax) else None
  {
    FirstTokenAlone(p);
    DecodeIndexIs(FirstToken(p), Rest(p));
    if Is(p, 0, DIGIT0) && At(p, 1) != 0 && !Is(p, 1, SLASH) {
      return None;
    }
    var position, parsed := 0, 0;
    while At(p, position) >= DIGIT0 as int && At(p, 0) <= DIGIT9 as int
      invariant 0 <= position <= |p| && 0 <= parsed
      invariant ReadIndex(p, position, parsed) == ReadIndex(p, 0, 0)
      decreases |p| - position
    {
      parsed := (10 * parsed + (p[position] as int - DIGIT0 as int)) % SizeMax;
      position := position + 1;
    }
    if At(p, position) != 0 && !Is(p, position, SLASH) {
      return None;
    }
    r := Some(parsed);
  }

  // ----- cJSONUtils_FindPointerFromObjectTo -----

  /** The recursive search for `target`, which is known by its position in the whole tree. */
  function FindPointer(t: Json, here: Location, target: Location): Option<CString>
    decreases t, 1, 0
  {
    if here == target then Some([]) else FindPointerInChildren(t, here, target, 0)
  }

  function FindPointerInChildren(t: Json, here: Location, target: Location, i: nat): Option<CString>
    decreases t, 0, ChildCount(t) - i
  {
    if i >= ChildCount(t) then None
    else match t
      case Array(items) =>
        (match FindPointer(items[i], here + [i], target)
         case Some(p) => Some([SLASH] + Decimal(i) + p)
         case None => FindPointerInChildren(t, here, target, i + 1))
      case Object(members) =>
        (match FindPointer(members[i].value, here + [i], target)
         case Some(p) => Some([SLASH] + Encode(members[i].name) + p)
         case None => FindPointerInChildren(t, here, target, i + 1))
  }

  function ChildCount(t: Json): nat {
    match t
    case Array(items) => |items|
    case Object(members) => |members|
    case _ => 0
  }

  /** The search never takes a wrong subtree. */
  lemma {:induction false} FindPointerElsewhere(t: Json, here: Location, target: Location)
    requires !(here <= target)
    ensures FindPointer(t, here, target) == None
    decreases t, 1, 0
  {
    FindChildrenElsewhere(t, here, target, 0);
  }

  lemma NotUnder(here: Location, i: nat, target: Location)
    requires !(here <= target) || (here < target && i != target[|here|])
    ensures !(here + [i] <= target)
  {
    var under := here + [i];
    assert under[|here|] == i;
    assert here == under[..|here|];
  }

  lemma {:induction false} FindChildrenElsewhere(t: Json, here: Location, target: Location, i: nat)
    requires !(here <= target) || (here < target && i > target[|here|])
    ensures FindPointerInChildren(t, here, target, i) == None
    decreases t, 0, ChildCount(t) - i
  {
    if i < ChildCount(t) {
      NotUnder(here, i, target);
      match t
      case Array(items) =>
        FindPointerElsewhere(items[i], here + [i], target);
        FindChildrenElsewhere(t, here, target, i + 1);
      case Object(members) =>
        FindPointerElsewhere(members[i].value, here + [i], target);
        FindChildrenElsewhere(t, here, target, i + 1);
    }
  }

  /** Looking up the pointer the search builds leads back to the node searched for. */
  lemma {:induction false} PointerRoundTrip(t: Json, here: Location, loc: Location, cs: bool)
    requires ValidLocation(t, loc) && Distinct(t, cs) && Countable(t)
    ensures var p := FindPointer(t, here, here + loc);
      p.Some? && TokenEnd(p.value) && Locate(t, p.value, cs) == Some(loc)
    decreases t, 1, 0
  {
    if loc == [] {
      assert here + loc == here;
    } else {
      assert here + loc != here;
      ChildRoundTrip(t, here, loc, 0, cs);
    }
  }

  lemma {:induction false} ChildRoundTrip(t: Json, here: Location, loc: Location, i: nat, cs: bool)
    requires loc != [] && ValidLocation(t, loc) && Distinct(t, cs) && Countable(t)
    requires i <= loc[0]
    ensures var p := FindPointerInChildren(t, here, here + loc, i);
      p.Some? && TokenEnd(p.value) && Locate(t, p.value, cs) == Some(loc)
    decreases t, 0, ChildCount(t) - i
  {
    var target := here + loc;
    assert target[|here|] == loc[0];
    if i < loc[0] {
      NotUnder(here, i, target);
      match t {
        case Array(items) => FindPointerElsewhere(items[i], here + [i], target);
        case Object(members) => FindPointerElsewhere(members[i].value, here + [i], target);
      }
      ChildRoundTrip(t, here, loc, i + 1, cs);
    } else {
      assert target == (here + [i]) + loc[1..];
      assert [i] + loc[1..] == loc;
      match t {
        case Array(items) =>
          PointerRoundTrip(items[i], here + [i], loc[1..], cs);
          LocateItem(items, i, FindPointer(items[i], here + [i], target).value, cs);
        case Object(members) =>
          PointerRoundTrip(members[i].value, here + [i], loc[1..], cs);
          FindIs(members, members[i].name, cs, i);
          LocateMember(members, members[i].name, FindPointer(members[i].value, here + [i], target).value, cs);
      }
    }
  }

  /** The walk takes the array element the token counts. */
  lemma LocateItem(items: seq<Json>, i: nat, p: CString, cs: bool)
    requires i < SizeMax && TokenEnd(p)
    ensures Locate(Array(items), [SLASH] + Decimal(i) + p, cs)
         == if i < |items| then Below(i, Locate(items[i], p, cs)) else None
  {
    DecodeSmall(i, p);
    DecimalNoSlash(i);
    RestAfterToken(Decimal(i), p);
    assert ([SLASH] + Decimal(i) + p)[1..] == Decimal(i) + p;
  }

  /** The walk takes the member the token names. */
  lemma LocateMember(members: seq<Member>, name: CString, p: CString, cs: bool)
    requires TokenEnd(p)
    ensures var i := Find(members, name, cs);
      Locate(Object(members), [SLASH] + Encode(name) + p, cs)
         == if i < |members| then Below(i, Locate(members[i].value, p, cs)) else None
  {
    EncodeNoSlash(name);
    RestAfterToken(Encode(name), p);
    FindTokenEncoded(members, name, p, cs);
    Behind([SLASH], Encode(name), p);
  }

  /** Every node of a tree with distinct names is found again by its own pointer. */
  lemma FindThenGet(t: Json, loc: Location, cs: bool)
    requires ValidLocation(t, loc) && Distinct(t, cs) && Countable(t)
    ensures FindPointer(t, [], loc).Some?
    ensures Locate(t, FindPointer(t, [], loc).value, cs) == Some(loc)
  {
    PointerRoundTrip(t, [], loc, cs);
    assert [] + loc == loc;
  }
}
