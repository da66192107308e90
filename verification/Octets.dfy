// Bytes, shared by the components that work on them.
module Octets {
  newtype Byte = b: int | 0 <= b <= 255

  type Bytes = seq<Byte>

  /** A byte is its word's number: sixteen cases, one for each upper half. */
  lemma ByteBack(b: int)
    requires 0 <= b < 256
    ensures b as bv8 as int == b
  {
    var h := b / 16;
    if h < 4 {
      if h == 0 {} else if h == 1 {} else if h == 2 {} else {}
    } else if h < 8 {
      if h == 4 {} else if h == 5 {} else if h == 6 {} else {}
    } else if h < 12 {
      if h == 8 {} else if h == 9 {} else if h == 10 {} else {}
    } else {
      if h == 12 {} else if h == 13 {} else if h == 14 {} else {}
    }
  }

  /** Different bytes are different words. */
  lemma DifferentBytes(a: Byte, b: Byte)
    requires a != b
    ensures a as bv8 != b as bv8
  {
    ByteBack(a as int);
    ByteBack(b as int);
  }

  /** `text` stands in the content at `o`. */
  predicate TextAt(c: Bytes, o: nat, text: Bytes) {
    o + |text| <= |c| && forall i {:trigger text[i]} :: 0 <= i < |text| ==> c[o + i] == text[i]
  }

  lemma TextInTwo(c: Bytes, o: nat, a: Bytes, b: Bytes)
    requires TextAt(c, o, a + b)
    ensures TextAt(c, o, a) && TextAt(c, o + |a|, b)
  {
    forall i | 0 <= i < |a| ensures c[o + i] == a[i] { assert (a + b)[i] == a[i]; }
    forall i | 0 <= i < |b| ensures c[o + |a| + i] == b[i] { assert (a + b)[|a| + i] == b[i]; }
  }

  lemma TextJoined(c: Bytes, o: nat, a: Bytes, b: Bytes)
    requires TextAt(c, o, a) && TextAt(c, o + |a|, b)
    ensures TextAt(c, o, a + b)
  {
    forall i | 0 <= i < |a + b| ensures c[o + i] == (a + b)[i] {
      if i < |a| {
        assert c[o + i] == a[i];
      } else {
        assert c[o + |a| + (i - |a|)] == b[i - |a|];
      }
    }
  }
}
