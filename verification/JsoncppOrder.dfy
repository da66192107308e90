// The order jsoncpp puts on values, and its equality.
module JsoncppOrder {
  import opened Wrappers
  import opened Octets

  /** The map key of an array element or of an object member. */
  datatype Key = Index(n: nat) | Name(bytes: Bytes)

  /** Values without reals; a string value may have no string at all. */
  datatype Value =
    | Null
    | Int(i: int)
    | UInt(u: nat)
    | Text(text: Option<Bytes>)
    | Bool(b: bool)
    | Array(entries: seq<Entry>)
    | Object(entries: seq<Entry>)

  datatype Entry = Entry(key: Key, value: Value)

  /** The value of `ValueType`; 3 is realValue. */
  function TypeOf(v: Value): nat {
    match v
    case Null => 0
    case Int(_) => 1
    case UInt(_) => 2
    case Text(_) => 4
    case Bool(_) => 5
    case Array(_) => 6
    case Object(_) => 7
  }

  // ----- bytes -----

  function Min(a: nat, b: nat): nat {
    if a < b then a else b
  }

  /** memcmp of `n` bytes, which compares them as unsigned. */
  function MemCmp(a: Bytes, b: Bytes, n: nat): int
    requires n <= |a| && n <= |b|
    decreases n
  {
    if n == 0 then 0
    else if a[0] != b[0] then a[0] as int - b[0] as int
    else MemCmp(a[1..], b[1..], n - 1)
  }

  /** The string part of operator< and of CZString's. */
  predicate BytesLess(a: Bytes, b: Bytes) {
    var comp := MemCmp(a, b, Min(|a|, |b|));
    if comp < 0 then true else if comp > 0 then false else |a| < |b|
  }

  predicate BytesEqual(a: Bytes, b: Bytes) {
    |a| == |b| && MemCmp(a, b, |a|) == 0
  }

  lemma {:induction false} BytesStep(a: Bytes, b: Bytes)
    ensures BytesLess(a, b) ==
      if b == [] then false else if a == [] then true
      else if a[0] != b[0] then a[0] < b[0]
      else BytesLess(a[1..], b[1..])
  {
    if a != [] && b != [] && a[0] == b[0] {
      assert Min(|a|, |b|) == Min(|a[1..]|, |b[1..]|) + 1;
    }
  }

  lemma {:induction false} BytesTotal(a: Bytes, b: Bytes)
    ensures !(BytesLess(a, b) && BytesLess(b, a))
    ensures a == b <==> !BytesLess(a, b) && !BytesLess(b, a)
    decreases |a|
  {
    BytesStep(a, b);
    BytesStep(b, a);
    if a != [] && b != [] && a[0] == b[0] {
      BytesTotal(a[1..], b[1..]);
      assert a == [a[0]] + a[1..] && b == [b[0]] + b[1..];
    }
  }

  lemma {:induction false} BytesTransitive(a: Bytes, b: Bytes, c: Bytes)
    requires BytesLess(a, b) && BytesLess(b, c)
    ensures BytesLess(a, c)
    decreases |a|
  {
    BytesStep(a, b);
    BytesStep(b, c);
    BytesStep(a, c);
    if a != [] && a[0] == b[0] == c[0] {
      BytesTransitive(a[1..], b[1..], c[1..]);
    }
  }

  lemma {:induction false} BytesEqualIs(a: Bytes, b: Bytes)
    ensures BytesEqual(a, b) <==> a == b
    decreases |a|
  {
    if a != [] && |a| == |b| {
      BytesEqualIs(a[1..], b[1..]);
      assert a == [a[0]] + a[1..] && b == [b[0]] + b[1..];
    }
  }

  // ----- keys -----

  /** CZString::operator<. The keys of one map are all indices or all names. */
  predicate KeyLess(a: Key, b: Key) {
    match (a, b)
    case (Index(m), Index(n)) => m < n
    case (Name(x), Name(y)) => BytesLess(x, y)
    case (Index(_), Name(_)) => true
    case (Name(_), Index(_)) => false
  }

  predicate KeyEqual(a: Key, b: Key) {
    match (a, b)
    case (Index(m), Index(n)) => m == n
    case (Name(x), Name(y)) => BytesEqual(x, y)
    case _ => false
  }

  lemma KeyTotal(a: Key, b: Key)
    ensures !(KeyLess(a, b) && KeyLess(b, a))
    ensures a == b <==> !KeyLess(a, b) && !KeyLess(b, a)
    ensures KeyEqual(a, b) <==> a == b
  {
    if a.Name? && b.Name? {
      BytesTotal(a.bytes, b.bytes);
      BytesEqualIs(a.bytes, b.bytes);
    }
  }

  lemma KeyTransitive(a: Key, b: Key, c: Key)
    requires KeyLess(a, b) && KeyLess(b, c)
    ensures KeyLess(a, c)
  {
    if a.Name? && b.Name? && c.Name? {
      BytesTransitive(a.bytes, b.bytes, c.bytes);
    }
  }

  // ----- values -----

  function Size(v: Value): nat
    decreases v, 1
  {
    match v
    case Array(es) => 1 + SizeAll(v, es)
    case Object(es) => 1 + SizeAll(v, es)
    case _ => 1
  }

  function SizeAll(ghost whole: Value, es: seq<Entry>): nat
    requires forall i :: 0 <= i < |es| ==> es[i].value < whole
    decreases whole, 0, |es|
  {
    if es == [] then 0 else 1 + Size(es[0].value) + SizeAll(whole, es[1..])
  }

  /** Value::operator<. */
  predicate Less(a: Value, b: Value)
    decreases Size(a) + Size(b), 1
  {
    if TypeOf(a) != TypeOf(b) then TypeOf(a) < TypeOf(b)
    else
      match a
      case Null => false
      case Int(i) => i < b.i
      case UInt(u) => u < b.u
      case Bool(x) => !x && b.b
      case Text(t) =>
        if t.None? || b.text.None? then b.text.Some? else BytesLess(t.value, b.text.value)
      case Array(es) => if |es| != |b.entries| then |es| < |b.entries| else EntriesLess(a, b, es, b.entries)
      case Object(es) => if |es| != |b.entries| then |es| < |b.entries| else EntriesLess(a, b, es, b.entries)
  }

  /** std::map's lexicographical comparison of pairs. */
  predicate EntriesLess(ghost a: Value, ghost b: Value, x: seq<Entry>, y: seq<Entry>)
    requires forall i :: 0 <= i < |x| ==> x[i].value < a
    requires forall i :: 0 <= i < |y| ==> y[i].value < b
    requires SizeAll(a, x) < Size(a) && SizeAll(b, y) < Size(b)
    decreases Size(a) + Size(b), 0, |x|
  {
    if y == [] then false
    else if x == [] then true
    else if PairLess(x[0], y[0]) then true
    else if PairLess(y[0], x[0]) then false
    else EntriesLess(a, b, x[1..], y[1..])
  }

  /** std::pair's operator<. */
  predicate PairLess(p: Entry, q: Entry)
    decreases Size(p.value) + Size(q.value), 2
  {
    KeyLess(p.key, q.key) || (!KeyLess(q.key, p.key) && Less(p.value, q.value))
  }

  /** Value::operator==. */
  predicate Equal(a: Value, b: Value)
    decreases a, 1
  {
    TypeOf(a) == TypeOf(b)
    && match a
       case Null => true
       case Int(i) => i == b.i
       case UInt(u) => u == b.u
       case Bool(x) => x == b.b
       case Text(t) => if t.None? || b.text.None? then t.None? && b.text.None? else BytesEqual(t.value, b.text.value)
       case Array(es) => |es| == |b.entries| && EntriesEqual(a, es, b.entries)
       case Object(es) => |es| == |b.entries| && EntriesEqual(a, es, b.entries)
  }

  predicate EntriesEqual(ghost a: Value, x: seq<Entry>, y: seq<Entry>)
    requires |x| == |y| && forall i :: 0 <= i < |x| ==> x[i].value < a
    decreases a, 0, |x|
  {
    x == [] || (KeyEqual(x[0].key, y[0].key) && Equal(x[0].value, y[0].value) && EntriesEqual(a, x[1..], y[1..]))
  }

  /** Value::compare. */
  function Compare(a: Value, b: Value): int {
    if Less(a, b) then -1 else if Less(b, a) then 1 else 0
  }

  // ----- a strict total order -----

  /** Of two values exactly one is true: less, the same, or greater. */
  lemma {:induction false} Total(a: Value, b: Value)
    ensures !(Less(a, b) && Less(b, a))
    ensures a == b <==> !Less(a, b) && !Less(b, a)
    decreases Size(a) + Size(b), 1
  {
    if TypeOf(a) == TypeOf(b) {
      match a {
        case Text(t) =>
          if t.Some? && b.text.Some? { BytesTotal(t.value, b.text.value); }
        case Array(es) =>
          if |es| == |b.entries| { EntriesTotal(a, b, es, b.entries); }
        case Object(es) =>
          if |es| == |b.entries| { EntriesTotal(a, b, es, b.entries); }
        case _ =>
      }
    }
  }

  lemma {:induction false} EntriesTotal(a: Value, b: Value, x: seq<Entry>, y: seq<Entry>)
    requires |x| == |y|
    requires forall i :: 0 <= i < |x| ==> x[i].value < a
    requires forall i :: 0 <= i < |y| ==> y[i].value < b
    requires SizeAll(a, x) < Size(a) && SizeAll(b, y) < Size(b)
    ensures !(EntriesLess(a, b, x, y) && EntriesLess(b, a, y, x))
    ensures x == y <==> !EntriesLess(a, b, x, y) && !EntriesLess(b, a, y, x)
    decreases Size(a) + Size(b), 0, |x|
  {
    if x != [] {
      PairTotal(x[0], y[0]);
      EntriesTotal(a, b, x[1..], y[1..]);
      assert x == [x[0]] + x[1..] && y == [y[0]] + y[1..];
    }
  }

  lemma {:induction false} PairTotal(p: Entry, q: Entry)
    ensures !(PairLess(p, q) && PairLess(q, p))
    ensures p == q <==> !PairLess(p, q) && !PairLess(q, p)
    decreases Size(p.value) + Size(q.value), 2
  {
    KeyTotal(p.key, q.key);
    Total(p.value, q.value);
  }

  lemma {:induction false} Transitive(a: Value, b: Value, c: Value)
    requires Less(a, b) && Less(b, c)
    ensures Less(a, c)
    decreases Size(a) + Size(b) + Size(c), 1
  {
    if TypeOf(a) == TypeOf(b) == TypeOf(c) {
      match a {
        case Text(t) =>
          if t.Some? && b.text.Some? && c.text.Some? { BytesTransitive(t.value, b.text.value, c.text.value); }
        case Array(es) =>
          if |es| == |b.entries| == |c.entries| { EntriesTransitive(a, b, c, es, b.entries, c.entries); }
        case Object(es) =>
          if |es| == |b.entries| == |c.entries| { EntriesTransitive(a, b, c, es, b.entries, c.entries); }
        case _ =>
      }
    }
  }

  lemma {:induction false} EntriesTransitive(a: Value, b: Value, c: Value, x: seq<Entry>, y: seq<Entry>, z: seq<Entry>)
    requires |x| == |y| == |z|
    requires forall i :: 0 <= i < |x| ==> x[i].value < a
    requires forall i :: 0 <= i < |y| ==> y[i].value < b
    requires forall i :: 0 <= i < |z| ==> z[i].value < c
    requires SizeAll(a, x) < Size(a) && SizeAll(b, y) < Size(b) && SizeAll(c, z) < Size(c)
    requires EntriesLess(a, b, x, y) && EntriesLess(b, c, y, z)
    ensures EntriesLess(a, c, x, z)
    decreases Size(a) + Size(b) + Size(c), 0, |x|
  {
    PairTotal(x[0], y[0]);
    PairTotal(y[0], z[0]);
    PairTotal(x[0], z[0]);
    if PairLess(x[0], y[0]) && PairLess(y[0], z[0]) {
      PairTransitive(x[0], y[0], z[0]);
    } else if x[0] == y[0] == z[0] {
      EntriesTransitive(a, b, c, x[1..], y[1..], z[1..]);
    }
  }

  lemma {:induction false} PairTransitive(p: Entry, q: Entry, r: Entry)
    requires PairLess(p, q) && PairLess(q, r)
    ensures PairLess(p, r)
    decreases Size(p.value) + Size(q.value) + Size(r.value), 2
  {
    KeyTotal(p.key, q.key);
    KeyTotal(q.key, r.key);
    if KeyLess(p.key, q.key) && KeyLess(q.key, r.key) {
      KeyTransitive(p.key, q.key, r.key);
    } else if p.key == q.key == r.key {
      Transitive(p.value, q.value, r.value);
    }
  }

  // ----- which order it is -----

  /** Values of different types: null, then signed, unsigned, string, bool, array, object. */
  lemma TypesInOrder(a: Value, b: Value)
    ensures a.Null? ==> (Less(a, b) <==> !b.Null?)
    ensures a.Int? && !b.Int? ==> (Less(a, b) <==> !b.Null?)
    ensures a.UInt? && !b.UInt? ==> (Less(a, b) <==> !b.Null? && !b.Int?)
    ensures a.Text? && !b.Text? ==> (Less(a, b) <==> b.Bool? || b.Array? || b.Object?)
    ensures a.Bool? && !b.Bool? ==> (Less(a, b) <==> b.Array? || b.Object?)
    ensures a.Array? && !b.Array? ==> (Less(a, b) <==> b.Object?)
    ensures a.Object? && !b.Object? ==> !Less(a, b)
  {
  }

  /** The two sequences agree before place `k` and differ there. */
  predicate DifferAt<T(==)>(a: seq<T>, b: seq<T>, k: nat) {
    k < |a| && k < |b| && a[..k] == b[..k] && a[k] != b[k]
  }

  /** Sequences with the same head differ one place later than their tails. */
  lemma DifferLater<T>(a: seq<T>, b: seq<T>, k: nat)
    requires a != [] && b != [] && a[0] == b[0]
    ensures DifferAt(a[1..], b[1..], k) <==> DifferAt(a, b, k + 1)
    ensures !DifferAt(a, b, 0)
  {
    if k + 1 <= |a| && k + 1 <= |b| {
      assert a[..k + 1] == [a[0]] + a[1..][..k] && b[..k + 1] == [b[0]] + b[1..][..k];
      assert a[..k + 1][1..] == a[1..][..k] && b[..k + 1][1..] == b[1..][..k];
    }
  }

  /** Strings: a proper beginning comes first, else the first different byte decides. */
  ghost predicate StringBefore(a: Bytes, b: Bytes) {
    a < b || exists k: nat :: DifferAt(a, b, k) && a[k] < b[k]
  }

  lemma {:induction false} StringsInOrder(a: Bytes, b: Bytes)
    ensures BytesLess(a, b) <==> StringBefore(a, b)
    decreases |a|
  {
    BytesStep(a, b);
    if a != [] && b != [] {
      if a[0] != b[0] {
        assert DifferAt(a, b, 0);
      } else {
        StringsInOrder(a[1..], b[1..]);
        StringsBelowHead(a, b);
      }
    }
  }

  lemma StringsBelowHead(a: Bytes, b: Bytes)
    requires a != [] && b != [] && a[0] == b[0]
    ensures StringBefore(a, b) <==> StringBefore(a[1..], b[1..])
  {
    assert a == [a[0]] + a[1..] && b == [b[0]] + b[1..];
    if StringBefore(a[1..], b[1..]) && !(a[1..] < b[1..]) {
      var k: nat :| DifferAt(a[1..], b[1..], k) && a[1..][k] < b[1..][k];
      DifferLater(a, b, k);
      assert DifferAt(a, b, k + 1) && a[k + 1] < b[k + 1];
    }
    if StringBefore(a, b) && !(a < b) {
      var k: nat :| DifferAt(a, b, k) && a[k] < b[k];
      DifferLater(a, b, 0);
      DifferLater(a, b, k - 1);
      assert DifferAt(a[1..], b[1..], k - 1) && a[1..][k - 1] < b[1..][k - 1];
    }
  }

  /** Map keys: indices by number, names as strings. */
  lemma KeysInOrder(a: Key, b: Key)
    ensures a.Index? && b.Index? ==> (KeyLess(a, b) <==> a.n < b.n)
    ensures a.Name? && b.Name? ==> (KeyLess(a, b) <==> StringBefore(a.bytes, b.bytes))
  {
    if a.Name? && b.Name? { StringsInOrder(a.bytes, b.bytes); }
  }

  /** Entries: the key decides, and the value only where the keys are equal. */
  predicate EntryBefore(p: Entry, q: Entry) {
    KeyLess(p.key, q.key) || (p.key == q.key && Less(p.value, q.value))
  }

  /** Entry lists of one length: the first different entry decides. */
  ghost predicate EntriesBefore(x: seq<Entry>, y: seq<Entry>) {
    exists k: nat :: DifferAt(x, y, k) && EntryBefore(x[k], y[k])
  }

  lemma EntryInOrder(p: Entry, q: Entry)
    ensures PairLess(p, q) <==> EntryBefore(p, q)
  {
    KeyTotal(p.key, q.key);
  }

  lemma {:induction false} EntriesInOrder(a: Value, b: Value, x: seq<Entry>, y: seq<Entry>)
    requires |x| == |y|
    requires forall i :: 0 <= i < |x| ==> x[i].value < a
    requires forall i :: 0 <= i < |y| ==> y[i].value < b
    requires SizeAll(a, x) < Size(a) && SizeAll(b, y) < Size(b)
    ensures EntriesLess(a, b, x, y) <==> EntriesBefore(x, y)
    decreases |x|
  {
    if x != [] {
      PairTotal(x[0], y[0]);
      EntryInOrder(x[0], y[0]);
      if x[0] != y[0] {
        HeadsDecide(x, y);
      } else {
        EntriesInOrder(a, b, x[1..], y[1..]);
        EntriesBelowHead(x, y);
      }
    }
  }

  lemma SameHeads(x: seq<Entry>, y: seq<Entry>, k: nat)
    requires DifferAt(x, y, k)
    ensures k > 0 ==> x[0] == y[0]
  {
    if k > 0 { assert x[..k][0] == x[0] && y[..k][0] == y[0]; }
  }

  lemma HeadsDecide(x: seq<Entry>, y: seq<Entry>)
    requires x != [] && y != [] && x[0] != y[0]
    ensures EntriesBefore(x, y) <==> EntryBefore(x[0], y[0])
  {
    assert DifferAt(x, y, 0);
    if EntriesBefore(x, y) {
      var k: nat :| DifferAt(x, y, k) && EntryBefore(x[k], y[k]);
      SameHeads(x, y, k);
    }
  }

  lemma EntriesBelowHead(x: seq<Entry>, y: seq<Entry>)
    requires x != [] && y != [] && x[0] == y[0]
    ensures EntriesBefore(x, y) <==> EntriesBefore(x[1..], y[1..])
  {
    if EntriesBefore(x[1..], y[1..]) {
      var k: nat :| DifferAt(x[1..], y[1..], k) && EntryBefore(x[1..][k], y[1..][k]);
      DifferLater(x, y, k);
      assert DifferAt(x, y, k + 1) && EntryBefore(x[k + 1], y[k + 1]);
    }
    if EntriesBefore(x, y) {
      var k: nat :| DifferAt(x, y, k) && EntryBefore(x[k], y[k]);
      DifferLater(x, y, 0);
      DifferLater(x, y, k - 1);
      assert DifferAt(x[1..], y[1..], k - 1) && EntryBefore(x[1..][k - 1], y[1..][k - 1]);
    }
  }

  /**
   * Within a type: numbers by value, false before true, a missing string first, strings as above, and
   * containers by size and then by their first different entry.
   */
  lemma ValuesInOrder(a: Value, b: Value)
    ensures a.Int? && b.Int? ==> (Less(a, b) <==> a.i < b.i)
    ensures a.UInt? && b.UInt? ==> (Less(a, b) <==> a.u < b.u)
    ensures a.Bool? && b.Bool? ==> (Less(a, b) <==> !a.b && b.b)
    ensures a.Text? && b.Text? ==>
      (Less(a, b) <==> b.text.Some? && (a.text.Some? ==> StringBefore(a.text.value, b.text.value)))
    ensures (a.Array? && b.Array?) || (a.Object? && b.Object?) ==>
      (Less(a, b) <==> |a.entries| < |b.entries| || (|a.entries| == |b.entries| && EntriesBefore(a.entries, b.entries)))
  {
    if a.Text? && b.Text? && a.text.Some? && b.text.Some? {
      StringsInOrder(a.text.value, b.text.value);
    }
    if ((a.Array? && b.Array?) || (a.Object? && b.Object?)) && |a.entries| == |b.entries| {
      EntriesInOrder(a, b, a.entries, b.entries);
    }
  }

  /** compare tells by its sign which of two values comes first. */
  lemma CompareSign(a: Value, b: Value)
    ensures Compare(a, b) == -1 <==> Less(a, b)
    ensures Compare(a, b) == 1 <==> Less(b, a)
  {
    Total(a, b);
  }

  // ----- equality -----

  /** operator== is equality of the values. */
  lemma {:induction false} EqualIs(a: Value, b: Value)
    ensures Equal(a, b) <==> a == b
    decreases a, 1
  {
    if TypeOf(a) == TypeOf(b) {
      match a {
        case Text(t) =>
          if t.Some? && b.text.Some? { BytesEqualIs(t.value, b.text.value); }
        case Array(es) =>
          if |es| == |b.entries| { EntriesEqualIs(a, es, b.entries); }
        case Object(es) =>
          if |es| == |b.entries| { EntriesEqualIs(a, es, b.entries); }
        case _ =>
      }
    }
  }

  lemma {:induction false} EntriesEqualIs(a: Value, x: seq<Entry>, y: seq<Entry>)
    requires |x| == |y| && forall i :: 0 <= i < |x| ==> x[i].value < a
    ensures EntriesEqual(a, x, y) <==> x == y
    decreases a, 0, |x|
  {
    if x != [] {
      KeyTotal(x[0].key, y[0].key);
      EqualIs(x[0].value, y[0].value);
      EntriesEqualIs(a, x[1..], y[1..]);
      assert x == [x[0]] + x[1..] && y == [y[0]] + y[1..];
    }
  }

  /** compare returns 0 exactly when operator== holds, and swapping its arguments changes the sign. */
  lemma CompareIsEqual(a: Value, b: Value)
    ensures Compare(a, b) == 0 <==> Equal(a, b)
    ensures Compare(b, a) == -Compare(a, b)
  {
    Total(a, b);
    EqualIs(a, b);
  }
}
