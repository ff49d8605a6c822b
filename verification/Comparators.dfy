/** The default comparator (util/comparator.cc) and the order of encoded internal keys (db/dbformat.cc). */
module Comparators {
  import opened Keys
  import opened Coding

  /** Where two strings first differ, or the shorter one ends. */
  function DiffIndex(a: Bytes, b: Bytes): (d: nat)
    ensures d <= |a| && d <= |b| && (forall i | 0 <= i < d :: a[i] == b[i]) && (d < |a| && d < |b| ==> a[d] != b[d])
  {
    if a == [] || b == [] || a[0] != b[0] then 0
    else
      var d := DiffIndex(a[1..], b[1..]);
      assert forall i | 0 < i < d + 1 :: a[1..][i - 1] == a[i] && b[1..][i - 1] == b[i];
      d + 1
  }

  /** Byte by byte, then by length. */
  predicate BytewiseLess(a: Bytes, b: Bytes) {
    var d := DiffIndex(a, b);
    if d < |a| && d < |b| then a[d] < b[d] else |a| < |b|
  }

  function Bytewise(): (Bytes, Bytes) -> bool {
    (a: Bytes, b: Bytes) => BytewiseLess(a, b)
  }

  lemma BytewiseTransitive(a: Bytes, b: Bytes, c: Bytes)
    requires BytewiseLess(a, b) && BytewiseLess(b, c)
    ensures BytewiseLess(a, c)
  {
    var d, e, f := DiffIndex(a, b), DiffIndex(b, c), DiffIndex(a, c);
    var m := if d < e then d else e;
    assert forall i | 0 <= i < m :: a[i] == c[i];
    assert m <= f;
  }

  lemma BytewiseIsTotal()
    ensures TotalOrder(Bytewise())
  {
    forall a: Bytes, b: Bytes, c: Bytes | BytewiseLess(a, b) && BytewiseLess(b, c) ensures BytewiseLess(a, c) {
      BytewiseTransitive(a, b, c);
    }
    forall a: Bytes, b: Bytes ensures BytewiseLess(a, b) || BytewiseLess(b, a) || a == b {
      var d, e := DiffIndex(a, b), DiffIndex(b, a);
      assert d == e;
      if d == |a| == |b| {
        assert a == b;
      }
    }
  }

  /** A string, if possible shorter, from `start` up to but not including `limit`. */
  function ShortestSeparator(start: Bytes, limit: Bytes): Bytes {
    var d := DiffIndex(start, limit);
    if d < |start| && d < |limit| && start[d] < 0xff && start[d] + 1 < limit[d] then start[..d] + [start[d] + 1] else start
  }

  method FindShortestSeparator(start: Bytes, limit: Bytes) returns (r: Bytes)
    ensures r == ShortestSeparator(start, limit)
  {
    var minLength := if |start| < |limit| then |start| else |limit|;
    var diffIndex := 0;
    while diffIndex < minLength && start[diffIndex] == limit[diffIndex]
      invariant diffIndex <= minLength && forall i | 0 <= i < diffIndex :: start[i] == limit[i]
    {
      diffIndex := diffIndex + 1;
    }
    assert diffIndex == DiffIndex(start, limit);
    r := start;
    if diffIndex >= minLength {
      // One is a prefix of the other.
    } else if start[diffIndex] < 0xff && start[diffIndex] + 1 < limit[diffIndex] {
      r := start[..diffIndex] + [start[diffIndex] + 1];
    }
  }

  /** A string, if possible shorter, at or after `key`. */
  function ShortSuccessor(key: Bytes): Bytes {
    ShortSuccessorFrom(key, 0)
  }

  function ShortSuccessorFrom(key: Bytes, i: nat): Bytes
    requires i <= |key|
    decreases |key| - i
  {
    if i == |key| then key
    else if key[i] != 0xff then key[..i] + [key[i] + 1]
    else ShortSuccessorFrom(key, i + 1)
  }

  method FindShortSuccessor(key: Bytes) returns (r: Bytes)
    ensures r == ShortSuccessor(key)
  {
    for i := 0 to |key|
      invariant ShortSuccessor(key) == ShortSuccessorFrom(key, i)
    {
      if key[i] != 0xff {
        return key[..i] + [key[i] + 1];
      }
    }
    return key;
  }

  /** A comparator. Its separators lie from the first key up to but not including the second, and are the key
      itself between equal keys; its successors lie at or after the key. */
  datatype Comparator = Comparator(less: (Bytes, Bytes) -> bool, separator: (Bytes, Bytes) -> Bytes, successor: Bytes -> Bytes)

  ghost predicate Separates(c: Comparator) {
    && (forall s, l :: c.less(s, l) ==> !c.less(c.separator(s, l), s) && c.less(c.separator(s, l), l))
    && (forall s :: c.separator(s, s) == s)
    && (forall k :: !c.less(c.successor(k), k))
  }

  function BytewiseComparator(): Comparator {
    Comparator(Bytewise(), (s: Bytes, l: Bytes) => ShortestSeparator(s, l), (k: Bytes) => ShortSuccessor(k))
  }

  /** A common front part and then a difference decide the order. */
  lemma LessAt(a: Bytes, b: Bytes, d: nat)
    requires d <= |a| && d < |b| && (forall i | 0 <= i < d :: a[i] == b[i]) && (d == |a| || a[d] < b[d])
    ensures BytewiseLess(a, b) && !BytewiseLess(b, a) && a != b
  {
    assert DiffIndex(a, b) == d && DiffIndex(b, a) == d;
  }

  lemma SeparatorSeparates(s: Bytes, l: Bytes)
    requires BytewiseLess(s, l)
    ensures !BytewiseLess(ShortestSeparator(s, l), s) && BytewiseLess(ShortestSeparator(s, l), l)
  {
    var d, r := DiffIndex(s, l), ShortestSeparator(s, l);
    if r != s {
      LessAt(s, r, d);
      LessAt(r, l, d);
    } else {
      assert DiffIndex(s, s) == |s|;
    }
  }

  lemma {:induction false} SuccessorFollows(k: Bytes, i: nat)
    requires i <= |k|
    ensures !BytewiseLess(ShortSuccessorFrom(k, i), k)
    decreases |k| - i
  {
    if i == |k| {
      assert DiffIndex(k, k) == |k|;
    } else if k[i] != 0xff {
      LessAt(k, ShortSuccessorFrom(k, i), i);
    } else {
      SuccessorFollows(k, i + 1);
    }
  }

  lemma BytewiseSeparates()
    ensures Separates(BytewiseComparator())
  {
    hide BytewiseLess, ShortSuccessorFrom;
    var c := BytewiseComparator();
    forall s: Bytes, l: Bytes | c.less(s, l) ensures !c.less(c.separator(s, l), s) && c.less(c.separator(s, l), l) {
      SeparatorSeparates(s, l);
    }
    forall s: Bytes ensures c.separator(s, s) == s {
    }
    forall k: Bytes ensures !c.less(c.successor(k), k) {
      SuccessorFollows(k, 0);
    }
  }

  /** An encoded internal key: the user key and then the trailer of sequence number and type. */
  function UserKey(key: Bytes): Bytes
    requires |key| >= 8
  {
    key[..|key| - 8]
  }

  function Trailer(key: Bytes): nat
    requires |key| >= 8
  {
    DecodeFixed64(key[|key| - 8..])
  }

  function Encoded(key: InternalKey<Bytes>): Bytes {
    key.user + EncodeFixed64(key.Tag())
  }

  lemma EncodedParts(key: InternalKey<Bytes>)
    requires key.Tag() < TWO_64
    ensures |Encoded(key)| >= 8 && UserKey(Encoded(key)) == key.user && Trailer(Encoded(key)) == key.Tag()
  {
    hide EncodeFixed64, DecodeFixed64;
    var e := Encoded(key);
    assert e[|e| - 8..] == EncodeFixed64(key.Tag()) + [];
    Fixed64RoundTrip(key.Tag(), []);
  }

  /** InternalKeyComparator::Compare; a string too short for a trailer comes before every key. */
  predicate EncodedLess(user: Comparator, a: Bytes, b: Bytes) {
    if |a| < 8 || |b| < 8 then |b| >= 8 || (|a| < 8 && BytewiseLess(a, b))
    else user.less(UserKey(a), UserKey(b)) || (UserKey(a) == UserKey(b) && Trailer(a) > Trailer(b))
  }

  /** The comparator orders encoded keys as InternalLess orders what they encode. */
  lemma EncodedOrder(user: Comparator, a: InternalKey<Bytes>, b: InternalKey<Bytes>)
    requires a.Tag() < TWO_64 && b.Tag() < TWO_64
    ensures EncodedLess(user, Encoded(a), Encoded(b)) <==> InternalLess(user.less, a, b)
  {
    hide UserKey, Trailer;
    EncodedParts(a);
    EncodedParts(b);
  }

  const SEEK_TRAILER: nat := MAX_SEQUENCE * 256 + TYPE_VALUE

  function EncodedSeparator(user: Comparator, start: Bytes, limit: Bytes): Bytes {
    if |start| < 8 || |limit| < 8 then start
    else
      var tmp := user.separator(UserKey(start), UserKey(limit));
      if |tmp| < |UserKey(start)| && user.less(UserKey(start), tmp) then tmp + EncodeFixed64(SEEK_TRAILER) else start
  }

  function EncodedSuccessor(user: Comparator, key: Bytes): Bytes {
    if |key| < 8 then key
    else
      var tmp := user.successor(UserKey(key));
      if |tmp| < |UserKey(key)| && user.less(UserKey(key), tmp) then tmp + EncodeFixed64(SEEK_TRAILER) else key
  }

  function InternalComparator(user: Comparator): Comparator {
    Comparator((a: Bytes, b: Bytes) => EncodedLess(user, a, b), (s: Bytes, l: Bytes) => EncodedSeparator(user, s, l),
      (k: Bytes) => EncodedSuccessor(user, k))
  }

  lemma {:induction false} UnfixedInjective(a: Bytes, b: Bytes)
    requires |a| == |b| && Unfixed(a) == Unfixed(b)
    ensures a == b
  {
    if a != [] {
      assert a == [a[0]] + a[1..] && b == [b[0]] + b[1..];
      UnfixedInjective(a[1..], b[1..]);
    }
  }

  lemma SamePartsSameKey(a: Bytes, b: Bytes)
    requires |a| >= 8 && |b| >= 8 && UserKey(a) == UserKey(b) && Trailer(a) == Trailer(b)
    ensures a == b
  {
    hide Unfixed;
    assert a == UserKey(a) + a[|a| - 8..] && b == UserKey(b) + b[|b| - 8..];
    assert a[|a| - 8..][..8] == a[|a| - 8..] && b[|b| - 8..][..8] == b[|b| - 8..];
    UnfixedInjective(a[|a| - 8..], b[|b| - 8..]);
  }

  lemma EncodedIsTotal(user: Comparator)
    requires TotalOrder(user.less)
    ensures TotalOrder(InternalComparator(user).less)
  {
    hide BytewiseLess, UserKey, Trailer;
    BytewiseIsTotal();
    assert forall a: Bytes, b: Bytes :: Bytewise()(a, b) == BytewiseLess(a, b);
    forall a: Bytes, b: Bytes, c: Bytes | EncodedLess(user, a, b) && EncodedLess(user, b, c) ensures EncodedLess(user, a, c) {
    }
    forall a: Bytes, b: Bytes ensures EncodedLess(user, a, b) || EncodedLess(user, b, a) || a == b {
      if |a| >= 8 && |b| >= 8 && UserKey(a) == UserKey(b) && Trailer(a) == Trailer(b) {
        SamePartsSameKey(a, b);
      }
    }
  }

  /** A shortened separator has a user key of its own, strictly between; otherwise it is the first key. */
  lemma EncodedSeparatorMeans(user: Comparator, s: Bytes, l: Bytes)
    requires TotalOrder(user.less) && Separates(user) && |s| >= 8 && |l| >= 8 && EncodedLess(user, s, l)
    ensures var r := EncodedSeparator(user, s, l);
      r == s || (|r| >= 8 && user.less(UserKey(s), UserKey(r)) && user.less(UserKey(r), UserKey(l)))
    ensures !EncodedLess(user, EncodedSeparator(user, s, l), s) && EncodedLess(user, EncodedSeparator(user, s, l), l)
    ensures |EncodedSeparator(user, s, l)| >= 8
  {
    hide EncodeFixed64, DecodeFixed64;
    var r := EncodedSeparator(user, s, l);
    if r != s {
      assert UserKey(r) == user.separator(UserKey(s), UserKey(l));
    }
  }

  lemma EncodedSuccessorMeans(user: Comparator, k: Bytes)
    requires TotalOrder(user.less) && |k| >= 8
    ensures |EncodedSuccessor(user, k)| >= 8 && !EncodedLess(user, EncodedSuccessor(user, k), k)
  {
    hide EncodeFixed64, DecodeFixed64;
    var r := EncodedSuccessor(user, k);
    if r != k {
      assert UserKey(r) == user.successor(UserKey(k));
    }
  }

  /** No string as short as a part that two have in common lies between them. */
  lemma CommonPart(a: Bytes, b: Bytes, t: Bytes, d: nat)
    requires d < |a| && d < |b| && (forall i | 0 <= i < d :: a[i] == b[i]) && |t| <= d
    ensures BytewiseLess(t, a) || !BytewiseLess(t, b)
  {
    var e := DiffIndex(t, a);
    if e < |t| {
      assert DiffIndex(t, b) == e;
    } else {
      LessAt(t, a, e);
    }
  }

  /** Where the first bytes that differ leave room between them, the separator is a string as short as any
      between the two keys; otherwise it is the first key. */
  lemma SeparatorIsShort(s: Bytes, l: Bytes, d: nat)
    requires d < |s| && d < |l| && (forall i | 0 <= i < d :: s[i] == l[i]) && s[d] < l[d]
    ensures s[d] + 1 == l[d] ==> ShortestSeparator(s, l) == s
    ensures s[d] + 1 < l[d] ==> forall t | !BytewiseLess(t, s) && BytewiseLess(t, l) :: |ShortestSeparator(s, l)| <= |t|
    ensures |ShortestSeparator(s, l)| <= |s|
  {
    assert DiffIndex(s, l) == d;
    forall t | s[d] + 1 < l[d] && !BytewiseLess(t, s) && BytewiseLess(t, l) ensures d + 1 <= |t| {
      if |t| <= d {
        CommonPart(s, l, t, d);
      }
    }
  }

  lemma {:induction false} SuccessorFrom(k: Bytes, i: nat, d: nat)
    requires i <= d < |k| && k[d] != 0xff && forall j | i <= j < d :: k[j] == 0xff
    ensures ShortSuccessorFrom(k, i) == k[..d] + [k[d] + 1]
    decreases d - i
  {
    if i < d {
      SuccessorFrom(k, i + 1, d);
    }
  }

  /** The successor of a key with a byte other than 0xff is a string as short as any at or after the key. */
  lemma {:induction false} SuccessorIsShort(k: Bytes, d: nat, t: Bytes)
    requires d < |k| && k[d] != 0xff && (forall i | 0 <= i < d :: k[i] == 0xff) && !BytewiseLess(t, k)
    ensures |ShortSuccessor(k)| <= |t|
  {
    SuccessorFrom(k, 0, d);
    if |t| <= d {
      var e := DiffIndex(t, k);
      if e == |t| {
        LessAt(t, k, e);
      }
    }
  }
}
