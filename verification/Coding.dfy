/** Fixed-width and variable-length integers, and length-prefixed slices (util/coding.h, util/coding.cc).
    Disjoint bit fields joined by `|` are sums, and shifts are products and quotients by powers of two. */
module Coding {
  import opened Keys

  type Bytes = seq<Byte>

  const TWO_32: nat := 0x1_0000_0000
  const TWO_64: nat := 0x1_0000_0000_0000_0000

  /** A number of 32 bits. */
  type Word = n: nat | n < TWO_32

  /** The low `n` bytes of `v`, least significant first. */
  function Fixed(v: nat, n: nat): (r: Bytes)
    ensures |r| == n
  {
    if n == 0 then [] else [v % 256] + Fixed(v / 256, n - 1)
  }

  function Power256(n: nat): nat {
    if n == 0 then 1 else 256 * Power256(n - 1)
  }

  function Unfixed(s: Bytes): (r: nat)
    ensures r < Power256(|s|)
  {
    if s == [] then 0 else s[0] + 256 * Unfixed(s[1..])
  }

  lemma {:induction false} FixedRoundTrip(v: nat, n: nat)
    requires v < Power256(n)
    ensures Unfixed(Fixed(v, n)) == v
  {
    if n > 0 {
      FixedRoundTrip(v / 256, n - 1);
    }
  }

  lemma {:induction false} UnfixedPrefix(s: Bytes, rest: Bytes)
    ensures (s + rest)[..|s|] == s
  {
  }

  function EncodeFixed32(v: nat): (r: Bytes)
    ensures |r| == 4
  {
    Fixed(v, 4)
  }

  function DecodeFixed32(s: Bytes): (r: nat)
    requires |s| >= 4
    ensures r < TWO_32
  {
    assert Power256(4) == TWO_32;
    Unfixed(s[..4])
  }

  function EncodeFixed64(v: nat): (r: Bytes)
    ensures |r| == 8
  {
    Fixed(v, 8)
  }

  function DecodeFixed64(s: Bytes): (r: nat)
    requires |s| >= 8
    ensures r < TWO_64
  {
    assert Power256(4) == TWO_32;
    assert Power256(8) == TWO_64;
    Unfixed(s[..8])
  }

  lemma Fixed32RoundTrip(v: nat, rest: Bytes)
    requires v < TWO_32
    ensures DecodeFixed32(EncodeFixed32(v) + rest) == v
  {
    hide Fixed, Unfixed;
    assert Power256(4) == TWO_32;
    FixedRoundTrip(v, 4);
    UnfixedPrefix(EncodeFixed32(v), rest);
  }

  lemma Fixed64RoundTrip(v: nat, rest: Bytes)
    requires v < TWO_64
    ensures DecodeFixed64(EncodeFixed64(v) + rest) == v
  {
    hide Fixed, Unfixed;
    assert Power256(4) == TWO_32;
    assert Power256(8) == TWO_64;
    FixedRoundTrip(v, 8);
    UnfixedPrefix(EncodeFixed64(v), rest);
  }

  /** Seven bits a byte, least significant first, with the top bit set on all but the last. */
  function Varint(v: nat): (r: Bytes)
    ensures |r| > 0
  {
    if v < 128 then [v] else [v % 128 + 128] + Varint(v / 128)
  }

  function Power128(n: nat): nat {
    if n == 0 then 1 else 128 * Power128(n - 1)
  }

  /** The unrolled encoder. */
  method EncodeVarint32(v: nat) returns (dst: Bytes)
    requires v < TWO_32
    ensures dst == Varint(v)
  {
    hide Varint;
    Varint32Cases(v);
    if v < 0x80 {
      dst := [v];
    } else if v < 0x4000 {
      dst := [v % 128 + 128, v / 0x80];
    } else if v < 0x20_0000 {
      dst := [v % 128 + 128, v / 0x80 % 128 + 128, v / 0x4000];
    } else if v < 0x1000_0000 {
      dst := [v % 128 + 128, v / 0x80 % 128 + 128, v / 0x4000 % 128 + 128, v / 0x20_0000];
    } else {
      dst := [v % 128 + 128, v / 0x80 % 128 + 128, v / 0x4000 % 128 + 128, v / 0x20_0000 % 128 + 128, v / 0x1000_0000];
    }
  }

  lemma Joined(a: Byte, b: Byte, c: Byte, d: Byte, e: Byte)
    ensures [a] + [b] == [a, b] && [a] + [b, c] == [a, b, c] && [a] + [b, c, d] == [a, b, c, d]
    ensures [a] + [b, c, d, e] == [a, b, c, d, e]
  {
  }

  /** The encoding of a quotient that takes at most one, two, three or four bytes, from the last. */
  lemma Varint32Cases(v: nat)
    requires v < TWO_32
    ensures v < 0x80 ==> Varint(v) == [v]
    ensures 0x80 <= v < 0x4000 ==> Varint(v) == [v % 128 + 128, v / 0x80]
    ensures 0x4000 <= v < 0x20_0000 ==> Varint(v) == [v % 128 + 128, v / 0x80 % 128 + 128, v / 0x4000]
    ensures 0x20_0000 <= v < 0x1000_0000 ==>
      Varint(v) == [v % 128 + 128, v / 0x80 % 128 + 128, v / 0x4000 % 128 + 128, v / 0x20_0000]
    ensures 0x1000_0000 <= v ==>
      Varint(v) == [v % 128 + 128, v / 0x80 % 128 + 128, v / 0x4000 % 128 + 128, v / 0x20_0000 % 128 + 128, v / 0x1000_0000]
  {
    hide Varint;
    var q1, q2, q3, q4 := v / 0x80, v / 0x4000, v / 0x20_0000, v / 0x1000_0000;
    Quotients(v);
    VarintCase(v, q1);
    VarintCase(q1, q2);
    VarintCase(q2, q3);
    VarintCase(q3, q4);
    VarintCase(q4, 0);
    var b0: Byte, b1: Byte, b2: Byte, b3: Byte := v % 128 + 128, q1 % 128 + 128, q2 % 128 + 128, q3 % 128 + 128;
    if v < 0x80 {
    } else if v < 0x4000 {
      Joined(b0, q1, 0, 0, 0);
    } else if v < 0x20_0000 {
      Joined(b1, q2, 0, 0, 0);
      Joined(b0, b1, q2, 0, 0);
    } else if v < 0x1000_0000 {
      Joined(b2, q3, 0, 0, 0);
      Joined(b1, b2, q3, 0, 0);
      Joined(b0, b1, b2, q3, 0);
    } else {
      Joined(b3, q4, 0, 0, 0);
      Joined(b2, b3, q4, 0, 0);
      Joined(b1, b2, b3, q4, 0);
      Joined(b0, b1, b2, b3, q4);
    }
  }

  lemma Quotients(v: nat)
    requires v < TWO_32
    ensures v / 0x80 / 128 == v / 0x4000 && v / 0x4000 / 128 == v / 0x20_0000 && v / 0x20_0000 / 128 == v / 0x1000_0000
    ensures v / 0x1000_0000 / 128 == 0
  {
  }

  lemma VarintCase(v: nat, quotient: nat)
    requires quotient == v / 128
    ensures Varint(v) == if v < 128 then [v] else [v % 128 + 128] + Varint(quotient)
  {
  }

  method EncodeVarint64(v: nat) returns (dst: Bytes)
    requires v < TWO_64
    ensures dst == Varint(v)
  {
    dst := [];
    var left := v;
    while left >= 128
      invariant dst + Varint(left) == Varint(v)
    {
      assert Varint(left) == [left % 128 + 128] + Varint(left / 128);
      dst := dst + [left % 128 + 128];
      left := left / 128;
    }
    dst := dst + [left];
  }

  method VarintLength(v: nat) returns (len: nat)
    ensures len == |Varint(v)|
  {
    len := 1;
    var left := v;
    while left >= 128
      invariant len + |Varint(left)| == |Varint(v)| + 1
    {
      left := left / 128;
      len := len + 1;
    }
  }

  datatype Parsed<+T> = Parsed(value: T, rest: Bytes)

  /** The number in at most `n` bytes at the front of `s`, and what follows it. */
  function ReadVarint(s: Bytes, n: nat): (r: Option<Parsed<nat>>)
    ensures r.Some? ==> |r.value.rest| < |s|
  {
    if n == 0 || s == [] then None
    else if s[0] < 128 then Some(Parsed(s[0], s[1..]))
    else match ReadVarint(s[1..], n - 1)
      case None => None
      case Some(p) => Some(Parsed(s[0] - 128 + 128 * p.value, p.rest))
  }

  /** As many bytes as the width of the number may need; bits beyond the width are lost. */
  function GetVarint32(s: Bytes): (r: Option<Parsed<nat>>)
    ensures r.Some? ==> |r.value.rest| < |s| && r.value.value < TWO_32
  {
    match ReadVarint(s, 5)
    case None => None
    case Some(p) => Some(Parsed(p.value % TWO_32, p.rest))
  }

  function GetVarint64(s: Bytes): (r: Option<Parsed<nat>>)
    ensures r.Some? ==> |r.value.rest| < |s| && r.value.value < TWO_64
  {
    match ReadVarint(s, 10)
    case None => None
    case Some(p) => Some(Parsed(p.value % TWO_64, p.rest))
  }

  lemma {:induction false} ReadVarintRoundTrip(v: nat, n: nat, rest: Bytes)
    requires n > 0 && v < Power128(n)
    ensures ReadVarint(Varint(v) + rest, n) == Some(Parsed(v, rest))
  {
    var s := Varint(v) + rest;
    if v < 128 {
      assert s[1..] == rest;
    } else {
      assert s[1..] == Varint(v / 128) + rest;
      assert s[0] == v % 128 + 128;
      ReadVarintRoundTrip(v / 128, n - 1, rest);
    }
  }

  lemma Varint32RoundTrip(v: nat, rest: Bytes)
    requires v < TWO_32
    ensures GetVarint32(Varint(v) + rest) == Some(Parsed(v, rest))
  {
    hide Varint, ReadVarint;
    assert Power128(5) == 0x8_0000_0000;
    ReadVarintRoundTrip(v, 5, rest);
  }

  lemma Varint64RoundTrip(v: nat, rest: Bytes)
    requires v < TWO_64
    ensures GetVarint64(Varint(v) + rest) == Some(Parsed(v, rest))
  {
    hide Varint, ReadVarint;
    assert Power128(5) == 0x8_0000_0000;
    assert Power128(10) == 0x40_0000_0000_0000_0000;
    ReadVarintRoundTrip(v, 10, rest);
  }

  function Scaled(x: nat, factor: nat): nat {
    x * factor
  }

  lemma {:induction false} VarintSize(v: nat, n: nat)
    requires n > 0 && v < Power128(n)
    ensures |Varint(v)| <= n
  {
    if v >= 128 {
      VarintSize(v / 128, n - 1);
    }
  }

  lemma Varint32Size(v: nat)
    requires v < TWO_32
    ensures |Varint(v)| <= 5
  {
    assert Power128(5) == 0x8_0000_0000;
    VarintSize(v, 5);
  }

  /** What the loop has read so far and the factor of the next byte make up the whole. */
  ghost function Combine(result: nat, factor: nat, p: Option<Parsed<nat>>): Option<Parsed<nat>> {
    match p
    case None => None
    case Some(q) => Some(Parsed(result + Scaled(q.value, factor), q.rest))
  }

  lemma ScaledSum(low: nat, value: nat, factor: nat)
    ensures Scaled(low + 128 * value, factor) == Scaled(low, factor) + Scaled(value, 128 * factor)
  {
  }

  lemma CombineStep(result: nat, factor: nat, s: Bytes, n: nat)
    requires n > 0 && s != []
    ensures s[0] >= 128 ==>
      Combine(result, factor, ReadVarint(s, n)) == Combine(result + Scaled(s[0] - 128, factor), 128 * factor, ReadVarint(s[1..], n - 1))
    ensures s[0] < 128 ==> Combine(result, factor, ReadVarint(s, n)) == Some(Parsed(result + Scaled(s[0], factor), s[1..]))
  {
    hide Scaled;
    var p := ReadVarint(s[1..], n - 1);
    if s[0] >= 128 && p.Some? {
      ScaledSum(s[0] - 128, p.value.value, factor);
    }
  }

  lemma SumTruncated(a: nat, x: nat)
    ensures (a % TWO_32 + x) % TWO_32 == (a + x) % TWO_32
    ensures (a % TWO_64 + x) % TWO_64 == (a + x) % TWO_64
  {
  }

  /** The shift loop of both widths: `modulus` is 2 to the width and `most` the bytes it reads at most. */
  method GetVarintPtr(s: Bytes, most: nat, modulus: nat) returns (r: Option<Parsed<nat>>)
    requires (most == 5 && modulus == TWO_32) || (most == 10 && modulus == TWO_64)
    ensures r == if most == 5 then GetVarint32(s) else GetVarint64(s)
  {
    hide ReadVarint, Scaled;
    var result: nat, factor: nat, p, n := 0, 1, s, 0;
    ghost var exact: nat := 0;
    CombineStart(ReadVarint(s, most));
    while n < most && p != []
      invariant n <= most && result == exact % modulus
      invariant ReadVarint(s, most) == Combine(exact, factor, ReadVarint(p, most - n))
      decreases most - n
    {
      var byte := p[0];
      CombineStep(exact, factor, p, most - n);
      var bits: nat := Scaled(byte % 128, factor);
      SumTruncated(exact, bits);
      if byte >= 128 {
        result := (result + bits) % modulus;
        exact := exact + bits;
        p := p[1..];
      } else {
        return Some(Parsed((result + bits) % modulus, p[1..]));
      }
      factor := 128 * factor;
      n := n + 1;
    }
    NothingToRead(p, most - n);
    r := None;
  }

  lemma CombineStart(p: Option<Parsed<nat>>)
    ensures Combine(0, 1, p) == p
  {
  }

  lemma NothingToRead(s: Bytes, n: nat)
    requires n == 0 || s == []
    ensures ReadVarint(s, n) == None
  {
  }

  function LengthPrefixed(value: Bytes): Bytes {
    Varint(|value|) + value
  }

  function GetLengthPrefixedSlice(s: Bytes): (r: Option<Parsed<Bytes>>)
    ensures r.Some? ==> |r.value.rest| < |s|
  {
    match GetVarint32(s)
    case None => None
    case Some(p) =>
      if |p.rest| >= p.value then Some(Parsed(p.rest[..p.value], p.rest[p.value..])) else None
  }

  lemma LengthPrefixedRoundTrip(value: Bytes, rest: Bytes)
    requires |value| < TWO_32
    ensures GetLengthPrefixedSlice(LengthPrefixed(value) + rest) == Some(Parsed(value, rest))
  {
    var s := LengthPrefixed(value) + rest;
    assert s == Varint(|value|) + (value + rest);
    Varint32RoundTrip(|value|, value + rest);
    assert (value + rest)[..|value|] == value && (value + rest)[|value|..] == rest;
  }

  /** The number that seven bits of each of the first `k` bytes make up. */
  function Groups(s: Bytes, k: nat): nat
    requires k <= |s|
  {
    if k == 0 then 0 else s[0] % 128 + 128 * Groups(s[1..], k - 1)
  }

  /** A varint ends at the first byte below 128 and is read just if there is one among the first `n`; its value
      is made up of seven bits of each byte. */
  lemma {:induction false} ReadVarintMeans(s: Bytes, n: nat)
    ensures ReadVarint(s, n) == None <==> forall i | 0 <= i < n && i < |s| :: s[i] >= 128
    ensures ReadVarint(s, n).Some? ==>
      var k := |s| - |ReadVarint(s, n).value.rest|;
      && 0 < k <= n && s[k - 1] < 128 && (forall i | 0 <= i < k - 1 :: s[i] >= 128)
      && ReadVarint(s, n) == Some(Parsed(Groups(s, k), s[k..]))
  {
    if n > 0 && s != [] {
      var t := s[1..];
      ReadVarintMeans(t, n - 1);
      if s[0] >= 128 {
        if forall i | 0 <= i < n && i < |s| :: s[i] >= 128 {
          assert forall i | 0 <= i < n - 1 && i < |t| :: t[i] == s[i + 1];
        }
        if ReadVarint(t, n - 1).Some? {
          var k := |t| - |ReadVarint(t, n - 1).value.rest|;
          assert forall i | 0 < i < k :: s[i] == t[i - 1];
          assert t[k..] == s[k + 1..];
        }
      } else {
        assert Groups(s, 1) == s[0] % 128 + 128 * Groups(s[1..], 0);
      }
    }
  }

  /** No varint is read from a part of one. */
  lemma {:induction false} VarintCut(v: nat, n: nat, width: nat)
    requires n < |Varint(v)|
    ensures ReadVarint(Varint(v)[..n], width) == None
  {
    if n > 0 && width > 0 {
      assert Varint(v)[..n][1..] == Varint(v / 128)[..n - 1];
      VarintCut(v / 128, n - 1, width - 1);
    }
  }

  /** Nor a string from a part of one. */
  lemma LengthPrefixedCut(value: Bytes, n: nat)
    requires |value| < TWO_32 && n < |LengthPrefixed(value)|
    ensures GetLengthPrefixedSlice(LengthPrefixed(value)[..n]) == None
  {
    hide Varint, ReadVarint;
    var prefix := Varint(|value|);
    var s := LengthPrefixed(value)[..n];
    if n < |prefix| {
      assert s == prefix[..n];
      VarintCut(|value|, n, 5);
    } else {
      assert s == prefix + value[..n - |prefix|];
      Varint32RoundTrip(|value|, value[..n - |prefix|]);
    }
  }
}
