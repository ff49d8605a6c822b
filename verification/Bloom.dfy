/** The Bloom filter policy (util/bloom.cc). The hash of a key is a parameter. */
module Blooms {
  import opened Coding

  /** Bit `i` of a number, from the least. */
  predicate BitOf(b: nat, i: nat) {
    if i == 0 then b % 2 == 1 else BitOf(b / 2, i - 1)
  }

  /** The number with bit `i` set. */
  function WithBit(b: nat, i: nat): nat {
    if i == 0 then (if b % 2 == 1 then b else b + 1) else 2 * WithBit(b / 2, i - 1) + b % 2
  }

  function Power2(n: nat): nat {
    if n == 0 then 1 else 2 * Power2(n - 1)
  }

  lemma {:induction false} BitFits(b: nat, i: nat, n: nat)
    requires b < Power2(n) && i < n
    ensures WithBit(b, i) < Power2(n)
  {
    if i > 0 {
      BitFits(b / 2, i - 1, n - 1);
    }
  }

  /** Setting a bit sets it and no other. */
  lemma {:induction false} BitsOf(b: nat, i: nat, j: nat)
    ensures BitOf(WithBit(b, i), j) <==> BitOf(b, j) || i == j
  {
    if i > 0 && j > 0 {
      BitsOf(b / 2, i - 1, j - 1);
      assert WithBit(b, i) / 2 == WithBit(b / 2, i - 1);
    } else if i == 0 && j > 0 {
      assert WithBit(b, i) / 2 == b / 2;
    } else if i > 0 {
      assert WithBit(b, i) % 2 == b % 2;
    }
  }

  predicate HasBit(bits: Bytes, p: nat)
    requires p < 8 * |bits|
  {
    BitOf(bits[p / 8], p % 8)
  }

  function SetBit(bits: Bytes, p: nat): (r: Bytes)
    requires p < 8 * |bits|
    ensures |r| == |bits|
  {
    assert Power2(4) == 16 && Power2(8) == 256;
    BitFits(bits[p / 8], p % 8, 8);
    bits[p / 8 := WithBit(bits[p / 8], p % 8)]
  }

  lemma SetBitSets(bits: Bytes, p: nat, q: nat)
    requires p < 8 * |bits| && q < 8 * |bits|
    ensures HasBit(SetBit(bits, p), q) <==> HasBit(bits, q) || p == q
  {
    hide BitOf, WithBit;
    BitsOf(bits[q / 8], p % 8, q % 8);
  }

  /** The hash rotated right by 17 bits. */
  function Delta(h: Word): Word {
    h / 0x2_0000 + h % 0x2_0000 * 0x8000
  }

  function Step(h: Word, delta: Word): Word {
    (h + delta) % TWO_32
  }

  /** The `j`-th of a key's hash values. */
  function Probe(h: Word, j: nat): Word {
    if j == 0 then h else Step(Probe(h, j - 1), Delta(h))
  }

  lemma AddRemainder(a: nat, b: nat)
    ensures (a % 4294967296 + b) % 4294967296 == (a + b) % 4294967296
  {
  }

  function Sum(h: nat, n: nat): nat {
    (h + n) % 4294967296
  }

  lemma NextProbe(h: Word, j: nat, p: nat)
    requires j > 0 && Probe(h, j - 1) == Sum(h, p)
    ensures Probe(h, j) == Sum(h, p + Delta(h))
  {
    hide Delta;
    AddRemainder(h + p, Delta(h));
  }

  lemma OneTimeMore(j: nat, d: nat)
    requires j > 0
    ensures (j - 1) * d + d == j * d
  {
  }

  lemma {:induction false} ProbeIs(h: Word, j: nat)
    ensures Probe(h, j) == Sum(h, j * Delta(h))
  {
    hide Sum, Delta, Step;
    if j == 0 {
      NoSteps(h);
    } else {
      ProbeIs(h, j - 1);
      OneTimeMore(j, Delta(h));
      NextProbe(h, j, (j - 1) * Delta(h));
    }
  }

  lemma NoSteps(h: Word)
    ensures Sum(h, 0) == h
  {
  }

  /** Double hashing: the hash plus a multiple of itself rotated right by 17 bits, in 32 bits. */
  lemma ProbeMeans(h: Word, j: nat)
    ensures Probe(h, j) == (h + j * (h / 131072 + h % 131072 * 32768)) % 4294967296
  {
    hide Probe;
    ProbeIs(h, j);
  }

  /** The bits that the filter of some keys has set. */
  ghost predicate Probed(hash: Bytes -> Word, keys: seq<Bytes>, k: nat, bits: nat, p: nat)
    requires bits > 0
  {
    exists i, j: nat :: 0 <= i < |keys| && j < k && Probe(hash(keys[i]), j) % bits == p
  }

  /** The bits of the filter are exactly those of the keys. */
  ghost predicate IsFilter(hash: Bytes -> Word, keys: seq<Bytes>, k: nat, bits: Bytes) {
    |bits| >= 8 && forall p | 0 <= p < 8 * |bits| :: HasBit(bits, p) <==> Probed(hash, keys, k, 8 * |bits|, p)
  }

  class BloomFilterPolicy {
    const hash: Bytes -> Word
    const bitsPerKey: nat
    const k: nat

    /** `k` is what rounding 0.69 times the bits per key gives, held between 1 and 30. */
    constructor (hash: Bytes -> Word, bitsPerKey: nat, rounded: nat)
      ensures 1 <= k <= 30 && this.hash == hash && this.bitsPerKey == bitsPerKey
      ensures k == if rounded < 1 then 1 else if rounded > 30 then 30 else rounded
    {
      this.hash, this.bitsPerKey := hash, bitsPerKey;
      k := if rounded < 1 then 1 else if rounded > 30 then 30 else rounded;
    }

    /** Appends a filter: an array with exactly the keys' bits set, and the number of probes. */
    method CreateFilter(keys: seq<Bytes>, dst: Bytes) returns (r: Bytes)
      requires 1 <= k <= 30
      ensures |r| > |dst| && r[..|dst|] == dst && r[|r| - 1] == k
      ensures IsFilter(hash, keys, k, r[|dst|..|r| - 1])
      ensures |r| - |dst| - 1 == if |keys| * bitsPerKey < 64 then 8 else (|keys| * bitsPerKey + 7) / 8
    {
      hide HasBit, Probed, Probe, Step, Delta, SetBit;
      var count := |keys| * bitsPerKey;
      if count < 64 {
        count := 64;
      }
      var bytes := (count + 7) / 8;
      count := bytes * 8;
      var data: Bytes := seq(bytes, i => 0);
      NoBits(hash, keys, k, data);
      for i := 0 to |keys|
        invariant |data| == bytes
        invariant forall p | 0 <= p < count :: HasBit(data, p) <==> Probed(hash, keys[..i], k, count, p)
      {
        var h := hash(keys[i]);
        var delta := Delta(h);
        ghost var before := data;
        ProbeZero(h);
        for j := 0 to k
          invariant |data| == bytes && h == Probe(hash(keys[i]), j)
          invariant forall p | 0 <= p < count :: HasBit(data, p) <==> HasBit(before, p) || ProbedBy(hash(keys[i]), j, count, p)
        {
          var bitpos := h % count;
          ghost var was := data;
          data := SetBit(data, bitpos);
          forall p | 0 <= p < count
            ensures HasBit(data, p) <==> HasBit(before, p) || ProbedBy(hash(keys[i]), j + 1, count, p)
          {
            SetBitSets(was, bitpos, p);
            OneMoreProbe(hash(keys[i]), j, count, p);
          }
          ProbeNext(hash(keys[i]), j);
          h := Step(h, delta);
        }
        forall p | 0 <= p < count ensures HasBit(data, p) <==> Probed(hash, keys[..i + 1], k, count, p) {
          OneMoreKey(hash, keys, i, k, count, p);
        }
      }
      assert keys[..|keys|] == keys;
      r := dst + data + [k];
      assert r[|dst|..|r| - 1] == data;
    }

    /** A key matches when all of its bits are set. */
    method KeyMayMatch(key: Bytes, filter: Bytes) returns (r: bool)
      ensures r == MayMatch(hash, key, filter)
    {
      var len := |filter|;
      if len < 2 {
        return false;
      }
      var bits := (len - 1) * 8;
      var probes := filter[len - 1];
      // Above 127 the source's char is negative, and its size_t is huge.
      if probes > 30 {
        return true;
      }
      var h := hash(key);
      var delta := Delta(h);
      var j: nat := 0;
      while j < probes
        invariant 0 <= j <= probes && h == Probe(hash(key), j)
        invariant forall m | 0 <= m < j :: HasBit(filter[..len - 1], Probe(hash(key), m) % bits)
      {
        var bitpos := h % bits;
        assert filter[..len - 1][bitpos / 8] == filter[bitpos / 8];
        if !BitOf(filter[bitpos / 8], bitpos % 8) {
          return false;
        }
        h := Step(h, delta);
        j := j + 1;
      }
      return true;
    }
  }

  ghost predicate MayMatch(hash: Bytes -> Word, key: Bytes, filter: Bytes) {
    |filter| >= 2 &&
    var bits := filter[..|filter| - 1];
    filter[|filter| - 1] > 30 || forall j: nat | j < filter[|filter| - 1] :: HasBit(bits, Probe(hash(key), j) % (8 * |bits|))
  }

  lemma NoBits(hash: Bytes -> Word, keys: seq<Bytes>, k: nat, zeros: Bytes)
    requires zeros != [] && forall i | 0 <= i < |zeros| :: zeros[i] == 0
    ensures forall p | 0 <= p < 8 * |zeros| :: HasBit(zeros, p) <==> Probed(hash, keys[..0], k, 8 * |zeros|, p)
  {
    forall p | 0 <= p < 8 * |zeros| ensures !HasBit(zeros, p) {
      ZeroHasNone(p % 8);
    }
  }

  lemma {:induction false} ZeroHasNone(i: nat)
    ensures !BitOf(0, i)
  {
    if i > 0 {
      ZeroHasNone(i - 1);
    }
  }

  ghost predicate ProbedBy(h: Word, n: nat, bits: nat, p: nat)
    requires bits > 0
  {
    exists j: nat :: j < n && Probe(h, j) % bits == p
  }

  lemma ProbeZero(h: Word)
    ensures Probe(h, 0) == h
  {
  }

  lemma ProbeNext(h: Word, j: nat)
    ensures Probe(h, j + 1) == Step(Probe(h, j), Delta(h))
  {
  }

  lemma OneMoreProbe(h: Word, j: nat, bits: nat, p: nat)
    requires bits > 0
    ensures ProbedBy(h, j + 1, bits, p) <==> ProbedBy(h, j, bits, p) || Probe(h, j) % bits == p
  {
    hide Probe;
    assert ProbedBy(h, j, bits, p) ==> ProbedBy(h, j + 1, bits, p);
  }

  lemma OneMoreKey(hash: Bytes -> Word, keys: seq<Bytes>, i: nat, k: nat, bits: nat, p: nat)
    requires i < |keys| && bits > 0
    ensures Probed(hash, keys[..i + 1], k, bits, p) <==> Probed(hash, keys[..i], k, bits, p) || ProbedBy(hash(keys[i]), k, bits, p)
  {
    hide Probe;
    var less, more := keys[..i], keys[..i + 1];
    if a, j: nat :| 0 <= a < |less| && j < k && Probe(hash(less[a]), j) % bits == p {
      assert more[a] == less[a];
    }
    if j: nat :| j < k && Probe(hash(keys[i]), j) % bits == p {
      assert more[i] == keys[i];
    }
    if a, j: nat :| 0 <= a < |more| && j < k && Probe(hash(more[a]), j) % bits == p {
      assert a < i ==> more[a] == less[a];
    }
  }

  /** Every key of a filter matches it. */
  lemma NoFalseNegative(hash: Bytes -> Word, keys: seq<Bytes>, k: nat, bits: Bytes, key: Bytes)
    requires 1 <= k <= 30 && IsFilter(hash, keys, k, bits) && key in keys
    ensures MayMatch(hash, key, bits + [k])
  {
    hide Probe, HasBit;
    var filter := bits + [k];
    assert filter[..|filter| - 1] == bits;
    var i :| 0 <= i < |keys| && keys[i] == key;
    forall j: nat | j < k ensures HasBit(bits, Probe(hash(key), j) % (8 * |bits|)) {
      assert Probed(hash, keys, k, 8 * |bits|, Probe(hash(keys[i]), j) % (8 * |bits|));
    }
  }
}
