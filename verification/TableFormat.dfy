/** Block handles, stored blocks and the footer of a table (table/format.cc). Compression is off. */
module TableFormat {
  import opened Keys
  import opened Coding
  import opened Crc32c

  const TRAILER_SIZE: nat := 5
  const FOOTER_SIZE: nat := 48
  const MAGIC: nat := 0xdb47_7524_8b80_fb57

  datatype BlockHandle = BlockHandle(offset: nat, size: nat)

  predicate Encodable(h: BlockHandle) {
    h.offset < TWO_64 && h.size < TWO_64
  }

  function EncodeHandle(h: BlockHandle): Bytes {
    Varint(h.offset) + Varint(h.size)
  }

  function DecodeHandle(s: Bytes): Option<Parsed<BlockHandle>> {
    match GetVarint64(s)
    case None => None
    case Some(a) =>
      match GetVarint64(a.rest)
      case None => None
      case Some(b) => Some(Parsed(BlockHandle(a.value, b.value), b.rest))
  }

  lemma HandleRoundTrip(h: BlockHandle, rest: Bytes)
    requires Encodable(h)
    ensures DecodeHandle(EncodeHandle(h) + rest) == Some(Parsed(h, rest))
  {
    hide Varint, GetVarint64;
    assert EncodeHandle(h) + rest == Varint(h.offset) + (Varint(h.size) + rest);
    Varint64RoundTrip(h.offset, Varint(h.size) + rest);
    Varint64RoundTrip(h.size, rest);
  }

  lemma HandleSize(h: BlockHandle)
    requires Encodable(h)
    ensures |EncodeHandle(h)| <= 20
  {
    hide Varint;
    assert Power128(5) == 0x8_0000_0000;
    assert Power128(10) == 0x40_0000_0000_0000_0000;
    VarintSize(h.offset, 10);
    VarintSize(h.size, 10);
  }

  /** A block as it goes into the file: its contents, its type, and a checksum of both. */
  function RawBlock(crc: Bytes -> Word, contents: Bytes): (r: Bytes)
    ensures |r| == |contents| + TRAILER_SIZE
  {
    contents + [0] + EncodeFixed32(Mask(crc(contents + [0])))
  }

  function ReadBlock(crc: Bytes -> Word, verifyChecksums: bool, file: Bytes, h: BlockHandle): Option<Bytes> {
    var n := h.size;
    if h.offset + n + TRAILER_SIZE > |file| then None
    else
      var data := file[h.offset..h.offset + n + TRAILER_SIZE];
      if verifyChecksums && Unmask(DecodeFixed32(data[n + 1..])) != crc(data[..n + 1]) then None
      else if data[n] == 0 then Some(data[..n])
      else None
  }

  /** The file holds the raw block of the contents at the handle. */
  ghost predicate Stored(crc: Bytes -> Word, file: Bytes, h: BlockHandle, contents: Bytes) {
    && h.size == |contents| && h.offset + h.size + TRAILER_SIZE <= |file| && Encodable(h)
    && file[h.offset..h.offset + h.size + TRAILER_SIZE] == RawBlock(crc, contents)
  }

  /** A stored block is read back, and passes its checksum. */
  lemma StoredReads(crc: Bytes -> Word, verifyChecksums: bool, file: Bytes, h: BlockHandle, contents: Bytes)
    requires Stored(crc, file, h, contents)
    ensures ReadBlock(crc, verifyChecksums, file, h) == Some(contents)
  {
    hide EncodeFixed32, DecodeFixed32, Mask, Unmask;
    var data := file[h.offset..h.offset + h.size + TRAILER_SIZE];
    var sum := Mask(crc(contents + [0]));
    assert data == contents + ([0] + EncodeFixed32(sum));
    assert data[..h.size] == contents && data[h.size] == 0;
    assert data[..h.size + 1] == contents + [0];
    assert data[h.size + 1..] == EncodeFixed32(sum) + [];
    Fixed32RoundTrip(sum, []);
    UnmaskMask(crc(contents + [0]));
  }

  lemma StoredStays(crc: Bytes -> Word, file: Bytes, h: BlockHandle, contents: Bytes, more: Bytes)
    requires Stored(crc, file, h, contents)
    ensures Stored(crc, file + more, h, contents)
  {
    assert (file + more)[h.offset..h.offset + h.size + TRAILER_SIZE] == file[h.offset..h.offset + h.size + TRAILER_SIZE];
  }

  lemma StoredNow(crc: Bytes -> Word, file: Bytes, contents: Bytes)
    requires |file| < TWO_64 && |contents| < TWO_64
    ensures Stored(crc, file + RawBlock(crc, contents), BlockHandle(|file|, |contents|), contents)
  {
  }

  /** Both handles, padded, and the magic number. */
  function EncodeFooter(metaindex: BlockHandle, index: BlockHandle): Bytes {
    var handles := EncodeHandle(metaindex) + EncodeHandle(index);
    (if |handles| <= 40 then handles + seq(40 - |handles|, i => 0) else handles[..40])
    + EncodeFixed32(MAGIC % TWO_32) + EncodeFixed32(MAGIC / TWO_32)
  }

  function DecodeFooter(s: Bytes): Option<(BlockHandle, BlockHandle)> {
    if |s| < FOOTER_SIZE then None
    else if DecodeFixed32(s[40..]) + TWO_32 * DecodeFixed32(s[44..]) != MAGIC then None
    else
      match DecodeHandle(s)
      case None => None
      case Some(m) =>
        match DecodeHandle(m.rest)
        case None => None
        case Some(i) => Some((m.value, i.value))
  }

  lemma FooterRoundTrip(metaindex: BlockHandle, index: BlockHandle)
    requires Encodable(metaindex) && Encodable(index)
    ensures |EncodeFooter(metaindex, index)| == FOOTER_SIZE && DecodeFooter(EncodeFooter(metaindex, index)) == Some((metaindex, index))
  {
    hide EncodeHandle, DecodeHandle, EncodeFixed32, DecodeFixed32;
    HandleSize(metaindex);
    HandleSize(index);
    var s := EncodeFooter(metaindex, index);
    var a, b := EncodeHandle(metaindex), EncodeHandle(index);
    var padding := seq(40 - |a| - |b|, i => 0);
    var lo, hi := EncodeFixed32(MAGIC % TWO_32), EncodeFixed32(MAGIC / TWO_32);
    assert s == (a + b + padding) + (lo + hi);
    assert s[40..] == lo + hi && s[44..] == hi + [];
    Fixed32RoundTrip(MAGIC % TWO_32, hi);
    Fixed32RoundTrip(MAGIC / TWO_32, []);
    assert s == a + (b + (padding + (lo + hi)));
    HandleRoundTrip(metaindex, b + (padding + (lo + hi)));
    HandleRoundTrip(index, padding + (lo + hi));
  }

  /** A block is read just if its bytes and trailer are in the file, its type is that of no compression and, if
      that is asked for, the checksum behind it is that of contents and type. */
  lemma ReadBlockMeans(crc: Bytes -> Word, verifyChecksums: bool, file: Bytes, h: BlockHandle, contents: Bytes)
    ensures ReadBlock(crc, verifyChecksums, file, h) == Some(contents) <==>
      var end := h.offset + h.size;
      && end + TRAILER_SIZE <= |file| && contents == file[h.offset..end] && file[end] == 0
      && (verifyChecksums ==> Unmask(DecodeFixed32(file[end + 1..end + 5])) == crc(file[h.offset..end + 1]))
  {
    hide Unmask, DecodeFixed32;
    var end := h.offset + h.size;
    if end + TRAILER_SIZE <= |file| {
      var data := file[h.offset..end + TRAILER_SIZE];
      assert data[h.size] == file[end] && data[..h.size] == file[h.offset..end] && data[..h.size + 1] == file[h.offset..end + 1];
      assert data[h.size + 1..] == file[end + 1..end + 5];
    }
  }

  /** A footer ends with the eight bytes of the magic number. */
  lemma FooterNeedsMagic(s: Bytes)
    requires |s| >= FOOTER_SIZE && DecodeFooter(s).Some?
    ensures s[40..48] == [0x57, 0xfb, 0x80, 0x8b, 0x24, 0x75, 0x47, 0xdb]
  {
    hide DecodeHandle;
    var lo, hi := s[40..44], s[44..48];
    assert s[40..][..4] == lo && s[44..][..4] == hi;
    assert DecodeFixed32(s[40..]) == Unfixed(lo) && DecodeFixed32(s[44..]) == Unfixed(hi);
    FourBytes(lo);
    FourBytes(hi);
    assert Unfixed(lo) == MAGIC % TWO_32 && Unfixed(hi) == MAGIC / TWO_32;
  }

  lemma FourBytes(s: Bytes)
    requires |s| == 4
    ensures Unfixed(s) == s[0] + 256 * s[1] as nat + 0x1_0000 * s[2] as nat + 0x100_0000 * s[3] as nat
  {
    var s1, s2, s3 := s[1..], s[2..], s[3..];
    assert s1[1..] == s2 && s2[1..] == s3 && s3[1..] == [];
    assert Unfixed(s3) == s3[0] && Unfixed(s2) == s2[0] + 256 * Unfixed(s3) && Unfixed(s1) == s1[0] + 256 * Unfixed(s2);
  }
}
