/** Bytes and checksums as the formats have them (db/log_format.h, db/dbformat.h, db/write_batch.cc,
    db/version_edit.cc, table/block_builder.cc, table/format.cc, table/filter_block.cc; RFC 3720). */
module Formats {
  import opened Keys
  import opened Coding
  import opened Crc32c
  import opened Log
  import opened LogFaults
  import opened LogChecksum
  import opened Comparators
  import WriteBatches
  import VersionEdits
  import TableFormat
  import FilterBlocks
  import Blocks
  import MemTables

  lemma NextByte(l: bv32, buf: seq<bv8>, i: nat, p: bv32, x: bv32, q: bv32)
    requires i < |buf| && Fold(l, buf[..i]) == p && Xor(p, Wide(buf[i])) == x && FourBits(0, 0, 0, 0, FourBits(0, 0, 0, 0, x)) == q
    ensures Fold(l, buf[..i + 1]) == q
  {
    hide ZeroByte, FourBits, Xor, Wide;
    assert buf[..i + 1][..i] == buf[..i];
    ZeroByteIs(x);
  }

  /** CRC32C of the digits from 1 to 9. */
  lemma ChecksumOfDigits()
    ensures Extended(0, [0x31, 0x32, 0x33, 0x34, 0x35, 0x36, 0x37, 0x38, 0x39]) == 0xe306_9283
  {
    hide Fold;
    var digits: seq<bv8> := [0x31, 0x32, 0x33, 0x34, 0x35, 0x36, 0x37, 0x38, 0x39];
    FoldNone(0xffff_ffff, digits);
    NextByte(0xffff_ffff, digits, 0, 0xffff_ffff, 0xffff_ffce, 0x6f0a_661c);
    NextByte(0xffff_ffff, digits, 1, 0x6f0a_661c, 0x6f0a_662e, 0x8caa_3b9f);
    NextByte(0xffff_ffff, digits, 2, 0x8caa_3b9f, 0x8caa_3bac, 0xef84_d04d);
    NextByte(0xffff_ffff, digits, 3, 0xef84_d04d, 0xef84_d079, 0x09c5_0b11);
    NextByte(0xffff_ffff, digits, 4, 0x09c5_0b11, 0x09c5_0b24, 0xe72e_dcca);
    NextByte(0xffff_ffff, digits, 5, 0xe72e_dcca, 0xe72e_dcfc, 0xbeca_8e79);
    NextByte(0xffff_ffff, digits, 6, 0xbeca_8e79, 0xbeca_8e4e, 0xedbd_6815);
    NextByte(0xffff_ffff, digits, 7, 0xedbd_6815, 0xedbd_682d, 0x9f78_7f65);
    NextByte(0xffff_ffff, digits, 8, 0x9f78_7f65, 0x9f78_7f5c, 0x1cf9_6d7c);
    assert digits[..9] == digits;
  }

  /** CRC32C of 32 zero bytes, as in section B.4 of RFC 3720. */
  lemma ChecksumOfZeros()
    ensures Value(Filled(0, 32)) == 0x8a91_36aa
  {
    hide Fold, ZeroBytes, Times;
    After31();
    OneMore(31, 0x2f1f_4950, 0x510a_c59a);
    ZeroBytesMultiply(0xffff_ffff, 32);
    Product(0xffff_ffff, 0x510a_c59a, 0xcfe1_eda0, 0x6d65_b9eb, 0xb535_8b38, 0x756e_c955);
    FoldZeros(0xffff_ffff, Bits(Filled(0, 32)));
  }

  lemma FourBytes(v: nat, s: Bytes)
    requires |s| == 4 && v == s[0] + 256 * (s[1] + 256 * (s[2] + 256 * (s[3] as nat)))
    ensures EncodeFixed32(v) == s
  {
    hide Fixed;
    var c := s[2] + 256 * (s[3] as nat);
    var b := s[1] + 256 * c;
    FixedStep(s[0], b, 4);
    FixedStep(s[1], c, 3);
    FixedStep(s[2], s[3], 2);
    FixedStep(s[3], 0, 1);
  }

  lemma FixedStep(b: Byte, rest: nat, n: nat)
    requires n > 0
    ensures Fixed(b + 256 * rest, n) == [b] + Fixed(rest, n - 1) && |Fixed(b + 256 * rest, n)| == n && Fixed(0, 0) == []
  {
    assert (b + 256 * rest) / 256 == rest;
  }

  lemma EightBytes(v: nat, s: Bytes)
    requires |s| == 8 && s[2..] == [0, 0, 0, 0, 0, 0] && v == s[0] + 256 * (s[1] as nat)
    ensures EncodeFixed64(v) == s
  {
    hide Fixed;
    FixedStep(s[0], s[1], 8);
    FixedStep(s[1], 0, 7);
    NoBytes(6);
    assert Fixed(0, 6) == s[2..];
  }

  lemma {:induction false} NoBytes(n: nat)
    ensures Fixed(0, n) == seq(n, i => 0)
  {
    if n > 0 {
      NoBytes(n - 1);
    }
  }

  /** An internal key: the user key, and then the sequence number and the type in eight bytes. */
  lemma InternalKeyBytes()
    ensures Encoded(InternalKey([0x61], 2, TYPE_VALUE)) == [0x61, 1, 2, 0, 0, 0, 0, 0, 0]
    ensures Encoded(InternalKey([0x61], 2, TYPE_DELETION)) == [0x61, 0, 2, 0, 0, 0, 0, 0, 0]
  {
    hide EncodeFixed64;
    EightBytes(513, [1, 2, 0, 0, 0, 0, 0, 0]);
    EightBytes(512, [0, 2, 0, 0, 0, 0, 0, 0]);
  }

  /** A batch with sequence number 7 that puts "k" and deletes "d". */
  lemma BatchBytes()
    ensures WriteBatches.Contents(7, 2, WriteBatches.EncodeOps([WriteBatches.Put([0x6b], [0x76]), WriteBatches.Delete([0x64])]))
      == [7, 0, 0, 0, 0, 0, 0, 0, 2, 0, 0, 0, 1, 1, 0x6b, 1, 0x76, 0, 1, 0x64]
  {
    hide WriteBatches.EncodeOp, EncodeFixed32, EncodeFixed64;
    var put, delete := WriteBatches.Put([0x6b], [0x76]), WriteBatches.Delete([0x64]);
    assert [put, delete][..1] == [put] && [put][..0] == [];
    OpBytes();
    EightBytes(7, [7, 0, 0, 0, 0, 0, 0, 0]);
    FourBytes(2, [2, 0, 0, 0]);
  }

  lemma OpBytes()
    ensures WriteBatches.EncodeOp(WriteBatches.Put([0x6b], [0x76])) == [1, 1, 0x6b, 1, 0x76]
    ensures WriteBatches.EncodeOp(WriteBatches.Delete([0x64])) == [0, 1, 0x64]
  {
  }

  /** The fields of a version edit. */
  lemma EditBytes()
    ensures VersionEdits.EncodeField(VersionEdits.Field.Comparator([0x63])) == [1, 1, 0x63]
    ensures VersionEdits.EncodeField(VersionEdits.LogNumber(5)) == [2, 5]
    ensures VersionEdits.EncodeField(VersionEdits.NextFileNumber(6)) == [3, 6]
    ensures VersionEdits.EncodeField(VersionEdits.LastSequence(7)) == [4, 7]
    ensures VersionEdits.EncodeField(VersionEdits.CompactPointer(1, [0x6b])) == [5, 1, 1, 0x6b]
    ensures VersionEdits.EncodeField(VersionEdits.DeletedFile(2, 6)) == [6, 2, 6]
    ensures VersionEdits.EncodeField(VersionEdits.NewFile(0, VersionEdits.FileMetaData(6, 100, [0x61], [0x62]))) == [7, 0, 6, 100, 1, 0x61, 1, 0x62]
    ensures VersionEdits.EncodeField(VersionEdits.PrevLogNumber(0)) == [9, 0]
  {
  }

  /** A record takes three blocks: it is a first, a middle and a last fragment, each with its checksum, length
      and type in front. What is left of a block behind it, less than a header, is zeros. */
  lemma LogExample(crc: Bytes -> Word, data: Bytes)
    requires |data| == 97270
    ensures Appended(crc, 1007, data, true)
      == Physical(crc, 2, data[..31754]) + (Physical(crc, 3, data[31754..64515]) + Physical(crc, 4, data[64515..]))
    ensures Appended(crc, 98298, [], true) == [0, 0, 0, 0, 0, 0] + Physical(crc, 1, [])
  {
    hide Physical, Appended;
    UnfoldAppended(crc, 1007, data, true);
    UnfoldAppended(crc, 32768, data[31754..], false);
    assert data[31754..][..32761] == data[31754..64515] && data[31754..][32761..] == data[64515..];
    UnfoldAppended(crc, 65536, data[64515..], false);
    UnfoldAppended(crc, 98298, [], true);
    UnfoldAppended(crc, 98304, [], true);
  }

  lemma PhysicalBytes(crc: Bytes -> Word, typ: Byte, payload: Bytes)
    requires |payload| == 1000 && crc([typ] + payload) == 0xc331_6a43
    ensures Physical(crc, typ, payload) == [0x3a, 0x71, 0x0a, 0x77, 0xe8, 0x03, typ] + payload
  {
    hide EncodeFixed32;
    assert Mask(0xc331_6a43) == 0x770a_713a;
    FourBytes(0x770a_713a, [0x3a, 0x71, 0x0a, 0x77]);
  }

  /** Two entries of a block, the second of which shares a byte of its key with the first. */
  lemma BlockBytes()
    ensures Blocks.EncodeEntry(0, Blocks.Pair([0x61, 0x62], [0x78])) == [0, 2, 1, 0x61, 0x62, 0x78]
    ensures Blocks.EncodeEntry(1, Blocks.Pair([0x61, 0x63], [0x79])) == [1, 1, 1, 0x63, 0x79]
    ensures Blocks.EncodeRestarts([0, 6]) == [0, 0, 0, 0, 6, 0, 0, 0]
  {
    hide EncodeFixed32;
    assert [0, 6][..1] == [0] && [0][..0] == [];
    FourBytes(0, [0, 0, 0, 0]);
    FourBytes(6, [6, 0, 0, 0]);
  }

  /** The footer of a table with metaindex block at 5, 6 bytes long, and index block at 7, 8 bytes long. */
  lemma FooterBytes()
    ensures TableFormat.EncodeFooter(TableFormat.BlockHandle(5, 6), TableFormat.BlockHandle(7, 8))
      == [5, 6, 7, 8] + seq(36, i => 0) + [0x57, 0xfb, 0x80, 0x8b, 0x24, 0x75, 0x47, 0xdb]
  {
    hide EncodeFixed32;
    FourBytes(0x8b80_fb57, [0x57, 0xfb, 0x80, 0x8b]);
    FourBytes(0xdb47_7524, [0x24, 0x75, 0x47, 0xdb]);
  }

  /** A filter block without filters. */
  lemma FilterBytes()
    ensures FilterBlocks.FilterBlock([], []) == [0, 0, 0, 0, 11]
  {
    FourBytes(0, [0, 0, 0, 0]);
  }

  /** A memtable entry: an internal key and a value, each with its length. */
  lemma MemTableBytes()
    ensures MemTables.EntryBytes(Entry(InternalKey([0x61], 2, TYPE_VALUE), [0x76])) == [9, 0x61, 1, 2, 0, 0, 0, 0, 0, 0, 1, 0x76]
  {
    InternalKeyBytes();
  }
}
