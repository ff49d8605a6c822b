/** What the records are made of that the log reader returns (db/log_reader.cc:60-182). */
module LogChecks {
  import opened Keys
  import opened Coding
  import opened Log

  /** A physical record that was returned. */
  datatype Piece = Piece(at: nat, typ: Byte, payload: Bytes)

  function End(piece: Piece): nat {
    piece.at + HEADER_SIZE + |piece.payload|
  }

  function Joined(pieces: seq<Piece>): Bytes {
    if pieces == [] then [] else Joined(pieces[..|pieces| - 1]) + pieces[|pieces| - 1].payload
  }

  /** Neighbouring physical records between `from` and `to`, all of which passed. */
  ghost predicate Passed(crc: Bytes -> Word, checksum: bool, file: Bytes, from: nat, pieces: seq<Piece>, to: nat) {
    && pieces != [] && from <= pieces[0].at && End(pieces[|pieces| - 1]) == to
    && (forall i | 0 <= i < |pieces| :: Returned(crc, checksum, file, pieces[i].at, pieces[i].typ, pieces[i].payload))
    && (forall i | 0 < i < |pieces| :: pieces[i].at == HeaderFrom(End(pieces[i - 1])))
  }

  /** The first fragment of a record and some more. */
  predicate Begun(pieces: seq<Piece>) {
    pieces != [] && pieces[0].typ == FIRST_TYPE && forall i | 0 < i < |pieces| :: pieces[i].typ == MIDDLE_TYPE
  }

  /** A record in one piece, or all its fragments. */
  predicate Complete(pieces: seq<Piece>) {
    && pieces != []
    && if |pieces| == 1 then pieces[0].typ == FULL_TYPE else Begun(pieces[..|pieces| - 1]) && pieces[|pieces| - 1].typ == LAST_TYPE
  }

  /** The fragments gathered come from these pieces. */
  ghost predicate Gathered(
      crc: Bytes -> Word, checksum: bool, file: Bytes, from: nat, pos: nat, gathered: Option<Bytes>, pieces: seq<Piece>) {
    gathered.Some? ==> Passed(crc, checksum, file, from, pieces, pos) && Begun(pieces) && gathered.value == Joined(pieces)
  }

  /** The record comes from those, and they are all of it. */
  ghost predicate MadeOf(crc: Bytes -> Word, checksum: bool, file: Bytes, from: nat, next: nat, record: Bytes, pieces: seq<Piece>) {
    Passed(crc, checksum, file, from, pieces, next) && Complete(pieces) && record == Joined(pieces)
  }

  lemma OnePiece(crc: Bytes -> Word, checksum: bool, file: Bytes, from: nat, pos: nat, piece: Piece)
    requires from <= pos && Returned(crc, checksum, file, piece.at, piece.typ, piece.payload) && piece.at == HeaderFrom(pos)
    ensures Passed(crc, checksum, file, from, [piece], End(piece)) && Joined([piece]) == piece.payload
  {
    assert Joined([piece][..0]) == [];
  }

  lemma MorePieces(crc: Bytes -> Word, checksum: bool, file: Bytes, from: nat, pos: nat, pieces: seq<Piece>, piece: Piece)
    requires Passed(crc, checksum, file, from, pieces, pos) && Begun(pieces)
    requires Returned(crc, checksum, file, piece.at, piece.typ, piece.payload) && piece.at == HeaderFrom(pos)
    ensures var all := pieces + [piece];
      && Passed(crc, checksum, file, from, all, End(piece)) && Joined(all) == Joined(pieces) + piece.payload
      && (piece.typ == MIDDLE_TYPE ==> Begun(all)) && (piece.typ == LAST_TYPE ==> Complete(all))
  {
    hide Returned, HeaderFrom;
    var all := pieces + [piece];
    assert all[..|all| - 1] == pieces;
  }

  /** A record is put together of neighbouring pieces that passed, from its first to its last. */
  lemma {:induction false} LogicalMadeOf(
      crc: Bytes -> Word, checksum: bool, file: Bytes, from: nat, pos: nat, gathered: Option<Bytes>, pieces: seq<Piece>) returns (all: seq<Piece>)
    requires from <= pos <= |file| && Gathered(crc, checksum, file, from, pos, gathered, pieces)
    ensures var o := NextLogical(crc, checksum, file, pos, gathered);
      o.record.Some? ==> MadeOf(crc, checksum, file, from, o.next, o.record.value, all)
    decreases |file| - pos
  {
    hide NextLogical, NextPhysical, Passed, Begun, Complete, Joined, Returned, HeaderFrom;
    UnfoldLogical(crc, checksum, file, pos, gathered);
    var (physical, next) := NextPhysical(crc, checksum, file, pos);
    PhysicalJudged(crc, checksum, file, pos);
    all := [];
    if physical.Record? {
      var piece := Piece(HeaderFrom(pos), physical.typ, physical.payload);
      OnePiece(crc, checksum, file, from, pos, piece);
      OneIs(piece);
      if gathered.Some? {
        MorePieces(crc, checksum, file, from, pos, pieces, piece);
      }
      all := if piece.typ == FULL_TYPE || piece.typ == FIRST_TYPE then [piece] else pieces + [piece];
    }
    match Take(physical, gathered)
    case Settled(_, _) =>
    case Going(more, _) => all := LogicalMadeOf(crc, checksum, file, from, next, more, all);
  }

  lemma OneIs(piece: Piece)
    ensures piece.typ == FULL_TYPE ==> Complete([piece])
    ensures piece.typ == FIRST_TYPE ==> Begun([piece])
  {
  }

  function Total(sizes: seq<nat>): nat {
    if sizes == [] then 0 else sizes[0] + Total(sizes[1..])
  }

  lemma {:induction false} TotalConcat(a: seq<nat>, b: seq<nat>)
    ensures Total(a + b) == Total(a) + Total(b)
  {
    if a == [] {
      assert a + b == b;
    } else {
      assert (a + b)[1..] == a[1..] + b;
      TotalConcat(a[1..], b);
    }
  }

  /** The bytes of a payload, or those given up where a physical record does not pass. */
  function BytesIn(physical: PhysicalRecord): nat {
    match physical
    case Record(_, payload) => |payload|
    case BadRecord(dropped) => if dropped.Some? then dropped.value else 0
    case Eof => 0
  }

  /** All of them that are met while one logical record is read. */
  function BytesMet(crc: Bytes -> Word, checksum: bool, file: Bytes, pos: nat, gathered: Option<Bytes>): nat
    requires pos <= |file|
    decreases |file| - pos
  {
    var (physical, next) := NextPhysical(crc, checksum, file, pos);
    match Take(physical, gathered)
    case Settled(_, _) => BytesIn(physical)
    case Going(more, _) => BytesIn(physical) + BytesMet(crc, checksum, file, next, more)
  }

  /** What one physical record adds is in the record, among the fragments, or reported. */
  lemma TakeAccounts(physical: PhysicalRecord, gathered: Option<Bytes>)
    requires !physical.Eof?
    ensures var before := if gathered.Some? then |gathered.value| else 0;
      match Take(physical, gathered)
      case Settled(record, dropped) => record.Some? && Total(Own(physical) + dropped) + |record.value| == before + BytesIn(physical)
      case Going(more, dropped) =>
        Total(Own(physical) + dropped) + (if more.Some? then |more.value| else 0) == before + BytesIn(physical)
  {
    TotalConcat(Own(physical), match Take(physical, gathered) case Settled(_, d) => d case Going(_, d) => d);
  }

  /** Every byte met is in the record or reported as dropped, except for an unfinished record at the end of
      the file. */
  lemma {:induction false} AllAccounted(crc: Bytes -> Word, checksum: bool, file: Bytes, pos: nat, gathered: Option<Bytes>)
      returns (unfinished: nat)
    requires pos <= |file|
    ensures var o := NextLogical(crc, checksum, file, pos, gathered);
      && Total(o.dropped) + (if o.record.Some? then |o.record.value| else unfinished)
        == (if gathered.Some? then |gathered.value| else 0) + BytesMet(crc, checksum, file, pos, gathered)
      && (o.record == None ==> o.next == |file|)
    decreases |file| - pos
  {
    hide NextPhysical, NextLogical, Total;
    UnfoldLogical(crc, checksum, file, pos, gathered);
    var (physical, next) := NextPhysical(crc, checksum, file, pos);
    unfinished := if gathered.Some? then |gathered.value| else 0;
    if physical.Eof? {
      NothingDropped();
      PhysicalJudged(crc, checksum, file, pos);
    } else {
      TakeAccounts(physical, gathered);
      match Take(physical, gathered)
      case Settled(_, _) =>
      case Going(more, dropped) =>
        unfinished := AllAccounted(crc, checksum, file, next, more);
        TotalConcat(Own(physical) + dropped, NextLogical(crc, checksum, file, next, more).dropped);
    }
  }

  lemma NothingDropped()
    ensures Total([]) == 0 && Own(Eof) == [] && Own(Eof) + [] == []
  {
  }
}
