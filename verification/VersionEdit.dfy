/** The records of the manifest (db/version_edit.cc), and recovery from them (db/version_set.cc). Keys of
    files stay encoded. */
module VersionEdits {
  import opened Keys
  import opened Coding
  import opened VersionBuilder

  const NUM_LEVELS: nat := 7

  const COMPARATOR: nat := 1
  const LOG_NUMBER: nat := 2
  const NEXT_FILE_NUMBER: nat := 3
  const LAST_SEQUENCE: nat := 4
  const COMPACT_POINTER: nat := 5
  const DELETED_FILE: nat := 6
  const NEW_FILE: nat := 7
  const PREV_LOG_NUMBER: nat := 9

  datatype FileMetaData = FileMetaData(number: nat, fileSize: nat, smallest: Bytes, largest: Bytes)

  /** One tagged field of a record. */
  datatype Field =
    | Comparator(name: Bytes)
    | LogNumber(n: nat)
    | PrevLogNumber(n: nat)
    | NextFileNumber(n: nat)
    | LastSequence(n: nat)
    | CompactPointer(level: nat, key: Bytes)
    | DeletedFile(level: nat, number: nat)
    | NewFile(level: nat, file: FileMetaData)

  predicate Encodable(f: Field) {
    match f
    case Comparator(name) => |name| < TWO_32
    case LogNumber(n) => n < TWO_64
    case PrevLogNumber(n) => n < TWO_64
    case NextFileNumber(n) => n < TWO_64
    case LastSequence(n) => n < TWO_64
    case CompactPointer(level, key) => level < NUM_LEVELS && |key| < TWO_32
    case DeletedFile(level, number) => level < NUM_LEVELS && number < TWO_64
    case NewFile(level, file) =>
      level < NUM_LEVELS && file.number < TWO_64 && file.fileSize < TWO_64 && |file.smallest| < TWO_32 && |file.largest| < TWO_32
  }

  function GetLevel(s: Bytes): (r: Option<Parsed<nat>>)
    ensures r.Some? ==> |r.value.rest| < |s|
  {
    match GetVarint32(s)
    case None => None
    case Some(p) => if p.value < NUM_LEVELS then Some(p) else None
  }

  /** The field behind a tag. */
  function ParseField(tag: nat, s: Bytes): (r: Option<Parsed<Field>>)
    ensures r.Some? ==> |r.value.rest| < |s|
  {
    if tag == COMPARATOR then
      match GetLengthPrefixedSlice(s) case None => None case Some(p) => Some(Parsed(Comparator(p.value), p.rest))
    else if tag == LOG_NUMBER then
      match GetVarint64(s) case None => None case Some(p) => Some(Parsed(LogNumber(p.value), p.rest))
    else if tag == PREV_LOG_NUMBER then
      match GetVarint64(s) case None => None case Some(p) => Some(Parsed(PrevLogNumber(p.value), p.rest))
    else if tag == NEXT_FILE_NUMBER then
      match GetVarint64(s) case None => None case Some(p) => Some(Parsed(NextFileNumber(p.value), p.rest))
    else if tag == LAST_SEQUENCE then
      match GetVarint64(s) case None => None case Some(p) => Some(Parsed(LastSequence(p.value), p.rest))
    else if tag == COMPACT_POINTER then ParseCompactPointer(s)
    else if tag == DELETED_FILE then ParseDeletedFile(s)
    else if tag == NEW_FILE then ParseNewFile(s)
    else None
  }

  function ParseCompactPointer(s: Bytes): (r: Option<Parsed<Field>>)
    ensures r.Some? ==> |r.value.rest| < |s|
  {
    match GetLevel(s)
    case None => None
    case Some(level) =>
      match GetLengthPrefixedSlice(level.rest)
      case None => None
      case Some(key) => Some(Parsed(CompactPointer(level.value, key.value), key.rest))
  }

  function ParseDeletedFile(s: Bytes): (r: Option<Parsed<Field>>)
    ensures r.Some? ==> |r.value.rest| < |s|
  {
    match GetLevel(s)
    case None => None
    case Some(level) =>
      match GetVarint64(level.rest)
      case None => None
      case Some(number) => Some(Parsed(DeletedFile(level.value, number.value), number.rest))
  }

  function ParseNewFile(s: Bytes): (r: Option<Parsed<Field>>)
    ensures r.Some? ==> |r.value.rest| < |s|
  {
    match GetLevel(s)
    case None => None
    case Some(level) =>
      match GetVarint64(level.rest)
      case None => None
      case Some(number) =>
        match GetVarint64(number.rest)
        case None => None
        case Some(size) => ParseBounds(level.value, number.value, size.value, size.rest)
  }

  function ParseBounds(level: nat, number: nat, size: nat, s: Bytes): (r: Option<Parsed<Field>>)
    ensures r.Some? ==> |r.value.rest| < |s|
  {
    match GetLengthPrefixedSlice(s)
    case None => None
    case Some(smallest) =>
      match GetLengthPrefixedSlice(smallest.rest)
      case None => None
      case Some(largest) => Some(Parsed(NewFile(level, FileMetaData(number, size, smallest.value, largest.value)), largest.rest))
  }

  lemma LevelRoundTrip(level: nat, rest: Bytes)
    requires level < NUM_LEVELS
    ensures GetLevel(Varint(level) + rest) == Some(Parsed(level, rest))
  {
    Varint32RoundTrip(level, rest);
  }

  function TagOf(f: Field): nat {
    match f
    case Comparator(_) => COMPARATOR
    case LogNumber(_) => LOG_NUMBER
    case PrevLogNumber(_) => PREV_LOG_NUMBER
    case NextFileNumber(_) => NEXT_FILE_NUMBER
    case LastSequence(_) => LAST_SEQUENCE
    case CompactPointer(_, _) => COMPACT_POINTER
    case DeletedFile(_, _) => DELETED_FILE
    case NewFile(_, _) => NEW_FILE
  }

  /** What follows the tag. */
  function Body(f: Field): Bytes {
    match f
    case Comparator(name) => LengthPrefixed(name)
    case LogNumber(n) => Varint(n)
    case PrevLogNumber(n) => Varint(n)
    case NextFileNumber(n) => Varint(n)
    case LastSequence(n) => Varint(n)
    case CompactPointer(level, key) => Varint(level) + LengthPrefixed(key)
    case DeletedFile(level, number) => Varint(level) + Varint(number)
    case NewFile(level, file) =>
      Varint(level) + (Varint(file.number) + (Varint(file.fileSize) + (LengthPrefixed(file.smallest) + LengthPrefixed(file.largest))))
  }

  function EncodeField(f: Field): Bytes {
    Varint(TagOf(f)) + Body(f)
  }

  lemma BodyRoundTrip(f: Field, rest: Bytes)
    requires Encodable(f)
    ensures ParseField(TagOf(f), Body(f) + rest) == Some(Parsed(f, rest))
  {
    hide Varint, LengthPrefixed, GetVarint64, GetLengthPrefixedSlice, GetLevel;
    match f
    case Comparator(name) => LengthPrefixedRoundTrip(name, rest);
    case LogNumber(n) => Varint64RoundTrip(n, rest);
    case PrevLogNumber(n) => Varint64RoundTrip(n, rest);
    case NextFileNumber(n) => Varint64RoundTrip(n, rest);
    case LastSequence(n) => Varint64RoundTrip(n, rest);
    case CompactPointer(level, key) =>
      assert Body(f) + rest == Varint(level) + (LengthPrefixed(key) + rest);
      LevelRoundTrip(level, LengthPrefixed(key) + rest);
      LengthPrefixedRoundTrip(key, rest);
    case DeletedFile(level, number) =>
      assert Body(f) + rest == Varint(level) + (Varint(number) + rest);
      LevelRoundTrip(level, Varint(number) + rest);
      Varint64RoundTrip(number, rest);
    case NewFile(level, file) => NewFileRoundTrip(level, file, rest);
  }

  lemma NewFileRoundTrip(level: nat, file: FileMetaData, rest: Bytes)
    requires Encodable(NewFile(level, file))
    ensures ParseNewFile(Body(NewFile(level, file)) + rest) == Some(Parsed(NewFile(level, file), rest))
  {
    hide Varint, LengthPrefixed, GetVarint64, GetLengthPrefixedSlice, GetLevel;
    var bounds := LengthPrefixed(file.smallest) + (LengthPrefixed(file.largest) + rest);
    assert Body(NewFile(level, file)) + rest == Varint(level) + (Varint(file.number) + (Varint(file.fileSize) + bounds));
    LevelRoundTrip(level, Varint(file.number) + (Varint(file.fileSize) + bounds));
    Varint64RoundTrip(file.number, Varint(file.fileSize) + bounds);
    Varint64RoundTrip(file.fileSize, bounds);
    LengthPrefixedRoundTrip(file.smallest, LengthPrefixed(file.largest) + rest);
    LengthPrefixedRoundTrip(file.largest, rest);
  }

  function EncodeFields(fields: seq<Field>): Bytes {
    if fields == [] then [] else EncodeFields(fields[..|fields| - 1]) + EncodeField(fields[|fields| - 1])
  }

  lemma EncodeFieldsSnoc(fields: seq<Field>, f: Field)
    ensures EncodeFields(fields + [f]) == EncodeFields(fields) + EncodeField(f)
  {
    assert (fields + [f])[..|fields|] == fields;
  }

  lemma {:induction false} EncodeFieldsFront(fields: seq<Field>)
    requires fields != []
    ensures EncodeFields(fields) == Varint(TagOf(fields[0])) + (Body(fields[0]) + EncodeFields(fields[1..]))
  {
    hide Varint, Body, TagOf;
    var init, last := fields[..|fields| - 1], EncodeField(fields[|fields| - 1]);
    if init == [] {
      assert EncodeFields(init) == [] && EncodeFields(fields[1..]) == [];
    } else {
      EncodeFieldsFront(init);
      assert fields[1..][..|fields| - 2] == init[1..];
      var head, body, rest := Varint(TagOf(fields[0])), Body(fields[0]), EncodeFields(init[1..]);
      assert head + (body + rest) + last == head + (body + (rest + last));
    }
  }

  /** Reading fields up to the first fault, and whether there is none. */
  function ParseFields(s: Bytes): (seq<Field>, bool)
    decreases |s|
  {
    match GetVarint32(s)
    case None => ([], s == [])
    case Some(tag) =>
      match ParseField(tag.value, tag.rest)
      case None => ([], false)
      case Some(p) =>
        var (rest, ok) := ParseFields(p.rest);
        ([p.value] + rest, ok)
  }

  ghost predicate AllEncodable(fields: seq<Field>) {
    forall i | 0 <= i < |fields| :: Encodable(fields[i])
  }

  lemma {:induction false} FieldsRoundTrip(fields: seq<Field>)
    requires AllEncodable(fields)
    ensures ParseFields(EncodeFields(fields)) == (fields, true)
  {
    hide Varint, GetVarint32, ParseField, EncodeField, Body, Encodable;
    if fields == [] {
      NothingParsed();
    } else {
      var f, more := fields[0], EncodeFields(fields[1..]);
      EncodeFieldsFront(fields);
      Varint32RoundTrip(TagOf(f), Body(f) + more);
      BodyRoundTrip(f, more);
      FieldsRoundTrip(fields[1..]);
      assert fields == [f] + fields[1..];
    }
  }

  lemma NothingParsed()
    ensures GetVarint32([]) == None
  {
  }

  /** A part of two strings is a part of the first, or the first and a part of the second. */
  lemma CutParts(a: Bytes, b: Bytes, n: nat)
    requires n < |a + b|
    ensures if n < |a| then (a + b)[..n] == a[..n] else n - |a| < |b| && (a + b)[..n] == a + b[..n - |a|]
  {
  }

  lemma NumberCut(v: nat, n: nat)
    requires n < |Varint(v)|
    ensures GetVarint64(Varint(v)[..n]) == None && GetVarint32(Varint(v)[..n]) == None && GetLevel(Varint(v)[..n]) == None
  {
    hide Varint, ReadVarint;
    VarintCut(v, n, 10);
    VarintCut(v, n, 5);
  }

  lemma BoundsCut(level: nat, file: FileMetaData, n: nat)
    requires Encodable(NewFile(level, file)) && n < |LengthPrefixed(file.smallest) + LengthPrefixed(file.largest)|
    ensures ParseBounds(level, file.number, file.fileSize, (LengthPrefixed(file.smallest) + LengthPrefixed(file.largest))[..n]) == None
  {
    hide LengthPrefixed, GetLengthPrefixedSlice;
    var a, b := LengthPrefixed(file.smallest), LengthPrefixed(file.largest);
    CutParts(a, b, n);
    if n < |a| {
      LengthPrefixedCut(file.smallest, n);
    } else {
      LengthPrefixedRoundTrip(file.smallest, b[..n - |a|]);
      LengthPrefixedCut(file.largest, n - |a|);
    }
  }

  lemma NewFileCut(level: nat, file: FileMetaData, n: nat)
    requires Encodable(NewFile(level, file)) && n < |Body(NewFile(level, file))|
    ensures ParseNewFile(Body(NewFile(level, file))[..n]) == None
  {
    hide Varint, LengthPrefixed, GetVarint64, GetVarint32, GetLevel, ParseBounds;
    var bounds := LengthPrefixed(file.smallest) + LengthPrefixed(file.largest);
    var c := Varint(file.fileSize) + bounds;
    var b := Varint(file.number) + c;
    CutParts(Varint(level), b, n);
    if n < |Varint(level)| {
      NumberCut(level, n);
    } else {
      var i := n - |Varint(level)|;
      LevelRoundTrip(level, b[..i]);
      CutParts(Varint(file.number), c, i);
      if i < |Varint(file.number)| {
        NumberCut(file.number, i);
      } else {
        var j := i - |Varint(file.number)|;
        Varint64RoundTrip(file.number, c[..j]);
        CutParts(Varint(file.fileSize), bounds, j);
        if j < |Varint(file.fileSize)| {
          NumberCut(file.fileSize, j);
        } else {
          var k := j - |Varint(file.fileSize)|;
          Varint64RoundTrip(file.fileSize, bounds[..k]);
          BoundsCut(level, file, k);
        }
      }
    }
  }

  /** A part of a field is not read. */
  lemma BodyCut(f: Field, n: nat)
    requires Encodable(f) && n < |Body(f)|
    ensures ParseField(TagOf(f), Body(f)[..n]) == None
  {
    hide Varint, LengthPrefixed, GetVarint64, GetVarint32, GetLengthPrefixedSlice, GetLevel;
    match f
    case Comparator(name) => LengthPrefixedCut(name, n);
    case LogNumber(v) => NumberCut(v, n);
    case PrevLogNumber(v) => NumberCut(v, n);
    case NextFileNumber(v) => NumberCut(v, n);
    case LastSequence(v) => NumberCut(v, n);
    case CompactPointer(level, key) =>
      CutParts(Varint(level), LengthPrefixed(key), n);
      if n < |Varint(level)| {
        NumberCut(level, n);
      } else {
        LevelRoundTrip(level, LengthPrefixed(key)[..n - |Varint(level)|]);
        LengthPrefixedCut(key, n - |Varint(level)|);
      }
    case DeletedFile(level, number) =>
      CutParts(Varint(level), Varint(number), n);
      if n < |Varint(level)| {
        NumberCut(level, n);
      } else {
        LevelRoundTrip(level, Varint(number)[..n - |Varint(level)|]);
        NumberCut(number, n - |Varint(level)|);
      }
    case NewFile(level, file) => NewFileCut(level, file, n);
  }

  /** What is no field: another tag than the eight, a level that there is not, or a part of a field. */
  ghost predicate NoField(bad: Bytes) {
    || (exists tag: nat, rest :: tag < TWO_32 && (tag == 0 || tag == 8 || tag > 9) && bad == Varint(tag) + rest)
    || (exists tag: nat, level: nat, rest :: 5 <= tag <= 7 && 7 <= level < TWO_32 && bad == Varint(tag) + (Varint(level) + rest))
    || (exists f, n :: Encodable(f) && 0 < n < |EncodeField(f)| && bad == EncodeField(f)[..n])
  }

  lemma NoFieldFails(bad: Bytes)
    requires NoField(bad)
    ensures ParseFields(bad) == ([], false)
  {
    hide Varint, GetVarint32, Body, ParseField, Encodable, LengthPrefixed;
    if tag: nat, rest :| tag < TWO_32 && (tag == 0 || tag == 8 || tag > 9) && bad == Varint(tag) + rest {
      Varint32RoundTrip(tag, rest);
      OtherTag(tag, rest);
    } else if tag: nat, level: nat, rest :| 5 <= tag <= 7 && 7 <= level < TWO_32 && bad == Varint(tag) + (Varint(level) + rest) {
      Varint32RoundTrip(tag, Varint(level) + rest);
      OtherLevel(tag, level, rest);
    } else {
      var f, n :| Encodable(f) && 0 < n < |EncodeField(f)| && bad == EncodeField(f)[..n];
      TagByte(f);
      CutParts(Varint(TagOf(f)), Body(f), n);
      Varint32RoundTrip(TagOf(f), Body(f)[..n - 1]);
      BodyCut(f, n - 1);
    }
  }

  lemma TagByte(f: Field)
    ensures |Varint(TagOf(f))| == 1 && TagOf(f) < TWO_32
  {
  }

  lemma OtherTag(tag: nat, s: Bytes)
    requires tag == 0 || tag == 8 || tag > 9
    ensures ParseField(tag, s) == None
  {
  }

  lemma OtherLevel(tag: nat, level: nat, rest: Bytes)
    requires 5 <= tag <= 7 && 7 <= level < TWO_32
    ensures ParseField(tag, Varint(level) + rest) == None
  {
    hide Varint, GetVarint32, GetVarint64, GetLengthPrefixedSlice;
    Varint32RoundTrip(level, rest);
  }

  /** Reading stops at what is no field, with those before it. */
  lemma {:induction false} FaultStops(fields: seq<Field>, bad: Bytes)
    requires AllEncodable(fields) && NoField(bad)
    ensures ParseFields(EncodeFields(fields) + bad) == (fields, false)
  {
    hide Varint, GetVarint32, ParseField, EncodeField, Body, Encodable, NoField;
    if fields == [] {
      NoFieldFails(bad);
      assert [] + bad == bad;
    } else {
      var f, more := fields[0], EncodeFields(fields[1..]) + bad;
      EncodeFieldsFront(fields);
      assert EncodeFields(fields) + bad == Varint(TagOf(f)) + (Body(f) + more);
      Varint32RoundTrip(TagOf(f), Body(f) + more);
      BodyRoundTrip(f, more);
      FaultStops(fields[1..], bad);
      assert fields == [f] + fields[1..];
    }
  }

  /** The contents of a version edit; deleted files are an ordered set. */
  datatype EditData = EditData(
    comparator: Option<Bytes>, logNumber: Option<nat>, prevLogNumber: Option<nat>, nextFileNumber: Option<nat>, lastSequence: Option<nat>,
    compactPointers: seq<(nat, Bytes)>, deletedFiles: seq<(nat, nat)>, newFiles: seq<(nat, FileMetaData)>)

  const EMPTY: EditData := EditData(None, None, None, None, None, [], [], [])

  predicate PairLess(a: (nat, nat), b: (nat, nat)) {
    a.0 < b.0 || (a.0 == b.0 && a.1 < b.1)
  }

  ghost predicate Ascending(s: seq<(nat, nat)>) {
    forall i, j | 0 <= i < j < |s| :: PairLess(s[i], s[j])
  }

  /** Insertion into the ordered set. */
  function InsertPair(s: seq<(nat, nat)>, x: (nat, nat)): seq<(nat, nat)> {
    if s == [] then [x]
    else if s[0] == x then s
    else if PairLess(x, s[0]) then [x] + s
    else [s[0]] + InsertPair(s[1..], x)
  }

  lemma {:induction false} InsertLast(s: seq<(nat, nat)>, x: (nat, nat))
    requires forall i | 0 <= i < |s| :: PairLess(s[i], x)
    ensures InsertPair(s, x) == s + [x]
  {
    if s != [] {
      InsertLast(s[1..], x);
    }
  }

  /** What a field that is read does to the edit. */
  function Take(d: EditData, f: Field): EditData {
    match f
    case Comparator(name) => d.(comparator := Some(name))
    case LogNumber(n) => d.(logNumber := Some(n))
    case PrevLogNumber(n) => d.(prevLogNumber := Some(n))
    case NextFileNumber(n) => d.(nextFileNumber := Some(n))
    case LastSequence(n) => d.(lastSequence := Some(n))
    case CompactPointer(level, key) => d.(compactPointers := d.compactPointers + [(level, key)])
    case DeletedFile(level, number) => d.(deletedFiles := InsertPair(d.deletedFiles, (level, number)))
    case NewFile(level, file) => d.(newFiles := d.newFiles + [(level, file)])
  }

  function TakeAll(d: EditData, fields: seq<Field>): EditData {
    if fields == [] then d else Take(TakeAll(d, fields[..|fields| - 1]), fields[|fields| - 1])
  }

  lemma {:induction false} TakeAllConcat(d: EditData, a: seq<Field>, b: seq<Field>)
    ensures TakeAll(d, a + b) == TakeAll(TakeAll(d, a), b)
  {
    hide Take;
    if b == [] {
      assert a + b == a;
    } else {
      var all := a + b;
      assert all[..|all| - 1] == a + b[..|b| - 1];
      TakeAllConcat(d, a, b[..|b| - 1]);
    }
  }

  function Single(o: Option<nat>, make: nat -> Field): seq<Field> {
    if o.Some? then [make(o.value)] else []
  }

  function PointerFields(s: seq<(nat, Bytes)>): (r: seq<Field>)
    ensures |r| == |s| && forall i | 0 <= i < |s| :: r[i] == CompactPointer(s[i].0, s[i].1)
  {
    seq(|s|, i requires 0 <= i < |s| => CompactPointer(s[i].0, s[i].1))
  }

  function DeletedFields(s: seq<(nat, nat)>): (r: seq<Field>)
    ensures |r| == |s| && forall i | 0 <= i < |s| :: r[i] == DeletedFile(s[i].0, s[i].1)
  {
    seq(|s|, i requires 0 <= i < |s| => DeletedFile(s[i].0, s[i].1))
  }

  function NewFields(s: seq<(nat, FileMetaData)>): (r: seq<Field>)
    ensures |r| == |s| && forall i | 0 <= i < |s| :: r[i] == NewFile(s[i].0, s[i].1)
  {
    seq(|s|, i requires 0 <= i < |s| => NewFile(s[i].0, s[i].1))
  }

  /** The single-valued fields in the order they are written. */
  function HeadFields(d: EditData): seq<Field> {
    (if d.comparator.Some? then [Comparator(d.comparator.value)] else [])
    + Single(d.logNumber, (n: nat) => LogNumber(n)) + Single(d.prevLogNumber, (n: nat) => PrevLogNumber(n))
    + Single(d.nextFileNumber, (n: nat) => NextFileNumber(n)) + Single(d.lastSequence, (n: nat) => LastSequence(n))
  }

  function Fields(d: EditData): seq<Field> {
    HeadFields(d) + PointerFields(d.compactPointers) + DeletedFields(d.deletedFiles) + NewFields(d.newFiles)
  }

  lemma TakeOne(d: EditData, f: Field)
    ensures TakeAll(d, [f]) == Take(d, f) && TakeAll(d, []) == d
  {
    assert [f][..0] == [];
  }

  /** Reading the single-valued fields back. */
  lemma TakeHead(d: EditData, s: EditData)
    requires s.comparator == None && s.logNumber == None && s.prevLogNumber == None && s.nextFileNumber == None && s.lastSequence == None
    ensures TakeAll(s, HeadFields(d)) == d.(compactPointers := s.compactPointers, deletedFiles := s.deletedFiles, newFiles := s.newFiles)
  {
    hide TakeAll;
    var a := if d.comparator.Some? then [Comparator(d.comparator.value)] else [];
    var b, c := Single(d.logNumber, (n: nat) => LogNumber(n)), Single(d.prevLogNumber, (n: nat) => PrevLogNumber(n));
    var e, f := Single(d.nextFileNumber, (n: nat) => NextFileNumber(n)), Single(d.lastSequence, (n: nat) => LastSequence(n));
    TakeAllConcat(s, a + b + c + e, f);
    TakeAllConcat(s, a + b + c, e);
    TakeAllConcat(s, a + b, c);
    TakeAllConcat(s, a, b);
    var s1 := s.(comparator := d.comparator);
    TakeOne(s, if a != [] then a[0] else LogNumber(0));
    assert TakeAll(s, a) == s1;
    var s2 := s1.(logNumber := d.logNumber);
    TakeOne(s1, if b != [] then b[0] else LogNumber(0));
    assert TakeAll(s1, b) == s2;
    var s3 := s2.(prevLogNumber := d.prevLogNumber);
    TakeOne(s2, if c != [] then c[0] else LogNumber(0));
    assert TakeAll(s2, c) == s3;
    var s4 := s3.(nextFileNumber := d.nextFileNumber);
    TakeOne(s3, if e != [] then e[0] else LogNumber(0));
    assert TakeAll(s3, e) == s4;
    TakeOne(s4, if f != [] then f[0] else LogNumber(0));
  }

  lemma {:induction false} TakePointers(d: EditData, s: seq<(nat, Bytes)>)
    ensures TakeAll(d, PointerFields(s)) == d.(compactPointers := d.compactPointers + s)
  {
    if s == [] {
      assert d.compactPointers + s == d.compactPointers;
    } else {
      var init := s[..|s| - 1];
      assert PointerFields(s) == PointerFields(init) + [CompactPointer(s[|s| - 1].0, s[|s| - 1].1)];
      TakePointers(d, init);
      assert d.compactPointers + init + [s[|s| - 1]] == d.compactPointers + s;
    }
  }

  lemma {:induction false} TakeDeleted(d: EditData, s: seq<(nat, nat)>)
    requires Ascending(s) && d.deletedFiles == []
    ensures TakeAll(d, DeletedFields(s)) == d.(deletedFiles := s)
  {
    if s != [] {
      var init := s[..|s| - 1];
      assert DeletedFields(s) == DeletedFields(init) + [DeletedFile(s[|s| - 1].0, s[|s| - 1].1)];
      TakeDeleted(d, init);
      InsertLast(init, s[|s| - 1]);
      assert init + [s[|s| - 1]] == s;
    }
  }

  lemma {:induction false} TakeNew(d: EditData, s: seq<(nat, FileMetaData)>)
    ensures TakeAll(d, NewFields(s)) == d.(newFiles := d.newFiles + s)
  {
    if s == [] {
      assert d.newFiles + s == d.newFiles;
    } else {
      var init := s[..|s| - 1];
      assert NewFields(s) == NewFields(init) + [NewFile(s[|s| - 1].0, s[|s| - 1].1)];
      TakeNew(d, init);
      assert d.newFiles + init + [s[|s| - 1]] == d.newFiles + s;
    }
  }

  /** Reading the fields of an edit, over compaction pointers that were there before, gives the edit with its
      own pointers behind those. */
  lemma TakeFields(d: EditData, pointers: seq<(nat, Bytes)>)
    requires Ascending(d.deletedFiles)
    ensures TakeAll(EMPTY.(compactPointers := pointers), Fields(d)) == d.(compactPointers := pointers + d.compactPointers)
  {
    hide TakeAll, Ascending;
    var start := EMPTY.(compactPointers := pointers);
    var h, p, x, n := HeadFields(d), PointerFields(d.compactPointers), DeletedFields(d.deletedFiles), NewFields(d.newFiles);
    TakeAllConcat(start, h + p + x, n);
    TakeAllConcat(start, h + p, x);
    TakeAllConcat(start, h, p);
    TakeHead(d, start);
    var s1 := d.(compactPointers := pointers, deletedFiles := [], newFiles := []);
    TakePointers(s1, d.compactPointers);
    TakeDeleted(s1.(compactPointers := pointers + d.compactPointers), d.deletedFiles);
    TakeNew(d.(compactPointers := pointers + d.compactPointers, newFiles := []), d.newFiles);
    assert [] + d.newFiles == d.newFiles;
  }

  ghost predicate Writable(d: EditData) {
    Ascending(d.deletedFiles) && AllEncodable(Fields(d))
  }

  class VersionEdit {
    var data: EditData

    constructor ()
      ensures data == EMPTY
    {
      data := EMPTY;
    }

    /** The source leaves the compaction pointers as they are. */
    method Clear()
      modifies this
      ensures data == EMPTY.(compactPointers := old(data).compactPointers)
    {
      data := EMPTY.(compactPointers := data.compactPointers);
    }

    method EncodeTo(dst: Bytes) returns (r: Bytes)
      ensures r == dst + EncodeFields(Fields(data))
    {
      hide EncodeFields, EncodeField;
      NoFields();
      assert dst + [] == dst;
      r := dst;
      var head := HeadFields(data);
      r := EncodeAll(r, dst, [], head);
      r := EncodeAll(r, dst, [] + head, PointerFields(data.compactPointers));
      r := EncodeAll(r, dst, [] + head + PointerFields(data.compactPointers), DeletedFields(data.deletedFiles));
      r := EncodeAll(r, dst, [] + head + PointerFields(data.compactPointers) + DeletedFields(data.deletedFiles), NewFields(data.newFiles));
      assert [] + head == head;
    }

    /** One of the writing loops. */
    method EncodeAll(start: Bytes, ghost dst: Bytes, ghost written: seq<Field>, fields: seq<Field>) returns (r: Bytes)
      requires start == dst + EncodeFields(written)
      ensures r == dst + EncodeFields(written + fields)
    {
      hide EncodeFields, EncodeField;
      r := start;
      assert written + fields[..0] == written;
      for i := 0 to |fields|
        invariant r == dst + EncodeFields(written + fields[..i])
      {
        EncodeFieldsSnoc(written + fields[..i], fields[i]);
        assert written + fields[..i] + [fields[i]] == written + fields[..i + 1];
        r := r + EncodeField(fields[i]);
      }
      assert fields[..|fields|] == fields;
    }

    /** Reads a record; what was read before a fault stays. */
    method DecodeFrom(src: Bytes) returns (ok: bool)
      modifies this
      ensures ok == ParseFields(src).1
      ensures data == TakeAll(EMPTY.(compactPointers := old(data).compactPointers), ParseFields(src).0)
    {
      hide ParseField, GetVarint32, Take;
      Clear();
      var input := src;
      ghost var start, fields: seq<Field> := data, [];
      NoFields();
      assert fields + ParseFields(src).0 == ParseFields(src).0;
      while true
        invariant fields + ParseFields(input).0 == ParseFields(src).0 && ParseFields(input).1 == ParseFields(src).1
        invariant data == TakeAll(start, fields)
        decreases |input|
      {
        var tag := GetVarint32(input);
        if tag == None {
          assert fields + [] == fields;
          return input == [];
        }
        var p := ParseField(tag.value.value, tag.value.rest);
        if p == None {
          assert fields + [] == fields;
          return false;
        }
        ghost var rest := ParseFields(p.value.rest).0;
        assert fields + ([p.value.value] + rest) == fields + [p.value.value] + rest;
        TakeAllConcat(start, fields, [p.value.value]);
        TakeOne(data, p.value.value);
        data := Take(data, p.value.value);
        fields := fields + [p.value.value];
        input := p.value.rest;
      }
    }
  }

  lemma NoFields()
    ensures EncodeFields([]) == []
  {
  }

  /** Decoding what was encoded gives the edit back; an object used before adds its pointers. */
  lemma EditRoundTrip(d: EditData, pointers: seq<(nat, Bytes)>)
    requires Writable(d)
    ensures ParseFields(EncodeFields(Fields(d))) == (Fields(d), true)
    ensures TakeAll(EMPTY.(compactPointers := pointers), Fields(d)) == d.(compactPointers := pointers + d.compactPointers)
  {
    FieldsRoundTrip(Fields(d));
    TakeFields(d, pointers);
  }

  function FileNumber(): FileMetaData -> nat {
    (f: FileMetaData) => f.number
  }

  /** What a builder takes from an edit. */
  function EditOf(d: EditData): FileEdit<FileMetaData> {
    FileEdit((set x | x in d.deletedFiles :: x), d.newFiles)
  }

  ghost predicate IsManifest(records: seq<Bytes>, edits: seq<EditData>) {
    |records| == |edits| && forall i | 0 <= i < |edits| :: Writable(edits[i]) && records[i] == EncodeFields(Fields(edits[i]))
  }

  function EditsOf(edits: seq<EditData>): (r: seq<FileEdit<FileMetaData>>)
    ensures |r| == |edits| && forall i | 0 <= i < |edits| :: r[i] == EditOf(edits[i])
  {
    seq(|edits|, i requires 0 <= i < |edits| => EditOf(edits[i]))
  }

  /** VersionSet::Recover: each record decoded into a fresh edit and applied, and one version saved at the end.
      It holds what applying the edits one at a time had left. */
  method RecoverManifest(
      less: (FileMetaData, FileMetaData) -> bool, base: seq<seq<FileMetaData>>, records: seq<Bytes>, ghost edits: seq<EditData>,
      ghost known: iset<FileMetaData>) returns (levels: seq<seq<FileMetaData>>)
    requires IsManifest(records, edits) && OrderOn(less, known)
    requires forall l | 0 <= l < |base| :: StrictlySorted(less, base[l]) && AllKnown(known, base[l])
    requires CleanHistory(known, FileNumber(), base, EditsOf(edits))
    ensures IsResult(less, FileNumber(), base, EditsOf(edits), levels)
  {
    hide CleanHistory, Writable, Fields, EncodeFields, OrderOn, IsResult;
    var decoded: seq<FileEdit<FileMetaData>> := [];
    for i := 0 to |records|
      invariant decoded == EditsOf(edits)[..i]
    {
      var edit := new VersionEdit();
      var ok := edit.DecodeFrom(records[i]);
      assert Writable(edits[i]);
      EditRoundTrip(edits[i], []);
      assert [] + edits[i].compactPointers == edits[i].compactPointers;
      assert ok;
      decoded := decoded + [EditOf(edit.data)];
    }
    assert EditsOf(edits)[..|records|] == EditsOf(edits);
    levels := Recover(less, FileNumber(), base, decoded, known);
  }
}
