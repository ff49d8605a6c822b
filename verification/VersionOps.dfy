/** Searching and choosing files of a version (db/version_set.cc). */
module VersionOps {
  import opened Keys
  import opened Tables

  /** `i` is the first file whose largest key is at or after `key`. */
  ghost predicate FirstNotBefore<K(!new), V(!new)>(lt: (K, K) -> bool, files: seq<File<K, V>>, key: InternalKey<K>, i: nat)
  {
    && i <= |files|
    && (forall j | 0 <= j < i :: InternalLess(lt, files[j].largest, key))
    && (forall j | i <= j < |files| :: !InternalLess(lt, files[j].largest, key))
  }

  /** In a sorted level the largest keys ascend. */
  lemma LargestAscend<K(!new), V(!new)>(lt: (K, K) -> bool, files: seq<File<K, V>>, i: nat, j: nat)
    requires TotalOrder(lt) && AllWellFormed(lt, files) && SortedDisjoint(lt, files) && i < j < |files|
    ensures InternalLess(lt, files[i].largest, files[j].largest)
  {
    assert files[j] in files;
    WithinBounds(lt, files[j], files[j].entries[0]);
    assert InternalLess(lt, files[i].largest, files[j].smallest);
  }

  method FindFile<K(==, !new), V(!new)>(lt: (K, K) -> bool, files: seq<File<K, V>>, key: InternalKey<K>) returns (index: nat)
    requires TotalOrder(lt) && AllWellFormed(lt, files) && SortedDisjoint(lt, files)
    ensures FirstNotBefore(lt, files, key, index)
  {
    var left, right := 0, |files|;
    while left < right
      invariant 0 <= left <= right <= |files|
      invariant forall j | 0 <= j < left :: InternalLess(lt, files[j].largest, key)
      invariant forall j | right <= j < |files| :: !InternalLess(lt, files[j].largest, key)
    {
      var mid := (left + right) / 2;
      if InternalLess(lt, files[mid].largest, key) {
        forall j | 0 <= j < mid ensures InternalLess(lt, files[j].largest, key) {
          LargestAscend(lt, files, j, mid);
        }
        left := mid + 1;
      } else {
        forall j | mid < j < |files| ensures !InternalLess(lt, files[j].largest, key) {
          LargestAscend(lt, files, mid, j);
        }
        right := mid;
      }
    }
    index := right;
  }

  predicate AfterFile<K, V>(lt: (K, K) -> bool, userKey: Option<K>, f: File<K, V>)
  {
    userKey.Some? && lt(f.largest.user, userKey.value)
  }

  predicate BeforeFile<K, V>(lt: (K, K) -> bool, userKey: Option<K>, f: File<K, V>)
  {
    userKey.Some? && lt(userKey.value, f.smallest.user)
  }

  method SomeFileOverlapsRange<K(==, !new), V(!new)>(
      lt: (K, K) -> bool, disjointSortedFiles: bool, files: seq<File<K, V>>, smallest: Option<K>, largest: Option<K>)
      returns (overlap: bool)
    requires TotalOrder(lt) && AllWellFormed(lt, files)
    requires disjointSortedFiles ==> SortedDisjoint(lt, files)
    requires forall f | f in files, i | 0 <= i < |f.entries| :: f.entries[i].key.seqno <= MAX_SEQUENCE
    ensures overlap <==> exists f :: f in files && Overlaps(lt, f, smallest, largest)
  {
    if !disjointSortedFiles {
      for i := 0 to |files|
        invariant forall j | 0 <= j < i :: files[j] in files && !Overlaps(lt, files[j], smallest, largest)
      {
        assert files[i] in files;
        if AfterFile(lt, smallest, files[i]) || BeforeFile(lt, largest, files[i]) {
          // No overlap
        } else {
          assert Overlaps(lt, files[i], smallest, largest);
          return true;
        }
      }
      return false;
    }
    var index := 0;
    if smallest.Some? {
      index := FindFile(lt, files, InternalKey(smallest.value, MAX_SEQUENCE, TYPE_VALUE));
    }
    forall j | 0 <= j < index ensures !Overlaps(lt, files[j], smallest, largest) {
      LargestBelowEarliest(lt, files[j], smallest.value);
    }
    if index >= |files| {
      return false;
    }
    assert files[index] in files;
    if BeforeFile(lt, largest, files[index]) {
      forall j | index < j < |files| ensures !Overlaps(lt, files[j], smallest, largest) {
        assert InternalLess(lt, files[index].largest, files[j].smallest);
        WithinBounds(lt, files[index], files[index].entries[0]);
      }
      overlap := false;
    } else {
      assert Overlaps(lt, files[index], smallest, largest);
      overlap := true;
    }
  }

  /** A file that ends before the earliest internal key of a user key ends before that user key. */
  lemma LargestBelowEarliest<K(!new), V(!new)>(lt: (K, K) -> bool, f: File<K, V>, user: K)
    requires TotalOrder(lt) && WellFormed(lt, f) && f.largest.seqno <= MAX_SEQUENCE
    requires InternalLess(lt, f.largest, InternalKey(user, MAX_SEQUENCE, TYPE_VALUE))
    ensures lt(f.largest.user, user)
  {
  }

  /** The files that overlap a range, in order. */
  function Overlapping<K(!new), V(!new)>(lt: (K, K) -> bool, files: seq<File<K, V>>, begin: Option<K>, end: Option<K>): (r: seq<File<K, V>>)
    ensures forall f :: f in r <==> f in files && Overlaps(lt, f, begin, end)
  {
    if files == [] then []
    else
      var last := files[|files| - 1];
      assert forall f :: f in files <==> f in files[..|files| - 1] || f == last;
      Overlapping(lt, files[..|files| - 1], begin, end) + if Overlaps(lt, last, begin, end) then [last] else []
  }

  /** `wide` reaches at least as far down as `bound`; an absent bound is unbounded and stays so. */
  ghost predicate BeginsBefore<K>(lt: (K, K) -> bool, wide: Option<K>, bound: Option<K>)
    ensures BeginsBefore(lt, wide, bound) ==> wide.Some? == bound.Some?
  {
    wide.Some? == bound.Some? && (wide.Some? ==> !lt(bound.value, wide.value))
  }

  ghost predicate EndsAfter<K>(lt: (K, K) -> bool, wide: Option<K>, bound: Option<K>)
    ensures EndsAfter(lt, wide, bound) ==> wide.Some? == bound.Some?
  {
    wide.Some? == bound.Some? && (wide.Some? ==> !lt(wide.value, bound.value))
  }

  /** The file does not stick out of the range. */
  ghost predicate Inside<K, V>(lt: (K, K) -> bool, f: File<K, V>, begin: Option<K>, end: Option<K>)
  {
    && (begin.Some? ==> !lt(f.smallest.user, begin.value))
    && (end.Some? ==> !lt(end.value, f.largest.user))
  }

  /** Every file that overlaps the range lies inside it. */
  ghost predicate Closed<K(!new), V(!new)>(lt: (K, K) -> bool, files: seq<File<K, V>>, begin: Option<K>, end: Option<K>)
  {
    forall f | f in files && Overlaps(lt, f, begin, end) :: Inside(lt, f, begin, end)
  }

  /** The files that could still pull the lower bound down. */
  ghost function BeginningBelow<K(!new), V(!new)>(lt: (K, K) -> bool, files: seq<File<K, V>>, begin: Option<K>): set<File<K, V>>
  {
    set f | f in files && begin.Some? && lt(f.smallest.user, begin.value)
  }

  ghost function EndingAbove<K(!new), V(!new)>(lt: (K, K) -> bool, files: seq<File<K, V>>, end: Option<K>): set<File<K, V>>
  {
    set f | f in files && end.Some? && lt(end.value, f.largest.user)
  }

  lemma BeginningBelowShrinks<K(!new), V(!new)>(lt: (K, K) -> bool, files: seq<File<K, V>>, f: File<K, V>, begin: Option<K>)
    requires TotalOrder(lt)
    requires f in files && begin.Some? && lt(f.smallest.user, begin.value)
    ensures BeginningBelow(lt, files, Some(f.smallest.user)) < BeginningBelow(lt, files, begin)
  {
    assert f in BeginningBelow(lt, files, begin) && f !in BeginningBelow(lt, files, Some(f.smallest.user));
  }

  lemma EndingAboveShrinks<K(!new), V(!new)>(lt: (K, K) -> bool, files: seq<File<K, V>>, f: File<K, V>, end: Option<K>)
    requires TotalOrder(lt)
    requires f in files && end.Some? && lt(end.value, f.largest.user)
    ensures EndingAbove(lt, files, Some(f.largest.user)) < EndingAbove(lt, files, end)
  {
    assert f in EndingAbove(lt, files, end) && f !in EndingAbove(lt, files, Some(f.largest.user));
  }

  /** Every closed range around the given one reaches as far as the widened one. */
  ghost predicate Least<K(!new), V(!new)>(
      lt: (K, K) -> bool, files: seq<File<K, V>>, begin: Option<K>, end: Option<K>, wideBegin: Option<K>, wideEnd: Option<K>)
  {
    forall b, e | BeginsBefore(lt, b, begin) && EndsAfter(lt, e, end) && Closed(lt, files, b, e) ::
      BeginsBefore(lt, b, wideBegin) && EndsAfter(lt, e, wideEnd)
  }

  lemma LeastRefl<K(!new), V(!new)>(lt: (K, K) -> bool, files: seq<File<K, V>>, begin: Option<K>, end: Option<K>)
    ensures Least(lt, files, begin, end, begin, end)
    ensures TotalOrder(lt) ==> BeginsBefore(lt, begin, begin) && EndsAfter(lt, end, end)
  {
  }

  /** Widening to a file that overlaps keeps the range the least. */
  lemma LeastStep<K(!new), V(!new)>(
      lt: (K, K) -> bool, files: seq<File<K, V>>, begin: Option<K>, end: Option<K>, b: Option<K>, e: Option<K>, f: File<K, V>)
    requires TotalOrder(lt)
    requires Least(lt, files, begin, end, b, e) && f in files && Overlaps(lt, f, b, e)
    requires BeginsBefore(lt, b, begin) && EndsAfter(lt, e, end)
    ensures b.Some? ==> Least(lt, files, begin, end, Some(f.smallest.user), e)
    ensures e.Some? ==> Least(lt, files, begin, end, b, Some(f.largest.user))
    ensures b.Some? && lt(f.smallest.user, b.value) ==> BeginsBefore(lt, Some(f.smallest.user), begin)
    ensures e.Some? && lt(e.value, f.largest.user) ==> EndsAfter(lt, Some(f.largest.user), end)
  {
    forall c, d | BeginsBefore(lt, c, begin) && EndsAfter(lt, d, end) && Closed(lt, files, c, d)
      ensures Inside(lt, f, c, d)
    {
      assert BeginsBefore(lt, c, b) && EndsAfter(lt, d, e);
      assert Overlaps(lt, f, c, d);
    }
  }

  method GetOverlappingInputs<K(==, !new), V(!new)>(
      lt: (K, K) -> bool, level: nat, files: seq<File<K, V>>, begin: Option<K>, end: Option<K>)
      returns (inputs: seq<File<K, V>>, ghost wideBegin: Option<K>, ghost wideEnd: Option<K>)
    requires TotalOrder(lt)
    ensures inputs == Overlapping(lt, files, wideBegin, wideEnd)
    ensures BeginsBefore(lt, wideBegin, begin) && EndsAfter(lt, wideEnd, end)
    ensures level > 0 ==> wideBegin == begin && wideEnd == end
    ensures level == 0 ==> Closed(lt, files, wideBegin, wideEnd)
    ensures Least(lt, files, begin, end, wideBegin, wideEnd)
  {
    hide Least, BeginningBelow, EndingAbove, TotalOrder, BeginsBefore, EndsAfter;
    LeastRefl(lt, files, begin, end);
    var userBegin, userEnd := begin, end;
    inputs := [];
    var i := 0;
    while i < |files|
      invariant 0 <= i <= |files|
      invariant inputs == Overlapping(lt, files[..i], userBegin, userEnd)
      invariant BeginsBefore(lt, userBegin, begin) && EndsAfter(lt, userEnd, end)
      invariant level > 0 ==> userBegin == begin && userEnd == end
      invariant level == 0 ==> Closed(lt, files[..i], userBegin, userEnd)
      invariant Least(lt, files, begin, end, userBegin, userEnd)
      decreases BeginningBelow(lt, files, userBegin), EndingAbove(lt, files, userEnd), |files| - i
    {
      var f := files[i];
      assert files[..i + 1][..i] == files[..i];
      i := i + 1;
      var fileStart, fileLimit := f.smallest.user, f.largest.user;
      if begin.Some? && lt(fileLimit, userBegin.value) {
        // Before the range
      } else if end.Some? && lt(userEnd.value, fileStart) {
        // After the range
      } else {
        inputs := inputs + [f];
        if level == 0 {
          if begin.Some? && lt(fileStart, userBegin.value) {
            BeginningBelowShrinks(lt, files, f, userBegin);
            LeastStep(lt, files, begin, end, userBegin, userEnd, f);
            userBegin := Some(fileStart);
            inputs := [];
            i := 0;
          } else if end.Some? && lt(userEnd.value, fileLimit) {
            EndingAboveShrinks(lt, files, f, userEnd);
            LeastStep(lt, files, begin, end, userBegin, userEnd, f);
            userEnd := Some(fileLimit);
            inputs := [];
            i := 0;
          }
        }
      }
    }
    assert files[..i] == files;
    wideBegin, wideEnd := userBegin, userEnd;
  }

  const MAX_MEM_COMPACT_LEVEL := 2

  ghost predicate OverlapInLevel<K(!new), V(!new)>(lt: (K, K) -> bool, v: Version<K, V>, level: nat, begin: K, end: K)
    requires level < |v.levels|
  {
    exists f :: f in v.levels[level] && Overlaps(lt, f, Some(begin), Some(end))
  }

  /** Sequence numbers fit the 56 bits the trailer leaves them. */
  ghost predicate InRange<K(!new), V(!new)>(v: Version<K, V>) {
    forall l, f, i | 0 <= l < |v.levels| && f in v.levels[l] && 0 <= i < |f.entries| :: f.entries[i].key.seqno <= MAX_SEQUENCE
  }

  /** The bytes two levels down that the range overlaps. */
  ghost function GrandParentBytes<K(!new), V(!new)>(lt: (K, K) -> bool, v: Version<K, V>, level: nat, smallest: K, largest: K): nat
    requires |v.levels| == NUM_LEVELS && level + 2 < NUM_LEVELS
  {
    TotalFileSize(Overlapping(lt, v.levels[level + 2], Some(smallest), Some(largest)))
  }

  /** The deepest level to which a table may be pushed down: past levels that do not overlap it, with few
      enough bytes two levels below each, and no further for one of those reasons. */
  ghost predicate LevelForMemTable<K(!new), V(!new)>(
      lt: (K, K) -> bool, v: Version<K, V>, smallest: K, largest: K, maxGrandParentOverlapBytes: nat, level: nat)
    requires |v.levels| == NUM_LEVELS
  {
    && level <= MAX_MEM_COMPACT_LEVEL
    && (level > 0 ==> forall l | 0 <= l <= level :: !OverlapInLevel(lt, v, l, smallest, largest))
    && (forall l | 0 <= l < level :: GrandParentBytes(lt, v, l, smallest, largest) <= maxGrandParentOverlapBytes)
    && (level < MAX_MEM_COMPACT_LEVEL ==>
          || (level == 0 && OverlapInLevel(lt, v, 0, smallest, largest)) || OverlapInLevel(lt, v, level + 1, smallest, largest)
          || GrandParentBytes(lt, v, level, smallest, largest) > maxGrandParentOverlapBytes)
  }

  /** A flushed table goes to the deepest level, at most 2, that it can reach without meeting a file that
      overlaps it or too many bytes below. */
  method PickLevelForMemTableOutput<K(==, !new), V(!new)>(
      lt: (K, K) -> bool, v: Version<K, V>, smallest: K, largest: K, maxGrandParentOverlapBytes: nat)
      returns (level: nat)
    requires TotalOrder(lt) && ValidVersion(lt, v) && InRange(v)
    ensures LevelForMemTable(lt, v, smallest, largest, maxGrandParentOverlapBytes, level)
  {
    hide TotalOrder, ValidVersion, Overlapping, Overlaps, TotalFileSize, Least, Closed, BeginsBefore, EndsAfter;
    level := 0;
    LevelIsValid(lt, v, 0);
    var overlap := SomeFileOverlapsRange(lt, false, v.levels[0], Some(smallest), Some(largest));
    if !overlap {
      while level < MAX_MEM_COMPACT_LEVEL
        invariant level <= MAX_MEM_COMPACT_LEVEL
        invariant forall l | 0 <= l <= level :: !OverlapInLevel(lt, v, l, smallest, largest)
        invariant forall l | 0 <= l < level :: GrandParentBytes(lt, v, l, smallest, largest) <= maxGrandParentOverlapBytes
      {
        LevelIsValid(lt, v, level + 1);
        overlap := SomeFileOverlapsRange(lt, true, v.levels[level + 1], Some(smallest), Some(largest));
        if overlap {
          break;
        }
        if level + 2 < NUM_LEVELS {
          var overlaps, _, _ := GetOverlappingInputs(lt, level + 2, v.levels[level + 2], Some(smallest), Some(largest));
          if TotalFileSize(overlaps) > maxGrandParentOverlapBytes {
            break;
          }
        }
        level := level + 1;
      }
    }
  }

  /** `smallest` and `largest` are the least and greatest bounds of the files. */
  ghost predicate IsRange<K(!new), V(!new)>(lt: (K, K) -> bool, files: seq<File<K, V>>, smallest: InternalKey<K>, largest: InternalKey<K>) {
    && (exists f :: f in files && f.smallest == smallest)
    && (exists f :: f in files && f.largest == largest)
    && (forall f | f in files :: !InternalLess(lt, f.smallest, smallest) && !InternalLess(lt, largest, f.largest))
  }

  method GetRange<K(==, !new), V(!new)>(lt: (K, K) -> bool, inputs: seq<File<K, V>>) returns (smallest: InternalKey<K>, largest: InternalKey<K>)
    requires TotalOrder(lt) && inputs != []
    ensures IsRange(lt, inputs, smallest, largest)
  {
    smallest, largest := inputs[0].smallest, inputs[0].largest;
    for i := 1 to |inputs|
      invariant exists f :: f in inputs[..i] && f.smallest == smallest
      invariant exists f :: f in inputs[..i] && f.largest == largest
      invariant forall f | f in inputs[..i] :: !InternalLess(lt, f.smallest, smallest) && !InternalLess(lt, largest, f.largest)
    {
      var f := inputs[i];
      assert inputs[..i + 1] == inputs[..i] + [f];
      if InternalLess(lt, f.smallest, smallest) {
        smallest := f.smallest;
      }
      if InternalLess(lt, largest, f.largest) {
        largest := f.largest;
      }
    }
    assert inputs[..|inputs|] == inputs;
  }

  /** With a file, the inputs hold every file of the level whose user keys may meet its own. */
  ghost predicate ClosedInputs<K(!new), V(!new)>(lt: (K, K) -> bool, files: seq<File<K, V>>, inputs: seq<File<K, V>>) {
    forall f, g | f in inputs && g in files && Overlaps(lt, g, Some(f.smallest.user), Some(f.largest.user)) :: g in inputs
  }

  lemma ClosedRangeGivesClosedInputs<K(!new), V(!new)>(lt: (K, K) -> bool, files: seq<File<K, V>>, begin: Option<K>, end: Option<K>)
    requires TotalOrder(lt) && Closed(lt, files, begin, end)
    ensures ClosedInputs(lt, files, Overlapping(lt, files, begin, end))
  {
  }

  /** Files within a range overlap it. */
  lemma InRangeOverlaps<K(!new), V(!new)>(
      lt: (K, K) -> bool, files: seq<File<K, V>>, inputs: seq<File<K, V>>, smallest: InternalKey<K>, largest: InternalKey<K>,
      begin: Option<K>, end: Option<K>)
    requires TotalOrder(lt) && AllWellFormed(lt, inputs) && IsRange(lt, inputs, smallest, largest)
    requires BeginsBefore(lt, begin, Some(smallest.user)) && EndsAfter(lt, end, Some(largest.user))
    ensures forall f | f in inputs :: Overlaps(lt, f, begin, end)
  {
    forall f | f in inputs ensures Overlaps(lt, f, begin, end) {
      HoldsOverlaps(lt, f, f.entries[0], begin, end);
    }
  }

  /** The inputs are the level's files that overlap some range, in the order of the level. */
  ghost predicate InLevelOrder<K(!new), V(!new)>(lt: (K, K) -> bool, files: seq<File<K, V>>, inputs: seq<File<K, V>>) {
    exists begin: Option<K>, end: Option<K> :: inputs == Overlapping(lt, files, begin, end)
  }

  /** The inputs of a compaction of one picked file; at level 0, of all it may share keys with. */
  method PickInputs<K(==, !new), V(!new)>(lt: (K, K) -> bool, v: Version<K, V>, level: nat, picked: File<K, V>) returns (inputs: seq<File<K, V>>)
    requires TotalOrder(lt) && ValidVersion(lt, v) && level + 1 < NUM_LEVELS && picked in v.levels[level]
    ensures picked in inputs && forall f | f in inputs :: f in v.levels[level]
    ensures level == 0 ==> ClosedInputs(lt, v.levels[0], inputs)
    ensures if level > 0 then inputs == [picked] else MayGrowTo(lt, 0, v.levels[0], [picked], [], inputs)
    ensures inputs == [picked] || InLevelOrder(lt, v.levels[level], inputs)
  {
    inputs := [picked];
    LevelIsValid(lt, v, level);
    if level == 0 {
      var smallest, largest := GetRange(lt, inputs);
      ghost var begin, end;
      inputs, begin, end := GetOverlappingInputs(lt, 0, v.levels[0], Some(smallest.user), Some(largest.user));
      assert [picked] + [] == [picked];
      Grows(lt, 0, v.levels[0], [picked], [], smallest, largest, inputs, begin, end);
      InRangeOverlaps(lt, v.levels[0], [picked], smallest, largest, begin, end);
      assert picked in [picked];
      ClosedRangeGivesClosedInputs(lt, v.levels[0], begin, end);
    }
  }

  /** The lower files are just those that overlap the range of user keys of the upper ones. */
  ghost predicate LowerAre<K(!new), V(!new)>(lt: (K, K) -> bool, files: seq<File<K, V>>, upper: seq<File<K, V>>, lower: seq<File<K, V>>) {
    forall smallest, largest | IsRange(lt, upper, smallest, largest) :: lower == Overlapping(lt, files, Some(smallest.user), Some(largest.user))
  }

  /** What the inputs of a level may grow to: its files that overlap the range of those and the lower inputs,
      at level 0 also what those overlap in turn. */
  ghost predicate MayGrowTo<K(!new), V(!new)>(
      lt: (K, K) -> bool, level: nat, files: seq<File<K, V>>, inputs: seq<File<K, V>>, lower: seq<File<K, V>>, wider: seq<File<K, V>>)
  {
    exists smallest, largest, begin: Option<K>, end: Option<K> ::
      && IsRange(lt, inputs + lower, smallest, largest) && wider == Overlapping(lt, files, begin, end)
      && BeginsBefore(lt, begin, Some(smallest.user)) && EndsAfter(lt, end, Some(largest.user))
      && (level > 0 ==> begin == Some(smallest.user) && end == Some(largest.user))
      && (level == 0 ==> Closed(lt, files, begin, end) && Least(lt, files, Some(smallest.user), Some(largest.user), begin, end))
  }

  /** The lower inputs are what overlaps the upper ones, which are grown to `wider` just if that is more, not too
      many bytes with the lower ones, and overlaps no more of the next level. */
  ghost predicate GrowInputs<K(!new), V(!new)>(
      lt: (K, K) -> bool, v: Version<K, V>, level: nat, inputs: seq<File<K, V>>, expandedLimit: nat, inputs0: seq<File<K, V>>,
      inputs1: seq<File<K, V>>, wider: seq<File<K, V>>)
    requires level + 1 < |v.levels|
  {
    && LowerAre(lt, v.levels[level + 1], inputs, inputs1)
    && (inputs1 != [] ==> MayGrowTo(lt, level, v.levels[level], inputs, inputs1, wider))
    && inputs0 ==
      if inputs1 != [] && |wider| > |inputs| && TotalFileSize(inputs1) + TotalFileSize(wider) < expandedLimit
        && LowerAre(lt, v.levels[level + 1], wider, inputs1) then wider else inputs
  }

  /** What a compaction of one picked file takes: that file, at level 0 with all it overlaps in turn, and then
      what SetupOtherInputs makes of it. */
  ghost predicate ChosenInputs<K(!new), V(!new)>(
      lt: (K, K) -> bool, v: Version<K, V>, level: nat, picked: File<K, V>, expandedLimit: nat, inputs0: seq<File<K, V>>, inputs1: seq<File<K, V>>)
    requires level + 1 < |v.levels|
  {
    exists inputs, wider ::
      && (if level > 0 then inputs == [picked] else MayGrowTo(lt, 0, v.levels[0], [picked], [], inputs))
      && GrowInputs(lt, v, level, inputs, expandedLimit, inputs0, inputs1, wider)
  }

  lemma RangeIsUnique<K(!new), V(!new)>(
      lt: (K, K) -> bool, files: seq<File<K, V>>, s: InternalKey<K>, l: InternalKey<K>, s': InternalKey<K>, l': InternalKey<K>)
    requires TotalOrder(lt) && IsRange(lt, files, s, l) && IsRange(lt, files, s', l')
    ensures s.user == s'.user && l.user == l'.user
  {
  }

  lemma LowerOf<K(!new), V(!new)>(
      lt: (K, K) -> bool, files: seq<File<K, V>>, upper: seq<File<K, V>>, smallest: InternalKey<K>, largest: InternalKey<K>)
    requires TotalOrder(lt) && IsRange(lt, upper, smallest, largest)
    ensures LowerAre(lt, files, upper, Overlapping(lt, files, Some(smallest.user), Some(largest.user)))
  {
    hide TotalOrder, IsRange;
    forall s, l | IsRange(lt, upper, s, l) ensures s.user == smallest.user && l.user == largest.user {
      RangeIsUnique(lt, upper, s, l, smallest, largest);
    }
  }

  /** A wider range overlaps more files, and if not more the same. */
  lemma {:induction false} WiderOverlaps<K(!new), V(!new)>(lt: (K, K) -> bool, files: seq<File<K, V>>, begin: K, end: K, wideBegin: K, wideEnd: K)
    requires TotalOrder(lt) && !lt(begin, wideBegin) && !lt(wideEnd, end)
    ensures var narrow, wide := Overlapping(lt, files, Some(begin), Some(end)), Overlapping(lt, files, Some(wideBegin), Some(wideEnd));
      |narrow| <= |wide| && (|narrow| == |wide| ==> narrow == wide)
  {
    if files != [] {
      WiderOverlaps(lt, files[..|files| - 1], begin, end, wideBegin, wideEnd);
    }
  }

  lemma WiderRange<K(!new), V(!new)>(
      lt: (K, K) -> bool, some: seq<File<K, V>>, more: seq<File<K, V>>, s: InternalKey<K>, l: InternalKey<K>, s': InternalKey<K>, l': InternalKey<K>)
    requires TotalOrder(lt) && IsRange(lt, some, s, l) && IsRange(lt, more, s', l') && forall f | f in some :: f in more
    ensures !lt(s.user, s'.user) && !lt(l'.user, l.user)
  {
  }

  /** The next level's inputs are exactly its files that overlap the user keys of this level's. This level's
      are grown to what they may grow to just if those are more, not too many bytes with the others, and
      overlap no more of the next level. */
  method SetupOtherInputs<K(==, !new), V(!new)>(
      lt: (K, K) -> bool, v: Version<K, V>, level: nat, inputs: seq<File<K, V>>, expandedLimit: nat)
      returns (
        inputs0: seq<File<K, V>>, inputs1: seq<File<K, V>>, smallest: InternalKey<K>, largest: InternalKey<K>, grandparents: seq<File<K, V>>,
        ghost wider: seq<File<K, V>>)
    requires TotalOrder(lt) && ValidVersion(lt, v) && level + 1 < NUM_LEVELS
    requires inputs != [] && forall f | f in inputs :: f in v.levels[level]
    requires level == 0 ==> ClosedInputs(lt, v.levels[0], inputs)
    ensures forall f | f in inputs :: f in inputs0
    ensures inputs0 != [] && forall f | f in inputs0 :: f in v.levels[level]
    ensures level == 0 ==> ClosedInputs(lt, v.levels[0], inputs0)
    ensures IsRange(lt, inputs0, smallest, largest) && (inputs0 == inputs || InLevelOrder(lt, v.levels[level], inputs0))
    ensures inputs1 == Overlapping(lt, v.levels[level + 1], Some(smallest.user), Some(largest.user))
    ensures GrowInputs(lt, v, level, inputs, expandedLimit, inputs0, inputs1, wider)
    ensures if level + 2 < NUM_LEVELS then LowerAre(lt, v.levels[level + 2], inputs0 + inputs1, grandparents) else grandparents == []
  {
    hide ValidVersion, ClosedInputs, Overlaps, Overlapping, TotalFileSize, TotalOrder, Least, Closed, IsRange, WellFormed, InternalLess;
    hide SortedDisjoint, LowerAre, MayGrowTo, BeginsBefore, EndsAfter;
    LevelIsValid(lt, v, level);
    LevelIsValid(lt, v, level + 1);
    inputs0 := inputs;
    smallest, largest := GetRange(lt, inputs0);
    ghost var begin1, end1;
    inputs1, begin1, end1 := GetOverlappingInputs(lt, level + 1, v.levels[level + 1], Some(smallest.user), Some(largest.user));
    LowerOf(lt, v.levels[level + 1], inputs, smallest, largest);
    var allStart, allLimit := GetRange(lt, inputs0 + inputs1);
    wider := inputs;
    if inputs1 != [] {
      var expanded0, begin, end := GetOverlappingInputs(lt, level, v.levels[level], Some(allStart.user), Some(allLimit.user));
      wider := expanded0;
      Grows(lt, level, v.levels[level], inputs, inputs1, allStart, allLimit, expanded0, begin, end);
      InRangeOverlaps(lt, v.levels[level], inputs0 + inputs1, allStart, allLimit, begin, end);
      if level == 0 {
        ClosedRangeGivesClosedInputs(lt, v.levels[0], begin, end);
      }
      if |expanded0| > |inputs0| && TotalFileSize(inputs1) + TotalFileSize(expanded0) < expandedLimit {
        var newStart, newLimit := GetRange(lt, expanded0);
        var expanded1, _, _ := GetOverlappingInputs(lt, level + 1, v.levels[level + 1], Some(newStart.user), Some(newLimit.user));
        LowerOf(lt, v.levels[level + 1], expanded0, newStart, newLimit);
        WiderRange(lt, inputs, expanded0, smallest, largest, newStart, newLimit);
        WiderOverlaps(lt, v.levels[level + 1], smallest.user, largest.user, newStart.user, newLimit.user);
        LowerMeans(lt, v.levels[level + 1], expanded0, inputs1, newStart, newLimit);
        if |expanded1| == |inputs1| {
          smallest, largest := newStart, newLimit;
          inputs0, inputs1 := expanded0, expanded1;
          allStart, allLimit := GetRange(lt, inputs0 + inputs1);
        }
      }
    }
    grandparents := [];
    if level + 2 < NUM_LEVELS {
      ghost var begin2, end2;
      grandparents, begin2, end2 := GetOverlappingInputs(lt, level + 2, v.levels[level + 2], Some(allStart.user), Some(allLimit.user));
      LowerOf(lt, v.levels[level + 2], inputs0 + inputs1, allStart, allLimit);
    }
  }

  lemma Grows<K(!new), V(!new)>(
      lt: (K, K) -> bool, level: nat, files: seq<File<K, V>>, inputs: seq<File<K, V>>, lower: seq<File<K, V>>, smallest: InternalKey<K>,
      largest: InternalKey<K>, wider: seq<File<K, V>>, begin: Option<K>, end: Option<K>)
    requires IsRange(lt, inputs + lower, smallest, largest) && wider == Overlapping(lt, files, begin, end)
    requires BeginsBefore(lt, begin, Some(smallest.user)) && EndsAfter(lt, end, Some(largest.user))
    requires level > 0 ==> begin == Some(smallest.user) && end == Some(largest.user)
    requires level == 0 ==> Closed(lt, files, begin, end) && Least(lt, files, Some(smallest.user), Some(largest.user), begin, end)
    ensures MayGrowTo(lt, level, files, inputs, lower, wider)
  {
    hide IsRange, Closed, Least, Overlapping, BeginsBefore, EndsAfter;
  }

  lemma LowerMeans<K(!new), V(!new)>(
      lt: (K, K) -> bool, files: seq<File<K, V>>, upper: seq<File<K, V>>, lower: seq<File<K, V>>, smallest: InternalKey<K>, largest: InternalKey<K>)
    requires IsRange(lt, upper, smallest, largest)
    ensures LowerAre(lt, files, upper, lower) ==> lower == Overlapping(lt, files, Some(smallest.user), Some(largest.user))
  {
  }
}
