/** Runs of the writer protocol (db/db_impl.cc, DBImpl::Write): each step is what one thread does while it
    holds the mutex, or one access to the log or the memtable by the head of the queue while it does not. Any
    call on the log's file may fail after some of its bytes are written. */
module WriteRuns {
  import opened Keys
  import opened Coding
  import opened Log
  import opened LogRoundTrip
  import opened LogFaults
  import opened WriteBatches
  import opened WriteQueue

  /** What the head of the queue is doing. */
  datatype Phase =
    | Idle
    | Leading(n: nat, ops: seq<Op>, first: nat)
    | Logged(n: nat, ops: seq<Op>, first: nat, logged: bool, ok: bool, syncError: bool, inserted: nat)

  /** A group that has left the queue: its writers were told `ok` or an error. `intact` says that every record
      up to its own reached the file whole, `logged` that its own is one of those, and `inStep` that the writer's
      offset agreed with the file after each record up to its own. */
  datatype Group = Group(requests: seq<Request>, ops: seq<Op>, first: nat, logged: bool, ok: bool, intact: bool, inStep: bool)

  /** The log is its file and the writer's offset in the block; `synced` bytes of it were synced by writes that
      were acknowledged OK. It is intact while every record has reached it whole, and in step while the offset
      has agreed with the file after every record. */
  datatype State = State(
    queue: seq<Request>, phase: Phase, file: Bytes, offset: nat, intact: bool, inStep: bool, synced: nat, mem: seq<Entry<Bytes, Bytes>>,
    lastSequence: nat, bgError: bool, arrived: seq<Request>, groups: seq<Group>)

  ghost predicate Init(s: State) {
    s == State([], Idle, [], 0, true, true, 0, [], 0, false, [], [])
  }

  ghost predicate Acceptable(r: Request) {
    r.ops.Some? ==> |r.ops.value| < TWO_32 && AllEncodable(r.ops.value)
  }

  datatype Step =
    | Arrive(request: Request)
    | Alone(ok: bool)
    | Lead
    | AddRecord(faults: Faults, syncOk: bool)
    | InsertOne
    | Finish

  /** The head adds its record. An error of AddRecord goes to the group's writers only; one of Sync stops all
      later writes. */
  ghost predicate AddRecordStep(crc: Bytes -> Word, s: State, faults: Faults, syncOk: bool, s': State) {
    && s.phase.Leading? && s.queue != [] && s.offset <= BLOCK_SIZE
    && var record := LogRecord(s.phase.first, s.phase.ops);
    && var w := AddFrom(crc, s.offset, record, true, faults);
    && var whole := s.intact && |w.added| == |Appended(crc, |s.file|, record, true)|;
    && var sync := s.queue[0].sync;
    && var ok := w.ok && (sync ==> syncOk);
    && var file := s.file + w.added;
    s' == s.(
      phase := Logged(s.phase.n, s.phase.ops, s.phase.first, whole, ok, w.ok && sync && !syncOk, 0), file := file, offset := w.offset,
      intact := whole, inStep := s.inStep && InStep(w.offset, |file|), synced := if ok && sync then |file| else s.synced)
  }

  ghost predicate Next(crc: Bytes -> Word, s: State, step: Step, s': State) {
    match step
    case Arrive(r) => Acceptable(r) && s' == s.(queue := s.queue + [r], arrived := s.arrived + [r])
    // The head has no batch, or no room could be made for it.
    case Alone(ok) =>
      && s.phase.Idle? && s.queue != [] && (s.bgError ==> !ok) && (ok ==> s.queue[0].ops == None)
      && s' == s.(queue := s.queue[1..], groups := s.groups + [Group(s.queue[..1], [], s.lastSequence + 1, false, ok, s.intact, s.inStep)])
    case Lead =>
      && s.phase.Idle? && s.queue != [] && s.queue[0].ops.Some? && !s.bgError
      && var n := GroupSize(s.queue);
      s' == s.(phase := Leading(n, OpsOf(s.queue[..n]), s.lastSequence + 1))
    case AddRecord(faults, syncOk) => AddRecordStep(crc, s, faults, syncOk, s')
    case InsertOne =>
      && s.phase.Logged? && s.phase.ok && s.phase.inserted < |s.phase.ops|
      && s' == s.(
        mem := s.mem + [EntryOf(s.phase.ops[s.phase.inserted], s.phase.first + s.phase.inserted)],
        phase := s.phase.(inserted := s.phase.inserted + 1))
    case Finish =>
      && s.phase.Logged? && s.phase.n <= |s.queue| && (s.phase.ok ==> s.phase.inserted == |s.phase.ops|)
      && s' == s.(
        phase := Idle, lastSequence := s.lastSequence + |s.phase.ops|, bgError := s.bgError || s.phase.syncError, queue := s.queue[s.phase.n..],
        groups := s.groups + [Group(s.queue[..s.phase.n], s.phase.ops, s.phase.first, s.phase.logged, s.phase.ok, s.intact, s.inStep)])
  }

  /** The log record of a group. */
  function LogRecord(first: nat, ops: seq<Op>): Bytes {
    Contents(first, |ops|, EncodeOps(ops))
  }

  function Served(groups: seq<Group>): seq<Request> {
    if groups == [] then [] else Served(groups[..|groups| - 1]) + groups[|groups| - 1].requests
  }

  /** The entries of the groups that succeeded. */
  function Applied(groups: seq<Group>): seq<Entry<Bytes, Bytes>> {
    if groups == [] then []
    else
      var g := groups[|groups| - 1];
      Applied(groups[..|groups| - 1]) + if g.ok then Numbered(g.ops, g.first) else []
  }

  function Records(groups: seq<Group>): seq<Bytes> {
    if groups == [] then []
    else
      var g := groups[|groups| - 1];
      Records(groups[..|groups| - 1]) + if g.logged then [LogRecord(g.first, g.ops)] else []
  }

  function Assigned(groups: seq<Group>): nat {
    if groups == [] then 0 else Assigned(groups[..|groups| - 1]) + |groups[|groups| - 1].ops|
  }

  /** No sync write is with a head that is not. */
  ghost predicate SyncRule(requests: seq<Request>) {
    requests != [] && forall r | r in requests :: r.sync ==> requests[0].sync
  }

  ghost predicate GoodGroup(g: Group) {
    && SyncRule(g.requests) && AllEncodable(g.ops) && |g.ops| < TWO_32 && (g.logged ==> g.intact) && (g.intact ==> g.inStep)
    && (g.ok ==> g.ops == OpsOf(g.requests))
    && (g.ok && g.intact && g.requests[0].ops.Some? ==> g.logged)
    && (g.ok && g.requests[0].ops == None ==> g.ops == [])
  }

  /** Groups have their writers' operations under the sequence numbers that follow those before. */
  ghost predicate GoodGroups(groups: seq<Group>) {
    groups != [] ==>
      var init, g := groups[..|groups| - 1], groups[|groups| - 1];
      GoodGroups(init) && GoodGroup(g) && g.first == Assigned(init) + 1
  }

  /** The record of a group in step that was acknowledged OK is read from every file that begins with the
      log's, and if the head asked for a sync from every one that begins with `kept`. */
  ghost predicate AckedRead(crc: Bytes -> Word, g: Group, file: Bytes, kept: Bytes) {
    g.ok && g.inStep && g.requests != [] && g.requests[0].ops.Some? ==>
      && AlwaysRead(crc, true, file, LogRecord(g.first, g.ops))
      && (g.requests[0].sync ==> AlwaysRead(crc, true, kept, LogRecord(g.first, g.ops)))
  }

  ghost predicate AllAckedRead(crc: Bytes -> Word, groups: seq<Group>, file: Bytes, kept: Bytes) {
    forall g | g in groups :: AckedRead(crc, g, file, kept)
  }

  /** The group being written is a prefix of the queue. */
  ghost predicate GoodLead(s: State, n: nat, ops: seq<Op>, first: nat) {
    && 0 < n <= |s.queue| && SyncRule(s.queue[..n]) && ops == OpsOf(s.queue[..n]) && first == s.lastSequence + 1
    && AllEncodable(ops) && |ops| < TWO_32 && s.queue[0].ops.Some?
  }

  /** The records that have reached the log whole, while it was intact. */
  function Whole(s: State): seq<Bytes> {
    Records(s.groups) + if s.phase.Logged? && s.phase.logged then [LogRecord(s.phase.first, s.phase.ops)] else []
  }

  /** The file begins with the log of those; while it is intact it is just that and the writer is in step. */
  ghost predicate GoodLog(crc: Bytes -> Word, file: Bytes, offset: nat, intact: bool, whole: seq<Bytes>) {
    && offset <= BLOCK_SIZE && LogOf(crc, whole) <= file
    && (intact ==> file == LogOf(crc, whole) && InStep(offset, |file|))
  }

  ghost predicate Inv(crc: Bytes -> Word, s: State) {
    && s.arrived == Served(s.groups) + s.queue && (forall r | r in s.queue :: Acceptable(r))
    && GoodGroups(s.groups) && s.lastSequence == Assigned(s.groups)
    && s.synced <= |s.file| && AllAckedRead(crc, s.groups, s.file, s.file[..s.synced])
    && GoodLog(crc, s.file, s.offset, s.intact, Whole(s)) && (s.intact ==> forall g | g in s.groups :: g.intact)
    && (s.intact ==> s.inStep) && (s.inStep ==> InStep(s.offset, |s.file|) && ReadThrough(crc, true, s.file))
    && match s.phase
      case Idle => s.mem == Applied(s.groups)
      case Leading(n, ops, first) => GoodLead(s, n, ops, first) && s.mem == Applied(s.groups)
      case Logged(n, ops, first, logged, ok, _, inserted) =>
        && GoodLead(s, n, ops, first) && inserted <= |ops| && logged == s.intact
        && s.mem == Applied(s.groups) + (if ok then Numbered(ops, first)[..inserted] else [])
        && (ok && s.inStep ==> AlwaysRead(crc, true, s.file, LogRecord(first, ops)) && (s.queue[0].sync ==> s.synced == |s.file|))
  }

  lemma Snoc(groups: seq<Group>, g: Group)
    ensures Served(groups + [g]) == Served(groups) + g.requests
    ensures Assigned(groups + [g]) == Assigned(groups) + |g.ops|
    ensures Applied(groups + [g]) == Applied(groups) + if g.ok then Numbered(g.ops, g.first) else []
    ensures Records(groups + [g]) == Records(groups) + if g.logged then [LogRecord(g.first, g.ops)] else []
  {
    var all := groups + [g];
    assert all[..|all| - 1] == groups;
  }

  lemma GroupSnoc(groups: seq<Group>, g: Group)
    requires GoodGroups(groups) && GoodGroup(g) && g.first == Assigned(groups) + 1
    ensures GoodGroups(groups + [g])
  {
    hide GoodGroup, Assigned;
    var all := groups + [g];
    assert all[..|all| - 1] == groups;
  }

  lemma MoreKept(crc: Bytes -> Word, groups: seq<Group>, file: Bytes, kept: Bytes, file': Bytes, kept': Bytes)
    requires AllAckedRead(crc, groups, file, kept) && file <= file' && kept <= kept'
    ensures AllAckedRead(crc, groups, file', kept')
  {
    hide ReadAll, LogRecord;
    forall g | g in groups ensures AckedRead(crc, g, file', kept') {
      assert AckedRead(crc, g, file, kept);
    }
  }

  lemma InitInv(crc: Bytes -> Word, s: State)
    requires Init(s)
    ensures Inv(crc, s)
  {
    hide ReadThrough;
    NothingReadThrough(crc, true);
  }

  lemma ArriveKeeps(crc: Bytes -> Word, s: State, r: Request, s': State)
    requires Inv(crc, s) && Next(crc, s, Arrive(r), s')
    ensures Inv(crc, s')
  {
    hide GoodGroups, AllAckedRead, ReadThrough, AlwaysRead, GoodLog, SyncRule, OpsOf, AllEncodable, Acceptable;
    if s.phase.Leading? || s.phase.Logged? {
      assert s'.queue[..s.phase.n] == s.queue[..s.phase.n];
    }
  }

  lemma AloneIsGood(crc: Bytes -> Word, r: Request, first: nat, ok: bool, intact: bool, inStep: bool, file: Bytes, kept: Bytes)
    requires (ok ==> r.ops == None) && (intact ==> inStep)
    ensures var g := Group([r], [], first, false, ok, intact, inStep); GoodGroup(g) && AckedRead(crc, g, file, kept)
  {
    assert [r][..0] == [];
  }

  lemma {:induction false} AloneKeeps(crc: Bytes -> Word, s: State, ok: bool, s': State)
    requires Inv(crc, s) && Next(crc, s, Alone(ok), s')
    ensures Inv(crc, s')
  {
    hide GoodGroups, GoodGroup, AckedRead, ReadThrough, AlwaysRead, GoodLog, Acceptable, Served, Assigned, Applied, Records, LogRecord;
    var head := s.queue[..1];
    assert head == [s.queue[0]];
    var g := Group(head, [], s.lastSequence + 1, false, ok, s.intact, s.inStep);
    AloneIsGood(crc, s.queue[0], s.lastSequence + 1, ok, s.intact, s.inStep, s.file, s.file[..s.synced]);
    Snoc(s.groups, g);
    GroupSnoc(s.groups, g);
    assert s.queue == head + s.queue[1..];
    assert Served(s.groups) + (head + s.queue[1..]) == Served(s.groups) + head + s.queue[1..];
    var none := Numbered([], g.first);
    assert s.mem + none == s.mem && s.mem + [] == s.mem;
    assert Whole(s') == Whole(s);
  }

  /** The queue's operations are encodable. */
  lemma {:induction false} QueueEncodable(requests: seq<Request>)
    requires forall r | r in requests :: Acceptable(r)
    ensures AllEncodable(OpsOf(requests))
  {
    if requests != [] {
      assert requests[|requests| - 1] in requests;
      QueueEncodable(requests[..|requests| - 1]);
    }
  }

  /** A group has as many operations as its head, or few. */
  lemma {:induction false} OpsCount(queue: seq<Request>, size: nat, maxSize: nat, i: nat)
    requires 0 < i <= |queue| && 2 * |OpsOf(queue[..i])| <= size
    ensures var n := GroupFrom(queue, size, maxSize, i);
      2 * |OpsOf(queue[..n])| <= maxSize || |OpsOf(queue[..n])| == |OpsOf(queue[..i])|
    decreases |queue| - i
  {
    hide OpsOf, EncodeOps;
    if i < |queue| && !(queue[i].sync && !queue[0].sync) {
      OpsOfSnoc(queue, i);
      if queue[i].ops == None {
        OpsCount(queue, size, maxSize, i + 1);
      } else {
        var grown := size + ByteSize(queue[i].ops.value);
        if grown <= maxSize {
          OpsCount(queue, grown, maxSize, i + 1);
        }
      }
    }
  }

  lemma {:induction false} LeadIsGood(crc: Bytes -> Word, s: State)
    requires Inv(crc, s) && s.phase.Idle? && s.queue != [] && s.queue[0].ops.Some?
    ensures var n := GroupSize(s.queue); GoodLead(s, n, OpsOf(s.queue[..n]), s.lastSequence + 1)
  {
    hide EncodeOps, GroupFrom, GoodGroups, GoodLog, OpsOf;
    var queue := s.queue;
    var n := GroupSize(queue);
    var size := ByteSize(queue[0].ops.value);
    OpsOfSnoc(queue, 0);
    OpsOfNone();
    assert queue[..0] == [] && [] + queue[0].ops.value == queue[0].ops.value;
    OpsCount(queue, size, MaxSize(size), 1);
    assert queue[0] in queue;
    forall r | r in queue[..n] ensures r in queue && (r.sync ==> queue[0].sync) {
      var j :| 0 <= j < n && queue[..n][j] == r;
    }
    QueueEncodable(queue[..n]);
  }

  /** The head takes as many with it as may join. */
  lemma LeadTakesLongest(crc: Bytes -> Word, s: State, s': State)
    requires Next(crc, s, Lead, s')
    ensures s'.phase.n <= |s.queue| && s'.phase.ops == OpsOf(s.queue[..s'.phase.n])
    ensures forall j | 0 < j < s'.phase.n :: MayJoin(s.queue, j)
    ensures s'.phase.n < |s.queue| ==> !MayJoin(s.queue, s'.phase.n)
  {
    hide GroupSize, MayJoin, OpsOf;
    GroupIsLongest(s.queue);
  }

  lemma {:induction false} LeadKeeps(crc: Bytes -> Word, s: State, s': State)
    requires Inv(crc, s) && Next(crc, s, Lead, s')
    ensures Inv(crc, s')
  {
    hide GoodGroups, AllAckedRead, ReadThrough, AlwaysRead, GoodLog, GroupSize, OpsOf, AllEncodable, SyncRule;
    LeadIsGood(crc, s);
    assert Whole(s') == Whole(s);
  }

  /** One more record: either it reaches an intact log whole, or the log is no longer intact and still begins
      with what it held. */
  lemma {:induction false} GoodLogMore(
      crc: Bytes -> Word, file: Bytes, offset: nat, intact: bool, whole: seq<Bytes>, record: Bytes, faults: Faults)
    requires GoodLog(crc, file, offset, intact, whole)
    ensures var w := AddFrom(crc, offset, record, true, faults);
      if intact && |w.added| == |Appended(crc, |file|, record, true)| then
        GoodLog(crc, file + w.added, w.offset, true, whole + [record]) && InStep(w.offset, |file + w.added|)
      else GoodLog(crc, file + w.added, w.offset, false, whole)
  {
    hide AddFrom, Appended, InStep;
    if intact {
      WholeInStep(crc, offset, |file|, record, true, faults);
      assert (whole + [record])[..|whole|] == whole;
    }
  }

  lemma {:induction false} AddRecordKeeps(crc: Bytes -> Word, s: State, faults: Faults, syncOk: bool, s': State)
    requires Inv(crc, s) && Next(crc, s, AddRecord(faults, syncOk), s')
    ensures Inv(crc, s')
  {
    hide GoodGroups, AllAckedRead, ReadThrough, AlwaysRead, GoodLog, InStep, OpsOf, AllEncodable, SyncRule, LogRecord, AddFrom, Appended;
    var record := LogRecord(s.phase.first, s.phase.ops);
    GoodLogMore(crc, s.file, s.offset, s.intact, Whole(s), record, faults);
    assert s.file[..s.synced] <= s'.file[..s'.synced];
    MoreKept(crc, s.groups, s.file, s.file[..s.synced], s'.file, s'.file[..s'.synced]);
    if s'.inStep {
      StaysReadThrough(crc, true, s.file, s.offset, record, faults);
      if s'.phase.ok {
        OkIsRead(crc, true, s.file, s.offset, record, faults);
      }
    }
    var none := Numbered(s.phase.ops, s.phase.first)[..0];
    assert s.mem + none == s.mem && s.mem + [] == s.mem;
    assert Whole(s) == Records(s.groups);
  }

  lemma {:induction false} InsertKeeps(crc: Bytes -> Word, s: State, s': State)
    requires Inv(crc, s) && Next(crc, s, InsertOne, s')
    ensures Inv(crc, s')
  {
    hide GoodGroups, AllAckedRead, ReadThrough, AlwaysRead, GoodLog, OpsOf, AllEncodable, SyncRule, LogRecord;
    var all, i := Numbered(s.phase.ops, s.phase.first), s.phase.inserted;
    assert all[..i + 1] == all[..i] + [all[i]];
    assert s.mem + [all[i]] == Applied(s.groups) + (all[..i] + [all[i]]);
    assert Whole(s') == Whole(s);
  }

  lemma {:induction false} FinishIsGood(crc: Bytes -> Word, s: State)
    requires Inv(crc, s) && s.phase.Logged?
    ensures var g := Group(s.queue[..s.phase.n], s.phase.ops, s.phase.first, s.phase.logged, s.phase.ok, s.intact, s.inStep);
      && GoodGroup(g) && GoodGroups(s.groups + [g]) && Records(s.groups + [g]) == Whole(s)
      && AllAckedRead(crc, s.groups + [g], s.file, s.file[..s.synced])
  {
    hide GoodGroups, ReadThrough, AlwaysRead, OpsOf, AllEncodable, LogRecord, LogOf;
    var p := s.phase;
    var head := s.queue[..p.n];
    var g := Group(head, p.ops, p.first, p.logged, p.ok, s.intact, s.inStep);
    Snoc(s.groups, g);
    assert head[0] == s.queue[0];
    GroupSnoc(s.groups, g);
    assert s.file[..|s.file|] == s.file;
    assert AckedRead(crc, g, s.file, s.file[..s.synced]);
  }

  lemma {:induction false} FinishKeeps(crc: Bytes -> Word, s: State, s': State)
    requires Inv(crc, s) && Next(crc, s, Finish, s')
    ensures Inv(crc, s')
  {
    hide GoodGroups, GoodGroup, AllAckedRead, ReadThrough, AlwaysRead, GoodLog, OpsOf, AllEncodable, SyncRule, Acceptable, LogRecord;
    hide Served, Assigned, Applied, Records;
    var p := s.phase;
    var head := s.queue[..p.n];
    var g := Group(head, p.ops, p.first, p.logged, p.ok, s.intact, s.inStep);
    FinishIsGood(crc, s);
    Snoc(s.groups, g);
    assert s.queue == head + s.queue[p.n..];
    assert Served(s.groups) + (head + s.queue[p.n..]) == Served(s.groups) + head + s.queue[p.n..];
    assert Numbered(p.ops, p.first)[..|p.ops|] == Numbered(p.ops, p.first);
    assert Whole(s') == Whole(s);
  }

  lemma StepKeeps(crc: Bytes -> Word, s: State, step: Step, s': State)
    requires Inv(crc, s) && Next(crc, s, step, s')
    ensures Inv(crc, s')
  {
    hide Inv, Next;
    match step
    case Arrive(r) => ArriveKeeps(crc, s, r, s');
    case Alone(ok) => AloneKeeps(crc, s, ok, s');
    case Lead => LeadKeeps(crc, s, s');
    case AddRecord(faults, syncOk) => AddRecordKeeps(crc, s, faults, syncOk, s');
    case InsertOne => InsertKeeps(crc, s, s');
    case Finish => FinishKeeps(crc, s, s');
  }

  ghost predicate IsRun(crc: Bytes -> Word, states: seq<State>, steps: seq<Step>) {
    && |states| == |steps| + 1 && Init(states[0])
    && forall i | 0 <= i < |steps| :: Next(crc, states[i], steps[i], states[i + 1])
  }

  lemma {:induction false} RunsKeep(crc: Bytes -> Word, states: seq<State>, steps: seq<Step>, n: nat)
    requires IsRun(crc, states, steps) && n <= |steps|
    ensures Inv(crc, states[n])
  {
    hide Inv, Next;
    if n == 0 {
      InitInv(crc, states[0]);
    } else {
      RunsKeep(crc, states, steps, n - 1);
      var i := n - 1;
      StepKeeps(crc, states[i], steps[i], states[i + 1]);
    }
  }

  /** The record is added and then the sync that the head asked for fails. */
  ghost predicate SyncFails(crc: Bytes -> Word, s: State, step: Step) {
    && step.AddRecord? && !step.syncOk && s.phase.Leading? && s.queue != [] && s.queue[0].sync && s.offset <= BLOCK_SIZE
    && AddFrom(crc, s.offset, LogRecord(s.phase.first, s.phase.ops), true, step.faults).ok
  }

  /** A failed sync whose group has not left, or has. */
  ghost predicate SyncFailed(s: State) {
    (s.phase.Logged? && s.phase.syncError && !s.phase.ok) || (s.phase.Idle? && s.bgError)
  }

  /** Nothing was written or applied between the two, and none of the groups that left succeeded. */
  ghost predicate Stopped(s: State, t: State) {
    && t.file == s.file && t.offset == s.offset && t.synced == s.synced && t.mem == s.mem && t.lastSequence == s.lastSequence
    && s.groups <= t.groups && forall i | |s.groups| <= i < |t.groups| :: !t.groups[i].ok
  }

  lemma FailedStep(crc: Bytes -> Word, s: State, step: Step, s': State)
    requires SyncFailed(s) && Next(crc, s, step, s')
    ensures SyncFailed(s') && (s.bgError && s.phase.Idle? ==> s'.bgError && s'.phase.Idle? && Stopped(s, s'))
    ensures step.Finish? ==> s'.bgError && s'.phase.Idle? && s'.groups != [] && !s'.groups[|s'.groups| - 1].ok
  {
  }

  lemma {:induction false} FailedRun(crc: Bytes -> Word, states: seq<State>, steps: seq<Step>, k: nat, i: nat)
    requires IsRun(crc, states, steps) && k < i <= |steps| && SyncFails(crc, states[k], steps[k])
    ensures SyncFailed(states[i])
  {
    hide AddFrom, LogRecord, SyncFailed;
    if i > k + 1 {
      FailedRun(crc, states, steps, k, i - 1);
      FailedStep(crc, states[i - 1], steps[i - 1], states[i]);
    } else {
      FailedAtOnce(crc, states[k], steps[k], states[k + 1]);
    }
  }

  lemma FailedAtOnce(crc: Bytes -> Word, s: State, step: Step, s': State)
    requires Next(crc, s, step, s') && SyncFails(crc, s, step)
    ensures SyncFailed(s')
  {
    hide AddFrom, LogRecord;
  }

  /** Once the group of a failed sync has left, with an error, nothing is written or applied any more, and no
      later writer is told that it succeeded. */
  lemma {:induction false} SyncErrorStops(crc: Bytes -> Word, states: seq<State>, steps: seq<Step>, k: nat, f: nat, j: nat)
    requires IsRun(crc, states, steps) && k < f < j <= |steps| && SyncFails(crc, states[k], steps[k]) && steps[f] == Finish
    ensures var s := states[f + 1]; s.groups != [] && !s.groups[|s.groups| - 1].ok
    ensures Stopped(states[f + 1], states[j])
    decreases j
  {
    hide Next, SyncFails;
    FailedRun(crc, states, steps, k, f);
    FailedStep(crc, states[f], steps[f], states[f + 1]);
    StaysStopped(crc, states, steps, f + 1, j);
  }

  lemma {:induction false} StaysStopped(crc: Bytes -> Word, states: seq<State>, steps: seq<Step>, f: nat, j: nat)
    requires IsRun(crc, states, steps) && f <= j <= |steps| && states[f].bgError && states[f].phase.Idle?
    ensures Stopped(states[f], states[j]) && states[j].bgError && states[j].phase.Idle?
    decreases j
  {
    hide Next, Stopped;
    if j == f {
      StoppedTrans(states[f], states[f], states[f]);
    } else {
      StaysStopped(crc, states, steps, f, j - 1);
      FailedStep(crc, states[j - 1], steps[j - 1], states[j]);
      StoppedTrans(states[f], states[j - 1], states[j]);
    }
  }

  lemma StoppedTrans(s: State, t: State, u: State)
    ensures Stopped(s, s) && (Stopped(s, t) && Stopped(t, u) ==> Stopped(s, u))
  {
  }
}
