/** All interleavings of guest, host and cgroup hook while a sandbox starts (spawn/mod.rs, cgroups/systemd.rs). */
module Protocol {
  import opened Bytes
  import opened Wrappers
  import opened Transfer
  import opened Wire
  import opened Handshake

  datatype GuestPhase = BeforeHook | AfterHook | SendingFirst | BetweenReports | SendingSecond | Closed

  datatype HostPhase =
    | HookStart
    | HookMoved
    | HookApplied
    | ReadingFirst(buffer: seq<Byte>)
    | ReadingSecond(buffer: seq<Byte>)
    | Done(verdict: Verdict)

  /** `first` and `second` are the records the guest will send; `k`, `j`, `got` and the last four flags are history. */
  datatype State = State(
    first: seq<Byte>, second: seq<Byte>, setupFails: bool, gated: bool,
    guest: GuestPhase, host: HostPhase, pipe: seq<Byte>, eventfd: nat,
    k: nat, j: nat, got: seq<Byte>, lost: bool, hooked: bool, moved: bool, applied: bool)

  /** Start of a run; `gated` backends make the guest wait for the host on an eventfd. */
  function Start(plan: Plan, gated: bool): State
    requires PlanFits(plan)
  {
    State(
      First(plan), Second(plan), plan.SetupFails?, gated, BeforeHook, HookStart, [], 0,
      0, 0, [], false, false, false, false)
  }

  datatype Action =
    // host: the hook moves the guest, applies the policy and releases the guest; each part may fail
    | MoveGuest
    | ApplyPolicy
    | Release
    | SkipHook
    | FailHook
    // host: partial reads, whole records, end of file, read errors
    | ReadBytes(count: nat)
    | TakeRecord(result: GuestResult)
    | SeeEnd
    | FailRead(code: Code)
    // guest: the hook, setup, partial writes, giving up on a write, closing by exec, exit or death
    | PassHook
    | FailBeforeHook
    | FinishSetup
    | WriteFirst(count: nat)
    | WriteSecond(count: nat)
    | GiveUp
    | NextReport
    | Die

  predicate Reading(host: HostPhase) {
    host.ReadingFirst? || host.ReadingSecond?
  }

  predicate Enabled(s: State, a: Action) {
    match a
    case MoveGuest => s.gated && s.host == HookStart
    case ApplyPolicy => s.gated && s.host == HookMoved
    case Release => s.gated && s.host == HookApplied
    case SkipHook => !s.gated && s.host == HookStart
    case FailHook => s.gated && (s.host == HookStart || s.host == HookMoved || s.host == HookApplied)
    case ReadBytes(count) =>
      Reading(s.host) && 0 < count <= |s.pipe| && |s.host.buffer| + count <= RECORD_SIZE
    case TakeRecord(_) => Reading(s.host) && |s.host.buffer| == RECORD_SIZE
    case SeeEnd => Reading(s.host) && |s.host.buffer| < RECORD_SIZE && s.pipe == [] && s.guest == Closed
    case FailRead(_) => Reading(s.host) && |s.host.buffer| < RECORD_SIZE
    case PassHook => s.guest == BeforeHook && (s.gated ==> s.eventfd > 0)
    case FailBeforeHook => s.guest == BeforeHook && s.setupFails
    case FinishSetup => s.guest == AfterHook
    case WriteFirst(count) => s.guest == SendingFirst && 0 < count && s.k + count <= |s.first|
    case WriteSecond(count) => s.guest == SendingSecond && 0 < count && s.j + count <= |s.second|
    case GiveUp =>
      (s.guest == SendingFirst && s.k < |s.first|) || (s.guest == SendingSecond && s.j < |s.second|)
    case NextReport =>
      || (s.guest == SendingFirst && s.k == |s.first|)
      || s.guest == BetweenReports
      || (s.guest == SendingSecond && s.j == |s.second|)
    case Die => s.guest != Closed
  }

  /** A whole record is taken for what it decodes to. */
  predicate Truthful(s: State, a: Action)
    requires Enabled(s, a)
  {
    a.TakeRecord? ==> a.result == Receive(s.host.buffer)
  }

  /** The verdict on a whole record: an error ends the run, success leads on. */
  function TakenRecord(host: HostPhase, result: GuestResult): HostPhase
    requires Reading(host)
  {
    if result.Err? then Done(Err(FromGuest(result.error)))
    else if host.ReadingFirst? then ReadingSecond([])
    else Done(Ok(()))
  }

  function SeenEnd(host: HostPhase): HostPhase
    requires Reading(host)
  {
    if host.ReadingSecond? && host.buffer == [] then Done(Ok(()))
    else Done(Err(Partial(PartialTransfer(|host.buffer|, None))))
  }

  function AfterReport(s: State): GuestPhase {
    if s.guest == SendingFirst then BetweenReports
    else if s.guest == BetweenReports && s.second != [] then SendingSecond
    else Closed
  }

  function Next(s: State, a: Action): State
    requires Enabled(s, a)
  {
    match a
    case MoveGuest => s.(host := HookMoved, moved := true)
    case ApplyPolicy => s.(host := HookApplied, applied := true)
    case Release => s.(host := ReadingFirst([]), eventfd := s.eventfd + 1)
    case SkipHook => s.(host := ReadingFirst([]))
    case FailHook => s.(host := Done(Err(HookFailed)))
    case ReadBytes(count) =>
      var buffer := s.host.buffer + s.pipe[..count];
      s.(host := if s.host.ReadingFirst? then ReadingFirst(buffer) else ReadingSecond(buffer),
         pipe := s.pipe[count..], got := s.got + s.pipe[..count])
    case TakeRecord(result) => s.(host := TakenRecord(s.host, result))
    case SeeEnd => s.(host := SeenEnd(s.host))
    case FailRead(code) => s.(host := Done(Err(Partial(PartialTransfer(|s.host.buffer|, Some(code))))))
    case PassHook => s.(guest := AfterHook, eventfd := 0, hooked := true)
    case FailBeforeHook => s.(guest := SendingFirst)
    case FinishSetup => s.(guest := SendingFirst)
    case WriteFirst(count) =>
      s.(k := s.k + count, pipe := s.pipe + s.first[s.k..s.k + count])
    case WriteSecond(count) =>
      s.(j := s.j + count, pipe := s.pipe + s.second[s.j..s.j + count])
    case GiveUp => s.(guest := if s.guest == SendingFirst then BetweenReports else Closed, lost := true)
    case NextReport => s.(guest := AfterReport(s))
    case Die => s.(guest := Closed, lost := true)
  }

  /** Where things can go wrong: in any phase of the guest, at any write, any read and any part of the hook. */
  lemma FailuresExactly(s: State, code: Code)
    ensures Enabled(s, Die) <==> s.guest != Closed
    ensures Enabled(s, FailBeforeHook) <==> s.guest == BeforeHook && s.setupFails
    ensures Enabled(s, FailHook) <==> s.gated && !Reading(s.host) && !s.host.Done?
    ensures Enabled(s, FailRead(code)) <==> Reading(s.host) && |s.host.buffer| < 6
    ensures Enabled(s, GiveUp) <==>
      (s.guest == SendingFirst && s.k < |s.first|) || (s.guest == SendingSecond && s.j < |s.second|)
    ensures Enabled(s, Die) ==> Next(s, Die).guest == Closed && Next(s, Die).pipe == s.pipe
    ensures Enabled(s, FailHook) ==> Next(s, FailHook).host == Done(Err(HookFailed))
    ensures Enabled(s, FailRead(code)) ==>
      Next(s, FailRead(code)).host == Done(Err(Partial(PartialTransfer(|s.host.buffer|, Some(code)))))
  {
  }

  // ----- invariants -----

  predicate Bounded(s: State) {
    && |s.first| == RECORD_SIZE && (|s.second| == 0 || |s.second| == RECORD_SIZE)
    && s.k <= |s.first| && s.j <= |s.second|
  }

  /** No byte is lost, repeated or reordered between the two processes. */
  predicate Conserved(s: State)
    requires Bounded(s)
  {
    s.got + s.pipe == Written(s.first, s.second, s.k, s.j)
  }

  /** How far the guest's reports are in each of its phases. */
  predicate ReportsFit(s: State)
    requires Bounded(s)
  {
    && (s.guest in {BeforeHook, AfterHook} ==> s.k == 0)
    && (s.guest in {BeforeHook, AfterHook, SendingFirst, BetweenReports} ==> s.j == 0)
    && (s.guest in {BetweenReports, SendingSecond} ==> s.lost || s.k == |s.first|)
    && (s.guest == Closed ==> s.lost || (s.k == RECORD_SIZE && s.j == |s.second|))
  }

  /** A verdict rests on the end of the pipe, on a decisive record, on a failed hook or on a failed read. */
  ghost predicate Justified(s: State, verdict: Verdict) {
    || verdict == Err(HookFailed)
    || (verdict.Err? && verdict.error.Partial? && verdict.error.transfer.error.Some?)
    || (verdict == HostVerdict(s.got) && s.pipe == [] && s.guest == Closed)
    || (verdict == HostVerdict(s.got) &&
        (|s.got| == 2 * RECORD_SIZE || (|s.got| == RECORD_SIZE && Receive(s.got).Err?)))
  }

  /** What the host has read so far, split into the record in hand and the one before it. */
  predicate BuffersFit(s: State) {
    match s.host
    case ReadingFirst(buffer) => buffer == s.got && |buffer| <= RECORD_SIZE
    case ReadingSecond(buffer) =>
      |s.got| == RECORD_SIZE + |buffer| && |buffer| <= RECORD_SIZE && buffer == s.got[RECORD_SIZE..]
    case Done(_) => true
    case _ => s.got == []
  }

  /** What the host has concluded so far. */
  ghost predicate Judged(s: State) {
    match s.host
    case ReadingSecond(_) => |s.got| >= RECORD_SIZE && Receive(s.got[..RECORD_SIZE]).Ok?
    case Done(verdict) => Justified(s, verdict)
    case _ => true
  }

  /** The guest gets past a gated hook only once it has been moved and the policy applied. */
  predicate Gate(s: State) {
    && (s.gated && (s.eventfd > 0 || s.hooked || Reading(s.host)) ==> s.moved && s.applied)
    && (s.gated && s.host == HookApplied ==> s.moved && s.applied)
    && (s.gated && s.host == HookMoved ==> s.moved)
    && (s.gated && Reading(s.host) && s.guest == BeforeHook ==> s.eventfd > 0)
    && (s.host in {HookMoved, HookApplied} ==> s.gated)
    && (s.guest == AfterHook ==> s.hooked)
    && (s.guest in {SendingFirst, BetweenReports, SendingSecond} ==> s.hooked || s.setupFails)
  }

  predicate Shape(s: State) {
    Bounded(s) && ReportsFit(s) && BuffersFit(s) && Gate(s)
  }

  ghost predicate Inv(s: State) {
    Shape(s) && Conserved(s) && Judged(s)
  }

  lemma InvStart(plan: Plan, gated: bool)
    requires PlanFits(plan)
    ensures Inv(Start(plan, gated))
  {
  }

  /** What a run can still do: bytes to write and to read, and phases to go through. */
  function GuestRank(guest: GuestPhase): nat {
    match guest
    case BeforeHook => 5
    case AfterHook => 4
    case SendingFirst => 3
    case BetweenReports => 2
    case SendingSecond => 1
    case Closed => 0
  }

  function HostRank(host: HostPhase): nat {
    match host
    case HookStart => 5
    case HookMoved => 4
    case HookApplied => 3
    case ReadingFirst(_) => 2
    case ReadingSecond(_) => 1
    case Done(_) => 0
  }

  function Rank(s: State): nat
    requires Bounded(s)
  {
    2 * (RECORD_SIZE - s.k) + 2 * (|s.second| - s.j) + |s.pipe| + GuestRank(s.guest) + HostRank(s.host)
  }

  // Byte conservation, one pipe operation at a time.

  lemma AppendFirst(got: seq<Byte>, pipe: seq<Byte>, first: seq<Byte>, second: seq<Byte>, k: nat, count: nat)
    requires k + count <= |first| && got + pipe == Written(first, second, k, 0)
    ensures got + (pipe + first[k..k + count]) == Written(first, second, k + count, 0)
  {
    assert first[..k + count] == first[..k] + first[k..k + count];
    assert got + (pipe + first[k..k + count]) == (got + pipe) + first[k..k + count];
  }

  lemma AppendSecond(
    got: seq<Byte>, pipe: seq<Byte>, first: seq<Byte>, second: seq<Byte>, k: nat, j: nat, count: nat)
    requires k <= |first| && j + count <= |second| && got + pipe == Written(first, second, k, j)
    ensures got + (pipe + second[j..j + count]) == Written(first, second, k, j + count)
  {
    var more := second[j..j + count];
    assert second[..j + count] == second[..j] + more;
    calc {
      got + (pipe + more);
      (got + pipe) + more;
      (first[..k] + second[..j]) + more;
      first[..k] + (second[..j] + more);
    }
  }

  lemma MoveBytes(got: seq<Byte>, pipe: seq<Byte>, count: nat)
    requires count <= |pipe|
    ensures (got + pipe[..count]) + pipe[count..] == got + pipe
  {
    assert pipe == pipe[..count] + pipe[count..];
  }

  /** Reading extends the record in hand and leaves the record before it alone. */
  lemma ExtendRead(got: seq<Byte>, more: seq<Byte>)
    requires |got| >= RECORD_SIZE
    ensures (got + more)[..RECORD_SIZE] == got[..RECORD_SIZE]
    ensures (got + more)[RECORD_SIZE..] == got[RECORD_SIZE..] + more
  {
  }

  lemma ConservedWrite(s: State, a: Action)
    requires Bounded(s) && ReportsFit(s) && Conserved(s) && Enabled(s, a) && (a.WriteFirst? || a.WriteSecond?)
    ensures Bounded(Next(s, a)) && Conserved(Next(s, a))
  {
    if a.WriteFirst? {
      AppendFirst(s.got, s.pipe, s.first, s.second, s.k, a.count);
    } else {
      AppendSecond(s.got, s.pipe, s.first, s.second, s.k, s.j, a.count);
    }
  }

  lemma ConservedRead(s: State, count: nat)
    requires Bounded(s) && ReportsFit(s) && Conserved(s) && Enabled(s, ReadBytes(count))
    ensures Bounded(Next(s, ReadBytes(count))) && Conserved(Next(s, ReadBytes(count)))
  {
    MoveBytes(s.got, s.pipe, count);
  }

  lemma ConservedStep(s: State, a: Action)
    requires Bounded(s) && ReportsFit(s) && Conserved(s) && Enabled(s, a)
    ensures Bounded(Next(s, a)) && Conserved(Next(s, a))
  {
    match a
    case WriteFirst(_) => ConservedWrite(s, a);
    case WriteSecond(_) => ConservedWrite(s, a);
    case ReadBytes(count) => ConservedRead(s, count);
    case MoveGuest =>
    case ApplyPolicy =>
    case Release =>
    case SkipHook =>
    case FailHook =>
    case TakeRecord(_) =>
    case SeeEnd =>
    case FailRead(_) =>
    case PassHook =>
    case FailBeforeHook =>
    case FinishSetup =>
    case GiveUp =>
    case NextReport =>
    case Die =>
  }

  lemma WriteStep(s: State, a: Action)
    requires Shape(s) && Enabled(s, a) && (a.WriteFirst? || a.WriteSecond?)
    ensures Shape(Next(s, a)) && Rank(Next(s, a)) < Rank(s)
  {
  }

  lemma ReadStep(s: State, count: nat)
    requires Shape(s) && Enabled(s, ReadBytes(count))
    ensures Shape(Next(s, ReadBytes(count))) && Rank(Next(s, ReadBytes(count))) < Rank(s)
  {
    if s.host.ReadingSecond? {
      ExtendRead(s.got, s.pipe[..count]);
    }
  }

  lemma TakeStep(s: State, result: GuestResult)
    requires Shape(s) && Enabled(s, TakeRecord(result))
    ensures Shape(Next(s, TakeRecord(result))) && Rank(Next(s, TakeRecord(result))) < Rank(s)
  {
    assert s.host.ReadingFirst? ==> s.got[RECORD_SIZE..] == [];
  }

  lemma HostStep(s: State, a: Action)
    requires Shape(s) && Enabled(s, a)
    requires a in {MoveGuest, ApplyPolicy, Release, SkipHook, FailHook, SeeEnd} || a.FailRead?
    ensures Shape(Next(s, a)) && Rank(Next(s, a)) < Rank(s)
  {
  }

  lemma GuestStep(s: State, a: Action)
    requires Shape(s) && Enabled(s, a)
    requires a in {PassHook, FailBeforeHook, FinishSetup, GiveUp, NextReport, Die}
    ensures Shape(Next(s, a)) && Rank(Next(s, a)) < Rank(s)
  {
  }

  lemma ShapeStep(s: State, a: Action)
    requires Shape(s) && Enabled(s, a)
    ensures Shape(Next(s, a)) && Rank(Next(s, a)) < Rank(s)
  {
    match a
    case WriteFirst(_) => WriteStep(s, a);
    case WriteSecond(_) => WriteStep(s, a);
    case ReadBytes(count) => ReadStep(s, count);
    case TakeRecord(result) => TakeStep(s, result);
    case SeeEnd => HostStep(s, a);
    case MoveGuest => HostStep(s, a);
    case ApplyPolicy => HostStep(s, a);
    case Release => HostStep(s, a);
    case SkipHook => HostStep(s, a);
    case FailHook => HostStep(s, a);
    case FailRead(_) => HostStep(s, a);
    case PassHook => GuestStep(s, a);
    case FailBeforeHook => GuestStep(s, a);
    case FinishSetup => GuestStep(s, a);
    case GiveUp => GuestStep(s, a);
    case NextReport => GuestStep(s, a);
    case Die => GuestStep(s, a);
  }

  lemma JudgedTake(s: State, result: GuestResult)
    requires BuffersFit(s) && Enabled(s, TakeRecord(result)) && Judged(s) && result == Receive(s.host.buffer)
    ensures Judged(Next(s, TakeRecord(result)))
  {
    var got := s.got;
    if s.host.ReadingFirst? {
      assert got[..RECORD_SIZE] == got;
    } else {
      assert got[RECORD_SIZE..][..RECORD_SIZE] == s.host.buffer;
    }
  }

  lemma JudgedEnd(s: State)
    requires BuffersFit(s) && Enabled(s, SeeEnd) && Judged(s)
    ensures Judged(Next(s, SeeEnd))
  {
  }

  lemma JudgedStep(s: State, a: Action)
    requires BuffersFit(s) && Enabled(s, a) && Truthful(s, a) && Judged(s)
    ensures Judged(Next(s, a))
  {
    match a
    case TakeRecord(result) => JudgedTake(s, result);
    case SeeEnd => JudgedEnd(s);
    case ReadBytes(count) =>
      if s.host.ReadingSecond? {
        ExtendRead(s.got, s.pipe[..count]);
      }
    case _ =>
  }

  /** Every step of either process keeps the invariant, and uses something up, so no run goes on forever. */
  lemma InvStep(s: State, a: Action)
    requires Inv(s) && Enabled(s, a) && Truthful(s, a)
    ensures Inv(Next(s, a)) && Rank(Next(s, a)) < Rank(s)
  {
    ShapeStep(s, a);
    ConservedStep(s, a);
    JudgedStep(s, a);
  }

  /** What a step leaves alone. */
  lemma StepFrame(s: State, a: Action)
    requires Enabled(s, a)
    ensures SameRun(s, Next(s, a))
  {
    match a
    case MoveGuest =>
    case ApplyPolicy =>
    case Release =>
    case SkipHook =>
    case FailHook =>
    case ReadBytes(_) =>
    case TakeRecord(_) =>
    case SeeEnd =>
    case FailRead(_) =>
    case PassHook =>
    case FailBeforeHook =>
    case FinishSetup =>
    case WriteFirst(_) =>
    case WriteSecond(_) =>
    case GiveUp =>
    case NextReport =>
    case Die =>
  }

  predicate SameRun(s: State, t: State) {
    s.first == t.first && s.second == t.second && s.setupFails == t.setupFails && s.gated == t.gated
  }

  // ----- runs -----

  /** The states a sequence of steps leads through. */
  ghost predicate Runs(s: State, actions: seq<Action>, t: State)
    decreases |actions|
  {
    if actions == [] then s == t
    else Enabled(s, actions[0]) && Truthful(s, actions[0]) && Runs(Next(s, actions[0]), actions[1..], t)
  }

  lemma {:induction false} InvRun(s: State, actions: seq<Action>, t: State)
    requires Inv(s) && Runs(s, actions, t)
    ensures Inv(t) && SameRun(s, t)
    decreases |actions|
  {
    if actions != [] {
      InvStep(s, actions[0]);
      StepFrame(s, actions[0]);
      InvRun(Next(s, actions[0]), actions[1..], t);
    }
  }

  /** A failure of the host itself: its hook, or one of its reads. */
  predicate OwnFailure(verdict: Verdict) {
    verdict == Err(HookFailed) || (verdict.Err? && verdict.error.Partial? && verdict.error.transfer.error.Some?)
  }

  /** Every run, whatever is cut off and wherever the guest dies: the host judges exactly the bytes that got out. */
  lemma HandshakeSafety(plan: Plan, gated: bool, actions: seq<Action>, t: State)
    requires PlanFits(plan) && Runs(Start(plan, gated), actions, t) && t.host.Done?
    ensures t.k <= RECORD_SIZE && t.j <= |Second(plan)|
    ensures OwnFailure(t.host.verdict) || t.host.verdict == HostVerdict(Transcript(plan, t.k, t.j))
  {
    InvStart(plan, gated);
    InvRun(Start(plan, gated), actions, t);
    if |t.got| == 2 * RECORD_SIZE || (|t.got| == RECORD_SIZE && Receive(t.got).Err?) {
      DecisiveVerdict(t.got, t.pipe);
    } else if t.pipe == [] && t.guest == Closed {
      assert t.got + t.pipe == t.got;
    }
  }

  /** Complete reports are delivered, even if the guest is killed right after the last byte is on the pipe. */
  lemma CompleteReportsSafety(plan: Plan, gated: bool, actions: seq<Action>, t: State)
    requires PlanFits(plan) && Runs(Start(plan, gated), actions, t) && t.host.Done?
    requires t.k == RECORD_SIZE && t.j == |Second(plan)|
    ensures OwnFailure(t.host.verdict) || t.host.verdict == Deserved(plan)
  {
    HandshakeSafety(plan, gated, actions, t);
    CompleteReportsDeliver(plan);
  }

  /** A guest that neither dies nor gives up has its complete reports judged. */
  lemma UndisturbedSafety(plan: Plan, gated: bool, actions: seq<Action>, t: State)
    requires PlanFits(plan) && Runs(Start(plan, gated), actions, t) && t.host.Done? && !t.lost
    ensures OwnFailure(t.host.verdict) || t.host.verdict == Deserved(plan)
  {
    InvStart(plan, gated);
    InvRun(Start(plan, gated), actions, t);
    if !OwnFailure(t.host.verdict) {
      if |t.got| == RECORD_SIZE && Receive(t.got).Err? {
        FirstReportDecides(plan, t);
      }
      CompleteReportsSafety(plan, gated, actions, t);
    }
  }

  /** A whole first record that is an error is the report of a failed setup, after which nothing else is sent. */
  lemma FirstReportDecides(plan: Plan, t: State)
    requires PlanFits(plan) && Inv(t) && !t.lost && t.first == First(plan) && t.second == Second(plan)
    requires |t.got| == RECORD_SIZE && Receive(t.got).Err?
    ensures plan.SetupFails? && t.k == RECORD_SIZE && t.j == 0
  {
    var sent := Written(t.first, t.second, t.k, t.j);
    assert t.k < |t.first| ==> t.j == 0;
    assert t.got == sent[..RECORD_SIZE] == t.first;
    if !plan.SetupFails? {
      ReceiveSend(Ok(()));
    }
  }

  /** Which runs end in acceptance: exactly those in which the bytes that got out read as success. */
  predicate ReadsAsSuccess(plan: Plan, k: nat, j: nat) {
    !plan.SetupFails? && ((k == RECORD_SIZE && j == 0) || (0 < k < RECORD_SIZE && k + j == RECORD_SIZE))
  }

  /** Over every run that the host does not fail itself: acceptance if and only if the bytes read as success. */
  lemma AcceptanceSafety(plan: Plan, gated: bool, actions: seq<Action>, t: State)
    requires PlanFits(plan) && Runs(Start(plan, gated), actions, t) && t.host.Done?
    ensures t.host.verdict.Ok? ==> t.guest == Closed
    ensures t.host.verdict.Ok? <==> !OwnFailure(t.host.verdict) && ReadsAsSuccess(plan, t.k, t.j)
  {
    HandshakeSafety(plan, gated, actions, t);
    AcceptedTranscripts(plan, t.k, t.j);
    InvStart(plan, gated);
    InvRun(Start(plan, gated), actions, t);
    if t.host.verdict.Ok? && !(t.pipe == [] && t.guest == Closed) {
      // two whole records are needed to accept without an end of file, and the second is an error
      DecisiveVerdict(t.got, t.pipe);
      assert false;
    }
  }

  /** A gated guest runs past its hook only after the host has moved it and applied the policy. */
  lemma GuestWaitsForHost(plan: Plan, actions: seq<Action>, t: State)
    requires PlanFits(plan) && Runs(Start(plan, true), actions, t)
    ensures t.hooked ==> t.moved && t.applied
    ensures t.guest == AfterHook ==> t.moved && t.applied
    ensures t.guest in {SendingFirst, BetweenReports, SendingSecond} && !plan.SetupFails? ==> t.moved && t.applied
  {
    InvStart(plan, true);
    InvRun(Start(plan, true), actions, t);
  }

  // ----- progress -----

  /** Until the host has its verdict some process can move: no deadlock between pipe and eventfd. */
  lemma NoDeadlock(s: State) returns (a: Action)
    requires Inv(s) && !s.host.Done?
    ensures Enabled(s, a) && Truthful(s, a)
    ensures Calm(a)
  {
    if s.host == HookStart {
      a := if s.gated then MoveGuest else SkipHook;
    } else if s.host == HookMoved {
      a := ApplyPolicy;
    } else if s.host == HookApplied {
      a := Release;
    } else if |s.host.buffer| == RECORD_SIZE {
      a := TakeRecord(Receive(s.host.buffer));
    } else if s.pipe != [] {
      a := ReadBytes(1);
    } else if s.guest == BeforeHook {
      a := PassHook;
    } else if s.guest == AfterHook {
      a := FinishSetup;
    } else if s.guest == SendingFirst && s.k < |s.first| {
      a := WriteFirst(1);
    } else if s.guest == SendingSecond && s.j < |s.second| {
      a := WriteSecond(1);
    } else if s.guest == Closed {
      a := SeeEnd;
    } else {
      a := NextReport;
    }
  }

  predicate Calm(a: Action) {
    !a.FailHook? && !a.FailRead? && !a.GiveUp? && !a.Die?
  }

  /** A step that is not a failure loses nothing, ends in no failure of the host, and leaves a closed guest alone. */
  lemma CalmStep(s: State, a: Action)
    requires Enabled(s, a) && Calm(a) && !s.host.Done?
    ensures Next(s, a).lost == s.lost
    ensures Next(s, a).host.Done? ==> !OwnFailure(Next(s, a).host.verdict)
    ensures s.guest == Closed ==> Next(s, a).guest == Closed && Next(s, a).k == s.k && Next(s, a).j == s.j
  {
    match a
    case MoveGuest =>
    case ApplyPolicy =>
    case Release =>
    case SkipHook =>
    case ReadBytes(_) =>
    case TakeRecord(_) =>
    case SeeEnd =>
    case PassHook =>
    case FailBeforeHook =>
    case FinishSetup =>
    case WriteFirst(_) =>
    case WriteSecond(_) =>
    case NextReport =>
  }

  lemma StepTowardsVerdict(s: State) returns (a: Action, next: State)
    requires Inv(s) && !s.host.Done?
    ensures Enabled(s, a) && Truthful(s, a) && next == Next(s, a) && Inv(next) && Rank(next) < Rank(s)
    ensures next.lost == s.lost
    ensures next.host.Done? ==> !OwnFailure(next.host.verdict)
    ensures s.guest == Closed ==> next.guest == Closed && next.k == s.k && next.j == s.j
  {
    a := NoDeadlock(s);
    next := Next(s, a);
    InvStep(s, a);
    CalmStep(s, a);
  }

  /** From every reachable state the host can be brought to a verdict without any failure. */
  lemma {:induction false} VerdictReachable(s: State) returns (actions: seq<Action>, t: State)
    requires Inv(s)
    ensures Runs(s, actions, t) && t.host.Done? && (t.lost <==> s.lost)
    ensures if s.host.Done? then t == s else !OwnFailure(t.host.verdict)
    ensures s.guest == Closed ==> t.k == s.k && t.j == s.j
    decreases Rank(s)
  {
    if s.host.Done? {
      actions, t := [], s;
    } else {
      var a, next := StepTowardsVerdict(s);
      var rest;
      rest, t := VerdictReachable(next);
      actions := [a] + rest;
      assert actions[0] == a && actions[1..] == rest;
    }
  }

  // ----- every way of cutting the reports off happens in some run -----

  lemma {:induction false} RunsConcat(s: State, before: seq<Action>, m: State, after: seq<Action>, t: State)
    requires Runs(s, before, m) && Runs(m, after, t)
    ensures Runs(s, before + after, t)
    decreases |before|
  {
    if before == [] {
      assert before + after == after;
    } else {
      RunsConcat(Next(s, before[0]), before[1..], m, after, t);
      assert (before + after)[0] == before[0] && (before + after)[1..] == before[1..] + after;
    }
  }

  lemma RunsStep(s: State, before: seq<Action>, m: State, a: Action)
    requires Runs(s, before, m) && Enabled(m, a) && Truthful(m, a)
    ensures Runs(s, before + [a], Next(m, a))
  {
    assert [a][1..] == [];
    assert Runs(Next(m, a), [a][1..], Next(m, a));
    RunsConcat(s, before, m, [a], Next(m, a));
  }

  /** The host's hook, then the guest's, up to the guest's first report. */
  lemma SetupRun(plan: Plan, gated: bool) returns (actions: seq<Action>, t: State)
    requires PlanFits(plan)
    ensures Runs(Start(plan, gated), actions, t)
    ensures t == Start(plan, gated).(
      guest := SendingFirst, host := ReadingFirst([]), hooked := true, moved := gated, applied := gated)
  {
    var s := Start(plan, gated);
    actions, t := [], s;
    if gated {
      RunsStep(s, actions, t, MoveGuest);
      actions, t := actions + [MoveGuest], Next(t, MoveGuest);
      RunsStep(s, actions, t, ApplyPolicy);
      actions, t := actions + [ApplyPolicy], Next(t, ApplyPolicy);
      RunsStep(s, actions, t, Release);
      actions, t := actions + [Release], Next(t, Release);
    } else {
      RunsStep(s, actions, t, SkipHook);
      actions, t := actions + [SkipHook], Next(t, SkipHook);
    }
    RunsStep(s, actions, t, PassHook);
    actions, t := actions + [PassHook], Next(t, PassHook);
    RunsStep(s, actions, t, FinishSetup);
    actions, t := actions + [FinishSetup], Next(t, FinishSetup);
  }

  /** The first report, cut off after `k` bytes. */
  lemma FirstReportRun(s: State, k: nat) returns (actions: seq<Action>, t: State)
    requires s.guest == SendingFirst && s.k == 0 && k <= |s.first|
    ensures Runs(s, actions, t)
    ensures t == s.(guest := BetweenReports, k := k, pipe := s.pipe + s.first[..k], lost := s.lost || k < |s.first|)
  {
    actions, t := [], s;
    if k > 0 {
      RunsStep(s, actions, t, WriteFirst(k));
      actions, t := actions + [WriteFirst(k)], Next(t, WriteFirst(k));
    } else {
      assert s.pipe + s.first[..k] == s.pipe;
    }
    var last := if k < |s.first| then GiveUp else NextReport;
    RunsStep(s, actions, t, last);
    actions, t := actions + [last], Next(t, last);
  }

  /** The second report, if there is one, cut off after `j` bytes; then the guest's end of the pipe is closed. */
  lemma SecondReportRun(s: State, j: nat) returns (actions: seq<Action>, t: State)
    requires s.guest == BetweenReports && s.j == 0 && j <= |s.second|
    ensures Runs(s, actions, t)
    ensures t == s.(guest := Closed, j := j, pipe := s.pipe + s.second[..j], lost := s.lost || j < |s.second|)
  {
    var begun := Next(s, NextReport);
    RunsStep(s, [], s, NextReport);
    if s.second == [] {
      assert s.pipe + s.second[..j] == s.pipe;
      actions, t := [] + [NextReport], begun;
    } else {
      var rest;
      rest, t := SecondReportWritten(begun, j);
      actions := [] + [NextReport] + rest;
      RunsConcat(s, [] + [NextReport], begun, rest, t);
    }
  }

  lemma SecondReportWritten(s: State, j: nat) returns (actions: seq<Action>, t: State)
    requires s.guest == SendingSecond && s.j == 0 && j <= |s.second|
    ensures Runs(s, actions, t)
    ensures t == s.(guest := Closed, j := j, pipe := s.pipe + s.second[..j], lost := s.lost || j < |s.second|)
  {
    actions, t := [], s;
    if j > 0 {
      RunsStep(s, actions, t, WriteSecond(j));
      actions, t := actions + [WriteSecond(j)], Next(t, WriteSecond(j));
    } else {
      assert s.pipe + s.second[..j] == s.pipe;
    }
    var last := if j < |s.second| then GiveUp else NextReport;
    RunsStep(s, actions, t, last);
    actions, t := actions + [last], Next(t, last);
  }

  /** Every pair of lengths is what got out in some run, and the host then judges exactly those bytes. */
  lemma TranscriptReached(plan: Plan, gated: bool, k: nat, j: nat) returns (actions: seq<Action>, t: State)
    requires PlanFits(plan) && k <= RECORD_SIZE && j <= |Second(plan)|
    ensures Runs(Start(plan, gated), actions, t) && t.k == k && t.j == j
    ensures t.host == Done(HostVerdict(Transcript(plan, k, j)))
    ensures t.lost <==> k < RECORD_SIZE || j < |Second(plan)|
  {
    var s := Start(plan, gated);
    var begin, reporting := SetupRun(plan, gated);
    var write, between := FirstReportRun(reporting, k);
    RunsConcat(s, begin, reporting, write, between);
    var more, closed := SecondReportRun(between, j);
    RunsConcat(s, begin + write, between, more, closed);
    InvStart(plan, gated);
    InvRun(s, begin + write + more, closed);
    var rest;
    rest, t := VerdictReachable(closed);
    actions := begin + write + more + rest;
    RunsConcat(s, begin + write + more, closed, rest, t);
    HandshakeSafety(plan, gated, actions, t);
  }

  /** A run whose two torn reports add up to one record: the host accepts although exec failed. */
  lemma TornRunMisleads(gated: bool, k: nat) returns (actions: seq<Action>, t: State)
    requires 0 < k < RECORD_SIZE
    ensures Runs(Start(ExecFails(GuestIncompleteWrite), gated), actions, t)
    ensures t.host == Done(Ok(())) && Deserved(ExecFails(GuestIncompleteWrite)).Err?
  {
    TornReportsMislead(k);
    actions, t := TranscriptReached(ExecFails(GuestIncompleteWrite), gated, k, RECORD_SIZE - k);
  }
}
