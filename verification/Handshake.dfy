/** The start protocol between a guest and its host over one pipe (spawn/mod.rs, clone_into and host_post_clone). */
module Handshake {
  import opened Bytes
  import opened Wrappers
  import opened Transfer
  import opened Wire

  datatype HostError =
    | HookFailed
    | Partial(transfer: PartialTransfer)
    | FromGuest(error: GuestError)

  type Verdict = Result<(), HostError>

  // ----- the host's side -----

  function Judge(r: GuestResult): (verdict: Verdict) {
    match r
    case Ok(_) => Ok(())
    case Err(error) => Err(FromGuest(error))
  }

  /** What the host concludes from everything the pipe delivers before it closes. */
  function HostVerdict(stream: seq<Byte>): Verdict {
    if |stream| < RECORD_SIZE then Err(Partial(PartialTransfer(|stream|, None)))
    else if Receive(stream[..RECORD_SIZE]).Err? then Judge(Receive(stream[..RECORD_SIZE]))
    else
      var rest := stream[RECORD_SIZE..];
      if rest == [] then Ok(())
      else if |rest| < RECORD_SIZE then Err(Partial(PartialTransfer(|rest|, None)))
      else Judge(Receive(rest[..RECORD_SIZE]))
  }

  /** The host reads a setup record, then an exec record whose absence means success. */
  method HostPostClone(hook: Result<(), HostError>, pipe: Source) returns (r: Verdict)
    modifies pipe
    ensures hook.Err? ==> r == hook
    ensures hook.Ok? ==>
      || r == HostVerdict(old(pipe.stream))
      || (r.Err? && r.error.Partial? && r.error.transfer.error.Some? && r.error.transfer.transferred < RECORD_SIZE &&
          Failed(r.error.transfer.error.value) in old(pipe.fates) && r.error.transfer.error.value != EINTR)
    ensures hook.Ok? && Harmless(old(pipe.fates)) ==> r == HostVerdict(old(pipe.stream))
  {
    var _ :- hook;
    ghost var stream, fates := pipe.stream, pipe.fates;
    var setup := pipe.ReadArray(RECORD_SIZE);
    if setup.Err? {
      return Err(Partial(setup.error));
    }
    var setupResult := Receive(setup.value);
    if setupResult.Err? {
      return Err(FromGuest(setupResult.error));
    }
    ghost var rest, later := pipe.stream, pipe.fates;
    var exec := pipe.ReadArray(RECORD_SIZE);
    if exec.Err? && exec.error.transferred == 0 && exec.error.error.None? {
      assert rest == [];
      return Ok(());
    }
    if exec.Err? {
      return Err(Partial(exec.error));
    }
    var execResult := Receive(exec.value);
    if execResult.Err? {
      return Err(FromGuest(execResult.error));
    }
    return Ok(());
  }

  /** Success means one success record and then the end, or two success records. */
  lemma HostAcceptsExactly(stream: seq<Byte>)
    ensures HostVerdict(stream).Ok? <==>
      || (|stream| == RECORD_SIZE && stream[0] == 255)
      || (|stream| >= 2 * RECORD_SIZE && stream[0] == 255 && stream[RECORD_SIZE] == 255)
  {
    if |stream| >= RECORD_SIZE {
      ReceiveOk(stream[..RECORD_SIZE]);
      var rest := stream[RECORD_SIZE..];
      if |rest| >= RECORD_SIZE {
        ReceiveOk(rest[..RECORD_SIZE]);
        assert rest[..RECORD_SIZE][0] == stream[RECORD_SIZE];
      }
    }
  }

  /** Refusals: the first error record is passed on as it is, and a broken record is reported with what came of it. */
  lemma HostRefusesExactly(stream: seq<Byte>, error: GuestError, count: nat)
    ensures HostVerdict(stream) == Err(FromGuest(error)) <==>
      || (|stream| >= 6 && Receive(stream[..6]) == Err(error))
      || (|stream| >= 12 && stream[0] == 255 && Receive(stream[6..12]) == Err(error))
    ensures HostVerdict(stream) == Err(Partial(PartialTransfer(count, None))) <==>
      || (|stream| < 6 && count == |stream|)
      || (6 < |stream| < 12 && stream[0] == 255 && count == |stream| - 6)
  {
    if |stream| >= 6 {
      ReceiveOk(stream[..6]);
      assert |stream| >= 12 ==> stream[6..][..6] == stream[6..12];
    }
  }

  /** A verdict that needs no end of file does not depend on what follows. */
  lemma DecisiveVerdict(got: seq<Byte>, more: seq<Byte>)
    requires |got| == 2 * RECORD_SIZE || (|got| == RECORD_SIZE && Receive(got).Err?)
    ensures HostVerdict(got + more) == HostVerdict(got)
  {
    assert (got + more)[..RECORD_SIZE] == got[..RECORD_SIZE];
    if |got| == RECORD_SIZE {
      assert got[..RECORD_SIZE] == got;
    } else {
      assert (got + more)[RECORD_SIZE..][..RECORD_SIZE] == got[RECORD_SIZE..][..RECORD_SIZE];
    }
  }

  // ----- the guest's side -----

  /** How a guest's run turns out, had it no trouble reporting. */
  datatype Plan =
    | SetupFails(error: GuestError)
    | Exits
    | Supervises
    | ExecFails(error: GuestError)
    | Execs

  predicate PlanFits(plan: Plan) {
    && (plan.SetupFails? ==> Representable(Err(plan.error)))
    && (plan.ExecFails? ==> Representable(Err(plan.error)))
  }

  function First(plan: Plan): (bytes: seq<Byte>)
    requires PlanFits(plan)
    ensures |bytes| == RECORD_SIZE
  {
    if plan.SetupFails? then Send(Err(plan.error)) else Send(Ok(()))
  }

  function Second(plan: Plan): (bytes: seq<Byte>)
    requires PlanFits(plan)
    ensures |bytes| == if plan.ExecFails? then RECORD_SIZE else 0
  {
    if plan.ExecFails? then Send(Err(plan.error)) else []
  }

  /** The bytes on the pipe when `k` bytes of the first and `j` bytes of the second record got out. */
  function Written(first: seq<Byte>, second: seq<Byte>, k: nat, j: nat): seq<Byte>
    requires k <= |first| && j <= |second|
  {
    first[..k] + second[..j]
  }

  function Transcript(plan: Plan, k: nat, j: nat): seq<Byte>
    requires PlanFits(plan) && k <= RECORD_SIZE && j <= |Second(plan)|
  {
    Written(First(plan), Second(plan), k, j)
  }

  /** What the host should conclude. */
  function Deserved(plan: Plan): Verdict {
    match plan
    case SetupFails(error) => Judge(Canonical(Err(error)))
    case ExecFails(error) => Judge(Canonical(Err(error)))
    case _ => Ok(())
  }

  /** One report; a failed write is ignored, as nobody is left to tell. */
  method Report(record: seq<Byte>, pipe: Sink) returns (ghost count: nat)
    modifies pipe
    ensures count <= |record| && pipe.received == old(pipe.received) + record[..count]
    ensures Harmless(old(pipe.fates)) ==> count == |record| && Harmless(pipe.fates)
  {
    var written := pipe.WriteAll(record);
    count := if written.Ok? then |record| else written.error.transferred;
    assert record[..|record|] == record;
  }

  /** The guest after the clone: its setup report, then a report if exec failed. */
  method RunGuest(plan: Plan, pipe: Sink) returns (ghost k: nat, ghost j: nat)
    requires PlanFits(plan)
    modifies pipe
    ensures k <= RECORD_SIZE && j <= |Second(plan)|
    ensures pipe.received == old(pipe.received) + Transcript(plan, k, j)
    ensures Harmless(old(pipe.fates)) ==> k == RECORD_SIZE && j == |Second(plan)|
  {
    k, j := SendReports(First(plan), Second(plan), pipe);
  }

  method SendReports(first: seq<Byte>, second: seq<Byte>, pipe: Sink) returns (ghost k: nat, ghost j: nat)
    modifies pipe
    ensures k <= |first| && j <= |second|
    ensures pipe.received == old(pipe.received) + Written(first, second, k, j)
    ensures Harmless(old(pipe.fates)) ==> k == |first| && j == |second|
  {
    k := Report(first, pipe);
    j := 0;
    if second != [] {
      j := Report(second, pipe);
    }
    assert old(pipe.received) + first[..k] + second[..j] == old(pipe.received) + Written(first, second, k, j);
  }

  /** With both reports complete the host concludes exactly what the guest deserves. */
  lemma CompleteReportsDeliver(plan: Plan)
    requires PlanFits(plan)
    ensures HostVerdict(Transcript(plan, RECORD_SIZE, |Second(plan)|)) == Deserved(plan)
    ensures !plan.SetupFails? && !plan.ExecFails? <==> Deserved(plan) == Ok(())
    ensures plan.SetupFails? || plan.ExecFails? ==> Deserved(plan) == Err(FromGuest(
      match plan.error
      case GuestNetlink(NetlinkSyscall(SyscallError(Unknown, _))) => InvalidWireFormat
      case error => error))
  {
    var first, second := First(plan), Second(plan);
    var stream := Transcript(plan, RECORD_SIZE, |second|);
    assert stream[..RECORD_SIZE] == first && stream[RECORD_SIZE..] == second;
    if plan.SetupFails? {
      ReceiveSend(Err(plan.error));
    } else {
      ReceiveSend(Ok(()));
      if plan.ExecFails? {
        ReceiveSend(Err(plan.error));
        assert second[..RECORD_SIZE] == second;
      }
    }
  }

  lemma RecordTags(r: GuestResult)
    requires Representable(r)
    ensures Send(r)[0] == 255 <==> r.Ok?
  {
    ReceiveSend(r);
    ReceiveOk(Send(r));
  }

  /** Exactly which incomplete reports the host takes for success. */
  lemma AcceptedTranscripts(plan: Plan, k: nat, j: nat)
    requires PlanFits(plan) && k <= RECORD_SIZE && j <= |Second(plan)|
    ensures HostVerdict(Transcript(plan, k, j)).Ok? <==>
      !plan.SetupFails? && ((k == RECORD_SIZE && j == 0) || (0 < k < RECORD_SIZE && k + j == RECORD_SIZE))
  {
    var first, second, stream := First(plan), Second(plan), Transcript(plan, k, j);
    HostAcceptsExactly(stream);
    RecordTags(Ok(()));
    if plan.SetupFails? {
      RecordTags(Err(plan.error));
    }
    if plan.ExecFails? {
      RecordTags(Err(plan.error));
    }
    assert k > 0 ==> stream[0] == first[0];
    assert k == 0 && j > 0 ==> stream[0] == second[0];
    assert k + j == 2 * RECORD_SIZE ==> stream[RECORD_SIZE] == second[0];
  }

  /** Pipes transfer a record whole or not at all; then only a wholly lost error report looks like success. */
  lemma AtomicReports(plan: Plan, k: nat, j: nat)
    requires PlanFits(plan) && k in {0, RECORD_SIZE} && j in {0, |Second(plan)|}
    ensures HostVerdict(Transcript(plan, k, j)).Ok? <==> !plan.SetupFails? && k == RECORD_SIZE && j == 0
    ensures HostVerdict(Transcript(plan, k, j)).Ok? && Deserved(plan).Err? <==>
      plan.ExecFails? && k == RECORD_SIZE && j == 0
  {
    AcceptedTranscripts(plan, k, j);
    DeservedOk(plan);
  }

  lemma DeservedOk(plan: Plan)
    ensures Deserved(plan).Ok? <==> !plan.SetupFails? && !plan.ExecFails?
  {
  }

  /** A torn pair of reports that the host mistakes for success although exec failed. */
  lemma TornReportsMislead(k: nat)
    requires 0 < k < RECORD_SIZE
    ensures
      var plan := ExecFails(GuestIncompleteWrite);
      HostVerdict(Transcript(plan, k, RECORD_SIZE - k)) == Ok(()) && Deserved(plan).Err?
  {
    AcceptedTranscripts(ExecFails(GuestIncompleteWrite), k, RECORD_SIZE - k);
  }
}
