/** The life of a systemd scope from clone to drop (cgroups/systemd.rs, spawn/mod.rs, command.rs). */
module CgroupLifecycle {
  import opened Wrappers

  type Unit = nat
  type Pid = nat
  type StateId = nat

  /** What the host does to the service manager, the cgroup tree, the eventfd and the guest. */
  datatype Event =
    | Start(unit: Unit)
    | Moved(unit: Unit)
    | Applied(unit: Unit)
    | Released(unit: Unit)
    | Stop(unit: Unit)
    | Unreachable(unit: Unit)
    | Teardown(state: StateId)
    | Kill(guest: Pid)

  type Log = seq<Event>

  function Count(log: Log, event: Event): nat {
    multiset(log)[event]
  }

  /** How often the stop of `unit` was attempted, or given up because the service manager could not be reached. */
  function Ends(log: Log, unit: Unit): nat {
    Count(log, Stop(unit)) + Count(log, Unreachable(unit))
  }

  /** Every start is matched by one end, except for the units in `held`, which wait for theirs. */
  ghost predicate Balanced(log: Log, held: set<Unit>) {
    forall u: Unit :: Count(log, Start(u)) == Ends(log, u) + if u in held then 1 else 0
  }

  /** A guest is released only after it was moved and its policy applied. */
  ghost predicate Gated(log: Log) {
    forall i, u :: 0 <= i < |log| && log[i] == Released(u) ==> Moved(u) in log[..i] && Applied(u) in log[..i]
  }

  // ----- logs built one event at a time -----

  function HeldAfter(held: set<Unit>, event: Event): set<Unit> {
    match event
    case Start(u) => held + {u}
    case Stop(u) => held - {u}
    case Unreachable(u) => held - {u}
    case _ => held
  }

  /** The units started and not yet ended. */
  function Held(log: Log): set<Unit> {
    if log == [] then {} else HeldAfter(Held(log[..|log| - 1]), log[|log| - 1])
  }

  /** No unit is started while it is held, none is ended that is not held, none released too early. */
  predicate Fits(log: Log, event: Event) {
    match event
    case Start(u) => u !in Held(log)
    case Stop(u) => u in Held(log)
    case Unreachable(u) => u in Held(log)
    case Released(u) => Moved(u) in log && Applied(u) in log
    case _ => true
  }

  predicate Orderly(log: Log) {
    log != [] ==> Orderly(log[..|log| - 1]) && Fits(log[..|log| - 1], log[|log| - 1])
  }

  lemma OrderlyAdd(log: Log, event: Event)
    requires Orderly(log) && Fits(log, event)
    ensures Orderly(log + [event]) && Held(log + [event]) == HeldAfter(Held(log), event)
  {
    assert (log + [event])[..|log|] == log;
  }

  lemma {:induction false} OrderlyIsBalanced(log: Log)
    requires Orderly(log)
    ensures Balanced(log, Held(log))
  {
    if log != [] {
      var front, event := log[..|log| - 1], log[|log| - 1];
      OrderlyIsBalanced(front);
      assert log == front + [event];
      forall u: Unit
        ensures Count(log, Start(u)) == Ends(log, u) + if u in Held(log) then 1 else 0
      {
        assert Count(front, Start(u)) == Ends(front, u) + if u in Held(front) then 1 else 0;
        CountAdd(front, event, Start(u));
        CountAdd(front, event, Stop(u));
        CountAdd(front, event, Unreachable(u));
      }
    }
  }

  lemma {:induction false} OrderlyIsGated(log: Log)
    requires Orderly(log)
    ensures Gated(log)
  {
    if log != [] {
      var front := log[..|log| - 1];
      OrderlyIsGated(front);
      forall i, u | 0 <= i < |log| && log[i] == Released(u)
        ensures Moved(u) in log[..i] && Applied(u) in log[..i]
      {
        assert i < |front| ==> front[i] == log[i] && front[..i] == log[..i];
      }
    }
  }

  lemma CountAdd(log: Log, event: Event, x: Event)
    ensures Count(log + [event], x) == Count(log, x) + if x == event then 1 else 0
  {
  }

  /** A unit that was never started is not held. */
  lemma NeverHeld(log: Log, unit: Unit)
    requires Orderly(log) && Start(unit) !in log
    ensures unit !in Held(log)
  {
    OrderlyIsBalanced(log);
    assert Count(log, Start(unit)) == 0;
  }

  // ----- waiting for the start job -----

  datatype Message =
    | Unrelated
    | Malformed
    | JobRemoved(job: nat, done: bool)

  datatype Error =
    | ManagerError | UnitStartTimeout | MalformedMessage | JobFailed | InvalidState | SystemCall | GuestFailed

  /** A message that does not match the rule, or is about another job. */
  predicate Skipped(m: Message, job: nat) {
    m.Unrelated? || (m.JobRemoved? && m.job != job)
  }

  /** The `k`-th message is the first that concerns this job. */
  ghost predicate IsFirst(messages: seq<Message>, job: nat, k: int) {
    0 <= k < |messages| && !Skipped(messages[k], job) && forall j :: 0 <= j < k ==> Skipped(messages[j], job)
  }

  lemma FirstIsUnique(messages: seq<Message>, job: nat, k: nat)
    requires IsFirst(messages, job, k)
    ensures forall i :: IsFirst(messages, job, i) ==> i == k
  {
  }

  /** The first message that concerns this job is this one. */
  ghost predicate FirstIs(messages: seq<Message>, job: nat, m: Message) {
    exists k :: IsFirst(messages, job, k) && messages[k] == m
  }

  lemma FirstIsOnly(messages: seq<Message>, job: nat, m: Message, other: Message)
    requires FirstIs(messages, job, m) && FirstIs(messages, job, other)
    ensures m == other
  {
    var k :| IsFirst(messages, job, k) && messages[k] == m;
    FirstIsUnique(messages, job, k);
  }

  /** Exactly the messages that do not match, and those about other jobs, are passed over. */
  lemma SkippedExactly(m: Message, job: nat)
    ensures Skipped(m, job) <==>
      match m
      case Unrelated => true
      case Malformed => false
      case JobRemoved(other, _) => other != job
  {
  }

  /** What an outcome of starting the unit says about the messages. */
  ghost predicate Explains(messages: seq<Message>, job: nat, r: Result<(), Error>) {
    && (r.Ok? ==> FirstIs(messages, job, JobRemoved(job, true)))
    && (r == Err(JobFailed) ==> FirstIs(messages, job, JobRemoved(job, false)))
    && (r == Err(MalformedMessage) ==> FirstIs(messages, job, Malformed))
    && (r == Err(UnitStartTimeout) ==> forall k :: 0 <= k < |messages| ==> Skipped(messages[k], job))
  }

  lemma Awaited(messages: seq<Message>, job: nat, r: Result<(), Error>)
    requires r == Err(UnitStartTimeout) <==> forall k :: 0 <= k < |messages| ==> Skipped(messages[k], job)
    requires r.Err? ==> r.error in {JobFailed, MalformedMessage, UnitStartTimeout}
    requires forall k :: IsFirst(messages, job, k) ==> (r == Ok(()) <==> messages[k] == JobRemoved(job, true))
    requires forall k :: IsFirst(messages, job, k) ==> (r == Err(JobFailed) <==> messages[k] == JobRemoved(job, false))
    requires forall k :: IsFirst(messages, job, k) ==> (r == Err(MalformedMessage) <==> messages[k] == Malformed)
    ensures Explains(messages, job, r)
    ensures FirstIs(messages, job, JobRemoved(job, true)) ==> r.Ok?
  {
    if r != Err(UnitStartTimeout) {
      var k := FirstOne(messages, job);
      if r.Ok? {
        assert r == Ok(r.value) && r.value == ();
      }
    }
  }

  lemma FirstOne(messages: seq<Message>, job: nat) returns (k: nat)
    requires exists i :: 0 <= i < |messages| && !Skipped(messages[i], job)
    ensures IsFirst(messages, job, k)
  {
    k := 0;
    while Skipped(messages[k], job)
      invariant k < |messages| && forall j :: 0 <= j < k ==> Skipped(messages[j], job)
      decreases |messages| - k
    {
      k := k + 1;
    }
  }

  /** Waits for the job over the messages that arrive before the deadline: the first that concerns it decides. */
  method AwaitJob(messages: seq<Message>, job: nat) returns (r: Result<(), Error>)
    ensures r == Err(UnitStartTimeout) <==> forall k :: 0 <= k < |messages| ==> Skipped(messages[k], job)
    ensures forall k :: IsFirst(messages, job, k) ==> (r == Ok(()) <==> messages[k] == JobRemoved(job, true))
    ensures forall k :: IsFirst(messages, job, k) ==> (r == Err(JobFailed) <==> messages[k] == JobRemoved(job, false))
    ensures forall k :: IsFirst(messages, job, k) ==> (r == Err(MalformedMessage) <==> messages[k] == Malformed)
    ensures r.Err? ==> r.error in {JobFailed, MalformedMessage, UnitStartTimeout}
  {
    for i := 0 to |messages|
      invariant forall j :: 0 <= j < i ==> Skipped(messages[j], job)
    {
      if Skipped(messages[i], job) {
        continue;
      }
      FirstIsUnique(messages, job, i);
      match messages[i] {
        case Malformed => return Err(MalformedMessage);
        case JobRemoved(_, done) =>
          if !done {
            return Err(JobFailed);
          }
          return Ok(());
      }
    }
    return Err(UnitStartTimeout);
  }

  // ----- the backend and its host -----

  datatype Phase = PreClone | PostClone(unit: Unit)

  class SystemdState {
    const id: StateId
    var phase: Phase

    constructor (id: StateId)
      ensures this.id == id && phase == PreClone
    {
      this.id := id;
      phase := PreClone;
    }
  }

  function Owned(phase: Phase): set<Unit> {
    if phase.PostClone? then {phase.unit} else {}
  }

  datatype Reply = Stopped | NoSuchUnit | Refused

  /** How the service manager behaves towards one teardown. */
  datatype Manager = Manager(connects: bool, reply: Reply)

  /** What a teardown adds to the log. */
  function TeardownTrace(id: StateId, phase: Phase, manager: Manager): Log {
    [Teardown(id)] +
    match phase
    case PreClone => []
    case PostClone(unit) => [if manager.connects then Stop(unit) else Unreachable(unit)]
  }

  predicate TeardownSucceeds(phase: Phase, manager: Manager) {
    phase.PostClone? ==> manager.connects && manager.reply != Refused
  }

  /** How far the hook came after the start job: the guest moved, the policy applied, the guest released. */
  function Steps(unit: Unit, n: nat): Log {
    (if n >= 1 then [Moved(unit)] else []) +
    (if n >= 2 then [Applied(unit)] else []) +
    (if n >= 3 then [Released(unit)] else [])
  }

  /** Adding the next step. */
  lemma StepsAdd(before: Log, unit: Unit, n: nat)
    requires n < 3
    ensures Steps(unit, 0) == []
    ensures
      var step := if n == 0 then Moved(unit) else if n == 1 then Applied(unit) else Released(unit);
      before + Steps(unit, n) + [step] == before + Steps(unit, n + 1)
  {
  }

  lemma StepsDone(before: Log, unit: Unit)
    ensures Moved(unit) in before + Steps(unit, 2) && Applied(unit) in before + Steps(unit, 2)
  {
    var log := before + Steps(unit, 2);
    assert log[|before|] == Moved(unit) && log[|before| + 1] == Applied(unit);
  }

  /** What the hook adds to the log: nothing if it fails before the start request, and a stop if it fails later. */
  function HookTrace(unit: Unit, reached: Option<nat>): Log {
    match reached
    case None => []
    case Some(n) => [Start(unit)] + Steps(unit, n) + if n >= 3 then [] else [Stop(unit)]
  }

  lemma HookTraceParts(before: Log, unit: Unit, n: nat)
    ensures before + HookTrace(unit, Some(n)) ==
      var moved := before + [Start(unit)] + Steps(unit, n);
      if n >= 3 then moved else moved + [Stop(unit)]
    ensures Steps(unit, 0) == []
  {
  }

  /** Calls to the service manager, the kernel and the cgroup tree, in their order. */
  datatype Call = CloneGuest | Connect | RequestStart | EnterUnit | ApplyPolicy | SignalGuest

  /** Which calls work for the guest of which unit: arbitrary, and fixed while the guest is started. */
  type Calls = (Unit, Call) -> bool

  /** How far the hook gets after a start request: its job is done, then one step after the other works. */
  ghost predicate Gets(works: Calls, unit: Unit, messages: seq<Message>, job: nat, n: nat) {
    && works(unit, RequestStart) && FirstIs(messages, job, JobRemoved(job, true))
    && works(unit, EnterUnit)
    && (n >= 2 ==> works(unit, ApplyPolicy))
    && (n >= 3 ==> works(unit, SignalGuest))
  }

  class Host {
    var log: Log
    const works: Calls

    constructor (works: Calls)
      ensures log == [] && this.works == works
    {
      this.works := works;
      log := [];
    }

    /** One or several calls that leave no trace in the log. */
    method Attempt(unit: Unit, call: Call) returns (ok: bool)
      ensures ok <==> works(unit, call)
    {
      ok := works(unit, call);
    }

    method Record(event: Event)
      requires Orderly(log) && Fits(log, event)
      modifies this
      ensures Orderly(log) && log == old(log) + [event] && Held(log) == HeldAfter(Held(old(log)), event)
    {
      OrderlyAdd(log, event);
      log := log + [event];
    }

    /** Starting the unit under the stop guard, and waiting for its job. */
    method StartUnit(unit: Unit, messages: seq<Message>, job: nat) returns (r: Result<(), Error>)
      requires Orderly(log) && Start(unit) !in log
      modifies this
      ensures Orderly(log) && Held(log) == Held(old(log)) + {unit}
      ensures log == old(log) + [Start(unit)]
      ensures Explains(messages, job, r)
      ensures r.Ok? <==> works(unit, RequestStart) && FirstIs(messages, job, JobRemoved(job, true))
      ensures r == Err(ManagerError) <==> !works(unit, RequestStart)
      ensures r.Err? ==> r.error in {ManagerError, JobFailed, MalformedMessage, UnitStartTimeout}
    {
      NeverHeld(log, unit);
      Record(Start(unit));
      var started := Attempt(unit, RequestStart);
      if !started {
        return Err(ManagerError);
      }
      r := AwaitJob(messages, job);
      Awaited(messages, job, r);
    }

    /** The next of the three steps. */
    method RecordStep(ghost before: Log, unit: Unit, n: nat)
      requires Orderly(log) && n < 3 && log == before + Steps(unit, n)
      modifies this
      ensures Orderly(log) && Held(log) == Held(old(log)) && log == before + Steps(unit, n + 1)
    {
      StepsAdd(before, unit, n);
      if n == 2 {
        StepsDone(before, unit);
      }
      Record(if n == 0 then Moved(unit) else if n == 1 then Applied(unit) else Released(unit));
    }

    /** Moves the guest into the unit's cgroup, applies the policy, releases the guest; success disarms the guard. */
    method MoveGuest(state: SystemdState, unit: Unit) returns (r: Result<(), Error>, ghost n: nat)
      requires Orderly(log)
      modifies this, state
      ensures Orderly(log) && Held(log) == Held(old(log))
      ensures n <= 3 && log == old(log) + Steps(unit, n)
      ensures r.Ok? <==> n == 3
      ensures state.phase == if r.Ok? then PostClone(unit) else old(state.phase)
      ensures r.Ok? ==> old(state.phase) == PreClone
      ensures n >= 1 <==> works(unit, EnterUnit)
      ensures n >= 2 <==> works(unit, EnterUnit) && works(unit, ApplyPolicy)
      ensures n == 3 <==>
        works(unit, EnterUnit) && works(unit, ApplyPolicy) && works(unit, SignalGuest) && old(state.phase) == PreClone
      ensures r == Err(InvalidState) <==> n == 2 && old(state.phase) != PreClone
      ensures r.Err? ==> r.error in {SystemCall, InvalidState}
    {
      ghost var before := log;
      StepsAdd(before, unit, 0);
      // looking up the unit, opening and creating its cgroups
      var prepared := Attempt(unit, EnterUnit);
      if !prepared {
        return Err(SystemCall), 0;
      }
      RecordStep(before, unit, 0);
      var delegated := Attempt(unit, ApplyPolicy);
      if !delegated {
        return Err(SystemCall), 1;
      }
      RecordStep(before, unit, 1);
      if state.phase.PostClone? {
        return Err(InvalidState), 2;
      }
      var signalled := Attempt(unit, SignalGuest);
      if !signalled {
        return Err(SystemCall), 2;
      }
      RecordStep(before, unit, 2);
      state.phase := PostClone(unit);
      return Ok(()), 3;
    }

    /** The part of the hook the stop guard covers; `n` tells how far it came after the start request. */
    method RunGuarded(state: SystemdState, unit: Unit, messages: seq<Message>, job: nat)
      returns (r: Result<(), Error>, ghost n: nat)
      requires Orderly(log) && Start(unit) !in log
      modifies this, state
      ensures Orderly(log) && Held(log) == Held(old(log)) + {unit}
      ensures n <= 3 && log == old(log) + [Start(unit)] + Steps(unit, n)
      ensures r.Ok? <==> n == 3
      ensures state.phase == if r.Ok? then PostClone(unit) else old(state.phase)
      ensures r.Ok? ==> old(state.phase) == PreClone
      ensures Explains(messages, job, r)
      ensures forall i :: 1 <= i <= 2 ==> (n >= i <==> Gets(works, unit, messages, job, i))
      ensures n == 3 <==> Gets(works, unit, messages, job, 3) && old(state.phase) == PreClone
      ensures r == Err(ManagerError) <==> !works(unit, RequestStart)
      ensures r != Err(GuestFailed)
    {
      n := 0;
      HookTraceParts(log, unit, 0);
      r := StartUnit(unit, messages, job);
      if r.Ok? {
        r, n := MoveGuest(state, unit);
      }
    }

    /** `host_post_clone_hook`: the stop guard covers every failure from the start request on. */
    method HostPostCloneHook(state: SystemdState, unit: Unit, messages: seq<Message>, job: nat)
      returns (r: Result<(), Error>, ghost reached: Option<nat>)
      requires Orderly(log) && Start(unit) !in log
      modifies this, state
      ensures Orderly(log) && Held(log) == Held(old(log)) + if r.Ok? then {unit} else {}
      ensures reached.Some? ==> reached.value <= 3
      ensures log == old(log) + HookTrace(unit, reached)
      ensures r.Ok? <==> reached == Some(3)
      ensures state.phase == if r.Ok? then PostClone(unit) else old(state.phase)
      ensures r.Ok? ==> old(state.phase) == PreClone
      ensures Explains(messages, job, r)
      ensures reached.Some? <==> works(unit, Connect)
      ensures reached.Some? ==>
        forall i :: 1 <= i <= 2 ==> (reached.value >= i <==> Gets(works, unit, messages, job, i))
      ensures r.Ok? <==>
        works(unit, Connect) && Gets(works, unit, messages, job, 3) && old(state.phase) == PreClone
      ensures r == Err(ManagerError) <==> !works(unit, Connect) || !works(unit, RequestStart)
      ensures r != Err(GuestFailed)
    {
      var connected := Attempt(unit, Connect);
      if !connected {
        return Err(ManagerError), None;
      }
      NeverHeld(log, unit);
      ghost var n;
      r, n := RunGuarded(state, unit, messages, job);
      if r.Err? {
        Record(Stop(unit));
      }
      HookTraceParts(old(log), unit, n);
      reached := Some(n);
    }

    /** `teardown`; it consumes the state. */
    method TearDown(state: SystemdState, manager: Manager) returns (r: Result<(), Error>)
      requires Orderly(log) && Owned(state.phase) <= Held(log)
      modifies this
      ensures Orderly(log) && Held(log) == Held(old(log)) - Owned(state.phase)
      ensures log == old(log) + TeardownTrace(state.id, state.phase, manager)
      ensures r.Ok? <==> TeardownSucceeds(state.phase, manager)
      ensures r.Ok? <==> state.phase.PreClone? || (manager.connects && manager.reply != Refused)
    {
      Record(Teardown(state.id));
      if state.phase.PostClone? {
        var unit := state.phase.unit;
        if !manager.connects {
          Record(Unreachable(unit));
          return Err(ManagerError);
        }
        Record(Stop(unit));
        if manager.reply == Refused {
          return Err(ManagerError);
        }
      }
      return Ok(());
    }

    /** Everything the guard of `clone_into` covers; `accepted` is the verdict on the reports of the guest. */
    method CloneGuarded(state: SystemdState, unit: Unit, messages: seq<Message>, job: nat, accepted: bool)
      returns (r: Result<(), Error>, ghost reached: Option<nat>)
      requires Orderly(log) && Start(unit) !in log && state.phase == PreClone
      modifies this, state
      ensures reached.Some? ==> reached.value <= 3
      ensures Orderly(log) && Held(log) == Held(old(log)) + Owned(state.phase)
      ensures state.phase == Final(unit, reached)
      ensures r.Ok? ==> reached == Some(3) && accepted
      ensures log == old(log) + HookTrace(unit, reached)
      ensures Explains(messages, job, r)
      ensures reached.Some? <==> works(unit, CloneGuest) && works(unit, Connect)
      ensures reached.Some? ==>
        forall i :: 1 <= i <= 3 ==> (reached.value >= i <==> Gets(works, unit, messages, job, i))
      ensures r.Ok? <==> reached == Some(3) && accepted
      ensures r == Err(GuestFailed) <==> reached == Some(3) && !accepted
    {
      // identity, pipe and clone before the guest exists, closing the guest's end of the pipe after it
      var cloned := Attempt(unit, CloneGuest);
      if !cloned {
        return Err(SystemCall), None;
      }
      r, reached := HostPostCloneHook(state, unit, messages, job);
      if r.Ok? && !accepted {
        return Err(GuestFailed), reached;
      }
    }

    /** The host's side of `clone_into`: its guard tears the state down on failure, and hands it back otherwise. */
    method CloneInto(
      state: SystemdState, unit: Unit, messages: seq<Message>, job: nat, accepted: bool, manager: Manager)
      returns (r: Result<(), Error>, ghost reached: Option<nat>)
      requires Orderly(log) && Start(unit) !in log && state.phase == PreClone
      modifies this, state
      ensures reached.Some? ==> reached.value <= 3
      ensures Orderly(log) && Held(log) == Held(old(log)) + if r.Ok? then {unit} else {}
      ensures state.phase == Final(unit, reached)
      ensures r.Ok? ==> reached == Some(3) && log == old(log) + HookTrace(unit, reached)
      ensures r.Err? ==>
        log == old(log) + HookTrace(unit, reached) + TeardownTrace(state.id, Final(unit, reached), manager)
      ensures Explains(messages, job, r) && (r.Ok? ==> accepted)
      ensures reached.Some? <==> works(unit, CloneGuest) && works(unit, Connect)
      ensures reached.Some? ==>
        forall i :: 1 <= i <= 3 ==> (reached.value >= i <==> Gets(works, unit, messages, job, i))
      ensures r.Ok? <==> reached == Some(3) && accepted
      ensures r == Err(GuestFailed) <==> reached == Some(3) && !accepted
    {
      NeverHeld(log, unit);
      r, reached := CloneGuarded(state, unit, messages, job, accepted);
      if r.Err? {
        var _ := TearDown(state, manager);
      }
    }
  }

  function Final(unit: Unit, reached: Option<nat>): Phase {
    if reached == Some(3) then PostClone(unit) else PreClone
  }

  // ----- the handle of a running guest -----

  datatype Signal = Sent | NoSuchProcess | Denied

  /** How the kernel answers one kill, and the wait after it. */
  datatype Ending = Ending(signal: Signal, waited: Result<nat, Error>)

  datatype TerminationError = TerminationError(signal: bool, wait: Option<Result<nat, Error>>, cgroup: Option<Error>)

  class Guest {
    const host: Host
    const pid: Pid
    var destructor: Option<SystemdState>

    constructor (host: Host, pid: Pid, state: SystemdState)
      ensures this.host == host && this.pid == pid && destructor == Some(state)
    {
      this.host := host;
      this.pid := pid;
      destructor := Some(state);
    }

    /** The unit its destructor will stop is still held. */
    ghost predicate Valid()
      reads this, host, if destructor.Some? then {destructor.value} else {}
    {
      Orderly(host.log) && DestructorUnits() <= Held(host.log)
    }

    function DestructorUnits(): set<Unit>
      reads this, if destructor.Some? then {destructor.value} else {}
    {
      if destructor.None? then {} else Owned(destructor.value.phase)
    }

    /** What its destructor, if it is still there, adds to the log. */
    function DestructorTrace(manager: Manager): Log
      reads this, if destructor.Some? then {destructor.value} else {}
    {
      if destructor.None? then [] else TeardownTrace(destructor.value.id, destructor.value.phase, manager)
    }

    ghost predicate DestructorSucceeds(manager: Manager)
      reads this, if destructor.Some? then {destructor.value} else {}
    {
      destructor.Some? ==> TeardownSucceeds(destructor.value.phase, manager)
    }

    /** Kills the guest before its cgroup goes; the destructor is taken whatever fails. */
    method TerminateInternal(ending: Ending, manager: Manager) returns (r: Result<nat, TerminationError>)
      requires Valid()
      modifies this, host
      ensures Valid() && destructor == None
      ensures host.log == old(host.log) + [Kill(pid)] + old(DestructorTrace(manager))
      ensures Held(host.log) == Held(old(host.log)) - old(DestructorUnits())
      ensures r.Ok? <==> ending.signal != Denied && ending.waited.Ok? && old(DestructorSucceeds(manager))
      ensures r.Ok? && old(destructor.Some? && destructor.value.phase.PostClone?) ==>
        manager.connects && manager.reply != Refused
      ensures r.Ok? ==> r.value == ending.waited.value
      ensures r.Err? ==> (r.error.signal <==> ending.signal == Denied)
      ensures r.Err? ==> (r.error.cgroup.Some? <==> !old(DestructorSucceeds(manager)))
      ensures r.Err? ==> r.error.wait == if ending.signal == Denied then None else Some(ending.waited)
    {
      host.Record(Kill(pid));
      var failed := ending.signal == Denied;
      var wait := if failed then None else Some(ending.waited);
      var cgroup := None;
      var taken := destructor;
      destructor := None;
      if taken.Some? {
        var tornDown := host.TearDown(taken.value, manager);
        cgroup := if tornDown.Err? then Some(tornDown.error) else None;
      }
      if !failed && ending.waited.Ok? && cgroup.None? {
        return Ok(ending.waited.value);
      }
      return Err(TerminationError(failed, wait, cgroup));
    }

    /** `Drop` */
    method Drop(ending: Ending, manager: Manager)
      requires Valid()
      modifies this, host
      ensures Valid() && destructor == None
      ensures host.log == old(host.log) + [Kill(pid)] + old(DestructorTrace(manager))
      ensures Held(host.log) == Held(old(host.log)) - old(DestructorUnits())
    {
      var _ := TerminateInternal(ending, manager);
    }

    /** `terminate` consumes the handle, so `Drop` runs after it. */
    method Terminate(ending: Ending, dropped: Ending, manager: Manager) returns (r: Result<nat, TerminationError>)
      requires Valid()
      modifies this, host
      ensures Valid() && destructor == None
      ensures host.log == old(host.log) + [Kill(pid)] + old(DestructorTrace(manager)) + [Kill(pid)]
      ensures Held(host.log) == Held(old(host.log)) - old(DestructorUnits())
      ensures r.Ok? <==> ending.signal != Denied && ending.waited.Ok? && old(DestructorSucceeds(manager))
      ensures r.Ok? ==> r.value == ending.waited.value
    {
      r := TerminateInternal(ending, manager);
      Drop(dropped, manager);
    }
  }

  // ----- a whole life -----

  /** How one guest fared: how far the hook came, whether it was spawned, and how its handle ended. */
  datatype Life = Life(reached: Option<nat>, spawned: bool, terminated: bool, manager: Manager)

  predicate Possible(life: Life) {
    (life.reached.Some? ==> life.reached.value <= 3) && (life.spawned ==> life.reached == Some(3))
  }

  function LifeTrace(pid: Pid, id: StateId, unit: Unit, life: Life): Log {
    HookTrace(unit, life.reached) +
    (if life.spawned then [Kill(pid)] else []) +
    TeardownTrace(id, Final(unit, life.reached), life.manager) +
    (if life.spawned && life.terminated then [Kill(pid)] else [])
  }

  lemma CountConcat(a: Log, b: Log, x: Event)
    ensures Count(a + b, x) == Count(a, x) + Count(b, x)
  {
  }

  /** Only the hook and the teardown count, apart from kills. */
  lemma LifeCount(pid: Pid, id: StateId, unit: Unit, life: Life, x: Event)
    requires x != Kill(pid)
    ensures Count(LifeTrace(pid, id, unit, life), x) ==
      Count(HookTrace(unit, life.reached), x) + Count(TeardownTrace(id, Final(unit, life.reached), life.manager), x)
  {
    var hook := HookTrace(unit, life.reached);
    var kill := if life.spawned then [Kill(pid)] else [];
    var teardown := TeardownTrace(id, Final(unit, life.reached), life.manager);
    var again := if life.spawned && life.terminated then [Kill(pid)] else [];
    CountConcat(hook, kill, x);
    CountConcat(hook + kill, teardown, x);
    CountConcat(hook + kill + teardown, again, x);
  }

  lemma StepsCount(unit: Unit, n: nat, x: Event)
    ensures Count(Steps(unit, n), x) ==
      if x == Moved(unit) && n >= 1 then 1
      else if x == Applied(unit) && n >= 2 then 1
      else if x == Released(unit) && n >= 3 then 1
      else 0
  {
    var moved := if n >= 1 then [Moved(unit)] else [];
    var applied := if n >= 2 then [Applied(unit)] else [];
    CountConcat(moved, applied, x);
    CountConcat(moved + applied, if n >= 3 then [Released(unit)] else [], x);
  }

  function One(condition: bool): nat {
    if condition then 1 else 0
  }

  lemma HookSum(unit: Unit, n: nat, x: Event)
    ensures Count(HookTrace(unit, Some(n)), x) ==
      One(x == Start(unit)) + Count(Steps(unit, n), x) + One(n < 3 && x == Stop(unit))
  {
    var last := if n >= 3 then [] else [Stop(unit)];
    CountConcat([Start(unit)], Steps(unit, n), x);
    CountConcat([Start(unit)] + Steps(unit, n), last, x);
    assert Count(last, x) == One(n < 3 && x == Stop(unit));
  }

  lemma HookCount(unit: Unit, reached: Option<nat>, x: Event)
    ensures x == Start(unit) ==> Count(HookTrace(unit, reached), x) == One(reached.Some?)
    ensures x == Stop(unit) ==> Count(HookTrace(unit, reached), x) == One(reached.Some? && reached.value < 3)
    ensures x == Released(unit) ==> Count(HookTrace(unit, reached), x) == One(reached.Some? && reached.value >= 3)
    ensures x.Teardown? || x.Unreachable? ==> Count(HookTrace(unit, reached), x) == 0
  {
    if reached.Some? {
      HookSum(unit, reached.value, x);
      StepsCount(unit, reached.value, x);
    }
  }

  lemma TeardownCount(id: StateId, phase: Phase, manager: Manager, x: Event)
    ensures Count(TeardownTrace(id, phase, manager), x) ==
      if x == Teardown(id) then 1
      else if phase.PostClone? && x == (if manager.connects then Stop(phase.unit) else Unreachable(phase.unit)) then 1
      else 0
  {
    if phase.PostClone? {
      CountConcat([Teardown(id)], [if manager.connects then Stop(phase.unit) else Unreachable(phase.unit)], x);
    } else {
      CountConcat([Teardown(id)], [], x);
    }
  }

  lemma LifeTotal(pid: Pid, id: StateId, unit: Unit, life: Life, x: Event)
    requires Possible(life)
    ensures x == Start(unit) ==> Count(LifeTrace(pid, id, unit, life), x) == One(life.reached.Some?)
    ensures x == Stop(unit) ==>
      Count(LifeTrace(pid, id, unit, life), x) ==
      One(life.reached.Some? && (life.reached == Some(3) ==> life.manager.connects))
    ensures x == Unreachable(unit) ==>
      Count(LifeTrace(pid, id, unit, life), x) == One(life.reached == Some(3) && !life.manager.connects)
    ensures x == Released(unit) ==> Count(LifeTrace(pid, id, unit, life), x) == One(life.reached == Some(3))
    ensures x == Teardown(id) ==> Count(LifeTrace(pid, id, unit, life), x) == 1
  {
    if x != Kill(pid) {
      LifeCount(pid, id, unit, life, x);
      HookCount(unit, life.reached, x);
      TeardownCount(id, Final(unit, life.reached), life.manager, x);
    }
  }

  /** On every path: one teardown, one end for a unit whose start was requested, a release after a complete hook. */
  lemma EveryLifeEndsOnce(pid: Pid, id: StateId, unit: Unit, life: Life)
    requires Possible(life)
    ensures Count(LifeTrace(pid, id, unit, life), Teardown(id)) == 1
    ensures Count(LifeTrace(pid, id, unit, life), Start(unit)) == One(life.reached.Some?)
    ensures Ends(LifeTrace(pid, id, unit, life), unit) == Count(LifeTrace(pid, id, unit, life), Start(unit))
    ensures Count(LifeTrace(pid, id, unit, life), Unreachable(unit)) ==
      One(life.reached == Some(3) && !life.manager.connects)
    ensures Count(LifeTrace(pid, id, unit, life), Released(unit)) == One(life.reached == Some(3))
  {
    LifeTotal(pid, id, unit, life, Teardown(id));
    LifeTotal(pid, id, unit, life, Start(unit));
    LifeTotal(pid, id, unit, life, Stop(unit));
    LifeTotal(pid, id, unit, life, Unreachable(unit));
    LifeTotal(pid, id, unit, life, Released(unit));
  }

  /** Spawns a guest, then terminates or drops it; any other guests of the host stay as they are. */
  method Live(host: Host, id: StateId, pid: Pid, unit: Unit, messages: seq<Message>, job: nat, accepted: bool,
      manager: Manager, terminate: bool, first: Ending, second: Ending)
    returns (ghost life: Life)
    requires Orderly(host.log) && Start(unit) !in host.log
    modifies host
    ensures Possible(life) && life.manager == manager && life.terminated == terminate
    ensures life.reached.Some? <==> host.works(unit, CloneGuest) && host.works(unit, Connect)
    ensures life.reached.Some? ==>
      forall i :: 1 <= i <= 3 ==> (life.reached.value >= i <==> Gets(host.works, unit, messages, job, i))
    ensures life.spawned <==> life.reached == Some(3) && accepted
    ensures Orderly(host.log) && Held(host.log) == Held(old(host.log))
    ensures host.log == old(host.log) + LifeTrace(pid, id, unit, life)
  {
    NeverHeld(host.log, unit);
    var state := new SystemdState(id);
    var r, reached := host.CloneInto(state, unit, messages, job, accepted, manager);
    life := Life(reached, r.Ok?, terminate, manager);
    if r.Ok? {
      var guest := new Guest(host, pid, state);
      if terminate {
        var _ := guest.Terminate(first, second, manager);
      } else {
        guest.Drop(second, manager);
      }
    }
    LifeParts(old(host.log), pid, id, unit, life);
  }

  lemma LifeParts(before: Log, pid: Pid, id: StateId, unit: Unit, life: Life)
    ensures before + LifeTrace(pid, id, unit, life) ==
      var torn := TeardownTrace(id, Final(unit, life.reached), life.manager);
      var hooked := before + HookTrace(unit, life.reached);
      if !life.spawned then hooked + torn
      else if life.terminated then hooked + [Kill(pid)] + torn + [Kill(pid)]
      else hooked + [Kill(pid)] + torn
  {
  }

  // ----- the lives of several guests, in any interleaving -----

  /** The log is made of the parts, each in its own order and otherwise mixed in any way. */
  ghost predicate Interleaves(log: Log, parts: seq<Log>)
    decreases |log|
  {
    if log == [] then forall i :: 0 <= i < |parts| ==> parts[i] == []
    else exists i :: 0 <= i < |parts| && Next(log, parts, i) && Interleaves(log[1..], Advance(parts, i))
  }

  predicate Next(log: Log, parts: seq<Log>, i: nat)
    requires log != [] && i < |parts|
  {
    parts[i] != [] && parts[i][0] == log[0]
  }

  function Advance(parts: seq<Log>, i: nat): seq<Log>
    requires i < |parts| && parts[i] != []
  {
    parts[i := parts[i][1..]]
  }

  function Total(parts: seq<Log>, x: Event): nat {
    if parts == [] then 0 else Count(parts[0], x) + Total(parts[1..], x)
  }

  lemma {:induction false} TotalAdvance(parts: seq<Log>, i: nat, x: Event)
    requires i < |parts| && parts[i] != []
    ensures Total(parts, x) == Total(Advance(parts, i), x) + One(parts[i][0] == x)
  {
    if i == 0 {
      assert parts[0] == [parts[0][0]] + parts[0][1..];
      CountConcat([parts[0][0]], parts[0][1..], x);
      assert Advance(parts, 0)[1..] == parts[1..];
    } else {
      TotalAdvance(parts[1..], i - 1, x);
      assert Advance(parts, i)[1..] == Advance(parts[1..], i - 1);
    }
  }

  lemma {:induction false} TotalOfEmpty(parts: seq<Log>, x: Event)
    requires forall i :: 0 <= i < |parts| ==> Count(parts[i], x) == 0
    ensures Total(parts, x) == 0
  {
    if parts != [] {
      TotalOfEmpty(parts[1..], x);
    }
  }

  lemma {:induction false} TotalOfOne(parts: seq<Log>, i: nat, x: Event)
    requires i < |parts| && forall j :: 0 <= j < |parts| && j != i ==> Count(parts[j], x) == 0
    ensures Total(parts, x) == Count(parts[i], x)
  {
    if i == 0 {
      TotalOfEmpty(parts[1..], x);
    } else {
      TotalOfOne(parts[1..], i - 1, x);
    }
  }

  /** Interleaving loses no event and adds none. */
  lemma {:induction false} InterleavedCount(log: Log, parts: seq<Log>, x: Event)
    requires Interleaves(log, parts)
    ensures Count(log, x) == Total(parts, x)
    decreases |log|
  {
    if log == [] {
      TotalOfEmpty(parts, x);
    } else {
      var i :| 0 <= i < |parts| && Next(log, parts, i) && Interleaves(log[1..], Advance(parts, i));
      InterleavedCount(log[1..], Advance(parts, i), x);
      TotalAdvance(parts, i, x);
      assert log == [log[0]] + log[1..];
      CountConcat([log[0]], log[1..], x);
    }
  }

  /** Every `b` comes after some `a`. */
  ghost predicate Precedes(log: Log, a: Event, b: Event) {
    forall k :: 0 <= k < |log| && log[k] == b ==> a in log[..k]
  }

  /** An order that every part keeps is kept by the interleaving. */
  lemma {:induction false} InterleavedOrder(log: Log, parts: seq<Log>, a: Event, b: Event)
    requires Interleaves(log, parts) && a != b && forall i :: 0 <= i < |parts| ==> Precedes(parts[i], a, b)
    ensures Precedes(log, a, b)
    decreases |log|
  {
    if log != [] {
      var i :| 0 <= i < |parts| && Next(log, parts, i) && Interleaves(log[1..], Advance(parts, i));
      assert parts[i][..0] == [];
      if log[0] != a {
        RestPrecedes(parts[i], a, b);
        InterleavedOrder(log[1..], Advance(parts, i), a, b);
      }
      forall k | 0 <= k < |log| && log[k] == b ensures a in log[..k] {
        assert k > 0;
        if log[0] == a {
          assert log[..k][0] == a;
        } else {
          assert log[1..][k - 1] == b && a in log[1..][..k - 1];
          assert log[1..][..k - 1] == log[..k][1..];
        }
      }
    }
  }

  lemma RestPrecedes(log: Log, a: Event, b: Event)
    requires log != [] && log[0] != a && Precedes(log, a, b)
    ensures Precedes(log[1..], a, b)
  {
    forall k | 0 <= k < |log[1..]| && log[1..][k] == b ensures a in log[1..][..k] {
      assert log[k + 1] == b && a in log[..k + 1];
      assert log[..k + 1] == [log[0]] + log[1..][..k];
    }
  }

  datatype GuestLife = GuestLife(pid: Pid, id: StateId, unit: Unit, life: Life)

  function TraceOf(g: GuestLife): Log {
    LifeTrace(g.pid, g.id, g.unit, g.life)
  }

  function Traces(guests: seq<GuestLife>): (parts: seq<Log>)
    ensures |parts| == |guests|
  {
    seq(|guests|, i requires 0 <= i < |guests| => TraceOf(guests[i]))
  }

  /** Whose event this is. */
  predicate Belongs(e: Event, g: GuestLife) {
    match e
    case Teardown(id) => id == g.id
    case Kill(pid) => pid == g.pid
    case _ => e.unit == g.unit
  }

  lemma TraceBelongs(g: GuestLife)
    ensures forall e :: e in TraceOf(g) ==> Belongs(e, g)
  {
    HookBelongs(g);
    assert forall e :: e in TeardownTrace(g.id, Final(g.unit, g.life.reached), g.life.manager) ==> Belongs(e, g);
  }

  lemma HookBelongs(g: GuestLife)
    ensures forall e :: e in HookTrace(g.unit, g.life.reached) ==> Belongs(e, g)
  {
    if g.life.reached.Some? {
      assert forall e :: e in Steps(g.unit, g.life.reached.value) ==> Belongs(e, g);
    }
  }

  ghost predicate Distinct(guests: seq<GuestLife>) {
    forall i, j :: 0 <= i < j < |guests| ==> guests[i].id != guests[j].id && guests[i].unit != guests[j].unit
  }

  /** What belongs to one guest only is counted in its own trace only. */
  lemma OwnCount(guests: seq<GuestLife>, log: Log, i: nat, x: Event)
    requires Interleaves(log, Traces(guests)) && i < |guests|
    requires forall j :: 0 <= j < |guests| && j != i ==> !Belongs(x, guests[j])
    ensures Count(log, x) == Count(TraceOf(guests[i]), x)
  {
    var parts := Traces(guests);
    forall j | 0 <= j < |parts| && j != i ensures Count(parts[j], x) == 0 {
      TraceBelongs(guests[j]);
      assert x !in TraceOf(guests[j]);
    }
    InterleavedCount(log, parts, x);
    TotalOfOne(parts, i, x);
  }

  // one kind of event at a time

  lemma OwnTeardown(guests: seq<GuestLife>, log: Log, i: nat)
    requires Interleaves(log, Traces(guests)) && Distinct(guests) && i < |guests| && Possible(guests[i].life)
    ensures Count(log, Teardown(guests[i].id)) == 1
  {
    var g := guests[i];
    OwnCount(guests, log, i, Teardown(g.id));
    LifeTotal(g.pid, g.id, g.unit, g.life, Teardown(g.id));
  }

  lemma OwnStart(guests: seq<GuestLife>, log: Log, i: nat)
    requires Interleaves(log, Traces(guests)) && Distinct(guests) && i < |guests| && Possible(guests[i].life)
    ensures Count(log, Start(guests[i].unit)) == One(guests[i].life.reached.Some?)
  {
    var g := guests[i];
    OwnCount(guests, log, i, Start(g.unit));
    LifeTotal(g.pid, g.id, g.unit, g.life, Start(g.unit));
  }

  lemma OwnStop(guests: seq<GuestLife>, log: Log, i: nat)
    requires Interleaves(log, Traces(guests)) && Distinct(guests) && i < |guests| && Possible(guests[i].life)
    ensures
      var life := guests[i].life;
      Count(log, Stop(guests[i].unit)) ==
      One(life.reached.Some? && (life.reached == Some(3) ==> life.manager.connects))
  {
    var g := guests[i];
    OwnCount(guests, log, i, Stop(g.unit));
    LifeTotal(g.pid, g.id, g.unit, g.life, Stop(g.unit));
  }

  lemma OwnUnreachable(guests: seq<GuestLife>, log: Log, i: nat)
    requires Interleaves(log, Traces(guests)) && Distinct(guests) && i < |guests| && Possible(guests[i].life)
    ensures
      var life := guests[i].life;
      Count(log, Unreachable(guests[i].unit)) == One(life.reached == Some(3) && !life.manager.connects)
  {
    var g := guests[i];
    OwnCount(guests, log, i, Unreachable(g.unit));
    LifeTotal(g.pid, g.id, g.unit, g.life, Unreachable(g.unit));
  }

  lemma OwnRelease(guests: seq<GuestLife>, log: Log, i: nat)
    requires Interleaves(log, Traces(guests)) && Distinct(guests) && i < |guests| && Possible(guests[i].life)
    ensures Count(log, Released(guests[i].unit)) == One(guests[i].life.reached == Some(3))
  {
    var g := guests[i];
    OwnCount(guests, log, i, Released(g.unit));
    LifeTotal(g.pid, g.id, g.unit, g.life, Released(g.unit));
  }

  /** However the lives of several guests overlap, each has one teardown and one end for its unit. */
  lemma OverlappingLivesEndOnce(guests: seq<GuestLife>, log: Log, i: nat)
    requires Interleaves(log, Traces(guests)) && Distinct(guests) && i < |guests| && Possible(guests[i].life)
    ensures
      var unit, life := guests[i].unit, guests[i].life;
      && Count(log, Teardown(guests[i].id)) == 1
      && Count(log, Start(unit)) == One(life.reached.Some?)
      && Ends(log, unit) == Count(log, Start(unit))
      && Count(log, Unreachable(unit)) == One(life.reached == Some(3) && !life.manager.connects)
      && Count(log, Released(unit)) == One(life.reached == Some(3))
  {
    OwnTeardown(guests, log, i);
    OwnStart(guests, log, i);
    OwnStop(guests, log, i);
    OwnUnreachable(guests, log, i);
    OwnRelease(guests, log, i);
  }

  lemma FirstAt(log: Log, i: nat, a: Event, b: Event)
    requires i < |log| && log[i] == a && forall k :: 0 <= k <= i ==> log[k] != b
    ensures Precedes(log, a, b)
  {
    forall k | 0 <= k < |log| && log[k] == b ensures a in log[..k] {
      assert log[..k][i] == a;
    }
  }

  lemma CompleteHook(unit: Unit)
    ensures HookTrace(unit, Some(3)) == [Start(unit), Moved(unit), Applied(unit), Released(unit)]
  {
  }

  /** How the trace of a life with a complete hook begins. */
  lemma CompleteFront(g: GuestLife) returns (rest: Log)
    requires g.life.reached == Some(3)
    ensures TraceOf(g) == [Start(g.unit), Moved(g.unit), Applied(g.unit), Released(g.unit)] + rest
    ensures g.life.spawned ==> rest != [] && rest[0] == Kill(g.pid)
  {
    var teardown := TeardownTrace(g.id, Final(g.unit, Some(3)), g.life.manager);
    var again := if g.life.spawned && g.life.terminated then [Kill(g.pid)] else [];
    CompleteHook(g.unit);
    rest := (if g.life.spawned then [Kill(g.pid)] else []) + teardown + again;
  }

  lemma ReleasedLast(front: Log, unit: Unit, rest: Log)
    requires front == [Start(unit), Moved(unit), Applied(unit), Released(unit)]
    ensures Precedes(front + rest, Moved(unit), Released(unit))
    ensures Precedes(front + rest, Applied(unit), Released(unit))
  {
    FirstAt(front + rest, 1, Moved(unit), Released(unit));
    FirstAt(front + rest, 2, Applied(unit), Released(unit));
  }

  lemma KilledFirst(front: Log, unit: Unit, rest: Log, pid: Pid, id: StateId)
    requires front == [Start(unit), Moved(unit), Applied(unit), Released(unit)]
    requires rest != [] && rest[0] == Kill(pid)
    ensures Precedes(front + rest, Kill(pid), Teardown(id))
  {
    FirstAt(front + rest, 4, Kill(pid), Teardown(id));
  }

  /** The order inside one life: moved and configured before released, and killed before torn down. */
  lemma LifeOrder(g: GuestLife)
    requires Possible(g.life)
    ensures Precedes(TraceOf(g), Moved(g.unit), Released(g.unit))
    ensures Precedes(TraceOf(g), Applied(g.unit), Released(g.unit))
    ensures g.life.spawned ==> Precedes(TraceOf(g), Kill(g.pid), Teardown(g.id))
  {
    if g.life.reached == Some(3) {
      var rest := CompleteFront(g);
      var front := [Start(g.unit), Moved(g.unit), Applied(g.unit), Released(g.unit)];
      ReleasedLast(front, g.unit, rest);
      if g.life.spawned {
        KilledFirst(front, g.unit, rest, g.pid, g.id);
      }
    } else {
      LifeTotal(g.pid, g.id, g.unit, g.life, Released(g.unit));
      assert Released(g.unit) !in TraceOf(g);
    }
  }

  /** However the lives overlap: no guest is released too early, and none loses its scope before it is killed. */
  lemma OverlappingLivesInOrder(guests: seq<GuestLife>, log: Log, i: nat)
    requires Interleaves(log, Traces(guests)) && Distinct(guests) && i < |guests|
    requires forall j :: 0 <= j < |guests| ==> Possible(guests[j].life)
    ensures Precedes(log, Moved(guests[i].unit), Released(guests[i].unit))
    ensures Precedes(log, Applied(guests[i].unit), Released(guests[i].unit))
    ensures guests[i].life.spawned ==> Precedes(log, Kill(guests[i].pid), Teardown(guests[i].id))
  {
    var g, parts := guests[i], Traces(guests);
    forall j | 0 <= j < |parts|
      ensures Precedes(parts[j], Moved(g.unit), Released(g.unit))
      ensures Precedes(parts[j], Applied(g.unit), Released(g.unit))
      ensures g.life.spawned ==> Precedes(parts[j], Kill(g.pid), Teardown(g.id))
    {
      if j == i {
        LifeOrder(g);
      } else {
        TraceBelongs(guests[j]);
        assert Released(g.unit) !in parts[j] && Teardown(g.id) !in parts[j];
      }
    }
    InterleavedOrder(log, parts, Moved(g.unit), Released(g.unit));
    InterleavedOrder(log, parts, Applied(g.unit), Released(g.unit));
    if g.life.spawned {
      InterleavedOrder(log, parts, Kill(g.pid), Teardown(g.id));
    }
  }
}
