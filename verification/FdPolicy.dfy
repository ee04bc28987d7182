/** File descriptor policy: its static check and its in-place application (policy/fd.rs, spawn/fd.rs). */
module FdPolicy {
  import opened Wrappers

  datatype Action = Ignore | Map(source: int)

  datatype Entry = Entry(fd: int, action: Action)

  /** A B-tree map from descriptor to action, as its in-order traversal. */
  type Policy = seq<Entry>

  ghost predicate Ordered(policy: Policy) {
    forall i, j :: 0 <= i < j < |policy| ==> policy[i].fd < policy[j].fd
  }

  // descriptor numbers are non-negative 32-bit signed integers
  const MAX_FD := 0x7fff_ffff
  const LAST := 0xffff_ffff

  // ----- the static check -----

  ghost predicate IsSource(policy: Policy, fd: int) {
    exists i :: 0 <= i < |policy| && policy[i].action == Map(fd)
  }

  /** No negative descriptor, and no mapped descriptor is the source of a mapping. */
  ghost predicate Valid(policy: Policy) {
    && (forall i :: 0 <= i < |policy| ==> policy[i].fd >= 0)
    && forall i :: 0 <= i < |policy| && policy[i].action.Map? ==> !IsSource(policy, policy[i].fd)
  }

  method IsValidFdPolicy(policy: Policy) returns (valid: bool)
    ensures valid <==> Valid(policy)
    ensures valid <==>
      && (forall i :: 0 <= i < |policy| ==> policy[i].fd >= 0)
      && forall i, j :: 0 <= i < |policy| && 0 <= j < |policy| && policy[i].action.Map? ==>
        policy[j].action != Map(policy[i].fd)
  {
    var sources: set<int> := {};
    for i := 0 to |policy|
      invariant forall fd :: fd in sources <==> exists k :: 0 <= k < i && policy[k].action == Map(fd)
    {
      if policy[i].action.Map? {
        sources := sources + {policy[i].action.source};
      }
    }
    for i := 0 to |policy|
      invariant forall k :: 0 <= k < i ==> policy[k].fd >= 0
      invariant forall k :: 0 <= k < i && policy[k].action.Map? ==> policy[k].fd !in sources
    {
      if policy[i].fd < 0 {
        return false;
      }
      if policy[i].action.Ignore? {
        continue;
      }
      if policy[i].fd in sources {
        assert IsSource(policy, policy[i].fd);
        return false;
      }
    }
    return true;
  }

  // ----- the descriptor table -----

  datatype Descriptor = Descriptor(file: nat, cloexec: bool)

  type Table = map<int, Descriptor>

  /** What `execveat` keeps. */
  function AfterExec(table: Table): map<int, nat> {
    map fd | fd in table && !table[fd].cloexec :: table[fd].file
  }

  datatype Error = Dup3 | CloseRange | Fcntl

  class Process {
    var table: Table
    // one more than the highest number a new descriptor may get
    const limit: nat
    // a faultless kernel fails only where its rules say so
    const faultless: bool

    constructor (table: Table, limit: nat, faultless: bool)
      ensures this.table == table && this.limit == limit && this.faultless == faultless
    {
      this.table := table;
      this.limit := limit;
      this.faultless := faultless;
    }

    /** `dup3` without flags: fails without effect, or makes `target` refer to the file of `source`. */
    method Dup3(source: int, target: int) returns (r: Result<(), Error>)
      requires source in table
      modifies this
      ensures r == Ok(()) || r == Err(Error.Dup3)
      ensures r.Ok? ==> source != target && 0 <= target < limit
      ensures r.Err? && faultless ==> !(source != target && 0 <= target < limit)
      ensures table == if r.Ok? then old(table)[target := Descriptor(old(table)[source].file, false)] else old(table)
    {
      var ok: bool := *;
      if !(ok || faultless) || source == target || !(0 <= target < limit) {
        return Err(Error.Dup3);
      }
      table := table[target := Descriptor(table[source].file, false)];
      return Ok(());
    }

    /** `close_range` with `CLOSE_RANGE_CLOEXEC`, both ends included. */
    method CloseRangeCloexec(first: int, last: int) returns (r: Result<(), Error>)
      modifies this
      ensures r == Ok(()) || r == Err(CloseRange)
      ensures r.Err? && faultless ==> first > last
      ensures table == if r.Ok? then MarkRange(old(table), first, last) else old(table)
    {
      var ok: bool := *;
      if !(ok || faultless) || first > last {
        return Err(CloseRange);
      }
      table := MarkRange(table, first, last);
      return Ok(());
    }

    /** `F_DUPFD_CLOEXEC` from 0: the lowest descriptor that is not open, if it is below the limit. */
    method DupfdCloexec(fd: int) returns (r: Result<int, Error>)
      requires fd in table
      modifies this
      ensures r.Err? ==> r == Err(Fcntl) && table == old(table)
      ensures r.Err? && faultless ==> forall n :: 0 <= n < limit ==> n in table
      ensures r.Ok? ==> 0 <= r.value < limit && r.value !in old(table)
      ensures r.Ok? ==> forall lower :: 0 <= lower < r.value ==> lower in old(table)
      ensures r.Ok? ==> table == old(table)[r.value := Descriptor(old(table)[fd].file, true)]
    {
      var ok: bool := *;
      var lowest := 0;
      ghost var unseen := table.Keys;
      while lowest in table
        invariant lowest >= 0 && forall lower :: 0 <= lower < lowest ==> lower in table
        invariant forall higher :: higher in table && higher >= lowest ==> higher in unseen
        decreases unseen
      {
        unseen := unseen - {lowest};
        lowest := lowest + 1;
      }
      if !(ok || faultless) || lowest >= limit {
        return Err(Fcntl);
      }
      table := table[lowest := Descriptor(table[fd].file, true)];
      return Ok(lowest);
    }

    method Close(fd: int)
      modifies this
      ensures table == old(table) - {fd}
    {
      table := table - {fd};
    }

    // ----- the application loop -----

    /** Marks the gap below `fd`, if there is one. */
    method MarkGap(rangeStart: int, fd: int) returns (r: Result<(), Error>)
      requires 0 <= fd
      modifies this
      ensures r == Ok(()) || r == Err(CloseRange)
      ensures faultless ==> r.Ok?
      ensures table == if r.Ok? then MarkRange(old(table), rangeStart, fd - 1) else old(table)
    {
      if rangeStart < fd {
        r := CloseRangeCloexec(rangeStart, fd - 1);
      } else {
        assert MarkRange(table, rangeStart, fd - 1) == table;
        r := Ok(());
      }
    }

    /** The mapping of one entry, unless it has to wait for the pipe to move. */
    method MapEntry(policy: Policy, i: nat, guestPipe: int, ghost start: int, ghost initial: Table)
      returns (r: Result<(), Error>)
      requires Ordered(policy) && Valid(policy) && Ready(policy, initial, guestPipe) && i < |policy|
      requires start <= policy[i].fd && Progress(policy, i, guestPipe, start, initial, table)
      modifies this
      ensures PipeSafe(initial, guestPipe, table, guestPipe)
      ensures r.Ok? ==> Progress(policy, i + 1, guestPipe, start, initial, table)
      ensures r.Ok? ==> WithinLimit(policy[i], guestPipe, limit)
      ensures r.Err? && faultless ==> !WithinLimit(policy[i], guestPipe, limit)
    {
      ProgressPipeSafe(policy, i, guestPipe, start, initial, table);
      if Overwrites(policy[i], guestPipe) {
        SourceIntact(policy, i, guestPipe, start, initial, table, i);
        assert IsSource(policy, policy[i].action.source);
        StepMapped(policy, i, guestPipe, start, initial, table);
        var _ :- Dup3(policy[i].action.source, policy[i].fd);
      } else {
        StepUnmapped(policy, i, guestPipe, start, initial, table);
      }
      ProgressPipeSafe(policy, i + 1, guestPipe, start, initial, table);
      return Ok(());
    }

    /** One entry of the loop: its mapping, then the gap below it. */
    method ApplyEntry(policy: Policy, i: nat, guestPipe: int, rangeStart: int, ghost initial: Table)
      returns (r: Result<(), Error>)
      requires Ordered(policy) && Valid(policy) && Ready(policy, initial, guestPipe) && i < |policy|
      requires rangeStart == if i == 0 then 0 else policy[i - 1].fd + 1
      requires Progress(policy, i, guestPipe, rangeStart, initial, table)
      modifies this
      ensures PipeSafe(initial, guestPipe, table, guestPipe)
      ensures r.Ok? ==> Progress(policy, i + 1, guestPipe, policy[i].fd + 1, initial, table)
      ensures r.Ok? ==> WithinLimit(policy[i], guestPipe, limit)
      ensures r.Err? && faultless ==> !WithinLimit(policy[i], guestPipe, limit)
    {
      var fd := policy[i].fd;
      GapIsFree(policy, i);
      var _ :- MapEntry(policy, i, guestPipe, rangeStart, initial);
      StepMarked(policy, i + 1, guestPipe, rangeStart, fd, initial, table);
      var _ :- MarkGap(rangeStart, fd);
      StepPast(policy, i + 1, guestPipe, fd, initial, table);
      ProgressPipeSafe(policy, i + 1, guestPipe, fd + 1, initial, table);
      return Ok(());
    }

    /**
      * Applies the policy in place; the new number of the guest pipe is returned next to the result. It succeeds only
      * if the policy is applicable, and without faults whenever it is.
      */
    method ApplyFileDescriptorPolicy(policy: Policy, guestPipe: int) returns (r: Result<(), Error>, pipe: int)
      requires Ordered(policy) && Valid(policy) && Ready(policy, table, guestPipe)
      modifies this
      ensures PipeSafe(old(table), guestPipe, table, pipe)
      ensures r.Ok? ==> Applicable(policy, old(table), guestPipe, limit)
      ensures r.Err? && faultless ==> !Applicable(policy, old(table), guestPipe, limit)
      ensures r.Ok? ==> Simultaneous(policy, old(table), AfterExec(table))
      ensures r.Ok? ==> forall i :: 0 <= i < |policy| && policy[i].action.Map? ==>
        policy[i].fd in AfterExec(table) &&
        AfterExec(table)[policy[i].fd] == old(table)[policy[i].action.source].file
      ensures r.Ok? ==> forall i :: 0 <= i < |policy| && policy[i].action.Ignore? ==>
        (policy[i].fd in AfterExec(table) <==> policy[i].fd in AfterExec(old(table))) &&
        (policy[i].fd in AfterExec(table) ==> AfterExec(table)[policy[i].fd] == old(table)[policy[i].fd].file)
      ensures r.Ok? ==> forall fd :: fd in AfterExec(table) ==> exists i :: 0 <= i < |policy| && policy[i].fd == fd
    {
      ghost var initial := table;
      pipe := guestPipe;
      var delayed: Option<int>;
      r, delayed := MapAll(policy, guestPipe, initial);
      if r.Ok? {
        if delayed.Some? {
          r, pipe := RemapPipe(policy, guestPipe, delayed.value, initial);
        } else {
          FinishedDirectly(policy, guestPipe, initial, table);
        }
      }
      if r.Ok? {
        SimultaneousMeans(policy, initial, AfterExec(table));
      }
    }

    /** The loop and the gap above it; `delayed` is the source to be mapped onto the pipe's own number. */
    method MapAll(policy: Policy, guestPipe: int, ghost initial: Table)
      returns (r: Result<(), Error>, delayed: Option<int>)
      requires Ordered(policy) && Valid(policy) && Ready(policy, table, guestPipe) && initial == table
      modifies this
      ensures PipeSafe(initial, guestPipe, table, guestPipe)
      ensures r.Ok? ==> Progress(policy, |policy|, guestPipe, LAST + 1, initial, table)
      ensures r.Ok? ==> forall i :: 0 <= i < |policy| ==> WithinLimit(policy[i], guestPipe, limit)
      ensures r.Err? && faultless ==> exists i :: 0 <= i < |policy| && !WithinLimit(policy[i], guestPipe, limit)
      ensures r.Ok? && delayed.Some? ==>
        exists j :: 0 <= j < |policy| && policy[j] == Entry(guestPipe, Map(delayed.value))
      ensures r.Ok? && delayed.None? ==>
        forall j :: 0 <= j < |policy| && policy[j].action.Map? ==> policy[j].fd != guestPipe
    {
      delayed := None;
      var rangeStart := 0;
      for i := 0 to |policy|
        invariant rangeStart == if i == 0 then 0 else policy[i - 1].fd + 1
        invariant delayed.Some? ==> exists j :: 0 <= j < i && policy[j] == Entry(guestPipe, Map(delayed.value))
        invariant delayed.None? ==> forall j :: 0 <= j < i && policy[j].action.Map? ==> policy[j].fd != guestPipe
        invariant Progress(policy, i, guestPipe, rangeStart, initial, table)
        invariant forall j :: 0 <= j < i ==> WithinLimit(policy[j], guestPipe, limit)
      {
        if policy[i].action.Map? && guestPipe == policy[i].fd {
          delayed := Some(policy[i].action.source);
        }
        var applied := ApplyEntry(policy, i, guestPipe, rangeStart, initial);
        if applied.Err? {
          return applied, delayed;
        }
        rangeStart := policy[i].fd + 1;
      }
      ProgressPipeSafe(policy, |policy|, guestPipe, rangeStart, initial, table);
      EndIsFree(policy);
      StepMarked(policy, |policy|, guestPipe, rangeStart, LAST + 1, initial, table);
      r := CloseRangeCloexec(rangeStart, LAST);
      if r.Ok? {
        ProgressPipeSafe(policy, |policy|, guestPipe, LAST + 1, initial, table);
      }
    }

    /** The delayed mapping onto the pipe's own number, after the pipe has moved away. */
    method RemapPipe(ghost policy: Policy, guestPipe: int, source: int, ghost initial: Table)
      returns (r: Result<(), Error>, pipe: int)
      requires Ordered(policy) && Valid(policy) && Ready(policy, initial, guestPipe)
      requires Progress(policy, |policy|, guestPipe, LAST + 1, initial, table)
      requires exists j :: 0 <= j < |policy| && policy[j] == Entry(guestPipe, Map(source))
      modifies this
      ensures PipeSafe(initial, guestPipe, table, pipe)
      ensures r.Ok? ==> CanMove(policy, initial, guestPipe, limit)
      ensures r.Err? && faultless ==> !CanMove(policy, initial, guestPipe, limit)
      ensures r.Ok? ==> Simultaneous(policy, initial, AfterExec(table))
    {
      pipe := guestPipe;
      ghost var target :| 0 <= target < |policy| && policy[target] == Entry(guestPipe, Map(source));
      ghost var looped := table;
      ProgressPipeSafe(policy, |policy|, guestPipe, LAST + 1, initial, table);
      SourceIntact(policy, |policy|, guestPipe, LAST + 1, initial, table, target);
      FreeNumbers(policy, guestPipe, initial, table);
      assert IsSource(policy, source);
      var duplicated := DupfdCloexec(pipe);
      if duplicated.Err? {
        return Err(duplicated.error), pipe;
      }
      // assigning the owned descriptor closes the number it had before
      pipe := duplicated.value;
      Close(guestPipe);
      var mapped := Dup3(source, guestPipe);
      if mapped.Err? {
        return Err(mapped.error), pipe;
      }
      FinishedByRemap(policy, guestPipe, target, initial, looped, table, pipe);
      return Ok(()), pipe;
    }
  }

  function MarkRange(table: Table, first: int, last: int): Table {
    map fd | fd in table ::
      if first <= fd <= last then Descriptor(table[fd].file, true) else table[fd]
  }

  // ----- what the loop has to achieve -----

  /** Sources are open and are not the pipe, whose only descriptor is close-on-exec. */
  ghost predicate Ready(policy: Policy, table: Table, guestPipe: int) {
    && guestPipe in table && table[guestPipe].cloexec
    && (forall fd :: fd in table ==> 0 <= fd <= MAX_FD)
    && (forall fd :: fd in table && table[fd].file == table[guestPipe].file ==> fd == guestPipe)
    && (forall i :: 0 <= i < |policy| && policy[i].action.Map? ==>
      policy[i].action.source in table && policy[i].action.source != guestPipe)
    && (forall i :: 0 <= i < |policy| ==> policy[i].fd <= MAX_FD)
  }

  /** The pipe's write end is open at `pipe`, close-on-exec there, and nowhere else. */
  ghost predicate PipeSafe(initial: Table, guestPipe: int, table: Table, pipe: int)
    requires guestPipe in initial
  {
    && pipe in table
    && table[pipe] == Descriptor(initial[guestPipe].file, true)
    && forall fd :: fd in table && table[fd].file == initial[guestPipe].file ==> fd == pipe
  }

  /** The loop can map this entry. */
  predicate WithinLimit(entry: Entry, guestPipe: int, limit: nat) {
    Overwrites(entry, guestPipe) ==> entry.fd < limit
  }

  /** A number that neither the table nor the policy uses. */
  ghost predicate IsFree(policy: Policy, initial: Table, n: int) {
    n !in initial && forall i :: 0 <= i < |policy| && policy[i].action.Map? ==> policy[i].fd != n
  }

  /** The pipe can move to another number, and its old number can be mapped. */
  ghost predicate CanMove(policy: Policy, initial: Table, guestPipe: int, limit: nat) {
    0 <= guestPipe < limit && exists n :: 0 <= n < limit && IsFree(policy, initial, n)
  }

  ghost predicate MapsPipe(policy: Policy, guestPipe: int) {
    exists i :: 0 <= i < |policy| && policy[i].action.Map? && policy[i].fd == guestPipe
  }

  /** All numbers are below the limit, and a pipe that is mapped onto has somewhere to go. */
  ghost predicate Applicable(policy: Policy, initial: Table, guestPipe: int, limit: nat) {
    && (forall i :: 0 <= i < |policy| ==> WithinLimit(policy[i], guestPipe, limit))
    && (MapsPipe(policy, guestPipe) ==> CanMove(policy, initial, guestPipe, limit))
  }

  /** After the loop exactly the numbers that were open or are mapped are taken. */
  lemma FreeNumbers(policy: Policy, guestPipe: int, initial: Table, table: Table)
    requires Ready(policy, initial, guestPipe) && Progress(policy, |policy|, guestPipe, LAST + 1, initial, table)
    ensures forall n :: n !in table <==> IsFree(policy, initial, n)
  {
    OverwrittenMembers(policy, |policy|, guestPipe);
    forall n ensures n !in table <==> IsFree(policy, initial, n) {
      if n in table && n !in initial {
        var i :| 0 <= i < |policy| && Overwrites(policy[i], guestPipe) && policy[i].fd == n;
      }
      if i :| 0 <= i < |policy| && policy[i].action.Map? && policy[i].fd == n {
        assert n == guestPipe || Overwrites(policy[i], guestPipe);
      }
    }
  }

  /** Exec closes the pipe: no surviving descriptor refers to its write end. */
  lemma ExecClosesPipe(initial: Table, guestPipe: int, table: Table, pipe: int)
    requires guestPipe in initial && PipeSafe(initial, guestPipe, table, pipe)
    ensures pipe !in AfterExec(table) && initial[guestPipe].file !in AfterExec(table).Values
  {
    forall fd | fd in AfterExec(table) ensures AfterExec(table)[fd] != initial[guestPipe].file {
      assert fd in table && !table[fd].cloexec;
    }
  }

  /** All mappings at once, read from the original table; ignored descriptors keep their fate; nothing else survives. */
  ghost predicate Simultaneous(policy: Policy, initial: Table, survivors: map<int, nat>)
    requires forall i :: 0 <= i < |policy| && policy[i].action.Map? ==> policy[i].action.source in initial
  {
    && (forall i :: 0 <= i < |policy| && policy[i].action.Map? ==>
      policy[i].fd in survivors && survivors[policy[i].fd] == initial[policy[i].action.source].file)
    && (forall i :: 0 <= i < |policy| && policy[i].action.Ignore? ==>
      (policy[i].fd in survivors <==> policy[i].fd in AfterExec(initial)))
    && (forall i :: 0 <= i < |policy| && policy[i].action.Ignore? && policy[i].fd in survivors ==>
      survivors[policy[i].fd] == initial[policy[i].fd].file)
    && (forall fd :: fd in survivors ==> fd in Fds(policy))
  }

  lemma SimultaneousMeans(policy: Policy, initial: Table, survivors: map<int, nat>)
    requires forall i :: 0 <= i < |policy| && policy[i].action.Map? ==> policy[i].action.source in initial
    requires Simultaneous(policy, initial, survivors)
    ensures forall fd :: fd in survivors ==> exists i :: 0 <= i < |policy| && policy[i].fd == fd
  {
  }

  function Fds(policy: Policy): set<int> {
    set i | 0 <= i < |policy| :: policy[i].fd
  }

  predicate Overwrites(entry: Entry, guestPipe: int) {
    entry.action.Map? && entry.fd != guestPipe
  }

  /** Descriptors the loop has overwritten after `n` entries. */
  ghost function Overwritten(policy: Policy, n: nat, guestPipe: int): set<int>
    requires n <= |policy|
  {
    if n == 0 then {}
    else if Overwrites(policy[n - 1], guestPipe) then
      Overwritten(policy, n - 1, guestPipe) + {policy[n - 1].fd}
    else Overwritten(policy, n - 1, guestPipe)
  }

  lemma {:induction false} OverwrittenMembers(policy: Policy, n: nat, guestPipe: int)
    requires n <= |policy|
    ensures forall fd :: fd in Overwritten(policy, n, guestPipe) <==>
      exists i :: 0 <= i < n && Overwrites(policy[i], guestPipe) && policy[i].fd == fd
  {
    if n > 0 {
      OverwrittenMembers(policy, n - 1, guestPipe);
      if Overwrites(policy[n - 1], guestPipe) {
        assert policy[n - 1].fd in Overwritten(policy, n, guestPipe);
      }
    }
  }

  /** The table after `n` entries: mappings made so far, everything below `start` outside the policy marked. */
  ghost predicate Progress(policy: Policy, n: nat, guestPipe: int, start: int, initial: Table, table: Table)
    requires n <= |policy|
    requires forall i :: 0 <= i < |policy| && policy[i].action.Map? ==> policy[i].action.source in initial
  {
    && (forall i :: 0 <= i < n && Overwrites(policy[i], guestPipe) ==>
      policy[i].fd in table && table[policy[i].fd] == Descriptor(initial[policy[i].action.source].file, false))
    && table.Keys == initial.Keys + Overwritten(policy, n, guestPipe)
    && forall fd :: fd in initial && fd !in Overwritten(policy, n, guestPipe) ==>
      table[fd] == Descriptor(initial[fd].file, initial[fd].cloexec || (fd < start && fd !in Fds(policy)))
  }

  /** Sources are never overwritten. */
  lemma SourceIntact(policy: Policy, n: nat, guestPipe: int, start: int, initial: Table, table: Table, i: nat)
    requires n <= |policy| && Valid(policy) && Ready(policy, initial, guestPipe)
    requires Progress(policy, n, guestPipe, start, initial, table)
    requires i < |policy| && policy[i].action.Map?
    ensures policy[i].action.source in table
    ensures table[policy[i].action.source].file == initial[policy[i].action.source].file
  {
    OverwrittenMembers(policy, n, guestPipe);
    assert IsSource(policy, policy[i].action.source);
  }

  lemma ProgressPipeSafe(policy: Policy, n: nat, guestPipe: int, start: int, initial: Table, table: Table)
    requires n <= |policy| && Ready(policy, initial, guestPipe)
    requires Progress(policy, n, guestPipe, start, initial, table)
    ensures PipeSafe(initial, guestPipe, table, guestPipe)
  {
    OverwrittenMembers(policy, n, guestPipe);
  }

  /** One mapping of the loop. */
  lemma StepMapped(policy: Policy, n: nat, guestPipe: int, start: int, initial: Table, table: Table)
    requires n < |policy| && Ordered(policy) && Valid(policy) && Ready(policy, initial, guestPipe)
    requires Progress(policy, n, guestPipe, start, initial, table)
    requires policy[n].action.Map? && policy[n].fd != guestPipe && start <= policy[n].fd
    requires policy[n].action.source in table
    ensures Progress(policy, n + 1, guestPipe, start, initial,
      table[policy[n].fd := Descriptor(table[policy[n].action.source].file, false)])
  {
    SourceIntact(policy, n, guestPipe, start, initial, table, n);
  }

  lemma StepUnmapped(policy: Policy, n: nat, guestPipe: int, start: int, initial: Table, table: Table)
    requires n < |policy| && Ready(policy, initial, guestPipe)
    requires Progress(policy, n, guestPipe, start, initial, table)
    requires !Overwrites(policy[n], guestPipe)
    ensures Progress(policy, n + 1, guestPipe, start, initial, table)
  {
  }

  /** No policy entry lies between two neighbours, or above the last one. */
  lemma GapIsFree(policy: Policy, i: nat)
    requires Ordered(policy) && Valid(policy) && i < |policy|
    ensures
      var start := if i == 0 then 0 else policy[i - 1].fd + 1;
      start <= policy[i].fd && forall j :: 0 <= j < |policy| ==> policy[j].fd < start || policy[i].fd <= policy[j].fd
  {
  }

  lemma EndIsFree(policy: Policy)
    requires Ordered(policy) && Valid(policy)
    ensures forall j :: 0 <= j < |policy| ==> policy[j].fd < policy[|policy| - 1].fd + 1
  {
  }

  /** Marking the gap between two neighbouring policy entries. */
  lemma StepMarked(policy: Policy, n: nat, guestPipe: int, start: int, end: int, initial: Table, table: Table)
    requires n <= |policy| && Ready(policy, initial, guestPipe) && start <= end
    requires Progress(policy, n, guestPipe, start, initial, table)
    requires forall i :: 0 <= i < |policy| ==> policy[i].fd < start || end <= policy[i].fd
    ensures Progress(policy, n, guestPipe, end, initial, MarkRange(table, start, end - 1))
  {
    var marked := MarkRange(table, start, end - 1);
    OverwrittenMembers(policy, n, guestPipe);
    assert forall fd :: fd in Fds(policy) ==> fd < start || end <= fd;
    assert forall i :: 0 <= i < |policy| ==> policy[i].fd in Fds(policy);
    assert marked.Keys == table.Keys;
  }

  /** Moving past an entry changes no mark. */
  lemma StepPast(policy: Policy, n: nat, guestPipe: int, fd: int, initial: Table, table: Table)
    requires n <= |policy| && Ready(policy, initial, guestPipe) && fd in Fds(policy)
    requires Progress(policy, n, guestPipe, fd, initial, table)
    ensures Progress(policy, n, guestPipe, fd + 1, initial, table)
  {
  }

  lemma IgnoredNotOverwritten(policy: Policy, guestPipe: int, i: nat)
    requires Ordered(policy) && i < |policy| && policy[i].action.Ignore?
    ensures policy[i].fd !in Overwritten(policy, |policy|, guestPipe)
  {
    OverwrittenMembers(policy, |policy|, guestPipe);
  }

  /** What a finished loop leaves open across exec. */
  lemma LoopSurvivors(policy: Policy, guestPipe: int, initial: Table, table: Table)
    requires Ordered(policy) && Valid(policy) && Ready(policy, initial, guestPipe)
    requires Progress(policy, |policy|, guestPipe, LAST + 1, initial, table)
    ensures forall i :: 0 <= i < |policy| && Overwrites(policy[i], guestPipe) ==>
      policy[i].fd in table && table[policy[i].fd] == Descriptor(initial[policy[i].action.source].file, false)
    ensures forall i :: 0 <= i < |policy| && policy[i].action.Ignore? ==>
      (policy[i].fd in table <==> policy[i].fd in initial) &&
      (policy[i].fd in table ==> table[policy[i].fd] == initial[policy[i].fd])
    ensures forall fd :: fd in AfterExec(table) ==> fd in Fds(policy)
  {
    forall i | 0 <= i < |policy| ensures policy[i].fd in Fds(policy) {}
    forall i | 0 <= i < |policy| && policy[i].action.Ignore?
      ensures policy[i].fd !in Overwritten(policy, |policy|, guestPipe)
    {
      IgnoredNotOverwritten(policy, guestPipe, i);
    }
    OverwrittenMembers(policy, |policy|, guestPipe);
  }

  /** The finished loop, when the policy does not map onto the pipe's number. */
  lemma FinishedDirectly(policy: Policy, guestPipe: int, initial: Table, table: Table)
    requires Ordered(policy) && Valid(policy) && Ready(policy, initial, guestPipe)
    requires Progress(policy, |policy|, guestPipe, LAST + 1, initial, table)
    requires forall i :: 0 <= i < |policy| && policy[i].action.Map? ==> policy[i].fd != guestPipe
    ensures Simultaneous(policy, initial, AfterExec(table))
  {
    LoopSurvivors(policy, guestPipe, initial, table);
    assert forall i :: 0 <= i < |policy| && policy[i].action.Map? ==> Overwrites(policy[i], guestPipe);
  }

  /** The finished loop, followed by moving the pipe away and mapping onto its number. */
  lemma FinishedByRemap(
    policy: Policy, guestPipe: int, target: nat, initial: Table, looped: Table, table: Table, pipe: int)
    requires Ordered(policy) && Valid(policy) && Ready(policy, initial, guestPipe)
    requires Progress(policy, |policy|, guestPipe, LAST + 1, initial, looped)
    requires target < |policy| && policy[target].fd == guestPipe && policy[target].action.Map?
    requires pipe !in looped && pipe != guestPipe
    requires table == looped
      [pipe := Descriptor(initial[guestPipe].file, true)]
      [guestPipe := Descriptor(initial[policy[target].action.source].file, false)]
    ensures Simultaneous(policy, initial, AfterExec(table))
  {
    LoopSurvivors(policy, guestPipe, initial, looped);
    assert policy[target].fd in Fds(policy);
    forall i | 0 <= i < |policy| && i != target ensures policy[i].fd != guestPipe {
      assert i < target || target < i;
    }
    forall fd | fd in AfterExec(table) ensures fd in Fds(policy) {
      if fd != guestPipe {
        assert fd in AfterExec(looped);
      }
    }
  }
}
