/** The guest's end of the report pipe at exec: its descriptor table and the start protocol agree (spawn/mod.rs). */
module ExecHandover {
  import opened Wrappers
  import opened Protocol
  import FdPolicy

  /** The files a table refers to. */
  ghost function Files(table: FdPolicy.Table): set<nat> {
    set fd | fd in table :: table[fd].file
  }

  /** The protocol takes the guest's end for closed exactly when the guest no longer holds the write end. */
  ghost predicate Agree(s: State, held: set<nat>, writeEnd: nat) {
    s.guest == Closed <==> writeEnd !in held
  }

  /** Whatever the descriptor policy did, and however it ended, the guest can still send its second report. */
  lemma PolicyKeepsPipe(s: State, initial: FdPolicy.Table, guestPipe: int, table: FdPolicy.Table, pipe: int)
    requires guestPipe in initial && FdPolicy.PipeSafe(initial, guestPipe, table, pipe)
    requires s.guest != Closed
    ensures Agree(s, Files(table), initial[guestPipe].file)
  {
    assert table[pipe].file in Files(table);
  }

  /** After the policy: exec is the step that closes the pipe, and a failed exec leads on to the second report. */
  lemma ExecIsClose(s: State, initial: FdPolicy.Table, guestPipe: int, table: FdPolicy.Table, pipe: int)
    requires guestPipe in initial && FdPolicy.PipeSafe(initial, guestPipe, table, pipe)
    requires s.guest == BetweenReports
    ensures Enabled(s, NextReport)
    ensures
      var held := if s.second == [] then FdPolicy.AfterExec(table).Values else Files(table);
      Agree(Next(s, NextReport), held, initial[guestPipe].file)
  {
    if s.second == [] {
      FdPolicy.ExecClosesPipe(initial, guestPipe, table, pipe);
    } else {
      PolicyKeepsPipe(Next(s, NextReport), initial, guestPipe, table, pipe);
    }
  }

  /** Applies the policy between the two reports, then execs or, if that fails, goes on to report it. */
  method HandOver(process: FdPolicy.Process, policy: FdPolicy.Policy, guestPipe: int, ghost s: State)
    returns (r: Result<(), FdPolicy.Error>, pipe: int)
    requires FdPolicy.Ordered(policy) && FdPolicy.Valid(policy) && FdPolicy.Ready(policy, process.table, guestPipe)
    requires s.guest == BetweenReports
    modifies process
    ensures Agree(s, Files(process.table), old(process.table)[guestPipe].file)
    ensures s.second != [] ==>
      Agree(Next(s, NextReport), Files(process.table), old(process.table)[guestPipe].file)
    ensures s.second == [] ==>
      Agree(Next(s, NextReport), FdPolicy.AfterExec(process.table).Values, old(process.table)[guestPipe].file)
    ensures r.Ok? ==> FdPolicy.Applicable(policy, old(process.table), guestPipe, process.limit)
    ensures r.Err? && process.faultless ==>
      !FdPolicy.Applicable(policy, old(process.table), guestPipe, process.limit)
    ensures r.Ok? ==> FdPolicy.Simultaneous(policy, old(process.table), FdPolicy.AfterExec(process.table))
  {
    ghost var initial := process.table;
    r, pipe := process.ApplyFileDescriptorPolicy(policy, guestPipe);
    PolicyKeepsPipe(s, initial, guestPipe, process.table, pipe);
    ExecIsClose(s, initial, guestPipe, process.table, pipe);
  }
}
