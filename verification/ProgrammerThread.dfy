/** VirtualProgrammer as an object: the five stages as the executing thread runs them while nobody
    interferes, each proved to be a stretch of steps of the machine in `VirtualProgrammer`. */
module ProgrammerThread {
  import opened VirtualProgrammer
  import opened ProgrammerFaults
  import opened Wrappers

  /** The executing thread alone takes the machine from a to b. */
  ghost predicate Leads(c: Config, a: Machine, b: Machine) {
    exists n: nat :: RunAlone(a, c, n) == b
  }

  lemma {:induction false} RunTwice(s: Machine, c: Config, n: nat, m: nat)
    ensures RunAlone(s, c, n + m) == RunAlone(RunAlone(s, c, n), c, m)
  {
    hide ExecStep;
    if m > 0 {
      RunTwice(s, c, n, m - 1);
      assert RunAlone(s, c, n + m) == ExecStep(RunAlone(s, c, n + m - 1), c);
    }
  }

  lemma LeadsOn(c: Config, a: Machine, b: Machine, d: Machine)
    requires Leads(c, a, b) && Leads(c, b, d)
    ensures Leads(c, a, d)
  {
    var n: nat :| RunAlone(a, c, n) == b;
    var m: nat :| RunAlone(b, c, m) == d;
    RunTwice(a, c, n, m);
  }

  lemma LeadsStep(c: Config, a: Machine, b: Machine)
    requires Leads(c, a, b)
    ensures Leads(c, a, ExecStep(b, c))
  {
    var n: nat :| RunAlone(a, c, n) == b;
    assert RunAlone(a, c, n + 1) == ExecStep(b, c);
  }

  lemma LeadsHere(c: Config, a: Machine)
    ensures Leads(c, a, a)
  {
    assert RunAlone(a, c, 0) == a;
  }

  lemma ReadStateStep(s: Machine, c: Config)
    requires s.pc.Check? && s.pc.phase == ReadState
    ensures ExecStep(s, c) == s.(pc := if s.state == Cancelled then Done(WasCancelled) else Act(s.pc.site))
  {
  }

  lemma {:induction false} CaughtAlone(s: Machine, c: Config, n: nat)
    requires Caught(s)
    ensures Caught(RunAlone(s, c, n)) && RunAlone(s, c, n).executed == s.executed
  {
    if n > 0 {
      CaughtAlone(s, c, n - 1);
      CaughtStep(RunAlone(s, c, n - 1), c, Exec);
    }
  }

  /** What a run that starts cancelled returns, the state it leaves and its reports. */
  function CancelledResult(c: Config): Result {
    if c.failOnLoad then InvalidElf else WasCancelled
  }

  function CancelledState(c: Config): State {
    if c.failOnLoad then Failed else Cancelled
  }

  function CancelledReports(c: Config): seq<Report> {
    if c.failOnLoad then [] else [Report(ImageLoaded, 0, c.total), Report(Cancelled, 0, 0)]
  }

  /** A run that starts cancelled ends at its first check or before; r are the reports before it. */
  ghost predicate AtFirstCheck(s: Machine, c: Config, r: seq<Report>) {
    && s.cancelled
    && match s.pc
       case Load => s.reports == r
       case Check(Verify, ReadState) =>
         !c.failOnLoad && s.state == Cancelled && s.reports == r + CancelledReports(c)
       case Check(Verify, _) => !c.failOnLoad && s.reports == r + [Report(ImageLoaded, 0, c.total)]
       case Done(q) => q == CancelledResult(c) && s.state == CancelledState(c) && s.reports == r + CancelledReports(c)
       case _ => false
  }

  lemma FirstCheckStep(s: Machine, c: Config, r: seq<Report>)
    requires AtFirstCheck(s, c, r)
    ensures AtFirstCheck(ExecStep(s, c), c, r)
  {
    var l, x := Report(ImageLoaded, 0, c.total), Report(Cancelled, 0, 0);
    assert (r + [l]) + [x] == r + [l, x] && r + [] == r;
    hide Min, LoopHead;
  }

  lemma {:induction false} FirstCheckAlone(s: Machine, c: Config, n: nat, r: seq<Report>)
    requires AtFirstCheck(s, c, r)
    ensures AtFirstCheck(RunAlone(s, c, n), c, r)
  {
    hide ExecStep, AtFirstCheck;
    if n > 0 {
      FirstCheckAlone(s, c, n - 1, r);
      FirstCheckStep(RunAlone(s, c, n - 1), c, r);
    }
  }

  /** What the interleaving theorems say about an execution that nobody disturbs. */
  lemma Consequences(s: Machine, c: Config, t: Machine)
    requires s.pc == Load && Leads(c, s, t)
    ensures s.cancelled ==> AtFirstCheck(t, c, s.reports) && t.executed == s.executed
    ensures Fresh(s) && c.NoFault() ==>
              && (t.pc.Done? ==> t.pc.result == Ok && t.executed && t.state == Completed && LastBytes(t.reports) == c.total)
              && NonDecreasing(t.reports)
              && (!Terminating(c) ==> !t.pc.Done?)
    ensures !s.cancelled ==>
              && (t.pc.Done? ==> Ended(t, c, s.executed, s.reports))
              && (t.pc.Done? ==> Terminating(c) || EarlyFault(c))
              && (EarlyFault(c) ==> !InLoop(t.pc))
  {
    hide Ended;
    var n: nat :| RunAlone(s, c, n) == t;
    if s.cancelled {
      CaughtAlone(s, c, n);
      FirstCheckAlone(s, c, n, s.reports);
    }
    if Fresh(s) && c.NoFault() {
      UndisturbedRun(s, c, n);
    }
    if !s.cancelled {
      Outcome(s, c, n);
      if EarlyFault(c) {
        EarlyAvoidsLoop(s, c, n);
      }
    }
  }

  class Programmer {
    const c: Config
    var state: State
    var cancelled: bool
    var executed: bool
    var reports: seq<Report>

    ghost function At(pc: Pc, transferred: nat): Machine
      reads this
    {
      Machine(pc, state, cancelled, executed, transferred, reports)
    }

    constructor (c: Config)
      ensures this.c == c && At(Load, 0) == Machine(Load, Idle, false, false, 0, [])
    {
      this.c := c;
      state, cancelled, executed, reports := Idle, false, false, [];
    }

    method UpdateProgress(s: State, bytes: nat, total: nat)
      modifies this`state, this`reports
      ensures state == s && reports == old(reports) + [Report(s, bytes, total)]
    {
      state := s;
      reports := reports + [Report(s, bytes, total)];
    }

    method CheckCancelled(ghost site: Site, ghost t: nat)
      modifies this`state, this`reports
      ensures Leads(c, old(At(Check(site, ReadFlag), t)), At(Check(site, ReadState), t))
    {
      ghost var a := At(Check(site, ReadFlag), t);
      LeadsHere(c, a);
      LeadsStep(c, a, a);
      if cancelled {
        ghost var b := At(Check(site, StoreState), t);
        LeadsStep(c, a, b);
        state := Cancelled;
        LeadsStep(c, a, At(Check(site, ReportState), t));
        UpdateProgress(Cancelled, 0, 0);
      }
    }

    method LoadImage(ghost t: nat) returns (r: Result)
      modifies this`state, this`reports
      ensures Leads(c, old(At(Load, t)), At(if r == Ok then Check(Verify, ReadFlag) else Done(r), t))
    {
      ghost var a := At(Load, t);
      LeadsHere(c, a);
      LeadsStep(c, a, a);
      if c.failOnLoad {
        state := Failed;
        return InvalidElf;
      }
      UpdateProgress(ImageLoaded, 0, c.total);
      r := Ok;
    }

    method VerifyImage(ghost t: nat) returns (r: Result)
      modifies this`state, this`reports
      ensures Leads(c, old(At(Check(Verify, ReadFlag), t)), At(if r == Ok then Check(Prepare, ReadFlag) else Done(r), t))
    {
      ghost var a := At(Check(Verify, ReadFlag), t);
      CheckCancelled(Verify, t);
      LeadsStep(c, a, At(Check(Verify, ReadState), t));
      if state == Cancelled {
        return WasCancelled;
      }
      LeadsStep(c, a, At(Act(Verify), t));
      if c.failOnVerify {
        state := Failed;
        return InvalidElf;
      }
      UpdateProgress(ImageVerified, 0, c.total);
      r := Ok;
    }

    method PrepareExecution(ghost t: nat) returns (r: Result)
      modifies this`state, this`reports
      ensures Leads(c, old(At(Check(Prepare, ReadFlag), t)), At(if r == Ok then Begin else Done(r), t))
    {
      ghost var a := At(Check(Prepare, ReadFlag), t);
      CheckCancelled(Prepare, t);
      LeadsStep(c, a, At(Check(Prepare, ReadState), t));
      if state == Cancelled {
        return WasCancelled;
      }
      LeadsStep(c, a, At(Act(Prepare), t));
      if c.failOnPrepare {
        state := Failed;
        return InvalidElf;
      }
      UpdateProgress(TransferReady, 0, c.total);
      r := Ok;
    }

    /** One round of the transfer loop. */
    method TransferChunk(transferred: nat) returns (r: Result, next: nat)
      requires transferred < c.total
      modifies this`state, this`reports
      ensures r == Ok ==> transferred <= next <= c.total && (c.chunk > 0 <==> transferred < next)
      ensures Leads(c, old(At(Check(Loop, ReadFlag), transferred)),
                    At(if r == Ok then LoopHead(next, c.total) else Done(r), next))
    {
      hide Leads, RunAlone, ExecStep, Min, LoopHead;
      ghost var a := At(Check(Loop, ReadFlag), transferred);
      CheckCancelled(Loop, transferred);
      ReadStateStep(At(Check(Loop, ReadState), transferred), c);
      LeadsStep(c, a, At(Check(Loop, ReadState), transferred));
      if state == Cancelled {
        return WasCancelled, transferred;
      }
      LeadsStep(c, a, At(Act(Loop), transferred));
      ghost var b := At(Act(Loop), transferred);
      next := transferred + Min(c.total - transferred, c.chunk);
      LoopRound(b, c);
      UpdateProgress(Transferring, next, c.total);
      r := Ok;
    }

    /** The chunk loop, observed for a number of rounds; None means that it is still running then. */
    method TransferImage(ghost t0: nat, rounds: nat) returns (r: Option<Result>, ghost t: nat)
      modifies this`state, this`reports
      ensures r.Some? ==> Leads(c, old(At(Begin, t0)), At(if r.value == Ok then Check(Start, ReadFlag) else Done(r.value), t))
      ensures r.None? ==> t < c.total && Leads(c, old(At(Begin, t0)), At(Check(Loop, ReadFlag), t))
      ensures Terminating(c) && rounds >= c.total ==> r.Some?
      ensures !Terminating(c) ==> r != Some(Ok)
    {
      ghost var a := At(Begin, t0);
      t := t0;
      LeadsHere(c, a);
      LeadsStep(c, a, a);
      if c.failOnTransfer {
        state := Failed;
        return Some(InvalidElf), t;
      }
      if c.timeout {
        state := Failed;
        return Some(TransportTimeout), t;
      }
      UpdateProgress(Transferring, 0, c.total);
      var transferred, k := 0, 0;
      while transferred < c.total && k < rounds
        invariant transferred <= c.total && k <= rounds
        invariant if c.chunk > 0 then k <= transferred else transferred == 0
        invariant Leads(c, a, At(LoopHead(transferred, c.total), transferred))
        decreases rounds - k
      {
        ghost var b := At(LoopHead(transferred, c.total), transferred);
        var x, next := TransferChunk(transferred);
        LeadsOn(c, a, b, At(if x == Ok then LoopHead(next, c.total) else Done(x), next));
        if x != Ok {
          return Some(x), next;
        }
        transferred, k := next, k + 1;
      }
      t := transferred;
      if transferred < c.total {
        return None, t;
      }
      LeadsStep(c, a, At(End, t));
      UpdateProgress(Executing, transferred, c.total);
      r := Some(Ok);
    }

    method StartExecution(ghost t: nat) returns (r: Result)
      modifies this
      ensures Leads(c, old(At(Check(Start, ReadFlag), t)), At(Done(r), t))
    {
      ghost var a := At(Check(Start, ReadFlag), t);
      CheckCancelled(Start, t);
      LeadsStep(c, a, At(Check(Start, ReadState), t));
      if state == Cancelled {
        return WasCancelled;
      }
      LeadsStep(c, a, At(Act(Start), t));
      if c.failOnStart {
        state := Failed;
        return InvalidElf;
      }
      executed := true;
      LeadsStep(c, a, At(Finish, t));
      UpdateProgress(Completed, c.total, c.total);
      r := Ok;
    }

    /** The five stages, the transfer loop observed for a number of rounds. A run that was cancelled
        beforehand returns an error and executes nothing, whatever the chunk size. Any other run that
        returns has succeeded exactly if no fault is configured, else with the result of the first faulty
        stage, and has reported exactly what is expected of the configuration. A fresh run without faults succeeds, its bytes
        reported in order up to the total, once the loop has had enough rounds; with a zero chunk size
        and something to transfer no number of rounds is enough. */
    method Execute(rounds: nat) returns (r: Option<Result>, ghost t: nat)
      modifies this
      ensures Leads(c, old(At(Load, 0)), At(if r.Some? then Done(r.value) else Check(Loop, ReadFlag), t))
      ensures Terminating(c) && rounds >= c.total ==> r.Some?
      ensures old(cancelled) ==>
                && r == Some(if c.failOnLoad then InvalidElf else WasCancelled)
                && executed == old(executed) && state == CancelledState(c)
                && reports == old(reports) + CancelledReports(c)
      ensures !old(cancelled) && r.Some? ==>
                && r.value == Expected(c) && (r.value == Ok <==> c.NoFault())
                && reports == old(reports) + AllReports(c)
                && (if c.NoFault() then executed && state == Completed else executed == old(executed) && state == Failed)
      ensures !old(cancelled) && EarlyFault(c) ==> r.Some?
      ensures !old(cancelled) && !EarlyFault(c) && !Terminating(c) ==> r.None?
      ensures old(Fresh(At(Load, 0))) && c.NoFault() ==>
                && (r.Some? ==> r.value == Ok && executed && NonDecreasing(reports) && LastBytes(reports) == c.total)
                && (!Terminating(c) ==> r.None?)
    {
      ghost var s := At(Load, 0);
      hide Fresh, Leads, NonDecreasing, LastBytes;
      r, t := RunStages(rounds);
      Consequences(s, c, At(if r.Some? then Done(r.value) else Check(Loop, ReadFlag), t));
      hide Expected, AllReports;
    }

    method RunStages(rounds: nat) returns (r: Option<Result>, ghost t: nat)
      modifies this
      ensures Leads(c, old(At(Load, 0)), At(if r.Some? then Done(r.value) else Check(Loop, ReadFlag), t))
      ensures Terminating(c) && rounds >= c.total ==> r.Some?
    {
      hide Leads;
      ghost var s := At(Load, 0);
      t := 0;
      var x := LoadImage(0);
      if x != Ok {
        return Some(x), 0;
      }
      ghost var m := At(Check(Verify, ReadFlag), 0);
      x := VerifyImage(0);
      LeadsOn(c, s, m, At(if x == Ok then Check(Prepare, ReadFlag) else Done(x), 0));
      if x != Ok {
        return Some(x), 0;
      }
      m := At(Check(Prepare, ReadFlag), 0);
      x := PrepareExecution(0);
      LeadsOn(c, s, m, At(if x == Ok then Begin else Done(x), 0));
      if x != Ok {
        return Some(x), 0;
      }
      m := At(Begin, 0);
      r, t := TransferImage(0, rounds);
      if r.None? {
        LeadsOn(c, s, m, At(Check(Loop, ReadFlag), t));
        return;
      }
      LeadsOn(c, s, m, At(if r.value == Ok then Check(Start, ReadFlag) else Done(r.value), t));
      if r.value != Ok {
        return;
      }
      m := At(Check(Start, ReadFlag), t);
      x := StartExecution(t);
      LeadsOn(c, s, m, At(Done(x), t));
      r := Some(x);
    }

    method Cancel()
      modifies this`cancelled, this`state
      ensures forall pc, t :: At(pc, t) == Step(Step(old(At(pc, t)), c, SetFlag), c, SetState)
      ensures cancelled && state == Cancelled
    {
      cancelled := true;
      state := Cancelled;
    }
  }
}
