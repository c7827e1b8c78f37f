/** VirtualProgrammer: one thread runs `execute`, any number of others call `cancel`. Every load
    and store of the atomic fields is a step of its own, so a schedule is any sequence of steps. */
module VirtualProgrammer {

  datatype State =
    Idle | ImageLoaded | ImageVerified | TransferReady | Transferring | Executing | Completed | Failed | Cancelled

  datatype Result = Ok | InvalidElf | TransportTimeout | WasCancelled

  datatype Config = Config(
    total: nat, chunk: nat, failOnLoad: bool, failOnVerify: bool, failOnPrepare: bool, failOnTransfer: bool,
    failOnStart: bool, timeout: bool)
  {
    predicate NoFault() {
      !failOnLoad && !failOnVerify && !failOnPrepare && !failOnTransfer && !failOnStart && !timeout
    }
  }

  datatype Report = Report(state: State, bytes: nat, total: nat)

  /** The four places that call checkCancelled and then look at the state. */
  datatype Site = Verify | Prepare | Loop | Start

  /** checkCancelled reads the flag and, if set, stores the state twice; the caller then reads it. */
  datatype Phase = ReadFlag | StoreState | ReportState | ReadState

  datatype Pc = Load | Check(site: Site, phase: Phase) | Act(site: Site) | Begin | End | Finish | Done(result: Result)

  datatype Machine = Machine(
    pc: Pc, state: State, cancelled: bool, executed: bool, transferred: nat, reports: seq<Report>)

  datatype Action = Exec | SetFlag | SetState

  function Fail(s: Machine, r: Result): Machine {
    s.(state := Failed, pc := Done(r))
  }

  /** updateProgress: store the state, then call back. */
  function Progress(s: Machine, state: State, bytes: nat, total: nat, next: Pc): Machine {
    s.(state := state, reports := s.reports + [Report(state, bytes, total)], pc := next)
  }

  function LoopHead(transferred: nat, total: nat): Pc {
    if transferred < total then Check(Loop, ReadFlag) else End
  }

  function Min(a: nat, b: nat): nat {
    if a < b then a else b
  }

  /** One step of the executing thread. */
  function ExecStep(s: Machine, c: Config): Machine {
    match s.pc
    case Load =>
      if c.failOnLoad then Fail(s, InvalidElf)
      else Progress(s, ImageLoaded, 0, c.total, Check(Verify, ReadFlag))
    case Check(site, ReadFlag) => s.(pc := Check(site, if s.cancelled then StoreState else ReadState))
    case Check(site, StoreState) => s.(state := Cancelled, pc := Check(site, ReportState))
    case Check(site, ReportState) => Progress(s, Cancelled, 0, 0, Check(site, ReadState))
    case Check(site, ReadState) => s.(pc := if s.state == Cancelled then Done(WasCancelled) else Act(site))
    case Act(Verify) =>
      if c.failOnVerify then Fail(s, InvalidElf)
      else Progress(s, ImageVerified, 0, c.total, Check(Prepare, ReadFlag))
    case Act(Prepare) =>
      if c.failOnPrepare then Fail(s, InvalidElf) else Progress(s, TransferReady, 0, c.total, Begin)
    case Begin =>
      if c.failOnTransfer then Fail(s, InvalidElf)
      else if c.timeout then Fail(s, TransportTimeout)
      else Progress(s, Transferring, 0, c.total, LoopHead(0, c.total)).(transferred := 0)
    case Act(Loop) =>
      var n := s.transferred + Min(if s.transferred < c.total then c.total - s.transferred else 0, c.chunk);
      Progress(s, Transferring, n, c.total, LoopHead(n, c.total)).(transferred := n)
    case End => Progress(s, Executing, s.transferred, c.total, Check(Start, ReadFlag))
    case Act(Start) => if c.failOnStart then Fail(s, InvalidElf) else s.(executed := true, pc := Finish)
    case Finish => Progress(s, Completed, c.total, c.total, Done(Ok))
    case Done(_) => s
  }

  /** cancel() stores the flag, then the state; the second store may come any time after. */
  function Step(s: Machine, c: Config, a: Action): Machine {
    match a
    case Exec => ExecStep(s, c)
    case SetFlag => s.(cancelled := true)
    case SetState => if s.cancelled then s.(state := Cancelled) else s
  }

  ghost function Run(s: Machine, c: Config, schedule: seq<Action>): Machine
    decreases |schedule|
  {
    if schedule == [] then s else Run(Step(s, c, schedule[0]), c, schedule[1..])
  }

  // ----- a cancel that lands in time is never lost -----

  /** startExecution has not yet read the flag. */
  predicate BeforeStartCheck(pc: Pc) {
    match pc
    case Load => true
    case Check(site, phase) => site != Start || phase == ReadFlag
    case Act(site) => site != Start
    case Begin => true
    case End => true
    case Finish => false
    case Done(_) => false
  }

  /** Caught: the flag is set and the executing thread cannot get past startExecution's check. */
  ghost predicate Caught(s: Machine) {
    && s.cancelled
    && (|| BeforeStartCheck(s.pc)
        || s.pc == Check(Start, StoreState) || s.pc == Check(Start, ReportState)
        || (s.pc == Check(Start, ReadState) && s.state == Cancelled)
        || (s.pc.Done? && s.pc.result != Ok))
  }

  lemma CaughtStep(s: Machine, c: Config, a: Action)
    requires Caught(s)
    ensures Caught(Step(s, c, a)) && Step(s, c, a).executed == s.executed
  {
    hide ExecStep, Caught;
    match a
    case Exec => if s.pc.Check? { CaughtCheck(s, c); } else { CaughtExec(s, c); }
    case SetFlag => CaughtCancel(s);
    case SetState => CaughtCancel(s);
  }

  lemma CaughtCheck(s: Machine, c: Config)
    requires Caught(s) && s.pc.Check?
    ensures Caught(ExecStep(s, c)) && ExecStep(s, c).executed == s.executed
  {
    hide Min, LoopHead;
  }

  lemma CaughtExec(s: Machine, c: Config)
    requires Caught(s) && !s.pc.Check?
    ensures Caught(ExecStep(s, c)) && ExecStep(s, c).executed == s.executed
  {
    hide Min;
  }

  lemma CaughtCancel(s: Machine)
    requires Caught(s)
    ensures Caught(s.(cancelled := true)) && Caught(s.(state := Cancelled))
  {
  }

  lemma {:induction false} CaughtRun(s: Machine, c: Config, schedule: seq<Action>)
    requires Caught(s)
    ensures Caught(Run(s, c, schedule)) && Run(s, c, schedule).executed == s.executed
    decreases |schedule|
  {
    if schedule != [] {
      CaughtStep(s, c, schedule[0]);
      CaughtRun(Step(s, c, schedule[0]), c, schedule[1..]);
    }
  }

  // ----- the run ends -----

  function ExecCount(schedule: seq<Action>): nat {
    if schedule == [] then 0 else (if schedule[0] == Exec then 1 else 0) + ExecCount(schedule[1..])
  }

  function PhaseRank(phase: Phase): nat {
    match phase
    case ReadFlag => 4
    case StoreState => 3
    case ReportState => 2
    case ReadState => 1
  }

  /** Bytes still to transfer; nothing has been transferred before the transfer begins. */
  function Remaining(pc: Pc, transferred: nat, total: nat): nat {
    var inLoop := pc == Act(Loop) || (pc.Check? && pc.site == Loop);
    if inLoop && transferred <= total then total - transferred else if inLoop then 0 else total
  }

  /** An upper bound on the steps the executing thread still takes. */
  function Rank(s: Machine, c: Config): nat {
    var r := 6 * Remaining(s.pc, s.transferred, c.total);
    match s.pc
    case Load => r + 30
    case Check(Verify, phase) => r + 24 + PhaseRank(phase)
    case Act(Verify) => r + 23
    case Check(Prepare, phase) => r + 18 + PhaseRank(phase)
    case Act(Prepare) => r + 17
    case Begin => r + 16
    case Check(Loop, phase) => r + 9 + PhaseRank(phase)
    case Act(Loop) => r + 9
    case End => 9
    case Check(Start, phase) => 4 + PhaseRank(phase)
    case Act(Start) => 3
    case Finish => 2
    case Done(_) => 0
  }

  /** While transferring, some bytes are still missing. */
  ghost predicate InLoopMeansMore(s: Machine, c: Config) {
    (s.pc == Act(Loop) || (s.pc.Check? && s.pc.site == Loop)) ==> s.transferred < c.total
  }

  /** The transfer loop makes progress, or has nothing to do. */
  predicate Terminating(c: Config) {
    c.chunk > 0 || c.total == 0
  }

  lemma LoopDecreases(s: Machine, c: Config)
    requires Terminating(c) && InLoopMeansMore(s, c) && s.pc == Act(Loop)
    ensures Rank(ExecStep(s, c), c) < Rank(s, c) && InLoopMeansMore(ExecStep(s, c), c)
  {
    var t := ExecStep(s, c);
    assert s.transferred < t.transferred <= c.total;
  }

  lemma ExecDecreases(s: Machine, c: Config)
    requires Terminating(c) && InLoopMeansMore(s, c) && !s.pc.Done?
    ensures Rank(ExecStep(s, c), c) < Rank(s, c) && InLoopMeansMore(ExecStep(s, c), c)
  {
    hide ExecStep, Rank, InLoopMeansMore;
    match s.pc
    case Check(_, _) => CheckDecreases(s, c);
    case Act(Loop) => LoopDecreases(s, c);
    case Act(_) => ActDecreases(s, c);
    case Load => OtherDecreases(s, c);
    case Begin => BeginDecreases(s, c);
    case End => OtherDecreases(s, c);
    case Finish => OtherDecreases(s, c);
  }

  lemma CheckDecreases(s: Machine, c: Config)
    requires InLoopMeansMore(s, c) && s.pc.Check?
    ensures Rank(ExecStep(s, c), c) < Rank(s, c) && InLoopMeansMore(ExecStep(s, c), c)
  {
    hide Min, LoopHead;
  }

  lemma ActDecreases(s: Machine, c: Config)
    requires s.pc.Act? && s.pc.site != Loop
    ensures Rank(ExecStep(s, c), c) < Rank(s, c) && InLoopMeansMore(ExecStep(s, c), c)
  {
    hide Min, LoopHead;
  }

  lemma OtherDecreases(s: Machine, c: Config)
    requires s.pc == Load || s.pc == End || s.pc == Finish
    ensures Rank(ExecStep(s, c), c) < Rank(s, c) && InLoopMeansMore(ExecStep(s, c), c)
  {
    hide Min, LoopHead;
  }

  lemma BeginDecreases(s: Machine, c: Config)
    requires s.pc == Begin
    ensures Rank(ExecStep(s, c), c) < Rank(s, c) && InLoopMeansMore(ExecStep(s, c), c)
  {
    hide Min;
  }

  /** With a positive chunk size, or nothing to transfer, every schedule that gives the executing thread Rank
      steps ends the run. */
  lemma {:induction false} EnoughStepsFinish(s: Machine, c: Config, schedule: seq<Action>)
    requires Terminating(c) && InLoopMeansMore(s, c)
    requires ExecCount(schedule) >= Rank(s, c)
    ensures Run(s, c, schedule).pc.Done?
    decreases |schedule|
  {
    if schedule != [] {
      var a := schedule[0];
      var t := Step(s, c, a);
      if a == Exec && !s.pc.Done? {
        ExecDecreases(s, c);
      }
      EnoughStepsFinish(t, c, schedule[1..]);
    }
  }

  /** The steps a caught thread still takes: it fails at the next check that reads the flag. */
  function CaughtRank(s: Machine): nat {
    match s.pc
    case Check(_, ReadFlag) => 4
    case Check(_, StoreState) => 3
    case Check(_, ReportState) => 2
    case Check(_, ReadState) => if s.state == Cancelled then 1 else 8
    case Load => 5
    case Act(Prepare) => 7
    case Act(Loop) => 6
    case Act(_) => 5
    case Begin => 6
    case End => 5
    case Finish => 1
    case Done(_) => 0
  }

  lemma CaughtCheckFalls(s: Machine, c: Config)
    requires Caught(s) && s.pc.Check?
    ensures CaughtRank(ExecStep(s, c)) < CaughtRank(s)
  {
    hide Min, LoopHead;
  }

  lemma CaughtActFalls(s: Machine, c: Config)
    requires Caught(s) && !s.pc.Check? && !s.pc.Done?
    ensures CaughtRank(ExecStep(s, c)) < CaughtRank(s)
  {
    hide Min;
  }

  /** A caught thread comes closer to its end with each of its steps, and cancelling again does not
      put it back. */
  lemma CaughtRankFalls(s: Machine, c: Config, a: Action)
    requires Caught(s)
    ensures CaughtRank(Step(s, c, a)) <= CaughtRank(s)
    ensures a == Exec && !s.pc.Done? ==> CaughtRank(Step(s, c, a)) < CaughtRank(s)
  {
    if a == Exec && !s.pc.Done? {
      hide ExecStep, Caught, CaughtRank;
      if s.pc.Check? {
        CaughtCheckFalls(s, c);
      } else {
        CaughtActFalls(s, c);
      }
    } else {
      hide Caught;
    }
  }

  lemma CaughtRankZero(s: Machine)
    ensures CaughtRank(s) == 0 <==> s.pc.Done?
    ensures CaughtRank(s) <= 8
  {
  }

  lemma {:induction false} CaughtFinishes(s: Machine, c: Config, schedule: seq<Action>)
    requires Caught(s) && ExecCount(schedule) >= CaughtRank(s)
    ensures Run(s, c, schedule).pc.Done?
    decreases |schedule|
  {
    hide Step, Caught, CaughtRank;
    CaughtRankZero(s);
    if s.pc.Done? {
      DoneStays(s, c, schedule);
    } else if schedule != [] {
      var a := schedule[0];
      CaughtStep(s, c, a);
      CaughtRankFalls(s, c, a);
      CaughtFinishes(Step(s, c, a), c, schedule[1..]);
    }
  }

  /** For every interleaving and every configuration, also one whose loop would never end by itself: once
      a cancel has landed before startExecution reads the flag, the image is never marked executed, the
      run never succeeds, and within eight steps of its own the executing thread has returned an error -
      however often it overwrites the state in between. */
  lemma CancelIsNotLost(s: Machine, c: Config, schedule: seq<Action>)
    requires s.cancelled && BeforeStartCheck(s.pc)
    ensures var t := Run(s, c, schedule);
            && t.executed == s.executed
            && t.pc != Done(Ok)
            && (ExecCount(schedule) >= 8 ==> t.pc.Done? && t.pc.result != Ok)
  {
    assert Caught(s);
    CaughtRun(s, c, schedule);
    if ExecCount(schedule) >= 8 {
      CaughtRankZero(s);
      CaughtFinishes(s, c, schedule);
    }
  }

  /** The check is the last chance: once it is passed, no schedule of cancels keeps the image from
      being marked executed. */
  lemma {:induction false} PastTheCheck(s: Machine, c: Config, schedule: seq<Action>)
    requires !c.failOnStart && (s.pc == Act(Start) || (s.pc == Finish && s.executed))
    requires ExecCount(schedule) >= Rank(s, c)
    ensures Run(s, c, schedule).pc == Done(Ok) && Run(s, c, schedule).executed
    decreases |schedule|
  {
    if schedule != [] {
      var t := Step(s, c, schedule[0]);
      if t.pc == Done(Ok) {
        DoneStays(t, c, schedule[1..]);
      } else {
        PastTheCheck(t, c, schedule[1..]);
      }
    }
  }

  lemma {:induction false} DoneStays(s: Machine, c: Config, schedule: seq<Action>)
    requires s.pc.Done?
    ensures Run(s, c, schedule).pc == s.pc && Run(s, c, schedule).executed == s.executed
    decreases |schedule|
  {
    if schedule != [] {
      DoneStays(Step(s, c, schedule[0]), c, schedule[1..]);
    }
  }

  // ----- without cancellation or faults -----

  ghost function RunAlone(s: Machine, c: Config, n: nat): Machine {
    if n == 0 then s else ExecStep(RunAlone(s, c, n - 1), c)
  }

  ghost predicate NonDecreasing(reports: seq<Report>) {
    forall i, j :: 0 <= i < j < |reports| ==> reports[i].bytes <= reports[j].bytes
  }

  ghost function LastBytes(reports: seq<Report>): nat {
    if reports == [] then 0 else reports[|reports| - 1].bytes
  }

  predicate BeforeTransfer(pc: Pc) {
    pc == Load || pc == Begin || pc == Act(Verify) || pc == Act(Prepare)
    || (pc.Check? && (pc.site == Verify || pc.site == Prepare))
  }

  predicate InLoop(pc: Pc) {
    pc == Act(Loop) || (pc.Check? && pc.site == Loop)
  }

  /** What a quiet run keeps: no cancel in sight, reports in order, counters in step. */
  ghost predicate Quiet(s: Machine, c: Config) {
    && !s.cancelled && (s.pc == Load || (s.state != Cancelled && s.state != Failed))
    && (s.pc.Check? ==> s.pc.phase == ReadFlag || s.pc.phase == ReadState)
    && (s.pc.Done? ==> s.pc.result == Ok && s.state == Completed && s.executed && s.reports != [])
    && (s.pc == Finish ==> s.executed)
    && NonDecreasing(s.reports) && LastBytes(s.reports) <= c.total
    && (BeforeTransfer(s.pc) ==> LastBytes(s.reports) == 0)
    && (InLoop(s.pc) ==> s.transferred < c.total && LastBytes(s.reports) == s.transferred)
    && (s.pc == End ==> s.transferred == c.total)
    && (!BeforeTransfer(s.pc) && !InLoop(s.pc) ==> LastBytes(s.reports) == c.total)
  }

  lemma AppendReport(reports: seq<Report>, r: Report)
    requires NonDecreasing(reports) && LastBytes(reports) <= r.bytes
    ensures NonDecreasing(reports + [r]) && LastBytes(reports + [r]) == r.bytes
  {
    assert reports != [] ==> forall i :: 0 <= i < |reports| ==> reports[i].bytes <= reports[|reports| - 1].bytes;
  }

  lemma LoopRound(s: Machine, c: Config)
    requires s.pc == Act(Loop) && s.transferred < c.total
    ensures var n := s.transferred + Min(c.total - s.transferred, c.chunk);
            && s.transferred <= n <= c.total && (c.chunk > 0 <==> s.transferred < n)
            && ExecStep(s, c) == Machine(LoopHead(n, c.total), Transferring, s.cancelled, s.executed, n,
                                         s.reports + [Report(Transferring, n, c.total)])
  {
  }

  lemma QuietStep(s: Machine, c: Config)
    requires Quiet(s, c) && c.NoFault()
    ensures Quiet(ExecStep(s, c), c)
  {
    hide ExecStep, Quiet;
    if s.pc.Check? {
      QuietCheck(s, c);
    } else {
      QuietAct(s, c);
    }
  }

  lemma QuietCheck(s: Machine, c: Config)
    requires Quiet(s, c) && s.pc.Check?
    ensures Quiet(ExecStep(s, c), c)
  {
    hide Min, LoopHead, NonDecreasing, LastBytes;
  }

  lemma QuietAct(s: Machine, c: Config)
    requires Quiet(s, c) && c.NoFault() && !s.pc.Check?
    ensures Quiet(ExecStep(s, c), c)
  {
    var t := ExecStep(s, c);
    if t.reports != s.reports {
      var r := t.reports[|s.reports|];
      assert t.reports == s.reports + [r];
      AppendReport(s.reports, r);
      hide NonDecreasing, LastBytes;
    }
  }

  lemma {:induction false} QuietRun(s: Machine, c: Config, n: nat)
    requires Quiet(s, c) && c.NoFault()
    ensures Quiet(RunAlone(s, c, n), c)
  {
    hide Quiet;
    if n > 0 {
      QuietRun(s, c, n - 1);
      QuietStep(RunAlone(s, c, n - 1), c);
    }
  }

  lemma DoneStep(s: Machine, c: Config)
    requires s.pc.Done?
    ensures ExecStep(s, c) == s
  {
  }

  lemma QuietInLoop(s: Machine, c: Config)
    requires Quiet(s, c)
    ensures InLoopMeansMore(s, c)
  {
    hide NonDecreasing, LastBytes;
  }

  lemma {:induction false} RankFalls(s: Machine, c: Config, n: nat)
    requires Quiet(s, c) && c.NoFault() && Terminating(c)
    ensures RunAlone(s, c, n).pc.Done? || Rank(RunAlone(s, c, n), c) + n <= Rank(s, c)
  {
    hide ExecStep, Rank, Quiet;
    if n > 0 {
      var t := RunAlone(s, c, n - 1);
      RankFalls(s, c, n - 1);
      QuietRun(s, c, n - 1);
      if t.pc.Done? {
        DoneStep(t, c);
      } else {
        QuietInLoop(t, c);
        ExecDecreases(t, c);
      }
    }
  }

  /** With a zero chunk size and bytes to send, the transfer loop never ends. */
  lemma {:induction false} ZeroChunkNeverEnds(s: Machine, c: Config, n: nat)
    requires Quiet(s, c) && c.NoFault() && !Terminating(c) && s.pc == Load
    ensures var t := RunAlone(s, c, n);
            (BeforeTransfer(t.pc) || InLoop(t.pc)) && (InLoop(t.pc) ==> t.transferred == 0)
  {
    hide ExecStep, Quiet;
    if n > 0 {
      ZeroChunkNeverEnds(s, c, n - 1);
      QuietRun(s, c, n - 1);
      ZeroChunkStep(RunAlone(s, c, n - 1), c);
    }
  }

  lemma ZeroChunkStep(s: Machine, c: Config)
    requires Quiet(s, c) && c.NoFault() && !Terminating(c)
    requires (BeforeTransfer(s.pc) || InLoop(s.pc)) && (InLoop(s.pc) ==> s.transferred == 0)
    ensures var t := ExecStep(s, c);
            (BeforeTransfer(t.pc) || InLoop(t.pc)) && (InLoop(t.pc) ==> t.transferred == 0)
  {
    hide NonDecreasing, LastBytes;
  }

  /** A programmer about to execute, with nothing cancelled; the state left by an earlier run does not
      matter. */
  predicate Fresh(s: Machine) {
    s.pc == Load && !s.cancelled && s.reports == []
  }

  /** With no cancel and no fault: the reported byte counts never decrease, and the run ends - with
      success, the image executed and exactly the file size reported - if and only if the chunk size
      is positive or there is nothing to transfer. */
  lemma UndisturbedRun(s: Machine, c: Config, n: nat)
    requires Fresh(s) && c.NoFault()
    ensures NonDecreasing(RunAlone(s, c, n).reports)
    ensures var t := RunAlone(s, c, n);
            t.pc.Done? ==> t.pc.result == Ok && t.executed && t.state == Completed && LastBytes(t.reports) == c.total
    ensures n >= Rank(s, c) ==> (RunAlone(s, c, n).pc.Done? <==> Terminating(c))
    ensures !Terminating(c) ==> !RunAlone(s, c, n).pc.Done?
  {
    assert Quiet(s, c);
    QuietRun(s, c, n);
    if Terminating(c) {
      RankFalls(s, c, n);
      if n >= Rank(s, c) && !RunAlone(s, c, n).pc.Done? {
        RankZeroIsDone(RunAlone(s, c, n), c);
      }
    } else {
      ZeroChunkNeverEnds(s, c, n);
    }
  }

  lemma RankZeroIsDone(s: Machine, c: Config)
    ensures Rank(s, c) == 0 <==> s.pc.Done?
  {
  }
}
