/** What every configured fault does to a run that nobody cancels, and exactly what a run reports. */
module ProgrammerFaults {
  import opened VirtualProgrammer

  // ----- what is expected of a configuration -----

  /** A fault that strikes before the transfer loop. */
  predicate EarlyFault(c: Config) {
    c.failOnLoad || c.failOnVerify || c.failOnPrepare || c.failOnTransfer || c.timeout
  }

  /** The result of the first faulty stage: load, verify, prepare, transfer, timeout, start. */
  function Expected(c: Config): Result {
    if c.failOnLoad then InvalidElf
    else if c.failOnVerify then InvalidElf
    else if c.failOnPrepare then InvalidElf
    else if c.failOnTransfer then InvalidElf
    else if c.timeout then TransportTimeout
    else if c.failOnStart then InvalidElf
    else Ok
  }

  /** The reports of the transfer loop from a number of bytes on: one per chunk, the last one at the total. */
  function ChunkReports(bytes: nat, c: Config): seq<Report>
    decreases c.total - bytes
  {
    if bytes >= c.total || c.chunk == 0 then []
    else
      var next := if c.total - bytes <= c.chunk then c.total else bytes + c.chunk;
      [Report(Transferring, next, c.total)] + ChunkReports(next, c)
  }

  /** The reports of the stages before the transfer. */
  function Head(c: Config): seq<Report> {
    [Report(ImageLoaded, 0, c.total), Report(ImageVerified, 0, c.total), Report(TransferReady, 0, c.total)]
  }

  function LoopStart(c: Config): seq<Report> {
    Head(c) + [Report(Transferring, 0, c.total)]
  }

  function LoopDone(c: Config): seq<Report> {
    LoopStart(c) + ChunkReports(0, c) + [Report(Executing, c.total, c.total)]
  }

  /** All reports of a run that ends. */
  function AllReports(c: Config): seq<Report> {
    if c.failOnLoad then []
    else if c.failOnVerify then Head(c)[..1]
    else if c.failOnPrepare then Head(c)[..2]
    else if c.failOnTransfer || c.timeout then Head(c)
    else if c.failOnStart then LoopDone(c)
    else LoopDone(c) + [Report(Completed, c.total, c.total)]
  }

  /** The k-th chunk report is at k + 1 chunks, or at the total. */
  lemma {:induction false} ChunkReportAt(bytes: nat, c: Config, k: nat)
    requires k < |ChunkReports(bytes, c)|
    ensures ChunkReports(bytes, c)[k].bytes == (if bytes + (k + 1) * c.chunk <= c.total then bytes + (k + 1) * c.chunk else c.total)
    ensures ChunkReports(bytes, c)[k].state == Transferring && ChunkReports(bytes, c)[k].total == c.total
    decreases k
  {
    var next := if c.total - bytes <= c.chunk then c.total else bytes + c.chunk;
    if k > 0 {
      ChunkReportAt(next, c, k - 1);
      assert (k + 1) * c.chunk == k * c.chunk + c.chunk;
    }
  }

  // ----- where a run is, and what it has done by then -----

  ghost predicate Waiting(s: Machine, state: State) {
    s.state == state && (s.pc.Check? ==> s.pc.phase == ReadFlag || s.pc.phase == ReadState)
  }

  /** s is a state of an undisturbed run; x and r are the executed flag and the reports it started with. */
  ghost predicate OnTrack(s: Machine, c: Config, x: bool, r: seq<Report>) {
    && !s.cancelled
    && match s.pc
       case Load => s.executed == x && s.reports == r
       case Check(Verify, _) => AtVerify(s, c, x, r)
       case Act(Verify) => AtVerify(s, c, x, r)
       case Check(Prepare, _) => AtPrepare(s, c, x, r)
       case Act(Prepare) => AtPrepare(s, c, x, r)
       case Begin => AtBegin(s, c, x, r)
       case Check(Loop, _) => AtLoop(s, c, x, r)
       case Act(Loop) => AtLoop(s, c, x, r)
       case End => AtEnd(s, c, x, r)
       case Check(Start, _) => AtStart(s, c, x, r)
       case Act(Start) => AtStart(s, c, x, r)
       case Finish => NoEarlyFault(c) && !c.failOnStart && s.executed && s.reports == r + LoopDone(c)
       case Done(q) => AtDone(s, c, q, x, r)
  }

  predicate NoEarlyFault(c: Config) {
    !EarlyFault(c)
  }

  ghost predicate AtVerify(s: Machine, c: Config, x: bool, r: seq<Report>) {
    !c.failOnLoad && Waiting(s, ImageLoaded) && s.executed == x && s.reports == r + [Report(ImageLoaded, 0, c.total)]
  }

  ghost predicate AtPrepare(s: Machine, c: Config, x: bool, r: seq<Report>) {
    && !c.failOnLoad && !c.failOnVerify && Waiting(s, ImageVerified) && s.executed == x
    && s.reports == r + [Report(ImageLoaded, 0, c.total), Report(ImageVerified, 0, c.total)]
  }

  ghost predicate AtBegin(s: Machine, c: Config, x: bool, r: seq<Report>) {
    !c.failOnLoad && !c.failOnVerify && !c.failOnPrepare && s.executed == x && s.reports == r + Head(c)
  }

  ghost predicate AtLoop(s: Machine, c: Config, x: bool, r: seq<Report>) {
    && NoEarlyFault(c) && Waiting(s, Transferring) && s.executed == x && s.transferred < c.total
    && (c.chunk > 0 ==> s.reports + ChunkReports(s.transferred, c) == r + LoopStart(c) + ChunkReports(0, c))
    && (c.chunk == 0 ==> s.transferred == 0)
  }

  ghost predicate AtEnd(s: Machine, c: Config, x: bool, r: seq<Report>) {
    && NoEarlyFault(c) && Terminating(c) && s.executed == x && s.transferred == c.total
    && s.reports == r + LoopStart(c) + ChunkReports(0, c)
  }

  ghost predicate AtStart(s: Machine, c: Config, x: bool, r: seq<Report>) {
    NoEarlyFault(c) && Terminating(c) && Waiting(s, Executing) && s.executed == x && s.reports == r + LoopDone(c)
  }

  ghost predicate AtDone(s: Machine, c: Config, q: Result, x: bool, r: seq<Report>) {
    && q == Expected(c) && s.reports == r + AllReports(c)
    && (q == Ok ==> s.executed && s.state == Completed)
    && (q != Ok ==> s.executed == x && s.state == Failed)
  }

  // ----- the reports of each way to end -----

  lemma ReportsIf(c: Config)
    ensures c.failOnLoad ==> AllReports(c) == []
    ensures !c.failOnLoad && c.failOnVerify ==> AllReports(c) == [Report(ImageLoaded, 0, c.total)]
    ensures !c.failOnLoad && !c.failOnVerify && c.failOnPrepare ==>
              AllReports(c) == [Report(ImageLoaded, 0, c.total), Report(ImageVerified, 0, c.total)]
    ensures !c.failOnLoad && !c.failOnVerify && !c.failOnPrepare && (c.failOnTransfer || c.timeout) ==>
              AllReports(c) == Head(c)
    ensures NoEarlyFault(c) && c.failOnStart ==> AllReports(c) == LoopDone(c)
    ensures c.NoFault() ==> AllReports(c) == LoopDone(c) + [Report(Completed, c.total, c.total)]
  {
    hide ChunkReports;
  }

  // ----- every step keeps the track -----

  lemma TrackLoad(s: Machine, c: Config, x: bool, r: seq<Report>)
    requires OnTrack(s, c, x, r) && s.pc == Load
    ensures OnTrack(ExecStep(s, c), c, x, r)
  {
    ReportsIf(c);
    assert r + [] == r;
    hide AllReports, ChunkReports, Min, LoopHead;
  }

  lemma TrackCheck(s: Machine, c: Config, x: bool, r: seq<Report>)
    requires OnTrack(s, c, x, r) && s.pc.Check?
    ensures OnTrack(ExecStep(s, c), c, x, r)
  {
    hide AllReports, ChunkReports, LoopStart, LoopDone, Min, LoopHead;
  }

  lemma TrackVerify(s: Machine, c: Config, x: bool, r: seq<Report>)
    requires OnTrack(s, c, x, r) && s.pc == Act(Verify)
    ensures OnTrack(ExecStep(s, c), c, x, r)
  {
    ReportsIf(c);
    var l, v := Report(ImageLoaded, 0, c.total), Report(ImageVerified, 0, c.total);
    assert (r + [l]) + [v] == r + [l, v];
    hide AllReports, ChunkReports, Min, LoopHead;
  }

  lemma TrackPrepare(s: Machine, c: Config, x: bool, r: seq<Report>)
    requires OnTrack(s, c, x, r) && s.pc == Act(Prepare)
    ensures OnTrack(ExecStep(s, c), c, x, r)
  {
    ReportsIf(c);
    var l, v := Report(ImageLoaded, 0, c.total), Report(ImageVerified, 0, c.total);
    assert (r + [l, v]) + [Report(TransferReady, 0, c.total)] == r + Head(c);
    hide AllReports, ChunkReports, Min, LoopHead;
  }

  lemma NoMoreChunks(bytes: nat, c: Config)
    requires bytes >= c.total
    ensures ChunkReports(bytes, c) == []
  {
  }

  lemma TrackBegin(s: Machine, c: Config, x: bool, r: seq<Report>)
    requires OnTrack(s, c, x, r) && s.pc == Begin
    ensures OnTrack(ExecStep(s, c), c, x, r)
  {
    ReportsIf(c);
    var b := Report(Transferring, 0, c.total);
    assert (r + Head(c)) + [b] == r + LoopStart(c);
    assert (r + LoopStart(c)) + [] == r + LoopStart(c);
    if c.total == 0 {
      NoMoreChunks(0, c);
    }
    hide AllReports, ChunkReports, Min, Head;
  }

  /** One round of the loop reports the next chunk. */
  lemma NextChunk(bytes: nat, c: Config)
    requires bytes < c.total && c.chunk > 0
    ensures var n := bytes + Min(c.total - bytes, c.chunk);
            && bytes < n <= c.total
            && ChunkReports(bytes, c) == [Report(Transferring, n, c.total)] + ChunkReports(n, c)
  {
  }

  lemma ShiftReport(a: seq<Report>, x: Report, b: seq<Report>)
    ensures a + ([x] + b) == (a + [x]) + b
  {
  }

  lemma TrackLoop(s: Machine, c: Config, x: bool, r: seq<Report>)
    requires OnTrack(s, c, x, r) && s.pc == Act(Loop)
    ensures OnTrack(ExecStep(s, c), c, x, r)
  {
    hide AllReports, ChunkReports, LoopStart, LoopDone, ExecStep, Min;
    LoopRound(s, c);
    var n := s.transferred + Min(c.total - s.transferred, c.chunk);
    if c.chunk > 0 {
      NextChunk(s.transferred, c);
      ShiftReport(s.reports, Report(Transferring, n, c.total), ChunkReports(n, c));
      if n >= c.total {
        NoMoreChunks(n, c);
        NothingMore(s.reports + [Report(Transferring, n, c.total)]);
      }
    }
  }

  lemma NothingMore(a: seq<Report>)
    ensures a + [] == a
  {
  }

  lemma TrackEnd(s: Machine, c: Config, x: bool, r: seq<Report>)
    requires OnTrack(s, c, x, r) && s.pc == End
    ensures OnTrack(ExecStep(s, c), c, x, r)
  {
    assert (r + LoopStart(c) + ChunkReports(0, c)) + [Report(Executing, c.total, c.total)] == r + LoopDone(c);
    hide AllReports, ChunkReports, LoopStart, LoopDone, Min, LoopHead;
  }

  lemma TrackStart(s: Machine, c: Config, x: bool, r: seq<Report>)
    requires OnTrack(s, c, x, r) && s.pc == Act(Start)
    ensures OnTrack(ExecStep(s, c), c, x, r)
  {
    ReportsIf(c);
    hide AllReports, ChunkReports, LoopStart, LoopDone, Min, LoopHead;
  }

  lemma TrackFinish(s: Machine, c: Config, x: bool, r: seq<Report>)
    requires OnTrack(s, c, x, r) && s.pc == Finish
    ensures OnTrack(ExecStep(s, c), c, x, r)
  {
    ReportsIf(c);
    var f := Report(Completed, c.total, c.total);
    assert (r + LoopDone(c)) + [f] == r + (LoopDone(c) + [f]);
    hide AllReports, ChunkReports, LoopStart, LoopDone, Min, LoopHead;
  }

  lemma TrackDone(s: Machine, c: Config, x: bool, r: seq<Report>)
    requires OnTrack(s, c, x, r) && s.pc.Done?
    ensures OnTrack(ExecStep(s, c), c, x, r)
  {
    DoneStep(s, c);
  }

  lemma TrackStep(s: Machine, c: Config, x: bool, r: seq<Report>)
    requires OnTrack(s, c, x, r)
    ensures OnTrack(ExecStep(s, c), c, x, r)
  {
    hide OnTrack, ExecStep;
    match s.pc
    case Load => TrackLoad(s, c, x, r);
    case Check(_, _) => TrackCheck(s, c, x, r);
    case Act(Verify) => TrackVerify(s, c, x, r);
    case Act(Prepare) => TrackPrepare(s, c, x, r);
    case Act(Loop) => TrackLoop(s, c, x, r);
    case Act(Start) => TrackStart(s, c, x, r);
    case Begin => TrackBegin(s, c, x, r);
    case End => TrackEnd(s, c, x, r);
    case Finish => TrackFinish(s, c, x, r);
    case Done(_) => TrackDone(s, c, x, r);
  }

  lemma {:induction false} TrackRun(s: Machine, c: Config, n: nat)
    requires s.pc == Load && !s.cancelled
    ensures OnTrack(RunAlone(s, c, n), c, s.executed, s.reports)
  {
    assert OnTrack(s, c, s.executed, s.reports);
    hide ExecStep, OnTrack;
    if n > 0 {
      TrackRun(s, c, n - 1);
      TrackStep(RunAlone(s, c, n - 1), c, s.executed, s.reports);
    }
  }

  // ----- when the run ends -----

  /** The steps left to a run that an early fault ends. */
  function EarlyRank(pc: Pc): nat {
    match pc
    case Load => 8
    case Check(Verify, ReadFlag) => 7
    case Check(Verify, _) => 6
    case Act(Verify) => 5
    case Check(Prepare, ReadFlag) => 4
    case Check(Prepare, _) => 3
    case Act(Prepare) => 2
    case Begin => 1
    case _ => 0
  }

  lemma EarlyStep(s: Machine, c: Config, x: bool, r: seq<Report>)
    requires OnTrack(s, c, x, r) && EarlyFault(c)
    ensures s.pc.Done? || EarlyRank(ExecStep(s, c).pc) < EarlyRank(s.pc)
    ensures EarlyRank(s.pc) == 0 ==> s.pc.Done?
  {
    hide AllReports, ChunkReports, Head, LoopStart, LoopDone, Min, LoopHead;
  }

  lemma {:induction false} EarlyRun(s: Machine, c: Config, n: nat)
    requires s.pc == Load && !s.cancelled && EarlyFault(c)
    ensures RunAlone(s, c, n).pc.Done? || EarlyRank(RunAlone(s, c, n).pc) + n <= 8
    ensures n >= 8 ==> RunAlone(s, c, n).pc.Done?
  {
    hide ExecStep, OnTrack;
    TrackRun(s, c, n);
    EarlyStep(RunAlone(s, c, n), c, s.executed, s.reports);
    if n > 0 {
      var t := RunAlone(s, c, n - 1);
      EarlyRun(s, c, n - 1);
      TrackRun(s, c, n - 1);
      EarlyStep(t, c, s.executed, s.reports);
      if t.pc.Done? {
        DoneStep(t, c);
      }
    }
  }

  lemma TrackMeansMore(s: Machine, c: Config, x: bool, r: seq<Report>)
    requires OnTrack(s, c, x, r)
    ensures InLoopMeansMore(s, c)
  {
    hide AllReports, ChunkReports, Head, LoopStart, LoopDone;
  }

  lemma {:induction false} TerminatingRun(s: Machine, c: Config, n: nat)
    requires s.pc == Load && !s.cancelled && Terminating(c)
    ensures RunAlone(s, c, n).pc.Done? || Rank(RunAlone(s, c, n), c) + n <= Rank(s, c)
  {
    hide ExecStep, Rank, OnTrack;
    if n > 0 {
      var t := RunAlone(s, c, n - 1);
      TerminatingRun(s, c, n - 1);
      TrackRun(s, c, n - 1);
      if t.pc.Done? {
        DoneStep(t, c);
      } else {
        TrackMeansMore(t, c, s.executed, s.reports);
        ExecDecreases(t, c);
      }
    }
  }

  /** Nothing but the loop is ever entered. */
  ghost predicate Endless(s: Machine, c: Config) {
    s.pc == Load || BeforeTransfer(s.pc) || InLoop(s.pc)
  }

  lemma EndlessStep(s: Machine, c: Config, x: bool, r: seq<Report>)
    requires OnTrack(s, c, x, r) && !EarlyFault(c) && !Terminating(c) && Endless(s, c)
    ensures Endless(ExecStep(s, c), c)
  {
    hide AllReports, ChunkReports, Head, LoopStart, LoopDone;
  }

  lemma {:induction false} EndlessRun(s: Machine, c: Config, n: nat)
    requires s.pc == Load && !s.cancelled && !EarlyFault(c) && !Terminating(c)
    ensures Endless(RunAlone(s, c, n), c)
  {
    assert Endless(s, c);
    hide ExecStep, OnTrack, Endless, Terminating, EarlyFault;
    if n > 0 {
      EndlessRun(s, c, n - 1);
      TrackRun(s, c, n - 1);
      EndlessStep(RunAlone(s, c, n - 1), c, s.executed, s.reports);
    }
  }

  /** The loop is never entered by a run that an early fault ends. */
  lemma EarlyAvoidsLoop(s: Machine, c: Config, n: nat)
    requires s.pc == Load && !s.cancelled && EarlyFault(c)
    ensures !InLoop(RunAlone(s, c, n).pc)
  {
    TrackRun(s, c, n);
    EarlyStep(RunAlone(s, c, n), c, s.executed, s.reports);
    hide OnTrack, ExecStep;
  }

  // ----- the outcome -----

  /** What an ended, undisturbed run leaves behind. */
  ghost predicate Ended(t: Machine, c: Config, x: bool, r: seq<Report>)
    requires t.pc.Done?
  {
    && (t.pc.result == Ok <==> c.NoFault())
    && t.pc.result == Expected(c)
    && t.reports == r + AllReports(c)
    && (if c.NoFault() then t.executed && t.state == Completed else t.executed == x && t.state == Failed)
  }

  /** For every configuration and every start without a cancel: once the run has ended it has succeeded if and
      only if no fault is configured, and otherwise failed with the result of the first faulty stage, executed
      nothing and is in state Failed; its reports are exactly those expected. It ends unless a loop of chunk
      size zero is entered with something to transfer. */
  lemma Outcome(s: Machine, c: Config, n: nat)
    requires s.pc == Load && !s.cancelled
    ensures var t := RunAlone(s, c, n);
            && (t.pc.Done? ==> Ended(t, c, s.executed, s.reports))
            && (t.pc.Done? ==> Terminating(c) || EarlyFault(c))
            && (n >= Rank(s, c) && (Terminating(c) || EarlyFault(c)) ==> t.pc.Done?)
  {
    TrackRun(s, c, n);
    ExpectedOk(c);
    if EarlyFault(c) {
      EarlyRun(s, c, n);
    } else if Terminating(c) {
      TerminatingRun(s, c, n);
      RankZeroIsDone(RunAlone(s, c, n), c);
    } else {
      EndlessRun(s, c, n);
    }
    hide AllReports, ChunkReports, Head, LoopStart, LoopDone, ExecStep;
  }

  lemma ExpectedOk(c: Config)
    ensures Expected(c) == Ok <==> c.NoFault()
  {
  }
}
