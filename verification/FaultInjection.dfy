/** FaultInjector as atomic steps: every public method runs under the injector's lock, so any
    interleaving of threads is some sequence of these steps. The clock reading and the random
    roll of a step are its inputs. */
module FaultInjection {
  import opened Bytes
  import opened Wrappers

  datatype Scope = Once | Random | Persistent | Timed

  datatype State = Inactive | Active | Triggered | Expired

  datatype Config = Config(
    type_: nat, scope: Scope, probability: nat, maxTriggers: uint32, duration: nat, enabled: bool)

  datatype Event = Event(type_: nat, description: string)

  /** What an injector's lock protects. */
  datatype Injector = Injector(config: Config, triggerCount: uint32, state: State, activationTime: int)

  const NEW_INJECTOR := Injector(Config(0, Once, 100, 1, 0, false), 0, Inactive, 0)

  function InitialState(config: Config): State {
    if config.enabled then Active else Inactive
  }

  predicate ProbabilityCheck(probability: nat, roll: nat) {
    probability != 0 && (probability >= 100 || roll < probability)
  }

  predicate LimitReached(x: Injector) {
    x.config.maxTriggers > 0 && x.triggerCount >= x.config.maxTriggers
  }

  // ----- the steps -----

  function ConfigureStep(config: Config, now: int): Injector {
    Injector(config, 0, InitialState(config), now)
  }

  function ResetStep(x: Injector, now: int): Injector {
    Injector(x.config, 0, InitialState(x.config), now)
  }

  /** The answer, and the injector, which a timed-out query expires. */
  function ShouldInjectStep(x: Injector, now: int, roll: nat): (Injector, bool) {
    if !x.config.enabled || x.state == Expired then (x, false)
    else
      match x.config.scope
      case Once => (x, x.triggerCount == 0 && ProbabilityCheck(x.config.probability, roll))
      case Persistent => (x, !LimitReached(x) && ProbabilityCheck(x.config.probability, roll))
      case Random => (x, !LimitReached(x) && ProbabilityCheck(x.config.probability, roll))
      case Timed =>
        if x.config.duration > 0 && now - x.activationTime >= x.config.duration then (x.(state := Expired), false)
        else (x, ProbabilityCheck(x.config.probability, roll))
  }

  function InjectStep(x: Injector, context: string): (Injector, Option<Event>) {
    if x.state == Expired || !x.config.enabled then (x, None)
    else
      var counted := x.(triggerCount := (x.triggerCount + 1) % TWO32);
      var marked := if x.config.scope == Once then counted.(state := Triggered) else counted;
      var final := if LimitReached(marked) then marked.(state := Expired) else marked;
      (final, Some(Event(x.config.type_, if context == "" then "Fault injected" else context)))
  }

  // ----- the steps by their fields -----

  /** Everything but the dice allows a fault now. */
  predicate Armed(x: Injector, now: int) {
    && x.config.enabled && x.state != Expired
    && (x.config.scope == Once ==> x.triggerCount == 0)
    && (x.config.scope == Random || x.config.scope == Persistent ==>
          x.config.maxTriggers == 0 || x.triggerCount < x.config.maxTriggers)
    && (x.config.scope == Timed ==> !TimedOut(x, now))
  }

  predicate TimedOut(x: Injector, now: int) {
    x.config.duration != 0 && now >= x.activationTime + x.config.duration
  }

  /** The answer for every clock reading and roll, and the one case in which asking changes something. */
  ghost predicate IsAnswer(x: Injector, now: int, roll: nat, y: Injector, yes: bool) {
    && (yes <==> Armed(x, now) && (x.config.probability >= 100 || roll < x.config.probability))
    && y == (if x.config.enabled && x.state != Expired && x.config.scope == Timed && TimedOut(x, now)
             then x.(state := Expired) else x)
  }

  lemma AnswersIff(x: Injector, now: int, roll: nat)
    ensures var (y, yes) := ShouldInjectStep(x, now, roll); IsAnswer(x, now, roll, y, yes)
  {
  }

  ghost predicate Fires(x: Injector, now: int, roll: nat) {
    ShouldInjectStep(x, now, roll).1
  }

  /** The rolls below n on which an injector fires. */
  ghost function FiringRolls(x: Injector, now: int, n: nat): (s: set<nat>)
    ensures forall r: nat :: r in s <==> r < n && Fires(x, now, r)
  {
    if n == 0 then {}
    else
      var roll: nat := n - 1;
      FiringRolls(x, now, roll) + if Fires(x, now, roll) then {roll} else {}
  }

  lemma FiresIff(x: Injector, now: int, roll: nat)
    ensures Fires(x, now, roll) <==> Armed(x, now) && (x.config.probability >= 100 || roll < x.config.probability)
  {
    AnswersIff(x, now, roll);
  }

  lemma {:induction false} FiringRollsBelow(x: Injector, now: int, n: nat)
    ensures |FiringRolls(x, now, n)| ==
            if !Armed(x, now) then 0 else if x.config.probability < 100 && x.config.probability < n
            then x.config.probability else n
  {
    hide Fires, Armed;
    if n > 0 {
      var roll: nat := n - 1;
      FiringRollsBelow(x, now, roll);
      FiresIff(x, now, roll);
    }
  }

  /** Of the hundred rolls an armed injector fires on as many as its probability says. */
  lemma HundredRolls(x: Injector, now: int)
    ensures forall r: nat :: r in FiringRolls(x, now, 100) <==> r < 100 && ShouldInjectStep(x, now, r).1
    ensures |FiringRolls(x, now, 100)| ==
            if !Armed(x, now) then 0 else if x.config.probability < 100 then x.config.probability else 100
  {
    FiringRollsBelow(x, now, 100);
    hide Armed, ShouldInjectStep, FiringRolls;
  }

  /** What injecting does: an expired or disabled injector refuses and stays as it is; any other counts one
      fault more and reports it. It expires at its limit; short of that a Once injector is Triggered. */
  ghost predicate IsInjection(x: Injector, context: string, y: Injector, r: Option<Event>) {
    if x.state == Expired || !x.config.enabled then y == x && r == None
    else
      && y.config == x.config && y.activationTime == x.activationTime
      && y.triggerCount == (if x.triggerCount == 0xFFFF_FFFF then 0 else x.triggerCount + 1)
      && (x.config.maxTriggers != 0 && y.triggerCount >= x.config.maxTriggers ==> y.state == Expired)
      && (x.config.maxTriggers == 0 || y.triggerCount < x.config.maxTriggers ==>
            y.state == if x.config.scope == Once then Triggered else x.state)
      && r.Some? && r.value.type_ == x.config.type_
      && (context == "" ==> r.value.description == "Fault injected")
      && (context != "" ==> r.value.description == context)
  }

  lemma InjectsSo(x: Injector, context: string)
    ensures var (y, r) := InjectStep(x, context); IsInjection(x, context, y, r)
  {
  }

  /** A new lease: no fault counted, the clock read again, active exactly if enabled. */
  ghost predicate IsFresh(x: Injector, config: Config, now: int) {
    && x.config == config && x.triggerCount == 0 && x.activationTime == now
    && (config.enabled ==> x.state == Active) && (!config.enabled ==> x.state == Inactive)
  }

  // ----- interleavings -----

  datatype Op =
    | DoConfigure(config: Config, now: int)
    | DoShouldInject(now: int, roll: nat)
    | DoInject(context: string)
    | DoReset(now: int)

  function Step(x: Injector, op: Op): Injector {
    match op
    case DoConfigure(config, now) => ConfigureStep(config, now)
    case DoShouldInject(now, roll) => ShouldInjectStep(x, now, roll).0
    case DoInject(context) => InjectStep(x, context).0
    case DoReset(now) => ResetStep(x, now)
  }

  ghost function Run(x: Injector, ops: seq<Op>): Injector {
    if ops == [] then x else Step(Run(x, ops[..|ops| - 1]), ops[|ops| - 1])
  }

  /** Faults since the last reset or configure, after one more step. */
  ghost function CountStep(x: Injector, t: nat, op: Op): nat {
    match op
    case DoConfigure(_, _) => 0
    case DoReset(_) => 0
    case DoShouldInject(_, _) => t
    case DoInject(context) => if InjectStep(x, context).1.Some? then t + 1 else t
  }

  /** Faults injected since the last reset or configure, counted from the history. */
  ghost function Triggers(x: Injector, ops: seq<Op>): nat {
    if ops == [] then 0
    else
      var before := ops[..|ops| - 1];
      CountStep(Run(x, before), Triggers(x, before), ops[|ops| - 1])
  }

  /** The counter is t, up to 32-bit wrap-around; with a non-zero limit it has not passed the
      limit, and at the limit the injector has expired. */
  ghost predicate Tracks(x: Injector, t: nat) {
    && x.triggerCount == t % TWO32
    && (x.config.maxTriggers > 0 ==> t <= x.config.maxTriggers)
    && (x.config.maxTriggers > 0 && t == x.config.maxTriggers ==> x.state == Expired)
  }

  lemma StepTracks(x: Injector, t: nat, op: Op)
    requires Tracks(x, t)
    ensures Tracks(Step(x, op), CountStep(x, t, op))
  {
    if op.DoInject? && InjectStep(x, op.context).1.Some? {
      assert (t % TWO32 + 1) % TWO32 == (t + 1) % TWO32;
    }
  }

  /** Over every interleaving the counter is the number of faults since the last reset, and a
      non-zero limit is never exceeded. */
  lemma {:induction false} TriggersWithinLimit(ops: seq<Op>)
    ensures Tracks(Run(NEW_INJECTOR, ops), Triggers(NEW_INJECTOR, ops))
    decreases |ops|
  {
    assert Tracks(NEW_INJECTOR, 0);
    hide Tracks, Step, CountStep;
    if ops != [] {
      var before := ops[..|ops| - 1];
      TriggersWithinLimit(before);
      StepTracks(Run(NEW_INJECTOR, before), Triggers(NEW_INJECTOR, before), ops[|ops| - 1]);
    }
  }

  predicate Restarts(op: Op) {
    op.DoConfigure? || op.DoReset?
  }

  /** An expired injector stays expired, injects nothing and never answers yes, until it is reset
      or configured. */
  lemma {:induction false} ExpiredLasts(x: Injector, ops: seq<Op>, context: string, now: int, roll: nat)
    requires x.state == Expired && forall i :: 0 <= i < |ops| ==> !Restarts(ops[i])
    ensures Run(x, ops) == x
    ensures InjectStep(Run(x, ops), context).1 == None && !ShouldInjectStep(Run(x, ops), now, roll).1
    decreases |ops|
  {
    if ops != [] {
      ExpiredLasts(x, ops[..|ops| - 1], context, now, roll);
      assert !Restarts(ops[|ops| - 1]);
    }
  }

  /** A non-zero limit, once reached, expires the injector. */
  lemma LimitExpires(ops: seq<Op>)
    requires Triggers(NEW_INJECTOR, ops) == Run(NEW_INJECTOR, ops).config.maxTriggers > 0
    ensures Run(NEW_INJECTOR, ops).state == Expired
  {
    TriggersWithinLimit(ops);
  }

  // ----- the injector object -----

  class FaultInjector {
    var config: Config
    var triggerCount: uint32
    var currentState: State
    var activationTime: int

    ghost function View(): Injector
      reads this
    {
      Injector(config, triggerCount, currentState, activationTime)
    }

    constructor ()
      ensures View() == NEW_INJECTOR
    {
      config := NEW_INJECTOR.config;
      triggerCount, currentState, activationTime := 0, Inactive, 0;
    }

    method Configure(c: Config, now: int)
      modifies this
      ensures View() == Step(old(View()), DoConfigure(c, now))
      ensures IsFresh(View(), c, now)
    {
      config := c;
      triggerCount := 0;
      currentState := if c.enabled then Active else Inactive;
      activationTime := now;
    }

    method ShouldInject(now: int, roll: nat) returns (yes: bool)
      modifies this`currentState
      ensures (View(), yes) == ShouldInjectStep(old(View()), now, roll)
      ensures IsAnswer(old(View()), now, roll, View(), yes)
    {
      if !config.enabled {
        return false;
      }
      if currentState == Expired {
        return false;
      }
      if config.scope == Once {
        if triggerCount >= 1 {
          return false;
        }
        return ProbabilityCheck(config.probability, roll);
      }
      if config.scope == Persistent || config.scope == Random {
        if config.maxTriggers > 0 && triggerCount >= config.maxTriggers {
          return false;
        }
        return ProbabilityCheck(config.probability, roll);
      }
      var elapsed := now - activationTime;
      if config.duration > 0 && elapsed >= config.duration {
        currentState := Expired;
        return false;
      }
      yes := ProbabilityCheck(config.probability, roll);
    }

    method Inject(context: string) returns (r: Option<Event>)
      modifies this`triggerCount, this`currentState
      ensures (View(), r) == InjectStep(old(View()), context)
      ensures IsInjection(old(View()), context, View(), r)
    {
      if currentState == Expired {
        return None;
      }
      if !config.enabled {
        return None;
      }
      triggerCount := (triggerCount + 1) % TWO32;
      r := Some(Event(config.type_, if context == "" then "Fault injected" else context));
      if config.scope == Once {
        currentState := Triggered;
      }
      if config.maxTriggers > 0 && triggerCount >= config.maxTriggers {
        currentState := Expired;
      }
    }

    method Reset(now: int)
      modifies this
      ensures View() == Step(old(View()), DoReset(now))
      ensures IsFresh(View(), old(config), now)
    {
      triggerCount := 0;
      currentState := if config.enabled then Active else Inactive;
      activationTime := now;
    }
  }
}
