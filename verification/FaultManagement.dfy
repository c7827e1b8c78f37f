/** FaultManager: owns its injectors and logs what they fire. Each method runs under the
    manager's lock; which injector is asked first, and every clock reading and random roll,
    is an arbitrary choice. */
module FaultManagement {
  import opened Bytes
  import opened FaultInjection
  import opened Wrappers

  datatype Manager = Manager(injectors: map<string, Injector>, log: seq<Event>)

  // ----- one injectFault call -----

  /** Asked and not fired: at most its timer has expired it. */
  ghost predicate Asked(x: Injector, y: Injector) {
    y == x || (x.config.scope == Timed && y == x.(state := Expired))
  }

  /** Conditions without which the injector cannot fire. */
  predicate MayFire(x: Injector) {
    && x.config.enabled && x.state != Expired && x.config.probability > 0
    && (x.config.scope == Once ==> x.triggerCount == 0)
    && ((x.config.scope == Persistent || x.config.scope == Random) ==> !LimitReached(x))
  }

  /** Conditions under which the injector fires whatever the clock and the dice say. */
  predicate MustFire(x: Injector) {
    MayFire(x) && x.config.probability >= 100 && (x.config.scope == Timed ==> x.config.duration == 0)
  }

  /** The effect of injectFault; `who` names the injector that fired, if one did. */
  ghost predicate Injected(m: Manager, type_: nat, context: string, m': Manager, who: Option<string>) {
    && m'.injectors.Keys == m.injectors.Keys
    && (forall n :: n in m.injectors && who != Some(n) ==> Asked(m.injectors[n], m'.injectors[n]))
    && (who == None ==>
          && m'.log == m.log
          && forall n :: n in m.injectors && m.injectors[n].config.type_ == type_ ==> !MustFire(m.injectors[n]))
    && (who.Some? ==>
          && who.value in m.injectors
          && m.injectors[who.value].config.type_ == type_
          && MayFire(m.injectors[who.value])
          && InjectStep(m.injectors[who.value], context).1.Some?
          && m'.injectors[who.value] == InjectStep(m.injectors[who.value], context).0
          && m'.log == m.log + [InjectStep(m.injectors[who.value], context).1.value])
  }

  // ----- runs -----

  datatype Op =
    | Register(name: string, injector: Injector)
    | Unregister(name: string)
    | InjectFault(type_: nat, context: string)
    | ClearEvents
    | ResetAll

  ghost predicate Next(m: Manager, op: Op, m': Manager, who: Option<string>) {
    match op
    case Register(name, x) =>
      who == None && m' == if name in m.injectors then m else m.(injectors := m.injectors[name := x])
    case Unregister(name) => who == None && m' == m.(injectors := m.injectors - {name})
    case InjectFault(type_, context) => Injected(m, type_, context, m', who)
    case ClearEvents => who == None && m' == m.(log := [])
    case ResetAll =>
      && who == None && m'.log == [] && m'.injectors.Keys == m.injectors.Keys
      && forall n :: n in m.injectors ==> exists now :: m'.injectors[n] == ResetStep(m.injectors[n], now)
  }

  /** A run: the states passed through, the calls made and who fired in each. */
  ghost predicate IsRun(ms: seq<Manager>, ops: seq<Op>, whos: seq<Option<string>>) {
    && |ms| == |ops| + 1 && |whos| == |ops|
    && forall i :: 0 <= i < |ops| ==> Next(ms[i], ops[i], ms[i + 1], whos[i])
  }

  ghost function Fires(whos: seq<Option<string>>, name: string): nat {
    if whos == [] then 0
    else Fires(whos[..|whos| - 1], name) + (if whos[|whos| - 1] == Some(name) then 1 else 0)
  }

  ghost function FiredOps(ops: seq<Op>, whos: seq<Option<string>>): seq<Op>
    requires |ops| == |whos|
  {
    if ops == [] then []
    else
      var n := |ops| - 1;
      FiredOps(ops[..n], whos[..n]) + (if whos[n].Some? then [ops[n]] else [])
  }

  lemma RunPrefix(ms: seq<Manager>, ops: seq<Op>, whos: seq<Option<string>>)
    requires IsRun(ms, ops, whos) && ops != []
    ensures IsRun(ms[..|ops|], ops[..|ops| - 1], whos[..|ops| - 1])
  {
    hide Next;
    var n := |ops| - 1;
    forall i | 0 <= i < n
      ensures Next(ms[..|ops|][i], ops[..n][i], ms[..|ops|][i + 1], whos[..n][i])
    {
      assert Next(ms[i], ops[i], ms[i + 1], whos[i]);
    }
  }

  predicate KeepsLog(op: Op) {
    !op.ClearEvents? && !op.ResetAll?
  }

  /** Between log resets the log gains exactly one event per fault fired, in order and each of
      the type its call asked for. */
  lemma {:induction false} OneEventPerTrigger(ms: seq<Manager>, ops: seq<Op>, whos: seq<Option<string>>)
    requires IsRun(ms, ops, whos)
    requires forall i :: 0 <= i < |ops| ==> KeepsLog(ops[i])
    ensures var fired := FiredOps(ops, whos);
            var log := ms[|ops|].log;
            && |log| == |ms[0].log| + |fired|
            && log[..|ms[0].log|] == ms[0].log
            && forall i :: 0 <= i < |fired| ==>
                 fired[i].InjectFault? && log[|ms[0].log| + i].type_ == fired[i].type_
    decreases |ops|
  {
    if ops != [] {
      var n := |ops| - 1;
      RunPrefix(ms, ops, whos);
      OneEventPerTrigger(ms[..|ops|], ops[..n], whos[..n]);
      assert Next(ms[n], ops[n], ms[n + 1], whos[n]) && KeepsLog(ops[n]);
    }
  }

  predicate Keeps(op: Op, name: string) {
    !op.ResetAll? && op != Unregister(name)
  }

  /** One call keeps an injector's configuration, and its counter unless it is the one that fires. */
  lemma CallOnOne(m: Manager, op: Op, m': Manager, who: Option<string>, name: string)
    requires Next(m, op, m', who) && Keeps(op, name) && name in m.injectors
    ensures name in m'.injectors && m'.injectors[name].config == m.injectors[name].config
    ensures who != Some(name) ==> m'.injectors[name].triggerCount == m.injectors[name].triggerCount
    ensures who == Some(name) ==>
              && MayFire(m.injectors[name])
              && m'.injectors[name].triggerCount == (m.injectors[name].triggerCount + 1) % TWO32
  {
    if op.InjectFault? && who != Some(name) {
      assert Asked(m.injectors[name], m'.injectors[name]);
    }
  }

  /** Driven only through the manager, a Once injector fires at most once between resets. */
  lemma {:induction false} OnceFiresOnce(ms: seq<Manager>, ops: seq<Op>, whos: seq<Option<string>>, name: string)
    requires IsRun(ms, ops, whos)
    requires forall i :: 0 <= i < |ops| ==> Keeps(ops[i], name)
    requires name in ms[0].injectors && ms[0].injectors[name].config.scope == Once
    ensures name in ms[|ops|].injectors && ms[|ops|].injectors[name].config.scope == Once
    ensures Fires(whos, name) <= 1
    ensures Fires(whos, name) == 1 ==> ms[0].injectors[name].triggerCount == 0
    ensures ms[|ops|].injectors[name].triggerCount == ms[0].injectors[name].triggerCount + Fires(whos, name)
    decreases |ops|
  {
    if ops != [] {
      var n := |ops| - 1;
      RunPrefix(ms, ops, whos);
      OnceFiresOnce(ms[..|ops|], ops[..n], whos[..n], name);
      assert Next(ms[n], ops[n], ms[n + 1], whos[n]) && Keeps(ops[n], name);
      CallOnOne(ms[n], ops[n], ms[n + 1], whos[n], name);
    }
  }

  // ----- the manager object -----

  lemma AskedFacts(x: Injector, now: int, roll: nat, context: string)
    requires roll < 100
    ensures var (y, yes) := ShouldInjectStep(x, now, roll);
            && Asked(x, y)
            && (yes ==> y == x && MayFire(x) && InjectStep(x, context).1.Some?)
            && (!yes ==> !MustFire(x))
  {
  }

  class FaultManager {
    var injectors: map<string, Injector>
    var allEvents: seq<Event>

    ghost function View(): Manager
      reads this
    {
      Manager(injectors, allEvents)
    }

    constructor ()
      ensures View() == Manager(map[], [])
    {
      injectors, allEvents := map[], [];
    }

    method RegisterInjector(name: string, injector: Injector) returns (ok: bool)
      modifies this`injectors
      ensures Next(old(View()), Register(name, injector), View(), None)
      ensures ok <==> name !in old(injectors)
    {
      if name in injectors {
        return false;
      }
      injectors := injectors[name := injector];
      ok := true;
    }

    method UnregisterInjector(name: string) returns (ok: bool)
      modifies this`injectors
      ensures Next(old(View()), Unregister(name), View(), None)
      ensures ok <==> name in old(injectors)
    {
      if name !in injectors {
        assert injectors - {name} == injectors;
        return false;
      }
      injectors := injectors - {name};
      ok := true;
    }

    method InjectFault(type_: nat, context: string) returns (ghost who: Option<string>)
      modifies this
      ensures Next(old(View()), Op.InjectFault(type_, context), View(), who)
    {
      var todo := injectors.Keys;
      ghost var m := old(injectors);
      while todo != {}
        invariant allEvents == old(allEvents)
        invariant injectors.Keys == m.Keys && todo <= m.Keys
        invariant forall n :: n in todo ==> injectors[n] == m[n]
        invariant forall n :: n in m ==> Asked(m[n], injectors[n])
        invariant forall n :: n in m.Keys - todo && m[n].config.type_ == type_ ==> !MustFire(m[n])
      {
        var name :| name in todo;
        todo := todo - {name};
        if injectors[name].config.type_ == type_ {
          var now: int, roll: nat := *, *;
          roll := roll % 100;
          AskedFacts(m[name], now, roll, context);
          var (asked, yes) := ShouldInjectStep(injectors[name], now, roll);
          injectors := injectors[name := asked];
          if yes {
            var (fired, event) := InjectStep(injectors[name], context);
            if event.Some? {
              injectors := injectors[name := fired];
              allEvents := allEvents + [event.value];
              who := Some(name);
              return;
            }
          }
        }
      }
      who := None;
    }

    method ClearEvents()
      modifies this`allEvents
      ensures Next(old(View()), Op.ClearEvents, View(), None)
    {
      allEvents := [];
    }

    method ResetAll()
      modifies this
      ensures Next(old(View()), Op.ResetAll, View(), None)
    {
      var todo := injectors.Keys;
      ghost var m := old(injectors);
      while todo != {}
        invariant injectors.Keys == m.Keys && todo <= m.Keys
        invariant forall n :: n in todo ==> injectors[n] == m[n]
        invariant forall n :: n in m.Keys - todo ==> exists now :: injectors[n] == ResetStep(m[n], now)
      {
        var name :| name in todo;
        todo := todo - {name};
        var now: int := *;
        injectors := injectors[name := ResetStep(injectors[name], now)];
      }
      allEvents := [];
    }
  }
}
