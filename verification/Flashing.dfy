/** Flash plans (FlashPlan.cpp) and the job queue their execution builds (FirmwareExecutor.cpp). */
module Flashing {
  import opened Bytes
  import opened Sequences

  datatype ImageKind = Programmer | Gpt | Ordinary

  datatype Image = Image(name: string, kind: ImageKind, partitionName: string, size: uint64, data: Buffer) {
    function Partition(): string {
      if partitionName == "" then name else partitionName
    }
  }

  datatype StepKind = FlashProgrammer | UpdateGpt | FlashPartition | VerifyPartition | ErasePartition | Reboot

  datatype Step = Step(kind: StepKind, partition: string, size: uint64, data: Buffer, optional: bool)

  datatype Plan = Plan(steps: seq<Step>, requireProgrammer: bool, requireGptUpdate: bool, totalBytes: uint64)

  datatype Job =
    | GptUpdate(id: string)
    | Flash(id: string, partition: string, data: Buffer)
    | Verify(id: string, partition: string, data: Buffer)
    | Erase(id: string, partition: string)

  datatype Status = Done | Cancelled | InvalidFormat

  // ----- plans -----

  predicate Has(images: seq<Image>, kind: ImageKind) {
    exists i :: 0 <= i < |images| && images[i].kind == kind
  }

  /** The images that are flashed as partitions, in order. */
  function Ordinaries(images: seq<Image>): seq<Image> {
    if images == [] then []
    else
      var last := images[|images| - 1];
      Ordinaries(images[..|images| - 1]) + (if last.kind.Ordinary? then [last] else [])
  }

  lemma {:induction false} AnyOrdinary(images: seq<Image>)
    ensures Ordinaries(images) != [] <==> Has(images, Ordinary)
  {
    if images != [] {
      var front := images[..|images| - 1];
      AnyOrdinary(front);
      assert forall i :: 0 <= i < |front| ==> front[i] == images[i];
    }
  }

  function FlashStep(img: Image): Step {
    Step(FlashPartition, img.Partition(), img.size, img.data, false)
  }

  function VerifyStep(img: Image): Step {
    Step(VerifyPartition, img.Partition(), img.size, img.data, true)
  }

  function ProgrammerStep(): Step {
    Step(FlashProgrammer, "", 0, [], false)
  }

  function GptStep(): Step {
    Step(UpdateGpt, "", 0, [], false)
  }

  function FlashSteps(images: seq<Image>): seq<Step> {
    seq(|images|, i requires 0 <= i < |images| => FlashStep(images[i]))
  }

  function VerifySteps(images: seq<Image>): seq<Step> {
    seq(|images|, i requires 0 <= i < |images| => VerifyStep(images[i]))
  }

  function LeadSteps(images: seq<Image>): seq<Step> {
    (if Has(images, Programmer) then [ProgrammerStep()] else []) + (if Has(images, Gpt) then [GptStep()] else [])
  }

  function PlanSteps(images: seq<Image>): seq<Step> {
    LeadSteps(images) + FlashSteps(Ordinaries(images)) + VerifySteps(Ordinaries(images))
  }

  function TotalSize(images: seq<Image>): nat {
    if images == [] then 0 else TotalSize(images[..|images| - 1]) + images[|images| - 1].size
  }

  /** The partition an image is for: the one it names, or else its own name. */
  function Target(img: Image): string {
    if |img.partitionName| > 0 then img.partitionName else img.name
  }

  predicate FlashesImage(s: Step, img: Image) {
    s.kind == FlashPartition && s.partition == Target(img) && s.size == img.size && s.data == img.data && !s.optional
  }

  predicate VerifiesImage(s: Step, img: Image) {
    s.kind == VerifyPartition && s.partition == Target(img) && s.size == img.size && s.data == img.data && s.optional
  }

  /** A required step that carries nothing. */
  predicate IsBare(s: Step, kind: StepKind) {
    s.kind == kind && s.partition == "" && s.size == 0 && |s.data| == 0 && !s.optional
  }

  /** A programmer step if there is a programmer, a GPT step if there is a GPT, then a flash step per ordinary
      image and a verify step per ordinary image. */
  ghost predicate IsPlan(steps: seq<Step>, images: seq<Image>) {
    var p := if exists img :: img in images && img.kind == Programmer then 1 else 0;
    var l := p + if exists img :: img in images && img.kind == Gpt then 1 else 0;
    var ordinary := Ordinaries(images);
    && |steps| == l + |ordinary| + |ordinary|
    && (p == 1 ==> IsBare(steps[0], FlashProgrammer))
    && (l > p ==> IsBare(steps[p], UpdateGpt))
    && (forall k :: 0 <= k < |ordinary| ==> FlashesImage(steps[l + k], ordinary[k]))
    && (forall k :: 0 <= k < |ordinary| ==> VerifiesImage(steps[l + |ordinary| + k], ordinary[k]))
  }

  lemma ImageSteps(images: seq<Image>)
    ensures |FlashSteps(images)| == |VerifySteps(images)| == |images|
    ensures forall k :: 0 <= k < |images| ==> FlashesImage(FlashSteps(images)[k], images[k])
    ensures forall k :: 0 <= k < |images| ==> VerifiesImage(VerifySteps(images)[k], images[k])
  {
  }

  lemma HasIff(images: seq<Image>, kind: ImageKind)
    ensures Has(images, kind) <==> exists img :: img in images && img.kind == kind
  {
  }

  lemma LeadIs(images: seq<Image>)
    ensures var p := if exists img :: img in images && img.kind == Programmer then 1 else 0;
            var l := p + if exists img :: img in images && img.kind == Gpt then 1 else 0;
            var lead := LeadSteps(images);
            && |lead| == l
            && (p == 1 ==> IsBare(lead[0], FlashProgrammer))
            && (l > p ==> IsBare(lead[p], UpdateGpt))
  {
    HasIff(images, Programmer);
    HasIff(images, Gpt);
    hide Has;
  }

  lemma PlanFrom(steps: seq<Step>, lead: seq<Step>, f: seq<Step>, v: seq<Step>, images: seq<Image>)
    requires Joins(steps, lead, f, v) && lead == LeadSteps(images)
    requires f == FlashSteps(Ordinaries(images)) && v == VerifySteps(Ordinaries(images))
    ensures IsPlan(steps, images)
  {
    hide Ordinaries, FlashSteps, VerifySteps, FlashesImage, VerifiesImage, LeadSteps;
    var ordinary := Ordinaries(images);
    LeadIs(images);
    ImageSteps(ordinary);
    forall k | 0 <= k < |ordinary|
      ensures FlashesImage(steps[|lead| + k], ordinary[k]) && VerifiesImage(steps[|lead| + |ordinary| + k], ordinary[k])
    {
      assert steps[|lead| + k] == f[k] && steps[|lead| + |f| + k] == v[k];
    }
  }

  lemma PlanIs(images: seq<Image>)
    ensures IsPlan(PlanSteps(images), images)
  {
    hide IsPlan, LeadSteps, FlashSteps, VerifySteps, Ordinaries, Joins;
    var lead, f, v := LeadSteps(images), FlashSteps(Ordinaries(images)), VerifySteps(Ordinaries(images));
    Joined(lead, f, v);
    PlanFrom(lead + f + v, lead, f, v, images);
  }

  method FindKind(images: seq<Image>, kind: ImageKind) returns (found: bool)
    ensures found <==> Has(images, kind)
  {
    found := false;
    for i := 0 to |images|
      invariant found <==> Has(images[..i], kind)
    {
      assert images[..i + 1] == images[..i] + [images[i]];
      if images[i].kind == kind {
        assert images[..i + 1][i].kind == kind;
        found := true;
      } else if found {
        var j :| 0 <= j < i && images[..i][j].kind == kind;
        assert images[..i + 1][j].kind == kind;
      }
    }
    assert images[..|images|] == images;
  }

  /** The byte total is the sum of the sizes of the ordinary images modulo 2^64. */
  method GeneratePlan(images: seq<Image>) returns (plan: Plan)
    ensures plan.steps == PlanSteps(images) && IsPlan(plan.steps, images)
    ensures plan.requireProgrammer == Has(images, Programmer) && plan.requireGptUpdate == Has(images, Gpt)
    ensures plan.totalBytes == Wrap64(TotalSize(Ordinaries(images)))
  {
    var steps: seq<Step> := [];
    var programmer := FindKind(images, Programmer);
    if programmer {
      steps := [ProgrammerStep()] + steps;
    }
    var gpt := FindKind(images, Gpt);
    if gpt {
      var at := if programmer then 1 else 0;
      steps := steps[..at] + [GptStep()] + steps[at..];
    }
    assert steps == LeadSteps(images);
    var total: uint64;
    steps, total := AddFlashSteps(images, steps);
    steps := AddVerifySteps(images, steps);
    PlanIs(images);
    hide IsPlan;
    plan := Plan(steps, programmer, gpt, total);
  }

  lemma NextImage(images: seq<Image>, i: nat)
    requires i < |images|
    ensures Ordinaries(images[..i + 1]) ==
            Ordinaries(images[..i]) + (if images[i].kind.Ordinary? then [images[i]] else [])
  {
    assert images[..i + 1][..i] == images[..i];
  }

  lemma AppendImage(before: seq<Step>, done: seq<Image>, img: Image)
    ensures before + FlashSteps(done + [img]) == before + FlashSteps(done) + [FlashStep(img)]
    ensures before + VerifySteps(done + [img]) == before + VerifySteps(done) + [VerifyStep(img)]
  {
  }

  lemma AppendSize(done: seq<Image>, img: Image)
    ensures Wrap64(TotalSize(done + [img])) == Add64(Wrap64(TotalSize(done)), img.size)
  {
    assert (done + [img])[..|done|] == done;
    Add64Wrapped(TotalSize(done), img.size);
  }

  method AddFlashSteps(images: seq<Image>, before: seq<Step>) returns (steps: seq<Step>, total: uint64)
    ensures steps == before + FlashSteps(Ordinaries(images))
    ensures total == Wrap64(TotalSize(Ordinaries(images)))
  {
    steps, total := before, 0;
    ghost var done: seq<Image> := [];
    for i := 0 to |images|
      invariant done == Ordinaries(images[..i])
      invariant steps == before + FlashSteps(done) && total == Wrap64(TotalSize(done))
    {
      hide *;
      NextImage(images, i);
      if images[i].kind.Ordinary? {
        AppendImage(before, done, images[i]);
        AppendSize(done, images[i]);
        steps := steps + [FlashStep(images[i])];
        total := Add64(total, images[i].size);
        done := done + [images[i]];
      }
    }
    assert images[..|images|] == images;
    hide *;
  }

  method AddVerifySteps(images: seq<Image>, before: seq<Step>) returns (steps: seq<Step>)
    ensures steps == before + VerifySteps(Ordinaries(images))
  {
    steps := before;
    ghost var done: seq<Image> := [];
    for i := 0 to |images|
      invariant done == Ordinaries(images[..i]) && steps == before + VerifySteps(done)
    {
      hide *;
      NextImage(images, i);
      if images[i].kind.Ordinary? {
        AppendImage(before, done, images[i]);
        steps := steps + [VerifyStep(images[i])];
        done := done + [images[i]];
      }
    }
    assert images[..|images|] == images;
    hide *;
  }

  // ----- execution -----

  function FlashJob(partition: string, data: Buffer): Job {
    Flash("fw_flash_" + partition, partition, data)
  }

  function VerifyJob(partition: string, data: Buffer): Job {
    Verify("fw_verify_" + partition, partition, data)
  }

  function GptJob(): Job {
    GptUpdate("fw_gpt_update")
  }

  datatype Creation = Creation(jobs: seq<Job>, ok: bool)

  /** What one step adds to the queue; device says whether a flash device is attached. */
  function Create(step: Step, device: bool): Creation {
    match step.kind
    case FlashProgrammer => Creation([], true)
    case UpdateGpt => if device then Creation([GptJob()], true) else Creation([], false)
    case FlashPartition =>
      if device && step.data != [] then Creation([FlashJob(step.partition, step.data)], true) else Creation([], false)
    case VerifyPartition =>
      if device && step.data != [] then Creation([VerifyJob(step.partition, step.data)], true) else Creation([], true)
    case ErasePartition =>
      if device then Creation([Erase("fw_erase_" + step.partition, step.partition)], true) else Creation([], false)
    case Reboot => Creation([], true)
  }

  datatype Outcome = Outcome(jobs: seq<Job>, status: Status, created: nat, failed: nat)

  function Then(a: Outcome, b: Outcome): Outcome {
    Outcome(a.jobs + b.jobs, b.status, a.created + b.created, a.failed + b.failed)
  }

  lemma ThenAssociative(a: Outcome, b: Outcome, c: Outcome)
    ensures Then(Then(a, b), c) == Then(a, Then(b, c))
  {
  }

  function OneStep(step: Step, device: bool): Outcome {
    var c := Create(step, device);
    if c.ok then Outcome(c.jobs, Done, 1, 0)
    else if step.optional then Outcome(c.jobs, Done, 1, 1)
    else Outcome(c.jobs, InvalidFormat, 0, 1)
  }

  /** The whole loop; the cancel flag is polled before every step and the first `clear` polls find it down. */
  function Run(steps: seq<Step>, device: bool, clear: nat): Outcome
    decreases |steps|
  {
    if steps == [] then Outcome([], Done, 0, 0)
    else if clear == 0 then Outcome([], Cancelled, 0, 0)
    else
      var first := OneStep(steps[0], device);
      if first.status != Done then first else Then(first, Run(steps[1..], device, clear - 1))
  }

  /** The first poll comes before the loop. */
  function RunPlan(steps: seq<Step>, device: bool, clear: nat): Outcome {
    if clear == 0 then Outcome([], Cancelled, 0, 0) else Run(steps, device, clear - 1)
  }

  lemma RunNext(steps: seq<Step>, i: nat, device: bool, clear: nat)
    requires i < |steps|
    ensures var here := Run(steps[i..], device, clear);
            if clear == 0 then here == Outcome([], Cancelled, 0, 0)
            else if OneStep(steps[i], device).status != Done then here == OneStep(steps[i], device)
            else here == Then(OneStep(steps[i], device), Run(steps[i + 1..], device, clear - 1))
  {
    assert steps[i..][1..] == steps[i + 1..];
  }

  lemma RunUpTo(so: Outcome, steps: seq<Step>, i: nat, device: bool, clear: nat)
    requires i < |steps|
    ensures var here := Then(so, Run(steps[i..], device, clear));
            if clear == 0 then here == Then(so, Outcome([], Cancelled, 0, 0))
            else if OneStep(steps[i], device).status != Done then here == Then(so, OneStep(steps[i], device))
            else here == Then(Then(so, OneStep(steps[i], device)), Run(steps[i + 1..], device, clear - 1))
  {
    hide Run, OneStep, Then;
    RunNext(steps, i, device, clear);
    if clear > 0 {
      ThenAssociative(so, OneStep(steps[i], device), Run(steps[i + 1..], device, clear - 1));
    }
  }

  lemma RunNothing(steps: seq<Step>, device: bool, clear: nat)
    requires steps == []
    ensures Run(steps, device, clear) == Outcome([], Done, 0, 0)
  {
  }

  /** What a part of the run leaves behind, on top of the jobs that were there before. */
  ghost predicate Shows(o: Outcome, before: seq<Job>, jobs: seq<Job>, created: nat, failed: nat, status: Status) {
    jobs == before + o.jobs && created == o.created && failed == o.failed && status == o.status
  }

  lemma ShowsNext(so: Outcome, one: Outcome, before: seq<Job>, jobs: seq<Job>, created: nat, failed: nat)
    requires Shows(so, before, jobs, created, failed, Done)
    ensures Shows(Then(so, one), before, jobs + one.jobs, created + one.created, failed + one.failed, one.status)
    ensures jobs + [] == jobs
  {
    assert (before + so.jobs) + one.jobs == before + (so.jobs + one.jobs);
  }

  lemma RunStart(steps: seq<Step>, device: bool, clear: nat, before: seq<Job>)
    ensures var none := Outcome([], Done, 0, 0);
            && Run(steps, device, clear) == Then(none, Run(steps[0..], device, clear))
            && Shows(none, before, before, 0, 0, Done)
  {
    assert steps[0..] == steps;
    assert before + [] == before;
    assert Shows(Outcome([], Done, 0, 0), before, before, 0, 0, Done);
    hide *;
    ThenFirst(Run(steps, device, clear));
  }

  lemma ThenFirst(o: Outcome)
    ensures Then(Outcome([], Done, 0, 0), o) == o
  {
    assert [] + o.jobs == o.jobs;
  }

  // ----- what a generated plan queues -----

  lemma {:induction false} RunConcat(a: seq<Step>, b: seq<Step>, device: bool, clear: nat)
    requires |a| <= clear && Run(a, device, clear).status == Done
    ensures Run(a + b, device, clear) == Then(Run(a, device, clear), Run(b, device, clear - |a|))
    decreases |a|
  {
    hide OneStep;
    if a == [] {
      assert a + b == b;
    } else {
      assert (a + b)[0] == a[0] && (a + b)[1..] == a[1..] + b;
      RunConcat(a[1..], b, device, clear - 1);
      ThenAssociative(OneStep(a[0], device), Run(a[1..], device, clear - 1), Run(b, device, clear - |a|));
    }
  }

  function FlashJobs(images: seq<Image>): seq<Job> {
    seq(|images|, i requires 0 <= i < |images| => FlashJob(images[i].Partition(), images[i].data))
  }

  function VerifyJobs(images: seq<Image>): seq<Job> {
    seq(|images|, i requires 0 <= i < |images| => VerifyJob(images[i].Partition(), images[i].data))
  }

  /** How many of the leading images have data: all of them, or those before the first that has none. */
  function Loaded(images: seq<Image>): (n: nat)
    ensures n <= |images|
    ensures forall i :: 0 <= i < n ==> images[i].data != []
    ensures n < |images| ==> images[n].data == []
  {
    if images == [] || images[0].data == [] then 0 else 1 + Loaded(images[1..])
  }

  /** What flashing the images one after the other leads to, with `rest` following if all have data. */
  function Flashed(images: seq<Image>, rest: Outcome): Outcome {
    var n := Loaded(images);
    if n == |images| then Then(Outcome(FlashJobs(images), Done, n, 0), rest)
    else Outcome(FlashJobs(images[..n]), InvalidFormat, n, 1)
  }

  lemma FlashedStep(images: seq<Image>, rest: Outcome)
    requires images != []
    ensures var first := OneStep(FlashStep(images[0]), true);
            Flashed(images, rest) == if first.status == Done then Then(first, Flashed(images[1..], rest)) else first
  {
    var job := FlashJob(images[0].Partition(), images[0].data);
    if images[0].data != [] {
      var n := Loaded(images);
      assert n == 1 + Loaded(images[1..]);
      assert FlashJobs(images) == [job] + FlashJobs(images[1..]);
      assert FlashJobs(images[..n]) == [job] + FlashJobs(images[1..][..n - 1]);
      hide Loaded, FlashJob;
    } else {
      assert Loaded(images) == 0;
      assert FlashJobs(images[..0]) == [];
    }
  }

  lemma {:induction false} RunFlashSteps(images: seq<Image>, more: seq<Step>, clear: nat)
    requires |images| + |more| <= clear
    ensures Run(FlashSteps(images) + more, true, clear) == Flashed(images, Run(more, true, clear - |images|))
    decreases |images|
  {
    var steps := FlashSteps(images) + more;
    if images == [] {
      assert steps == more;
      assert FlashJobs(images) == [];
    } else {
      hide OneStep, Flashed;
      FlashedStep(images, Run(more, true, clear - |images|));
      assert steps[0] == FlashStep(images[0]);
      assert steps[1..] == FlashSteps(images[1..]) + more;
      RunFlashSteps(images[1..], more, clear - 1);
    }
  }

  lemma {:induction false} RunVerifySteps(images: seq<Image>, clear: nat)
    requires |images| <= clear && Loaded(images) == |images|
    ensures Run(VerifySteps(images), true, clear) == Outcome(VerifyJobs(images), Done, |images|, 0)
    decreases |images|
  {
    if images != [] {
      assert VerifySteps(images)[1..] == VerifySteps(images[1..]);
      RunVerifySteps(images[1..], clear - 1);
      assert VerifyJobs(images) == [VerifyJob(images[0].Partition(), images[0].data)] + VerifyJobs(images[1..]);
    }
  }

  lemma RunLeadSteps(images: seq<Image>, clear: nat)
    requires |LeadSteps(images)| <= clear
    ensures Run(LeadSteps(images), true, clear) ==
            Outcome(if Has(images, Gpt) then [GptJob()] else [], Done, |LeadSteps(images)|, 0)
  {
    hide Has, Run, OneStep, ProgrammerStep, GptStep, GptJob;
    LeadOutcomes();
    RunNothing([], true, clear);
    if Has(images, Programmer) {
      RunOne(ProgrammerStep(), clear);
      if Has(images, Gpt) {
        RunOne(GptStep(), clear - 1);
        RunConcat([ProgrammerStep()], [GptStep()], true, clear);
      } else {
        assert LeadSteps(images) == [ProgrammerStep()];
      }
    } else if Has(images, Gpt) {
      RunOne(GptStep(), clear);
      assert LeadSteps(images) == [GptStep()];
    }
  }

  lemma LeadOutcomes()
    ensures OneStep(ProgrammerStep(), true) == Outcome([], Done, 1, 0)
    ensures OneStep(GptStep(), true) == Outcome([GptJob()], Done, 1, 0)
  {
  }

  lemma RunOne(step: Step, clear: nat)
    requires 1 <= clear && OneStep(step, true).status == Done
    ensures Run([step], true, clear) == OneStep(step, true)
  {
    hide OneStep;
    assert [step][1..] == [];
    RunNothing([step][1..], true, clear - 1);
  }

  /** With a flash device and no cancellation the queue gains the optional GPT job, then a flash job per
      ordinary image in order, then a verify job per ordinary image in the same order; if an image has no
      data, only what precedes that image. */
  lemma PlanQueue(images: seq<Image>, clear: nat)
    requires |PlanSteps(images)| < clear
    ensures var ordinary := Ordinaries(images);
            var gpt := if Has(images, Gpt) then [GptJob()] else [];
            var n := Loaded(ordinary);
            var lead := |LeadSteps(images)|;
            RunPlan(PlanSteps(images), true, clear) ==
            if n == |ordinary| then Outcome(gpt + FlashJobs(ordinary) + VerifyJobs(ordinary), Done, |PlanSteps(images)|, 0)
            else Outcome(gpt + FlashJobs(ordinary[..n]), InvalidFormat, lead + n, 1)
  {
    hide Has, Run, Ordinaries, LeadSteps, Flashed, FlashJobs, VerifyJobs;
    var polls := clear - 1;
    var ordinary := Ordinaries(images);
    var lead, tail := LeadSteps(images), FlashSteps(ordinary) + VerifySteps(ordinary);
    assert PlanSteps(images) == lead + tail;
    RunLeadSteps(images, polls);
    RunConcat(lead, tail, true, polls);
    RunFlashSteps(ordinary, VerifySteps(ordinary), polls - |lead|);
    FlashedIs(ordinary, Run(VerifySteps(ordinary), true, polls - |lead| - |ordinary|));
    if Loaded(ordinary) == |ordinary| {
      RunVerifySteps(ordinary, polls - |lead| - |ordinary|);
    }
  }

  lemma FlashedIs(images: seq<Image>, rest: Outcome)
    ensures var n := Loaded(images);
            Flashed(images, rest) ==
            if n == |images| then Outcome(FlashJobs(images) + rest.jobs, rest.status, n + rest.created, rest.failed)
            else Outcome(FlashJobs(images[..n]), InvalidFormat, n, 1)
  {
  }

  /** Cancelling earlier only shortens the queue. */
  lemma {:induction false} CancelLeavesPrefix(steps: seq<Step>, device: bool, clear: nat, later: nat)
    requires clear <= later
    ensures Run(steps, device, clear).jobs <= Run(steps, device, later).jobs
    ensures Run(steps, device, clear).status != Cancelled ==> Run(steps, device, clear) == Run(steps, device, later)
  {
    if steps != [] && clear > 0 {
      CancelLeavesPrefix(steps[1..], device, clear - 1, later - 1);
    }
  }

  /** A cancel that the poll after n steps is the first to see: what the first n steps do, and nothing more. */
  lemma {:induction false} CancelledAfter(steps: seq<Step>, device: bool, n: nat)
    requires n < |steps|
    ensures var done := Run(steps[..n], device, n);
            && (done.status == Done ==>
                  done.created == n && Run(steps, device, n) == Outcome(done.jobs, Cancelled, n, done.failed))
            && (done.status != Done ==> Run(steps, device, n) == done)
    decreases n
  {
    hide OneStep;
    if n > 0 {
      assert steps[..n][1..] == steps[1..][..n - 1];
      CancelledAfter(steps[1..], device, n - 1);
      StepCounts(steps[0], device);
    }
  }

  /** A step that fails counts as failed and stops the run, unless it is optional; every step that does not stop
      the run counts as created. */
  lemma StepCounts(step: Step, device: bool)
    ensures var o := OneStep(step, device);
            && o.jobs == Create(step, device).jobs
            && o.status == (if Create(step, device).ok || step.optional then Done else InvalidFormat)
            && o.created == (if o.status == Done then 1 else 0)
            && o.failed == (if Create(step, device).ok then 0 else 1)
  {
  }

  lemma {:induction false} TotalSizeAdds(a: seq<Image>, b: seq<Image>)
    ensures TotalSize(a + b) == TotalSize(a) + TotalSize(b)
    ensures |a| == 1 ==> TotalSize(a) == a[0].size
    decreases |b|
  {
    if b == [] {
      assert a + b == a;
    } else {
      assert (a + b)[..|a + b| - 1] == a + b[..|b| - 1];
      TotalSizeAdds(a, b[..|b| - 1]);
    }
  }

  lemma NoDeviceStep(step: Step)
    ensures OneStep(step, false).jobs == []
  {
  }

  /** Without a flash device nothing is ever queued. */
  lemma {:induction false} NoDeviceNoJobs(steps: seq<Step>, clear: nat)
    ensures Run(steps, false, clear).jobs == []
    decreases |steps|
  {
    hide OneStep;
    if steps != [] && clear > 0 {
      NoDeviceStep(steps[0]);
      NoDeviceNoJobs(steps[1..], clear - 1);
    }
  }

  ghost predicate AllSucceed(steps: seq<Step>, device: bool) {
    forall i :: 0 <= i < |steps| ==> OneStep(steps[i], device).status == Done
  }

  lemma {:induction false} RunDoneIff(steps: seq<Step>, device: bool, clear: nat)
    requires |steps| <= clear
    ensures Run(steps, device, clear).status == Done <==> AllSucceed(steps, device)
    decreases |steps|
  {
    hide OneStep;
    if steps != [] {
      RunDoneIff(steps[1..], device, clear - 1);
      assert AllSucceed(steps, device) <==> OneStep(steps[0], device).status == Done && AllSucceed(steps[1..], device) by {
        assert forall i :: 1 <= i < |steps| ==> steps[i] == steps[1..][i - 1];
      }
    }
  }

  /** Without a device a plan succeeds exactly when the package has neither a GPT nor an ordinary image. */
  lemma NoDeviceOutcome(images: seq<Image>, clear: nat)
    requires |PlanSteps(images)| < clear
    ensures RunPlan(PlanSteps(images), false, clear).status == Done <==> !Has(images, Gpt) && !Has(images, Ordinary)
  {
    var steps, ordinary := PlanSteps(images), Ordinaries(images);
    RunDoneIff(steps, false, clear - 1);
    AnyOrdinary(images);
    hide Run, Ordinaries, Has;
    if Has(images, Gpt) {
      assert steps[|LeadSteps(images)| - 1] == GptStep();
    } else if ordinary != [] {
      assert steps[|LeadSteps(images)|] == FlashStep(ordinary[0]);
    }
  }
}
