/** FirmwareExecutor and the pipeline it fills. */
module FlashExecutor {
  import opened Bytes
  import opened Flashing
  import opened FlashQueue

  class Pipeline {
    var jobs: seq<Job>

    constructor ()
      ensures jobs == []
    {
      jobs := [];
    }

    method AddJob(job: Job)
      modifies this
      ensures jobs == old(jobs) + [job]
    {
      jobs := jobs + [job];
    }
  }

  class Executor {
    var createdJobs: nat
    var failedSteps: nat

    method CreateJobForStep(step: Step, pipeline: Pipeline, device: bool) returns (ok: bool)
      modifies pipeline
      ensures pipeline.jobs == old(pipeline.jobs) + Create(step, device).jobs && ok == Create(step, device).ok
    {
      ok := true;
      match step.kind
      case FlashProgrammer =>
      case UpdateGpt =>
        if device {
          pipeline.AddJob(GptJob());
        } else {
          ok := false;
        }
      case FlashPartition =>
        if device && step.data != [] {
          pipeline.AddJob(FlashJob(step.partition, step.data));
        } else {
          ok := false;
        }
      case VerifyPartition =>
        if device && step.data != [] {
          pipeline.AddJob(VerifyJob(step.partition, step.data));
        }
      case ErasePartition =>
        if device {
          pipeline.AddJob(Erase("fw_erase_" + step.partition, step.partition));
        } else {
          ok := false;
        }
      case Reboot =>
    }

    method ExecutePlan(steps: seq<Step>, pipeline: Pipeline, device: bool, clear: nat) returns (status: Status)
      modifies this, pipeline
      ensures var o := RunPlan(steps, device, clear);
              && pipeline.jobs == old(pipeline.jobs) + o.jobs && status == o.status
              && createdJobs == o.created && failedSteps == o.failed
      ensures clear == 0 ==> status == Cancelled && pipeline.jobs == old(pipeline.jobs) && createdJobs == failedSteps == 0
    {
      createdJobs, failedSteps := 0, 0;
      if clear == 0 {
        return Cancelled;
      }
      status := RunSteps(steps, pipeline, device, clear - 1);
    }

    /** One step of the loop: its jobs, its counts, and whether to go on. */
    method DoStep(step: Step, pipeline: Pipeline, device: bool) returns (go: bool)
      modifies this, pipeline
      ensures var one := OneStep(step, device);
              && pipeline.jobs == old(pipeline.jobs) + one.jobs && (go <==> one.status == Done)
              && createdJobs == old(createdJobs) + one.created && failedSteps == old(failedSteps) + one.failed
      ensures !go ==> OneStep(step, device).status == InvalidFormat
    {
      hide Create;
      var ok := CreateJobForStep(step, pipeline, device);
      if !ok {
        failedSteps := failedSteps + 1;
        if !step.optional {
          return false;
        }
      }
      createdJobs := createdJobs + 1;
      go := true;
    }

    method RunSteps(steps: seq<Step>, pipeline: Pipeline, device: bool, clear: nat) returns (status: Status)
      requires createdJobs == failedSteps == 0
      modifies this, pipeline
      ensures Shows(Run(steps, device, clear), old(pipeline.jobs), pipeline.jobs, createdJobs, failedSteps, status)
    {
      hide OneStep, Run, Then, Shows;
      var polls: nat := clear;
      ghost var so := Outcome([], Done, 0, 0);
      ghost var before := pipeline.jobs;
      RunStart(steps, device, clear, before);
      for i := 0 to |steps|
        invariant polls == clear - i && Shows(so, before, pipeline.jobs, createdJobs, failedSteps, Done)
        invariant Run(steps, device, clear) == Then(so, Run(steps[i..], device, polls))
      {
        RunUpTo(so, steps, i, device, polls);
        if polls == 0 {
          ShowsNext(so, Outcome([], Cancelled, 0, 0), before, pipeline.jobs, createdJobs, failedSteps);
          return Cancelled;
        }
        ghost var one := OneStep(steps[i], device);
        ShowsNext(so, one, before, pipeline.jobs, createdJobs, failedSteps);
        var go := DoStep(steps[i], pipeline, device);
        if !go {
          return InvalidFormat;
        }
        polls := polls - 1;
        so := Then(so, one);
      }
      RunNothing(steps[|steps|..], device, polls);
      ShowsNext(so, Outcome([], Done, 0, 0), before, pipeline.jobs, createdJobs, failedSteps);
      status := Done;
    }

    method ExecutePackage(images: seq<Image>, pipeline: Pipeline, device: bool, clear: nat) returns (status: Status)
      modifies this, pipeline
      ensures var o := RunPlan(PlanSteps(images), device, clear);
              && pipeline.jobs == old(pipeline.jobs) + o.jobs && status == o.status
              && createdJobs == o.created && failedSteps == o.failed
      ensures device && |PlanSteps(images)| < clear ==>
                var added := pipeline.jobs[|old(pipeline.jobs)|..];
                if AllHaveData(images) then FullQueue(added, images) && status == Done && failedSteps == 0
                else CutQueue(added, images) && status == InvalidFormat && failedSteps == 1
      ensures device && |PlanSteps(images)| < clear ==>
                createdJobs == |pipeline.jobs| - |old(pipeline.jobs)| + if HasProgrammer(images) then 1 else 0
    {
      hide *;
      var plan := GeneratePlan(images);
      ghost var o := RunPlan(PlanSteps(images), device, clear);
      status := ExecutePlan(plan.steps, pipeline, device, clear);
      assert pipeline.jobs[|old(pipeline.jobs)|..] == o.jobs;
      if device && |PlanSteps(images)| < clear {
        ExecutedQueue(images, clear);
      }
    }
  }
}
