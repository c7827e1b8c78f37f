/** The queue an executed package leaves behind, job by job and field by field. */
module FlashQueue {
  import opened Bytes
  import opened Flashing
  import opened Sequences

  // ----- the ordinary images -----

  /** How many of the first i images are ordinary. */
  function Rank(images: seq<Image>, i: nat): nat
    requires i <= |images|
  {
    if i == 0 then 0 else Rank(images, i - 1) + (if images[i - 1].kind == Ordinary then 1 else 0)
  }

  lemma {:induction false} OrdinariesAt(images: seq<Image>, i: nat)
    requires i <= |images|
    ensures |Ordinaries(images[..i])| == Rank(images, i)
    ensures forall k :: 0 <= k < i && images[k].kind == Ordinary ==>
              Rank(images, k) < Rank(images, i) && Ordinaries(images[..i])[Rank(images, k)] == images[k]
    decreases i
  {
    if i > 0 {
      OrdinariesAt(images, i - 1);
      NextImage(images, i - 1);
    }
  }

  /** The ordinary images keep their order: each stands at the place given by how many come before it, and there
      are no others. */
  lemma OrdinaryPlaces(images: seq<Image>)
    ensures |Ordinaries(images)| == Rank(images, |images|)
    ensures forall k :: 0 <= k < |images| && images[k].kind == Ordinary ==>
              Rank(images, k) < |Ordinaries(images)| && Ordinaries(images)[Rank(images, k)] == images[k]
  {
    OrdinariesAt(images, |images|);
    assert images[..|images|] == images;
  }

  /** Every place is taken. */
  lemma {:induction false} PlaceTaken(images: seq<Image>, i: nat, r: nat) returns (k: nat)
    requires i <= |images| && r < Rank(images, i)
    ensures k < i && images[k].kind == Ordinary && Rank(images, k) == r
    decreases i
  {
    if images[i - 1].kind == Ordinary && Rank(images, i - 1) == r {
      k := i - 1;
    } else {
      k := PlaceTaken(images, i - 1, r);
    }
  }

  // ----- the jobs -----

  predicate IsFlash(job: Job, img: Image) {
    job.Flash? && job.data == img.data && job.partition == Target(img) && job.id == "fw_flash_" + Target(img)
  }

  predicate IsVerify(job: Job, img: Image) {
    job.Verify? && job.data == img.data && job.partition == Target(img) && job.id == "fw_verify_" + Target(img)
  }

  ghost predicate HasGpt(images: seq<Image>) {
    exists img :: img in images && img.kind == Gpt
  }

  /** The queue of a package: the GPT job if there is a GPT image, then a flash job per ordinary image, then a
      verify job per ordinary image. */
  ghost predicate FullQueue(jobs: seq<Job>, images: seq<Image>) {
    var ordinary := Ordinaries(images);
    var n := |ordinary|;
    var g := if HasGpt(images) then 1 else 0;
    && |jobs| == g + n + n
    && (g == 1 ==> jobs[0] == GptUpdate("fw_gpt_update"))
    && (forall k :: 0 <= k < n ==> IsFlash(jobs[g + k], ordinary[k]))
    && (forall k :: 0 <= k < n ==> IsVerify(jobs[g + n + k], ordinary[k]))
  }

  /** The queue up to the first ordinary image without data. */
  ghost predicate CutQueue(jobs: seq<Job>, images: seq<Image>) {
    var ordinary := Ordinaries(images);
    var g := if HasGpt(images) then 1 else 0;
    && g <= |jobs| < g + |ordinary|
    && (g == 1 ==> jobs[0] == GptUpdate("fw_gpt_update"))
    && (forall k :: 0 <= k < |jobs| - g ==> ordinary[k].data != [] && IsFlash(jobs[g + k], ordinary[k]))
    && ordinary[|jobs| - g].data == []
  }

  lemma JobsOf(images: seq<Image>, n: nat)
    requires n <= |images|
    ensures forall k :: 0 <= k < n ==> IsFlash(FlashJobs(images[..n])[k], images[k])
    ensures forall k :: 0 <= k < n ==> IsVerify(VerifyJobs(images[..n])[k], images[k])
  {
  }

  lemma HasGptIff(images: seq<Image>)
    ensures Has(images, Gpt) <==> HasGpt(images)
  {
  }

  ghost predicate AllHaveData(images: seq<Image>) {
    forall img :: img in images && img.kind == Ordinary ==> |img.data| > 0
  }

  lemma OrdinariesHave(images: seq<Image>)
    ensures AllHaveData(images) <==> forall k :: 0 <= k < |Ordinaries(images)| ==> Ordinaries(images)[k].data != []
  {
    OrdinaryPlaces(images);
    var ordinary := Ordinaries(images);
    forall r | 0 <= r < |ordinary| ensures ordinary[r] in images && ordinary[r].kind == Ordinary {
      var k := PlaceTaken(images, |images|, r);
    }
    hide Ordinaries;
    if forall k :: 0 <= k < |ordinary| ==> ordinary[k].data != [] {
      forall img | img in images && img.kind == Ordinary ensures |img.data| > 0 {
        var k :| 0 <= k < |images| && images[k] == img;
        assert ordinary[Rank(images, k)].data != [];
      }
    }
  }

  lemma AllLoadedIff(images: seq<Image>)
    ensures Loaded(images) == |images| <==> forall k :: 0 <= k < |images| ==> images[k].data != []
  {
  }

  function GptPart(images: seq<Image>): (jobs: seq<Job>) {
    if Has(images, Gpt) then [GptUpdate("fw_gpt_update")] else []
  }

  lemma GptPartIs(images: seq<Image>)
    ensures |GptPart(images)| == (if HasGpt(images) then 1 else 0)
    ensures HasGpt(images) ==> GptPart(images)[0] == GptUpdate("fw_gpt_update")
    ensures GptPart(images) == if Has(images, Gpt) then [GptJob()] else []
  {
    HasGptIff(images);
    hide Has, HasGpt;
  }

  lemma JobCount(images: seq<Image>)
    ensures |FlashJobs(images)| == |VerifyJobs(images)| == |images|
  {
  }

  lemma FullFrom(jobs: seq<Job>, f: seq<Job>, v: seq<Job>, images: seq<Image>)
    requires Joins(jobs, GptPart(images), f, v)
    requires f == FlashJobs(Ordinaries(images)) && v == VerifyJobs(Ordinaries(images))
    ensures FullQueue(jobs, images)
  {
    hide Ordinaries, HasGpt, FlashJobs, VerifyJobs, IsFlash, IsVerify, GptPart;
    var ordinary := Ordinaries(images);
    var g := GptPart(images);
    GptPartIs(images);
    JobCount(ordinary);
    JobsOf(ordinary, |ordinary|);
    assert ordinary[..|ordinary|] == ordinary;
    forall k | 0 <= k < |ordinary|
      ensures IsFlash(jobs[|g| + k], ordinary[k]) && IsVerify(jobs[|g| + |ordinary| + k], ordinary[k])
    {
      assert jobs[|g| + k] == f[k] && jobs[|g| + |f| + k] == v[k];
    }
  }

  lemma FullIs(images: seq<Image>)
    ensures var ordinary := Ordinaries(images);
            FullQueue(GptPart(images) + FlashJobs(ordinary) + VerifyJobs(ordinary), images)
  {
    hide *;
    var ordinary := Ordinaries(images);
    var g, f, v := GptPart(images), FlashJobs(ordinary), VerifyJobs(ordinary);
    Joined(g, f, v);
    FullFrom(g + f + v, f, v, images);
  }

  lemma CutFrom(jobs: seq<Job>, f: seq<Job>, images: seq<Image>, n: nat)
    requires Joins(jobs, GptPart(images), f, []) && n < |Ordinaries(images)|
    requires f == FlashJobs(Ordinaries(images)[..n])
    requires Ordinaries(images)[n].data == [] && forall k :: 0 <= k < n ==> Ordinaries(images)[k].data != []
    ensures CutQueue(jobs, images)
  {
    hide Ordinaries, HasGpt, FlashJobs, IsFlash, GptPart;
    var ordinary := Ordinaries(images);
    var g := GptPart(images);
    GptPartIs(images);
    JobCount(ordinary[..n]);
    JobsOf(ordinary, n);
    forall k | 0 <= k < n ensures IsFlash(jobs[|g| + k], ordinary[k]) {
      assert jobs[|g| + k] == f[k];
    }
  }

  lemma CutIs(images: seq<Image>)
    requires Loaded(Ordinaries(images)) < |Ordinaries(images)|
    ensures var ordinary := Ordinaries(images);
            CutQueue(GptPart(images) + FlashJobs(ordinary[..Loaded(ordinary)]), images)
  {
    hide *;
    var ordinary := Ordinaries(images);
    var g, f := GptPart(images), FlashJobs(ordinary[..Loaded(ordinary)]);
    Joined(g, f, []);
    assert g + f + [] == g + f;
    CutFrom(g + f, f, images, Loaded(ordinary));
  }

  ghost predicate HasProgrammer(images: seq<Image>) {
    exists img :: img in images && img.kind == Programmer
  }

  lemma StepCount(images: seq<Image>)
    ensures |LeadSteps(images)| == |GptPart(images)| + if HasProgrammer(images) then 1 else 0
    ensures |PlanSteps(images)| == |LeadSteps(images)| + |Ordinaries(images)| + |Ordinaries(images)|
    ensures forall n :: 0 <= n <= |Ordinaries(images)| ==> |FlashJobs(Ordinaries(images)[..n])| == n
    ensures |FlashJobs(Ordinaries(images))| == |VerifyJobs(Ordinaries(images))| == |Ordinaries(images)|
  {
    HasIff(images, Programmer);
    hide Has, Ordinaries;
  }

  /** Executing the plan of any package with a device and enough polls: if every ordinary image has data the
      queue is full and the run succeeds; otherwise it is cut at the first image without data and the run
      fails, with one failed step. Every other step before the cut counts as created, the programmer step too. */
  lemma ExecutedQueue(images: seq<Image>, clear: nat)
    requires |PlanSteps(images)| < clear
    ensures var o := RunPlan(PlanSteps(images), true, clear);
            if AllHaveData(images) then
              FullQueue(o.jobs, images) && o.status == Done && o.failed == 0
            else CutQueue(o.jobs, images) && o.status == InvalidFormat && o.failed == 1
    ensures var o := RunPlan(PlanSteps(images), true, clear);
            o.created == |o.jobs| + if HasProgrammer(images) then 1 else 0
  {
    hide *;
    PlanQueue(images, clear);
    GptPartIs(images);
    StepCount(images);
    AllLoadedIff(Ordinaries(images));
    OrdinariesHave(images);
    FullIs(images);
    if Loaded(Ordinaries(images)) < |Ordinaries(images)| {
      CutIs(images);
    }
  }

  // ----- single steps -----

  /** What each kind of step adds, and when it fails; steps of a plan never erase or reboot. */
  lemma StepJobs(step: Step, device: bool)
    ensures var c := Create(step, device);
            && (step.kind == FlashProgrammer || step.kind == Reboot ==> c.ok && c.jobs == [])
            && (step.kind == UpdateGpt ==>
                  (c.ok <==> device) && c.jobs == if device then [GptUpdate("fw_gpt_update")] else [])
            && (step.kind == ErasePartition ==>
                  (c.ok <==> device)
                  && c.jobs == if device then [Erase("fw_erase_" + step.partition, step.partition)] else [])
            && (step.kind == FlashPartition ==>
                  (c.ok <==> device && |step.data| > 0)
                  && c.jobs == if c.ok then [Flash("fw_flash_" + step.partition, step.partition, step.data)] else [])
            && (step.kind == VerifyPartition ==>
                  c.ok && c.jobs == if device && |step.data| > 0
                                    then [Verify("fw_verify_" + step.partition, step.partition, step.data)] else [])
  {
  }
}
