/** The objective the solver minimises: weighted completion times, plus weighted flow times of
    the jobs with a release time, plus weighted earliness of the jobs with a deadline. All are
    measured on each job's first instance. */
module Objective {
  import opened Wrappers
  import opened Jobs

  /** `start_time + processing_time`. */
  function Completion(job: Job, start: int): int {
    start + job.processingTime
  }

  /** Completion minus release time, for a job that has a release time: at least the processing
      time exactly when the job starts no earlier than its release time. */
  function FlowTime(job: Job, start: int): (r: Option<int>)
    ensures r.Some? <==> job.releaseTime.Some?
    ensures r.Some? ==> r.value + job.releaseTime.value == Completion(job, start)
    ensures r.Some? ==> (r.value >= job.processingTime <==> start >= job.releaseTime.value)
  {
    if job.releaseTime.Some? then Some(Completion(job, start) - job.releaseTime.value) else None
  }

  /** Deadline minus completion, for a job that has a deadline: non-negative exactly when the job
      completes by its deadline. */
  function Earliness(job: Job, start: int): (r: Option<int>)
    ensures r.Some? <==> job.deadline.Some?
    ensures r.Some? ==> r.value + Completion(job, start) == job.deadline.value
    ensures r.Some? ==> (r.value >= 0 <==> start + job.processingTime <= job.deadline.value)
  {
    if job.deadline.Some? then Some(job.deadline.value - Completion(job, start)) else None
  }

  /** The first sum: weighted completion times of the jobs before `n`. */
  function CompletionSum(jobs: seq<Job>, starts: seq<int>, n: nat): int
    requires |starts| == |jobs| && n <= |jobs|
  {
    if n == 0 then 0
    else CompletionSum(jobs, starts, n - 1) + jobs[n - 1].completionTimeWeight * Completion(jobs[n - 1], starts[n - 1])
  }

  /** The second sum: weighted flow times, over the jobs before `n` that have a release time. */
  function FlowSum(jobs: seq<Job>, starts: seq<int>, n: nat): int
    requires |starts| == |jobs| && n <= |jobs|
  {
    if n == 0 then 0
    else
      var f := FlowTime(jobs[n - 1], starts[n - 1]);
      FlowSum(jobs, starts, n - 1) + (if f.Some? then jobs[n - 1].flowTimeWeight * f.value else 0)
  }

  /** The third sum: weighted earliness, over the jobs before `n` that have a deadline. */
  function EarlinessSum(jobs: seq<Job>, starts: seq<int>, n: nat): int
    requires |starts| == |jobs| && n <= |jobs|
  {
    if n == 0 then 0
    else
      var e := Earliness(jobs[n - 1], starts[n - 1]);
      EarlinessSum(jobs, starts, n - 1) + (if e.Some? then jobs[n - 1].earlinessWeight * e.value else 0)
  }

  /** The minimised expression. */
  function ObjectiveValue(jobs: seq<Job>, starts: seq<int>): int
    requires |starts| == |jobs|
  {
    CompletionSum(jobs, starts, |jobs|) + FlowSum(jobs, starts, |jobs|) + EarlinessSum(jobs, starts, |jobs|)
  }

  /** What one job contributes to the three sums together. */
  function JobCost(job: Job, start: int): int {
    var f, e := FlowTime(job, start), Earliness(job, start);
    job.completionTimeWeight * Completion(job, start)
      + (if f.Some? then job.flowTimeWeight * f.value else 0)
      + (if e.Some? then job.earlinessWeight * e.value else 0)
  }

  /** The per-job costs of the jobs before `n`, added up. */
  function CostSum(jobs: seq<Job>, starts: seq<int>, n: nat): int
    requires |starts| == |jobs| && n <= |jobs|
  {
    if n == 0 then 0 else CostSum(jobs, starts, n - 1) + JobCost(jobs[n - 1], starts[n - 1])
  }

  /** Regrouping the three sums job by job gives the same objective. */
  lemma {:induction false} SumsRegroupByJob(jobs: seq<Job>, starts: seq<int>, n: nat)
    requires |starts| == |jobs| && n <= |jobs|
    ensures CompletionSum(jobs, starts, n) + FlowSum(jobs, starts, n) + EarlinessSum(jobs, starts, n)
            == CostSum(jobs, starts, n)
  {
    if n > 0 {
      SumsRegroupByJob(jobs, starts, n - 1);
    }
  }

  lemma ObjectiveIsSumOfJobCosts(jobs: seq<Job>, starts: seq<int>)
    requires |starts| == |jobs|
    ensures ObjectiveValue(jobs, starts) == CostSum(jobs, starts, |jobs|)
  {
    SumsRegroupByJob(jobs, starts, |jobs|);
  }

  /** How much one job's cost grows per unit of delay: the completion weight, plus the flow
      weight with a release time, minus the earliness weight with a deadline. */
  function CostSlope(job: Job): int {
    job.completionTimeWeight
      + (if job.releaseTime.Some? then job.flowTimeWeight else 0)
      - (if job.deadline.Some? then job.earlinessWeight else 0)
  }

  /** A job's cost is linear in its start time, with slope `CostSlope`. */
  lemma JobCostIsLinear(job: Job, start: int, delay: int)
    ensures JobCost(job, start + delay) == JobCost(job, start) + CostSlope(job) * delay
  {
    var cw, fw, ew := job.completionTimeWeight, job.flowTimeWeight, job.earlinessWeight;
    assert cw * (start + delay + job.processingTime) == cw * (start + job.processingTime) + cw * delay;
    if job.releaseTime.Some? {
      var r := job.releaseTime.value;
      assert fw * (start + delay + job.processingTime - r) == fw * (start + job.processingTime - r) + fw * delay;
    }
    if job.deadline.Some? {
      var d := job.deadline.value;
      assert ew * (d - (start + delay + job.processingTime)) == ew * (d - (start + job.processingTime)) - ew * delay;
    }
  }

  /** Jobs whose three weights are all zero, as every job is when its table has no weight columns. */
  predicate Unweighted(jobs: seq<Job>) {
    forall i :: 0 <= i < |jobs| ==>
      jobs[i].completionTimeWeight == 0 && jobs[i].flowTimeWeight == 0 && jobs[i].earlinessWeight == 0
  }

  /** Without weights the objective is zero for every assignment, so every feasible schedule
      is optimal. */
  lemma {:induction false} UnweightedCostIsZero(jobs: seq<Job>, starts: seq<int>, n: nat)
    requires |starts| == |jobs| && n <= |jobs| && Unweighted(jobs)
    ensures CostSum(jobs, starts, n) == 0
  {
    if n > 0 {
      UnweightedCostIsZero(jobs, starts, n - 1);
    }
  }

  lemma UnweightedObjectiveIsZero(jobs: seq<Job>, starts: seq<int>)
    requires |starts| == |jobs| && Unweighted(jobs)
    ensures ObjectiveValue(jobs, starts) == 0
  {
    ObjectiveIsSumOfJobCosts(jobs, starts);
    UnweightedCostIsZero(jobs, starts, |jobs|);
  }
}
