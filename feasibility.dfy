/** What the constraints the script posts mean for a given start-time assignment, and a
    checker that evaluates them. */
module Feasibility {
  import opened Wrappers
  import opened Arith
  import opened Jobs
  import opened Horizon
  import opened Intervals
  import opened Precedence

  /** The domain of a job's start-time variable: a fixed start time is posted as a constant,
      with no bound check; otherwise the start lies in `[0, period - processing_time]`. */
  predicate StartAllowed(job: Job, start: int) {
    match job.startTime
    case Some(fixed) => start == fixed
    case None => 0 <= start <= job.period - job.processingTime
  }

  /** The release time and the deadline, both about the first instance only. */
  predicate WithinWindow(job: Job, start: int) {
    && (job.releaseTime.Some? ==> start >= job.releaseTime.value)
    && (job.deadline.Some? ==> start + job.processingTime <= job.deadline.value)
  }

  /** The jobs for which the whole model gets built: normalised, no zero period, and every
      predecessor found. */
  predicate Buildable(jobs: seq<Job>) {
    AllWellFormed(jobs) && NonzeroPeriods(jobs) && AllResolved(jobs)
  }

  /** The global no-overlap constraint over a list of slots. */
  predicate NoOverlap(slots: seq<Slot>, starts: seq<int>)
    requires forall idx :: 0 <= idx < |slots| ==> slots[idx].job < |starts|
  {
    forall a, b :: 0 <= a < b < |slots| ==> Disjoint(Place(slots[a], starts), Place(slots[b], starts))
  }

  /** The job that edge `e` of job `j` names. */
  function PredecessorOf(jobs: seq<Job>, j: nat, e: nat): (p: nat)
    requires Buildable(jobs) && j < |jobs| && e < EdgeCount(jobs[j])
    ensures p < |jobs|
  {
    assert EdgeResolved(jobs, j, e);
    Lookup(jobs, PredecessorName(jobs[j], e)).value
  }

  /** The time-lag and slack-time rules of edge `e` of job `j`. */
  predicate EdgeHolds(jobs: seq<Job>, counts: seq<int>, starts: seq<int>, j: nat, e: nat)
    requires Buildable(jobs) && |counts| == |jobs| && |starts| == |jobs|
    requires j < |jobs| && e < EdgeCount(jobs[j])
  {
    var p := PredecessorOf(jobs, j, e);
    && LagHolds(jobs, counts, starts, j, p, TimeLag(jobs[j], e))
    && SlackHolds(jobs, counts, starts, j, p, SlackTime(jobs[j], e))
  }

  /** The start times satisfy every constraint the script posts: each start in its domain
      and window, no two instance intervals overlapping, and every edge's time lag and slack. */
  predicate Feasible(jobs: seq<Job>, starts: seq<int>)
    requires Buildable(jobs) && |starts| == |jobs|
  {
    var counts := Instances(jobs);
    && (forall j :: 0 <= j < |jobs| ==> StartAllowed(jobs[j], starts[j]) && WithinWindow(jobs[j], starts[j]))
    && NoOverlap(Layout(jobs, counts), starts)
    && (forall j, e :: 0 <= j < |jobs| && 0 <= e < EdgeCount(jobs[j]) ==> EdgeHolds(jobs, counts, starts, j, e))
  }

  // ---- the checker ----

  /** Checks every job's start domain and window. */
  method CheckStarts(jobs: seq<Job>, starts: seq<int>) returns (ok: bool)
    requires |starts| == |jobs|
    ensures ok == forall j :: 0 <= j < |jobs| ==> StartAllowed(jobs[j], starts[j]) && WithinWindow(jobs[j], starts[j])
  {
    ok := true;
    var j := 0;
    while j < |jobs|
      invariant 0 <= j <= |jobs|
      invariant ok == forall j' :: 0 <= j' < j ==> StartAllowed(jobs[j'], starts[j']) && WithinWindow(jobs[j'], starts[j'])
    {
      ok := ok && StartAllowed(jobs[j], starts[j]) && WithinWindow(jobs[j], starts[j]);
      j := j + 1;
    }
  }

  /** Slot `a` overlaps none of the slots after it, up to `hi`. */
  predicate DisjointFromLater(slots: seq<Slot>, starts: seq<int>, a: nat, hi: nat)
    requires a < |slots| && hi <= |slots|
    requires forall idx :: 0 <= idx < |slots| ==> slots[idx].job < |starts|
  {
    forall b :: a < b < hi ==> Disjoint(Place(slots[a], starts), Place(slots[b], starts))
  }

  /** Checks the no-overlap constraint pair by pair. */
  method CheckNoOverlap(slots: seq<Slot>, starts: seq<int>) returns (ok: bool)
    requires forall idx :: 0 <= idx < |slots| ==> slots[idx].job < |starts|
    ensures ok == NoOverlap(slots, starts)
  {
    ok := true;
    var a := 0;
    while a < |slots|
      invariant 0 <= a <= |slots|
      invariant ok == forall a' :: 0 <= a' < a ==> DisjointFromLater(slots, starts, a', |slots|)
    {
      var fine := true;
      var b := a + 1;
      while b < |slots|
        invariant a + 1 <= b <= |slots|
        invariant fine == DisjointFromLater(slots, starts, a, b)
      {
        fine := fine && Disjoint(Place(slots[a], starts), Place(slots[b], starts));
        b := b + 1;
      }
      ok := ok && fine;
      a := a + 1;
    }
    if ok {
      forall a, b | 0 <= a < b < |slots|
        ensures Disjoint(Place(slots[a], starts), Place(slots[b], starts))
      {
        assert DisjointFromLater(slots, starts, a, |slots|);
      }
    } else {
      ghost var a' :| 0 <= a' < |slots| && !DisjointFromLater(slots, starts, a', |slots|);
      ghost var b' :| a' < b' < |slots| && !Disjoint(Place(slots[a'], starts), Place(slots[b'], starts));
    }
  }

  /** Checks the precedence rules of every edge, successor by successor. */
  method CheckEdges(jobs: seq<Job>, counts: seq<int>, starts: seq<int>) returns (ok: bool)
    requires Buildable(jobs) && |counts| == |jobs| && |starts| == |jobs|
    ensures ok == forall j, e :: 0 <= j < |jobs| && 0 <= e < EdgeCount(jobs[j]) ==> EdgeHolds(jobs, counts, starts, j, e)
  {
    ok := true;
    var j := 0;
    while j < |jobs|
      invariant 0 <= j <= |jobs|
      invariant ok == forall j', e :: 0 <= j' < j && 0 <= e < EdgeCount(jobs[j']) ==> EdgeHolds(jobs, counts, starts, j', e)
    {
      var fine := true;
      var e := 0;
      while e < EdgeCount(jobs[j])
        invariant 0 <= e <= EdgeCount(jobs[j])
        invariant fine == forall e' :: 0 <= e' < e ==> EdgeHolds(jobs, counts, starts, j, e')
      {
        var p := PredecessorOf(jobs, j, e);
        var lagOk := CheckLag(jobs, counts, starts, j, p, TimeLag(jobs[j], e));
        var slackOk := CheckSlack(jobs, counts, starts, j, p, SlackTime(jobs[j], e));
        assert (lagOk && slackOk) == EdgeHolds(jobs, counts, starts, j, e);
        fine := fine && lagOk && slackOk;
        e := e + 1;
      }
      ok := ok && fine;
      j := j + 1;
    }
  }

  /** Evaluates every posted constraint, in the order the script posts them. */
  method CheckFeasible(jobs: seq<Job>, counts: seq<int>, starts: seq<int>) returns (ok: bool)
    requires Buildable(jobs) && counts == Instances(jobs) && |starts| == |jobs|
    ensures ok == Feasible(jobs, starts)
  {
    var startsOk := CheckStarts(jobs, starts);
    var slots := BuildIntervals(jobs, counts);
    var overlapOk := CheckNoOverlap(slots, starts);
    var edgesOk := CheckEdges(jobs, counts, starts);
    ok := startsOk && overlapOk && edgesOk;
  }
}
