/** Properties of the constraint model: where the instance intervals lie, what the
    no-overlap constraint means per instance pair, the quirks of the precedence rules. */
module ScheduleProperties {
  import opened Wrappers
  import opened Arith
  import opened Jobs
  import opened Horizon
  import opened Intervals
  import opened Precedence
  import opened Feasibility

  /** Every instance interval of a job without a fixed start, started within its domain,
      lies inside `[0, hyper_period)`. */
  lemma InstanceWithinHyperPeriod(jobs: seq<Job>, starts: seq<int>, j: nat, k: nat)
    requires NonzeroPeriods(jobs) && |starts| == |jobs| && j < |jobs|
    requires jobs[j].startTime.None? && StartAllowed(jobs[j], starts[j])
    requires k < Count(Instances(jobs), j)
    ensures 0 <= Place(SlotFor(jobs, j, k), starts).start
    ensures Place(SlotFor(jobs, j, k), starts).end <= HyperPeriod(jobs)
  {
    var counts := Instances(jobs);
    var c, period := counts[j], jobs[j].period;
    HyperPeriodIsLeastCommonMultiple(jobs);
    assert c * period == HyperPeriod(jobs) && c >= 1;
    MulSign(c, period);
    assert period >= 1;
    MulSign(period, k);
    MulLeMono(k + 1, c, period);
    assert (k + 1) * period == k * period + period;
  }

  /** Instance `k1` of job `j1` and instance `k2` of job `j2` do not overlap. */
  predicate InstancePairDisjoint(jobs: seq<Job>, starts: seq<int>, j1: nat, k1: nat, j2: nat, k2: nat)
    requires j1 < |jobs| && j2 < |jobs| && |starts| == |jobs|
  {
    Disjoint(Place(SlotFor(jobs, j1, k1), starts), Place(SlotFor(jobs, j2, k2), starts))
  }

  /** No two distinct (job, instance) pairs overlap. */
  predicate InstancesDisjoint(jobs: seq<Job>, counts: seq<int>, starts: seq<int>)
    requires |counts| == |jobs| && |starts| == |jobs|
  {
    forall j1, k1, j2, k2 ::
      0 <= j1 < |jobs| && 0 <= k1 < Count(counts, j1) && 0 <= j2 < |jobs| && 0 <= k2 < Count(counts, j2)
      && (j1 != j2 || k1 != k2)
      ==> InstancePairDisjoint(jobs, starts, j1, k1, j2, k2)
  }

  lemma NoOverlapGivesInstancesDisjoint(jobs: seq<Job>, counts: seq<int>, starts: seq<int>)
    requires |counts| == |jobs| && |starts| == |jobs|
    requires NoOverlap(Layout(jobs, counts), starts)
    ensures InstancesDisjoint(jobs, counts, starts)
  {
    var slots := Layout(jobs, counts);
    forall j1, k1, j2, k2 |
      0 <= j1 < |jobs| && 0 <= k1 < Count(counts, j1) && 0 <= j2 < |jobs| && 0 <= k2 < Count(counts, j2)
      && (j1 != j2 || k1 != k2)
      ensures InstancePairDisjoint(jobs, starts, j1, k1, j2, k2)
    {
      var a, b := Offset(counts, j1) + k1, Offset(counts, j2) + k2;
      LayoutAt(jobs, counts, j1, k1);
      LayoutAt(jobs, counts, j2, k2);
      if a < b {
        assert Disjoint(Place(slots[a], starts), Place(slots[b], starts));
      } else {
        assert a != b;
        assert Disjoint(Place(slots[b], starts), Place(slots[a], starts));
      }
    }
  }

  lemma InstancesDisjointGivesNoOverlap(jobs: seq<Job>, counts: seq<int>, starts: seq<int>)
    requires |counts| == |jobs| && |starts| == |jobs|
    requires InstancesDisjoint(jobs, counts, starts)
    ensures NoOverlap(Layout(jobs, counts), starts)
  {
    var slots := Layout(jobs, counts);
    forall a, b | 0 <= a < b < |slots|
      ensures Disjoint(Place(slots[a], starts), Place(slots[b], starts))
    {
      var sa, sb := slots[a], slots[b];
      assert InstancePairDisjoint(jobs, starts, sa.job, sa.instance, sb.job, sb.instance);
    }
  }

  /** The one no-overlap constraint over the interval list is the same as asking every two
      distinct (job, instance) pairs not to overlap, on the one shared resource. */
  lemma NoOverlapIffInstancesDisjoint(jobs: seq<Job>, counts: seq<int>, starts: seq<int>)
    requires |counts| == |jobs| && |starts| == |jobs|
    ensures NoOverlap(Layout(jobs, counts), starts) <==> InstancesDisjoint(jobs, counts, starts)
  {
    if NoOverlap(Layout(jobs, counts), starts) {
      NoOverlapGivesInstancesDisjoint(jobs, counts, starts);
    }
    if InstancesDisjoint(jobs, counts, starts) {
      InstancesDisjointGivesNoOverlap(jobs, counts, starts);
    }
  }

  /** Hence a feasible assignment places no two instances at overlapping times. */
  lemma FeasibleInstancesDisjoint(jobs: seq<Job>, starts: seq<int>)
    requires Buildable(jobs) && |starts| == |jobs| && Feasible(jobs, starts)
    ensures InstancesDisjoint(jobs, Instances(jobs), starts)
  {
    NoOverlapIffInstancesDisjoint(jobs, Instances(jobs), starts);
  }

  /** In a feasible assignment with a successor of positive period, the time lag of an edge,
      whatever its sign, separates the first starts: the successor starts at least the lag
      after the predecessor's first instance completes. */
  lemma FeasibleLagGap(jobs: seq<Job>, starts: seq<int>, j: nat, e: nat)
    requires Buildable(jobs) && |starts| == |jobs| && Feasible(jobs, starts)
    requires j < |jobs| && e < EdgeCount(jobs[j])
    requires jobs[j].period > 0
    ensures starts[j] >= starts[PredecessorOf(jobs, j, e)] + jobs[PredecessorOf(jobs, j, e)].processingTime + TimeLag(jobs[j], e)
  {
    var counts, p := Instances(jobs), PredecessorOf(jobs, j, e);
    assert EdgeHolds(jobs, counts, starts, j, e);
    assert counts[j] >= 1;
    assert LagWitnessed(jobs, counts, starts, j, 0, p, TimeLag(jobs[j], e));
  }

  /** Hence, when neither start is fixed, the predecessor's processing time plus the lag must
      fit in the successor's start range `[0, period - processing_time]`: otherwise no
      assignment is feasible. */
  lemma LagMustFitSuccessorPeriod(jobs: seq<Job>, starts: seq<int>, j: nat, e: nat)
    requires Buildable(jobs) && |starts| == |jobs| && Feasible(jobs, starts)
    requires j < |jobs| && e < EdgeCount(jobs[j])
    requires jobs[j].period > 0
    requires jobs[j].startTime.None? && jobs[PredecessorOf(jobs, j, e)].startTime.None?
    ensures jobs[PredecessorOf(jobs, j, e)].processingTime + TimeLag(jobs[j], e) <= jobs[j].period - jobs[j].processingTime
  {
    var p := PredecessorOf(jobs, j, e);
    FeasibleLagGap(jobs, starts, j, e);
    assert StartAllowed(jobs[j], starts[j]) && StartAllowed(jobs[p], starts[p]);
  }

  /** A job without predecessors, lags, slacks or weights. */
  function Plain(name: string, period: int, startTime: Option<int>, processingTime: int): Job {
    Job(name, period, startTime, processingTime, None, None, None, None, None, 0, 0, 0)
  }

  /** A fixed start time is taken as given, with no domain check: a lone job of period 4 fixed
      to start at 10 is feasible, although its only instance lies outside `[0, 4)`. */
  lemma FixedStartIsNotBoundChecked()
    ensures var jobs := [Plain("A", 4, Some(10), 1)];
      && Buildable(jobs)
      && Instances(jobs) == [1]
      && Feasible(jobs, [10])
      && Place(SlotFor(jobs, 0, 0), [10]).start >= HyperPeriod(jobs)
  {
    var jobs := [Plain("A", 4, Some(10), 1)];
    HarmonicHyperPeriod(jobs, 0);
    assert Instances(jobs)[0] * 4 == 4;
    assert Instances(jobs) == [1];
    assert |Layout(jobs, [1])| == 1 by {
      assert TotalInstances([1]) == Offset([1], 1) == 1;
    }
  }

  /** Predecessor `P` of period 4 and successor `S` of period 2, lag 0, processing time 1 each. */
  function ShorterPeriodJobs(): seq<Job> {
    [Plain("P", 4, None, 1),
     Job("S", 2, None, 1, None, None, Some(["P"]), Some([0]), Some([None]), 0, 0, 0)]
  }

  lemma ShorterPeriodInstances()
    ensures Buildable(ShorterPeriodJobs()) && Instances(ShorterPeriodJobs()) == [1, 2]
    ensures PredecessorOf(ShorterPeriodJobs(), 1, 0) == 0
  {
    var jobs := ShorterPeriodJobs();
    assert Lookup(jobs, "P") == Some(0);
    assert EdgeResolved(jobs, 1, 0);
    assert AllResolved(jobs);
    HarmonicHyperPeriod(jobs, 0);
    var counts := Instances(jobs);
    assert counts[0] * 4 == 4 && counts[1] * 2 == 4;
  }

  lemma ShorterPeriodDisjoint()
    ensures |Instances(ShorterPeriodJobs())| == 2
    ensures InstancesDisjoint(ShorterPeriodJobs(), Instances(ShorterPeriodJobs()), [0, 1])
  {
    var jobs, starts := ShorterPeriodJobs(), [0, 1];
    ShorterPeriodInstances();
    var counts := Instances(jobs);
    forall j1, k1, j2, k2 |
      0 <= j1 < 2 && 0 <= k1 < Count(counts, j1) && 0 <= j2 < 2 && 0 <= k2 < Count(counts, j2)
      && (j1 != j2 || k1 != k2)
      ensures InstancePairDisjoint(jobs, starts, j1, k1, j2, k2)
    {
      assert (j1 == 0 && k1 == 0) || (j1 == 1 && k1 < 2);
      assert (j2 == 0 && k2 == 0) || (j2 == 1 && k2 < 2);
    }
  }

  lemma ShorterPeriodEdge()
    ensures Buildable(ShorterPeriodJobs())
    ensures EdgeHolds(ShorterPeriodJobs(), Instances(ShorterPeriodJobs()), [0, 1], 1, 0)
  {
    var jobs, starts := ShorterPeriodJobs(), [0, 1];
    ShorterPeriodInstances();
    var counts := Instances(jobs);
    assert LagClause(jobs, starts, 1, 0, 0, 0, 0) && LagClause(jobs, starts, 1, 1, 0, 0, 0);
    assert LagHolds(jobs, counts, starts, 1, 0, 0);
  }

  /** A successor may run at a shorter period than its predecessor: starting `P` at 0 and
      `S` at 1 meets every posted constraint. */
  lemma ShorterPeriodSuccessorCanBeFeasible()
    ensures Buildable(ShorterPeriodJobs()) && Feasible(ShorterPeriodJobs(), [0, 1])
  {
    var jobs, starts := ShorterPeriodJobs(), [0, 1];
    ShorterPeriodInstances();
    ShorterPeriodDisjoint();
    ShorterPeriodEdge();
    NoOverlapIffInstancesDisjoint(jobs, Instances(jobs), starts);
    forall j, e | 0 <= j < |jobs| && 0 <= e < EdgeCount(jobs[j])
      ensures EdgeHolds(jobs, Instances(jobs), starts, j, e)
    {
      assert j == 1 && e == 0;
    }
    forall j | 0 <= j < |jobs| ensures StartAllowed(jobs[j], starts[j]) && WithinWindow(jobs[j], starts[j]) {
    }
    FeasibleFromParts(jobs, starts);
  }

  /** The three parts of `Feasible`, put together. */
  lemma FeasibleFromParts(jobs: seq<Job>, starts: seq<int>)
    requires Buildable(jobs) && |starts| == |jobs|
    requires forall j :: 0 <= j < |jobs| ==> StartAllowed(jobs[j], starts[j]) && WithinWindow(jobs[j], starts[j])
    requires NoOverlap(Layout(jobs, Instances(jobs)), starts)
    requires forall j, e :: 0 <= j < |jobs| && 0 <= e < EdgeCount(jobs[j]) ==> EdgeHolds(jobs, Instances(jobs), starts, j, e)
    ensures Feasible(jobs, starts)
  {
  }
}
