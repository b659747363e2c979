/** The hyper-period of the schedule and the number of instances of each job in it. */
module Horizon {
  import opened Wrappers
  import opened Arith
  import opened Lcm
  import opened Jobs

  /** The period column of the job table. */
  function Periods(jobs: seq<Job>): (ps: seq<int>)
    ensures |ps| == |jobs| && forall i :: 0 <= i < |jobs| ==> ps[i] == jobs[i].period
  {
    seq(|jobs|, i requires 0 <= i < |jobs| => jobs[i].period)
  }

  /** The hyper-period: `math.lcm` of all periods. */
  function HyperPeriod(jobs: seq<Job>): nat {
    LcmOf(Periods(jobs))
  }

  predicate NonzeroPeriods(jobs: seq<Job>) {
    forall i :: 0 <= i < |jobs| ==> jobs[i].period != 0
  }

  /** Without a zero period the hyper-period is positive, a multiple of every period, and
      divides (so is at most) every positive common multiple of the periods. */
  lemma HyperPeriodIsLeastCommonMultiple(jobs: seq<Job>)
    requires NonzeroPeriods(jobs)
    ensures HyperPeriod(jobs) >= 1
    ensures forall i :: 0 <= i < |jobs| ==> HyperPeriod(jobs) % Abs(jobs[i].period) == 0
    ensures forall m :: m >= 1 && CommonMultiple(Periods(jobs), m) ==>
              m % HyperPeriod(jobs) == 0 && HyperPeriod(jobs) <= m
  {
    var ps := Periods(jobs);
    LcmOfIsLeastCommonMultiple(ps);
    assert forall i :: 0 <= i < |jobs| ==> ps[i] == jobs[i].period;
  }

  /** When one period is a multiple of every other (harmonic periods), the hyper-period is
      that period's absolute value. */
  lemma HarmonicHyperPeriod(jobs: seq<Job>, i: nat)
    requires NonzeroPeriods(jobs) && i < |jobs|
    requires forall j :: 0 <= j < |jobs| ==> Abs(jobs[i].period) % Abs(jobs[j].period) == 0
    ensures HyperPeriod(jobs) == Abs(jobs[i].period)
  {
    var m, h := Abs(jobs[i].period), HyperPeriod(jobs);
    HyperPeriodIsLeastCommonMultiple(jobs);
    assert CommonMultiple(Periods(jobs), m);
    assert h <= m;
    var q := h / m;
    assert h == m * q;
    MulSign(m, q);
  }

  /** A zero period makes the hyper-period zero. */
  lemma ZeroPeriodGivesZeroHyperPeriod(jobs: seq<Job>, k: nat)
    requires k < |jobs| && jobs[k].period == 0
    ensures HyperPeriod(jobs) == 0
  {
    assert Periods(jobs)[k] == 0;
  }

  /** Floor division of a multiple of `|p|` by `p` is exact. */
  lemma ExactFloorDiv(h: int, p: int)
    requires p != 0 && h % Abs(p) == 0
    ensures FloorDiv(h, p) * p == h
  {
    if p < 0 {
      var k := h / Abs(p);
      assert h == Abs(p) * k;
      assert -h == Abs(p) * -k;
      MultipleMod(Abs(p), -k);
    }
  }

  /** The instance count of every job: `hyper_period // period`. */
  function Instances(jobs: seq<Job>): (r: seq<int>)
    requires NonzeroPeriods(jobs)
    ensures |r| == |jobs|
    ensures forall i :: 0 <= i < |jobs| ==> r[i] * jobs[i].period == HyperPeriod(jobs)
    ensures forall i :: 0 <= i < |jobs| && jobs[i].period > 0 ==> r[i] >= 1
  {
    var h := HyperPeriod(jobs);
    HyperPeriodIsLeastCommonMultiple(jobs);
    var r := seq(|jobs|, i requires 0 <= i < |jobs| => FloorDiv(h, jobs[i].period));
    assert forall i :: 0 <= i < |jobs| ==> r[i] * jobs[i].period == h by {
      forall i | 0 <= i < |jobs| ensures r[i] * jobs[i].period == h {
        ExactFloorDiv(h, jobs[i].period);
      }
    }
    assert forall i :: 0 <= i < |jobs| && jobs[i].period > 0 ==> r[i] >= 1 by {
      forall i | 0 <= i < |jobs| && jobs[i].period > 0 ensures r[i] >= 1 {
        MulSign(jobs[i].period, r[i]);
      }
    }
    r
  }

  /** The division by zero that a zero period causes, at the first job that has one. */
  datatype HorizonError = ZeroPeriod(job: nat)

  /** Computes the hyper-period and then, job by job, its instance count. */
  method ComputeInstances(jobs: seq<Job>) returns (r: Result<seq<int>, HorizonError>)
    ensures r.Ok? <==> NonzeroPeriods(jobs)
    ensures r.Ok? ==> r.value == Instances(jobs)
    ensures r.Err? ==>
      && r.error.job < |jobs| && jobs[r.error.job].period == 0
      && forall k :: 0 <= k < r.error.job ==> jobs[k].period != 0
  {
    var h := HyperPeriod(jobs);
    var counts: seq<int> := [];
    var i := 0;
    while i < |jobs|
      invariant 0 <= i <= |jobs| && |counts| == i
      invariant forall k :: 0 <= k < i ==> jobs[k].period != 0 && counts[k] == FloorDiv(h, jobs[k].period)
    {
      if jobs[i].period == 0 {
        return Err(ZeroPeriod(i));
      }
      counts := counts + [FloorDiv(h, jobs[i].period)];
      i := i + 1;
    }
    return Ok(counts);
  }
}
