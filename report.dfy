/** The solver's answer as the script reports it, and what the output schedule means. */
module Report {
  import opened Wrappers
  import opened Jobs
  import opened Horizon
  import opened Intervals
  import opened Precedence
  import Feasibility
  import opened Objective

  /** The status names the solver can return. */
  datatype Status = Optimal | Feasible | Infeasible | Unknown | ModelInvalid

  /** One line of the output table: the job with its start time replaced by the solved one,
      its instance count, and the solved completion, flow and earliness times. */
  datatype SolvedRow = SolvedRow(
    job: Job, instances: int, completion: int, flowTime: Option<int>, earliness: Option<int>)

  /** What the script ends with. */
  datatype Outcome =
    | InputFeasible            // every start was given and the constraints hold
    | ScheduleFound(rows: seq<SolvedRow>)
    | InputInfeasible
    | TimedOut                 // the solver gave up without a verdict
    | Unexpected               // any other status

  /** Every job's start time is given. */
  predicate AllFixed(jobs: seq<Job>) {
    forall i :: 0 <= i < |jobs| ==> jobs[i].startTime.Some?
  }

  function WithStart(job: Job, start: int): Job {
    job.(startTime := Some(start))
  }

  /** The output line of a job that the solver started at `start`. */
  function RowFor(job: Job, count: int, start: int): SolvedRow {
    SolvedRow(WithStart(job, start), count, Completion(job, start),
              FlowTime(job, start), Earliness(job, start))
  }

  function Rows(jobs: seq<Job>, counts: seq<int>, values: seq<int>): seq<SolvedRow>
    requires |counts| == |jobs| && |values| == |jobs|
  {
    seq(|jobs|, i requires 0 <= i < |jobs| => RowFor(jobs[i], counts[i], values[i]))
  }

  /** The script's verdict, given the solver's status and the start value it assigns each job. */
  function Decide(jobs: seq<Job>, counts: seq<int>, status: Status, values: seq<int>): Outcome
    requires |counts| == |jobs| && |values| == |jobs|
  {
    match status
    case Optimal | Feasible =>
      if AllFixed(jobs) then InputFeasible else ScheduleFound(Rows(jobs, counts, values))
    case Infeasible => InputInfeasible
    case Unknown => TimedOut
    case ModelInvalid => Unexpected
  }

  /** Reports the solver's answer, filling the output rows job by job. */
  method ReportSolution(jobs: seq<Job>, counts: seq<int>, status: Status, values: seq<int>)
    returns (out: Outcome)
    requires |counts| == |jobs| && |values| == |jobs|
    ensures out == Decide(jobs, counts, status, values)
  {
    if status == Infeasible {
      return InputInfeasible;
    } else if status == Unknown {
      return TimedOut;
    } else if status == ModelInvalid {
      return Unexpected;
    }
    if AllFixed(jobs) {
      return InputFeasible;
    }
    var rows: seq<SolvedRow> := [];
    var i := 0;
    while i < |jobs|
      invariant 0 <= i <= |jobs| && |rows| == i
      invariant forall k :: 0 <= k < i ==> rows[k] == RowFor(jobs[k], counts[k], values[k])
    {
      var job := jobs[i];
      var start := values[i];
      var completion := start + job.processingTime;
      var flow := if job.releaseTime.Some? then Some(completion - job.releaseTime.value) else None;
      var earliness := if job.deadline.Some? then Some(job.deadline.value - completion) else None;
      rows := rows + [SolvedRow(job.(startTime := Some(start)), counts[i], completion, flow, earliness)];
      i := i + 1;
    }
    out := ScheduleFound(rows);
  }

  /** The verdict for each status: a schedule is printed only when the solver found a solution
      and some start time was left open; it then has one row per job, in order, carrying the
      solved start, its completion `start + processing_time`, and the flow time and earliness
      exactly for the jobs with a release time and a deadline. */
  lemma DecideOutcome(jobs: seq<Job>, counts: seq<int>, status: Status, values: seq<int>)
    requires |counts| == |jobs| && |values| == |jobs|
    ensures Decide(jobs, counts, status, values).InputFeasible? <==> (status.Optimal? || status.Feasible?) && AllFixed(jobs)
    ensures Decide(jobs, counts, status, values).ScheduleFound? <==> (status.Optimal? || status.Feasible?) && !AllFixed(jobs)
    ensures Decide(jobs, counts, status, values).InputInfeasible? <==> status.Infeasible?
    ensures Decide(jobs, counts, status, values).TimedOut? <==> status.Unknown?
    ensures Decide(jobs, counts, status, values).Unexpected? <==> status.ModelInvalid?
    ensures var out := Decide(jobs, counts, status, values);
      out.ScheduleFound? ==>
        && |out.rows| == |jobs|
        && forall i :: 0 <= i < |jobs| ==>
          && out.rows[i].job == WithStart(jobs[i], values[i])
          && out.rows[i].instances == counts[i]
          && out.rows[i].job.startTime == Some(values[i])
          && out.rows[i].completion == values[i] + jobs[i].processingTime
          && (out.rows[i].flowTime.Some? <==> jobs[i].releaseTime.Some?)
          && (out.rows[i].flowTime.Some? ==> out.rows[i].flowTime.value == out.rows[i].completion - jobs[i].releaseTime.value)
          && (out.rows[i].earliness.Some? <==> jobs[i].deadline.Some?)
          && (out.rows[i].earliness.Some? ==> out.rows[i].earliness.value == jobs[i].deadline.value - out.rows[i].completion)
  {
  }

  /** For a solution meeting every constraint, each printed flow time is at least the job's
      processing time, each printed earliness is non-negative, and a given start time is
      printed unchanged. */
  lemma SolvedRowsRespectWindows(jobs: seq<Job>, values: seq<int>)
    requires Feasibility.Buildable(jobs) && |values| == |jobs| && Feasibility.Feasible(jobs, values)
    ensures var rows := Rows(jobs, Instances(jobs), values);
      forall i :: 0 <= i < |jobs| ==>
        && (rows[i].flowTime.Some? ==> rows[i].flowTime.value >= jobs[i].processingTime)
        && (rows[i].earliness.Some? ==> rows[i].earliness.value >= 0)
        && (jobs[i].startTime.Some? ==> rows[i].job.startTime == jobs[i].startTime)
  {
    var rows := Rows(jobs, Instances(jobs), values);
    forall i | 0 <= i < |jobs|
      ensures && (rows[i].flowTime.Some? ==> rows[i].flowTime.value >= jobs[i].processingTime)
              && (rows[i].earliness.Some? ==> rows[i].earliness.value >= 0)
              && (jobs[i].startTime.Some? ==> rows[i].job.startTime == jobs[i].startTime)
    {
      assert Feasibility.StartAllowed(jobs[i], values[i]) && Feasibility.WithinWindow(jobs[i], values[i]);
    }
  }

  // ---- feeding the printed schedule back in ----

  /** The jobs of the printed schedule: every start time fixed to its solved value. */
  function FixStarts(jobs: seq<Job>, values: seq<int>): (r: seq<Job>)
    requires |values| == |jobs|
    ensures |r| == |jobs| && AllFixed(r)
    ensures forall i :: 0 <= i < |jobs| ==> r[i] == WithStart(jobs[i], values[i])
  {
    seq(|jobs|, i requires 0 <= i < |jobs| => WithStart(jobs[i], values[i]))
  }

  /** Two job tables that differ at most in their start times. */
  predicate SameTiming(a: seq<Job>, b: seq<Job>) {
    && |a| == |b|
    && forall i :: 0 <= i < |a| ==>
      && a[i].name == b[i].name && a[i].period == b[i].period
      && a[i].processingTime == b[i].processingTime && a[i].predecessors == b[i].predecessors
      && a[i].timeLags == b[i].timeLags && a[i].slackTimes == b[i].slackTimes
  }

  lemma {:induction false} LayoutUpToSameTiming(a: seq<Job>, b: seq<Job>, counts: seq<int>, n: nat)
    requires SameTiming(a, b) && |counts| == |a| && n <= |a|
    ensures LayoutUpTo(a, counts, n) == LayoutUpTo(b, counts, n)
  {
    if n > 0 {
      LayoutUpToSameTiming(a, b, counts, n - 1);
      assert JobSlots(a, n - 1, Count(counts, n - 1)) == JobSlots(b, n - 1, Count(counts, n - 1));
    }
  }

  /** The name lookup sees only names. */
  lemma LookupSameTiming(a: seq<Job>, b: seq<Job>, name: string)
    requires SameTiming(a, b)
    ensures Lookup(b, name) == Lookup(a, name)
  {
    if Lookup(a, name).Some? {
      assert b[Lookup(a, name).value].name == name;
    }
  }

  lemma BuildableSameTiming(a: seq<Job>, b: seq<Job>)
    requires SameTiming(a, b) && Feasibility.Buildable(a)
    ensures Feasibility.Buildable(b) && Instances(b) == Instances(a)
  {
    assert Periods(a) == Periods(b);
    forall j, e | 0 <= j < |b| && 0 <= e < EdgeCount(b[j])
      ensures EdgeResolved(b, j, e)
    {
      LookupSameTiming(a, b, PredecessorName(a[j], e));
      assert EdgeResolved(a, j, e);
    }
  }

  lemma EdgeSameTiming(a: seq<Job>, b: seq<Job>, counts: seq<int>, starts: seq<int>, j: nat, e: nat)
    requires SameTiming(a, b) && Feasibility.Buildable(a) && Feasibility.Buildable(b)
    requires |counts| == |a| && |starts| == |a| && j < |a| && e < EdgeCount(a[j])
    ensures e < EdgeCount(b[j])
    ensures Feasibility.EdgeHolds(b, counts, starts, j, e) == Feasibility.EdgeHolds(a, counts, starts, j, e)
  {
    LookupSameTiming(a, b, PredecessorName(a[j], e));
    var p := Feasibility.PredecessorOf(a, j, e);
    assert Feasibility.PredecessorOf(b, j, e) == p;
    var lag, slack := TimeLag(a[j], e), SlackTime(a[j], e);
    assert forall s, q :: LagClause(b, starts, j, s, p, q, lag) == LagClause(a, starts, j, s, p, q, lag);
    assert forall s :: LagWitnessed(b, counts, starts, j, s, p, lag) == LagWitnessed(a, counts, starts, j, s, p, lag);
    if slack.Some? {
      assert forall s, q :: SlackClause(b, starts, j, s, p, q, slack.value) == SlackClause(a, starts, j, s, p, q, slack.value);
      assert forall s :: SlackWitnessed(b, counts, starts, j, s, p, slack.value) == SlackWitnessed(a, counts, starts, j, s, p, slack.value);
    }
  }

  /** Start times aside, the two tables post the same instance intervals. */
  lemma LayoutSameTiming(a: seq<Job>, b: seq<Job>)
    requires SameTiming(a, b) && Feasibility.Buildable(a)
    ensures Feasibility.Buildable(b) && Instances(b) == Instances(a)
    ensures Layout(b, Instances(a)) == Layout(a, Instances(a))
  {
    BuildableSameTiming(a, b);
    LayoutUpToSameTiming(a, b, Instances(a), |a|);
  }

  /** Running the script again on its own printed schedule: the table is still buildable, the
      solved start times are now its only feasible assignment, and the script answers that
      the input schedule is feasible. */
  lemma PrintedScheduleRoundTrip(jobs: seq<Job>, values: seq<int>, status: Status)
    requires Feasibility.Buildable(jobs) && |values| == |jobs| && Feasibility.Feasible(jobs, values)
    requires status.Optimal? || status.Feasible?
    ensures var fixed := FixStarts(jobs, values);
      && Feasibility.Buildable(fixed)
      && Feasibility.Feasible(fixed, values)
      && (forall t :: |t| == |jobs| && Feasibility.Feasible(fixed, t) ==> t == values)
      && Decide(fixed, Instances(fixed), status, values) == InputFeasible
  {
    var fixed := FixStarts(jobs, values);
    assert SameTiming(jobs, fixed);
    LayoutSameTiming(jobs, fixed);
    var counts := Instances(jobs);
    forall j, e | 0 <= j < |jobs| && 0 <= e < EdgeCount(fixed[j])
      ensures Feasibility.EdgeHolds(fixed, counts, values, j, e)
    {
      EdgeSameTiming(jobs, fixed, counts, values, j, e);
    }
    forall t | |t| == |jobs| && Feasibility.Feasible(fixed, t)
      ensures t == values
    {
      forall i | 0 <= i < |jobs| ensures t[i] == values[i] {
        assert Feasibility.StartAllowed(fixed[i], t[i]);
      }
    }
    forall j | 0 <= j < |jobs|
      ensures Feasibility.StartAllowed(fixed[j], values[j]) && Feasibility.WithinWindow(fixed[j], values[j])
    {
      assert Feasibility.WithinWindow(jobs[j], values[j]);
    }
  }
}
