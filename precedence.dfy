/** Predecessor edges: looking up the predecessor by name, and the time-lag and slack-time
    rules posted for every successor instance. */
module Precedence {
  import opened Wrappers
  import opened Jobs
  import opened Intervals

  /** The indices, in increasing order, of the jobs at or after `from` called `name`. */
  function MatchesFrom(jobs: seq<Job>, name: string, from: nat): (r: seq<nat>)
    requires from <= |jobs|
    ensures forall x :: x in r <==> from <= x < |jobs| && jobs[x].name == name
    ensures forall a :: 0 <= a < |r| ==> from <= r[a]
    ensures forall a, b :: 0 <= a < b < |r| ==> r[a] < r[b]
    decreases |jobs| - from
  {
    if from == |jobs| then []
    else if jobs[from].name == name then [from] + MatchesFrom(jobs, name, from + 1)
    else MatchesFrom(jobs, name, from + 1)
  }

  /** The predecessor lookup: the first job with the given name, if there is one. */
  function Lookup(jobs: seq<Job>, name: string): (r: Option<nat>)
    ensures r.Some? ==> r.value < |jobs| && jobs[r.value].name == name
    ensures r.Some? ==> forall i :: 0 <= i < r.value ==> jobs[i].name != name
    ensures r.None? <==> forall i :: 0 <= i < |jobs| ==> jobs[i].name != name
  {
    var m := MatchesFrom(jobs, name, 0);
    if |m| > 0 then
      assert m[0] in m;
      assert forall i :: 0 <= i < m[0] ==> i !in m;
      Some(m[0])
    else
      assert forall i :: 0 <= i < |jobs| ==> i !in m;
      None
  }

  /** The number of predecessor edges of a job. */
  function EdgeCount(job: Job): nat {
    if job.predecessors.Some? then |job.predecessors.value| else 0
  }

  function PredecessorName(job: Job, e: nat): string
    requires e < EdgeCount(job)
  {
    job.predecessors.value[e]
  }

  function TimeLag(job: Job, e: nat): int
    requires WellFormed(job) && e < EdgeCount(job)
  {
    job.timeLags.value[e]
  }

  function SlackTime(job: Job, e: nat): Option<int>
    requires WellFormed(job) && e < EdgeCount(job)
  {
    job.slackTimes.value[e]
  }

  predicate AllWellFormed(jobs: seq<Job>) {
    forall j :: 0 <= j < |jobs| ==> WellFormed(jobs[j])
  }

  /** Edge `e` of job `j` names a job that exists. */
  predicate EdgeResolved(jobs: seq<Job>, j: nat, e: nat)
    requires j < |jobs| && e < EdgeCount(jobs[j])
  {
    Lookup(jobs, PredecessorName(jobs[j], e)).Some?
  }

  /** Every predecessor named anywhere is a job of the table. */
  predicate AllResolved(jobs: seq<Job>) {
    forall j, e :: 0 <= j < |jobs| && 0 <= e < EdgeCount(jobs[j]) ==> EdgeResolved(jobs, j, e)
  }

  /** Walks the edges in the script's order, successor by successor, and reports the first
      predecessor name that no job has (the point where the script fails), if any. */
  method FindUnresolved(jobs: seq<Job>) returns (r: Option<string>)
    ensures r.None? <==> AllResolved(jobs)
    ensures r.Some? ==>
      exists j, e :: 0 <= j < |jobs| && 0 <= e < EdgeCount(jobs[j])
                     && PredecessorName(jobs[j], e) == r.value && !EdgeResolved(jobs, j, e)
                     && (forall j', e' :: 0 <= j' < j && 0 <= e' < EdgeCount(jobs[j']) ==> EdgeResolved(jobs, j', e'))
                     && (forall e' :: 0 <= e' < e ==> EdgeResolved(jobs, j, e'))
  {
    var j := 0;
    while j < |jobs|
      invariant 0 <= j <= |jobs|
      invariant forall j', e :: 0 <= j' < j && 0 <= e < EdgeCount(jobs[j']) ==> EdgeResolved(jobs, j', e)
    {
      var e := 0;
      while e < EdgeCount(jobs[j])
        invariant 0 <= e <= EdgeCount(jobs[j])
        invariant forall e' :: 0 <= e' < e ==> EdgeResolved(jobs, j, e')
      {
        var name := PredecessorName(jobs[j], e);
        if Lookup(jobs, name).None? {
          assert !EdgeResolved(jobs, j, e);
          return Some(name);
        }
        e := e + 1;
      }
      j := j + 1;
    }
    return None;
  }

  // ---- time lag ----

  /** Predecessor instance `p` satisfies the time lag for successor instance `s`: it completes
      no later than that successor instance starts, and the successor's first start is at least
      `lag` after the predecessor's first completion (this second comparison uses no instance
      offsets). */
  predicate LagClause(jobs: seq<Job>, starts: seq<int>, succ: nat, s: nat, pred: nat, p: nat, lag: int)
    requires succ < |jobs| && pred < |jobs| && |starts| == |jobs|
  {
    && starts[pred] + p * jobs[pred].period + jobs[pred].processingTime <= starts[succ] + s * jobs[succ].period
    && starts[succ] >= starts[pred] + jobs[pred].processingTime + lag
  }

  /** Some predecessor instance satisfies the time lag for successor instance `s`
      (the `add_bool_or` over the reified booleans). */
  predicate LagWitnessed(jobs: seq<Job>, counts: seq<int>, starts: seq<int>, succ: nat, s: nat, pred: nat, lag: int)
    requires succ < |jobs| && pred < |jobs| && |starts| == |jobs| && |counts| == |jobs|
  {
    exists p :: 0 <= p < Count(counts, pred) && LagClause(jobs, starts, succ, s, pred, p, lag)
  }

  /** The time-lag rule of one edge: every successor instance is witnessed. */
  predicate LagHolds(jobs: seq<Job>, counts: seq<int>, starts: seq<int>, succ: nat, pred: nat, lag: int)
    requires succ < |jobs| && pred < |jobs| && |starts| == |jobs| && |counts| == |jobs|
  {
    forall s :: 0 <= s < Count(counts, succ) ==> LagWitnessed(jobs, counts, starts, succ, s, pred, lag)
  }

  /** With a non-negative lag the instance-offset comparison adds nothing: as long as both jobs
      have an instance, the time-lag rule holds exactly when the successor's start is at least
      the lag after the predecessor's first completion. */
  lemma LagRuleIsUnoffsetGap(jobs: seq<Job>, counts: seq<int>, starts: seq<int>, succ: nat, pred: nat, lag: int)
    requires succ < |jobs| && pred < |jobs| && |starts| == |jobs| && |counts| == |jobs|
    requires lag >= 0 && jobs[succ].period >= 0
    requires Count(counts, succ) >= 1 && Count(counts, pred) >= 1
    ensures LagHolds(jobs, counts, starts, succ, pred, lag) <==>
            starts[succ] >= starts[pred] + jobs[pred].processingTime + lag
  {
    if starts[succ] >= starts[pred] + jobs[pred].processingTime + lag {
      forall s | 0 <= s < Count(counts, succ)
        ensures LagWitnessed(jobs, counts, starts, succ, s, pred, lag)
      {
        assert s * jobs[succ].period >= 0;
        assert LagClause(jobs, starts, succ, s, pred, 0, lag);
      }
    } else {
      assert !LagWitnessed(jobs, counts, starts, succ, 0, pred, lag);
    }
  }

  /** A negative lag (a time lead) acts as a zero lag: since the lag is fused with the
      precedence, the predecessor's first instance must still complete before the successor
      starts. */
  lemma TimeLeadActsAsZeroLag(jobs: seq<Job>, counts: seq<int>, starts: seq<int>, succ: nat, pred: nat, lag: int)
    requires succ < |jobs| && pred < |jobs| && |starts| == |jobs| && |counts| == |jobs|
    requires lag < 0 && jobs[succ].period >= 0 && jobs[pred].period >= 0
    requires Count(counts, succ) >= 1 && Count(counts, pred) >= 1
    ensures LagHolds(jobs, counts, starts, succ, pred, lag) <==>
            starts[succ] >= starts[pred] + jobs[pred].processingTime
  {
    if starts[succ] >= starts[pred] + jobs[pred].processingTime {
      forall s | 0 <= s < Count(counts, succ)
        ensures LagWitnessed(jobs, counts, starts, succ, s, pred, lag)
      {
        assert s * jobs[succ].period >= 0;
        assert LagClause(jobs, starts, succ, s, pred, 0, lag);
      }
    } else {
      forall p | 0 <= p < Count(counts, pred)
        ensures !LagClause(jobs, starts, succ, 0, pred, p, lag)
      {
        assert p * jobs[pred].period >= 0;
      }
      assert !LagWitnessed(jobs, counts, starts, succ, 0, pred, lag);
    }
  }

  /** Evaluates the time-lag rule of one edge with the script's nested loops. */
  method CheckLag(jobs: seq<Job>, counts: seq<int>, starts: seq<int>, succ: nat, pred: nat, lag: int)
    returns (ok: bool)
    requires succ < |jobs| && pred < |jobs| && |starts| == |jobs| && |counts| == |jobs|
    ensures ok == LagHolds(jobs, counts, starts, succ, pred, lag)
  {
    ok := true;
    var s := 0;
    while s < counts[succ]
      invariant 0 <= s <= Count(counts, succ)
      invariant ok == forall s' :: 0 <= s' < s ==> LagWitnessed(jobs, counts, starts, succ, s', pred, lag)
    {
      var any := false;
      var p := 0;
      while p < counts[pred]
        invariant 0 <= p <= Count(counts, pred)
        invariant any == exists p' :: 0 <= p' < p && LagClause(jobs, starts, succ, s, pred, p', lag)
      {
        any := any || LagClause(jobs, starts, succ, s, pred, p, lag);
        p := p + 1;
      }
      assert any == LagWitnessed(jobs, counts, starts, succ, s, pred, lag);
      ok := ok && any;
      s := s + 1;
    }
  }

  // ---- slack time ----

  /** Predecessor instance `p` satisfies slack `slack` for successor instance `s`: the successor
      instance starts after that predecessor instance completes and at most `slack` later.
      A negative slack posts nothing, so the boolean is free. */
  predicate SlackClause(jobs: seq<Job>, starts: seq<int>, succ: nat, s: nat, pred: nat, p: nat, slack: int)
    requires succ < |jobs| && pred < |jobs| && |starts| == |jobs|
  {
    var done := starts[pred] + p * jobs[pred].period + jobs[pred].processingTime;
    var begin := starts[succ] + s * jobs[succ].period;
    slack >= 0 ==> done <= begin <= done + slack
  }

  predicate SlackWitnessed(jobs: seq<Job>, counts: seq<int>, starts: seq<int>, succ: nat, s: nat, pred: nat, slack: int)
    requires succ < |jobs| && pred < |jobs| && |starts| == |jobs| && |counts| == |jobs|
  {
    exists p :: 0 <= p < Count(counts, pred) && SlackClause(jobs, starts, succ, s, pred, p, slack)
  }

  /** The slack rule of one edge; an edge without a slack time posts nothing. */
  predicate SlackHolds(jobs: seq<Job>, counts: seq<int>, starts: seq<int>, succ: nat, pred: nat, slack: Option<int>)
    requires succ < |jobs| && pred < |jobs| && |starts| == |jobs| && |counts| == |jobs|
  {
    slack.Some? ==>
      forall s :: 0 <= s < Count(counts, succ) ==> SlackWitnessed(jobs, counts, starts, succ, s, pred, slack.value)
  }

  /** A negative slack restricts no start time: all that remains of it is that the
      predecessor has an instance whenever the successor has one. */
  lemma NegativeSlackImposesNothing(jobs: seq<Job>, counts: seq<int>, starts: seq<int>, succ: nat, pred: nat, slack: int)
    requires succ < |jobs| && pred < |jobs| && |starts| == |jobs| && |counts| == |jobs|
    requires slack < 0
    ensures SlackHolds(jobs, counts, starts, succ, pred, Some(slack)) <==>
            Count(counts, succ) == 0 || Count(counts, pred) >= 1
  {
    if Count(counts, pred) >= 1 {
      forall s | 0 <= s < Count(counts, succ)
        ensures SlackWitnessed(jobs, counts, starts, succ, s, pred, slack)
      {
        assert SlackClause(jobs, starts, succ, s, pred, 0, slack);
      }
    } else if Count(counts, succ) > 0 {
      assert !SlackWitnessed(jobs, counts, starts, succ, 0, pred, slack);
    }
  }

  /** Evaluates the slack rule of one edge with the script's nested loops. */
  method CheckSlack(jobs: seq<Job>, counts: seq<int>, starts: seq<int>, succ: nat, pred: nat, slack: Option<int>)
    returns (ok: bool)
    requires succ < |jobs| && pred < |jobs| && |starts| == |jobs| && |counts| == |jobs|
    ensures ok == SlackHolds(jobs, counts, starts, succ, pred, slack)
  {
    if slack.None? {
      return true;
    }
    ok := true;
    var s := 0;
    while s < counts[succ]
      invariant 0 <= s <= Count(counts, succ)
      invariant ok == forall s' :: 0 <= s' < s ==> SlackWitnessed(jobs, counts, starts, succ, s', pred, slack.value)
    {
      var any := false;
      var p := 0;
      while p < counts[pred]
        invariant 0 <= p <= Count(counts, pred)
        invariant any == exists p' :: 0 <= p' < p && SlackClause(jobs, starts, succ, s, pred, p', slack.value)
      {
        any := any || SlackClause(jobs, starts, succ, s, pred, p, slack.value);
        p := p + 1;
      }
      assert any == SlackWitnessed(jobs, counts, starts, succ, s, pred, slack.value);
      ok := ok && any;
      s := s + 1;
    }
  }
}
