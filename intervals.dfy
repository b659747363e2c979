/** The interval layout: one fixed-size interval per (job, instance), all sharing one resource. */
module Intervals {
  import opened Jobs

  /** Instance `instance` of job `job`: it starts `offset` after the job's start time and
      lasts `size`. */
  datatype Slot = Slot(job: nat, instance: nat, offset: int, size: int)

  /** The half-open time interval `[start, end)`. */
  datatype Interval = Interval(start: int, end: int)

  /** How many instances `range(counts[j])` visits: none for a negative count. */
  function Count(counts: seq<int>, j: nat): nat
    requires j < |counts|
  {
    if counts[j] < 0 then 0 else counts[j]
  }

  /** The number of slots of the jobs before job `n`. */
  function Offset(counts: seq<int>, n: nat): nat
    requires n <= |counts|
  {
    if n == 0 then 0 else Offset(counts, n - 1) + Count(counts, n - 1)
  }

  /** The slots of all jobs, `Offset(counts, |counts|)` in total. */
  function TotalInstances(counts: seq<int>): nat {
    Offset(counts, |counts|)
  }

  lemma {:induction false} OffsetMonotone(counts: seq<int>, j: nat, n: nat)
    requires j < n <= |counts|
    ensures Offset(counts, j) + Count(counts, j) <= Offset(counts, n)
    decreases n
  {
    if j < n - 1 {
      OffsetMonotone(counts, j, n - 1);
    }
  }

  /** The interval of instance `k` of job `j`: offset by `k` periods, as long as the job's
      processing time. */
  function SlotFor(jobs: seq<Job>, j: nat, k: nat): Slot
    requires j < |jobs|
  {
    Slot(j, k, k * jobs[j].period, jobs[j].processingTime)
  }

  function JobSlots(jobs: seq<Job>, j: nat, n: nat): seq<Slot>
    requires j < |jobs|
  {
    seq(n, k requires 0 <= k < n => SlotFor(jobs, j, k))
  }

  /** The slots of the jobs before job `n`, job by job and instance by instance: every entry
      is the slot of one (job, instance) pair, whose position it determines. */
  function LayoutUpTo(jobs: seq<Job>, counts: seq<int>, n: nat): (r: seq<Slot>)
    requires |counts| == |jobs| && n <= |jobs|
    ensures |r| == Offset(counts, n)
    ensures forall idx :: 0 <= idx < |r| ==>
      && r[idx].job < n && r[idx].instance < Count(counts, r[idx].job)
      && idx == Offset(counts, r[idx].job) + r[idx].instance
      && r[idx] == SlotFor(jobs, r[idx].job, r[idx].instance)
  {
    if n == 0 then [] else LayoutUpTo(jobs, counts, n - 1) + JobSlots(jobs, n - 1, Count(counts, n - 1))
  }

  /** ... and every pair has its entry. */
  lemma {:induction false} LayoutUpToAt(jobs: seq<Job>, counts: seq<int>, n: nat, j: nat, k: nat)
    requires |counts| == |jobs| && j < n <= |jobs| && k < Count(counts, j)
    ensures Offset(counts, j) + k < |LayoutUpTo(jobs, counts, n)|
    ensures LayoutUpTo(jobs, counts, n)[Offset(counts, j) + k] == SlotFor(jobs, j, k)
  {
    if j < n - 1 {
      LayoutUpToAt(jobs, counts, n - 1, j, k);
      OffsetMonotone(counts, j, n - 1);
    }
  }

  /** The intervals posted to the no-overlap constraint, in job-major order,
      `TotalInstances(counts)` in all. */
  function Layout(jobs: seq<Job>, counts: seq<int>): (r: seq<Slot>)
    requires |counts| == |jobs|
    ensures |r| == TotalInstances(counts)
    ensures forall idx :: 0 <= idx < |r| ==>
      && r[idx].job < |jobs| && r[idx].instance < Count(counts, r[idx].job)
      && idx == Offset(counts, r[idx].job) + r[idx].instance
      && r[idx] == SlotFor(jobs, r[idx].job, r[idx].instance)
  {
    LayoutUpTo(jobs, counts, |jobs|)
  }

  /** Every (job, instance) pair has its slot, at the position the job offsets determine. */
  lemma LayoutAt(jobs: seq<Job>, counts: seq<int>, j: nat, k: nat)
    requires |counts| == |jobs| && j < |jobs| && k < Count(counts, j)
    ensures Offset(counts, j) + k < |Layout(jobs, counts)|
    ensures Layout(jobs, counts)[Offset(counts, j) + k] == SlotFor(jobs, j, k)
  {
    LayoutUpToAt(jobs, counts, |jobs|, j, k);
  }

  /** Builds the interval list as the script does: for every job, for every instance, append. */
  method BuildIntervals(jobs: seq<Job>, counts: seq<int>) returns (slots: seq<Slot>)
    requires |counts| == |jobs|
    ensures slots == Layout(jobs, counts)
  {
    slots := [];
    var j := 0;
    while j < |jobs|
      invariant 0 <= j <= |jobs|
      invariant slots == LayoutUpTo(jobs, counts, j)
    {
      var k := 0;
      while k < counts[j]
        invariant 0 <= k <= Count(counts, j)
        invariant slots == LayoutUpTo(jobs, counts, j) + JobSlots(jobs, j, k)
      {
        assert JobSlots(jobs, j, k + 1) == JobSlots(jobs, j, k) + [SlotFor(jobs, j, k)];
        slots := slots + [SlotFor(jobs, j, k)];
        k := k + 1;
      }
      assert k == Count(counts, j);
      j := j + 1;
    }
  }

  /** Where a slot lies once the job start times are known. */
  function Place(slot: Slot, starts: seq<int>): Interval
    requires slot.job < |starts|
  {
    var s := starts[slot.job] + slot.offset;
    Interval(s, s + slot.size)
  }

  /** The two intervals do not overlap: one ends before the other starts. */
  predicate Disjoint(x: Interval, y: Interval) {
    x.end <= y.start || y.end <= x.start
  }

  predicate Covers(x: Interval, t: int) {
    x.start <= t < x.end
  }

  /** For non-empty intervals, not overlapping means sharing no time point. */
  lemma DisjointIffNoCommonPoint(x: Interval, y: Interval)
    requires x.start < x.end && y.start < y.end
    ensures Disjoint(x, y) <==> !exists t :: Covers(x, t) && Covers(y, t)
  {
    if !Disjoint(x, y) {
      var t := if x.start < y.start then y.start else x.start;
      assert Covers(x, t) && Covers(y, t);
    }
  }
}
