/** The job table: one row per job, normalised into a job record with its defaults resolved. */
module Jobs {
  import opened Wrappers

  /** A row of the input table after its cells have been parsed. `None` stands for a column
      the table does not have as well as for an empty cell; the two are treated alike. */
  datatype Row = Row(
    name: string,
    period: int,
    startTime: Option<int>,
    processingTime: Option<int>,
    releaseTime: Option<int>,
    deadline: Option<int>,
    predecessors: Option<seq<string>>,
    timeLags: Option<seq<int>>,
    slackTimes: Option<seq<Option<int>>>,
    completionTimeWeight: Option<int>,
    flowTimeWeight: Option<int>,
    earlinessWeight: Option<int>)

  /** A normalised job. A `None` slack time inside `slackTimes` means "no slack limit". */
  datatype Job = Job(
    name: string,
    period: int,
    startTime: Option<int>,
    processingTime: int,
    releaseTime: Option<int>,
    deadline: Option<int>,
    predecessors: Option<seq<string>>,
    timeLags: Option<seq<int>>,
    slackTimes: Option<seq<Option<int>>>,
    completionTimeWeight: int,
    flowTimeWeight: int,
    earlinessWeight: int)

  /** The inconsistencies between predecessors, time lags and slack times that abort the script. */
  datatype ConfigError =
    | SlackTimesWithoutPredecessors
    | TimeLagsWithoutPredecessors
    | SlackTimesCountMismatch
    | TimeLagsCountMismatch

  /** A row whose time lags and slack times agree with its predecessors: none of them without
      predecessors, and, when given, exactly one per predecessor. */
  predicate Consistent(row: Row) {
    match row.predecessors
    case None => row.slackTimes.None? && row.timeLags.None?
    case Some(ps) =>
      && (row.slackTimes.Some? ==> |row.slackTimes.value| == |ps|)
      && (row.timeLags.Some? ==> |row.timeLags.value| == |ps|)
  }

  /** What every normalised job satisfies: either no predecessor list and no lag or slack list,
      or a lag and a slack entry for every predecessor. */
  predicate WellFormed(job: Job) {
    match job.predecessors
    case None => job.timeLags.None? && job.slackTimes.None?
    case Some(ps) =>
      && job.timeLags.Some? && |job.timeLags.value| == |ps|
      && job.slackTimes.Some? && |job.slackTimes.value| == |ps|
  }

  /** Slack times as given, or one "no limit" per predecessor when the cell is empty. */
  function DefaultSlackTimes(row: Row): Option<seq<Option<int>>> {
    if row.slackTimes.Some? then row.slackTimes
    else if row.predecessors.Some? then Some(seq(|row.predecessors.value|, _ => None))
    else None
  }

  /** Time lags as given, or a zero lag per predecessor when the cell is empty. */
  function DefaultTimeLags(row: Row): Option<seq<int>> {
    if row.timeLags.Some? then row.timeLags
    else if row.predecessors.Some? then Some(seq(|row.predecessors.value|, _ => 0))
    else None
  }

  /** The inconsistencies of a row, in the order the script reports them. */
  function RowErrors(row: Row): seq<ConfigError> {
    var slacks, lags := DefaultSlackTimes(row), DefaultTimeLags(row);
    match row.predecessors
    case None =>
      (if slacks.Some? then [SlackTimesWithoutPredecessors] else [])
      + (if lags.Some? then [TimeLagsWithoutPredecessors] else [])
    case Some(ps) =>
      (if slacks.Some? && |ps| != |slacks.value| then [SlackTimesCountMismatch] else [])
      + (if lags.None? || |ps| != |lags.value| then [TimeLagsCountMismatch] else [])
  }

  /** Normalises one row: reports its inconsistencies, or builds the job with every default
      resolved (processing time 1, weights 0, zero lags, unlimited slacks). */
  function NormalizeRow(row: Row): (r: Result<Job, seq<ConfigError>>)
    ensures r.Ok? <==> Consistent(row)
    ensures r.Err? ==> r.error != []
    ensures r.Ok? ==> WellFormed(r.value)
  {
    var errors := RowErrors(row);
    if errors != [] then Err(errors)
    else
      Ok(Job(
        row.name,
        row.period,
        row.startTime,
        row.processingTime.GetOr(1),
        row.releaseTime,
        row.deadline,
        row.predecessors,
        DefaultTimeLags(row),
        DefaultSlackTimes(row),
        row.completionTimeWeight.GetOr(0),
        row.flowTimeWeight.GetOr(0),
        row.earlinessWeight.GetOr(0)))
  }


  /** The errors of an inconsistent row: exactly the inconsistencies it has. */
  lemma NormalizeRowErrors(row: Row)
    requires !Consistent(row)
    ensures NormalizeRow(row).Err?
    ensures var errors := NormalizeRow(row).error;
      && (SlackTimesWithoutPredecessors in errors <==> row.predecessors.None? && row.slackTimes.Some?)
      && (TimeLagsWithoutPredecessors in errors <==> row.predecessors.None? && row.timeLags.Some?)
      && (SlackTimesCountMismatch in errors <==>
            row.predecessors.Some? && row.slackTimes.Some? && |row.slackTimes.value| != |row.predecessors.value|)
      && (TimeLagsCountMismatch in errors <==>
            row.predecessors.Some? && row.timeLags.Some? && |row.timeLags.value| != |row.predecessors.value|)
  {
  }

  /** The fields of a normalised job: copied from the row, or their defaults when missing
      (processing time 1, weights 0, a zero lag and no slack limit per predecessor). */
  lemma NormalizeRowDefaults(row: Row)
    requires Consistent(row)
    ensures NormalizeRow(row).Ok?
    ensures var job := NormalizeRow(row).value;
      && job.name == row.name && job.period == row.period && job.startTime == row.startTime
      && job.releaseTime == row.releaseTime && job.deadline == row.deadline
      && job.predecessors == row.predecessors
      && job.processingTime == (if row.processingTime.Some? then row.processingTime.value else 1)
      && job.completionTimeWeight == (if row.completionTimeWeight.Some? then row.completionTimeWeight.value else 0)
      && job.flowTimeWeight == (if row.flowTimeWeight.Some? then row.flowTimeWeight.value else 0)
      && job.earlinessWeight == (if row.earlinessWeight.Some? then row.earlinessWeight.value else 0)
      && (row.timeLags.Some? ==> job.timeLags == row.timeLags)
      && (row.slackTimes.Some? ==> job.slackTimes == row.slackTimes)
      && (row.predecessors.Some? && row.timeLags.None? ==>
            forall e :: 0 <= e < |row.predecessors.value| ==> job.timeLags.value[e] == 0)
      && (row.predecessors.Some? && row.slackTimes.None? ==>
            forall e :: 0 <= e < |row.predecessors.value| ==> job.slackTimes.value[e] == None)
  {
  }

  /** The row a job is written back as: every field present, just as the schedule is printed. */
  function ToRow(job: Job): Row {
    Row(job.name, job.period, job.startTime, Some(job.processingTime), job.releaseTime,
        job.deadline, job.predecessors, job.timeLags, job.slackTimes,
        Some(job.completionTimeWeight), Some(job.flowTimeWeight), Some(job.earlinessWeight))
  }

  /** Reading a written job back gives the same job. */
  lemma NormalizeWrittenJob(job: Job)
    requires WellFormed(job)
    ensures NormalizeRow(ToRow(job)) == Ok(job)
  {
  }

  /** Reads the table row by row, stopping at the first inconsistent row with its errors. */
  method ReadJobs(rows: seq<Row>) returns (r: Result<seq<Job>, seq<ConfigError>>)
    ensures r.Ok? <==> forall i :: 0 <= i < |rows| ==> Consistent(rows[i])
    ensures r.Ok? ==> |r.value| == |rows|
    ensures r.Ok? ==> forall i :: 0 <= i < |rows| ==> NormalizeRow(rows[i]).Ok? && NormalizeRow(rows[i]).value == r.value[i]
    ensures r.Err? ==>
      exists i :: 0 <= i < |rows| && NormalizeRow(rows[i]).Err? && NormalizeRow(rows[i]).error == r.error
                  && forall k :: 0 <= k < i ==> Consistent(rows[k])
  {
    var jobs: seq<Job> := [];
    var i := 0;
    while i < |rows|
      invariant 0 <= i <= |rows| && |jobs| == i
      invariant forall k :: 0 <= k < i ==> NormalizeRow(rows[k]).Ok? && NormalizeRow(rows[k]).value == jobs[k]
      invariant forall k :: 0 <= k < i ==> Consistent(rows[k])
    {
      var n := NormalizeRow(rows[i]);
      if n.Err? {
        r := Err(n.error);
        return;
      }
      jobs := jobs + [n.value];
      i := i + 1;
    }
    return Ok(jobs);
  }
}
