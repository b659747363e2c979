# Periodic job scheduling: a Dafny model

This project models a periodic, non-preemptive, single-resource job scheduler and the
harmonic-period helper that comes with it.

The scheduler, `schedule.py`, works in five stages:

1. It reads a table of jobs. Each job has a name and a period. It may also have:
   - a fixed start time, a processing time, a release time and a deadline;
   - predecessors, each with a time lag and a slack time;
   - three objective weights.
2. It normalises every row, filling in the defaults. The first row whose precedence columns
   disagree stops the run.
3. It computes the hyper-period (the least common multiple of all periods) and the number of
   instances each job runs within it.
4. It posts its constraints to a constraint solver:
   - a start-time domain per job;
   - release times and deadlines;
   - one fixed-size interval per job instance, with no two intervals on the shared resource
     overlapping;
   - a time-lag rule and a slack-time rule for each predecessor edge.
5. It minimises a weighted sum of completion, flow and earliness times. It then reports the
   verdict, or prints the schedule it found.

The helper, `harmonic_period_sequences.py`, enumerates the harmonic period supersequences of
an integer `n`. At each step the sequence, whose last element is `c`, is extended by `c // p`,
for each prime factor `p` of `c`, until it ends in 1. It also lists the divisors of `n` from
largest to smallest.

The model turns the solver's part around. Instead of searching, it takes a start-time
assignment as a parameter and states exactly when that assignment meets every constraint the
script posts (`Feasibility.Feasible`). The solver's status and the values it assigns are
parameters of the reporting step.

Modules, one file each, in the order the script runs its stages:
- `wrappers.dfy`: `Option` and `Result`.
- `arith.dfy`: Python floor division and a few arithmetic facts.
- `lcm.dfy`: `math.lcm`.
- `jobs.dfy`: rows, jobs, normalisation and reading the table.
- `horizon.dfy`: the hyper-period and the instance counts.
- `intervals.dfy`: the interval layout.
- `precedence.dfy`: predecessor lookup and the lag and slack rules.
- `feasibility.dfy`: the meaning of all posted constraints, and checkers for them.
- `properties.dfy`: consequences of feasibility, and the concrete schedules that show the
  quirks listed below.
- `objective.dfy`: the minimised expression.
- `report.dfy`: the verdict and the printed schedule.
- `primes.dfy`: prime factors, divisors, and Ω (the number of prime factors, counted with
  multiplicity).
- `harmonic.dfy`: the recursive generator (a class whose method appends to a list it owns,
  as the script's global list is appended to) and what it produces.

Python semantics are written out:
- `//` is floor division.
- `math.lcm` works on absolute values, and a zero argument makes it zero.
- `range` over a negative count is empty.
- A division by zero and a missing predecessor (`[...][0]` on an empty list) become error
  values.
- `sympy.primefactors` and `sympy.divisors` work on `|n|`, and give nothing for 0.

These behaviours of the code are kept as written, and each is proved:
- The second time-lag comparison compares the two jobs' first starts, not the instances'
  starts. For a non-negative lag this makes the instance offsets irrelevant
  (`LagRuleIsUnoffsetGap`), and a negative lag (a time lead) acts exactly as a zero lag
  (`TimeLeadActsAsZeroLag`).
- A fixed start time is posted as a constant with no bound check
  (`FixedStartIsNotBoundChecked`).
- A negative slack time leaves its reified booleans unconstrained
  (`NegativeSlackImposesNothing`).
- A predecessor name resolves to the first job with that name.

The comment at `schedule.py:208` says that a job with a smaller period cannot be a successor
to a job with a larger period. The constraints the code posts do not enforce this.
`ShorterPeriodSuccessorCanBeFeasible` exhibits a feasible two-job table in which it happens.
The model follows the code.

## Model

| member | source | states |
|---|---|---|
| Arith.FloorDiv | schedule.py:145 | Python's `//` for a non-zero divisor: the quotient rounded towards negative infinity, so the remainder lies between 0 and the divisor (also `current_n // next_n` at harmonic_period_sequences.py:47) |
| Jobs.DefaultSlackTimes | schedule.py:50-56 | definition: the slack list as given; when the cell is empty and there are predecessors, one "no limit" per predecessor; otherwise none |
| Jobs.DefaultTimeLags | schedule.py:65-71 | definition: the lag list as given; when the cell is empty and there are predecessors, one zero lag per predecessor; otherwise none |
| Jobs.NormalizeRow | schedule.py:41-136 | a row normalises to a job exactly when its slack times and time lags agree with its predecessors; otherwise the error list is non-empty; every job produced has one lag and one slack entry per predecessor, or none of the three lists |
| Jobs.NormalizeRowErrors | schedule.py:73-103 | for an inconsistent row, each of the four inconsistencies is reported if and only if the row has it |
| Jobs.RowErrors | schedule.py:73-100 | definition: without predecessors, a slack list and then a lag list are each an error; with predecessors, a slack list of another length and then a lag list of another length are each an error, in the order of the script's checks |
| Jobs.NormalizeRowDefaults | schedule.py:42-135 | normalised fields are copied from the row when present; otherwise: processing time 1, weights 0, lags one 0 per predecessor, slack one "no limit" per predecessor, optional fields absent |
| Jobs.NormalizeWrittenJob | schedule.py:105-135 | a normalised job written back with every field present reads back as the same job |
| Jobs.ReadJobs | schedule.py:41-136 | the table is read if and only if every row is consistent, and then each job is its row normalised; otherwise the errors are those of a row that is preceded only by consistent rows |
| Lcm.LcmPosDividesCommonMultiple | schedule.py:140 | the least common multiple of two positive numbers divides every positive common multiple |
| Lcm.LcmOf | schedule.py:140 | `math.lcm` folded from the left over absolute values, 1 for no argument; zero exactly when some argument is zero |
| Lcm.LcmOfIsLeastCommonMultiple | schedule.py:140 | without a zero argument, `lcm` of a list is positive, divisible by every absolute argument, and divides (and is at most) every positive common multiple |
| Horizon.HyperPeriodIsLeastCommonMultiple | schedule.py:139-140 | without a zero period the hyper-period is positive, a multiple of every period, and the least such |
| Horizon.HyperPeriod | schedule.py:139-140 | definition: `LcmOf` of the list of periods, taken in job order |
| Horizon.HarmonicHyperPeriod | schedule.py:139-140 | when one period is a multiple of all the others, the hyper-period is that period (in absolute value) |
| Horizon.ZeroPeriodGivesZeroHyperPeriod | schedule.py:140 | one zero period makes the hyper-period zero |
| Horizon.Instances | schedule.py:143-145 | each job's instance count times its period is the hyper-period, and a job with a positive period has at least one instance |
| Horizon.ComputeInstances | schedule.py:139-145 | succeeds exactly when no period is zero, giving the instance counts; otherwise it fails at the first job with a zero period |
| Intervals.Layout | schedule.py:177-185 | the interval list has one entry per (job, instance) pair, at position job offset plus instance, sized by the job's processing time and offset by instance × period |
| Intervals.LayoutAt | schedule.py:177-185 | every (job, instance) pair within the instance counts has its interval in the list |
| Intervals.BuildIntervals | schedule.py:177-185 | the nested loops build exactly that layout, a negative count contributing nothing |
| Intervals.DisjointIffNoCommonPoint | schedule.py:187 | two non-empty intervals satisfy the no-overlap test if and only if no time point lies in both |
| Precedence.MatchesFrom | schedule.py:200-204 | the list comprehension holds exactly the indices of the jobs with that name, in increasing order |
| Precedence.Lookup | schedule.py:200-204 | the predecessor is the first job with that name; there is none exactly when no job has that name |
| Precedence.FindUnresolved | schedule.py:191-204 | there is no unresolved name exactly when every predecessor named anywhere exists; otherwise it returns the first name, in the order the edges are visited, that no job has |
| Precedence.LagRuleIsUnoffsetGap | schedule.py:211-242 | with a non-negative lag, a non-negative successor period and at least one instance of each job, the time-lag rule (some predecessor instance completes before each successor instance, and the second comparison holds) holds if and only if the successor's first start is at least `lag` after the predecessor's first completion: the instance offsets add nothing |
| Precedence.TimeLeadActsAsZeroLag | schedule.py:211-242 | with a negative lag, non-negative periods and at least one instance of each job, the time-lag rule holds if and only if the successor's first start is no earlier than the predecessor's first completion: a time lead relaxes nothing |
| Precedence.LagClause | schedule.py:225-238 | definition: the two conditions reified by one time-lag boolean: the predecessor instance completes no later than the successor instance starts, and the successor's first start is at least the lag after the predecessor's first completion |
| Precedence.LagHolds | schedule.py:212-242 | definition: for every successor instance some predecessor instance meets `LagClause` (the `add_bool_or`; an empty predecessor range makes it fail) |
| Precedence.CheckLag | schedule.py:212-242 | the nested instance loops decide the time-lag rule of an edge |
| Precedence.NegativeSlackImposesNothing | schedule.py:244-284 | with a negative slack time the slack rule holds exactly when the predecessor has at least one instance or the successor has none; no start time is restricted |
| Precedence.CheckSlack | schedule.py:245-284 | the nested instance loops decide the slack rule of an edge, and an edge without slack posts nothing |
| Precedence.SlackClause | schedule.py:257-281 | definition: for a non-negative slack, the predecessor instance completes no later than the successor instance starts and the successor instance starts at most the slack later; for a negative slack, no condition |
| Precedence.SlackHolds | schedule.py:245-284 | definition: an edge without a slack time posts nothing; otherwise every successor instance has some predecessor instance meeting `SlackClause` |
| Feasibility.CheckStarts | schedule.py:152-175 | every start lies in its domain (a free start in `[0, period - processing time]`, a fixed start equal to the given one) and meets its release time and deadline |
| Feasibility.NoOverlap | schedule.py:187 | definition: the single no-overlap constraint over the posted list: every two entries of the list, placed at their job's start plus their offset, are disjoint |
| Feasibility.CheckNoOverlap | schedule.py:187 | the pairwise test decides that no two posted intervals overlap |
| Feasibility.PredecessorOf | schedule.py:199-204 | definition: the index of the first job whose name is the edge's predecessor name; for a table whose names all resolve it is a valid index |
| Feasibility.EdgeHolds | schedule.py:191-284 | definition: the edge's time-lag rule with its lag, and its slack rule with its slack time, both against the job `PredecessorOf` gives |
| Feasibility.CheckEdges | schedule.py:191-284 | decides that every predecessor edge meets its time-lag and slack rules |
| Feasibility.CheckFeasible | schedule.py:152-284 | decides exactly whether a start assignment meets every posted constraint |
| Feasibility.StartAllowed | schedule.py:158-166 | definition: a fixed start equals its constant, with no bound; a free start lies in `[0, period - processing time]` |
| Feasibility.WithinWindow | schedule.py:171-175 | definition: the start is at least the release time, and start plus processing time is at most the deadline, where these are given |
| Feasibility.Feasible | schedule.py:152-284 | definition: every start is allowed and within its window, no two posted instance intervals overlap, and every predecessor edge meets its time-lag and slack rules |
| ScheduleProperties.InstanceWithinHyperPeriod | schedule.py:152-185 | for a job whose free start lies in its domain, every one of its instance intervals lies inside `[0, hyper-period)` |
| ScheduleProperties.NoOverlapIffInstancesDisjoint | schedule.py:177-187 | the no-overlap constraint over the list holds if and only if every two distinct (job, instance) pairs occupy disjoint intervals |
| ScheduleProperties.FeasibleInstancesDisjoint | schedule.py:177-187 | in a feasible schedule no two job instances overlap on the resource |
| ScheduleProperties.FeasibleLagGap | schedule.py:233-238 | in a feasible schedule, a successor with a positive period starts at least `lag` after its predecessor's first completion, for a lag of either sign |
| ScheduleProperties.LagMustFitSuccessorPeriod | schedule.py:158-163 | when both starts are free and the successor's period is positive, a feasible edge needs predecessor processing time plus lag, for a lag of either sign, to fit within the successor's period minus its processing time |
| ScheduleProperties.FixedStartIsNotBoundChecked | schedule.py:164-166 | a fixed start time is not checked against `[0, period - processing time]`: a job of period 4 fixed at 10 is feasible, its only instance starting after the hyper-period |
| ScheduleProperties.ShorterPeriodSuccessorCanBeFeasible | schedule.py:208 | a job with period 2 can be a feasible successor of a job with period 4 |
| Objective.FlowTime | schedule.py:291-295 | a flow time exists exactly for a job with a release time, is its completion time minus the release time, and is at least the processing time exactly when the start meets the release-time constraint |
| Objective.Earliness | schedule.py:296-300 | an earliness exists exactly for a job with a deadline, is the deadline minus its completion time, and is non-negative exactly when the start meets the deadline constraint |
| Objective.ObjectiveValue | schedule.py:302-322 | definition: the sum of weighted completion times, plus the weighted flow times of the jobs with a release time, plus the weighted earliness of the jobs with a deadline |
| Objective.ObjectiveIsSumOfJobCosts | schedule.py:302-322 | the three sums regroup into a sum of per-job costs |
| Objective.JobCostIsLinear | schedule.py:287-322 | delaying a job by `d` changes its cost by `d` times its completion weight, plus its flow weight if it has a release time, minus its earliness weight if it has a deadline |
| Objective.UnweightedObjectiveIsZero | schedule.py:302-322 | with every weight zero (the default) the objective is zero for every assignment |
| Report.RowFor | schedule.py:336-347 | definition: the printed line of one job: the job with its start set to the solved value (the one `start_time` column), its instance count, the completion time, and a flow time and an earliness where the job has a release time or a deadline |
| Report.ReportSolution | schedule.py:330-367 | the reported outcome is the verdict that the solver's status and values determine |
| Report.Decide | schedule.py:330-367 | definition: on OPTIMAL or FEASIBLE, "input feasible" when every start was given and otherwise the solved rows; INFEASIBLE, UNKNOWN and any other status each give their own outcome |
| Report.DecideOutcome | schedule.py:330-367 | a schedule is printed exactly when the solver found a solution and some start was free; the other outcomes correspond one to one to the statuses; each printed row carries the solved start, completion, flow time and earliness |
| Report.SolvedRowsRespectWindows | schedule.py:336-347 | for a feasible solution every printed flow time is at least the processing time, every earliness is non-negative, and a fixed start is printed unchanged |
| Report.PrintedScheduleRoundTrip | schedule.py:330-358 | feeding the printed schedule back in gives a buildable table whose only feasible assignment is the solved one, and, when the solver reports success, the run reports the input feasible |
| Primes.PrimeFactors | harmonic_period_sequences.py:45 | exactly the distinct primes dividing `n`, in increasing order; none for 0 |
| Primes.Divisors | harmonic_period_sequences.py:56 | exactly the positive divisors of `n`, in increasing order; none for 0 |
| Primes.DescendingDivisors | harmonic_period_sequences.py:56 | definition: `list(reversed(divisors(n)))`, the divisor list in reverse |
| Primes.DescendingDivisorsAreDivisors | harmonic_period_sequences.py:56 | the printed divisor list holds exactly the positive divisors of `n`, strictly decreasing, starting with `|n|` |
| Primes.OmegaStep | harmonic_period_sequences.py:45-48 | dividing out any prime factor lowers the number of prime factors, counted with multiplicity, by one |
| Harmonic.Collector.constructor | harmonic_period_sequences.py:33 | the collected list starts empty |
| Harmonic.Collector.Generate | harmonic_period_sequences.py:40-48 | a call appends exactly the sequences the recursive definition generates from the current sequence, and changes nothing else |
| Harmonic.Run | harmonic_period_sequences.py:51-56 | returns the supersequences of `n`, and the divisors of `n` from largest to smallest |
| Harmonic.Generated | harmonic_period_sequences.py:40-48 | definition: a sequence ending in 1 is collected as it is; otherwise the sequences of each extension by `last // p` are collected, for the prime factors `p` of the last element in increasing order |
| Harmonic.GeneratedEach | harmonic_period_sequences.py:46-48 | definition: the loop over a list of prime factors, concatenating the sequences generated from each extension in list order |
| Harmonic.Supersequences | harmonic_period_sequences.py:51 | definition: what the seed call on `[n]` collects |
| Harmonic.SupersequenceShape | harmonic_period_sequences.py:40-51 | every supersequence starts at `n`, ends at 1, and each element is the previous one divided by one of its prime factors, so it strictly decreases |
| Harmonic.SupersequenceElementsAreDivisors | harmonic_period_sequences.py:40-56 | every element of every supersequence is a positive divisor of `n` |
| Harmonic.SupersequenceLength | harmonic_period_sequences.py:40-48 | every supersequence has one more element than `n` has prime factors counted with multiplicity |
| Harmonic.NoSupersequencesForNonPositive | harmonic_period_sequences.py:40-48 | zero and negative `n` have no supersequences |
| Harmonic.SupersequencesDistinct | harmonic_period_sequences.py:45-48 | the supersequences are listed in order (the larger next element first) and no two are equal |
| Harmonic.SupersequencesOfOne | harmonic_period_sequences.py:41-43 | the supersequences of 1 are just `[1]` |
| Harmonic.SupersequencesOfFour | harmonic_period_sequences.py:20-21 | the supersequences of 4 are just `[4, 2, 1]` |

## Left out

- Reading the CSV file and the command line, and `ast.literal_eval`: the model starts from
  rows whose cells are already parsed. For the optional columns a missing column and an empty
  cell are both `None`; an absent `name` or `period` column (a `KeyError`) or an empty `period`
  cell (a `ValueError`) is not modelled: every row has a name and an integer period.
  Malformed cell text (a `ValueError` from `int`, a literal of the wrong shape) is not modelled.
- Writing the CSV output: the printed schedule is modelled as its rows and as the jobs with
  their start times fixed. The text of the CSV (column order, how `None` and lists are
  spelled) is not modelled.
- The exit status of `sys.exit()` and the text of all messages printed on the error stream:
  only which outcome is reached is modelled.
- The CP-SAT search itself, its 60-second time limit and its optimality: the status and the
  assigned values are parameters. The model states what a feasible assignment is and what
  the objective is, but not that the reported assignment minimises it.
- How CP-SAT treats zero-size and negative-size intervals: the no-overlap test is the plain
  pairwise test that one interval ends before the other starts.
- The solver variables the script keeps in each job record (`start_time_var`,
  `completion_time_var`, `flow_time_var`, `earliness_var`) and removes before printing: the
  model has no solver variables. The `instances` column stays in the printed rows
  (`SolvedRow.instances`).
- `print` and `pprint` of the helper's results: `Harmonic.Run` returns them.
- Machine limits: Python's default recursion limit, which the generator reaches for an `n` with
  about a thousand prime factors (say `2**1000`), where the script raises `RecursionError` but
  `Harmonic.Run` returns the sequence; and CP-SAT's 64-bit integer domains. The model uses
  unbounded integers and unbounded recursion.
- `schedule_viz.py` (plotting a schedule): it is not part of this model.
- `sympy.primefactors` and `sympy.divisors` are specified by what they return, not by how
  sympy computes it.
