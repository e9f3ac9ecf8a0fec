/**
 * The status reducer: one cycle of JePiAlert's nested loop over the job names
 * to check and the jobs the server reported. A matching job is inspected
 * (the body of the inner `if`), and the two flags are ORed over all matches.
 * A job whose details are null, or whose details or last-build details throw
 * an IOException, is skipped; a NullPointerException aborts the whole cycle.
 *
 * Within one inspection every repeated client call is taken to answer the
 * same as the first (one snapshot per job and cycle).
 */
module Reducer {
  import opened Nullable
  import opened Jenkins
  import opened Probes

  /** What inspecting one matched job does to the cycle. */
  datatype JobOutcome =
    | Skip                                     // logged and ignored
    | Signals(hasErrors: bool, isBuilding: bool)
    | Throws                                   // NullPointerException: the cycle aborts

  /** What one cycle yields: the two flags or a RuntimeException ending the session. */
  datatype CycleResult = Alert(hasErrors: bool, isBuilding: bool) | SessionFault

  /** The job's details, its last build and that build's details and result
      all are there: the job can be judged. */
  predicate Resolvable(job: Job) {
    && job.details.Got?
    && job.details.value.lastBuild.Some?
    && job.details.value.lastBuild.value.details.Got?
    && job.details.value.lastBuild.value.details.value.result.Some?
  }

  /** The last build's details of a resolvable job. */
  function Latest(job: Job): (d: BuildDetails)
    requires Resolvable(job)
    ensures Some(Build(Got(d))) == job.details.value.lastBuild
  {
    job.details.value.lastBuild.value.details.value
  }

  /** Inspecting the job dereferences null: it has details but no last build,
      or its last build's details have no result. */
  predicate HitsNull(job: Job) {
    && job.details.Got?
    && (|| job.details.value.lastBuild.None?
        || (&& job.details.value.lastBuild.value.details.Got?
            && job.details.value.lastBuild.value.details.value.result.None?))
  }

  /** The body of the inner `if` for a job whose name matched. */
  function Inspect(job: Job): (o: JobOutcome)
    ensures o.Signals? <==> Resolvable(job)
    ensures o.Signals? ==> o.hasErrors == (Latest(job).result.value in ErrorResults)
    ensures o.Signals? ==> o.isBuilding == Latest(job).building
    ensures o.Throws? <==> HitsNull(job)
  {
    match job.details
    case IOFailure => Skip            // details() threw: caught and logged
    case Null => Skip                 // no details: logged
    case Got(d) =>
      match d.lastBuild
      case None => Throws             // getLastBuild().details() on null
      case Some(b) =>
        match b.details
        case IOFailure => Skip        // caught and logged
        case Null => Skip             // the `!= null` guard
        case Got(bd) =>
          if bd.result.None? then Throws   // getResult().toString() in the log call
          else Signals(HasErrors(d).value, IsBuilding(d).value)
  }

  /** The three things a matched job can contribute to a cycle. */
  datatype Signal = ErrorSignal | BuildingSignal | FaultSignal

  predicate Emits(o: JobOutcome, s: Signal) {
    match s
    case ErrorSignal => o.Signals? && o.hasErrors
    case BuildingSignal => o.Signals? && o.isBuilding
    case FaultSignal => o.Throws?
  }

  /** Some discovered job whose name is among the checked names emits `s`. */
  predicate SomeChecked(checks: seq<string>, jobs: seq<Job>, s: Signal) {
    exists job :: job in jobs && job.name in checks && Emits(Inspect(job), s)
  }

  /** The declarative meaning of one cycle. */
  function Reduce(checks: seq<string>, jobs: seq<Job>): (r: CycleResult)
    ensures r.SessionFault? <==> exists job :: job in jobs && job.name in checks && HitsNull(job)
    ensures r.Alert? ==>
      (r.hasErrors <==> exists job :: job in jobs && job.name in checks && Resolvable(job)
                                   && Latest(job).result.value in ErrorResults)
    ensures r.Alert? ==>
      (r.isBuilding <==> exists job :: job in jobs && job.name in checks && Resolvable(job)
                                    && Latest(job).building)
    ensures checks == [] ==> r == Alert(false, false)
    ensures (forall job :: job in jobs ==> job.name !in checks) ==> r == Alert(false, false)
  {
    if SomeChecked(checks, jobs, FaultSignal) then SessionFault
    else Alert(SomeChecked(checks, jobs, ErrorSignal), SomeChecked(checks, jobs, BuildingSignal))
  }

  /** One cycle: `for (jobToCheck : jobsToCheck) for (job : jobs.entrySet())`. */
  method CheckStatus(checks: seq<string>, jobs: seq<Job>) returns (r: CycleResult)
    ensures r == Reduce(checks, jobs)
  {
    var hasErrors, isBuilding := false, false;
    for i := 0 to |checks|
      invariant !SomeChecked(checks[..i], jobs, FaultSignal)
      invariant hasErrors == SomeChecked(checks[..i], jobs, ErrorSignal)
      invariant isBuilding == SomeChecked(checks[..i], jobs, BuildingSignal)
    {
      var jobToCheck := checks[i];
      for k := 0 to |jobs|
        invariant !SomeChecked(checks[..i], jobs, FaultSignal)
        invariant !SomeChecked([jobToCheck], jobs[..k], FaultSignal)
        invariant hasErrors == (SomeChecked(checks[..i], jobs, ErrorSignal)
                                || SomeChecked([jobToCheck], jobs[..k], ErrorSignal))
        invariant isBuilding == (SomeChecked(checks[..i], jobs, BuildingSignal)
                                 || SomeChecked([jobToCheck], jobs[..k], BuildingSignal))
      {
        var job := jobs[k];
        assert jobs[..k + 1] == jobs[..k] + [job];
        if jobToCheck == job.name {
          var outcome := Inspect(job);
          if outcome.Throws? {
            assert job in jobs && job.name in checks;
            return SessionFault;
          }
          if outcome.Signals? && outcome.hasErrors {
            hasErrors := true;
          }
          if outcome.Signals? && outcome.isBuilding {
            isBuilding := true;
          }
        }
        forall s: Signal ensures SomeChecked([jobToCheck], jobs[..k + 1], s)
          == (SomeChecked([jobToCheck], jobs[..k], s) || SomeChecked([jobToCheck], [job], s)) {
          SomeCheckedJobsAppend([jobToCheck], jobs[..k], [job], s);
        }
      }
      assert jobs[..|jobs|] == jobs;
      assert checks[..i + 1] == checks[..i] + [jobToCheck];
      forall s: Signal ensures SomeChecked(checks[..i + 1], jobs, s)
        == (SomeChecked(checks[..i], jobs, s) || SomeChecked([jobToCheck], jobs, s)) {
        SomeCheckedChecksAppend(checks[..i], [jobToCheck], jobs, s);
      }
    }
    assert checks[..|checks|] == checks;
    r := Alert(hasErrors, isBuilding);
  }

  lemma SomeCheckedJobsAppend(checks: seq<string>, a: seq<Job>, b: seq<Job>, s: Signal)
    ensures SomeChecked(checks, a + b, s) == (SomeChecked(checks, a, s) || SomeChecked(checks, b, s))
  {
    if SomeChecked(checks, a + b, s) {
      var job :| job in a + b && job.name in checks && Emits(Inspect(job), s);
      assert job in a || job in b;
    }
  }

  lemma SomeCheckedChecksAppend(a: seq<string>, b: seq<string>, jobs: seq<Job>, s: Signal)
    ensures SomeChecked(a + b, jobs, s) == (SomeChecked(a, jobs, s) || SomeChecked(b, jobs, s))
  {
    if SomeChecked(a + b, jobs, s) {
      var job :| job in jobs && job.name in a + b && Emits(Inspect(job), s);
      assert job.name in a || job.name in b;
    }
  }

  /** Results of two parts of the job list put together: a fault in either
      part wins, otherwise the flags are ORed. */
  function Combine(x: CycleResult, y: CycleResult): (r: CycleResult) {
    if x.SessionFault? || y.SessionFault? then SessionFault
    else Alert(x.hasErrors || y.hasErrors, x.isBuilding || y.isBuilding)
  }

  /** A cycle over a split job list is the combination of the cycles over its parts. */
  lemma ReduceAppend(checks: seq<string>, a: seq<Job>, b: seq<Job>)
    ensures Reduce(checks, a + b) == Combine(Reduce(checks, a), Reduce(checks, b))
  {
    SomeCheckedJobsAppend(checks, a, b, FaultSignal);
    SomeCheckedJobsAppend(checks, a, b, ErrorSignal);
    SomeCheckedJobsAppend(checks, a, b, BuildingSignal);
  }

  /** A job that is skipped (or not checked) leaves the cycle exactly as if it
      were absent: the other jobs are still checked. */
  lemma SkippedJobIsInert(checks: seq<string>, a: seq<Job>, job: Job, b: seq<Job>)
    requires job.name !in checks || Inspect(job) == Skip
    ensures Reduce(checks, a + [job] + b) == Reduce(checks, a + b)
  {
    ReduceAppend(checks, a + [job], b);
    ReduceAppend(checks, a, [job]);
    ReduceAppend(checks, a, b);
  }

  /** Only the set of checked names and the multiset of jobs matter: reordering
      or duplicating names, and reordering jobs, change nothing. */
  lemma ReduceIgnoresOrderAndDuplicates(checks: seq<string>, checks': seq<string>,
                                        jobs: seq<Job>, jobs': seq<Job>)
    requires forall n :: n in checks <==> n in checks'
    requires multiset(jobs) == multiset(jobs')
    ensures Reduce(checks, jobs) == Reduce(checks', jobs')
  {
    forall job ensures job in jobs <==> job in jobs' {
      assert job in jobs <==> job in multiset(jobs);
      assert job in jobs' <==> job in multiset(jobs');
    }
  }

  // ------------------------------------------------------------- examples

  /** A job whose last build finished with `result`. */
  function Finished(name: string, result: BuildResult, building: bool): (job: Job) {
    Job(name, Got(JobDetails(Some(Build(Got(BuildDetails(Some(result), building)))))))
  }

  /** One failing and one successful job: the failure lamp only. */
  lemma FailingAndPassingJobs()
    ensures Reduce(["A", "B"], [Finished("A", Failure, false), Finished("B", Success, false)])
            == Alert(true, false)
  {
    assert Finished("A", Failure, false) in [Finished("A", Failure, false), Finished("B", Success, false)];
  }

  /** A successful job that is building again: the building lamp only. */
  lemma PassingJobBuilding()
    ensures Reduce(["A"], [Finished("A", Success, true)]) == Alert(false, true)
  {
    assert Finished("A", Success, true) in [Finished("A", Success, true)];
  }

  /** A checked job that has never been built (last build null) aborts the
      cycle with a NullPointerException, whatever the other jobs say. */
  lemma NeverBuiltJobAbortsCycle(name: string, others: seq<Job>)
    ensures Reduce([name], [Job(name, Got(JobDetails(None)))] + others) == SessionFault
  {
    assert Job(name, Got(JobDetails(None))) in [Job(name, Got(JobDetails(None)))] + others;
  }

  /** A running build whose result is still null aborts the cycle at the log
      call, so it never reaches the building lamp. */
  lemma RunningBuildWithoutResultAbortsCycle(name: string)
    ensures Reduce([name], [Job(name, Got(JobDetails(Some(Build(Got(BuildDetails(None, true)))))))])
            == SessionFault
  {
    var job := Job(name, Got(JobDetails(Some(Build(Got(BuildDetails(None, true)))))));
    assert job in [job];
  }

  /** Jobs whose details cannot be fetched are ignored, the rest decide. */
  lemma UnreachableJobsAreIgnored(checks: seq<string>, names: seq<string>, others: seq<Job>)
    ensures Reduce(checks, seq(|names|, k requires 0 <= k < |names| => Job(names[k], IOFailure)) + others)
            == Reduce(checks, others)
  {
    var failing := seq(|names|, k requires 0 <= k < |names| => Job(names[k], IOFailure));
    ReduceAppend(checks, failing, others);
    assert forall job :: job in failing ==> Inspect(job) == Skip;
  }
}
