/**
 * The two per-job predicates `isBuilding(job)` and `hasErrors(job)` of
 * JePiAlert. Each one catches the IOException of the last build's details()
 * call and answers false; a null last build or null build details is
 * dereferenced and throws a NullPointerException, which they do not catch.
 */
module Probes {
  import opened Nullable
  import opened Jenkins

  /** What one predicate does: answers a value, or throws NullPointerException. */
  datatype Probe = Answer(value: bool) | NullDeref

  /** The build results the monitor reports as errors. */
  const ErrorResults: set<BuildResult> := {Unstable, Aborted, Failure, NotBuilt}

  /** `hasErrors(job)`: the last build's result is UNSTABLE, ABORTED, FAILURE or NOT_BUILT. */
  function HasErrors(job: JobDetails): (r: Probe)
    ensures r == NullDeref <==> job.lastBuild.None? || job.lastBuild.value.details.Null?
    ensures r == Answer(true) <==>
      && job.lastBuild.Some?
      && job.lastBuild.value.details.Got?
      && job.lastBuild.value.details.value.result.Some?
      && job.lastBuild.value.details.value.result.value in ErrorResults
  {
    match job.lastBuild
    case None => NullDeref
    case Some(build) =>
      match build.details
      case IOFailure => Answer(false)
      case Null => NullDeref
      case Got(d) =>
        // Comparing a null result with a constant is false, not an exception.
        Answer(d.result == Some(Unstable) || d.result == Some(Aborted)
               || d.result == Some(Failure) || d.result == Some(NotBuilt))
  }

  /** `isBuilding(job)`: the last build reports that it is running. */
  function IsBuilding(job: JobDetails): (r: Probe)
    ensures r == NullDeref <==> job.lastBuild.None? || job.lastBuild.value.details.Null?
    ensures r == Answer(true) <==>
      && job.lastBuild.Some?
      && job.lastBuild.value.details.Got?
      && job.lastBuild.value.details.value.building
  {
    match job.lastBuild
    case None => NullDeref
    case Some(build) =>
      match build.details
      case IOFailure => Answer(false)
      case Null => NullDeref
      case Got(d) => Answer(d.building)
  }
}
