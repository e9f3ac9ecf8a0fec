/**
 * The part of the Jenkins client's object model that the monitor reads, as
 * plain data. A value of these types is one snapshot of what the client calls
 * answer; the HTTP client itself is not part of this model.
 */
module Jenkins {
  import opened Nullable

  /** The client's BuildResult enumeration. */
  datatype BuildResult =
    | Failure | Unstable | Rebuilding | Building | Aborted
    | Success | Unknown | NotBuilt | Cancelled

  /** What a client call that talks to the server answers: it throws an
      IOException, it returns null, or it returns a value. */
  datatype Fetch<+T> = IOFailure | Null | Got(value: T)

  /** BuildWithDetails: getResult() (a null reference is possible) and isBuilding(). */
  datatype BuildDetails = BuildDetails(result: Option<BuildResult>, building: bool)

  /** Build: what its details() call answers. */
  datatype Build = Build(details: Fetch<BuildDetails>)

  /** JobWithDetails: getLastBuild(), null when the job has no build. */
  datatype JobDetails = JobDetails(lastBuild: Option<Build>)

  /** One entry of the map getJobs() returned: the job's getName() and what
      its details() call answers in the current cycle. */
  datatype Job = Job(name: string, details: Fetch<JobDetails>)

  /** The names of discovered jobs, in iteration order. */
  function Names(jobs: seq<Job>): (r: seq<string>)
    ensures |r| == |jobs|
    ensures forall k :: 0 <= k < |jobs| ==> r[k] == jobs[k].name
  {
    if jobs == [] then [] else [jobs[0].name] + Names(jobs[1..])
  }
}
