/**
 * The session and retry loops of JePiAlert's `main`, as a state machine.
 * The outer `while (true)` starts a session attempt: the configuration-driven
 * variant first clears the job list and reads the properties file; then the
 * client is built from the host URI, the jobs are listed once, and the inner
 * `while (true)` runs cycles separated by a 20 s sleep. Any RuntimeException
 * or InterruptedException of the attempt ends in the catch block, which sets
 * both pins high before a 30 s cooldown sleep and a fresh attempt.
 *
 * Each answer the environment gives (the properties file, URI parsing, the
 * job listing, a cycle's job snapshot, the end of a sleep, a kill signal) is
 * an Event; sleeps are transitions, not durations. An event that does not
 * answer the call the current phase is waiting for leaves the state as it is.
 */
module Session {
  import opened Nullable
  import opened Jenkins
  import opened Reducer
  import opened Config

  /** The two entry points: at/tugraz (job list and host written into the
      code) and foundation/softwaredesign (read from jepialert.properties). */
  datatype Variant = Hardcoded | Configured

  const HardcodedJobs: seq<string> := ["Jobname"]
  const HardcodedHost: string := "http://hostofyourjenkins:8080"
  /** The initial value of `jenkinsHost` in the configuration-driven variant. */
  const DefaultHost: string := "http://localhost:8080"

  /** Where `main` is, in terms of the call it waits on. */
  datatype Phase =
    | ReadingConfig   // reading jepialert.properties (configuration-driven only)
    | Connecting      // new JenkinsServer(new URI(jenkinsHost))
    | Listing         // jenkins.getJobs()
    | Polling         // about to run a cycle
    | Sleeping        // Thread.sleep(20000) after a cycle
    | Cooldown        // Thread.sleep(30000) in the catch block
    | Terminated      // main has ended or the shutdown hook has run

  /** The values of the four properties read; None is a missing property. */
  datatype Properties = Properties(host: Option<string>, user: Option<string>,
                                   password: Option<string>, jobs: Option<string>)

  /** Loading an existing properties file: it throws an IOException or
      yields the properties. */
  datatype PropertiesRead = LoadFailed | Loaded(props: Properties)

  datatype Event =
    | ReadConfig(location: string, files: map<string, PropertiesRead>)  // decoded jar location, the files there are
    | Connect(uriValid: bool)                              // whether `new URI(host)` parses
    | ListJobs(listing: Fetch<seq<string>>)               // getJobs(): the names of the entries
    | Cycle(snapshot: seq<Job>)                            // the listed jobs as fetched this cycle
    | PollSleep(interrupted: bool)                         // end of the 20 s sleep
    | CooldownSleep(interrupted: bool)                     // end of the 30 s sleep
    | Kill                                                 // the shutdown hook runs

  /** Everything `main` keeps: its locals and the two pins. */
  datatype State = State(
    variant: Variant,
    phase: Phase,
    jobsToCheck: seq<string>,
    host: Option<string>,
    listed: seq<string>,
    pinHigh: bool,
    pin2High: bool,
    controllerShutDown: bool)

  /** Where each attempt, the first one included, begins. */
  function StartPhase(v: Variant): (p: Phase)
    ensures p == Connecting || p == ReadingConfig
    ensures p == ReadingConfig <==> v == Configured
  {
    match v
    case Hardcoded => Connecting
    case Configured => ReadingConfig
  }

  /** Phases in which no cycle result is being shown. */
  predicate Idle(p: Phase) {
    p != Polling && p != Sleeping
  }

  /** The safety invariant: outside polling both lamps are off; after the
      end the controller is shut down; the hard-coded variant keeps its job
      list and host and never reads a properties file. */
  predicate Inv(s: State) {
    && (Idle(s.phase) ==> s.pinHigh && s.pin2High)
    && (s.phase == Terminated ==> s.controllerShutDown)
    && (s.variant == Hardcoded ==>
          && s.phase != ReadingConfig
          && s.jobsToCheck == HardcodedJobs
          && s.host == Some(HardcodedHost))
  }

  /** The state when the outer loop is first entered: both pins provisioned high. */
  function Initial(v: Variant): (s: State)
    ensures Inv(s) && s.pinHigh && s.pin2High && !s.controllerShutDown
    ensures s.phase == StartPhase(v) && s.variant == v
  {
    match v
    case Hardcoded => State(v, Connecting, HardcodedJobs, Some(HardcodedHost), [], true, true, false)
    case Configured => State(v, ReadingConfig, [], Some(DefaultHost), [], true, true, false)
  }

  /** The catch block: both pins high, then the cooldown sleep. */
  function Recover(s: State): (t: State)
    ensures t.phase == Cooldown && t.pinHigh && t.pin2High
    ensures t == s.(phase := Cooldown, pinHigh := true, pin2High := true)
    ensures Inv(s) ==> Inv(t)
  {
    s.(phase := Cooldown, pinHigh := true, pin2High := true)
  }

  /** `shutDown`: both pins high and the controller shut down. */
  function ShutDown(s: State): (t: State)
    ensures t.pinHigh && t.pin2High && t.controllerShutDown
    ensures t == s.(pinHigh := true, pin2High := true, controllerShutDown := true)
    ensures Inv(s) ==> Inv(t)
  {
    s.(pinHigh := true, pin2High := true, controllerShutDown := true)
  }

  /** The first block of an attempt: clear the job list, then read the
      properties file next to the jar and take host, credentials and jobs
      from it. Any failure is rethrown and ends in the catch block. */
  function ReadProperties(s: State, location: string, files: map<string, PropertiesRead>): (t: State)
    ensures t.variant == s.variant && t.listed == s.listed && t.controllerShutDown == s.controllerShutDown
    ensures t.phase == Connecting || t == Recover(s.(jobsToCheck := []))
  {
    var cleared := s.(jobsToCheck := []);
    var path := PropertiesFile(location);
    if path.None? then Recover(cleared)                  // substring(0, -1) throws
    else if path.value !in files then Recover(cleared)   // FileNotFoundException, rethrown
    else if files[path.value].LoadFailed? then Recover(cleared)  // rethrown as RuntimeException
    else
      var p := files[path.value].props;
      cleared.(phase := Connecting,
               host := HostWithCredentials(p.host, p.user, p.password),
               jobsToCheck := JobsFromProperty(p.jobs))
  }

  /** One pass of the inner loop: the cycle's flags are written to the pins,
      or its RuntimeException ends in the catch block. */
  function RunCycle(s: State, snapshot: seq<Job>): (t: State)
    ensures t.variant == s.variant && t.controllerShutDown == s.controllerShutDown
    ensures t.phase == Sleeping || t == Recover(s)
  {
    var r := Reduce(s.jobsToCheck, snapshot);
    if r.SessionFault? then Recover(s)
    else s.(phase := Sleeping, pinHigh := !r.hasErrors, pin2High := !r.isBuilding)
  }

  /** One transition of `main`. */
  function Step(s: State, e: Event): (t: State)
    ensures t.variant == s.variant
    ensures s.phase == Terminated ==> t == s
    ensures s.controllerShutDown ==> t.controllerShutDown
    ensures s.phase != Terminated && t.phase == Terminated ==> t.pinHigh && t.pin2High && t.controllerShutDown
  {
    if s.phase == Terminated then s
    else match e
      case Kill =>
        ShutDown(s).(phase := Terminated)
      case ReadConfig(location, files) =>
        if s.phase != ReadingConfig then s else ReadProperties(s, location, files)
      case Connect(uriValid) =>
        if s.phase != Connecting then s
        else if s.host.None? then Recover(s)                 // new URI(null) throws NullPointerException
        else if !uriValid then Recover(ShutDown(s))          // URISyntaxException: shutDown, then rethrown
        else s.(phase := Listing)
      case ListJobs(listing) =>
        if s.phase != Listing then s
        else if listing.Got? then s.(phase := Polling, listed := listing.value)
        else Recover(s)                                      // IOException or null map
      case Cycle(snapshot) =>
        if s.phase != Polling || Names(snapshot) != s.listed then s else RunCycle(s, snapshot)
      case PollSleep(interrupted) =>
        if s.phase != Sleeping then s
        else if interrupted then Recover(s)
        else s.(phase := Polling)
      case CooldownSleep(interrupted) =>
        if s.phase != Cooldown then s
        // an InterruptedException here leaves main; the shutdown hook then runs
        else if interrupted then ShutDown(s).(phase := Terminated)
        else s.(phase := StartPhase(s.variant))
  }

  /** The state after a sequence of events. */
  function Trace(s: State, es: seq<Event>): (t: State)
    ensures t.variant == s.variant
    decreases |es|
  {
    if es == [] then s else Step(Trace(s, es[..|es| - 1]), es[|es| - 1])
  }

  lemma StepKeepsInv(s: State, e: Event)
    requires Inv(s)
    ensures Inv(Step(s, e))
  {
  }

  /** The invariant holds after every sequence of events. */
  lemma {:induction false} TraceKeepsInv(s: State, es: seq<Event>)
    requires Inv(s)
    ensures Inv(Trace(s, es))
    decreases |es|
  {
    if es != [] {
      TraceKeepsInv(s, es[..|es| - 1]);
      StepKeepsInv(Trace(s, es[..|es| - 1]), es[|es| - 1]);
    }
  }

  /** From start-up on, whenever main is not polling, both lamps are off: a
      failed attempt never keeps showing the alert state of its last cycle. */
  lemma {:induction false} SafeOutsidePolling(v: Variant, es: seq<Event>)
    ensures var s := Trace(Initial(v), es);
      Idle(s.phase) ==> s.pinHigh && s.pin2High
  {
    TraceKeepsInv(Initial(v), es);
  }

  /** The hard-coded variant checks `Jobname` in every session. */
  lemma {:induction false} HardcodedChecksJobname(es: seq<Event>)
    ensures Trace(Initial(Hardcoded), es).jobsToCheck == ["Jobname"]
  {
    TraceKeepsInv(Initial(Hardcoded), es);
  }

  /** Every cycle writes both pins from its own result, whatever they showed
      before, or, on a fault, ends the session with both pins high. */
  lemma CycleDrivesPins(s: State, snapshot: seq<Job>)
    requires s.phase == Polling && Names(snapshot) == s.listed
    ensures var t := Step(s, Cycle(snapshot));
      match Reduce(s.jobsToCheck, snapshot)
      case Alert(hasErrors, isBuilding) =>
        t.phase == Sleeping && (!t.pinHigh <==> hasErrors) && (!t.pin2High <==> isBuilding)
      case SessionFault =>
        t.phase == Cooldown && t.pinHigh && t.pin2High
  {
  }

  /** Whatever the state, entering the cooldown means both pins are high. */
  lemma EnteringCooldownIsSafe(s: State, e: Event)
    requires s.phase != Cooldown
    ensures Step(s, e).phase == Cooldown ==> Step(s, e).pinHigh && Step(s, e).pin2High
  {
  }

  /** After the cooldown exactly one new attempt begins, in the variant's
      first phase; an interrupt there ends main with both pins high. */
  lemma CooldownStartsOneAttempt(s: State)
    requires s.phase == Cooldown
    ensures Step(s, CooldownSleep(false)) == s.(phase := StartPhase(s.variant))
    ensures var t := Step(s, CooldownSleep(true));
      t.phase == Terminated && t.pinHigh && t.pin2High && t.controllerShutDown
  {
  }

  /** Each configured attempt starts from an empty job list: afterwards it holds
      exactly the pieces of `jenkins.jobs`, or nothing if the read failed. */
  lemma ReadConfigRefillsJobs(s: State, location: string, files: map<string, PropertiesRead>)
    requires s.phase == ReadingConfig
    ensures var t := Step(s, ReadConfig(location, files));
      var path := PropertiesFile(location);
      t.jobsToCheck == (if path.Some? && path.value in files && files[path.value].Loaded?
                        then JobsFromProperty(files[path.value].props.jobs) else [])
  {
  }

  /** For a jar at `dir/name` the file read is `dir/conf/jepialert.properties`:
      when it loads, the attempt goes on to connect with the configured host
      and jobs; when it is missing or fails to load, the attempt goes to the
      cooldown with an empty job list and the host as it was. */
  lemma ReadConfigNextToJar(s: State, dir: string, name: string, files: map<string, PropertiesRead>)
    requires s.phase == ReadingConfig && '/' !in name
    ensures var t := Step(s, ReadConfig(dir + "/" + name, files));
      var f := dir + "/conf/jepialert.properties";
      if f in files && files[f].Loaded? then
        var p := files[f].props;
        t == s.(phase := Connecting, host := HostWithCredentials(p.host, p.user, p.password),
                jobsToCheck := JobsFromProperty(p.jobs))
      else
        t == s.(phase := Cooldown, jobsToCheck := [], pinHigh := true, pin2High := true)
  {
    PropertiesFileNextToJar(dir, name);
  }

  /** A jar location without '/' makes getPath throw: the attempt goes to the
      cooldown whatever files there are. */
  lemma ReadConfigWithoutPath(s: State, location: string, files: map<string, PropertiesRead>)
    requires s.phase == ReadingConfig && '/' !in location
    ensures Step(s, ReadConfig(location, files))
            == s.(phase := Cooldown, jobsToCheck := [], pinHigh := true, pin2High := true)
  {
  }

  /** Building the client: a parsing URI goes on to list the jobs; a null
      host throws a NullPointerException, which goes to the cooldown without
      `shutDown`; a URI syntax error calls `shutDown` first. */
  lemma ConnectOutcomes(s: State, uriValid: bool)
    requires s.phase == Connecting
    ensures var t := Step(s, Connect(uriValid));
      if s.host.None? then t == Recover(s) && t.controllerShutDown == s.controllerShutDown
      else if uriValid then t == s.(phase := Listing)
      else t == Recover(ShutDown(s))
  {
  }

  /** Listing the jobs: the names got are kept for the cycles and polling
      starts; an IOException or a null map goes to the cooldown. */
  lemma ListJobsOutcomes(s: State, listing: Fetch<seq<string>>)
    requires s.phase == Listing
    ensures var t := Step(s, ListJobs(listing));
      if listing.Got? then t == s.(phase := Polling, listed := listing.value)
      else t == Recover(s)
  {
  }

  /** The 20 s sleep: it ends in the next cycle with the pins as they are,
      or, interrupted, in the cooldown. */
  lemma PollSleepOutcomes(s: State, interrupted: bool)
    requires s.phase == Sleeping
    ensures var t := Step(s, PollSleep(interrupted));
      if interrupted then t == Recover(s) else t == s.(phase := Polling)
  {
  }

  /** A URI that does not parse shuts the controller down, yet the exception is
      caught by the retry loop: main goes on to the cooldown with both pins high. */
  lemma BadUriShutsDownAndRetries(s: State)
    requires s.phase == Connecting && s.host.Some?
    ensures var t := Step(s, Connect(false));
      t.phase == Cooldown && t.pinHigh && t.pin2High && t.controllerShutDown
  {
  }

  /** Repeated cycles over unchanged job states write the same pins again. */
  lemma SteadyStateRepeats(s: State, snapshot: seq<Job>)
    requires s.phase == Polling && Names(snapshot) == s.listed
    requires Reduce(s.jobsToCheck, snapshot).Alert?
    ensures var t := Step(s, Cycle(snapshot));
      Step(Step(t, PollSleep(false)), Cycle(snapshot)) == t
  {
  }

  /** After the shutdown hook nothing changes any more: no later pin write. */
  lemma {:induction false} NothingAfterKill(s: State, es: seq<Event>)
    requires s.phase != Terminated
    ensures var t := Step(s, Kill);
      t.phase == Terminated && t.pinHigh && t.pin2High && Trace(t, es) == t
    decreases |es|
  {
    if es != [] {
      NothingAfterKill(s, es[..|es| - 1]);
    }
  }
}
