# JePiAlert build monitor — Dafny model

JePiAlert runs on a Raspberry Pi and polls a Jenkins server. It lights two
active-low GPIO lamps: `pin` (GPIO_00) when a checked job's last build failed,
and `pin2` (GPIO_01) when a checked job is building. The repository has two
near-identical entry points. `at/tugraz/JePiAlert.java` has the job list
(`Jobname`) and the host written into the code.
`foundation/softwaredesign/jepialert/JePiAlert.java` reads both from
`conf/jepialert.properties` next to the jar.

The model shares one core between them:

- `Jenkins` (jenkins.dfy): the client objects the monitor reads, as data. For
  each call that talks to the server, a `Fetch` says whether it threw an
  IOException, returned null or returned a value.
- `Probes` (probes.dfy): the predicates `hasErrors` and `isBuilding`. They
  catch IOException and answer false. They do not catch a null dereference.
- `Reducer` (reducer.dfy): one status cycle. `CheckStatus` is the nested loop
  over job names × discovered jobs. It is proved equal to `Reduce`, which says
  declaratively whether some checked, resolvable job has an error result or is
  building. A null dereference while inspecting a matched job ends the cycle
  with a RuntimeException (`SessionFault`).
- `Outputs` (outputs.dfy): the class `Pins`, with the two pin levels and
  whether the GPIO controller has been shut down.
- `Config` (config.dfy): the string logic of the configuration-driven variant.
  This is Guava's `Splitter.on(',').trimResults().omitEmptyStrings()`, the
  `user:password@` host prefix, and `getPath`.
- `Session` (session.dfy): `main`'s two `while (true)` loops and the catch
  block, as a transition function `Step` over `Event`s. The events are the
  answers of the environment. Sleeps are transitions. `Variant` picks the
  entry point. `Inv` is the safety invariant: outside polling both lamps are
  off.
- `JePiAlert` (jepialert.dfy): the class `Monitor`, holding `main`'s mutable
  locals and sharing a `Pins` object. `Handle` performs one transition and is
  proved to match `Step`. `Run` loops over a finite prefix of the events.

Behaviour the model follows from the code:

- A matched job with details but no last build (`getLastBuild()` is null)
  throws a NullPointerException. The same happens to a build whose result is
  still null (a running build) at the log call. Either one ends the session
  through the catch block. It is not skipped.
- A cycle fault or an interrupted 20 s sleep sends a running session back to
  the cooldown and a new attempt.
- A URI syntax error calls `shutDown`, which shuts the GPIO controller down.
  The message says the program is exiting, but the RuntimeException thrown
  next is caught by the retry loop. `main` goes on to the cooldown and tries
  again.
- An InterruptedException in the 30 s cooldown sleep is outside any `try`. It
  leaves `main`, and the shutdown hook then runs `shutDown`.
- The credential prefix goes in front of the whole host text, scheme included
  (`u:p@http://host:8080`). A null password or host is written as `null`, as
  Java's string concatenation does.

## Model

| member | source | states |
|---|---|---|
| `Nullable.JavaText` | src/main/java/foundation/softwaredesign/jepialert/JePiAlert.java:93 | a null String is written as `null` by concatenation, otherwise as itself |
| `Probes.HasErrors` | src/main/java/foundation/softwaredesign/jepialert/JePiAlert.java:252-264 | answers true exactly when the last build's result is UNSTABLE, ABORTED, FAILURE or NOT_BUILT; false on IOException and on any other or null result; NullPointerException exactly when the last build or its details are null |
| `Probes.IsBuilding` | src/main/java/at/tugraz/JePiAlert.java:171-180 | answers true exactly when the fetched last build reports building; false on IOException; NullPointerException exactly when the last build or its details are null |
| `Reducer.Inspect` | src/main/java/foundation/softwaredesign/jepialert/JePiAlert.java:171-197 | a matched job gives signals exactly when it is resolvable, and they are its result's error status and its building flag; it throws exactly when it has details but a null last build or a null result; otherwise it is skipped |
| `Reducer.Reduce` | src/main/java/foundation/softwaredesign/jepialert/JePiAlert.java:165-199 | the cycle faults if and only if some checked job hits null; otherwise hasErrors if and only if some checked resolvable job has an error result, and isBuilding if and only if some such job is building; empty list or no matching name gives (false, false) |
| `Reducer.CheckStatus` | src/main/java/at/tugraz/JePiAlert.java:101-135 | the nested loop over checked names × discovered jobs returns exactly `Reduce` |
| `Reducer.ReduceAppend` | src/main/java/foundation/softwaredesign/jepialert/JePiAlert.java:168-199 | the cycle over a split job list is the OR of the two halves' flags, and a fault in either half wins |
| `Reducer.SkippedJobIsInert` | src/main/java/foundation/softwaredesign/jepialert/JePiAlert.java:176-196 | a skipped or unchecked job can be removed without changing the result; the other jobs are still checked |
| `Reducer.ReduceIgnoresOrderAndDuplicates` | src/main/java/foundation/softwaredesign/jepialert/JePiAlert.java:168-171 | reordering or duplicating checked names and reordering jobs leave the result unchanged |
| `Reducer.UnreachableJobsAreIgnored` | src/main/java/at/tugraz/JePiAlert.java:112-131 | jobs whose details() throws IOException contribute nothing, whatever their names |
| `Reducer.FailingAndPassingJobs` | src/main/java/foundation/softwaredesign/jepialert/JePiAlert.java:185-191 | a FAILURE job and a SUCCESS job give (true, false) |
| `Reducer.PassingJobBuilding` | src/main/java/foundation/softwaredesign/jepialert/JePiAlert.java:189-191 | a SUCCESS job that is building gives (false, true) |
| `Reducer.NeverBuiltJobAbortsCycle` | src/main/java/foundation/softwaredesign/jepialert/JePiAlert.java:181-182 | a checked job with a null last build aborts the cycle, whatever the other jobs are |
| `Reducer.RunningBuildWithoutResultAbortsCycle` | src/main/java/foundation/softwaredesign/jepialert/JePiAlert.java:183 | a running build with a null result aborts the cycle at the log call |
| `Config.TrimStart` | src/main/java/foundation/softwaredesign/jepialert/JePiAlert.java:103 | the result is a suffix of the input; only whitespace was removed; it does not start with whitespace |
| `Config.TrimEnd` | src/main/java/foundation/softwaredesign/jepialert/JePiAlert.java:103 | the result is a prefix of the input; only whitespace was removed; it does not end with whitespace |
| `Config.Trim` | src/main/java/foundation/softwaredesign/jepialert/JePiAlert.java:103 | the result is a slice of the input with only whitespace before and after it; it is trimmed, empty exactly when the input is all whitespace, and equal to an already trimmed input |
| `Config.Pieces` | src/main/java/foundation/softwaredesign/jepialert/JePiAlert.java:102 | at least one piece, none holding a comma |
| `Config.JoinPieces` | src/main/java/foundation/softwaredesign/jepialert/JePiAlert.java:102 | joining the pieces with commas gives the input back |
| `Config.PiecesOfJoin` | src/main/java/foundation/softwaredesign/jepialert/JePiAlert.java:102 | splitting comma-free parts joined with commas gives the parts back |
| `Config.Clean` | src/main/java/foundation/softwaredesign/jepialert/JePiAlert.java:103-104 | every kept entry is non-empty and trimmed, and there are no more entries than pieces |
| `Config.CleanAppend` | src/main/java/foundation/softwaredesign/jepialert/JePiAlert.java:103-104 | the names kept from a list are those of its first part followed by those of the rest, in order and with repeats |
| `Config.CleanOne` | src/main/java/foundation/softwaredesign/jepialert/JePiAlert.java:103-104 | one piece yields its trim, or nothing when the trim is empty |
| `Config.SplitJobsOfPieces` | src/main/java/foundation/softwaredesign/jepialert/JePiAlert.java:100-105 | comma-free pieces joined with commas are read back as the trims of the pieces, in order, blank ones dropped |
| `Config.CleanKeepsExactlyTrimmedPieces` | src/main/java/foundation/softwaredesign/jepialert/JePiAlert.java:103-104 | a string is kept exactly when it is non-empty and is the trim of some piece |
| `Config.SplitJobs` | src/main/java/foundation/softwaredesign/jepialert/JePiAlert.java:100-105 | every job name read is non-empty, trimmed and comma-free |
| `Config.SplitJobsOfJoin` | src/main/java/foundation/softwaredesign/jepialert/JePiAlert.java:96-105 | names written `a,b,c` are read back as the same names in the same order |
| `Config.JobsFromProperty` | src/main/java/foundation/softwaredesign/jepialert/JePiAlert.java:96-108 | a missing property gives no jobs; a present one gives its split pieces |
| `Config.HostWithCredentials` | src/main/java/foundation/softwaredesign/jepialert/JePiAlert.java:89-94 | a null or empty user leaves the host unchanged; otherwise the host becomes `user:password@host` |
| `Config.CredentialsRecoverable` | src/main/java/foundation/softwaredesign/jepialert/JePiAlert.java:92-94 | if the user has no `:` or `@` and the password no `@`, user, password and host text can be read back from the prefixed host |
| `Config.LastIndexOf` | src/main/java/foundation/softwaredesign/jepialert/JePiAlert.java:294 | the index of the last occurrence, or -1 when there is none |
| `Config.GetPathSplitsAtLastSlash` | src/main/java/foundation/softwaredesign/jepialert/JePiAlert.java:282-296 | getPath gives `p` exactly when the location is `p/name` with no `/` in `name` |
| `Config.GetPath` | src/main/java/foundation/softwaredesign/jepialert/JePiAlert.java:282-296 | `substring(0, lastIndexOf("/"))` throws exactly when the location has no `/`; otherwise the result is the text before a `/` after which no `/` follows |
| `Config.PropertiesFile` | src/main/java/foundation/softwaredesign/jepialert/JePiAlert.java:76 | no file is opened exactly when the jar location has no `/` |
| `Config.PropertiesFileNextToJar` | src/main/java/foundation/softwaredesign/jepialert/JePiAlert.java:76 | for a jar at `p/name` the file read is `p/conf/jepialert.properties` |
| `Outputs.Pins.Provision` | src/main/java/at/tugraz/JePiAlert.java:36-38 | both pins start high (lamps off), controller running |
| `Outputs.Pins.Drive` | src/main/java/at/tugraz/JePiAlert.java:137-151 | both pins are written: `pin` low exactly when hasErrors, `pin2` low exactly when isBuilding |
| `Outputs.Pins.ForceSafe` | src/main/java/at/tugraz/JePiAlert.java:155-158 | both pins high, controller state unchanged |
| `Outputs.Pins.ShutDown` | src/main/java/at/tugraz/JePiAlert.java:209-216 | both pins high, then the controller is shut down |
| `Session.StartPhase` | src/main/java/foundation/softwaredesign/jepialert/JePiAlert.java:69-71 | an attempt begins by reading the properties exactly in the configuration-driven variant, otherwise by connecting |
| `Session.Initial` | src/main/java/at/tugraz/JePiAlert.java:36-45 | start-up satisfies the invariant with both pins high and the controller running |
| `Session.Recover` | src/main/java/foundation/softwaredesign/jepialert/JePiAlert.java:219-224 | the catch block sets both pins high and goes to the cooldown, changing nothing else and keeping the invariant |
| `Session.ShutDown` | src/main/java/foundation/softwaredesign/jepialert/JePiAlert.java:273-280 | both pins high and the controller shut down, nothing else changed, invariant kept |
| `Session.ReadProperties` | src/main/java/foundation/softwaredesign/jepialert/JePiAlert.java:71-122 | reading the properties either goes on to connect or ends in the catch block with an empty job list; the listed jobs and the controller are untouched |
| `Session.RunCycle` | src/main/java/foundation/softwaredesign/jepialert/JePiAlert.java:162-218 | a cycle either goes on to the 20 s sleep or ends in the catch block; the controller is untouched |
| `Session.Step` | src/main/java/foundation/softwaredesign/jepialert/JePiAlert.java:69-225 | the variant never changes, nothing happens after main has ended, a shut-down controller stays shut down, and reaching the end leaves both pins high and the controller shut down |
| `Session.StepKeepsInv` | src/main/java/foundation/softwaredesign/jepialert/JePiAlert.java:69-225 | every transition keeps the invariant: lamps off outside polling, controller shut down at the end, hard-coded job list and host fixed |
| `Session.TraceKeepsInv` | src/main/java/foundation/softwaredesign/jepialert/JePiAlert.java:69-225 | the invariant holds after any sequence of events |
| `Session.SafeOutsidePolling` | src/main/java/at/tugraz/JePiAlert.java:155-160 | after any run from start-up, both lamps are off whenever main is not polling, so no alert state outlives a failed attempt |
| `Session.HardcodedChecksJobname` | src/main/java/at/tugraz/JePiAlert.java:42-45 | the hard-coded variant checks `["Jobname"]` in every session |
| `Session.CycleDrivesPins` | src/main/java/foundation/softwaredesign/jepialert/JePiAlert.java:201-215 | a cycle sets `pin` low exactly when hasErrors and `pin2` low exactly when isBuilding, whatever they were; a faulting cycle goes to the cooldown with both pins high |
| `Session.EnteringCooldownIsSafe` | src/main/java/foundation/softwaredesign/jepialert/JePiAlert.java:219-224 | from any state, entering the cooldown means both pins are high |
| `Session.CooldownStartsOneAttempt` | src/main/java/foundation/softwaredesign/jepialert/JePiAlert.java:223 | after the cooldown exactly one new attempt starts, nothing else changed; an interrupt there ends main with both pins high and the controller shut down |
| `Session.ReadConfigRefillsJobs` | src/main/java/foundation/softwaredesign/jepialert/JePiAlert.java:71-108 | after reading, the job list is exactly the pieces of `jenkins.jobs`, or empty when the read failed, whatever it held before |
| `Session.ReadConfigNextToJar` | src/main/java/foundation/softwaredesign/jepialert/JePiAlert.java:76-108 | for a jar at `dir/name`, a loaded `dir/conf/jepialert.properties` gives the connect phase with the credential host and the split jobs; a missing or unreadable file gives the cooldown with an empty job list |
| `Session.ReadConfigWithoutPath` | src/main/java/foundation/softwaredesign/jepialert/JePiAlert.java:294 | a jar location without `/` ends the attempt in the cooldown with an empty job list |
| `Session.ConnectOutcomes` | src/main/java/foundation/softwaredesign/jepialert/JePiAlert.java:124-138 | a parsing URI goes on to list jobs; a null host goes to the cooldown without `shutDown`; a URI syntax error calls `shutDown` and then goes to the cooldown |
| `Session.ListJobsOutcomes` | src/main/java/foundation/softwaredesign/jepialert/JePiAlert.java:144-156 | the listed names are kept and polling starts; an IOException or a null map goes to the cooldown |
| `Session.PollSleepOutcomes` | src/main/java/foundation/softwaredesign/jepialert/JePiAlert.java:217-219 | the 20 s sleep leads to the next cycle with the pins unchanged, or, interrupted, to the cooldown |
| `Session.BadUriShutsDownAndRetries` | src/main/java/at/tugraz/JePiAlert.java:65-68 | a URI syntax error shuts the controller down and goes to the cooldown with both pins high |
| `Session.SteadyStateRepeats` | src/main/java/at/tugraz/JePiAlert.java:98-154 | a cycle, a sleep and the same cycle again give the same state and pin writes |
| `Session.NothingAfterKill` | src/main/java/foundation/softwaredesign/jepialert/JePiAlert.java:52-57 | after the shutdown hook both pins are high and no later event changes anything |
| `JePiAlert.Monitor.constructor` | src/main/java/foundation/softwaredesign/jepialert/JePiAlert.java:43-67 | the new monitor is in the variant's initial state with freshly provisioned pins |
| `JePiAlert.Monitor.Recover` | src/main/java/foundation/softwaredesign/jepialert/JePiAlert.java:219-224 | the catch block: both pins high, phase is cooldown |
| `JePiAlert.Monitor.ReadProperties` | src/main/java/foundation/softwaredesign/jepialert/JePiAlert.java:71-122 | reading the properties on the object state equals `Session.ReadProperties` |
| `JePiAlert.Monitor.RunCycle` | src/main/java/foundation/softwaredesign/jepialert/JePiAlert.java:162-218 | one cycle on the object and pin state equals `Session.RunCycle`, with the loop `CheckStatus` |
| `JePiAlert.Monitor.Handle` | src/main/java/foundation/softwaredesign/jepialert/JePiAlert.java:69-225 | one transition of main on the object state, equal to `Step` |
| `JePiAlert.Monitor.Run` | src/main/java/at/tugraz/JePiAlert.java:57-161 | main's loops over a sequence of events end in `Trace` of them |

## Left out

- The Jenkins HTTP client and network I/O. Each call's answer is an input
  (`Fetch`). A `Cycle` event holds one answer per job for the whole cycle:
  the second `details()` call at line 183, the repeated
  `getLastBuild().details()` calls inside the predicates, and the fresh
  `details()` call at line 177 when a checked name is listed twice all give
  the first answer. Different answers within one cycle are not modelled. The
  duplicate-name half of `Reducer.ReduceIgnoresOrderAndDuplicates` holds only
  under this assumption.
- Events that do not answer the call the current phase waits on leave the
  state unchanged. So does a cycle snapshot whose job names differ from the
  jobs listed for the session. The environment never produces these; they
  only keep `Session.Step` total.
- URI syntax checking by `new URI(...)`. It is the input flag `uriValid`.
- The Pi4J GPIO driver and provisioning. Only the pin levels and a
  "controller shut down" flag are kept. Pin writes after the controller was
  shut down are modelled as ordinary writes.
- The shutdown hook's concurrency. A kill is one atomic event. A pin write by
  the main thread after the hook has run is not modelled.
- `Thread.sleep` durations (20 s, 30 s). Each sleep is one event, which can end
  normally or with an interrupt.
- `Properties.load`, `FileInputStream` and `URLDecoder`. The decoded jar
  location and the files next to it are inputs: a `ReadConfig` event maps
  each existing file's path to what loading it gives, and a path that is not
  a key throws FileNotFoundException. An IOException from closing
  the file (lines 113-122) is not modelled. Keys kept in the reused
  `Properties` object from an earlier file are not modelled either.
- `getPath`'s `UnsupportedEncodingException` branch that returns null. This
  cannot happen with UTF-8.
- Logging and `System.out` output. They have no effect on behaviour.
- Java `Error`s (such as OutOfMemoryError). The catch blocks do not handle them.
- `Session.Step`: its own contract states only the general facts in its row.
  Its definition is the model of `main`'s loops. The transition lemmas in the
  table state each case, and the invariant lemmas state the properties that
  hold across runs.
- Guava's whitespace set is the current `CharMatcher.whitespace()` table. Older
  Guava releases also counted U+180E.
