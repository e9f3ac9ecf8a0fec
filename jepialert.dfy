/**
 * `main` of JePiAlert as an object: its locals (job list, host, listed jobs,
 * where it is in the loops) are fields, and the two pins are an object it
 * shares with the shutdown hook. Each environment answer is handled by one
 * call of Handle; Run feeds a finite prefix of the endless event stream.
 */
module JePiAlert {
  import opened Nullable
  import opened Jenkins
  import opened Reducer
  import opened Config
  import opened Outputs
  import opened Session

  class Monitor {
    const variant: Variant
    const pins: Pins
    var phase: Phase
    var jobsToCheck: seq<string>
    var host: Option<string>
    var listed: seq<string>

    /** The abstract value of the monitor, pins included. */
    function State(): State
      reads this, pins
    {
      Session.State(variant, phase, jobsToCheck, host, listed,
                    pins.pinHigh, pins.pin2High, pins.controllerShutDown)
    }

    /** Start-up: provision both pins high and set up the job list and host. */
    constructor (v: Variant)
      ensures State() == Initial(v) && fresh(pins)
    {
      variant := v;
      pins := new Pins.Provision();
      listed := [];
      if v == Hardcoded {
        phase := Connecting;
        jobsToCheck := [];
        jobsToCheck := jobsToCheck + ["Jobname"];
        host := Some(HardcodedHost);
      } else {
        phase := ReadingConfig;
        jobsToCheck := [];
        host := Some(DefaultHost);
      }
    }

    /** The catch block of the outer loop. */
    method Recover()
      modifies this, pins
      ensures State() == Session.Recover(old(State()))
    {
      pins.ForceSafe();
      phase := Cooldown;
    }

    /** Clear the job list and read the properties file next to the jar. */
    method ReadProperties(location: string, files: map<string, PropertiesRead>)
      modifies this, pins
      ensures State() == Session.ReadProperties(old(State()), location, files)
    {
      jobsToCheck := [];
      var path := PropertiesFile(location);
      if path.None? || path.value !in files || files[path.value].LoadFailed? {
        Recover();
      } else {
        var p := files[path.value].props;
        host := p.host;
        host := HostWithCredentials(host, p.user, p.password);
        if p.jobs.Some? && p.jobs.value != [] {
          jobsToCheck := jobsToCheck + SplitJobs(p.jobs.value);
        }
        phase := Connecting;
      }
    }

    /** One pass of the inner loop: check the jobs, then drive the pins. */
    method RunCycle(snapshot: seq<Job>)
      modifies this, pins
      ensures State() == Session.RunCycle(old(State()), snapshot)
    {
      var r := CheckStatus(jobsToCheck, snapshot);
      if r.SessionFault? {
        Recover();
      } else {
        pins.Drive(r.hasErrors, r.isBuilding);
        phase := Sleeping;
      }
    }

    /** One transition of `main`. */
    method Handle(e: Event)
      modifies this, pins
      ensures State() == Step(old(State()), e)
    {
      if phase == Terminated {
        return;
      }
      match e
      case Kill =>
        pins.ShutDown();
        phase := Terminated;
      case ReadConfig(location, files) =>
        if phase == ReadingConfig {
          ReadProperties(location, files);
        }
      case Connect(uriValid) =>
        if phase == Connecting {
          if host.None? {
            Recover();
          } else if !uriValid {
            pins.ShutDown();
            Recover();
          } else {
            phase := Listing;
          }
        }
      case ListJobs(listing) =>
        if phase == Listing {
          if listing.Got? {
            listed := listing.value;
            phase := Polling;
          } else {
            Recover();
          }
        }
      case Cycle(snapshot) =>
        if phase == Polling && Names(snapshot) == listed {
          RunCycle(snapshot);
        }
      case PollSleep(interrupted) =>
        if phase == Sleeping {
          if interrupted {
            Recover();
          } else {
            phase := Polling;
          }
        }
      case CooldownSleep(interrupted) =>
        if phase == Cooldown {
          if interrupted {
            pins.ShutDown();
            phase := Terminated;
          } else {
            phase := StartPhase(variant);
          }
        }
    }

    /** `main`'s loops over the events that arrive, in order. */
    method Run(events: seq<Event>)
      modifies this, pins
      ensures State() == Trace(old(State()), events)
    {
      for i := 0 to |events|
        invariant State() == Trace(old(State()), events[..i])
      {
        assert events[..i + 1][..i] == events[..i];
        Handle(events[i]);
      }
      assert events[..|events|] == events;
    }
  }
}
