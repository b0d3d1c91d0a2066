/** One run of the program (ssync.py:20-22, 98-110): load the
    configuration, mirror the remote repository, clear the output directory,
    then run the selection session. The mirror and output directories are
    the listings the file system would return, and the operator's inputs are
    a finite sequence of events. */
module Ssync {
  import opened Failures
  import opened Config
  import opened OutputDir
  import opened Session

  /** The file system as the run sees it: the names `os.listdir` gives for
      the mirror after the sync and the clear (files as well as folders),
      the output directory's entries, and the output entries whose removal
      raises. The two directories are taken to be disjoint. */
  datatype World = World(mirror: seq<string>, slides: seq<Entry>, undeletable: set<string>)

  datatype Phase =
    | Synced(remote: string, local: string)  // `rclone sync -v <remote> <local>`
    | Cleared(kept: set<string>)             // the output directory after clearing
    | Selected(session: Outcome)             // the selection loop

  datatype Status =
    /** The operator exited; `output` is the output directory's entries. */
    | Completed(output: set<string>)
    /** The events ran out while the exit prompt was pending. */
    | Pending(output: set<string>)
    | Fatal(error: Error)

  datatype Report = Report(phases: seq<Phase>, status: Status)

  function Execute(config: ConfigMap, world: World, events: seq<Event>): (r: Report)
    ensures r.status == Fatal(ConfigUnreadable) <==> Load(config).Failure?
    ensures Load(config).Failure? ==> r.phases == []
    ensures Load(config).Success? ==>
              && 1 <= |r.phases| <= 3
              && r.phases[0] == Synced(Load(config).value.remoteDir, Load(config).value.localDir)
    ensures |r.phases| >= 2 ==>
              && Load(config).Success?
              && Clear(Load(config).value.slidesDir, world.slides, world.undeletable).Success?
              && r.phases[1] == Cleared(Clear(Load(config).value.slidesDir, world.slides, world.undeletable).value)
    ensures |r.phases| == 3 ==>
              && r.phases[2] == Selected(Session.Session(Load(config).value, world.mirror, events))
              && var populated := Populate(r.phases[1].kept, Load(config).value, r.phases[2].session.steps);
                 if populated.Success? then !r.status.Fatal? && r.status.output == populated.value
                 else r.status == Fatal(populated.error)
    ensures Load(config).Success? ==>
              (Clear(Load(config).value.slidesDir, world.slides, world.undeletable).Success? <==> |r.phases| == 3)
    ensures Load(config).Success? && Clear(Load(config).value.slidesDir, world.slides, world.undeletable).Failure? ==>
              r.status == Fatal(Clear(Load(config).value.slidesDir, world.slides, world.undeletable).error)
    ensures r.status.Fatal? && r.status.error.DeleteFailed? ==> |r.phases| == 1
    ensures (!r.status.Fatal? || r.status.error.TargetExists?) ==> |r.phases| == 3
    ensures r.status.Completed? ==> r.phases[2].session.closed
    ensures r.status.Pending? ==> !r.phases[2].session.closed
  {
    match Load(config)
    case Failure(e) => Report([], Fatal(e))
    case Success(settings) =>
      var sync := Synced(settings.remoteDir, settings.localDir);
      match Clear(settings.slidesDir, world.slides, world.undeletable)
      case Failure(e) => Report([sync], Fatal(e))
      case Success(kept) =>
        var outcome := Session.Session(settings, world.mirror, events);
        var phases := [sync, Cleared(kept), Selected(outcome)];
        match Populate(kept, settings, outcome.steps)
        case Failure(e) => Report(phases, Fatal(e))
        case Success(output) =>
          Report(phases, if outcome.closed then Completed(output) else Pending(output))
  }

  /** When the output directory holds nothing but files, links and
      directories, clearing it leaves it empty, so no copy of the session
      finds its destination taken. */
  lemma CopyTargetsFresh(config: ConfigMap, world: World, events: seq<Event>)
    requires forall k :: 0 <= k < |world.slides| ==> Removable(world.slides[k])
    ensures var r := Execute(config, world, events);
            !(r.status.Fatal? && r.status.error.TargetExists?)
  {
    if Load(config).Success? {
      var settings := Load(config).value;
      var cleared := Clear(settings.slidesDir, world.slides, world.undeletable);
      if cleared.Success? {
        assert cleared.value == {};
        var outcome := Session.Session(settings, world.mirror, events);
        PopulateFresh({}, settings, outcome.steps, 1);
      }
    }
  }

  /** After a run that got through the session, the output directory holds
      the entries clearing left plus one folder per copy of the session,
      named after its index, and nothing else. */
  lemma OutputIsKeptPlusCopies(config: ConfigMap, world: World, events: seq<Event>)
    ensures var r := Execute(config, world, events);
            !r.status.Fatal? ==>
              && Load(config).Success?
              && var settings := Load(config).value;
                 var kept := Clear(settings.slidesDir, world.slides, world.undeletable);
                 var steps := Session.Session(settings, world.mirror, events).steps;
                 && kept.Success?
                 && kept.value <= r.status.output
                 && (forall j :: 0 <= j < |steps| && steps[j].Copied? ==>
                       SlotName(settings.targetSubdir, steps[j].index) in r.status.output)
                 && (forall n :: n in r.status.output ==>
                       || n in kept.value
                       || exists j :: 0 <= j < |steps| && steps[j].Copied?
                                      && SlotName(settings.targetSubdir, steps[j].index) == n)
  {
    var r := Execute(config, world, events);
    if !r.status.Fatal? {
      assert |r.phases| == 3;
    }
  }
}
