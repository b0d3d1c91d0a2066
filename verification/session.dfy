/** The slide-selection session (ssync.py:56-96) as a fold over the
    operator's inputs. Each loop iteration consumes one event: the answer to
    the exit prompt and, unless that answer ends the session, what `read()`
    returns from the picker's result file. */
module Session {
  import opened Failures
  import opened Text
  import Decimal
  import Listing
  import opened Config

  datatype Event = Event(answer: string, pickerOutput: string)

  /** One `shutil.copytree(source, destination)` call. */
  datatype CopyAction = CopyAction(source: string, destination: string)

  /** What one iteration that did not exit did: its index, the candidate
      list the picker was shown, and either a logged skip or a copy. */
  datatype Step =
    | Skipped(index: nat, shown: string)
    | Copied(index: nat, shown: string, copy: CopyAction)

  /** `closed` says whether an exit answer ended the session (otherwise the
      events ran out with the prompt still pending); `finalIndex` is the
      index of the last prompt shown. */
  datatype Outcome = Outcome(closed: bool, finalIndex: nat, steps: seq<Step>)

  /** The answer `a` ends the session when `a.lower() == "y"`: exactly the
      answers "y" and "Y"; the empty answer, "yes" and all else go on. */
  predicate IsExitAnswer(a: string)
    ensures IsExitAnswer(a) <==> a == "y" || a == "Y"
  {
    Lower(a) == "y"
  }

  /** `file.read()[:-1].strip()`: the picker's newline is dropped, then the
      surrounding whitespace. */
  function Normalise(raw: string): (choice: string)
    ensures raw == [] ==> choice == []
    ensures Trimmed(choice)
    ensures |choice| < |raw| || raw == []
  {
    Strip(DropLast(raw))
  }

  /** The name of the output folder for index `i`: `<target_subdir> <i>`. */
  function SlotName(targetSubdir: string, i: nat): string
  {
    targetSubdir + " " + Decimal.Render(i)
  }

  /** `<local_dir>/<choice>`: a plain concatenation, not `os.path.join`. */
  function Source(settings: Settings, choice: string): string
  {
    settings.localDir + "/" + choice
  }

  /** `<slides_dir>/<target_subdir> <i>`. */
  function Destination(settings: Settings, i: nat): string
  {
    settings.slidesDir + "/" + SlotName(settings.targetSubdir, i)
  }

  /** A slot name is the target prefix and one space, followed by digits
      that read back as the index. */
  lemma SlotNameParts(targetSubdir: string, i: nat)
    ensures var r := SlotName(targetSubdir, i);
            && |r| > |targetSubdir| + 1
            && r[..|targetSubdir|] == targetSubdir && r[|targetSubdir|] == ' '
            && Decimal.AllDigits(r[|targetSubdir| + 1..])
            && Decimal.Parse(r[|targetSubdir| + 1..]) == i
  {
    var r := SlotName(targetSubdir, i);
    assert r[|targetSubdir| + 1..] == Decimal.Render(i);
    Decimal.ParseRender(i);
  }

  /** The copy source is the mirror directory and one `/`, even after a
      trailing `/`, followed by the choice unchanged. */
  lemma SourceParts(settings: Settings, choice: string)
    ensures var r := Source(settings, choice);
            && |r| == |settings.localDir| + 1 + |choice|
            && r[..|settings.localDir|] == settings.localDir && r[|settings.localDir|] == '/'
            && r[|settings.localDir| + 1..] == choice
  {
  }

  /** The copy destination is the slides directory and one `/`, followed by
      the slot name of the index. */
  lemma DestinationParts(settings: Settings, i: nat)
    ensures var r := Destination(settings, i);
            && |r| > |settings.slidesDir| && r[|settings.slidesDir|] == '/'
            && r[..|settings.slidesDir|] == settings.slidesDir
            && r[|settings.slidesDir| + 1..] == SlotName(settings.targetSubdir, i)
  {
    var r := Destination(settings, i);
    assert r[|settings.slidesDir| + 1..] == SlotName(settings.targetSubdir, i);
  }

  /** The iteration with index `i` once the operator did not exit and the
      picker output normalised to `choice`. */
  function StepAt(settings: Settings, candidates: string, i: nat, choice: string): (step: Step)
    ensures step.index == i && step.shown == candidates
    ensures step.Skipped? <==> choice == []
    ensures step.Copied? ==> step.copy == CopyAction(Source(settings, choice), Destination(settings, i))
  {
    if |choice| == 0 then Skipped(i, candidates)
    else Copied(i, candidates, CopyAction(Source(settings, choice), Destination(settings, i)))
  }

  /** The number of rounds the loop completes: the position of the first
      exit answer, or the number of events when none of them exits. */
  function FirstExit(events: seq<Event>): (n: nat)
    ensures n <= |events|
    ensures forall j :: 0 <= j < n ==> !IsExitAnswer(events[j].answer)
    ensures n < |events| ==> IsExitAnswer(events[n].answer)
    decreases |events|
  {
    if events == [] || IsExitAnswer(events[0].answer) then 0
    else 1 + FirstExit(events[1..])
  }

  /** The loop from index `index` on. Round `j` has index `index + j`,
      skipped or not; the session stops at the first exit answer and at no
      other; every round shows the same candidate list. */
  function Run(settings: Settings, candidates: string, events: seq<Event>, index: nat): (r: Outcome)
    ensures |r.steps| <= |events|
    ensures r.finalIndex == index + |r.steps|
    ensures r.closed <==> |r.steps| < |events|
    ensures r.closed ==> IsExitAnswer(events[|r.steps|].answer)
    ensures forall j :: 0 <= j < |r.steps| ==> !IsExitAnswer(events[j].answer)
    ensures forall j :: 0 <= j < |r.steps| ==>
              r.steps[j].index == index + j && r.steps[j].shown == candidates
  {
    var rounds := FirstExit(events);
    Outcome(rounds < |events|, index + rounds,
            seq(rounds, j requires 0 <= j < rounds =>
                  StepAt(settings, candidates, index + j, Normalise(events[j].pickerOutput))))
  }

  /** What round `j` of the loop did: an empty normalised choice is a
      skip, and any other one is one copy from the mirror into the folder
      named after the round's index. */
  lemma RunRound(settings: Settings, candidates: string, events: seq<Event>, index: nat, j: nat)
    requires j < |Run(settings, candidates, events, index).steps|
    ensures var step, choice := Run(settings, candidates, events, index).steps[j], Normalise(events[j].pickerOutput);
            && (step.Skipped? <==> choice == [])
            && (step.Copied? ==> step.copy == CopyAction(Source(settings, choice), Destination(settings, index + j)))
  {
    var choice := Normalise(events[j].pickerOutput);
    assert Run(settings, candidates, events, index).steps[j] == StepAt(settings, candidates, index + j, choice);
  }

  /** A whole session: the candidate list is built once from the mirror's
      listing and the first prompt carries index 1. */
  function Session(settings: Settings, mirror: seq<string>, events: seq<Event>): (r: Outcome)
    ensures r.finalIndex == 1 + |r.steps|
    ensures forall j :: 0 <= j < |r.steps| ==>
              r.steps[j].index == j + 1 && r.steps[j].shown == Listing.CandidateList(mirror)
    ensures events != [] && IsExitAnswer(events[0].answer) ==> r.closed && r.steps == []
  {
    Run(settings, Listing.CandidateList(mirror), events, 1)
  }

  /** Every iteration of a session that did not exit, spelled out: the
      iteration at position `j` carries index `j + 1` and shows the one
      candidate list built before the loop; it is a skip exactly when the
      normalised picker output is empty, and otherwise one copy from
      `<local_dir>/<choice>` to `<slides_dir>/<target_subdir> <j + 1>`. */
  lemma SessionSteps(settings: Settings, mirror: seq<string>, events: seq<Event>, j: nat)
    requires j < |Session(settings, mirror, events).steps|
    ensures var step := Session(settings, mirror, events).steps[j];
            var choice := Normalise(events[j].pickerOutput);
            && !IsExitAnswer(events[j].answer)
            && step.index == j + 1
            && step.shown == Listing.CandidateList(mirror)
            && (step.Skipped? <==> choice == [])
            && (step.Copied? ==> step.copy == CopyAction(Source(settings, choice), Destination(settings, j + 1)))
  {
  }

  /** The session closes exactly when some event answers exit, and then at
      the index of the first such event: counting from 1, that is one more
      than its position. */
  lemma SessionClosesOnFirstExit(settings: Settings, mirror: seq<string>, events: seq<Event>)
    ensures var r := Session(settings, mirror, events);
            && (r.closed <==> exists k :: 0 <= k < |events| && IsExitAnswer(events[k].answer))
            && (r.closed ==> IsExitAnswer(events[r.finalIndex - 1].answer)
                             && forall k :: 0 <= k < r.finalIndex - 1 ==> !IsExitAnswer(events[k].answer))
  {
  }

  /** The positions of the copying rounds from position `from` on, first
      to last. */
  function CopyRounds(steps: seq<Step>, from: nat): (p: seq<nat>)
    requires from <= |steps|
    ensures |p| <= |steps| - from
    ensures forall a :: 0 <= a < |p| ==> from <= p[a] < |steps| && steps[p[a]].Copied?
    decreases |steps| - from
  {
    if from == |steps| then []
    else (if steps[from].Copied? then [from] else []) + CopyRounds(steps, from + 1)
  }

  /** The copying rounds are listed in increasing order. */
  lemma {:induction false} CopyRoundsIncreasing(steps: seq<Step>, from: nat)
    requires from <= |steps|
    ensures forall a, b :: 0 <= a < b < |CopyRounds(steps, from)| ==>
              CopyRounds(steps, from)[a] < CopyRounds(steps, from)[b]
    decreases |steps| - from
  {
    if from < |steps| {
      CopyRoundsIncreasing(steps, from + 1);
    }
  }

  /** Every copying round from position `from` on is listed. */
  lemma {:induction false} CopyRoundsComplete(steps: seq<Step>, from: nat)
    requires from <= |steps|
    ensures forall j :: from <= j < |steps| && steps[j].Copied? ==> j in CopyRounds(steps, from)
    decreases |steps| - from
  {
    if from < |steps| {
      CopyRoundsComplete(steps, from + 1);
    }
  }

  /** The copy actions of the rounds from position `from` on, one per
      copying round and in round order, which is the order of the
      `copytree` calls. */
  function Copies(steps: seq<Step>, from: nat): (r: seq<CopyAction>)
    requires from <= |steps|
    ensures |r| == |CopyRounds(steps, from)|
    ensures forall a :: 0 <= a < |r| ==> r[a] == steps[CopyRounds(steps, from)[a]].copy
    decreases |steps| - from
  {
    if from == |steps| then []
    else (if steps[from].Copied? then [steps[from].copy] else []) + Copies(steps, from + 1)
  }

  /** The picker writes the chosen line followed by a newline. The choice
      read back is that line exactly when the line has no whitespace at
      either end; a name with such whitespace comes back altered. */
  lemma NormalisePickerLine(line: string)
    ensures Normalise(line + "\n") == line <==> Trimmed(line)
  {
    assert DropLast(line + "\n") == line;
    if Trimmed(line) {
      StripTrimmed(line);
    }
  }

  /** The choice is what remains of the picker output, its last character
      dropped, once the whitespace runs at both ends are cut away. */
  lemma NormaliseSplits(raw: string)
    ensures var body, choice := DropLast(raw), Normalise(raw);
            var i := LeadingSpace(body);
            && i + |choice| <= |body|
            && body[i..i + |choice|] == choice
            && AllSpace(body[..i])
            && AllSpace(body[i + |choice|..])
  {
    StripSplits(DropLast(raw));
  }

  /** Distinct indices name distinct output folders. */
  lemma SlotNameInjective(targetSubdir: string, i: nat, j: nat)
    ensures SlotName(targetSubdir, i) == SlotName(targetSubdir, j) ==> i == j
  {
    var p := targetSubdir + " ";
    if SlotName(targetSubdir, i) == SlotName(targetSubdir, j) {
      assert Decimal.Render(i) == SlotName(targetSubdir, i)[|p|..];
      assert Decimal.Render(j) == SlotName(targetSubdir, j)[|p|..];
      Decimal.RenderInjective(i, j);
    }
  }

  /** Distinct indices give distinct copy destinations. */
  lemma DestinationInjective(settings: Settings, i: nat, j: nat)
    ensures Destination(settings, i) == Destination(settings, j) ==> i == j
  {
    var p := settings.slidesDir + "/";
    if Destination(settings, i) == Destination(settings, j) {
      assert SlotName(settings.targetSubdir, i) == Destination(settings, i)[|p|..];
      assert SlotName(settings.targetSubdir, j) == Destination(settings, j)[|p|..];
      SlotNameInjective(settings.targetSubdir, i, j);
    }
  }

  /** Steps numbered consecutively from `start`, each copy aimed at the
      folder of its own index. */
  ghost predicate Numbered(settings: Settings, steps: seq<Step>, start: nat)
  {
    && (forall j :: 0 <= j < |steps| ==> steps[j].index == start + j)
    && (forall j :: 0 <= j < |steps| && steps[j].Copied? ==>
          steps[j].copy.destination == Destination(settings, steps[j].index))
  }

  lemma NumberedCopiesDistinct(settings: Settings, steps: seq<Step>, start: nat)
    requires Numbered(settings, steps, start)
    ensures forall a, b :: 0 <= a < b < |Copies(steps, 0)| ==>
              Copies(steps, 0)[a].destination != Copies(steps, 0)[b].destination
  {
    var cs, p := Copies(steps, 0), CopyRounds(steps, 0);
    CopyRoundsIncreasing(steps, 0);
    forall a, b | 0 <= a < b < |cs|
      ensures cs[a].destination != cs[b].destination
    {
      assert cs[a].destination == Destination(settings, start + p[a]);
      assert cs[b].destination == Destination(settings, start + p[b]);
      DestinationInjective(settings, start + p[a], start + p[b]);
    }
  }

  /** Within one session no two copies share a destination: indices never
      repeat and their decimal renderings differ. */
  lemma CopyDestinationsDistinct(settings: Settings, mirror: seq<string>, events: seq<Event>)
    ensures var copies := Copies(Session(settings, mirror, events).steps, 0);
            forall a, b :: 0 <= a < b < |copies| ==> copies[a].destination != copies[b].destination
  {
    NumberedCopiesDistinct(settings, Session(settings, mirror, events).steps, 1);
  }

  /** Whether the copy of step `j` meets a name that already exists: one the
      directory held before the session, or one an earlier copy created. */
  predicate Clashes(entries: set<string>, settings: Settings, steps: seq<Step>, j: nat)
    requires j < |steps|
  {
    && steps[j].Copied?
    && (|| SlotName(settings.targetSubdir, steps[j].index) in entries
        || exists i :: 0 <= i < j && steps[i].Copied?
                       && SlotName(settings.targetSubdir, steps[i].index) == SlotName(settings.targetSubdir, steps[j].index))
  }

  /** The entries after the first step's copy, if it made one. */
  function After(entries: set<string>, settings: Settings, step: Step): set<string>
  {
    if step.Copied? then entries + {SlotName(settings.targetSubdir, step.index)} else entries
  }

  /** Past a first step that does not clash, the later steps clash against
      the entries it leaves exactly when they clashed before. */
  lemma ClashesShift(entries: set<string>, settings: Settings, steps: seq<Step>, j: nat)
    requires 0 < j < |steps|
    ensures Clashes(After(entries, settings, steps[0]), settings, steps[1..], j - 1)
            <==> Clashes(entries, settings, steps, j)
  {
    var rest := steps[1..];
    var name := SlotName(settings.targetSubdir, steps[j].index);
    assert rest[j - 1] == steps[j];
    if exists i :: 0 <= i < j - 1 && rest[i].Copied? && SlotName(settings.targetSubdir, rest[i].index) == name {
      var i :| 0 <= i < j - 1 && rest[i].Copied? && SlotName(settings.targetSubdir, rest[i].index) == name;
      assert steps[i + 1] == rest[i];
    }
    if exists i :: 1 <= i < j && steps[i].Copied? && SlotName(settings.targetSubdir, steps[i].index) == name {
      var i :| 1 <= i < j && steps[i].Copied? && SlotName(settings.targetSubdir, steps[i].index) == name;
      assert rest[i - 1] == steps[i];
    }
  }

  /** The position of the first copy that meets an existing name, or the
      number of steps when none does. */
  function FirstClash(entries: set<string>, settings: Settings, steps: seq<Step>): (n: nat)
    ensures n <= |steps|
    ensures forall j :: 0 <= j < n ==> !Clashes(entries, settings, steps, j)
    ensures n < |steps| ==> Clashes(entries, settings, steps, n)
    decreases |steps|
  {
    if steps == [] then 0
    else if Clashes(entries, settings, steps, 0) then 0
    else
      var m := FirstClash(After(entries, settings, steps[0]), settings, steps[1..]);
      assert forall j :: 0 < j <= m && j < |steps| ==>
               (Clashes(entries, settings, steps, j) <==> Clashes(After(entries, settings, steps[0]), settings, steps[1..], j - 1)) by {
        forall j | 0 < j <= m && j < |steps| {
          ClashesShift(entries, settings, steps, j);
        }
      }
      1 + m
  }

  /** Carries out the copies of a session on the output directory, given as
      the set of its entry names, in round order. `copytree` refuses a
      destination that already exists, so the first copy onto a present
      name, whether it was there before or an earlier round created it,
      fails and names its destination. */
  function Populate(entries: set<string>, settings: Settings, steps: seq<Step>): (r: Result<set<string>>)
    ensures r.Success? <==> FirstClash(entries, settings, steps) == |steps|
    ensures r.Failure? ==> var n := FirstClash(entries, settings, steps);
                           n < |steps| && steps[n].Copied?
                           && r.error == TargetExists(steps[n].copy.destination)
    ensures r.Success? ==> entries <= r.value
    ensures r.Success? ==> forall j :: 0 <= j < |steps| && steps[j].Copied? ==>
                             SlotName(settings.targetSubdir, steps[j].index) in r.value
    ensures r.Success? ==> forall n :: n in r.value ==>
                             n in entries || exists j :: 0 <= j < |steps| && steps[j].Copied?
                                                         && SlotName(settings.targetSubdir, steps[j].index) == n
    decreases |steps|
  {
    if steps == [] then Success(entries)
    else
      var rest := steps[1..];
      assert forall j :: 0 <= j < |rest| ==> rest[j] == steps[j + 1];
      match steps[0]
      case Skipped(_, _) => Populate(entries, settings, rest)
      case Copied(i, _, copy) =>
        var name := SlotName(settings.targetSubdir, i);
        if name in entries then Failure(TargetExists(copy.destination))
        else Populate(entries + {name}, settings, rest)
  }

  /** Any copy onto a name the directory already held makes the copies
      fail. */
  lemma PopulateFailsOnExisting(entries: set<string>, settings: Settings, steps: seq<Step>, j: nat)
    requires j < |steps| && steps[j].Copied?
    requires SlotName(settings.targetSubdir, steps[j].index) in entries
    ensures Populate(entries, settings, steps).Failure?
  {
    assert Clashes(entries, settings, steps, j);
  }

  /** When the directory holds no folder named like a slot from `start` on,
      every copy of consecutively numbered steps lands on a fresh name, so
      `copytree` never meets an existing destination. */
  lemma {:induction false} PopulateFresh(entries: set<string>, settings: Settings, steps: seq<Step>, start: nat)
    requires forall j :: 0 <= j < |steps| ==> steps[j].index == start + j
    requires forall i: nat :: i >= start ==> SlotName(settings.targetSubdir, i) !in entries
    ensures Populate(entries, settings, steps).Success?
    decreases |steps|
  {
    if steps != [] {
      var rest := steps[1..];
      assert forall j :: 0 <= j < |rest| ==> rest[j] == steps[j + 1];
      var name := SlotName(settings.targetSubdir, start);
      forall i: nat | i >= start + 1
        ensures SlotName(settings.targetSubdir, i) !in entries + {name}
      {
        SlotNameInjective(settings.targetSubdir, i, start);
      }
      PopulateFresh(entries + {name}, settings, rest, start + 1);
      PopulateFresh(entries, settings, rest, start + 1);
    }
  }
}
