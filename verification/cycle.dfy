/**
 One backup cycle, `do_backup`, and one turn of the `run` loop.

 The cycle first names and creates the local folder (outside the `try`),
 then runs its steps in a fixed order inside one `try`: zip, authenticate,
 create the Drive folder, upload, clean the local backups, clean the Drive
 folders, and the summary (which reads the zip's size). The first step that
 raises sends control to the `except`, which logs the error, so every later
 step is skipped; the end-of-cycle line is logged either way. An exception
 raised before the `try` leaves `do_backup` and is caught by `run`.

 The world the cycle touches is an `Env`: the clock readings, whether each
 foreign call would succeed, the listings the cleanups see and which of
 their removals would raise.

 The steps can be run in any order (`RunTry` takes the order as a
 parameter): `Steps` is the order of the source, and `SizeFirstSteps` the
 corrected order in which the summary reads the zip's size before the
 cleanups can remove it.
 */
module Cycle {
  import opened Wrappers
  import opened Naming
  import opened Retention
  import opened Archive
  import opened Config

  datatype Step = Zip | Authenticate | CreateFolder | Upload | CleanLocal | CleanDrive | Summary

  /** The order of the steps inside the `try`. */
  const Steps: seq<Step> := [Zip, Authenticate, CreateFolder, Upload, CleanLocal, CleanDrive, Summary]

  function Index(s: Step): (i: nat)
    ensures i < |Steps| && Steps[i] == s
  {
    match s
    case Zip => 0
    case Authenticate => 1
    case CreateFolder => 2
    case Upload => 3
    case CleanLocal => 4
    case CleanDrive => 5
    case Summary => 6
  }

  /** What the log says about a cycle: its start and end lines, the error
      line, the success line, the line `run` writes for an exception that
      left `do_backup`; `Ran(s)` marks that step `s` was started. */
  datatype Event = CycleStart | Ran(step: Step) | Error(step: Step) | BackupOk | CycleEnd | Unexpected

  // ---------------------------------------------------------------------
  // The control flow of the `try` block, for any set of failing steps

  /** The steps run one after the other; the first one in `failing` raises,
      its error is logged and nothing after it runs; if none raises, the
      success line is logged. */
  function Attempt(steps: seq<Step>, failing: set<Step>): (r: seq<Event>)
    ensures |r| > 0 && (r[|r| - 1].BackupOk? || r[|r| - 1].Error?)
  {
    if |steps| == 0 then [BackupOk]
    else if steps[0] in failing then [Ran(steps[0]), Error(steps[0])]
    else [Ran(steps[0])] + Attempt(steps[1..], failing)
  }

  /** The log of a cycle that runs its steps in `order`, when the `failing`
      steps would raise if reached. */
  function Log(order: seq<Step>, failing: set<Step>): seq<Event>
  {
    [CycleStart] + Attempt(order, failing) + [CycleEnd]
  }

  /** The log of a cycle of the source, whose `failing` steps would raise if reached. */
  function Trace(failing: set<Step>): seq<Event>
  {
    Log(Steps, failing)
  }

  function RanEvents(steps: seq<Step>): (r: seq<Event>)
    ensures |r| == |steps|
    ensures forall i :: 0 <= i < |steps| ==> r[i] == Ran(steps[i])
  {
    seq(|steps|, i requires 0 <= i < |steps| => Ran(steps[i]))
  }

  /** Step `s` is reached when every step before it succeeds. */
  predicate Reaches(failing: set<Step>, s: Step)
  {
    forall t :: Index(t) < Index(s) ==> t !in failing
  }

  /** `Attempt` in closed form: the steps up to and including the first
      failing one, then its error; or all steps, then the success line. */
  lemma {:induction false} AttemptClosedForm(steps: seq<Step>, failing: set<Step>)
    ensures var k := FirstFailure(steps, failing);
      Attempt(steps, failing)
      == if k < |steps| then RanEvents(steps[..k + 1]) + [Error(steps[k])]
         else RanEvents(steps) + [BackupOk]
  {
    if |steps| > 0 && steps[0] !in failing {
      AttemptClosedForm(steps[1..], failing);
      var k := FirstFailure(steps[1..], failing);
      assert FirstFailure(steps, failing) == k + 1;
      if k < |steps[1..]| {
        assert RanEvents(steps[..k + 2]) == [Ran(steps[0])] + RanEvents(steps[1..][..k + 1]);
      } else {
        assert RanEvents(steps) == [Ran(steps[0])] + RanEvents(steps[1..]);
      }
    }
  }

  /** Reaching a step is being at or before the first failing one. */
  lemma ReachesFirstFailure(failing: set<Step>, s: Step)
    ensures Reaches(failing, s) <==> Index(s) <= FirstFailure(Steps, failing)
  {
    var k := FirstFailure(Steps, failing);
    if Index(s) <= k {
      forall t | Index(t) < Index(s) ensures t !in failing {
        assert Steps[Index(t)] == t;
      }
    } else {
      assert Index(Steps[k]) == k;
    }
  }

  /** The log starts and ends with the cycle markers whatever fails. */
  lemma TraceEnds(failing: set<Step>)
    ensures var log := Trace(failing);
      |log| >= 3 && log[0] == CycleStart && log[|log| - 1] == CycleEnd
  {
    AttemptClosedForm(Steps, failing);
  }

  /** The line that closes the `try`: the first failing step's error, or the success line. */
  function Outcome(failing: set<Step>): Event
  {
    var k := FirstFailure(Steps, failing);
    if k < |Steps| then Error(Steps[k]) else BackupOk
  }

  /** The log of a cycle: the started steps, then the closing line. */
  lemma TraceShape(failing: set<Step>)
    ensures Trace(failing) == [CycleStart] + RanEvents(Steps[..Started(failing)]) + [Outcome(failing)] + [CycleEnd]
  {
    AttemptClosedForm(Steps, failing);
    assert Steps[..|Steps|] == Steps;
  }

  lemma RanEventsMembers(steps: seq<Step>, e: Event)
    ensures e in RanEvents(steps) <==> e.Ran? && e.step in steps
  {
    if e in RanEvents(steps) {
      var j :| 0 <= j < |steps| && RanEvents(steps)[j] == e;
    }
    if e.Ran? && e.step in steps {
      var j :| 0 <= j < |steps| && steps[j] == e.step;
      assert RanEvents(steps)[j] == e;
    }
  }

  /** The steps are distinct, so the first `n` of them are those of index below `n`. */
  lemma StepsPrefix(n: nat, s: Step)
    requires n <= |Steps|
    ensures s in Steps[..n] <==> Index(s) < n
  {
    if s in Steps[..n] {
      var j :| 0 <= j < n && Steps[j] == s;
      assert Index(Steps[j]) == j;
    }
    if Index(s) < n {
      assert Steps[..n][Index(s)] == s;
    }
  }

  /** A step is started exactly when every step before it succeeded. */
  lemma TraceRan(failing: set<Step>, s: Step)
    ensures Ran(s) in Trace(failing) <==> Reaches(failing, s)
  {
    TraceShape(failing);
    StartedReaches(failing, s);
    RanEventsMembers(Steps[..Started(failing)], Ran(s));
    StepsPrefix(Started(failing), s);
  }

  /** The only error logged is that of the first failing step. */
  lemma TraceError(failing: set<Step>, s: Step)
    ensures Error(s) in Trace(failing) <==> Reaches(failing, s) && s in failing
  {
    TraceShape(failing);
    ReachesFirstFailure(failing, s);
    RanEventsMembers(Steps[..Started(failing)], Error(s));
    var k := FirstFailure(Steps, failing);
    assert Error(s) in Trace(failing) <==> Outcome(failing) == Error(s);
    if k < |Steps| {
      assert Index(Steps[k]) == k;
    }
  }

  /** The success line is logged exactly when no step fails. */
  lemma TraceOk(failing: set<Step>)
    ensures BackupOk in Trace(failing) <==> forall s :: s !in failing
  {
    TraceShape(failing);
    RanEventsMembers(Steps[..Started(failing)], BackupOk);
    var k := FirstFailure(Steps, failing);
    assert BackupOk in Trace(failing) <==> Outcome(failing) == BackupOk;
    if k == |Steps| {
      forall s ensures s !in failing {
        assert Steps[Index(s)] == s;
      }
    }
  }

  /** Once a step fails, no later step is started. */
  lemma FailureSkipsLater(failing: set<Step>, s: Step, t: Step)
    requires Error(s) in Trace(failing) && Index(s) < Index(t)
    ensures Ran(t) !in Trace(failing)
  {
    TraceError(failing, s);
    TraceRan(failing, t);
  }

  // ---------------------------------------------------------------------
  // The world of one cycle

  /** `now` and `utcNow` are `datetime.now()` and `datetime.utcnow()`;
      `makedirsOk` whether `os.makedirs(local_folder)` succeeds; `absSource`
      and `source` the folder to zip; `zipAlreadyThere` whether a file is
      already at `zip_path`, and `zipIo` which file-system calls of the zip
      step raise; the three flags whether the credentials can be
      read and the two `create` calls succeed; `localListing` what the local
      cleanup lists, with each entry's ctime (`None` when `os.listdir` or one
      of the `os.path.getctime` reads of the sort key raises, as when the root
      is unreadable or a folder vanishes after the listing), and
      `rmtreeFailing` the entries whose `rmtree` raises;
      `driveListing` the folders the Drive listing returns (`None` when that
      call raises) and `deleteFailing` the folders whose deletion raises. */
  datatype Env = Env(
    now: DateTime,
    utcNow: DateTime,
    makedirsOk: bool,
    absSource: seq<string>,
    source: Source,
    zipAlreadyThere: bool,
    zipIo: ZipIo,
    credentialsOk: bool,
    createOk: bool,
    uploadOk: bool,
    localListing: Option<seq<LocalEntry>>,
    rmtreeFailing: set<LocalEntry>,
    driveListing: Option<seq<DriveFolder>>,
    deleteFailing: set<DriveFolder>)

  /** The three names a cycle builds from the clock: the local folder, the
      zip file, and the Drive folder. */
  datatype Names = Names(localFolder: string, zipName: string, driveFolder: string)

  function CycleNames(cfg: BotConfig, env: Env): Names
    requires Valid(env.now) && Valid(env.utcNow)
  {
    Names(LocalFolderName(env.now), ZipName(cfg.zipPrefix, env.utcNow), DriveFolderName(cfg.name, env.now))
  }

  /** What a completed cycle did. */
  datatype Report = Report(
    localFolder: string,
    zipName: string,
    archive: ZipOutcome,
    totalFiles: nat,
    driveFolder: Option<string>,
    uploaded: Option<string>,
    localRemoved: seq<LocalEntry>,
    driveDeleted: seq<DriveFolder>,
    log: seq<Event>)

  /** `do_backup` either returns, having logged its cycle, or lets the
      exception of `os.makedirs` escape. */
  datatype Backup = Escaped | Completed(report: Report)

  /** What the two cleanups try to remove, in order: the local backups
      past `local_keep`, and the Drive folders before the last `drive_keep`
      (`None` when the listing, or reading the sort key, raises). The listings are inputs of the
      cycle, so both selections are fixed before it starts. */
  datatype Plan = Plan(localTargets: Option<seq<LocalEntry>>, driveTargets: Option<seq<DriveFolder>>)

  function CleanupPlan(cfg: BotConfig, env: Env): Plan
  {
    Plan(match env.localListing
         case None => None
         case Some(listing) => Some(SelectLocal(listing, cfg.localKeep).deleted),
         match env.driveListing
         case None => None
         case Some(files) => Some(SelectDrive(files, cfg.driveKeep).deleted))
  }

  /** The local backups `rmtree` removes before the first one that raises. */
  function LocalRemoval(plan: Plan, env: Env): seq<LocalEntry>
  {
    match plan.localTargets
    case None => []
    case Some(targets) => targets[..FirstFailure(targets, env.rmtreeFailing)]
  }

  /** The Drive folders deleted before the first deletion that raises. */
  function DriveRemoval(plan: Plan, env: Env): seq<DriveFolder>
  {
    match plan.driveTargets
    case None => []
    case Some(targets) => targets[..FirstFailure(targets, env.deleteFailing)]
  }

  /** Whether a removed local backup is the folder named `name`. */
  predicate RemovesFolder(removed: seq<LocalEntry>, name: string)
  {
    exists k :: 0 <= k < |removed| && removed[k].name == name
  }

  /** The local cleanup raises when the listing or a ctime read does, or
      when an `rmtree` does. */
  predicate LocalCleanupFails(plan: Plan, env: Env)
  {
    match plan.localTargets
    case None => true
    case Some(targets) => FirstFailure(targets, env.rmtreeFailing) < |targets|
  }

  /** The Drive cleanup raises when the listing does, or when a deletion does. */
  predicate DriveCleanupFails(plan: Plan, env: Env)
  {
    match plan.driveTargets
    case None => true
    case Some(targets) => FirstFailure(targets, env.deleteFailing) < |targets|
  }

  /** The summary reads the size of the zip, which is gone when the local
      cleanup removed the cycle's own folder. */
  predicate SummaryFails(plan: Plan, env: Env, names: Names)
  {
    RemovesFolder(LocalRemoval(plan, env), names.localFolder)
  }

  /** Whether step `s` raises when it is reached after the steps in `done`.
      Only the summary depends on what ran before it: its `getsize` raises
      when the local cleanup has run and removed the cycle's own folder. */
  predicate StepFails(cfg: BotConfig, env: Env, names: Names, plan: Plan, done: set<Step>, s: Step)
  {
    match s
    case Zip => ZipRaises(env.absSource, env.source, env.zipAlreadyThere, env.zipIo,
                          cfg.excludedFolders, cfg.excludedExtensions)
    case Authenticate => !env.credentialsOk
    case CreateFolder => !env.createOk
    case Upload => !env.uploadOk
    case CleanLocal => LocalCleanupFails(plan, env)
    case CleanDrive => DriveCleanupFails(plan, env)
    case Summary => CleanLocal in done && SummaryFails(plan, env, names)
  }

  /** The steps of a sequence, as a set. */
  function Done(steps: seq<Step>): set<Step>
  {
    set s | s in steps
  }

  /** Whether the step at position `j` of `order` raises when it is reached. */
  predicate FailsAt(cfg: BotConfig, env: Env, names: Names, plan: Plan, order: seq<Step>, j: nat)
    requires j < |order|
  {
    StepFails(cfg, env, names, plan, Done(order[..j]), order[j])
  }

  /** The steps of `order` that raise if reached. */
  function FailingIn(cfg: BotConfig, env: Env, names: Names, plan: Plan, order: seq<Step>): set<Step>
  {
    set j | 0 <= j < |order| && FailsAt(cfg, env, names, plan, order, j) :: order[j]
  }

  lemma FailingInMember(cfg: BotConfig, env: Env, names: Names, plan: Plan, order: seq<Step>, j: nat)
    requires Distinct(order) && j < |order|
    ensures order[j] in FailingIn(cfg, env, names, plan, order) <==> FailsAt(cfg, env, names, plan, order, j)
  {
    if order[j] in FailingIn(cfg, env, names, plan, order) {
      var j' :| 0 <= j' < |order| && FailsAt(cfg, env, names, plan, order, j') && order[j'] == order[j];
      assert j' == j;
    }
  }

  lemma StepsDistinct()
    ensures Distinct(Steps)
  {
    forall i, j | 0 <= i < j < |Steps| ensures Steps[i] != Steps[j] {
      assert Index(Steps[i]) == i && Index(Steps[j]) == j;
    }
  }

  /** Whether step `s` raises when the source's `try` reaches it. */
  predicate Fails(cfg: BotConfig, env: Env, names: Names, plan: Plan, s: Step)
  {
    FailsAt(cfg, env, names, plan, Steps, Index(s))
  }

  /** The steps of the source's `try` that raise if reached. */
  function WouldFail(cfg: BotConfig, env: Env, names: Names, plan: Plan): set<Step>
  {
    FailingIn(cfg, env, names, plan, Steps)
  }

  lemma WouldFailMembers(cfg: BotConfig, env: Env, names: Names, plan: Plan, s: Step)
    ensures s in WouldFail(cfg, env, names, plan) <==> Fails(cfg, env, names, plan, s)
  {
    StepsDistinct();
    FailingInMember(cfg, env, names, plan, Steps, Index(s));
  }

  /** In the source's order the local cleanup runs before the summary. */
  lemma FailsSummary(cfg: BotConfig, env: Env, names: Names, plan: Plan)
    ensures Fails(cfg, env, names, plan, Summary) <==> SummaryFails(plan, env, names)
  {
    assert Steps[..Index(Summary)][Index(CleanLocal)] == CleanLocal;
  }

  /** What the steps leave behind: the zip outcome and file count, the
      Drive folder created, the file uploaded, and what the two cleanups
      removed. */
  datatype Effects = Effects(
    archive: ZipOutcome,
    totalFiles: nat,
    driveFolder: Option<string>,
    uploaded: Option<string>,
    localRemoved: seq<LocalEntry>,
    driveDeleted: seq<DriveFolder>)

  /** The effects once the steps in `done` have run, each having succeeded
      or (the last of them) having raised. */
  predicate EffectsAfter(cfg: BotConfig, env: Env, names: Names, plan: Plan, done: set<Step>, e: Effects)
  {
    && (Zip in done ==>
          ZipLeaves(env.absSource, env.source, env.zipAlreadyThere, env.zipIo,
                    cfg.excludedFolders, cfg.excludedExtensions, e.archive, e.totalFiles))
    && e.driveFolder == (if CreateFolder in done && env.createOk then Some(names.driveFolder) else None)
    && e.uploaded == (if Upload in done && env.uploadOk then Some(names.zipName) else None)
    && e.localRemoved == (if CleanLocal in done then LocalRemoval(plan, env) else [])
    && e.driveDeleted == (if CleanDrive in done then DriveRemoval(plan, env) else [])
  }

  /** Runs step `s` after the steps in `done`: `ok` is false exactly when it
      raises. The summary reads the size of the zip, which is gone when the
      local cleanup has already removed the cycle's folder. */
  method RunStep(cfg: BotConfig, env: Env, names: Names, plan: Plan, s: Step, done: set<Step>, e: Effects)
    returns (ok: bool, e': Effects)
    requires EffectsAfter(cfg, env, names, plan, done, e)
    ensures ok <==> !StepFails(cfg, env, names, plan, done, s)
    ensures EffectsAfter(cfg, env, names, plan, done + {s}, e')
  {
    e' := e;
    match s {
      case Zip =>
        ok, e' := ZipStep(cfg, env, names, plan, done, e);
      case Authenticate =>
        ok := env.credentialsOk;
      case CreateFolder =>
        ok := env.createOk;
        if ok {
          e' := e.(driveFolder := Some(names.driveFolder));
        }
      case Upload =>
        ok := env.uploadOk;
        if ok {
          e' := e.(uploaded := Some(names.zipName));
        }
      case CleanLocal =>
        ok, e' := CleanLocalStep(cfg, env, names, plan, done, e);
      case CleanDrive =>
        ok, e' := CleanDriveStep(cfg, env, names, plan, done, e);
      case Summary =>
        ok := forall k | 0 <= k < |e.localRemoved| :: e.localRemoved[k].name != names.localFolder;
    }
  }

  method ZipStep(cfg: BotConfig, env: Env, names: Names, plan: Plan, done: set<Step>, e: Effects)
    returns (ok: bool, e': Effects)
    requires EffectsAfter(cfg, env, names, plan, done, e)
    ensures ok <==> !StepFails(cfg, env, names, plan, done, Zip)
    ensures EffectsAfter(cfg, env, names, plan, done + {Zip}, e')
  {
    var archive, totalFiles := CustomZipFolder(env.absSource, env.source, env.zipAlreadyThere, env.zipIo,
                                               cfg.excludedFolders, cfg.excludedExtensions);
    e' := e.(archive := archive, totalFiles := totalFiles);
    ok := archive.raised.None?;
  }

  method CleanLocalStep(cfg: BotConfig, env: Env, names: Names, plan: Plan, done: set<Step>, e: Effects)
    returns (ok: bool, e': Effects)
    requires EffectsAfter(cfg, env, names, plan, done, e)
    ensures ok <==> !StepFails(cfg, env, names, plan, done, CleanLocal)
    ensures EffectsAfter(cfg, env, names, plan, done + {CleanLocal}, e')
  {
    e' := e;
    match plan.localTargets {
      case None =>
        ok := false;
      case Some(targets) =>
        var removed, raised := RemoveInOrder(targets, env.rmtreeFailing);
        e' := e.(localRemoved := removed);
        ok := raised.None?;
    }
  }

  method CleanDriveStep(cfg: BotConfig, env: Env, names: Names, plan: Plan, done: set<Step>, e: Effects)
    returns (ok: bool, e': Effects)
    requires EffectsAfter(cfg, env, names, plan, done, e)
    ensures ok <==> !StepFails(cfg, env, names, plan, done, CleanDrive)
    ensures EffectsAfter(cfg, env, names, plan, done + {CleanDrive}, e')
  {
    e' := e;
    match plan.driveTargets {
      case None =>
        ok := false;
      case Some(targets) =>
        var deleted, raised := RemoveInOrder(targets, env.deleteFailing);
        e' := e.(driveDeleted := deleted);
        ok := raised.None?;
    }
  }

  /** `do_backup` as written: the names are built and the local folder
      created outside the `try`, then the steps run inside it. */
  method DoBackup(cfg: BotConfig, env: Env) returns (b: Backup)
    requires Valid(env.now) && Valid(env.utcNow)
    ensures b.Escaped? <==> !env.makedirsOk
    ensures b.Completed? ==>
      var r := b.report;
      var names := CycleNames(cfg, env);
      var plan := CleanupPlan(cfg, env);
      var failing := WouldFail(cfg, env, names, plan);
      && r.log == Trace(failing)
      && r.localFolder == LocalFolderName(env.now)
      && r.zipName == ZipName(cfg.zipPrefix, env.utcNow)
      && ZipLeaves(env.absSource, env.source, env.zipAlreadyThere, env.zipIo,
                   cfg.excludedFolders, cfg.excludedExtensions, r.archive, r.totalFiles)
      && r.driveFolder == (if Reaches(failing, CreateFolder) && env.createOk then Some(DriveFolderName(cfg.name, env.now)) else None)
      && r.uploaded == (if Reaches(failing, Upload) && env.uploadOk then Some(r.zipName) else None)
      && r.localRemoved == (if Reaches(failing, CleanLocal) then LocalRemoval(plan, env) else [])
      && r.driveDeleted == (if Reaches(failing, CleanDrive) then DriveRemoval(plan, env) else [])
  {
    if !env.makedirsOk {
      return Escaped;
    }
    var names := CycleNames(cfg, env);
    var plan := CleanupPlan(cfg, env);
    StepsDistinct();
    var log, effects := RunTry(cfg, env, names, plan, Steps);
    ghost var failing := WouldFail(cfg, env, names, plan);
    ghost var n := Started(failing);
    StepsPrefix(n, Zip);
    StepsPrefix(n, CreateFolder);
    StepsPrefix(n, Upload);
    StepsPrefix(n, CleanLocal);
    StepsPrefix(n, CleanDrive);
    StartedReaches(failing, CreateFolder);
    StartedReaches(failing, Upload);
    StartedReaches(failing, CleanLocal);
    StartedReaches(failing, CleanDrive);
    b := Completed(Report(names.localFolder, names.zipName, effects.archive, effects.totalFiles, effects.driveFolder,
                          effects.uploaded, effects.localRemoved, effects.driveDeleted, log));
  }

  /** The number of steps of `order` a cycle starts: up to and including the
      first failing one. */
  function StartedIn(order: seq<Step>, failing: set<Step>): (n: nat)
    ensures n <= |order| && (|order| > 0 ==> 1 <= n)
  {
    var k := FirstFailure(order, failing);
    if k < |order| then k + 1 else k
  }

  /** The number of steps the source's `try` starts. */
  function Started(failing: set<Step>): (n: nat)
    ensures 1 <= n <= |Steps|
  {
    StartedIn(Steps, failing)
  }

  lemma StartedReaches(failing: set<Step>, s: Step)
    ensures Reaches(failing, s) <==> Index(s) < Started(failing)
  {
    ReachesFirstFailure(failing, s);
  }

  lemma DoneSnoc(order: seq<Step>, i: nat)
    requires i < |order|
    ensures Done(order[..i + 1]) == Done(order[..i]) + {order[i]}
  {
    assert order[..i + 1] == order[..i] + [order[i]];
  }

  /** The `try` block, with its steps run in `order`: the steps until one
      raises, then the log lines that close the cycle. */
  method RunTry(cfg: BotConfig, env: Env, names: Names, plan: Plan, order: seq<Step>) returns (log: seq<Event>, effects: Effects)
    requires Distinct(order)
    ensures log == Log(order, FailingIn(cfg, env, names, plan, order))
    ensures EffectsAfter(cfg, env, names, plan, Done(order[..StartedIn(order, FailingIn(cfg, env, names, plan, order))]), effects)
  {
    // No step has run yet: nothing is recorded.
    effects := Effects(ZipOutcome(false, false, [], None), 0, None, None, [], []);
    var i := 0;
    var failed := false;
    assert Done(order[..0]) == {};
    while i < |order| && !failed
      invariant 0 <= i <= |order|
      invariant failed ==> 1 <= i && FailsAt(cfg, env, names, plan, order, i - 1)
      invariant forall j :: 0 <= j < i && !(failed && j == i - 1) ==> !FailsAt(cfg, env, names, plan, order, j)
      invariant EffectsAfter(cfg, env, names, plan, Done(order[..i]), effects)
    {
      var ok;
      DoneSnoc(order, i);
      ok, effects := RunStep(cfg, env, names, plan, order[i], Done(order[..i]), effects);
      failed := !ok;
      i := i + 1;
    }
    log := [CycleStart] + RanEvents(order[..i]) + (if failed then [Error(order[i - 1])] else [BackupOk]) + [CycleEnd];
    StoppedAt(cfg, env, names, plan, order, i, failed);
  }

  /** Where the loop of `RunTry` stops, as a fact about `FailingIn`. */
  lemma StoppedAt(cfg: BotConfig, env: Env, names: Names, plan: Plan, order: seq<Step>, i: nat, failed: bool)
    requires Distinct(order) && i <= |order|
    requires failed ==> 1 <= i && FailsAt(cfg, env, names, plan, order, i - 1)
    requires !failed ==> i == |order|
    requires forall j :: 0 <= j < i && !(failed && j == i - 1) ==> !FailsAt(cfg, env, names, plan, order, j)
    ensures StartedIn(order, FailingIn(cfg, env, names, plan, order)) == i
    ensures Log(order, FailingIn(cfg, env, names, plan, order))
         == [CycleStart] + RanEvents(order[..i]) + (if failed then [Error(order[i - 1])] else [BackupOk]) + [CycleEnd]
  {
    var failing := FailingIn(cfg, env, names, plan, order);
    forall j | 0 <= j < i && !(failed && j == i - 1) ensures order[j] !in failing {
      FailingInMember(cfg, env, names, plan, order, j);
    }
    if failed {
      FailingInMember(cfg, env, names, plan, order, i - 1);
    }
    CycleLog(order, failing, i, failed);
  }

  /** Where the loop of `RunTry` stops, in terms of `Log`. */
  lemma CycleLog(order: seq<Step>, failing: set<Step>, i: nat, failed: bool)
    requires i <= |order|
    requires failed ==> 1 <= i && order[i - 1] in failing
    requires !failed ==> i == |order|
    requires forall j :: 0 <= j < i && !(failed && j == i - 1) ==> order[j] !in failing
    ensures StartedIn(order, failing) == i
    ensures Log(order, failing)
         == [CycleStart] + RanEvents(order[..i]) + (if failed then [Error(order[i - 1])] else [BackupOk]) + [CycleEnd]
  {
    FirstFailureAt(order, failing, if failed then i - 1 else i);
    AttemptClosedForm(order, failing);
    assert order[..|order|] == order;
  }

  /** One turn of the `run` loop: whatever `do_backup` does, the turn ends
      with the end-of-cycle line or with the line `run` logs for an
      exception that escaped, and the loop goes on. */
  method RunIteration(cfg: BotConfig, env: Env) returns (log: seq<Event>)
    requires Valid(env.now) && Valid(env.utcNow)
    ensures log == if env.makedirsOk then Trace(WouldFail(cfg, env, CycleNames(cfg, env), CleanupPlan(cfg, env))) else [Unexpected]
    ensures |log| >= 1 && (log[|log| - 1] == CycleEnd || log == [Unexpected])
  {
    var b := DoBackup(cfg, env);
    match b {
      case Escaped =>
        log := [Unexpected];
      case Completed(r) =>
        log := r.log;
        TraceEnds(WouldFail(cfg, env, CycleNames(cfg, env), CleanupPlan(cfg, env)));
    }
  }

  // ---------------------------------------------------------------------
  // The summary after a local cleanup that keeps nothing

  /** Every step before the summary succeeds. */
  predicate CleanRun(cfg: BotConfig, env: Env, names: Names, plan: Plan)
  {
    forall s :: Index(s) < Index(Summary) ==> !Fails(cfg, env, names, plan, s)
  }

  /** As written: with `local_keep = 0` the local cleanup removes every
      sub-directory of the backup root, the cycle's own folder included, so
      the summary's `getsize` of the zip raises and the cycle logs an error
      instead of the success line, although the upload went through. */
  lemma LocalKeepZeroReportsError(cfg: BotConfig, env: Env, names: Names, here: LocalEntry)
    requires CleanRun(cfg, env, names, CleanupPlan(cfg, env)) && cfg.localKeep == 0
    requires env.localListing.Some? && here in env.localListing.value && here.isDir && here.name == names.localFolder
    ensures var log := Trace(WouldFail(cfg, env, names, CleanupPlan(cfg, env)));
      && Error(Summary) in log
      && BackupOk !in log
      && Ran(Upload) in log && Error(Upload) !in log
  {
    var plan := CleanupPlan(cfg, env);
    assert !Fails(cfg, env, names, plan, CleanLocal);
    LocalKeepZeroRemovesCurrent(cfg, env, here);
    CleanRunReportsSummary(cfg, env, names, plan);
  }

  /** With `local_keep = 0` and a clean local cleanup, the cycle's own
      folder is among the removed ones. */
  lemma LocalKeepZeroRemovesCurrent(cfg: BotConfig, env: Env, here: LocalEntry)
    requires !LocalCleanupFails(CleanupPlan(cfg, env), env) && cfg.localKeep == 0
    requires env.localListing.Some? && here in env.localListing.value && here.isDir
    ensures RemovesFolder(LocalRemoval(CleanupPlan(cfg, env), env), here.name)
  {
    var plan := CleanupPlan(cfg, env);
    var targets := plan.localTargets.value;
    LocalKeepZeroRemovesAll(env.localListing.value);
    SubdirectoriesMembers(env.localListing.value);
    assert here in multiset(targets);
    var k :| 0 <= k < |targets| && targets[k] == here;
    assert LocalRemoval(plan, env)[k] == here;
  }

  /** When every step before the summary succeeds, the upload is logged as
      done and the summary decides between the error and the success line. */
  lemma CleanRunReportsSummary(cfg: BotConfig, env: Env, names: Names, plan: Plan)
    requires CleanRun(cfg, env, names, plan)
    ensures var log := Trace(WouldFail(cfg, env, names, plan));
      && Ran(Upload) in log && Error(Upload) !in log
      && (Error(Summary) in log <==> SummaryFails(plan, env, names))
      && (BackupOk in log <==> !SummaryFails(plan, env, names))
  {
    var failing := WouldFail(cfg, env, names, plan);
    forall s | Index(s) < Index(Summary) ensures s !in failing {
      WouldFailMembers(cfg, env, names, plan, s);
    }
    WouldFailMembers(cfg, env, names, plan, Summary);
    FailsSummary(cfg, env, names, plan);
    assert Reaches(failing, Summary);
    assert Reaches(failing, Upload);
    TraceError(failing, Summary);
    TraceOk(failing);
    if !SummaryFails(plan, env, names) {
      forall s ensures s !in failing {
        WouldFailMembers(cfg, env, names, plan, s);
      }
    }
    TraceRan(failing, Upload);
    TraceError(failing, Upload);
  }

  // ---------------------------------------------------------------------
  // The corrected order: the size is read before the cleanups

  /** The steps with the summary's size read moved right after the upload,
      while the zip is certainly there; its success line is still the last
      line of the `try`. */
  const SizeFirstSteps: seq<Step> := [Zip, Authenticate, CreateFolder, Upload, Summary, CleanLocal, CleanDrive]

  function SizeFirstIndex(s: Step): (i: nat)
    ensures i < |SizeFirstSteps| && SizeFirstSteps[i] == s
  {
    match s
    case Zip => 0
    case Authenticate => 1
    case CreateFolder => 2
    case Upload => 3
    case Summary => 4
    case CleanLocal => 5
    case CleanDrive => 6
  }

  lemma SizeFirstDistinct()
    ensures Distinct(SizeFirstSteps)
  {
    forall i, j | 0 <= i < j < |SizeFirstSteps| ensures SizeFirstSteps[i] != SizeFirstSteps[j] {
      assert SizeFirstIndex(SizeFirstSteps[i]) == i && SizeFirstIndex(SizeFirstSteps[j]) == j;
    }
  }

  /** Moving the size read changes which steps raise only for the summary,
      which can no longer raise: the local cleanup has not run when it is
      reached. */
  lemma SizeFirstFailing(cfg: BotConfig, env: Env, names: Names, plan: Plan)
    ensures FailingIn(cfg, env, names, plan, SizeFirstSteps) == WouldFail(cfg, env, names, plan) - {Summary}
  {
    SizeFirstDistinct();
    forall s
      ensures s in FailingIn(cfg, env, names, plan, SizeFirstSteps) <==> s in WouldFail(cfg, env, names, plan) && s != Summary
    {
      FailingInMember(cfg, env, names, plan, SizeFirstSteps, SizeFirstIndex(s));
      WouldFailMembers(cfg, env, names, plan, s);
      if s == Summary {
        assert SizeFirstSteps[..SizeFirstIndex(Summary)] == [Zip, Authenticate, CreateFolder, Upload];
      }
    }
  }

  /** Whatever `failing` is, the log of `order` has the success line exactly
      when no step of `order` fails, and an error only for a failing step. */
  lemma LogOutcome(order: seq<Step>, failing: set<Step>)
    ensures BackupOk in Log(order, failing) <==> forall j :: 0 <= j < |order| ==> order[j] !in failing
    ensures forall s :: Error(s) in Log(order, failing) ==> s in failing
  {
    var k := FirstFailure(order, failing);
    AttemptClosedForm(order, failing);
    forall e ensures e in Log(order, failing) <==> e == CycleStart || e == CycleEnd || e in Attempt(order, failing) {
    }
    if k < |order| {
      RanEventsMembers(order[..k + 1], BackupOk);
      forall s | Error(s) in Log(order, failing) ensures s in failing {
        RanEventsMembers(order[..k + 1], Error(s));
      }
    } else {
      RanEventsMembers(order, BackupOk);
      forall s ensures Error(s) !in Log(order, failing) {
        RanEventsMembers(order, Error(s));
      }
    }
  }

  /** With the size read first, the cycle logs the success line exactly when
      every step other than the summary succeeds, it never logs an error for
      the summary, and a cycle whose steps before the summary all succeed (the
      one the source reports as an error when `local_keep = 0`) logs success
      and no error. */
  lemma SizeFirstCleanRunOk(cfg: BotConfig, env: Env, names: Names, plan: Plan)
    ensures var log := Log(SizeFirstSteps, FailingIn(cfg, env, names, plan, SizeFirstSteps));
      && (BackupOk in log <==> forall s :: s != Summary ==> !Fails(cfg, env, names, plan, s))
      && Error(Summary) !in log
    ensures CleanRun(cfg, env, names, plan) ==>
      var log := Log(SizeFirstSteps, FailingIn(cfg, env, names, plan, SizeFirstSteps));
      BackupOk in log && forall s :: Error(s) !in log
  {
    var f := FailingIn(cfg, env, names, plan, SizeFirstSteps);
    SizeFirstFailing(cfg, env, names, plan);
    LogOutcome(SizeFirstSteps, f);
    forall s ensures s in f <==> s != Summary && Fails(cfg, env, names, plan, s) {
      WouldFailMembers(cfg, env, names, plan, s);
    }
    if forall s :: s != Summary ==> !Fails(cfg, env, names, plan, s) {
      forall j | 0 <= j < |SizeFirstSteps| ensures SizeFirstSteps[j] !in f {
      }
    }
    if forall j :: 0 <= j < |SizeFirstSteps| ==> SizeFirstSteps[j] !in f {
      forall s ensures s !in f {
        assert SizeFirstSteps[SizeFirstIndex(s)] == s;
      }
    }
    if CleanRun(cfg, env, names, plan) {
      forall s | s != Summary ensures !Fails(cfg, env, names, plan, s) {
        assert Index(s) < Index(Summary);
      }
    }
  }
}
