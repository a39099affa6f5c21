/**
 Atomic replace of one file: the plan of steps, and what any schedule of failures and crashes
 leaves on disk when an executor runs it.
 */
module AtomicWrite {
  import opened Wrappers
  import opened VolumePath

  type Byte = b: int | 0 <= b < 256
  type Disk = map<FilePath, seq<Byte>>

  datatype Phase = CreateTemp | WriteData | SyncFile | CloseFile | Rename | SyncDir | Done | Failed

  /** `temp` is the name the create step comes up with. */
  datatype Plan = Plan(destDir: FilePath, dest: FilePath, data: seq<Byte>, temp: FilePath)

  /** How one step ends: it works, it fails in this process, or the process dies during it. */
  datatype Outcome = Works | Fails(part: nat) | Dies(part: nat, took: bool)

  datatype FailKind = Io | Crash

  datatype FailOutcome = FailOutcome(removeTemp: bool, destinationReplaced: bool)

  function NextPhase(p: Phase): Phase {
    match p
    case CreateTemp => WriteData
    case WriteData => SyncFile
    case SyncFile => CloseFile
    case CloseFile => Rename
    case Rename => SyncDir
    case SyncDir => Done
    case Done => Done
    case Failed => Failed
  }

  predicate Ended(p: Phase) {
    p.Done? || p.Failed?
  }

  function OnFail(p: Phase, kind: FailKind): FailOutcome {
    match p
    case CreateTemp => FailOutcome(false, false)
    case SyncDir => FailOutcome(false, true)
    case _ => FailOutcome(kind.Io?, false)
  }

  /** A temp file is removed only while the process lives, and only between its creation and the rename. */
  lemma OnFailExact(p: Phase, kind: FailKind)
    requires !Ended(p)
    ensures OnFail(p, kind).removeTemp <==>
              kind.Io? && (p.WriteData? || p.SyncFile? || p.CloseFile? || p.Rename?)
    ensures OnFail(p, kind).destinationReplaced <==> p.SyncDir?
  {
  }

  // ---------- The plan, step by step ----------

  class WriteTxn {
    const destDir: FilePath
    const dest: FilePath
    const data: seq<Byte>
    var temp: Option<FilePath>
    var phase: Phase

    ghost predicate Valid()
      reads this
    {
      phase in {Phase.WriteData, Phase.SyncFile, Phase.CloseFile, Phase.Rename, Phase.SyncDir} ==> temp.Some?
    }

    constructor (destDir: FilePath, dest: FilePath, data: seq<Byte>)
      ensures Valid() && phase.CreateTemp? && this.destDir == destDir && this.dest == dest && this.data == data
    {
      this.destDir, this.dest, this.data, temp, phase := destDir, dest, data, None, Phase.CreateTemp;
    }

    static method Prepare(dir: FilePath, name: FilePath, data: seq<Byte>) returns (r: Result<WriteTxn, Error>)
      ensures r.Err? <==> Within(dir, name).Err?
      ensures r.Err? ==> r.error == Within(dir, name).error
      ensures r.Ok? ==> fresh(r.value) && r.value.Valid() && r.value.phase.CreateTemp? && r.value.data == data
      ensures r.Ok? ==> (r.value.destDir, r.value.dest) == Within(dir, name).value
    {
      match Within(dir, name)
      case Err(error) => return Err(error);
      case Ok((destDir, dest)) =>
        var txn := new WriteTxn(destDir, dest, data);
        return Ok(txn);
    }

    method CreatedTemp(path: FilePath) returns (ok: bool)
      requires Valid()
      modifies this
      ensures Valid() && ok == old(phase).CreateTemp?
      ensures ok ==> temp == Some(path) && phase == NextPhase(old(phase))
      ensures !ok ==> temp == old(temp) && phase == old(phase)
    {
      if phase != Phase.CreateTemp {
        return false;
      }
      temp := Some(path);
      phase := Phase.WriteData;
      ok := true;
    }

    method Completed() returns (ok: bool)
      requires Valid()
      modifies this`phase
      ensures Valid() && ok == !(old(phase).CreateTemp? || Ended(old(phase)))
      ensures phase == if ok then NextPhase(old(phase)) else old(phase)
    {
      ok := true;
      match phase {
        case WriteData => phase := Phase.SyncFile;
        case SyncFile => phase := Phase.CloseFile;
        case CloseFile => phase := Phase.Rename;
        case Rename => phase := Phase.SyncDir;
        case SyncDir => phase := Phase.Done;
        case _ => ok := false;
      }
    }

    method Fail(kind: FailKind) returns (outcome: Option<FailOutcome>)
      requires Valid()
      modifies this`phase
      ensures Valid()
      ensures if Ended(old(phase)) then outcome.None? && phase == old(phase)
              else outcome == Some(OnFail(old(phase), kind)) && phase.Failed?
    {
      if Ended(phase) {
        return None;
      }
      outcome := Some(OnFail(phase, kind));
      phase := Phase.Failed;
    }
  }

  // ---------- What a schedule leaves on disk ----------

  /** The disk after the step of `phase`; a write that stops leaves some first part of the data. */
  function AfterStep(disk: Disk, plan: Plan, phase: Phase, o: Outcome): Disk {
    match phase
    case CreateTemp => if o.Works? || (o.Dies? && o.took) then disk[plan.temp := []] else disk
    case WriteData =>
      if o.Works? then disk[plan.temp := plan.data]
      else disk[plan.temp := plan.data[..if o.part < |plan.data| then o.part else |plan.data|]]
    case Rename =>
      if (o.Works? || (o.Dies? && o.took)) && plan.temp in disk
      then disk[plan.dest := disk[plan.temp]] - {plan.temp}
      else disk
    case _ => disk
  }

  /** The executor finished, or stopped in a phase with an outcome that did not work. */
  datatype Ending = Finished | Stopped(phase: Phase, how: Outcome)

  /** The executor from `phase` on; steps behind the end of `schedule` work. */
  function Play(disk: Disk, plan: Plan, phase: Phase, schedule: seq<Outcome>, removeWorks: bool): (Disk, Ending)
    requires !phase.Failed?
    decreases Left(phase)
  {
    if phase.Done? then (disk, Finished)
    else
      var o := if schedule == [] then Works else schedule[0];
      var after := AfterStep(disk, plan, phase, o);
      match o
      case Works => Play(after, plan, NextPhase(phase), if schedule == [] then [] else schedule[1..], removeWorks)
      case Fails(_) =>
        (if OnFail(phase, Io).removeTemp && removeWorks then after - {plan.temp} else after, Stopped(phase, o))
      case Dies(_, _) => (after, Stopped(phase, o))
  }

  function Left(p: Phase): nat {
    match p
    case CreateTemp => 6
    case WriteData => 5
    case SyncFile => 4
    case CloseFile => 3
    case Rename => 2
    case SyncDir => 1
    case Done => 0
    case Failed => 0
  }

  predicate SameAt(a: Disk, b: Disk, p: FilePath) {
    (p in a <==> p in b) && (p in a ==> a[p] == b[p])
  }

  predicate HasAll(d: Disk, p: FilePath, data: seq<Byte>) {
    p in d && d[p] == data
  }

  /** What the disk holds when the executor stands before `phase`, having started from `was`. */
  ghost predicate Before(was: Disk, d: Disk, plan: Plan, phase: Phase) {
    && (forall p :: p != plan.dest && p != plan.temp ==> SameAt(d, was, p))
    && (if phase.SyncDir? || phase.Done? then HasAll(d, plan.dest, plan.data) else SameAt(d, was, plan.dest))
    && (plan.temp in d <==> phase in {Phase.WriteData, Phase.SyncFile, Phase.CloseFile, Phase.Rename})
    && (phase in {Phase.SyncFile, Phase.CloseFile, Phase.Rename} ==> d[plan.temp] == plan.data)
  }

  /** The rename took effect before the run ended. */
  predicate Renamed(end: Ending) {
    end.Finished? || end.phase.SyncDir? || (end.phase.Rename? && end.how.Dies? && end.how.took)
  }

  /** The temp file was made, nothing renamed it, and nobody removed it. */
  predicate TempLeft(end: Ending, removeWorks: bool) {
    !Renamed(end)
    && if end.how.Dies? then !end.phase.CreateTemp? || end.how.took else !end.phase.CreateTemp? && !removeWorks
  }

  /** What a run that started from `was` leaves behind. */
  ghost predicate Leaves(was: Disk, d: Disk, plan: Plan, end: Ending, removeWorks: bool) {
    && (forall p :: p != plan.dest && p != plan.temp ==> SameAt(d, was, p))
    && (if Renamed(end) then HasAll(d, plan.dest, plan.data) else SameAt(d, was, plan.dest))
    && (plan.temp in d <==> TempLeft(end, removeWorks))
    && (end.Stopped? && end.how.Fails? ==>
          && OnFail(end.phase, Io).destinationReplaced == Renamed(end)
          && OnFail(end.phase, Io).removeTemp == TempLeft(end, false))
  }

  lemma StepKeeps(was: Disk, d: Disk, plan: Plan, phase: Phase)
    requires Before(was, d, plan, phase) && !Ended(phase) && plan.temp != plan.dest
    ensures Before(was, AfterStep(d, plan, phase, Works), plan, NextPhase(phase))
  {
    forall p | p != plan.dest && p != plan.temp ensures SameAt(AfterStep(d, plan, phase, Works), was, p) {
      assert SameAt(d, was, p);
    }
  }

  lemma StopLeaves(was: Disk, d: Disk, plan: Plan, phase: Phase, o: Outcome, removeWorks: bool)
    requires Before(was, d, plan, phase) && !Ended(phase) && plan.temp != plan.dest && !o.Works?
    ensures var (after, end) := Play(d, plan, phase, [o], removeWorks); Leaves(was, after, plan, end, removeWorks)
  {
    var after := AfterStep(d, plan, phase, o);
    forall p | p != plan.dest && p != plan.temp
      ensures SameAt(after, was, p) && SameAt(after - {plan.temp}, was, p)
    {
      assert SameAt(d, was, p);
    }
    assert Play(d, plan, phase, [o], removeWorks) ==
           (if o.Fails? && OnFail(phase, Io).removeTemp && removeWorks then after - {plan.temp} else after,
            Stopped(phase, o));
  }

  lemma {:induction false} PlayLeaves(
      was: Disk, d: Disk, plan: Plan, phase: Phase, schedule: seq<Outcome>, removeWorks: bool)
    requires Before(was, d, plan, phase) && !phase.Failed? && plan.temp != plan.dest
    ensures var (after, end) := Play(d, plan, phase, schedule, removeWorks); Leaves(was, after, plan, end, removeWorks)
    decreases Left(phase)
  {
    if !phase.Done? {
      var o := if schedule == [] then Works else schedule[0];
      if o.Works? {
        StepKeeps(was, d, plan, phase);
        PlayLeaves(was, AfterStep(d, plan, phase, o), plan, NextPhase(phase),
                   if schedule == [] then [] else schedule[1..], removeWorks);
      } else {
        StopLeaves(was, d, plan, phase, o, removeWorks);
      }
    }
  }

  /**
   Whatever fails and whenever the process dies, the destination is the whole new file if the
   rename took effect and the whole old one if not, and no other file changes.  A failure in the
   process reports which of the two; the temp file is left only by a death or a failed removal.
   */
  lemma AllOrNothing(disk: Disk, plan: Plan, schedule: seq<Outcome>, removeWorks: bool)
    requires plan.temp !in disk && plan.temp != plan.dest
    ensures var (after, end) := Play(disk, plan, Phase.CreateTemp, schedule, removeWorks);
            Leaves(disk, after, plan, end, removeWorks)
  {
    PlayLeaves(disk, disk, plan, Phase.CreateTemp, schedule, removeWorks);
  }

  // ---------- The temp file's name ----------

  const TEMP_PREFIX := ".vol-"

  /** Where the executor makes the temp file: beside the destination. */
  function TempPath(parent: FilePath, digits: string): FilePath {
    parent + "/" + (TEMP_PREFIX + digits)
  }

  lemma TempNameIsPlain(digits: string)
    requires forall k :: 0 <= k < |digits| ==> '0' <= digits[k] <= '9'
    ensures var e := TEMP_PREFIX + digits; Plain(e) && Split(e) == [e] && CheckName(e)
  {
    var e := TEMP_PREFIX + digits;
    assert e[1] == 'v';
    SplitPlain(e);
    NameIsPlain(e);
  }

  lemma SpeltIsClean(rooted: bool, st: seq<string>)
    requires StackOk(rooted, st)
    ensures var p := OrDot(Spell(rooted, st)); Clean(p) == p && Stack(p) == st && Rooted(p) == rooted && p != ""
  {
    SpellStack(rooted, st);
  }

  /** The temp file is the destination exactly when the name itself ends in the temp file's name. */
  lemma TempApart(dir: FilePath, name: FilePath, digits: string)
    requires Within(dir, name).Ok? && forall k :: 0 <= k < |digits| ==> '0' <= digits[k] <= '9'
    ensures var (parent, path) := Within(dir, name).value;
            var temp, n := TempPath(parent, digits), Split(name);
            && (Rooted(temp) == Rooted(path) && Stack(temp) == Stack(path) <==> n[|n| - 1] == ".vol-" + digits)
            && (n[|n| - 1] != ".vol-" + digits ==> temp != path)
  {
    hide Norm, Split, Join, Within, CheckName, StackOk, Plain, Stack, Spell, Clean;
    WithinExact(dir, name);
    var (parent, path) := Within(dir, name).value;
    var st, n, e := Stack(dir), Split(name), ".vol-" + digits;
    var up := st + n[..|n| - 1];
    TempNameIsPlain(digits);
    StackIsOk(dir);
    assert StackOk(Rooted(dir), up) by { FrontOk(Rooted(dir), st, n); }
    SpeltIsClean(Rooted(dir), up);
    JoinTwoStack(parent, e);
    CleanIdempotent(parent + "/" + e);
    assert st + n == up + [n[|n| - 1]];
    assert (up + [e])[|up|] == e && (up + [n[|n| - 1]])[|up|] == n[|n| - 1];
  }

  lemma FrontOk(rooted: bool, st: seq<string>, n: seq<string>)
    requires StackOk(rooted, st) && AllPlain(n) && n != []
    ensures StackOk(rooted, st + n[..|n| - 1])
  {
    var up := st + n[..|n| - 1];
    assert forall k :: 0 <= k < |st| ==> up[k] == st[k];
    assert forall k :: |st| <= k < |up| ==> Plain(up[k]);
  }

  // ---------- The executor ----------

  class FileSystem {
    var files: Disk

    constructor (files: Disk)
      ensures this.files == files
    {
      this.files := files;
    }

    /** One step; what it does to the disk is decided by the outcome it meets. */
    method Perform(plan: Plan, phase: Phase, o: Outcome)
      modifies this
      ensures files == AfterStep(old(files), plan, phase, o)
    {
      files := AfterStep(files, plan, phase, o);
    }

    method Remove(path: FilePath)
      modifies this
      ensures files == old(files) - {path}
    {
      files := files - {path};
    }
  }

  /** `write`: asks the plan for the next action until it has none, or a step does not work. */
  method Write(fs: FileSystem, txn: WriteTxn, temp: FilePath, schedule: seq<Outcome>, removeWorks: bool)
    returns (end: Ending)
    requires txn.Valid() && txn.phase.CreateTemp?
    modifies fs, txn
    ensures var plan := Plan(txn.destDir, txn.dest, txn.data, temp);
            (fs.files, end) == Play(old(fs.files), plan, Phase.CreateTemp, schedule, removeWorks)
    ensures end.Finished? <==> txn.phase.Done?
  {
    var plan := Plan(txn.destDir, txn.dest, txn.data, temp);
    var rest := schedule;
    while !Ended(txn.phase)
      invariant txn.Valid() && !txn.phase.Failed?
      invariant Play(old(fs.files), plan, Phase.CreateTemp, schedule, removeWorks) ==
                Play(fs.files, plan, txn.phase, rest, removeWorks)
      decreases Left(txn.phase)
    {
      var phase := txn.phase;
      var o := if rest == [] then Works else rest[0];
      rest := if rest == [] then [] else rest[1..];
      fs.Perform(plan, phase, o);
      match o
      case Works =>
        var ok;
        if phase == Phase.CreateTemp {
          ok := txn.CreatedTemp(temp);
        } else {
          ok := txn.Completed();
        }
      case Fails(_) =>
        var outcome := txn.Fail(Io);
        if outcome.value.removeTemp && removeWorks {
          fs.Remove(temp);
        }
        return Stopped(phase, o);
      case Dies(_, _) => return Stopped(phase, o);
    }
    end := Finished;
  }
}
