/**
 Atomic replace when the machine itself stops.  What the process sees is cached; what is found
 after a restart is some first part of the directory's changes, and of a file that was never synced
 anything at all.  `AtomicWrite` is the view of the process; this is the view after a restart.
 */
module DurableWrite {
  import opened AtomicWrite

  datatype DirOp = MakeTemp | RenameTemp | RemoveTemp

  /**
   The changes to the directory in order, how many of them are sure to last, the cached bytes of the
   new file, and whether these are sure to last.
   */
  datatype Medium = Medium(ops: seq<DirOp>, lasting: nat, bytes: seq<Byte>, synced: bool)

  /** Which of the plan's two syncs are carried out; the plan asks for both. */
  datatype Syncs = Syncs(file: bool, dir: bool)

  const BLANK := Medium([], 0, [], false)

  /** The disk once the changes `ops` are made, with `content` in the new file. */
  function Entries(was: Disk, plan: Plan, content: seq<Byte>, ops: seq<DirOp>): Disk {
    if ops == [] then was
    else
      var d := Entries(was, plan, content, ops[..|ops| - 1]);
      match ops[|ops| - 1]
      case MakeTemp => d[plan.temp := content]
      case RenameTemp => if plan.temp in d then d[plan.dest := d[plan.temp]] - {plan.temp} else d
      case RemoveTemp => d - {plan.temp}
  }

  /** What the process sees. */
  function Cached(was: Disk, plan: Plan, m: Medium): Disk {
    Entries(was, plan, m.bytes, m.ops)
  }

  /** What a restart finds, when the first `k` changes have lasted; `junk` is in a file never synced. */
  function Restarted(was: Disk, plan: Plan, m: Medium, k: nat, junk: seq<Byte>): Disk
    requires k <= |m.ops|
  {
    Entries(was, plan, if m.synced then m.bytes else junk, m.ops[..k])
  }

  function AfterStepOn(m: Medium, plan: Plan, phase: Phase, o: Outcome, syncs: Syncs): Medium {
    match phase
    case CreateTemp => if o.Works? || (o.Dies? && o.took) then m.(ops := m.ops + [MakeTemp], bytes := []) else m
    case WriteData =>
      if o.Works? then m.(bytes := plan.data)
      else m.(bytes := plan.data[..if o.part < |plan.data| then o.part else |plan.data|])
    case SyncFile => if o.Works? && syncs.file then m.(synced := true) else m
    case Rename => if o.Works? || (o.Dies? && o.took) then m.(ops := m.ops + [RenameTemp]) else m
    case SyncDir => if o.Works? && syncs.dir then m.(lasting := |m.ops|) else m
    case _ => m
  }

  /** The executor, as `Play` runs it. */
  function PlayOn(m: Medium, plan: Plan, phase: Phase, schedule: seq<Outcome>, removeWorks: bool, syncs: Syncs)
      : (Medium, Ending)
    requires !phase.Failed?
    decreases Left(phase)
  {
    if phase.Done? then (m, Finished)
    else
      var o := if schedule == [] then Works else schedule[0];
      var after := AfterStepOn(m, plan, phase, o, syncs);
      match o
      case Works =>
        PlayOn(after, plan, NextPhase(phase), if schedule == [] then [] else schedule[1..], removeWorks, syncs)
      case Fails(_) =>
        (if OnFail(phase, Io).removeTemp && removeWorks then after.(ops := after.ops + [RemoveTemp]) else after,
         Stopped(phase, o))
      case Dies(_, _) => (after, Stopped(phase, o))
  }

  /** The medium when every step before `phase` has worked. */
  function MediumAt(plan: Plan, phase: Phase, syncs: Syncs): Medium {
    match phase
    case CreateTemp => BLANK
    case WriteData => Medium([MakeTemp], 0, [], false)
    case SyncFile => Medium([MakeTemp], 0, plan.data, false)
    case CloseFile => Medium([MakeTemp], 0, plan.data, syncs.file)
    case Rename => Medium([MakeTemp], 0, plan.data, syncs.file)
    case SyncDir => Medium([MakeTemp, RenameTemp], 0, plan.data, syncs.file)
    case _ => Medium([MakeTemp, RenameTemp], if syncs.dir then 2 else 0, plan.data, syncs.file)
  }

  // ---------- The process sees what `Play` says ----------

  lemma EntriesNext(was: Disk, plan: Plan, content: seq<Byte>, ops: seq<DirOp>, op: DirOp)
    ensures var d := Entries(was, plan, content, ops);
            Entries(was, plan, content, ops + [op]) ==
              match op
              case MakeTemp => d[plan.temp := content]
              case RenameTemp => if plan.temp in d then d[plan.dest := d[plan.temp]] - {plan.temp} else d
              case RemoveTemp => d - {plan.temp}
  {
    assert (ops + [op])[..|ops|] == ops;
  }

  lemma EntriesMade(was: Disk, plan: Plan, content: seq<Byte>)
    ensures Entries(was, plan, content, []) == was
    ensures Entries(was, plan, content, [MakeTemp]) == was[plan.temp := content]
    ensures Entries(was, plan, content, [MakeTemp, RemoveTemp]) == was[plan.temp := content] - {plan.temp}
    ensures Entries(was, plan, content, [MakeTemp, RenameTemp]) ==
              was[plan.temp := content][plan.dest := content] - {plan.temp}
  {
    EntriesNext(was, plan, content, [], MakeTemp);
    EntriesNext(was, plan, content, [MakeTemp], RemoveTemp);
    EntriesNext(was, plan, content, [MakeTemp], RenameTemp);
    assert [] + [MakeTemp] == [MakeTemp];
    assert [MakeTemp] + [RemoveTemp] == [MakeTemp, RemoveTemp] && [MakeTemp] + [RenameTemp] == [MakeTemp, RenameTemp];
  }

  lemma StepCached(was: Disk, plan: Plan, phase: Phase, o: Outcome, syncs: Syncs)
    requires plan.temp !in was && plan.temp != plan.dest && !Ended(phase)
    ensures var m := MediumAt(plan, phase, syncs);
            Cached(was, plan, AfterStepOn(m, plan, phase, o, syncs)) == AfterStep(Cached(was, plan, m), plan, phase, o)
  {
    hide Entries;
    var m := MediumAt(plan, phase, syncs);
    EntriesMade(was, plan, m.bytes);
    EntriesMade(was, plan, AfterStepOn(m, plan, phase, o, syncs).bytes);
    assert [] + [MakeTemp] == [MakeTemp] && [MakeTemp] + [RenameTemp] == [MakeTemp, RenameTemp];
  }

  lemma StepMedium(plan: Plan, phase: Phase, syncs: Syncs)
    requires !Ended(phase)
    ensures var m := MediumAt(plan, phase, syncs);
            AfterStepOn(m, plan, phase, Works, syncs) == MediumAt(plan, NextPhase(phase), syncs)
  {
    assert [] + [MakeTemp] == [MakeTemp] && [MakeTemp] + [RenameTemp] == [MakeTemp, RenameTemp];
  }

  lemma {:induction false} PlayCached(
      was: Disk, plan: Plan, phase: Phase, schedule: seq<Outcome>, removeWorks: bool, syncs: Syncs)
    requires plan.temp !in was && plan.temp != plan.dest && !phase.Failed?
    ensures var m := MediumAt(plan, phase, syncs);
            var (after, end) := PlayOn(m, plan, phase, schedule, removeWorks, syncs);
            (Cached(was, plan, after), end) == Play(Cached(was, plan, m), plan, phase, schedule, removeWorks)
    decreases Left(phase)
  {
    hide Entries, AfterStep, AfterStepOn, MediumAt;
    if !phase.Done? {
      var o := if schedule == [] then Works else schedule[0];
      var after := AfterStepOn(MediumAt(plan, phase, syncs), plan, phase, o, syncs);
      StepCached(was, plan, phase, o, syncs);
      if o.Works? {
        StepMedium(plan, phase, syncs);
        PlayCached(was, plan, NextPhase(phase), if schedule == [] then [] else schedule[1..], removeWorks, syncs);
      } else {
        EntriesNext(was, plan, after.bytes, after.ops, RemoveTemp);
      }
    }
  }

  // ---------- What a restart finds ----------

  /** What a run leaves on the medium, as far as a restart can tell. */
  ghost predicate LeftOn(plan: Plan, m: Medium, end: Ending, syncs: Syncs) {
    && m.ops in {[], [MakeTemp], [MakeTemp, RemoveTemp], [MakeTemp, RenameTemp]}
    && (Renamed(end) <==> m.ops == [MakeTemp, RenameTemp])
    && (Renamed(end) ==> m.synced == syncs.file && m.bytes == plan.data)
    && m.lasting == if end.Finished? && syncs.dir then 2 else 0
  }

  lemma StopLeaves(plan: Plan, phase: Phase, o: Outcome, removeWorks: bool, syncs: Syncs)
    requires !Ended(phase) && !o.Works?
    ensures var (m, end) := PlayOn(MediumAt(plan, phase, syncs), plan, phase, [o], removeWorks, syncs);
            LeftOn(plan, m, end, syncs)
  {
    assert [MakeTemp] + [RemoveTemp] == [MakeTemp, RemoveTemp] && [MakeTemp] + [RenameTemp] == [MakeTemp, RenameTemp];
    assert [] + [MakeTemp] == [MakeTemp];
  }

  lemma {:induction false} PlayLeavesOn(
      plan: Plan, phase: Phase, schedule: seq<Outcome>, removeWorks: bool, syncs: Syncs)
    requires !phase.Failed?
    ensures var (m, end) := PlayOn(MediumAt(plan, phase, syncs), plan, phase, schedule, removeWorks, syncs);
            LeftOn(plan, m, end, syncs)
    decreases Left(phase)
  {
    if !phase.Done? {
      var o := if schedule == [] then Works else schedule[0];
      if o.Works? {
        StepMedium(plan, phase, syncs);
        PlayLeavesOn(plan, NextPhase(phase), if schedule == [] then [] else schedule[1..], removeWorks, syncs);
      } else {
        StopLeaves(plan, phase, o, removeWorks, syncs);
      }
    }
  }

  /** The medium and the ending of a whole run. */
  function Outcomes(plan: Plan, schedule: seq<Outcome>, removeWorks: bool, syncs: Syncs): (Medium, Ending) {
    PlayOn(BLANK, plan, Phase.CreateTemp, schedule, removeWorks, syncs)
  }

  /**
   Wherever the machine stops and however much has lasted: the destination is new exactly when the
   rename took effect and lasted, and then holds what the file sync made sure of.
   */
  lemma RestartExact(
      was: Disk, plan: Plan, schedule: seq<Outcome>, removeWorks: bool, syncs: Syncs, k: nat, junk: seq<Byte>)
    requires plan.temp !in was && plan.temp != plan.dest
    requires var m := Outcomes(plan, schedule, removeWorks, syncs).0; m.lasting <= k <= |m.ops|
    ensures var (m, end) := Outcomes(plan, schedule, removeWorks, syncs);
            var d := Restarted(was, plan, m, k, junk);
            && (forall p :: p != plan.dest && p != plan.temp ==> SameAt(d, was, p))
            && (if Renamed(end) && k == 2 then HasAll(d, plan.dest, if syncs.file then plan.data else junk)
                else SameAt(d, was, plan.dest))
            && (end.Finished? && syncs.dir ==> k == 2)
            && |m.ops| <= 2
  {
    hide Entries, PlayOn;
    var (m, end) := Outcomes(plan, schedule, removeWorks, syncs);
    PlayLeavesOn(plan, Phase.CreateTemp, schedule, removeWorks, syncs);
    EntriesMade(was, plan, if m.synced then m.bytes else junk);
    if k == 0 {
      assert m.ops[..k] == [];
    } else if k == 1 {
      assert m.ops[..k] == [MakeTemp];
    } else {
      assert m.ops[..k] == m.ops;
    }
  }

  /** The plan's two syncs. */
  const BOTH := Syncs(true, true)

  /**
   A machine that stops at any moment leaves the destination the whole old or the whole new file, and
   the new one once the plan is done; the process meanwhile sees what `Play` says.
   */
  lemma SurvivesMachineCrash(
      was: Disk, plan: Plan, schedule: seq<Outcome>, removeWorks: bool, k: nat, junk: seq<Byte>)
    requires plan.temp !in was && plan.temp != plan.dest
    requires var m := Outcomes(plan, schedule, removeWorks, BOTH).0; m.lasting <= k <= |m.ops|
    ensures var (m, end) := Outcomes(plan, schedule, removeWorks, BOTH);
            var d := Restarted(was, plan, m, k, junk);
            && (SameAt(d, was, plan.dest) || HasAll(d, plan.dest, plan.data))
            && (end.Finished? ==> HasAll(d, plan.dest, plan.data))
            && (!Renamed(end) ==> SameAt(d, was, plan.dest))
            && (forall p :: p != plan.dest && p != plan.temp ==> SameAt(d, was, p))
            && (Cached(was, plan, m), end) == Play(was, plan, Phase.CreateTemp, schedule, removeWorks)
  {
    hide Outcomes, Restarted, Play;
    RestartExact(was, plan, schedule, removeWorks, BOTH, k, junk);
    OutcomesCached(was, plan, schedule, removeWorks);
    FinishedRenamed(Outcomes(plan, schedule, removeWorks, BOTH).1);
  }

  lemma FinishedRenamed(end: Ending)
    ensures end.Finished? ==> Renamed(end)
  {
  }

  lemma OutcomesCached(was: Disk, plan: Plan, schedule: seq<Outcome>, removeWorks: bool)
    requires plan.temp !in was && plan.temp != plan.dest
    ensures var (m, end) := Outcomes(plan, schedule, removeWorks, BOTH);
            (Cached(was, plan, m), end) == Play(was, plan, Phase.CreateTemp, schedule, removeWorks)
  {
    hide PlayOn, Play;
    PlayCached(was, plan, Phase.CreateTemp, schedule, removeWorks, BOTH);
    assert Cached(was, plan, BLANK) == was;
  }

  // ---------- Both syncs are needed ----------

  /** A restart after `k` changes have lasted finds the old or the new file, whole. */
  ghost predicate WholeAfter(
      was: Disk, plan: Plan, schedule: seq<Outcome>, removeWorks: bool, syncs: Syncs, k: nat, junk: seq<Byte>)
  {
    var m := Outcomes(plan, schedule, removeWorks, syncs).0;
    m.lasting <= k <= |m.ops| ==>
      var d := Restarted(was, plan, m, k, junk); SameAt(d, was, plan.dest) || HasAll(d, plan.dest, plan.data)
  }

  ghost predicate AlwaysWhole(was: Disk, plan: Plan, syncs: Syncs) {
    forall schedule, removeWorks, k: nat, junk :: WholeAfter(was, plan, schedule, removeWorks, syncs, k, junk)
  }

  /** A restart after the plan was done finds the new file. */
  ghost predicate NewAfter(
      was: Disk, plan: Plan, schedule: seq<Outcome>, removeWorks: bool, syncs: Syncs, k: nat, junk: seq<Byte>)
  {
    var (m, end) := Outcomes(plan, schedule, removeWorks, syncs);
    end.Finished? && m.lasting <= k <= |m.ops| ==> HasAll(Restarted(was, plan, m, k, junk), plan.dest, plan.data)
  }

  ghost predicate LastsWhenDone(was: Disk, plan: Plan, syncs: Syncs) {
    forall schedule, removeWorks, k: nat, junk :: NewAfter(was, plan, schedule, removeWorks, syncs, k, junk)
  }

  /** All steps work. */
  lemma Smooth(plan: Plan, syncs: Syncs)
    ensures Outcomes(plan, [], true, syncs) == (MediumAt(plan, Phase.Done, syncs), Finished)
  {
    hide AfterStepOn, MediumAt;
    SmoothFrom(plan, Phase.CreateTemp, syncs);
    assert MediumAt(plan, Phase.CreateTemp, syncs) == BLANK by { StartsBlank(plan, syncs); }
  }

  lemma StartsBlank(plan: Plan, syncs: Syncs)
    ensures MediumAt(plan, Phase.CreateTemp, syncs) == BLANK
  {
  }

  lemma {:induction false} SmoothFrom(plan: Plan, phase: Phase, syncs: Syncs)
    requires !phase.Failed?
    ensures PlayOn(MediumAt(plan, phase, syncs), plan, phase, [], true, syncs) ==
              (MediumAt(plan, Phase.Done, syncs), Finished)
    decreases Left(phase)
  {
    hide AfterStepOn, MediumAt;
    if !phase.Done? {
      StepMedium(plan, phase, syncs);
      SmoothFrom(plan, NextPhase(phase), syncs);
    }
  }

  lemma DoneMedium(plan: Plan, syncs: Syncs)
    ensures var m := MediumAt(plan, Phase.Done, syncs);
            m.ops == [MakeTemp, RenameTemp] && m.lasting == if syncs.dir then 2 else 0
  {
  }

  /** Bytes that are neither the new file nor the old one. */
  lemma Junk(was: Disk, plan: Plan) returns (junk: seq<Byte>)
    ensures junk != plan.data && (plan.dest in was ==> junk != was[plan.dest])
  {
    var before := if plan.dest in was then was[plan.dest] else [];
    junk := plan.data + before + [0];
    assert |junk| > |plan.data| && |junk| > |before|;
  }

  /** The destination is whole after every crash exactly because the file is synced before the rename. */
  lemma FileSyncIff(was: Disk, plan: Plan, syncs: Syncs)
    requires plan.temp !in was && plan.temp != plan.dest
    ensures AlwaysWhole(was, plan, syncs) <==> syncs.file
  {
    hide Outcomes, Restarted, MediumAt;
    if syncs.file {
      forall schedule, removeWorks, k: nat, junk ensures WholeAfter(was, plan, schedule, removeWorks, syncs, k, junk) {
        var m := Outcomes(plan, schedule, removeWorks, syncs).0;
        if m.lasting <= k <= |m.ops| {
          RestartExact(was, plan, schedule, removeWorks, syncs, k, junk);
        }
      }
    } else {
      var junk := Junk(was, plan);
      Smooth(plan, syncs);
      DoneMedium(plan, syncs);
      RestartExact(was, plan, [], true, syncs, 2, junk);
      assert !WholeAfter(was, plan, [], true, syncs, 2, junk);
    }
  }

  /** A finished replace lasts exactly because both syncs are carried out. */
  lemma BothSyncsIff(was: Disk, plan: Plan, syncs: Syncs)
    requires plan.temp !in was && plan.temp != plan.dest && !HasAll(was, plan.dest, plan.data)
    ensures LastsWhenDone(was, plan, syncs) <==> syncs == BOTH
  {
    hide Outcomes, Restarted, MediumAt;
    if syncs == BOTH {
      forall schedule, removeWorks, k: nat, junk ensures NewAfter(was, plan, schedule, removeWorks, syncs, k, junk) {
        var m := Outcomes(plan, schedule, removeWorks, syncs).0;
        if m.lasting <= k <= |m.ops| {
          RestartExact(was, plan, schedule, removeWorks, syncs, k, junk);
        }
      }
    } else {
      var junk := Junk(was, plan);
      var k := if syncs.dir then 2 else 0;
      Smooth(plan, syncs);
      DoneMedium(plan, syncs);
      RestartExact(was, plan, [], true, syncs, k, junk);
      assert !NewAfter(was, plan, [], true, syncs, k, junk);
    }
  }
}
