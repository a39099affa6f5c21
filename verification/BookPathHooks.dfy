/** The order of hooks over a run, and exactly which non-delta can turn it back. */
module BookPathHooks {
  import opened Wrappers
  import opened OrderBook
  import opened BookPath
  import opened BookPathLaws
  import opened BookPathFeed
  import opened BookPathRuns

  predicate IsHook(x: Effect, uid: nat) {
    x.Hook? && x.update.uid == uid
  }

  /** The hooks for `uid` in `out` carry strictly increasing cursors. */
  ghost predicate Increasing(out: seq<Effect>, uid: nat) {
    forall a, b :: 0 <= a < b < |out| && IsHook(out[a], uid) && IsHook(out[b], uid) ==>
      Newer(out[b].update.at, out[a].update.at)
  }

  /** Some hook for `uid` is newer than `at`. */
  ghost predicate HookedPast(out: seq<Effect>, uid: nat, at: Cursor) {
    exists x :: x in out && IsHook(x, uid) && Newer(x.update.at, at)
  }

  /** The event unsyncs a book with a cursor below a hook that was sent. */
  ghost predicate OldNonDelta<B>(cfg: Config<B>, es: seq<Event>, e: Event, uid: nat) {
    var s := Run(cfg, es);
    && e.NonDelta? && Hits(s, e, uid) && Usable(TickOf(s, uid)) && Of(s, uid).synced
    && HookedPast(Sent(cfg, es), uid, e.at)
  }

  ghost predicate NoOldNonDelta<B>(cfg: Config<B>, es: seq<Event>, uid: nat) {
    es == [] ||
    var init, e := es[..|es| - 1], es[|es| - 1];
    NoOldNonDelta(cfg, init, uid) && !OldNonDelta(cfg, init, e, uid)
  }

  // ---------- Hooks only go up ----------

  lemma ShownGrows<B>(shown: Option<Cursor>, tick: Option<Size>, e: Event, j: Inst<B>)
    ensures UpTo(shown, ShownAfter(shown, tick, e, j))
  {
  }

  /** What an instrument knows of never falls below `at`, but for a non-delta below it on a synced book. */
  lemma KnownStep<B>(env: Env<B>, c: Cell<B>, e: Event, at: Cursor)
    requires Acts(e) && Shape(c.inst) && UpTo(Some(at), KnownAt(c.inst))
    requires !(e.NonDelta? && Usable(env.tick) && c.inst.synced && Newer(at, e.at))
    ensures UpTo(Some(at), KnownAt(CellStep(env, c, e).inst))
  {
    hide Lose, OnPending, OnReset, OnSnapshot, OnTimer, Shape, ShownAfter, Top;
    var shown := KnownAt(c.inst);
    CoversStep(env, c, e, shown);
    if StaleNonDelta(env.tick, c.inst, e) {
      TopLose(env, c, e.at, None);
    } else {
      ShownGrows(shown, env.tick, e, CellStep(env, c, e).inst);
    }
  }

  lemma IncreasingAppend(out: seq<Effect>, more: seq<Effect>, uid: nat)
    requires Increasing(out, uid)
    requires forall x :: x in more && IsHook(x, uid) ==> more == [x]
    requires forall x, y :: x in more && y in out && IsHook(x, uid) && IsHook(y, uid) ==>
      Newer(x.update.at, y.update.at)
    ensures Increasing(out + more, uid)
  {
    var all := out + more;
    forall a, b | 0 <= a < b < |all| && IsHook(all[a], uid) && IsHook(all[b], uid)
      ensures Newer(all[b].update.at, all[a].update.at)
    {
      if b < |out| {
        assert all[a] == out[a] && all[b] == out[b];
      } else {
        assert all[b] == more[b - |out|] && all[b] in more;
        assert all[a] == out[a] && all[a] in out;
      }
    }
  }

  /** One event hooks only past what was known, and that is known afterwards. */
  lemma HookPastKnown<B>(cfg: Config<B>, s: State<B>, e: Event, uid: nat, x: Effect)
    requires Acts(e) && Reaches(s, e) && Shape(Of(s, UidOf(e)))
    requires x in CellOf(cfg, s, e).out && IsHook(x, uid)
    ensures Hits(s, e, uid) && CellOf(cfg, s, e).out == [x]
    ensures Of(s, uid).synced && x.update.at == Next(Of(s, uid).at)
    ensures KnownAt(CellOf(cfg, s, e).inst) == Some(x.update.at)
  {
    hide CellStep;
    HookStep(EnvOf(cfg, s, UidOf(e), e.now), Cell(Of(s, UidOf(e)), s.nextTimer, []), e);
  }

  /** Hooks of one instrument carry strictly increasing cursors over the whole run. */
  lemma {:induction false} HooksIncrease<B>(cfg: Config<B>, es: seq<Event>, uid: nat)
    requires Honest(cfg, es) && NoOldNonDelta(cfg, es, uid)
    ensures Increasing(Sent(cfg, es), uid)
    ensures forall x :: x in Sent(cfg, es) && IsHook(x, uid) ==> UpTo(Some(x.update.at), KnownAt(Of(Run(cfg, es), uid)))
  {
    hide Step, CellStep, Shape, Increasing, KnownAt;
    if es == [] {
      NothingIncreases(uid);
    } else {
      var init, e := es[..|es| - 1], es[|es| - 1];
      var s := Run(cfg, init);
      var out, more := Sent(cfg, init), Step(cfg, s, e).1;
      HooksIncrease(cfg, init, uid);
      StepOf(cfg, s, e, uid);
      StepSends(cfg, s, e);
      forall x | x in more && IsHook(x, uid)
        ensures more == [x] && UpTo(Some(x.update.at), KnownAt(Of(Run(cfg, es), uid)))
        ensures forall y :: y in out && IsHook(y, uid) ==> Newer(x.update.at, y.update.at)
      {
        RunGood(cfg, init, UidOf(e));
        HookPastKnown(cfg, s, e, uid, x);
        KnownSynced(Of(s, uid));
      }
      IncreasingAppend(out, more, uid);
      forall y | y in out && IsHook(y, uid) ensures UpTo(Some(y.update.at), KnownAt(Of(Run(cfg, es), uid))) {
        if Hits(s, e, uid) {
          RunGood(cfg, init, uid);
          KnownStep(EnvOf(cfg, s, uid, e.now), Cell(Of(s, uid), s.nextTimer, []), e, y.update.at);
        }
      }
    }
  }

  lemma KnownSynced<B>(i: Inst<B>)
    ensures i.synced ==> KnownAt(i) == Some(i.at)
  {
  }

  lemma NothingIncreases(uid: nat)
    ensures Increasing([], uid)
  {
  }

  /** A run that keeps up with its feed has no non-delta below a hook. */
  lemma {:induction false} KeepingUpIsEnough<B>(cfg: Config<B>, es: seq<Event>, uid: nat)
    requires Honest(cfg, es) && KeepsUp(cfg, es, uid)
    ensures NoOldNonDelta(cfg, es, uid)
  {
    hide Step, CellStep, Shape, Increasing, Covers;
    if es != [] {
      var init, e := es[..|es| - 1], es[|es| - 1];
      KeepingUpIsEnough(cfg, init, uid);
      HooksIncrease(cfg, init, uid);
      KeepsUpIff(cfg, es, uid);
    }
  }

  // ---------- A non-delta below a hook ----------

  function DeltaAt(uid: nat, at: Cursor): Event {
    DeltaEvent(0, Delta(uid, at, 0, 0, false, Levels([], [])))
  }

  function SnapshotAt(uid: nat, generation: nat, at: Cursor): Event {
    SnapshotEvent(0, uid, generation, Body(Snapshot(uid, at, Levels([], []))))
  }

  /** Instrument `uid` is synced at `at` and nothing is pending. */
  ghost predicate SyncedAt<B>(s: State<B>, uid: nat, at: Cursor, generation: nat) {
    && !s.closed && uid in s.insts && Usable(TickOf(s, uid))
    && var i := s.insts[uid];
      && i.synced && i.ob.Some? && i.at == at && i.buf == [] && i.floor.None?
      && i.generation == generation && !i.inflight && !i.backing
  }

  /** Instrument `uid` waits for the reply to request `generation` and knows of nothing past `at`. */
  ghost predicate WaitsFor<B>(s: State<B>, uid: nat, at: Cursor, generation: nat) {
    && !s.closed && uid in s.insts && Usable(TickOf(s, uid))
    && var i := s.insts[uid];
      && !i.synced && i.inflight && !i.backing && i.generation == generation
      && (i.floor.Some? ==> i.floor.value == at)
      && (i.buf == [] || (|i.buf| == 1 && i.buf[0].at == at))
  }

  lemma SnapshotSyncs<B>(cfg: Config<B>, s: State<B>, uid: nat, known: Cursor, at: Cursor, generation: nat)
    requires WaitsFor(s, uid, known, generation) && AtLeast(at, known)
    ensures SyncedAt(Step(cfg, s, SnapshotAt(uid, generation, at)).0, uid, at, generation)
  {
    var i := s.insts[uid];
    var ob := cfg.engine.apply(cfg.engine.blank(s.ticks[uid].amount), Levels([], []));
    assert Fold(cfg.engine, i.buf, ob, at) == Whole(ob, at) by {
      if i.buf != [] {
        assert i.buf[1..] == [];
      }
    }
  }

  lemma DeltaHooks<B>(cfg: Config<B>, s: State<B>, uid: nat, at: Cursor, generation: nat)
    requires SyncedAt(s, uid, at, generation) && uid != 0
    ensures SyncedAt(Step(cfg, s, DeltaAt(uid, Next(at))).0, uid, Next(at), generation)
    ensures Step(cfg, s, DeltaAt(uid, Next(at))).1 == [Hook(Update(uid, Next(at), 0, 0))]
  {
  }

  /** A non-delta on a synced book makes its own cursor the only one that a new book must reach. */
  lemma NonDeltaAsks<B>(cfg: Config<B>, s: State<B>, uid: nat, e: Event)
    requires e.NonDelta? && Hits(s, e, uid) && Usable(TickOf(s, uid)) && Shape(Of(s, uid)) && Of(s, uid).synced
    ensures WaitsFor(Step(cfg, s, e).0, uid, e.at, Of(s, uid).generation + 1)
  {
  }

  lemma NextReaches(at: Cursor, top: Cursor)
    requires Newer(top, at)
    ensures !Newer(Next(at), top)
  {
  }

  /** The run goes on without another non-delta. */
  ghost predicate Calm(more: seq<Event>) {
    forall k :: 0 <= k < |more| ==> !more[k].NonDelta?
  }

  /** A non-delta below a hook lets a snapshot at its own cursor in, and the next delta is hooked again. */
  lemma OldNonDeltaRewinds<B>(cfg: Config<B>, es: seq<Event>, e: Event, uid: nat) returns (more: seq<Event>)
    requires Honest(cfg, es) && OldNonDelta(cfg, es, e, uid)
    ensures Calm(more) && Honest(cfg, es + [e] + more)
    ensures !Increasing(Sent(cfg, es + [e] + more), uid)
  {
    hide Step, Run, Sent, Shape, SyncedAt, WaitsFor, Honest;
    var s := Run(cfg, es);
    var g := Of(s, uid).generation + 1;
    RunGood(cfg, es, uid);
    NonDeltaAsks(cfg, s, uid, e);
    var snap, delta := SnapshotAt(uid, g, e.at), DeltaAt(uid, Next(e.at));
    more := [snap, delta];
    var es1, es2 := es + [e], es + [e] + [snap];
    assert es1 + more == es2 + [delta];
    RunNext(cfg, es, e);
    RunNext(cfg, es1, snap);
    RunNext(cfg, es2, delta);
    SnapshotSyncs(cfg, Run(cfg, es1), uid, e.at, e.at, g);
    DeltaHooks(cfg, Run(cfg, es2), uid, e.at, g);
    var x :| x in Sent(cfg, es) && IsHook(x, uid) && Newer(x.update.at, e.at);
    NextReaches(e.at, x.update.at);
    WentBack(Sent(cfg, es2), x, Hook(Update(uid, Next(e.at), 0, 0)), uid);
  }

  lemma WentBack(out: seq<Effect>, x: Effect, y: Effect, uid: nat)
    requires x in out && IsHook(x, uid) && IsHook(y, uid) && !Newer(y.update.at, x.update.at)
    ensures !Increasing(out + [y], uid)
  {
    var a :| 0 <= a < |out| && out[a] == x;
    assert (out + [y])[a] == x && (out + [y])[|out|] == y;
  }

  lemma {:induction false} CalmAddsNone<B>(cfg: Config<B>, es: seq<Event>, more: seq<Event>, uid: nat)
    requires NoOldNonDelta(cfg, es, uid) && Calm(more)
    ensures NoOldNonDelta(cfg, es + more, uid)
    decreases |more|
  {
    hide OldNonDelta;
    if more == [] {
      assert es + more == es;
    } else {
      var init, e := more[..|more| - 1], more[|more| - 1];
      CalmAddsNone(cfg, es, init, uid);
      assert (es + more)[..|es + more| - 1] == es + init;
      assert !OldNonDelta(cfg, es + init, e, uid) by { OnlyNonDeltas(cfg, es + init, e, uid); }
    }
  }

  lemma OnlyNonDeltas<B>(cfg: Config<B>, es: seq<Event>, e: Event, uid: nat)
    ensures OldNonDelta(cfg, es, e, uid) ==> e.NonDelta?
  {
  }

  /**
   After a run without such an event, a non-delta can turn the hooks back exactly when it unsyncs
   the book with a cursor below a hook that was sent.
   */
  lemma NonDeltaRewindsIff<B>(cfg: Config<B>, es: seq<Event>, e: Event, uid: nat)
    requires Honest(cfg, es) && NoOldNonDelta(cfg, es, uid) && e.NonDelta?
    ensures (exists more :: Calm(more) && Honest(cfg, es + [e] + more) && !Increasing(Sent(cfg, es + [e] + more), uid))
            <==> OldNonDelta(cfg, es, e, uid)
  {
    hide Run, Sent, Honest, Increasing, OldNonDelta;
    if OldNonDelta(cfg, es, e, uid) {
      var more := OldNonDeltaRewinds(cfg, es, e, uid);
    } else {
      assert (es + [e])[..|es|] == es;
      forall more | Calm(more) && Honest(cfg, es + [e] + more) ensures Increasing(Sent(cfg, es + [e] + more), uid) {
        CalmAddsNone(cfg, es + [e], more, uid);
        HooksIncrease(cfg, es + [e] + more, uid);
      }
    }
  }

  // ---------- One such run ----------

  const TICK := Resolve(1, Finite(1.0))
  const OLD := NonDelta(0, 1, Cursor(1, 5))

  /** Synced at 10, hooked at 11; then a non-delta at 5 lets a snapshot at 7 in. */
  const REWIND: seq<Event> :=
    [TICK, DeltaAt(1, Cursor(1, 10)), SnapshotAt(1, 0, Cursor(1, 10)), DeltaAt(1, Cursor(1, 11)), OLD,
     SnapshotAt(1, 1, Cursor(1, 7)), DeltaAt(1, Cursor(1, 8))]

  lemma FirstDeltaAsks<B>(cfg: Config<B>)
    ensures WaitsFor(Run(cfg, REWIND[..2]), 1, Cursor(1, 10), 0) && Honest(cfg, REWIND[..2])
  {
    var delta := DeltaAt(1, Cursor(1, 10));
    assert REWIND[..2] == [TICK] + [delta] && [TICK] == [] + [TICK];
    RunNext(cfg, [], TICK);
    RunNext(cfg, [TICK], delta);
  }

  lemma SyncedIs<B>(s: State<B>, uid: nat, at: Cursor, generation: nat)
    requires SyncedAt(s, uid, at, generation)
    ensures Of(s, uid).synced && Of(s, uid).at == at && Of(s, uid).generation == generation
    ensures !s.closed && Usable(TickOf(s, uid))
  {
  }

  /** The first four events sync at 10 and hook 11. */
  lemma HookedAtEleven<B>(cfg: Config<B>)
    ensures var r4 := REWIND[..4];
            && Honest(cfg, r4) && SyncedAt(Run(cfg, r4), 1, Cursor(1, 11), 0)
            && Sent(cfg, r4) != [] && Sent(cfg, r4)[|Sent(cfg, r4)| - 1] == Hook(Update(1, Cursor(1, 11), 0, 0))
  {
    hide Step, Run, Sent, SyncedAt, WaitsFor;
    var r2, r3, r4 := REWIND[..2], REWIND[..3], REWIND[..4];
    assert r3 == r2 + [REWIND[2]] && r4 == r3 + [REWIND[3]];
    FirstDeltaAsks(cfg);
    RunNext(cfg, r2, REWIND[2]);
    SnapshotSyncs(cfg, Run(cfg, r2), 1, Cursor(1, 10), Cursor(1, 10), 0);
    RunNext(cfg, r3, REWIND[3]);
    DeltaHooks(cfg, Run(cfg, r3), 1, Cursor(1, 10), 0);
  }

  /** A host that never lies can see the hooks go from 11 to 8. */
  lemma StaleNonDeltaRewinds<B>(cfg: Config<B>)
    ensures Honest(cfg, REWIND) && OldNonDelta(cfg, REWIND[..4], OLD, 1)
    ensures !NoStaleNonDelta(cfg, REWIND[..5], 1)
    ensures exists a, b :: 0 <= a < b < |Sent(cfg, REWIND)|
              && Sent(cfg, REWIND)[a] == Hook(Update(1, Cursor(1, 11), 0, 0))
              && Sent(cfg, REWIND)[b] == Hook(Update(1, Cursor(1, 8), 0, 0))
  {
    hide Step, Run, Sent, SyncedAt, WaitsFor, Shape;
    var r4, r5, r6 := REWIND[..4], REWIND[..5], REWIND[..6];
    assert r5 == r4 + [OLD] && r6 == r5 + [REWIND[5]] && REWIND == r6 + [REWIND[6]] && r5[..4] == r4;
    HookedAtEleven(cfg);
    SyncedIs(Run(cfg, r4), 1, Cursor(1, 11), 0);
    RunGood(cfg, r4, 1);
    RunNext(cfg, r4, OLD);
    NonDeltaAsks(cfg, Run(cfg, r4), 1, OLD);
    RunNext(cfg, r5, REWIND[5]);
    SnapshotSyncs(cfg, Run(cfg, r5), 1, Cursor(1, 5), Cursor(1, 7), 1);
    RunNext(cfg, r6, REWIND[6]);
    DeltaHooks(cfg, Run(cfg, r6), 1, Cursor(1, 7), 1);
    var hook, out := Hook(Update(1, Cursor(1, 11), 0, 0)), Sent(cfg, REWIND);
    assert hook in Sent(cfg, r4) && out[|Sent(cfg, r4)| - 1] == hook;
    assert out[|out| - 1] == Hook(Update(1, Cursor(1, 8), 0, 0));
  }
}
