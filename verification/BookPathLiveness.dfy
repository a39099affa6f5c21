/** When a sync is going on: exactly which events start one and which let one lapse. */
module BookPathLiveness {
  import opened Wrappers
  import opened OrderBook
  import opened BookPath
  import opened BookPathLaws
  import opened BookPathReplies
  import opened BookPathRuns

  /** Some mode is active, so the sync has not stalled. */
  predicate Live<B>(i: Inst<B>) {
    i.synced || i.inflight || i.backing
  }

  /** Feed events that ask for a snapshot whatever the instrument has seen, if it is not synced. */
  predicate Rouses(e: Event) {
    e.NonDelta? || (e.DeltaEvent? && !e.delta.reset)
  }

  /** With a usable tick: a non-delta, a delta, a reset that is news, or a buffer that aged out. */
  predicate Starts<B>(tick: Option<Size>, i: Inst<B>, e: Event) {
    Usable(tick) &&
    (|| Rouses(e)
     || (e.DeltaEvent? && e.delta.reset && !ResetIsStale(i, e.delta.at))
     || (e.TimerEvent? && e.token.kind.BufferAge? && AgeFires(e.now, i, e.token)))
  }

  /** Without one: a reply that is waited for and current, or a timer that fires. */
  predicate Lapses<B>(tick: Option<Size>, i: Inst<B>, e: Event) {
    !Usable(tick) &&
    (|| (e.SnapshotEvent? && i.generation == e.generation && i.inflight && Current(UidOf(e), i, e.reply))
     || (e.TimerEvent? && Fires(e.now, i, e.token)))
  }

  /** After one event a sync goes on exactly when the event starts one, or one went on and does not lapse. */
  lemma LiveStep<B>(env: Env<B>, c: Cell<B>, e: Event)
    requires Acts(e) && Shape(c.inst) && !env.closed && env.uid == UidOf(e) && env.now == e.now
    requires e.TimerEvent? && e.token.kind.Backoff? && BackoffFires(c.inst, e.token) ==> c.inst.backing
    ensures Live(CellStep(env, c, e).inst) <==>
              Starts(env.tick, c.inst, e) || (Live(c.inst) && !Lapses(env.tick, c.inst, e))
  {
  }

  /** Some event started a sync for `uid`, and none since has let it lapse. */
  ghost predicate Awake<B>(cfg: Config<B>, es: seq<Event>, uid: nat) {
    es != [] &&
    var init, e := es[..|es| - 1], es[|es| - 1];
    var s := Run(cfg, init);
    if Hits(s, e, uid) then
      Starts(TickOf(s, uid), Of(s, uid), e) || (Awake(cfg, init, uid) && !Lapses(TickOf(s, uid), Of(s, uid), e))
    else Awake(cfg, init, uid)
  }

  /** After any run an instrument is in one of the three modes exactly when it is awake. */
  lemma {:induction false} LiveIff<B>(cfg: Config<B>, es: seq<Event>, uid: nat)
    requires Honest(cfg, es)
    ensures Live(Of(Run(cfg, es), uid)) <==> Awake(cfg, es, uid)
  {
    hide Step, CellStep, Shape, Starts, Lapses;
    if es == [] {
      assert Of(Run(cfg, es), uid) == NewInst();
    } else {
      var init, e := es[..|es| - 1], es[|es| - 1];
      var s := Run(cfg, init);
      LiveIff(cfg, init, uid);
      RunGood(cfg, init, uid);
      StepOf(cfg, s, e, uid);
      if Hits(s, e, uid) {
        FiringIsBacking(cfg, init, e, uid);
        LiveStep(EnvOf(cfg, s, uid, e.now), Cell(Of(s, uid), s.nextTimer, []), e);
      }
    }
  }

  lemma FiringIsBacking<B>(cfg: Config<B>, es: seq<Event>, e: Event, uid: nat)
    requires Good(cfg, es, uid) && (e.TimerEvent? ==> e.token in Armed(Sent(cfg, es)) && e.token.uid == uid)
    ensures e.TimerEvent? && e.token.kind.Backoff? && BackoffFires(Of(Run(cfg, es), uid), e.token) ==>
              Of(Run(cfg, es), uid).backing
  {
  }

  /** Events from the `k`-th on that reach the instrument find its tick usable. */
  ghost predicate UsableFrom<B>(cfg: Config<B>, es: seq<Event>, k: nat, uid: nat) {
    forall j :: k <= j < |es| && Hits(Run(cfg, es[..j]), es[j], uid) ==> Usable(TickOf(Run(cfg, es[..j]), uid))
  }

  lemma {:induction false} StaysAwake<B>(cfg: Config<B>, es: seq<Event>, k: nat, n: nat, uid: nat)
    requires k <= n <= |es| && UsableFrom(cfg, es, k, uid) && Awake(cfg, es[..k], uid)
    ensures Awake(cfg, es[..n], uid)
  {
    hide Run, Hits, Starts;
    if k < n {
      StaysAwake(cfg, es, k, n - 1, uid);
      assert es[..n][..n - 1] == es[..n - 1];
    }
  }

  /**
   The recovery: whatever happened before, one delta or non-delta at a usable tick gets the sync
   going, and it goes on while later events find the tick usable.
   */
  lemma Recovers<B>(cfg: Config<B>, es: seq<Event>, k: nat, uid: nat)
    requires Honest(cfg, es) && k < |es|
    requires Hits(Run(cfg, es[..k]), es[k], uid) && Rouses(es[k])
    requires UsableFrom(cfg, es, k, uid)
    ensures Live(Of(Run(cfg, es), uid))
  {
    hide Run, Hits;
    assert es[..k + 1][..k] == es[..k];
    StaysAwake(cfg, es, k + 1, |es|, uid);
    assert es[..|es|] == es;
    LiveIff(cfg, es, uid);
  }

  lemma {:induction false} SeenIsAwake<B>(cfg: Config<B>, es: seq<Event>, n: nat, uid: nat)
    requires n <= |es| && UsableFrom(cfg, es, 0, uid) && uid in Run(cfg, es[..n]).insts
    ensures Awake(cfg, es[..n], uid)
  {
    hide Step, CellStep;
    if n > 0 {
      assert es[..n][..n - 1] == es[..n - 1];
      var s, e := Run(cfg, es[..n - 1]), es[n - 1];
      StepOf(cfg, s, e, uid);
      if uid in s.insts {
        SeenIsAwake(cfg, es, n - 1, uid);
      }
    }
  }

  /** When every event found the tick usable, an instrument that was ever heard of is in some mode. */
  lemma NeverStalls<B>(cfg: Config<B>, es: seq<Event>, uid: nat)
    requires Honest(cfg, es) && UsableFrom(cfg, es, 0, uid)
    requires uid in Run(cfg, es).insts
    ensures Live(Of(Run(cfg, es), uid))
  {
    hide Run;
    assert es[..|es|] == es;
    SeenIsAwake(cfg, es, |es|, uid);
    LiveIff(cfg, es, uid);
  }
}
