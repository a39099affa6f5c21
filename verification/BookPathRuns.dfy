/** Theorems about every run of the book path. */
module BookPathRuns {
  import opened Wrappers
  import opened OrderBook
  import opened BookPath
  import opened BookPathLaws
  import opened BookPathFeed

  // ---------- What one call adds ----------

  /** `d` continues `c`: it only sends more, and every timer id it mints or records is new. */
  ghost predicate Continues<B>(uid: nat, c: Cell<B>, d: Cell<B>) {
    && c.out <= d.out && d.nextTimer >= c.nextTimer
    && (forall k :: |c.out| <= k < |d.out| && d.out[k].ArmTimer? ==>
                      d.out[k].token.uid == uid && c.nextTimer < d.out[k].token.id <= d.nextTimer)
    && (d.inst.ageId == c.inst.ageId || d.inst.ageId == 0 || d.inst.ageId > c.nextTimer)
    && (d.inst.backoffId == c.inst.backoffId || d.inst.backoffId == 0 || d.inst.backoffId > c.nextTimer)
  }

  lemma ContinuesBuffer<B>(env: Env<B>, c: Cell<B>, item: Pending)
    ensures Continues(env.uid, c, BufferThenFetch(env, c, item))
  {
  }

  lemma ContinuesLose<B>(env: Env<B>, c: Cell<B>, at: Cursor, item: Option<Pending>)
    ensures Continues(env.uid, c, Lose(env, c, at, item))
  {
    if item.Some? {
      ContinuesBuffer(env, c.(inst := Invalidate(RaiseFloor(c.inst.(synced := false, ob := None), at))), item.value);
    }
  }

  lemma ContinuesPending<B>(env: Env<B>, c: Cell<B>, item: Pending)
    ensures Continues(env.uid, c, OnPending(env, c, item))
  {
    hide Lose, BufferThenFetch;
    ContinuesLose(env, c, item.at, Some(item));
    ContinuesBuffer(env, c, item);
  }

  lemma ContinuesSnapshot<B>(env: Env<B>, c: Cell<B>, generation: nat, reply: Reply)
    ensures Continues(env.uid, c, OnSnapshot(env, c, generation, reply))
  {
  }

  lemma ContinuesStep<B>(env: Env<B>, c: Cell<B>, e: Event)
    requires Acts(e)
    ensures Continues(env.uid, c, CellStep(env, c, e))
  {
    hide Lose, OnPending, OnSnapshot;
    match e
    case DeltaEvent(_, d) => ContinuesPending(env, c, PendingOf(d));
    case NonDelta(_, _, at) => ContinuesLose(env, c, at, None);
    case SnapshotEvent(_, _, generation, reply) => ContinuesSnapshot(env, c, generation, reply);
    case TimerEvent(_, token) =>
  }

  // ---------- Histories ----------

  /** The host gives timers back only as they were armed. */
  ghost predicate Honest<B>(cfg: Config<B>, es: seq<Event>) {
    es == [] ||
    var init, e := es[..|es| - 1], es[|es| - 1];
    Honest(cfg, init) && (e.TimerEvent? ==> e.token in Armed(Sent(cfg, init)))
  }

  /** The event reaches this very instrument. */
  predicate Hits<B>(s: State<B>, e: Event, uid: nat) {
    Reaches(s, e) && UidOf(e) == uid
  }

  function AddDelta(src: Source, d: Delta): Source {
    src.(deltas := src.deltas + {Pending(d.at, d.mdTs, d.exchTs, d.levels)})
  }

  /**
   What the events `es` told the path about `uid`.  A snapshot that names another instrument is
   not about it, and the levels of a reset are never applied.
   */
  function Fed(es: seq<Event>, uid: nat): Source {
    if es == [] then Source({}, {}, {})
    else
      var src := Fed(es[..|es| - 1], uid);
      match es[|es| - 1]
      case Resolve(u, tick) => if u == uid then src.(ticks := src.ticks + {tick}) else src
      case DeltaEvent(_, d) => if d.uid == uid && !d.reset then AddDelta(src, d) else src
      case SnapshotEvent(_, u, _, Body(snap)) =>
        if u == uid && Names(snap, uid) then src.(snaps := src.snaps + {snap}) else src
      case _ => src
  }

  lemma StepOf<B>(cfg: Config<B>, s: State<B>, e: Event, uid: nat)
    ensures var (t, out) := Step(cfg, s, e);
            if Hits(s, e, uid) then
              var c := CellOf(cfg, s, e);
              Of(t, uid) == c.inst && t.nextTimer == c.nextTimer && out == c.out && uid in t.insts && !s.closed
            else
              Of(t, uid) == Of(s, uid) && (uid in t.insts <==> uid in s.insts)
  {
    hide CellStep;
  }

  lemma RunNext<B>(cfg: Config<B>, es: seq<Event>, e: Event)
    ensures Run(cfg, es + [e]) == Step(cfg, Run(cfg, es), e).0
    ensures Sent(cfg, es + [e]) == Sent(cfg, es) + Step(cfg, Run(cfg, es), e).1
    ensures Honest(cfg, es) && !e.TimerEvent? ==> Honest(cfg, es + [e])
  {
    assert (es + [e])[..|es|] == es;
  }

  // ---------- The invariant of every run ----------

  ghost predicate Good<B>(cfg: Config<B>, es: seq<Event>, uid: nat) {
    var s := Run(cfg, es);
    && Shape(Of(s, uid))
    && TokensOk(uid, Of(s, uid), Armed(Sent(cfg, es)), s.nextTimer)
  }

  lemma GoodHit<B>(cfg: Config<B>, s: State<B>, e: Event, ts: set<Token>)
    requires Acts(e) && Reaches(s, e)
    requires Shape(Of(s, UidOf(e))) && TokensOk(UidOf(e), Of(s, UidOf(e)), ts, s.nextTimer)
    requires e.TimerEvent? ==> e.token in ts
    ensures var c := CellOf(cfg, s, e);
            Shape(c.inst) && TokensOk(UidOf(e), c.inst, ts + Armed(c.out), c.nextTimer)
  {
    hide CellStep;
    var uid := UidOf(e);
    var c := Cell(Of(s, uid), s.nextTimer, []);
    var env := EnvOf(cfg, s, uid, e.now);
    assert Known(ts, c) == ts;
    ShapeStep(env, c, e);
    TokensStep(env, ts, c, e);
  }

  lemma GoodMiss<B>(cfg: Config<B>, s: State<B>, e: Event, ts: set<Token>, uid: nat)
    requires !Hits(s, e, uid) && TokensOk(uid, Of(s, uid), ts, s.nextTimer)
    ensures var (t, out) := Step(cfg, s, e); TokensOk(uid, Of(t, uid), ts + Armed(out), t.nextTimer)
  {
    hide CellStep;
    StepOf(cfg, s, e, uid);
    if Reaches(s, e) {
      var c := Cell(Of(s, UidOf(e)), s.nextTimer, []);
      ContinuesStep(EnvOf(cfg, s, UidOf(e), e.now), c, e);
      var d := CellOf(cfg, s, e);
      forall t | t in Armed(d.out) ensures t.uid != uid && s.nextTimer < t.id <= d.nextTimer {
        var k :| 0 <= k < |d.out| && d.out[k].ArmTimer? && d.out[k].token == t;
      }
    }
  }

  lemma {:induction false} RunGood<B>(cfg: Config<B>, es: seq<Event>, uid: nat)
    requires Honest(cfg, es)
    ensures Good(cfg, es, uid)
  {
    hide Step, CellStep;
    if es != [] {
      var init, e := es[..|es| - 1], es[|es| - 1];
      RunGood(cfg, init, uid);
      var s, ts := Run(cfg, init), Armed(Sent(cfg, init));
      ArmedAppend(Sent(cfg, init), Step(cfg, s, e).1);
      StepOf(cfg, s, e, uid);
      if Hits(s, e, uid) {
        GoodHit(cfg, s, e, ts);
      } else {
        GoodMiss(cfg, s, e, ts, uid);
      }
    }
  }

  /**
   At no moment is an instrument in two of synced, waiting for a snapshot and backing off; the
   buffer stays below its cap, and only an unsynced instrument has a buffer or a floor.
   */
  lemma {:induction false} OneMode<B>(cfg: Config<B>, es: seq<Event>, uid: nat)
    requires Honest(cfg, es)
    ensures var i := Of(Run(cfg, es), uid);
            && !(i.synced && i.inflight) && !(i.synced && i.backing) && !(i.inflight && i.backing)
            && |i.buf| < BUFFER_MAX && (i.have <==> i.buf != [])
            && (i.synced ==> i.buf == [] && i.floor.None? && i.ob.Some?)
  {
    RunGood(cfg, es, uid);
  }

  // ---------- Timers ----------

  /** The arm a kind of timer has live, as the fields name it. */
  function LiveToken<B>(uid: nat, kind: TimerKind, i: Inst<B>): Token {
    if kind.BufferAge? then Token(uid, kind, i.bufGen, i.ageId) else Token(uid, kind, i.generation, i.backoffId)
  }

  /**
   A waiting buffer and a backoff always have their latest arm live, and a token that was armed
   does something only if it is that arm.
   */
  lemma {:induction false} TimersLive<B>(cfg: Config<B>, es: seq<Event>, uid: nat, t: Token, now: int)
    requires Honest(cfg, es)
    ensures var i, ts := Of(Run(cfg, es), uid), Armed(Sent(cfg, es));
            && (i.buf != [] ==> Latest(ts, LiveToken(uid, BufferAge, i)))
            && (i.backing ==> Latest(ts, LiveToken(uid, Backoff, i)))
            && (t in ts && t.uid == uid ==>
                  (Fires(now, i, t) <==>
                    && t == LiveToken(uid, t.kind, i)
                    && if t.kind.Backoff? then i.backing else i.buf != [] && AgeReached(now, i.bufAt, BUFFER_AGE)))
  {
    RunGood(cfg, es, uid);
  }

  /** The `k`-th event is a timer whose token is accepted. */
  ghost predicate FiresAt<B>(cfg: Config<B>, es: seq<Event>, k: nat)
    requires k < |es|
  {
    var s := Run(cfg, es[..k]);
    es[k].TimerEvent? && Reaches(s, es[k]) && Fires(es[k].now, Of(s, es[k].token.uid), es[k].token)
  }

  /** `t` can no longer be the live arm of its instrument, now or later. */
  ghost predicate Spent<B>(s: State<B>, t: Token) {
    var i := Of(s, t.uid);
    1 <= t.id <= s.nextTimer && t.id != (if t.kind.BufferAge? then i.ageId else i.backoffId)
  }

  lemma SpentStays<B>(cfg: Config<B>, s: State<B>, e: Event, t: Token)
    requires Spent(s, t)
    ensures Spent(Step(cfg, s, e).0, t)
  {
    hide CellStep;
    StepOf(cfg, s, e, t.uid);
    if Reaches(s, e) {
      ContinuesStep(EnvOf(cfg, s, UidOf(e), e.now), Cell(Of(s, UidOf(e)), s.nextTimer, []), e);
    }
  }

  lemma FiringSpends<B>(cfg: Config<B>, s: State<B>, e: Event)
    requires e.TimerEvent? && Reaches(s, e) && 1 <= e.token.id <= s.nextTimer
    requires Fires(e.now, Of(s, e.token.uid), e.token)
    ensures Spent(Step(cfg, s, e).0, e.token)
  {
  }

  lemma {:induction false} SpentLater<B>(cfg: Config<B>, es: seq<Event>, a: nat, b: nat, t: Token)
    requires a <= b <= |es| && Spent(Run(cfg, es[..a]), t)
    ensures Spent(Run(cfg, es[..b]), t)
  {
    hide Step;
    if a < b {
      SpentLater(cfg, es, a, b - 1, t);
      assert es[..b][..b - 1] == es[..b - 1];
      SpentStays(cfg, Run(cfg, es[..b - 1]), es[b - 1], t);
    }
  }

  lemma {:induction false} HonestPrefix<B>(cfg: Config<B>, es: seq<Event>, k: nat)
    requires Honest(cfg, es) && k <= |es|
    ensures Honest(cfg, es[..k])
  {
    if k == |es| {
      assert es[..k] == es;
    } else {
      HonestPrefix(cfg, es[..|es| - 1], k);
      assert es[..|es| - 1][..k] == es[..k];
    }
  }

  /** No token acts twice, even when the host delivers it twice. */
  lemma NoTokenTwice<B>(cfg: Config<B>, es: seq<Event>, a: nat, b: nat)
    requires Honest(cfg, es) && a < b < |es|
    requires es[a].TimerEvent? && es[b].TimerEvent? && es[a].token == es[b].token
    ensures !(FiresAt(cfg, es, a) && FiresAt(cfg, es, b))
  {
    hide Step;
    if FiresAt(cfg, es, a) {
      var t := es[a].token;
      HonestPrefix(cfg, es, a + 1);
      assert es[..a + 1][..a] == es[..a];
      RunGood(cfg, es[..a], t.uid);
      FiringSpends(cfg, Run(cfg, es[..a]), es[a]);
      SpentLater(cfg, es, a + 1, b, t);
    }
  }

  // ---------- Backoff ----------

  /** Snapshot reads that failed since the last install. */
  ghost function Failures<B>(cfg: Config<B>, es: seq<Event>, uid: nat): nat {
    if es == [] then 0
    else
      var init, e := es[..|es| - 1], es[|es| - 1];
      var s, k := Run(cfg, init), Failures(cfg, init, uid);
      if !Hits(s, e, uid) then k
      else FailuresAfter(k, Of(s, uid), Of(Run(cfg, es), uid), Step(cfg, s, e).1)
  }

  lemma {:induction false} WaitIsFailures<B>(cfg: Config<B>, es: seq<Event>, uid: nat)
    requires Honest(cfg, es)
    ensures Of(Run(cfg, es), uid).wait == WaitAfter(Failures(cfg, es, uid))
  {
    hide Step, CellStep, Shape, WaitAfter, FailuresAfter;
    if es == [] {
      assert WaitAfter(0) == 0 by { NoWait(); }
    } else {
      var init, e := es[..|es| - 1], es[|es| - 1];
      var s := Run(cfg, init);
      WaitIsFailures(cfg, init, uid);
      RunGood(cfg, init, uid);
      StepOf(cfg, s, e, uid);
      if Hits(s, e, uid) {
        WaitStep(EnvOf(cfg, s, uid, e.now), Cell(Of(s, uid), s.nextTimer, []), e, Failures(cfg, init, uid));
      }
    }
  }

  lemma NoWait()
    ensures WaitAfter(0) == 0
  {
  }

  /** The k-th failure since the last install arms min(2^(k-1), 30) seconds. */
  lemma BackoffSchedule<B>(cfg: Config<B>, es: seq<Event>, e: Event, x: Effect)
    requires Honest(cfg, es + [e])
    requires x in Step(cfg, Run(cfg, es), e).1 && IsBackoffArm(x)
    ensures var k := Failures(cfg, es, x.token.uid) + 1;
            && Failures(cfg, es + [e], x.token.uid) == k
            && x.after == if TwoTo(k - 1) <= 30 then TwoTo(k - 1) * 1_000_000_000 else 30_000_000_000
  {
    hide CellStep, Shape;
    assert (es + [e])[..|es|] == es;
    var s := Run(cfg, es);
    var uid := UidOf(e);
    var c := Cell(Of(s, uid), s.nextTimer, []);
    RunGood(cfg, es, uid);
    WaitIsFailures(cfg, es, uid);
    ContinuesStep(EnvOf(cfg, s, uid, e.now), c, e);
    WaitStep(EnvOf(cfg, s, uid, e.now), c, e, Failures(cfg, es, uid));
    StepOf(cfg, s, e, uid);
  }

  // ---------- What a strategy sees ----------

  lemma {:induction false} TicksAreFed<B>(cfg: Config<B>, es: seq<Event>, uid: nat)
    ensures TickOf(Run(cfg, es), uid).Some? ==> TickOf(Run(cfg, es), uid).value in Fed(es, uid).ticks
  {
    hide CellStep;
    if es != [] {
      TicksAreFed(cfg, es[..|es| - 1], uid);
    }
  }

  lemma FedGrows(es: seq<Event>, uid: nat)
    requires es != []
    ensures NoMoreThan(Fed(es[..|es| - 1], uid), Fed(es, uid))
  {
  }

  lemma {:induction false} RunTold<B>(cfg: Config<B>, es: seq<Event>, uid: nat)
    ensures Told(cfg.engine, Of(Run(cfg, es), uid), Fed(es, uid))
  {
    hide Step, CellStep, Told;
    if es == [] {
      NewTold(cfg.engine);
    } else {
      var init, e := es[..|es| - 1], es[|es| - 1];
      var s := Run(cfg, init);
      RunTold(cfg, init, uid);
      FedGrows(es, uid);
      ToldMore(cfg.engine, Of(s, uid), Fed(init, uid), Fed(es, uid));
      StepOf(cfg, s, e, uid);
      if Hits(s, e, uid) {
        TicksAreFed(cfg, init, uid);
        ToldStep(EnvOf(cfg, s, uid, e.now), Cell(Of(s, uid), s.nextTimer, []), e, Fed(es, uid));
      }
    }
  }

  lemma NewTold<B>(engine: Engine<B>)
    ensures Told(engine, NewInst(), Source({}, {}, {}))
  {
  }

  /**
   A visible book is a fresh ring, one snapshot, then one delta per cursor after it: whether a
   delta waited in the buffer or was applied live, none is missing, repeated or out of order.
   */
  lemma VisibleBookHasStory<B>(cfg: Config<B>, es: seq<Event>, uid: nat)
    requires View(Run(cfg, es), uid).Some?
    ensures var s := Run(cfg, es);
            exists story :: Tells(cfg.engine, View(s, uid).value, Of(s, uid).at, story, Fed(es, uid))
  {
    hide Step, Run, Tells;
    RunTold(cfg, es, uid);
  }

  /**
   Snapshots and deltas come from one server history, as far as `like` can tell: every install is
   like the server at its cursor, and every delta takes what is like the server to what is like it.
   */
  ghost predicate FromServer<B(!new), M>(engine: Engine<B>, like: (B, M) -> bool, server: Cursor -> M, src: Source) {
    && (forall tick, snap :: tick in src.ticks && snap in src.snaps && Usable(Some(tick)) ==>
          like(engine.apply(engine.blank(tick.amount), snap.levels), server(snap.at)))
    && (forall p, at, b :: p in src.deltas && p.at == Next(at) && like(b, server(at)) ==>
          like(engine.apply(b, p.levels), server(p.at)))
  }

  lemma {:induction false} BuildIsServer<B(!new), M>(
      engine: Engine<B>, like: (B, M) -> bool, server: Cursor -> M, story: Story, src: Source)
    requires FromServer(engine, like, server, src) && Consecutive(story)
    requires story.tick > 0.0 && Finite(story.tick) in src.ticks && story.snap in src.snaps
    requires forall p :: p in story.deltas ==> p in src.deltas
    ensures like(Build(engine, story), server(End(story)))
    decreases |story.deltas|
  {
    var n := |story.deltas|;
    if n == 0 {
      assert Usable(Some(Finite(story.tick)));
    } else {
      var init := story.(deltas := story.deltas[..n - 1]);
      BuildIsServer(engine, like, server, init, src);
      var last := story.deltas[n - 1];
      assert last in story.deltas;
      assert last.at == Next(End(init)) == End(story);
    }
  }

  /** The view is like the server's book at the cursor, through losses, resets and new snapshots. */
  lemma ViewIsServerBook<B(!new), M>(
      cfg: Config<B>, es: seq<Event>, uid: nat, like: (B, M) -> bool, server: Cursor -> M)
    requires FromServer(cfg.engine, like, server, Fed(es, uid))
    requires View(Run(cfg, es), uid).Some?
    ensures like(View(Run(cfg, es), uid).value, server(Of(Run(cfg, es), uid).at))
  {
    hide Step, Run, Build, FromServer, End;
    VisibleBookHasStory(cfg, es, uid);
    var s := Run(cfg, es);
    var story :| Tells(cfg.engine, View(s, uid).value, Of(s, uid).at, story, Fed(es, uid));
    BuildIsServer(cfg.engine, like, server, story, Fed(es, uid));
  }

  // ---------- Never behind the feed ----------

  /** The newest cursor that an accepted event or an installed book has shown. */
  ghost function Shown<B>(cfg: Config<B>, es: seq<Event>, uid: nat): Option<Cursor> {
    if es == [] then None
    else
      var init, e := es[..|es| - 1], es[|es| - 1];
      var s := Run(cfg, init);
      if !Hits(s, e, uid) then Shown(cfg, init, uid)
      else ShownAfter(Shown(cfg, init, uid), TickOf(s, uid), e, Of(Run(cfg, es), uid))
  }

  /** At every moment of the run the book, or what a new one must reach, covers everything shown. */
  ghost predicate KeepsUp<B>(cfg: Config<B>, es: seq<Event>, uid: nat) {
    && (es != [] ==> KeepsUp(cfg, es[..|es| - 1], uid))
    && Covers(Of(Run(cfg, es), uid), Shown(cfg, es, uid))
  }

  /** No non-delta event arrived that was older than the book it unsynced. */
  ghost predicate NoStaleNonDelta<B>(cfg: Config<B>, es: seq<Event>, uid: nat) {
    es == [] ||
    var init, e := es[..|es| - 1], es[|es| - 1];
    var s := Run(cfg, init);
    NoStaleNonDelta(cfg, init, uid) && !(Hits(s, e, uid) && StaleNonDelta(TickOf(s, uid), Of(s, uid), e))
  }

  /** The path keeps up with the feed exactly when no non-delta is older than the book it unsyncs. */
  lemma {:induction false} KeepsUpIff<B>(cfg: Config<B>, es: seq<Event>, uid: nat)
    requires Honest(cfg, es)
    ensures KeepsUp(cfg, es, uid) <==> NoStaleNonDelta(cfg, es, uid)
  {
    hide Step, CellStep, Shape, Covers, StaleNonDelta, ShownAfter;
    if es == [] {
      NewCovers<B>();
    } else {
      var init, e := es[..|es| - 1], es[|es| - 1];
      var s := Run(cfg, init);
      KeepsUpIff(cfg, init, uid);
      RunGood(cfg, init, uid);
      StepOf(cfg, s, e, uid);
      if KeepsUp(cfg, init, uid) && Hits(s, e, uid) {
        CoversStep(EnvOf(cfg, s, uid, e.now), Cell(Of(s, uid), s.nextTimer, []), e, Shown(cfg, init, uid));
      }
    }
  }

  lemma NewCovers<B>()
    ensures Covers<B>(NewInst(), None)
  {
  }

  lemma StepSends<B>(cfg: Config<B>, s: State<B>, e: Event)
    ensures Step(cfg, s, e).1 != [] ==> Acts(e) && Reaches(s, e) && Step(cfg, s, e).1 == CellOf(cfg, s, e).out
  {
    hide CellStep;
  }
}
