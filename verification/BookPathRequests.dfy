/** Which snapshot requests go out, which replies are heard, and that fresh deltas reach the strategy. */
module BookPathRequests {
  import opened Wrappers
  import opened BookPath
  import opened BookPathLaws
  import opened BookPathRuns

  // ---------- One call ----------

  /** Between `c` and `d` one snapshot at most was asked for, and `d` waits for what was asked last. */
  ghost predicate Asks<B>(env: Env<B>, c: Cell<B>, d: Cell<B>) {
    && c.out <= d.out && c.inst.generation <= d.inst.generation
    && (forall k :: |c.out| <= k < |d.out| && d.out[k].RequestSnapshot? ==>
          && d.out[k] == RequestSnapshot(env.uid, d.inst.generation, env.recv) && d.inst.inflight
          && (c.inst.inflight ==> c.inst.generation < d.inst.generation)
          && forall j :: |c.out| <= j < |d.out| && d.out[j].RequestSnapshot? ==> j == k)
    && (d.inst.inflight ==>
          || (c.inst.inflight && c.inst.generation == d.inst.generation)
          || exists k :: |c.out| <= k < |d.out| && d.out[k].RequestSnapshot?)
  }

  lemma AsksFetch<B>(env: Env<B>, c: Cell<B>)
    ensures Asks(env, c, Fetch(env, c))
  {
    var d := Fetch(env, c);
    if d != c {
      assert d.out[|c.out|].RequestSnapshot?;
    }
  }

  /** A quiet change that starts a new generation, then a request. */
  lemma AsksAgain<B>(env: Env<B>, c: Cell<B>, d: Cell<B>)
    requires c.out <= d.out && c.inst.generation < d.inst.generation && !d.inst.inflight
    requires forall k :: |c.out| <= k < |d.out| ==> !d.out[k].RequestSnapshot?
    ensures Asks(env, c, Fetch(env, d))
  {
    AsksFetch(env, d);
  }

  lemma AsksBuffer<B>(env: Env<B>, c: Cell<B>, item: Pending)
    ensures Asks(env, c, BufferThenFetch(env, c, item))
  {
    hide Fetch, Asks, MaxPending;
    var begun := Open(env, c);
    var kept := begun.(inst := begun.inst.(buf := begun.inst.buf + [item]));
    if Over(env.now, kept.inst) {
      AsksAgain(env, c, kept.(inst := Invalidate(DropBuf(kept.inst))));
    } else {
      AsksFetch(env, kept);
      AsksFrom(env, c, kept, Fetch(env, kept));
    }
  }

  lemma AsksFrom<B>(env: Env<B>, c: Cell<B>, d: Cell<B>, e: Cell<B>)
    requires c.out <= d.out && c.inst.generation == d.inst.generation && c.inst.inflight == d.inst.inflight
    requires forall k :: |c.out| <= k < |d.out| ==> !d.out[k].RequestSnapshot?
    requires Asks(env, d, e)
    ensures Asks(env, c, e)
  {
  }

  lemma AsksLose<B>(env: Env<B>, c: Cell<B>, at: Cursor, item: Option<Pending>)
    ensures Asks(env, c, Lose(env, c, at, item))
    ensures Lose(env, c, at, item).inst.generation > c.inst.generation
  {
    hide Fetch, BufferThenFetch;
    var lost := c.(inst := Invalidate(RaiseFloor(c.inst.(synced := false, ob := None), at)));
    AsksFetch(env, lost);
    if item.Some? {
      AsksBuffer(env, lost, item.value);
    }
  }

  lemma AsksSnapshot<B>(env: Env<B>, c: Cell<B>, generation: nat, reply: Reply)
    ensures Asks(env, c, OnSnapshot(env, c, generation, reply))
  {
    hide Fold;
  }

  /** One call asks for at most one snapshot, and gives up the one in flight before it asks again. */
  lemma RequestStep<B>(env: Env<B>, c: Cell<B>, e: Event)
    requires Acts(e)
    ensures Asks(env, c, CellStep(env, c, e))
  {
    hide Fetch, Lose, BufferThenFetch, OnSnapshot, MaxPending, Asks;
    AsksNothing(env, c);
    match e
    case DeltaEvent(_, d) =>
      if d.reset {
        AsksReset(env, c, d.at);
      } else {
        AsksPending(env, c, PendingOf(d));
      }
    case NonDelta(_, _, at) => AsksLose(env, c, at, None);
    case SnapshotEvent(_, _, generation, reply) => AsksSnapshot(env, c, generation, reply);
    case TimerEvent(_, token) => AsksTimer(env, c, token);
  }

  lemma AsksNothing<B>(env: Env<B>, c: Cell<B>)
    ensures Asks(env, c, c)
  {
  }

  lemma AsksReset<B>(env: Env<B>, c: Cell<B>, at: Cursor)
    ensures Asks(env, c, OnReset(env, c, at))
    ensures !ResetIsStale(c.inst, at) ==> OnReset(env, c, at).inst.generation > c.inst.generation
  {
    hide Fetch, MaxPending, ResetIsStale;
    AsksNothing(env, c);
    var i := c.inst.(synced := false, ob := None, buf := [], have := false, bufGen := c.inst.bufGen + 1, ageId := 0);
    var d := c.(inst := Invalidate(RaiseFloor(i, at)));
    AsksAgain(env, c, d);
    AsksFetch(env, d);
  }

  lemma AsksPending<B>(env: Env<B>, c: Cell<B>, item: Pending)
    ensures Asks(env, c, OnPending(env, c, item))
  {
    hide Fetch, Lose, BufferThenFetch;
    AsksBuffer(env, c, item);
    AsksLose(env, c, item.at, Some(item));
  }

  lemma AsksTimer<B>(env: Env<B>, c: Cell<B>, token: Token)
    ensures Asks(env, c, OnTimer(env, c, token))
  {
    hide Fetch, MaxPending, Fires, Asks;
    AsksNothing(env, c);
    if token.kind.BufferAge? {
      AsksAgain(env, c, c.(inst := Invalidate(DropBuf(c.inst))));
    } else {
      var d := c.(inst := c.inst.(backing := false, backoffId := 0));
      AsksFetch(env, d);
      AsksFrom(env, c, d, Fetch(env, d));
    }
  }

  // ---------- Replies to what was given up ----------

  /** The call has given up its book, its buffer, or both. */
  ghost predicate Discards<B>(c: Cell<B>, d: Cell<B>, e: Event) {
    !e.SnapshotEvent? && ((c.inst.synced && !d.inst.synced) || (c.inst.buf != [] && d.inst.buf == []))
  }

  /** What is given up takes its request along. */
  lemma DiscardsBump<B>(env: Env<B>, c: Cell<B>, e: Event)
    requires Acts(e) && Shape(c.inst) && Discards(c, CellStep(env, c, e), e)
    ensures CellStep(env, c, e).inst.generation > c.inst.generation
  {
    hide Lose, Asks, MaxPending, Shape;
    match e
    case DeltaEvent(_, d) =>
      if d.reset {
        AsksReset(env, c, d.at);
      } else if c.inst.synced {
        AsksLose(env, c, d.at, Some(PendingOf(d)));
      }
    case NonDelta(_, _, at) => AsksLose(env, c, at, None);
    case TimerEvent(_, token) =>
  }

  lemma {:induction false} GenerationGrows<B>(cfg: Config<B>, es: seq<Event>, a: nat, b: nat, uid: nat)
    requires a <= b <= |es|
    ensures Of(Run(cfg, es[..a]), uid).generation <= Of(Run(cfg, es[..b]), uid).generation
  {
    hide Step, CellStep;
    if a < b {
      GenerationGrows(cfg, es, a, b - 1, uid);
      assert es[..b][..b - 1] == es[..b - 1];
      var s, e := Run(cfg, es[..b - 1]), es[b - 1];
      StepOf(cfg, s, e, uid);
      if Hits(s, e, uid) {
        RequestStep(EnvOf(cfg, s, uid, e.now), Cell(Of(s, uid), s.nextTimer, []), e);
      }
    }
  }

  /** The `k`-th event made `uid` give up its book or its buffer. */
  ghost predicate DiscardsAt<B>(cfg: Config<B>, es: seq<Event>, k: nat, uid: nat)
    requires k < |es|
  {
    var s := Run(cfg, es[..k]);
    Hits(s, es[k], uid) && Discards(Cell(Of(s, uid), s.nextTimer, []), CellOf(cfg, s, es[k]), es[k])
  }

  /** A reply to a request from before a book or a buffer was given up does nothing, however late it comes. */
  lemma OldRepliesDoNothing<B>(cfg: Config<B>, es: seq<Event>, a: nat, b: nat)
    requires Honest(cfg, es) && a < b < |es| && es[b].SnapshotEvent?
    requires DiscardsAt(cfg, es, a, es[b].uid)
    requires es[b].generation <= Of(Run(cfg, es[..a]), es[b].uid).generation
    ensures var s := Run(cfg, es[..b]); Step(cfg, s, es[b]) == (s.(now := es[b].now), [])
  {
    hide CellStep, Shape, Discards;
    var uid := es[b].uid;
    var s := Run(cfg, es[..a]);
    HonestPrefix(cfg, es, a);
    RunGood(cfg, es[..a], uid);
    DiscardsBump(EnvOf(cfg, s, uid, es[a].now), Cell(Of(s, uid), s.nextTimer, []), es[a]);
    assert es[..a + 1][..a] == es[..a];
    StepOf(cfg, s, es[a], uid);
    GenerationGrows(cfg, es, a + 1, b, uid);
    Unheard(cfg, Run(cfg, es[..b]), es[b]);
  }

  lemma Unheard<B>(cfg: Config<B>, s: State<B>, e: Event)
    requires e.SnapshotEvent? && e.generation < Of(s, e.uid).generation
    ensures Step(cfg, s, e) == (s.(now := e.now), [])
  {
    if Reaches(s, e) {
      assert s.insts[e.uid := Of(s, e.uid)] == s.insts;
    }
  }

  // ---------- What is in flight ----------

  /** The last snapshot request for `uid`. */
  function LastRequest(out: seq<Effect>, uid: nat): Option<Effect> {
    if out == [] then None
    else
      var x := out[|out| - 1];
      if x.RequestSnapshot? && x.uid == uid then Some(x) else LastRequest(out[..|out| - 1], uid)
  }

  lemma {:induction false} LastRequestAppend(a: seq<Effect>, b: seq<Effect>, uid: nat)
    ensures LastRequest(a + b, uid) == if LastRequest(b, uid).Some? then LastRequest(b, uid) else LastRequest(a, uid)
    ensures match LastRequest(b, uid)
            case None => true
            case Some(x) => x in b && x.RequestSnapshot? && x.uid == uid
    ensures LastRequest(b, uid).None? ==> forall x :: x in b ==> !(x.RequestSnapshot? && x.uid == uid)
    decreases |b|
  {
    if b == [] {
      assert a + b == a;
    } else {
      var init := b[..|b| - 1];
      LastRequestAppend(a, init, uid);
      assert (a + b)[..|a + b| - 1] == a + init;
      assert b == init + [b[|b| - 1]];
    }
  }

  /** What an instrument waits for has been asked for, and nothing was asked for since. */
  lemma {:induction false} InFlightWasAsked<B>(cfg: Config<B>, es: seq<Event>, uid: nat)
    ensures var i := Of(Run(cfg, es), uid);
            i.inflight ==> LastRequest(Sent(cfg, es), uid) == Some(RequestSnapshot(uid, i.generation, cfg.recv))
  {
    hide Step, CellStep, Asks;
    if es != [] {
      var init, e := es[..|es| - 1], es[|es| - 1];
      var s := Run(cfg, init);
      InFlightWasAsked(cfg, init, uid);
      StepOf(cfg, s, e, uid);
      StepSends(cfg, s, e);
      LastRequestAppend(Sent(cfg, init), Step(cfg, s, e).1, uid);
      if Reaches(s, e) {
        var c := Cell(Of(s, UidOf(e)), s.nextTimer, []);
        RequestStep(EnvOf(cfg, s, UidOf(e), e.now), c, e);
        AskedNow(EnvOf(cfg, s, UidOf(e), e.now), c, CellOf(cfg, s, e));
      }
    }
  }

  lemma AskedNow<B>(env: Env<B>, c: Cell<B>, d: Cell<B>)
    requires Asks(env, c, d) && c.out == []
    ensures forall x :: x in d.out && x.RequestSnapshot? ==> x == RequestSnapshot(env.uid, d.inst.generation, env.recv)
    ensures d.inst.inflight ==> (c.inst.inflight && c.inst.generation == d.inst.generation)
                                || exists x :: x in d.out && x == RequestSnapshot(env.uid, d.inst.generation, env.recv)
  {
    if d.inst.inflight && !(c.inst.inflight && c.inst.generation == d.inst.generation) {
      var k :| 0 <= k < |d.out| && d.out[k].RequestSnapshot?;
      assert d.out[k] in d.out;
    }
  }

  // ---------- Fresh deltas ----------

  /** A delta that a synced book takes is hooked exactly when it is not too old. */
  lemma AppliedIsHooked<B>(env: Env<B>, c: Cell<B>, d: Delta, now: int)
    requires Shape(c.inst) && c.out == [] && c.inst.synced && Usable(env.tick) && !d.reset
    ensures var w := CellStep(env, c, DeltaEvent(now, d));
            && (w.inst.synced <==> !Newer(d.at, c.inst.at) || d.at == Next(c.inst.at))
            && (w.inst.synced ==>
                  w.out == if d.at == Next(c.inst.at) && env.now - d.mdTs <= env.recv
                           then [Hook(Update(env.uid, d.at, d.mdTs, d.exchTs))] else [])
  {
    QuietLose(env, c, d.at, Some(PendingOf(d)));
  }

  /** Every timer armed between `c` and `d` falls due when it should. */
  ghost predicate Due<B>(env: Env<B>, c: Cell<B>, d: Cell<B>) {
    c.out <= d.out && forall k :: |c.out| <= k < |d.out| && d.out[k].ArmTimer? ==>
      && d.out[k].deadline == Deadline(env.now, d.out[k].after)
      && (d.out[k].token.kind.BufferAge? ==> d.out[k].after == BUFFER_AGE)
  }

  lemma DueBuffer<B>(env: Env<B>, c: Cell<B>, item: Pending)
    ensures Due(env, c, BufferThenFetch(env, c, item))
  {
    hide MaxPending;
  }

  lemma DueLose<B>(env: Env<B>, c: Cell<B>, at: Cursor, item: Option<Pending>)
    ensures Due(env, c, Lose(env, c, at, item))
  {
    hide BufferThenFetch;
    if item.Some? {
      DueBuffer(env, c.(inst := Invalidate(RaiseFloor(c.inst.(synced := false, ob := None), at))), item.value);
    }
  }

  lemma DueSnapshot<B>(env: Env<B>, c: Cell<B>, generation: nat, reply: Reply)
    ensures Due(env, c, OnSnapshot(env, c, generation, reply))
  {
    hide Fold, Deadline;
  }

  /** An arm names the moment it is due, kept within 64 bits, and a buffer is given ten seconds. */
  lemma ArmsFallDue<B>(env: Env<B>, c: Cell<B>, e: Event, x: Effect)
    requires Acts(e) && c.out == [] && I64_MIN <= env.now <= I64_MAX
    requires x in CellStep(env, c, e).out && x.ArmTimer?
    ensures x.deadline == if env.now + x.after > 0x7fff_ffff_ffff_ffff then 0x7fff_ffff_ffff_ffff else env.now + x.after
    ensures x.token.kind.BufferAge? ==> x.after == 10_000_000_000
  {
    hide MaxPending, Lose, BufferThenFetch, OnSnapshot;
    match e
    case DeltaEvent(_, d) =>
      DueBuffer(env, c, PendingOf(d));
      DueLose(env, c, d.at, Some(PendingOf(d)));
    case NonDelta(_, _, at) => DueLose(env, c, at, None);
    case SnapshotEvent(_, _, generation, reply) => DueSnapshot(env, c, generation, reply);
    case TimerEvent(_, token) =>
  }
}
