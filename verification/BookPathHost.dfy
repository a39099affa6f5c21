/** What a host can rely on over a run: ticks, the view, timers, closing, and getting back in step. */
module BookPathHost {
  import opened Wrappers
  import opened OrderBook
  import opened BookPath
  import opened BookPathLaws
  import opened BookPathFeed
  import opened BookPathReplies
  import opened BookPathRuns

  // ---------- Ticks, the view, closing ----------

  /** Resolving and forgetting change the tick of one instrument, and no other event changes a tick. */
  lemma TickAfter<B>(cfg: Config<B>, s: State<B>, e: Event, uid: nat)
    ensures TickOf(Step(cfg, s, e).0, uid) ==
              if e.Resolve? && e.uid == uid then Some(e.tick)
              else if e.Forget? && e.uid == uid then None
              else TickOf(s, uid)
    ensures e.Resolve? || e.Forget? || e.Close? ==> Step(cfg, s, e).1 == [] && Step(cfg, s, e).0.insts == s.insts
  {
    hide CellStep;
  }

  /** An event without an instrument, or a reply or timer for one never heard of, does nothing. */
  lemma StrangersDoNothing<B>(cfg: Config<B>, s: State<B>, e: Event)
    requires Acts(e) && if Feeds(e) then UidOf(e) == 0 else UidOf(e) !in s.insts
    ensures Step(cfg, s, e) == (s.(now := e.now), [])
  {
    hide CellStep;
  }

  /** An event of one instrument leaves every other as it is. */
  lemma OthersUntouched<B>(cfg: Config<B>, s: State<B>, e: Event, uid: nat)
    requires Acts(e) && UidOf(e) != uid
    ensures var t := Step(cfg, s, e).0; Of(t, uid) == Of(s, uid) && View(t, uid) == View(s, uid)
  {
    hide CellStep;
  }

  /** A strategy sees a book exactly while the path is open and the instrument synced, and sees that book. */
  lemma VisibleIff<B>(cfg: Config<B>, es: seq<Event>, uid: nat)
    requires Honest(cfg, es)
    ensures var s := Run(cfg, es);
            && (View(s, uid).Some? <==> Close !in es && Of(s, uid).synced)
            && (View(s, uid).Some? ==> View(s, uid) == Of(s, uid).ob)
  {
    hide Run, Step;
    RunGood(cfg, es, uid);
    ClosedIff(cfg, es);
    assert uid !in Run(cfg, es).insts ==> Of(Run(cfg, es), uid) == NewInst();
  }

  lemma StepCloses<B>(cfg: Config<B>, s: State<B>, e: Event)
    ensures Step(cfg, s, e).0.closed <==> s.closed || e.Close?
    ensures s.closed ==> Step(cfg, s, e).1 == [] && Step(cfg, s, e).0.insts == s.insts
  {
    hide CellStep;
  }

  lemma {:induction false} ClosedIff<B>(cfg: Config<B>, es: seq<Event>)
    ensures Run(cfg, es).closed <==> Close in es
  {
    hide Step;
    if es != [] {
      var init, e := es[..|es| - 1], es[|es| - 1];
      ClosedIff(cfg, init);
      StepCloses(cfg, Run(cfg, init), e);
      assert es == init + [e];
    }
  }

  /** After closing nothing is sent and no instrument changes. */
  lemma {:induction false} ClosedIsFinal<B>(cfg: Config<B>, es: seq<Event>, more: seq<Event>)
    requires Close in es
    ensures Sent(cfg, es + more) == Sent(cfg, es) && Run(cfg, es + more).insts == Run(cfg, es).insts
    decreases |more|
  {
    hide Step;
    if more == [] {
      assert es + more == es;
    } else {
      var init, e := more[..|more| - 1], more[|more| - 1];
      ClosedIsFinal(cfg, es, init);
      ClosedIff(cfg, es + init);
      assert es + more == (es + init) + [e];
      RunNext(cfg, es + init, e);
      StepCloses(cfg, Run(cfg, es + init), e);
    }
  }

  /** The first delta of an instrument asks for a snapshot exactly when its tick is a positive number. */
  lemma FirstDeltaAsks<B>(cfg: Config<B>, uid: nat, tick: Size, d: Delta, now: int)
    requires uid != 0 && d.uid == uid && !d.reset
    ensures var es := [Resolve(uid, tick), DeltaEvent(now, d)];
            if tick.Finite? && tick.amount > 0.0 then
              && RequestSnapshot(uid, 0, cfg.recv) in Sent(cfg, es)
              && Of(Run(cfg, es), uid).buf == [Pending(d.at, d.mdTs, d.exchTs, d.levels)]
            else Sent(cfg, es) == [] && Of(Run(cfg, es), uid) == NewInst()
  {
    hide CellStep;
    var e := DeltaEvent(now, d);
    RunNext(cfg, [], Resolve(uid, tick));
    RunNext(cfg, [Resolve(uid, tick)], e);
    assert [] + [Resolve(uid, tick)] == [Resolve(uid, tick)];
    assert [Resolve(uid, tick)] + [e] == [Resolve(uid, tick), e];
    FirstDelta(EnvOf(cfg, Run(cfg, [Resolve(uid, tick)]), uid, now), Cell(NewInst(), 0, []), d, now);
  }

  lemma FirstDelta<B>(env: Env<B>, c: Cell<B>, d: Delta, now: int)
    requires c == Cell(NewInst(), 0, []) && !d.reset && !env.closed
    ensures var w := CellStep(env, c, DeltaEvent(now, d));
            if env.tick.Some? && env.tick.value.Finite? && env.tick.value.amount > 0.0 then
              && RequestSnapshot(env.uid, 0, env.recv) in w.out
              && w.inst.buf == [Pending(d.at, d.mdTs, d.exchTs, d.levels)]
            else w == c
  {
  }

  /** An armed token that is not the live arm of its instrument, or is early, does nothing. */
  lemma DeadTokensDoNothing<B>(cfg: Config<B>, es: seq<Event>, t: Token, now: int)
    requires Honest(cfg, es) && t in Armed(Sent(cfg, es))
    requires var i := Of(Run(cfg, es), t.uid);
             || t != LiveToken(t.uid, t.kind, i)
             || (if t.kind.Backoff? then !i.backing else i.buf == [] || now - i.bufAt < 10_000_000_000)
    ensures Step(cfg, Run(cfg, es), TimerEvent(now, t)) == (Run(cfg, es).(now := now), [])
  {
    hide Run, Sent, Honest;
    TimersLive(cfg, es, t.uid, t, now);
    var s := Run(cfg, es);
    if Reaches(s, TimerEvent(now, t)) {
      assert s.insts[t.uid := Of(s, t.uid)] == s.insts;
    }
  }

  // ---------- The floor asks for no more than was shown ----------

  lemma AtMostRaise<B>(i: Inst<B>, at: Cursor)
    ensures UpTo(Top(RaiseFloor(i, at)), MaxCursor(Top(i), Some(at)))
  {
  }

  lemma AtMostDrop<B>(i: Inst<B>)
    ensures UpTo(Top(DropBuf(i)), Top(i))
  {
  }

  lemma AtMostAppend<B>(i: Inst<B>, item: Pending)
    ensures UpTo(Top(i.(buf := i.buf + [item])), MaxCursor(Top(i), Some(item.at)))
  {
    assert (i.buf + [item])[..|i.buf|] == i.buf;
  }

  lemma AtMostRestart<B>(env: Env<B>, c: Cell<B>)
    ensures UpTo(Top(Restart(env, c).inst), Top(c.inst))
  {
    AtMostDrop(c.inst);
  }

  lemma AtMostBuffer<B>(env: Env<B>, c: Cell<B>, item: Pending)
    ensures UpTo(Top(BufferThenFetch(env, c, item).inst), MaxCursor(Top(c.inst), Some(item.at)))
  {
    hide Open, Fetch, Restart, Top, Over;
    var begun := Open(env, c);
    var kept := begun.(inst := begun.inst.(buf := begun.inst.buf + [item]));
    TopOpen(env, c);
    AtMostAppend(begun.inst, item);
    if Over(env.now, kept.inst) {
      AtMostRestart(env, kept);
    } else {
      TopFetch(env, kept);
    }
  }

  lemma AtMostLose<B>(env: Env<B>, c: Cell<B>, at: Cursor, item: Option<Pending>)
    requires item.Some? ==> item.value.at == at
    ensures UpTo(Top(Lose(env, c, at, item).inst), MaxCursor(Top(c.inst), Some(at)))
  {
    var i := c.inst.(synced := false, ob := None);
    assert Top(i) == Top(c.inst);
    AtMostRaise(i, at);
    if item.Some? {
      AtMostBuffer(env, c.(inst := Invalidate(RaiseFloor(i, at))), item.value);
    }
  }

  /** What is left behind a gap insists on nothing new. */
  lemma AtMostGap<B>(i: Inst<B>, j: Inst<B>, h: nat)
    requires h < |i.buf| && j.buf == i.buf[h..] && j.floor == Some(i.buf[h].at)
    ensures UpTo(Top(j), Top(i))
  {
    hide MaxPending;
    MaxPendingBounds(i.buf);
    MaxPendingBounds(j.buf);
    assert forall p :: p in j.buf ==> p in i.buf;
    assert i.buf[h] in i.buf;
  }

  lemma TopSame<B>(i: Inst<B>, j: Inst<B>)
    requires j.buf == i.buf && j.floor == i.floor
    ensures Top(j) == Top(i) && UpTo(Top(j), Top(i))
  {
  }

  lemma AtMostReply<B>(env: Env<B>, c: Cell<B>, reply: Reply)
    requires Shape(c.inst) && c.inst.inflight && !env.closed
    ensures var j := OnSnapshot(env, c, c.inst.generation, reply).inst; j.synced || UpTo(Top(j), Top(c.inst))
  {
    hide OnSnapshot, Reach, News, ApplyAll, Follows, Top, MaxPending, Continuous;
    ReplyLeaves(env, c, reply);
    var i, j := c.inst, OnSnapshot(env, c, c.inst.generation, reply).inst;
    if Current(env.uid, i, reply) && Usable(env.tick) {
      if !Continuous(reply.snap.at, i.buf) {
        var h: nat :| FirstGap(reply.snap.at, i.buf, h) && j.buf == i.buf[h..] && j.floor == Some(i.buf[h].at);
        AtMostGap(i, j, h);
      }
    } else {
      TopSame(i, j);
    }
  }

  /** What an instrument stands at, or insists on reaching, is never past what was shown. */
  lemma AtMostStep<B>(env: Env<B>, c: Cell<B>, e: Event, shown: Option<Cursor>)
    requires Acts(e) && Shape(c.inst) && !env.closed && UpTo(KnownAt(c.inst), shown)
    ensures var j := CellStep(env, c, e).inst; UpTo(KnownAt(j), ShownAfter(shown, env.tick, e, j))
  {
    hide OnPending, OnReset, OnSnapshot, Lose;
    match e
    case DeltaEvent(_, d) =>
      if d.reset {
        AtMostReset(env, c, d.at, shown);
      } else {
        AtMostPending(env, c, PendingOf(d), shown);
      }
    case NonDelta(_, _, at) => AtMostLose(env, c, at, None);
    case SnapshotEvent(_, _, generation, reply) =>
      if c.inst.generation == generation && c.inst.inflight {
        AtMostReply(env, c, reply);
      } else {
        NotHeard(env, c, generation, reply);
      }
    case TimerEvent(_, token) => AtMostDrop(c.inst);
  }

  lemma NotHeard<B>(env: Env<B>, c: Cell<B>, generation: nat, reply: Reply)
    requires c.inst.generation != generation || !c.inst.inflight
    ensures OnSnapshot(env, c, generation, reply) == c
  {
  }

  lemma AtMostReset<B>(env: Env<B>, c: Cell<B>, at: Cursor, shown: Option<Cursor>)
    requires Shape(c.inst) && UpTo(KnownAt(c.inst), shown)
    ensures var j := OnReset(env, c, at).inst;
            UpTo(KnownAt(j), if j.synced then MaxCursor(MaxCursor(shown, Some(at)), Some(j.at))
                           else MaxCursor(shown, Some(at)))
  {
  }

  lemma AtMostPending<B>(env: Env<B>, c: Cell<B>, item: Pending, shown: Option<Cursor>)
    requires Shape(c.inst) && UpTo(KnownAt(c.inst), shown)
    ensures var j := OnPending(env, c, item).inst;
            UpTo(KnownAt(j), if j.synced then MaxCursor(MaxCursor(shown, Some(item.at)), Some(j.at))
                           else MaxCursor(shown, Some(item.at)))
  {
    hide Lose, BufferThenFetch;
    AtMostBuffer(env, c, item);
    AtMostLose(env, c, item.at, Some(item));
  }

  lemma {:induction false} KnownIsShown<B>(cfg: Config<B>, es: seq<Event>, uid: nat)
    requires Honest(cfg, es)
    ensures UpTo(KnownAt(Of(Run(cfg, es), uid)), Shown(cfg, es, uid))
  {
    hide Step, CellStep, Shape, ShownAfter;
    if es == [] {
      assert Of(Run(cfg, es), uid) == NewInst();
    } else {
      var init, e := es[..|es| - 1], es[|es| - 1];
      var s := Run(cfg, init);
      KnownIsShown(cfg, init, uid);
      RunGood(cfg, init, uid);
      StepOf(cfg, s, e, uid);
      if Hits(s, e, uid) {
        AtMostStep(EnvOf(cfg, s, uid, e.now), Cell(Of(s, uid), s.nextTimer, []), e, Shown(cfg, init, uid));
      }
    }
  }

  // ---------- Getting back in step ----------

  /** A reply to the request in flight, on the instrument it reaches. */
  lemma HeardIs<B>(cfg: Config<B>, s: State<B>, uid: nat, now: int, reply: Reply)
    requires !s.closed && uid in s.insts
    ensures var i := s.insts[uid];
            Of(Step(cfg, s, SnapshotEvent(now, uid, i.generation, reply)).0, uid) ==
              OnSnapshot(EnvOf(cfg, s, uid, now), Cell(i, s.nextTimer, []), i.generation, reply).inst
    ensures var t := Step(cfg, s, SnapshotEvent(now, uid, s.insts[uid].generation, reply)).0;
            uid in t.insts && !t.closed && TickOf(t, uid) == TickOf(s, uid)
  {
    hide OnSnapshot;
  }

  lemma {:induction false} OldNews(at: Cursor, buf: seq<Pending>)
    requires forall p :: p in buf ==> AtLeast(at, p.at)
    ensures Reach(at, buf) == at && Continuous(at, buf)
  {
    if buf != [] {
      var init := buf[..|buf| - 1];
      OldNews(at, init);
      assert buf == init + [buf[|buf| - 1]];
      forall k | 0 <= k < |buf| ensures Follows(at, buf, k) {
        OldNewsAt(at, buf, k);
      }
    }
  }

  lemma {:induction false} OldNewsAt(at: Cursor, buf: seq<Pending>, k: nat)
    requires k < |buf| && forall p :: p in buf ==> AtLeast(at, p.at)
    ensures Reach(at, buf[..k]) == at && Follows(at, buf, k)
  {
    assert buf[k] in buf;
    if k > 0 {
      OldNewsAt(at, buf, k - 1);
      assert buf[..k][..k - 1] == buf[..k - 1] && buf[k - 1] in buf;
    }
  }

  /** A snapshot as new as everything that was shown is always installed, at its own cursor. */
  lemma FreshSnapshotSyncs<B>(cfg: Config<B>, es: seq<Event>, uid: nat, now: int, snap: Snapshot)
    requires Honest(cfg, es) && Close !in es && uid in Run(cfg, es).insts
    requires var s := Run(cfg, es); s.insts[uid].inflight && Usable(TickOf(s, uid))
    requires Names(snap, uid) && UpTo(Shown(cfg, es, uid), Some(snap.at))
    ensures var s := Run(cfg, es);
            var i := Of(Step(cfg, s, SnapshotEvent(now, uid, s.insts[uid].generation, Body(snap))).0, uid);
            i.synced && i.at == snap.at
  {
    hide Run, Step, Shown, OnSnapshot, Follows, Reach;
    var s := Run(cfg, es);
    var i := s.insts[uid];
    ClosedIff(cfg, es);
    RunGood(cfg, es, uid);
    KnownIsShown(cfg, es, uid);
    MaxPendingBounds(i.buf);
    HeardIs(cfg, s, uid, now, Body(snap));
    OldNews(snap.at, i.buf);
    ReplySettles(EnvOf(cfg, s, uid, now), Cell(i, s.nextTimer, []), Body(snap));
  }

  lemma GapUnique(at: Cursor, buf: seq<Pending>, g: nat, h: nat)
    requires FirstGap(at, buf, g) && FirstGap(at, buf, h)
    ensures g == h
  {
  }

  lemma LeftUnique<B>(i: Inst<B>, bad: Reply, a: Inst<B>, b: Inst<B>, uid: nat, id: nat)
    requires Left(i, bad, a, uid, id) && Left(i, bad, b, uid, id)
    ensures a == b
  {
    hide Follows, Reach;
    if Current(uid, i, bad) {
      var at, f := bad.snap.at, FailedRead(i, id);
      var g: nat :| FirstGap(at, i.buf, g) && a == f.(buf := i.buf[g..], floor := Some(i.buf[g].at));
      var h: nat :| FirstGap(at, i.buf, h) && b == f.(buf := i.buf[h..], floor := Some(i.buf[h].at));
      GapUnique(at, i.buf, g, h);
    }
  }

  /** A failed read leaves `left`, and its backoff asks again with the same buffer and floor. */
  lemma FailedReadRetries<B>(cfg: Config<B>, es: seq<Event>, uid: nat, bad: Reply, t1: int, t2: int)
    returns (more: seq<Event>, left: Inst<B>)
    requires Honest(cfg, es) && Close !in es && uid in Run(cfg, es).insts
    requires var s := Run(cfg, es);
             s.insts[uid].inflight && Usable(TickOf(s, uid)) && !Acceptable(uid, s.insts[uid], bad)
    ensures var s, t := Run(cfg, es), Run(cfg, es + more);
            && Left(s.insts[uid], bad, left, uid, s.nextTimer + 1)
            && |more| == 2 && more[0] == SnapshotEvent(t1, uid, s.insts[uid].generation, bad)
            && more[1].TimerEvent? && more[1].now == t2
            && Honest(cfg, es + more) && !t.closed && uid in t.insts && Usable(TickOf(t, uid))
            && t.insts[uid] == left.(backing := false, backoffId := 0, inflight := true)
  {
    hide Run, Step, Sent, Honest, OnSnapshot, Follows, Reach, Shape;
    var s := Run(cfg, es);
    var i := s.insts[uid];
    ClosedIff(cfg, es);
    RunGood(cfg, es, uid);
    var e1 := SnapshotEvent(t1, uid, i.generation, bad);
    HeardIs(cfg, s, uid, t1, bad);
    ReplyLeaves(EnvOf(cfg, s, uid, t1), Cell(i, s.nextTimer, []), bad);
    RunNext(cfg, es, e1);
    var es1 := es + [e1];
    var s1 := Run(cfg, es1);
    left := s1.insts[uid];
    var token := LiveToken(uid, Backoff, left);
    TimersLive(cfg, es1, uid, token, t2);
    var e2 := TimerEvent(t2, token);
    RunTimer(cfg, es1, e2);
    BackoffEnds(cfg, s1, uid, e2);
    more := [e1, e2];
    assert es + more == es1 + [e2];
  }

  /**
   A failed read is not the end: its backoff fires, a snapshot that what is still buffered continues
   comes, and the instrument is synced at the newest cursor of the two.  What is still buffered is
   everything, or behind a gap the deltas from the gap on.
   */
  lemma RetrySyncs<B>(
      cfg: Config<B>, es: seq<Event>, uid: nat, bad: Reply, left: Inst<B>, good: Reply, t1: int, t2: int, t3: int)
    returns (more: seq<Event>)
    requires Honest(cfg, es) && Close !in es && uid in Run(cfg, es).insts
    requires var s := Run(cfg, es);
             s.insts[uid].inflight && Usable(TickOf(s, uid)) && !Acceptable(uid, s.insts[uid], bad)
             && Left(s.insts[uid], bad, left, uid, s.nextTimer + 1)
    requires Acceptable(uid, left, good)
    ensures var g, j := Run(cfg, es).insts[uid].generation, Of(Run(cfg, es + more), uid);
            && |more| == 3 && more[0] == SnapshotEvent(t1, uid, g, bad) && more[1].TimerEvent? && more[1].now == t2
            && more[2] == SnapshotEvent(t3, uid, g, good)
            && Honest(cfg, es + more) && j.synced && j.at == Reach(good.snap.at, left.buf)
  {
    hide Run, Step, Sent, Honest, OnSnapshot, Follows, Reach, Shape;
    var s := Run(cfg, es);
    var two, l := FailedReadRetries(cfg, es, uid, bad, t1, t2);
    LeftUnique(s.insts[uid], bad, left, l, uid, s.nextTimer + 1);
    var es2 := es + two;
    var s2 := Run(cfg, es2);
    RunGood(cfg, es2, uid);
    var e3 := SnapshotEvent(t3, uid, s.insts[uid].generation, good);
    HeardIs(cfg, s2, uid, t3, good);
    ReplySettles(EnvOf(cfg, s2, uid, t3), Cell(s2.insts[uid], s2.nextTimer, []), good);
    RunNext(cfg, es2, e3);
    more := two + [e3];
    assert es + more == es2 + [e3];
  }

  /** `left` is what the failed read `bad` leaves of `i`. */
  ghost predicate Left<B>(i: Inst<B>, bad: Reply, left: Inst<B>, uid: nat, id: nat) {
    if !Current(uid, i, bad) then left == FailedRead(i, id)
    else exists h: nat :: FirstGap(bad.snap.at, i.buf, h)
           && left == FailedRead(i, id).(buf := i.buf[h..], floor := Some(i.buf[h].at))
  }

  lemma RunTimer<B>(cfg: Config<B>, es: seq<Event>, e: Event)
    requires Honest(cfg, es) && e.TimerEvent? && e.token in Armed(Sent(cfg, es))
    ensures Honest(cfg, es + [e]) && Run(cfg, es + [e]) == Step(cfg, Run(cfg, es), e).0
  {
    hide Step, Run, Sent, Armed;
    assert (es + [e])[..|es|] == es;
    RunNext(cfg, es, e);
  }

  lemma BackoffEnds<B>(cfg: Config<B>, s: State<B>, uid: nat, e: Event)
    requires !s.closed && uid in s.insts && Usable(TickOf(s, uid)) && s.insts[uid].backing && !s.insts[uid].inflight
    requires e.TimerEvent? && e.token == LiveToken(uid, Backoff, s.insts[uid])
    ensures var t := Step(cfg, s, e).0;
            && !t.closed && uid in t.insts && TickOf(t, uid) == TickOf(s, uid)
            && t.insts[uid] == s.insts[uid].(backing := false, backoffId := 0, inflight := true)
  {
  }
}
