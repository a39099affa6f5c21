/** What one event keeps of an instrument: its mode, its timers and its backoff. */
module BookPathLaws {
  import opened Wrappers
  import opened BookPath

  // ---------- One mode at a time ----------

  /** What holds of every instrument between calls. */
  ghost predicate Shape<B>(i: Inst<B>) {
    && (i.synced <==> i.ob.Some?)
    && (i.synced ==> i.buf == [] && i.floor.None? && !i.inflight && !i.backing)
    && !(i.inflight && i.backing)
    && (i.have <==> i.buf != [])
    && |i.buf| < BUFFER_MAX
  }

  lemma {:induction false} FoldTail<B>(engine: Engine<B>, buf: seq<Pending>, ob: B, at: Cursor)
    ensures var f := Fold(engine, buf, ob, at);
            f.Hole? ==> 0 < |f.tail| <= |buf| && f.tail == buf[|buf| - |f.tail|..]
  {
    if buf != [] {
      if !Newer(buf[0].at, at) {
        FoldTail(engine, buf[1..], ob, at);
      } else if buf[0].at == Next(at) {
        FoldTail(engine, buf[1..], engine.apply(ob, buf[0].levels), buf[0].at);
      }
    }
  }

  lemma ShapeRestart<B>(env: Env<B>, c: Cell<B>)
    requires !c.inst.synced && c.inst.ob.None?
    ensures Shape(Restart(env, c).inst) && !Restart(env, c).inst.synced
  {
  }

  lemma ShapeFetch<B>(env: Env<B>, c: Cell<B>)
    requires Shape(c.inst) && !c.inst.synced
    ensures Shape(Fetch(env, c).inst) && !Fetch(env, c).inst.synced
  {
  }

  lemma ShapeBuffer<B>(env: Env<B>, c: Cell<B>, item: Pending)
    requires Shape(c.inst) && !c.inst.synced
    ensures Shape(BufferThenFetch(env, c, item).inst) && !BufferThenFetch(env, c, item).inst.synced
  {
    hide Restart, Fetch;
    var begun := Open(env, c);
    var kept := begun.(inst := begun.inst.(buf := begun.inst.buf + [item]));
    assert kept.inst.have && kept.inst.buf != [];
    if Over(env.now, kept.inst) {
      ShapeRestart(env, kept);
    } else {
      ShapeFetch(env, kept);
    }
  }

  lemma ShapeLose<B>(env: Env<B>, c: Cell<B>, at: Cursor, item: Option<Pending>)
    requires Shape(c.inst)
    ensures Shape(Lose(env, c, at, item).inst)
  {
    var lost := c.(inst := Invalidate(RaiseFloor(c.inst.(synced := false, ob := None), at)));
    if item.Some? {
      ShapeBuffer(env, lost, item.value);
    }
  }

  lemma ShapePending<B>(env: Env<B>, c: Cell<B>, item: Pending)
    requires Shape(c.inst)
    ensures Shape(OnPending(env, c, item).inst)
  {
    ShapeLose(env, c, item.at, Some(item));
    if !c.inst.synced {
      ShapeBuffer(env, c, item);
    }
  }

  lemma ShapeSnapshot<B>(env: Env<B>, c: Cell<B>, generation: nat, reply: Reply)
    requires Shape(c.inst)
    ensures Shape(OnSnapshot(env, c, generation, reply).inst)
  {
    if reply.Body? && Usable(env.tick) {
      var ob := env.engine.apply(env.engine.blank(env.tick.value.amount), reply.snap.levels);
      FoldTail(env.engine, c.inst.buf, ob, reply.snap.at);
    }
  }

  lemma ShapeStep<B>(env: Env<B>, c: Cell<B>, e: Event)
    requires Acts(e) && Shape(c.inst)
    requires e.TimerEvent? && e.token.kind.Backoff? && BackoffFires(c.inst, e.token) ==> c.inst.backing
    ensures Shape(CellStep(env, c, e).inst)
  {
    match e
    case DeltaEvent(_, d) => ShapePending(env, c, PendingOf(d));
    case NonDelta(_, _, at) => ShapeLose(env, c, at, None);
    case SnapshotEvent(_, _, generation, reply) => ShapeSnapshot(env, c, generation, reply);
    case TimerEvent(_, _) =>
  }

  // ---------- Timer tokens ----------

  ghost function Armed(out: seq<Effect>): set<Token> {
    set e | e in out && e.ArmTimer? :: e.token
  }

  lemma ArmedAppend(a: seq<Effect>, b: seq<Effect>)
    ensures Armed(a + b) == Armed(a) + Armed(b)
  {
  }

  /** `t` is of this instrument and kind, and no token of `ts` like it was minted later. */
  ghost predicate Latest(ts: set<Token>, t: Token) {
    t in ts && forall u :: u in ts && u.uid == t.uid && u.kind == t.kind ==> u.id <= t.id
  }

  /** How the fields of an instrument relate to the tokens `ts` minted so far. */
  ghost predicate TokensOk<B>(uid: nat, i: Inst<B>, ts: set<Token>, next: nat) {
    && (forall t :: t in ts ==> 1 <= t.id <= next)
    && (i.have ==> Latest(ts, Token(uid, BufferAge, i.bufGen, i.ageId)))
    && (i.backing ==> Latest(ts, Token(uid, Backoff, i.generation, i.backoffId)))
    && (forall t :: t in ts && t.uid == uid && t.kind.Backoff? ==> t.generation <= i.generation)
    && (forall t :: t in ts && t.uid == uid && t.kind.Backoff? && BackoffFires(i, t) ==> i.backing)
    && i.ageId <= next && i.backoffId <= next
  }

  /** All tokens known when the call has got as far as `c`. */
  ghost function Known<B>(ts: set<Token>, c: Cell<B>): set<Token> {
    ts + Armed(c.out)
  }

  ghost predicate CellTokensOk<B>(uid: nat, ts: set<Token>, c: Cell<B>) {
    TokensOk(uid, c.inst, Known(ts, c), c.nextTimer)
  }

  /** `j` arms nothing that `i` did not arm, and every arm it lets go of is dead. */
  ghost predicate Quieter<B>(i: Inst<B>, j: Inst<B>) {
    && (j.ageId == i.ageId || j.ageId == 0)
    && (j.backoffId == i.backoffId || j.backoffId == 0)
    && (j.have ==> i.have && j.ageId == i.ageId && j.bufGen == i.bufGen)
    && (j.backing ==> i.backing && j.backoffId == i.backoffId && j.generation == i.generation)
    && j.generation >= i.generation
    && (j.generation == i.generation && j.backoffId == i.backoffId && i.backing ==> j.backing)
  }

  lemma TokensQuieter<B>(uid: nat, ts: set<Token>, c: Cell<B>, j: Inst<B>)
    requires CellTokensOk(uid, ts, c) && Quieter(c.inst, j)
    ensures CellTokensOk(uid, ts, c.(inst := j))
  {
  }

  lemma TokensArm<B>(env: Env<B>, ts: set<Token>, c: Cell<B>, kind: TimerKind, generation: nat, after: nat)
    requires forall t :: t in Known(ts, c) ==> 1 <= t.id <= c.nextTimer
    ensures var a, t := Arm(env, c, kind, generation, after), Token(env.uid, kind, generation, c.nextTimer + 1);
            Known(ts, a) == Known(ts, c) + {t} && Latest(Known(ts, a), t)
  {
    var a, t := Arm(env, c, kind, generation, after), Token(env.uid, kind, generation, c.nextTimer + 1);
    var arm := ArmTimer(t, after, Deadline(env.now, after));
    ArmedAppend(c.out, [arm]);
    assert Armed([arm]) == {t} by { assert arm in [arm]; }
  }

  lemma TokensFetch<B>(env: Env<B>, ts: set<Token>, c: Cell<B>)
    requires CellTokensOk(env.uid, ts, c)
    ensures CellTokensOk(env.uid, ts, Fetch(env, c))
    ensures Known(ts, Fetch(env, c)) == Known(ts, c)
  {
    ArmedAppend(c.out, [RequestSnapshot(env.uid, c.inst.generation, env.recv)]);
  }

  lemma TokensBackOff<B>(env: Env<B>, ts: set<Token>, c: Cell<B>)
    requires CellTokensOk(env.uid, ts, c)
    ensures CellTokensOk(env.uid, ts, BackOff(env, c))
  {
    if !env.closed && !c.inst.backing {
      var wait := Grow(c.inst.wait);
      TokensArm(env, ts, c.(inst := c.inst.(wait := wait, backing := true)), Backoff, c.inst.generation, wait);
    }
  }

  lemma TokensOpen<B>(env: Env<B>, ts: set<Token>, c: Cell<B>)
    requires CellTokensOk(env.uid, ts, c)
    ensures CellTokensOk(env.uid, ts, Open(env, c))
  {
    if !c.inst.have {
      var i := c.inst.(bufGen := c.inst.bufGen + 1, bufAt := env.now, have := true);
      TokensArm(env, ts, c.(inst := i), BufferAge, i.bufGen, BUFFER_AGE);
    }
  }

  lemma TokensRestart<B>(env: Env<B>, ts: set<Token>, c: Cell<B>)
    requires CellTokensOk(env.uid, ts, c)
    ensures CellTokensOk(env.uid, ts, Restart(env, c))
  {
    var j := Invalidate(DropBuf(c.inst));
    TokensQuieter(env.uid, ts, c, j);
    TokensFetch(env, ts, c.(inst := j));
  }

  lemma TokensBuffer<B>(env: Env<B>, ts: set<Token>, c: Cell<B>, item: Pending)
    requires CellTokensOk(env.uid, ts, c)
    ensures CellTokensOk(env.uid, ts, BufferThenFetch(env, c, item))
  {
    TokensOpen(env, ts, c);
    var begun := Open(env, c);
    var kept := begun.(inst := begun.inst.(buf := begun.inst.buf + [item]));
    TokensQuieter(env.uid, ts, begun, kept.inst);
    if Over(env.now, kept.inst) {
      TokensRestart(env, ts, kept);
    } else {
      TokensFetch(env, ts, kept);
    }
  }

  lemma TokensLose<B>(env: Env<B>, ts: set<Token>, c: Cell<B>, at: Cursor, item: Option<Pending>)
    requires CellTokensOk(env.uid, ts, c)
    ensures CellTokensOk(env.uid, ts, Lose(env, c, at, item))
  {
    var lost := c.(inst := Invalidate(RaiseFloor(c.inst.(synced := false, ob := None), at)));
    TokensQuieter(env.uid, ts, c, lost.inst);
    if item.Some? {
      TokensBuffer(env, ts, lost, item.value);
    } else {
      TokensFetch(env, ts, lost);
    }
  }

  lemma TokensPending<B>(env: Env<B>, ts: set<Token>, c: Cell<B>, item: Pending)
    requires CellTokensOk(env.uid, ts, c)
    ensures CellTokensOk(env.uid, ts, OnPending(env, c, item))
  {
    if !c.inst.synced {
      TokensBuffer(env, ts, c, item);
    } else if item.at != Next(c.inst.at) || c.inst.ob.None? {
      TokensLose(env, ts, c, item.at, Some(item));
    } else {
      var j := c.inst.(ob := Some(env.engine.apply(c.inst.ob.value, item.levels)), at := item.at);
      TokensQuieter(env.uid, ts, c, j);
      ArmedAppend(c.out, [Hook(Update(env.uid, item.at, item.mdTs, item.exchTs))]);
    }
  }

  lemma TokensSnapshot<B>(env: Env<B>, ts: set<Token>, c: Cell<B>, generation: nat, reply: Reply)
    requires CellTokensOk(env.uid, ts, c)
    ensures CellTokensOk(env.uid, ts, OnSnapshot(env, c, generation, reply))
  {
    hide Fold, BackOff;
    var d := c.(inst := c.inst.(inflight := false));
    TokensQuieter(env.uid, ts, c, d.inst);
    TokensBackOff(env, ts, d);
    if reply.Body? && Usable(env.tick) {
      var ob := env.engine.apply(env.engine.blank(env.tick.value.amount), reply.snap.levels);
      match Fold(env.engine, d.inst.buf, ob, reply.snap.at)
      case Whole(ob, at) => TokensQuieter(env.uid, ts, d, Install(d.inst, ob, at));
      case Hole(tail) =>
        var j := RaiseFloor(d.inst.(buf := tail), tail[0].at);
        TokensQuieter(env.uid, ts, d, j);
        TokensBackOff(env, ts, d.(inst := j));
    }
  }

  lemma TokensTimer<B>(env: Env<B>, ts: set<Token>, c: Cell<B>, token: Token)
    requires CellTokensOk(env.uid, ts, c)
    ensures CellTokensOk(env.uid, ts, OnTimer(env, c, token))
  {
    if token.kind.BufferAge? {
      TokensRestart(env, ts, c);
    } else {
      var j := c.inst.(backing := false, backoffId := 0);
      TokensQuieter(env.uid, ts, c, j);
      TokensFetch(env, ts, c.(inst := j));
    }
  }

  lemma TokensReset<B>(env: Env<B>, ts: set<Token>, c: Cell<B>, at: Cursor)
    requires CellTokensOk(env.uid, ts, c)
    ensures CellTokensOk(env.uid, ts, OnReset(env, c, at))
  {
    hide Fetch, MaxPending, Known;
    var i := c.inst.(synced := false, ob := None, buf := [], have := false, bufGen := c.inst.bufGen + 1, ageId := 0);
    var j := Invalidate(RaiseFloor(i, at));
    TokensQuieter(env.uid, ts, c, j);
    TokensFetch(env, ts, c.(inst := j));
  }

  lemma TokensStep<B>(env: Env<B>, ts: set<Token>, c: Cell<B>, e: Event)
    requires Acts(e) && CellTokensOk(env.uid, ts, c)
    ensures CellTokensOk(env.uid, ts, CellStep(env, c, e))
  {
    match e
    case DeltaEvent(_, d) =>
      if d.reset {
        TokensReset(env, ts, c, d.at);
      } else {
        TokensPending(env, ts, c, PendingOf(d));
      }
    case NonDelta(_, _, at) => TokensLose(env, ts, c, at, None);
    case SnapshotEvent(_, _, generation, reply) => TokensSnapshot(env, ts, c, generation, reply);
    case TimerEvent(_, token) => TokensTimer(env, ts, c, token);
  }

  // ---------- Backoff ----------

  /** The wait after the `k`-th failure in a row. */
  function WaitAfter(k: nat): nat {
    if k == 0 then 0
    else if TwoTo(k - 1) * BACKOFF_MIN <= BACKOFF_MAX then TwoTo(k - 1) * BACKOFF_MIN
    else BACKOFF_MAX
  }

  lemma GrowWait(k: nat)
    ensures Grow(WaitAfter(k)) == WaitAfter(k + 1)
  {
    if k > 0 && TwoTo(k - 1) * BACKOFF_MIN > BACKOFF_MAX {
      assert TwoTo(k) == 2 * TwoTo(k - 1);
    }
  }

  predicate IsBackoffArm(x: Effect) {
    x.ArmTimer? && x.token.kind.Backoff?
  }

  /** `b` continues `a` without a hook and without a backoff. */
  ghost predicate Quietly(a: seq<Effect>, b: seq<Effect>) {
    a <= b && forall k :: |a| <= k < |b| ==> !b[k].Hook? && !IsBackoffArm(b[k])
  }

  lemma QuietBuffer<B>(env: Env<B>, c: Cell<B>, item: Pending)
    ensures var d := BufferThenFetch(env, c, item);
            Quietly(c.out, d.out) && d.inst.wait == c.inst.wait && d.inst.synced == c.inst.synced
  {
  }

  lemma QuietLose<B>(env: Env<B>, c: Cell<B>, at: Cursor, item: Option<Pending>)
    ensures var d := Lose(env, c, at, item);
            Quietly(c.out, d.out) && d.inst.wait == c.inst.wait && !d.inst.synced
  {
    if item.Some? {
      QuietBuffer(env, c.(inst := Invalidate(RaiseFloor(c.inst.(synced := false, ob := None), at))), item.value);
    }
  }

  /** The failures in a row, once the instrument `i` has become `j` and the call has sent `out`. */
  ghost function FailuresAfter<B>(k: nat, i: Inst<B>, j: Inst<B>, out: seq<Effect>): nat {
    if j.synced && !i.synced then 0
    else if exists x :: x in out && IsBackoffArm(x) then k + 1
    else k
  }

  /** Every failure waits twice as long as the one before, from one second up to thirty. */
  lemma WaitStep<B>(env: Env<B>, c: Cell<B>, e: Event, k: nat)
    requires Acts(e) && Shape(c.inst) && c.out == [] && c.inst.wait == WaitAfter(k)
    ensures var d := CellStep(env, c, e);
            && d.inst.wait == WaitAfter(FailuresAfter(k, c.inst, d.inst, d.out))
            && forall x :: x in d.out && IsBackoffArm(x) ==> x.after == WaitAfter(k + 1) && !d.inst.synced
  {
    match e
    case DeltaEvent(_, d) =>
      WaitPending(env, c, PendingOf(d));
      assert d.reset ==> Quietly(c.out, OnReset(env, c, d.at).out);
    case NonDelta(_, _, at) => QuietLose(env, c, at, None);
    case SnapshotEvent(_, _, generation, reply) => WaitSnapshot(env, c, generation, reply, k);
    case TimerEvent(_, token) =>
  }

  lemma WaitPending<B>(env: Env<B>, c: Cell<B>, item: Pending)
    requires Shape(c.inst) && c.out == []
    ensures var d := OnPending(env, c, item);
            && d.inst.wait == c.inst.wait && (d.inst.synced ==> c.inst.synced)
            && forall x :: x in d.out ==> !IsBackoffArm(x)
  {
    hide BufferThenFetch, Lose;
    if c.inst.synced {
      QuietLose(env, c, item.at, Some(item));
    } else {
      QuietBuffer(env, c, item);
    }
  }

  lemma WaitSnapshot<B>(env: Env<B>, c: Cell<B>, generation: nat, reply: Reply, k: nat)
    requires Shape(c.inst) && c.out == [] && c.inst.wait == WaitAfter(k)
    ensures var d := OnSnapshot(env, c, generation, reply);
            && d.inst.wait == WaitAfter(FailuresAfter(k, c.inst, d.inst, d.out))
            && forall x :: x in d.out && IsBackoffArm(x) ==> x.after == WaitAfter(k + 1) && !d.inst.synced
  {
    GrowWait(k);
    var d := OnSnapshot(env, c, generation, reply);
    if d.out != [] {
      assert d.out[0] in d.out;
    }
  }
}
