/** What a reply, a delta that must wait, a reset and a fired timer lead to. */
module BookPathReplies {
  import opened Wrappers
  import opened BookPath
  import opened BookPathLaws
  import opened BookPathFeed

  // ---------- When the buffer continues a snapshot ----------

  /** The newest of `at` and the cursors of the buffer. */
  function Reach(at: Cursor, buf: seq<Pending>): Cursor {
    if buf == [] then at
    else
      var best, last := Reach(at, buf[..|buf| - 1]), buf[|buf| - 1].at;
      if Newer(last, best) then last else best
  }

  /** The `k`-th delta is old news where it stands, or the next one. */
  predicate Follows(at: Cursor, buf: seq<Pending>, k: nat)
    requires k < |buf|
  {
    !Newer(buf[k].at, Reach(at, buf[..k])) || buf[k].at == Next(Reach(at, buf[..k]))
  }

  ghost predicate Continuous(at: Cursor, buf: seq<Pending>) {
    forall k :: 0 <= k < |buf| ==> Follows(at, buf, k)
  }

  /** The first delta that does not continue. */
  ghost predicate FirstGap(at: Cursor, buf: seq<Pending>, h: nat) {
    h < |buf| && !Follows(at, buf, h) && forall k :: 0 <= k < h ==> Follows(at, buf, k)
  }

  /** The deltas that are not old news where they stand. */
  function News(at: Cursor, buf: seq<Pending>): seq<Pending> {
    if buf == [] then []
    else
      var init, last := buf[..|buf| - 1], buf[|buf| - 1];
      News(at, init) + if Newer(last.at, Reach(at, init)) then [last] else []
  }

  lemma {:induction false} ReachFirst(at: Cursor, buf: seq<Pending>)
    requires buf != []
    ensures Reach(at, buf) == Reach(if Newer(buf[0].at, at) then buf[0].at else at, buf[1..])
  {
    if |buf| == 1 {
      assert buf[..0] == [] && buf[1..] == [];
    } else {
      var init := buf[..|buf| - 1];
      ReachFirst(at, init);
      assert buf[1..][..|buf| - 2] == init[1..];
    }
  }

  /** Behind the first delta the rest continues as it would from there. */
  lemma ContinuesShift(at: Cursor, buf: seq<Pending>, k: nat)
    requires 0 < k < |buf|
    ensures Follows(at, buf, k) == Follows(if Newer(buf[0].at, at) then buf[0].at else at, buf[1..], k - 1)
  {
    hide Reach;
    ReachFirst(at, buf[..k]);
    assert buf[..k][1..] == buf[1..][..k - 1];
  }

  lemma ContinuesFirst(at: Cursor, buf: seq<Pending>)
    requires buf != []
    ensures Follows(at, buf, 0) <==> !Newer(buf[0].at, at) || buf[0].at == Next(at)
  {
    assert buf[..0] == [];
  }

  lemma {:induction false} NewsFirst(at: Cursor, buf: seq<Pending>)
    requires buf != []
    ensures var next := if Newer(buf[0].at, at) then buf[0].at else at;
            News(at, buf) == (if Newer(buf[0].at, at) then [buf[0]] else []) + News(next, buf[1..])
  {
    var n := |buf|;
    if n == 1 {
      assert buf[..0] == [] && buf[1..] == [];
    } else {
      var init := buf[..n - 1];
      NewsFirst(at, init);
      ReachFirst(at, init);
      assert buf[1..][..n - 2] == init[1..] && buf[1..][n - 2] == buf[n - 1];
    }
  }

  lemma {:induction false} ApplyFirst<B>(engine: Engine<B>, ob: B, p: Pending, more: seq<Pending>)
    ensures ApplyAll(engine, ob, [p] + more) == ApplyAll(engine, engine.apply(ob, p.levels), more)
  {
    var all := [p] + more;
    if more == [] {
      assert all[..0] == [] && all[0] == p;
    } else {
      ApplyFirst(engine, ob, p, more[..|more| - 1]);
      assert all[..|all| - 1] == [p] + more[..|more| - 1];
    }
  }

  /** A fold either comes through with everything new applied in order, or stops at the first gap. */
  lemma {:induction false} FoldExact<B>(engine: Engine<B>, buf: seq<Pending>, ob: B, at: Cursor) returns (h: nat)
    ensures match Fold(engine, buf, ob, at)
            case Whole(end, cursor) =>
              Continuous(at, buf) && cursor == Reach(at, buf) && end == ApplyAll(engine, ob, News(at, buf))
            case Hole(tail) => FirstGap(at, buf, h) && tail == buf[h..]
  {
    hide Reach, News, ApplyAll, Follows;
    h := 0;
    if buf == [] {
      ReachNothing(at);
      assert ApplyAll(engine, ob, News(at, [])) == ob by { NoNews(engine, ob, at); }
    } else {
      ContinuesFirst(at, buf);
      var rest := buf[1..];
      forall k | 0 < k < |buf|
        ensures Follows(at, buf, k) == Follows(if Newer(buf[0].at, at) then buf[0].at else at, rest, k - 1)
      {
        ContinuesShift(at, buf, k);
      }
      ReachFirst(at, buf);
      NewsFirst(at, buf);
      if !Newer(buf[0].at, at) {
        h := FoldExact(engine, rest, ob, at);
        h := StepOver(at, at, buf, rest, h);
        assert [] + News(at, rest) == News(at, rest);
      } else if buf[0].at == Next(at) {
        h := FoldExact(engine, rest, engine.apply(ob, buf[0].levels), buf[0].at);
        h := StepOver(at, buf[0].at, buf, rest, h);
        ApplyFirst(engine, ob, buf[0], News(buf[0].at, rest));
      } else {
        assert buf[0..] == buf;
      }
    }
  }

  lemma NoNews<B>(engine: Engine<B>, ob: B, at: Cursor)
    ensures ApplyAll(engine, ob, News(at, [])) == ob
  {
  }

  /** From the rest behind a first delta that continues to the whole buffer. */
  lemma StepOver(at: Cursor, next: Cursor, buf: seq<Pending>, rest: seq<Pending>, h: nat) returns (g: nat)
    requires buf != [] && rest == buf[1..] && Follows(at, buf, 0)
    requires forall k :: 0 < k < |buf| ==> Follows(at, buf, k) == Follows(next, rest, k - 1)
    ensures Continuous(next, rest) ==> Continuous(at, buf)
    ensures FirstGap(next, rest, h) ==> FirstGap(at, buf, g) && buf[g..] == rest[h..]
  {
    hide Follows;
    g := h + 1;
    if Continuous(next, rest) {
      forall k | 0 <= k < |buf| ensures Follows(at, buf, k) {
        assert k > 0 ==> Follows(next, rest, k - 1);
      }
    }
    if FirstGap(next, rest, h) {
      assert !Follows(at, buf, h + 1);
      forall k | 0 <= k < g ensures Follows(at, buf, k) {
        assert k > 0 ==> Follows(next, rest, k - 1);
      }
    }
  }

  lemma ReachNothing(at: Cursor)
    ensures Reach(at, []) == at
  {
  }

  /** A fold comes through exactly when nothing is missing, and then ends at the newest cursor. */
  lemma FoldWholeIff<B>(engine: Engine<B>, buf: seq<Pending>, ob: B, at: Cursor)
    ensures var f := Fold(engine, buf, ob, at);
            (f.Whole? <==> Continuous(at, buf)) && (f.Whole? ==> f.at == Reach(at, buf))
  {
    hide Fold, Reach, News, Follows;
    var h := FoldExact(engine, buf, ob, at);
  }

  // ---------- A reply that is heard ----------

  /** The reply is a snapshot of this instrument and not behind the feed. */
  predicate Current<B>(uid: nat, i: Inst<B>, reply: Reply) {
    reply.Body? && Names(reply.snap, uid) && (i.floor.Some? ==> !Newer(i.floor.value, reply.snap.at))
  }

  /** The reply can become the book: it is of this instrument, not behind the feed, and nothing is missing behind it. */
  ghost predicate Acceptable<B>(uid: nat, i: Inst<B>, reply: Reply) {
    Current(uid, i, reply) && Continuous(reply.snap.at, i.buf)
  }

  /** How long the next backoff lasts after one of `wait`, in nanoseconds. */
  function Longer(wait: nat): nat {
    if wait == 0 then 1_000_000_000 else if wait <= 15_000_000_000 then 2 * wait else 30_000_000_000
  }

  /** The instrument once a read for it has failed: it backs off, and nothing else about it changes. */
  function FailedRead<B>(i: Inst<B>, id: nat): Inst<B> {
    i.(inflight := false, backing := true, wait := Longer(i.wait), backoffId := id)
  }

  /**
   What a reply that is waited for leaves behind, field by field.  A read that fails, or is not
   current, keeps buffer and floor as they are; a gap keeps the buffer from the first delta that does
   not continue, with its cursor as the floor; an acceptable snapshot becomes the book with every new
   delta of the buffer applied to it in order.
   */
  lemma ReplyLeaves<B>(env: Env<B>, c: Cell<B>, reply: Reply)
    requires Shape(c.inst) && c.inst.inflight && !env.closed
    ensures var i, j := c.inst, OnSnapshot(env, c, c.inst.generation, reply).inst;
            if !Current(env.uid, i, reply) then j == FailedRead(i, c.nextTimer + 1)
            else if !Usable(env.tick) then j == i.(inflight := false)
            else
              var at := reply.snap.at;
              var ob := env.engine.apply(env.engine.blank(env.tick.value.amount), reply.snap.levels);
              if Continuous(at, i.buf) then
                j == i.(inflight := false, synced := true, ob := Some(ApplyAll(env.engine, ob, News(at, i.buf))),
                        at := Reach(at, i.buf), buf := [], have := false, floor := None, wait := 0)
              else
                exists h: nat :: FirstGap(at, i.buf, h)
                  && j == FailedRead(i, c.nextTimer + 1).(buf := i.buf[h..], floor := Some(i.buf[h].at))
  {
    hide Fold, Reach, News, Follows, ApplyAll;
    if Current(env.uid, c.inst, reply) && Usable(env.tick) {
      var ob := env.engine.apply(env.engine.blank(env.tick.value.amount), reply.snap.levels);
      var h := FoldExact(env.engine, c.inst.buf, ob, reply.snap.at);
      if Fold(env.engine, c.inst.buf, ob, reply.snap.at).Hole? {
        GapIsPast(reply.snap.at, c.inst.buf, h);
      }
    }
  }

  lemma {:induction false} ReachGrows(at: Cursor, buf: seq<Pending>)
    ensures AtLeast(Reach(at, buf), at)
  {
    if buf != [] {
      ReachGrows(at, buf[..|buf| - 1]);
    }
  }

  lemma GapIsPast(at: Cursor, buf: seq<Pending>, h: nat)
    requires FirstGap(at, buf, h)
    ensures Newer(buf[h].at, at) && !Continuous(at, buf)
  {
    ReachGrows(at, buf[..h]);
  }

  /**
   A reply that is waited for settles the request.  The instrument is synced exactly when the tick
   is usable and the reply acceptable, at the newest cursor known.  A failed read backs off; a reply
   that only the tick stands against leaves the instrument idle with what it has buffered.
   */
  lemma ReplySettles<B>(env: Env<B>, c: Cell<B>, reply: Reply)
    requires Shape(c.inst) && c.inst.inflight && !env.closed
    ensures var i := OnSnapshot(env, c, c.inst.generation, reply).inst;
            && !i.inflight && i.generation == c.inst.generation
            && (i.synced <==> Usable(env.tick) && Acceptable(env.uid, c.inst, reply))
            && (i.backing <==> if Usable(env.tick) then !Acceptable(env.uid, c.inst, reply)
                               else !Current(env.uid, c.inst, reply))
            && (i.synced ==> i.at == Reach(reply.snap.at, c.inst.buf))
            && (!i.synced && !i.backing ==> i == c.inst.(inflight := false))
  {
    hide Fold, Reach, Continuous, News, ApplyAll, OnSnapshot;
    ReplyLeaves(env, c, reply);
  }

  // ---------- A delta that must wait ----------

  /**
   An unsynced instrument keeps a delta behind those it has, until there are ten thousand of them
   or the first has waited ten seconds; then it drops them all, remembers the newest cursor and
   starts a new request.
   */
  lemma DeltaWaits<B>(env: Env<B>, c: Cell<B>, item: Pending)
    requires Shape(c.inst) && !c.inst.synced && Usable(env.tick) && !env.closed
    ensures var d := OnPending(env, c, item);
            var since := if c.inst.buf == [] then env.now else c.inst.bufAt;
            if |c.inst.buf| + 1 < 10_000 && env.now - since < 10_000_000_000 then
              && d.inst.buf == c.inst.buf + [item] && d.inst.bufAt == since && d.inst.floor == c.inst.floor
              && d.inst.generation == c.inst.generation && (d.inst.inflight || d.inst.backing)
            else
              && d.inst.buf == [] && UpTo(Some(item.at), d.inst.floor)
              && d.inst.generation == c.inst.generation + 1 && d.inst.inflight
  {
    TopBuffer(env, c, item);
  }

  // ---------- A delta or a non-delta on a synced book ----------

  /** A delta no newer than the book does nothing at all. */
  lemma OldDeltaIgnored<B>(env: Env<B>, c: Cell<B>, d: Delta, now: int)
    requires Shape(c.inst) && c.inst.synced && !Newer(d.at, c.inst.at)
    ensures CellStep(env, c, DeltaEvent(now, d)) == c
  {
  }

  /** The next delta changes the book and the cursor, and nothing else about the instrument. */
  lemma NextDeltaApplies<B>(env: Env<B>, c: Cell<B>, d: Delta, now: int)
    requires Shape(c.inst) && c.inst.synced && Usable(env.tick) && !d.reset && d.at == Next(c.inst.at)
    ensures CellStep(env, c, DeltaEvent(now, d)).inst ==
              c.inst.(ob := Some(env.engine.apply(c.inst.ob.value, d.levels)), at := d.at)
  {
  }

  /**
   A delta past the next one gives up the book: it becomes the whole buffer, its cursor the floor,
   the buffer's timer starts, and a snapshot is asked for under a new generation.
   */
  lemma GapLoses<B>(env: Env<B>, c: Cell<B>, d: Delta, now: int)
    requires Shape(c.inst) && c.inst.synced && Usable(env.tick) && !env.closed && !d.reset
    requires Newer(d.at, c.inst.at) && d.at != Next(c.inst.at)
    ensures var i, w, id := c.inst, CellStep(env, c, DeltaEvent(now, d)), c.nextTimer + 1;
            && w.inst == i.(synced := false, ob := None, floor := Some(d.at),
                            buf := [Pending(d.at, d.mdTs, d.exchTs, d.levels)], have := true, bufAt := env.now,
                            bufGen := i.bufGen + 1, ageId := id,
                            generation := i.generation + 1, inflight := true)
            && w.nextTimer == id
            && w.out == c.out + [ArmTimer(Token(env.uid, BufferAge, i.bufGen + 1, id), 10_000_000_000,
                                          Deadline(env.now, 10_000_000_000)),
                                 RequestSnapshot(env.uid, i.generation + 1, env.recv)]
  {
  }

  /** A non-delta gives up the book, keeps the buffer, raises the floor to its cursor, and asks anew. */
  lemma NonDeltaLoses<B>(env: Env<B>, c: Cell<B>, at: Cursor, now: int)
    requires Shape(c.inst) && Usable(env.tick) && !env.closed
    ensures var i, w := c.inst, CellStep(env, c, NonDelta(now, env.uid, at));
            && w.inst == i.(synced := false, ob := None,
                            floor := if i.floor.Some? && AtLeast(i.floor.value, at) then i.floor else Some(at),
                            generation := i.generation + 1, inflight := true, backing := false)
            && w.out == c.out + [RequestSnapshot(env.uid, i.generation + 1, env.recv)]
            && w.nextTimer == c.nextTimer
  {
  }

  // ---------- A reset ----------

  /**
   A reset acts exactly when it is newer than the book, or than all an unsynced instrument has seen.
   It then gives up book and buffer, leaves its own cursor as the floor, and asks anew.
   */
  lemma ResetActsIffNewer<B>(env: Env<B>, c: Cell<B>, at: Cursor)
    requires Shape(c.inst)
    ensures var known := if c.inst.synced then Some(c.inst.at) else Top(c.inst);
            if known.Some? && AtLeast(known.value, at) then OnReset(env, c, at) == c
            else
              var i, w := c.inst, OnReset(env, c, at);
              var asks := !env.closed && Usable(env.tick);
              && w.inst == i.(synced := false, ob := None, buf := [], have := false, bufGen := i.bufGen + 1, ageId := 0,
                              floor := Some(at), generation := i.generation + 1, inflight := asks, backing := false)
              && w.out == c.out + (if asks then [RequestSnapshot(env.uid, i.generation + 1, env.recv)] else [])
              && w.nextTimer == c.nextTimer
  {
  }

  // ---------- A fired timer ----------

  /**
   A buffer that waited too long is dropped and its newest cursor kept; a backoff that is over ends.
   Either asks for a snapshot exactly when the tick is usable, and leaves an idle instrument if not.
   */
  lemma FiringActs<B>(env: Env<B>, c: Cell<B>, token: Token)
    requires Shape(c.inst) && !env.closed && Fires(env.now, c.inst, token)
    requires token.kind.Backoff? ==> c.inst.backing
    ensures var i := OnTimer(env, c, token).inst;
            && (i.inflight <==> Usable(env.tick)) && !i.backing && !i.synced
            && if token.kind.BufferAge? then i.buf == [] && i.floor == Top(c.inst) else i.buf == c.inst.buf
  {
    MaxPendingBounds(c.inst.buf);
  }
}
