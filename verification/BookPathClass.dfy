/** The book path as the program keeps it: one object whose methods update its instruments in place. */
module BookPathClass {
  import opened Wrappers
  import opened OrderBook
  import Spec = BookPath
  import opened BookPath

  /** One turn of the fold's loop. */
  lemma FoldAt<B>(engine: Engine<B>, buf: seq<Pending>, k: nat, ob: B, at: Cursor)
    requires k < |buf|
    ensures Fold(engine, buf[k..], ob, at) ==
              if !Newer(buf[k].at, at) then Fold(engine, buf[k + 1..], ob, at)
              else if buf[k].at != Next(at) then Hole(buf[k..])
              else Fold(engine, buf[k + 1..], engine.apply(ob, buf[k].levels), buf[k].at)
  {
    assert buf[k..][1..] == buf[k + 1..];
  }

  lemma FoldEnd<B>(engine: Engine<B>, buf: seq<Pending>, ob: B, at: Cursor)
    ensures Fold(engine, buf[|buf|..], ob, at) == Whole(ob, at)
  {
  }

  class Path<B> {
    const cfg: Config<B>
    var now: int
    var ticks: map<nat, Size>
    var insts: map<nat, Inst<B>>
    var closed: bool
    var nextTimer: nat
    /** Every event so far. */
    ghost var events: seq<Event>

    ghost function Abs(): State<B>
      reads this
    {
      State(now, ticks, insts, closed, nextTimer)
    }

    /** The object stands where the run of its events ends. */
    ghost predicate Valid()
      reads this
    {
      Abs() == Run(cfg, events)
    }

    ghost function EnvNow(uid: nat): Env<B>
      reads this
    {
      EnvOf(cfg, Abs(), uid, now)
    }

    ghost function Here(uid: nat, out: seq<Effect>): Cell<B>
      reads this
      requires uid in insts
    {
      Cell(insts[uid], nextTimer, out)
    }

    /** Instrument `uid` has become what `c` says and nothing else has changed. */
    twostate predicate Became(uid: nat, c: Cell<B>, out: seq<Effect>)
      reads this
    {
      insts == old(insts)[uid := c.inst] && nextTimer == c.nextTimer && out == c.out
    }

    constructor (cfg: Config<B>)
      ensures Valid() && this.cfg == cfg && events == []
    {
      this.cfg := cfg;
      now, ticks, insts, closed, nextTimer := 0, map[], map[], false, 0;
      events := [];
    }

    // ---------- What the host calls ----------

    method Resolve(uid: nat, tick: Size)
      requires Valid()
      modifies this
      ensures Valid() && events == old(events) + [Event.Resolve(uid, tick)]
    {
      ticks := ticks[uid := tick];
      Record(Event.Resolve(uid, tick), old(Abs()));
    }

    method Forget(uid: nat)
      requires Valid()
      modifies this
      ensures Valid() && events == old(events) + [Event.Forget(uid)]
    {
      ticks := ticks - {uid};
      Record(Event.Forget(uid), old(Abs()));
    }

    method Close()
      requires Valid()
      modifies this
      ensures Valid() && events == old(events) + [Event.Close]
      ensures forall uid: nat :: View(Abs(), uid).None?
    {
      closed := true;
      Record(Event.Close, old(Abs()));
    }

    method ReadView(uid: nat) returns (ob: Option<B>)
      requires Valid()
      ensures ob == View(Abs(), uid)
    {
      if closed || uid !in insts || !insts[uid].synced {
        return None;
      }
      ob := insts[uid].ob;
    }

    method OnDelta(nowNs: int, delta: Delta) returns (out: seq<Effect>)
      requires Valid()
      modifies this
      ensures Valid() && events == old(events) + [DeltaEvent(nowNs, delta)]
      ensures out == Step(cfg, old(Abs()), DeltaEvent(nowNs, delta)).1
    {
      hide Spec.OnPending, Spec.OnReset;
      out := [];
      now := nowNs;
      if !closed && delta.uid != 0 {
        Ensure(delta.uid);
        if Usable(Tick(delta.uid)) {
          if delta.reset {
            out := OnReset(delta.uid, delta.at, out);
          } else {
            out := OnPending(delta.uid, PendingOf(delta), out);
          }
        }
      }
      Record(DeltaEvent(nowNs, delta), old(Abs()));
    }

    method OnNonDelta(nowNs: int, uid: nat, at: Cursor) returns (out: seq<Effect>)
      requires Valid()
      modifies this
      ensures Valid() && events == old(events) + [NonDelta(nowNs, uid, at)]
      ensures out == Step(cfg, old(Abs()), NonDelta(nowNs, uid, at)).1
    {
      out := [];
      now := nowNs;
      if !closed && uid != 0 {
        Ensure(uid);
        if Usable(Tick(uid)) {
          out := Lose(uid, at, None, out);
        }
      }
      Record(NonDelta(nowNs, uid, at), old(Abs()));
    }

    method OnSnapshot(nowNs: int, uid: nat, generation: nat, reply: Reply) returns (out: seq<Effect>)
      requires Valid()
      modifies this
      ensures Valid() && events == old(events) + [SnapshotEvent(nowNs, uid, generation, reply)]
      ensures out == Step(cfg, old(Abs()), SnapshotEvent(nowNs, uid, generation, reply)).1
    {
      out := [];
      now := nowNs;
      if !closed && uid in insts {
        out := Accept(uid, generation, reply, out);
      }
      Record(SnapshotEvent(nowNs, uid, generation, reply), old(Abs()));
    }

    method OnTimer(nowNs: int, token: Token) returns (out: seq<Effect>)
      requires Valid()
      modifies this
      ensures Valid() && events == old(events) + [TimerEvent(nowNs, token)]
      ensures out == Step(cfg, old(Abs()), TimerEvent(nowNs, token)).1
    {
      out := [];
      now := nowNs;
      if !closed && token.uid in insts {
        if token.kind.BufferAge? {
          out := OnBufferAge(token, out);
        } else {
          out := OnBackoff(token, out);
        }
      }
      Record(TimerEvent(nowNs, token), old(Abs()));
    }

    // ---------- What the calls are made of ----------
    // These run only for an instrument the caller has just looked up.

    /** Adds `e` to the history once the fields have taken its step. */
    ghost method Record(e: Event, was: State<B>)
      requires was == Run(cfg, events) && Abs() == Step(cfg, was, e).0
      modifies this`events
      ensures Valid() && events == old(events) + [e]
    {
      assert (events + [e])[..|events|] == events;
      events := events + [e];
    }

    function Tick(uid: nat): (t: Option<Size>)
      reads this
      ensures t == TickOf(Abs(), uid)
    {
      if uid in ticks then Some(ticks[uid]) else None
    }

    method Ensure(uid: nat)
      modifies this`insts
      ensures insts == old(insts)[uid := Of(old(Abs()), uid)]
    {
      if uid !in insts {
        insts := insts[uid := NewInst()];
      }
    }

    method Invalidate(uid: nat)
      requires uid in insts
      modifies this`insts
      ensures insts == old(insts)[uid := Spec.Invalidate(old(insts[uid]))]
    {
      var i := insts[uid];
      insts := insts[uid := i.(generation := i.generation + 1, inflight := false, backing := false)];
    }

    method RaiseFloor(uid: nat, at: Cursor)
      requires uid in insts
      modifies this`insts
      ensures insts == old(insts)[uid := Spec.RaiseFloor(old(insts[uid]), at)]
    {
      var i := insts[uid];
      if i.floor.Some? && !Newer(at, i.floor.value) {
        assert insts == insts[uid := i];
        return;
      }
      insts := insts[uid := i.(floor := Some(at))];
    }

    static method MaxPending(buf: seq<Pending>) returns (best: Option<Cursor>)
      ensures best == Spec.MaxPending(buf)
    {
      if buf == [] {
        return None;
      }
      var top := buf[0].at;
      for k := 1 to |buf|
        invariant Some(top) == Spec.MaxPending(buf[..k])
      {
        assert buf[..k + 1][..k] == buf[..k];
        if Newer(buf[k].at, top) {
          top := buf[k].at;
        }
      }
      assert buf[..|buf|] == buf;
      best := Some(top);
    }

    method DropBuf(uid: nat)
      requires uid in insts
      modifies this`insts
      ensures insts == old(insts)[uid := Spec.DropBuf(old(insts[uid]))]
    {
      var i := insts[uid];
      var top := MaxPending(i.buf);
      insts := insts[uid := i.(buf := [], have := false, bufGen := i.bufGen + 1, ageId := 0)];
      if top.Some? {
        RaiseFloor(uid, top.value);
      }
    }

    /** `mint_timer` and `arm_effect`: records the arm and appends it to the effects. */
    method Arm(uid: nat, kind: TimerKind, generation: nat, after: nat, sent: seq<Effect>) returns (out: seq<Effect>)
      requires uid in insts
      modifies this`insts, this`nextTimer
      ensures Became(uid, Spec.Arm(EnvNow(uid), old(Here(uid, sent)), kind, generation, after), out)
    {
      nextTimer := nextTimer + 1;
      var id := nextTimer;
      var i := insts[uid];
      if kind.BufferAge? {
        insts := insts[uid := i.(ageId := id)];
      } else {
        insts := insts[uid := i.(backoffId := id)];
      }
      out := sent + [ArmTimer(Token(uid, kind, generation, id), after, Deadline(now, after))];
    }

    method Fetch(uid: nat, sent: seq<Effect>) returns (out: seq<Effect>)
      requires uid in insts
      modifies this`insts
      ensures Became(uid, Spec.Fetch(EnvNow(uid), old(Here(uid, sent))), out)
    {
      out := sent;
      var i := insts[uid];
      assert insts == insts[uid := i];
      if closed || i.backing || i.inflight || !Usable(Tick(uid)) {
        return;
      }
      insts := insts[uid := i.(inflight := true)];
      out := sent + [RequestSnapshot(uid, i.generation, cfg.recv)];
    }

    method BackOff(uid: nat, sent: seq<Effect>) returns (out: seq<Effect>)
      requires uid in insts
      modifies this`insts, this`nextTimer
      ensures Became(uid, Spec.BackOff(EnvNow(uid), old(Here(uid, sent))), out)
    {
      out := sent;
      var i := insts[uid];
      assert insts == insts[uid := i];
      if closed || i.backing {
        return;
      }
      var wait := Grow(i.wait);
      insts := insts[uid := i.(wait := wait, backing := true)];
      out := Arm(uid, Backoff, i.generation, wait, sent);
    }

    method Over(uid: nat) returns (over: bool)
      requires uid in insts
      ensures over == Spec.Over(now, insts[uid])
    {
      var i := insts[uid];
      over := |i.buf| >= BUFFER_MAX || (i.have && AgeReached(now, i.bufAt, BUFFER_AGE));
    }

    method Restart(uid: nat, sent: seq<Effect>) returns (out: seq<Effect>)
      requires uid in insts
      modifies this`insts
      ensures Became(uid, Spec.Restart(EnvNow(uid), old(Here(uid, sent))), out)
    {
      DropBuf(uid);
      Invalidate(uid);
      out := Fetch(uid, sent);
    }

    method Open(uid: nat, sent: seq<Effect>) returns (out: seq<Effect>)
      requires uid in insts
      modifies this`insts, this`nextTimer
      ensures Became(uid, Spec.Open(EnvNow(uid), old(Here(uid, sent))), out)
    {
      hide Spec.Arm;
      out := sent;
      var i := insts[uid];
      assert insts == insts[uid := i];
      if !i.have {
        insts := insts[uid := i.(bufGen := i.bufGen + 1, bufAt := now, have := true)];
        out := Arm(uid, BufferAge, i.bufGen + 1, BUFFER_AGE, out);
      }
    }

    method Buffer(uid: nat, item: Pending, sent: seq<Effect>) returns (out: seq<Effect>, started: bool)
      requires uid in insts
      modifies this`insts, this`nextTimer
      ensures var (c, s) := Spec.Buffer(EnvNow(uid), old(Here(uid, sent)), item); Became(uid, c, out) && started == s
    {
      hide Spec.Open, Spec.Restart, Spec.Over;
      out := Open(uid, sent);
      var i := insts[uid];
      insts := insts[uid := i.(buf := i.buf + [item])];
      started := Over(uid);
      if started {
        out := Restart(uid, out);
      }
    }

    method BufferThenFetch(uid: nat, item: Pending, sent: seq<Effect>) returns (out: seq<Effect>)
      requires uid in insts
      modifies this`insts, this`nextTimer
      ensures Became(uid, Spec.BufferThenFetch(EnvNow(uid), old(Here(uid, sent)), item), out)
    {
      var started;
      out, started := Buffer(uid, item, sent);
      if !started {
        out := Fetch(uid, out);
      }
    }

    method Lose(uid: nat, at: Cursor, item: Option<Pending>, sent: seq<Effect>) returns (out: seq<Effect>)
      requires uid in insts
      modifies this`insts, this`nextTimer
      ensures Became(uid, Spec.Lose(EnvNow(uid), old(Here(uid, sent)), at, item), out)
    {
      insts := insts[uid := insts[uid].(synced := false, ob := None)];
      RaiseFloor(uid, at);
      Invalidate(uid);
      if item.Some? {
        out := BufferThenFetch(uid, item.value, sent);
      } else {
        out := Fetch(uid, sent);
      }
    }

    method OnPending(uid: nat, item: Pending, sent: seq<Effect>) returns (out: seq<Effect>)
      requires uid in insts
      modifies this`insts, this`nextTimer
      ensures Became(uid, Spec.OnPending(EnvNow(uid), old(Here(uid, sent)), item), out)
    {
      out := sent;
      var i := insts[uid];
      assert insts == insts[uid := i];
      if !i.synced {
        out := BufferThenFetch(uid, item, sent);
        return;
      }
      if !Newer(item.at, i.at) {
        return;
      }
      if item.at != Next(i.at) || i.ob.None? {
        out := Lose(uid, item.at, Some(item), sent);
        return;
      }
      insts := insts[uid := i.(ob := Some(cfg.engine.apply(i.ob.value, item.levels)), at := item.at)];
      if Within(now, item.mdTs, cfg.recv) {
        out := sent + [Hook(Update(uid, item.at, item.mdTs, item.exchTs))];
      }
    }

    method OnReset(uid: nat, at: Cursor, sent: seq<Effect>) returns (out: seq<Effect>)
      requires uid in insts
      modifies this`insts
      ensures Became(uid, Spec.OnReset(EnvNow(uid), old(Here(uid, sent)), at), out)
    {
      var i := insts[uid];
      assert insts == insts[uid := i];
      hide Spec.MaxPending, Spec.Fetch;
      var top := MaxPending(i.buf);
      var stale := if i.synced then !Newer(at, i.at)
                   else (i.floor.Some? && !Newer(at, i.floor.value)) || (top.Some? && !Newer(at, top.value));
      if stale {
        return sent;
      }
      insts := insts[uid := i.(synced := false, ob := None, buf := [], have := false,
                               bufGen := i.bufGen + 1, ageId := 0)];
      RaiseFloor(uid, at);
      Invalidate(uid);
      out := Fetch(uid, sent);
    }

    /** Applies the buffer behind a snapshot; a hole keeps the tail and raises the floor to it. */
    method FoldBuffer(uid: nat, snapshot: B, from: Cursor) returns (whole: Option<(B, Cursor)>)
      requires uid in insts
      modifies this`insts
      ensures var i := old(insts[uid]);
              match Fold(cfg.engine, i.buf, snapshot, from)
              case Whole(ob, at) =>
                whole == Some((ob, at)) && insts == old(insts)[uid := i.(buf := [], have := false)]
              case Hole(tail) =>
                whole == None && insts == old(insts)[uid := Spec.RaiseFloor(i.(buf := tail), tail[0].at)]
    {
      hide Spec.RaiseFloor, Fold;
      var i := insts[uid];
      var buf := i.buf;
      insts := insts[uid := i.(buf := [])];
      var ob, at := snapshot, from;
      var index := 0;
      assert buf[0..] == buf;
      while index < |buf|
        invariant 0 <= index <= |buf|
        invariant insts == old(insts)[uid := i.(buf := [])]
        invariant Fold(cfg.engine, buf, snapshot, from) == Fold(cfg.engine, buf[index..], ob, at)
      {
        FoldAt(cfg.engine, buf, index, ob, at);
        if !Newer(buf[index].at, at) {
          index := index + 1;
          continue;
        }
        if buf[index].at != Next(at) {
          var tail := buf[index..];
          insts := insts[uid := insts[uid].(buf := tail)];
          RaiseFloor(uid, buf[index].at);
          return None;
        }
        ob := cfg.engine.apply(ob, buf[index].levels);
        at := buf[index].at;
        index := index + 1;
      }
      FoldEnd(cfg.engine, buf, ob, at);
      insts := insts[uid := insts[uid].(have := false)];
      whole := Some((ob, at));
    }

    method Accept(uid: nat, generation: nat, reply: Reply, sent: seq<Effect>) returns (out: seq<Effect>)
      requires uid in insts
      modifies this`insts, this`nextTimer
      ensures Became(uid, Spec.OnSnapshot(EnvNow(uid), old(Here(uid, sent)), generation, reply), out)
    {
      hide Spec.BackOff, Spec.Adopt;
      out := sent;
      var i := insts[uid];
      assert insts == insts[uid := i];
      if !(i.generation == generation && i.inflight) {
        return;
      }
      insts := insts[uid := i.(inflight := false)];
      if !reply.Body? || (reply.snap.uid != 0 && reply.snap.uid != uid) {
        out := BackOff(uid, out);
        return;
      }
      var snap := reply.snap;
      if i.floor.Some? && !AtLeast(snap.at, i.floor.value) {
        out := BackOff(uid, out);
        return;
      }
      if !Usable(Tick(uid)) {
        return;
      }
      out := Adopt(uid, snap, out);
    }

    method Adopt(uid: nat, snap: Snapshot, sent: seq<Effect>) returns (out: seq<Effect>)
      requires uid in insts && Usable(Tick(uid))
      modifies this`insts, this`nextTimer
      ensures Became(uid, Spec.Adopt(EnvNow(uid), old(Here(uid, sent)), snap), out)
    {
      hide Fold, Spec.BackOff, Spec.RaiseFloor;
      out := sent;
      var ob := cfg.engine.apply(cfg.engine.blank(Tick(uid).value.amount), snap.levels);
      var whole := FoldBuffer(uid, ob, snap.at);
      if whole.None? {
        out := BackOff(uid, out);
        return;
      }
      var (book, at) := whole.value;
      insts := insts[uid := insts[uid].(ob := Some(book), synced := true, at := at, floor := None, wait := 0)];
    }

    method OnBufferAge(token: Token, sent: seq<Effect>) returns (out: seq<Effect>)
      requires token.uid in insts && token.kind.BufferAge?
      modifies this`insts
      ensures Became(token.uid, Spec.OnTimer(EnvNow(token.uid), old(Here(token.uid, sent)), token), out)
    {
      var i := insts[token.uid];
      assert insts == insts[token.uid := i];
      if !(i.ageId == token.id && i.bufGen == token.generation && i.have && AgeReached(now, i.bufAt, BUFFER_AGE)) {
        return sent;
      }
      out := Restart(token.uid, sent);
    }

    method OnBackoff(token: Token, sent: seq<Effect>) returns (out: seq<Effect>)
      requires token.uid in insts && token.kind.Backoff?
      modifies this`insts
      ensures Became(token.uid, Spec.OnTimer(EnvNow(token.uid), old(Here(token.uid, sent)), token), out)
    {
      var i := insts[token.uid];
      assert insts == insts[token.uid := i];
      if !(i.backoffId == token.id && i.generation == token.generation) {
        return sent;
      }
      insts := insts[token.uid := i.(backing := false, backoffId := 0)];
      out := Fetch(token.uid, sent);
    }
  }
}
