/** How the book follows the feed: never behind it, hook by hook, and what it was built from. */
module BookPathFeed {
  import opened Wrappers
  import opened OrderBook
  import opened BookPath
  import opened BookPathLaws

  // ---------- Cursors ----------

  function MaxCursor(a: Option<Cursor>, b: Option<Cursor>): Option<Cursor> {
    if a.None? then b
    else if b.Some? && Newer(b.value, a.value) then b
    else a
  }

  /** Nothing in `a` is newer than `b`. */
  predicate UpTo(a: Option<Cursor>, b: Option<Cursor>) {
    a.Some? ==> b.Some? && AtLeast(b.value, a.value)
  }

  lemma {:induction false} MaxPendingBounds(buf: seq<Pending>)
    ensures buf == [] <==> MaxPending(buf).None?
    ensures forall p :: p in buf ==> AtLeast(MaxPending(buf).value, p.at)
    ensures buf != [] ==> exists p :: p in buf && p.at == MaxPending(buf).value
  {
    if buf != [] {
      var init, last := buf[..|buf| - 1], buf[|buf| - 1];
      MaxPendingBounds(init);
      assert buf == init + [last];
      assert last in buf;
      if MaxPending(buf).value != last.at {
        var p :| p in init && p.at == MaxPending(init).value;
        assert p in buf;
      }
    }
  }

  // ---------- Never behind the feed ----------

  /** The newest cursor an unsynced instrument insists on reaching. */
  function Top<B>(i: Inst<B>): Option<Cursor> {
    MaxCursor(i.floor, MaxPending(i.buf))
  }

  /** What the instrument stands at, or insists on reaching. */
  function KnownAt<B>(i: Inst<B>): Option<Cursor> {
    if i.synced then Some(i.at) else Top(i)
  }

  /** `shown` is the newest cursor the feed or an installed book has shown so far. */
  ghost predicate Covers<B>(i: Inst<B>, shown: Option<Cursor>) {
    if i.synced then shown == Some(i.at) else UpTo(shown, Top(i))
  }

  function CursorOf(e: Event): Cursor
    requires Feeds(e)
  {
    if e.DeltaEvent? then e.delta.at else e.at
  }

  /** `shown`, once the event `e` has turned the instrument into `j`. */
  function ShownAfter<B>(shown: Option<Cursor>, tick: Option<Size>, e: Event, j: Inst<B>): Option<Cursor> {
    var fed := if Feeds(e) && Usable(tick) then MaxCursor(shown, Some(CursorOf(e))) else shown;
    if j.synced then MaxCursor(fed, Some(j.at)) else fed
  }

  lemma TopRaise<B>(i: Inst<B>, at: Cursor)
    ensures UpTo(Top(i), Top(RaiseFloor(i, at))) && UpTo(Some(at), Top(RaiseFloor(i, at)))
  {
  }

  lemma TopDrop<B>(i: Inst<B>)
    ensures UpTo(Top(i), Top(DropBuf(i)))
  {
  }

  lemma TopAppend<B>(i: Inst<B>, item: Pending)
    ensures var j := i.(buf := i.buf + [item]); UpTo(Top(i), Top(j)) && UpTo(Some(item.at), Top(j))
  {
    assert (i.buf + [item])[..|i.buf|] == i.buf;
  }

  lemma TopFetch<B>(env: Env<B>, c: Cell<B>)
    ensures Top(Fetch(env, c).inst) == Top(c.inst) && Fetch(env, c).inst.synced == c.inst.synced
  {
  }

  lemma TopRestart<B>(env: Env<B>, c: Cell<B>)
    ensures var j := Restart(env, c).inst; UpTo(Top(c.inst), Top(j)) && j.synced == c.inst.synced
  {
    var d := DropBuf(c.inst);
    TopDrop(c.inst);
    assert Top(Invalidate(d)) == Top(d);
    TopFetch(env, c.(inst := Invalidate(d)));
  }

  lemma TopOpen<B>(env: Env<B>, c: Cell<B>)
    ensures Top(Open(env, c).inst) == Top(c.inst) && Open(env, c).inst.synced == c.inst.synced
  {
  }

  lemma TopBuffer<B>(env: Env<B>, c: Cell<B>, item: Pending)
    ensures var j := BufferThenFetch(env, c, item).inst;
            j.synced == c.inst.synced && UpTo(Top(c.inst), Top(j)) && UpTo(Some(item.at), Top(j))
  {
    hide Open, Fetch, Restart, Top, Over;
    var begun := Open(env, c);
    var kept := begun.(inst := begun.inst.(buf := begun.inst.buf + [item]));
    TopOpen(env, c);
    TopAppend(begun.inst, item);
    if Over(env.now, kept.inst) {
      TopRestart(env, kept);
    } else {
      TopFetch(env, kept);
    }
  }

  lemma TopLose<B>(env: Env<B>, c: Cell<B>, at: Cursor, item: Option<Pending>)
    requires item.Some? ==> item.value.at == at
    ensures var j := Lose(env, c, at, item).inst;
            !j.synced && UpTo(Top(c.inst), Top(j)) && UpTo(Some(at), Top(j))
  {
    var i := c.inst.(synced := false, ob := None);
    assert Top(i) == Top(c.inst);
    TopRaise(i, at);
    if item.Some? {
      TopBuffer(env, c.(inst := Invalidate(RaiseFloor(i, at))), item.value);
    }
  }

  /** Where a fold ends is at or past everything it went through. */
  lemma {:induction false} FoldReaches<B>(engine: Engine<B>, buf: seq<Pending>, ob: B, at: Cursor)
    ensures match Fold(engine, buf, ob, at)
            case Whole(_, end) => AtLeast(end, at) && forall p :: p in buf ==> AtLeast(end, p.at)
            case Hole(tail) =>
              AtLeast(tail[0].at, at) && forall p :: p in buf ==> p in tail || AtLeast(tail[0].at, p.at)
  {
    if buf != [] {
      assert buf == [buf[0]] + buf[1..];
      if !Newer(buf[0].at, at) {
        FoldReaches(engine, buf[1..], ob, at);
      } else if buf[0].at == Next(at) {
        FoldReaches(engine, buf[1..], engine.apply(ob, buf[0].levels), buf[0].at);
      }
    }
  }

  lemma TopHole<B>(i: Inst<B>, tail: seq<Pending>)
    requires tail != [] && forall p :: p in i.buf ==> p in tail || AtLeast(tail[0].at, p.at)
    ensures UpTo(Top(i), Top(RaiseFloor(i.(buf := tail), tail[0].at)))
  {
    MaxPendingBounds(i.buf);
    MaxPendingBounds(tail);
  }

  lemma CoversSnapshot<B>(env: Env<B>, c: Cell<B>, generation: nat, reply: Reply, shown: Option<Cursor>)
    requires Shape(c.inst) && Covers(c.inst, shown)
    ensures var j := OnSnapshot(env, c, generation, reply).inst;
            Covers(j, if j.synced then MaxCursor(shown, Some(j.at)) else shown)
  {
    if c.inst.inflight && reply.Body? && Usable(env.tick) {
      var ob := env.engine.apply(env.engine.blank(env.tick.value.amount), reply.snap.levels);
      FoldReaches(env.engine, c.inst.buf, ob, reply.snap.at);
      MaxPendingBounds(c.inst.buf);
      var f := Fold(env.engine, c.inst.buf, ob, reply.snap.at);
      if f.Hole? {
        TopHole(c.inst.(inflight := false), f.tail);
      }
    }
  }

  /** A non-delta that is older than the book it unsyncs. */
  predicate StaleNonDelta<B>(tick: Option<Size>, i: Inst<B>, e: Event) {
    e.NonDelta? && Usable(tick) && i.synced && !AtLeast(e.at, i.at)
  }

  /** A step keeps up with the feed exactly when it is not a non-delta older than the book. */
  lemma CoversStep<B>(env: Env<B>, c: Cell<B>, e: Event, shown: Option<Cursor>)
    requires Acts(e) && Shape(c.inst) && Covers(c.inst, shown)
    ensures var j := CellStep(env, c, e).inst;
            Covers(j, ShownAfter(shown, env.tick, e, j)) <==> !StaleNonDelta(env.tick, c.inst, e)
  {
    hide OnPending, OnReset, OnSnapshot;
    match e
    case DeltaEvent(_, d) =>
      if d.reset {
        CoversReset(env, c, d.at, shown);
      } else {
        CoversPending(env, c, PendingOf(d), shown);
      }
    case NonDelta(_, _, at) => TopLose(env, c, at, None);
    case SnapshotEvent(_, _, generation, reply) => CoversSnapshot(env, c, generation, reply, shown);
    case TimerEvent(_, token) => TopDrop(c.inst);
  }

  lemma CoversPending<B>(env: Env<B>, c: Cell<B>, item: Pending, shown: Option<Cursor>)
    requires Shape(c.inst) && Covers(c.inst, shown)
    ensures var j := OnPending(env, c, item).inst;
            Covers(j, if j.synced then MaxCursor(MaxCursor(shown, Some(item.at)), Some(j.at))
                      else MaxCursor(shown, Some(item.at)))
  {
    if !c.inst.synced {
      TopBuffer(env, c, item);
    } else if item.at != Next(c.inst.at) {
      TopLose(env, c, item.at, Some(item));
    }
  }

  lemma CoversReset<B>(env: Env<B>, c: Cell<B>, at: Cursor, shown: Option<Cursor>)
    requires Shape(c.inst) && Covers(c.inst, shown)
    ensures var j := OnReset(env, c, at).inst;
            Covers(j, if j.synced then MaxCursor(MaxCursor(shown, Some(at)), Some(j.at))
                      else MaxCursor(shown, Some(at)))
  {
  }

  // ---------- Hooks ----------

  /** One call hooks at most once, and only for the delta it has just applied to a synced book. */
  lemma HookStep<B>(env: Env<B>, c: Cell<B>, e: Event)
    requires Acts(e) && Shape(c.inst) && c.out == []
    ensures var d := CellStep(env, c, e);
            forall x :: x in d.out && x.Hook? ==>
              && x.update.uid == env.uid && e.DeltaEvent? && x.update.at == e.delta.at == d.inst.at
              && c.inst.synced && d.inst.synced && x.update.at == Next(c.inst.at)
              && Within(env.now, e.delta.mdTs, env.recv)
              && d.out == [x]
  {
    match e
    case DeltaEvent(_, d) =>
      if c.inst.synced {
        QuietLose(env, c, d.at, Some(PendingOf(d)));
      } else {
        QuietBuffer(env, c, PendingOf(d));
      }
    case NonDelta(_, _, at) => QuietLose(env, c, at, None);
    case SnapshotEvent(_, _, generation, reply) =>
    case TimerEvent(_, token) =>
  }

  // ---------- What a synced book is made of ----------

  /** A book's making: the tick of its ring, the snapshot installed, then the deltas applied. */
  datatype Story = Story(tick: real, snap: Snapshot, deltas: seq<Pending>)

  /** What the host has fed the instrument so far; a reset is not a delta. */
  datatype Source = Source(deltas: set<Pending>, snaps: set<Snapshot>, ticks: set<Size>)

  /** The snapshot is of `uid`, or does not say what it is of. */
  predicate Names(snap: Snapshot, uid: nat) {
    snap.uid == 0 || snap.uid == uid
  }

  ghost predicate NoMoreThan(a: Source, b: Source) {
    a.deltas <= b.deltas && a.snaps <= b.snaps && a.ticks <= b.ticks
  }

  function ApplyAll<B>(engine: Engine<B>, ob: B, deltas: seq<Pending>): B {
    if deltas == [] then ob
    else engine.apply(ApplyAll(engine, ob, deltas[..|deltas| - 1]), deltas[|deltas| - 1].levels)
  }

  function Build<B>(engine: Engine<B>, story: Story): B {
    ApplyAll(engine, engine.apply(engine.blank(story.tick), story.snap.levels), story.deltas)
  }

  /** One delta per cursor, each the successor of the one before: no gap, repeat or reorder. */
  ghost predicate Consecutive(story: Story) {
    forall k :: 0 <= k < |story.deltas| ==>
      story.deltas[k].at == Cursor(story.snap.at.epoch, story.snap.at.num + k + 1)
  }

  function End(story: Story): Cursor {
    Cursor(story.snap.at.epoch, story.snap.at.num + |story.deltas|)
  }

  ghost predicate Tells<B>(engine: Engine<B>, ob: B, at: Cursor, story: Story, src: Source) {
    && ob == Build(engine, story) && at == End(story) && Consecutive(story)
    && story.tick > 0.0 && Finite(story.tick) in src.ticks && story.snap in src.snaps
    && forall p :: p in story.deltas ==> p in src.deltas
  }

  /** The buffer holds deltas of the feed, and a synced book has a story. */
  ghost predicate Told<B>(engine: Engine<B>, i: Inst<B>, src: Source) {
    && (forall p :: p in i.buf ==> p in src.deltas)
    && (i.synced ==> i.ob.Some? && exists story :: Tells(engine, i.ob.value, i.at, story, src))
  }

  lemma TellsNext<B>(engine: Engine<B>, ob: B, at: Cursor, story: Story, p: Pending, src: Source)
    requires Tells(engine, ob, at, story, src) && p.at == Next(at) && p in src.deltas
    ensures Tells(engine, engine.apply(ob, p.levels), p.at, story.(deltas := story.deltas + [p]), src)
  {
    assert (story.deltas + [p])[..|story.deltas|] == story.deltas;
  }

  lemma {:induction false} TellsFold<B>(
      engine: Engine<B>, buf: seq<Pending>, ob: B, at: Cursor, story: Story, src: Source)
    returns (whole: Story)
    requires Tells(engine, ob, at, story, src) && forall p :: p in buf ==> p in src.deltas
    ensures match Fold(engine, buf, ob, at)
            case Whole(end, cursor) => Tells(engine, end, cursor, whole, src)
            case Hole(tail) => forall p :: p in tail ==> p in src.deltas
  {
    whole := story;
    if buf != [] {
      assert buf == [buf[0]] + buf[1..];
      if !Newer(buf[0].at, at) {
        whole := TellsFold(engine, buf[1..], ob, at, story, src);
      } else if buf[0].at == Next(at) {
        TellsNext(engine, ob, at, story, buf[0], src);
        whole := TellsFold(engine, buf[1..], engine.apply(ob, buf[0].levels), buf[0].at,
                           story.(deltas := story.deltas + [buf[0]]), src);
      }
    }
  }

  lemma ToldSnapshot<B>(env: Env<B>, c: Cell<B>, generation: nat, reply: Reply, src: Source)
    requires Told(env.engine, c.inst, src)
    requires reply.Body? && Names(reply.snap, env.uid) ==> reply.snap in src.snaps
    requires env.tick.Some? ==> env.tick.value in src.ticks
    ensures Told(env.engine, OnSnapshot(env, c, generation, reply).inst, src)
  {
    if reply.Body? && Names(reply.snap, env.uid) && Usable(env.tick) {
      var tick := env.tick.value.amount;
      var ob := env.engine.apply(env.engine.blank(tick), reply.snap.levels);
      var story := Story(tick, reply.snap, []);
      assert Tells(env.engine, ob, reply.snap.at, story, src);
      var whole := TellsFold(env.engine, c.inst.buf, ob, reply.snap.at, story, src);
    }
  }

  lemma ToldBuffer<B>(env: Env<B>, c: Cell<B>, item: Pending, src: Source)
    requires !c.inst.synced && Told(env.engine, c.inst, src) && item in src.deltas
    ensures Told(env.engine, BufferThenFetch(env, c, item).inst, src)
  {
  }

  lemma ToldPending<B>(env: Env<B>, c: Cell<B>, item: Pending, src: Source)
    requires Told(env.engine, c.inst, src) && item in src.deltas
    ensures Told(env.engine, OnPending(env, c, item).inst, src)
  {
    if !c.inst.synced {
      ToldBuffer(env, c, item, src);
    } else {
      var story :| Tells(env.engine, c.inst.ob.value, c.inst.at, story, src);
      if item.at == Next(c.inst.at) {
        TellsNext(env.engine, c.inst.ob.value, c.inst.at, story, item, src);
      } else {
        var lost := Invalidate(RaiseFloor(c.inst.(synced := false, ob := None), item.at));
        ToldBuffer(env, c.(inst := lost), item, src);
      }
    }
  }

  lemma ToldLose<B>(env: Env<B>, c: Cell<B>, at: Cursor, src: Source)
    requires Told(env.engine, c.inst, src)
    ensures Told(env.engine, Lose(env, c, at, None).inst, src)
  {
  }

  lemma ToldReset<B>(env: Env<B>, c: Cell<B>, at: Cursor, src: Source)
    requires Told(env.engine, c.inst, src)
    ensures Told(env.engine, OnReset(env, c, at).inst, src)
  {
  }

  lemma ToldTimer<B>(env: Env<B>, c: Cell<B>, token: Token, src: Source)
    requires Told(env.engine, c.inst, src)
    ensures Told(env.engine, OnTimer(env, c, token).inst, src)
  {
  }

  lemma ToldStep<B>(env: Env<B>, c: Cell<B>, e: Event, src: Source)
    requires Acts(e) && Told(env.engine, c.inst, src)
    requires e.DeltaEvent? && !e.delta.reset ==> PendingOf(e.delta) in src.deltas
    requires e.SnapshotEvent? && e.reply.Body? && Names(e.reply.snap, env.uid) ==> e.reply.snap in src.snaps
    requires env.tick.Some? ==> env.tick.value in src.ticks
    ensures Told(env.engine, CellStep(env, c, e).inst, src)
  {
    hide Told, OnPending, OnReset, OnSnapshot, OnTimer, Lose;
    match e
    case DeltaEvent(_, d) =>
      if d.reset {
        ToldReset(env, c, d.at, src);
      } else {
        ToldPending(env, c, PendingOf(d), src);
      }
    case NonDelta(_, _, at) => ToldLose(env, c, at, src);
    case SnapshotEvent(_, _, generation, reply) => ToldSnapshot(env, c, generation, reply, src);
    case TimerEvent(_, token) => ToldTimer(env, c, token, src);
  }

  lemma ToldMore<B>(engine: Engine<B>, i: Inst<B>, a: Source, b: Source)
    requires Told(engine, i, a) && NoMoreThan(a, b)
    ensures Told(engine, i, b)
  {
    if i.synced {
      var story :| Tells(engine, i.ob.value, i.at, story, a);
      assert Tells(engine, i.ob.value, i.at, story, b);
    }
  }
}
