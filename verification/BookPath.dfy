/**
 Local order-book sync: snapshots, the pending buffer, backoff and timers.

 This file is the specification: the state of one instrument as a value, one function per
 operation, and `Run`, the state after any sequence of events.  `BookPathClass.dfy` updates
 fields in place and is proved equal to it; `BookPathRuns.dfy` proves what every run keeps.

 The book is any type with any deterministic `blank` and `apply`.  Log lines are not modelled.
 */
module BookPath {
  import opened Wrappers
  import opened OrderBook

  const BUFFER_MAX: nat := 10_000
  /** Durations are in nanoseconds. */
  const BUFFER_AGE: nat := 10_000_000_000
  const BACKOFF_MIN: nat := 1_000_000_000
  const BACKOFF_MAX: nat := 30_000_000_000
  const I64_MIN: int := -0x8000_0000_0000_0000
  const I64_MAX: int := 0x7fff_ffff_ffff_ffff

  datatype Cursor = Cursor(epoch: nat, num: nat)

  predicate Newer(a: Cursor, b: Cursor) {
    a.epoch > b.epoch || (a.epoch == b.epoch && a.num > b.num)
  }

  predicate AtLeast(a: Cursor, b: Cursor) {
    a.epoch > b.epoch || (a.epoch == b.epoch && a.num >= b.num)
  }

  function Next(a: Cursor): Cursor {
    Cursor(a.epoch, a.num + 1)
  }

  datatype Levels = Levels(bids: seq<Level>, asks: seq<Level>)

  /** What the path needs of a book. */
  datatype Engine<!B> = Engine(blank: real -> B, apply: (B, Levels) -> B)

  datatype Delta = Delta(uid: nat, at: Cursor, mdTs: int, exchTs: int, reset: bool, levels: Levels)

  datatype Pending = Pending(at: Cursor, mdTs: int, exchTs: int, levels: Levels)

  datatype Snapshot = Snapshot(uid: nat, at: Cursor, levels: Levels)

  datatype Reply = Body(snap: Snapshot) | Empty | Failed(message: string)

  datatype Update = Update(uid: nat, at: Cursor, mdTs: int, exchTs: int)

  datatype TimerKind = BufferAge | Backoff

  datatype Token = Token(uid: nat, kind: TimerKind, generation: nat, id: nat)

  datatype Effect =
    | RequestSnapshot(uid: nat, generation: nat, wait: nat)
    | ArmTimer(token: Token, after: nat, deadline: int)
    | Hook(update: Update)

  datatype Inst<B> = Inst(
    ob: Option<B>, synced: bool, at: Cursor,
    buf: seq<Pending>, bufAt: int, have: bool, bufGen: nat,
    floor: Option<Cursor>,
    generation: nat, inflight: bool, wait: nat, backing: bool,
    ageId: nat, backoffId: nat)

  function NewInst<B>(): Inst<B> {
    Inst(None, false, Cursor(0, 0), [], 0, false, 0, None, 0, false, 0, false, 0, 0)
  }

  /** What does not change during one call on one instrument. */
  datatype Env<!B> = Env(engine: Engine<B>, recv: nat, uid: nat, now: int, closed: bool, tick: Option<Size>)

  /** What one call on one instrument changes. */
  datatype Cell<B> = Cell(inst: Inst<B>, nextTimer: nat, out: seq<Effect>)

  // ---------- Small steps ----------

  /** A resolved tick that can build a ring. */
  predicate Usable(tick: Option<Size>) {
    tick.Some? && tick.value.Finite? && tick.value.amount > 0.0
  }

  function Grow(wait: nat): nat {
    if wait == 0 then BACKOFF_MIN
    else if wait * 2 <= BACKOFF_MAX then wait * 2
    else BACKOFF_MAX
  }

  predicate Within(now: int, at: int, window: nat) {
    now - at <= window
  }

  predicate AgeReached(now: int, at: int, window: nat) {
    now - at >= window
  }

  function Deadline(now: int, after: nat): int {
    if now + after >= I64_MAX then I64_MAX
    else if now + after <= I64_MIN then I64_MIN
    else now + after
  }

  function Invalidate<B>(i: Inst<B>): Inst<B> {
    i.(generation := i.generation + 1, inflight := false, backing := false)
  }

  function RaiseFloor<B>(i: Inst<B>, at: Cursor): Inst<B> {
    if i.floor.Some? && !Newer(at, i.floor.value) then i else i.(floor := Some(at))
  }

  /** The newest cursor of the buffer. */
  function MaxPending(buf: seq<Pending>): Option<Cursor> {
    if buf == [] then None
    else
      var last := buf[|buf| - 1].at;
      match MaxPending(buf[..|buf| - 1])
      case Some(best) => if Newer(last, best) then Some(last) else Some(best)
      case None => Some(last)
  }

  function DropBuf<B>(i: Inst<B>): Inst<B> {
    var dropped := i.(buf := [], have := false, bufGen := i.bufGen + 1, ageId := 0);
    match MaxPending(i.buf)
    case Some(top) => RaiseFloor(dropped, top)
    case None => dropped
  }

  predicate Over<B>(now: int, i: Inst<B>) {
    |i.buf| >= BUFFER_MAX || (i.have && AgeReached(now, i.bufAt, BUFFER_AGE))
  }

  function Fetch<B>(env: Env<B>, c: Cell<B>): Cell<B> {
    if env.closed || c.inst.backing || c.inst.inflight || !Usable(env.tick) then c
    else c.(inst := c.inst.(inflight := true),
            out := c.out + [RequestSnapshot(env.uid, c.inst.generation, env.recv)])
  }

  /** Mints the next timer id, records it as the live arm of its kind, and arms it. */
  function Arm<B>(env: Env<B>, c: Cell<B>, kind: TimerKind, generation: nat, after: nat): Cell<B> {
    var id := c.nextTimer + 1;
    Cell(if kind.BufferAge? then c.inst.(ageId := id) else c.inst.(backoffId := id),
         id,
         c.out + [ArmTimer(Token(env.uid, kind, generation, id), after, Deadline(env.now, after))])
  }

  function BackOff<B>(env: Env<B>, c: Cell<B>): Cell<B> {
    if env.closed || c.inst.backing then c
    else
      var wait := Grow(c.inst.wait);
      Arm(env, c.(inst := c.inst.(wait := wait, backing := true)), Backoff, c.inst.generation, wait)
  }

  /** Opens a buffer attempt unless one is open. */
  function Open<B>(env: Env<B>, c: Cell<B>): Cell<B> {
    if c.inst.have then c
    else
      var i := c.inst.(bufGen := c.inst.bufGen + 1, bufAt := env.now, have := true);
      Arm(env, c.(inst := i), BufferAge, i.bufGen, BUFFER_AGE)
  }

  function Restart<B>(env: Env<B>, c: Cell<B>): Cell<B> {
    Fetch(env, c.(inst := Invalidate(DropBuf(c.inst))))
  }

  /** Keeps one unsynced delta; true when the cap already started a new snapshot. */
  function Buffer<B>(env: Env<B>, c: Cell<B>, item: Pending): (Cell<B>, bool) {
    var begun := Open(env, c);
    var kept := begun.(inst := begun.inst.(buf := begun.inst.buf + [item]));
    if Over(env.now, kept.inst) then (Restart(env, kept), true) else (kept, false)
  }

  function BufferThenFetch<B>(env: Env<B>, c: Cell<B>, item: Pending): Cell<B> {
    var (kept, started) := Buffer(env, c, item);
    if started then kept else Fetch(env, kept)
  }

  function Lose<B>(env: Env<B>, c: Cell<B>, at: Cursor, item: Option<Pending>): Cell<B> {
    var lost := c.(inst := Invalidate(RaiseFloor(c.inst.(synced := false, ob := None), at)));
    if item.Some? then BufferThenFetch(env, lost, item.value) else Fetch(env, lost)
  }

  function Emit<B>(env: Env<B>, c: Cell<B>, item: Pending): Cell<B> {
    if Within(env.now, item.mdTs, env.recv)
    then c.(out := c.out + [Hook(Update(env.uid, item.at, item.mdTs, item.exchTs))])
    else c
  }

  // ---------- Events on one instrument ----------

  function OnPending<B>(env: Env<B>, c: Cell<B>, item: Pending): Cell<B> {
    if !c.inst.synced then BufferThenFetch(env, c, item)
    else if !Newer(item.at, c.inst.at) then c
    else if item.at != Next(c.inst.at) || c.inst.ob.None? then Lose(env, c, item.at, Some(item))
    else
      var ob := env.engine.apply(c.inst.ob.value, item.levels);
      Emit(env, c.(inst := c.inst.(ob := Some(ob), at := item.at)), item)
  }

  predicate ResetIsStale<B>(i: Inst<B>, at: Cursor) {
    if i.synced then !Newer(at, i.at)
    else
      || (i.floor.Some? && !Newer(at, i.floor.value))
      || (MaxPending(i.buf).Some? && !Newer(at, MaxPending(i.buf).value))
  }

  function OnReset<B>(env: Env<B>, c: Cell<B>, at: Cursor): Cell<B> {
    if ResetIsStale(c.inst, at) then c
    else
      var i := c.inst.(synced := false, ob := None, buf := [], have := false,
                       bufGen := c.inst.bufGen + 1, ageId := 0);
      Fetch(env, c.(inst := Invalidate(RaiseFloor(i, at))))
  }

  datatype Folded<B> = Whole(ob: B, at: Cursor) | Hole(tail: seq<Pending>)

  /** Applies the buffered deltas that continue from `at`, skipping those at or below it. */
  function Fold<B>(engine: Engine<B>, buf: seq<Pending>, ob: B, at: Cursor): (f: Folded<B>)
    ensures f.Hole? ==> f.tail != []
  {
    if buf == [] then Whole(ob, at)
    else if !Newer(buf[0].at, at) then Fold(engine, buf[1..], ob, at)
    else if buf[0].at != Next(at) then Hole(buf)
    else Fold(engine, buf[1..], engine.apply(ob, buf[0].levels), buf[0].at)
  }

  function Install<B>(i: Inst<B>, ob: B, at: Cursor): Inst<B> {
    i.(ob := Some(ob), synced := true, at := at, buf := [], have := false, floor := None, wait := 0)
  }

  /** The snapshot is older than something the feed already showed. */
  predicate Behind<B>(i: Inst<B>, snap: Snapshot) {
    i.floor.Some? && !AtLeast(snap.at, i.floor.value)
  }

  /** Builds a book from the snapshot and the buffer; a hole in the buffer is a failed read. */
  function Adopt<B>(env: Env<B>, c: Cell<B>, snap: Snapshot): Cell<B>
    requires Usable(env.tick)
  {
    var ob := env.engine.apply(env.engine.blank(env.tick.value.amount), snap.levels);
    match Fold(env.engine, c.inst.buf, ob, snap.at)
    case Whole(ob, at) => c.(inst := Install(c.inst, ob, at))
    case Hole(tail) => BackOff(env, c.(inst := RaiseFloor(c.inst.(buf := tail), tail[0].at)))
  }

  function OnSnapshot<B>(env: Env<B>, c: Cell<B>, generation: nat, reply: Reply): Cell<B> {
    if c.inst.generation != generation || !c.inst.inflight then c
    else
      var c := c.(inst := c.inst.(inflight := false));
      if !reply.Body? || (reply.snap.uid != 0 && reply.snap.uid != env.uid) || Behind(c.inst, reply.snap)
      then BackOff(env, c)
      else if !Usable(env.tick) then c
      else Adopt(env, c, reply.snap)
  }

  /** The live buffer-age arm, and old enough. */
  predicate AgeFires<B>(now: int, i: Inst<B>, token: Token) {
    i.ageId == token.id && i.bufGen == token.generation && i.have && AgeReached(now, i.bufAt, BUFFER_AGE)
  }

  predicate BackoffFires<B>(i: Inst<B>, token: Token) {
    i.backoffId == token.id && i.generation == token.generation
  }

  predicate Fires<B>(now: int, i: Inst<B>, token: Token) {
    if token.kind.BufferAge? then AgeFires(now, i, token) else BackoffFires(i, token)
  }

  function OnTimer<B>(env: Env<B>, c: Cell<B>, token: Token): Cell<B> {
    if !Fires(env.now, c.inst, token) then c
    else if token.kind.BufferAge? then Restart(env, c)
    else Fetch(env, c.(inst := c.inst.(backing := false, backoffId := 0)))
  }

  // ---------- Runs ----------

  datatype Event =
    | Resolve(uid: nat, tick: Size)
    | Forget(uid: nat)
    | Close
    | DeltaEvent(now: int, delta: Delta)
    | NonDelta(now: int, uid: nat, at: Cursor)
    | SnapshotEvent(now: int, uid: nat, generation: nat, reply: Reply)
    | TimerEvent(now: int, token: Token)

  /** Events that act on one instrument. */
  predicate Feeds(e: Event) {
    e.DeltaEvent? || e.NonDelta?
  }

  predicate Acts(e: Event) {
    Feeds(e) || e.SnapshotEvent? || e.TimerEvent?
  }

  function UidOf(e: Event): nat
    requires Acts(e)
  {
    match e
    case DeltaEvent(_, delta) => delta.uid
    case NonDelta(_, uid, _) => uid
    case SnapshotEvent(_, uid, _, _) => uid
    case TimerEvent(_, token) => token.uid
  }

  function PendingOf(d: Delta): Pending {
    Pending(d.at, d.mdTs, d.exchTs, d.levels)
  }

  function CellStep<B>(env: Env<B>, c: Cell<B>, e: Event): Cell<B>
    requires Acts(e)
  {
    match e
    case DeltaEvent(_, d) =>
      if !Usable(env.tick) then c
      else if d.reset then OnReset(env, c, d.at)
      else OnPending(env, c, PendingOf(d))
    case NonDelta(_, _, at) => if !Usable(env.tick) then c else Lose(env, c, at, None)
    case SnapshotEvent(_, _, generation, reply) => OnSnapshot(env, c, generation, reply)
    case TimerEvent(_, token) => OnTimer(env, c, token)
  }

  datatype Config<!B> = Config(engine: Engine<B>, recv: nat)

  datatype State<B> = State(now: int, ticks: map<nat, Size>, insts: map<nat, Inst<B>>, closed: bool, nextTimer: nat)

  function Init<B>(): State<B> {
    State(0, map[], map[], false, 0)
  }

  function Of<B>(s: State<B>, uid: nat): Inst<B> {
    if uid in s.insts then s.insts[uid] else NewInst()
  }

  function TickOf<B>(s: State<B>, uid: nat): Option<Size> {
    if uid in s.ticks then Some(s.ticks[uid]) else None
  }

  function EnvOf<B>(cfg: Config<B>, s: State<B>, uid: nat, now: int): Env<B> {
    Env(cfg.engine, cfg.recv, uid, now, s.closed, TickOf(s, uid))
  }

  /** The event reaches an instrument: a feed event creates it, any other needs it to exist. */
  predicate Reaches<B>(s: State<B>, e: Event) {
    Acts(e) && !s.closed && if Feeds(e) then UidOf(e) != 0 else UidOf(e) in s.insts
  }

  function CellOf<B>(cfg: Config<B>, s: State<B>, e: Event): Cell<B>
    requires Acts(e)
  {
    CellStep(EnvOf(cfg, s, UidOf(e), e.now), Cell(Of(s, UidOf(e)), s.nextTimer, []), e)
  }

  function Step<B>(cfg: Config<B>, s: State<B>, e: Event): (State<B>, seq<Effect>) {
    match e
    case Resolve(uid, tick) => (s.(ticks := s.ticks[uid := tick]), [])
    case Forget(uid) => (s.(ticks := s.ticks - {uid}), [])
    case Close => (s.(closed := true), [])
    case _ =>
      if !Reaches(s, e) then (s.(now := e.now), [])
      else
        var c := CellOf(cfg, s, e);
        (s.(now := e.now, insts := s.insts[UidOf(e) := c.inst], nextTimer := c.nextTimer), c.out)
  }

  /** The state after the events `es`. */
  function Run<B>(cfg: Config<B>, es: seq<Event>): State<B> {
    if es == [] then Init() else Step(cfg, Run(cfg, es[..|es| - 1]), es[|es| - 1]).0
  }

  /** Everything the run asked the host to do, in order. */
  function Sent<B>(cfg: Config<B>, es: seq<Event>): seq<Effect> {
    if es == [] then []
    else Sent(cfg, es[..|es| - 1]) + Step(cfg, Run(cfg, es[..|es| - 1]), es[|es| - 1]).1
  }

  /** What a strategy reads. */
  function View<B>(s: State<B>, uid: nat): Option<B> {
    if s.closed || uid !in s.insts || !s.insts[uid].synced then None else s.insts[uid].ob
  }
}
