/** The book path run with the tick ring as its book. */
module BookPathRing {
  import opened Wrappers
  import opened OrderBook
  import opened PriceMap
  import opened BookPath
  import opened BookPathFeed
  import opened BookPathRuns

  const DEFAULT_N: nat := 2048

  type Half = r: Ring | r.Valid() witness Fresh(1, true)

  datatype TwoSides = TwoSides(bids: Half, asks: Half)

  /** A fresh pair of rings, and one increment on both. */
  const RINGS: Engine<TwoSides> :=
    Engine(tick => TwoSides(Fresh(DEFAULT_N, true), Fresh(DEFAULT_N, false)),
           (book: TwoSides, levels: Levels) =>
             TwoSides(ApplySide(book.bids, levels.bids), ApplySide(book.asks, levels.asks)))

  /**
   A visible book that no delta has reached yet reads, on each side, exactly the snapshot's ticks
   less than one window behind its best, each with the last size the snapshot listed for it.
   */
  lemma InstalledBookReads(recv: nat, es: seq<Event>, uid: nat, story: Story, u: int)
    requires View(Run(Config(RINGS, recv), es), uid).Some?
    requires var s := Run(Config(RINGS, recv), es);
             Tells(RINGS, View(s, uid).value, Of(s, uid).at, story, Fed(es, uid)) && story.deltas == []
    ensures var book, levels := View(Run(Config(RINGS, recv), es), uid).value, story.snap.levels;
            && Qty(book.bids, u) == (if Listed(levels.bids, u) > 0.0 && WithinReach(2048, true, levels.bids, u)
                                     then Some(Listed(levels.bids, u)) else None)
            && Qty(book.asks, u) == (if Listed(levels.asks, u) > 0.0 && WithinReach(2048, false, levels.asks, u)
                                     then Some(Listed(levels.asks, u)) else None)
  {
    hide Run, Qty, Listed, WithinReach, ApplySide;
    InstallExact(DEFAULT_N, true, story.snap.levels.bids, u);
    InstallExact(DEFAULT_N, false, story.snap.levels.asks, u);
  }

  // ---------- The ring and the server's prices ----------

  datatype Market = Market(bids: Prices, asks: Prices)

  const NO_MARKET := Market(NO_PRICES, NO_PRICES)

  ghost predicate Shows(book: TwoSides, m: Market) {
    && |book.bids.slots| == |book.asks.slots| == DEFAULT_N && book.bids.bid && !book.asks.bid
    && Mirrors(book.bids, m.bids) && Mirrors(book.asks, m.asks)
  }

  /** `b` is `a` with the levels written, the last size listed for each tick. */
  ghost predicate Written(a: Market, levels: Levels, b: Market) {
    forall u :: b.bids(u) == UpdatedAll(a.bids, levels.bids)(u) && b.asks(u) == UpdatedAll(a.asks, levels.asks)(u)
  }

  /** Neither side is ever a window wide while the levels are written, best first. */
  ghost predicate KeepsNarrow(a: Market, levels: Levels) {
    && StaysNarrow(DEFAULT_N, a.bids, Sort(true, levels.bids))
    && StaysNarrow(DEFAULT_N, a.asks, Sort(false, levels.asks))
  }

  /** Snapshots list the server's prices and deltas change them, however wide the market. */
  ghost predicate MarketHistory(server: Cursor -> Market, src: Source) {
    && (forall snap :: snap in src.snaps ==> Written(NO_MARKET, snap.levels, server(snap.at)))
    && (forall p, at :: p in src.deltas && p.at == Next(at) ==> Written(server(at), p.levels, server(p.at)))
  }

  /** And neither side is ever a window wide. */
  ghost predicate MarketFeed(server: Cursor -> Market, src: Source) {
    && MarketHistory(server, src)
    && (forall snap :: snap in src.snaps ==> KeepsNarrow(NO_MARKET, snap.levels))
    && (forall p, at :: p in src.deltas && p.at == Next(at) ==> KeepsNarrow(server(at), p.levels))
  }

  lemma ShowsWritten(book: TwoSides, a: Market, levels: Levels, b: Market)
    requires Shows(book, a) && Written(a, levels, b) && KeepsNarrow(a, levels)
    ensures Shows(RINGS.apply(book, levels), b)
  {
    hide Mirrors, StaysNarrow, ApplySide, UpdatedAll, Sort;
    MirrorSide(book.bids, a.bids, levels.bids);
    MirrorSide(book.asks, a.asks, levels.asks);
    MirrorsSame(ApplySide(book.bids, levels.bids), UpdatedAll(a.bids, levels.bids), b.bids);
    MirrorsSame(ApplySide(book.asks, levels.asks), UpdatedAll(a.asks, levels.asks), b.asks);
  }

  lemma MarketIsServer(server: Cursor -> Market, src: Source)
    requires MarketFeed(server, src)
    ensures FromServer(RINGS, Shows, server, src)
  {
    hide Shows, Written, KeepsNarrow;
    forall tick, snap | tick in src.ticks && snap in src.snaps && Usable(Some(tick))
      ensures Shows(RINGS.apply(RINGS.blank(tick.amount), snap.levels), server(snap.at))
    {
      FreshShows();
      ShowsWritten(RINGS.blank(tick.amount), NO_MARKET, snap.levels, server(snap.at));
    }
    forall p, at, b | p in src.deltas && p.at == Next(at) && Shows(b, server(at))
      ensures Shows(RINGS.apply(b, p.levels), server(p.at))
    {
      ShowsWritten(b, server(at), p.levels, server(p.at));
    }
  }

  lemma FreshShows()
    ensures Shows(TwoSides(Fresh(DEFAULT_N, true), Fresh(DEFAULT_N, false)), NO_MARKET)
  {
    FreshMirrors(DEFAULT_N, true);
    FreshMirrors(DEFAULT_N, false);
  }

  /** The view reads, at every tick of both sides, the server's size at the cursor, and no other level. */
  lemma ViewReadsMarket(recv: nat, es: seq<Event>, uid: nat, server: Cursor -> Market, u: int)
    requires MarketFeed(server, Fed(es, uid))
    requires View(Run(Config(RINGS, recv), es), uid).Some?
    ensures var s := Run(Config(RINGS, recv), es);
            var book, m := View(s, uid).value, server(Of(s, uid).at);
            Qty(book.bids, u) == SizeAt(m.bids, u) && Qty(book.asks, u) == SizeAt(m.asks, u)
  {
    hide Run, MarketFeed, Mirrors, Qty;
    var s := Run(Config(RINGS, recv), es);
    MarketIsServer(server, Fed(es, uid));
    ViewIsServerBook(Config(RINGS, recv), es, uid, Shows, server);
    var book, m := View(s, uid).value, server(Of(s, uid).at);
    MirrorsReads(book.bids, m.bids);
    MirrorsReads(book.asks, m.asks);
  }

  /** All levels of the server's history and of the feed lie in one span of a window's width on each side. */
  ghost predicate InSpan(server: Cursor -> Market, src: Source, lowBid: int, lowAsk: int) {
    && (forall at, u :: server(at).bids(u) > 0.0 ==> lowBid <= u < lowBid + DEFAULT_N)
    && (forall at, u :: server(at).asks(u) > 0.0 ==> lowAsk <= u < lowAsk + DEFAULT_N)
    && (forall snap :: snap in src.snaps ==> LevelsInSpan(snap.levels, lowBid, lowAsk))
    && (forall p :: p in src.deltas ==> LevelsInSpan(p.levels, lowBid, lowAsk))
  }

  ghost predicate LevelsInSpan(levels: Levels, lowBid: int, lowAsk: int) {
    && (forall l :: l in levels.bids && Amount(l.size) > 0.0 ==> lowBid <= l.tick < lowBid + DEFAULT_N)
    && (forall l :: l in levels.asks && Amount(l.size) > 0.0 ==> lowAsk <= l.tick < lowAsk + DEFAULT_N)
  }

  lemma SpanKeepsNarrow(a: Market, levels: Levels, lowBid: int, lowAsk: int)
    requires forall u :: a.bids(u) > 0.0 ==> lowBid <= u < lowBid + DEFAULT_N
    requires forall u :: a.asks(u) > 0.0 ==> lowAsk <= u < lowAsk + DEFAULT_N
    requires LevelsInSpan(levels, lowBid, lowAsk)
    ensures KeepsNarrow(a, levels)
  {
    SpanFits(DEFAULT_N, a.bids, levels.bids, lowBid);
    SpanFits(DEFAULT_N, a.asks, levels.asks, lowAsk);
    FitsSide(DEFAULT_N, true, a.bids, levels.bids);
    FitsSide(DEFAULT_N, false, a.asks, levels.asks);
  }

  /** A feed in one span, whose snapshots list the server's prices and whose deltas change them, qualifies. */
  lemma SpanIsEnough(server: Cursor -> Market, src: Source, lowBid: int, lowAsk: int)
    requires InSpan(server, src, lowBid, lowAsk) && MarketHistory(server, src)
    ensures MarketFeed(server, src)
  {
    hide Written, KeepsNarrow, LevelsInSpan;
    forall snap | snap in src.snaps ensures KeepsNarrow(NO_MARKET, snap.levels) {
      SpanKeepsNarrow(NO_MARKET, snap.levels, lowBid, lowAsk);
    }
    forall p, at | p in src.deltas && p.at == Next(at) ensures KeepsNarrow(server(at), p.levels) {
      SpanKeepsNarrow(server(at), p.levels, lowBid, lowAsk);
    }
  }

  const FIRST := Snapshot(1, Cursor(1, 1), Levels([Level(100, Finite(1.0)), Level(99, Finite(2.0))], []))
  const GONE := Pending(Cursor(1, 2), 0, 0, Levels([Level(99, Finite(0.0))], []))
  const SECOND := Snapshot(1, Cursor(1, 2), Levels([Level(100, Finite(1.0))], []))

  const BEFORE: Prices := u => if u == 100 then 1.0 else if u == 99 then 2.0 else 0.0
  const AFTER: Prices := u => if u == 100 then 1.0 else 0.0

  lemma FeedAt(u: int)
    ensures UpdatedAll(NO_PRICES, FIRST.levels.bids)(u) == BEFORE(u)
    ensures UpdatedAll(NO_PRICES, SECOND.levels.bids)(u) == AFTER(u)
    ensures UpdatedAll(BEFORE, GONE.levels.bids)(u) == AFTER(u)
    ensures UpdatedAll(NO_PRICES, [])(u) == 0.0
  {
    hide UpdatedAll, Only, Listed;
    var first, second, gone := FIRST.levels.bids, SECOND.levels.bids, GONE.levels.bids;
    assert first[..1] == second && second[..0] == [] && gone[..0] == [];
    UpdatedLast(NO_PRICES, first, u);
    UpdatedLast(NO_PRICES, second, u);
    UpdatedLast(BEFORE, gone, u);
    UpdatedNothing(NO_PRICES, u);
    UpdatedNothing(BEFORE, u);
  }

  function ServerAt(at: Cursor): Market {
    Market(if at == FIRST.at then BEFORE else AFTER, NO_PRICES)
  }

  ghost const FEED := Source({GONE}, {FIRST, SECOND}, {Finite(1.0)})

  lemma FeedWritten()
    ensures MarketHistory(ServerAt, FEED)
  {
    hide UpdatedAll;
    forall u {
      FeedAt(u);
    }
  }

  lemma FeedInSpan()
    ensures InSpan(ServerAt, FEED, 99, 0)
  {
  }

  /** Such feeds exist: a level is deleted between two snapshots, one ring held it and the other never did. */
  lemma DeleteBetweenSnapshots()
    ensures MarketFeed(ServerAt, FEED)
    ensures ServerAt(GONE.at).bids(99) == 0.0 < ServerAt(FIRST.at).bids(99) && ServerAt(GONE.at).bids(100) > 0.0
  {
    hide UpdatedAll, MarketFeed, KeepsNarrow, Written, InSpan;
    FeedWritten();
    FeedInSpan();
    SpanIsEnough(ServerAt, FEED, 99, 0);
  }

  // ---------- The ring and the story of one visible book ----------

  function SideOf(bid: bool, levels: Levels): seq<Level> {
    if bid then levels.bids else levels.asks
  }

  /** Every level that went into a side, in the order it was written. */
  function Writes(bid: bool, story: Story): seq<Level>
    decreases |story.deltas|
  {
    var n := |story.deltas|;
    if n == 0 then Sort(bid, SideOf(bid, story.snap.levels))
    else
      Writes(bid, story.(deltas := story.deltas[..n - 1])) + Sort(bid, SideOf(bid, story.deltas[n - 1].levels))
  }

  /** A book is a fresh ring with all its levels written one after another. */
  lemma {:induction false} BuildIsWrites(story: Story)
    ensures Build(RINGS, story).bids == ApplyInOrder(Fresh(DEFAULT_N, true), Writes(true, story))
    ensures Build(RINGS, story).asks == ApplyInOrder(Fresh(DEFAULT_N, false), Writes(false, story))
    decreases |story.deltas|
  {
    hide Sort, ApplyInOrder;
    var n := |story.deltas|;
    if n > 0 {
      var init, levels := story.(deltas := story.deltas[..n - 1]), story.deltas[n - 1].levels;
      BuildIsWrites(init);
      ApplyJoined(Fresh(DEFAULT_N, true), Writes(true, init), Sort(true, levels.bids));
      ApplyJoined(Fresh(DEFAULT_N, false), Writes(false, init), Sort(false, levels.asks));
    }
  }

  /** Written level by level, the side was seen as the prices written so far. */
  ghost predicate SeenThroughout(bid: bool, story: Story) {
    ReadsThroughout(Fresh(DEFAULT_N, bid), NO_PRICES, Writes(bid, story))
  }

  ghost predicate NarrowThroughout(bid: bool, story: Story) {
    StaysNarrow(DEFAULT_N, NO_PRICES, Writes(bid, story))
  }

  /**
   A visible book was seen, level by level, as the prices written into it exactly when it was less
   than a window wide throughout; it is then seen as all of them.  Nothing else that was fed matters.
   */
  lemma ViewSeenIff(recv: nat, es: seq<Event>, uid: nat, story: Story)
    requires View(Run(Config(RINGS, recv), es), uid).Some?
    requires var s := Run(Config(RINGS, recv), es);
             Tells(RINGS, View(s, uid).value, Of(s, uid).at, story, Fed(es, uid))
    ensures var book := View(Run(Config(RINGS, recv), es), uid).value;
            && book.bids == ApplyInOrder(Fresh(DEFAULT_N, true), Writes(true, story))
            && book.asks == ApplyInOrder(Fresh(DEFAULT_N, false), Writes(false, story))
            && (SeenThroughout(true, story) <==> NarrowThroughout(true, story))
            && (SeenThroughout(false, story) <==> NarrowThroughout(false, story))
            && (NarrowThroughout(true, story) ==> Mirrors(book.bids, UpdatedAll(NO_PRICES, Writes(true, story))))
            && (NarrowThroughout(false, story) ==> Mirrors(book.asks, UpdatedAll(NO_PRICES, Writes(false, story))))
  {
    hide Run, Writes, Mirrors, StaysNarrow, ReadsThroughout, UpdatedAll, Build;
    BuildIsWrites(story);
    SideSeenIff(true, Writes(true, story));
    SideSeenIff(false, Writes(false, story));
  }

  lemma SideSeenIff(bid: bool, w: seq<Level>)
    ensures ReadsThroughout(Fresh(DEFAULT_N, bid), NO_PRICES, w) <==> StaysNarrow(DEFAULT_N, NO_PRICES, w)
    ensures StaysNarrow(DEFAULT_N, NO_PRICES, w) ==>
              Mirrors(ApplyInOrder(Fresh(DEFAULT_N, bid), w), UpdatedAll(NO_PRICES, w))
  {
    hide Mirrors, StaysNarrow, ReadsThroughout, UpdatedAll;
    FreshMirrors(DEFAULT_N, bid);
    ReadsThroughoutIff(Fresh(DEFAULT_N, bid), NO_PRICES, w);
    if StaysNarrow(DEFAULT_N, NO_PRICES, w) {
      MirrorUpTo(Fresh(DEFAULT_N, bid), NO_PRICES, w, |w|);
      assert w[..|w|] == w;
    }
  }

  function PricesOf(bid: bool, m: Market): Prices {
    if bid then m.bids else m.asks
  }

  lemma WrittenSorted(bid: bool, a: Market, levels: Levels, b: Market, u: int)
    requires Written(a, levels, b)
    ensures PricesOf(bid, b)(u) == UpdatedAll(PricesOf(bid, a), Sort(bid, SideOf(bid, levels)))(u)
  {
    hide UpdatedAll, Sort;
    UpdatedSorted(bid, PricesOf(bid, a), SideOf(bid, levels));
  }

  lemma UpdatedSame(a: Prices, b: Prices, ls: seq<Level>, u: int)
    requires a(u) == b(u)
    ensures UpdatedAll(a, ls)(u) == UpdatedAll(b, ls)(u)
  {
  }

  /** What was written into a book are the server's prices at its cursor. */
  lemma {:induction false} WritesAreServer(
      server: Cursor -> Market, story: Story, src: Source, bid: bool, u: int)
    requires MarketHistory(server, src) && Consecutive(story) && story.snap in src.snaps
    requires forall p :: p in story.deltas ==> p in src.deltas
    ensures UpdatedAll(NO_PRICES, Writes(bid, story))(u) == PricesOf(bid, server(End(story)))(u)
    decreases |story.deltas|
  {
    hide UpdatedAll, Sort, Written;
    var n := |story.deltas|;
    if n == 0 {
      WrittenSorted(bid, NO_MARKET, story.snap.levels, server(End(story)), u);
    } else {
      var init, p := story.(deltas := story.deltas[..n - 1]), story.deltas[n - 1];
      WritesAreServer(server, init, src, bid, u);
      assert p in story.deltas && p.at == Next(End(init)) == End(story);
      WrittenSorted(bid, server(End(init)), p.levels, server(p.at), u);
      var sorted := Sort(bid, SideOf(bid, p.levels));
      UpdatedAppend(NO_PRICES, Writes(bid, init), sorted, u);
      UpdatedSame(UpdatedAll(NO_PRICES, Writes(bid, init)), PricesOf(bid, server(End(init))), sorted, u);
    }
  }

  /**
   The view reads the server's size at every tick of a side that stayed narrow since the snapshot it
   was built from, whatever came before and whatever snapshots and deltas were never used.
   */
  lemma ViewReadsServer(recv: nat, es: seq<Event>, uid: nat, server: Cursor -> Market, story: Story, u: int)
    requires MarketHistory(server, Fed(es, uid))
    requires View(Run(Config(RINGS, recv), es), uid).Some?
    requires var s := Run(Config(RINGS, recv), es);
             Tells(RINGS, View(s, uid).value, Of(s, uid).at, story, Fed(es, uid))
    ensures var s := Run(Config(RINGS, recv), es);
            var book, m := View(s, uid).value, server(Of(s, uid).at);
            && (NarrowThroughout(true, story) ==> Qty(book.bids, u) == SizeAt(m.bids, u))
            && (NarrowThroughout(false, story) ==> Qty(book.asks, u) == SizeAt(m.asks, u))
  {
    hide Run, Writes, Mirrors, NarrowThroughout, SeenThroughout, UpdatedAll, Build, MarketHistory, Qty;
    var book := View(Run(Config(RINGS, recv), es), uid).value;
    ViewSeenIff(recv, es, uid, story);
    WritesAreServer(server, story, Fed(es, uid), true, u);
    WritesAreServer(server, story, Fed(es, uid), false, u);
    if NarrowThroughout(true, story) {
      MirrorsReads(book.bids, UpdatedAll(NO_PRICES, Writes(true, story)));
    }
    if NarrowThroughout(false, story) {
      MirrorsReads(book.asks, UpdatedAll(NO_PRICES, Writes(false, story)));
    }
  }

  /** Two runs whose deltas list the levels of each tick in the same order show the same book. */
  lemma {:induction false} SameStoryUpToLevelOrder(a: Story, b: Story)
    requires |a.deltas| == |b.deltas|
    requires SameLevels(a.snap.levels, b.snap.levels)
    requires forall k :: 0 <= k < |a.deltas| ==> SameLevels(a.deltas[k].levels, b.deltas[k].levels)
    ensures Build(RINGS, a) == Build(RINGS, b)
    decreases |a.deltas|
  {
    hide ApplySide, SameLevels;
    if a.deltas == [] {
      SameApply(RINGS.blank(a.tick), a.snap.levels, b.snap.levels);
    } else {
      var n := |a.deltas| - 1;
      var c, d := a.(deltas := a.deltas[..n]), b.(deltas := b.deltas[..n]);
      SameStoryUpToLevelOrder(c, d);
      SameApply(Build(RINGS, c), a.deltas[n].levels, b.deltas[n].levels);
    }
  }

  ghost predicate SameLevels(a: Levels, b: Levels) {
    SameUpToTickOrder(a.bids, b.bids) && SameUpToTickOrder(a.asks, b.asks)
  }

  lemma SameApply(book: TwoSides, a: Levels, b: Levels)
    requires SameLevels(a, b)
    ensures RINGS.apply(book, a) == RINGS.apply(book, b)
  {
    hide ApplySide;
    ApplyOrderIrrelevant(book.bids, a.bids, b.bids);
    ApplyOrderIrrelevant(book.asks, a.asks, b.asks);
  }
}
