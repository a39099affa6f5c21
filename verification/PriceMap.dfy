/** When a side of the ring is a price map after all: as long as its levels are less than a window apart. */
module PriceMap {
  import opened Wrappers
  import opened OrderBook

  /** The size at every tick; there is a level where it is positive. */
  type Prices = int -> real

  const NO_PRICES: Prices := t => 0.0

  function SizeAt(m: Prices, t: int): Option<real> {
    if m(t) > 0.0 then Some(m(t)) else None
  }

  /** The map with one size written. */
  function Updated(m: Prices, t: int, q: real): Prices {
    u => if u == t then q else m(u)
  }

  /** The map with a list written: the last size listed for each tick. */
  function UpdatedAll(m: Prices, ls: seq<Level>): Prices {
    u => if Only(ls, u) == [] then m(u) else Listed(ls, u)
  }

  /** A reader of the side sees the map. */
  ghost predicate Reads(r: Ring, m: Prices)
    requires r.Valid()
  {
    forall u :: Qty(r, u) == SizeAt(m, u)
  }

  /** All levels lie less than `n` apart. */
  ghost predicate Narrow(n: int, m: Prices) {
    forall u, v :: m(u) > 0.0 && m(v) > 0.0 ==> u - v < n
  }

  /** A reader sees the map, and no slot holds anything else. */
  ghost predicate Mirrors(r: Ring, m: Prices)
    requires r.Valid()
  {
    && (forall u :: Stored(r, u) == SizeAt(m, u))
    && (forall v :: m(v) > 0.0 ==> HasBest(r) && InWindow(r, v))
  }

  lemma MirrorsReads(r: Ring, m: Prices)
    requires r.Valid() && Mirrors(r, m)
    ensures Reads(r, m) && Narrow(|r.slots|, m)
  {
  }

  lemma MirrorsSame(r: Ring, a: Prices, b: Prices)
    requires r.Valid() && Mirrors(r, a) && forall u :: a(u) == b(u)
    ensures Mirrors(r, b)
  {
    forall u ensures Stored(r, u) == SizeAt(b, u) {
      assert Stored(r, u) == SizeAt(a, u);
    }
  }

  // ---------- One update ----------

  lemma ReadsIsNarrow(r: Ring, m: Prices)
    requires r.Valid() && Reads(r, m)
    ensures Narrow(|r.slots|, m)
  {
    forall u, v | m(u) > 0.0 && m(v) > 0.0 ensures u - v < |r.slots| {
      assert Qty(r, u).Some? && Qty(r, v).Some?;
    }
  }

  /** The slots after an update of a side that mirrors a map. */
  lemma MirrorSlots(r: Ring, m: Prices, t: int, s: Size, u: int)
    requires r.Valid() && Mirrors(r, m) && Narrow(|r.slots|, Updated(m, t, Amount(s)))
    ensures Stored(ApplyTick(r, t, s), u) == SizeAt(Updated(m, t, Amount(s)), u)
  {
    var n, q := |r.slots|, Amount(s);
    var m' := Updated(m, t, q);
    WriteStored(r, t, q, u);
    assert Stored(r, u) == SizeAt(m, u) && Stored(r, t) == SizeAt(m, t);
    if u != t && Index(n, u) == Index(n, t) {
      SameIndexFarApart(n, u, t);
    }
    assert m'(u) == if u == t then q else m(u);
    assert m'(t) == q;
    if HasBest(r) {
      assert Stored(r, r.best) == SizeAt(m, r.best);
      assert m'(r.best) == if r.best == t then q else m(r.best);
    }
  }

  lemma MirrorWindow(r: Ring, m: Prices, t: int, s: Size, v: int)
    requires r.Valid() && Mirrors(r, m) && Narrow(|r.slots|, Updated(m, t, Amount(s)))
    requires Updated(m, t, Amount(s))(v) > 0.0
    ensures var w := ApplyTick(r, t, s); HasBest(w) && InWindow(w, v)
  {
    hide ApplyTick;
    var q := Amount(s);
    var m' := Updated(m, t, q);
    BestAfter(r, t, s);
    MirrorSlots(r, m, t, s, v);
    assert m'(v) == if v == t then q else m(v);
    assert m'(t) == q && Stored(r, v) == SizeAt(m, v);
    if HasBest(r) {
      assert Stored(r, r.best) == SizeAt(m, r.best);
      assert m'(r.best) == if r.best == t then q else m(r.best);
    }
  }

  /** On a side that mirrors a map, an update is a map update exactly when the map stays narrow. */
  lemma MirrorTick(r: Ring, m: Prices, t: int, s: Size)
    requires r.Valid() && Mirrors(r, m)
    ensures var w, m' := ApplyTick(r, t, s), Updated(m, t, Amount(s));
            && (Reads(w, m') <==> Narrow(|r.slots|, m'))
            && (Mirrors(w, m') <==> Narrow(|r.slots|, m'))
  {
    hide ApplyTick, Updated;
    var w, m' := ApplyTick(r, t, s), Updated(m, t, Amount(s));
    if Narrow(|r.slots|, m') {
      forall u ensures Stored(w, u) == SizeAt(m', u) {
        MirrorSlots(r, m, t, s, u);
      }
      forall v | m'(v) > 0.0 ensures HasBest(w) && InWindow(w, v) {
        MirrorWindow(r, m, t, s, v);
      }
      MirrorsReads(w, m');
    } else if Reads(w, m') {
      ReadsIsNarrow(w, m');
    } else if Mirrors(w, m') {
      MirrorsReads(w, m');
    }
  }

  /** While the map stays narrow an update uncovers nothing. */
  lemma NarrowUncoversNothing(r: Ring, m: Prices, t: int, s: Size)
    requires r.Valid() && Mirrors(r, m) && Narrow(|r.slots|, Updated(m, t, Amount(s)))
    ensures UncoversNothing(r, t, s)
  {
    forall u | !(HasBest(r) && InWindow(r, u)) ensures !Occupied(r, u) {
      assert Stored(r, u) == SizeAt(m, u);
    }
  }

  // ---------- A list ----------

  /** There is a level at `t` before the list, or the list puts one there. */
  ghost predicate Touches(m: Prices, ls: seq<Level>, t: int) {
    m(t) > 0.0 || exists l :: l in ls && l.tick == t && Amount(l.size) > 0.0
  }

  /** The levels of the map and those that the list puts lie less than `n` apart. */
  ghost predicate Fits(n: int, m: Prices, ls: seq<Level>) {
    forall u, v :: Touches(m, ls, u) && Touches(m, ls, v) ==> u - v < n
  }

  lemma {:induction false} ListedIsPut(ls: seq<Level>, t: int)
    requires Listed(ls, t) > 0.0
    ensures exists l :: l in ls && l.tick == t && Amount(l.size) > 0.0
  {
    if ls[|ls| - 1].tick == t {
      assert ls[|ls| - 1] in ls;
    } else {
      ListedIsPut(ls[..|ls| - 1], t);
    }
  }

  lemma UpdatedTouches(m: Prices, ls: seq<Level>, t: int)
    requires UpdatedAll(m, ls)(t) > 0.0
    ensures Touches(m, ls, t)
  {
    if Only(ls, t) != [] {
      ListedIsPut(ls, t);
    }
  }

  lemma FitsNarrow(n: int, m: Prices, ls: seq<Level>)
    requires Fits(n, m, ls)
    ensures Narrow(n, UpdatedAll(m, ls))
  {
    hide UpdatedAll, Touches;
    forall u, v | UpdatedAll(m, ls)(u) > 0.0 && UpdatedAll(m, ls)(v) > 0.0 ensures u - v < n {
      UpdatedTouches(m, ls, u);
      UpdatedTouches(m, ls, v);
    }
  }

  lemma FitsFewer(n: int, m: Prices, few: seq<Level>, all: seq<Level>)
    requires Fits(n, m, all) && forall l :: l in few ==> l in all
    ensures Fits(n, m, few)
  {
    forall u, v | Touches(m, few, u) && Touches(m, few, v) ensures u - v < n {
      assert Touches(m, all, u) && Touches(m, all, v);
    }
  }

  lemma UpdatedLast(m: Prices, ls: seq<Level>, u: int)
    requires ls != []
    ensures var x := ls[|ls| - 1];
            UpdatedAll(m, ls)(u) == Updated(UpdatedAll(m, ls[..|ls| - 1]), x.tick, Amount(x.size))(u)
  {
    var init, x := ls[..|ls| - 1], ls[|ls| - 1];
    assert Only(ls, u) == Only(init, u) + At(x, u);
    if x.tick != u {
      assert Only(init, u) + [] == Only(init, u) && Listed(ls, u) == Listed(init, u);
      assert Updated(UpdatedAll(m, init), x.tick, Amount(x.size))(u) == UpdatedAll(m, init)(u);
    } else {
      assert |Only(ls, u)| == |Only(init, u)| + 1;
    }
  }

  /** The map is narrow after every level of the list. */
  ghost predicate StaysNarrow(n: int, m: Prices, ls: seq<Level>) {
    forall k :: 0 <= k <= |ls| ==> Narrow(n, UpdatedAll(m, ls[..k]))
  }

  /** The side is seen as the map after every level of the list. */
  ghost predicate ReadsThroughout(r: Ring, m: Prices, ls: seq<Level>)
    requires r.Valid()
  {
    forall k :: 0 <= k <= |ls| ==> Reads(ApplyInOrder(r, ls[..k]), UpdatedAll(m, ls[..k]))
  }

  lemma FitsStaysNarrow(n: int, m: Prices, ls: seq<Level>)
    requires Fits(n, m, ls)
    ensures StaysNarrow(n, m, ls)
  {
    hide Fits, Narrow, UpdatedAll;
    forall k | 0 <= k <= |ls| ensures Narrow(n, UpdatedAll(m, ls[..k])) {
      FitsFewer(n, m, ls[..k], ls);
      FitsNarrow(n, m, ls[..k]);
    }
  }

  lemma Regroup<T>(a: seq<T>, b: seq<T>, c: seq<T>)
    ensures (a + b) + c == a + (b + c)
  {
  }

  lemma {:induction false} OnlyAppend(a: seq<Level>, b: seq<Level>, t: int)
    ensures Only(a + b, t) == Only(a, t) + Only(b, t)
  {
    if b == [] {
      assert a + b == a;
    } else {
      hide Only, At;
      var init, x := b[..|b| - 1], b[|b| - 1];
      assert b == init + [x];
      OnlyAppend(a, init, t);
      Regroup(a, init, [x]);
      OnlyLast(a + init, x, t);
      OnlyLast(init, x, t);
      Regroup(Only(a, t), Only(init, t), At(x, t));
    }
  }

  /** Two lists written one after the other are one list. */
  lemma UpdatedAppend(m: Prices, a: seq<Level>, b: seq<Level>, t: int)
    ensures UpdatedAll(m, a + b)(t) == UpdatedAll(UpdatedAll(m, a), b)(t)
  {
    OnlyAppend(a, b, t);
    ListedIsLastOnly(a + b, t);
    ListedIsLastOnly(a, t);
    ListedIsLastOnly(b, t);
    if Only(b, t) == [] {
      assert Only(a + b, t) == Only(a, t);
    } else {
      assert Only(a + b, t)[|Only(a + b, t)| - 1] == Only(b, t)[|Only(b, t)| - 1];
    }
  }

  lemma {:induction false} MirrorUpTo(r: Ring, m: Prices, ls: seq<Level>, k: nat)
    requires r.Valid() && Mirrors(r, m) && StaysNarrow(|r.slots|, m, ls) && k <= |ls|
    ensures Mirrors(ApplyInOrder(r, ls[..k]), UpdatedAll(m, ls[..k]))
  {
    hide Mirrors, Narrow, UpdatedAll, Updated, ApplyTick;
    if k == 0 {
      forall u ensures m(u) == UpdatedAll(m, ls[..k])(u) {
        UpdatedNothing(m, u);
      }
      MirrorsSame(r, m, UpdatedAll(m, ls[..k]));
    } else {
      var x := ls[k - 1];
      MirrorUpTo(r, m, ls, k - 1);
      assert ls[..k][..k - 1] == ls[..k - 1];
      var a, b := Updated(UpdatedAll(m, ls[..k - 1]), x.tick, Amount(x.size)), UpdatedAll(m, ls[..k]);
      forall u ensures a(u) == b(u) {
        UpdatedLast(m, ls[..k], u);
      }
      assert Narrow(|r.slots|, b);
      NarrowSame(|r.slots|, b, a);
      MirrorTick(ApplyInOrder(r, ls[..k - 1]), UpdatedAll(m, ls[..k - 1]), x.tick, x.size);
      MirrorsSame(ApplyInOrder(r, ls[..k]), a, b);
    }
  }

  lemma NarrowSame(n: int, a: Prices, b: Prices)
    requires Narrow(n, a) && forall u :: a(u) == b(u)
    ensures Narrow(n, b)
  {
    forall u, v | b(u) > 0.0 && b(v) > 0.0 ensures u - v < n {
      assert a(u) > 0.0 && a(v) > 0.0;
    }
  }

  /** A side that mirrors a map is seen as the map level by level exactly when the map stays narrow. */
  lemma ReadsThroughoutIff(r: Ring, m: Prices, ls: seq<Level>)
    requires r.Valid() && Mirrors(r, m)
    ensures ReadsThroughout(r, m, ls) <==> StaysNarrow(|r.slots|, m, ls)
  {
    hide Mirrors, Narrow, UpdatedAll, Reads;
    forall k | 0 <= k <= |ls|
      ensures StaysNarrow(|r.slots|, m, ls) ==> Reads(ApplyInOrder(r, ls[..k]), UpdatedAll(m, ls[..k]))
      ensures Reads(ApplyInOrder(r, ls[..k]), UpdatedAll(m, ls[..k])) ==> Narrow(|r.slots|, UpdatedAll(m, ls[..k]))
    {
      if StaysNarrow(|r.slots|, m, ls) {
        MirrorUpTo(r, m, ls, k);
        MirrorsReads(ApplyInOrder(r, ls[..k]), UpdatedAll(m, ls[..k]));
      }
      if Reads(ApplyInOrder(r, ls[..k]), UpdatedAll(m, ls[..k])) {
        ReadsIsNarrow(ApplyInOrder(r, ls[..k]), UpdatedAll(m, ls[..k]));
      }
    }
  }

  lemma UpdatedNothing(m: Prices, u: int)
    ensures UpdatedAll(m, [])(u) == m(u)
  {
  }

  lemma UpdatedSorted(bid: bool, m: Prices, ls: seq<Level>)
    ensures forall u :: UpdatedAll(m, Sort(bid, ls))(u) == UpdatedAll(m, ls)(u)
    ensures forall l :: l in Sort(bid, ls) ==> l in ls
  {
    SortStable(bid, ls);
    SortListed(bid, ls);
    SameMembers(Sort(bid, ls), ls);
    forall u ensures UpdatedAll(m, Sort(bid, ls))(u) == UpdatedAll(m, ls)(u) {
      assert Only(Sort(bid, ls), u) == Only(ls, u);
      assert Listed(Sort(bid, ls), u) == Listed(ls, u);
    }
  }

  /** A side that mirrors a map mirrors the updated map, when the map stays narrow from the best level on. */
  lemma MirrorSide(r: Ring, m: Prices, ls: seq<Level>)
    requires r.Valid() && Mirrors(r, m) && StaysNarrow(|r.slots|, m, Sort(r.bid, ls))
    ensures Mirrors(ApplySide(r, ls), UpdatedAll(m, ls))
  {
    hide Mirrors, StaysNarrow, UpdatedAll, Sort;
    var p := Sort(r.bid, ls);
    UpdatedSorted(r.bid, m, ls);
    MirrorUpTo(r, m, p, |p|);
    assert p[..|p|] == p;
    MirrorsSame(ApplySide(r, ls), UpdatedAll(m, p), UpdatedAll(m, ls));
  }

  /** What a caller can check without sorting: old and new levels fit in one window. */
  lemma FitsSide(n: int, bid: bool, m: Prices, ls: seq<Level>)
    requires Fits(n, m, ls)
    ensures StaysNarrow(n, m, Sort(bid, ls))
  {
    hide Fits, StaysNarrow, UpdatedAll, Sort;
    UpdatedSorted(bid, m, ls);
    FitsFewer(n, m, Sort(bid, ls), ls);
    FitsStaysNarrow(n, m, Sort(bid, ls));
  }

  /** Levels that all lie in one span of `n` ticks fit. */
  lemma SpanFits(n: int, m: Prices, ls: seq<Level>, lo: int)
    requires forall t :: m(t) > 0.0 ==> lo <= t < lo + n
    requires forall l :: l in ls && Amount(l.size) > 0.0 ==> lo <= l.tick < lo + n
    ensures Fits(n, m, ls)
  {
    forall t | Touches(m, ls, t) ensures lo <= t < lo + n {
    }
  }

  lemma FreshMirrors(n: nat, bid: bool)
    requires n > 0
    ensures Mirrors(Fresh(n, bid), NO_PRICES)
  {
  }
}
