/**
 The tick ring: one side of an order book kept in `n` slots that are never cleared.

 `Ring` is the value of one side and the functions on it are its specification; the class
 `Side` below updates an array in place and is proved equal to them.  Ticks are given
 integers: mapping a price onto the grid, and 64-bit wrap-around, are not modelled.
 */
module OrderBook {
  import opened Wrappers

  /** A size as it arrives: a finite number of either sign, or NaN or an infinity. */
  datatype Size = NotFinite | Finite(amount: real)

  datatype Level = Level(tick: int, size: Size)

  datatype Slot = Slot(tick: int, size: real)

  datatype Ring = Ring(slots: seq<Slot>, best: int, bid: bool) {
    predicate Valid() { |slots| > 0 }
  }

  const EMPTY_SLOT := Slot(0, 0.0)

  /** The size a level puts at its tick: what it lists when that is a positive number, and nothing otherwise. */
  function Amount(s: Size): (q: real)
    ensures q >= 0.0
  {
    match s
    case NotFinite => 0.0
    case Finite(x) => if x > 0.0 then x else 0.0
  }

  /** As the program reads a size: NaN, the infinities and negative numbers are a zero. */
  function Normalise(s: Size): (q: real)
    ensures q == Amount(s)
  {
    if s.NotFinite? || s.amount < 0.0 then 0.0 else s.amount
  }

  predicate Better(bid: bool, a: int, b: int) {
    if bid then a > b else a < b
  }

  /** How far `t` lies on the worse side of `best`; negative when it is better. */
  function Dist(bid: bool, best: int, t: int): int {
    if bid then best - t else t - best
  }

  /** One tick outward, away from the best. */
  function Outward(bid: bool, t: int): int {
    if bid then t - 1 else t + 1
  }

  function Index(n: int, t: int): int
    requires n > 0
  {
    t % n
  }

  /** The slot of `t` holds `t` with a positive size. */
  predicate Occupied(r: Ring, t: int)
    requires r.Valid()
  {
    var slot := r.slots[Index(|r.slots|, t)];
    slot.tick == t && slot.size > 0.0
  }

  function Stored(r: Ring, t: int): Option<real>
    requires r.Valid()
  {
    if Occupied(r, t) then Some(r.slots[Index(|r.slots|, t)].size) else None
  }

  predicate HasBest(r: Ring)
    requires r.Valid()
  {
    Occupied(r, r.best)
  }

  predicate InWindow(r: Ring, t: int) {
    0 <= Dist(r.bid, r.best, t) < |r.slots|
  }

  /** What a reader sees at `t`. */
  function Qty(r: Ring, t: int): Option<real>
    requires r.Valid()
  {
    if HasBest(r) && InWindow(r, t) then Stored(r, t) else None
  }

  function Write(r: Ring, t: int, q: real): (w: Ring)
    requires r.Valid()
    ensures w.Valid() && |w.slots| == |r.slots|
  {
    r.(slots := r.slots[Index(|r.slots|, t) := Slot(t, q)])
  }

  /** The first occupied tick among the `k` ticks from `t` outward. */
  function Scan(r: Ring, t: int, k: nat): Option<int>
    requires r.Valid()
    decreases k
  {
    if k == 0 then None
    else if Occupied(r, t) then Some(t)
    else Scan(r, Outward(r.bid, t), k - 1)
  }

  function Retreat(r: Ring): (w: Ring)
    requires r.Valid()
    ensures w.Valid() && |w.slots| == |r.slots| && w.bid == r.bid
  {
    match Scan(r, Outward(r.bid, r.best), |r.slots| - 1)
    case Some(t) => r.(best := t)
    case None => r
  }

  function ApplyTick(r: Ring, t: int, s: Size): (w: Ring)
    requires r.Valid()
    ensures w.Valid() && |w.slots| == |r.slots| && w.bid == r.bid
  {
    var q := Normalise(s);
    if !HasBest(r) || Better(r.bid, t, r.best) then
      if q == 0.0 then r else Write(r, t, q).(best := t)
    else if Dist(r.bid, r.best, t) >= |r.slots| then r
    else if t == r.best && q == 0.0 then Retreat(Write(r, t, q))
    else Write(r, t, q)
  }

  // ---------- One update ----------

  lemma SameIndexFarApart(n: int, a: int, b: int)
    requires n > 0 && a != b && Index(n, a) == Index(n, b)
    ensures a - b >= n || b - a >= n
  {
    var i, j, rest := a / n, b / n, a % n;
    assert a == n * i + rest;
    assert b == n * j + rest;
    if i > j {
      MulGrows(n, i, j);
    } else if i < j {
      MulGrows(n, j, i);
    }
  }

  lemma MulGrows(n: int, i: int, j: int)
    requires n > 0 && i > j
    ensures n * i - n * j >= n
  {
    assert n * i - n * j == n * (i - j);
    assert n * (i - j - 1) >= 0;
  }

  /** A write changes what is stored only at the written tick and at a tick that it evicts. */
  lemma WriteStored(r: Ring, t: int, q: real, u: int)
    requires r.Valid() && q >= 0.0
    ensures Stored(Write(r, t, q), t) == if q > 0.0 then Some(q) else None
    ensures u != t && Index(|r.slots|, u) != Index(|r.slots|, t) ==> Stored(Write(r, t, q), u) == Stored(r, u)
    ensures u != t && Index(|r.slots|, u) == Index(|r.slots|, t) ==> Stored(Write(r, t, q), u) == None
  {
  }

  /** `Scan` lands on the nearest occupied tick, or there is none within reach. */
  lemma {:induction false} ScanNearest(r: Ring, t: int, k: nat)
    requires r.Valid()
    decreases k
    ensures match Scan(r, t, k)
            case None => forall u :: 0 <= Dist(r.bid, t, u) < k ==> !Occupied(r, u)
            case Some(f) =>
              && 0 <= Dist(r.bid, t, f) < k && Occupied(r, f)
              && forall u :: 0 <= Dist(r.bid, t, u) < Dist(r.bid, t, f) ==> !Occupied(r, u)
  {
    if k > 0 && !Occupied(r, t) {
      var o := Outward(r.bid, t);
      ScanNearest(r, o, k - 1);
      assert forall u :: Dist(r.bid, t, u) == Dist(r.bid, o, u) + 1;
      assert forall u :: Dist(r.bid, t, u) == 0 ==> u == t;
    }
  }

  /** Where the best stands after one update. */
  lemma BestAfter(r: Ring, t: int, s: Size)
    requires r.Valid()
    ensures var w, q := ApplyTick(r, t, s), Amount(s);
            if q > 0.0 && (!HasBest(r) || Better(r.bid, t, r.best)) then
              HasBest(w) && w.best == t
            else if HasBest(r) && (t != r.best || q > 0.0) then
              HasBest(w) && w.best == r.best
            else if HasBest(r) && HasBest(w) then
              // the best was deleted: the next occupied tick of the same window takes over
              && t == r.best && InWindow(r, w.best) && w.best != t && Occupied(r, w.best)
              && forall u :: InWindow(r, u) && Dist(r.bid, r.best, u) < Dist(r.bid, r.best, w.best) ==>
                   u == t || !Occupied(r, u)
            else
              !HasBest(w) && (HasBest(r) ==> forall u :: InWindow(r, u) && u != t ==> !Occupied(r, u))
  {
    var w, q, n := ApplyTick(r, t, s), Amount(s), |r.slots|;
    if HasBest(r) && t != r.best && InWindow(r, t) && Index(n, t) == Index(n, r.best) {
      SameIndexFarApart(n, t, r.best);
    }
    if HasBest(r) && t == r.best && q == 0.0 {
      var d := Write(r, t, q);
      ScanNearest(d, Outward(r.bid, r.best), n - 1);
      forall u | InWindow(r, u) && u != t
        ensures Occupied(d, u) == Occupied(r, u)
        ensures Dist(r.bid, r.best, u) == Dist(r.bid, Outward(r.bid, r.best), u) + 1
      {
        if Index(n, u) == Index(n, t) {
          SameIndexFarApart(n, u, t);
        }
      }
    }
  }

  /**
   One update, seen by a reader, tick by tick: the written tick reads back what was written
   (unless it was out of reach), and every other tick in the new window reads what its slot
   already held, even a level left behind by an earlier window.
   */
  lemma ApplyTickExact(r: Ring, t: int, s: Size, u: int)
    requires r.Valid()
    ensures var w := ApplyTick(r, t, s);
            Qty(w, u) ==
              if u == t then
                (match s
                 case NotFinite => None
                 case Finite(x) =>
                   if x > 0.0 && (!HasBest(r) || Dist(r.bid, r.best, t) < |r.slots|) then Some(x) else None)
              else if HasBest(w) && InWindow(w, u) then Stored(r, u)
              else None
  {
    var w, q, n := ApplyTick(r, t, s), Amount(s), |r.slots|;
    BestAfter(r, t, s);
    WriteStored(r, t, q, u);
    if u != t && HasBest(w) && InWindow(w, u) && Index(n, u) == Index(n, t) {
      SameIndexFarApart(n, u, t);
    }
  }

  /** An update never disturbs another level that lies in both the old and the new window. */
  lemma ApplyTickFrame(r: Ring, t: int, s: Size, u: int)
    requires r.Valid() && HasBest(r) && HasBest(ApplyTick(r, t, s))
    requires u != t && InWindow(r, u) && InWindow(ApplyTick(r, t, s), u)
    ensures Qty(ApplyTick(r, t, s), u) == Qty(r, u)
  {
    ApplyTickExact(r, t, s, u);
  }

  /** A window that started at `best` would show no level, but `t`, that the present one hides. */
  ghost predicate HidesNothing(r: Ring, best: int, t: int)
    requires r.Valid()
  {
    forall u :: u != t && 0 <= Dist(r.bid, best, u) < |r.slots| && !(HasBest(r) && InWindow(r, u)) ==> !Occupied(r, u)
  }

  /** `f` is the nearest level of the window behind the best. */
  ghost predicate SecondBest(r: Ring, f: int)
    requires r.Valid()
  {
    && InWindow(r, f) && f != r.best && Occupied(r, f)
    && forall u :: InWindow(r, u) && u != r.best && Dist(r.bid, r.best, u) < Dist(r.bid, r.best, f) ==> !Occupied(r, u)
  }

  /** The window stays, or moves over no level left behind. */
  ghost predicate UncoversNothing(r: Ring, t: int, s: Size)
    requires r.Valid()
  {
    if Amount(s) > 0.0 && (!HasBest(r) || Better(r.bid, t, r.best)) then HidesNothing(r, t, t)
    else if HasBest(r) && t == r.best && Amount(s) == 0.0 then
      forall f :: SecondBest(r, f) ==> HidesNothing(r, f, t)
    else true
  }

  lemma SecondBestUnique(r: Ring, f: int, g: int)
    requires r.Valid() && SecondBest(r, f) && SecondBest(r, g)
    ensures f == g
  {
  }

  /** The update uncovers nothing exactly when no slot of its new window outside the old one holds a level. */
  lemma UncoversAfter(r: Ring, t: int, s: Size)
    requires r.Valid()
    ensures var w := ApplyTick(r, t, s);
            UncoversNothing(r, t, s) <==>
            forall u :: u != t && HasBest(w) && InWindow(w, u) && !(HasBest(r) && InWindow(r, u)) ==> !Occupied(r, u)
  {
    hide ApplyTick, Occupied;
    var w := ApplyTick(r, t, s);
    BestAfter(r, t, s);
    assert |w.slots| == |r.slots| && w.bid == r.bid;
    if HasBest(r) && t == r.best && Amount(s) == 0.0 {
      if HasBest(w) {
        assert SecondBest(r, w.best);
        forall f | SecondBest(r, f) ensures f == w.best {
          SecondBestUnique(r, f, w.best);
        }
      }
    }
  }

  /**
   An update acts like a write to a price map that is then cut to the new window exactly when
   it uncovers no level left behind.
   */
  lemma ApplyTickIsMapUpdateIff(r: Ring, t: int, s: Size)
    requires r.Valid()
    ensures var w := ApplyTick(r, t, s);
            (forall u :: u != t ==> Qty(w, u) == if HasBest(w) && InWindow(w, u) then Qty(r, u) else None)
            <==> UncoversNothing(r, t, s)
  {
    hide UncoversNothing, ApplyTick;
    var w := ApplyTick(r, t, s);
    UncoversAfter(r, t, s);
    forall u ensures u != t ==> Qty(w, u) == if HasBest(w) && InWindow(w, u) then Stored(r, u) else None {
      ApplyTickExact(r, t, s, u);
    }
    if forall u :: u != t ==> Qty(w, u) == if HasBest(w) && InWindow(w, u) then Qty(r, u) else None {
      forall u | u != t && HasBest(w) && InWindow(w, u) && !(HasBest(r) && InWindow(r, u)) ensures !Occupied(r, u) {
        assert Qty(w, u) == Qty(r, u) == None;
      }
    }
  }

  /**
   The ring is not a price map: a level that slid out of the window comes back when a later
   window covers its slot again, although nothing was written to it in between.
   */
  lemma LeftBehindLevelReturns()
    ensures var r := Ring(seq(8, i => EMPTY_SLOT), 0, true);
            var r1 := ApplyTick(r, 99, Finite(2.0));
            var r2 := ApplyTick(r1, 108, Finite(3.0));
            var r3 := ApplyTick(r2, 108, Finite(0.0));
            var r4 := ApplyTick(r3, 106, Finite(1.0));
            && Qty(r1, 99) == Some(2.0)
            && Qty(r2, 99) == None && !HasBest(r3)
            && Qty(r4, 99) == Some(2.0)
  {
    var r := Ring(seq(8, i => EMPTY_SLOT), 0, true);
    var r1 := ApplyTick(r, 99, Finite(2.0));
    assert r1 == Write(r, 99, 2.0).(best := 99);
    var r2 := ApplyTick(r1, 108, Finite(3.0));
    assert r2 == Write(r1, 108, 3.0).(best := 108);
    var r3 := ApplyTick(r2, 108, Finite(0.0));
    BestAfter(r2, 108, Finite(0.0));
    assert forall u :: InWindow(r2, u) && Occupied(r2, u) ==> u == 108;
    var r4 := ApplyTick(r3, 106, Finite(1.0));
    ApplyTickExact(r2, 108, Finite(0.0), 99);
    ApplyTickExact(r3, 106, Finite(1.0), 99);
  }

  // ---------- Listing a side ----------

  /** The occupied ticks among the `k` ticks from `t` outward, nearest first. */
  function Walk(r: Ring, t: int, k: nat): seq<(int, real)>
    requires r.Valid()
    decreases k
  {
    if k == 0 then []
    else
      (if Occupied(r, t) then [(t, r.slots[Index(|r.slots|, t)].size)] else [])
      + Walk(r, Outward(r.bid, t), k - 1)
  }

  function Take<T>(s: seq<T>, k: int): seq<T> {
    if k <= 0 then [] else if k < |s| then s[..k] else s
  }

  function Listing(r: Ring, limit: int): seq<(int, real)>
    requires r.Valid()
  {
    if !HasBest(r) then [] else Take(Walk(r, r.best, |r.slots|), limit)
  }

  lemma {:induction false} WalkMembers(r: Ring, t: int, k: nat, u: int, q: real)
    requires r.Valid()
    ensures (u, q) in Walk(r, t, k) <==> 0 <= Dist(r.bid, t, u) < k && Stored(r, u) == Some(q)
    decreases k
  {
    if k > 0 {
      var head := if Occupied(r, t) then [(t, r.slots[Index(|r.slots|, t)].size)] else [];
      var tail := Walk(r, Outward(r.bid, t), k - 1);
      assert (u, q) in head + tail <==> (u, q) in head || (u, q) in tail;
      WalkMembers(r, Outward(r.bid, t), k - 1, u, q);
    }
  }

  lemma {:induction false} WalkOutward(r: Ring, t: int, k: nat)
    requires r.Valid()
    ensures forall i, j :: 0 <= i < j < |Walk(r, t, k)| ==> Better(r.bid, Walk(r, t, k)[i].0, Walk(r, t, k)[j].0)
    ensures |Walk(r, t, k)| <= k
    decreases k
  {
    if k > 0 {
      var tail := Walk(r, Outward(r.bid, t), k - 1);
      WalkOutward(r, Outward(r.bid, t), k - 1);
      forall j | 0 <= j < |tail| ensures Better(r.bid, t, tail[j].0) {
        WalkMembers(r, Outward(r.bid, t), k - 1, tail[j].0, tail[j].1);
        assert (tail[j].0, tail[j].1) in tail;
      }
    }
  }

  /** A listing is exactly what `Qty` shows, best outward, cut at `limit`. */
  lemma ListingExact(r: Ring, limit: int)
    requires r.Valid()
    ensures forall u, q :: (u, q) in Listing(r, |r.slots|) <==> Qty(r, u) == Some(q)
    ensures var all := Listing(r, |r.slots|);
            Listing(r, limit) <= all &&
            |Listing(r, limit)| == if limit <= 0 then 0 else if limit < |all| then limit else |all|
    ensures limit > 0 && HasBest(r) ==> |Listing(r, limit)| > 0 && Listing(r, limit)[0].0 == r.best
    ensures forall i, j :: 0 <= i < j < |Listing(r, limit)| ==>
              Better(r.bid, Listing(r, limit)[i].0, Listing(r, limit)[j].0)
  {
    WalkOutward(r, r.best, |r.slots|);
    forall u, q ensures (u, q) in Listing(r, |r.slots|) <==> Qty(r, u) == Some(q) {
      WalkMembers(r, r.best, |r.slots|, u, q);
    }
  }

  // ---------- Ordering one update ----------

  predicate Worse(bid: bool, a: Level, b: Level) {
    Better(bid, b.tick, a.tick)
  }

  /** Puts `x` behind every level of `s` that is not worse, scanning from the end. */
  function Insert(bid: bool, s: seq<Level>, x: Level): (o: seq<Level>)
    ensures |o| == |s| + 1
  {
    if s == [] || !Worse(bid, s[|s| - 1], x) then s + [x]
    else Insert(bid, s[..|s| - 1], x) + [s[|s| - 1]]
  }

  function Sort(bid: bool, ls: seq<Level>): (o: seq<Level>)
    ensures |o| == |ls|
  {
    if ls == [] then [] else Insert(bid, Sort(bid, ls[..|ls| - 1]), ls[|ls| - 1])
  }

  ghost predicate BestFirst(bid: bool, s: seq<Level>) {
    forall i, j :: 0 <= i < j < |s| ==> !Worse(bid, s[i], s[j])
  }

  /** The levels of `ls` at tick `t`, in the order they were listed. */
  function Only(ls: seq<Level>, t: int): seq<Level> {
    if ls == [] then []
    else Only(ls[..|ls| - 1], t) + At(ls[|ls| - 1], t)
  }

  function At(x: Level, t: int): seq<Level> {
    if x.tick == t then [x] else []
  }

  /** Same levels, with the levels of every tick in the same order. */
  ghost predicate SameUpToTickOrder(a: seq<Level>, b: seq<Level>) {
    forall t :: Only(a, t) == Only(b, t)
  }

  lemma OnlyLast(s: seq<Level>, x: Level, t: int)
    ensures Only(s + [x], t) == Only(s, t) + At(x, t)
  {
    assert (s + [x])[..|s + [x]| - 1] == s;
  }

  lemma {:induction false} OnlyMembers(ls: seq<Level>, t: int)
    ensures forall x :: x in Only(ls, t) ==> x in ls && x.tick == t
    ensures forall x :: x in ls && x.tick == t ==> x in Only(ls, t)
  {
    if ls != [] {
      OnlyMembers(ls[..|ls| - 1], t);
      assert ls == ls[..|ls| - 1] + [ls[|ls| - 1]];
    }
  }

  lemma {:induction false} InsertBestFirst(bid: bool, s: seq<Level>, x: Level)
    requires BestFirst(bid, s)
    ensures BestFirst(bid, Insert(bid, s, x))
    ensures forall y :: y in Insert(bid, s, x) ==> y in s || y == x
  {
    if s != [] && Worse(bid, s[|s| - 1], x) {
      InsertBestFirst(bid, s[..|s| - 1], x);
      var o := Insert(bid, s[..|s| - 1], x);
      forall i | 0 <= i < |o| ensures !Worse(bid, o[i], s[|s| - 1]) {
        assert o[i] in o;
      }
    }
  }

  lemma {:induction false} InsertOnly(bid: bool, s: seq<Level>, x: Level, t: int)
    ensures Only(Insert(bid, s, x), t) == Only(s + [x], t)
  {
    if s != [] && Worse(bid, s[|s| - 1], x) {
      var init, last := s[..|s| - 1], s[|s| - 1];
      InsertOnly(bid, init, x, t);
      OnlyLast(Insert(bid, init, x), last, t);
      OnlyLast(init, x, t);
      OnlyLast(s, x, t);
      SwapApart(Only(init, t), At(x, t), At(last, t));
    } else {
      assert Insert(bid, s, x) == s + [x];
    }
  }

  lemma SwapApart<T>(a: seq<T>, b: seq<T>, c: seq<T>)
    requires b == [] || c == []
    ensures a + b + c == a + c + b
  {
  }

  lemma {:induction false} SortBestFirst(bid: bool, ls: seq<Level>)
    ensures BestFirst(bid, Sort(bid, ls))
  {
    if ls != [] {
      SortBestFirst(bid, ls[..|ls| - 1]);
      InsertBestFirst(bid, Sort(bid, ls[..|ls| - 1]), ls[|ls| - 1]);
    }
  }

  lemma {:induction false} SortOnly(bid: bool, ls: seq<Level>, t: int)
    ensures Only(Sort(bid, ls), t) == Only(ls, t)
  {
    if ls != [] {
      var init, x := ls[..|ls| - 1], ls[|ls| - 1];
      SortOnly(bid, init, t);
      InsertOnly(bid, Sort(bid, init), x, t);
      OnlyLast(Sort(bid, init), x, t);
    }
  }

  /** The sort is stable and best first; `SortUnique` says that this pins it down. */
  lemma SortStable(bid: bool, ls: seq<Level>)
    ensures BestFirst(bid, Sort(bid, ls))
    ensures SameUpToTickOrder(Sort(bid, ls), ls)
  {
    SortBestFirst(bid, ls);
    forall t {
      SortOnly(bid, ls, t);
    }
  }

  lemma SameMembers(a: seq<Level>, b: seq<Level>)
    requires SameUpToTickOrder(a, b)
    ensures forall x :: x in a ==> x in b
  {
    forall x | x in a ensures x in b {
      assert Only(a, x.tick) == Only(b, x.tick);
      OnlyMembers(a, x.tick);
      OnlyMembers(b, x.tick);
    }
  }

  lemma {:induction false} SortUnique(bid: bool, a: seq<Level>, b: seq<Level>)
    requires BestFirst(bid, a) && BestFirst(bid, b) && SameUpToTickOrder(a, b)
    ensures a == b
  {
    SameMembers(a, b);
    SameMembers(b, a);
    assert a != [] ==> a[0] in b;
    assert b != [] ==> b[0] in a;
    if a != [] {
      SameLastTick(bid, a, b);
      var t := a[|a| - 1].tick;
      assert Only(a, t) == Only(b, t);
      SameLast(a, b, t);
      SameInit(a, b);
      SortUnique(bid, a[..|a| - 1], b[..|b| - 1]);
    }
  }

  lemma SameLast(a: seq<Level>, b: seq<Level>, t: int)
    requires a != [] && b != [] && a[|a| - 1].tick == b[|b| - 1].tick == t
    requires Only(a, t) == Only(b, t)
    ensures a[|a| - 1] == b[|b| - 1]
  {
    assert Only(a, t)[|Only(a, t)| - 1] == a[|a| - 1];
  }

  lemma SameInit(a: seq<Level>, b: seq<Level>)
    requires a != [] && b != [] && a[|a| - 1] == b[|b| - 1]
    requires SameUpToTickOrder(a, b)
    ensures SameUpToTickOrder(a[..|a| - 1], b[..|b| - 1])
  {
    var a', b' := a[..|a| - 1], b[..|b| - 1];
    forall t ensures Only(a', t) == Only(b', t) {
      assert Only(a, t) == Only(b, t);
      CancelRight(Only(a', t), Only(b', t), At(a[|a| - 1], t));
    }
  }

  lemma CancelRight<T>(a: seq<T>, b: seq<T>, c: seq<T>)
    requires a + c == b + c
    ensures a == b
  {
    assert a == (a + c)[..|a|];
  }

  lemma SameLastTick(bid: bool, a: seq<Level>, b: seq<Level>)
    requires a != [] && b != []
    requires BestFirst(bid, a) && BestFirst(bid, b) && SameUpToTickOrder(a, b)
    ensures a[|a| - 1].tick == b[|b| - 1].tick
  {
    var x, y := a[|a| - 1], b[|b| - 1];
    SameMembers(a, b);
    SameMembers(b, a);
    assert x in b && y in a;
    var i :| 0 <= i < |b| && b[i] == x;
    var j :| 0 <= j < |a| && a[j] == y;
  }

  /** Applies levels in the order given. */
  function ApplyInOrder(r: Ring, ls: seq<Level>): (w: Ring)
    requires r.Valid()
    ensures w.Valid() && |w.slots| == |r.slots| && w.bid == r.bid
  {
    if ls == [] then r
    else ApplyTick(ApplyInOrder(r, ls[..|ls| - 1]), ls[|ls| - 1].tick, ls[|ls| - 1].size)
  }

  lemma {:induction false} ApplyNext(r: Ring, p: seq<Level>, i: nat)
    requires r.Valid() && i < |p|
    ensures ApplyInOrder(r, p[..i + 1]) == ApplyTick(ApplyInOrder(r, p[..i]), p[i].tick, p[i].size)
  {
    assert p[..i + 1][..i] == p[..i];
  }

  function ApplySide(r: Ring, ls: seq<Level>): (w: Ring)
    requires r.Valid()
    ensures w.Valid() && |w.slots| == |r.slots| && w.bid == r.bid
  {
    ApplyInOrder(r, Sort(r.bid, ls))
  }

  /** Reordering a slice does not matter, as long as the levels of one tick keep their order. */
  lemma ApplyOrderIrrelevant(r: Ring, a: seq<Level>, b: seq<Level>)
    requires r.Valid() && SameUpToTickOrder(a, b)
    ensures ApplySide(r, a) == ApplySide(r, b)
  {
    SortStable(r.bid, a);
    SortStable(r.bid, b);
    forall t ensures Only(Sort(r.bid, a), t) == Only(Sort(r.bid, b), t) {
      assert Only(a, t) == Only(b, t);
    }
    SortUnique(r.bid, Sort(r.bid, a), Sort(r.bid, b));
  }

  // ---------- A level list on a fresh side ----------

  function Fresh(n: nat, bid: bool): (r: Ring)
    requires n > 0
    ensures r.Valid() && |r.slots| == n && r.bid == bid
  {
    Ring(seq(n, i => EMPTY_SLOT), 0, bid)
  }

  /** The last size listed for `t`, zero when there is none. */
  function Listed(ls: seq<Level>, t: int): (q: real)
    ensures q >= 0.0
  {
    if ls == [] then 0.0
    else if ls[|ls| - 1].tick == t then Amount(ls[|ls| - 1].size)
    else Listed(ls[..|ls| - 1], t)
  }

  lemma {:induction false} ListedIsLastOnly(ls: seq<Level>, t: int)
    ensures Listed(ls, t) ==
              var o := Only(ls, t); if o == [] then 0.0 else Amount(o[|o| - 1].size)
  {
    if ls != [] && ls[|ls| - 1].tick != t {
      ListedIsLastOnly(ls[..|ls| - 1], t);
    }
  }

  /** What a side built from the best-first list `p` alone holds, slot by slot. */
  ghost predicate Holds(r: Ring, p: seq<Level>)
    requires r.Valid()
  {
    && (HasBest(r) ==> Listed(p, r.best) > 0.0)
    && (forall v :: Listed(p, v) > 0.0 ==> HasBest(r) && !Better(r.bid, v, r.best))
    && (forall u :: Stored(r, u) ==
                      if Listed(p, u) > 0.0 && HasBest(r) && Dist(r.bid, r.best, u) < |r.slots|
                      then Some(Listed(p, u)) else None)
  }

  lemma {:induction false} ListedBehind(bid: bool, p: seq<Level>, t: int, x: Level)
    requires forall l :: l in p ==> !Worse(bid, l, x)
    requires Listed(p, t) > 0.0
    ensures !Better(bid, x.tick, t)
  {
    if p[|p| - 1].tick == t {
      assert p[|p| - 1] in p;
    } else {
      ListedBehind(bid, p[..|p| - 1], t, x);
    }
  }

  lemma ListedAppend(p: seq<Level>, x: Level, u: int)
    ensures Listed(p + [x], u) == if u == x.tick then Amount(x.size) else Listed(p, u)
  {
    assert (p + [x])[..|p + [x]| - 1] == p;
  }

  lemma HoldsStepBest(r: Ring, p: seq<Level>, x: Level)
    requires r.Valid() && Holds(r, p)
    requires forall l :: l in p ==> !Worse(r.bid, l, x)
    ensures var w := ApplyTick(r, x.tick, x.size);
            && (HasBest(w) ==> Listed(p + [x], w.best) > 0.0)
            && forall v :: Listed(p + [x], v) > 0.0 ==> HasBest(w) && !Better(w.bid, v, w.best)
  {
    var w := ApplyTick(r, x.tick, x.size);
    BestAfter(r, x.tick, x.size);
    ListedAppend(p, x, w.best);
    forall v | Listed(p + [x], v) > 0.0 ensures HasBest(w) && !Better(w.bid, v, w.best) {
      ListedAppend(p, x, v);
      if v != x.tick {
        ListedBehind(r.bid, p, v, x);
      }
    }
  }

  lemma HoldsStepSlot(r: Ring, p: seq<Level>, x: Level, u: int)
    requires r.Valid() && Holds(r, p)
    requires forall l :: l in p ==> !Worse(r.bid, l, x)
    ensures var w := ApplyTick(r, x.tick, x.size);
            Stored(w, u) == if Listed(p + [x], u) > 0.0 && HasBest(w) && Dist(r.bid, w.best, u) < |r.slots|
                            then Some(Listed(p + [x], u)) else None
  {
    var n := |r.slots|;
    BestAfter(r, x.tick, x.size);
    ListedAppend(p, x, u);
    WriteStored(r, x.tick, Amount(x.size), u);
    if HasBest(r) {
      ListedBehind(r.bid, p, r.best, x);
    }
    if Listed(p, u) > 0.0 {
      ListedBehind(r.bid, p, u, x);
    }
    if u != x.tick && Index(n, u) == Index(n, x.tick) {
      SameIndexFarApart(n, u, x.tick);
    }
  }

  lemma HoldsStep(r: Ring, p: seq<Level>, x: Level)
    requires r.Valid() && Holds(r, p)
    requires forall l :: l in p ==> !Worse(r.bid, l, x)
    ensures Holds(ApplyTick(r, x.tick, x.size), p + [x])
  {
    HoldsStepBest(r, p, x);
    forall u {
      HoldsStepSlot(r, p, x, u);
    }
  }

  lemma {:induction false} HoldsInOrder(n: nat, bid: bool, p: seq<Level>)
    requires n > 0 && BestFirst(bid, p)
    ensures Holds(ApplyInOrder(Fresh(n, bid), p), p)
  {
    if p != [] {
      var init := p[..|p| - 1];
      HoldsInOrder(n, bid, init);
      HoldsStep(ApplyInOrder(Fresh(n, bid), init), init, p[|p| - 1]);
      assert init + [p[|p| - 1]] == p;
    }
  }

  lemma SortListed(bid: bool, ls: seq<Level>)
    ensures BestFirst(bid, Sort(bid, ls))
    ensures forall v :: Listed(Sort(bid, ls), v) == Listed(ls, v)
  {
    SortStable(bid, ls);
    forall v ensures Listed(Sort(bid, ls), v) == Listed(ls, v) {
      ListedIsLastOnly(Sort(bid, ls), v);
      ListedIsLastOnly(ls, v);
      assert Only(Sort(bid, ls), v) == Only(ls, v);
    }
  }

  /** `u` is less than `n` behind every listed positive tick, hence behind the best of them. */
  ghost predicate WithinReach(n: nat, bid: bool, ls: seq<Level>, u: int) {
    forall v :: Listed(ls, v) > 0.0 ==> Dist(bid, v, u) < n
  }

  lemma HoldsReads(r: Ring, p: seq<Level>, u: int)
    requires r.Valid() && Holds(r, p)
    ensures Qty(r, u) ==
              if Listed(p, u) > 0.0 && WithinReach(|r.slots|, r.bid, p, u) then Some(Listed(p, u)) else None
  {
    if Listed(p, u) > 0.0 && Dist(r.bid, r.best, u) < |r.slots| {
      forall v | Listed(p, v) > 0.0 ensures Dist(r.bid, v, u) < |r.slots| {
        assert !Better(r.bid, v, r.best);
      }
    }
  }

  /**
   Installing a list on a fresh side shows exactly the ticks less than `n` behind every
   listed positive tick, each with the last size listed for it.
   */
  lemma InstallExact(n: nat, bid: bool, ls: seq<Level>, u: int)
    requires n > 0
    ensures Qty(ApplySide(Fresh(n, bid), ls), u) ==
              if Listed(ls, u) > 0.0 && WithinReach(n, bid, ls, u) then Some(Listed(ls, u)) else None
  {
    var p := Sort(bid, ls);
    SortListed(bid, ls);
    HoldsInOrder(n, bid, p);
    HoldsReads(ApplySide(Fresh(n, bid), ls), p, u);
    assert forall v :: Listed(p, v) == Listed(ls, v);
    assert WithinReach(n, bid, p, u) == WithinReach(n, bid, ls, u);
  }

  // ---------- A level list on any side ----------

  lemma {:induction false} LastAt(p: seq<Level>, t: int) returns (j: nat)
    requires Only(p, t) != []
    ensures j < |p| && p[j].tick == t && Only(p, t)[|Only(p, t)| - 1] == p[j]
    ensures forall k :: j < k < |p| ==> p[k].tick != t
  {
    j := |p| - 1;
    if p[j].tick != t {
      assert Only(p[..j], t) == Only(p, t);
      j := LastAt(p[..j], t);
    }
  }

  /** Levels worse than `t` leave what is read at `t`, or put it out of the window. */
  lemma {:induction false} WorseLeave(r: Ring, b: seq<Level>, t: int, q: Option<real>)
    requires r.Valid() && (forall l :: l in b ==> Better(r.bid, t, l.tick))
    requires HasBest(r) && InWindow(r, t) ==> Stored(r, t) == q
    ensures var w := ApplyInOrder(r, b); HasBest(w) && InWindow(w, t) ==> Stored(w, t) == q
  {
    if b != [] {
      var init, x := b[..|b| - 1], b[|b| - 1];
      assert x in b;
      WorseLeave(r, init, t, q);
      BestAfter(ApplyInOrder(r, init), x.tick, x.size);
      ApplyTickExact(ApplyInOrder(r, init), x.tick, x.size, t);
    }
  }

  lemma {:induction false} ApplyJoined(r: Ring, a: seq<Level>, b: seq<Level>)
    requires r.Valid()
    ensures ApplyInOrder(r, a + b) == ApplyInOrder(ApplyInOrder(r, a), b)
  {
    if b == [] {
      assert a + b == a;
    } else {
      ApplyJoined(r, a, b[..|b| - 1]);
      assert (a + b)[..|a + b| - 1] == a + b[..|b| - 1];
    }
  }

  lemma BehindIsWorse(bid: bool, p: seq<Level>, j: nat)
    requires BestFirst(bid, p) && j < |p| && forall k :: j < k < |p| ==> p[k].tick != p[j].tick
    ensures forall l :: l in p[j + 1..] ==> Better(bid, p[j].tick, l.tick)
  {
    forall l | l in p[j + 1..] ensures Better(bid, p[j].tick, l.tick) {
      var k :| 0 <= k < |p| - j - 1 && p[j + 1..][k] == l;
      assert p[j + 1 + k] == l && !Worse(bid, p[j], p[j + 1 + k]);
    }
  }

  lemma ApplyAround(r: Ring, p: seq<Level>, j: nat)
    requires r.Valid() && j < |p|
    ensures ApplyInOrder(r, p) ==
              ApplyInOrder(ApplyTick(ApplyInOrder(r, p[..j]), p[j].tick, p[j].size), p[j + 1..])
  {
    hide ApplyInOrder, ApplyTick;
    assert p == p[..j + 1] + p[j + 1..];
    ApplyJoined(r, p[..j + 1], p[j + 1..]);
    ApplyNext(r, p, j);
  }

  /**
   After a slice has been applied to any side, a tick that it lists reads the last size listed for
   it, if that is a positive number and the tick is inside the window; otherwise nothing.
   */
  lemma ApplySideListed(r: Ring, ls: seq<Level>, t: int)
    requires r.Valid() && Only(ls, t) != []
    ensures var w := ApplySide(r, ls);
            Qty(w, t) ==
              match Only(ls, t)[|Only(ls, t)| - 1].size
              case NotFinite => None
              case Finite(x) => if x > 0.0 && HasBest(w) && InWindow(w, t) then Some(x) else None
  {
    hide ApplyTick, ApplyInOrder, Only, Sort, BestFirst, Stored, HasBest, InWindow;
    var p := Sort(r.bid, ls);
    SortStable(r.bid, ls);
    assert Only(p, t) == Only(ls, t);
    var j := LastAt(p, t);
    BehindIsWorse(r.bid, p, j);
    ApplyAround(r, p, j);
    var before, x := ApplyInOrder(r, p[..j]), p[j];
    var after := ApplyTick(before, t, x.size);
    var w := ApplyInOrder(after, p[j + 1..]);
    ListedNow(before, t, x.size);
    WorseLeave(after, p[j + 1..], t, PutAt(x.size));
  }

  /** What a size shows where it is written. */
  function PutAt(s: Size): Option<real> {
    match s
    case NotFinite => None
    case Finite(x) => if x > 0.0 then Some(x) else None
  }

  lemma ListedNow(r: Ring, t: int, s: Size)
    requires r.Valid()
    ensures var w := ApplyTick(r, t, s); HasBest(w) && InWindow(w, t) ==> Stored(w, t) == PutAt(s)
  {
    hide ApplyTick;
    ApplyTickExact(r, t, s, t);
    BestAfter(r, t, s);
  }

  // ---------- The window in so many words ----------

  /** The best bid is the highest visible tick and the best ask the lowest; the window lies behind it. */
  lemma VisibleBehindBest(r: Ring, u: int)
    requires r.Valid() && Qty(r, u).Some?
    ensures Qty(r, r.best).Some? && Qty(r, u).value > 0.0
    ensures if r.bid then r.best - |r.slots| < u <= r.best else r.best <= u < r.best + |r.slots|
  {
  }

  // ---------- The side, updated in place ----------

  /** The levels that `idx` names, in that order. */
  ghost function Picked(ls: seq<Level>, idx: seq<nat>): (p: seq<Level>)
    requires forall k :: 0 <= k < |idx| ==> idx[k] < |ls|
    ensures |p| == |idx|
  {
    seq(|idx|, k requires 0 <= k < |idx| => ls[idx[k]])
  }

  /** `Insert`, on the indexes of levels whose ticks are `ts`. */
  ghost function InsertIndex(bid: bool, ts: seq<int>, s: seq<nat>, v: nat): (o: seq<nat>)
    requires v < |ts| && forall k :: 0 <= k < |s| ==> s[k] < |ts|
    ensures |o| == |s| + 1 && forall k :: 0 <= k < |o| ==> o[k] < |ts|
  {
    if s == [] || !Better(bid, ts[v], ts[s[|s| - 1]]) then s + [v]
    else InsertIndex(bid, ts, s[..|s| - 1], v) + [s[|s| - 1]]
  }

  lemma {:induction false} InsertIndexAt(bid: bool, ts: seq<int>, s: seq<nat>, v: nat, j: nat)
    requires v < |ts| && forall k :: 0 <= k < |s| ==> s[k] < |ts|
    requires j <= |s| && forall k :: j <= k < |s| ==> Better(bid, ts[v], ts[s[k]])
    requires j == 0 || !Better(bid, ts[v], ts[s[j - 1]])
    ensures InsertIndex(bid, ts, s, v) == s[..j] + [v] + s[j..]
  {
    if j < |s| {
      var init := s[..|s| - 1];
      InsertIndexAt(bid, ts, init, v, j);
      assert init[..j] == s[..j] && s[j..] == init[j..] + [s[|s| - 1]];
    }
  }

  lemma {:induction false} PickedInsert(bid: bool, ls: seq<Level>, ts: seq<int>, s: seq<nat>, v: nat)
    requires |ts| == |ls| && forall k :: 0 <= k < |ts| ==> ts[k] == ls[k].tick
    requires v < |ls| && forall k :: 0 <= k < |s| ==> s[k] < |ls|
    ensures Picked(ls, InsertIndex(bid, ts, s, v)) == Insert(bid, Picked(ls, s), ls[v])
  {
    if s != [] {
      assert Picked(ls, s)[..|s| - 1] == Picked(ls, s[..|s| - 1]);
      if Worse(bid, ls[s[|s| - 1]], ls[v]) {
        PickedInsert(bid, ls, ts, s[..|s| - 1], v);
      }
    }
  }

  ghost function TicksOf(ls: seq<Level>): (ts: seq<int>)
    ensures |ts| == |ls| && forall k :: 0 <= k < |ts| ==> ts[k] == ls[k].tick
  {
    seq(|ls|, k requires 0 <= k < |ls| => ls[k].tick)
  }

  /** The indexes `o` list the first `|o|` levels in order. */
  ghost predicate SortedSoFar(bid: bool, ls: seq<Level>, o: seq<nat>) {
    && |o| <= |ls|
    && (forall k :: 0 <= k < |o| ==> o[k] < |ls|)
    && Picked(ls, o) == Sort(bid, ls[..|o|])
  }

  lemma FirstSorted(bid: bool, ls: seq<Level>)
    requires ls != []
    ensures SortedSoFar(bid, ls, [0])
  {
    assert Picked(ls, [0]) == ls[..1] == Sort(bid, ls[..1]);
  }

  lemma PlacedSorted(bid: bool, ls: seq<Level>, ts: seq<int>, s: seq<nat>)
    requires ts == TicksOf(ls) && |s| < |ls|
    requires SortedSoFar(bid, ls, s)
    ensures SortedSoFar(bid, ls, InsertIndex(bid, ts, s, |s|))
  {
    var i := |s|;
    PickedInsert(bid, ls, ts, s, i);
    assert ls[..i + 1][..i] == ls[..i];
  }

  class Side {
    const n: nat
    const bid: bool
    const slots: array<Slot>
    var best: int

    ghost predicate Valid()
      reads this
    {
      n > 0 && slots.Length == n
    }

    ghost function Abs(): (r: Ring)
      reads this, slots
      requires Valid()
      ensures r.Valid() && |r.slots| == n
    {
      Ring(slots[..], best, bid)
    }

    constructor (n: nat, bid: bool)
      requires n > 0
      ensures Valid() && fresh(slots) && this.n == n && this.bid == bid
      ensures Abs() == Fresh(n, bid)
    {
      this.n, this.bid, best := n, bid, 0;
      slots := new Slot[n](_ => EMPTY_SLOT);
      new;
      assert slots[..] == seq(n, i => EMPTY_SLOT);
    }

    predicate Has()
      reads this, slots
      requires Valid()
      ensures Has() == HasBest(Abs())
    {
      var slot := slots[Index(n, best)];
      slot.tick == best && slot.size > 0.0
    }

    method BestTick() returns (t: Option<int>)
      requires Valid()
      ensures t == if HasBest(Abs()) then Some(best) else None
    {
      t := if Has() then Some(best) else None;
    }

    method Put(tick: int, size: real)
      requires Valid()
      modifies slots
      ensures Abs() == Write(old(Abs()), tick, size)
    {
      slots[Index(n, tick)] := Slot(tick, size);
    }

    method Apply(levels: seq<Level>)
      requires Valid()
      modifies this, slots
      ensures Abs() == ApplySide(old(Abs()), levels)
    {
      var len := |levels|;
      if len == 0 {
        return;
      }
      var ticks := new int[len](_ => 0);
      var idx := new nat[len](_ => 0);
      ApplySorted(levels, ticks, idx);
    }

    /** Fills `ticks` and `idx`, sorts `idx` best first in place, then applies the levels. */
    method ApplySorted(levels: seq<Level>, ticks: array<int>, idx: array<nat>)
      requires Valid() && ticks.Length == idx.Length == |levels| > 0
      requires slots as object != ticks && slots as object != idx && ticks as object != idx
      modifies this, slots, ticks, idx
      ensures Abs() == ApplySide(old(Abs()), levels)
      ensures (forall k :: 0 <= k < idx.Length ==> idx[k] < |levels|) && Picked(levels, idx[..]) == Sort(bid, levels)
    {
      for i := 0 to |levels|
        invariant forall k :: 0 <= k < i ==> ticks[k] == levels[k].tick && idx[k] == k
        invariant Abs() == old(Abs())
      {
        ticks[i], idx[i] := levels[i].tick, i;
      }
      SortIndexes(levels, ticks, idx);
      ApplyPicked(levels, ticks, idx);
    }

    method ApplyPicked(levels: seq<Level>, ticks: array<int>, idx: array<nat>)
      requires Valid() && ticks.Length == idx.Length == |levels|
      requires slots as object != ticks && slots as object != idx
      requires forall k :: 0 <= k < idx.Length ==> idx[k] < |levels|
      requires forall k :: 0 <= k < |levels| ==> ticks[k] == levels[k].tick
      modifies this`best, slots
      ensures Abs() == ApplyInOrder(old(Abs()), Picked(levels, idx[..]))
    {
      ghost var r, p := Abs(), Picked(levels, idx[..]);
      for i := 0 to idx.Length
        invariant Abs() == ApplyInOrder(r, p[..i])
      {
        var k := idx[i];
        assert p[i] == levels[k];
        ApplyOne(ticks[k], levels[k].size);
        ApplyNext(r, p, i);
      }
      assert p[..idx.Length] == p;
    }

    method SortIndexes(levels: seq<Level>, ticks: array<int>, idx: array<nat>)
      requires ticks.Length == idx.Length == |levels| > 0 && ticks as object != idx
      requires forall k :: 0 <= k < |levels| ==> ticks[k] == levels[k].tick && idx[k] == k
      modifies idx
      ensures forall k :: 0 <= k < idx.Length ==> idx[k] < |levels|
      ensures Picked(levels, idx[..]) == Sort(bid, levels)
    {
      ghost var ts := TicksOf(levels);
      ghost var o: seq<nat> := [0];
      FirstSorted(bid, levels);
      for i := 1 to idx.Length
        invariant |o| == i && SortedSoFar(bid, levels, o)
        invariant forall k :: 0 <= k < i ==> idx[k] == o[k]
        invariant forall k :: i <= k < idx.Length ==> idx[k] == k
      {
        Place(ticks, idx, i, ts, o);
        PlacedSorted(bid, levels, ts, o);
        o := InsertIndex(bid, ts, o, i);
      }
      assert levels[..idx.Length] == levels;
      assert idx[..] == o;
    }

    /** Slides `idx[i]` in front of every index that is worse; `was` is what stands before it. */
    method Place(ticks: array<int>, idx: array<nat>, i: nat, ghost ts: seq<int>, ghost was: seq<nat>)
      requires ticks.Length == idx.Length && 0 < i < idx.Length && ticks as object != idx
      requires |ts| == ticks.Length && (forall k :: 0 <= k < |ts| ==> ticks[k] == ts[k]) && idx[i] == i
      requires |was| == i && forall k :: 0 <= k < i ==> was[k] < |ts|
      requires forall k :: 0 <= k < i ==> idx[k] == was[k]
      modifies idx
      ensures forall k :: 0 <= k <= i ==> idx[k] == InsertIndex(bid, ts, was, i)[k]
      ensures forall k :: i < k < idx.Length ==> idx[k] == old(idx[k])
    {
      var v := idx[i];
      var j := i;
      while j > 0 && Better(bid, ticks[v], ticks[idx[j - 1]])
        invariant 0 <= j <= i
        invariant forall k :: 0 <= k < j ==> idx[k] == was[k]
        invariant forall k :: j < k <= i ==> idx[k] == was[k - 1]
        invariant forall k :: i < k < idx.Length ==> idx[k] == old(idx[k])
        invariant forall k :: j <= k < i ==> Better(bid, ts[v], ts[was[k]])
      {
        idx[j] := idx[j - 1];
        j := j - 1;
      }
      idx[j] := v;
      InsertIndexAt(bid, ts, was, v, j);
    }

    method ApplyOne(tick: int, size: Size)
      requires Valid()
      modifies this`best, slots
      ensures Abs() == ApplyTick(old(Abs()), tick, size)
    {
      var q := Normalise(size);
      if !Has() {
        if q == 0.0 {
          return;
        }
        Put(tick, q);
        best := tick;
        return;
      }
      if Better(bid, tick, best) {
        if q == 0.0 {
          return;
        }
        Put(tick, q);
        best := tick;
        return;
      }
      if tick != best {
        var dist := if bid then best - tick else tick - best;
        if dist >= n {
          return;
        }
      }
      Put(tick, q);
      if tick == best && q == 0.0 {
        Step();
      }
    }

    /** `retreat`: the next occupied tick becomes the best, if the window has one. */
    method Step()
      requires Valid()
      modifies this`best
      ensures Abs() == Retreat(old(Abs()))
    {
      var t := Outward(bid, best);
      ghost var r := Abs();
      for i := 1 to n
        invariant best == old(best)
        invariant Scan(r, Outward(bid, r.best), n - 1) == Scan(r, t, n - i)
      {
        var slot := slots[Index(n, t)];
        if slot.tick == t && slot.size > 0.0 {
          best := t;
          return;
        }
        t := Outward(bid, t);
      }
    }

    method Read(tick: int) returns (q: Option<real>)
      requires Valid()
      ensures q == Qty(Abs(), tick)
    {
      if !Has() || Better(bid, tick, best) {
        return None;
      }
      var dist := if bid then best - tick else tick - best;
      if dist >= n {
        return None;
      }
      var slot := slots[Index(n, tick)];
      if slot.tick != tick || slot.size <= 0.0 {
        return None;
      }
      q := Some(slot.size);
    }

    method Iterate(limit: int) returns (it: Iter)
      requires Valid()
      ensures fresh(it) && it.Valid() && it.side == this
      ensures it.Rest() == Listing(Abs(), limit)
    {
      if !Has() || limit <= 0 {
        it := new Iter(this, 0, 0, 0);
        return;
      }
      it := new Iter(this, best, if limit < n then limit else n, n);
      WalkOutward(Abs(), best, n);
    }
  }

  /** A walk over a borrowed side. */
  class Iter {
    const side: Side
    var tick: int
    var need: int
    var span: int

    ghost predicate Valid()
      reads this, side
    {
      side.Valid() && span >= 0
    }

    /** The levels still to come. */
    ghost function Rest(): seq<(int, real)>
      reads this, side, side.slots
      requires Valid()
    {
      Take(Walk(side.Abs(), tick, span), need)
    }

    constructor (side: Side, tick: int, need: int, span: nat)
      requires side.Valid()
      ensures Valid() && this.side == side && this.tick == tick && this.need == need && this.span == span
    {
      this.side, this.tick, this.need, this.span := side, tick, need, span;
    }

    method Next() returns (level: Option<(int, real)>)
      requires Valid()
      modifies this
      ensures Valid()
      ensures match level
              case Some(l) => old(Rest()) == [l] + Rest()
              case None => old(Rest()) == [] == Rest()
    {
      ghost var r := side.Abs();
      while need > 0 && span > 0
        invariant Valid() && need == old(need)
        invariant old(Rest()) == Rest()
        decreases span
      {
        var slot := side.slots[Index(side.n, tick)];
        var current := tick;
        ghost var w := Walk(r, Outward(side.bid, tick), span - 1);
        assert Walk(r, tick, span) == (if Occupied(r, tick) then [(tick, slot.size)] else []) + w;
        tick := Outward(side.bid, tick);
        span := span - 1;
        if slot.tick == current && slot.size > 0.0 {
          need := need - 1;
          return Some((current, slot.size));
        }
      }
      return None;
    }
  }

  // ---------- Both sides ----------

  /** One more than the longest ring the program's index type can count. */
  const I64_SPAN: nat := 0x8000_0000_0000_0000

  datatype Error = Window | TickSize

  predicate IsPowerOfTwo(n: nat)
    decreases n
  {
    n == 1 || (n > 1 && n % 2 == 0 && IsPowerOfTwo(n / 2))
  }

  lemma {:induction false} PowerOf(n: nat) returns (k: nat)
    requires IsPowerOfTwo(n)
    ensures n == TwoTo(k)
    decreases n
  {
    k := 0;
    if n > 1 {
      k := PowerOf(n / 2);
      k := k + 1;
    }
  }

  lemma {:induction false} PowersPass(k: nat)
    ensures IsPowerOfTwo(TwoTo(k))
  {
    if k > 0 {
      PowersPass(k - 1);
      var half := TwoTo(k - 1);
      assert TwoTo(k) == 2 * half && TwoTo(k) / 2 == half;
    }
  }

  lemma PowerOfTwoIff(n: nat)
    ensures IsPowerOfTwo(n) <==> exists k: nat :: n == TwoTo(k)
  {
    hide IsPowerOfTwo, TwoTo;
    if IsPowerOfTwo(n) {
      var k := PowerOf(n);
    } else if exists k: nat :: n == TwoTo(k) {
      var k: nat :| n == TwoTo(k);
      PowersPass(k);
    }
  }

  class Book {
    const bids: Side
    const asks: Side

    ghost predicate Valid()
      reads this, bids, asks
    {
      bids.Valid() && asks.Valid() && bids != asks && bids.slots != asks.slots && bids.bid && !asks.bid
    }

    constructor (n: nat)
      requires n > 0
      ensures Valid() && fresh(bids) && fresh(asks) && fresh(bids.slots) && fresh(asks.slots)
      ensures bids.Abs() == Fresh(n, true) && asks.Abs() == Fresh(n, false)
    {
      bids := new Side(n, true);
      asks := new Side(n, false);
    }

    static method Open(n: nat, tickSize: Size) returns (r: Result<Book, Error>)
      ensures r.Err? ==> r.error == if IsPowerOfTwo(n) && n < I64_SPAN then TickSize else Window
      ensures r.Ok? <==> IsPowerOfTwo(n) && n < I64_SPAN && tickSize.Finite? && tickSize.amount > 0.0
      ensures r.Ok? ==> fresh(r.value) && r.value.Valid()
      ensures r.Ok? ==> r.value.bids.Abs() == Fresh(n, true) && r.value.asks.Abs() == Fresh(n, false)
    {
      if n == 0 || !IsPowerOfTwo(n) || n >= I64_SPAN {
        return Err(Window);
      }
      if !(tickSize.Finite? && tickSize.amount > 0.0) {
        return Err(TickSize);
      }
      var book := new Book(n);
      r := Ok(book);
    }

    /** One increment: the sides do not interact. */
    method Apply(bidLevels: seq<Level>, askLevels: seq<Level>)
      requires Valid()
      modifies bids, bids.slots, asks, asks.slots
      ensures bids.Abs() == ApplySide(old(bids.Abs()), bidLevels)
      ensures asks.Abs() == ApplySide(old(asks.Abs()), askLevels)
    {
      bids.Apply(bidLevels);
      asks.Apply(askLevels);
    }
  }
}
