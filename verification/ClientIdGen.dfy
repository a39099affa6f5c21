/**
 The process-wide id counter: threads load the counter, propose, and compare-and-swap, with no
 lock.  A run is any interleaving of these steps; `restore` is not part of it.
 */
module ClientIdGen {
  import opened Wrappers
  import opened ClientIds
  import opened DecimalText

  /** The counter word is the next id to issue: the millisecond offset above the sequence bits. */
  datatype Proposal = Proposal(tsMs: int, num: nat, packed: nat)

  function Propose(seen: nat, nowOff: int): Result<Proposal, Error> {
    var ts, num := seen / TS_UNIT, seen % TS_UNIT;
    var issueTs: int := if nowOff > ts then nowOff else ts;
    var issueNum := if nowOff > ts then 0 else num;
    if !(0 <= issueTs < TS_SPAN) then Err(BadTs)
    else
      var (nextTs, nextNum) := if issueNum == SEQ_MAX then (issueTs + 1, 0) else (issueTs, issueNum + 1);
      Ok(Proposal(EPOCH_MS + issueTs, issueNum, nextTs * TS_UNIT + nextNum))
  }

  /** The caller's clock as an offset; a clock before the epoch is behind every offset. */
  function Offset(nowMs: int): int {
    if nowMs >= EPOCH_MS then nowMs - EPOCH_MS else -1
  }

  /** A call of `next`: about to load the counter, or about to swap what it loaded. */
  datatype Call = Loading(algo: nat, nowMs: int) | Swapping(algo: nat, nowMs: int, seen: nat)

  datatype Issued = Issued(algo: nat, nowMs: int, from: nat, tsMs: int, num: nat, id: Result<string, Error>)

  datatype State = State(slot: nat, calls: map<nat, Call>, issued: seq<Issued>, refused: nat)

  datatype Event = Begin(thread: nat, declared: bool, algo: nat, nowMs: int) | Load(thread: nat) | Swap(thread: nat)

  /** One step of one thread. A thread that has no call, or is elsewhere in it, does not move. */
  function Step(s: State, e: Event): State {
    match e
    case Begin(t, declared, algo, nowMs) =>
      if t in s.calls then s
      else if !declared || !(ALGO_MIN <= algo <= ALGO_MAX) then s.(refused := s.refused + 1)
      else s.(calls := s.calls[t := Loading(algo, nowMs)])
    case Load(t) =>
      if t !in s.calls || !s.calls[t].Loading? then s
      else
        var c := s.calls[t];
        if Propose(s.slot, Offset(c.nowMs)).Err? then s.(calls := s.calls - {t}, refused := s.refused + 1)
        else s.(calls := s.calls[t := Swapping(c.algo, c.nowMs, s.slot)])
    case Swap(t) =>
      if t !in s.calls || !s.calls[t].Swapping? then s
      else
        var c := s.calls[t];
        var p := Propose(c.seen, Offset(c.nowMs));
        if s.slot != c.seen || p.Err? then s.(calls := s.calls[t := Loading(c.algo, c.nowMs)])
        else
          s.(slot := p.value.packed, calls := s.calls - {t},
             issued := s.issued + [Issued(c.algo, c.nowMs, c.seen, p.value.tsMs, p.value.num,
                                          Encode(c.algo, p.value.tsMs, p.value.num))])
  }

  function Run(es: seq<Event>): State {
    if es == [] then State(0, map[], [], 0) else Step(Run(es[..|es| - 1]), es[|es| - 1])
  }

  /** The counter word that stands for an issued pair. */
  function Word(i: Issued): int {
    (i.tsMs - EPOCH_MS) * TS_UNIT + i.num
  }

  function Max(a: int, b: int): int {
    if a > b then a else b
  }

  /** What a proposal takes, and that it moves the counter past it. */
  lemma ProposeExact(seen: nat, nowOff: int)
    ensures var p, ts := Propose(seen, nowOff), Max(nowOff, seen / TS_UNIT);
            && (p.Ok? <==> ts < TS_SPAN) && (p.Err? ==> p.error == BadTs)
            && (p.Ok? ==>
                  && p.value.tsMs == EPOCH_MS + ts && 0 <= p.value.num <= SEQ_MAX
                  && seen <= ts * TS_UNIT + p.value.num
                  && p.value.packed == ts * TS_UNIT + p.value.num + 1
                  && p.value.packed <= TS_SPAN * TS_UNIT)
  {
    assert seen == seen / TS_UNIT * TS_UNIT + seen % TS_UNIT;
  }

  /** No free pair at or after the caller's clock comes before the one that is proposed. */
  lemma ProposeLeast(seen: nat, nowOff: int, t: nat, n: nat)
    requires t >= nowOff && n <= 1023 && t * 1024 + n >= seen && Propose(seen, nowOff).Ok?
    ensures var p := Propose(seen, nowOff).value;
            p.tsMs < EPOCH_MS + t || (p.tsMs == EPOCH_MS + t && p.num <= n)
  {
    assert seen == seen / TS_UNIT * TS_UNIT + seen % TS_UNIT;
  }

  ghost predicate Good(s: State) {
    && s.slot <= TS_SPAN * TS_UNIT
    && (forall t :: t in s.calls ==>
          ALGO_MIN <= s.calls[t].algo <= ALGO_MAX
          && (s.calls[t].Swapping? ==> Propose(s.calls[t].seen, Offset(s.calls[t].nowMs)).Ok?))
    && (forall k :: 0 <= k < |s.issued| ==>
          var i := s.issued[k];
          && i.from <= Word(i) < s.slot
          && i.tsMs == EPOCH_MS + Max(Offset(i.nowMs), i.from / TS_UNIT)
          && Fits(Id(VERSION, i.algo, i.tsMs, i.num))
          && i.id == Ok(Decimal(Pack(Id(VERSION, i.algo, i.tsMs, i.num)))))
    && (forall j, k :: 0 <= j < k < |s.issued| ==> Word(s.issued[j]) < Word(s.issued[k]))
  }

  lemma GoodStep(s: State, e: Event)
    requires Good(s)
    ensures Good(Step(s, e))
  {
    hide Propose;
    if e.Swap? && e.thread in s.calls && s.calls[e.thread].Swapping? {
      ProposeExact(s.calls[e.thread].seen, Offset(s.calls[e.thread].nowMs));
    }
  }

  lemma {:induction false} RunGood(es: seq<Event>)
    ensures Good(Run(es))
  {
    hide Step, Good;
    if es == [] {
      assert Good(State(0, map[], [], 0)) by { Nothing(); }
    } else {
      RunGood(es[..|es| - 1]);
      GoodStep(Run(es[..|es| - 1]), es[|es| - 1]);
    }
  }

  lemma Nothing()
    ensures Good(State(0, map[], [], 0))
  {
  }

  /**
   However the threads interleave, the (millisecond, sequence) pairs strictly increase in the
   order of the swaps, whichever algo they are for, and the counter stays in the window.
   */
  lemma PairsIncrease(es: seq<Event>, j: nat, k: nat)
    requires j < k < |Run(es).issued|
    ensures var a, b := Run(es).issued[j], Run(es).issued[k];
            a.tsMs < b.tsMs || (a.tsMs == b.tsMs && a.num < b.num)
    ensures Run(es).slot <= TS_SPAN * TS_UNIT
  {
    RunGood(es);
    var a, b := Run(es).issued[j], Run(es).issued[k];
    assert Fits(Id(VERSION, a.algo, a.tsMs, a.num)) && Fits(Id(VERSION, b.algo, b.tsMs, b.num));
    assert Word(a) < Word(b);
  }

  /** The `k`-th issued pair is the proposal for the word just past the pair before it. */
  ghost predicate Linked(issued: seq<Issued>, k: nat)
    requires k < |issued|
  {
    var i := issued[k];
    && i.from == (if k == 0 then 0 else Word(issued[k - 1]) + 1)
    && Propose(i.from, Offset(i.nowMs)).Ok?
    && var p := Propose(i.from, Offset(i.nowMs)).value; p.tsMs == i.tsMs && p.num == i.num
  }

  ghost predicate Chained(s: State) {
    && s.slot == (if s.issued == [] then 0 else Word(s.issued[|s.issued| - 1]) + 1)
    && forall k :: 0 <= k < |s.issued| ==> Linked(s.issued, k)
  }

  lemma LinkedAppend(issued: seq<Issued>, x: Issued)
    requires forall k :: 0 <= k < |issued| ==> Linked(issued, k)
    requires Linked(issued + [x], |issued|)
    ensures forall k :: 0 <= k < |issued + [x]| ==> Linked(issued + [x], k)
  {
    hide Propose;
    forall k | 0 <= k < |issued + [x]| ensures Linked(issued + [x], k) {
      if k < |issued| {
        assert Linked(issued, k);
      }
    }
  }

  lemma ChainedStep(s: State, e: Event)
    requires Chained(s) && Good(s)
    ensures Chained(Step(s, e))
  {
    hide Propose, Good;
    OnlySwapsConsume(s, e);
    var w := Step(s, e);
    if w.slot != s.slot {
      var x := w.issued[|s.issued|];
      assert w.issued == s.issued + [x];
      LinkedAppend(s.issued, x);
    }
  }

  lemma {:induction false} RunChained(es: seq<Event>)
    ensures Chained(Run(es))
  {
    hide Step, Good;
    if es != [] {
      RunChained(es[..|es| - 1]);
      RunGood(es[..|es| - 1]);
      ChainedStep(Run(es[..|es| - 1]), es[|es| - 1]);
    }
  }

  /** The pair `(t, n)`, as a millisecond offset and a sequence number, comes after the issued `i`. */
  predicate After(t: nat, n: nat, i: Issued) {
    EPOCH_MS + t > i.tsMs || (EPOCH_MS + t == i.tsMs && n > i.num)
  }

  lemma ChainedAt(s: State, k: nat)
    requires Chained(s) && Good(s) && k < |s.issued|
    ensures var i := s.issued[k];
            && EPOCH_MS <= i.tsMs && i.num <= 1023
            && i.from == (if k == 0 then 0 else Word(s.issued[k - 1]) + 1)
            && Propose(i.from, Offset(i.nowMs)).Ok?
            && var p := Propose(i.from, Offset(i.nowMs)).value; p.tsMs == i.tsMs && p.num == i.num
  {
    hide Propose;
    assert Linked(s.issued, k);
    assert Fits(Id(VERSION, s.issued[k].algo, s.issued[k].tsMs, s.issued[k].num));
  }

  lemma AfterIsPast(t: nat, n: nat, i: Issued)
    requires After(t, n, i) && EPOCH_MS <= i.tsMs && i.num <= 1023
    ensures t * 1024 + n >= Word(i) + 1
  {
  }

  /**
   What is issued is the least pair that is after everything issued before it and not before the
   caller's clock: no number of a millisecond is skipped, and none is borrowed while one is free.
   */
  lemma IssuedIsLeast(es: seq<Event>, k: nat, t: nat, n: nat)
    requires k < |Run(es).issued| && n <= 1023 && EPOCH_MS + t >= Run(es).issued[k].nowMs
    requires k > 0 ==> After(t, n, Run(es).issued[k - 1])
    ensures var i := Run(es).issued[k]; !(EPOCH_MS + t < i.tsMs || (EPOCH_MS + t == i.tsMs && n < i.num))
  {
    hide Propose, Run, Chained, Good;
    RunChained(es);
    RunGood(es);
    var i := Run(es).issued[k];
    ChainedAt(Run(es), k);
    if k > 0 {
      ChainedAt(Run(es), k - 1);
      AfterIsPast(t, n, Run(es).issued[k - 1]);
    }
    ProposeLeast(i.from, Offset(i.nowMs), t, n);
  }

  /** The issued millisecond is the caller's or the counter's, whichever is later. */
  lemma IssuedMillisecond(es: seq<Event>, k: nat)
    requires k < |Run(es).issued|
    ensures var i := Run(es).issued[k]; i.id.Ok? && i.tsMs == Max(i.nowMs, EPOCH_MS + i.from / TS_UNIT)
  {
    RunGood(es);
  }

  /** A call gets as far as the counter exactly when its algo is declared and fits ten bits. */
  lemma BeginIff(s: State, t: nat, declared: bool, algo: nat, nowMs: int)
    requires t !in s.calls
    ensures var w := Step(s, Begin(t, declared, algo, nowMs));
            && (t in w.calls <==> declared && 1 <= algo <= 1023)
            && (t in w.calls ==> w.calls[t] == Loading(algo, nowMs))
            && w.slot == s.slot && w.issued == s.issued
            && w.refused == s.refused + if t in w.calls then 0 else 1
  {
  }

  /** Every issued id is readable, ids are distinct, and those of one algo sort as text in issue order. */
  lemma IdsSortInIssueOrder(es: seq<Event>, j: nat, k: nat)
    requires j < k < |Run(es).issued|
    ensures var a, b := Run(es).issued[j], Run(es).issued[k];
            && a.id.Ok? && b.id.Ok? && a.id.value != b.id.value
            && Decode(a.id.value) == Ok(Id(VERSION, a.algo, a.tsMs, a.num))
            && (a.algo == b.algo ==> TextLess(a.id.value, b.id.value))
  {
    RunGood(es);
    PairsIncrease(es, j, k);
    var a, b := Run(es).issued[j], Run(es).issued[k];
    DecodeSpelling(Id(VERSION, a.algo, a.tsMs, a.num));
    DecodeSpelling(Id(VERSION, b.algo, b.tsMs, b.num));
    TextOrderIsIdOrder(a.id.value, b.id.value);
  }

  /** A call that ends in an error, or a swap that fails, consumes no number. */
  lemma OnlySwapsConsume(s: State, e: Event)
    ensures var w := Step(s, e);
            && (|w.issued| == |s.issued| <==> w.slot == s.slot)
            && (w.refused > s.refused ==> w.slot == s.slot && w.issued == s.issued)
            && (w.slot != s.slot ==>
                  && w.issued[..|s.issued|] == s.issued
                  && w.issued[|s.issued|].from == s.slot && w.slot == Word(w.issued[|s.issued|]) + 1)
  {
    hide Propose;
    if e.Swap? && e.thread in s.calls && s.calls[e.thread].Swapping? {
      ProposeExact(s.calls[e.thread].seen, Offset(s.calls[e.thread].nowMs));
    }
  }

  // ---------- Progress ----------

  /** None of the events is a step of `t`. */
  ghost predicate Others(es: seq<Event>, t: nat) {
    forall k :: 0 <= k < |es| ==> es[k].thread != t
  }

  lemma RunNext(es: seq<Event>, e: Event)
    ensures Run(es + [e]) == Step(Run(es), e)
  {
    assert (es + [e])[..|es|] == es;
  }

  /** The counter only grows, and stands still exactly while nothing is issued. */
  lemma {:induction false} RunOn(es: seq<Event>, more: seq<Event>)
    ensures var a, b := Run(es), Run(es + more);
            && a.slot <= b.slot && a.issued <= b.issued
            && (a.slot == b.slot <==> |a.issued| == |b.issued|)
    decreases |more|
  {
    hide Step, Good;
    if more == [] {
      assert es + more == es;
    } else {
      var init, e := more[..|more| - 1], more[|more| - 1];
      RunOn(es, init);
      assert es + more == (es + init) + [e];
      RunNext(es + init, e);
      RunGood(es + init);
      SlotStep(Run(es + init), e);
    }
  }

  lemma SlotStep(s: State, e: Event)
    requires Good(s)
    ensures var w := Step(s, e);
            && s.slot <= w.slot && s.issued <= w.issued
            && (s.slot == w.slot <==> |s.issued| == |w.issued|)
  {
    hide Propose;
    OnlySwapsConsume(s, e);
    if e.Swap? && e.thread in s.calls && s.calls[e.thread].Swapping? {
      ProposeExact(s.calls[e.thread].seen, Offset(s.calls[e.thread].nowMs));
    }
  }

  ghost predicate SameCall(a: State, b: State, t: nat) {
    (t in a.calls <==> t in b.calls) && (t in a.calls ==> a.calls[t] == b.calls[t])
  }

  lemma {:induction false} OthersLeaveCall(es: seq<Event>, more: seq<Event>, t: nat)
    requires Others(more, t)
    ensures SameCall(Run(es), Run(es + more), t)
    decreases |more|
  {
    hide Propose;
    if more == [] {
      assert es + more == es;
    } else {
      var init, e := more[..|more| - 1], more[|more| - 1];
      OthersLeaveCall(es, init, t);
      assert es + more == (es + init) + [e];
      RunNext(es + init, e);
      assert e.thread != t;
    }
  }

  /**
   No lock: a thread that has loaded the counter and swaps later takes a number exactly when no
   thread was issued one in between; so a lost swap means that another thread got on.
   */
  lemma SwapTakesIff(es: seq<Event>, more: seq<Event>, t: nat)
    requires t in Run(es).calls && Run(es).calls[t].Loading? && t in Run(es + [Load(t)]).calls
    requires Others(more, t)
    ensures var loaded, was := Run(es + [Load(t)]), Run(es + [Load(t)] + more);
            var now := Run(es + [Load(t)] + more + [Swap(t)]);
            && loaded.issued <= was.issued
            && (|now.issued| == |was.issued| + 1 <==> |was.issued| == |loaded.issued|)
            && (|now.issued| == |was.issued| <==> |was.issued| > |loaded.issued|)
            && (t !in now.calls <==> |was.issued| == |loaded.issued|)
  {
    hide Propose, Good;
    RunNext(es, Load(t));
    var after := es + [Load(t)];
    RunNext(after + more, Swap(t));
    RunOn(after, more);
    OthersLeaveCall(after, more, t);
    assert Propose(Run(es).slot, Offset(Run(es).calls[t].nowMs)).Ok?;
  }

  /** A word that a call has loaded is never past the counter. */
  lemma {:induction false} LoadedIsBehind(es: seq<Event>, t: nat)
    requires t in Run(es).calls && Run(es).calls[t].Swapping?
    ensures Run(es).calls[t].seen <= Run(es).slot
  {
    hide Propose, Good;
    var init, e := es[..|es| - 1], es[|es| - 1];
    RunGood(init);
    SlotStep(Run(init), e);
    if t in Run(init).calls && Run(init).calls[t].Swapping? {
      LoadedIsBehind(init, t);
    }
  }

  // ---------- As one caller runs it ----------

  /** The shared word, with the steps of all threads that made it what it is. */
  class Counter {
    var slot: nat
    var events: seq<Event>

    ghost predicate Valid()
      reads this
    {
      slot == Run(events).slot
    }

    constructor ()
      ensures Valid() && events == []
    {
      slot, events := 0, [];
    }

    /**
     `issue`: load, propose and swap until no other thread came in between.  `rivals(k)` is what
     other threads do between the k-th load and the k-th swap, for ever if they like: every lost
     swap has moved the counter, and the counter has an end.
     */
    method Issue(t: nat, algo: nat, nowMs: int, rivals: nat -> seq<Event>) returns (taken: Result<Proposal, Error>)
      requires Valid() && t !in Run(events).calls && ALGO_MIN <= algo <= ALGO_MAX
      requires forall k: nat :: Others(rivals(k), t)
      modifies this
      ensures Valid() && old(events) < events && t !in Run(events).calls
      ensures var was := Run(events[..|events| - 1]);
              && taken == Propose(was.slot, Offset(nowMs))
              && match taken
                 case Err(_) => Run(events).issued == was.issued && slot == was.slot
                 case Ok(p) =>
                   && Run(events).issued ==
                        was.issued + [Issued(algo, nowMs, was.slot, p.tsMs, p.num, Encode(algo, p.tsMs, p.num))]
                   && slot == p.packed
    {
      hide Propose, Good;
      Extend(events, Begin(t, true, algo, nowMs));
      events := events + [Begin(t, true, algo, nowMs)];
      var tries := 0;
      while true
        invariant Valid() && old(events) < events
        invariant t in Run(events).calls && Run(events).calls[t] == Loading(algo, nowMs)
        decreases TS_SPAN * TS_UNIT - slot
      {
        var loaded := slot;
        taken := Propose(loaded, Offset(nowMs));
        Extend(events, Load(t));
        events := events + [Load(t)];
        if taken.Err? {
          return;
        }
        RunOn(events, rivals(tries));
        OthersLeaveCall(events, rivals(tries), t);
        events := events + rivals(tries);
        slot := Run(events).slot;
        tries := tries + 1;
        Extend(events, Swap(t));
        RunGood(events);
        SlotBound(Run(events));
        events := events + [Swap(t)];
        if slot == loaded {
          slot := taken.value.packed;
          return;
        }
      }
    }
  }

  lemma Extend(es: seq<Event>, e: Event)
    ensures Run(es + [e]) == Step(Run(es), e) && (es + [e])[..|es + [e]| - 1] == es
  {
    RunNext(es, e);
  }

  lemma SlotBound(s: State)
    requires Good(s)
    ensures s.slot <= TS_SPAN * TS_UNIT
  {
  }
}
