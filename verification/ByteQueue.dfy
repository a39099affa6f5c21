/**
 What the market-data ring stands for: a bounded first-in first-out queue of byte strings whose
 head can be pinned.  A push evicts the messages that have waited longest.
 */
module ByteQueue {
  import opened Wrappers

  type Byte = b: int | 0 <= b < 256

  /** One message; `at` is its push time, zero in a ring that keeps no times. */
  datatype Entry = Entry(bytes: seq<Byte>, book: bool, at: int)

  datatype Queue = Queue(msgs: seq<Entry>, pinned: bool, dropped: nat, cap: nat, timed: bool) {
    ghost predicate Valid() {
      Size(msgs) <= cap && (pinned ==> msgs != [])
    }

    /** Messages that cannot be evicted. */
    function Held(): nat {
      if pinned then 1 else 0
    }
  }

  function Size(msgs: seq<Entry>): nat {
    if msgs == [] then 0 else |msgs[0].bytes| + Size(msgs[1..])
  }

  // ---------- Operations ----------

  /** Drops the oldest message that is not pinned. */
  function DropOldest(q: Queue): Queue
    requires q.Held() < |q.msgs|
  {
    q.(msgs := q.msgs[..q.Held()] + q.msgs[q.Held() + 1..], dropped := q.dropped + 1)
  }

  function Evict(q: Queue, need: nat): Queue
    decreases |q.msgs|
  {
    if q.cap - Size(q.msgs) >= need || q.Held() >= |q.msgs| then q
    else Evict(DropOldest(q), need)
  }

  function NewEntry(q: Queue, bytes: seq<Byte>, book: bool, at: int): Entry {
    Entry(bytes, book, if q.timed then at else 0)
  }

  /** One turn of the eviction loop. */
  lemma EvictOnce(q: Queue, need: nat)
    ensures Evict(q, need) ==
              if q.cap - Size(q.msgs) >= need || q.Held() >= |q.msgs| then q else Evict(DropOldest(q), need)
  {
  }

  function Push(q: Queue, bytes: seq<Byte>, book: bool, at: int): (Queue, bool) {
    if |bytes| > q.cap then (q.(dropped := q.dropped + 1), false)
    else
      var e := Evict(q, |bytes|);
      if q.cap - Size(e.msgs) >= |bytes| then (e.(msgs := e.msgs + [NewEntry(q, bytes, book, at)]), true)
      else (e.(dropped := e.dropped + 1), false)
  }

  function Peek(q: Queue): (Queue, Option<Entry>) {
    if q.pinned || q.msgs == [] then (q, None) else (q.(pinned := true), Some(q.msgs[0]))
  }

  function Release(q: Queue): Queue {
    if !q.pinned || q.msgs == [] then q.(pinned := false) else q.(msgs := q.msgs[1..], pinned := false)
  }

  function Discard(q: Queue): Queue {
    q.(msgs := [], pinned := false)
  }

  function Waiting(q: Queue): int {
    |q.msgs| - q.Held()
  }

  // ---------- What a push does ----------

  lemma {:induction false} SizeAppend(a: seq<Entry>, b: seq<Entry>)
    ensures Size(a + b) == Size(a) + Size(b)
  {
    if a == [] {
      assert a + b == b;
    } else {
      assert (a + b)[1..] == a[1..] + b;
      SizeAppend(a[1..], b);
    }
  }

  /** `q` with its `k` oldest unpinned messages dropped. */
  function Without(q: Queue, k: nat): Queue
    requires q.Held() + k <= |q.msgs|
  {
    q.(msgs := q.msgs[..q.Held()] + q.msgs[q.Held() + k..], dropped := q.dropped + k)
  }

  lemma WithoutNone(q: Queue)
    requires q.Valid()
    ensures q.Held() <= |q.msgs| && Without(q, 0) == q
  {
    assert q.msgs[..q.Held()] + q.msgs[q.Held()..] == q.msgs;
  }

  lemma WithoutAll(q: Queue)
    requires q.Held() <= |q.msgs|
    ensures var k := |q.msgs| - q.Held(); Without(q, k) == q.(msgs := q.msgs[..q.Held()], dropped := q.dropped + k)
  {
  }

  lemma WithoutNext(q: Queue, k: nat)
    requires q.Held() + k < |q.msgs|
    ensures Without(DropOldest(q), k) == Without(q, k + 1)
  {
    var h := q.Held();
    assert DropOldest(q).msgs[..h] == q.msgs[..h];
    assert DropOldest(q).msgs[h + k..] == q.msgs[h + k + 1..];
  }

  lemma SizeDrop(es: seq<Entry>, h: nat)
    requires h < |es|
    ensures Size(es[..h] + es[h + 1..]) <= Size(es)
  {
    assert es == es[..h] + es[h..] && es[h..][1..] == es[h + 1..];
    SizeAppend(es[..h], es[h..]);
    SizeAppend(es[..h], es[h + 1..]);
  }

  lemma DropValid(q: Queue)
    requires q.Valid() && q.Held() < |q.msgs|
    ensures var d := DropOldest(q);
            d.Valid() && d.Held() == q.Held() && d.cap == q.cap && |d.msgs| == |q.msgs| - 1
  {
    hide Size;
    SizeDrop(q.msgs, q.Held());
  }

  /** Eviction stops at the first queue that has room, or when only the pinned message is left. */
  lemma {:induction false} EvictFewest(q: Queue, need: nat) returns (k: nat)
    requires q.Valid()
    ensures q.Held() + k <= |q.msgs| && Evict(q, need) == Without(q, k)
    ensures forall j :: 0 <= j < k ==> Size(Without(q, j).msgs) + need > q.cap
    ensures Size(Without(q, k).msgs) + need > q.cap ==> q.Held() + k == |q.msgs|
    ensures Size(Without(q, k).msgs) <= q.cap
    decreases |q.msgs|
  {
    hide Size, Without, DropOldest;
    k := 0;
    WithoutNone(q);
    if q.cap - Size(q.msgs) < need && q.Held() < |q.msgs| {
      DropValid(q);
      var more := EvictFewest(DropOldest(q), need);
      k := more + 1;
      WithoutNext(q, more);
      forall j | 0 < j < k ensures Size(Without(q, j).msgs) + need > q.cap {
        WithoutNext(q, j - 1);
      }
    }
  }

  lemma PushEvicts(q: Queue, bytes: seq<Byte>, book: bool, at: int)
    requires q.Valid()
    ensures var (w, ok) := Push(q, bytes, book, at);
            && w.Valid()
            && (ok <==> Size(q.msgs[..q.Held()]) + |bytes| <= q.cap)
            && (ok ==> exists k ::
                  && 0 <= k <= |q.msgs| - q.Held()
                  && w == Without(q, k).(msgs := Without(q, k).msgs + [NewEntry(q, bytes, book, at)])
                  && forall j :: 0 <= j < k ==> Size(Without(q, j).msgs) + |bytes| > q.cap)
            && (!ok && |bytes| > q.cap ==> w == q.(dropped := q.dropped + 1))
            && (!ok && |bytes| <= q.cap ==>
                  w == q.(msgs := q.msgs[..q.Held()], dropped := q.dropped + (|q.msgs| - q.Held()) + 1))
  {
    hide Size, Evict;
    var h := q.Held();
    SizeAppend(q.msgs[..h], q.msgs[h..]);
    assert q.msgs[..h] + q.msgs[h..] == q.msgs;
    if |bytes| <= q.cap {
      var k := EvictFewest(q, |bytes|);
      WithoutSize(q, k, NewEntry(q, bytes, book, at));
    }
  }

  /** `q` without the `k` messages behind the pinned one, and with the pushed one at the end. */
  ghost predicate TookIn(q: Queue, w: Queue, k: nat, bytes: seq<Byte>, book: bool, at: int) {
    var h := if q.pinned then 1 else 0;
    && h + k <= |q.msgs| && w.dropped == q.dropped + k
    && w.msgs == q.msgs[..h] + q.msgs[h + k..] + [Entry(bytes, book, if q.timed then at else 0)]
  }

  /**
   A push succeeds exactly when the message fits beside the pinned one, and then evicts the
   fewest oldest waiting messages that make room; otherwise it is counted, and a message that
   would have fitted an unpinned ring has evicted every waiting message.
   */
  lemma PushExact(q: Queue, bytes: seq<Byte>, book: bool, at: int)
    requires q.Valid()
    ensures var (w, ok) := Push(q, bytes, book, at);
            var h := if q.pinned then 1 else 0;
            && (ok <==> Size(q.msgs[..h]) + |bytes| <= q.cap)
            && (ok ==> exists k: nat ::
                  && TookIn(q, w, k, bytes, book, at)
                  && forall j :: 0 <= j < k ==> Size(Without(q, j).msgs) + |bytes| > q.cap)
            && (!ok ==> w.msgs == if |bytes| > q.cap then q.msgs else q.msgs[..h])
            && (!ok ==> w.dropped == q.dropped + 1 + if |bytes| > q.cap then 0 else |q.msgs| - h)
            && w.Valid() && (w.pinned, w.cap, w.timed) == (q.pinned, q.cap, q.timed)
  {
    hide Size, Push;
    PushEvicts(q, bytes, book, at);
    var (w, ok) := Push(q, bytes, book, at);
    if ok {
      var k: nat :| && k <= |q.msgs| - q.Held()
                    && w == Without(q, k).(msgs := Without(q, k).msgs + [NewEntry(q, bytes, book, at)])
                    && forall j :: 0 <= j < k ==> Size(Without(q, j).msgs) + |bytes| > q.cap;
      assert TookIn(q, w, k, bytes, book, at);
    }
  }

  lemma WithoutSize(q: Queue, k: nat, e: Entry)
    requires q.Held() + k <= |q.msgs|
    ensures Without(q, k).cap == q.cap && Size(Without(q, k).msgs) >= Size(q.msgs[..q.Held()])
    ensures q.Held() + k == |q.msgs| ==> Without(q, k).msgs == q.msgs[..q.Held()]
    ensures Size(Without(q, k).msgs + [e]) == Size(Without(q, k).msgs) + |e.bytes|
  {
    SizeAppend(q.msgs[..q.Held()], q.msgs[q.Held() + k..]);
    SizeAppend(Without(q, k).msgs, [e]);
  }

  // ---------- Handing out ----------

  /** `k` rounds of a peek and a release, and what the peeks handed out. */
  function Rounds(q: Queue, k: nat): (Queue, seq<Entry>) {
    if k == 0 then (q, [])
    else
      var (after, out) := Rounds(q, k - 1);
      var (pinned, head) := Peek(after);
      (Release(pinned), out + if head.Some? then [head.value] else [])
  }

  /** The waiting messages are handed out from the oldest on, one a round. */
  lemma {:induction false} HandsOutInOrder(q: Queue, k: nat)
    requires !q.pinned && k <= |q.msgs|
    ensures Rounds(q, k) == (q.(msgs := q.msgs[k..]), q.msgs[..k])
  {
    if k > 0 {
      HandsOutInOrder(q, k - 1);
      assert q.msgs[k - 1..][1..] == q.msgs[k..] && q.msgs[..k] == q.msgs[..k - 1] + [q.msgs[k - 1]];
    }
  }

  // ---------- Whole runs ----------

  datatype Op = PushOp(bytes: seq<Byte>, book: bool, at: int) | PeekOp | ReleaseOp | DiscardOp

  /** A queue together with what its users have seen so far. */
  datatype Ledger = Ledger(q: Queue, pushed: seq<Entry>, peeked: seq<Entry>, released: seq<Entry>, discarded: nat)

  function Account(l: Ledger, op: Op): Ledger {
    match op
    case PushOp(bytes, book, at) =>
      l.(q := Push(l.q, bytes, book, at).0, pushed := l.pushed + [NewEntry(l.q, bytes, book, at)])
    case PeekOp =>
      var (q, e) := Peek(l.q);
      l.(q := q, peeked := if e.Some? then l.peeked + [e.value] else l.peeked)
    case ReleaseOp =>
      l.(q := Release(l.q),
         released := if l.q.pinned && l.q.msgs != [] then l.released + [l.q.msgs[0]] else l.released)
    case DiscardOp => l.(q := Discard(l.q), discarded := l.discarded + |l.q.msgs|)
  }

  function RunOps(cap: nat, timed: bool, ops: seq<Op>): Ledger {
    if ops == [] then Ledger(Queue([], false, 0, cap, timed), [], [], [], 0)
    else Account(RunOps(cap, timed, ops[..|ops| - 1]), ops[|ops| - 1])
  }

  /** `a` is `b` with some entries left out. */
  ghost predicate Subsequence(a: seq<Entry>, b: seq<Entry>)
    decreases |b|
  {
    a == [] ||
    (b != [] && (Subsequence(a, b[..|b| - 1])
                 || (a[|a| - 1] == b[|b| - 1] && Subsequence(a[..|a| - 1], b[..|b| - 1]))))
  }

  lemma {:induction false} SubsequenceDrop(a: seq<Entry>, i: nat, j: nat, b: seq<Entry>)
    requires i <= j <= |a| && Subsequence(a, b)
    ensures Subsequence(a[..i] + a[j..], b)
    decreases |b|
  {
    var c := a[..i] + a[j..];
    if i == j {
      assert c == a;
    } else if Subsequence(a, b[..|b| - 1]) {
      SubsequenceDrop(a, i, j, b[..|b| - 1]);
    } else {
      var init := a[..|a| - 1];
      if j < |a| {
        SubsequenceDrop(init, i, j, b[..|b| - 1]);
        assert c[..|c| - 1] == init[..i] + init[j..];
      } else {
        SubsequenceDrop(init, i, |init|, b[..|b| - 1]);
        assert c == init[..i] + init[|init|..];
      }
    }
  }

  lemma SubsequenceSkip(a: seq<Entry>, b: seq<Entry>, e: Entry)
    requires Subsequence(a, b)
    ensures Subsequence(a, b + [e])
  {
    assert (b + [e])[..|b|] == b;
  }

  lemma SubsequencePush(a: seq<Entry>, b: seq<Entry>, e: Entry)
    requires Subsequence(a, b)
    ensures Subsequence(a + [e], b + [e])
  {
    assert (b + [e])[..|b|] == b && (a + [e])[..|a|] == a;
  }

  /** What has been handed to the hook, then what still waits, in push order. */
  function InOrder(l: Ledger): seq<Entry>
    requires l.q.Held() <= |l.q.msgs|
  {
    l.peeked + l.q.msgs[l.q.Held()..]
  }

  ghost predicate Balanced(l: Ledger) {
    && l.q.Valid() && l.q.Held() <= |l.q.msgs|
    && |l.pushed| == |l.released| + l.q.dropped + l.discarded + |l.q.msgs|
    && Subsequence(InOrder(l), l.pushed)
    && (l.q.pinned ==> l.peeked != [] && l.peeked[|l.peeked| - 1] == l.q.msgs[0])
  }

  lemma DropAfter<T>(p: seq<T>, w: seq<T>, k: nat)
    requires k <= |w|
    ensures (p + w)[..|p|] + (p + w)[|p| + k..] == p + w[k..]
  {
    assert (p + w)[..|p|] == p && (p + w)[|p| + k..] == w[k..];
  }

  /** Evicting the messages that waited longest keeps the order of the others. */
  lemma InOrderWithout(l: Ledger, k: nat, b: seq<Entry>)
    requires l.q.Held() + k <= |l.q.msgs| && Subsequence(InOrder(l), b)
    ensures Subsequence(l.peeked + l.q.msgs[l.q.Held() + k..], b)
    ensures Without(l.q, k).msgs[l.q.Held()..] == l.q.msgs[l.q.Held() + k..]
  {
    hide Subsequence, Size;
    var w := l.q.msgs[l.q.Held()..];
    SubsequenceDrop(l.peeked + w, |l.peeked|, |l.peeked| + k, b);
    DropAfter(l.peeked, w, k);
    assert w[k..] == l.q.msgs[l.q.Held() + k..];
  }

  lemma BalancedEvict(l: Ledger, k: nat, e: Entry)
    requires Balanced(l) && l.q.Held() + k <= |l.q.msgs|
    requires Size(Without(l.q, k).msgs) + |e.bytes| <= l.q.cap
    ensures var w := Without(l.q, k);
            Balanced(l.(q := w.(msgs := w.msgs + [e]), pushed := l.pushed + [e]))
  {
    hide Subsequence, Size;
    var w, h := Without(l.q, k), l.q.Held();
    InOrderWithout(l, k, l.pushed);
    SubsequencePush(l.peeked + w.msgs[h..], l.pushed, e);
    assert (w.msgs + [e])[h..] == w.msgs[h..] + [e];
    assert l.peeked + (w.msgs[h..] + [e]) == (l.peeked + w.msgs[h..]) + [e];
    WithoutSize(l.q, k, e);
  }

  lemma BalancedRefuse(l: Ledger, k: nat, e: Entry)
    requires Balanced(l) && l.q.Held() + k <= |l.q.msgs| && Size(Without(l.q, k).msgs) <= l.q.cap
    ensures var w := Without(l.q, k);
            Balanced(l.(q := w.(dropped := w.dropped + 1), pushed := l.pushed + [e]))
  {
    hide Subsequence, Size;
    InOrderWithout(l, k, l.pushed);
    SubsequenceSkip(l.peeked + l.q.msgs[l.q.Held() + k..], l.pushed, e);
  }

  lemma BalancedPush(l: Ledger, bytes: seq<Byte>, book: bool, at: int)
    requires Balanced(l)
    ensures Balanced(Account(l, PushOp(bytes, book, at)))
  {
    hide Push, Subsequence, Size, Without;
    var q, e := l.q, NewEntry(l.q, bytes, book, at);
    var (w, ok) := Push(q, bytes, book, at);
    PushEvicts(q, bytes, book, at);
    if ok {
      var k :| 0 <= k <= |q.msgs| - q.Held() && w == Without(q, k).(msgs := Without(q, k).msgs + [e]);
      WithoutSize(q, k, e);
      BalancedEvict(l, k, e);
    } else {
      var k := if |bytes| > q.cap then 0 else |q.msgs| - q.Held();
      WithoutNone(q);
      WithoutAll(q);
      assert w == Without(q, k).(dropped := Without(q, k).dropped + 1);
      BalancedRefuse(l, k, e);
    }
  }

  lemma BalancedStep(l: Ledger, op: Op)
    requires Balanced(l)
    ensures Balanced(Account(l, op))
  {
    hide Push, Subsequence;
    match op
    case PushOp(bytes, book, at) => BalancedPush(l, bytes, book, at);
    case PeekOp => assert !l.q.pinned && l.q.msgs != [] ==> InOrder(Account(l, op)) == InOrder(l);
    case ReleaseOp => assert l.q.pinned ==> InOrder(Account(l, op)) == InOrder(l);
    case DiscardOp =>
      SubsequenceDrop(InOrder(l), |l.peeked|, |InOrder(l)|, l.pushed);
      assert InOrder(Account(l, op)) == InOrder(l)[..|l.peeked|] + InOrder(l)[|InOrder(l)|..];
  }

  /**
   Over any run every push is accounted for once, and the messages handed out, followed by
   those that wait, are the pushed ones in push order with the lost ones left out.
   */
  lemma {:induction false} EveryRunBalances(cap: nat, timed: bool, ops: seq<Op>)
    ensures Balanced(RunOps(cap, timed, ops))
  {
    hide Account, Balanced;
    if ops == [] {
      assert Balanced(RunOps(cap, timed, [])) by { NothingBalances(cap, timed); }
    } else {
      EveryRunBalances(cap, timed, ops[..|ops| - 1]);
      BalancedStep(RunOps(cap, timed, ops[..|ops| - 1]), ops[|ops| - 1]);
    }
  }

  lemma NothingBalances(cap: nat, timed: bool)
    ensures Balanced(RunOps(cap, timed, []))
  {
  }
}
