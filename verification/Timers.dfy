/**
 The timer table: arms, disarms and wake tasks that take its lock in any order.  An aborted task
 may already be past its sleep, so a wake is allowed at any time, any number of times.
 */
module Timers {

  /** A key names which timer an arm is; keys are compared only for equality. */
  type Key = nat

  datatype Event = Arm(key: Key) | Disarm(key: Key) | Wake(key: Key, arm: nat)

  datatype Table = Table(next: nat, armed: map<Key, nat>)

  /** What one holder of the lock does, and whether it then fires. */
  function Step(t: Table, e: Event): (Table, bool) {
    match e
    case Arm(key) => (Table(t.next + 1, t.armed[key := t.next + 1]), false)
    case Disarm(key) => (t.(armed := t.armed - {key}), false)
    case Wake(key, arm) =>
      if key in t.armed && t.armed[key] == arm then (t.(armed := t.armed - {key}), true) else (t, false)
  }

  function Run(es: seq<Event>): Table {
    if es == [] then Table(0, map[]) else Step(Run(es[..|es| - 1]), es[|es| - 1]).0
  }

  /** The `k`-th event decides to fire. */
  predicate FiresAt(es: seq<Event>, k: nat)
    requires k < |es|
  {
    Step(Run(es[..k]), es[k]).1
  }

  /** The number the arm at position `i` is given. */
  function ArmId(es: seq<Event>, i: nat): nat
    requires i < |es|
  {
    Run(es[..i]).next + 1
  }

  /** Event `e` leaves the arm `id` of `key` alone. */
  predicate Spares(e: Event, key: Key, id: nat) {
    e != Arm(key) && e != Disarm(key) && e != Wake(key, id)
  }

  /** The arm at `i` is `id` of `key`, and nothing up to `n` has replaced, disarmed or woken it. */
  ghost predicate Stands(es: seq<Event>, i: int, n: nat, key: Key, id: nat)
    requires n <= |es|
  {
    0 <= i < n && es[i] == Arm(key) && ArmId(es, i) == id && forall m :: i < m < n ==> Spares(es[m], key, id)
  }

  /** Some arm `id` of `key` stands at `n`. */
  ghost predicate Standing(es: seq<Event>, n: nat, key: Key, id: nat)
    requires n <= |es|
  {
    exists i :: Stands(es, i, n, key, id)
  }

  lemma RunNext(es: seq<Event>, n: nat)
    requires n < |es|
    ensures Run(es[..n + 1]) == Step(Run(es[..n]), es[n]).0
  {
    assert es[..n + 1][..n] == es[..n];
  }

  lemma {:induction false} NumbersGrow(es: seq<Event>, i: nat, n: nat)
    requires i <= n <= |es|
    ensures Run(es[..i]).next <= Run(es[..n]).next
    ensures i < n && es[i].Arm? ==> ArmId(es, i) <= Run(es[..n]).next
    ensures forall key :: key in Run(es[..n]).armed ==> 0 < Run(es[..n]).armed[key] <= Run(es[..n]).next
    decreases n
  {
    hide Run;
    if n == 0 {
      EmptyRun(es);
    } else {
      NumbersGrow(es, if i < n then i else n - 1, n - 1);
      RunNext(es, n - 1);
    }
  }

  lemma EmptyRun(es: seq<Event>)
    ensures Run(es[..0]) == Table(0, map[])
  {
  }

  /** What is in the table is exactly the arms that still stand. */
  lemma {:induction false} TableIsStanding(es: seq<Event>, n: nat, key: Key, id: nat)
    requires n <= |es|
    ensures (key in Run(es[..n]).armed && Run(es[..n]).armed[key] == id) <==> Standing(es, n, key, id)
  {
    hide Run;
    if n == 0 {
      EmptyRun(es);
    } else {
      RunNext(es, n - 1);
      TableIsStanding(es, n - 1, key, id);
      NumbersGrow(es, 0, n - 1);
      var e := es[n - 1];
      if e == Arm(key) && ArmId(es, n - 1) == id {
        assert Stands(es, n - 1, n, key, id);
      }
      if Standing(es, n - 1, key, id) {
        var i :| Stands(es, i, n - 1, key, id);
        if Spares(e, key, id) {
          assert Stands(es, i, n, key, id);
        }
      }
      if Standing(es, n, key, id) {
        var i :| Stands(es, i, n, key, id);
        if i < n - 1 {
          assert Stands(es, i, n - 1, key, id);
        }
      }
    }
  }

  /**
   In every interleaving a wake fires exactly when its arm was made before it and has not been
   replaced, disarmed or woken in between.
   */
  lemma FiresExactly(es: seq<Event>, k: nat)
    requires k < |es| && es[k].Wake?
    ensures FiresAt(es, k) <==> Standing(es, k, es[k].key, es[k].arm)
  {
    TableIsStanding(es, k, es[k].key, es[k].arm);
  }

  /** An arm fires at most once, whichever of its wakes come. */
  lemma FiresOnce(es: seq<Event>, j: nat, k: nat)
    requires j < k < |es| && es[j].Wake? && es[j] == es[k]
    ensures !(FiresAt(es, j) && FiresAt(es, k))
  {
    hide Run;
    if FiresAt(es, j) && FiresAt(es, k) {
      FiresExactly(es, j);
      FiresExactly(es, k);
      var i :| Stands(es, i, j, es[j].key, es[j].arm);
      var h :| Stands(es, h, k, es[k].key, es[k].arm);
      NumbersGrow(es, i, j);
      NumbersGrow(es, j, h);
    }
  }

  class TimerTable {
    var next: nat
    var armed: map<Key, nat>
    ghost var events: seq<Event>

    ghost predicate Valid()
      reads this
    {
      Table(next, armed) == Run(events)
    }

    constructor ()
      ensures Valid() && events == []
    {
      next, armed, events := 0, map[], [];
    }

    method ArmKey(key: Key) returns (arm: nat)
      requires Valid()
      modifies this
      ensures Valid() && events == old(events) + [Arm(key)]
      ensures arm == ArmId(events, |old(events)|)
    {
      next := next + 1;
      arm := next;
      armed := armed[key := arm];
      assert (events + [Arm(key)])[..|events|] == events;
      events := events + [Arm(key)];
    }

    method DisarmKey(key: Key)
      requires Valid()
      modifies this
      ensures Valid() && events == old(events) + [Disarm(key)]
    {
      armed := armed - {key};
      assert (events + [Disarm(key)])[..|events|] == events;
      events := events + [Disarm(key)];
    }

    /** What the spawned task decides under the lock; it fires after releasing it. */
    method WakeTask(key: Key, arm: nat) returns (live: bool)
      requires Valid()
      modifies this
      ensures Valid() && events == old(events) + [Wake(key, arm)]
      ensures live == FiresAt(events, |old(events)|)
    {
      live := false;
      if key in armed && armed[key] == arm {
        armed := armed - {key};
        live := true;
      }
      assert (events + [Wake(key, arm)])[..|events|] == events;
      events := events + [Wake(key, arm)];
    }

    method IsArmed(key: Key) returns (yes: bool)
      requires Valid()
      ensures yes <==> exists id: nat :: Standing(events, |events|, key, id)
    {
      yes := key in armed;
      assert events[..|events|] == events;
      forall id: nat {
        TableIsStanding(events, |events|, key, id);
      }
      if yes {
        assert Standing(events, |events|, key, armed[key]);
      }
    }
  }
}
