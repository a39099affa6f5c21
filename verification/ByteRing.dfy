/** The market-data ring: variable-length messages packed at the front of one buffer. */
module ByteRing {
  import opened Wrappers
  import Spec = ByteQueue
  import opened ByteQueue

  /** The capacity when the caller asks for none. */
  const MD_BYTES: nat := 0x200_0000

  datatype MdMsg = MdMsg(n: nat, book: bool)

  /** The bytes of the messages, one after another. */
  ghost function Flatten(es: seq<Entry>): (data: seq<Byte>)
    ensures |data| == Size(es)
  {
    if es == [] then [] else es[0].bytes + Flatten(es[1..])
  }

  lemma {:induction false} FlattenAppend(a: seq<Entry>, b: seq<Entry>)
    ensures Flatten(a + b) == Flatten(a) + Flatten(b)
  {
    if a == [] {
      assert a + b == b;
    } else {
      assert (a + b)[1..] == a[1..] + b;
      FlattenAppend(a[1..], b);
    }
  }

  /** Message `i` sits between the bytes before it and the bytes behind it. */
  lemma {:induction false} FlattenSplit(es: seq<Entry>, i: nat)
    requires i < |es|
    ensures Flatten(es) == Flatten(es[..i]) + es[i].bytes + Flatten(es[i + 1..])
    ensures Flatten(es[..i] + es[i + 1..]) == Flatten(es[..i]) + Flatten(es[i + 1..])
  {
    assert es == es[..i] + es[i..] && es[i..][1..] == es[i + 1..];
    FlattenAppend(es[..i], es[i..]);
    FlattenAppend(es[..i], es[i + 1..]);
  }

  /** The two lists describe the messages `es`, position by position. */
  ghost predicate Lists(es: seq<Entry>, msgs: seq<MdMsg>, at: seq<int>, timed: bool) {
    && |msgs| == |es| && |at| == (if timed then |es| else 0)
    && (forall i :: 0 <= i < |es| ==> msgs[i] == MdMsg(|es[i].bytes|, es[i].book))
    && (forall i :: 0 <= i < |es| ==> es[i].at == if timed then at[i] else 0)
  }

  lemma ListsRemove(es: seq<Entry>, msgs: seq<MdMsg>, at: seq<int>, timed: bool, i: nat)
    requires Lists(es, msgs, at, timed) && i < |es|
    ensures |msgs| == |es| && msgs[i].n == |es[i].bytes| && (timed ==> |at| == |es|)
    ensures Lists(es[..i] + es[i + 1..], msgs[..i] + msgs[i + 1..], if timed then at[..i] + at[i + 1..] else at, timed)
  {
  }

  lemma ListsAppend(es: seq<Entry>, msgs: seq<MdMsg>, at: seq<int>, timed: bool, e: Entry)
    requires Lists(es, msgs, at, timed) && (timed || e.at == 0)
    ensures Lists(es + [e], msgs + [MdMsg(|e.bytes|, e.book)], if timed then at + [e.at] else at, timed)
  {
  }

  class MdRing {
    const buf: array<Byte>
    const timed: bool
    var msgs: seq<MdMsg>
    var at: seq<int>
    var pinned: bool
    var pinN: nat
    var used: nat
    var dropped: nat
    /** The messages the bytes stand for. */
    ghost var contents: seq<Entry>

    ghost predicate Valid()
      reads this, buf
    {
      && used <= buf.Length && buf[..used] == Flatten(contents)
      && Lists(contents, msgs, at, timed)
      && (pinned ==> contents != [] && pinN == |contents[0].bytes|)
      && (!pinned ==> pinN == 0)
    }

    ghost function Abs(): (q: Queue)
      reads this, buf
      requires Valid()
      ensures q.Valid()
    {
      Queue(contents, pinned, dropped, buf.Length, timed)
    }

    constructor (bytes: nat, timed: bool)
      ensures Valid() && fresh(buf)
      ensures Abs() == Queue([], false, 0, if bytes == 0 then 33_554_432 else bytes, timed)
    {
      buf := new Byte[if bytes == 0 then MD_BYTES else bytes](_ => 0);
      this.timed := timed;
      msgs, at, pinned, pinN, used, dropped, contents := [], [], false, 0, 0, 0, [];
    }

    /** `ptr::copy`: moves `count` bytes from `from` down to `to`; the ranges may overlap. */
    method Slide(from: nat, to: nat, count: nat)
      requires to <= from && from + count <= buf.Length
      modifies buf
      ensures buf[..to + count] == old(buf[..to] + buf[from..from + count])
    {
      forall k | 0 <= k < count {
        buf[to + k] := buf[from + k];
      }
    }

    /** Takes message `i` off the lists; `Slide` has moved the bytes behind it. */
    method Unlist(i: nat)
      requires Lists(contents, msgs, at, timed) && i < |contents|
      modifies this`msgs, this`at, this`contents
      ensures Lists(contents, msgs, at, timed) && contents == old(contents[..i] + contents[i + 1..])
    {
      hide Lists;
      ListsRemove(contents, msgs, at, timed, i);
      msgs := msgs[..i] + msgs[i + 1..];
      if timed {
        at := at[..i] + at[i + 1..];
      }
      contents := contents[..i] + contents[i + 1..];
    }

    /** Takes the bytes of message `i`, which starts at `off`, out of the buffer. */
    method Squeeze(i: nat, off: nat)
      requires Valid() && i < |contents| && off == |Flatten(contents[..i])|
      modifies this`used, buf
      ensures used == old(used) - |contents[i].bytes| && off <= used
      ensures buf[..off] == old(buf[..off])
      ensures buf[..used] == Flatten(contents[..i] + contents[i + 1..])
    {
      hide Flatten, Lists;
      ListsRemove(contents, msgs, at, timed, i);
      var n := msgs[i].n;
      FlattenSplit(contents, i);
      ghost var head, tail := Flatten(contents[..i]), Flatten(contents[i + 1..]);
      SliceOut(buf[..used], head, contents[i].bytes, tail);
      Slide(off + n, off, used - (off + n));
      used := used - n;
      assert buf[..used] == head + tail;
    }

    method DropUnpinned() returns (some: bool)
      requires Valid()
      modifies this, buf
      ensures Valid() && some == (old(Abs()).Held() < |old(contents)|)
      ensures Abs() == if some then DropOldest(old(Abs())) else old(Abs())
      ensures pinned == old(pinned) && pinN == old(pinN) && pinN <= used && buf[..pinN] == old(buf[..pinN])
    {
      hide Size, Flatten;
      PinFits();
      var idx, off := 0, 0;
      if pinned {
        if |msgs| < 2 {
          return false;
        }
        idx, off := 1, pinN;
      } else if msgs == [] {
        return false;
      }
      FlattenFirst(contents, idx);
      Squeeze(idx, off);
      Unlist(idx);
      dropped := dropped + 1;
      some := true;
    }

    method Free() returns (free: nat)
      requires Valid()
      ensures free == buf.Length - Size(contents)
    {
      free := buf.Length - used;
    }

    method Push(msg: seq<Byte>, book: bool, when: int) returns (ok: bool)
      requires Valid()
      modifies this, buf
      ensures Valid() && (Abs(), ok) == Spec.Push(old(Abs()), msg, book, when)
      ensures pinned == old(pinned) && pinN == old(pinN) && buf[..pinN] == old(buf[..pinN])
    {
      hide Size, DropOldest, Evict, Flatten, Lists;
      PinFits();
      if |msg| > buf.Length {
        dropped := dropped + 1;
        return false;
      }
      var free := Free();
      while free < |msg|
        invariant Valid() && free == buf.Length - Size(contents)
        invariant Evict(old(Abs()), |msg|) == Evict(Abs(), |msg|)
        invariant pinned == old(pinned) && pinN == old(pinN) && pinN <= used && buf[..pinN] == old(buf[..pinN])
        decreases |contents|
      {
        ghost var q := Abs();
        EvictOnce(q, |msg|);
        var some := DropUnpinned();
        if !some {
          dropped := dropped + 1;
          return false;
        }
        Smaller(q);
        free := Free();
      }
      EvictOnce(Abs(), |msg|);
      Append(msg, book, when);
      ok := true;
    }

    /** `ptr::copy_nonoverlapping`: copies `msg` into the free suffix. */
    method Copy(msg: seq<Byte>)
      requires used + |msg| <= buf.Length
      modifies buf
      ensures buf[..used + |msg|] == old(buf[..used]) + msg
    {
      forall k | 0 <= k < |msg| {
        buf[used + k] := msg[k];
      }
    }

    method Append(msg: seq<Byte>, book: bool, when: int)
      requires Valid() && used + |msg| <= buf.Length
      modifies this`used, this`msgs, this`at, this`contents, buf
      ensures Valid() && contents == old(contents) + [NewEntry(old(Abs()), msg, book, when)]
      ensures used >= old(used) && buf[..old(used)] == old(buf[..used])
    {
      hide Size, Lists, Flatten;
      ghost var e := NewEntry(Abs(), msg, book, when);
      FlattenAppend(contents, [e]);
      FlattenOne(e);
      ListsAppend(contents, msgs, at, timed, e);
      Copy(msg);
      assert buf[..used] == buf[..used + |msg|][..used];
      used := used + |msg|;
      msgs := msgs + [MdMsg(|msg|, book)];
      if timed {
        at := at + [when];
      }
      contents := contents + [e];
    }

    lemma PinFits()
      requires Valid()
      ensures pinN <= used
    {
      if pinned {
        FlattenSplit(contents, 0);
      }
    }

    /** Pins the oldest message: its kind, its length and its push time. */
    method Peek() returns (head: Option<(bool, nat, int)>)
      requires Valid()
      modifies this
      ensures Valid() && Abs() == Spec.Peek(old(Abs())).0
      ensures match Spec.Peek(old(Abs())).1
              case None => head == None
              case Some(e) =>
                head == Some((e.book, |e.bytes|, e.at)) && pinned && pinN <= used && buf[..pinN] == e.bytes
    {
      hide Size, Flatten;
      if pinned || msgs == [] {
        return None;
      }
      FlattenFirst(contents, 0);
      FlattenSplit(contents, 0);
      SliceOut(buf[..used], [], contents[0].bytes, Flatten(contents[1..]));
      pinned := true;
      pinN := msgs[0].n;
      head := Some((msgs[0].book, pinN, if timed then at[0] else 0));
    }

    method Release()
      requires Valid()
      modifies this, buf
      ensures Valid() && Abs() == Spec.Release(old(Abs()))
    {
      if !pinned {
        return;
      }
      hide Size, Flatten;
      FlattenFirst(contents, 0);
      Squeeze(0, 0);
      Unlist(0);
      pinned := false;
      pinN := 0;
    }

    method Discard()
      requires Valid()
      modifies this
      ensures Valid() && Abs() == Spec.Discard(old(Abs()))
    {
      msgs := [];
      at := [];
      used := 0;
      pinned := false;
      pinN := 0;
      contents := [];
    }

    method CountWaiting() returns (n: nat)
      requires Valid()
      ensures n == Waiting(Abs()) == |contents| - if pinned then 1 else 0
    {
      n := |msgs|;
      if pinned && n > 0 {
        n := n - 1;
      }
    }
  }

  lemma Smaller(q: Queue)
    requires q.Held() < |q.msgs|
    ensures |DropOldest(q).msgs| == |q.msgs| - 1
  {
  }

  lemma FlattenOne(e: Entry)
    ensures Flatten([e]) == e.bytes
  {
  }

  lemma FlattenFirst(es: seq<Entry>, i: nat)
    requires i < |es| && i <= 1
    ensures |Flatten(es[..i])| == if i == 0 then 0 else |es[0].bytes|
  {
    if i == 1 {
      assert es[..1][1..] == [];
    }
  }

  lemma SliceOut(data: seq<Byte>, a: seq<Byte>, b: seq<Byte>, c: seq<Byte>)
    requires data == a + b + c
    ensures data[..|a|] == a && data[|a|..|a| + |b|] == b && data[|a| + |b|..] == c
  {
  }
}
