/**
 The protobuf wire format as a writer of its own: varints, keys and payloads.  What `EventLog` walks,
 filters and looks up is stated here of messages written field by field.
 */
module EventLogWire {
  import opened Wrappers
  import opened EventLog

  /** Seven bits a byte, the least significant first, with the high bit on all but the last. */
  function PutVarint(n: nat): (b: Bytes)
    ensures b != []
  {
    if n < 128 then [n] else [n % 128 + 128] + PutVarint(n / 128)
  }

  /** A value as it is written: a varint, eight bytes, a length and bytes, or four bytes. */
  datatype Wire = Number(n: nat) | Eight(bytes: Bytes) | Delimited(bytes: Bytes) | Four(bytes: Bytes)

  predicate Writable(w: Wire) {
    match w
    case Number(n) => n < U64_SPAN
    case Eight(b) => |b| == 8
    case Delimited(b) => |b| < U64_SPAN
    case Four(b) => |b| == 4
  }

  function KindOf(w: Wire): nat {
    match w
    case Number(_) => 0
    case Eight(_) => 1
    case Delimited(_) => 2
    case Four(_) => 5
  }

  function PutPayload(w: Wire): Bytes {
    match w
    case Number(n) => PutVarint(n)
    case Eight(b) => b
    case Delimited(b) => PutVarint(|b|) + b
    case Four(b) => b
  }

  function PutField(number: nat, w: Wire): Bytes {
    PutVarint(8 * number + KindOf(w)) + PutPayload(w)
  }

  // ---------- Varints ----------

  lemma {:induction false} VarintLength(n: nat, k: nat)
    requires k > 0 && n < Pow128(k)
    ensures |PutVarint(n)| <= k
  {
    if n >= 128 {
      VarintLength(n / 128, k - 1);
    }
  }

  lemma TenBytes(n: nat)
    requires n < U64_SPAN
    ensures |PutVarint(n)| <= 10
  {
    assert Pow128(2) == 0x4000 && Pow128(4) == 0x1000_0000;
    assert Pow128(6) == 0x400_0000_0000 && Pow128(8) == 0x100_0000_0000_0000;
    assert Pow128(10) == 0x40_0000_0000_0000_0000;
    VarintLength(n, 10);
  }

  lemma WrapSplit(n: nat, i: nat)
    ensures Wrap(n % 128 * Pow128(i) + Wrap(n / 128 * Pow128(i + 1))) == Wrap(n * Pow128(i))
  {
    hide Pow128;
    var p := Pow128(i);
    assert Pow128(i + 1) == 128 * p by { PowNext(i); }
    WrapOnce(n % 128 * p, n / 128 * (128 * p));
    Distribute(n / 128, n % 128, p);
    assert n == n / 128 * 128 + n % 128;
  }

  lemma PowNext(i: nat)
    ensures Pow128(i + 1) == 128 * Pow128(i)
  {
  }

  lemma Distribute(q: nat, r: nat, p: nat)
    ensures r * p + q * (128 * p) == (q * 128 + r) * p
  {
  }

  lemma {:induction false} VarintReads(front: Bytes, n: nat, tail: Bytes)
    requires |front| + |PutVarint(n)| <= 10
    ensures VarintFrom(front + PutVarint(n) + tail, |front|) ==
              Some((Wrap(n * Pow128(|front|)), |front| + |PutVarint(n)|))
    decreases n
  {
    hide Wrap, Pow128;
    var i, b := |front|, front + PutVarint(n) + tail;
    if n < 128 {
      assert b[i] == n;
      SmallByte(n, i);
    } else {
      var x := n % 128 + 128;
      var next := front + [x];
      assert b == next + PutVarint(n / 128) + tail && b[i] == x;
      VarintReads(next, n / 128, tail);
      HighByte(n, i);
      WrapSplit(n, i);
    }
  }

  lemma SmallByte(n: nat, i: nat)
    requires n < 128
    ensures Septet(n, i) == n * Pow128(i)
  {
    hide Pow128;
    assert n % 0x80 == n;
  }

  lemma HighByte(n: nat, i: nat)
    ensures Septet(n % 128 + 128, i) == n % 128 * Pow128(i)
  {
    hide Pow128;
    assert (n % 128 + 128) % 0x80 == n % 128;
  }

  /** Every 64-bit number is read back from its varint, whatever follows. */
  lemma VarintReadsBack(n: nat, tail: Bytes)
    requires n < U64_SPAN
    ensures Varint(PutVarint(n) + tail) == Some((n, |PutVarint(n)|))
  {
    hide PutVarint, VarintFrom, Wrap, Pow128;
    TenBytes(n);
    VarintReads([], n, tail);
    assert [] + PutVarint(n) + tail == PutVarint(n) + tail;
    NoShift(n);
  }

  lemma NoShift(n: nat)
    requires n < U64_SPAN
    ensures Wrap(n * Pow128(0)) == n
  {
    assert n * Pow128(0) == n;
  }

  // ---------- Fields ----------

  lemma PayloadReadsBack(w: Wire, tail: Bytes)
    requires Writable(w)
    ensures Payload(KindOf(w), PutPayload(w) + tail) ==
              Some((|PutPayload(w)|, if w.Delimited? then Some(w.bytes) else None))
  {
    hide Varint, PutVarint;
    match w
    case Number(n) => VarintReadsBack(n, tail);
    case Delimited(b) =>
      VarintReadsBack(|b|, b + tail);
      var p := PutVarint(|b|);
      assert p + b + tail == p + (b + tail);
      assert (p + b + tail)[|p|..|p| + |b|] == b;
    case _ =>
  }

  /** A field as it is read: its number, all its bytes, and the value of a delimited one. */
  function Read(number: nat, w: Wire): Field {
    Field(number, PutField(number, w), if w.Delimited? then Some(w.bytes) else None)
  }

  /** Every field that is written is read back, whatever follows. */
  lemma FieldReadsBack(number: nat, w: Wire, tail: Bytes)
    requires 1 <= number <= 0x1fff_ffff && Writable(w)
    ensures NextField(PutField(number, w) + tail) == Some(Read(number, w))
  {
    hide Varint, PutVarint, Payload, PutPayload;
    var key, p := 8 * number + KindOf(w), PutPayload(w);
    var k := PutVarint(key);
    var msg := k + p + tail;
    VarintReadsBack(key, p + tail);
    assert msg == k + (p + tail) && msg[|k|..] == p + tail;
    KeyParts(number, KindOf(w));
    PayloadReadsBack(w, tail);
    assert msg[..|k| + |p|] == k + p;
  }

  /** A key that no field has: number 0, a number past 29 bits, or a kind the format does not use. */
  lemma BadKeyRefused(key: nat, rest: Bytes)
    requires key < U64_SPAN
    requires key / 8 == 0 || key / 8 > 0x1fff_ffff || key % 8 == 3 || key % 8 == 4 || key % 8 == 6 || key % 8 == 7
    ensures NextField(PutVarint(key) + rest) == None
  {
    hide Varint, PutVarint;
    VarintReadsBack(key, rest);
  }

  lemma CutPayload(w: Wire, n: nat)
    requires Writable(w) && !w.Number?
    requires |PutPayload(w)| > n >= if w.Delimited? then |PutVarint(|w.bytes|)| else 0
    ensures Payload(KindOf(w), PutPayload(w)[..n]) == None
  {
    hide Varint, PutVarint;
    if w.Delimited? {
      var rest, p := PutPayload(w)[..n], PutVarint(|w.bytes|);
      assert rest == p + rest[|p|..];
      VarintReadsBack(|w.bytes|, rest[|p|..]);
    }
  }

  /** A payload cut short is no field. */
  lemma CutPayloadRefused(number: nat, w: Wire, n: nat)
    requires 1 <= number <= 0x1fff_ffff && Writable(w) && !w.Number?
    requires |PutPayload(w)| > n >= if w.Delimited? then |PutVarint(|w.bytes|)| else 0
    ensures NextField(PutVarint(8 * number + KindOf(w)) + PutPayload(w)[..n]) == None
  {
    hide Varint, PutVarint, Payload, PutPayload;
    var key, rest := 8 * number + KindOf(w), PutPayload(w)[..n];
    var k := PutVarint(key);
    VarintReadsBack(key, rest);
    CutPayload(w, n);
    assert (k + rest)[|k|..] == rest;
    KeyParts(number, KindOf(w));
  }

  lemma KeyParts(number: nat, kind: nat)
    requires kind < 8
    ensures (8 * number + kind) / 8 == number && (8 * number + kind) % 8 == kind
  {
  }

  // ---------- Messages ----------

  /** The fields of a message, as a writer puts them. */
  type Message = seq<(nat, Wire)>

  ghost predicate WellFormed(m: Message) {
    forall k :: 0 <= k < |m| ==> 1 <= m[k].0 <= 0x1fff_ffff && Writable(m[k].1)
  }

  function PutMessage(m: Message): Bytes {
    if m == [] then [] else PutField(m[0].0, m[0].1) + PutMessage(m[1..])
  }

  /** The message without the fields of one number. */
  function Dropped(m: Message, number: nat): Message {
    if m == [] then []
    else (if m[0].0 == number then [] else [m[0]]) + Dropped(m[1..], number)
  }

  lemma {:induction false} MessageReads(m: Message)
    requires WellFormed(m)
    ensures Parses(PutMessage(m)) && |Fields(PutMessage(m))| == |m|
    ensures forall k :: 0 <= k < |m| ==> Fields(PutMessage(m))[k] == Read(m[k].0, m[k].1)
  {
    hide PutField, NextField;
    if m != [] {
      var f, rest := Read(m[0].0, m[0].1), PutMessage(m[1..]);
      FieldReadsBack(m[0].0, m[0].1, rest);
      MessageReads(m[1..]);
      assert PutMessage(m)[|f.raw|..] == rest;
      assert Fields(PutMessage(m)) == [f] + Fields(rest);
    } else {
      assert NextField([]) == None by { NoField(); }
    }
  }

  lemma NoField()
    ensures NextField([]) == None
  {
  }

  lemma {:induction false} DroppedReads(m: Message, fs: seq<Field>, number: nat)
    requires |fs| == |m| && forall k :: 0 <= k < |m| ==> fs[k] == Read(m[k].0, m[k].1)
    ensures Join(Others(fs, number)) == PutMessage(Dropped(m, number))
  {
    hide PutField;
    if m != [] {
      DroppedReads(m[1..], fs[1..], number);
      if m[0].0 != number {
        assert Others(fs, number)[1..] == Others(fs[1..], number);
        assert Dropped(m, number)[1..] == Dropped(m[1..], number);
      } else {
        assert Others(fs, number) == Others(fs[1..], number);
        assert Dropped(m, number) == Dropped(m[1..], number);
      }
    }
  }

  /** Filtering what was written is writing what is left. */
  lemma FilterIsDrop(m: Message, number: nat)
    requires WellFormed(m)
    ensures Without(PutMessage(m), number) == PutMessage(Dropped(m, number))
  {
    hide PutMessage, Parses, Fields;
    MessageReads(m);
    DroppedReads(m, Fields(PutMessage(m)), number);
  }

  /** The `k`-th field is delimited, of the number asked for, and no later one is. */
  ghost predicate LastAt(m: Message, number: nat, k: int) {
    && 0 <= k < |m| && m[k].0 == number && m[k].1.Delimited?
    && forall j :: k < j < |m| ==> !(m[j].0 == number && m[j].1.Delimited?)
  }

  lemma {:induction false} LastReads(m: Message, fs: seq<Field>, number: nat)
    requires |fs| == |m| && forall k :: 0 <= k < |m| ==> fs[k] == Read(m[k].0, m[k].1)
    ensures forall k :: LastAt(m, number, k) ==> LastValue(fs, number) == Some(m[k].1.bytes)
    ensures (forall k :: 0 <= k < |m| ==> !(m[k].0 == number && m[k].1.Delimited?)) ==> LastValue(fs, number) == None
  {
    if m != [] {
      LastReads(m[1..], fs[1..], number);
      forall k | LastAt(m, number, k) ensures LastValue(fs, number) == Some(m[k].1.bytes) {
        if k > 0 {
          assert m[1..][k - 1] == m[k];
          assert LastAt(m[1..], number, k - 1);
        } else {
          assert forall j :: 0 <= j < |m[1..]| ==> m[1..][j] == m[j + 1];
        }
      }
    }
  }

  /** A lookup in what was written finds the last delimited value of its number, or none if there is none. */
  lemma LookupIsLast(m: Message, number: nat)
    requires WellFormed(m)
    ensures forall k :: LastAt(m, number, k) ==> FieldBytes(PutMessage(m), number) == Some(m[k].1.bytes)
    ensures (forall k :: 0 <= k < |m| ==> !(m[k].0 == number && m[k].1.Delimited?)) ==>
              FieldBytes(PutMessage(m), number) == None
  {
    hide PutMessage, Parses, Fields;
    MessageReads(m);
    LastReads(m, Fields(PutMessage(m)), number);
  }
}
