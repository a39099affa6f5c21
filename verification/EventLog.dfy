/** Event-log bodies: a filter and a lookup over protobuf fields, and length-prefixed strings. */
module EventLog {
  import opened Wrappers

  type Byte = b: int | 0 <= b < 256
  type Bytes = seq<Byte>

  const MAX_FIELD: nat := 0x1fff_ffff
  const U64_SPAN: nat := 0x1_0000_0000_0000_0000
  const U16_MAX: nat := 0xffff

  // ---------- One field ----------

  function Pow128(i: nat): (p: nat)
    ensures p > 0
  {
    if i == 0 then 1 else 128 * Pow128(i - 1)
  }

  /** The seven bits of a byte, at their place. */
  function Septet(x: Byte, i: nat): nat {
    x % 0x80 * Pow128(i)
  }

  /** Kept to 64 bits. */
  function Wrap(x: nat): (w: nat)
    ensures w < U64_SPAN
  {
    x % U64_SPAN
  }

  /** The base-128 number whose digits start at `i`, and where it ends; at most ten bytes, kept to 64 bits. */
  function VarintFrom(b: Bytes, i: nat): (r: Option<(nat, nat)>)
    ensures r.Some? ==> i < r.value.1 <= |b| && r.value.0 < U64_SPAN
    decreases 10 - i
  {
    if i >= |b| || i >= 10 then None
    else if b[i] < 0x80 then Some((Wrap(Septet(b[i], i)), i + 1))
    else
      match VarintFrom(b, i + 1)
      case None => None
      case Some((rest, end)) => Some((Wrap(Septet(b[i], i) + rest), end))
  }

  function Varint(b: Bytes): Option<(nat, nat)> {
    VarintFrom(b, 0)
  }

  /** A number whose digits before `r` add up to `low`. */
  function AddLow(low: nat, r: Option<(nat, nat)>): Option<(nat, nat)> {
    match r
    case None => None
    case Some((rest, end)) => Some((Wrap(low + rest), end))
  }

  lemma WrapOnce(a: nat, b: nat)
    ensures Wrap(Wrap(a) + b) == Wrap(a + b) == Wrap(a + Wrap(b))
  {
    assert a == U64_SPAN * (a / U64_SPAN) + a % U64_SPAN;
    assert b == U64_SPAN * (b / U64_SPAN) + b % U64_SPAN;
    WrapMultiple(a % U64_SPAN + b, a / U64_SPAN);
    WrapMultiple(a + b % U64_SPAN, b / U64_SPAN);
  }

  lemma WrapMultiple(a: nat, k: nat)
    ensures (a + U64_SPAN * k) % U64_SPAN == a % U64_SPAN
  {
    assert a + U64_SPAN * k == U64_SPAN * (a / U64_SPAN + k) + a % U64_SPAN;
  }

  lemma VarintTurn(b: Bytes, i: nat, low: nat)
    requires i < |b| && i < 10
    ensures AddLow(low, VarintFrom(b, i)) ==
              var next := Wrap(low + Septet(b[i], i));
              if b[i] < 0x80 then Some((next, i + 1)) else AddLow(next, VarintFrom(b, i + 1))
  {
    hide Wrap, Septet;
    var x := Septet(b[i], i);
    WrapOnce(low, x);
    if b[i] >= 0x80 && VarintFrom(b, i + 1).Some? {
      var rest := VarintFrom(b, i + 1).value.0;
      WrapOnce(low, x + rest);
      WrapOnce(low + x, rest);
    }
  }

  /** `varint`: the bits of one byte at a time, from the lowest; what does not fit 64 bits is lost. */
  method ReadVarint(b: Bytes) returns (r: Option<(nat, nat)>)
    ensures r == Varint(b)
  {
    hide VarintFrom, Wrap, Septet;
    var value: nat := 0;
    assert AddLow(0, VarintFrom(b, 0)) == VarintFrom(b, 0) by { AddNothing(VarintFrom(b, 0)); }
    var i := 0;
    while i < |b| && i < 10
      invariant 0 <= i <= 10
      invariant Varint(b) == AddLow(value, VarintFrom(b, i))
    {
      VarintTurn(b, i, value);
      value := Wrap(value + Septet(b[i], i));
      if b[i] < 0x80 {
        return Some((value, i + 1));
      }
      i := i + 1;
    }
    VarintEnds(b, i);
    r := None;
  }

  lemma AddNothing(r: Option<(nat, nat)>)
    requires r.Some? ==> r.value.0 < U64_SPAN
    ensures AddLow(0, r) == r
  {
  }

  lemma VarintEnds(b: Bytes, i: nat)
    requires i >= |b| || i >= 10
    ensures VarintFrom(b, i) == None
  {
  }

  /** A field as it stands in a message: its number, its bytes with the key, and a delimited value. */
  datatype Field = Field(number: nat, raw: Bytes, value: Option<Bytes>)

  /** How many bytes follow the key, and the value of a length-delimited field. */
  function Payload(kind: nat, rest: Bytes): (r: Option<(nat, Option<Bytes>)>)
    ensures r.Some? ==> r.value.0 <= |rest|
  {
    match kind
    case 0 => if Varint(rest).Some? then Some((Varint(rest).value.1, None)) else None
    case 1 => if 8 <= |rest| then Some((8, None)) else None
    case 2 =>
      if Varint(rest).None? then None
      else
        var (n, start) := Varint(rest).value;
        if start + n <= |rest| then Some((start + n, Some(rest[start..start + n]))) else None
    case 5 => if 4 <= |rest| then Some((4, None)) else None
    case _ => None
  }

  function NextField(msg: Bytes): (f: Option<Field>)
    ensures f.Some? ==> 0 < |f.value.raw| <= |msg| && f.value.raw == msg[..|f.value.raw|]
  {
    match Varint(msg)
    case None => None
    case Some((key, keyLen)) =>
      if !(1 <= key / 8 <= MAX_FIELD) then None
      else
        match Payload(key % 8, msg[keyLen..])
        case None => None
        case Some((len, value)) => Some(Field(key / 8, msg[..keyLen + len], value))
  }

  // ---------- A field depends only on its own bytes ----------

  lemma {:induction false} VarintLocal(b: Bytes, c: Bytes, i: nat)
    requires VarintFrom(b, i).Some? && VarintFrom(b, i).value.1 <= |c|
    requires forall k :: 0 <= k < VarintFrom(b, i).value.1 ==> b[k] == c[k]
    ensures VarintFrom(c, i) == VarintFrom(b, i)
    decreases 10 - i
  {
    if b[i] >= 0x80 {
      VarintLocal(b, c, i + 1);
    }
  }

  lemma PayloadLocal(kind: nat, b: Bytes, c: Bytes)
    requires Payload(kind, b).Some? && Payload(kind, b).value.0 <= |c|
    requires forall k :: 0 <= k < Payload(kind, b).value.0 ==> b[k] == c[k]
    ensures Payload(kind, c) == Payload(kind, b)
  {
    if kind == 0 || kind == 2 {
      VarintLocal(b, c, 0);
    }
    if kind == 2 {
      var (n, start) := Varint(b).value;
      assert Payload(2, b).value.0 == start + n;
      var x, y := b[start..start + n], c[start..start + n];
      forall k | 0 <= k < n ensures x[k] == y[k] {
        assert b[start + k] == c[start + k];
      }
      assert x == y;
    }
  }

  /** Bytes behind a field do not change how it reads. */
  lemma FieldLocal(msg: Bytes, tail: Bytes)
    requires NextField(msg).Some?
    ensures NextField(NextField(msg).value.raw + tail) == NextField(msg)
  {
    var f := NextField(msg).value;
    var c := f.raw + tail;
    var (key, keyLen) := Varint(msg).value;
    var (len, value) := Payload(key % 8, msg[keyLen..]).value;
    assert forall k :: 0 <= k < keyLen + len ==> c[k] == msg[k];
    VarintLocal(msg, c, 0);
    assert forall k :: 0 <= k < len ==> c[keyLen..][k] == msg[keyLen..][k];
    PayloadLocal(key % 8, msg[keyLen..], c[keyLen..]);
    assert c[..keyLen + len] == f.raw;
  }

  // ---------- Messages ----------

  /** The fields of a message, as far as it can be walked. */
  function Fields(msg: Bytes): seq<Field>
    decreases |msg|
  {
    match NextField(msg)
    case None => []
    case Some(f) => [f] + Fields(msg[|f.raw|..])
  }

  /** The walk reaches the end. */
  predicate Parses(msg: Bytes)
    decreases |msg|
  {
    msg == [] || (NextField(msg).Some? && Parses(msg[|NextField(msg).value.raw|..]))
  }

  function Join(fs: seq<Field>): Bytes {
    if fs == [] then [] else fs[0].raw + Join(fs[1..])
  }

  /** The fields whose number is not `number`. */
  function Others(fs: seq<Field>, number: nat): seq<Field> {
    if fs == [] then []
    else (if fs[0].number != number then [fs[0]] else []) + Others(fs[1..], number)
  }

  /** The value of the last length-delimited field `number`. */
  function LastValue(fs: seq<Field>, number: nat): Option<Bytes> {
    if fs == [] then None
    else if LastValue(fs[1..], number).Some? then LastValue(fs[1..], number)
    else if fs[0].number == number then fs[0].value
    else None
  }

  function Without(msg: Bytes, number: nat): Bytes {
    Join(Others(Fields(msg), number))
  }

  function FieldBytes(msg: Bytes, number: nat): Option<Bytes> {
    if Parses(msg) then LastValue(Fields(msg), number) else None
  }

  ghost predicate Whole(fs: seq<Field>) {
    forall k :: 0 <= k < |fs| ==> NextField(fs[k].raw) == Some(fs[k])
  }

  lemma {:induction false} FieldsWhole(msg: Bytes)
    ensures Whole(Fields(msg))
    decreases |msg|
  {
    if NextField(msg).Some? {
      var f := NextField(msg).value;
      FieldLocal(msg, []);
      assert f.raw + [] == f.raw;
      FieldsWhole(msg[|f.raw|..]);
    }
  }

  /** Fields put one after another are walked as those fields, to the end. */
  lemma {:induction false} JoinWalks(fs: seq<Field>)
    requires Whole(fs)
    ensures Fields(Join(fs)) == fs && Parses(Join(fs))
  {
    if fs != [] {
      JoinWalks(fs[1..]);
      FieldLocal(fs[0].raw, Join(fs[1..]));
      assert Join(fs)[|fs[0].raw|..] == Join(fs[1..]);
    }
  }

  lemma {:induction false} OthersMembers(fs: seq<Field>, number: nat)
    ensures forall f :: f in Others(fs, number) <==> f in fs && f.number != number
  {
    if fs != [] {
      OthersMembers(fs[1..], number);
      assert fs == [fs[0]] + fs[1..];
    }
  }

  lemma WholeIn(fs: seq<Field>)
    ensures Whole(fs) <==> forall f :: f in fs ==> NextField(f.raw) == Some(f)
  {
    hide NextField;
  }

  lemma OthersSplit(fs: seq<Field>, number: nat)
    requires fs != []
    ensures if fs[0].number != number then
              Others(fs, number) == [fs[0]] + Others(fs[1..], number)
              && Others(fs, number)[1..] == Others(fs[1..], number)
            else Others(fs, number) == Others(fs[1..], number)
  {
  }

  lemma {:induction false} OthersAgain(fs: seq<Field>, number: nat)
    ensures Others(Others(fs, number), number) == Others(fs, number)
  {
    if fs != [] {
      OthersAgain(fs[1..], number);
      OthersSplit(fs, number);
    }
  }

  lemma {:induction false} OthersLast(fs: seq<Field>, number: nat, j: nat)
    requires j != number
    ensures LastValue(Others(fs, number), j) == LastValue(fs, j)
  {
    if fs != [] {
      OthersLast(fs[1..], number, j);
      OthersSplit(fs, number);
    }
  }

  lemma OthersLaws(fs: seq<Field>, number: nat, j: nat)
    ensures Whole(fs) ==> Whole(Others(fs, number))
    ensures forall f :: f in Others(fs, number) <==> f in fs && f.number != number
    ensures Others(Others(fs, number), number) == Others(fs, number)
    ensures j != number ==> LastValue(Others(fs, number), j) == LastValue(fs, j)
  {
    hide Others, LastValue, NextField, Whole;
    OthersMembers(fs, number);
    OthersAgain(fs, number);
    WholeIn(fs);
    WholeIn(Others(fs, number));
    if j != number {
      OthersLast(fs, number, j);
    }
  }

  /**
   The filtered message reads to the end, as exactly the other fields of the original in order;
   filtering it again changes nothing.
   */
  lemma WithoutExact(msg: Bytes, number: nat)
    ensures Parses(Without(msg, number))
    ensures Fields(Without(msg, number)) == Others(Fields(msg), number)
    ensures forall f :: f in Fields(Without(msg, number)) ==> f.number != number
    ensures Without(Without(msg, number), number) == Without(msg, number)
  {
    FieldsWhole(msg);
    OthersLaws(Fields(msg), number, 0);
    JoinWalks(Others(Fields(msg), number));
  }

  /**
   Another field is looked up in the filtered message with the same result exactly when the
   original reads to the end, or has no such field before the bytes that do not.
   */
  lemma {:induction false} OtherFieldsUnchanged(msg: Bytes, number: nat, j: nat)
    requires j != number
    ensures FieldBytes(Without(msg, number), j) == LastValue(Fields(msg), j)
    ensures FieldBytes(Without(msg, number), j) == FieldBytes(msg, j)
            <==> Parses(msg) || LastValue(Fields(msg), j).None?
  {
    WithoutExact(msg, number);
    OthersLaws(Fields(msg), number, j);
  }

  lemma WithoutStep(msg: Bytes, number: nat)
    ensures match NextField(msg)
            case None => Without(msg, number) == []
            case Some(f) =>
              Without(msg, number) == (if f.number != number then f.raw else []) + Without(msg[|f.raw|..], number)
  {
    if NextField(msg).Some? {
      var f := NextField(msg).value;
      var tail := Fields(msg[|f.raw|..]);
      assert Fields(msg)[1..] == tail;
      if f.number != number {
        assert Others(Fields(msg), number)[1..] == Others(tail, number);
      } else {
        assert Others(Fields(msg), number) == Others(tail, number);
      }
    }
  }

  /** `without_field`: copies the other fields until the walk stops. */
  method WithoutField(msg: Bytes, number: nat) returns (out: Bytes)
    ensures out == Without(msg, number)
  {
    out := [];
    var rest := msg;
    hide NextField, Without;
    while NextField(rest).Some?
      invariant Without(msg, number) == out + Without(rest, number)
      decreases |rest|
    {
      WithoutStep(rest, number);
      var f := NextField(rest).value;
      ghost var tail := Without(rest[|f.raw|..], number);
      assert out + (f.raw + tail) == out + f.raw + tail && [] + tail == tail;
      if f.number != number {
        out := out + rest[..|f.raw|];
      }
      rest := rest[|f.raw|..];
    }
    WithoutStep(rest, number);
    assert out + [] == out;
  }

  /** `field_bytes`: the last value seen, unless the walk stops short of the end. */
  method FindField(msg: Bytes, number: nat) returns (found: Option<Bytes>)
    ensures found == FieldBytes(msg, number)
  {
    found := None;
    var rest := msg;
    while rest != []
      invariant Parses(msg) == Parses(rest)
      invariant LastValue(Fields(msg), number) ==
                  if LastValue(Fields(rest), number).Some? then LastValue(Fields(rest), number) else found
      decreases |rest|
    {
      if NextField(rest).None? {
        return None;
      }
      var f := NextField(rest).value;
      assert Fields(rest)[1..] == Fields(rest[|f.raw|..]);
      if f.number == number && f.value.Some? {
        found := f.value;
      }
      rest := rest[|f.raw|..];
    }
  }

  // ---------- Length-prefixed strings ----------

  /** `k` bytes, the least significant first. */
  function LeBytes(n: nat, k: nat): (b: Bytes)
    ensures |b| == k
  {
    if k == 0 then [] else [n % 256] + LeBytes(n / 256, k - 1)
  }

  function FromLe(b: Bytes): nat {
    if b == [] then 0 else b[0] + 256 * FromLe(b[1..])
  }

  function Pow256(k: nat): (p: nat)
    ensures p > 0
  {
    if k == 0 then 1 else 256 * Pow256(k - 1)
  }

  lemma {:induction false} FromLeBytes(n: nat, k: nat)
    requires n < Pow256(k)
    ensures FromLe(LeBytes(n, k)) == n
  {
    if k > 0 {
      FromLeBytes(n / 256, k - 1);
    }
  }

  /** A count is kept to 16 bits. */
  lemma FromLeTwo(n: nat)
    ensures FromLe(LeBytes(n, 2)) == n % 0x1_0000
  {
    var b := LeBytes(n, 2);
    assert LeBytes(n / 256, 1) == [n / 256 % 256] + LeBytes(n / 256 / 256, 0);
    assert b == [n % 256, n / 256 % 256];
    assert b[1..] == [n / 256 % 256] && b[1..][1..] == [];
    assert FromLe(b[1..]) == n / 256 % 256;
  }

  lemma EightBytes()
    ensures Pow256(8) == U64_SPAN
  {
    assert Pow256(4) == 0x1_0000_0000 by {
      assert Pow256(2) == 0x1_0000;
    }
    assert Pow256(6) == 0x1_0000_0000_0000;
  }

  /** A string longer than a u16 can say is cut. */
  function CutTo(s: Bytes): Bytes {
    if |s| <= U16_MAX then s else s[..U16_MAX]
  }

  function PutStr(s: Bytes): Bytes {
    LeBytes(|CutTo(s)|, 2) + CutTo(s)
  }

  function PutAll(ids: seq<Bytes>): Bytes {
    if ids == [] then [] else PutStr(ids[0]) + PutAll(ids[1..])
  }

  function CutStr(b: Bytes): (r: Option<(Bytes, Bytes)>)
    ensures r.Some? ==> |r.value.1| < |b|
  {
    if |b| < 2 then None
    else
      var len := FromLe(b[..2]);
      if 2 + len <= |b| then Some((b[2..2 + len], b[2 + len..])) else None
  }

  datatype OrderCall = OrderCall(apiId: int, submitGen: nat, ids: seq<Bytes>)

  predicate InRange(c: OrderCall) {
    -0x8000_0000_0000_0000 <= c.apiId < 0x8000_0000_0000_0000 && c.submitGen < U64_SPAN
  }

  /** Two's complement. */
  function ToU64(x: int): nat {
    x % U64_SPAN
  }

  function ToI64(x: nat): int {
    if x < U64_SPAN / 2 then x else x - U64_SPAN
  }

  function Body(c: OrderCall): Bytes {
    LeBytes(ToU64(c.apiId), 8) + LeBytes(c.submitGen, 8) + LeBytes(|c.ids|, 2) + PutAll(c.ids)
  }

  /** Reads `n` strings; none when one of them is short. */
  function TakeStrs(b: Bytes, n: nat): Option<(seq<Bytes>, Bytes)> {
    if n == 0 then Some(([], b))
    else
      match CutStr(b)
      case None => None
      case Some((s, rest)) =>
        match TakeStrs(rest, n - 1)
        case None => None
        case Some((more, tail)) => Some(([s] + more, tail))
  }

  function ParseBody(b: Bytes): Option<OrderCall> {
    if |b| < 18 then None
    else
      match TakeStrs(b[18..], FromLe(b[16..18]))
      case None => None
      case Some((ids, tail)) =>
        if tail != [] then None else Some(OrderCall(ToI64(FromLe(b[..8])), FromLe(b[8..16]), ids))
  }

  function CutAll(ids: seq<Bytes>): seq<Bytes> {
    if ids == [] then [] else [CutTo(ids[0])] + CutAll(ids[1..])
  }

  lemma CutPut(s: Bytes, tail: Bytes)
    ensures CutStr(PutStr(s) + tail) == Some((CutTo(s), tail))
  {
    var b := PutStr(s) + tail;
    FromLeTwo(|CutTo(s)|);
    assert b[..2] == LeBytes(|CutTo(s)|, 2);
    assert b[2..2 + |CutTo(s)|] == CutTo(s) && b[2 + |CutTo(s)|..] == tail;
  }

  lemma {:induction false} TakePut(ids: seq<Bytes>, n: nat)
    requires n <= |ids|
    ensures TakeStrs(PutAll(ids), n) == Some((CutAll(ids[..n]), PutAll(ids[n..])))
  {
    if n > 0 {
      CutPut(ids[0], PutAll(ids[1..]));
      TakePut(ids[1..], n - 1);
      assert ids[..n][1..] == ids[1..][..n - 1] && ids[1..][n - 1..] == ids[n..];
    }
  }

  lemma {:induction false} PutAllEmpty(ids: seq<Bytes>)
    ensures PutAll(ids) == [] <==> ids == []
  {
  }

  lemma {:induction false} CutAllSame(ids: seq<Bytes>)
    ensures CutAll(ids) == ids <==> forall k :: 0 <= k < |ids| ==> |ids[k]| <= U16_MAX
  {
    if ids != [] {
      CutAllSame(ids[1..]);
      assert ids == [ids[0]] + ids[1..];
      assert CutAll(ids) == ids ==> CutAll(ids)[0] == ids[0] && CutAll(ids)[1..] == ids[1..];
      if forall k :: 0 <= k < |ids| ==> |ids[k]| <= U16_MAX {
        assert forall k :: 0 <= k < |ids[1..]| ==> ids[1..][k] == ids[k + 1];
      }
      if CutAll(ids) == ids {
        forall k | 0 <= k < |ids| ensures |ids[k]| <= U16_MAX {
          assert k > 0 ==> ids[k] == ids[1..][k - 1];
        }
      }
    }
  }

  lemma Slices(a: Bytes, b: Bytes, c: Bytes, d: Bytes)
    requires |a| == |b| == 8 && |c| == 2
    ensures var all := a + b + c + d;
            |all| >= 18 && all[..8] == a && all[8..16] == b && all[16..18] == c && all[18..] == d
  {
  }

  lemma Heads(c: OrderCall)
    requires InRange(c)
    ensures var b := Body(c);
            && |b| >= 18 && ToI64(FromLe(b[..8])) == c.apiId && FromLe(b[8..16]) == c.submitGen
            && FromLe(b[16..18]) == |c.ids| % 0x1_0000 && b[18..] == PutAll(c.ids)
  {
    hide LeBytes, FromLe;
    Slices(LeBytes(ToU64(c.apiId), 8), LeBytes(c.submitGen, 8), LeBytes(|c.ids|, 2), PutAll(c.ids));
    EightBytes();
    FromLeBytes(ToU64(c.apiId), 8);
    FromLeBytes(c.submitGen, 8);
    FromLeTwo(|c.ids|);
  }

  /**
   A body reads back as the call it was written from exactly when the count fits a u16 and no
   id is longer than a u16 can say.
   */
  lemma BodyRoundTrip(c: OrderCall)
    requires InRange(c)
    ensures ParseBody(Body(c)) == Some(c)
            <==> |c.ids| <= 65_535 && forall k :: 0 <= k < |c.ids| ==> |c.ids[k]| <= 65_535
  {
    hide Body, FromLe, TakeStrs, PutAll, CutAll;
    Heads(c);
    var n := |c.ids| % 0x1_0000;
    TakePut(c.ids, n);
    PutAllEmpty(c.ids[n..]);
    CutAllSame(c.ids);
    assert c.ids[n..] == [] <==> n == |c.ids|;
    if |c.ids| <= U16_MAX {
      assert c.ids[..n] == c.ids && c.ids[n..] == [];
    }
  }

  /** Byte `j` is the `j`-th digit to the base 256, the least significant first. */
  lemma {:induction false} LittleEndian(n: nat, k: nat, j: nat)
    requires j < k
    ensures LeBytes(n, k)[j] == n / Pow256(j) % 256
  {
    if j == 0 {
      assert Pow256(0) == 1 && n / 1 == n;
    } else {
      LittleEndian(n / 256, k - 1, j - 1);
      DivTwice(n, Pow256(j - 1));
    }
  }

  lemma DivTwice(n: nat, p: nat)
    requires p > 0
    ensures n / 256 / p == n / (256 * p)
  {
    var q := n / 256 / p;
    var r := n / 256 % p;
    assert n == 256 * (q * p + r) + n % 256;
    assert 256 * (q * p + r) == (256 * p) * q + 256 * r;
    var rest := 256 * r + n % 256;
    assert 256 * r <= 256 * (p - 1);
    assert n == (256 * p) * q + rest && 0 <= rest < 256 * p;
    Quotient(n, 256 * p, q, rest);
  }

  lemma Quotient(n: int, d: int, q: int, rest: int)
    requires d > 0 && n == d * q + rest && 0 <= rest < d
    ensures n / d == q
  {
    var x := n / d;
    assert n == d * x + n % d;
    if x > q {
      MulGrows(d, x, q);
    } else if x < q {
      MulGrows(d, q, x);
    }
  }

  lemma MulGrows(d: int, x: int, y: int)
    requires d > 0 && x > y
    ensures d * x - d * y >= d
  {
    assert d * x - d * y == d * (x - y);
    assert d * (x - y - 1) >= 0;
  }

  /** Where everything stands in a body: account, generation, count, and then the first identifier. */
  lemma BodyLayout(c: OrderCall, j: nat)
    requires InRange(c)
    ensures var b, id := Body(c), if c.apiId >= 0 then c.apiId else c.apiId + U64_SPAN;
            && |b| >= 18
            && (j < 8 ==> b[j] == id / Pow256(j) % 256 && b[8 + j] == c.submitGen / Pow256(j) % 256)
            && b[16] == |c.ids| % 256 && b[17] == |c.ids| / 256 % 256
            && (c.ids != [] && |c.ids[0]| <= U16_MAX ==>
                  && |b| >= 20 + |c.ids[0]| && b[20..20 + |c.ids[0]|] == c.ids[0]
                  && b[18] == |c.ids[0]| % 256 && b[19] == |c.ids[0]| / 256)
  {
    hide LeBytes, Pow256, PutAll, FromLe, TakeStrs, PutStr;
    Slices(LeBytes(ToU64(c.apiId), 8), LeBytes(c.submitGen, 8), LeBytes(|c.ids|, 2), PutAll(c.ids));
    var b := Body(c);
    Signed(c.apiId);
    if j < 8 {
      LittleEndian(ToU64(c.apiId), 8, j);
      LittleEndian(c.submitGen, 8, j);
      assert b[..8][j] == b[j] && b[8..16][j] == b[8 + j];
    }
    TwoBytes(|c.ids|);
    assert b[16..18][0] == b[16] && b[16..18][1] == b[17];
    if c.ids != [] && |c.ids[0]| <= U16_MAX {
      var s := c.ids[0];
      FirstString(c.ids);
      TwoBytes(|s|);
      var tail := b[18..];
      assert tail[0] == b[18] && tail[1] == b[19] && tail[2..2 + |s|] == b[20..20 + |s|];
    }
  }

  lemma Signed(x: int)
    requires -0x8000_0000_0000_0000 <= x < 0x8000_0000_0000_0000
    ensures ToU64(x) == if x >= 0 then x else x + U64_SPAN
  {
    if x < 0 {
      assert x + U64_SPAN == x + 1 * U64_SPAN;
    }
  }

  lemma TwoBytes(n: nat)
    ensures LeBytes(n, 2) == [n % 256, n / 256 % 256]
  {
    assert LeBytes(n / 256, 1) == [n / 256 % 256] + LeBytes(n / 256 / 256, 0);
  }

  lemma FirstString(ids: seq<Bytes>)
    requires ids != [] && |ids[0]| <= U16_MAX
    ensures var t := PutAll(ids);
            |t| >= 2 + |ids[0]| && t[..2] == LeBytes(|ids[0]|, 2) && t[2..2 + |ids[0]|] == ids[0]
  {
  }

  lemma {:induction false} LeBytesBack(b: Bytes)
    ensures FromLe(b) < Pow256(|b|) && LeBytes(FromLe(b), |b|) == b
  {
    if b != [] {
      LeBytesBack(b[1..]);
      assert FromLe(b) % 256 == b[0] && FromLe(b) / 256 == FromLe(b[1..]);
      assert b == [b[0]] + b[1..];
    }
  }

  lemma SmallPowers()
    ensures Pow256(2) == 0x1_0000 && Pow256(8) == U64_SPAN
  {
    EightBytes();
    assert Pow256(2) == 256 * Pow256(1);
  }

  /** A string that was read is short enough, and is written as it was read. */
  lemma CutBack(b: Bytes)
    requires CutStr(b).Some?
    ensures var (s, rest) := CutStr(b).value; |s| <= U16_MAX && b == PutStr(s) + rest
  {
    var (s, rest) := CutStr(b).value;
    SmallPowers();
    LeBytesBack(b[..2]);
    assert b == b[..2] + b[2..2 + |s|] + b[2 + |s|..];
  }

  ghost predicate AllShort(ids: seq<Bytes>) {
    forall k :: 0 <= k < |ids| ==> |ids[k]| <= U16_MAX
  }

  lemma {:induction false} TakeBack(b: Bytes, n: nat)
    requires TakeStrs(b, n).Some?
    ensures var (ids, tail) := TakeStrs(b, n).value; |ids| == n && AllShort(ids) && b == PutAll(ids) + tail
    decreases n
  {
    hide PutStr, CutStr;
    if n > 0 {
      CutBack(b);
      var (s, rest) := CutStr(b).value;
      TakeBack(rest, n - 1);
      var (more, tail) := TakeStrs(rest, n - 1).value;
      assert ([s] + more)[1..] == more;
      assert PutStr(s) + (PutAll(more) + tail) == (PutStr(s) + PutAll(more)) + tail;
    }
  }

  lemma SignedBack(x: nat)
    requires x < U64_SPAN
    ensures ToU64(ToI64(x)) == x && -0x8000_0000_0000_0000 <= ToI64(x) < 0x8000_0000_0000_0000
  {
    if x >= U64_SPAN / 2 {
      assert x - U64_SPAN == -1 * U64_SPAN + x;
    }
  }

  /** Whatever bytes are accepted are the body of the call they are read as. */
  lemma BodyReadBack(b: Bytes)
    requires ParseBody(b).Some?
    ensures var c := ParseBody(b).value;
            InRange(c) && |c.ids| <= U16_MAX && AllShort(c.ids) && Body(c) == b
  {
    hide FromLe, LeBytes, TakeStrs, PutAll, ToU64, ToI64;
    var c := ParseBody(b).value;
    SmallPowers();
    LeBytesBack(b[..8]);
    LeBytesBack(b[8..16]);
    LeBytesBack(b[16..18]);
    SignedBack(FromLe(b[..8]));
    TakeBack(b[18..], FromLe(b[16..18]));
    assert PutAll(c.ids) + [] == PutAll(c.ids);
    assert b == b[..8] + b[8..16] + b[16..18] + b[18..];
  }

  /** `put_str`: appends a string to a body. */
  method AppendStr(dst: Bytes, s: Bytes) returns (out: Bytes)
    ensures out == dst + PutStr(s)
  {
    var cut := s[..if |s| < U16_MAX then |s| else U16_MAX];
    out := dst + LeBytes(|cut|, 2);
    out := out + cut;
  }

  /** `order_call`: appends a body. */
  method AppendOrderCall(dst: Bytes, c: OrderCall) returns (out: Bytes)
    ensures out == dst + Body(c)
  {
    out := dst + LeBytes(ToU64(c.apiId), 8);
    out := out + LeBytes(c.submitGen, 8);
    out := out + LeBytes(|c.ids|, 2);
    ghost var head := out;
    assert c.ids[0..] == c.ids;
    assert head + PutAll(c.ids) == dst + Body(c);
    for k := 0 to |c.ids|
      invariant out + PutAll(c.ids[k..]) == head + PutAll(c.ids)
    {
      assert c.ids[k..][1..] == c.ids[k + 1..];
      assert out + PutAll(c.ids[k..]) == out + PutStr(c.ids[k]) + PutAll(c.ids[k + 1..]);
      out := AppendStr(out, c.ids[k]);
    }
    assert c.ids[|c.ids|..] == [] && out + [] == out;
  }

  function Prepend(ids: seq<Bytes>, r: Option<(seq<Bytes>, Bytes)>): Option<(seq<Bytes>, Bytes)> {
    match r
    case None => None
    case Some((more, tail)) => Some((ids + more, tail))
  }

  lemma PrependNothing(r: Option<(seq<Bytes>, Bytes)>)
    ensures Prepend([], r) == r
  {
    if r.Some? {
      assert [] + r.value.0 == r.value.0;
    }
  }

  lemma PrependOne(ids: seq<Bytes>, rest: Bytes, n: nat)
    requires n > 0
    ensures Prepend(ids, TakeStrs(rest, n)) ==
              if CutStr(rest).None? then None
              else Prepend(ids + [CutStr(rest).value.0], TakeStrs(CutStr(rest).value.1, n - 1))
  {
    if CutStr(rest).Some? && TakeStrs(CutStr(rest).value.1, n - 1).Some? {
      var (s, next) := CutStr(rest).value;
      var (more, tail) := TakeStrs(next, n - 1).value;
      assert ids + [s] + more == ids + ([s] + more);
    }
  }

  /** `parse_order_call`: reads the strings one by one. */
  method ReadOrderCall(body: Bytes) returns (c: Option<OrderCall>)
    ensures c == ParseBody(body)
  {
    if |body| < 18 {
      return None;
    }
    var n := FromLe(body[16..18]);
    var rest := body[18..];
    var ids: seq<Bytes> := [];
    PrependNothing(TakeStrs(rest, n));
    for k := 0 to n
      invariant TakeStrs(body[18..], n) == Prepend(ids, TakeStrs(rest, n - k))
    {
      PrependOne(ids, rest, n - k);
      if CutStr(rest).None? {
        return None;
      }
      var (s, next) := CutStr(rest).value;
      ids := ids + [s];
      rest := next;
    }
    assert ids + [] == ids;
    if rest != [] {
      return None;
    }
    c := Some(OrderCall(ToI64(FromLe(body[..8])), FromLe(body[8..16]), ids));
  }
}
