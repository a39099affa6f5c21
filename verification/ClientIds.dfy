/** The client order id: four packed fields, spelt as a decimal number. */
module ClientIds {
  import opened Wrappers
  import opened DecimalText

  const VERSION: nat := 1
  const VER_MAX: nat := 7
  const EPOCH_MS: int := 1_767_225_600_000
  const ALGO_MIN: nat := 1
  const ALGO_MAX: nat := 0x3ff
  const SEQ_MAX: nat := 0x3ff
  const TS_SPAN: nat := 0x100_0000_0000
  const MAX_LEN: nat := 19
  const U64_SPAN: nat := 0x1_0000_0000_0000_0000

  /** One unit of each field, at its place in the packed word. */
  const TS_UNIT: nat := 0x400
  const ALGO_UNIT: nat := 0x4_0000_0000_0000
  const VER_UNIT: nat := 0x1000_0000_0000_0000

  datatype Id = Id(ver: nat, algo: nat, tsMs: int, num: nat)

  datatype Error = BadVersion | BadAlgo | BadTs | BadSeq | NotPlatform

  function Check(id: Id): Result<(), Error> {
    if !(1 <= id.ver <= VER_MAX) then Err(BadVersion)
    else if !(ALGO_MIN <= id.algo <= ALGO_MAX) then Err(BadAlgo)
    else if id.tsMs < EPOCH_MS || id.tsMs - EPOCH_MS >= TS_SPAN then Err(BadTs)
    else if id.num > SEQ_MAX then Err(BadSeq)
    else Ok(())
  }

  predicate Fits(id: Id) {
    Check(id).Ok?
  }

  /** The packed word.  The fields of a checked id do not overlap, so joining them is a sum. */
  function Pack(id: Id): nat
    requires Fits(id)
  {
    id.ver * VER_UNIT + id.algo * ALGO_UNIT + (id.tsMs - EPOCH_MS) * TS_UNIT + id.num
  }

  function Unpack(word: nat): Id {
    Id(word / VER_UNIT, word / ALGO_UNIT % (ALGO_MAX + 1), word / TS_UNIT % TS_SPAN + EPOCH_MS, word % TS_UNIT)
  }

  /** The decimal spelling, with no leading zero. */
  function Decimal(n: nat): (s: string)
    ensures s != [] && forall k :: 0 <= k < |s| ==> IsDigit(s[k])
  {
    if n < 10 then [DigitChar(n)] else Decimal(n / 10) + [DigitChar(n % 10)]
  }

  function Encode(algo: nat, tsMs: int, num: nat): Result<string, Error> {
    var id := Id(VERSION, algo, tsMs, num);
    match Check(id)
    case Err(error) => Err(error)
    case Ok(_) => Ok(Decimal(Pack(id)))
  }

  function Decode(s: string): Result<Id, Error> {
    if s == [] || |s| > MAX_LEN || s[0] == '0' then Err(NotPlatform)
    else if exists k :: 0 <= k < |s| && !IsDigit(s[k]) then Err(NotPlatform)
    else if Parse(s) >= U64_SPAN then Err(NotPlatform)
    else if !Fits(Unpack(Parse(s))) then Err(NotPlatform)
    else Ok(Unpack(Parse(s)))
  }

  function AlgoOf(s: string): Option<nat> {
    if Decode(s).Ok? then Some(Decode(s).value.algo) else None
  }

  // ---------- Fields ----------

  lemma UnpackPack(id: Id)
    requires Fits(id)
    ensures Unpack(Pack(id)) == id && VER_UNIT <= Pack(id) < 8 * VER_UNIT
  {
    var off := id.tsMs - EPOCH_MS;
    var high := id.ver * (ALGO_MAX + 1) + id.algo;
    var word := Pack(id);
    assert word == (high * TS_SPAN + off) * TS_UNIT + id.num;
    assert word / TS_UNIT == high * TS_SPAN + off;
    assert word / ALGO_UNIT == high;
    assert word / VER_UNIT == id.ver;
  }

  lemma PackUnpack(word: nat)
    requires Fits(Unpack(word))
    ensures Pack(Unpack(word)) == word
  {
    var id := Unpack(word);
    assert word == word / TS_UNIT * TS_UNIT + id.num;
    assert word / TS_UNIT == word / ALGO_UNIT * TS_SPAN + (id.tsMs - EPOCH_MS);
    assert word / ALGO_UNIT == word / VER_UNIT * (ALGO_MAX + 1) + id.algo;
  }

  // ---------- Digits ----------

  lemma {:induction false} ParseDecimal(n: nat)
    ensures Parse(Decimal(n)) == n
    ensures n > 0 ==> Decimal(n)[0] != '0'
  {
    if n < 10 {
      assert Decimal(n)[..0] == [];
    } else {
      ParseDecimal(n / 10);
      assert Decimal(n)[..|Decimal(n)| - 1] == Decimal(n / 10);
    }
  }

  lemma {:induction false} DecimalParse(s: string)
    requires s != [] && s[0] != '0' && forall k :: 0 <= k < |s| ==> IsDigit(s[k])
    ensures Decimal(Parse(s)) == s && Parse(s) > 0
  {
    var init, d := s[..|s| - 1], DigitValue(s[|s| - 1]);
    assert s == init + [DigitChar(d)];
    if init != [] {
      DecimalParse(init);
      assert Parse(s) / 10 == Parse(init) && Parse(s) % 10 == d;
    }
  }

  lemma {:induction false} DecimalLength(n: nat, k: nat)
    requires k > 0 && Pow10(k - 1) <= n < Pow10(k)
    ensures |Decimal(n)| == k
  {
    if n >= 10 {
      DecimalLength(n / 10, k - 1);
    }
  }

  lemma Nineteen(word: nat)
    requires VER_UNIT <= word < 8 * VER_UNIT
    ensures |Decimal(word)| == 19
  {
    assert Pow10(6) == 1_000_000 && Pow10(12) == 1_000_000_000_000 by {
      assert Pow10(3) == 1_000 && Pow10(9) == 1_000_000_000;
    }
    assert Pow10(15) == 1_000_000_000_000_000;
    assert Pow10(18) == 1_000_000_000_000_000_000 && Pow10(19) == 10_000_000_000_000_000_000;
    DecimalLength(word, 19);
  }

  // ---------- The layout in numbers ----------

  /** What fits: version 1 to 7, algo 1 to 1023, 2^40 milliseconds from 2026, sequence up to 1023. */
  lemma CheckExact(id: Id)
    ensures Check(id) ==
              if id.ver < 1 || id.ver > 7 then Err(BadVersion)
              else if id.algo < 1 || id.algo > 1023 then Err(BadAlgo)
              else if !(1_767_225_600_000 <= id.tsMs < 1_767_225_600_000 + 1_099_511_627_776) then Err(BadTs)
              else if id.num > 1023 then Err(BadSeq)
              else Ok(())
  {
  }

  /** An id is encoded exactly when its fields fit, and otherwise refused for the first that does not. */
  lemma EncodeExact(algo: nat, tsMs: int, num: nat)
    ensures match Check(Id(1, algo, tsMs, num))
            case Err(error) => Encode(algo, tsMs, num) == Err(error)
            case Ok(_) =>
              Encode(algo, tsMs, num).Ok? && Decode(Encode(algo, tsMs, num).value) == Ok(Id(1, algo, tsMs, num))
  {
    if Fits(Id(1, algo, tsMs, num)) {
      DecodeSpelling(Id(1, algo, tsMs, num));
    }
  }

  /** One second after the epoch, algo 1, and the largest word of version 1. */
  lemma KnownWords()
    ensures Encode(1, 1_767_225_601_000, 0) == Ok("1154047404514713600")
    ensures Pack(Id(1, 1023, 1_767_225_600_000 + 1_099_511_627_775, 1023)) == 0x1fff_ffff_ffff_ffff
  {
    var s := "1154047404514713600";
    assert Parse(s) == 1_154_047_404_514_713_600 by { ParseKnown(); }
    DecimalParse(s);
    assert Pack(Id(1, 1, 1_767_225_601_000, 0)) == 1_154_047_404_514_713_600;
  }

  lemma ParseThree(s: string)
    requires |s| == 3 && forall k :: 0 <= k < 3 ==> IsDigit(s[k])
    ensures Parse(s) == 100 * DigitValue(s[0]) + 10 * DigitValue(s[1]) + DigitValue(s[2])
  {
    var a, b := s[..2], s[..1];
    assert a[..1] == b && b[..0] == "";
    assert Parse(b) == DigitValue(s[0]);
  }

  lemma ParseFour(s: string)
    requires |s| == 4 && forall k :: 0 <= k < 4 ==> IsDigit(s[k])
    ensures Parse(s) == 1000 * DigitValue(s[0]) + 100 * DigitValue(s[1]) + 10 * DigitValue(s[2]) + DigitValue(s[3])
  {
    ParseThree(s[..3]);
  }

  lemma ParseAppend(a: string, b: string, whole: string)
    requires whole == a + b && forall k :: 0 <= k < |whole| ==> IsDigit(whole[k])
    ensures forall k :: 0 <= k < |a| ==> IsDigit(a[k])
    ensures forall k :: 0 <= k < |b| ==> IsDigit(b[k])
    ensures Parse(whole) == Parse(a) * Pow10(|b|) + Parse(b)
  {
    assert forall k :: 0 <= k < |a| ==> a[k] == whole[k];
    assert forall k :: 0 <= k < |b| ==> b[k] == whole[|a| + k];
    ParseJoin(a, b);
  }

  lemma ParseKnown()
    ensures Parse("1154047404514713600") == 1_154_047_404_514_713_600
  {
    hide Parse, Pow10;
    ParseFour("1154");
    ParseFour("0474");
    ParseFour("0451");
    ParseFour("4713");
    ParseThree("600");
    ParseAppend("1154", "0474", "11540474");
    ParseAppend("11540474", "0451", "115404740451");
    ParseAppend("115404740451", "4713", "1154047404514713");
    ParseAppend("1154047404514713", "600", "1154047404514713600");
    Thousands();
  }

  lemma Thousands()
    ensures Pow10(3) == 1000 && Pow10(4) == 10_000
  {
  }

  // ---------- Round trips ----------

  /** Every id that fits the layout is read back from its spelling. */
  lemma DecodeSpelling(id: Id)
    requires Fits(id)
    ensures Decode(Decimal(Pack(id))) == Ok(id) && |Decimal(Pack(id))| == 19
  {
    UnpackPack(id);
    Nineteen(Pack(id));
    ParseDecimal(Pack(id));
  }

  /** Every accepted string is the spelling of the id it is read as, nineteen digits long. */
  lemma SpellDecoded(s: string)
    requires Decode(s).Ok?
    ensures var id := Decode(s).value; Fits(id) && Decimal(Pack(id)) == s && |s| == 19
  {
    DecimalParse(s);
    PackUnpack(Parse(s));
    DecodeSpelling(Decode(s).value);
  }

  /** A string names an algo exactly when it spells an id of that algo. */
  lemma AlgoOfExact(s: string, algo: nat)
    ensures AlgoOf(s) == Some(algo) <==> exists id :: Fits(id) && id.algo == algo && s == Decimal(Pack(id))
  {
    if AlgoOf(s) == Some(algo) {
      SpellDecoded(s);
    }
    forall id | Fits(id) && s == Decimal(Pack(id)) ensures AlgoOf(s) == Some(id.algo) {
      DecodeSpelling(id);
    }
  }

  /** There is one way to be refused. */
  lemma DecodeRefuses(s: string)
    ensures Decode(s).Err? ==> Decode(s).error == NotPlatform
  {
  }

  // ---------- Order ----------

  predicate IdLess(a: Id, b: Id) {
    || a.ver < b.ver
    || (a.ver == b.ver && (
      || a.algo < b.algo
      || (a.algo == b.algo && (
        || a.tsMs < b.tsMs
        || (a.tsMs == b.tsMs && a.num < b.num)))))
  }

  lemma PackMonotone(a: Id, b: Id)
    requires Fits(a) && Fits(b) && IdLess(a, b)
    ensures Pack(a) < Pack(b)
  {
  }

  /** Accepted strings sort as text exactly as their ids sort field by field. */
  lemma TextOrderIsIdOrder(s: string, t: string)
    requires Decode(s).Ok? && Decode(t).Ok?
    ensures TextLess(s, t) <==> IdLess(Decode(s).value, Decode(t).value)
  {
    var a, b := Decode(s).value, Decode(t).value;
    SpellDecoded(s);
    SpellDecoded(t);
    ParseDecimal(Pack(a));
    ParseDecimal(Pack(b));
    TextIsNumeric(s, t);
    if IdLess(a, b) {
      PackMonotone(a, b);
    } else if a != b {
      PackMonotone(b, a);
    }
  }
}
