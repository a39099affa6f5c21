/**
 JSON strings of a log line, after section 7 of RFC 8259: what the encoder writes, and a reader
 of such strings.  Text is taken character by character; its UTF-8 encoding is not modelled.
 */
module LogJson {
  import opened Wrappers

  const HEX := "0123456789abcdef"

  predicate Escapes(c: char) {
    c < 32 as char || c == '"' || c == '\\' || c == 127 as char
  }

  function Escape(c: char): (s: string)
    requires Escapes(c)
  {
    if c == '"' || c == '\\' then ['\\', c]
    else if c == 8 as char then "\\b"
    else if c == 12 as char then "\\f"
    else if c == '\n' then "\\n"
    else if c == '\r' then "\\r"
    else if c == '\t' then "\\t"
    else "\\u00" + [HEX[c as int / 16], HEX[c as int % 16]]
  }

  function Written(c: char): string {
    if Escapes(c) then Escape(c) else [c]
  }

  /** The text between the quotes. */
  function Encode(text: string): string {
    if text == "" then "" else Written(text[0]) + Encode(text[1..])
  }

  function Quoted(text: string): string {
    "\"" + Encode(text) + "\""
  }

  // ---------- Reading ----------

  function HexValue(c: char): Option<nat> {
    if '0' <= c <= '9' then Some(c as nat - '0' as nat)
    else if 'a' <= c <= 'f' then Some(c as nat - 'a' as nat + 10)
    else if 'A' <= c <= 'F' then Some(c as nat - 'A' as nat + 10)
    else None
  }

  function HexAll(s: string): Option<nat> {
    if s == "" then Some(0)
    else
      match (HexAll(s[..|s| - 1]), HexValue(s[|s| - 1]))
      case (Some(high), Some(low)) => Some(16 * high + low)
      case _ => None
  }

  /** What one letter behind a backslash stands for. */
  function Unescape(c: char): Option<char> {
    if c == '"' || c == '\\' || c == '/' then Some(c)
    else if c == 'b' then Some(8 as char)
    else if c == 'f' then Some(12 as char)
    else if c == 'n' then Some('\n')
    else if c == 'r' then Some('\r')
    else if c == 't' then Some('\t')
    else None
  }

  /** One character of a string and what follows it; a surrogate is refused. */
  function ReadChar(s: string): (r: Option<(char, string)>)
    ensures r.Some? ==> |r.value.1| < |s|
  {
    if s == "" || s[0] < ' ' || s[0] == '"' then None
    else if s[0] != '\\' then Some((s[0], s[1..]))
    else if |s| < 2 then None
    else if s[1] == 'u' then
      if |s| < 6 then None
      else
        match HexAll(s[2..6])
        case None => None
        case Some(code) => if code < 0xd800 || 0xe000 <= code < 0x1_0000 then Some((code as char, s[6..])) else None
    else
      match Unescape(s[1])
      case None => None
      case Some(c) => Some((c, s[2..]))
  }

  function ReadRest(s: string): Option<(string, string)> {
    if s != "" && s[0] == '"' then Some(("", s[1..]))
    else
      match ReadChar(s)
      case None => None
      case Some((c, rest)) =>
        match ReadRest(rest)
        case None => None
        case Some((text, tail)) => Some(([c] + text, tail))
  }

  /** The string that `s` starts with, and what follows its closing quote. */
  function ReadString(s: string): Option<(string, string)> {
    if s != "" && s[0] == '"' then ReadRest(s[1..]) else None
  }

  lemma HexBack(c: char)
    requires c < 128 as char
    ensures HexAll("00" + [HEX[c as int / 16], HEX[c as int % 16]]) == Some(c as nat)
  {
    var s := "00" + [HEX[c as int / 16], HEX[c as int % 16]];
    HexDigit(c as int / 16);
    HexDigit(c as int % 16);
    assert s[..3][..2] == "00" && s[..2] == "00" && "00"[..1] == "0" && "0"[..0] == "";
    assert s[..4] == s && s[..3][..2][..1] == "0";
    assert HexAll("0") == Some(0) && HexAll("00") == Some(0);
    assert HexAll(s[..3]) == Some(c as int / 16);
  }

  lemma HexDigit(d: nat)
    requires d < 16
    ensures HexValue(HEX[d]) == Some(d)
  {
  }

  lemma ReadHex(c: char, tail: string)
    requires c < 128 as char
    ensures ReadChar("\\u00" + [HEX[c as int / 16], HEX[c as int % 16]] + tail) == Some((c, tail))
  {
    hide HexAll;
    var s := "\\u00" + [HEX[c as int / 16], HEX[c as int % 16]] + tail;
    HexBack(c);
    assert s[2..6] == "00" + [HEX[c as int / 16], HEX[c as int % 16]] && s[6..] == tail;
  }

  lemma ReadWritten(c: char, tail: string)
    ensures ReadChar(Written(c) + tail) == Some((c, tail))
    ensures Written(c) != "" && Written(c)[0] != '"'
  {
    hide HexAll;
    var s := Written(c) + tail;
    if Escapes(c) && |Escape(c)| == 6 {
      ReadHex(c, tail);
    } else if Escapes(c) {
      assert s[2..] == tail;
    } else {
      assert s[1..] == tail;
    }
  }

  lemma {:induction false} EncodeReads(text: string, tail: string)
    ensures ReadRest(Encode(text) + "\"" + tail) == Some((text, tail))
  {
    hide ReadChar, Written;
    var s := Encode(text) + "\"" + tail;
    if text == "" {
      assert s[1..] == tail;
    } else {
      var more := Encode(text[1..]) + "\"" + tail;
      assert s == Written(text[0]) + more;
      ReadWritten(text[0], more);
      EncodeReads(text[1..], tail);
      assert [text[0]] + text[1..] == text;
    }
  }

  /** Any text is read back, and the string ends where the text does. */
  lemma StringReadsBack(text: string, tail: string)
    ensures ReadString(Quoted(text) + tail) == Some((text, tail))
  {
    assert (Quoted(text) + tail)[1..] == Encode(text) + "\"" + tail;
    EncodeReads(text, tail);
  }

  predicate Printable(c: char) {
    ' ' <= c && c != 127 as char
  }

  lemma WrittenPrintable(c: char)
    ensures forall k :: 0 <= k < |Written(c)| ==> Printable(Written(c)[k])
  {
  }

  /** Nothing that is written breaks a line: no control character is left, whatever the text. */
  lemma {:induction false} NoControls(text: string)
    ensures forall k :: 0 <= k < |Encode(text)| ==> Printable(Encode(text)[k])
  {
    hide Written, Printable;
    if text != "" {
      WrittenPrintable(text[0]);
      NoControls(text[1..]);
    }
  }

  /** Exactly the text without control characters, quotes and backslashes is written as it is. */
  lemma {:induction false} WrittenAsIs(text: string)
    ensures Encode(text) == text <==>
              forall k :: 0 <= k < |text| ==> text[k] >= ' ' && text[k] !in {'"', '\\', 127 as char}
    ensures |Encode(text)| >= |text|
  {
    if text != "" {
      WrittenAsIs(text[1..]);
      var c, rest := text[0], text[1..];
      assert text == [c] + rest && Encode(text) == Written(c) + Encode(rest);
      if Escapes(c) {
        assert |Escape(c)| >= 2;
      } else {
        assert Encode(text)[1..] == Encode(rest);
      }
    }
  }

  /** The escapes that have a letter. */
  lemma KnownEscapes()
    ensures Written('"') == "\\\"" && Written('\\') == "\\\\"
    ensures Written(8 as char) == "\\b" && Written(12 as char) == "\\f"
    ensures Written('\n') == "\\n" && Written('\r') == "\\r" && Written('\t') == "\\t"
  {
  }

  /** Three that are spelt in hexadecimal. */
  lemma HexEscapes()
    ensures Written(0 as char) == "\\u0000" && Written(31 as char) == "\\u001f" && Written(127 as char) == "\\u007f"
  {
  }

  // ---------- As the program writes it ----------

  lemma {:induction false} EncodeAppend(a: string, b: string)
    ensures Encode(a + b) == Encode(a) + Encode(b)
  {
    if a == "" {
      assert a + b == b;
    } else {
      assert (a + b)[1..] == a[1..] + b;
      EncodeAppend(a[1..], b);
    }
  }

  /** A run of characters that need no escape is written as it is. */
  lemma {:induction false} EncodePlain(s: string)
    requires forall k :: 0 <= k < |s| ==> !Escapes(s[k])
    ensures Encode(s) == s
  {
    if s != "" {
      EncodePlain(s[1..]);
      assert [s[0]] + s[1..] == s;
    }
  }

  lemma EncodeOne(c: char)
    ensures Encode([c]) == Written(c)
  {
    assert [c][1..] == "";
  }

  /** Copies the runs between the escaped characters whole. */
  method AppendEscaped(buf: string, text: string) returns (out: string)
    ensures out == buf + Encode(text)
  {
    hide Encode, Written;
    out := buf;
    var start := 0;
    assert Encode(text[..0]) == "" by { EncodePlain(text[..0]); }
    for index := 0 to |text|
      invariant 0 <= start <= index
      invariant out == buf + Encode(text[..start])
      invariant forall k :: start <= k < index ==> !Escapes(text[k])
    {
      if Escapes(text[index]) {
        out := out + text[start..index];
        out := out + Escape(text[index]);
        Advance(text, start, index);
        start := index + 1;
      }
    }
    EncodePlain(text[start..]);
    EncodeAppend(text[..start], text[start..]);
    assert text[..start] + text[start..] == text;
    out := out + text[start..];
  }

  lemma Advance(text: string, start: nat, index: nat)
    requires start <= index < |text| && Escapes(text[index])
    requires forall k :: start <= k < index ==> !Escapes(text[k])
    ensures Encode(text[..index + 1]) == Encode(text[..start]) + text[start..index] + Escape(text[index])
  {
    hide Encode, Escape;
    EncodePlain(text[start..index]);
    EncodeAppend(text[..start], text[start..index]);
    EncodeOne(text[index]);
    EncodeAppend(text[..start] + text[start..index], [text[index]]);
    assert text[..start] + text[start..index] + [text[index]] == text[..index + 1];
  }

  /** One pass that never stops early looks for a character to escape. */
  method AppendJsonStr(buf: string, text: string) returns (out: string)
    ensures out == buf + Quoted(text)
  {
    hide Encode;
    out := buf + "\"";
    var found := false;
    for k := 0 to |text|
      invariant found <==> exists j :: 0 <= j < k && Escapes(text[j])
    {
      found := found || Escapes(text[k]);
    }
    if found {
      out := AppendEscaped(out, text);
    } else {
      EncodePlain(text);
      out := out + text;
    }
    out := out + "\"";
  }
}
