/**
 * The text form of a GameState in the session store.
 *
 * Encode is what JSON.stringify produces for a GameState whose keys are in the order of the
 * initial state (currentQuestionId, history, isFinished, finalEpilogueId): no whitespace, strings
 * quoted with JSON's escapes. Decode is JSON.parse restricted to that key order and spacing, with
 * any JSON string escape except surrogates; it answers None where JSON.parse would throw and
 * wherever the text leaves that layout. The round trip Decode(Encode(s)) == Some(s) is proved,
 * not assumed.
 */
module JsonCodec {
  import opened Wrappers
  import opened GameTypes

  // ---------------------------------------------------------------------------------------------
  // Hexadecimal digits, as used by the \uXXXX escape

  /** The lower-case hexadecimal digit JSON.stringify writes for `d`. */
  function HexDigit(d: nat): char
    requires d < 16
  {
    if d < 10 then ('0' as int + d) as char else ('a' as int + (d - 10)) as char
  }

  /** The value of a hexadecimal digit of either case, as JSON.parse reads it. */
  function HexValue(c: char): (r: Option<nat>)
    ensures r.Some? ==> r.value < 16
  {
    if '0' <= c <= '9' then Some(c as int - '0' as int)
    else if 'a' <= c <= 'f' then Some(c as int - 'a' as int + 10)
    else if 'A' <= c <= 'F' then Some(c as int - 'A' as int + 10)
    else None
  }

  lemma HexValueOfDigit(d: nat)
    requires d < 16
    ensures HexValue(HexDigit(d)) == Some(d)
  {
  }

  /** The code unit written as four hexadecimal digits. */
  function Hex4(h: string): (r: Option<nat>)
    requires |h| == 4
    ensures r.Some? ==> r.value < 0x1_0000
  {
    var a :- HexValue(h[0]);
    var b :- HexValue(h[1]);
    var c :- HexValue(h[2]);
    var d :- HexValue(h[3]);
    Some(((a * 16 + b) * 16 + c) * 16 + d)
  }

  // ---------------------------------------------------------------------------------------------
  // Encoding

  /** JSON.stringify's escape of one character inside a string literal. */
  function EscapeChar(c: char): string {
    if c == '"' then "\\\""
    else if c == '\\' then "\\\\"
    else if c as int == 0x08 then "\\b"
    else if c as int == 0x09 then "\\t"
    else if c as int == 0x0A then "\\n"
    else if c as int == 0x0C then "\\f"
    else if c as int == 0x0D then "\\r"
    else if c as int < 0x20 then ['\\', 'u', '0', '0', HexDigit(c as int / 16), HexDigit(c as int % 16)]
    else [c]
  }

  function EscapeBody(s: string): string {
    if s == [] then [] else EscapeChar(s[0]) + EscapeBody(s[1..])
  }

  function Quote(s: string): string {
    "\"" + EscapeBody(s) + "\""
  }

  function EncodeNullable(x: Option<string>): string {
    match x
    case None => "null"
    case Some(s) => Quote(s)
  }

  function EncodeBool(b: bool): string {
    if b then "true" else "false"
  }

  /** The items after the first one: `,"a","b"`. */
  function MoreItems(h: seq<string>): string {
    if h == [] then "" else "," + Quote(h[0]) + MoreItems(h[1..])
  }

  function EncodeArray(h: seq<string>): string {
    "[" + (if h == [] then "" else Quote(h[0]) + MoreItems(h[1..])) + "]"
  }

  const KeyCurrent: string := "{\"currentQuestionId\":"
  const KeyHistory: string := ",\"history\":"
  const KeyFinished: string := ",\"isFinished\":"
  const KeyEpilogue: string := ",\"finalEpilogueId\":"

  /** JSON.stringify(state). */
  function Encode(s: GameState): string {
    KeyCurrent + (EncodeNullable(s.currentQuestionId)
    + (KeyHistory + (EncodeArray(s.history)
    + (KeyFinished + (EncodeBool(s.isFinished)
    + (KeyEpilogue + (EncodeNullable(s.finalEpilogueId)
    + "}")))))))
  }

  // ---------------------------------------------------------------------------------------------
  // Decoding: each parser takes the remaining text and returns the value read and what follows it

  /** The character an escape stands for (the text after the backslash) and how many characters it spans. */
  function Unescape(u: string): (r: Option<(char, nat)>)
    ensures r.Some? ==> 1 <= r.value.1 <= |u|
  {
    if u == [] then None
    else if u[0] == '"' then Some(('"', 1))
    else if u[0] == '\\' then Some(('\\', 1))
    else if u[0] == '/' then Some(('/', 1))
    else if u[0] == 'b' then Some((0x08 as char, 1))
    else if u[0] == 't' then Some((0x09 as char, 1))
    else if u[0] == 'n' then Some((0x0A as char, 1))
    else if u[0] == 'f' then Some((0x0C as char, 1))
    else if u[0] == 'r' then Some((0x0D as char, 1))
    else if u[0] == 'u' && |u| >= 5 then
      var v :- Hex4(u[1..5]);
      if 0xD800 <= v < 0xE000 then None else Some((v as char, 5))
    else None
  }

  /** The body of a string literal up to its closing quote, and the text after that quote. */
  function ParseChars(t: string): (r: Option<(string, string)>)
    ensures r.Some? ==> |r.value.1| < |t|
    decreases |t|
  {
    if t == [] then None
    else if t[0] == '"' then Some(([], t[1..]))
    else if t[0] == '\\' then
      var e :- Unescape(t[1..]);
      var p :- ParseChars(t[1 + e.1..]);
      Some(([e.0] + p.0, p.1))
    else if t[0] as int < 0x20 then None
    else
      var p :- ParseChars(t[1..]);
      Some(([t[0]] + p.0, p.1))
  }

  function ParseString(t: string): (r: Option<(string, string)>)
    ensures r.Some? ==> |r.value.1| < |t|
  {
    if t != [] && t[0] == '"' then ParseChars(t[1..]) else None
  }

  function ParseNullable(t: string): Option<(Option<string>, string)> {
    if |t| >= 4 && t[..4] == "null" then Some((None, t[4..]))
    else
      var p :- ParseString(t);
      Some((Some(p.0), p.1))
  }

  function ParseBool(t: string): Option<(bool, string)> {
    if |t| >= 4 && t[..4] == "true" then Some((true, t[4..]))
    else if |t| >= 5 && t[..5] == "false" then Some((false, t[5..]))
    else None
  }

  /** The rest of an array after its first item: `,"b","c"]`. */
  function ParseMore(t: string): Option<(seq<string>, string)>
    decreases |t|
  {
    if t == [] then None
    else if t[0] == ']' then Some(([], t[1..]))
    else if t[0] == ',' then
      var p :- ParseString(t[1..]);
      var q :- ParseMore(p.1);
      Some(([p.0] + q.0, q.1))
    else None
  }

  function ParseArray(t: string): Option<(seq<string>, string)> {
    if t == [] || t[0] != '[' then None
    else if |t| >= 2 && t[1] == ']' then Some(([], t[2..]))
    else
      var p :- ParseString(t[1..]);
      var q :- ParseMore(p.1);
      Some(([p.0] + q.0, q.1))
  }

  /** The text after `lit`, when `t` starts with it. */
  function Expect(lit: string, t: string): Option<string> {
    if |t| >= |lit| && t[..|lit|] == lit then Some(t[|lit|..]) else None
  }

  /** JSON.parse(text), for texts in the encoder's key order and spacing; None for any other text. */
  function Decode(t: string): Option<GameState> {
    var r1 :- Expect(KeyCurrent, t);
    var p1 :- ParseNullable(r1);
    var r2 :- Expect(KeyHistory, p1.1);
    var p2 :- ParseArray(r2);
    var r3 :- Expect(KeyFinished, p2.1);
    var p3 :- ParseBool(r3);
    var r4 :- Expect(KeyEpilogue, p3.1);
    var p4 :- ParseNullable(r4);
    var r5 :- Expect("}", p4.1);
    if r5 == [] then Some(GameState(p1.0, p2.0, p3.0, p4.0)) else None
  }

  // ---------------------------------------------------------------------------------------------
  // Round trip

  lemma ExpectLiteral(lit: string, rest: string)
    ensures Expect(lit, lit + rest) == Some(rest)
  {
    assert (lit + rest)[..|lit|] == lit;
    assert (lit + rest)[|lit|..] == rest;
  }

  /** Reading one escaped character leaves exactly the text after its escape. */
  lemma UnescapeEscape(c: char, tail: string)
    requires EscapeChar(c)[0] == '\\'
    ensures |EscapeChar(c)| >= 2
    ensures Unescape(EscapeChar(c)[1..] + tail) == Some((c, |EscapeChar(c)| - 1))
  {
    var e := EscapeChar(c);
    var u := e[1..] + tail;
    if c as int < 0x20 && c as int !in {0x08, 0x09, 0x0A, 0x0C, 0x0D} {
      var hi, lo := c as int / 16, c as int % 16;
      assert e == ['\\', 'u', '0', '0', HexDigit(hi), HexDigit(lo)];
      assert u[1..5] == ['0', '0', HexDigit(hi), HexDigit(lo)];
      HexValueOfDigit(hi);
      HexValueOfDigit(lo);
      assert Hex4(u[1..5]) == Some(c as int);
    }
  }

  /** Reading the escape of `c` followed by `tail` yields `c` in front of what `tail` yields. */
  lemma ParseCharsEscapedChar(c: char, tail: string)
    ensures ParseChars(EscapeChar(c) + tail) ==
      match ParseChars(tail)
      case None => None
      case Some(p) => Some(([c] + p.0, p.1))
  {
    var e := EscapeChar(c);
    var t := e + tail;
    if e[0] == '\\' {
      UnescapeEscape(c, tail);
      assert t[1..] == e[1..] + tail;
      assert t[1 + (|e| - 1)..] == tail;
    } else {
      assert e == [c];
      assert t[1..] == tail;
    }
  }

  lemma {:induction false} ParseCharsEscapeBody(s: string, rest: string)
    ensures ParseChars(EscapeBody(s) + "\"" + rest) == Some((s, rest))
  {
    if s == [] {
      assert EscapeBody(s) + "\"" + rest == "\"" + rest;
    } else {
      var tail := EscapeBody(s[1..]) + "\"" + rest;
      ParseCharsEscapeBody(s[1..], rest);
      assert EscapeBody(s) + "\"" + rest == EscapeChar(s[0]) + tail;
      ParseCharsEscapedChar(s[0], tail);
      assert [s[0]] + s[1..] == s;
    }
  }

  lemma ParseStringQuote(s: string, rest: string)
    ensures ParseString(Quote(s) + rest) == Some((s, rest))
  {
    var t := Quote(s) + rest;
    assert t[1..] == EscapeBody(s) + "\"" + rest;
    ParseCharsEscapeBody(s, rest);
  }

  lemma ParseNullableEncoded(x: Option<string>, rest: string)
    ensures ParseNullable(EncodeNullable(x) + rest) == Some((x, rest))
  {
    var t := EncodeNullable(x) + rest;
    match x
    case None =>
      assert t[..4] == "null" && t[4..] == rest;
    case Some(s) =>
      assert !(|t| >= 4 && t[..4] == "null") by {
        assert t[0] == '"';
        if |t| >= 4 { assert t[..4][0] == '"'; }
      }
      ParseStringQuote(s, rest);
  }

  lemma ParseBoolEncoded(b: bool, rest: string)
    ensures ParseBool(EncodeBool(b) + rest) == Some((b, rest))
  {
    var t := EncodeBool(b) + rest;
    if b {
      assert t[..4] == "true" && t[4..] == rest;
    } else {
      assert t[..4] != "true" by { assert t[0] == 'f'; }
      assert t[..5] == "false" && t[5..] == rest;
    }
  }

  lemma {:induction false} ParseMoreItems(h: seq<string>, rest: string)
    ensures ParseMore(MoreItems(h) + "]" + rest) == Some((h, rest))
  {
    var t := MoreItems(h) + "]" + rest;
    if h == [] {
      assert t == "]" + rest;
      assert t[1..] == rest;
    } else {
      var tail := MoreItems(h[1..]) + "]" + rest;
      assert t == "," + (Quote(h[0]) + tail);
      assert t[1..] == Quote(h[0]) + tail;
      ParseStringQuote(h[0], tail);
      ParseMoreItems(h[1..], rest);
      assert [h[0]] + h[1..] == h;
    }
  }

  lemma ParseArrayEncoded(h: seq<string>, rest: string)
    ensures ParseArray(EncodeArray(h) + rest) == Some((h, rest))
  {
    var t := EncodeArray(h) + rest;
    if h == [] {
      assert t == "[]" + rest;
      assert t[2..] == rest;
    } else {
      var tail := MoreItems(h[1..]) + "]" + rest;
      assert t == "[" + (Quote(h[0]) + tail);
      assert t[1..] == Quote(h[0]) + tail;
      assert t[1] == '"';
      ParseStringQuote(h[0], tail);
      ParseMoreItems(h[1..], rest);
      assert [h[0]] + h[1..] == h;
    }
  }

  /** What JSON.parse(JSON.stringify(s)) gives back is `s`. */
  lemma DecodeEncode(s: GameState)
    ensures Decode(Encode(s)) == Some(s)
  {
    var t5 := "}";
    var t4 := EncodeNullable(s.finalEpilogueId) + t5;
    var r4 := KeyEpilogue + t4;
    var t3 := EncodeBool(s.isFinished) + r4;
    var r3 := KeyFinished + t3;
    var t2 := EncodeArray(s.history) + r3;
    var r2 := KeyHistory + t2;
    var t1 := EncodeNullable(s.currentQuestionId) + r2;
    assert Encode(s) == KeyCurrent + t1;
    ExpectLiteral(KeyCurrent, t1);
    ParseNullableEncoded(s.currentQuestionId, r2);
    ExpectLiteral(KeyHistory, t2);
    ParseArrayEncoded(s.history, r3);
    ExpectLiteral(KeyFinished, t3);
    ParseBoolEncoded(s.isFinished, r4);
    ExpectLiteral(KeyEpilogue, t4);
    ParseNullableEncoded(s.finalEpilogueId, t5);
    ExpectLiteral("}", []);
    assert t5 == "}" + [];
  }

  /** An encoded state is never the empty text, so a stored encoding is never read back as "nothing saved". */
  lemma EncodeNonEmpty(s: GameState)
    ensures Encode(s) != [] && Encode(s)[0] == '{'
  {
  }
}
