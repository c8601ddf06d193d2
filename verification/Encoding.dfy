/** The encodings a command passes through: UTF-8, base64 (section 4 of RFC 4648) and JSON strings (section 7
    of RFC 8259) as the Go encoder writes them. */
module Encoding {
  import opened Wrappers

  type octet = x: int | 0 <= x < 256

  // ---------------------------------------------------------------------------------------------
  // UTF-8

  function EncodeChar(c: char): (b: seq<octet>)
    ensures 1 <= |b| <= 4
  {
    var n := c as int;
    if n < 0x80 then [n]
    else if n < 0x800 then [0xC0 + n / 64, 0x80 + n % 64]
    else if n < 0x1_0000 then [0xE0 + n / 4096, 0x80 + n / 64 % 64, 0x80 + n % 64]
    else [0xF0 + n / 262144, 0x80 + n / 4096 % 64, 0x80 + n / 64 % 64, 0x80 + n % 64]
  }

  function Utf8(s: string): seq<octet> {
    if s == "" then [] else EncodeChar(s[0]) + Utf8(s[1..])
  }

  predicate IsScalar(n: int) {
    0 <= n < 0xD800 || 0xE000 <= n < 0x11_0000
  }

  predicate Continues(b: octet) {
    0x80 <= b < 0xC0
  }

  function Code2(a: int, b: int): int {
    (a - 0xC0) * 64 + (b - 0x80)
  }

  function Code3(a: int, b: int, c: int): int {
    (a - 0xE0) * 4096 + (b - 0x80) * 64 + (c - 0x80)
  }

  function Code4(a: int, b: int, c: int, d: int): int {
    (a - 0xF0) * 262144 + (b - 0x80) * 4096 + (c - 0x80) * 64 + (d - 0x80)
  }

  /** The first code point and its length; None if the bytes do not start with a well-formed one. */
  function FirstChar(b: seq<octet>): (r: Option<(char, nat)>)
    ensures r.Some? ==> 0 < r.value.1 <= |b|
  {
    if b == [] then None
    else if b[0] < 0x80 then Some((b[0] as char, 1))
    else if 0xC0 <= b[0] < 0xE0 && |b| >= 2 && Continues(b[1]) then
      Scalar(Code2(b[0], b[1]), 0x80, 2)
    else if 0xE0 <= b[0] < 0xF0 && |b| >= 3 && Continues(b[1]) && Continues(b[2]) then
      Scalar(Code3(b[0], b[1], b[2]), 0x800, 3)
    else if 0xF0 <= b[0] && |b| >= 4 && Continues(b[1]) && Continues(b[2]) && Continues(b[3]) then
      Scalar(Code4(b[0], b[1], b[2], b[3]), 0x1_0000, 4)
    else None
  }

  function Scalar(n: int, least: int, length: nat): (r: Option<(char, nat)>)
    ensures r.Some? ==> r.value.1 == length
  {
    if least <= n && IsScalar(n) then Some((n as char, length)) else None
  }

  function FromUtf8(b: seq<octet>): Option<string> {
    if b == [] then Some("")
    else
      match FirstChar(b)
      case None => None
      case Some((c, n)) =>
        match FromUtf8(b[n..])
        case None => None
        case Some(rest) => Some([c] + rest)
  }

  lemma CodeDigits(n: nat)
    requires n < 0x11_0000
    ensures n < 0x800 ==> Code2(0xC0 + n / 64, 0x80 + n % 64) == n
    ensures n < 0x1_0000 ==> Code3(0xE0 + n / 4096, 0x80 + n / 64 % 64, 0x80 + n % 64) == n
    ensures Code4(0xF0 + n / 262144, 0x80 + n / 4096 % 64, 0x80 + n / 64 % 64, 0x80 + n % 64) == n
  {
  }

  lemma FirstCharOfEncoding(c: char, rest: seq<octet>)
    ensures FirstChar(EncodeChar(c) + rest) == Some((c, |EncodeChar(c)|))
  {
    var n := c as int;
    CodeDigits(n);
    if n < 0x80 {
    } else if n < 0x800 {
      TwoBytes(c, rest);
    } else if n < 0x1_0000 {
      ThreeBytes(c, rest);
    } else {
      FourBytes(c, rest);
    }
  }

  lemma TwoBytes(c: char, rest: seq<octet>)
    requires 0x80 <= c as int < 0x800
    ensures FirstChar(EncodeChar(c) + rest) == Some((c, 2))
  {
    CodeDigits(c as int);
  }

  lemma ThreeBytes(c: char, rest: seq<octet>)
    requires 0x800 <= c as int < 0x1_0000
    ensures FirstChar(EncodeChar(c) + rest) == Some((c, 3))
  {
    CodeDigits(c as int);
  }

  lemma FourBytes(c: char, rest: seq<octet>)
    requires 0x1_0000 <= c as int
    ensures FirstChar(EncodeChar(c) + rest) == Some((c, 4))
  {
    CodeDigits(c as int);
  }

  /** One character of each length. */
  lemma Utf8Vectors()
    ensures EncodeChar('A') == [0x41] && EncodeChar('\U{E9}') == [0xC3, 0xA9]
    ensures EncodeChar('\U{20AC}') == [0xE2, 0x82, 0xAC] && EncodeChar('\U{10348}') == [0xF0, 0x90, 0x8D, 0x88]
  {
  }

  lemma {:induction false} Utf8RoundTrip(s: string)
    ensures FromUtf8(Utf8(s)) == Some(s)
  {
    if s != "" {
      FirstCharOfEncoding(s[0], Utf8(s[1..]));
      assert Utf8(s)[|EncodeChar(s[0])|..] == Utf8(s[1..]);
      Utf8RoundTrip(s[1..]);
      assert [s[0]] + s[1..] == s;
    }
  }

  // ---------------------------------------------------------------------------------------------
  // Base64

  function Char64(v: nat): char
    requires v < 64
  {
    if v < 26 then ('A' as int + v) as char
    else if v < 52 then ('a' as int + v - 26) as char
    else if v < 62 then ('0' as int + v - 52) as char
    else if v == 62 then '+'
    else '/'
  }

  function Value64(c: char): (r: Option<nat>)
    ensures r.Some? ==> r.value < 64
  {
    if 'A' <= c <= 'Z' then Some(c as int - 'A' as int)
    else if 'a' <= c <= 'z' then Some(c as int - 'a' as int + 26)
    else if '0' <= c <= '9' then Some(c as int - '0' as int + 52)
    else if c == '+' then Some(62)
    else if c == '/' then Some(63)
    else None
  }

  lemma Value64OfChar64(v: nat)
    requires v < 64
    ensures Value64(Char64(v)) == Some(v) && Char64(v) != '='
  {
  }

  function Base64(b: seq<octet>): string {
    if b == [] then ""
    else if |b| == 1 then [Char64(b[0] / 4), Char64(b[0] % 4 * 16), '=', '=']
    else if |b| == 2 then [Char64(b[0] / 4), Char64(b[0] % 4 * 16 + b[1] / 16), Char64(b[1] % 16 * 4), '=']
    else Group(b[0], b[1], b[2]) + Base64(b[3..])
  }

  /** Three bytes as four characters. */
  function Group(b0: octet, b1: octet, b2: octet): string {
    [Char64(b0 / 4), Char64(b0 % 4 * 16 + b1 / 16), Char64(b1 % 16 * 4 + b2 / 64), Char64(b2 % 64)]
  }

  function FromBase64(s: string): Option<seq<octet>> {
    if s == "" then Some([])
    else if |s| < 4 || Value64(s[0]).None? || Value64(s[1]).None? then None
    else
      var v0, v1 := Value64(s[0]).value, Value64(s[1]).value;
      var b0: octet := v0 * 4 + v1 / 16;
      if s[2] == '=' then (if |s| == 4 && s[3] == '=' then Some([b0]) else None)
      else if Value64(s[2]).None? then None
      else
        var v2 := Value64(s[2]).value;
        var b1: octet := v1 % 16 * 16 + v2 / 4;
        if s[3] == '=' then (if |s| == 4 then Some([b0, b1]) else None)
        else if Value64(s[3]).None? then None
        else
          match FromBase64(s[4..])
          case None => None
          case Some(rest) => Some([b0, b1, v2 % 4 * 64 + Value64(s[3]).value] + rest)
  }

  /** Regrouping eight-bit digits into six-bit digits loses nothing. */
  lemma SixBitDigits(b0: octet, b1: octet, b2: octet)
    ensures b0 / 4 * 4 + (b0 % 4 * 16 + b1 / 16) / 16 == b0
    ensures (b0 % 4 * 16 + b1 / 16) % 16 * 16 + (b1 % 16 * 4 + b2 / 64) / 4 == b1
    ensures (b1 % 16 * 4 + b2 / 64) % 4 * 64 + b2 % 64 == b2
  {
  }

  lemma DecodeOne(c0: char, c1: char, v0: nat, v1: nat, b0: octet)
    requires Value64(c0) == Some(v0) && Value64(c1) == Some(v1) && v0 * 4 + v1 / 16 == b0
    ensures FromBase64([c0, c1, '=', '=']) == Some([b0])
  {
  }

  lemma DecodeTwo(c0: char, c1: char, c2: char, v0: nat, v1: nat, v2: nat, b0: octet, b1: octet)
    requires Value64(c0) == Some(v0) && Value64(c1) == Some(v1) && Value64(c2) == Some(v2) && c2 != '='
    requires v0 * 4 + v1 / 16 == b0 && v1 % 16 * 16 + v2 / 4 == b1
    ensures FromBase64([c0, c1, c2, '=']) == Some([b0, b1])
  {
  }

  lemma DecodeThree(c0: char, c1: char, c2: char, c3: char, v0: nat, v1: nat, v2: nat, v3: nat,
                    b0: octet, b1: octet, b2: octet, text: string, rest: seq<octet>)
    requires Value64(c0) == Some(v0) && Value64(c1) == Some(v1) && Value64(c2) == Some(v2) && Value64(c3) == Some(v3)
    requires c2 != '=' && c3 != '='
    requires v0 * 4 + v1 / 16 == b0 && v1 % 16 * 16 + v2 / 4 == b1 && v2 % 4 * 64 + v3 == b2
    requires FromBase64(text) == Some(rest)
    ensures FromBase64([c0, c1, c2, c3] + text) == Some([b0, b1, b2] + rest)
  {
    assert ([c0, c1, c2, c3] + text)[4..] == text;
  }

  lemma DecodeGroup(b0: octet, b1: octet, b2: octet, text: string, rest: seq<octet>)
    requires FromBase64(text) == Some(rest)
    ensures FromBase64(Group(b0, b1, b2) + text) == Some([b0, b1, b2] + rest)
  {
    var v0, v1, v2, v3 := b0 / 4, b0 % 4 * 16 + b1 / 16, b1 % 16 * 4 + b2 / 64, b2 % 64;
    Value64OfChar64(v0);
    Value64OfChar64(v1);
    Value64OfChar64(v2);
    Value64OfChar64(v3);
    SixBitDigits(b0, b1, b2);
    DecodeThree(Char64(v0), Char64(v1), Char64(v2), Char64(v3), v0, v1, v2, v3, b0, b1, b2, text, rest);
  }

  lemma Base64Step(b: seq<octet>)
    requires |b| >= 3 && FromBase64(Base64(b[3..])) == Some(b[3..])
    ensures FromBase64(Base64(b)) == Some(b)
  {
    FrontThree(b);
    DecodeGroup(b[0], b[1], b[2], Base64(b[3..]), b[3..]);
  }

  lemma FrontThree<T>(b: seq<T>)
    requires |b| >= 3
    ensures [b[0], b[1], b[2]] + b[3..] == b
  {
  }

  lemma Base64Short(b: seq<octet>)
    requires 1 <= |b| <= 2
    ensures FromBase64(Base64(b)) == Some(b)
  {
    var b1: octet := if |b| == 2 then b[1] else 0;
    var v0, v1, v2 := b[0] / 4, b[0] % 4 * 16 + b1 / 16, b1 % 16 * 4;
    Value64OfChar64(v0);
    Value64OfChar64(v1);
    Value64OfChar64(v2);
    SixBitDigits(b[0], b1, 0);
    if |b| == 1 {
      DecodeOne(Char64(v0), Char64(v1), v0, v1, b[0]);
      assert b == [b[0]];
    } else {
      DecodeTwo(Char64(v0), Char64(v1), Char64(v2), v0, v1, v2, b[0], b[1]);
      assert b == [b[0], b[1]];
    }
  }

  /** Test vectors of section 10 of RFC 4648, and one for the last two characters of the alphabet. */
  lemma Base64Vectors()
    ensures Base64([0x66]) == "Zg==" && Base64([0x66, 0x6F]) == "Zm8=" && Base64([0x66, 0x6F, 0x6F]) == "Zm9v"
    ensures Base64([0x66, 0x6F, 0x6F, 0x62, 0x61, 0x72]) == "Zm9vYmFy"
    ensures Base64([0xFB, 0xFF]) == "+/8="
  {
    var foobar: seq<octet> := [0x66, 0x6F, 0x6F, 0x62, 0x61, 0x72];
    assert foobar[3..] == [0x62, 0x61, 0x72] && foobar[3..][3..] == [];
    var foo: seq<octet> := [0x66, 0x6F, 0x6F];
    assert foo[3..] == [];
  }

  lemma {:induction false} Base64RoundTrip(b: seq<octet>)
    ensures FromBase64(Base64(b)) == Some(b)
  {
    if b == [] {
    } else if |b| <= 2 {
      Base64Short(b);
    } else {
      Base64RoundTrip(b[3..]);
      Base64Step(b);
    }
  }

  // ---------------------------------------------------------------------------------------------
  // JSON strings

  function Hex(v: nat): char
    requires v < 16
  {
    if v < 10 then ('0' as int + v) as char else ('a' as int + v - 10) as char
  }

  function HexValue(c: char): (r: Option<nat>)
    ensures r.Some? ==> r.value < 16
  {
    if '0' <= c <= '9' then Some(c as int - '0' as int)
    else if 'a' <= c <= 'f' then Some(c as int - 'a' as int + 10)
    else if 'A' <= c <= 'F' then Some(c as int - 'A' as int + 10)
    else None
  }

  function UnicodeEscape(n: nat): string
    requires n < 0x1_0000
  {
    ['\\', 'u', Hex(n / 4096), Hex(n / 256 % 16), Hex(n / 16 % 16), Hex(n % 16)]
  }

  /** How the encoder writes one character: besides what JSON demands it escapes the characters that are
      special in HTML and the two Unicode line separators. */
  function Escape(c: char): (s: string)
    ensures s != ""
  {
    if c == '"' then "\\\""
    else if c == '\\' then "\\\\"
    else if c == '\n' then "\\n"
    else if c == '\r' then "\\r"
    else if c == '\t' then "\\t"
    else if c as int < 0x20 || c in "<>&" || c as int == 0x2028 || c as int == 0x2029 then UnicodeEscape(c as int)
    else [c]
  }

  /** The escapes of section 7 of RFC 8259 that are in use, and those of the characters special in HTML and of the
      line separators. */
  lemma EscapeVectors()
    ensures Escape('"') == "\\\"" && Escape('\\') == "\\\\" && Escape('\n') == "\\n" && Escape('\r') == "\\r" && Escape('\t') == "\\t"
    ensures Escape('a') == "a" && Escape('/') == "/" && Escape(0x2027 as char) == [0x2027 as char]
  {
  }

  lemma HtmlVectors()
    ensures Escape('<') == "\\u003c" && Escape('>') == "\\u003e" && Escape('&') == "\\u0026"
    ensures Escape(0x1F as char) == "\\u001f" && Escape(0x2028 as char) == "\\u2028" && Escape(0x2029 as char) == "\\u2029"
  {
  }

  function EscapeAll(s: string): string {
    if s == "" then "" else Escape(s[0]) + EscapeAll(s[1..])
  }

  function JsonString(s: string): string {
    "\"" + EscapeAll(s) + "\""
  }

  function SimpleEscape(c: char): Option<char> {
    match c
    case '"' => Some('"')
    case '\\' => Some('\\')
    case '/' => Some('/')
    case 'b' => Some(8 as char)
    case 'f' => Some(12 as char)
    case 'n' => Some('\n')
    case 'r' => Some('\r')
    case 't' => Some('\t')
    case _ => None
  }

  /** The character an escape sequence stands for, and the length of the sequence. */
  function Unescape(t: string): (r: Option<(char, nat)>)
    ensures r.Some? ==> 0 < r.value.1 <= |t|
  {
    if |t| < 2 then None
    else if t[1] != 'u' then
      match SimpleEscape(t[1])
      case Some(c) => Some((c, 2))
      case None => None
    else if |t| < 6 || HexValue(t[2]).None? || HexValue(t[3]).None? || HexValue(t[4]).None? || HexValue(t[5]).None? then None
    else
      var n := HexValue(t[2]).value * 4096 + HexValue(t[3]).value * 256 + HexValue(t[4]).value * 16 + HexValue(t[5]).value;
      if IsScalar(n) then Some((n as char, 6)) else None
  }

  /** Reads up to the closing quote; returns the value and what follows. */
  function ParseBody(t: string): Option<(string, string)> {
    if t == "" || (t[0] as int) < 0x20 then None
    else if t[0] == '"' then Some(("", t[1..]))
    else
      var first := if t[0] == '\\' then Unescape(t) else Some((t[0], 1));
      match first
      case None => None
      case Some((c, n)) =>
        match ParseBody(t[n..])
        case None => None
        case Some((s, rest)) => Some(([c] + s, rest))
  }

  function ParseJsonString(t: string): Option<(string, string)> {
    if t == "" || t[0] != '"' then None else ParseBody(t[1..])
  }

  lemma HexRoundTrip(v: nat)
    requires v < 16
    ensures HexValue(Hex(v)) == Some(v)
  {
  }

  lemma UnescapeUnicode(c: char, t: string)
    requires c as int < 0x1_0000
    ensures Unescape(UnicodeEscape(c as int) + t) == Some((c, 6))
  {
    var n := c as int;
    HexRoundTrip(n / 4096);
    HexRoundTrip(n / 256 % 16);
    HexRoundTrip(n / 16 % 16);
    HexRoundTrip(n % 16);
    HexDigits(n);
  }

  lemma HexDigits(n: nat)
    requires n < 0x1_0000
    ensures n / 4096 * 4096 + n / 256 % 16 * 256 + n / 16 % 16 * 16 + n % 16 == n
  {
    var a := n / 16;
    var b := a / 16;
    assert n == a * 16 + n % 16;
    assert a == b * 16 + a % 16;
    assert b == b / 16 * 16 + b % 16;
    assert b == n / 256 && b / 16 == n / 4096;
  }

  lemma UnescapeSimple(x: char, t: string)
    requires SimpleEscape(x).Some?
    ensures Unescape(['\\', x] + t) == Some((SimpleEscape(x).value, 2))
  {
  }

  /** A written character starts with a backslash exactly when it is an escape sequence for it. */
  lemma EscapeForms(c: char, t: string)
    ensures if Escape(c)[0] == '\\' then Unescape(Escape(c) + t) == Some((c, |Escape(c)|))
            else Escape(c) == [c] && c != '"' && c as int >= 0x20
  {
    if c == '"' {
      UnescapeSimple('"', t);
    } else if c == '\\' {
      UnescapeSimple('\\', t);
    } else if c == '\n' {
      UnescapeSimple('n', t);
    } else if c == '\r' {
      UnescapeSimple('r', t);
    } else if c == '\t' {
      UnescapeSimple('t', t);
    } else if Escape(c) != [c] {
      UnescapeUnicode(c, t);
    }
  }

  /** Reading one written character gives it back. */
  lemma ParseEscaped(c: char, t: string, s: string, rest: string)
    requires ParseBody(t) == Some((s, rest))
    ensures ParseBody(Escape(c) + t) == Some(([c] + s, rest))
  {
    EscapeForms(c, t);
    ParseChar(Escape(c), c, t, s, rest);
  }

  lemma ParseChar(e: string, c: char, t: string, s: string, rest: string)
    requires e != "" && ParseBody(t) == Some((s, rest))
    requires if e[0] == '\\' then Unescape(e + t) == Some((c, |e|)) else e == [c] && c != '"' && c as int >= 0x20
    ensures ParseBody(e + t) == Some(([c] + s, rest))
  {
    assert (e + t)[|e|..] == t;
  }

  lemma Associates(a: string, b: string, c: string)
    ensures (a + b) + c == a + (b + c)
  {
  }

  lemma ParseEscapedStep(s: string, rest: string)
    requires s != "" && ParseBody(EscapeAll(s[1..]) + ("\"" + rest)) == Some((s[1..], rest))
    ensures ParseBody(EscapeAll(s) + ("\"" + rest)) == Some((s, rest))
  {
    ParseEscaped(s[0], EscapeAll(s[1..]) + ("\"" + rest), s[1..], rest);
    Associates(Escape(s[0]), EscapeAll(s[1..]), "\"" + rest);
    assert [s[0]] + s[1..] == s;
  }

  lemma {:induction false} ParseEscapedAll(s: string, rest: string)
    ensures ParseBody(EscapeAll(s) + ("\"" + rest)) == Some((s, rest))
  {
    if s == "" {
      assert EscapeAll(s) + ("\"" + rest) == "\"" + rest && ("\"" + rest)[1..] == rest;
    } else {
      ParseEscapedAll(s[1..], rest);
      ParseEscapedStep(s, rest);
    }
  }

  lemma JsonStringRoundTrip(s: string, rest: string)
    ensures ParseJsonString(JsonString(s) + rest) == Some((s, rest))
  {
    ParseEscapedAll(s, rest);
    assert (JsonString(s) + rest)[1..] == EscapeAll(s) + ("\"" + rest);
  }
}
