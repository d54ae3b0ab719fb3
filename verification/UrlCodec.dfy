/**
 Token encodings of series names at the level of bytes (the UTF-8 bytes of a name):
 application/x-www-form-urlencoded (HTML 4.01, section 17.13.4) and percent-encoding (RFC 3986, section 2.1).
 */
module UrlCodec {
  import opened Text

  type byte = b: int | 0 <= b < 256
  type Bytes = seq<byte>

  predicate IsAlphanumeric(b: int) {
    'a' as int <= b <= 'z' as int || 'A' as int <= b <= 'Z' as int || '0' as int <= b <= '9' as int
  }

  // URLEncoder leaves these as they are.
  predicate FormSafe(b: int) {
    IsAlphanumeric(b) || b == '.' as int || b == '-' as int || b == '*' as int || b == '_' as int
  }

  // urllib.quote(s, safe='') leaves these as they are.
  predicate PercentSafe(b: int) {
    IsAlphanumeric(b) || b == '.' as int || b == '-' as int || b == '_' as int
  }

  function HexDigit(n: int): (c: char)
    requires 0 <= n < 16
    ensures '0' <= c <= '9' || 'A' <= c <= 'F'
  {
    if n < 10 then (n + '0' as int) as char else (n - 10 + 'A' as int) as char
  }

  // Character.digit(c, 16) on ASCII; -1 when c is no digit
  function HexValue(c: char): (n: int)
    ensures -1 <= n < 16
  {
    if '0' <= c <= '9' then c as int - '0' as int
    else if 'a' <= c <= 'f' then c as int - 'a' as int + 10
    else if 'A' <= c <= 'F' then c as int - 'A' as int + 10
    else -1
  }

  function Percent(b: byte): string {
    ['%', HexDigit(b / 16), HexDigit(b % 16)]
  }

  function FormByte(b: byte): string {
    if FormSafe(b) then [b as char] else if b == 32 then "+" else Percent(b)
  }

  // URLEncoder.encode(s, "UTF-8")
  function FormEncode(bs: Bytes): string {
    if bs == [] then "" else FormByte(bs[0]) + FormEncode(bs[1..])
  }

  function PercentByte(b: byte): string {
    if PercentSafe(b) then [b as char] else Percent(b)
  }

  // urllib.quote(s, safe='')
  function PercentEncode(bs: Bytes): string {
    if bs == [] then "" else PercentByte(bs[0]) + PercentEncode(bs[1..])
  }

  // The UTF-8 bytes of a character that a decoder passes through
  function Utf8(c: char): Bytes {
    var n := c as int;
    if n < 0x80 then [n]
    else if n < 0x800 then [0xC0 + n / 0x40, 0x80 + n % 0x40]
    else if n < 0x10000 then [0xE0 + n / 0x1000, 0x80 + n / 0x40 % 0x40, 0x80 + n % 0x40]
    else [0xF0 + n / 0x40000, 0x80 + n / 0x1000 % 0x40, 0x80 + n / 0x40 % 0x40, 0x80 + n % 0x40]
  }

  // Integer.parseInt of the two characters behind a percent sign: a sign is accepted in front of one digit.
  function ParseHexPair(c: char, d: char): Option<byte> {
    if HexValue(c) >= 0 && HexValue(d) >= 0 then Some(16 * HexValue(c) + HexValue(d))
    else if c == '+' && HexValue(d) >= 0 then Some(HexValue(d))
    else if c == '-' && HexValue(d) == 0 then Some(0)
    else None
  }

  // URLDecoder.decode(s, "UTF-8"); None is the IllegalArgumentException of a malformed escape.
  function FormDecode(s: string): Option<Bytes> {
    if s == "" then Some([])
    else if s[0] == '%' then
      if |s| < 3 || ParseHexPair(s[1], s[2]).None? || FormDecode(s[3..]).None? then None
      else Some([ParseHexPair(s[1], s[2]).value] + FormDecode(s[3..]).value)
    else if FormDecode(s[1..]).None? then None
    else Some((if s[0] == '+' then [32] else Utf8(s[0])) + FormDecode(s[1..]).value)
  }

  lemma HexRoundTrip(b: byte)
    ensures ParseHexPair(HexDigit(b / 16), HexDigit(b % 16)) == Some(b)
  {
    assert HexValue(HexDigit(b / 16)) == b / 16 && HexValue(HexDigit(b % 16)) == b % 16;
  }

  function LowerCase(c: char): char {
    if 'A' <= c <= 'F' then (c as int + 32) as char else c
  }

  /** An escape is read alike with its digits in either case. */
  lemma EitherCaseDecodes(b: byte, tail: string)
    requires FormDecode(tail).Some?
    ensures FormDecode(['%', LowerCase(HexDigit(b / 16)), LowerCase(HexDigit(b % 16))] + tail) ==
            Some([b] + FormDecode(tail).value)
  {
    var s := ['%', LowerCase(HexDigit(b / 16)), LowerCase(HexDigit(b % 16))] + tail;
    HexRoundTrip(b);
    assert s[3..] == tail;
  }

  lemma FormByteDecodes(b: byte, tail: string)
    requires FormDecode(tail).Some?
    ensures FormDecode(FormByte(b) + tail) == Some([b] + FormDecode(tail).value)
  {
    var s := FormByte(b) + tail;
    if FormSafe(b) || b == 32 {
      assert s[1..] == tail;
    } else {
      HexRoundTrip(b);
      assert s[1] == HexDigit(b / 16) && s[2] == HexDigit(b % 16) && s[3..] == tail;
    }
  }

  /** URLDecoder inverts URLEncoder. */
  lemma {:induction false} FormRoundTrip(bs: Bytes)
    ensures FormDecode(FormEncode(bs)) == Some(bs)
  {
    if bs != [] {
      FormRoundTrip(bs[1..]);
      FormByteDecodes(bs[0], FormEncode(bs[1..]));
      assert bs == [bs[0]] + bs[1..];
    }
  }

  // The characters that separate the tokens of a series name
  predicate IsSeparator(c: char) {
    c == '?' || c == '&' || c == '='
  }

  predicate IsLineTerminator(c: char) {
    c == '\n' || c == '\r' || c as int == 0x85 || c as int == 0x2028 || c as int == 0x2029
  }

  // A token can be told apart from what surrounds it.
  predicate Plain(token: string) {
    forall i :: 0 <= i < |token| ==> !IsSeparator(token[i]) && !IsLineTerminator(token[i])
  }

  // What series names need of a token encoding
  ghost predicate TokenEncoding(enc: Bytes -> string) {
    (forall bs :: Plain(enc(bs)) && (enc(bs) == "" <==> bs == [])) &&
    (forall a, b :: enc(a) == enc(b) ==> a == b)
  }

  lemma {:induction false} FormIsPlain(bs: Bytes)
    ensures Plain(FormEncode(bs)) && (FormEncode(bs) == "" <==> bs == [])
  {
    if bs != [] {
      FormIsPlain(bs[1..]);
      assert Plain(FormByte(bs[0])) && FormByte(bs[0]) != "";
    }
  }

  lemma FormIsTokenEncoding()
    ensures TokenEncoding(FormEncode)
  {
    forall bs ensures Plain(FormEncode(bs)) && (FormEncode(bs) == "" <==> bs == []) {
      FormIsPlain(bs);
    }
    forall a, b | FormEncode(a) == FormEncode(b) ensures a == b {
      FormRoundTrip(a);
      FormRoundTrip(b);
    }
  }

  lemma {:induction false} PercentIsPlain(bs: Bytes)
    ensures Plain(PercentEncode(bs)) && (PercentEncode(bs) == "" <==> bs == [])
  {
    if bs != [] {
      PercentIsPlain(bs[1..]);
      assert Plain(PercentByte(bs[0])) && PercentByte(bs[0]) != "";
    }
  }

  lemma PercentByteDecodes(b: byte, tail: string)
    requires FormDecode(tail).Some?
    ensures FormDecode(PercentByte(b) + tail) == Some([b] + FormDecode(tail).value)
  {
    var s := PercentByte(b) + tail;
    if PercentSafe(b) {
      assert s[1..] == tail;
    } else {
      HexRoundTrip(b);
      assert s[1] == HexDigit(b / 16) && s[2] == HexDigit(b % 16) && s[3..] == tail;
    }
  }

  /** URLDecoder also reads back what urllib.quote wrote: the two encodings differ only in what they escape. */
  lemma {:induction false} PercentDecodes(bs: Bytes)
    ensures FormDecode(PercentEncode(bs)) == Some(bs)
  {
    if bs != [] {
      PercentDecodes(bs[1..]);
      PercentByteDecodes(bs[0], PercentEncode(bs[1..]));
      assert bs == [bs[0]] + bs[1..];
    }
  }

  lemma PercentIsTokenEncoding()
    ensures TokenEncoding(PercentEncode)
  {
    forall bs ensures Plain(PercentEncode(bs)) && (PercentEncode(bs) == "" <==> bs == []) {
      PercentIsPlain(bs);
    }
    forall a, b | PercentEncode(a) == PercentEncode(b) ensures a == b {
      PercentDecodes(a);
      PercentDecodes(b);
    }
  }

  // --- texts and their UTF-8 bytes ---

  function ToUtf8(s: string): Bytes {
    if s == "" then [] else Utf8(s[0]) + ToUtf8(s[1..])
  }

  function Width(b: byte): (n: nat)
    ensures 1 <= n <= 4
  {
    if b < 0xC0 then 1 else if b < 0xE0 then 2 else if b < 0xF0 then 3 else 4
  }

  // The bytes behind the first one continue it.
  predicate Continued(bs: Bytes, n: nat) {
    n <= |bs| && forall i :: 1 <= i < n ==> 0x80 <= bs[i] < 0xC0
  }

  // The code point at the front; malformed bytes give one past the last.
  function CodePoint(bs: Bytes): int
    requires bs != []
  {
    var n := Width(bs[0]);
    var none := 0x110000;
    if !Continued(bs, n) then none
    else if n == 1 then if bs[0] < 0x80 then bs[0] else none
    else if n == 2 then var c := (bs[0] as int - 0xC0) * 0x40 + (bs[1] as int - 0x80); if c < 0x80 then none else c
    else if n == 3 then
      var c := (bs[0] as int - 0xE0) * 0x1000 + (bs[1] as int - 0x80) * 0x40 + (bs[2] as int - 0x80);
      if c < 0x800 then none else c
    else
      var c := (bs[0] as int - 0xF0) * 0x40000 + (bs[1] as int - 0x80) * 0x1000 + (bs[2] as int - 0x80) * 0x40 +
        (bs[3] as int - 0x80);
      if c < 0x10000 then none else c
  }

  // new String(bytes, "UTF-8"), malformed bytes one replacement character each
  function FromUtf8(bs: Bytes): string
    decreases |bs|
  {
    if bs == [] then ""
    else
      var n := CodePoint(bs);
      if (0 <= n < 0xD800 || 0xE000 <= n < 0x110000) && Width(bs[0]) <= |bs|
      then [n as char] + FromUtf8(bs[Width(bs[0])..])
      else ['\U{FFFD}'] + FromUtf8(bs[1..])
  }

  lemma FromUtf8Head(c: char, bs: Bytes)
    ensures FromUtf8(Utf8(c) + bs) == [c] + FromUtf8(bs)
  {
    var u := Utf8(c);
    var r := u + bs;
    assert Width(u[0]) == |u| && Continued(u, |u|);
    assert forall i :: 0 <= i < |u| ==> r[i] == u[i];
    assert r[|u|..] == bs;
    CodePointOf(c);
  }

  lemma CodePointOf(c: char)
    ensures CodePoint(Utf8(c)) == c as int
  {
    var n := c as int;
    assert n == n / 0x40 * 0x40 + n % 0x40;
    assert n / 0x40 == n / 0x1000 * 0x40 + n / 0x40 % 0x40;
    assert n / 0x1000 == n / 0x40000 * 0x40 + n / 0x1000 % 0x40;
  }

  lemma {:induction false} Utf8RoundTrip(s: string)
    ensures FromUtf8(ToUtf8(s)) == s
  {
    if s != "" {
      Utf8RoundTrip(s[1..]);
      FromUtf8Head(s[0], ToUtf8(s[1..]));
    }
  }

  // URLDecoder.decode as a text
  function DecodeText(s: string): Option<string> {
    var bs := FormDecode(s);
    if bs.None? then None else Some(FromUtf8(bs.value))
  }

  // Characters that form decoding leaves as they are
  predicate NoEscapes(s: string) {
    forall i :: 0 <= i < |s| ==> s[i] != '%' && s[i] != '+'
  }

  lemma {:induction false} NoEscapesDecode(s: string)
    requires NoEscapes(s)
    ensures FormDecode(s) == Some(ToUtf8(s))
  {
    if s != "" {
      NoEscapesDecode(s[1..]);
    }
  }

  lemma NoEscapesStay(s: string)
    requires NoEscapes(s)
    ensures DecodeText(s) == Some(s)
  {
    NoEscapesDecode(s);
    Utf8RoundTrip(s);
  }

  lemma {:induction false} ToUtf8Concat(a: string, b: string)
    ensures ToUtf8(a + b) == ToUtf8(a) + ToUtf8(b)
  {
    if a == "" {
      assert a + b == b;
    } else {
      assert (a + b)[1..] == a[1..] + b;
      ToUtf8Concat(a[1..], b);
    }
  }

  lemma {:induction false} DecodesBehind(a: string, b: string)
    requires NoEscapes(a) && FormDecode(b).Some?
    ensures FormDecode(a + b) == Some(ToUtf8(a) + FormDecode(b).value)
  {
    if a == "" {
      assert a + b == b && ToUtf8(a) + FormDecode(b).value == FormDecode(b).value;
    } else {
      assert (a + b)[1..] == a[1..] + b;
      DecodesBehind(a[1..], b);
      assert Utf8(a[0]) + (ToUtf8(a[1..]) + FormDecode(b).value) == ToUtf8(a) + FormDecode(b).value;
    }
  }

  // One encoded byte between characters that stay as they are
  lemma EscapeInside(front: string, b: byte, back: string)
    requires NoEscapes(front) && NoEscapes(back) && b < 0x80
    ensures DecodeText(front + (FormByte(b) + back)) == Some(front + ([b as char] + back))
  {
    NoEscapesDecode(back);
    FormByteDecodes(b, back);
    DecodesBehind(front, FormByte(b) + back);
    ToUtf8Concat(front, [b as char] + back);
    assert ([b as char] + back)[1..] == back;
    Utf8RoundTrip(front + ([b as char] + back));
  }

  // Every percent sign is followed by what can be read as a byte.
  predicate WellEscaped(s: string) {
    forall i :: 0 <= i < |s| && s[i] == '%' ==> i + 2 < |s| && ParseHexPair(s[i + 1], s[i + 2]).Some?
  }

  /** Decoding succeeds just for such texts. */
  lemma {:induction false} DecodesIff(s: string)
    ensures FormDecode(s).Some? <==> WellEscaped(s)
  {
    if s == "" {
    } else if s[0] != '%' {
      DecodesIff(s[1..]);
      EscapesBehind(s, 1);
    } else if |s| >= 3 && ParseHexPair(s[1], s[2]).Some? {
      DecodesIff(s[3..]);
      EscapesBehind(s, 3);
    }
  }

  lemma EscapesBehind(s: string, n: nat)
    requires n <= |s|
    requires forall i :: 0 <= i < n && s[i] == '%' ==> i + 2 < |s| && ParseHexPair(s[i + 1], s[i + 2]).Some?
    ensures WellEscaped(s) <==> WellEscaped(s[n..])
  {
    var t := s[n..];
    assert forall i :: 0 <= i < |t| ==> t[i] == s[n + i];
    if WellEscaped(t) {
      forall i | n <= i < |s| && s[i] == '%' ensures i + 2 < |s| && ParseHexPair(s[i + 1], s[i + 2]).Some? {
        assert t[i - n] == '%';
      }
    }
  }
}
