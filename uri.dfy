/**
 * `encodeURIComponent` and `decodeURIComponent` (section 19.2.6 of ECMA-262):
 * characters outside the unescaped set are written as the percent-escaped
 * bytes of their UTF-8 encoding; decoding accepts escapes in either case and
 * fails (the URIError the functions throw) on a malformed escape or an invalid
 * UTF-8 sequence.
 */
module Uri {
  import opened Options

  type Byte = b: int | 0 <= b < 256

  /** The characters `encodeURIComponent` leaves as they are. */
  predicate IsUnescaped(c: char) {
    ('A' <= c <= 'Z') || ('a' <= c <= 'z') || ('0' <= c <= '9') ||
    c == '-' || c == '_' || c == '.' || c == '!' || c == '~' || c == '*' ||
    c == '\'' || c == '(' || c == ')'
  }

  predicate IsContinuation(b: Byte) {
    0x80 <= b < 0xC0
  }

  /** The UTF-8 encoding of one scalar value. */
  function Utf8(c: char): (bs: seq<Byte>)
    ensures 1 <= |bs| <= 4
    ensures forall i :: 1 <= i < |bs| ==> IsContinuation(bs[i])
  {
    var v := c as int;
    var v1 := v / 64;
    var v2 := v1 / 64;
    var v3 := v2 / 64;
    if v < 0x80 then [v]
    else if v < 0x800 then [0xC0 + v1, 0x80 + v % 64]
    else if v < 0x10000 then [0xE0 + v2, 0x80 + v1 % 64, 0x80 + v % 64]
    else [0xF0 + v3, 0x80 + v2 % 64, 0x80 + v1 % 64, 0x80 + v % 64]
  }

  /** The upper-case hexadecimal digit `encodeURIComponent` writes. */
  function HexDigit(n: int): (c: char)
    requires 0 <= n < 16
  {
    if n < 10 then ('0' as int + n) as char else ('A' as int + n - 10) as char
  }

  /** The value of a hexadecimal digit of either case. */
  function HexValue(c: char): (r: Option<int>)
    ensures r.Some? ==> 0 <= r.value < 16
  {
    if '0' <= c <= '9' then Some(c as int - '0' as int)
    else if 'A' <= c <= 'F' then Some(c as int - 'A' as int + 10)
    else if 'a' <= c <= 'f' then Some(c as int - 'a' as int + 10)
    else None
  }

  /** `%XY` for one byte. */
  function Escape(b: Byte): string {
    ['%', HexDigit(b / 16), HexDigit(b % 16)]
  }

  function EscapeAll(bs: seq<Byte>): (r: string)
    ensures |r| == 3 * |bs|
  {
    if bs == [] then [] else Escape(bs[0]) + EscapeAll(bs[1..])
  }

  function EncodeChar(c: char): (r: string)
    ensures r != []
  {
    if IsUnescaped(c) then [c] else EscapeAll(Utf8(c))
  }

  /** `encodeURIComponent(s)`. */
  function Encode(s: string): (r: string)
    ensures forall i :: 0 <= i < |r| ==> IsUnescaped(r[i]) || r[i] == '%'
    ensures (forall i :: 0 <= i < |s| ==> IsUnescaped(s[i])) ==> r == s
  {
    if s == [] then []
    else
      EscapeAllAlphabet(if IsUnescaped(s[0]) then [] else Utf8(s[0]));
      EncodeChar(s[0]) + Encode(s[1..])
  }

  lemma {:induction false} EscapeAllAlphabet(bs: seq<Byte>)
    ensures forall i :: 0 <= i < |EscapeAll(bs)| ==> IsUnescaped(EscapeAll(bs)[i]) || EscapeAll(bs)[i] == '%'
  {
    if bs != [] {
      EscapeAllAlphabet(bs[1..]);
    }
  }

  /** The byte written as `%XY` at the start of `s`, if `s` starts with one. */
  function ReadEscape(s: string): (r: Option<Byte>)
    ensures r.Some? ==> |s| >= 3 && s[0] == '%'
  {
    if |s| < 3 || s[0] != '%' then None
    else match (HexValue(s[1]), HexValue(s[2]))
      case (Some(hi), Some(lo)) => Some(hi * 16 + lo)
      case _ => None
  }

  /** How many bytes the UTF-8 sequence led by `b` has; 0 when `b` cannot lead one. */
  function SequenceLength(b: Byte): nat {
    if b < 0x80 then 1
    else if b < 0xC0 then 0
    else if b < 0xE0 then 2
    else if b < 0xF0 then 3
    else if b < 0xF8 then 4
    else 0
  }

  /** The next `count` escapes of `s`, each of which must be a continuation byte. */
  function ReadContinuations(s: string, count: nat): (r: Option<seq<Byte>>)
    ensures r.Some? ==> |r.value| == count && 3 * count <= |s|
    ensures r.Some? ==> forall i :: 0 <= i < count ==> IsContinuation(r.value[i])
    decreases count
  {
    if count == 0 then Some([])
    else match ReadEscape(s)
      case None => None
      case Some(b) =>
        if !IsContinuation(b) then None
        else match ReadContinuations(s[3..], count - 1)
          case None => None
          case Some(rest) => Some([b] + rest)
  }

  /** The scalar value a lead byte and its continuations encode; None for an overlong form, a surrogate or a value past U+10FFFF. */
  function ScalarOf(bs: seq<Byte>): (r: Option<char>)
    requires 2 <= |bs| <= 4 && SequenceLength(bs[0]) == |bs|
    requires forall i :: 1 <= i < |bs| ==> IsContinuation(bs[i])
  {
    var x0, x1 := bs[0] as int - 0x80, bs[1] as int - 0x80;
    var v :=
      if |bs| == 2 then (x0 - 0x40) * 64 + x1
      else if |bs| == 3 then ((x0 - 0x60) * 64 + x1) * 64 + (bs[2] as int - 0x80)
      else (((x0 - 0x70) * 64 + x1) * 64 + (bs[2] as int - 0x80)) * 64 + (bs[3] as int - 0x80);
    var least := if |bs| == 2 then 0x80 else if |bs| == 3 then 0x800 else 0x10000;
    if v < least || v > 0x10FFFF || (0xD800 <= v < 0xE000) then None else Some(v as char)
  }

  /** The character the escape sequence at the start of `s` decodes to, and how many characters of `s` it spans. */
  function DecodeEscape(s: string): (r: Option<(char, nat)>)
    ensures r.Some? ==> 3 <= r.value.1 <= |s|
  {
    match ReadEscape(s)
    case None => None
    case Some(b) =>
      var n := SequenceLength(b);
      if n == 0 then None
      else if n == 1 then Some((b as char, 3))
      else match ReadContinuations(s[3..], n - 1)
        case None => None
        case Some(more) =>
          match ScalarOf([b] + more)
          case None => None
          case Some(c) => Some((c, 3 * n))
  }

  /** `decodeURIComponent(s)`; None where it throws. */
  function Decode(s: string): (r: Option<string>)
    ensures r.Some? ==> |r.value| <= |s|
    decreases |s|
  {
    if s == [] then Some([])
    else if s[0] != '%' then
      match Decode(s[1..])
      case None => None
      case Some(t) => Some([s[0]] + t)
    else
      match DecodeEscape(s)
      case None => None
      case Some((c, n)) =>
        match Decode(s[n..])
        case None => None
        case Some(t) => Some([c] + t)
  }
}

module UriRoundTrip {
  import opened Options
  import opened Uri

  lemma HexRoundTrip(n: int)
    requires 0 <= n < 16
    ensures HexValue(HexDigit(n)) == Some(n)
  {
  }

  lemma ReadEscapeOf(b: Byte, t: string)
    ensures ReadEscape(Escape(b) + t) == Some(b)
  {
    HexRoundTrip(b / 16);
    HexRoundTrip(b % 16);
  }

  lemma {:induction false} ReadContinuationsOf(bs: seq<Byte>, t: string)
    requires forall i :: 0 <= i < |bs| ==> IsContinuation(bs[i])
    ensures ReadContinuations(EscapeAll(bs) + t, |bs|) == Some(bs)
  {
    if bs != [] {
      var s := EscapeAll(bs) + t;
      assert s == Escape(bs[0]) + (EscapeAll(bs[1..]) + t);
      ReadEscapeOf(bs[0], EscapeAll(bs[1..]) + t);
      assert s[3..] == EscapeAll(bs[1..]) + t;
      ReadContinuationsOf(bs[1..], t);
      assert [bs[0]] + bs[1..] == bs;
    }
  }

  lemma Utf8Decodes(c: char)
    requires |Utf8(c)| >= 2
    ensures SequenceLength(Utf8(c)[0]) == |Utf8(c)|
    ensures ScalarOf(Utf8(c)) == Some(c)
  {
    var v := c as int;
    var v1 := v / 64;
    var v2 := v1 / 64;
    var v3 := v2 / 64;
    assert v == v1 * 64 + v % 64;
    assert v1 == v2 * 64 + v1 % 64;
    assert v2 == v3 * 64 + v2 % 64;
  }

  /** Decoding the escapes of one character, followed by anything, gives that character back. */
  lemma DecodeEscapeOf(c: char, t: string)
    requires !IsUnescaped(c)
    ensures DecodeEscape(EncodeChar(c) + t) == Some((c, |EncodeChar(c)|))
  {
    var bs := Utf8(c);
    var s := EncodeChar(c) + t;
    assert s == Escape(bs[0]) + (EscapeAll(bs[1..]) + t);
    ReadEscapeOf(bs[0], EscapeAll(bs[1..]) + t);
    if |bs| >= 2 {
      Utf8Decodes(c);
      assert s[3..] == EscapeAll(bs[1..]) + t;
      ReadContinuationsOf(bs[1..], t);
      assert [bs[0]] + bs[1..] == bs;
    }
  }

  /** Decoding consumes the encoding of one character and goes on with the rest. */
  lemma DecodeEncodedHead(c: char, rest: string)
    ensures Decode(EncodeChar(c) + rest) == (match Decode(rest) case None => None case Some(t) => Some([c] + t))
  {
    var e := EncodeChar(c) + rest;
    if IsUnescaped(c) {
      assert e[0] == c && e[0] != '%';
      assert e[1..] == rest;
    } else {
      DecodeEscapeOf(c, rest);
      assert e[0] == '%';
      assert e[|EncodeChar(c)|..] == rest;
    }
  }

  /** `decodeURIComponent(encodeURIComponent(s)) == s` for every string. */
  lemma {:induction false} DecodeEncode(s: string)
    ensures Decode(Encode(s)) == Some(s)
  {
    if s != [] {
      assert Encode(s) == EncodeChar(s[0]) + Encode(s[1..]);
      DecodeEncode(s[1..]);
      DecodeEncodedHead(s[0], Encode(s[1..]));
      assert [s[0]] + s[1..] == s;
    }
  }

  /** A string without `%` decodes to itself. */
  lemma {:induction false} DecodePlain(s: string)
    requires '%' !in s
    ensures Decode(s) == Some(s)
  {
    if s != [] {
      assert '%' !in s[1..];
      DecodePlain(s[1..]);
      assert [s[0]] + s[1..] == s;
    }
  }

  /** An escape that reads from `s` reads the same from any extension of `s`. */
  lemma ReadEscapeExtends(s: string, t: string)
    requires ReadEscape(s).Some?
    ensures ReadEscape(s + t) == ReadEscape(s)
  {
    assert (s + t)[..3] == s[..3];
  }

  lemma {:induction false} ReadContinuationsExtends(s: string, t: string, count: nat)
    requires ReadContinuations(s, count).Some?
    ensures ReadContinuations(s + t, count) == ReadContinuations(s, count)
    decreases count
  {
    if count > 0 {
      ReadEscapeExtends(s, t);
      assert (s + t)[3..] == s[3..] + t;
      ReadContinuationsExtends(s[3..], t, count - 1);
    }
  }

  /** A complete escape sequence decodes the same whatever follows it. */
  lemma DecodeEscapeExtends(s: string, t: string)
    requires DecodeEscape(s).Some?
    ensures DecodeEscape(s + t) == DecodeEscape(s)
  {
    ReadEscapeExtends(s, t);
    var n := SequenceLength(ReadEscape(s).value);
    if n >= 2 {
      assert (s + t)[3..] == s[3..] + t;
      ReadContinuationsExtends(s[3..], t, n - 1);
    }
  }

  /** After any decodable text, a `%` not followed by two hexadecimal digits makes decoding fail. */
  lemma {:induction false} BadEscapeFails(p: string, s: string)
    requires Decode(p).Some? && s != [] && s[0] == '%' && ReadEscape(s).None?
    ensures Decode(p + s) == None
    decreases |p|
  {
    if p == [] {
      assert p + s == s;
    } else if p[0] != '%' {
      assert (p + s)[0] == p[0];
      assert (p + s)[1..] == p[1..] + s;
      BadEscapeFails(p[1..], s);
    } else {
      var n := DecodeEscape(p).value.1;
      DecodeEscapeExtends(p, s);
      assert (p + s)[0] == '%';
      assert (p + s)[n..] == p[n..] + s;
      BadEscapeFails(p[n..], s);
    }
  }
}
