/**
  `encodeURIComponent` as ECMA-262 defines it (section 19.2.6.4 of ECMAScript
  2024 and the abstract operation Encode of section 19.2.6.5 that it calls):
  every code point outside
  the unescaped set is written as its UTF-8 octets, each octet as `%` and two
  upper-case hexadecimal digits (the percent-encoding of section 2.1 of
  RFC 3986). `Decode` is the matching `decodeURIComponent`; the round trip
  `Decode(Encode(s)) == Some(s)` makes the encoding injective.
*/
module UriComponent {
  import opened Wrappers

  type Byte = x: int | 0 <= x < 256
  type Nibble = x: int | 0 <= x < 16

  /** The characters `encodeURIComponent` leaves alone: ASCII letters, digits and `-_.!~*'()`. */
  predicate Unescaped(c: char) {
    || ('A' <= c <= 'Z')
    || ('a' <= c <= 'z')
    || ('0' <= c <= '9')
    || c in "-_.!~*'()"
  }

  /** Upper-case hexadecimal digit for `d`. */
  function HexDigit(d: Nibble): (c: char)
    ensures Unescaped(c)
  {
    if d < 10 then ('0' as int + d) as char else ('A' as int + d - 10) as char
  }

  /** The value of a hexadecimal digit of either case (decoding accepts both). */
  function HexValue(c: char): Option<Nibble> {
    if '0' <= c <= '9' then Some(c as int - '0' as int)
    else if 'A' <= c <= 'F' then Some(c as int - 'A' as int + 10)
    else if 'a' <= c <= 'f' then Some(c as int - 'a' as int + 10)
    else None
  }

  /** The UTF-8 octets of one code point (ECMA-262 UTF8EncodeCodePoint / RFC 3629). */
  function Utf8(c: char): (bytes: seq<Byte>)
    ensures 1 <= |bytes| <= 4
  {
    var cp := c as int;
    if cp < 0x80 then [cp]
    else if cp < 0x800 then [0xC0 + cp / 64, 0x80 + cp % 64]
    else if cp < 0x1_0000 then [0xE0 + cp / 64 / 64, 0x80 + cp / 64 % 64, 0x80 + cp % 64]
    else [0xF0 + cp / 64 / 64 / 64, 0x80 + cp / 64 / 64 % 64, 0x80 + cp / 64 % 64, 0x80 + cp % 64]
  }

  /** One octet as `%XY`. */
  function EscapeByte(b: Byte): string {
    ['%', HexDigit(b / 16), HexDigit(b % 16)]
  }

  function Escape(bytes: seq<Byte>): (s: string)
    ensures |s| == 3 * |bytes|
  {
    if bytes == [] then [] else EscapeByte(bytes[0]) + Escape(bytes[1..])
  }

  function EncodeChar(c: char): string {
    if Unescaped(c) then [c] else Escape(Utf8(c))
  }

  /** `encodeURIComponent(s)`. */
  function Encode(s: string): string {
    if s == [] then [] else EncodeChar(s[0]) + Encode(s[1..])
  }

  /** Every character of the output is unescaped or `%`: no `&`, `=`, `#`, `+` or space survives. */
  lemma {:induction false} EncodeIsQuerySafe(s: string)
    ensures forall i :: 0 <= i < |Encode(s)| ==> Unescaped(Encode(s)[i]) || Encode(s)[i] == '%'
  {
    if s != [] {
      EncodeIsQuerySafe(s[1..]);
      var e := EncodeChar(s[0]);
      if !Unescaped(s[0]) {
        EscapeIsQuerySafe(Utf8(s[0]));
      }
      assert Encode(s) == e + Encode(s[1..]);
    }
  }

  lemma {:induction false} EscapeIsQuerySafe(bytes: seq<Byte>)
    ensures forall i :: 0 <= i < |Escape(bytes)| ==> Unescaped(Escape(bytes)[i]) || Escape(bytes)[i] == '%'
  {
    if bytes != [] {
      EscapeIsQuerySafe(bytes[1..]);
    }
  }

  // ---------------------------------------------------------------------------
  // decodeURIComponent

  /** Number of octets announced by a UTF-8 lead octet; 0 for an octet that cannot lead. */
  function LeadLength(b: Byte): nat {
    if b < 0x80 then 1
    else if b < 0xC0 then 0
    else if b < 0xE0 then 2
    else if b < 0xF0 then 3
    else if b < 0xF8 then 4
    else 0
  }

  predicate IsContinuation(b: Byte) {
    0x80 <= b < 0xC0
  }

  /** The octet written as `%XY` at the start of `s`, if there is one. */
  function EscapedByte(s: string): (r: Option<Byte>)
    ensures r.Some? ==> |s| >= 3 && s[0] == '%'
  {
    if |s| < 3 || s[0] != '%' then None
    else match (HexValue(s[1]), HexValue(s[2]))
      case (Some(hi), Some(lo)) => var b: Byte := hi as int * 16 + lo as int; Some(b)
      case _ => None
  }

  /** `n` consecutive `%XY` escapes at the start of `s`. */
  function EscapedBytes(s: string, n: nat): (r: Option<seq<Byte>>)
    ensures r.Some? ==> |r.value| == n && |s| >= 3 * n
    decreases n
  {
    if n == 0 then Some([])
    else match EscapedByte(s)
      case None => None
      case Some(b) =>
        match EscapedBytes(s[3..], n - 1)
        case None => None
        case Some(rest) => Some([b] + rest)
  }

  /** The code point of a well-formed UTF-8 sequence; `None` for a malformed, overlong or surrogate one. */
  function Utf8Decode(bytes: seq<Byte>): Option<char> {
    if |bytes| == 1 && bytes[0] < 0x80 then
      Some(bytes[0] as char)
    else if |bytes| == 2 && 0xC0 <= bytes[0] < 0xE0 && IsContinuation(bytes[1]) then
      var cp := (bytes[0] as int - 0xC0) * 64 + (bytes[1] as int - 0x80);
      if cp < 0x80 then None else Some(cp as char)
    else if |bytes| == 3 && 0xE0 <= bytes[0] < 0xF0 && IsContinuation(bytes[1]) && IsContinuation(bytes[2]) then
      var cp := (bytes[0] as int - 0xE0) * 4096 + (bytes[1] as int - 0x80) * 64 + (bytes[2] as int - 0x80);
      if cp < 0x800 || (0xD800 <= cp < 0xE000) then None else Some(cp as char)
    else if |bytes| == 4 && 0xF0 <= bytes[0] < 0xF8
      && IsContinuation(bytes[1]) && IsContinuation(bytes[2]) && IsContinuation(bytes[3]) then
      var cp := (bytes[0] as int - 0xF0) * 262144 + (bytes[1] as int - 0x80) * 4096 + (bytes[2] as int - 0x80) * 64 + (bytes[3] as int - 0x80);
      if cp < 0x1_0000 || cp > 0x10_FFFF then None else Some(cp as char)
    else None
  }

  function Cons(c: char, rest: Option<string>): Option<string> {
    match rest
    case None => None
    case Some(t) => Some([c] + t)
  }

  /** `decodeURIComponent(s)`; `None` where it throws `URIError`. */
  function Decode(s: string): Option<string>
    decreases |s|
  {
    if s == [] then Some([])
    else if s[0] != '%' then Cons(s[0], Decode(s[1..]))
    else match EscapedByte(s)
      case None => None
      case Some(lead) =>
        var n := LeadLength(lead);
        if n == 0 then None
        else match EscapedBytes(s, n)
          case None => None
          case Some(bytes) =>
            match Utf8Decode(bytes)
            case None => None
            case Some(c) => Cons(c, Decode(s[3 * n..]))
  }

  // ---------------------------------------------------------------------------
  // The round trip

  lemma EscapedByteOfEscape(b: Byte, rest: string)
    ensures EscapedByte(EscapeByte(b) + rest) == Some(b)
  {
  }

  lemma {:induction false} EscapedBytesOfEscape(bytes: seq<Byte>, rest: string)
    ensures EscapedBytes(Escape(bytes) + rest, |bytes|) == Some(bytes)
  {
    if bytes != [] {
      var tail := Escape(bytes[1..]) + rest;
      var s := Escape(bytes) + rest;
      assert s == EscapeByte(bytes[0]) + tail;
      EscapedByteOfEscape(bytes[0], tail);
      assert s[3..] == tail;
      EscapedBytesOfEscape(bytes[1..], rest);
      assert EscapedBytes(tail, |bytes| - 1) == Some(bytes[1..]);
      assert [bytes[0]] + bytes[1..] == bytes;
    }
  }

  /** UTF-8 decoding undoes UTF-8 encoding, and the lead octet announces the right length. */
  lemma Utf8RoundTrip(c: char)
    ensures LeadLength(Utf8(c)[0]) == |Utf8(c)|
    ensures Utf8Decode(Utf8(c)) == Some(c)
  {
    var cp := c as int;
    if cp < 0x80 {
    } else if cp < 0x800 {
      Utf8TwoOctets(c);
    } else if cp < 0x1_0000 {
      Utf8ThreeOctets(c);
    } else {
      Utf8FourOctets(c);
    }
  }

  lemma Utf8TwoOctets(c: char)
    requires 0x80 <= c as int < 0x800
    ensures LeadLength(Utf8(c)[0]) == 2
    ensures Utf8Decode(Utf8(c)) == Some(c)
  {
    var cp := c as int;
    var bytes := Utf8(c);
    assert bytes == [0xC0 + cp / 64, 0x80 + cp % 64];
    assert (bytes[0] as int - 0xC0) * 64 + (bytes[1] as int - 0x80) == cp;
  }

  lemma Utf8ThreeOctets(c: char)
    requires 0x800 <= c as int < 0x1_0000
    ensures LeadLength(Utf8(c)[0]) == 3
    ensures Utf8Decode(Utf8(c)) == Some(c)
  {
    var cp := c as int;
    var bytes := Utf8(c);
    var q := cp / 64;
    assert cp == q * 64 + cp % 64;
    assert q == q / 64 * 64 + q % 64;
    assert bytes == [0xE0 + q / 64, 0x80 + q % 64, 0x80 + cp % 64];
  }

  lemma Utf8FourOctets(c: char)
    requires 0x1_0000 <= c as int
    ensures LeadLength(Utf8(c)[0]) == 4
    ensures Utf8Decode(Utf8(c)) == Some(c)
  {
    var cp := c as int;
    var bytes := Utf8(c);
    var q := cp / 64;
    var r := q / 64;
    assert cp == q * 64 + cp % 64;
    assert q == r * 64 + q % 64;
    assert r == r / 64 * 64 + r % 64;
    assert bytes == [0xF0 + r / 64, 0x80 + r % 64, 0x80 + q % 64, 0x80 + cp % 64];
  }

  lemma DecodeEncodeChar(c: char, rest: string)
    ensures Decode(EncodeChar(c) + rest) == Cons(c, Decode(rest))
  {
    if Unescaped(c) {
      var s := [c] + rest;
      assert s[0] == c && s[1..] == rest;
    } else {
      DecodeEscaped(c, rest);
    }
  }

  lemma DecodeEscaped(c: char, rest: string)
    ensures Decode(Escape(Utf8(c)) + rest) == Cons(c, Decode(rest))
  {
    var bytes := Utf8(c);
    var n := |bytes|;
    var s := Escape(bytes) + rest;
    assert s == EscapeByte(bytes[0]) + (Escape(bytes[1..]) + rest);
    EscapedByteOfEscape(bytes[0], Escape(bytes[1..]) + rest);
    assert s[0] == '%';
    assert EscapedByte(s) == Some(bytes[0]);
    Utf8RoundTrip(c);
    assert LeadLength(bytes[0]) == n;
    EscapedBytesOfEscape(bytes, rest);
    assert EscapedBytes(s, n) == Some(bytes);
    assert s[3 * n..] == rest;
  }

  /** `decodeURIComponent(encodeURIComponent(s)) == s`. */
  lemma {:induction false} DecodeEncode(s: string)
    ensures Decode(Encode(s)) == Some(s)
  {
    if s != [] {
      DecodeEncode(s[1..]);
      DecodeEncodeChar(s[0], Encode(s[1..]));
      assert [s[0]] + s[1..] == s;
    }
  }

  /** Different strings have different encodings. */
  lemma EncodeInjective(s: string, t: string)
    requires Encode(s) == Encode(t)
    ensures s == t
  {
    DecodeEncode(s);
    DecodeEncode(t);
  }
}
