/**
 * JavaScript's `encodeURIComponent` and `decodeURIComponent`: percent-encoding
 * (section 2.1 of RFC 3986) of the UTF-8 bytes of every character outside the
 * unreserved set of section 2.3 of RFC 3986 widened by `! * ' ( )`.
 *
 * A Dafny `char` is a Unicode scalar value, so a string here never holds the
 * lone surrogate on which `encodeURIComponent` throws.
 */
module UriEncoding {
  import opened Wrappers

  /** The characters `encodeURIComponent` leaves as they are. */
  predicate IsUnreserved(c: char) {
    || ('A' <= c <= 'Z') || ('a' <= c <= 'z') || ('0' <= c <= '9')
    || c == '-' || c == '_' || c == '.' || c == '~'
    || c == '!' || c == '*' || c == '\'' || c == '(' || c == ')'
  }

  predicate IsUpperHexDigit(c: char) {
    ('0' <= c <= '9') || ('A' <= c <= 'F')
  }

  /** The upper-case hexadecimal digit for `d`. */
  function HexDigit(d: nat): (c: char)
    requires d < 16
    ensures IsUpperHexDigit(c)
  {
    if d < 10 then (48 + d) as char else (55 + d) as char
  }

  /** The value of a hexadecimal digit of either case. */
  function HexValue(c: char): (v: Option<nat>)
    ensures v.Some? ==> v.value < 16
    ensures IsUpperHexDigit(c) ==> v.Some?
  {
    if '0' <= c <= '9' then Some(c as int - 48)
    else if 'A' <= c <= 'F' then Some(c as int - 55)
    else if 'a' <= c <= 'f' then Some(c as int - 87)
    else None
  }

  predicate IsByte(b: nat) {
    b < 256
  }

  /** The UTF-8 bytes of a scalar value. */
  function Utf8(c: char): (bytes: seq<nat>)
    ensures 1 <= |bytes| <= 4
    ensures forall i :: 0 <= i < |bytes| ==> IsByte(bytes[i])
    ensures |bytes| == 1 <==> c as int < 0x80
  {
    var cp := c as int;
    if cp < 0x80 then [cp]
    else if cp < 0x800 then [0xC0 + cp / 64, 0x80 + cp % 64]
    else if cp < 0x10000 then [0xE0 + cp / 4096, 0x80 + cp / 64 % 64, 0x80 + cp % 64]
    else [0xF0 + cp / 262144, 0x80 + cp / 4096 % 64, 0x80 + cp / 64 % 64, 0x80 + cp % 64]
  }

  /** The byte `b` written as `%XY`. */
  function Escape(b: nat): (e: string)
    requires IsByte(b)
  {
    ['%', HexDigit(b / 16), HexDigit(b % 16)]
  }

  function EscapeAll(bytes: seq<nat>): (e: string)
    requires forall i :: 0 <= i < |bytes| ==> IsByte(bytes[i])
  {
    if bytes == [] then [] else Escape(bytes[0]) + EscapeAll(bytes[1..])
  }

  function EncodeChar(c: char): string {
    if IsUnreserved(c) then [c] else EscapeAll(Utf8(c))
  }

  /** `encodeURIComponent(s)`. */
  function Encode(s: string): string {
    if s == [] then [] else EncodeChar(s[0]) + Encode(s[1..])
  }

  /** The byte written as `%XY` at index `i` of `e`, if there is one. */
  function EscapedByte(e: string, i: nat): (b: Option<nat>)
    ensures b.Some? ==> i + 3 <= |e| && IsByte(b.value)
  {
    if i + 3 <= |e| && e[i] == '%' && HexValue(e[i + 1]).Some? && HexValue(e[i + 2]).Some?
    then Some(16 * HexValue(e[i + 1]).value + HexValue(e[i + 2]).value)
    else None
  }

  predicate IsContinuation(b: Option<nat>) {
    b.Some? && 0x80 <= b.value < 0xC0
  }

  /**
   * The character with code point `cp`, read from `len` characters of
   * escapes, provided `cp` is a scalar value not written with more bytes than
   * it needs (`min` is the least code point of that byte count).
   */
  function ScalarFrom(cp: int, min: int, len: nat): Option<(char, nat)> {
    if min <= cp && (0 <= cp < 0xD800 || 0xE000 <= cp < 0x110000) then Some((cp as char, len)) else None
  }

  /**
   * Decodes the escapes at the head of `e` that spell one character in UTF-8;
   * gives the character and the number of characters of `e` it takes.
   */
  function DecodeEscape(e: string): (r: Option<(char, nat)>)
    ensures r.Some? ==> 3 <= r.value.1 <= |e|
  {
    match EscapedByte(e, 0)
    case None => None
    case Some(b1) =>
      var b2, b3, b4 := EscapedByte(e, 3), EscapedByte(e, 6), EscapedByte(e, 9);
      if b1 < 0x80 then
        Some((b1 as char, 3))
      else if 0xC0 <= b1 < 0xE0 && IsContinuation(b2) then
        ScalarFrom((b1 - 0xC0) * 64 + (b2.value - 0x80), 0x80, 6)
      else if 0xE0 <= b1 < 0xF0 && IsContinuation(b2) && IsContinuation(b3) then
        ScalarFrom(((b1 - 0xE0) * 64 + (b2.value - 0x80)) * 64 + (b3.value - 0x80), 0x800, 9)
      else if 0xF0 <= b1 < 0xF8 && IsContinuation(b2) && IsContinuation(b3) && IsContinuation(b4) then
        ScalarFrom((((b1 - 0xF0) * 64 + (b2.value - 0x80)) * 64 + (b3.value - 0x80)) * 64 + (b4.value - 0x80), 0x10000, 12)
      else
        None
  }

  function Prepend(c: char, rest: Option<string>): Option<string> {
    match rest
    case None => None
    case Some(s) => Some([c] + s)
  }

  /** `decodeURIComponent(e)`, with `None` where it throws a URIError. */
  function Decode(e: string): Option<string>
    decreases |e|
  {
    if e == [] then Some([])
    else if e[0] != '%' then Prepend(e[0], Decode(e[1..]))
    else match DecodeEscape(e)
      case None => None
      case Some((c, n)) => Prepend(c, Decode(e[n..]))
  }

  // ---------------------------------------------------------------------------
  // Properties of the encoding

  lemma HexRoundTrip(b: nat)
    requires IsByte(b)
    ensures HexValue(HexDigit(b / 16)) == Some(b / 16)
    ensures HexValue(HexDigit(b % 16)) == Some(b % 16)
  {
  }

  lemma EscapedByteShift(p: string, x: string, i: nat)
    ensures EscapedByte(p + x, |p| + i) == EscapedByte(x, i)
  {
    var e := p + x;
    if |p| + i + 3 <= |e| {
      assert e[|p| + i] == x[i] && e[|p| + i + 1] == x[i + 1] && e[|p| + i + 2] == x[i + 2];
    }
  }

  /** The `k`-th triple of `EscapeAll(bytes)` reads back as `bytes[k]`. */
  lemma {:induction false} EscapeAllAt(bytes: seq<nat>, rest: string, k: nat)
    requires forall i :: 0 <= i < |bytes| ==> IsByte(bytes[i])
    requires k < |bytes|
    ensures |EscapeAll(bytes)| == 3 * |bytes|
    ensures EscapedByte(EscapeAll(bytes) + rest, 3 * k) == Some(bytes[k])
    decreases |bytes|
  {
    var head := Escape(bytes[0]);
    assert EscapeAll(bytes) + rest == head + (EscapeAll(bytes[1..]) + rest);
    if k == 0 {
      HexRoundTrip(bytes[0]);
      if |bytes| > 1 {
        EscapeAllAt(bytes[1..], rest, 0);
      }
    } else {
      EscapeAllAt(bytes[1..], rest, k - 1);
      EscapedByteShift(head, EscapeAll(bytes[1..]) + rest, 3 * (k - 1));
    }
  }

  /** The escapes of a character's UTF-8 bytes decode back to that character. */
  lemma DecodeEscapeOfChar(c: char, rest: string)
    requires !IsUnreserved(c)
    ensures DecodeEscape(EncodeChar(c) + rest) == Some((c, |EncodeChar(c)|))
  {
    var bytes := Utf8(c);
    var cp := c as int;
    EscapeAllAt(bytes, rest, 0);
    if cp < 0x80 {
    } else if cp < 0x800 {
      EscapeAllAt(bytes, rest, 1);
      DecodeTwoBytes(c, EncodeChar(c) + rest);
    } else if cp < 0x10000 {
      EscapeAllAt(bytes, rest, 1);
      EscapeAllAt(bytes, rest, 2);
      DecodeThreeBytes(c, EncodeChar(c) + rest);
    } else {
      EscapeAllAt(bytes, rest, 1);
      EscapeAllAt(bytes, rest, 2);
      EscapeAllAt(bytes, rest, 3);
      DecodeFourBytes(c, EncodeChar(c) + rest);
    }
  }

  lemma DecodeTwoBytes(c: char, e: string)
    requires 0x80 <= c as int < 0x800 && |e| >= 6
    requires EscapedByte(e, 0) == Some(Utf8(c)[0]) && EscapedByte(e, 3) == Some(Utf8(c)[1])
    ensures DecodeEscape(e) == Some((c, 6))
  {
    var cp := c as int;
    assert (cp / 64) * 64 + cp % 64 == cp;
  }

  lemma DecodeThreeBytes(c: char, e: string)
    requires 0x800 <= c as int < 0x10000 && |e| >= 9
    requires EscapedByte(e, 0) == Some(Utf8(c)[0]) && EscapedByte(e, 3) == Some(Utf8(c)[1])
    requires EscapedByte(e, 6) == Some(Utf8(c)[2])
    ensures DecodeEscape(e) == Some((c, 9))
  {
    var cp := c as int;
    var hi := cp / 64;
    assert (hi / 64) * 64 + hi % 64 == hi;
    assert hi / 64 == cp / 4096;
    assert hi * 64 + cp % 64 == cp;
  }

  lemma DecodeFourBytes(c: char, e: string)
    requires 0x10000 <= c as int && |e| >= 12
    requires EscapedByte(e, 0) == Some(Utf8(c)[0]) && EscapedByte(e, 3) == Some(Utf8(c)[1])
    requires EscapedByte(e, 6) == Some(Utf8(c)[2]) && EscapedByte(e, 9) == Some(Utf8(c)[3])
    ensures DecodeEscape(e) == Some((c, 12))
  {
    var cp := c as int;
    var hi := cp / 64;
    var top := hi / 64;
    assert top == cp / 4096 && top / 64 == cp / 262144;
    assert (top / 64) * 64 + top % 64 == top;
    assert top * 64 + hi % 64 == hi;
    assert hi * 64 + cp % 64 == cp;
  }

  /** `decodeURIComponent(encodeURIComponent(s)) == s`. */
  lemma {:induction false} DecodeEncode(s: string)
    ensures Decode(Encode(s)) == Some(s)
  {
    if s != [] {
      var e := Encode(s);
      var head := EncodeChar(s[0]);
      DecodeEncode(s[1..]);
      if IsUnreserved(s[0]) {
        assert e[1..] == Encode(s[1..]);
      } else {
        DecodeEscapeOfChar(s[0], Encode(s[1..]));
        assert e[|head|..] == Encode(s[1..]);
      }
      assert [s[0]] + s[1..] == s;
    }
  }

  /** Different names never share an encoding. */
  lemma EncodeInjective(s: string, t: string)
    requires Encode(s) == Encode(t)
    ensures s == t
  {
    DecodeEncode(s);
    DecodeEncode(t);
  }

  /** Every character of an encoding is unreserved, `%` or an upper-case hex digit. */
  predicate IsEncodedText(e: string) {
    forall i :: 0 <= i < |e| ==> IsUnreserved(e[i]) || e[i] == '%' || IsUpperHexDigit(e[i])
  }

  lemma {:induction false} EscapeAllAlphabet(bytes: seq<nat>)
    requires forall i :: 0 <= i < |bytes| ==> IsByte(bytes[i])
    ensures IsEncodedText(EscapeAll(bytes))
    decreases |bytes|
  {
    if bytes != [] {
      EscapeAllAlphabet(bytes[1..]);
    }
  }

  /** An encoded name holds no `/`, so it stays one path segment of a URL. */
  lemma {:induction false} EncodeAlphabet(s: string)
    ensures IsEncodedText(Encode(s))
    ensures '/' !in Encode(s)
  {
    if s != [] {
      EncodeAlphabet(s[1..]);
      if !IsUnreserved(s[0]) {
        EscapeAllAlphabet(Utf8(s[0]));
      }
    }
  }

  /** A name made of unreserved characters only is its own encoding, and only such a name is. */
  lemma {:induction false} EncodeIdentity(s: string)
    ensures Encode(s) == s <==> forall i :: 0 <= i < |s| ==> IsUnreserved(s[i])
    ensures |Encode(s)| >= |s|
  {
    if s != [] {
      EncodeIdentity(s[1..]);
      if !IsUnreserved(s[0]) {
        EscapeAllAt(Utf8(s[0]), [], 0);
        assert |Encode(s)| > |s|;
      } else {
        assert s == [s[0]] + s[1..];
        if Encode(s) == s {
          assert Encode(s[1..]) == s[1..];
        }
      }
    }
  }
}
