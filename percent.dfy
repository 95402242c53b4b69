/** Percent-encoding, section 2.1 of RFC 3986: an octet outside a kept set
    becomes `%` and two upper-case hexadecimal digits. `EncodeUriComponent`
    is ECMA-262's `encodeURIComponent`; `Decode` is the inverse used to state
    round trips. */
module PercentEncoding {
  import opened Common
  import Utf8

  /** The characters `encodeURIComponent` leaves alone: letters, digits and `- _ . ! ~ * ' ( )`. */
  predicate IsUnescaped(c: char) {
    ('A' <= c <= 'Z') || ('a' <= c <= 'z') || ('0' <= c <= '9')
    || c == '-' || c == '_' || c == '.' || c == '!' || c == '~' || c == '*' || c == '\'' || c == '(' || c == ')'
  }

  /** A set of characters an encoder may leave literal: ASCII only, and never `%`. */
  ghost predicate IsKeepSet(keep: char -> bool) {
    forall c :: keep(c) ==> (c as int) < 0x80 && c != '%'
  }

  function HexDigit(v: int): (c: char)
    requires 0 <= v < 16
    ensures ('0' <= c <= '9') || ('A' <= c <= 'F')
  {
    if v < 10 then ('0' as int + v) as char else ('A' as int + v - 10) as char
  }

  /** The value of a hexadecimal digit of either case. */
  function HexValue(c: char): (r: Option<int>)
    ensures r.Some? ==> 0 <= r.value < 16
    ensures r.Some? <==> ('0' <= c <= '9') || ('A' <= c <= 'F') || ('a' <= c <= 'f')
  {
    if '0' <= c <= '9' then Some(c as int - '0' as int)
    else if 'A' <= c <= 'F' then Some(c as int - 'A' as int + 10)
    else if 'a' <= c <= 'f' then Some(c as int - 'a' as int + 10)
    else None
  }

  lemma HexValueOfDigit(v: int)
    requires 0 <= v < 16
    ensures HexValue(HexDigit(v)) == Some(v)
  {
  }

  /** `%XY` for one octet. */
  function Escape(b: byte): (s: string)
    ensures |s| == 3 && s[0] == '%'
    ensures ('0' <= s[1] <= '9' || 'A' <= s[1] <= 'F') && ('0' <= s[2] <= '9' || 'A' <= s[2] <= 'F')
  {
    ['%', HexDigit(b / 16), HexDigit(b % 16)]
  }

  /** One octet: itself when `keep` admits it, escaped otherwise. */
  function EncodeOctet(b: byte, keep: char -> bool): string {
    if b < 0x80 && keep(b as char) then [b as char] else Escape(b)
  }

  /** Characters the encoding of octets may contain beside the kept ones. */
  predicate IsEscapeChar(c: char) {
    c == '%' || ('0' <= c <= '9') || ('A' <= c <= 'F')
  }

  function EncodeOctets(bs: seq<byte>, keep: char -> bool): (s: string)
    ensures forall i :: 0 <= i < |s| ==> keep(s[i]) || IsEscapeChar(s[i])
  {
    if bs == [] then [] else EncodeOctet(bs[0], keep) + EncodeOctets(bs[1..], keep)
  }

  lemma {:induction false} EncodeOctetsAppend(a: seq<byte>, b: seq<byte>, keep: char -> bool)
    ensures EncodeOctets(a + b, keep) == EncodeOctets(a, keep) + EncodeOctets(b, keep)
  {
    if a == [] {
      assert a + b == b;
    } else {
      assert (a + b)[0] == a[0] && (a + b)[1..] == a[1..] + b;
      EncodeOctetsAppend(a[1..], b, keep);
    }
  }

  /** ECMA-262 `encodeURIComponent`: a character outside the unescaped set becomes its UTF-8 octets, escaped.
      (It throws only on a lone surrogate, which a Dafny `char` cannot hold.) */
  function EncodeUriComponent(t: string): string {
    if t == [] then []
    else (if IsUnescaped(t[0]) then [t[0]] else EncodeOctets(Utf8.EncodeChar(t[0]), IsUnescaped))
         + EncodeUriComponent(t[1..])
  }

  /** `encodeURIComponent` is the percent-encoding of the text's UTF-8 bytes, keeping the unescaped set. */
  lemma {:induction false} EncodeUriComponentIsPercentEncoding(t: string)
    ensures EncodeUriComponent(t) == EncodeOctets(Utf8.Encode(t), IsUnescaped)
  {
    if t != [] {
      var e := Utf8.EncodeChar(t[0]);
      EncodeUriComponentIsPercentEncoding(t[1..]);
      EncodeOctetsAppend(e, Utf8.Encode(t[1..]), IsUnescaped);
      if IsUnescaped(t[0]) {
        assert e == [t[0] as int];
        assert (t[0] as int) as char == t[0];
        assert EncodeOctets(e, IsUnescaped) == [t[0]];
      }
    }
  }

  /** Percent-decoding to octets: `%XY` is one octet, any other ASCII character stands for itself. */
  function Decode(s: string): (r: Option<seq<byte>>)
    decreases |s|
  {
    if s == [] then Some([])
    else if s[0] == '%' then
      if |s| >= 3 && HexValue(s[1]).Some? && HexValue(s[2]).Some? then
        match Decode(s[3..])
        case None => None
        case Some(rest) => Some([HexValue(s[1]).value * 16 + HexValue(s[2]).value] + rest)
      else None
    else if (s[0] as int) < 0x80 then
      match Decode(s[1..])
      case None => None
      case Some(rest) => Some([s[0] as int] + rest)
    else None
  }

  lemma DecodeOctet(b: byte, keep: char -> bool, rest: string, tail: seq<byte>)
    requires IsKeepSet(keep)
    requires Decode(rest) == Some(tail)
    ensures Decode(EncodeOctet(b, keep) + rest) == Some([b] + tail)
  {
    var s := EncodeOctet(b, keep) + rest;
    if b < 0x80 && keep(b as char) {
      assert s[0] == b as char && s[1..] == rest;
    } else {
      HexValueOfDigit(b / 16);
      HexValueOfDigit(b % 16);
      assert s[..3] == Escape(b) && s[3..] == rest;
    }
  }

  /** Percent-decoding undoes percent-encoding, whatever set of characters was kept. */
  lemma {:induction false} DecodeEncodeOctets(bs: seq<byte>, keep: char -> bool)
    requires IsKeepSet(keep)
    ensures Decode(EncodeOctets(bs, keep)) == Some(bs)
  {
    if bs != [] {
      DecodeEncodeOctets(bs[1..], keep);
      DecodeOctet(bs[0], keep, EncodeOctets(bs[1..], keep), bs[1..]);
      assert [bs[0]] + bs[1..] == bs;
    }
  }
}
