/** UTF-8 (RFC 3629) between Unicode text and bytes. `Decode` is what
    `fs.readFileSync(path, "utf8")` does to a file's bytes: the UTF-8 decoder
    of the WHATWG Encoding Standard, which turns each maximal prefix of an
    ill-formed sequence into one U+FFFD and never fails. `Encode` is the
    encoding `encodeURIComponent` applies to each character before escaping. */
module Utf8 {
  import opened Common

  /** U+FFFD REPLACEMENT CHARACTER. */
  const Replacement: char := '\U{FFFD}'

  /** The bytes of one scalar value. */
  function EncodeChar(c: char): (bs: seq<byte>)
    ensures 1 <= |bs| <= 4
    ensures |bs| == 1 <==> (c as int) < 0x80
    ensures |bs| == 1 ==> bs[0] == c as int
    ensures forall i :: 0 <= i < |bs| ==> (bs[i] < 0x80 <==> |bs| == 1)
  {
    var n := c as int;
    if n < 0x80 then [n]
    else if n < 0x800 then [0xC0 + n / 64, 0x80 + n % 64]
    else if n < 0x10000 then
      var n1 := n / 64;
      [0xE0 + n1 / 64, 0x80 + n1 % 64, 0x80 + n % 64]
    else
      var n1 := n / 64;
      var n2 := n1 / 64;
      [0xF0 + n2 / 64, 0x80 + n2 % 64, 0x80 + n1 % 64, 0x80 + n % 64]
  }

  function Encode(t: string): (bs: seq<byte>)
    ensures |bs| >= |t|
  {
    if t == [] then [] else EncodeChar(t[0]) + Encode(t[1..])
  }

  lemma {:induction false} EncodeAppend(a: string, b: string)
    ensures Encode(a + b) == Encode(a) + Encode(b)
  {
    if a == [] {
      assert a + b == b;
    } else {
      assert (a + b)[0] == a[0] && (a + b)[1..] == a[1..] + b;
      EncodeAppend(a[1..], b);
    }
  }

  predicate IsContinuation(b: byte) {
    0x80 <= b <= 0xBF
  }

  /** One step of the decoder at the start of `bs`: the character produced and how many bytes it used. */
  function DecodeStep(bs: seq<byte>): (r: (char, nat))
    requires |bs| > 0
    ensures 1 <= r.1 <= |bs|
  {
    var b0: int := bs[0];
    var b1: int := if |bs| > 1 then bs[1] else 0;
    var b2: int := if |bs| > 2 then bs[2] else 0;
    var b3: int := if |bs| > 3 then bs[3] else 0;
    if b0 < 0x80 then (b0 as char, 1)
    else if 0xC2 <= b0 <= 0xDF then
      if |bs| < 2 || !IsContinuation(bs[1]) then (Replacement, 1)
      else (((b0 - 0xC0) * 64 + (b1 - 0x80)) as char, 2)
    else if 0xE0 <= b0 <= 0xEF then
      var lo := if b0 == 0xE0 then 0xA0 else 0x80;
      var hi := if b0 == 0xED then 0x9F else 0xBF;
      if |bs| < 2 || !(lo <= bs[1] <= hi) then (Replacement, 1)
      else if |bs| < 3 || !IsContinuation(bs[2]) then (Replacement, 2)
      else ((((b0 - 0xE0) * 64 + (b1 - 0x80)) * 64 + (b2 - 0x80)) as char, 3)
    else if 0xF0 <= b0 <= 0xF4 then
      var lo := if b0 == 0xF0 then 0x90 else 0x80;
      var hi := if b0 == 0xF4 then 0x8F else 0xBF;
      if |bs| < 2 || !(lo <= bs[1] <= hi) then (Replacement, 1)
      else if |bs| < 3 || !IsContinuation(bs[2]) then (Replacement, 2)
      else if |bs| < 4 || !IsContinuation(bs[3]) then (Replacement, 3)
      else (((((b0 - 0xF0) * 64 + (b1 - 0x80)) * 64 + (b2 - 0x80)) * 64 + (b3 - 0x80)) as char, 4)
    else (Replacement, 1)
  }

  function Decode(bs: seq<byte>): (t: string)
    ensures |t| <= |bs|
    decreases |bs|
  {
    if bs == [] then []
    else
      var (c, n) := DecodeStep(bs);
      [c] + Decode(bs[n..])
  }

  lemma TwoBytes(n: int)
    requires 0x80 <= n < 0x800
    ensures 0xC2 <= 0xC0 + n / 64 <= 0xDF
    ensures (n / 64) * 64 + n % 64 == n
  {
  }

  lemma ThreeBytes(n: int)
    requires 0x800 <= n < 0x10000 && (n < 0xD800 || 0xE000 <= n)
    ensures var n1 := n / 64;
            && 0 <= n1 / 64 <= 15
            && (n1 / 64 == 0 ==> n1 % 64 >= 0x20)
            && (n1 / 64 == 0xD ==> n1 % 64 < 0x20)
            && ((n1 / 64) * 64 + n1 % 64) * 64 + n % 64 == n
  {
    var n1 := n / 64;
    assert n == n1 * 64 + n % 64;
    assert n1 == (n1 / 64) * 64 + n1 % 64;
  }

  lemma FourBytes(n: int)
    requires 0x10000 <= n <= 0x10FFFF
    ensures var n1 := n / 64;
            var n2 := n1 / 64;
            && 0 <= n2 / 64 <= 4
            && (n2 / 64 == 0 ==> n2 % 64 >= 0x10)
            && (n2 / 64 == 4 ==> n2 % 64 < 0x10)
            && (((n2 / 64) * 64 + n2 % 64) * 64 + n1 % 64) * 64 + n % 64 == n
  {
    var n1 := n / 64;
    var n2 := n1 / 64;
    assert n == n1 * 64 + n % 64;
    assert n1 == n2 * 64 + n1 % 64;
    assert n2 == (n2 / 64) * 64 + n2 % 64;
  }

  /** The decoder reads back exactly one encoded character. */
  lemma DecodeStepEncodeChar(c: char, rest: seq<byte>)
    ensures DecodeStep(EncodeChar(c) + rest) == (c, |EncodeChar(c)|)
  {
    var n := c as int;
    var bs := EncodeChar(c) + rest;
    if n < 0x80 {
    } else if n < 0x800 {
      TwoBytes(n);
    } else if n < 0x10000 {
      ThreeBytes(n);
    } else {
      FourBytes(n);
    }
  }

  /** Decoding the UTF-8 encoding of any text gives back that text. */
  lemma {:induction false} DecodeEncode(t: string)
    ensures Decode(Encode(t)) == t
  {
    if t != [] {
      var e := EncodeChar(t[0]);
      DecodeStepEncodeChar(t[0], Encode(t[1..]));
      DecodeEncode(t[1..]);
      assert (e + Encode(t[1..]))[|e|..] == Encode(t[1..]);
    }
  }
}
