/** Base64 with the standard alphabet and `=` padding, section 4 of RFC 4648:
    what `Buffer.prototype.toString("base64")` produces. `Decode` is the strict
    inverse used to state the round trip: it accepts only canonical text
    (length a multiple of four, padding only at the end, unused bits zero). */
module Base64 {
  import opened Common

  predicate IsAlphabetChar(c: char) {
    ('A' <= c <= 'Z') || ('a' <= c <= 'z') || ('0' <= c <= '9') || c == '+' || c == '/'
  }

  /** The 64-character alphabet of Table 1 of RFC 4648. */
  function CharOf(i: int): (c: char)
    requires 0 <= i < 64
    ensures IsAlphabetChar(c)
  {
    if i < 26 then ('A' as int + i) as char
    else if i < 52 then ('a' as int + i - 26) as char
    else if i < 62 then ('0' as int + i - 52) as char
    else if i == 62 then '+'
    else '/'
  }

  /** The value an alphabet character stands for. */
  function ValueOf(c: char): (v: int)
    requires IsAlphabetChar(c)
    ensures 0 <= v < 64 && CharOf(v) == c
  {
    if 'A' <= c <= 'Z' then c as int - 'A' as int
    else if 'a' <= c <= 'z' then c as int - 'a' as int + 26
    else if '0' <= c <= '9' then c as int - '0' as int + 52
    else if c == '+' then 62
    else 63
  }

  lemma ValueOfCharOf(i: int)
    requires 0 <= i < 64
    ensures ValueOf(CharOf(i)) == i
  {
  }

  /** Three bytes as four characters. */
  function EncodeGroup(a: byte, b: byte, c: byte): string {
    [CharOf(a / 4), CharOf((a % 4) * 16 + b / 16), CharOf((b % 16) * 4 + c / 64), CharOf(c % 64)]
  }

  /** The padded final group for one or two remaining bytes. */
  function EncodeTail(bs: seq<byte>): string
    requires 1 <= |bs| <= 2
  {
    if |bs| == 1 then [CharOf(bs[0] / 4), CharOf((bs[0] % 4) * 16), '=', '=']
    else [CharOf(bs[0] / 4), CharOf((bs[0] % 4) * 16 + bs[1] / 16), CharOf((bs[1] % 16) * 4), '=']
  }

  /** Characters a base64 text may contain. */
  predicate IsEncodingChar(c: char) {
    IsAlphabetChar(c) || c == '='
  }

  predicate IsEncodingText(s: string) {
    forall i :: 0 <= i < |s| ==> IsEncodingChar(s[i])
  }

  lemma EncodingTextAppend(a: string, b: string)
    requires IsEncodingText(a) && IsEncodingText(b)
    ensures IsEncodingText(a + b)
  {
    forall i | 0 <= i < |a + b| ensures IsEncodingChar((a + b)[i]) {
      if i < |a| { assert (a + b)[i] == a[i]; } else { assert (a + b)[i] == b[i - |a|]; }
    }
  }

  function Encode(bs: seq<byte>): (s: string)
    ensures |s| == 4 * ((|bs| + 2) / 3)
    ensures IsEncodingText(s)
    decreases |bs|
  {
    if |bs| == 0 then []
    else if |bs| <= 2 then EncodeTail(bs)
    else
      var g := EncodeGroup(bs[0], bs[1], bs[2]);
      var rest := Encode(bs[3..]);
      EncodingTextAppend(g, rest);
      g + rest
  }

  /** Four 6-bit values as three bytes. */
  function JoinGroup(i0: int, i1: int, i2: int, i3: int): (g: seq<byte>)
    requires 0 <= i0 < 64 && 0 <= i1 < 64 && 0 <= i2 < 64 && 0 <= i3 < 64
    ensures |g| == 3
  {
    [i0 * 4 + i1 / 16, (i1 % 16) * 16 + i2 / 4, (i2 % 4) * 64 + i3]
  }

  /** Four alphabet characters as three bytes. */
  function DecodeGroup(s: string): (r: Option<seq<byte>>)
    requires |s| == 4
    ensures r.Some? ==> |r.value| == 3
  {
    if IsAlphabetChar(s[0]) && IsAlphabetChar(s[1]) && IsAlphabetChar(s[2]) && IsAlphabetChar(s[3]) then
      Some(JoinGroup(ValueOf(s[0]), ValueOf(s[1]), ValueOf(s[2]), ValueOf(s[3])))
    else None
  }

  /** The last group: full, or padded with one or two `=`; bits the padding drops must be zero. */
  function DecodeLast(s: string): Option<seq<byte>>
    requires |s| == 4
  {
    if s[3] != '=' then DecodeGroup(s)
    else if s[2] == '=' then
      if IsAlphabetChar(s[0]) && IsAlphabetChar(s[1]) && ValueOf(s[1]) % 16 == 0 then
        Some(JoinGroup(ValueOf(s[0]), ValueOf(s[1]), 0, 0)[..1])
      else None
    else
      if IsAlphabetChar(s[0]) && IsAlphabetChar(s[1]) && IsAlphabetChar(s[2]) && ValueOf(s[2]) % 4 == 0 then
        Some(JoinGroup(ValueOf(s[0]), ValueOf(s[1]), ValueOf(s[2]), 0)[..2])
      else None
  }

  function Decode(s: string): (r: Option<seq<byte>>)
    decreases |s|
  {
    if |s| == 0 then Some([])
    else if |s| < 4 then None
    else if |s| == 4 then DecodeLast(s)
    else
      match DecodeGroup(s[..4])
      case None => None
      case Some(g) =>
        match Decode(s[4..])
        case None => None
        case Some(rest) => Some(g + rest)
  }

  /** Splitting three bytes into four 6-bit values and joining them back is the identity. */
  lemma SplitJoin(a: byte, b: byte, c: byte)
    ensures JoinGroup(a / 4, (a % 4) * 16 + b / 16, (b % 16) * 4 + c / 64, c % 64) == [a, b, c]
  {
    var i1 := (a % 4) * 16 + b / 16;
    var i2 := (b % 16) * 4 + c / 64;
    assert i1 / 16 == a % 4 && i1 % 16 == b / 16;
    assert i2 / 4 == b % 16 && i2 % 4 == c / 64;
  }

  /** Joining four 6-bit values into three bytes and splitting them again is the identity. */
  lemma JoinSplit(i0: int, i1: int, i2: int, i3: int)
    requires 0 <= i0 < 64 && 0 <= i1 < 64 && 0 <= i2 < 64 && 0 <= i3 < 64
    ensures var g := JoinGroup(i0, i1, i2, i3);
            g[0] / 4 == i0 && (g[0] % 4) * 16 + g[1] / 16 == i1 && (g[1] % 16) * 4 + g[2] / 64 == i2 && g[2] % 64 == i3
  {
    var a := i0 * 4 + i1 / 16;
    var b := (i1 % 16) * 16 + i2 / 4;
    var c := (i2 % 4) * 64 + i3;
    assert a / 4 == i0 && a % 4 == i1 / 16;
    assert b / 16 == i1 % 16 && b % 16 == i2 / 4;
    assert c / 64 == i2 % 4 && c % 64 == i3;
  }

  lemma GroupRoundTrip(a: byte, b: byte, c: byte)
    ensures DecodeGroup(EncodeGroup(a, b, c)) == Some([a, b, c])
  {
    var i0, i1, i2, i3 := a / 4, (a % 4) * 16 + b / 16, (b % 16) * 4 + c / 64, c % 64;
    ValueOfCharOf(i0);
    ValueOfCharOf(i1);
    ValueOfCharOf(i2);
    ValueOfCharOf(i3);
    SplitJoin(a, b, c);
  }

  lemma TailRoundTrip(bs: seq<byte>)
    requires 1 <= |bs| <= 2
    ensures DecodeLast(EncodeTail(bs)) == Some(bs)
  {
    var a := bs[0];
    ValueOfCharOf(a / 4);
    if |bs| == 1 {
      ValueOfCharOf((a % 4) * 16);
      assert ((a % 4) * 16) % 16 == 0 && ((a % 4) * 16) / 16 == a % 4;
      assert JoinGroup(a / 4, (a % 4) * 16, 0, 0)[..1] == [a];
      assert bs == [a];
    } else {
      var b := bs[1];
      ValueOfCharOf((a % 4) * 16 + b / 16);
      ValueOfCharOf((b % 16) * 4);
      assert ((b % 16) * 4) % 4 == 0;
      SplitJoin(a, b, 0);
      assert JoinGroup(a / 4, (a % 4) * 16 + b / 16, (b % 16) * 4, 0)[..2] == [a, b];
      assert bs == [a, b];
    }
  }

  lemma DecodeCons(g: string, rest: string, x: seq<byte>, y: seq<byte>)
    requires |g| == 4 && |rest| > 0
    requires DecodeGroup(g) == Some(x) && Decode(rest) == Some(y)
    ensures Decode(g + rest) == Some(x + y)
  {
    var s := g + rest;
    assert s[..4] == g && s[4..] == rest;
  }

  lemma EncodeStep(bs: seq<byte>)
    requires |bs| >= 3
    ensures Encode(bs) == EncodeGroup(bs[0], bs[1], bs[2]) + Encode(bs[3..])
  {
  }

  lemma Regroup(bs: seq<byte>)
    requires |bs| >= 3
    ensures [bs[0], bs[1], bs[2]] + bs[3..] == bs
  {
  }

  /** Decoding the encoding of any bytes gives back exactly those bytes. */
  lemma {:induction false} DecodeEncode(bs: seq<byte>)
    ensures Decode(Encode(bs)) == Some(bs)
    decreases |bs|
  {
    if |bs| == 0 {
    } else if |bs| <= 2 {
      TailRoundTrip(bs);
    } else {
      var g := EncodeGroup(bs[0], bs[1], bs[2]);
      EncodeStep(bs);
      Regroup(bs);
      GroupRoundTrip(bs[0], bs[1], bs[2]);
      if |bs| == 3 {
        assert g[3] != '=';
        assert bs[3..] == [] && Encode(bs[3..]) == [];
        assert Encode(bs) == g && [bs[0], bs[1], bs[2]] == bs;
        assert Decode(g) == DecodeLast(g) == DecodeGroup(g);
      } else {
        DecodeEncode(bs[3..]);
        DecodeCons(g, Encode(bs[3..]), [bs[0], bs[1], bs[2]], bs[3..]);
      }
    }
  }

  lemma GroupCanonical(s: string)
    requires |s| == 4 && DecodeGroup(s).Some?
    ensures var g := DecodeGroup(s).value; EncodeGroup(g[0], g[1], g[2]) == s
  {
    JoinSplit(ValueOf(s[0]), ValueOf(s[1]), ValueOf(s[2]), ValueOf(s[3]));
  }

  lemma LastCanonical(s: string)
    requires |s| == 4 && DecodeLast(s).Some?
    ensures var g := DecodeLast(s).value; 1 <= |g| <= 3 && Encode(g) == s
  {
    var g := DecodeLast(s).value;
    if s[3] != '=' {
      GroupCanonical(s);
      assert Encode(g[3..]) == [];
      assert Encode(g) == EncodeGroup(g[0], g[1], g[2]) + Encode(g[3..]);
    } else if s[2] == '=' {
      JoinSplit(ValueOf(s[0]), ValueOf(s[1]), 0, 0);
      assert Encode(g) == EncodeTail(g);
    } else {
      JoinSplit(ValueOf(s[0]), ValueOf(s[1]), ValueOf(s[2]), 0);
      assert Encode(g) == EncodeTail(g);
    }
  }

  /** Every text `Decode` accepts is the encoding of what it decodes to. */
  lemma {:induction false} EncodeDecode(s: string)
    requires Decode(s).Some?
    ensures Encode(Decode(s).value) == s
    decreases |s|
  {
    if |s| == 4 {
      LastCanonical(s);
    } else if |s| > 4 {
      GroupCanonical(s[..4]);
      EncodeDecode(s[4..]);
      var g := DecodeGroup(s[..4]).value;
      var rest := Decode(s[4..]).value;
      var bs := g + rest;
      assert bs[..3] == g && bs[3..] == rest;
      assert bs[0] == g[0] && bs[1] == g[1] && bs[2] == g[2];
      assert s == s[..4] + s[4..];
    }
  }

  /** `Decode` accepts a text exactly when it is the encoding of the bytes it returns. */
  lemma DecodeIffEncode(s: string, bs: seq<byte>)
    ensures Decode(s) == Some(bs) <==> s == Encode(bs)
  {
    if s == Encode(bs) {
      DecodeEncode(bs);
    }
    if Decode(s) == Some(bs) {
      EncodeDecode(s);
    }
  }
}
