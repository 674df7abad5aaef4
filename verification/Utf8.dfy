/**
 UTF-8 as section 4 of RFC 3629 defines it. A Rust `String` is a sequence of Unicode scalar values
 held in this encoding; `str::from_utf8` is `Decode` and `str::as_bytes` is `Encode`.
 */
module Utf8 {
  import opened Arithmetic
  import opened Wrappers

  type byte = b: int | 0 <= b < 256

  /** The one to four octets of one scalar value. */
  function EncodeChar(c: char): (bs: seq<byte>)
    ensures 1 <= |bs| <= 4
  {
    var v := c as int;
    if v < 0x80 then [v]
    else if v < 0x800 then [0xC0 + v / 64, 0x80 + v % 64]
    else if v < 0x1_0000 then [0xE0 + v / 4096, 0x80 + v / 64 % 64, 0x80 + v % 64]
    else [0xF0 + v / 262144, 0x80 + v / 4096 % 64, 0x80 + v / 64 % 64, 0x80 + v % 64]
  }

  function Encode(s: string): seq<byte> {
    if s == [] then [] else EncodeChar(s[0]) + Encode(s[1..])
  }

  predicate IsTail(b: byte) {
    0x80 <= b < 0xC0
  }

  // The payload bits of a two-, three- and four-octet form, put back together.
  function Join2(b0: int, b1: int): int { (b0 - 0xC0) * 64 + (b1 - 0x80) }
  function Join3(b0: int, b1: int, b2: int): int { (b0 - 0xE0) * 4096 + (b1 - 0x80) * 64 + (b2 - 0x80) }
  function Join4(b0: int, b1: int, b2: int, b3: int): int {
    (b0 - 0xF0) * 262144 + (b1 - 0x80) * 4096 + (b2 - 0x80) * 64 + (b3 - 0x80)
  }

  /** The scalar value at the front of `bs` and its width, by the grammar's own byte ranges. */
  function DecodeChar(bs: seq<byte>): Option<(char, nat)> {
    if |bs| >= 1 && bs[0] < 0x80 then
      Some((bs[0] as char, 1))
    else if |bs| >= 2 && 0xC2 <= bs[0] <= 0xDF && IsTail(bs[1]) then
      Some((Join2(bs[0], bs[1]) as char, 2))
    else if |bs| >= 3 && IsLeadOfThree(bs[0], bs[1]) && IsTail(bs[2]) then
      Some((Join3(bs[0], bs[1], bs[2]) as char, 3))
    else if |bs| >= 4 && IsLeadOfFour(bs[0], bs[1]) && IsTail(bs[2]) && IsTail(bs[3]) then
      Some((Join4(bs[0], bs[1], bs[2], bs[3]) as char, 4))
    else
      None
  }

  predicate IsLeadOfThree(b0: byte, b1: byte) {
    || (b0 == 0xE0 && 0xA0 <= b1 <= 0xBF)
    || (0xE1 <= b0 <= 0xEC && IsTail(b1))
    || (b0 == 0xED && 0x80 <= b1 <= 0x9F)
    || (0xEE <= b0 <= 0xEF && IsTail(b1))
  }

  predicate IsLeadOfFour(b0: byte, b1: byte) {
    || (b0 == 0xF0 && 0x90 <= b1 <= 0xBF)
    || (0xF1 <= b0 <= 0xF3 && IsTail(b1))
    || (b0 == 0xF4 && 0x80 <= b1 <= 0x8F)
  }

  /** The text `bs` encodes, or nothing when it is not well-formed UTF-8. */
  function Decode(bs: seq<byte>): Option<string>
    decreases |bs|
  {
    if bs == [] then Some("")
    else
      var (c, width) :- DecodeChar(bs);
      var rest :- Decode(bs[width..]);
      Some([c] + rest)
  }

  // Splitting a number into base-64 digits and joining them again, one width at a time.
  lemma SplitJoin2(v: int)
    ensures Join2(0xC0 + v / 64, 0x80 + v % 64) == v
  {
  }

  lemma SplitJoin3(v: int)
    ensures Join3(0xE0 + v / 4096, 0x80 + v / 64 % 64, 0x80 + v % 64) == v
  {
    DivModOf(v, 64);
    DivModOf(v / 64, 64);
    Nested(v, 64, 64);
  }

  lemma SplitJoin4(v: int)
    ensures Join4(0xF0 + v / 262144, 0x80 + v / 4096 % 64, 0x80 + v / 64 % 64, 0x80 + v % 64) == v
  {
    DivModOf(v, 64);
    DivModOf(v / 64, 64);
    DivModOf(v / 4096, 64);
    Nested(v, 64, 64);
    Nested(v, 4096, 64);
  }

  lemma DecodeThree(c: char, rest: seq<byte>)
    requires 0x800 <= c as int < 0x1_0000
    ensures DecodeChar(EncodeChar(c) + rest) == Some((c, 3))
  {
    SplitJoin3(c as int);
    LeadOfThree(c as int);
    var bs := EncodeChar(c) + rest;
    hide Join2, Join3, Join4, IsLeadOfThree, IsLeadOfFour;
  }

  lemma DecodeFour(c: char, rest: seq<byte>)
    requires 0x1_0000 <= c as int
    ensures DecodeChar(EncodeChar(c) + rest) == Some((c, 4))
  {
    SplitJoin4(c as int);
    LeadOfFour(c as int);
    var bs := EncodeChar(c) + rest;
    hide Join2, Join3, Join4, IsLeadOfFour;
  }

  lemma DecodeCharOfEncoded(c: char, rest: seq<byte>)
    ensures DecodeChar(EncodeChar(c) + rest) == Some((c, |EncodeChar(c)|))
  {
    var v := c as int;
    if v < 0x80 {
    } else if v < 0x800 {
      SplitJoin2(v);
    } else if v < 0x1_0000 {
      DecodeThree(c, rest);
    } else {
      DecodeFour(c, rest);
    }
  }

  lemma LeadOfThree(v: int)
    requires 0x800 <= v < 0xD800 || 0xE000 <= v < 0x1_0000
    ensures 0 <= v / 64 % 64 < 64 && 0 <= v / 4096 < 16
    ensures IsLeadOfThree(0xE0 + v / 4096, 0x80 + v / 64 % 64)
  {
    var d := v / 64;
    Nested(v, 64, 64);
    assert 0x20 <= d < 0x360 || 0x380 <= d < 0x400;
  }

  lemma LeadOfFour(v: int)
    requires 0x1_0000 <= v < 0x11_0000
    ensures 0 <= v / 4096 % 64 < 64 && 0 <= v / 262144 < 5
    ensures IsLeadOfFour(0xF0 + v / 262144, 0x80 + v / 4096 % 64)
  {
    var d := v / 4096;
    Nested(v, 4096, 64);
    assert 0x10 <= d < 0x110;
  }

  // The other way round: the base-64 digits of a joined number are the payload bits it was made of.
  lemma JoinSplit2(b0: int, b1: int)
    requires 0x80 <= b1 < 0xC0
    ensures var v := Join2(b0, b1); v / 64 == b0 - 0xC0 && v % 64 == b1 - 0x80
  {
    QuotientOf(b0 - 0xC0, b1 - 0x80, 64);
  }

  lemma JoinSplit3(b0: int, b1: int, b2: int)
    requires 0x80 <= b1 < 0xC0 && 0x80 <= b2 < 0xC0
    ensures var v := Join3(b0, b1, b2);
            v / 4096 == b0 - 0xE0 && v / 64 % 64 == b1 - 0x80 && v % 64 == b2 - 0x80
  {
    var high := (b0 - 0xE0) * 64 + (b1 - 0x80);
    QuotientOf(high, b2 - 0x80, 64);
    QuotientOf(b0 - 0xE0, b1 - 0x80, 64);
    Nested(Join3(b0, b1, b2), 64, 64);
  }

  lemma JoinSplit4(b0: int, b1: int, b2: int, b3: int)
    requires 0x80 <= b1 < 0xC0 && 0x80 <= b2 < 0xC0 && 0x80 <= b3 < 0xC0
    ensures var v := Join4(b0, b1, b2, b3);
            && v / 262144 == b0 - 0xF0 && v / 4096 % 64 == b1 - 0x80
            && v / 64 % 64 == b2 - 0x80 && v % 64 == b3 - 0x80
  {
    var top := (b0 - 0xF0) * 64 + (b1 - 0x80);
    var high := top * 64 + (b2 - 0x80);
    QuotientOf(high, b3 - 0x80, 64);
    QuotientOf(top, b2 - 0x80, 64);
    QuotientOf(b0 - 0xF0, b1 - 0x80, 64);
    Nested(Join4(b0, b1, b2, b3), 64, 64);
    Nested(Join4(b0, b1, b2, b3), 4096, 64);
  }

  lemma TwoSound(bs: seq<byte>)
    requires |bs| >= 2 && 0xC2 <= bs[0] <= 0xDF && IsTail(bs[1])
    ensures bs[..2] == EncodeChar(Join2(bs[0], bs[1]) as char)
  {
    JoinSplit2(bs[0], bs[1]);
  }

  lemma ThreeSound(bs: seq<byte>)
    requires |bs| >= 3 && IsLeadOfThree(bs[0], bs[1]) && IsTail(bs[2])
    ensures bs[..3] == EncodeChar(Join3(bs[0], bs[1], bs[2]) as char)
  {
    JoinSplit3(bs[0], bs[1], bs[2]);
  }

  lemma FourSound(bs: seq<byte>)
    requires |bs| >= 4 && IsLeadOfFour(bs[0], bs[1]) && IsTail(bs[2]) && IsTail(bs[3])
    ensures bs[..4] == EncodeChar(Join4(bs[0], bs[1], bs[2], bs[3]) as char)
  {
    JoinSplit4(bs[0], bs[1], bs[2], bs[3]);
  }

  lemma DecodeCharSound(bs: seq<byte>, c: char, width: nat)
    requires DecodeChar(bs) == Some((c, width))
    ensures width <= |bs| && bs[..width] == EncodeChar(c)
  {
    match width
    case 2 => TwoSound(bs);
    case 3 => ThreeSound(bs);
    case 4 => FourSound(bs);
    case _ =>
  }

  /** Decoding recovers exactly the text that was encoded. */
  lemma {:induction false} DecodeOfEncode(s: string)
    ensures Decode(Encode(s)) == Some(s)
  {
    if s != [] {
      var head, tail := EncodeChar(s[0]), Encode(s[1..]);
      DecodeCharOfEncoded(s[0], tail);
      DecodeOfEncode(s[1..]);
      assert (head + tail)[|head|..] == tail;
      assert [s[0]] + s[1..] == s;
    }
  }

  /** Only the encoding of a text decodes to it: no second spelling is accepted. */
  lemma {:induction false} EncodeOfDecode(bs: seq<byte>, s: string)
    requires Decode(bs) == Some(s)
    ensures Encode(s) == bs
    decreases |bs|
  {
    if bs != [] {
      var c, width, rest, tail := DecodeStep(bs, s);
      EncodeOfDecode(rest, tail);
      EncodeCons(c, tail);
    }
  }

  lemma DecodeStep(bs: seq<byte>, s: string) returns (c: char, width: nat, rest: seq<byte>, tail: string)
    requires bs != [] && Decode(bs) == Some(s)
    ensures bs == EncodeChar(c) + rest && s == [c] + tail && Decode(rest) == Some(tail) && |rest| < |bs|
  {
    c, width := DecodeChar(bs).value.0, DecodeChar(bs).value.1;
    rest := bs[width..];
    tail := Decode(rest).value;
    DecodeCharSound(bs, c, width);
  }

  lemma EncodeCons(c: char, s: string)
    ensures Encode([c] + s) == EncodeChar(c) + Encode(s)
  {
    assert ([c] + s)[1..] == s;
  }

  lemma {:induction false} EncodeInjective(s: string, t: string)
    requires Encode(s) == Encode(t)
    ensures s == t
  {
    DecodeOfEncode(s);
    DecodeOfEncode(t);
  }

  lemma {:induction false} EncodeAppend(s: string, t: string)
    ensures Encode(s + t) == Encode(s) + Encode(t)
  {
    if s == [] {
      assert s + t == t;
    } else {
      assert (s + t)[1..] == s[1..] + t;
      EncodeAppend(s[1..], t);
    }
  }

  /** If one text's octets begin with another's, the one text begins with the other. */
  lemma {:induction false} EncodedPrefix(t: string, s: string)
    requires Encode(t) <= Encode(s)
    ensures t <= s
  {
    hide EncodeChar, DecodeChar;
    if t != [] {
      var rest := Encode(s)[|Encode(t)|..];
      var width := |EncodeChar(t[0])|;
      assert Encode(s) == Encode(t) + rest;
      assert Encode(t) + rest == EncodeChar(t[0]) + (Encode(t[1..]) + rest);
      DecodeCharOfEncoded(t[0], Encode(t[1..]) + rest);
      DecodeCharOfEncoded(s[0], Encode(s[1..]));
      assert Encode(s)[width..] == Encode(s[1..]);
      assert (EncodeChar(t[0]) + (Encode(t[1..]) + rest))[width..] == Encode(t[1..]) + rest;
      EncodedPrefix(t[1..], s[1..]);
      assert t == [t[0]] + t[1..] && s == [s[0]] + s[1..];
    }
  }

  predicate IsAscii(s: string) {
    forall i :: 0 <= i < |s| ==> s[i] as int < 0x80
  }

  /** ASCII text is one octet per character, so its byte length is its character count. */
  lemma {:induction false} AsciiWidth(s: string)
    requires IsAscii(s)
    ensures |Encode(s)| == |s|
  {
    if s != [] {
      AsciiWidth(s[1..]);
    }
  }

  lemma CharExamples()
    ensures EncodeChar('A') == [0x41] && EncodeChar('.') == [0x2E] && EncodeChar('\U{391}') == [0xCE, 0x91]
    ensures EncodeChar('\U{2262}') == [0xE2, 0x89, 0xA2] && EncodeChar('\U{FEFF}') == [0xEF, 0xBB, 0xBF]
    ensures EncodeChar('\U{233B4}') == [0xF0, 0xA3, 0x8E, 0xB4]
  {
  }

  lemma EncodePair(c: char, d: char)
    ensures Encode([c, d]) == EncodeChar(c) + EncodeChar(d)
  {
    EncodeCons(c, [d]);
    EncodeCons(d, []);
    assert [c] + [d] == [c, d];
    assert EncodeChar(d) + [] == EncodeChar(d);
  }

  /** Two of the examples of section 7 of RFC 3629, with characters of every width among them. */
  lemma StandardExamples()
    ensures Encode(['A', '\U{2262}', '\U{391}', '.']) == [0x41, 0xE2, 0x89, 0xA2, 0xCE, 0x91, 0x2E]
    ensures Encode(['\U{FEFF}', '\U{233B4}']) == [0xEF, 0xBB, 0xBF, 0xF0, 0xA3, 0x8E, 0xB4]
  {
    hide Encode, EncodeChar;
    CharExamples();
    EncodePair('A', '\U{2262}');
    EncodePair('\U{391}', '.');
    EncodePair('\U{FEFF}', '\U{233B4}');
    EncodeAppend(['A', '\U{2262}'], ['\U{391}', '.']);
    assert ['A', '\U{2262}'] + ['\U{391}', '.'] == ['A', '\U{2262}', '\U{391}', '.'];
  }
}
