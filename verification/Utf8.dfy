/** UTF-8 as section 3 of RFC 3629 defines it, and the character boundaries of an encoded string. */
module Utf8 {
  import opened Options

  type byte = x: int | 0 <= x < 256

  predicate IsContinuation(b: byte) {
    0x80 <= b < 0xC0
  }

  function EncodeChar(c: char): (r: seq<byte>)
    ensures 1 <= |r| <= 4 && !IsContinuation(r[0])
    ensures forall i :: 1 <= i < |r| ==> IsContinuation(r[i])
  {
    var v := c as int;
    if v < 0x80 then
      [v]
    else if v < 0x800 then
      [0xC0 + v / 64, 0x80 + v % 64]
    else if v < 0x1_0000 then
      [0xE0 + v / 64 / 64, 0x80 + v / 64 % 64, 0x80 + v % 64]
    else
      [0xF0 + v / 64 / 64 / 64, 0x80 + v / 64 / 64 % 64, 0x80 + v / 64 % 64, 0x80 + v % 64]
  }

  function Encode(s: string): (r: seq<byte>)
    ensures |r| >= |s|
  {
    if s == "" then [] else EncodeChar(s[0]) + Encode(s[1..])
  }

  lemma {:induction false} EncodeAppend(a: string, b: string)
    ensures Encode(a + b) == Encode(a) + Encode(b)
  {
    if a == "" {
      assert a + b == b;
    } else {
      assert (a + b)[1..] == a[1..] + b;
      EncodeAppend(a[1..], b);
    }
  }

  /** The test the standard library makes: an offset is a boundary when no continuation byte stands there. */
  predicate IsCharBoundary(bytes: seq<byte>, i: nat) {
    i == 0 || i == |bytes| || (i < |bytes| && !IsContinuation(bytes[i]))
  }

  /** What the test means: some whole number of characters is encoded before the offset. */
  ghost predicate EndsAChar(s: string, i: nat) {
    exists j :: 0 <= j <= |s| && i == |Encode(s[..j])|
  }

  lemma {:induction false} BoundaryMeaning(s: string, i: nat)
    ensures i <= |Encode(s)| && IsCharBoundary(Encode(s), i) <==> EndsAChar(s, i)
  {
    if i == 0 {
      assert i == |Encode(s[..0])|;
    } else if s != "" {
      var w := |EncodeChar(s[0])|;
      var rest := s[1..];
      forall j | 1 <= j <= |s|
        ensures |Encode(s[..j])| == w + |Encode(rest[..j - 1])|
      {
        assert s[..j][1..] == rest[..j - 1];
      }
      if i < w {
        assert !IsCharBoundary(Encode(s), i);
      } else {
        BoundaryMeaning(rest, i - w);
        if EndsAChar(rest, i - w) {
          var j :| 0 <= j <= |rest| && i - w == |Encode(rest[..j])|;
          assert i == |Encode(s[..j + 1])|;
        }
        if EndsAChar(s, i) {
          var j :| 0 <= j <= |s| && i == |Encode(s[..j])|;
          assert i - w == |Encode(rest[..j - 1])|;
        }
        assert i < |Encode(s)| ==> Encode(s)[i] == Encode(rest)[i - w];
      }
    }
  }

  /** The prefix of a string that an offset at a character boundary cuts off. */
  lemma {:induction false} PrefixOfEncoding(s: string, j: nat)
    requires j <= |s|
    ensures |Encode(s[..j])| <= |Encode(s)|
    ensures Encode(s)[..|Encode(s[..j])|] == Encode(s[..j])
  {
    assert s == s[..j] + s[j..];
    EncodeAppend(s[..j], s[j..]);
  }

  // ----- decoding

  datatype Decoded = Decoded(c: char, width: nat)

  function ToChar(v: int): Option<char> {
    if 0 <= v < 0xD800 || 0xE000 <= v < 0x11_0000 then Some(v as char) else None
  }

  /** The six bits a continuation byte carries. */
  function Six(b: byte): int {
    b as int - 0x80
  }

  function CharWidth(lead: byte): nat {
    if lead < 0x80 then 1
    else if 0xC0 <= lead < 0xE0 then 2
    else if 0xE0 <= lead < 0xF0 then 3
    else if 0xF0 <= lead < 0xF8 then 4
    else 0
  }

  function CodePoint(b: seq<byte>, width: nat): int
    requires 1 <= width <= 4 && width <= |b|
  {
    if width == 1 then b[0]
    else if width == 2 then (b[0] as int - 0xC0) * 64 + Six(b[1])
    else if width == 3 then ((b[0] as int - 0xE0) * 64 + Six(b[1])) * 64 + Six(b[2])
    else (((b[0] as int - 0xF0) * 64 + Six(b[1])) * 64 + Six(b[2])) * 64 + Six(b[3])
  }

  function DecodeChar(b: seq<byte>): (r: Option<Decoded>)
    requires b != []
    ensures r.Some? ==> 1 <= r.value.width <= |b|
  {
    var width := CharWidth(b[0]);
    if width == 0 || |b| < width then
      None
    else
      match ToChar(CodePoint(b, width))
      case None => None
      case Some(c) => Some(Decoded(c, width))
  }

  function Decode(b: seq<byte>): Option<string> {
    if b == [] then
      Some("")
    else
      match DecodeChar(b)
      case None => None
      case Some(d) =>
        match Decode(b[d.width..])
        case None => None
        case Some(rest) => Some([d.c] + rest)
  }

  lemma DecodeCharInverts(c: char, rest: seq<byte>)
    ensures DecodeChar(EncodeChar(c) + rest) == Some(Decoded(c, |EncodeChar(c)|))
  {
    var e := EncodeChar(c);
    var b := e + rest;
    assert forall i :: 0 <= i < |e| ==> b[i] == e[i];
    assert CharWidth(b[0]) == |e|;
    assert CodePoint(b, |e|) == c as int;
  }

  lemma {:induction false} DecodeInverts(s: string)
    ensures Decode(Encode(s)) == Some(s)
  {
    if s != "" {
      var rest := Encode(s[1..]);
      DecodeCharInverts(s[0], rest);
      assert Encode(s) == EncodeChar(s[0]) + rest;
      assert Encode(s)[|EncodeChar(s[0])|..] == rest;
      DecodeInverts(s[1..]);
      assert [s[0]] + s[1..] == s;
    }
  }
}
