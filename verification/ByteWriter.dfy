/** `ByteWriter` of `crates/core/src/engine.rs` and, beside every write, the read that undoes it. Bytes are numbers below
    256; floats are the words that carry their bits. */
module Bytes {
  import opened Options
  import opened Utf8

  type u8 = byte
  type u32 = x: int | 0 <= x < 0x1_0000_0000
  type u64 = x: int | 0 <= x < 0x1_0000_0000_0000_0000
  type i64 = x: int | -0x8000_0000_0000_0000 <= x < 0x8000_0000_0000_0000

  /** What a reader gets: a value and where it ends, or nothing. */
  datatype Parsed<+T> = Refused | Parsed(value: T, at: nat) {
    predicate IsFailure() {
      Refused?
    }

    function PropagateFailure<U>(): Parsed<U>
      requires Refused?
    {
      Refused
    }

    function Extract(): (T, nat)
      requires Parsed?
    {
      (value, at)
    }
  }

  /** `chunk` stands in `b` at `at`. */
  ghost predicate HasAt(b: seq<byte>, at: nat, chunk: seq<byte>) {
    at + |chunk| <= |b| && b[at..at + |chunk|] == chunk
  }

  lemma HasParts(b: seq<byte>, at: nat, x: seq<byte>, y: seq<byte>)
    requires HasAt(b, at, x + y)
    ensures HasAt(b, at, x) && HasAt(b, at + |x|, y)
  {
    var whole := b[at..at + |x + y|];
    assert b[at..at + |x|] == whole[..|x|] == x;
    assert b[at + |x|..at + |x| + |y|] == whole[|x|..] == y;
  }

  // ----- little-endian words

  function Le(v: nat, n: nat): (r: seq<byte>)
    ensures |r| == n
  {
    if n == 0 then [] else [v % 256] + Le(v / 256, n - 1)
  }

  function FromLe(b: seq<byte>): nat {
    if b == [] then 0 else b[0] + 256 * FromLe(b[1..])
  }

  function Words(n: nat): nat {
    if n == 0 then 1 else 256 * Words(n - 1)
  }

  lemma {:induction false} LeInverts(v: nat, n: nat)
    requires v < Words(n)
    ensures FromLe(Le(v, n)) == v
  {
    if n > 0 {
      LeInverts(v / 256, n - 1);
      assert Le(v, n)[1..] == Le(v / 256, n - 1);
    }
  }

  /** The bytes of a word are its digits to the base 256, the lowest first. */
  lemma LeDigits(v: nat)
    ensures Le(v, 1) == [v % 0x100]
    ensures Le(v, 2) == [v % 0x100, v / 0x100 % 0x100]
    ensures Le(v, 4) == [v % 0x100, v / 0x100 % 0x100, v / 0x1_0000 % 0x100, v / 0x100_0000 % 0x100]
    ensures Le(v, 8) == Le(v, 4) + Le(v / 0x1_0000_0000, 4)
  {
    hide Le;
    LeByte(v);
    LePair(v);
    LePair(v / 0x1_0000);
    WordsAre();
    LeHalves(v, 2);
    LeHalves(v, 4);
    hide Words;
    assert v / 0x1_0000 / 0x100 == v / 0x100_0000;
  }

  lemma LePair(v: nat)
    ensures Le(v, 2) == [v % 0x100, v / 0x100 % 0x100]
  {
    LeByte(v / 0x100);
  }

  lemma LeByte(v: nat)
    ensures Le(v, 1) == [v % 0x100]
  {
    assert Le(v, 1) == [v % 0x100] + Le(v / 0x100, 0);
  }

  lemma {:induction false} LeHalves(v: nat, n: nat)
    requires n == 1 || n == 2 || n == 4
    ensures Le(v, n + n) == Le(v, n) + Le(v / Words(n), n)
  {
    WordsAre();
    LePart(v, n, n);
  }

  lemma {:induction false} LePart(v: nat, m: nat, n: nat)
    requires m == 0 || m == 1 || m == 2 || m == 3 || m == 4
    ensures Words(m) > 0 && Le(v, m + n) == Le(v, m) + Le(v / Words(m), n)
  {
    if m == 0 {
      assert Le(v, 0) + Le(v, n) == Le(v, n) && v / 1 == v;
    } else {
      LePart(v / 256, m - 1, n);
      DividedTwice(v, m);
      assert Le(v, m + n) == [v % 256] + (Le(v / 256, m - 1) + Le(v / 256 / Words(m - 1), n));
    }
  }

  lemma DividedTwice(v: nat, m: nat)
    requires m == 1 || m == 2 || m == 3 || m == 4
    ensures Words(m - 1) > 0 && Words(m) > 0 && v / 256 / Words(m - 1) == v / Words(m)
  {
    assert Words(0) == 1 && Words(1) == 256 && Words(2) == 0x1_0000 && Words(3) == 0x100_0000 && Words(4) == 0x1_0000_0000;
    hide Words;
    assert v / 256 / 1 == v / 256;
    assert v / 256 / 256 == v / 0x1_0000;
    assert v / 256 / 0x1_0000 == v / 0x100_0000;
    assert v / 256 / 0x100_0000 == v / 0x1_0000_0000;
  }

  lemma LowByte(v: nat, k: nat)
    ensures (v + 256 * k) % 256 == v % 256 && (v + 256 * k) / 256 == v / 256 + k
  {
  }

  lemma PullOut(m: nat, w: nat)
    ensures m * (256 * w) == 256 * (m * w)
  {
  }

  /** The low `n` bytes of a number are the number modulo `256^n`: `as u32` and its kin. */
  lemma {:induction false} LeTruncates(v: nat, n: nat, m: nat)
    ensures Le(v + m * Words(n), n) == Le(v, n)
  {
    if n > 0 {
      var k := m * Words(n - 1);
      PullOut(m, Words(n - 1));
      LowByte(v, k);
      LeTruncates(v / 256, n - 1, m);
    }
  }

  function TwosComplement64(v: i64): u64 {
    if v >= 0 then v else v + 0x1_0000_0000_0000_0000
  }

  function ReadLe(b: seq<byte>, at: nat, n: nat): Parsed<nat> {
    if at + n <= |b| then Parsed(FromLe(b[at..at + n]), at + n) else Refused
  }

  lemma WordsAre()
    ensures Words(1) == 0x100 && Words(2) == 0x1_0000 && Words(4) == 0x1_0000_0000
    ensures Words(8) == 0x1_0000_0000_0000_0000
  {
    assert Words(3) == 0x100_0000;
    assert Words(5) == 0x100_0000_0000 && Words(6) == 0x1_0000_0000_0000 && Words(7) == 0x100_0000_0000_0000;
  }

  /** A word reads back. */
  lemma WordAt(b: seq<byte>, at: nat, v: nat, n: nat)
    requires v < Words(n) && HasAt(b, at, Le(v, n))
    ensures ReadLe(b, at, n) == Parsed(v, at + n)
  {
    LeInverts(v, n);
  }

  lemma SplitNumber(v: nat, w: nat)
    requires w > 0
    ensures v == v % w + (v / w) * w && 0 <= v % w < w && v / w >= 0
  {
  }

  /** A word too wide for its bytes reads back as what is left of it. */
  lemma TruncatedWordAt(b: seq<byte>, at: nat, v: nat, n: nat)
    requires HasAt(b, at, Le(v, n)) && Words(n) > 0
    ensures ReadLe(b, at, n) == Parsed(v % Words(n), at + n)
  {
    hide Le, FromLe, ReadLe, Words;
    var w := Words(n);
    SplitNumber(v, w);
    LeTruncates(v % w, n, v / w);
    WordAt(b, at, v % w, n);
  }

  function ReadI64(b: seq<byte>, at: nat): Parsed<int> {
    var (w, next) :- ReadLe(b, at, 8);
    Parsed(if w < 0x8000_0000_0000_0000 then w else w - 0x1_0000_0000_0000_0000, next)
  }

  function ReadI32(b: seq<byte>, at: nat): Parsed<int> {
    var (w, next) :- ReadLe(b, at, 4);
    Parsed(if w < 0x8000_0000 then w else w - 0x1_0000_0000, next)
  }

  lemma I64At(b: seq<byte>, at: nat, v: i64)
    requires HasAt(b, at, Le(TwosComplement64(v), 8))
    ensures ReadI64(b, at) == Parsed(v, at + 8)
  {
    WordsAre();
    WordAt(b, at, TwosComplement64(v), 8);
  }

  // ----- flags

  /** Booleans shifted into place and joined, the first in the lowest bit. */
  function FlagByte(bits: seq<bool>): nat {
    if bits == [] then 0 else (if bits[0] then 1 else 0) + 2 * FlagByte(bits[1..])
  }

  function Bits(v: nat, n: nat): (r: seq<bool>)
    ensures |r| == n
  {
    if n == 0 then [] else [v % 2 == 1] + Bits(v / 2, n - 1)
  }

  lemma {:induction false} FlagsInvert(bits: seq<bool>)
    ensures Bits(FlagByte(bits), |bits|) == bits
  {
    if bits != [] {
      FlagsInvert(bits[1..]);
      assert bits == [bits[0]] + bits[1..];
    }
  }

  lemma FlagsAre(bits: seq<bool>)
    requires |bits| == 8
    ensures FlagByte(bits)
         == (if bits[0] then 1 else 0) + (if bits[1] then 2 else 0) + (if bits[2] then 4 else 0)
            + (if bits[3] then 8 else 0) + (if bits[4] then 16 else 0) + (if bits[5] then 32 else 0)
            + (if bits[6] then 64 else 0) + (if bits[7] then 128 else 0)
  {
    FourFlags(bits[4..]);
    FlagStep(bits, 0);
    FlagStep(bits, 1);
    FlagStep(bits, 2);
    FlagStep(bits, 3);
  }

  lemma FlagStep(bits: seq<bool>, i: nat)
    requires i < |bits|
    ensures FlagByte(bits[i..]) == (if bits[i] then 1 else 0) + 2 * FlagByte(bits[i + 1..])
    ensures bits[0..] == bits
  {
    assert bits[i..][1..] == bits[i + 1..];
  }

  lemma FourFlags(bits: seq<bool>)
    requires |bits| == 4
    ensures FlagByte(bits)
         == (if bits[0] then 1 else 0) + (if bits[1] then 2 else 0) + (if bits[2] then 4 else 0) + (if bits[3] then 8 else 0)
  {
    FlagStep(bits, 0);
    FlagStep(bits, 1);
    FlagStep(bits, 2);
    FlagStep(bits, 3);
    assert bits[4..] == [];
  }

  lemma {:induction false} FalseAtEnd(bits: seq<bool>)
    ensures FlagByte(bits + [false]) == FlagByte(bits)
  {
    if bits == [] {
      assert ([] + [false])[1..] == [];
    } else {
      assert (bits + [false])[1..] == bits[1..] + [false];
      FalseAtEnd(bits[1..]);
    }
  }

  lemma FlagsFit(bits: seq<bool>)
    requires |bits| <= 8
    ensures FlagByte(bits) < 256
  {
    FlagsBelow(bits, 8);
  }

  lemma {:induction false} FlagsBelow(bits: seq<bool>, n: nat)
    requires |bits| <= n <= 8
    ensures FlagByte(bits) < [1, 2, 4, 8, 16, 32, 64, 128, 256][n]
  {
    if bits != [] {
      FlagsBelow(bits[1..], n - 1);
    }
  }

  // ----- strings

  /** How many characters of `s` fit in `limit` bytes. */
  function Fitting(s: string, limit: nat): (r: nat)
    ensures r <= |s|
  {
    if s == "" || |EncodeChar(s[0])| > limit then 0 else 1 + Fitting(s[1..], limit - |EncodeChar(s[0])|)
  }

  /** The longest prefix of whole characters that takes at most 65535 bytes. */
  function Cut16(s: string): string {
    s[..Fitting(s, 0xFFFF)]
  }

  lemma {:induction false} FittingIsLongest(s: string, limit: nat, j: nat)
    requires j <= |s|
    ensures |Encode(s[..j])| <= limit <==> j <= Fitting(s, limit)
  {
    if j > 0 {
      var w := |EncodeChar(s[0])|;
      assert s[..j][1..] == s[1..][..j - 1];
      if w <= limit {
        FittingIsLongest(s[1..], limit - w, j - 1);
      }
    }
  }

  /** `str16` keeps a string that fits and otherwise cuts it after the last whole character that does. */
  lemma Cut16IsLongestPrefix(s: string, j: nat)
    requires j <= |s|
    ensures Cut16(s) <= s && |Encode(Cut16(s))| <= 0xFFFF
    ensures |Encode(s[..j])| <= 0xFFFF ==> s[..j] <= Cut16(s)
    ensures Cut16(s) == s <==> |Encode(s)| <= 0xFFFF
  {
    FittingIsLongest(s, 0xFFFF, j);
    FittingIsLongest(s, 0xFFFF, Fitting(s, 0xFFFF));
    FittingIsLongest(s, 0xFFFF, |s|);
    assert s[..|s|] == s;
  }

  function EncStr16(s: string): seq<byte> {
    var b := Encode(Cut16(s));
    Le(|b|, 2) + b
  }

  function EncStr32(s: string): seq<byte> {
    var b := Encode(s);
    Le(|b|, 4) + b
  }

  function ReadStr(b: seq<byte>, at: nat, header: nat): Parsed<string> {
    var (n, next) :- ReadLe(b, at, header);
    if next + n > |b| then
      Refused
    else
      match Decode(b[next..next + n])
      case None => Refused
      case Some(s) => Parsed(s, next + n)
  }

  lemma Str16At(b: seq<byte>, at: nat, s: string)
    requires HasAt(b, at, EncStr16(s))
    ensures ReadStr(b, at, 2) == Parsed(Cut16(s), at + |EncStr16(s)|)
  {
    hide Le, FromLe, Encode, Decode, ReadLe, Words, Fitting;
    var e := Encode(Cut16(s));
    Cut16IsLongestPrefix(s, 0);
    HasParts(b, at, Le(|e|, 2), e);
    WordsAre();
    WordAt(b, at, |e|, 2);
    DecodeInverts(Cut16(s));
  }

  lemma Str32At(b: seq<byte>, at: nat, s: string)
    requires HasAt(b, at, EncStr32(s)) && |Encode(s)| < 0x1_0000_0000
    ensures ReadStr(b, at, 4) == Parsed(s, at + |EncStr32(s)|)
  {
    hide Le, FromLe, Encode, Decode, ReadLe, Words;
    var e := Encode(s);
    HasParts(b, at, Le(|e|, 4), e);
    WordsAre();
    WordAt(b, at, |e|, 4);
    DecodeInverts(s);
  }

  /** A string cut short decodes to something else, or to nothing. */
  lemma {:induction false} CutStringDiffers(s: string, n: nat)
    requires n < |Encode(s)|
    ensures Decode(Encode(s)[..n]) != Some(s)
  {
    var e, w := Encode(s), |EncodeChar(s[0])|;
    var cut := e[..n];
    if n > 0 {
      DecodeCharInverts(s[0], Encode(s[1..]));
      assert CharWidth(cut[0]) == CharWidth(e[0]) == w;
      if n >= w {
        assert cut == EncodeChar(s[0]) + Encode(s[1..])[..n - w];
        DecodeCharInverts(s[0], Encode(s[1..])[..n - w]);
        assert cut[w..] == Encode(s[1..])[..n - w];
        CutStringDiffers(s[1..], n - w);
        assert s == [s[0]] + s[1..];
      }
    }
  }

  /** The length of `str32` is a 32-bit word, so a string of 4 GiB or more does not read back. */
  lemma LongStr32IsLost(b: seq<byte>, at: nat, s: string)
    requires HasAt(b, at, EncStr32(s)) && |Encode(s)| >= 0x1_0000_0000
    ensures ReadStr(b, at, 4).Parsed? ==> ReadStr(b, at, 4).value != s
  {
    hide Le, FromLe, Encode, Decode, ReadLe, Words;
    var e := Encode(s);
    var n, m := |e| % 0x1_0000_0000, |e| / 0x1_0000_0000;
    WordsAre();
    LeTruncates(n, 4, m);
    HasParts(b, at, Le(|e|, 4), e);
    WordAt(b, at, n, 4);
    assert b[at + 4..at + 4 + n] == b[at + 4..at + 4 + |e|][..n];
    CutStringDiffers(s, n);
  }

  // ----- the writer

  class ByteWriter {
    var bytes: seq<byte>

    constructor ()
      ensures bytes == []
    {
      bytes := [];
    }

    /** The fixed-width writes: `to_le_bytes` of an `n`-byte word. */
    method Word(v: nat, n: nat)
      modifies this
      ensures bytes == old(bytes) + Le(v, n)
    {
      bytes := bytes + Le(v, n);
    }

    method Str16(s: string)
      modifies this
      ensures bytes == old(bytes) + EncStr16(s)
    {
      var b := Encode(s);
      var end := if |b| < 0xFFFF then |b| else 0xFFFF;
      var limit := end;
      while !IsCharBoundary(b, end)
        invariant 0 <= end <= limit
        invariant forall k :: end < k <= limit ==> !IsCharBoundary(b, k)
        decreases end
      {
        end := end - 1;
      }
      BoundaryIsCut(s, end);
      bytes := bytes + Le(end, 2) + b[..end];
      assert bytes == old(bytes) + (Le(end, 2) + b[..end]);
    }

    method Str32(s: string)
      modifies this
      ensures bytes == old(bytes) + EncStr32(s)
    {
      var b := Encode(s);
      bytes := bytes + Le(|b|, 4) + b;
      assert bytes == old(bytes) + (Le(|b|, 4) + b);
    }
  }

  /** The last character boundary within the limit is where the longest prefix ends. */
  lemma BoundaryIsCut(s: string, end: nat)
    requires end <= |Encode(s)| && end <= 0xFFFF && IsCharBoundary(Encode(s), end)
    requires forall k :: end < k <= |Encode(s)| && k <= 0xFFFF ==> !IsCharBoundary(Encode(s), k)
    ensures Encode(s)[..end] == Encode(Cut16(s)) && end == |Encode(Cut16(s))|
  {
    BoundaryMeaning(s, end);
    var j :| 0 <= j <= |s| && end == |Encode(s[..j])|;
    var cut := |Cut16(s)|;
    Cut16IsLongestPrefix(s, j);
    PrefixOfEncoding(s, cut);
    assert s[..cut] == Cut16(s);
    var c := |Encode(s[..cut])|;
    assert EndsAChar(s, c);
    BoundaryMeaning(s, c);
    PrefixOfEncoding(s[..cut], j);
    assert s[..cut][..j] == s[..j];
  }
}
