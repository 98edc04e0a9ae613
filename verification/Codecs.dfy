/** Lists in the byte format: whatever item can be written and read back, a list of them can. */
module Codecs {
  import opened Utf8
  import opened Bytes

  /** How one item is written and read: what of it is kept, and whether it is one the format can carry. */
  datatype Codec<!T, !W> = Codec(
    enc: T -> seq<byte>, read: (seq<byte>, nat) -> Parsed<W>, keep: T -> W, fits: T -> bool)

  /** Reading where `x` was written gives what is kept of `x` and stops where the writer did, exactly when `x` fits. */
  ghost predicate ReadsBack<T, W>(c: Codec<T, W>, x: T, b: seq<byte>, at: nat) {
    if c.fits(x) then
      c.read(b, at) == Parsed(c.keep(x), at + |c.enc(x)|)
    else
      Lost(c.read(b, at), c.keep(x))
  }

  ghost predicate Lost<W>(read: Parsed<W>, kept: W) {
    read.Parsed? ==> read.value != kept
  }

  ghost predicate Faithful<T(!new), W>(c: Codec<T, W>) {
    forall x, b, at | HasAt(b, at, c.enc(x)) :: ReadsBack(c, x, b, at)
  }

  function EncAll<T>(enc: T -> seq<byte>, xs: seq<T>): seq<byte> {
    if xs == [] then [] else EncAll(enc, xs[..|xs| - 1]) + enc(xs[|xs| - 1])
  }

  function ReadAll<W>(read: (seq<byte>, nat) -> Parsed<W>, b: seq<byte>, at: nat, n: nat): (r: Parsed<seq<W>>)
    ensures r.Parsed? ==> |r.value| == n
  {
    if n == 0 then
      Parsed([], at)
    else
      var (front, a) :- ReadAll(read, b, at, n - 1);
      var (last, next) :- read(b, a);
      Parsed(front + [last], next)
  }

  function KeepAll<T, W>(keep: T -> W, xs: seq<T>): (r: seq<W>)
    ensures |r| == |xs| && forall i :: 0 <= i < |xs| ==> r[i] == keep(xs[i])
  {
    if xs == [] then [] else KeepAll(keep, xs[..|xs| - 1]) + [keep(xs[|xs| - 1])]
  }

  ghost predicate AllFit<T>(fits: T -> bool, xs: seq<T>) {
    forall i :: 0 <= i < |xs| ==> fits(xs[i])
  }

  lemma OneMore<T>(enc: T -> seq<byte>, xs: seq<T>, i: nat)
    requires i < |xs|
    ensures EncAll(enc, xs[..i + 1]) == EncAll(enc, xs[..i]) + enc(xs[i])
  {
    assert xs[..i + 1][..i] == xs[..i];
  }

  /** Items written one after the other read back exactly when each of them fits. */
  lemma {:induction false} ListReadsBack<T(!new), W>(c: Codec<T, W>, xs: seq<T>, b: seq<byte>, at: nat)
    requires Faithful(c) && HasAt(b, at, EncAll(c.enc, xs))
    ensures if AllFit(c.fits, xs)
            then ReadAll(c.read, b, at, |xs|) == Parsed(KeepAll(c.keep, xs), at + |EncAll(c.enc, xs)|)
            else Lost(ReadAll(c.read, b, at, |xs|), KeepAll(c.keep, xs))
  {
    hide HasAt;
    if xs != [] {
      var front, last := xs[..|xs| - 1], xs[|xs| - 1];
      HasParts(b, at, EncAll(c.enc, front), c.enc(last));
      ListReadsBack(c, front, b, at);
      assert ReadsBack(c, last, b, at + |EncAll(c.enc, front)|);
      var kept, read := KeepAll(c.keep, xs), ReadAll(c.read, b, at, |xs|);
      assert KeepAll(c.keep, front) == kept[..|front|];
      assert read.Parsed? ==> ReadAll(c.read, b, at, |front|).value == read.value[..|front|];
    }
  }

  // ----- lists behind a 32-bit count

  function EncCounted<T>(enc: T -> seq<byte>, xs: seq<T>): seq<byte> {
    Le(|xs|, 4) + EncAll(enc, xs)
  }

  function ReadCounted<W>(read: (seq<byte>, nat) -> Parsed<W>, b: seq<byte>, at: nat): Parsed<seq<W>> {
    var (n, next) :- ReadLe(b, at, 4);
    ReadAll(read, b, next, n)
  }

  ghost predicate CountedFits<T>(fits: T -> bool, xs: seq<T>) {
    |xs| < 0x1_0000_0000 && AllFit(fits, xs)
  }

  ghost function Counted<T, W>(c: Codec<T, W>): Codec<seq<T>, seq<W>> {
    Codec(xs => EncCounted(c.enc, xs), (b, at) => ReadCounted(c.read, b, at), xs => KeepAll(c.keep, xs),
          xs => CountedFits(c.fits, xs))
  }

  /** A list behind its count reads back exactly when the count fits 32 bits and every item fits. */
  lemma CountedReadsBack<T(!new), W>(c: Codec<T, W>, xs: seq<T>, b: seq<byte>, at: nat)
    requires Faithful(c) && HasAt(b, at, EncCounted(c.enc, xs))
    ensures ReadsBack(Counted(c), xs, b, at)
  {
    hide HasAt, Le, ReadLe, EncAll, ReadAll, KeepAll, Words, Faithful;
    HasParts(b, at, Le(|xs|, 4), EncAll(c.enc, xs));
    WordsAre();
    TruncatedWordAt(b, at, |xs|, 4);
    ListReadsBack(c, xs, b, at + 4);
  }
}
