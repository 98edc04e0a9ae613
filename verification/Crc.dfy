/** CRC-32 as `smoke/media.ts` computes it from a table, and the division one bit at a time that it stands for (section 5.5
    of the PNG specification, ISO/IEC 15948). */
module Crc {
  const POLYNOMIAL: bv32 := 0xEDB8_8320
  const ONES: bv32 := 0xFFFF_FFFF

  // The operations on words have names: the proofs below need their laws and not their bits.

  function Xor(a: bv32, b: bv32): bv32 {
    a ^ b
  }

  function Half(c: bv32): bv32 {
    c >> 1
  }

  predicate Odd(c: bv32) {
    c & 1 == 1
  }

  function LowByte(c: bv32): bv32 {
    c & 0xFF
  }

  function Above(c: bv32): bv32 {
    c & 0xFFFF_FF00
  }

  function Rest(c: bv32): bv32 {
    c >> 8
  }

  function Word(byte: bv8): bv32 {
    byte as bv32
  }

  /** One step of the reflected division. */
  function Step(c: bv32): bv32 {
    if Odd(c) then Xor(POLYNOMIAL, Half(c)) else Half(c)
  }

  function Steps(c: bv32, n: nat): bv32
    decreases n
  {
    if n == 0 then c else Steps(Step(c), n - 1)
  }

  // ----- the definition: one bit at a time

  function BitOf(bit: bool): bv32 {
    if bit then 1 else 0
  }

  function Divide(c: bv32, bits: seq<bool>): bv32
    decreases |bits|
  {
    if bits == [] then c else Divide(Step(Xor(c, BitOf(bits[0]))), bits[1..])
  }

  /** The low `n` bits of a byte, the lowest first. */
  function ByteBits(byte: bv32, n: nat): seq<bool>
    decreases n
  {
    if n == 0 then [] else [Odd(byte)] + ByteBits(Half(byte), n - 1)
  }

  function MessageBits(message: seq<bv8>): seq<bool>
    decreases |message|
  {
    if message == [] then [] else MessageBits(message[..|message| - 1]) + ByteBits(Word(message[|message| - 1]), 8)
  }

  /** All ones before, the complement after. */
  function BitwiseCrc(message: seq<bv8>): bv32 {
    Xor(Divide(ONES, MessageBits(message)), ONES)
  }

  // ----- laws of words

  lemma HalfIsLinear(a: bv32, b: bv32)
    ensures Half(Xor(a, b)) == Xor(Half(a), Half(b))
  {
  }

  lemma OddIsLinear(a: bv32, b: bv32)
    ensures Odd(Xor(a, b)) == (Odd(a) != Odd(b))
  {
  }

  lemma XorAssociates(a: bv32, b: bv32, c: bv32)
    ensures Xor(Xor(a, b), c) == Xor(a, Xor(b, c))
  {
  }

  lemma XorCommutes(a: bv32, b: bv32)
    ensures Xor(a, b) == Xor(b, a)
  {
  }

  lemma XorUndoes(p: bv32, a: bv32)
    ensures Xor(p, Xor(p, a)) == a
  {
  }

  lemma Regroup(p: bv32, a: bv32, b: bv32)
    ensures Xor(Xor(p, a), Xor(p, b)) == Xor(a, b)
    ensures Xor(Xor(p, a), b) == Xor(p, Xor(a, b)) && Xor(a, Xor(p, b)) == Xor(p, Xor(a, b))
  {
    hide Xor;
    XorAssociates(p, a, b);
    XorAssociates(a, p, b);
    XorCommutes(a, p);
    XorAssociates(p, a, Xor(p, b));
    XorUndoes(p, Xor(a, b));
  }

  lemma EightHalves(c: bv32)
    ensures Half(Half(Half(Half(Half(Half(Half(Half(c)))))))) == Rest(c)
  {
  }

  lemma AboveRests(x: bv32)
    ensures Rest(Above(x)) == Rest(x)
  {
  }

  lemma ByteRests(byte: bv8)
    ensures Rest(Word(byte)) == 0
  {
  }

  /** Halving moves the clear low bits of a word, here named by a mask of ones, one down. */
  lemma ClearBits(c: bv32, mask: bv32)
    requires c & mask == 0 && mask & 1 == 1
    ensures !Odd(c) && Half(c) & (mask >> 1) == 0
  {
  }

  lemma AboveIsClear(x: bv32)
    ensures Above(x) & 0xFF == 0
  {
  }

  lemma WordSplits(x: bv32)
    ensures x == Xor(LowByte(x), Above(x))
  {
  }

  lemma ByteIsLow(c: bv32, byte: bv8)
    ensures Rest(Xor(c, Word(byte))) == Rest(c)
  {
  }

  lemma BitSplits(c: bv32, byte: bv32)
    ensures Odd(Xor(c, byte)) == Odd(Xor(c, BitOf(Odd(byte))))
    ensures Half(Xor(c, byte)) == Xor(Half(Xor(c, BitOf(Odd(byte)))), Half(byte))
  {
  }

  lemma XorCancels(c: bv32, a: bv32, b: bv32)
    requires Xor(c, a) == Xor(c, b) || Xor(a, c) == Xor(b, c)
    ensures a == b
  {
  }

  lemma WordsDiffer(a: bv8, b: bv8)
    requires Word(a) == Word(b)
    ensures a == b
  {
  }

  lemma XorZero(c: bv32)
    ensures Xor(c, 0) == c
  {
  }

  // ----- the step

  /** The step is linear over exclusive or. */
  lemma StepIsLinear(a: bv32, b: bv32)
    ensures Step(Xor(a, b)) == Xor(Step(a), Step(b))
  {
    hide Xor, Half, Odd;
    HalfIsLinear(a, b);
    OddIsLinear(a, b);
    Regroup(POLYNOMIAL, Half(a), Half(b));
  }

  lemma {:induction false} StepsAreLinear(a: bv32, b: bv32, n: nat)
    ensures Steps(Xor(a, b), n) == Xor(Steps(a, n), Steps(b, n))
    decreases n
  {
    hide Step, Xor;
    if n > 0 {
      StepIsLinear(a, b);
      StepsAreLinear(Step(a), Step(b), n - 1);
    }
  }

  lemma StepIsInjective(a: bv32, b: bv32)
    requires Step(a) == Step(b)
    ensures a == b
  {
  }

  lemma {:induction false} StepsAreInjective(a: bv32, b: bv32, n: nat)
    requires Steps(a, n) == Steps(b, n)
    ensures a == b
    decreases n
  {
    hide Step;
    if n > 0 {
      StepsAreInjective(Step(a), Step(b), n - 1);
      StepIsInjective(a, b);
    }
  }

  function Halves(c: bv32, n: nat): bv32
    decreases n
  {
    if n == 0 then c else Halves(Half(c), n - 1)
  }

  lemma HalvesToRest(c: bv32)
    ensures Halves(c, 8) == Rest(c)
  {
    EightHalves(c);
    hide Half, Rest;
  }

  lemma {:induction false} ClearWordsShift(c: bv32, mask: bv32, n: nat)
    requires c & mask == 0 && Ones(mask, n)
    ensures Steps(c, n) == Halves(c, n)
    decreases n
  {
    hide Xor, Half, Odd;
    if n > 0 {
      ClearBits(c, mask);
      ClearWordsShift(Half(c), mask >> 1, n - 1);
    }
  }

  predicate Ones(mask: bv32, n: nat)
    decreases n
  {
    n == 0 || (mask & 1 == 1 && Ones(mask >> 1, n - 1))
  }

  lemma EightOnes()
    ensures Ones(0xFF, 8)
  {
    assert Ones(0xF, 4);
  }

  /** The part of the register above a byte only shifts through eight steps. */
  lemma HighPartShifts(x: bv32)
    ensures Steps(Above(x), 8) == Rest(x)
  {
    hide Steps, Halves, Above, Rest, Ones;
    AboveIsClear(x);
    EightOnes();
    ClearWordsShift(Above(x), 0xFF, 8);
    HalvesToRest(Above(x));
    AboveRests(x);
  }

  // ----- the program: a table

  /** Entry `n` of the table. */
  method TableEntry(n: bv32) returns (c: bv32)
    ensures c == Steps(n, 8)
  {
    c := n;
    for k := 0 to 8
      invariant Steps(c, 8 - k) == Steps(n, 8)
    {
      c := if Odd(c) then Xor(POLYNOMIAL, Half(c)) else Half(c);
    }
  }

  ghost predicate IsTable(table: array<bv32>)
    reads table
  {
    table.Length == 256 && forall i :: 0 <= i < 256 ==> table[i] == Steps(i as bv32, 8)
  }

  method Table() returns (table: array<bv32>)
    ensures fresh(table) && IsTable(table)
  {
    hide Steps;
    table := new bv32[256](_ => 0);
    for n := 0 to 256
      invariant forall i :: 0 <= i < n ==> table[i] == Steps(i as bv32, 8)
    {
      table[n] := TableEntry(n as bv32);
    }
  }

  lemma LowByteIsSmall(c: bv32)
    ensures LowByte(c) < 256
  {
  }

  lemma IndexIsWord(c: bv32)
    requires c < 256
    ensures 0 <= c as int < 256 && (c as int) as bv32 == c
  {
  }

  method Look(table: array<bv32>, c: bv32) returns (entry: bv32)
    requires IsTable(table)
    ensures entry == Steps(LowByte(c), 8)
  {
    hide Steps, LowByte;
    var low := LowByte(c);
    LowByteIsSmall(c);
    IndexIsWord(low);
    entry := table[low as int];
  }

  /** What one byte does to the register, by the table. */
  function TableStep(c: bv32, byte: bv8): bv32 {
    Xor(Steps(LowByte(Xor(c, Word(byte))), 8), Rest(c))
  }

  function TableSteps(c: bv32, message: seq<bv8>): bv32
    decreases |message|
  {
    if message == [] then c else TableStep(TableSteps(c, message[..|message| - 1]), message[|message| - 1])
  }

  method Crc32(message: seq<bv8>) returns (crc: bv32)
    ensures crc == BitwiseCrc(message)
  {
    hide IsTable, Steps, Xor, Word, Rest, LowByte, Divide, MessageBits;
    var table := Table();
    var c := ONES;
    for i := 0 to |message|
      invariant IsTable(table) && c == TableSteps(ONES, message[..i])
    {
      var entry := Look(table, Xor(c, Word(message[i])));
      c := Xor(entry, Rest(c));
      assert message[..i + 1][..i] == message[..i];
    }
    assert message[..|message|] == message;
    crc := Xor(c, ONES);
    TableDivides(ONES, message);
  }

  // ----- the table gives the division

  lemma TableStepIsSteps(c: bv32, byte: bv8)
    ensures TableStep(c, byte) == Steps(Xor(c, Word(byte)), 8)
  {
    hide Steps, Step, Xor, Word, LowByte, Above, Rest;
    var x := Xor(c, Word(byte));
    WordSplits(x);
    ByteIsLow(c, byte);
    StepsAreLinear(LowByte(x), Above(x), 8);
    HighPartShifts(x);
  }

  lemma OneBit(c: bv32, byte: bv32)
    ensures Step(Xor(c, byte)) == Xor(Step(Xor(c, BitOf(Odd(byte)))), Half(byte))
  {
    hide Xor, Half, Odd, BitOf;
    BitSplits(c, byte);
    Regroup(POLYNOMIAL, Half(Xor(c, BitOf(Odd(byte)))), Half(byte));
  }

  lemma {:induction false} ByteBitsTail(byte: bv32, n: nat)
    requires n > 0
    ensures var bits := ByteBits(byte, n);
            bits != [] && bits[0] == Odd(byte) && bits[1..] == ByteBits(Half(byte), n - 1)
  {
  }

  /** Feeding a byte bit by bit is adding it at once and taking as many steps. */
  lemma {:induction false} BitByBit(c: bv32, byte: bv32, n: nat)
    requires Halves(byte, n) == 0
    ensures Divide(c, ByteBits(byte, n)) == Steps(Xor(c, byte), n)
    decreases n
  {
    hide Step, BitOf, Xor, Half, Odd;
    if n == 0 {
      XorZero(c);
    } else {
      hide ByteBits;
      ByteBitsTail(byte, n);
      OneBit(c, byte);
      BitByBit(Step(Xor(c, BitOf(Odd(byte)))), Half(byte), n - 1);
    }
  }

  lemma {:induction false} DivideAppend(c: bv32, a: seq<bool>, b: seq<bool>)
    ensures Divide(c, a + b) == Divide(Divide(c, a), b)
    decreases |a|
  {
    hide Step, BitOf, Xor;
    if a == [] {
      assert a + b == b;
    } else {
      assert (a + b)[1..] == a[1..] + b;
      DivideAppend(Step(Xor(c, BitOf(a[0]))), a[1..], b);
    }
  }

  lemma ByteDivides(c: bv32, byte: bv8)
    ensures Divide(c, ByteBits(Word(byte), 8)) == TableStep(c, byte)
  {
    hide Step, Steps, Divide, ByteBits, TableStep, Halves, Xor, Word, Rest;
    ByteRests(byte);
    HalvesToRest(Word(byte));
    BitByBit(c, Word(byte), 8);
    TableStepIsSteps(c, byte);
  }

  /** For every message, taking it byte by byte from the table is dividing it bit by bit. */
  lemma {:induction false} TableDivides(c: bv32, message: seq<bv8>)
    ensures TableSteps(c, message) == Divide(c, MessageBits(message))
    decreases |message|
  {
    hide Step, Steps, ByteBits, TableStep, Xor, Word;
    if message != [] {
      var front, last := message[..|message| - 1], message[|message| - 1];
      TableDivides(c, front);
      ByteDivides(Divide(c, MessageBits(front)), last);
      DivideAppend(c, MessageBits(front), ByteBits(Word(last), 8));
    }
  }

  // ----- what the check is for

  lemma TableStepIsInjective(c: bv32, d: bv32, a: bv8, b: bv8)
    requires TableStep(c, a) == TableStep(d, b)
    ensures a == b ==> c == d
    ensures c == d ==> a == b
  {
    hide TableStep, Steps, Xor, Word;
    TableStepIsSteps(c, a);
    TableStepIsSteps(d, b);
    StepsAreInjective(Xor(c, Word(a)), Xor(d, Word(b)), 8);
    if a == b {
      XorCancels(Word(a), c, d);
    } else if c == d {
      XorCancels(c, Word(a), Word(b));
      WordsDiffer(a, b);
    }
  }

  lemma {:induction false} TableStepsAreInjective(c: bv32, d: bv32, message: seq<bv8>)
    requires TableSteps(c, message) == TableSteps(d, message)
    ensures c == d
    decreases |message|
  {
    hide TableStep;
    if message != [] {
      var front, last := message[..|message| - 1], message[|message| - 1];
      TableStepIsInjective(TableSteps(c, front), TableSteps(d, front), last, last);
      TableStepsAreInjective(c, d, front);
    }
  }

  lemma {:induction false} TableStepsAppend(c: bv32, a: seq<bv8>, b: seq<bv8>)
    ensures TableSteps(c, a + b) == TableSteps(TableSteps(c, a), b)
    decreases |b|
  {
    hide TableStep;
    if b == [] {
      assert a + b == a;
    } else {
      assert (a + b)[..|a + b| - 1] == a + b[..|b| - 1];
      TableStepsAppend(c, a, b[..|b| - 1]);
    }
  }

  lemma AroundOneByte(c: bv32, before: seq<bv8>, byte: bv8, after: seq<bv8>)
    ensures TableSteps(c, before + [byte] + after) == TableSteps(TableStep(TableSteps(c, before), byte), after)
  {
    hide TableStep;
    TableStepsAppend(c, before + [byte], after);
    assert (before + [byte])[..|before|] == before;
  }

  /** A message in which one byte went wrong has another check value, wherever the byte is and whatever it became. */
  lemma OneWrongByteIsDetected(message: seq<bv8>, i: nat, byte: bv8)
    requires i < |message|
    ensures BitwiseCrc(message[i := byte]) == BitwiseCrc(message) <==> byte == message[i]
  {
    hide TableStep, TableSteps, Divide, MessageBits, Xor;
    var before, after := message[..i], message[i + 1..];
    var c := TableSteps(ONES, before);
    var wrong := message[i := byte];
    assert message == before + [message[i]] + after && wrong == before + [byte] + after;
    TableDivides(ONES, message);
    TableDivides(ONES, wrong);
    AroundOneByte(ONES, before, message[i], after);
    AroundOneByte(ONES, before, byte, after);
    if BitwiseCrc(wrong) == BitwiseCrc(message) {
      XorCancels(ONES, TableSteps(ONES, wrong), TableSteps(ONES, message));
      TableStepsAreInjective(TableStep(c, message[i]), TableStep(c, byte), after);
      TableStepIsInjective(c, c, message[i], byte);
    }
  }

  // ----- a known value

  lemma EightSteps(c: bv32)
    ensures Steps(c, 8) == Step(Step(Step(Step(Step(Step(Step(Step(c))))))))
  {
    hide Step;
    FourSteps(c);
    FourSteps(Step(Step(Step(Step(c)))));
    FourAndFour(c);
  }

  lemma FourSteps(c: bv32)
    ensures Steps(c, 4) == Step(Step(Step(Step(c))))
  {
    hide Step;
  }

  lemma FourAndFour(c: bv32)
    ensures Steps(c, 8) == Steps(Steps(c, 4), 4)
  {
    hide Step;
    assert Steps(c, 8) == Steps(Step(Step(c)), 6);
    assert Steps(Step(Step(c)), 6) == Steps(Step(Step(Step(Step(c)))), 4);
  }

  /** The four bytes `IEND`, register by register. */
  lemma EndRegisters()
    ensures TableStep(0xFFFF_FFFF, 0x49) == 0x22FD_E946 && TableStep(0x22FD_E946, 0x45) == 0x992B_AC53
    ensures TableStep(0x992B_AC53, 0x4E) == 0x639F_4775 && TableStep(0x639F_4775, 0x44) == 0x51BD_9F7D
  {
    OneRegister(0xFFFF_FFFF, 0x49, 0xB6, 0x2202_16B9);
    OneRegister(0x22FD_E946, 0x45, 0x03, 0x9909_51BA);
    OneRegister(0x992B_AC53, 0x4E, 0x1D, 0x6306_6CD9);
    OneRegister(0x639F_4775, 0x44, 0x31, 0x51DE_003A);
    hide TableStep;
  }

  lemma OneRegister(c: bv32, byte: bv8, low: bv32, entry: bv32)
    requires LowByte(Xor(c, Word(byte))) == low
    requires Step(Step(Step(Step(Step(Step(Step(Step(low)))))))) == entry
    ensures TableStep(c, byte) == Xor(entry, Rest(c))
  {
    EightSteps(low);
  }

  lemma OneByteMore(c: bv32, message: seq<bv8>, byte: bv8)
    ensures TableSteps(c, message + [byte]) == TableStep(TableSteps(c, message), byte)
  {
    assert (message + [byte])[..|message|] == message;
  }

  /** The check value of the chunk that ends every PNG file, `IEND` with no data in it. */
  lemma EndOfFile()
    ensures BitwiseCrc([0x49, 0x45, 0x4E, 0x44]) == 0xAE42_6082
  {
    var m: seq<bv8> := [0x49, 0x45, 0x4E, 0x44];
    assert BitwiseCrc(m) == Xor(Divide(ONES, MessageBits(m)), ONES);
    assert Xor(0x51BD_9F7D, ONES) == 0xAE42_6082;
    EndSteps();
    TableDivides(ONES, m);
    hide Xor, Divide, MessageBits, TableSteps;
  }

  lemma EndSteps()
    ensures TableSteps(ONES, [0x49, 0x45, 0x4E, 0x44]) == 0x51BD_9F7D
  {
    hide TableStep, TableSteps;
    EndRegisters();
    NothingStepped();
    var a: seq<bv8>, b: seq<bv8>, c: seq<bv8> := [0x49], [0x49, 0x45], [0x49, 0x45, 0x4E];
    OneByteMore(ONES, [], 0x49);
    OneByteMore(ONES, a, 0x45);
    OneByteMore(ONES, b, 0x4E);
    OneByteMore(ONES, c, 0x44);
    assert [] + [0x49] == a && a + [0x45] == b && b + [0x4E] == c && c + [0x44] == [0x49, 0x45, 0x4E, 0x44];
  }

  lemma NothingStepped()
    ensures TableSteps(ONES, []) == ONES
  {
  }
}
