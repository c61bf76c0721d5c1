/** The checksum of shared_lib/src/crc.rs: CRC-32 with the reflected polynomial, computed by table.
    The reference is the bit-serial definition of section 8 of RFC 1952, one message bit at a time,
    least significant bit of each byte first.  Words are bit vectors; their operations have names
    so that the proofs can treat them as an algebra. */
module Crc {

  const POLYNOMIAL: bv32 := 0xEDB88320
  const ALL_ONES: bv32 := 0xFFFFFFFF

  function Xor(x: bv32, y: bv32): bv32 { x ^ y }
  function Half(x: bv32): bv32 { x >> 1 }
  predicate Odd(x: bv32) { x & 1 != 0 }
  function Word(b: bv8): bv32 { b as bv32 }
  function Bit(b: bool): bv32 { if b then 1 else 0 }
  function Reduce(b: bool): bv32 { if b then POLYNOMIAL else 0 }

  /** Divide by x: shift right, and reduce if a one falls out. */
  function BitStep(x: bv32): bv32 { Xor(Half(x), Reduce(Odd(x))) }

  function Steps(x: bv32, n: nat): bv32
    decreases n
  {
    if n == 0 then x else Steps(BitStep(x), n - 1)
  }

  function FeedBit(crc: bv32, bit: bool): bv32 { BitStep(Xor(crc, Bit(bit))) }

  /** The reference: feed a message bit by bit. */
  function FeedBits(bits: seq<bool>, crc: bv32): bv32
    decreases |bits|
  {
    if bits == [] then crc else FeedBits(bits[1..], FeedBit(crc, bits[0]))
  }

  /** The n low bits of a word, least significant first, and what is left of it. */
  function LowBits(w: bv32, n: nat): (bits: seq<bool>)
    ensures |bits| == n
    decreases n
  {
    if n == 0 then [] else [Odd(w)] + LowBits(Half(w), n - 1)
  }

  function ShiftedBy(w: bv32, n: nat): bv32
    decreases n
  {
    if n == 0 then w else ShiftedBy(Half(w), n - 1)
  }

  function BitsOf(b: bv8): (bits: seq<bool>)
    ensures |bits| == 8
  {
    LowBits(Word(b), 8)
  }

  function MessageBits(message: seq<bv8>): (bits: seq<bool>)
    ensures |bits| == 8 * |message|
    decreases |message|
  {
    if message == [] then [] else BitsOf(message[0]) + MessageBits(message[1..])
  }

  /** The remainder for a message and a starting value, and the checksum of a message. */
  function Remainder(message: seq<bv8>, crc: bv32): bv32 { FeedBits(MessageBits(message), crc) }

  function Checksum(message: seq<bv8>): bv32 { !Remainder(message, ALL_ONES) }

  // ---- Words -----------------------------------------------------------------------------------------

  lemma XorGroup(a: bv32, b: bv32, c: bv32)
    ensures Xor(Xor(a, b), c) == Xor(Xor(a, c), b) && Xor(Xor(a, b), c) == Xor(a, Xor(b, c))
  {
  }

  lemma XorSwap(a: bv32, b: bv32, c: bv32, d: bv32)
    ensures Xor(Xor(a, b), Xor(c, d)) == Xor(Xor(a, c), Xor(b, d))
  {
    hide Xor;
    XorGroup(Xor(a, b), c, d);
    XorGroup(a, b, c);
    XorGroup(Xor(a, c), b, d);
  }

  lemma XorUnit(a: bv32)
    ensures Xor(a, 0) == a && Xor(0, a) == a && Xor(a, a) == 0
  {
  }

  lemma XorZeroMeansSame(a: bv32, b: bv32)
    ensures Xor(a, b) == 0 <==> a == b
  {
  }

  lemma HalfXor(x: bv32, y: bv32)
    ensures Half(Xor(x, y)) == Xor(Half(x), Half(y))
  {
  }

  lemma OddXor(x: bv32, y: bv32)
    ensures Odd(Xor(x, y)) <==> Odd(x) != Odd(y)
  {
  }

  lemma BitFacts(b: bool)
    ensures Half(Bit(b)) == 0 && (Odd(Bit(b)) <==> b)
  {
  }

  lemma ReduceXor(x: bool, y: bool)
    ensures Reduce(x != y) == Xor(Reduce(x), Reduce(y))
  {
  }

  // ---- Linearity -------------------------------------------------------------------------------------

  lemma BitStepLinear(x: bv32, y: bv32)
    ensures BitStep(Xor(x, y)) == Xor(BitStep(x), BitStep(y))
  {
    hide Xor, Half, Odd, Reduce;
    HalfXor(x, y);
    OddXor(x, y);
    ReduceXor(Odd(x), Odd(y));
    XorSwap(Half(x), Half(y), Reduce(Odd(x)), Reduce(Odd(y)));
  }

  lemma {:induction false} StepsLinear(x: bv32, y: bv32, n: nat)
    ensures Steps(Xor(x, y), n) == Xor(Steps(x, n), Steps(y, n))
    decreases n
  {
    hide Xor, BitStep;
    if n > 0 {
      BitStepLinear(x, y);
      StepsLinear(BitStep(x), BitStep(y), n - 1);
    }
  }

  lemma {:induction false} FeedBitsAppend(a: seq<bool>, b: seq<bool>, crc: bv32)
    ensures FeedBits(a + b, crc) == FeedBits(b, FeedBits(a, crc))
    decreases |a|
  {
    hide FeedBit;
    if a == [] {
      assert a + b == b;
    } else {
      assert (a + b)[1..] == a[1..] + b;
      FeedBitsAppend(a[1..], b, FeedBit(crc, a[0]));
    }
  }

  // ---- Eight bits at once ------------------------------------------------------------------------------

  /** Feeding one bit of a word that is already mixed in. */
  lemma FeedMixed(crc: bv32, w: bv32)
    ensures BitStep(Xor(crc, w)) == Xor(FeedBit(crc, Odd(w)), Half(w))
  {
    hide Xor, Half, Odd, Reduce, Bit;
    var bit := Bit(Odd(w));
    HalfXor(crc, w);
    HalfXor(crc, bit);
    OddXor(crc, w);
    OddXor(crc, bit);
    BitFacts(Odd(w));
    XorUnit(Half(crc));
    XorGroup(Half(crc), Half(w), Reduce(Odd(Xor(crc, w))));
  }

  /** Mixing a word in at once and stepping n times is feeding its n low bits one by one. */
  lemma {:induction false} StepsFeedBits(crc: bv32, w: bv32, n: nat)
    ensures Steps(Xor(crc, w), n) == Xor(FeedBits(LowBits(w, n), crc), ShiftedBy(w, n))
    decreases n
  {
    hide Xor, Half, Odd, BitStep, FeedBit;
    if n > 0 {
      FeedMixed(crc, w);
      StepsFeedBits(FeedBit(crc, Odd(w)), Half(w), n - 1);
      assert LowBits(w, n)[1..] == LowBits(Half(w), n - 1);
    }
  }

  // ---- Shifts ------------------------------------------------------------------------------------------

  lemma {:induction false} ShiftInTwo(w: bv32, n: nat, m: nat)
    ensures ShiftedBy(w, n + m) == ShiftedBy(ShiftedBy(w, n), m)
    decreases n
  {
    hide Half;
    if n > 0 {
      ShiftInTwo(Half(w), n - 1, m);
    }
  }

  function Quarter(x: bv32): bv32 { x >> 2 }
  function Nibble(x: bv32): bv32 { x >> 4 }
  function HighBytes(x: bv32): bv32 { x >> 8 }

  lemma TwoHalves(w: bv32)
    ensures Half(Half(w)) == Quarter(w)
  {
  }

  lemma TwoQuarters(w: bv32)
    ensures Quarter(Quarter(w)) == Nibble(w)
  {
    assert w >> 2 >> 2 == w >> 4;
  }

  lemma TwoNibbles(w: bv32)
    ensures Nibble(Nibble(w)) == HighBytes(w)
  {
    assert w >> 4 >> 4 == w >> 8;
  }

  lemma ShiftByFour(w: bv32)
    ensures ShiftedBy(w, 4) == Nibble(w)
  {
    hide Half, Quarter, Nibble, HighBytes;
    ShiftInTwo(w, 2, 2);
    assert ShiftedBy(w, 2) == Half(Half(w)) && ShiftedBy(Quarter(w), 2) == Half(Half(Quarter(w)));
    TwoHalves(w);
    TwoHalves(Quarter(w));
    TwoQuarters(w);
  }

  lemma ShiftByEight(w: bv32)
    ensures ShiftedBy(w, 8) == HighBytes(w)
  {
    hide Half, Quarter, Nibble, HighBytes, ShiftedBy;
    ShiftInTwo(w, 4, 4);
    ShiftByFour(w);
    ShiftByFour(Nibble(w));
    TwoNibbles(w);
  }

  lemma ByteShiftsOut(b: bv8)
    ensures ShiftedBy(Word(b), 8) == 0
  {
    hide ShiftedBy;
    ShiftByEight(Word(b));
  }

  /** A byte mixed in at once and eight steps, against its bits one by one. */
  lemma ByteIsEightBits(crc: bv32, b: bv8)
    ensures Steps(Xor(crc, Word(b)), 8) == FeedBits(BitsOf(b), crc)
  {
    hide Xor, Steps, FeedBits, Word, LowBits, ShiftedBy;
    StepsFeedBits(crc, Word(b), 8);
    ByteShiftsOut(b);
    XorUnit(FeedBits(BitsOf(b), crc));
  }

  // ---- The table ---------------------------------------------------------------------------------------

  /** A mask of n ones. */
  ghost predicate Ones(m: bv32, n: nat)
    decreases n
  {
    if n == 0 then m == 0 else Odd(m) && Ones(Half(m), n - 1)
  }

  lemma EightOnes()
    ensures Ones(0xFF, 8)
  {
    assert Ones(0x3, 2);
    assert Ones(0xF, 4) by { assert Half(0xF) == 0x7 && Half(0x7) == 0x3; }
    assert Ones(0x3F, 6) by { assert Half(0x3F) == 0x1F && Half(0x1F) == 0xF; }
    assert Ones(0xFF, 8) by { assert Half(0xFF) == 0x7F && Half(0x7F) == 0x3F; }
  }

  lemma HalfClear(w: bv32, m: bv32)
    requires w & m == 0 && Odd(m)
    ensures !Odd(w) && Half(w) & Half(m) == 0
  {
  }

  /** Stepping over n zero bits only shifts. */
  lemma {:induction false} ZeroBitsShift(w: bv32, m: bv32, n: nat)
    requires w & m == 0 && Ones(m, n)
    ensures Steps(w, n) == ShiftedBy(w, n)
    decreases n
  {
    hide Half, Odd, Xor;
    if n > 0 {
      HalfClear(w, m);
      assert Reduce(false) == 0;
      XorUnit(Half(w));
      ZeroBitsShift(Half(w), Half(m), n - 1);
    }
  }

  function LowByte(x: bv32): bv32 { x & 0xFF }

  lemma SplitLowByte(x: bv32)
    ensures x == Xor(Xor(x, LowByte(x)), LowByte(x)) && Xor(x, LowByte(x)) & 0xFF == 0 && HighBytes(Xor(x, LowByte(x))) == HighBytes(x)
  {
  }

  lemma HighPart(crc: bv32, b: bv8)
    ensures HighBytes(Xor(crc, Word(b))) == HighBytes(crc) && LowByte(Xor(crc, Word(b))) == LowByte(Xor(Word(b), crc))
  {
  }

  /** The table entry for a byte holds eight steps of it. */
  ghost predicate IsTable(table: seq<bv32>) {
    |table| == 256 && forall i :: 0 <= i < 256 ==> table[i] == Steps(i as bv32, 8)
  }

  /** One byte by table: the shifted remainder mixed with the entry of its low byte. */
  lemma TableStep(crc: bv32, b: bv8)
    ensures Xor(HighBytes(crc), Steps(LowByte(Xor(Word(b), crc)), 8)) == FeedBits(BitsOf(b), crc)
  {
    hide Xor, Word, Steps, FeedBits, BitsOf, LowByte, ShiftedBy, HighBytes;
    var x := Xor(crc, Word(b));
    var low := LowByte(x);
    var high := Xor(x, low);
    SplitLowByte(x);
    StepsLinear(high, low, 8);
    EightOnes();
    ZeroBitsShift(high, 0xFF, 8);
    ShiftByEight(high);
    HighPart(crc, b);
    ByteIsEightBits(crc, b);
  }

  // ---- The code ----------------------------------------------------------------------------------------

  /** The static table: for every byte value, eight rounds on a remainder and a byte that are
      shifted side by side. */
  method BuildTable() returns (table: seq<bv32>)
    ensures IsTable(table)
  {
    hide Steps, Xor, Half, Odd, BitStep, Reduce;
    var entries := new bv32[256](_ => 0);
    var i: nat := 0;
    while i < 256
      invariant i <= 256
      invariant forall x :: 0 <= x < i ==> entries[x] == Steps(x as bv32, 8)
    {
      IndexIsSmall(i);
      var crc := BuildEntry(i as bv32);
      entries[i] := crc;
      i := i + 1;
    }
    table := entries[..];
  }

  /** The inner loop. */
  method BuildEntry(i: bv32) returns (crc: bv32)
    requires i < 256
    ensures crc == Steps(i, 8)
  {
    hide Steps, Xor, Half, Odd, BitStep, Reduce, ShiftedBy;
    var ch := i;
    crc := 0;
    var j: nat := 0;
    assert Steps(Xor(ch, crc), 8) == Steps(i, 8) by { XorUnit(ch); }
    while j < 8
      invariant j <= 8
      invariant Steps(Xor(ch, crc), 8 - j) == Steps(i, 8)
      invariant ShiftedBy(ch, 8 - j) == ShiftedBy(i, 8)
    {
      var b := Odd(Xor(ch, crc));
      StepsUnfold(ch, crc, 8 - j);
      crc := Half(crc);
      if b {
        crc := Xor(crc, POLYNOMIAL);
      }
      ch := Half(ch);
      j := j + 1;
    }
    IndexShiftsOut(ch, i);
    StepsNone(ch, crc);
  }

  lemma IndexIsSmall(i: nat)
    requires i < 256
    ensures i as bv32 < 256
  {
  }

  lemma IndexAndBack(x: bv32)
    requires x < 256
    ensures x as nat < 256 && (x as nat) as bv32 == x
  {
  }

  /** One round keeps what stepping the mixed word gives. */
  lemma StepsUnfold(ch: bv32, crc: bv32, n: nat)
    requires n > 0
    ensures var crc' := if Odd(Xor(ch, crc)) then Xor(Half(crc), POLYNOMIAL) else Half(crc);
            Steps(Xor(ch, crc), n) == Steps(Xor(Half(ch), crc'), n - 1) && ShiftedBy(ch, n) == ShiftedBy(Half(ch), n - 1)
  {
    hide Xor, Half, Odd;
    HalfXor(ch, crc);
    XorGroup(Half(ch), Half(crc), POLYNOMIAL);
    XorUnit(Xor(Half(ch), Half(crc)));
  }

  lemma IndexShiftsOut(ch: bv32, i: bv32)
    requires i < 256 && ShiftedBy(ch, 0) == ShiftedBy(i, 8)
    ensures ch == 0
  {
    hide HighBytes;
    ShiftByEight(i);
    assert HighBytes(i) == 0 by { SmallHasNoHighBytes(i); }
  }

  lemma SmallHasNoHighBytes(i: bv32)
    requires i < 256
    ensures HighBytes(i) == 0
  {
  }

  lemma StepsNone(ch: bv32, crc: bv32)
    requires ch == 0
    ensures Steps(Xor(ch, crc), 0) == crc
  {
    XorUnit(crc);
  }

  lemma RemainderOneMore(message: seq<bv8>, i: nat, crc: bv32)
    requires i < |message|
    ensures Remainder(message[..i + 1], crc) == FeedBits(BitsOf(message[i]), Remainder(message[..i], crc))
  {
    hide BitsOf, FeedBits;
    assert message[..i + 1] == message[..i] + [message[i]];
    MessageBitsAppend(message[..i], [message[i]]);
    assert MessageBits([message[i]]) == BitsOf(message[i]);
    FeedBitsAppend(MessageBits(message[..i]), BitsOf(message[i]), crc);
  }

  lemma {:induction false} MessageBitsAppend(a: seq<bv8>, b: seq<bv8>)
    ensures MessageBits(a + b) == MessageBits(a) + MessageBits(b)
    decreases |a|
  {
    hide BitsOf;
    if a == [] {
      assert a + b == b;
    } else {
      assert (a + b)[1..] == a[1..] + b;
      MessageBitsAppend(a[1..], b);
    }
  }

  /** calculate_crc32_partial. */
  method CalculateCrc32Partial(table: seq<bv32>, input: seq<bv8>, start: bv32) returns (crc: bv32)
    requires IsTable(table)
    ensures crc == Remainder(input, start)
  {
    hide Remainder, FeedBits, BitsOf, Steps, Xor, Word, HighBytes, LowByte;
    crc := start;
    assert input[..0] == [];
    RemainderNone(start);
    for i := 0 to |input|
      invariant crc == Remainder(input[..i], start)
    {
      var idx := LowByte(Xor(Word(input[i]), crc));
      LowByteSmall(Xor(Word(input[i]), crc));
      IndexAndBack(idx);
      TableStep(crc, input[i]);
      RemainderOneMore(input, i, start);
      crc := Xor(HighBytes(crc), table[idx as nat]);
    }
    assert input[..|input|] == input;
  }

  lemma RemainderNone(start: bv32)
    ensures Remainder([], start) == start
  {
  }

  lemma LowByteSmall(x: bv32)
    ensures LowByte(x) < 256
  {
  }

  /** calculate_crc32. */
  method CalculateCrc32(table: seq<bv32>, input: seq<bv8>) returns (crc: bv32)
    requires IsTable(table)
    ensures crc == Checksum(input)
  {
    crc := CalculateCrc32Partial(table, input, ALL_ONES);
    crc := !crc;
  }

  /** Checksumming piece by piece is checksumming the whole. */
  lemma RemainderInPieces(a: seq<bv8>, b: seq<bv8>, crc: bv32)
    ensures Remainder(a + b, crc) == Remainder(b, Remainder(a, crc))
  {
    hide FeedBits, MessageBits;
    MessageBitsAppend(a, b);
    FeedBitsAppend(MessageBits(a), MessageBits(b), crc);
  }
}
