/** What the checksum detects: any change confined to 32 consecutive bits of a message. */
module CrcBursts {
  import opened Crc

  // ---- Differences ---------------------------------------------------------------------------------------

  /** Where two messages of equal length differ. */
  function Difference(a: seq<bool>, b: seq<bool>): (d: seq<bool>)
    requires |a| == |b|
    ensures |d| == |a| && forall i :: 0 <= i < |d| ==> (d[i] <==> a[i] != b[i])
  {
    seq(|a|, i requires 0 <= i < |a| && |a| == |b| => a[i] != b[i])
  }

  /** The remainders of two messages differ by the remainder of their difference. */
  lemma {:induction false} DifferenceOfRemainders(a: seq<bool>, b: seq<bool>, x: bv32, y: bv32)
    requires |a| == |b|
    ensures Xor(FeedBits(a, x), FeedBits(b, y)) == FeedBits(Difference(a, b), Xor(x, y))
    decreases |a|
  {
    hide Xor, FeedBit, Bit;
    if a != [] {
      var d := Difference(a, b);
      assert d[1..] == Difference(a[1..], b[1..]);
      DifferenceOfBits(a[0], b[0], x, y);
      DifferenceOfRemainders(a[1..], b[1..], FeedBit(x, a[0]), FeedBit(y, b[0]));
    }
  }

  lemma DifferenceOfBits(a: bool, b: bool, x: bv32, y: bv32)
    ensures Xor(FeedBit(x, a), FeedBit(y, b)) == FeedBit(Xor(x, y), a != b)
  {
    hide Xor, Bit, BitStep;
    BitStepLinear(Xor(x, Bit(a)), Xor(y, Bit(b)));
    XorSwap(x, Bit(a), y, Bit(b));
    BitXor(a, b);
  }

  lemma BitXor(a: bool, b: bool)
    ensures Xor(Bit(a), Bit(b)) == Bit(a != b)
  {
  }

  // ---- Stepping never reaches zero from elsewhere ----------------------------------------------------------

  lemma StepToZero(x: bv32)
    requires BitStep(x) == 0
    ensures x == 0
  {
  }

  /** Equal bits keep a difference alive. */
  lemma {:induction false} SameBitsKeepDifference(z: seq<bool>, d: bv32)
    requires d != 0 && forall i :: 0 <= i < |z| ==> !z[i]
    ensures FeedBits(z, d) != 0
    decreases |z|
  {
    hide FeedBit;
    if z != [] {
      FeedNothing(d);
      SameBitsKeepDifference(z[1..], FeedBit(d, z[0]));
    }
  }

  lemma FeedNothing(d: bv32)
    ensures d != 0 ==> FeedBit(d, false) != 0
    ensures FeedBit(0, false) == 0
  {
    assert Xor(d, Bit(false)) == d;
    if BitStep(d) == 0 {
      StepToZero(d);
    }
  }

  lemma {:induction false} NoDifferenceYet(z: seq<bool>)
    requires forall i :: 0 <= i < |z| ==> !z[i]
    ensures FeedBits(z, 0) == 0
    decreases |z|
  {
    hide FeedBit;
    if z != [] {
      FeedNothing(0);
      NoDifferenceYet(z[1..]);
    }
  }

  // ---- A burst -----------------------------------------------------------------------------------------------

  predicate TopBit(x: bv32) { x & 0x80000000 != 0 }

  lemma TopBitOfHalf(x: bv32)
    ensures !TopBit(Half(x))
  {
  }

  /** If feeding a bit leaves the top bit clear, no one fell out. */
  lemma NoReduction(d: bv32, bit: bool)
    requires !TopBit(FeedBit(d, bit))
    ensures FeedBit(d, bit) == Half(d)
  {
    hide Half, Odd, Xor, TopBit;
    var x := Xor(d, Bit(bit));
    NoReductionStep(x);
    HalfXor(d, Bit(bit));
    BitFacts(bit);
    XorUnit(Half(d));
  }

  lemma NoReductionStep(x: bv32)
    requires !TopBit(BitStep(x))
    ensures BitStep(x) == Half(x)
  {
    if Odd(x) {
      TopBitOfHalf(x);
      ReductionSetsTop(Half(x));
    } else {
      XorUnit(Half(x));
    }
  }

  lemma ReductionSetsTop(h: bv32)
    requires !TopBit(h)
    ensures TopBit(Xor(h, POLYNOMIAL))
  {
  }

  lemma {:induction false} ZeroStaysZero(n: nat)
    ensures ShiftedBy(0, n) == 0
    decreases n
  {
    if n > 0 {
      assert Half(0) == 0;
      ZeroStaysZero(n - 1);
    }
  }

  lemma ShiftByThirtyOne(x: bv32)
    ensures ShiftedBy(x, 31) == 0 ==> !TopBit(x)
  {
    hide Half, ShiftedBy, HighBytes, Nibble, Quarter;
    ShiftInTwo(x, 8, 23);
    ShiftByEight(x);
    var x1 := HighBytes(x);
    ShiftInTwo(x1, 8, 15);
    ShiftByEight(x1);
    var x2 := HighBytes(x1);
    ShiftInTwo(x2, 8, 7);
    ShiftByEight(x2);
    var x3 := HighBytes(x2);
    ShiftInTwo(x3, 4, 3);
    ShiftByFour(x3);
    ShiftByThree(Nibble(x3));
    TopBitLast(x);
  }

  lemma ShiftByThree(x: bv32)
    ensures ShiftedBy(x, 3) == Half(Half(Half(x)))
  {
    hide Half;
    assert ShiftedBy(x, 3) == ShiftedBy(Half(x), 2);
  }

  lemma TopBitLast(x: bv32)
    ensures Half(Half(Half(Nibble(HighBytes(HighBytes(HighBytes(x))))))) == 0 ==> !TopBit(x)
  {
    assert x >> 8 >> 8 >> 8 >> 4 >> 1 >> 1 >> 1 == x >> 31;
  }

  /** Few shifts to zero: the top bit is clear. */
  lemma SmallHasNoTopBit(x: bv32, n: nat)
    requires n <= 31 && ShiftedBy(x, n) == 0
    ensures !TopBit(x)
  {
    hide ShiftedBy, TopBit;
    ShiftInTwo(x, n, 31 - n);
    ZeroStaysZero(31 - n);
    ShiftByThirtyOne(x);
  }

  /** Up to 31 bits lead to zero only from a remainder that many shifts away from zero. */
  lemma {:induction false} ZeroComesFromSmall(e: seq<bool>, d: bv32)
    requires |e| <= 31 && FeedBits(e, d) == 0
    ensures ShiftedBy(d, |e|) == 0
    decreases |e|
  {
    hide FeedBit, Half, TopBit;
    if e != [] {
      var d1 := FeedBit(d, e[0]);
      ZeroComesFromSmall(e[1..], d1);
      SmallHasNoTopBit(d1, |e| - 1);
      NoReduction(d, e[0]);
    }
  }

  lemma FirstOne()
    ensures FeedBit(0, true) == POLYNOMIAL && TopBit(POLYNOMIAL)
  {
    assert Xor(0, Bit(true)) == 1;
    assert Half(1) == 0 && Odd(1);
    XorUnit(POLYNOMIAL);
  }

  /** Up to 32 bits of difference that begin with a one leave a difference. */
  lemma BurstLeavesDifference(e: seq<bool>)
    requires 1 <= |e| <= 32 && e[0]
    ensures FeedBits(e, 0) != 0
  {
    hide FeedBit, TopBit, Half;
    FirstOne();
    assert FeedBits(e, 0) == FeedBits(e[1..], POLYNOMIAL);
    if FeedBits(e[1..], POLYNOMIAL) == 0 {
      ZeroComesFromSmall(e[1..], POLYNOMIAL);
      SmallHasNoTopBit(POLYNOMIAL, |e| - 1);
    }
  }

  /** The first bit at which a difference is one. */
  lemma {:induction false} FirstDifference(d: seq<bool>) returns (f: nat)
    requires exists i :: 0 <= i < |d| && d[i]
    ensures f < |d| && d[f] && forall i :: 0 <= i < f ==> !d[i]
    decreases |d|
  {
    if d[0] {
      f := 0;
    } else {
      assert exists i :: 0 <= i < |d[1..]| && d[1..][i] by {
        var i :| 0 <= i < |d| && d[i];
        assert d[1..][i - 1];
      }
      f := FirstDifference(d[1..]);
      f := f + 1;
      forall i | 0 <= i < f ensures !d[i] {
        if i > 0 {
          assert !d[1..][i - 1];
        }
      }
    }
  }

  /** Two messages whose differences, of which there are some, all lie within 32 consecutive bits. */
  ghost predicate Burst(a: seq<bool>, b: seq<bool>, at: nat) {
    && |a| == |b| && a != b
    && forall i :: 0 <= i < |a| && a[i] != b[i] ==> at <= i < at + 32
  }

  /** A burst always changes the remainder. */
  lemma BurstChangesRemainder(a: seq<bool>, b: seq<bool>, at: nat, crc: bv32)
    requires Burst(a, b, at)
    ensures FeedBits(a, crc) != FeedBits(b, crc)
  {
    hide FeedBits, Xor;
    var d := Difference(a, b);
    assert exists i :: 0 <= i < |d| && d[i];
    var f := FirstDifference(d);
    var end := if at + 32 <= |d| then at + 32 else |d|;
    var burst := d[f..end];
    assert d == d[..f] + (burst + d[end..]);
    FeedBitsAppend(d[..f], burst + d[end..], 0);
    FeedBitsAppend(burst, d[end..], 0);
    NoDifferenceYet(d[..f]);
    BurstLeavesDifference(burst);
    SameBitsKeepDifference(d[end..], FeedBits(burst, 0));
    DifferenceOfRemainders(a, b, crc, crc);
    XorZeroMeansSame(crc, crc);
    XorZeroMeansSame(FeedBits(a, crc), FeedBits(b, crc));
  }

  // ---- Bytes ------------------------------------------------------------------------------------------------

  lemma SameHalvesSameWord(x: bv32, y: bv32)
    requires Half(x) == Half(y) && (Odd(x) <==> Odd(y))
    ensures x == y
  {
  }

  lemma {:induction false} BitsDetermineWord(x: bv32, y: bv32, n: nat)
    requires LowBits(x, n) == LowBits(y, n) && ShiftedBy(x, n) == ShiftedBy(y, n)
    ensures x == y
    decreases n
  {
    hide Half, Odd;
    if n > 0 {
      assert LowBits(x, n)[0] == LowBits(y, n)[0];
      assert LowBits(x, n)[1..] == LowBits(Half(x), n - 1) && LowBits(y, n)[1..] == LowBits(Half(y), n - 1);
      BitsDetermineWord(Half(x), Half(y), n - 1);
      SameHalvesSameWord(x, y);
    }
  }

  lemma BitsDetermineByte(a: bv8, b: bv8)
    requires BitsOf(a) == BitsOf(b)
    ensures a == b
  {
    hide LowBits, ShiftedBy, Word;
    ByteShiftsOut(a);
    ByteShiftsOut(b);
    BitsDetermineWord(Word(a), Word(b), 8);
    WordsDetermineBytes(a, b);
  }

  lemma WordsDetermineBytes(a: bv8, b: bv8)
    requires Word(a) == Word(b)
    ensures a == b
  {
  }

  /** Bit j of byte i of a message. */
  lemma {:induction false} BitOfMessage(m: seq<bv8>, i: nat, j: nat)
    requires i < |m| && j < 8
    ensures 8 * i + j < |MessageBits(m)| && MessageBits(m)[8 * i + j] == BitsOf(m[i])[j]
    decreases |m|
  {
    hide BitsOf;
    if i > 0 {
      BitOfMessage(m[1..], i - 1, j);
      assert MessageBits(m)[8 * i + j] == MessageBits(m[1..])[8 * (i - 1) + j];
    }
  }

  /** Two messages that differ, but only within four consecutive bytes. */
  ghost predicate FourByteBurst(a: seq<bv8>, b: seq<bv8>, at: nat) {
    && |a| == |b| && a != b
    && forall i :: 0 <= i < |a| && a[i] != b[i] ==> at <= i < at + 4
  }

  lemma BytesToBits(a: seq<bv8>, b: seq<bv8>, at: nat)
    requires FourByteBurst(a, b, at)
    ensures Burst(MessageBits(a), MessageBits(b), 8 * at)
  {
    hide BitsOf, MessageBits;
    var x, y := MessageBits(a), MessageBits(b);
    forall i | 0 <= i < |x| && x[i] != y[i] ensures 8 * at <= i < 8 * at + 32 {
      BitOfMessage(a, i / 8, i % 8);
      BitOfMessage(b, i / 8, i % 8);
      assert a[i / 8] != b[i / 8];
    }
    var k :| 0 <= k < |a| && a[k] != b[k];
    if x == y {
      forall j | 0 <= j < 8 ensures BitsOf(a[k])[j] == BitsOf(b[k])[j] {
        BitOfMessage(a, k, j);
        BitOfMessage(b, k, j);
      }
      BitsDetermineByte(a[k], b[k]);
    }
  }

  /** CRC-32 detects bursts: equal-length messages that differ only within four consecutive bytes
      never have the same checksum, whatever the starting value. */
  lemma BurstDetected(a: seq<bv8>, b: seq<bv8>, at: nat, crc: bv32)
    requires FourByteBurst(a, b, at)
    ensures Remainder(a, crc) != Remainder(b, crc) && Checksum(a) != Checksum(b)
  {
    hide FeedBits, MessageBits;
    BytesToBits(a, b, at);
    BurstChangesRemainder(MessageBits(a), MessageBits(b), 8 * at, crc);
    BurstChangesRemainder(MessageBits(a), MessageBits(b), 8 * at, ALL_ONES);
    ComplementsDiffer(Remainder(a, ALL_ONES), Remainder(b, ALL_ONES));
  }

  lemma ComplementsDiffer(x: bv32, y: bv32)
    ensures x != y ==> !x != !y
  {
  }
}
