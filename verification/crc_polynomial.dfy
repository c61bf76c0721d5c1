/** What the checksum of shared_lib/src/crc.rs is as arithmetic: the remainder of the message as a
    polynomial over the field of two elements, divided by the generator of CRC-32.  A polynomial is the
    set of its exponents with coefficient one. */
module CrcPolynomial {
  import opened Crc

  type Poly = set<nat>

  /** x^32 + x^26 + x^23 + x^22 + x^16 + x^12 + x^11 + x^10 + x^8 + x^7 + x^5 + x^4 + x^2 + x + 1. */
  const GENERATOR: Poly := {32, 26, 23, 22, 16, 12, 11, 10, 8, 7, 5, 4, 2, 1, 0}

  function Plus(p: Poly, q: Poly): (r: Poly)
    ensures forall e :: e in r <==> (e in p) != (e in q)
  {
    (p - q) + (q - p)
  }

  /** The product with x^n. */
  function Times(p: Poly, n: nat): Poly { set e | e in p :: e + n }

  /** A message, first bit highest. */
  function MessagePoly(bits: seq<bool>): Poly
    decreases |bits|
  {
    if bits == [] then {} else Plus(if bits[0] then {|bits| - 1} else {}, MessagePoly(bits[1..]))
  }

  /** The product of the generator with a quotient, first bit highest. */
  function Multiple(quotient: seq<bool>): Poly
    decreases |quotient|
  {
    if quotient == [] then {} else Plus(if quotient[0] then Times(GENERATOR, |quotient| - 1) else {}, Multiple(quotient[1..]))
  }

  /** A remainder in the register: bit j holds the coefficient of x^(31 - j). */
  function RegisterPoly(w: bv32): Poly {
    set k: nat | k < 32 && Coefficient(w, k)
  }

  predicate Coefficient(w: bv32, k: nat)
    requires k < 32
  {
    LowBits(w, 32)[31 - k]
  }

  // ---- The bits of a word ------------------------------------------------------------------------------

  lemma {:induction false} BitsOfXor(x: bv32, y: bv32, n: nat, j: nat)
    requires j < n
    ensures LowBits(Xor(x, y), n)[j] == (LowBits(x, n)[j] != LowBits(y, n)[j])
    decreases n
  {
    hide Xor, Half, Odd;
    OddXor(x, y);
    HalfXor(x, y);
    if j > 0 {
      BitsOfXor(Half(x), Half(y), n - 1, j - 1);
    }
  }

  lemma {:induction false} BitNumber(w: bv32, n: nat, j: nat)
    requires j < n
    ensures LowBits(w, n)[j] == Odd(ShiftedBy(w, j))
    decreases n
  {
    hide Half, Odd;
    if j > 0 {
      BitNumber(Half(w), n - 1, j - 1);
    }
  }

  lemma AllShiftedOut(w: bv32)
    ensures ShiftedBy(w, 32) == 0
  {
    hide ShiftedBy, HighBytes;
    ShiftInTwo(w, 8, 24);
    ShiftByEight(w);
    var w1 := HighBytes(w);
    ShiftInTwo(w1, 8, 16);
    ShiftByEight(w1);
    var w2 := HighBytes(w1);
    ShiftInTwo(w2, 8, 8);
    ShiftByEight(w2);
    var w3 := HighBytes(w2);
    ShiftByEight(w3);
    FourBytesOut(w);
  }

  lemma FourBytesOut(w: bv32)
    ensures HighBytes(HighBytes(HighBytes(HighBytes(w)))) == 0
  {
  }

  lemma BitsOfHalf(w: bv32, j: nat)
    requires j < 32
    ensures LowBits(Half(w), 32)[j] == (j < 31 && LowBits(w, 32)[j + 1])
  {
    hide Half, Odd, LowBits;
    BitNumber(Half(w), 32, j);
    assert ShiftedBy(w, j + 1) == ShiftedBy(Half(w), j);
    if j < 31 {
      BitNumber(w, 32, j + 1);
    } else {
      AllShiftedOut(w);
      ZeroIsEven();
    }
  }

  lemma ZeroIsEven()
    ensures !Odd(0)
  {
  }

  lemma BitsOfBit(b: bool, j: nat)
    requires j < 32
    ensures LowBits(Bit(b), 32)[j] == (j == 0 && b)
  {
    hide Half, Odd, LowBits, Bit;
    BitFacts(b);
    BitNumber(Bit(b), 32, j);
    if j > 0 {
      assert ShiftedBy(Bit(b), j) == ShiftedBy(0, j - 1);
      ZeroShifts(j - 1);
      ZeroIsEven();
    }
  }

  lemma {:induction false} ZeroShifts(n: nat)
    ensures ShiftedBy(0, n) == 0
  {
    if n > 0 {
      assert Half(0) == 0;
      ZeroShifts(n - 1);
    }
  }

  /** The constant of the source is the generator without its leading term, highest coefficient in
      the lowest bit. */
  lemma PolynomialIsGenerator()
    ensures RegisterPoly(POLYNOMIAL) == GENERATOR - {32}
  {
    hide LowBits;
    var b := LowBits(POLYNOMIAL, 32);
    Digits();
    assert b == [false, false, false, false, false, true, false, false] + [true, true, false, false, false, false, false, true] +
                [false, false, false, true, true, true, false, true] + [true, false, true, true, false, true, true, true];
    forall k: nat | k < 32 ensures Coefficient(POLYNOMIAL, k) <==> k in GENERATOR {
      assert Coefficient(POLYNOMIAL, k) == b[31 - k];
    }
  }

  lemma Digits()
    ensures LowBits(POLYNOMIAL, 32) ==
              [false, false, false, false, false, true, false, false] + [true, true, false, false, false, false, false, true] +
              [false, false, false, true, true, true, false, true] + [true, false, true, true, false, true, true, true]
  {
    hide LowBits, ShiftedBy;
    BitsInTwo(0xEDB88320, 8, 24);
    ShiftByEight(0xEDB88320);
    assert HighBytes(0xEDB88320) == 0xEDB883;
    BitsInTwo(0xEDB883, 8, 16);
    ShiftByEight(0xEDB883);
    assert HighBytes(0xEDB883) == 0xEDB8;
    BitsInTwo(0xEDB8, 8, 8);
    ShiftByEight(0xEDB8);
    assert HighBytes(0xEDB8) == 0xED;
    LowestDigits();
    MiddleDigits();
    HighestDigits();
  }

  lemma {:induction false} BitsInTwo(w: bv32, n: nat, m: nat)
    ensures LowBits(w, n + m) == LowBits(w, n) + LowBits(ShiftedBy(w, n), m)
    decreases n
  {
    hide Half, Odd;
    if n > 0 {
      BitsInTwo(Half(w), n - 1, m);
    }
  }

  lemma LowestDigits()
    ensures LowBits(0xEDB88320, 8) == [false, false, false, false, false, true, false, false]
  {
  }

  lemma MiddleDigits()
    ensures LowBits(0xEDB883, 8) == [true, true, false, false, false, false, false, true]
    ensures LowBits(0xEDB8, 8) == [false, false, false, true, true, true, false, true]
  {
  }

  lemma HighestDigits()
    ensures LowBits(0xED, 8) == [true, false, true, true, false, true, true, true]
  {
  }

  lemma BitsOfReduce(b: bool, j: nat)
    requires j < 32
    ensures LowBits(Reduce(b), 32)[j] == (b && 31 - j in GENERATOR)
  {
    hide LowBits;
    if b {
      PolynomialIsGenerator();
      assert 31 - j in RegisterPoly(POLYNOMIAL) <==> Coefficient(POLYNOMIAL, 31 - j);
    } else {
      BitsOfBit(false, j);
    }
  }

  // ---- One bit -----------------------------------------------------------------------------------------

  lemma InTimes(p: Poly, n: nat, e: nat)
    ensures e in Times(p, n) <==> e >= n && e - n in p
  {
    if e >= n && e - n in p {
      assert e - n + n == e;
    }
  }

  /** Feeding a bit multiplies the register by x, adds the bit at x^32, and takes away the generator
      if that made a term of degree 32. */
  lemma FeedBitDivides(crc: bv32, bit: bool)
    ensures var carry := Odd(crc) != bit;
            Plus(Times(RegisterPoly(crc), 1), if bit then {32} else {}) ==
            Plus(RegisterPoly(FeedBit(crc, bit)), if carry then GENERATOR else {})
  {
    hide Times, Half, Odd, Xor, LowBits, Reduce, Bit, BitStep;
    var carry := Odd(crc) != bit;
    var left := Plus(Times(RegisterPoly(crc), 1), if bit then {32} else {});
    var right := Plus(RegisterPoly(FeedBit(crc, bit)), if carry then GENERATOR else {});
    forall e: nat ensures e in left <==> e in right {
      InTimes(RegisterPoly(crc), 1, e);
      if e < 32 {
        FedBit(crc, bit, 31 - e);
      } else if e == 32 {
        BitNumber(crc, 32, 0);
      }
    }
  }

  lemma FedBit(crc: bv32, bit: bool, j: nat)
    requires j < 32
    ensures LowBits(FeedBit(crc, bit), 32)[j] == ((j < 31 && LowBits(crc, 32)[j + 1]) != ((Odd(crc) != bit) && 31 - j in GENERATOR))
  {
    hide Half, Odd, Xor, LowBits, Reduce, Bit;
    var x := Xor(crc, Bit(bit));
    OddXor(crc, Bit(bit));
    BitFacts(bit);
    BitsOfXor(Half(x), Reduce(Odd(x)), 32, j);
    BitsOfReduce(Odd(x), j);
    BitsOfHalf(x, j);
    if j < 31 {
      BitsOfXor(crc, Bit(bit), 32, j + 1);
      BitsOfBit(bit, j + 1);
    }
  }

  // ---- The whole message -------------------------------------------------------------------------------

  /** The message, with the start value added to its first 32 bits and 32 bits of zeros behind it,
      differs from what is left by a multiple of the generator. */
  ghost predicate LeavesRemainder(bits: seq<bool>, start: bv32, quotient: seq<bool>, left: bv32) {
    Plus(Times(MessagePoly(bits), 32), Times(RegisterPoly(start), |bits|)) == Plus(Multiple(quotient), RegisterPoly(left))
  }

  lemma {:induction false} FeedBitsDivides(bits: seq<bool>, start: bv32) returns (quotient: seq<bool>)
    ensures |quotient| == |bits| && LeavesRemainder(bits, start, quotient, FeedBits(bits, start))
    decreases |bits|
  {
    hide RegisterPoly, FeedBit, Odd;
    if bits == [] {
      quotient := [];
      assert Times(RegisterPoly(start), 0) == RegisterPoly(start);
    } else {
      var next := FeedBit(start, bits[0]);
      var rest := FeedBitsDivides(bits[1..], next);
      var carry := Odd(start) != bits[0];
      quotient := [carry] + rest;
      assert quotient[1..] == rest;
      OneMoreBit(bits, start, rest);
    }
  }

  lemma OneMoreBit(bits: seq<bool>, start: bv32, rest: seq<bool>)
    requires bits != [] && |rest| == |bits| - 1
    requires LeavesRemainder(bits[1..], FeedBit(start, bits[0]), rest, FeedBits(bits, start))
    ensures LeavesRemainder(bits, start, [Odd(start) != bits[0]] + rest, FeedBits(bits, start))
  {
    hide RegisterPoly, FeedBit, Odd, FeedBits, MessagePoly, Multiple, Times;
    var n := |rest|;
    var q := [Odd(start) != bits[0]] + rest;
    assert q[1..] == rest;
    var next := FeedBit(start, bits[0]);
    var left := Plus(Times(MessagePoly(bits), 32), Times(RegisterPoly(start), n + 1));
    var right := Plus(Multiple(q), RegisterPoly(FeedBits(bits, start)));
    forall e: nat ensures e in left <==> e in right {
      assert e in Plus(Times(MessagePoly(bits[1..]), 32), Times(RegisterPoly(next), n)) <==>
             e in Plus(Multiple(rest), RegisterPoly(FeedBits(bits, start)));
      OneMoreMessageBit(bits, e);
      OneMoreQuotientBit(q, e);
      OneMoreRegister(start, bits[0], n, e);
    }
  }

  lemma OneMoreMessageBit(bits: seq<bool>, e: nat)
    requires bits != []
    ensures e in Times(MessagePoly(bits), 32) <==> (bits[0] && e == |bits| + 31) != (e in Times(MessagePoly(bits[1..]), 32))
  {
    hide Times;
    InTimes(MessagePoly(bits), 32, e);
    InTimes(MessagePoly(bits[1..]), 32, e);
  }

  lemma OneMoreQuotientBit(q: seq<bool>, e: nat)
    requires q != []
    ensures e in Multiple(q) <==> (q[0] && e >= |q| - 1 && e - (|q| - 1) in GENERATOR) != (e in Multiple(q[1..]))
  {
    hide Times;
    InTimes(GENERATOR, |q| - 1, e);
  }

  /** FeedBitDivides, multiplied by x^n. */
  lemma OneMoreRegister(start: bv32, bit: bool, n: nat, e: nat)
    ensures (e in Times(RegisterPoly(start), n + 1)) != (bit && e == n + 32) <==>
            (e in Times(RegisterPoly(FeedBit(start, bit)), n)) != (Odd(start) != bit && e >= n && e - n in GENERATOR)
  {
    hide Times, RegisterPoly, FeedBit, Odd;
    InTimes(RegisterPoly(start), n + 1, e);
    InTimes(RegisterPoly(FeedBit(start, bit)), n, e);
    if e >= n {
      InTimes(RegisterPoly(start), 1, e - n);
      FeedBitDivides(start, bit);
      assert e - n in Plus(Times(RegisterPoly(start), 1), if bit then {32} else {}) <==>
             e - n in Plus(RegisterPoly(FeedBit(start, bit)), if Odd(start) != bit then GENERATOR else {});
    }
  }

  // ---- The remainder is determined ---------------------------------------------------------------------

  function Differences(p: seq<bool>, q: seq<bool>): (r: seq<bool>)
    requires |p| == |q|
    ensures |r| == |p|
  {
    seq(|p|, i requires 0 <= i < |p| => p[i] != q[i])
  }

  lemma {:induction false} MultiplesAdd(p: seq<bool>, q: seq<bool>)
    requires |p| == |q|
    ensures Plus(Multiple(p), Multiple(q)) == Multiple(Differences(p, q))
    decreases |p|
  {
    if p != [] {
      MultiplesAdd(p[1..], q[1..]);
      assert Differences(p, q)[1..] == Differences(p[1..], q[1..]);
    }
  }

  /** A multiple of the generator is zero or has a term of degree 32 or more. */
  lemma {:induction false} MultipleIsHigh(q: seq<bool>)
    ensures forall e :: e in Multiple(q) ==> e < |q| + 32
    ensures Multiple(q) == {} || exists e :: e in Multiple(q) && e >= 32
    decreases |q|
  {
    hide Times;
    if q != [] {
      MultipleIsHigh(q[1..]);
      var n := |q| - 1;
      forall e | e in Multiple(q) ensures e < |q| + 32 {
        InTimes(GENERATOR, n, e);
      }
      if q[0] {
        InTimes(GENERATOR, n, n + 32);
        assert n + 32 in Multiple(q);
      } else {
        assert Multiple(q) == Multiple(q[1..]);
      }
    }
  }

  lemma {:induction false} NoBitsNoWord(w: bv32, n: nat)
    requires ShiftedBy(w, n) == 0 && forall j :: 0 <= j < n ==> !LowBits(w, n)[j]
    ensures w == 0
    decreases n
  {
    if n > 0 {
      assert !LowBits(w, n)[0];
      assert LowBits(Half(w), n - 1) == LowBits(w, n)[1..];
      NoBitsNoWord(Half(w), n - 1);
      HalfAndOdd(w);
    }
  }

  lemma HalfAndOdd(w: bv32)
    requires Half(w) == 0 && !Odd(w)
    ensures w == 0
  {
  }

  lemma RegistersDiffer(a: bv32, b: bv32)
    requires RegisterPoly(a) == RegisterPoly(b)
    ensures a == b
  {
    hide Xor, LowBits, ShiftedBy;
    forall j | 0 <= j < 32 ensures !LowBits(Xor(a, b), 32)[j] {
      BitsOfXor(a, b, 32, j);
      assert 31 - j in RegisterPoly(a) <==> Coefficient(a, 31 - j);
      assert 31 - j in RegisterPoly(b) <==> Coefficient(b, 31 - j);
    }
    AllShiftedOut(Xor(a, b));
    NoBitsNoWord(Xor(a, b), 32);
    XorZeroMeansSame(a, b);
  }

  /** The bit-serial remainder is the remainder of the division by the generator, and the only word
      that is. */
  lemma RemainderIsDivision(message: seq<bv8>, start: bv32, left: bv32)
    ensures left == Remainder(message, start) <==>
              exists q: seq<bool> :: |q| == 8 * |message| && LeavesRemainder(MessageBits(message), start, q, left)
  {
    hide RegisterPoly, FeedBits, LeavesRemainder, MessageBits;
    var bits := MessageBits(message);
    var p := FeedBitsDivides(bits, start);
    if q: seq<bool> :| |q| == 8 * |message| && LeavesRemainder(bits, start, q, left) {
      OnlyOneRemainder(bits, start, p, FeedBits(bits, start), q, left);
    }
  }

  lemma OnlyOneRemainder(bits: seq<bool>, start: bv32, p: seq<bool>, a: bv32, q: seq<bool>, b: bv32)
    requires |p| == |q| && LeavesRemainder(bits, start, p, a) && LeavesRemainder(bits, start, q, b)
    ensures a == b
  {
    var d := Differences(p, q);
    MultiplesAdd(p, q);
    MultipleIsHigh(d);
    assert Plus(RegisterPoly(a), RegisterPoly(b)) == Multiple(d) by { SumsAgree(p, a, q, b); }
    assert forall e :: e in Multiple(d) ==> e < 32;
    assert RegisterPoly(a) == RegisterPoly(b) by {
      assert forall e :: e in RegisterPoly(a) <==> e in RegisterPoly(b);
    }
    RegistersDiffer(a, b);
  }

  lemma SumsAgree(p: seq<bool>, a: bv32, q: seq<bool>, b: bv32)
    requires |p| == |q| && Plus(Multiple(p), RegisterPoly(a)) == Plus(Multiple(q), RegisterPoly(b))
    ensures Plus(RegisterPoly(a), RegisterPoly(b)) == Plus(Multiple(p), Multiple(q))
  {
    hide RegisterPoly, Multiple;
    forall e: nat ensures e in Plus(RegisterPoly(a), RegisterPoly(b)) <==> e in Plus(Multiple(p), Multiple(q)) {
      assert e in Plus(Multiple(p), RegisterPoly(a)) <==> e in Plus(Multiple(q), RegisterPoly(b));
    }
  }

  // ---- The published check value -----------------------------------------------------------------------

  lemma NextRegister(message: seq<bv8>, i: nat, before: bv32, mixed: bv32, after: bv32)
    requires i < |message| && Remainder(message[..i], ALL_ONES) == before
    requires Xor(before, Word(message[i])) == mixed && Steps(mixed, 8) == after
    ensures Remainder(message[..i + 1], ALL_ONES) == after
  {
    hide Remainder, Steps, BitsOf, FeedBits;
    RemainderOneMore(message, i, ALL_ONES);
    ByteIsEightBits(before, message[i]);
  }
  lemma EightSteps(x: bv32, x4: bv32, x8: bv32)
    requires BitStep(BitStep(BitStep(BitStep(x)))) == x4 && BitStep(BitStep(BitStep(BitStep(x4)))) == x8
    ensures Steps(x, 8) == x8
  {
    hide BitStep;
    assert Steps(x, 8) == Steps(BitStep(x), 7) == Steps(BitStep(BitStep(x)), 6);
    assert Steps(BitStep(BitStep(x)), 6) == Steps(BitStep(BitStep(BitStep(x))), 5) == Steps(x4, 4);
    assert Steps(x4, 4) == Steps(BitStep(x4), 3) == Steps(BitStep(BitStep(x4)), 2);
    assert Steps(BitStep(BitStep(x4)), 2) == Steps(BitStep(BitStep(BitStep(x4))), 1) == Steps(x8, 0);
  }

  /** The digits one to nine have the checksum that is published for CRC-32. */
  lemma CheckValue()
    ensures Checksum([0x31, 0x32, 0x33, 0x34, 0x35, 0x36, 0x37, 0x38, 0x39]) == 0xCBF43926
  {
    hide Remainder, Steps, Xor, Word, BitStep;
    var m: seq<bv8> := [0x31, 0x32, 0x33, 0x34, 0x35, 0x36, 0x37, 0x38, 0x39];
    assert m[..0] == [];
    RemainderNone(ALL_ONES);
    FeedOne();
    NextRegister(m, 0, 0xFFFFFFFF, 0xFFFFFFCE, 0x7C231048);
    FeedTwo();
    NextRegister(m, 1, 0x7C231048, 0x7C23107A, 0xB0ACBB32);
    FeedThree();
    NextRegister(m, 2, 0xB0ACBB32, 0xB0ACBB01, 0x77B79C2D);
    FeedFour();
    NextRegister(m, 3, 0x77B79C2D, 0x77B79C19, 0x641C1F5C);
    FeedFive();
    NextRegister(m, 4, 0x641C1F5C, 0x641C1F69, 0x340AC5E3);
    FeedSix();
    NextRegister(m, 5, 0x340AC5E3, 0x340AC5D5, 0xF68D2C9E);
    FeedSeven();
    NextRegister(m, 6, 0xF68D2C9E, 0xF68D2CA9, 0xAFFC9660);
    FeedEight();
    NextRegister(m, 7, 0xAFFC9660, 0xAFFC9658, 0x651F2550);
    FeedNine();
    NextRegister(m, 8, 0x651F2550, 0x651F2569, 0x340BC6D9);
    assert m[..9] == m;
    assert !(0x340BC6D9 as bv32) == 0xCBF43926;
  }

  lemma FeedOne()
    ensures Xor(0xFFFFFFFF, Word(0x31)) == 0xFFFFFFCE && Steps(0xFFFFFFCE, 8) == 0x7C231048
  {
    EightSteps(0xFFFFFFCE, 0xAFF51D84, 0x7C231048);
  }

  lemma FeedTwo()
    ensures Xor(0x7C231048, Word(0x32)) == 0x7C23107A && Steps(0x7C23107A, 8) == 0xB0ACBB32
  {
    EightSteps(0x7C23107A, 0xD11492EF, 0xB0ACBB32);
  }

  lemma FeedThree()
    ensures Xor(0xB0ACBB32, Word(0x33)) == 0xB0ACBB01 && Steps(0xB0ACBB01, 8) == 0x77B79C2D
  {
    EightSteps(0xB0ACBB01, 0x16BDDBD4, 0x77B79C2D);
  }

  lemma FeedFour()
    ensures Xor(0x77B79C2D, Word(0x34)) == 0x77B79C19 && Steps(0x77B79C19, 8) == 0x641C1F5C
  {
    EightSteps(0x77B79C19, 0xF774EA85, 0x641C1F5C);
  }

  lemma FeedFive()
    ensures Xor(0x641C1F5C, Word(0x35)) == 0x641C1F69 && Steps(0x641C1F69, 8) == 0x340AC5E3
  {
    EightSteps(0x641C1F69, 0xF64E52B2, 0x340AC5E3);
  }

  lemma FeedSix()
    ensures Xor(0x340AC5E3, Word(0x36)) == 0x340AC5D5 && Steps(0x340AC5D5, 8) == 0xF68D2C9E
  {
    EightSteps(0x340AC5D5, 0x682BFDA9, 0xF68D2C9E);
  }

  lemma FeedSeven()
    ensures Xor(0xF68D2C9E, Word(0x37)) == 0xF68D2CA9 && Steps(0xF68D2CA9, 8) == 0xAFFC9660
  {
    EightSteps(0xF68D2CA9, 0xFF67418E, 0xAFFC9660);
  }

  lemma FeedEight()
    ensures Xor(0xAFFC9660, Word(0x38)) == 0xAFFC9658 && Steps(0xAFFC9658, 8) == 0x651F2550
  {
    EightSteps(0xAFFC9658, 0xE7474A45, 0x651F2550);
  }

  lemma FeedNine()
    ensures Xor(0x651F2550, Word(0x39)) == 0x651F2569 && Steps(0x651F2569, 8) == 0x340BC6D9
  {
    EightSteps(0x651F2569, 0xF65E6112, 0x340BC6D9);
  }
}
