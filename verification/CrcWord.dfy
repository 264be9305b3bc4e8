/** The CRC-32 register as a machine word: used to evaluate the constants of
    the polynomial 0x04C11DB7, nothing else. */
module CrcWord {
  import opened Bits
  import opened Lfsr

  const POLYNOM: bv32 := 0x04C1_1DB7

  /** The one-bit mask of bit `i`. */
  function Mask(i: nat): (m: bv32)
    requires i < 32
    ensures m & (m - 1) == 0
    decreases 32 - i
  {
    if i == 31 then 0x8000_0000 else HalfMask(Mask(i + 1)); Mask(i + 1) >> 1
  }

  lemma HalfMask(m: bv32)
    requires m & (m - 1) == 0
    ensures (m >> 1) & ((m >> 1) - 1) == 0
  {}

  lemma LowestMask()
    ensures Mask(0) == 1
  {
    assert Mask(28) == 0x1000_0000;
    assert Mask(24) == 0x0100_0000;
    assert Mask(20) == 0x0010_0000;
    assert Mask(16) == 0x0001_0000;
    assert Mask(12) == 0x0000_1000;
    assert Mask(8) == 0x0000_0100;
    assert Mask(4) == 0x0000_0010;
  }

  lemma {:induction false} MaskNotZero(i: nat)
    requires i < 32
    ensures Mask(i) != 0
    decreases i
  {
    if i == 0 {
      LowestMask();
    } else {
      MaskNotZero(i - 1);
      assert Mask(i - 1) == Mask(i) >> 1;
    }
  }

  lemma OnesHaveMask(m: bv32)
    ensures 0xFFFF_FFFF & m == m
  {}

  predicate BitAt(v: bv32, i: nat)
    requires i < 32
  {
    v & Mask(i) != 0
  }

  function Word(v: bv32): (b: seq<bool>)
    ensures |b| == 32
  {
    seq(32, i requires 0 <= i < 32 => BitAt(v, i))
  }

  function WordStep(v: bv32, d: bool): bv32 {
    if (v & 0x8000_0000 != 0) != d then (v << 1) ^ POLYNOM else v << 1
  }

  /** What a step does under a one-bit mask. */
  lemma MaskedStep(v: bv32, d: bool, m: bv32)
    requires m & (m - 1) == 0
    ensures WordStep(v, d) & m != 0 <==>
      (v & (m >> 1) != 0) != ((v & 0x8000_0000 != 0) != d && POLYNOM & m != 0)
  {
    assert ((v << 1) ^ POLYNOM) & m != 0 <==> ((v << 1) & m != 0) != (POLYNOM & m != 0);
    assert (v << 1) & m != 0 <==> v & (m >> 1) != 0;
  }

  lemma LowestBitStep(v: bv32, d: bool)
    ensures BitAt(WordStep(v, d), 0) == (BitAt(v, 31) != d)
    ensures BitAt(POLYNOM, 0)
  {
    LowestMask();
    MaskedStep(v, d, 1);
  }

  lemma UpperBitStep(v: bv32, d: bool, i: nat)
    requires 0 < i < 32
    ensures BitAt(WordStep(v, d), i) == (BitAt(v, i - 1) != (BitAt(POLYNOM, i) && (BitAt(v, 31) != d)))
  {
    assert Mask(i - 1) == Mask(i) >> 1;
    MaskedStep(v, d, Mask(i));
  }

  lemma WordStepIsStep(v: bv32, d: bool)
    ensures Step(Word(v), d, Word(POLYNOM)) == Word(WordStep(v, d))
  {
    forall i | 0 <= i < 32 ensures Step(Word(v), d, Word(POLYNOM))[i] == Word(WordStep(v, d))[i] {
      if i == 0 {
        LowestBitStep(v, d);
      } else {
        UpperBitStep(v, d, i);
      }
    }
  }

  function WordSteps(v: bv32, bits: seq<bool>): bv32
    decreases |bits|
  {
    if bits == [] then v else WordSteps(WordStep(v, bits[0]), bits[1..])
  }

  lemma {:induction false} WordStepsIsSteps(v: bv32, bits: seq<bool>)
    ensures Steps(Word(v), bits, Word(POLYNOM)) == Word(WordSteps(v, bits))
    decreases |bits|
  {
    if bits != [] {
      WordStepIsStep(v, bits[0]);
      WordStepsIsSteps(WordStep(v, bits[0]), bits[1..]);
    }
  }

  /** The word after `n` input bits of value 1. */
  function WordRun(v: bv32, n: nat): bv32
    decreases n
  {
    if n == 0 then v else WordRun(WordStep(v, true), n - 1)
  }

  lemma {:induction false} WordRunAppend(v: bv32, m: nat, n: nat)
    ensures WordRun(v, m + n) == WordRun(WordRun(v, m), n)
    decreases m
  {
    if m > 0 {
      WordRunAppend(WordStep(v, true), m - 1, n);
    }
  }

  lemma {:induction false} WordRunIsSteps(v: bv32, n: nat)
    ensures Steps(Word(v), Const(n, true), Word(POLYNOM)) == Word(WordRun(v, n))
    decreases n
  {
    if n > 0 {
      WordStepIsStep(v, true);
      assert Const(n, true)[1..] == Const(n - 1, true);
      WordRunIsSteps(WordStep(v, true), n - 1);
    }
  }

  function Step4(v: bv32, a: bool, b: bool, c: bool, d: bool): bv32 {
    WordStep(WordStep(WordStep(WordStep(v, a), b), c), d)
  }

  /** No byte takes the register from all ones back to all ones: one of bits 0, 9 and 12 is cleared. */
  lemma EightStepsClearABit(v: bv32, a: bool, b: bool, c: bool, d: bool, e: bool, f: bool, g: bool, h: bool)
    requires v == 0xFFFF_FFFF
    ensures Step4(Step4(v, a, b, c, d), e, f, g, h) & 0x1201 != 0x1201
  {}

  lemma ByteClearsABit(v: bv32, bits: seq<bool>)
    requires |bits| == 8 && v == 0xFFFF_FFFF
    ensures WordSteps(v, bits) & 0x1201 != 0x1201
  {
    hide Step4;
    var rest := bits[4..];
    var u := Step4(v, bits[0], bits[1], bits[2], bits[3]);
    FourSteps(v, bits);
    FourSteps(u, rest);
    assert rest[4..] == [];
    var w := Step4(u, rest[0], rest[1], rest[2], rest[3]);
    assert WordSteps(w, []) == w;
    EightStepsClearABit(v, bits[0], bits[1], bits[2], bits[3], rest[0], rest[1], rest[2], rest[3]);
  }

  lemma FourSteps(v: bv32, bits: seq<bool>)
    requires |bits| >= 4
    ensures WordSteps(v, bits) == WordSteps(Step4(v, bits[0], bits[1], bits[2], bits[3]), bits[4..])
  {
    hide WordStep;
    var v1 := WordStep(v, bits[0]);
    var v2 := WordStep(v1, bits[1]);
    assert WordSteps(v, bits) == WordSteps(v1, bits[1..]);
    assert bits[1..][1..] == bits[2..];
    assert WordSteps(v1, bits[1..]) == WordSteps(v2, bits[2..]);
    assert bits[2..][1..] == bits[3..];
    var v3 := WordStep(v2, bits[2]);
    assert WordSteps(v2, bits[2..]) == WordSteps(v3, bits[3..]);
    assert bits[3..][1..] == bits[4..];
  }

  /** The word after a byte, least significant bit first. */
  function WordByte(v: bv32, b: byte): bv32 {
    Step4(Step4(v, b % 2 == 1, b / 2 % 2 == 1, b / 4 % 2 == 1, b / 8 % 2 == 1),
          b / 16 % 2 == 1, b / 32 % 2 == 1, b / 64 % 2 == 1, b / 128 % 2 == 1)
  }

  lemma WordByteIsSteps(v: bv32, b: byte)
    ensures Steps(Word(v), ToBits(b, 8), Word(POLYNOM)) == Word(WordByte(v, b))
  {
    hide Step4, WordStep;
    var bits := ToBits(b, 8);
    ByteBits(b);
    var rest := bits[4..];
    FourSteps(v, bits);
    var u := Step4(v, bits[0], bits[1], bits[2], bits[3]);
    FourSteps(u, rest);
    assert rest[4..] == [];
    assert WordSteps(WordByte(v, b), []) == WordByte(v, b);
    WordStepsIsSteps(v, bits);
  }

  lemma ByteBits(b: byte)
    ensures ToBits(b, 8) == [b % 2 == 1, b / 2 % 2 == 1, b / 4 % 2 == 1, b / 8 % 2 == 1,
                             b / 16 % 2 == 1, b / 32 % 2 == 1, b / 64 % 2 == 1, b / 128 % 2 == 1]
  {
    assert Pow2(1) == 2 && Pow2(2) == 4 && Pow2(3) == 8 && Pow2(4) == 16 && Pow2(5) == 32;
    assert Pow2(6) == 64 && Pow2(7) == 128;
    forall i | 0 <= i < 8
      ensures ToBits(b, 8)[i] == [b % 2 == 1, b / 2 % 2 == 1, b / 4 % 2 == 1, b / 8 % 2 == 1,
                                  b / 16 % 2 == 1, b / 32 % 2 == 1, b / 64 % 2 == 1, b / 128 % 2 == 1][i]
    {
      DigitAt(b, 8, i);
    }
  }

  // The byte 0x61 from the reset value on, and the four bytes of its check sequence.

  lemma CheckByte0()
    ensures WordByte(0xFFFF_FFFF, 0x61) == 0x3D82_12E8
  {}

  lemma CheckByte1()
    ensures WordByte(0x3D82_12E8, 0x43) == 0x33E5_A8B4
  {}

  lemma CheckByte2()
    ensures WordByte(0x33E5_A8B4, 0xBE) == 0xEDA0_647D
  {}

  lemma CheckByte3()
    ensures WordByte(0xEDA0_647D, 0xB7) == 0xA064_7D00
  {}

  lemma CheckByte4()
    ensures WordByte(0xA064_7D00, 0xE8) == 0xC704_DD7B
  {}

  lemma ThreeBits(v: bv32)
    requires BitAt(v, 0) && BitAt(v, 9) && BitAt(v, 12)
    ensures v & 0x1201 == 0x1201
  {
    LowestMask();
    assert Mask(12) == 0x1000;
    assert Mask(9) == 0x0200;
  }

  /** Thirty-two ones through a cleared register leave the IEEE 802.3 residue. */
  lemma Residue()
    ensures WordRun(0, 32) == 0xC704_DD7B
  {
    assert WordRun(0x0000_0000, 4) == 0x384F_BDBD;
    assert WordRun(0x384F_BDBD, 4) == 0xB1F7_40B4;
    WordRunAppend(0, 4, 4);
    assert WordRun(0xB1F7_40B4, 4) == 0x0C70_7D9C;
    WordRunAppend(0, 8, 4);
    assert WordRun(0x0C70_7D9C, 4) == 0xFF48_647D;
    WordRunAppend(0, 12, 4);
    assert WordRun(0xFF48_647D, 4) == 0xF486_47D0;
    WordRunAppend(0, 16, 4);
    assert WordRun(0xF486_47D0, 4) == 0x4864_7D00;
    WordRunAppend(0, 20, 4);
    assert WordRun(0x4864_7D00, 4) == 0xAD0C_1B61;
    WordRunAppend(0, 24, 4);
    assert WordRun(0xAD0C_1B61, 4) == 0xC704_DD7B;
    WordRunAppend(0, 28, 4);
  }

  lemma {:induction false} MaskVanishes(i: nat, j: nat)
    requires j < i < 32 && Mask(i) == 1
    ensures Mask(j) == 0
    decreases i - j
  {
    if j + 1 < i {
      MaskVanishes(i, j + 1);
    }
  }

  lemma ShiftedBit(v: bv32, i: nat)
    requires i < 31
    ensures BitAt(v >> 1, i) == BitAt(v, i + 1)
  {
    LowestMask();
    if Mask(i + 1) == 1 {
      MaskVanishes(i + 1, 0);
    }
    MaskedShift(v, Mask(i + 1));
  }

  lemma MaskedShift(v: bv32, m: bv32)
    requires m & (m - 1) == 0 && m != 1
    ensures (v >> 1) & (m >> 1) != 0 <==> v & m != 0
  {}

  lemma LowestBit(v: bv32)
    ensures BitAt(v, 0) <==> v & 1 != 0
  {
    LowestMask();
  }

  /** A number and a word with the same lowest bit and the same rest have the same bits. */
  lemma SameBits(n: nat, v: bv32, w: nat)
    requires 0 < w <= 32
    requires n % 2 == 1 <==> v & 1 != 0
    requires ToBits(n / 2, w - 1) == Word(v >> 1)[..w - 1]
    ensures ToBits(n, w) == Word(v)[..w]
  {
    LowestBit(v);
    forall i | 0 <= i < w ensures ToBits(n, w)[i] == Word(v)[i] {
      if i > 0 {
        ShiftedBit(v, i - 1);
        assert ToBits(n, w)[i] == Word(v >> 1)[..w - 1][i - 1];
      }
    }
  }

  /** Compares the low `w` bits of a number and of a word. */
  predicate SameLowBits(n: nat, v: bv32, w: nat)
    decreases w
  {
    w == 0 || ((n % 2 == 1 <==> v & 1 != 0) && SameLowBits(n / 2, v >> 1, w - 1))
  }

  lemma {:induction false} SameLowBitsSound(n: nat, v: bv32, w: nat)
    requires w <= 32 && SameLowBits(n, v, w)
    ensures ToBits(n, w) == Word(v)[..w]
    decreases w
  {
    if w > 0 {
      SameLowBitsSound(n / 2, v >> 1, w - 1);
      SameBits(n, v, w);
    }
  }

  /** The polynomial as the engine is given it is the word above. */
  lemma PolynomBits()
    ensures ToBits(0x04C1_1DB7, 32) == Word(POLYNOM)
  {
    assert SameLowBits(0x0, 0x0, 4);
    assert SameLowBits(0x4, 0x4, 8);
    assert SameLowBits(0x4C, 0x4C, 12);
    assert SameLowBits(0x4C1, 0x4C1, 16);
    assert SameLowBits(0x4C11, 0x4C11, 20);
    assert SameLowBits(0x4C11D, 0x4C11D, 24);
    assert SameLowBits(0x4C11DB, 0x4C11DB, 28);
    assert SameLowBits(0x4C11DB7, 0x4C11DB7, 32);
    SameLowBitsSound(0x04C1_1DB7, POLYNOM, 32);
  }
}
