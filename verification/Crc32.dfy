/** The IEEE 802.3 CRC: frame level functions, the properties of its frame
    check sequence, and the clocked register that computes it. */
module Crc32 {
  import opened Bits
  import opened CrcEngine
  import opened CrcWord
  import opened Lfsr

  function Taps(): (t: seq<bool>)
    ensures |t| == 32
  {
    Word(POLYNOM)
  }

  const INIT: seq<bool> := Const(32, true)
  const CHECK: seq<bool> := Word(0xC704_DD7B)

  /** The bits of a frame in transmission order: bytes in order, least significant bit first. */
  function FrameBits(bytes: seq<byte>): seq<bool> {
    if bytes == [] then [] else FrameBits(bytes[..|bytes| - 1]) + ToBits(bytes[|bytes| - 1], 8)
  }

  /** The register after a frame. */
  function Crc(reg: seq<bool>, bytes: seq<byte>): (r: seq<bool>)
    requires |reg| == 32
    ensures |r| == 32
  {
    Steps(reg, FrameBits(bytes), Taps())
  }

  /** The transmitted check sequence: complemented, highest register bit first. */
  function FcsBits(reg: seq<bool>): (b: seq<bool>)
    requires |reg| == 32
    ensures |b| == 32
  {
    Not(Reverse(reg))
  }

  function FcsByte(reg: seq<bool>, k: nat): byte
    requires |reg| == 32 && k < 4
  {
    var b := FcsBits(reg)[8 * k..8 * k + 8];
    FromBitsBound(b);
    assert Pow2(8) == 256;
    FromBits(b)
  }

  function FcsBytes(reg: seq<bool>): (b: seq<byte>)
    requires |reg| == 32
    ensures |b| == 4
  {
    seq(4, k requires 0 <= k < 4 => FcsByte(reg, k))
  }

  /** A frame followed by its check sequence. */
  function WithFcs(frame: seq<byte>): (r: seq<byte>)
    ensures |r| == |frame| + 4
  {
    frame + FcsBytes(Crc(INIT, frame))
  }

  // ----- Bits of frames

  lemma FrameBitsSnoc(bytes: seq<byte>, b: byte)
    ensures FrameBits(bytes + [b]) == FrameBits(bytes) + ToBits(b, 8)
  {
    assert (bytes + [b])[..|bytes|] == bytes;
  }

  lemma {:induction false} FrameBitsLength(bytes: seq<byte>)
    ensures |FrameBits(bytes)| == 8 * |bytes|
  {
    if bytes != [] {
      FrameBitsLength(bytes[..|bytes| - 1]);
    }
  }

  lemma {:induction false} FrameBitsConcat(a: seq<byte>, b: seq<byte>)
    ensures FrameBits(a + b) == FrameBits(a) + FrameBits(b)
  {
    if b == [] {
      assert a + b == a;
    } else {
      var b', last := b[..|b| - 1], b[|b| - 1];
      assert a + b == (a + b') + [last] && b == b' + [last];
      FrameBitsConcat(a, b');
      FrameBitsSnoc(a + b', last);
    }
  }

  lemma ToBitsInjective(a: byte, b: byte)
    requires ToBits(a, 8) == ToBits(b, 8)
    ensures a == b
  {
    assert Pow2(8) == 256;
    FromToBits(a, 8);
    FromToBits(b, 8);
  }

  lemma {:induction false} FrameBitsInjective(a: seq<byte>, b: seq<byte>)
    requires |a| == |b| && FrameBits(a) == FrameBits(b)
    ensures a == b
  {
    if a != [] {
      var n := |a| - 1;
      FrameBitsLength(a[..n]);
      FrameBitsLength(b[..n]);
      assert FrameBits(a)[..8 * n] == FrameBits(a[..n]) && FrameBits(b)[..8 * n] == FrameBits(b[..n]);
      assert FrameBits(a)[8 * n..] == ToBits(a[n], 8) && FrameBits(b)[8 * n..] == ToBits(b[n], 8);
      FrameBitsInjective(a[..n], b[..n]);
      ToBitsInjective(a[n], b[n]);
      assert a == a[..n] + [a[n]] && b == b[..n] + [b[n]];
    }
  }

  lemma FrameBitsOne(b: byte)
    ensures FrameBits([b]) == ToBits(b, 8)
  {
    assert [b][..0] == [];
    assert [] + ToBits(b, 8) == ToBits(b, 8);
  }

  lemma CrcOne(reg: seq<bool>, b: byte)
    requires |reg| == 32
    ensures Crc(reg, [b]) == Steps(reg, ToBits(b, 8), Taps())
  {
    FrameBitsOne(b);
  }

  lemma CrcConcat(reg: seq<bool>, a: seq<byte>, b: seq<byte>)
    requires |reg| == 32
    ensures Crc(reg, a + b) == Crc(Crc(reg, a), b)
  {
    FrameBitsConcat(a, b);
    StepsAppend(reg, FrameBits(a), FrameBits(b), Taps());
  }

  lemma FcsByteBits(reg: seq<bool>, k: nat)
    requires |reg| == 32 && k < 4
    ensures ToBits(FcsByte(reg, k), 8) == FcsBits(reg)[8 * k..8 * k + 8]
  {
    ToFromBits(FcsBits(reg)[8 * k..8 * k + 8]);
  }

  /** The four bytes carry the check bits in order. */
  lemma {:induction false} FcsPrefixBits(reg: seq<bool>, k: nat)
    requires |reg| == 32 && k <= 4
    ensures FrameBits(FcsBytes(reg)[..k]) == FcsBits(reg)[..8 * k]
  {
    hide FcsByte, FcsBits, ToBits;
    if k > 0 {
      var bytes := FcsBytes(reg);
      FcsPrefixBits(reg, k - 1);
      FcsByteBits(reg, k - 1);
      assert bytes[..k] == bytes[..k - 1] + [bytes[k - 1]];
      FrameBitsSnoc(bytes[..k - 1], bytes[k - 1]);
    }
  }

  lemma FcsBytesBits(reg: seq<bool>)
    requires |reg| == 32
    ensures FrameBits(FcsBytes(reg)) == FcsBits(reg)
  {
    FcsPrefixBits(reg, 4);
    assert FcsBytes(reg)[..4] == FcsBytes(reg) && FcsBits(reg)[..32] == FcsBits(reg);
  }

  // ----- The residue

  /** Feeding a register its own top bits shifts them out and zeros in. */
  lemma {:induction false} ShiftOut(s: seq<bool>, x: seq<bool>, taps: seq<bool>)
    requires |s| == |taps| > 0 && |x| <= |s|
    requires forall j | 0 <= j < |x| :: x[j] == s[|s| - 1 - j]
    ensures Steps(s, x, taps) == Const(|x|, false) + s[..|s| - |x|]
    decreases |x|
  {
    hide Step;
    if x == [] {
      assert s[..|s|] == s;
    } else {
      var s' := Step(s, x[0], taps);
      ShiftOutOne(s, taps);
      ShiftOut(s', x[1..], taps);
      assert Const(|x| - 1, false) + s'[..|s| - |x| + 1] == Const(|x|, false) + s[..|s| - |x|];
    }
  }

  lemma ShiftOutOne(s: seq<bool>, taps: seq<bool>)
    requires |s| == |taps| > 0
    ensures Step(s, s[|s| - 1], taps) == [false] + s[..|s| - 1]
  {}

  lemma ZeroRegisterResidue()
    ensures Steps(Const(32, false), Const(32, true), Taps()) == CHECK
  {
    assert Word(0) == Const(32, false);
    WordRunIsSteps(0, 32);
    Residue();
  }

  /** A register consumed by its own reversed contents is left cleared. */
  lemma SelfCancels(reg: seq<bool>)
    requires |reg| == 32
    ensures Steps(reg, Reverse(reg), Taps()) == Const(32, false)
  {
    ShiftOut(reg, Reverse(reg), Taps());
    assert Const(32, false) + reg[..0] == Const(32, false);
  }

  /** Whatever the register holds, its own check sequence leaves the constant residue. */
  lemma ResidueTheorem(reg: seq<bool>)
    requires |reg| == 32
    ensures Steps(reg, FcsBits(reg), Taps()) == CHECK
  {
    var zeros, ones := Const(32, false), Const(32, true);
    NotIsXor(Reverse(reg));
    XorZero(reg);
    XorZero(CHECK);
    StepsLinear(reg, zeros, Reverse(reg), ones, Taps());
    SelfCancels(reg);
    ZeroRegisterResidue();
  }

  /** The check passes for exactly one check sequence: the one the transmitter sends. */
  lemma VerdictExact(reg: seq<bool>, fcs: seq<bool>)
    requires |reg| == |fcs| == 32
    ensures Steps(reg, fcs, Taps()) == CHECK <==> fcs == FcsBits(reg)
  {
    ResidueTheorem(reg);
    if Steps(reg, fcs, Taps()) == CHECK {
      ShortInputsInjective(reg, fcs, FcsBits(reg), Taps());
    }
  }

  /** A received frame passes the check exactly when it ends in the check sequence of what precedes. */
  lemma FrameVerdict(frame: seq<byte>)
    requires |frame| >= 4
    ensures Crc(INIT, frame) == CHECK <==> frame == WithFcs(frame[..|frame| - 4])
  {
    var body, fcs := frame[..|frame| - 4], frame[|frame| - 4..];
    var reg := Crc(INIT, body);
    assert frame == body + fcs;
    CrcConcat(INIT, body, fcs);
    FrameBitsLength(fcs);
    VerdictExact(reg, FrameBits(fcs));
    FcsBytesBits(reg);
    if FrameBits(fcs) == FcsBits(reg) {
      FrameBitsInjective(fcs, FcsBytes(reg));
    }
    if frame == WithFcs(body) {
      assert fcs == FcsBytes(reg);
    }
  }

  // ----- Error detection

  lemma DifferenceSurvives(s: seq<bool>, t: seq<bool>, bits: seq<bool>)
    requires |s| == |t| == 32 && s != t
    ensures Steps(s, bits, Taps()) != Steps(t, bits, Taps())
  {
    StepsInverse(s, bits, Taps());
    StepsInverse(t, bits, Taps());
  }

  lemma SplitSteps(reg: seq<bool>, x: seq<bool>, lo: nat, hi: nat)
    requires |reg| == 32 && lo <= hi <= |x|
    ensures Steps(reg, x, Taps()) == Steps(Steps(Steps(reg, x[..lo], Taps()), x[lo..hi], Taps()), x[hi..], Taps())
  {
    assert x == x[..lo] + (x[lo..hi] + x[hi..]);
    StepsAppend(reg, x[..lo], x[lo..hi] + x[hi..], Taps());
    StepsAppend(Steps(reg, x[..lo], Taps()), x[lo..hi], x[hi..], Taps());
  }

  lemma ShortDifferenceDetected(s: seq<bool>, x: seq<bool>, y: seq<bool>, rest: seq<bool>)
    requires |s| == 32 && |x| == |y| <= 32 && x != y
    ensures Steps(Steps(s, x, Taps()), rest, Taps()) != Steps(Steps(s, y, Taps()), rest, Taps())
  {
    if Steps(s, x, Taps()) == Steps(s, y, Taps()) {
      ShortInputsInjective(s, x, y, Taps());
    } else {
      DifferenceSurvives(Steps(s, x, Taps()), Steps(s, y, Taps()), rest);
    }
  }

  /** Two bit streams that differ only inside a window of at most 32 bits leave different registers. */
  lemma WindowDetected(reg: seq<bool>, x: seq<bool>, y: seq<bool>, lo: nat, hi: nat)
    requires |reg| == 32 && |x| == |y| && x != y
    requires lo <= hi <= |x| && hi <= lo + 32
    requires forall i | 0 <= i < |x| && x[i] != y[i] :: lo <= i < hi
    ensures Steps(reg, x, Taps()) != Steps(reg, y, Taps())
  {
    assert x[..lo] == y[..lo] && x[hi..] == y[hi..];
    assert x[lo..hi] != y[lo..hi] by {
      var i :| 0 <= i < |x| && x[i] != y[i];
      assert x[lo..hi][i - lo] != y[lo..hi][i - lo];
    }
    SplitSteps(reg, x, lo, hi);
    SplitSteps(reg, y, lo, hi);
    ShortDifferenceDetected(Steps(reg, x[..lo], Taps()), x[lo..hi], y[lo..hi], x[hi..]);
  }

  /** Every non-zero error pattern confined to 32 consecutive bits of a valid frame fails the check. */
  lemma BurstDetected(frame: seq<byte>, errors: seq<bool>, lo: nat)
    requires Crc(INIT, frame) == CHECK
    requires |errors| == |FrameBits(frame)|
    requires exists i :: 0 <= i < |errors| && errors[i]
    requires forall i | 0 <= i < |errors| && errors[i] :: lo <= i < lo + 32
    ensures Steps(INIT, Xor(FrameBits(frame), errors), Taps()) != CHECK
  {
    var x := FrameBits(frame);
    var y := Xor(x, errors);
    var i :| 0 <= i < |errors| && errors[i];
    assert x[i] != y[i];
    WindowDetected(INIT, x, y, lo, if lo + 32 <= |x| then lo + 32 else |x|);
  }

  /** No byte leaves a freshly initialised register unchanged. */
  lemma ByteChangesInit(b: byte)
    ensures Crc(INIT, [b]) != INIT
  {
    AllOnes();
    CrcOne(INIT, b);
    WordStepsIsSteps(0xFFFF_FFFF, ToBits(b, 8));
    ByteClearsABit(0xFFFF_FFFF, ToBits(b, 8));
    if Crc(INIT, [b]) == INIT {
      var v := WordSteps(0xFFFF_FFFF, ToBits(b, 8));
      assert Word(v)[0] && Word(v)[9] && Word(v)[12];
      ThreeBits(v);
    }
  }

  lemma AllOnes()
    ensures Word(0xFFFF_FFFF) == INIT
  {
    forall i | 0 <= i < 32 ensures BitAt(0xFFFF_FFFF, i) {
      OnesHaveMask(Mask(i));
      MaskNotZero(i);
    }
  }

  /** A valid frame that loses its first byte is no longer valid. */
  lemma LostFirstByteDetected(frame: seq<byte>)
    requires frame != [] && Crc(INIT, frame) == CHECK
    ensures Crc(INIT, frame[1..]) != CHECK
  {
    assert frame == [frame[0]] + frame[1..];
    CrcConcat(INIT, [frame[0]], frame[1..]);
    ByteChangesInit(frame[0]);
    DifferenceSurvives(Crc(INIT, [frame[0]]), INIT, FrameBits(frame[1..]));
  }

  // ----- The check value

  /** The register after one more byte of a frame. */
  lemma NextByte(f: seq<byte>, k: nat, before: bv32, after: bv32)
    requires k < |f| && Crc(INIT, f[..k]) == Word(before) && WordByte(before, f[k]) == after
    ensures Crc(INIT, f[..k + 1]) == Word(after)
  {
    hide WordByte;
    assert f[..k + 1] == f[..k] + [f[k]];
    CrcConcat(INIT, f[..k], [f[k]]);
    CrcOne(Word(before), f[k]);
    WordByteIsSteps(before, f[k]);
  }

  /** A known answer: the letter a in ASCII gets the check value 0xE8B7BE43, low byte first. */
  lemma KnownAnswer()
    ensures WithFcs([0x61]) == [0x61, 0x43, 0xBE, 0xB7, 0xE8]
  {
    hide WithFcs, Crc, WordByte;
    var f: seq<byte> := [0x61, 0x43, 0xBE, 0xB7, 0xE8];
    AllOnes();
    NoBytes(f);
    CheckByte0();
    NextByte(f, 0, 0xFFFF_FFFF, 0x3D82_12E8);
    CheckByte1();
    NextByte(f, 1, 0x3D82_12E8, 0x33E5_A8B4);
    CheckByte2();
    NextByte(f, 2, 0x33E5_A8B4, 0xEDA0_647D);
    CheckByte3();
    NextByte(f, 3, 0xEDA0_647D, 0xA064_7D00);
    CheckByte4();
    NextByte(f, 4, 0xA064_7D00, 0xC704_DD7B);
    assert f[..5] == f && f[..1] == [0x61];
    FrameVerdict(f);
  }

  lemma NoBytes(f: seq<byte>)
    ensures Crc(INIT, f[..0]) == INIT
  {}

  // ----- The clocked register

  /** The CRC register: reset wins over clock enable, as the reset wrapper is outermost. */
  class Crc32Register {
    const engine: Engine
    var reg: seq<bool>

    ghost predicate Valid()
      reads this
    {
      engine.Valid() && engine.dataWidth == 8 && engine.taps == Taps() && |reg| == 32
    }

    constructor ()
      ensures Valid() && reg == INIT
    {
      var e := new Engine(8, 32, 0x04C1_1DB7);
      PolynomBits();
      engine, reg := e, INIT;
    }

    /** Byte `k` of the output word, as the generator sends it. */
    function ValueByte(k: nat): byte
      requires Valid() && k < 4
      reads this
    {
      FcsByte(reg, k)
    }

    /** The register contents after `data`, without clocking; the error output compares them with the residue. */
    method Look(data: byte) returns (next: seq<bool>, error: bool)
      requires Valid()
      ensures next == Steps(reg, ToBits(data, 8), Taps())
      ensures error <==> next != CHECK
    {
      next := engine.Next(reg, ToBits(data, 8));
      error := next != CHECK;
    }

    method Clock(reset: bool, ce: bool, data: byte)
      requires Valid()
      modifies this
      ensures Valid()
      ensures reg == if reset then INIT else if ce then Steps(old(reg), ToBits(data, 8), Taps()) else old(reg)
    {
      if ce {
        var next, _ := Look(data);
        reg := next;
      }
      if reset {
        reg := INIT;
      }
    }
  }
}
