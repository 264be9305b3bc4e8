/** The bit-banged MDIO client (IEEE 802.3 clause 22 management frames). */
module Mdio {
  import opened Bits
  import Modulo

  const CLK: nat := 1
  const OE: nat := 2
  const DO: nat := 4

  /** The low `n` bits of a number, least significant first; negative numbers in two's complement. */
  function LowBits(word: int, n: nat): (b: seq<bool>)
    ensures |b| == n
    decreases n
  {
    if n == 0 then [] else [word % 2 == 1] + LowBits(word / 2, n - 1)
  }

  /** The same bits in the order a management frame sends them. */
  function MsbFirst(word: int, n: nat): (b: seq<bool>)
    ensures |b| == n
  {
    Reverse(LowBits(word, n))
  }

  /** The number a sequence of bits denotes when the first is the most significant. */
  function Number(bits: seq<bool>): nat {
    FromBits(Reverse(bits))
  }

  lemma {:induction false} LowBitsSnoc(word: int, n: nat)
    ensures LowBits(word, n + 1) == LowBits(word, n) + [Shifted(word, n) % 2 == 1]
    decreases n
  {
    if n > 0 {
      LowBitsSnoc(word / 2, n - 1);
    }
  }

  /** The word after `n` shifts to the right. */
  function Shifted(word: int, n: nat): int
    decreases n
  {
    if n == 0 then word else Shifted(word / 2, n - 1)
  }

  lemma {:induction false} ShiftedSnoc(word: int, n: nat)
    ensures Shifted(word, n + 1) == Shifted(word, n) / 2
    decreases n
  {
    if n > 0 {
      ShiftedSnoc(word / 2, n - 1);
    }
  }

  lemma {:induction false} LowBitsOfNumber(bits: seq<bool>)
    ensures LowBits(FromBits(bits), |bits|) == bits
  {
    if bits != [] {
      LowBitsOfNumber(bits[1..]);
      assert bits == [bits[0]] + bits[1..];
    }
  }

  lemma {:induction false} NumberOfLowBits(word: nat, n: nat)
    ensures FromBits(LowBits(word, n)) == word % Pow2(n)
    decreases n
  {
    if n > 0 {
      NumberOfLowBits(word / 2, n - 1);
      assert LowBits(word, n)[1..] == LowBits(word / 2, n - 1);
      HalfModulo(word, Pow2(n - 1));
    }
  }

  lemma HalfModulo(word: nat, p: nat)
    requires p > 0
    ensures word % (2 * p) == word % 2 + 2 * (word / 2 % p)
  {
    var h := word / 2;
    var q, r := h / p, h % p;
    assert word == 2 * (q * p + r) + word % 2;
    assert word == q * (2 * p) + (word % 2 + 2 * r);
    Modulo.ModUnique(word, q, word % 2 + 2 * r, 2 * p);
  }

  /** Number and MsbFirst are inverse on words of `n` bits. */
  lemma NumberMsbFirst(word: nat, n: nat)
    ensures Number(MsbFirst(word, n)) == word % Pow2(n)
  {
    assert Reverse(Reverse(LowBits(word, n))) == LowBits(word, n);
    NumberOfLowBits(word, n);
  }

  method ReverseBits(word: int, nbits: nat) returns (r: nat)
    ensures r == Number(LowBits(word, nbits))
    ensures LowBits(r, nbits) == MsbFirst(word, nbits)
  {
    r := 0;
    var w, n := word, nbits;
    ghost var k := 0;
    while n > 0
      invariant 0 <= n <= nbits && k == nbits - n
      invariant w == Shifted(word, k)
      invariant r == FromBits(Reverse(LowBits(word, k)))
    {
      LowBitsSnoc(word, k);
      ShiftedSnoc(word, k);
      assert Reverse(LowBits(word, k + 1)) == [w % 2 == 1] + Reverse(LowBits(word, k));
      r := 2 * r + w % 2;
      w := w / 2;
      n, k := n - 1, k + 1;
    }
    LowBitsOfNumber(MsbFirst(word, nbits));
  }

  /** Reversing twice gives back the low bits: the reversal is an involution on words of `n` bits. */
  lemma ReverseTwice(word: nat, n: nat)
    requires word < Pow2(n)
    ensures Number(LowBits(Number(LowBits(word, n)), n)) == word
  {
    LowBitsOfNumber(Reverse(LowBits(word, n)));
    assert Reverse(Reverse(LowBits(word, n))) == LowBits(word, n);
    NumberOfLowBits(word, n);
    Small(word, Pow2(n));
  }

  lemma Small(a: nat, b: nat)
    requires a < b
    ensures a % b == a
  {}

  // ----- The wires

  /** The line driven with a bit, clock low. */
  function Level(b: bool): nat {
    if b then DO + OE else OE
  }

  /** The register writes that send bits. */
  function Pulses(bits: seq<bool>): seq<nat> {
    if bits == [] then []
    else
      var d := Level(bits[|bits| - 1]);
      Pulses(bits[..|bits| - 1]) + [d, d + CLK, d]
  }

  const TURNAROUND: seq<nat> := [CLK, 0, CLK, 0]

  predicate High(v: nat) { v % 2 == 1 }
  predicate Driven(v: nat) { v / 2 % 2 == 1 }
  predicate Data(v: nat) { v / 4 % 2 == 1 }

  /** What the line carries at a rising clock edge: a bit, or nothing the client drives. */
  datatype Sample = Bit(b: bool) | Released

  function SampleOf(v: nat): Sample {
    if Driven(v) then Bit(Data(v)) else Released
  }

  /** The samples at the rising edges of the clock; the clock is low at first. */
  function Samples(writes: seq<nat>): seq<Sample> {
    if writes == [] then []
    else
      var n := |writes| - 1;
      Samples(writes[..n]) + if High(writes[n]) && !(n > 0 && High(writes[n - 1])) then [SampleOf(writes[n])] else []
  }

  function Driving(bits: seq<bool>): (r: seq<Sample>)
    ensures |r| == |bits|
  {
    seq(|bits|, i requires 0 <= i < |bits| => Bit(bits[i]))
  }

  /** The clock is low after these writes. */
  predicate Low(writes: seq<nat>) {
    writes == [] || !High(writes[|writes| - 1])
  }

  lemma SamplesSnoc(writes: seq<nat>, v: nat)
    ensures Samples(writes + [v]) == Samples(writes) + if High(v) && Low(writes) then [SampleOf(v)] else []
  {
    assert (writes + [v])[..|writes|] == writes;
  }

  /** Each bit sent is sampled once, in order. */
  lemma {:induction false} SamplesPulses(writes: seq<nat>, bits: seq<bool>)
    requires Low(writes)
    ensures Samples(writes + Pulses(bits)) == Samples(writes) + Driving(bits)
    ensures Low(writes + Pulses(bits))
    decreases |bits|
  {
    hide Samples, Low, Level;
    if bits == [] {
      assert writes + Pulses(bits) == writes;
      assert Samples(writes) + Driving(bits) == Samples(writes);
    } else {
      var n := |bits| - 1;
      SamplesPulses(writes, bits[..n]);
      SamplesPulse(writes + Pulses(bits[..n]), bits[n]);
      PulsesSnoc(writes, bits);
      DrivingSnoc(Samples(writes), bits);
    }
  }

  lemma DrivingSnoc(before: seq<Sample>, bits: seq<bool>)
    requires bits != []
    ensures before + Driving(bits[..|bits| - 1]) + [Bit(bits[|bits| - 1])] == before + Driving(bits)
  {}

  lemma PulsesSnoc(writes: seq<nat>, bits: seq<bool>)
    requires bits != []
    ensures var d := Level(bits[|bits| - 1]);
      writes + Pulses(bits) == writes + Pulses(bits[..|bits| - 1]) + [d] + [d + CLK] + [d]
  {
    hide Level;
    var d := Level(bits[|bits| - 1]);
    ThreeMore(writes, Pulses(bits[..|bits| - 1]), d, d + CLK);
  }

  lemma ThreeMore(a: seq<nat>, b: seq<nat>, d: nat, e: nat)
    ensures a + (b + [d, e, d]) == a + b + [d] + [e] + [d]
  {}

  lemma LevelSampled(b: bool)
    ensures !High(Level(b)) && High(Level(b) + CLK) && SampleOf(Level(b) + CLK) == Bit(b)
  {}

  lemma SamplesPulse(writes: seq<nat>, b: bool)
    requires Low(writes)
    ensures var d := Level(b);
      && Samples(writes + [d] + [d + CLK] + [d]) == Samples(writes) + [Bit(b)]
      && Low(writes + [d] + [d + CLK] + [d])
  {
    hide Samples, Level, High, SampleOf;
    var d := Level(b);
    LevelSampled(b);
    SamplesSnoc(writes, d);
    SamplesSnoc(writes + [d], d + CLK);
    SamplesSnoc(writes + [d] + [d + CLK], d);
    assert Samples(writes) + [] == Samples(writes);
    assert Samples(writes) + [Bit(b)] + [] == Samples(writes) + [Bit(b)];
  }

  lemma SamplesClock(writes: seq<nat>)
    requires Low(writes)
    ensures Samples(writes + [CLK] + [0]) == Samples(writes) + [Released]
    ensures Low(writes + [CLK] + [0])
  {
    SamplesSnoc(writes, CLK);
    SamplesSnoc(writes + [CLK], 0);
  }

  lemma SamplesTurnaround(writes: seq<nat>)
    requires Low(writes)
    ensures Samples(writes + TURNAROUND) == Samples(writes) + [Released, Released]
    ensures Low(writes + TURNAROUND)
  {
    SamplesClock(writes);
    SamplesClock(writes + [CLK] + [0]);
    assert writes + TURNAROUND == writes + [CLK] + [0] + [CLK] + [0];
    assert Samples(writes) + [Released] + [Released] == Samples(writes) + [Released, Released];
  }

  /** While the clock is high and the line is driven, data and direction are what they
      are just before and just after. */
  ghost predicate Steady(writes: seq<nat>) {
    forall i | 0 <= i < |writes| && High(writes[i]) && Driven(writes[i]) ::
      && 0 < i < |writes| - 1
      && writes[i - 1] == writes[i] - CLK && writes[i + 1] == writes[i] - CLK
  }

  lemma SteadyAppend(writes: seq<nat>, more: seq<nat>)
    requires Steady(writes) && Steady(more)
    ensures Steady(writes + more)
  {}

  lemma {:induction false} SteadyPulses(bits: seq<bool>)
    ensures Steady(Pulses(bits))
    decreases |bits|
  {
    if bits != [] {
      var d := Level(bits[|bits| - 1]);
      SteadyPulses(bits[..|bits| - 1]);
      SteadyAppend(Pulses(bits[..|bits| - 1]), [d, d + CLK, d]);
    }
  }

  // ----- Frames

  /** Preamble, start, operation, PHY address and register address. */
  function Header(op: int, phyaddr: int, reg: int): (b: seq<bool>)
    ensures |b| == 46
  {
    MsbFirst(0xFFFF_FFFF, 32) + MsbFirst(1, 2) + MsbFirst(op, 2) + MsbFirst(phyaddr, 5) + MsbFirst(reg, 5)
  }

  /** The 64 bits of a write frame. */
  function WriteFrame(phyaddr: int, reg: int, val: int): (b: seq<bool>)
    ensures |b| == 64
  {
    Header(1, phyaddr, reg) + MsbFirst(2, 2) + MsbFirst(val, 16)
  }

  /** What a station listening to the line makes of a frame. */
  datatype Decoded = Decoded(op: nat, phyaddr: nat, reg: nat, val: nat)

  function Decode(frame: seq<bool>): Decoded
    requires |frame| == 64
  {
    Decoded(Number(frame[34..36]), Number(frame[36..41]), Number(frame[41..46]), Number(frame[48..64]))
  }

  lemma HeaderFields(op: int, phyaddr: int, reg: int, rest: seq<bool>)
    ensures var f := Header(op, phyaddr, reg) + rest;
      && f[..32] == MsbFirst(0xFFFF_FFFF, 32) && f[32..34] == MsbFirst(1, 2) && f[34..36] == MsbFirst(op, 2)
      && f[36..41] == MsbFirst(phyaddr, 5) && f[41..46] == MsbFirst(reg, 5)
  {}

  /** A decoder recovers address, register and value of every write frame. */
  lemma DecodeWriteFrame(phyaddr: nat, reg: nat, val: nat)
    ensures Decode(WriteFrame(phyaddr, reg, val)) == Decoded(1, phyaddr % 32, reg % 32, val % 0x1_0000)
  {
    hide MsbFirst, Number, LowBits, Header;
    var rest := MsbFirst(2, 2) + MsbFirst(val, 16);
    assert WriteFrame(phyaddr, reg, val) == Header(1, phyaddr, reg) + rest;
    HeaderFields(1, phyaddr, reg, rest);
    assert WriteFrame(phyaddr, reg, val)[48..64] == rest[2..18] == MsbFirst(val, 16);
    NumberMsbFirst(1, 2);
    NumberMsbFirst(phyaddr, 5);
    NumberMsbFirst(reg, 5);
    NumberMsbFirst(val, 16);
    Powers();
  }

  /** The fixed bits of a frame: thirty-two ones, start 01, write 01, and 10 before the value. */
  lemma WriteFrameBits(phyaddr: nat, reg: nat, val: nat)
    ensures var f := WriteFrame(phyaddr, reg, val);
      && (forall k | 0 <= k < 32 :: f[k])
      && f[32..36] == [false, true, false, true] && f[46..48] == [true, false]
  {
    hide MsbFirst, LowBits;
    var f, rest := WriteFrame(phyaddr, reg, val), MsbFirst(2, 2) + MsbFirst(val, 16);
    assert f == Header(1, phyaddr, reg) + rest;
    HeaderFields(1, phyaddr, reg, rest);
    assert f[46..48] == MsbFirst(2, 2) && f[32..36] == f[32..34] + f[34..36];
    TwoBits();
    PreambleOnes();
    assert forall k | 0 <= k < 32 :: f[k] == f[..32][k];
  }

  lemma PreambleOnes()
    ensures forall k | 0 <= k < 32 :: MsbFirst(0xFFFF_FFFF, 32)[k]
  {
    assert Pow2(32) == 0x1_0000_0000 by {
      assert Pow2(8) == 256;
      assert Pow2(16) == 0x1_0000;
      assert Pow2(24) == 0x100_0000;
    }
    LowOnes(32);
  }

  lemma {:induction false} LowOnes(n: nat)
    ensures LowBits(Pow2(n) - 1, n) == Const(n, true)
  {
    if n > 0 {
      LowOnes(n - 1);
      var p := Pow2(n - 1);
      assert (2 * p - 1) / 2 == p - 1 && (2 * p - 1) % 2 == 1;
    }
  }

  lemma Powers()
    ensures Pow2(2) == 4 && Pow2(5) == 32 && Pow2(16) == 0x1_0000
  {
    assert Pow2(8) == 256;
    assert Pow2(12) == 4096;
  }

  // ----- A PHY with a shift register

  /** A line nobody drives reads as one. */
  function LineBits(samples: seq<Sample>): (b: seq<bool>)
    ensures |b| == |samples|
  {
    seq(|samples|, i requires 0 <= i < |samples| => samples[i] == Released || samples[i].b)
  }

  /** The data input after the rising edges so far in a transaction: a PHY
      addressed by a read frame shifts its register out, most significant bit
      first, once the two turnaround clocks have passed. */
  function PhyOutput(regs: (nat, nat) -> nat, samples: seq<Sample>): bool {
    if 48 <= |samples| < 64 && LineBits(samples)[32..36] == [false, true, true, false] then
      var bits := LineBits(samples);
      MsbFirst(regs(Number(bits[36..41]), Number(bits[41..46])), 16)[|samples| - 48]
    else true
  }

  /** During a read the PHY puts bit after bit of the register on the line. */
  lemma PhyAnswers(regs: (nat, nat) -> nat, phyaddr: nat, reg: nat, samples: seq<Sample>, k: nat)
    requires k < 16 && |samples| == 48 + k && samples[..46] == Driving(Header(2, phyaddr, reg))
    ensures PhyOutput(regs, samples) == MsbFirst(regs(phyaddr % 32, reg % 32), 16)[k]
  {
    hide MsbFirst, Number, Header, LowBits;
    var bits := LineBits(samples);
    assert bits[..46] == Header(2, phyaddr, reg) by {
      assert forall i | 0 <= i < 46 :: samples[i] == samples[..46][i];
    }
    HeaderOf(phyaddr, reg, bits);
  }

  /** The fields of a read header are where the PHY looks for them. */
  lemma HeaderOf(phyaddr: nat, reg: nat, bits: seq<bool>)
    requires |bits| >= 46 && bits[..46] == Header(2, phyaddr, reg)
    ensures bits[32..36] == [false, true, true, false]
    ensures Number(bits[36..41]) == phyaddr % 32 && Number(bits[41..46]) == reg % 32
  {
    hide MsbFirst, Number, LowBits;
    assert bits[..46] == Header(2, phyaddr, reg) + [];
    HeaderFields(2, phyaddr, reg, []);
    assert bits[36..41] == bits[..46][36..41] && bits[41..46] == bits[..46][41..46];
    assert bits[32..36] == bits[..46][32..34] + bits[..46][34..36];
    TwoBits();
    NumberMsbFirst(phyaddr, 5);
    NumberMsbFirst(reg, 5);
    Powers();
  }

  lemma TwoBits()
    ensures MsbFirst(1, 2) == [false, true] && MsbFirst(2, 2) == [true, false]
  {
    assert LowBits(1, 2) == [true, false] && LowBits(2, 2) == [false, true];
  }

  // ----- The client

  class Client {
    var writes: seq<nat>   // everything written to the output register

    ghost predicate Valid()
      reads this
    {
      Low(writes) && Steady(writes)
    }

    constructor ()
      ensures Valid() && writes == []
    {
      writes := [];
    }

    /** Sends the low bits of a word, most significant first. */
    method RawWrite(word: int, bitcount: nat)
      requires Valid()
      modifies this
      ensures Valid() && writes == old(writes) + Pulses(MsbFirst(word, bitcount))
      ensures Samples(writes) == Samples(old(writes)) + Driving(MsbFirst(word, bitcount))
    {
      hide Samples, LowBits, Pulses, MsbFirst, Steady, Low;
      var r := ReverseBits(word, bitcount);
      ghost var bits := MsbFirst(word, bitcount);
      var w, n := r as int, bitcount;
      ghost var k := 0;
      NoPulses(old(writes));
      assert bits[..0] == [];
      while n > 0
        invariant 0 <= n <= bitcount && k == bitcount - n
        invariant w == Shifted(r, k)
        invariant writes == old(writes) + Pulses(bits[..k])
      {
        NextBit(r, bitcount, k);
        ShiftedSnoc(r, k);
        assert bits[..k + 1][..k] == bits[..k];
        PulsesSnoc(old(writes), bits[..k + 1]);
        if w % 2 == 1 {
          writes := writes + [DO + OE];
          writes := writes + [DO + OE + CLK];
          writes := writes + [DO + OE];
        } else {
          writes := writes + [OE];
          writes := writes + [OE + CLK];
          writes := writes + [OE];
        }
        w, n, k := w / 2, n - 1, k + 1;
      }
      assert bits[..bitcount] == bits;
      SamplesPulses(old(writes), bits);
      SteadyPulses(bits);
      SteadyAppend(old(writes), Pulses(bits));
    }

    /** Two clocks with the line released. */
    method RawTurnaround()
      requires Valid()
      modifies this
      ensures Valid() && writes == old(writes) + TURNAROUND
      ensures Samples(writes) == Samples(old(writes)) + [Released, Released]
    {
      hide Samples, Low, Steady;
      SamplesTurnaround(writes);
      SteadyTurnaround();
      SteadyAppend(writes, TURNAROUND);
      assert writes + TURNAROUND == writes + [CLK] + [0] + [CLK] + [0];
      writes := writes + [CLK];
      writes := writes + [0];
      writes := writes + [CLK];
      writes := writes + [0];
    }

    /** Takes sixteen bits from the data input, one before each clock. What is on the
        input may depend in any way on what has been clocked so far. */
    method RawRead(line: seq<Sample> -> bool) returns (word: nat)
      requires Valid()
      modifies this
      ensures Valid() && Samples(writes) == Samples(old(writes)) + Clocks(16)
      ensures word == Number(Inputs(line, Samples(old(writes)), 16))
    {
      hide Samples, Low, Steady, Number;
      word := 0;
      ghost var before := Samples(writes);
      NumberOfNone();
      for i := 0 to 16
        invariant Valid() && Samples(writes) == before + Clocks(i)
        invariant word == Number(Inputs(line, before, i))
      {
        var input := line(Samples(writes));
        NumberSnoc(Inputs(line, before, i), input);
        assert Inputs(line, before, i + 1) == Inputs(line, before, i) + [input];
        word := 2 * word + if input then 1 else 0;
        SamplesClock(writes);
        SteadyClock(writes);
        writes := writes + [CLK];
        writes := writes + [0];
        assert before + Clocks(i) + [Released] == before + Clocks(i + 1);
      }
    }

    /** The part of a frame both operations begin with. */
    method Begin(op: nat, phyaddr: int, reg: int)
      requires Valid()
      modifies this
      ensures Valid() && Samples(writes) == Samples(old(writes)) + Driving(Header(op, phyaddr, reg))
    {
      hide Samples, Low, Steady, Pulses, MsbFirst;
      ghost var before := Samples(writes);
      Enable(writes);
      writes := writes + [OE];
      RawWrite(0xFFFF_FFFF, 32);
      RawWrite(1, 2);
      RawWrite(op, 2);
      RawWrite(phyaddr, 5);
      RawWrite(reg, 5);
      assert Samples(writes) == before + Driving(Header(op, phyaddr, reg));
    }

    /** Clocks out exactly the write frame, then releases the line for two clocks. */
    method Write(phyaddr: int, reg: int, val: int)
      requires Valid()
      modifies this
      ensures Valid()
      ensures Samples(writes) == Samples(old(writes)) + Driving(WriteFrame(phyaddr, reg, val)) + [Released, Released]
    {
      hide Samples, Low, Steady, Pulses, MsbFirst, Header;
      ghost var before := Samples(writes);
      Begin(1, phyaddr, reg);
      RawWrite(2, 2);
      RawWrite(val, 16);
      assert Samples(writes) == before + Driving(WriteFrame(phyaddr, reg, val));
      RawTurnaround();
    }

    /** Against a PHY that keeps `regs`, returns the addressed register. */
    method Read(phyaddr: nat, reg: nat, regs: (nat, nat) -> nat) returns (r: nat)
      requires Valid()
      modifies this
      ensures Valid() && r == regs(phyaddr % 32, reg % 32) % 0x1_0000
      ensures Samples(writes) == Samples(old(writes)) + Driving(Header(2, phyaddr, reg)) + Clocks(20)
    {
      hide Samples, Low, Steady, Number, Header, PhyOutput, MsbFirst;
      var start := |Samples(writes)|;
      ghost var before := Samples(writes);
      ghost var header := Driving(Header(2, phyaddr, reg));
      Begin(2, phyaddr, reg);
      RawTurnaround();
      assert Samples(writes) == before + header + Clocks(2);
      assert before + header + Clocks(2) == before + (header + Clocks(2));
      var line := (s: seq<Sample>) => PhyOutput(regs, if start <= |s| then s[start..] else []);
      r := RawRead(line);
      InputsAre(line, regs, before, header + Clocks(2));
      assert Samples(writes) == before + header + Clocks(18);
      RawTurnaround();
      assert Samples(writes) == before + header + Clocks(20);
      RegisterRead(regs, phyaddr, reg);
    }
  }

  /** So many clocks with the line released. */
  function Clocks(n: nat): (s: seq<Sample>)
    ensures |s| == n
  {
    seq(n, _ => Released)
  }

  /** The data input before each of the next `n` clocks when the line is released. */
  function Inputs(line: seq<Sample> -> bool, samples: seq<Sample>, n: nat): (b: seq<bool>)
    ensures |b| == n
  {
    seq(n, k requires 0 <= k < n => line(samples + Clocks(k)))
  }

  /** A PHY that saw the transaction begin after the samples `before` replies on the line. */
  lemma InputsAre(line: seq<Sample> -> bool, regs: (nat, nat) -> nat, before: seq<Sample>, samples: seq<Sample>)
    requires forall s: seq<Sample> | |before| <= |s| :: line(s) == PhyOutput(regs, s[|before|..])
    ensures Inputs(line, before + samples, 16) == Replies(regs, samples, 16)
  {
    hide PhyOutput;
    forall k | 0 <= k < 16
      ensures Inputs(line, before + samples, 16)[k] == Replies(regs, samples, 16)[k]
    {
      assert (before + samples + Clocks(k))[|before|..] == samples + Clocks(k);
    }
  }

  /** What a PHY puts on the line before each of the next `n` clocks. */
  function Replies(regs: (nat, nat) -> nat, samples: seq<Sample>, n: nat): (b: seq<bool>)
    ensures |b| == n
  {
    seq(n, k requires 0 <= k < n => PhyOutput(regs, samples + Clocks(k)))
  }

  /** What the PHY answers to a read header and the turnaround denotes its register. */
  lemma RegisterRead(regs: (nat, nat) -> nat, phyaddr: nat, reg: nat)
    ensures Number(Replies(regs, Driving(Header(2, phyaddr, reg)) + Clocks(2), 16)) == regs(phyaddr % 32,
      reg % 32) % 0x1_0000
  {
    hide Number, Header, PhyOutput, MsbFirst;
    var samples := Driving(Header(2, phyaddr, reg)) + Clocks(2);
    var value := regs(phyaddr % 32, reg % 32);
    forall k | 0 <= k < 16
      ensures Replies(regs, samples, 16)[k] == MsbFirst(value, 16)[k]
    {
      assert (samples + Clocks(k))[..46] == Driving(Header(2, phyaddr, reg));
      PhyAnswers(regs, phyaddr, reg, samples + Clocks(k), k);
    }
    assert Replies(regs, samples, 16) == MsbFirst(value, 16);
    NumberMsbFirst(value, 16);
    Powers();
  }

  lemma NumberSnoc(bits: seq<bool>, b: bool)
    ensures Number(bits + [b]) == 2 * Number(bits) + if b then 1 else 0
  {
    assert Reverse(bits + [b]) == [b] + Reverse(bits);
  }

  lemma NumberOfNone()
    ensures forall bits: seq<bool> | |bits| == 0 :: Number(bits) == 0
  {}

  lemma SteadyTurnaround()
    ensures Steady(TURNAROUND)
  {}

  lemma SteadyClock(writes: seq<nat>)
    requires Steady(writes)
    ensures Steady(writes + [CLK] + [0])
  {
    SteadyAppend(writes, [CLK, 0]);
    assert writes + [CLK] + [0] == writes + [CLK, 0];
  }

  lemma Enable(writes: seq<nat>)
    requires Low(writes) && Steady(writes)
    ensures Low(writes + [OE]) && Steady(writes + [OE]) && Samples(writes + [OE]) == Samples(writes)
  {
    SteadyAppend(writes, [OE]);
    SamplesSnoc(writes, OE);
  }

  lemma NoPulses(writes: seq<nat>)
    ensures writes + Pulses([]) == writes
  {}

  lemma NextBit(r: nat, n: nat, k: nat)
    requires k < n
    ensures LowBits(r, n)[k] == (Shifted(r, k) % 2 == 1)
    decreases k
  {
    if k > 0 {
      NextBit(r / 2, n - 1, k - 1);
    }
  }
}
