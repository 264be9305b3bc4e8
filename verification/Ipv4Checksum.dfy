/** The pipelined IPv4 header checksum, as the transmitter and the receiver use it. */
module Ipv4Checksum {
  import opened Bits
  import opened OnesComplement
  import Modulo

  const WORDS: nat := 10
  const CHECKSUM_WORD: nat := 5

  /** A header as ten words, the first byte of each pair in the low half. */
  type Header = h: seq<word> | |h| == WORDS witness [0, 0, 0, 0, 0, 0, 0, 0, 0, 0]

  type index = i: nat | i < WORDS

  /** The word indices that are summed, in order. */
  function Indices(skipChecksum: bool): seq<index> {
    if skipChecksum then [0, 1, 2, 3, 4, 6, 7, 8, 9] else [0, 1, 2, 3, 4, 5, 6, 7, 8, 9]
  }

  function Select(h: Header, indices: seq<index>): (ws: seq<word>)
    ensures |ws| == |indices|
  {
    seq(|indices|, k requires 0 <= k < |indices| => h[indices[k]])
  }

  /** A 17-bit partial sum: the header word is added, then the carry. */
  function Stage(r: nat, w: word): (s: nat)
    ensures s <= 0x1_0000
  {
    var s := (r + w) % 0x2_0000;
    s % 0x1_0000 + s / 0x1_0000
  }

  /** The number of registers among the first `k` stages. */
  function Depth(indices: seq<index>, perCycle: nat, k: nat): (d: nat)
    requires perCycle > 0 && k <= |indices|
    ensures d <= k
  {
    if k == 0 then 0 else Depth(indices, perCycle, k - 1) + if indices[k - 1] % perCycle == 0 then 1 else 0
  }

  /** The partial sum after `k` stages: a register, or logic behind the stage before. */
  function Node(regs: seq<nat>, indices: seq<index>, perCycle: nat, h: Header, k: nat): nat
    requires perCycle > 0 && k <= |indices| == |regs|
  {
    if k == 0 then 0
    else if indices[k - 1] % perCycle == 0 then regs[k - 1]
    else Stage(Node(regs, indices, perCycle, h, k - 1), h[indices[k - 1]])
  }

  /** The partial sums within reach of `n` clocks are right. */
  ghost predicate Flushed(regs: seq<nat>, indices: seq<index>, perCycle: nat, h: Header, n: nat)
    requires perCycle > 0 && |indices| == |regs|
  {
    forall k | 0 <= k <= |indices| && Depth(indices, perCycle, k) <= n ::
      Node(regs, indices, perCycle, h, k) == Sum(Select(h, indices)[..k])
  }

  /** The partial sums depend on the header only through the words summed. */
  lemma {:induction false} NodeBySelect(regs: seq<nat>, indices: seq<index>, perCycle: nat, h: Header, g: Header,
                                        k: nat)
    requires perCycle > 0 && k <= |indices| == |regs|
    requires Select(h, indices) == Select(g, indices)
    ensures Node(regs, indices, perCycle, h, k) == Node(regs, indices, perCycle, g, k)
    decreases k
  {
    if k > 0 {
      assert Select(h, indices)[k - 1] == Select(g, indices)[k - 1];
      NodeBySelect(regs, indices, perCycle, h, g, k - 1);
    }
  }

  lemma FlushedBySelect(regs: seq<nat>, indices: seq<index>, perCycle: nat, h: Header, g: Header, n: nat)
    requires perCycle > 0 && |indices| == |regs|
    requires Select(h, indices) == Select(g, indices)
    ensures Flushed(regs, indices, perCycle, h, n) == Flushed(regs, indices, perCycle, g, n)
  {
    forall k | 0 <= k <= |indices|
      ensures Node(regs, indices, perCycle, h, k) == Node(regs, indices, perCycle, g, k)
    {
      NodeBySelect(regs, indices, perCycle, h, g, k);
    }
  }

  lemma StageIsAdd(a: word, w: word)
    ensures Stage(a, w) == CarryAroundAdd(a, w)
  {}

  lemma NextSum(h: Header, indices: seq<index>, k: nat)
    requires k < |indices|
    ensures Sum(Select(h, indices)[..k + 1]) == Stage(Sum(Select(h, indices)[..k]), h[indices[k]])
  {
    var ws := Select(h, indices);
    assert ws[..k + 1] == ws[..k] + [ws[k]];
    SumSnoc(ws[..k], ws[k]);
    StageIsAdd(Sum(ws[..k]), ws[k]);
  }

  /** One clock with the same header extends the reach by one register. */
  lemma {:induction false} ClockFlushes(regs: seq<nat>, regs': seq<nat>, indices: seq<index>, perCycle: nat,
                                        h: Header, n: nat, k: nat)
    requires perCycle > 0 && k <= |indices| == |regs| == |regs'|
    requires Flushed(regs, indices, perCycle, h, n)
    requires forall j | 0 <= j < |indices| && indices[j] % perCycle == 0 ::
      regs'[j] == Stage(Node(regs, indices, perCycle, h, j), h[indices[j]])
    requires Depth(indices, perCycle, k) <= n + 1
    ensures Node(regs', indices, perCycle, h, k) == Sum(Select(h, indices)[..k])
    decreases k
  {
    if k > 0 {
      NextSum(h, indices, k - 1);
      if indices[k - 1] % perCycle != 0 {
        ClockFlushes(regs, regs', indices, perCycle, h, n, k - 1);
      }
    }
  }

  lemma ClockFlushesAll(regs: seq<nat>, regs': seq<nat>, indices: seq<index>, perCycle: nat, h: Header, n: nat)
    requires perCycle > 0 && |indices| == |regs| == |regs'|
    requires Flushed(regs, indices, perCycle, h, n)
    requires forall j | 0 <= j < |indices| && indices[j] % perCycle == 0 ::
      regs'[j] == Stage(Node(regs, indices, perCycle, h, j), h[indices[j]])
    ensures Flushed(regs', indices, perCycle, h, n + 1)
  {
    forall k | 0 <= k <= |indices| && Depth(indices, perCycle, k) <= n + 1
      ensures Node(regs', indices, perCycle, h, k) == Sum(Select(h, indices)[..k])
    {
      ClockFlushes(regs, regs', indices, perCycle, h, n, k);
    }
  }

  /** Before any clock the stages in front of the first register are right: there are none. */
  lemma {:induction false} NothingFlushed(regs: seq<nat>, indices: seq<index>, perCycle: nat, h: Header)
    requires perCycle > 0 && |indices| == |regs|
    requires indices != [] ==> indices[0] % perCycle == 0
    ensures Flushed(regs, indices, perCycle, h, 0)
  {
    forall k | 0 < k <= |indices| ensures Depth(indices, perCycle, k) > 0 {
      DepthGrows(indices, perCycle, 1, k);
      assert Depth(indices, perCycle, 1) == Depth(indices, perCycle, 0) + 1;
    }
    assert Select(h, indices)[..0] == [];
  }

  lemma {:induction false} DepthGrows(indices: seq<index>, perCycle: nat, j: nat, k: nat)
    requires perCycle > 0 && j <= k <= |indices|
    ensures Depth(indices, perCycle, j) <= Depth(indices, perCycle, k)
    decreases k
  {
    if j < k {
      DepthGrows(indices, perCycle, j, k - 1);
    }
  }

  class HeaderChecksum {
    const skipChecksum: bool
    const perCycle: nat
    const indices: seq<index>
    const cycles: nat
    var regs: seq<nat>       // entries of stages without a register are unused
    var counter: nat
    ghost var header: Header // the header last clocked in
    ghost var steady: bool   // the words summed have not changed since the reset

    ghost predicate Valid()
      reads this
    {
      && perCycle > 0 && indices == Indices(skipChecksum) && |regs| == |indices|
      && cycles == Depth(indices, perCycle, |indices|) + (if skipChecksum then 0 else 1)
      && counter <= cycles
      && (steady ==> Flushed(regs, indices, perCycle, header, counter))
    }

    /** The partial sums may hold anything at all: they have no reset. */
    constructor (skipChecksum: bool, perCycle: nat, stale: seq<nat>)
      requires perCycle > 0 && |stale| == |Indices(skipChecksum)|
      ensures Valid() && counter == 0 && steady
      ensures this.skipChecksum == skipChecksum && regs == stale
    {
      this.skipChecksum, this.perCycle := skipChecksum, perCycle;
      var indices := Indices(skipChecksum);
      this.indices := indices;
      cycles := Depth(indices, perCycle, |indices|) + (if skipChecksum then 0 else 1);
      regs, counter := stale, 0;
      var h: Header := [0, 0, 0, 0, 0, 0, 0, 0, 0, 0];
      header, steady := h, true;
      NothingFlushed(stale, indices, perCycle, h);
    }

    predicate Done()
      reads this
    {
      counter == cycles
    }

    function PartialSum(h: Header): nat
      requires Valid()
      reads this
    {
      Node(regs, indices, perCycle, h, |indices|)
    }

    /** The output: the low 16 bits of the last partial sum, bytes exchanged, complemented. */
    function Value(h: Header): word
      requires Valid()
      reads this
    {
      0xFFFF - Swap(PartialSum(h) % 0x1_0000)
    }

    /** A header with the words summed so far; the word that is skipped may differ. */
    ghost predicate Keeps(h: Header)
      reads this
    {
      Select(h, indices) == Select(header, indices)
    }

    /** One clock; reset clears the counter only, and wins over the clock enable. */
    method Clock(reset: bool, ce: bool, h: Header)
      requires Valid()
      modifies this
      ensures Valid()
      ensures counter == if reset then 0 else if ce && !old(Done()) then old(counter) + 1 else old(counter)
      ensures reset ==> steady
      ensures !reset && counter > old(counter) ==>
        header == h && steady == (old(counter) == 0 || (old(steady) && old(Keeps(h))))
      ensures !reset && counter == old(counter) ==> header == old(header) && steady == old(steady)
    {
      if ce && !Done() {
        Advance(h);
      }
      if reset {
        counter, steady := 0, true;
        NothingFlushed(regs, indices, perCycle, header);
      }
    }

    /** All registers take their next value at once. */
    method Advance(h: Header)
      requires Valid() && !Done()
      modifies this
      ensures Valid()
      ensures counter == old(counter) + 1 && header == h
      ensures steady == (old(counter) == 0 || (old(steady) && old(Keeps(h))))
    {
      hide Stage, Sum, Select, Node, Depth, Flushed;
      var next := NextRegs(h);
      if counter == 0 {
        NothingFlushed(regs, indices, perCycle, h);
      }
      FlushedBySelectIf(h);
      steady := counter == 0 || (steady && Keeps(h));
      if steady {
        ClockFlushesAll(regs, next, indices, perCycle, h, counter);
      }
      regs, counter, header := next, counter + 1, h;
    }

    lemma FlushedBySelectIf(h: Header)
      requires Valid()
      ensures Keeps(h) ==>
        Flushed(regs, indices, perCycle, h, counter) == Flushed(regs, indices, perCycle, header, counter)
    {
      if Keeps(h) {
        FlushedBySelect(regs, indices, perCycle, h, header, counter);
      }
    }

    method NextRegs(h: Header) returns (next: seq<nat>)
      requires Valid()
      ensures |next| == |indices|
      ensures forall i | 0 <= i < |indices| && indices[i] % perCycle == 0 ::
        next[i] == Stage(Node(regs, indices, perCycle, h, i), h[indices[i]])
    {
      hide Stage, Sum, Select, Node, Depth, Flushed;
      next := [];
      for j := 0 to |indices|
        invariant |next| == j
        invariant forall i | 0 <= i < j && indices[i] % perCycle == 0 ::
          next[i] == Stage(Node(regs, indices, perCycle, h, i), h[indices[i]])
      {
        var r := regs[j];
        if indices[j] % perCycle == 0 {
          r := Stage(Node(regs, indices, perCycle, h, j), h[indices[j]]);
        }
        next := next + [r];
      }
    }
  }

  /** The words the transmitter sums: all but the checksum itself. */
  function OtherWords(h: Header): seq<word> {
    Select(h, Indices(true))
  }

  /** Whatever the partial sums held before, a header held steady until done
      yields the RFC 1071 checksum of its words in network order. */
  lemma ValueIsRfc1071(c: HeaderChecksum, h: Header)
    requires c.Valid() && c.Done() && c.steady && c.Keeps(h)
    ensures forall k | 0 <= k <= |c.indices| :: Node(c.regs, c.indices, c.perCycle, h, k) <= 0xFFFF
    ensures c.Value(h) == Rfc1071(SwapAll(Select(h, c.indices)))
  {
    hide Sum, Select, Swap, SwapAll, Node, Depth;
    var ws := Select(h, c.indices);
    c.FlushedBySelectIf(h);
    assert ws[..|c.indices|] == ws;
    forall k | 0 <= k <= |c.indices| ensures Node(c.regs, c.indices, c.perCycle, h, k) == Sum(ws[..k]) {
      DepthGrows(c.indices, c.perCycle, k, |c.indices|);
    }
    SumSwapAll(ws);
  }

  // ----- Transmitter and receiver

  /** What the transmitter computes for a header, whatever its checksum word holds. */
  function TransmitValue(h: Header): word {
    0xFFFF - Swap(Sum(OtherWords(h)))
  }

  /** The header with a checksum value in its field, which is sent high byte first. */
  function WithChecksum(h: Header, value: word): Header {
    h[CHECKSUM_WORD := Swap(value)]
  }

  /** What the receiver computes for a header; it takes the header only when this is zero. */
  function ReceiveValue(h: Header): word {
    0xFFFF - Swap(Sum(Select(h, Indices(false))))
  }

  lemma AllWords(h: Header)
    ensures Select(h, Indices(false)) == OtherWords(h)[..5] + [h[5]] + OtherWords(h)[5..]
    ensures Total(Select(h, Indices(false))) == Total(OtherWords(h)) + h[5]
  {
    var others := OtherWords(h);
    TotalConcat(others[..5] + [h[5]], others[5..]);
    TotalSnoc(others[..5], h[5]);
    TotalConcat(others[..5], others[5..]);
    assert others == others[..5] + others[5..];
  }

  lemma ReceiveValueZero(h: Header)
    ensures ReceiveValue(h) == 0 <==> Sum(Select(h, Indices(false))) == 0xFFFF
  {
    hide Sum, Select;
    SwapInvolution(Sum(Select(h, Indices(false))));
  }

  /** Two words of which the second is added last, as residues. */
  lemma SumsToOnes(total: nat, w: word)
    ensures Normal(total + w) == 0xFFFF <==>
      w == 0xFFFF - Normal(total) || (w == 0xFFFF && Normal(total) == 0xFFFF)
  {
    NormalAdd(total, w);
    AddAsMultiple(Normal(total), w);
  }

  /** The receiver takes a header exactly when its checksum word complements
      the sum of the others; all ones stands for zero as well. */
  lemma ReceiveIff(h: Header)
    ensures var s := Sum(OtherWords(h));
      ReceiveValue(h) == 0 <==> h[5] == 0xFFFF - s || (s == 0xFFFF && h[5] == 0xFFFF)
  {
    hide Sum, Select, Normal;
    ReceiveValueZero(h);
    AllWords(h);
    SumIsNormal(Select(h, Indices(false)));
    SumIsNormal(OtherWords(h));
    SumsToOnes(Total(OtherWords(h)), h[5]);
  }

  /** A header carrying the transmitter's value is always taken by the receiver. */
  lemma TransmitReceive(h: Header)
    ensures ReceiveValue(WithChecksum(h, TransmitValue(h))) == 0
  {
    hide Sum;
    var h' := WithChecksum(h, TransmitValue(h));
    assert OtherWords(h') == OtherWords(h);
    ReceiveIff(h');
    ComplementSwap(Sum(OtherWords(h)));
  }

  lemma ComplementSwap(s: word)
    ensures Swap(0xFFFF - Swap(s)) == 0xFFFF - s
  {
    var v: nat := 0xFFFF - Swap(s);
    assert v / 256 == 255 - s % 256 && v % 256 == 255 - s / 256;
  }

  /** A header of twenty bytes as ten words. */
  function HeaderOf(packet: seq<byte>): Header
    requires |packet| == 20
  {
    LittleWords(packet)
  }

  /** The receiver takes a packet's header exactly when its bytes, those at even places
      weighing 256, weigh a non-zero multiple of 0xFFFF. */
  lemma ReceiveByWeight(packet: seq<byte>)
    requires |packet| == 20
    ensures ReceiveValue(HeaderOf(packet)) == 0 <==> Weight(packet) > 0 && Weight(packet) % 0xFFFF == 0
  {
    hide Sum, Weight;
    var h := HeaderOf(packet);
    ReceiveValueZero(h);
    assert Select(h, Indices(false)) == h;
    OnesByWeight(packet);
  }

  /** The transmitter's value, high byte in byte 10 and low byte in byte 11, makes them do so. */
  lemma TransmitByWeight(packet: seq<byte>)
    requires |packet| == 20
    ensures var v := TransmitValue(HeaderOf(packet));
      var sent := packet[10 := v / 256][11 := v % 256];
      Weight(sent) > 0 && Weight(sent) % 0xFFFF == 0
  {
    hide Sum, Weight, TransmitValue, ReceiveValue;
    var h := HeaderOf(packet);
    var v := TransmitValue(h);
    var sent := packet[10 := v / 256][11 := v % 256];
    assert HeaderOf(sent) == WithChecksum(h, v);
    TransmitReceive(h);
    ReceiveByWeight(sent);
  }

  /** The two hardware instances, run on the header they see, agree with the functions above. */
  lemma InstanceValues(c: HeaderChecksum, h: Header)
    requires c.Valid() && c.Done() && c.steady && c.Keeps(h)
    ensures c.Value(h) == if c.skipChecksum then TransmitValue(h) else ReceiveValue(h)
  {
    hide Sum, Select, Swap;
    var ws := Select(h, c.indices);
    assert ws[..|c.indices|] == ws;
    c.FlushedBySelectIf(h);
  }

  /** The registers among all ten words are the multiples of the words per cycle. */
  lemma {:induction false} AllDepth(perCycle: nat, k: nat)
    requires perCycle > 0 && k <= 10
    ensures Depth(Indices(false), perCycle, k) == if k == 0 then 0 else (k - 1) / perCycle + 1
  {
    if k > 0 {
      AllDepth(perCycle, k - 1);
      MultiplesUpTo(k - 1, perCycle);
    }
  }

  /** ... and among the nine others, without the checksum, which is number five. */
  lemma {:induction false} OthersDepth(perCycle: nat, k: nat)
    requires perCycle > 0 && k <= 9
    ensures Depth(Indices(true), perCycle, k) ==
      if k == 0 then 0 else if k <= 5 then (k - 1) / perCycle + 1
      else k / perCycle + if 5 % perCycle == 0 then 0 else 1
  {
    if k > 0 {
      OthersDepth(perCycle, k - 1);
      MultiplesUpTo(k - 1, perCycle);
      MultiplesUpTo(k, perCycle);
    }
  }

  lemma MultiplesUpTo(n: nat, p: nat)
    requires p > 0
    ensures n > 0 ==> n / p == (n - 1) / p + if n % p == 0 then 1 else 0
    ensures n == 0 ==> n / p == 0 && n % p == 0
  {
    if n > 0 {
      Modulo.DivNext(n - 1, p);
    } else {
      Modulo.ModUnique(0, 0, 0, p);
    }
  }

  /** The cycles until done, for any number of words per cycle: with one word per cycle
      nine when the checksum is skipped, and eleven when it is not. */
  lemma CycleCount(c: HeaderChecksum)
    requires c.Valid()
    ensures c.cycles == 9 / c.perCycle + if !c.skipChecksum then 2 else if 5 % c.perCycle == 0 then 0 else 1
    ensures c.perCycle == 1 ==> c.cycles == if c.skipChecksum then 9 else 11
  {
    hide Depth, Flushed;
    if c.skipChecksum {
      OthersDepth(c.perCycle, 9);
    } else {
      AllDepth(c.perCycle, 10);
    }
  }

  function Trues(bs: seq<bool>): nat {
    if bs == [] then 0 else Trues(bs[..|bs| - 1]) + if bs[|bs| - 1] then 1 else 0
  }

  /** The skipped word has no influence on the transmitter's instance. */
  lemma SkippedWord(c: HeaderChecksum, h: Header, value: word)
    requires c.Valid() && c.skipChecksum
    ensures Select(WithChecksum(h, value), c.indices) == Select(h, c.indices)
    ensures c.Value(WithChecksum(h, value)) == c.Value(h)
  {
    assert Select(WithChecksum(h, value), c.indices) == Select(h, c.indices);
    NodeBySelect(c.regs, c.indices, c.perCycle, WithChecksum(h, value), h, |c.indices|);
  }

  /** One cycle of the transmitter: the header presented carries the instance's own output. */
  method TransmitCycle(c: HeaderChecksum, h: Header, enable: bool)
    requires c.Valid() && c.skipChecksum && (c.counter == 0 || (c.steady && c.Keeps(h)))
    modifies c
    ensures c.Valid() && (c.counter == 0 || (c.steady && c.Keeps(h)))
    ensures c.counter == old(c.counter) + if enable && old(c.counter) < c.cycles then 1 else 0
  {
    hide Select, Node, Stage, Depth, Flushed, Sum, Swap, WithChecksum;
    var presented := WithChecksum(h, c.Value(h));
    SkippedWord(c, h, c.Value(h));
    c.Clock(false, enable, presented);
  }

  /** The transmitter from a reset on, in cycles enabled at will: the output in the
      header moves while the sums fill. Once it is done, the output is the checksum,
      and the receiver takes the header it is in. */
  method Transmit(c: HeaderChecksum, h: Header, enables: seq<bool>)
    requires c.Valid() && c.skipChecksum && c.counter == 0
    modifies c
    ensures c.Valid()
    ensures c.Done() <==> Trues(enables) >= c.cycles
    ensures c.Done() ==>
      && c.Value(h) == Rfc1071(SwapAll(OtherWords(h))) == TransmitValue(h)
      && ReceiveValue(WithChecksum(h, c.Value(h))) == 0
  {
    hide Select, Node, Stage, Depth, Flushed, Sum, Swap, SwapAll, WithChecksum, ReceiveValue, TransmitValue, Rfc1071;
    assert enables[..0] == [];
    for i := 0 to |enables|
      invariant c.Valid() && (c.counter == 0 || (c.steady && c.Keeps(h)))
      invariant c.counter == if Trues(enables[..i]) < c.cycles then Trues(enables[..i]) else c.cycles
    {
      assert enables[..i + 1] == enables[..i] + [enables[i]];
      assert enables[..i + 1][..i] == enables[..i];
      TransmitCycle(c, h, enables[i]);
    }
    assert enables[..|enables|] == enables;
    if c.Done() {
      SomeCycles(c);
      ValueIsRfc1071(c, h);
      InstanceValues(c, h);
      TransmitReceive(h);
    }
  }

  lemma SomeCycles(c: HeaderChecksum)
    requires c.Valid() && c.skipChecksum
    ensures c.cycles > 0 && c.indices == Indices(true)
  {
    DepthGrows(c.indices, c.perCycle, 1, |c.indices|);
    assert Depth(c.indices, c.perCycle, 1) == Depth(c.indices, c.perCycle, 0) + 1;
  }

  /** The reference model writes the very bytes the transmitter writes. */
  method InsertChecksum(packet: array<byte>)
    requires packet.Length >= 20
    modifies packet
    ensures packet[..10] == old(packet[..10]) && packet[12..] == old(packet[12..])
    ensures LittleWord(packet[10], packet[11]) == Swap(TransmitValue(LittleWords(packet[..20])))
    ensures ReceiveValue(LittleWords(packet[..20])) == 0
    ensures Weight(packet[..20]) > 0 && Weight(packet[..20]) % 0xFFFF == 0
  {
    hide Sum, Select, Swap, Weight;
    packet[10], packet[11] := 0, 0;
    ghost var zeroed: Header := LittleWords(packet[..20]);
    var c := Checksum(packet[..20]);
    packet[10] := c % 256;
    packet[11] := c / 256;
    ghost var h: Header := LittleWords(packet[..20]);
    assert h == zeroed[5 := c];
    InsertedWord(zeroed, c);
    ReceiveByWeight(packet[..20]);
  }

  lemma InsertedWord(zeroed: Header, c: word)
    requires zeroed[5] == 0 && c == 0xFFFF - Sum(zeroed)
    ensures var h: Header := zeroed[5 := c]; c == Swap(TransmitValue(h)) && ReceiveValue(h) == 0
  {
    hide Sum;
    var h: Header := zeroed[5 := c];
    assert OtherWords(h) == OtherWords(zeroed);
    ZeroWord(zeroed);
    ComplementSwap(Sum(OtherWords(h)));
    TransmitReceive(h);
    assert h == WithChecksum(h, TransmitValue(h));
  }

  lemma ZeroWord(h: Header)
    requires h[5] == 0
    ensures Sum(h) == Sum(OtherWords(h))
  {
    assert h == Select(h, Indices(false));
    AllWords(h);
    SumIsNormal(h);
    SumIsNormal(OtherWords(h));
  }
}
