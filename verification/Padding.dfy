/** The padding inserter: short packets are extended with zeros to 60 bytes. */
module Padding {
  import opened Streams

  const MIN_LENGTH: nat := 60
  const LIMIT: nat := MIN_LENGTH - 1

  /** What padding is for: at least 60 bytes, and longer packets untouched. */
  function PadTo(p: Packet): Packet {
    if |p.bytes| < MIN_LENGTH then Packet(p.bytes + Zeros(MIN_LENGTH - |p.bytes|), false) else p
  }

  /** What the 16-bit counter makes of it: the length is seen modulo 65536. */
  function PadCounted(p: Packet): Packet {
    var index := (|p.bytes| - 1) % 0x1_0000;
    if index < LIMIT then Packet(p.bytes + Zeros(LIMIT - index), false) else p
  }

  /** The condition under which the counter cannot mislead. */
  predicate CountsRight(length: nat) {
    length < MIN_LENGTH || (length - 1) % 0x1_0000 >= LIMIT
  }

  lemma PaddingExact(p: Packet)
    requires p.bytes != []
    ensures PadCounted(p) == PadTo(p) <==> CountsRight(|p.bytes|)
  {
    if !CountsRight(|p.bytes|) {
      assert |PadCounted(p).bytes| > |PadTo(p).bytes|;
    }
  }

  /** A packet one byte over 65536 is taken for a one-byte packet and gets 59 zeros too many. */
  lemma WrappedCounterPads(p: Packet)
    requires |p.bytes| == 0x1_0001
    ensures PadCounted(p).bytes == p.bytes + Zeros(59) && PadCounted(p) != PadTo(p)
  {}

  function PadAll(ps: seq<Packet>): (r: seq<Packet>)
    ensures |r| == |ps|
  {
    seq(|ps|, i requires 0 <= i < |ps| => PadCounted(ps[i]))
  }

  datatype State = Idle | Padding

  /** Passing through: the packets sent are the packets received, padded. */
  ghost predicate Copying(i: Log, o: Log, counter: nat) {
    o == Log(PadAll(i.packets), i.cur) && counter == |i.cur| % 0x1_0000
  }

  /** The last packet received is being completed with zeros. */
  ghost predicate Completing(i: Log, o: Log, counter: nat) {
    && i.cur == [] && i.packets != []
    && var n := |i.packets| - 1;
       var p := i.packets[n];
       && o.packets == PadAll(i.packets[..n])
       && o.cur <= PadCounted(p).bytes
       && p.bytes != [] && |p.bytes| <= |o.cur|
       && counter == (|p.bytes| - 1) % 0x1_0000 + 1 + |o.cur| - |p.bytes| <= LIMIT
  }

  lemma PadAllSnoc(ps: seq<Packet>, p: Packet)
    ensures PadAll(ps + [p]) == PadAll(ps) + [PadCounted(p)]
  {}

  lemma CopyKeeps(i: Log, o: Log, counter: nat, t: Token)
    requires Copying(i, o, counter)
    ensures t.last && counter < LIMIT ==>
      Completing(Push(i, t), Push(o, t.(last := false)), (counter + 1) % 0x1_0000)
    ensures t.last && counter >= LIMIT ==> Copying(Push(i, t), Push(o, t), 0)
    ensures !t.last ==> Copying(Push(i, t), Push(o, t), (counter + 1) % 0x1_0000)
  {
    var p := Packet(i.cur + [t.data], t.error);
    if t.last {
      PadAllSnoc(i.packets, p);
      assert (i.packets + [p])[..|i.packets|] == i.packets;
    }
  }

  lemma PadKeeps(i: Log, o: Log, counter: nat)
    requires Completing(i, o, counter)
    ensures counter < LIMIT ==> Completing(i, Push(o, Token(0, false, false)), counter + 1)
    ensures counter >= LIMIT ==> Copying(i, Push(o, Token(0, true, false)), 0)
  {
    var n := |i.packets| - 1;
    var p := i.packets[n];
    var padded := PadCounted(p).bytes;
    assert padded[|o.cur|] == 0;
    assert o.cur + [0] <= padded;
    if counter >= LIMIT {
      assert o.cur + [0] == padded;
      assert i.packets == i.packets[..n] + [p];
      PadAllSnoc(i.packets[..n], p);
    }
  }

  class PaddingInserter {
    var state: State
    var counter: nat
    ghost var got: seq<Token>
    ghost var sent: seq<Token>

    /** What has been sent is the padding of what has been received; the counter is the index of the next byte. */
    ghost predicate Valid()
      reads this
    {
      match state
      case Idle => Copying(Parse(got), Parse(sent), counter)
      case Padding => Completing(Parse(got), Parse(sent), counter)
    }

    constructor ()
      ensures Valid() && got == sent == [] && state == Idle
    {
      state, counter, got, sent := Idle, 0, [], [];
    }

    predicate Done()
      reads this
    {
      counter >= LIMIT
    }

    predicate SinkReady(ready: bool)
      reads this
    {
      state.Idle? && ready
    }

    predicate SourceValid(v: bool)
      reads this
    {
      state.Padding? || v
    }

    /** While idle the last flag is masked in the very cycle the token is taken. */
    function SourceToken(t: Token, ready: bool): Token
      reads this
    {
      match state
      case Idle => if ready && t.last && !Done() then t.(last := false) else t
      case Padding => Token(0, Done(), false)
    }

    method Tick(v: bool, t: Token, ready: bool)
      requires Valid()
      modifies this
      ensures Valid()
      ensures got == old(got) + if v && old(SinkReady(ready)) then [t] else []
      ensures sent == old(sent) + if old(SourceValid(v)) && ready then [old(SourceToken(t, ready))] else []
      ensures state == if !(old(SourceValid(v)) && ready) then old(state)
        else if old(state) == Idle then (if t.last && !old(Done()) then Padding else Idle)
        else if old(Done()) then Idle else Padding
      ensures counter == if !(old(SourceValid(v)) && ready) then old(counter)
        else if old(Done()) && (old(state) == Padding || t.last) then 0 else (old(counter) + 1) % 0x1_0000
    {
      match state {
        case Idle =>
          if v && ready {
            Copy(t);
          }
        case Padding =>
          if ready {
            Pad();
          }
      }
    }

    /** A token passes through in the idle state. */
    method Copy(t: Token)
      requires Valid() && state.Idle?
      modifies this
      ensures Valid()
      ensures got == old(got) + [t]
      ensures sent == old(sent) + [old(SourceToken(t, true))]
      ensures state == if t.last && !old(Done()) then Padding else Idle
      ensures counter == if t.last && old(Done()) then 0 else (old(counter) + 1) % 0x1_0000
    {
      hide Parse, PadAll, PadCounted;
      CopyKeeps(Parse(got), Parse(sent), counter, t);
      ParseSnoc(got, t);
      ParseSnoc(sent, SourceToken(t, true));
      got, sent := got + [t], sent + [SourceToken(t, true)];
      if t.last && Done() {
        counter := 0;
      } else {
        counter, state := (counter + 1) % 0x1_0000, if t.last then Padding else Idle;
      }
    }

    /** A zero is sent in the padding state. */
    method Pad()
      requires Valid() && state.Padding?
      modifies this
      ensures Valid()
      ensures got == old(got)
      ensures sent == old(sent) + [Token(0, old(Done()), false)]
      ensures state == if old(Done()) then Idle else Padding
      ensures counter == if old(Done()) then 0 else (old(counter) + 1) % 0x1_0000
    {
      hide Parse, PadAll, PadCounted;
      PadKeeps(Parse(got), Parse(sent), counter);
      ParseSnoc(sent, Token(0, Done(), false));
      sent := sent + [Token(0, Done(), false)];
      if Done() {
        counter, state := 0, Idle;
      } else {
        counter := (counter + 1) % 0x1_0000;
      }
    }
  }

  /** In every reachable state the packets sent are the first packets received, padded. */
  lemma SentPackets(m: PaddingInserter)
    requires m.Valid()
    ensures Parse(m.sent).packets <= PadAll(Parse(m.got).packets)
    ensures m.state.Idle? ==> Parse(m.sent).packets == PadAll(Parse(m.got).packets)
  {
    hide Parse;
  }
}
