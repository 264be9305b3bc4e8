/** The preamble inserter and checker. */
module Preamble {
  import opened Bits
  import opened Streams

  const SFD: byte := 0xD5
  const ETH_PREAMBLE: nat := 0xD555_5555_5555_5555

  /** Byte `k` of a word, byte 0 the lowest: what the chooser selects. */
  function Chunk(word: nat, k: nat): byte
    decreases k
  {
    if k == 0 then word % 256 else Chunk(word / 256, k - 1)
  }

  /** The eight bytes in the order they are sent. */
  const PREAMBLE_BYTES: seq<byte> := [0x55, 0x55, 0x55, 0x55, 0x55, 0x55, 0x55, SFD]

  lemma ChunksAreBytes(k: nat)
    requires k < 8
    ensures Chunk(ETH_PREAMBLE, k) == PREAMBLE_BYTES[k] == if k < 7 then 0x55 else 0xD5
  {
    assert Chunk(0xD5, 0) == SFD;
    assert Chunk(0xD555, 1) == SFD;
    assert Chunk(0xD5_5555, 2) == SFD;
    assert Chunk(0xD555_5555, 3) == SFD;
    assert Chunk(0xD5_5555_5555, 4) == SFD;
    assert Chunk(0xD555_5555_5555, 5) == SFD;
    assert Chunk(0xD5_5555_5555_5555, 6) == SFD;
  }

  // ----- Inserter

  function Prefix(p: Packet): Packet {
    Packet(PREAMBLE_BYTES + p.bytes, p.error)
  }

  function PrefixAll(ps: seq<Packet>): (r: seq<Packet>)
    ensures |r| == |ps|
  {
    seq(|ps|, i requires 0 <= i < |ps| => Prefix(ps[i]))
  }

  ghost predicate Sending(i: Log, o: Log, n: nat) {
    i.cur == [] && n <= 8 && o == Log(PrefixAll(i.packets), PREAMBLE_BYTES[..n])
  }

  ghost predicate Copying(i: Log, o: Log) {
    o == Log(PrefixAll(i.packets), PREAMBLE_BYTES + i.cur)
  }

  lemma SendKeeps(i: Log, o: Log, n: nat)
    requires Sending(i, o, n) && n < 8
    ensures var o' := Push(o, Token(Chunk(ETH_PREAMBLE, n), false, false));
      Sending(i, o', n + 1) && (n == 7 ==> Copying(i, o'))
  {
    ChunksAreBytes(n);
    assert PREAMBLE_BYTES[..n + 1] == PREAMBLE_BYTES[..n] + [PREAMBLE_BYTES[n]];
    assert PREAMBLE_BYTES[..8] == PREAMBLE_BYTES + [];
  }

  lemma CopyKeeps(i: Log, o: Log, t: Token)
    requires Copying(i, o)
    ensures if t.last then Sending(Push(i, t), Push(o, t), 0) else Copying(Push(i, t), Push(o, t))
  {
    assert PREAMBLE_BYTES + i.cur + [t.data] == PREAMBLE_BYTES + (i.cur + [t.data]);
    assert PrefixAll(i.packets + [Packet(i.cur + [t.data], t.error)])
      == PrefixAll(i.packets) + [Prefix(Packet(i.cur + [t.data], t.error))];
  }

  datatype State = Idle | Preamble | Copy

  class Inserter {
    var state: State
    var count: nat
    ghost var got: seq<Token>
    ghost var sent: seq<Token>

    ghost predicate Valid()
      reads this
    {
      match state
      case Idle => Sending(Parse(got), Parse(sent), 0)
      case Preamble => count < 8 && Sending(Parse(got), Parse(sent), count)
      case Copy => Copying(Parse(got), Parse(sent))
    }

    constructor ()
      ensures Valid() && got == sent == [] && state == Idle
    {
      state, count, got, sent := Idle, 0, [], [];
    }

    predicate SinkReady(v: bool, ready: bool)
      reads this
    {
      match state
      case Idle => !v
      case Preamble => false
      case Copy => ready
    }

    predicate SourceValid(v: bool)
      reads this
    {
      match state
      case Idle => false
      case Preamble => true
      case Copy => v
    }

    function SourceToken(t: Token): Token
      reads this
    {
      if state.Preamble? then Token(Chunk(ETH_PREAMBLE, count), false, false) else t
    }

    method Tick(v: bool, t: Token, ready: bool)
      requires Valid()
      modifies this
      ensures Valid()
      ensures got == old(got) + if v && old(SinkReady(v, ready)) then [t] else []
      ensures sent == old(sent) + if old(SourceValid(v)) && ready then [old(SourceToken(t))] else []
      ensures state == match old(state)
        case Idle => if v then Preamble else Idle
        case Preamble => if ready && old(count) == 7 then Copy else Preamble
        case Copy => if v && ready && t.last then Idle else Copy
      ensures count == match old(state)
        case Idle => 0
        case Preamble => if ready && old(count) < 7 then old(count) + 1 else old(count)
        case Copy => old(count)
    {
      hide Chunk, PrefixAll, Sending, Copying;
      match state {
        case Idle =>
          count := 0;
          if v {
            state := Preamble;
          }
        case Preamble =>
          if ready {
            SendKeeps(Parse(got), Parse(sent), count);
            ParseSnoc(sent, SourceToken(t));
            sent := sent + [SourceToken(t)];
            if count == 7 {
              state := Copy;
            } else {
              count := count + 1;
            }
          }
        case Copy =>
          if v && ready {
            CopyKeeps(Parse(got), Parse(sent), t);
            ParseSnoc(got, t);
            ParseSnoc(sent, t);
            got, sent := got + [t], sent + [t];
            if t.last {
              state := Idle;
            }
          }
      }
    }
  }

  // ----- Checker

  /** The position of the first start-of-frame delimiter, or the length when there is none. */
  function SfdAt(bytes: seq<byte>): (k: nat)
    ensures k <= |bytes|
    ensures SFD !in bytes[..k]
    ensures k < |bytes| ==> bytes[k] == SFD
  {
    if bytes == [] || bytes[0] == SFD then 0 else
      assert forall b | b in bytes[..1 + SfdAt(bytes[1..])] :: b == bytes[0] || b in bytes[1..][..SfdAt(bytes[1..])];
      1 + SfdAt(bytes[1..])
  }

  lemma SfdAtUnique(bytes: seq<byte>, k: nat)
    requires k <= |bytes| && SFD !in bytes[..k] && (k < |bytes| ==> bytes[k] == SFD)
    ensures SfdAt(bytes) == k
  {
    var f := SfdAt(bytes);
    assert forall j | 0 <= j < k :: bytes[j] == bytes[..k][j];
    assert forall j | 0 <= j < f :: bytes[j] == bytes[..f][j];
  }

  /** A delimiter counts only when it is not the last byte of the packet. */
  predicate HasSfd(bytes: seq<byte>) {
    SfdAt(bytes) + 1 < |bytes|
  }

  function Strip(p: Packet): Packet
    requires HasSfd(p.bytes)
  {
    Packet(p.bytes[SfdAt(p.bytes) + 1..], p.error)
  }

  /** Packets without a delimiter disappear. */
  function StripAll(ps: seq<Packet>): seq<Packet> {
    if ps == [] then [] else
      var p := ps[|ps| - 1];
      StripAll(ps[..|ps| - 1]) + if HasSfd(p.bytes) then [Strip(p)] else []
  }

  function Rejected(ps: seq<Packet>): nat {
    if ps == [] then 0 else
      Rejected(ps[..|ps| - 1]) + if HasSfd(ps[|ps| - 1].bytes) then 0 else 1
  }

  lemma StripAllSnoc(ps: seq<Packet>, p: Packet)
    ensures StripAll(ps + [p]) == StripAll(ps) + if HasSfd(p.bytes) then [Strip(p)] else []
    ensures Rejected(ps + [p]) == Rejected(ps) + if HasSfd(p.bytes) then 0 else 1
  {
    assert (ps + [p])[..|ps|] == ps;
  }

  ghost predicate Seeking(i: Log, o: Log) {
    SFD !in i.cur && o == Log(StripAll(i.packets), [])
  }

  ghost predicate Forwarding(i: Log, o: Log) {
    SfdAt(i.cur) < |i.cur| && o == Log(StripAll(i.packets), i.cur[SfdAt(i.cur) + 1..])
  }

  lemma SeekKeeps(i: Log, o: Log, t: Token)
    requires Seeking(i, o)
    ensures if t.last || t.data != SFD then Seeking(Push(i, t), o) else Forwarding(Push(i, t), o)
    ensures Rejected(Push(i, t).packets) == Rejected(i.packets) + if t.last then 1 else 0
  {
    var bytes := i.cur + [t.data];
    assert bytes[..|i.cur|] == i.cur;
    SfdAtUnique(bytes, if t.data == SFD then |i.cur| else |bytes|);
    if t.last {
      StripAllSnoc(i.packets, Packet(bytes, t.error));
    }
  }

  lemma ForwardKeeps(i: Log, o: Log, t: Token)
    requires Forwarding(i, o)
    ensures if t.last then Seeking(Push(i, t), Push(o, t)) else Forwarding(Push(i, t), Push(o, t))
    ensures Rejected(Push(i, t).packets) == Rejected(i.packets)
  {
    var bytes, k := i.cur + [t.data], SfdAt(i.cur);
    assert bytes[..k] == i.cur[..k];
    SfdAtUnique(bytes, k);
    assert bytes[k + 1..] == i.cur[k + 1..] + [t.data];
    if t.last {
      StripAllSnoc(i.packets, Packet(bytes, t.error));
    }
  }

  datatype CheckerState = Seek | Forward

  class Checker {
    var state: CheckerState
    ghost var got: seq<Token>
    ghost var sent: seq<Token>
    ghost var errors: nat  // cycles in which the error output was high

    ghost predicate Valid()
      reads this
    {
      && errors == Rejected(Parse(got).packets)
      && match state
         case Seek => Seeking(Parse(got), Parse(sent))
         case Forward => Forwarding(Parse(got), Parse(sent))
    }

    constructor ()
      ensures Valid() && got == sent == [] && state == Seek
    {
      state, got, sent, errors := Seek, [], [], 0;
    }

    predicate SinkReady(ready: bool)
      reads this
    {
      state.Seek? || ready
    }

    predicate SourceValid(v: bool)
      reads this
    {
      state.Forward? && v
    }

    predicate Error(v: bool, t: Token)
      reads this
    {
      state.Seek? && v && t.last
    }

    method Tick(v: bool, t: Token, ready: bool)
      requires Valid()
      modifies this
      ensures Valid()
      ensures got == old(got) + if v && old(SinkReady(ready)) then [t] else []
      ensures sent == old(sent) + if old(SourceValid(v)) && ready then [t] else []
      ensures errors == old(errors) + if old(Error(v, t)) then 1 else 0
      ensures state == if v && old(state) == Seek && !t.last && t.data == SFD then Forward
                       else if v && ready && old(state) == Forward && t.last then Seek else old(state)
    {
      hide Seeking, Forwarding, Rejected, Parse, Push;
      match state {
        case Seek =>
          if v {
            SeekKeeps(Parse(got), Parse(sent), t);
            ParseSnoc(got, t);
            got := got + [t];
            if !t.last && t.data == SFD {
              state := Forward;
            }
            if t.last {
              errors := errors + 1;
            }
          }
        case Forward =>
          if v && ready {
            ForwardKeeps(Parse(got), Parse(sent), t);
            ParseSnoc(got, t);
            ParseSnoc(sent, t);
            got, sent := got + [t], sent + [t];
            if t.last {
              state := Seek;
            }
          }
      }
    }
  }

  // ----- The two together

  /** Stripping undoes prefixing, for every packet that is not empty. */
  lemma StripPrefix(p: Packet)
    requires p.bytes != []
    ensures HasSfd(Prefix(p).bytes) && Strip(Prefix(p)) == p
  {
    assert Prefix(p).bytes[..7] == PREAMBLE_BYTES[..7];
    SfdAtUnique(Prefix(p).bytes, 7);
    assert Prefix(p).bytes[8..] == p.bytes;
  }

  lemma {:induction false} StripPrefixAll(ps: seq<Packet>)
    requires forall p | p in ps :: p.bytes != []
    ensures StripAll(PrefixAll(ps)) == ps && Rejected(PrefixAll(ps)) == 0
  {
    if ps != [] {
      var n := |ps| - 1;
      StripPrefixAll(ps[..n]);
      StripPrefix(ps[n]);
      assert PrefixAll(ps) == PrefixAll(ps[..n]) + [Prefix(ps[n])];
      StripAllSnoc(PrefixAll(ps[..n]), Prefix(ps[n]));
      assert ps == ps[..n] + [ps[n]];
    }
  }

  /** In every reachable state the packets sent are exactly the packets received, each with its preamble. */
  lemma SentPackets(m: Inserter)
    requires m.Valid()
    ensures Parse(m.sent).packets == PrefixAll(Parse(m.got).packets)
  {
    hide Parse, Prefix;
  }

  /** In every reachable state the packets forwarded are exactly the packets received, stripped. */
  lemma ForwardedPackets(m: Checker)
    requires m.Valid()
    ensures Parse(m.sent).packets == StripAll(Parse(m.got).packets)
    ensures m.errors == Rejected(Parse(m.got).packets)
  {
    hide Parse, Strip;
  }
}
