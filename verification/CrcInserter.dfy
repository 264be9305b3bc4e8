/** The CRC inserter: appends the frame check sequence to every packet. */
module CrcInserter {
  import opened Bits
  import opened Crc32
  import opened Streams

  function Insert(p: Packet): Packet {
    Packet(WithFcs(p.bytes), false)
  }

  function InsertAll(ps: seq<Packet>): (r: seq<Packet>)
    ensures |r| == |ps|
  {
    seq(|ps|, i requires 0 <= i < |ps| => Insert(ps[i]))
  }

  lemma InsertAllSnoc(ps: seq<Packet>, p: Packet)
    ensures InsertAll(ps + [p]) == InsertAll(ps) + [Insert(p)]
  {}

  ghost predicate Between(i: Log, o: Log) {
    o == Log(InsertAll(i.packets), []) && i.cur == []
  }

  ghost predicate Copying(i: Log, o: Log, reg: seq<bool>, cnt: nat) {
    o == Log(InsertAll(i.packets), i.cur) && reg == Crc(INIT, i.cur) && cnt == 3
  }

  /** The check sequence of the last packet received is being sent. */
  ghost predicate Appending(i: Log, o: Log, reg: seq<bool>, cnt: nat) {
    && i.cur == [] && i.packets != [] && cnt <= 3
    && var n := |i.packets| - 1;
       var p := i.packets[n];
       && reg == Crc(INIT, p.bytes)
       && o == Log(InsertAll(i.packets[..n]), p.bytes + FcsBytes(reg)[..3 - cnt])
  }

  lemma CopyKeeps(i: Log, o: Log, reg: seq<bool>, cnt: nat, t: Token)
    requires Copying(i, o, reg, cnt)
    ensures var reg' := Crc(reg, [t.data]);
      if t.last then Appending(Push(i, t), Push(o, t.(last := false)), reg', cnt)
      else Copying(Push(i, t), Push(o, t), reg', cnt)
  {
    CrcConcat(INIT, i.cur, [t.data]);
    if t.last {
      var ps := Push(i, t).packets;
      assert ps[..|ps| - 1] == i.packets;
      assert i.cur + [t.data] + FcsBytes(Crc(reg, [t.data]))[..0] == i.cur + [t.data];
    }
  }

  lemma NextCheckByte(bytes: seq<byte>, reg: seq<bool>, k: nat)
    requires |reg| == 32 && k < 4
    ensures bytes + FcsBytes(reg)[..k] + [FcsByte(reg, k)] == bytes + FcsBytes(reg)[..k + 1]
  {
    var fcs := FcsBytes(reg);
    assert fcs[k] == FcsByte(reg, k);
    assert fcs[..k + 1] == fcs[..k] + [fcs[k]];
  }

  lemma PacketFinished(i: Log, reg: seq<bool>)
    requires i.packets != [] && reg == Crc(INIT, i.packets[|i.packets| - 1].bytes)
    ensures var n := |i.packets| - 1;
      InsertAll(i.packets) == InsertAll(i.packets[..n]) + [Packet(i.packets[n].bytes + FcsBytes(reg)[..4], false)]
  {
    var n := |i.packets| - 1;
    assert FcsBytes(reg)[..4] == FcsBytes(reg);
    assert i.packets == i.packets[..n] + [i.packets[n]];
    InsertAllSnoc(i.packets[..n], i.packets[n]);
  }

  lemma AppendKeeps(i: Log, o: Log, reg: seq<bool>, cnt: nat)
    requires Appending(i, o, reg, cnt)
    ensures var o' := Push(o, Token(FcsByte(reg, 3 - cnt), cnt == 0, false));
      if cnt == 0 then Between(i, o') else Appending(i, o', reg, cnt - 1)
  {
    NextCheckByte(i.packets[|i.packets| - 1].bytes, reg, 3 - cnt);
    if cnt == 0 {
      PacketFinished(i, reg);
    }
  }

  datatype State = Idle | Copy | Append

  /** The state machine; a token is offered or not, and may be a last one. */
  function NextState(state: State, cnt: nat, v: bool, last: bool, ready: bool): State {
    match state
    case Idle => if v then Copy else Idle
    case Copy => if v && ready && last then Append else Copy
    case Append => if ready && cnt == 0 then Idle else Append
  }

  function NextCnt(state: State, cnt: nat, ready: bool): nat {
    match state
    case Idle => 3
    case Copy => cnt
    case Append => if ready && cnt > 0 then cnt - 1 else cnt
  }

  class Inserter {
    const crc: Crc32Register
    var state: State
    var cnt: nat
    ghost var got: seq<Token>
    ghost var sent: seq<Token>

    ghost predicate Valid()
      reads this, crc
    {
      && crc.Valid()
      && match state
         case Idle => Between(Parse(got), Parse(sent))
         case Copy => Copying(Parse(got), Parse(sent), crc.reg, cnt)
         case Append => Appending(Parse(got), Parse(sent), crc.reg, cnt)
    }

    constructor ()
      ensures Valid() && got == sent == [] && state == Idle && fresh(crc)
    {
      crc := new Crc32Register();
      state, cnt, got, sent := Idle, 3, [], [];
    }

    predicate SinkReady(v: bool, ready: bool)
      reads this
    {
      match state
      case Idle => !v
      case Copy => ready
      case Append => false
    }

    predicate SourceValid(v: bool)
      reads this
    {
      match state
      case Idle => false
      case Copy => v
      case Append => true
    }

    /** While appending, the byte of the check sequence that `cnt` selects, counting down. */
    function SourceToken(t: Token): Token
      requires Valid()
      reads this, crc
    {
      match state
      case Idle => t
      case Copy => t.(last := false)
      case Append => Token(crc.ValueByte(3 - cnt), cnt == 0, false)
    }

    method Tick(v: bool, t: Token, ready: bool)
      requires Valid()
      modifies this, crc
      ensures Valid()
      ensures got == old(got) + if v && old(SinkReady(v, ready)) then [t] else []
      ensures sent == old(sent) + if old(SourceValid(v)) && ready then [old(SourceToken(t))] else []
      ensures state == NextState(old(state), old(cnt), v, t.last, ready) && cnt == NextCnt(old(state), old(cnt), ready)
    {
      match state {
        case Idle =>
          crc.Clock(true, false, t.data);
          cnt := 3;
          if v {
            state := Copy;
          }
        case Copy =>
          if v && ready {
            TakeByte(t);
          }
        case Append =>
          if ready {
            SendCheckByte();
          }
      }
    }

    /** A token passes through and into the CRC register. */
    method TakeByte(t: Token)
      requires Valid() && state.Copy?
      modifies this, crc
      ensures Valid()
      ensures got == old(got) + [t] && sent == old(sent) + [t.(last := false)]
      ensures state == (if t.last then Append else Copy) && cnt == old(cnt)
    {
      CopyKeeps(Parse(got), Parse(sent), crc.reg, cnt, t);
      CrcOne(crc.reg, t.data);
      ParseSnoc(got, t);
      ParseSnoc(sent, t.(last := false));
      crc.Clock(false, true, t.data);
      got, sent := got + [t], sent + [t.(last := false)];
      if t.last {
        state := Append;
      }
    }

    /** One byte of the check sequence; the register holds. */
    method SendCheckByte()
      requires Valid() && state.Append?
      modifies this
      ensures Valid()
      ensures got == old(got)
      ensures sent == old(sent) + [Token(old(crc.ValueByte(3 - cnt)), old(cnt) == 0, false)]
      ensures state == if old(cnt) == 0 then Idle else Append
      ensures cnt == if old(cnt) == 0 then 0 else old(cnt) - 1
    {
      hide FcsByte, FcsBytes, InsertAll;
      ghost var t := Token(crc.ValueByte(3 - cnt), cnt == 0, false);
      AppendKeeps(Parse(got), Parse(sent), crc.reg, cnt);
      ParseSnoc(sent, t);
      sent := sent + [t];
      if cnt == 0 {
        state := Idle;
      } else {
        cnt := cnt - 1;
      }
    }
  }

  /** In every reachable state the packets sent are the first packets received, each with its check sequence. */
  lemma SentPackets(m: Inserter)
    requires m.Valid()
    ensures Parse(m.sent).packets <= InsertAll(Parse(m.got).packets)
    ensures !m.state.Append? ==> Parse(m.sent).packets == InsertAll(Parse(m.got).packets)
  {
    hide Parse, Insert;
  }
}
