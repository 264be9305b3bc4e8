/** The 1000BASE-X/SGMII code-group paths: transmit and receive state machines
    with their rate-adaptation timers, joined by an ideal symbol channel. */
module PcsPath {
  import opened Bits
  import opened Streams

  /** A code group before 8b/10b coding: control flag and value. */
  datatype Symbol = Symbol(k: bool, d: byte)

  const K28_5: byte := 0xBC
  const K27_7: byte := 0xFB  // /S/
  const K29_7: byte := 0xFD  // /T/
  const K23_7: byte := 0xF7  // /R/
  const D2_2: byte := 0x42
  const D21_5: byte := 0xB5
  const D5_6: byte := 0xC5
  const D16_2: byte := 0x50

  /** Cycles per byte, less one, for the three speed codes. */
  function Reload(speed: nat): nat
    requires speed < 3
  {
    if speed == 0 then 99 else if speed == 1 then 9 else 0
  }

  /** The control and data groups by the numbers of their names, 8b/10b group x.y being 32 y + x. */
  lemma GroupNames()
    ensures K28_5 == 32 * 5 + 28 && K27_7 == 32 * 7 + 27 && K29_7 == 32 * 7 + 29 && K23_7 == 32 * 7 + 23
    ensures D2_2 == 32 * 2 + 2 && D21_5 == 32 * 5 + 21 && D5_6 == 32 * 6 + 5 && D16_2 == 32 * 2 + 16
  {}

  datatype TxState = Start | ConfigD | ConfigLsb | ConfigMsb | IdleD | Data | Extend1 | Extend2

  /** The inputs of the transmit path in one cycle; `disparity` is the encoder's. */
  datatype TxInput = TxInput(configStb: bool, configReg: nat, stb: bool, data: byte, disparity: bool)

  class TransmitPath {
    const reload: nat
    var state: TxState
    var timer: nat
    var parity: bool
    var cType: bool
    var buffer: nat

    /** Ordered sets and packets always begin on an even code group. */
    ghost predicate Valid()
      reads this
    {
      && buffer < 0x1_0000
      && match state
         case Start | ConfigLsb => !parity
         case ConfigD | IdleD | ConfigMsb | Extend2 => parity
         case Data | Extend1 => true
    }

    constructor (speed: nat)
      requires speed < 3
      ensures Valid() && reload == Reload(speed) && state == Start && timer == 0 && !parity
    {
      reload := Reload(speed);
      state, timer, parity, cType, buffer := Start, 0, false, false, 0;
    }

    /** A byte of a packet is on the line. */
    predicate TimerEn(i: TxInput)
      reads this
    {
      i.stb && ((state == Start && !i.configStb) || state == Data)
    }

    /** The byte on the line is taken with this code group. */
    predicate Takes(i: TxInput)
      reads this
    {
      TimerEn(i) && timer == 0
    }

    /** The acknowledge output: also high, discarding, outside packets. */
    predicate Ack(i: TxInput)
      reads this
    {
      match state
      case Start => i.configStb || !i.stb || timer == 0
      case Data => !i.stb || timer == 0
      case _ => false
    }

    function NextTimer(i: TxInput): nat
      reads this
    {
      if TimerEn(i) && timer > 0 then timer - 1 else reload
    }

    function Emit(i: TxInput): Symbol
      requires Valid()
      reads this
    {
      match state
      case Start => Symbol(true, if i.configStb || !i.stb then K28_5 else K27_7)
      case ConfigD => Symbol(false, if cType then D2_2 else D21_5)
      case ConfigLsb => Symbol(false, buffer % 256)
      case ConfigMsb => Symbol(false, buffer / 256)
      case IdleD => Symbol(false, if i.disparity then D5_6 else D16_2)
      case Data => if i.stb then Symbol(false, i.data) else Symbol(true, K29_7)
      case Extend1 | Extend2 => Symbol(true, K23_7)
    }

    /** A byte is acknowledged, and discarded, while a configuration word begins. */
    predicate Discards(i: TxInput)
      reads this
    {
      state == Start && i.configStb && i.stb
    }

    /** An acknowledged byte has been taken, unless it is discarded. */
    lemma AckMeaning(i: TxInput)
      ensures i.stb && Ack(i) <==> Takes(i) || Discards(i)
      ensures !(Takes(i) && Discards(i))
    {}

    method Tick(i: TxInput) returns (ack: bool)
      requires Valid() && i.configReg < 0x1_0000
      modifies this
      ensures Valid()
      ensures ack == old(Ack(i)) && timer == old(NextTimer(i))
      ensures ack <==> match old(state)
        case Start => i.configStb || !i.stb || old(timer) == 0
        case Data => !i.stb || old(timer) == 0
        case _ => false
      ensures i.stb && ack <==> old(Takes(i)) || old(Discards(i))
      ensures timer == if i.stb && (old(state) == Data || (old(state) == Start && !i.configStb)) && old(timer) > 0
        then old(timer) - 1 else reload
      ensures buffer == if old(state) == Start && i.configStb then i.configReg else old(buffer)
      ensures old(state) == Start ==>
        state == if i.configStb then ConfigD else if i.stb then Data else IdleD
      ensures old(state) == ConfigD ==> state == ConfigLsb
      ensures old(state) == ConfigLsb ==> state == ConfigMsb
      ensures old(state) == Data ==> state == if i.stb then Data else Extend1
      ensures old(state) in {ConfigMsb, IdleD, Extend2} ==> state == Start
      ensures old(state) == Extend1 ==> state == if old(parity) then Start else Extend2
      ensures parity == !old(parity) && cType == (old(cType) != (old(state) == ConfigD))
    {
      var timerEn := false;
      ack := false;
      match state {
        case Start =>
          if i.configStb {
            ack := true;
            buffer := i.configReg;
            state := ConfigD;
          } else if i.stb {
            ack := timer == 0;
            timerEn := true;
            state := Data;
          } else {
            ack := true;
            state := IdleD;
          }
        case ConfigD =>
          cType := !cType;
          state := ConfigLsb;
        case ConfigLsb =>
          state := ConfigMsb;
        case ConfigMsb =>
          state := Start;
        case IdleD =>
          state := Start;
        case Data =>
          if i.stb {
            ack := timer == 0;
            timerEn := true;
          } else {
            ack := true;
            state := Extend1;
          }
        case Extend1 =>
          state := if parity then Start else Extend2;
        case Extend2 =>
          state := Start;
      }
      parity := !parity;
      timer := if !timerEn || timer == 0 then reload else timer - 1;
    }
  }

  // ----- What is on the line

  /** 8b/10b: a group flips the running disparity when exactly one of its two sub-blocks is unbalanced. */
  predicate Flips(s: Symbol) {
    var x, y := s.d % 32, s.d / 32;
    (x in {0, 1, 2, 4, 8, 15, 16, 23, 24, 27, 29, 30, 31} || (s.k && x == 28)) != (y in {0, 4, 7})
  }

  /** The running disparity after a sequence of groups; true is positive. */
  function Disparity(before: bool, sent: seq<Symbol>): bool
    decreases |sent|
  {
    if sent == [] then before else Disparity(before != Flips(sent[0]), sent[1..])
  }

  /** One clock of the transmit path, with the group it puts on the line added to those before. */
  method Line(tx: TransmitPath, i: TxInput, before: seq<Symbol>) returns (sent: seq<Symbol>)
    requires tx.Valid() && i.configReg < 0x1_0000
    modifies tx
    ensures tx.Valid() && sent == before + [old(tx.Emit(i))] && tx.timer == old(tx.NextTimer(i))
    ensures tx.state == match old(tx.state)
      case Start => (if i.configStb then ConfigD else if i.stb then Data else IdleD)
      case ConfigD => ConfigLsb
      case ConfigLsb => ConfigMsb
      case Data => (if i.stb then Data else Extend1)
      case Extend1 => (if old(tx.parity) then Start else Extend2)
      case ConfigMsb | IdleD | Extend2 => Start
    ensures tx.parity == !old(tx.parity) && tx.cType == (old(tx.cType) != (old(tx.state) == ConfigD))
    ensures tx.buffer == if old(tx.state) == Start && i.configStb then i.configReg else old(tx.buffer)
  {
    sent := before + [tx.Emit(i)];
    var _ := tx.Tick(i);
  }

  /** An idle ordered set is K28.5 with D5.6 when the disparity before it was positive, and
      with D16.2 otherwise: either way the running disparity is negative after it. */
  method IdleSet(tx: TransmitPath, first: TxInput, second: TxInput, before: bool) returns (sent: seq<Symbol>)
    requires tx.Valid() && tx.state == Start && !first.configStb && !first.stb && second.disparity == before
    requires first.configReg < 0x1_0000 && second.configReg < 0x1_0000
    modifies tx
    ensures tx.Valid() && tx.state == Start
    ensures sent == [Symbol(true, 0xBC), Symbol(false, if before then 0xC5 else 0x50)]
    ensures !Disparity(before, sent)
  {
    sent := Line(tx, first, []);
    sent := Line(tx, second, sent);
    TwoGroups(before, sent[0], sent[1]);
    assert sent == [sent[0], sent[1]];
  }

  lemma TwoGroups(before: bool, a: Symbol, b: Symbol)
    ensures Disparity(before, [a, b]) == ((before != Flips(a)) != Flips(b))
  {
    var after := before != Flips(a);
    assert [a, b][1..] == [b] && [b][1..] == [];
    assert Disparity(after, [b]) == Disparity(after != Flips(b), []);
  }

  /** A configuration ordered set: K28.5, D21.5 and D2.2 in turn, and the register's low and high byte. */
  method ConfigSet(tx: TransmitPath, ins: seq<TxInput>) returns (sent: seq<Symbol>)
    requires tx.Valid() && tx.state == Start && |ins| == 4 && ins[0].configStb
    requires forall i: TxInput | i in ins :: i.configReg < 0x1_0000
    modifies tx
    ensures tx.Valid() && tx.state == Start && tx.cType == !old(tx.cType)
    ensures var reg := ins[0].configReg;
      sent == [Symbol(true, 0xBC), Symbol(false, if old(tx.cType) then 0x42 else 0xB5),
               Symbol(false, reg % 0x100), Symbol(false, reg / 0x100)]
  {
    sent := Line(tx, ins[0], []);
    sent := Line(tx, ins[1], sent);
    sent := Line(tx, ins[2], sent);
    sent := Line(tx, ins[3], sent);
  }

  /** A packet up to its last byte, at one cycle per byte. */
  function Opened(bytes: seq<byte>): (s: seq<Symbol>)
    requires bytes != []
    ensures |s| == |bytes|
  {
    [Symbol(true, 0xFB)] + seq(|bytes| - 1, k requires 0 <= k < |bytes| - 1 => Symbol(false, bytes[k + 1]))
  }

  /** A packet at one cycle per byte: /S/ in place of the first byte, the other bytes, /T/,
      and one or two /R/, so that what follows begins on an even group. */
  method PacketLine(tx: TransmitPath, bytes: seq<byte>, idle: TxInput) returns (sent: seq<Symbol>)
    requires tx.Valid() && tx.state == Start && tx.reload == tx.timer == 0 && bytes != []
    requires !idle.stb && idle.configReg < 0x1_0000
    modifies tx
    ensures tx.Valid() && tx.state == Start && !tx.parity && |sent| % 2 == 0
    ensures sent == Opened(bytes)
      + [Symbol(true, 0xFD), Symbol(true, 0xF7)] + if |bytes| % 2 == 1 then [Symbol(true, 0xF7)] else []
  {
    sent := [];
    for n := 0 to |bytes|
      invariant tx.Valid() && tx.state == (if n == 0 then Start else Data) && tx.timer == 0
      invariant tx.parity == (n % 2 == 1) && |sent| == n
      invariant n > 0 ==> sent == Opened(bytes[..n])
    {
      sent := Line(tx, TxInput(false, 0, true, bytes[n], idle.disparity), sent);
      assert bytes[..n + 1][..n] == bytes[..n];
    }
    assert bytes[..|bytes|] == bytes;
    sent := Line(tx, idle, sent);
    sent := Line(tx, idle, sent);
    if tx.state == Extend2 {
      sent := Line(tx, idle, sent);
    }
  }

  datatype RxState = RxStart | RxK28 | RxLsb | RxMsb | RxData

  /** The receive path, with the registered endpoint the PCS puts behind it. */
  class ReceivePath {
    const reload: nat
    var state: RxState
    var timer: nat
    var lsb: byte
    var configReg: nat
    var seenConfigReg: bool
    var enabled: bool      // rx_en one cycle ago
    var valid: bool        // registered valid and data of the endpoint
    var data: byte

    constructor (speed: nat)
      requires speed < 3
      ensures reload == Reload(speed) && state == RxStart && timer == 0 && !seenConfigReg && !enabled && !valid
    {
      reload := Reload(speed);
      state, timer, lsb, configReg, seenConfigReg := RxStart, 0, 0, 0, false;
      enabled, valid, data := false, false, 0;
    }

    /** /S/ opens a packet, from the state between ordered sets or in place of a configuration word. */
    predicate Opens(s: Symbol)
      reads this
    {
      state in {RxStart, RxLsb} && s == Symbol(true, K27_7)
    }

    predicate Enable(s: Symbol)
      reads this
    {
      Opens(s) || (state == RxData && !s.k)
    }

    predicate Sample(s: Symbol)
      reads this
    {
      Enable(s) && timer == 0
    }

    function RxByte(s: Symbol): byte
      reads this
    {
      if Opens(s) then 0x55 else s.d
    }

    /** A valid configuration or idle ordered set has been recognised. */
    predicate SeenValidCi(s: Symbol)
      reads this
    {
      state == RxK28 && !s.k && s.d in {D21_5, D2_2, D5_6, D16_2}
    }

    /** The last flag of the endpoint. */
    predicate Last(s: Symbol)
      reads this
    {
      !Enable(s) && enabled
    }

    method Tick(s: Symbol)
      modifies this
      ensures timer == if old(Enable(s)) && old(timer) > 0 then old(timer) - 1 else reload
      ensures enabled == old(Enable(s)) && valid == old(Sample(s)) && data == old(RxByte(s))
      ensures seenConfigReg == (old(state) == RxMsb && !s.k)
      ensures configReg == if seenConfigReg then old(lsb) + 256 * s.d else old(configReg)
      ensures lsb == if old(state) == RxLsb && !s.k then s.d else old(lsb)
      ensures state ==
        match old(state)
        case RxStart => if s == Symbol(true, K28_5) then RxK28 else if s == Symbol(true, K27_7) then RxData else RxStart
        case RxK28 => if !s.k && s.d in {D21_5, D2_2} then RxLsb else RxStart
        case RxLsb => if !s.k then RxMsb else if s.d == K27_7 then RxData else RxStart
        case RxMsb => RxStart
        case RxData => if s.k then RxStart else RxData
    {
      var enable := Enable(s);
      valid, data, enabled := Sample(s), RxByte(s), enable;
      seenConfigReg := false;
      match state {
        case RxStart =>
          if s.k {
            if s.d == K28_5 {
              state := RxK28;
            }
            if s.d == K27_7 {
              state := RxData;
            }
          }
        case RxK28 =>
          state := RxStart;
          if !s.k {
            if s.d == D21_5 || s.d == D2_2 {
              state := RxLsb;
            }
            if s.d == D5_6 || s.d == D16_2 {
              state := RxStart;
            }
          }
        case RxLsb =>
          if s.k {
            state := if s.d == K27_7 then RxData else RxStart;
          } else {
            lsb := s.d;
            state := RxMsb;
          }
        case RxMsb =>
          if !s.k {
            configReg, seenConfigReg := lsb + 256 * s.d, true;
          }
          state := RxStart;
        case RxData =>
          if s.k {
            state := RxStart;
          }
      }
      timer := if !enable || timer == 0 then reload else timer - 1;
    }
  }

  // ----- The link

  /** A byte taken from the user: whether /S/ stood in for it, and how many code groups it lasted. */
  datatype Octet = Octet(data: byte, inStart: bool, groups: nat)

  /** What the receiver reads. */
  function Reads(p: seq<Octet>): (r: seq<byte>)
    ensures |r| == |p|
  {
    seq(|p|, i requires 0 <= i < |p| => if p[i].inStart then 0x55 else p[i].data)
  }

  function Sent(p: seq<Octet>): (r: seq<byte>)
    ensures |r| == |p|
  {
    seq(|p|, i requires 0 <= i < |p| => p[i].data)
  }

  function Packets(ps: seq<seq<Octet>>): (r: seq<Packet>)
    ensures |r| == |ps|
  {
    seq(|ps|, i requires 0 <= i < |ps| => Packet(Reads(ps[i]), false))
  }

  /** The bytes taken from the user, packet by packet. */
  function Accepted(ps: seq<seq<Octet>>): (r: seq<Packet>)
    ensures |r| == |ps|
  {
    seq(|ps|, i requires 0 <= i < |ps| => Packet(Sent(ps[i]), false))
  }

  /** The bytes of packets, without their boundaries. */
  function Stream(ps: seq<Packet>): seq<byte> {
    if ps == [] then [] else Stream(ps[..|ps| - 1]) + ps[|ps| - 1].bytes
  }

  /** Every byte acknowledged is in a packet, in order, or has been discarded. */
  ghost predicate Accounted(acked: seq<byte>, discarded: nat, packets: seq<seq<Octet>>, cur: seq<Octet>) {
    var taken := Stream(Accepted(packets)) + Sent(cur);
    |acked| == |taken| + discarded && (discarded == 0 ==> acked == taken)
  }

  lemma AccountedEnd(acked: seq<byte>, discarded: nat, packets: seq<seq<Octet>>, cur: seq<Octet>)
    requires Accounted(acked, discarded, packets, cur)
    ensures Accounted(acked, discarded, packets + [cur], [])
  {
    var all := Accepted(packets + [cur]);
    assert all[..|packets|] == Accepted(packets);
    assert Stream(all) + Sent([]) == Stream(all);
  }

  lemma AccountedTake(acked: seq<byte>, discarded: nat, packets: seq<seq<Octet>>, cur: seq<Octet>, o: Octet)
    requires Accounted(acked, discarded, packets, cur)
    ensures Accounted(acked + [o.data], discarded, packets, cur + [o])
  {
    assert Sent(cur + [o]) == Sent(cur) + [o.data];
  }

  lemma AccountedDiscard(acked: seq<byte>, discarded: nat, packets: seq<seq<Octet>>, cur: seq<Octet>, b: byte)
    requires Accounted(acked, discarded, packets, cur)
    ensures Accounted(acked + [b], discarded + 1, packets, cur)
  {}

  /** Only the first byte can have been replaced, at one cycle per byte it was, and every byte lasted its full time. */
  ghost predicate Timed(p: seq<Octet>, reload: nat) {
    && (forall i | 0 <= i < |p| :: p[i].groups == reload + 1)
    && (forall i | 0 < i < |p| :: !p[i].inStart)
    && (p != [] ==> (p[0].inStart <==> reload == 0))
  }

  /** What the endpoint has handed over: all bytes sampled, except the one in its register. */
  ghost predicate Reached(packets: seq<seq<Octet>>, cur: seq<Octet>, out: seq<Token>, valid: bool, data: byte) {
    if valid then
      && cur != [] && data == Reads(cur)[|cur| - 1]
      && Parse(out) == Log(Packets(packets), Reads(cur[..|cur| - 1]))
    else
      Parse(out) == Log(Packets(packets), Reads(cur))
  }

  lemma ReachedMiddle(packets: seq<seq<Octet>>, cur: seq<Octet>, out: seq<Token>, valid: bool, data: byte)
    requires Reached(packets, cur, out, valid, data)
    ensures Parse(out + if valid then [Token(data, false, false)] else []) == Log(Packets(packets), Reads(cur))
  {
    if valid {
      ParseSnoc(out, Token(data, false, false));
      assert Reads(cur) == Reads(cur[..|cur| - 1]) + [data];
    } else {
      assert out + [] == out;
    }
  }

  lemma ReachedTaken(packets: seq<seq<Octet>>, cur: seq<Octet>, out: seq<Token>, o: Octet)
    requires Parse(out) == Log(Packets(packets), Reads(cur))
    ensures Reached(packets, cur + [o], out, true, if o.inStart then 0x55 else o.data)
  {
    assert (cur + [o])[..|cur|] == cur;
  }

  lemma ReachedEnd(packets: seq<seq<Octet>>, cur: seq<Octet>, out: seq<Token>, data: byte)
    requires Reached(packets, cur, out, true, data)
    ensures Parse(out + [Token(data, true, false)]) == Log(Packets(packets + [cur]), [])
  {
    ParseSnoc(out, Token(data, true, false));
    assert Reads(cur) == Reads(cur[..|cur| - 1]) + [data];
  }

  lemma TimedSnoc(p: seq<Octet>, o: Octet, reload: nat)
    requires Timed(p, reload) && o.groups == reload + 1
    requires o.inStart <==> p == [] && reload == 0
    ensures Timed(p + [o], reload)
  {}

  /** The timer counts down the code groups of the byte on the line. */
  ghost predicate Clockwork(started: bool, inData: bool, timer: nat, held: nat, reload: nat,
                            cur: seq<Octet>, packets: seq<seq<Octet>>) {
    && (started ==> timer + held == reload)
    && (!started ==> timer == held == 0 && !inData)
    && Timed(cur, reload)
    && (!inData ==> cur == [] && held == 0)
    && (inData && reload == 0 ==> cur != [])
    && forall p | p in packets :: Timed(p, reload)
  }

  /** A code group of a packet; `o` is the byte it carries, taken with this group when the timer has run out. */
  lemma ClockworkByte(started: bool, inData: bool, timer: nat, held: nat, reload: nat,
                      cur: seq<Octet>, packets: seq<seq<Octet>>, o: Octet)
    requires Clockwork(started, inData, timer, held, reload, cur, packets)
    requires started || reload == 0 || inData
    requires o.groups == held + 1 && o.inStart == !inData
    ensures if timer == 0 then Clockwork(true, true, reload, 0, reload, cur + [o], packets)
      else Clockwork(true, true, timer - 1, held + 1, reload, cur, packets)
  {
    if timer == 0 {
      TimedSnoc(cur, o, reload);
    }
  }

  lemma ClockworkOther(started: bool, inData: bool, timer: nat, held: nat, reload: nat,
                       cur: seq<Octet>, packets: seq<seq<Octet>>)
    requires Clockwork(started, inData, timer, held, reload, cur, packets)
    ensures if inData then Clockwork(true, false, reload, 0, reload, [], packets + [cur])
      else Clockwork(true, false, reload, 0, reload, cur, packets)
  {}

  /** Receiver state that goes with each transmitter state. */
  function Follows(s: TxState): RxState {
    match s
    case Start | Extend1 | Extend2 => RxStart
    case ConfigD | IdleD => RxK28
    case ConfigLsb => RxLsb
    case ConfigMsb => RxMsb
    case Data => RxData
  }

  class Link {
    const speed: nat                     // 0, 1 and 2 for 10, 100 and 1000 Mb/s
    const tx: TransmitPath
    const rx: ReceivePath
    ghost var packets: seq<seq<Octet>>   // packets completed at the transmitter
    ghost var cur: seq<Octet>            // bytes taken of the packet in progress
    ghost var held: nat                  // code groups spent on the next byte
    ghost var out: seq<Token>            // tokens at the receiving endpoint
    ghost var configsSent: seq<nat>
    ghost var configsSeen: seq<nat>
    ghost var orderedSets: nat           // /C/ and /I/ ordered sets sent
    ghost var recognised: nat            // ... and recognised
    ghost var started: bool              // at least one clock has passed
    ghost var early: bool                // a packet began in the very first clock, before the timers were loaded
    ghost var acked: seq<byte>           // every byte offered and acknowledged
    ghost var discarded: nat             // how many of them were discarded while a configuration word began
    ghost var proper: bool               // the user never withdrew a byte that was offered but not yet taken

    ghost predicate Valid()
      reads this, tx, rx
    {
      && speed < 3 && tx.reload == Reload(speed)
      && tx.Valid()
      && InStep()
      && (!early ==> OnTime())
      && (proper ==> Delivered())
      && configsSeen == configsSent && recognised == orderedSets
      && Accounted(acked, discarded, packets, cur)
    }

    ghost predicate InStep()
      reads this`cur, this`held, tx, rx
    {
      Aligned() && (tx.state != Data ==> cur == [] && held == 0)
    }

    /** The two state machines and timers move together. */
    ghost predicate Aligned()
      reads tx, rx
    {
      && tx.reload == rx.reload && tx.timer == rx.timer && rx.state == Follows(tx.state)
      && (tx.state == ConfigMsb ==> rx.lsb == tx.buffer % 256)
      && (rx.enabled <==> tx.state == Data)
    }

    ghost predicate OnTime()
      reads this`started, this`held, this`cur, this`packets, tx
    {
      Clockwork(started, tx.state == Data, tx.timer, held, tx.reload, cur, packets)
    }

    /** Every byte taken has been sampled once. */
    ghost predicate Delivered()
      reads this`packets, this`cur, this`out, tx, rx
    {
      && (rx.valid ==> tx.state == Data)
      && Reached(packets, cur, out, rx.valid, rx.data)
    }

    constructor (speed: nat)
      requires speed < 3
      ensures Valid() && this.speed == speed && proper && !early && packets == [] && out == []
      ensures acked == [] && discarded == 0
    {
      this.speed := speed;
      tx := new TransmitPath(speed);
      rx := new ReceivePath(speed);
      packets, cur, held, out, configsSent, configsSeen := [], [], 0, [], [], [];
      orderedSets, recognised, started, early, proper, acked, discarded := 0, 0, false, false, true, [], 0;
    }

    /** A packet ends when the user stops offering bytes. */
    predicate Ends(i: TxInput)
      reads tx
    {
      tx.state == Data && !i.stb
    }

    ghost function Taken(i: TxInput): Octet
      reads this`held, tx
    {
      Octet(i.data, tx.state == Start, held + 1)
    }

    ghost function NextPackets(i: TxInput): seq<seq<Octet>>
      reads this`packets, this`cur, tx
    {
      if Ends(i) then packets + [cur] else packets
    }

    ghost function NextCur(i: TxInput): seq<Octet>
      reads this`cur, this`held, tx
    {
      if Ends(i) then [] else if tx.Takes(i) then cur + [Taken(i)] else cur
    }

    ghost function NextHeld(i: TxInput): nat
      reads this`held, tx
    {
      if tx.TimerEn(i) && !tx.Takes(i) then held + 1 else 0
    }

    /** The endpoint hands over the byte in its register; it is the last one when the packet ends now. */
    ghost function NextOut(i: TxInput): seq<Token>
      requires tx.Valid()
      reads this`out, tx, rx
    {
      out + if rx.valid then [Token(rx.data, rx.Last(tx.Emit(i)), false)] else []
    }

    ghost predicate Early(i: TxInput)
      reads this`started, tx
    {
      !started && tx.state == Start && tx.TimerEn(i) && tx.reload > 0
    }

    /** One clock at both ends. */
    method Tick(i: TxInput)
      requires Valid() && i.configReg < 0x1_0000
      modifies this, tx, rx
      ensures Valid() && started
      ensures packets == old(NextPackets(i)) && cur == old(NextCur(i)) && out == old(NextOut(i))
      ensures configsSent == old(configsSent) + if old(tx.state) == ConfigMsb then [old(tx.buffer)] else []
      ensures early <==>
        old(early) || (!old(started) && old(tx.state) == Start && i.stb && !i.configStb && speed < 2)
      ensures proper <==> old(proper) && (old(tx.state) == Data && !i.stb ==> old(rx.valid))
      ensures rx.valid <==>
        i.stb && old(tx.timer) == 0 && (old(tx.state) == Data || (old(tx.state) == Start && !i.configStb))
      ensures acked == old(acked) + if i.stb && old(tx.Ack(i)) then [i.data] else []
      ensures discarded == old(discarded) + if old(tx.state) == Start && i.configStb && i.stb then 1 else 0
    {
      hide Accounted, NextAcked, NextDiscarded, Reached, Clockwork, Parse, Reload;
      hide TransmitPath.Valid, TransmitPath.Emit, TransmitPath.NextTimer,
        ReceivePath.RxByte, ReceivePath.Last, NextOut, NextCur, NextPackets, NextHeld, Early, Follows;
      InSignals(i);
      var s := tx.Emit(i);
      Record(i);
      Clock(i, s);
    }

    /** What this clock notes, in terms of the signals alone. */
    lemma InSignals(i: TxInput)
      requires Valid()
      ensures Early(i) <==> !started && tx.state == Start && i.stb && !i.configStb && speed < 2
      ensures tx.Takes(i) <==> i.stb && tx.timer == 0 && (tx.state == Data || (tx.state == Start && !i.configStb))
      ensures NextAcked(i) == acked + if i.stb && tx.Ack(i) then [i.data] else []
      ensures NextDiscarded(i) == discarded + if tx.state == Start && i.configStb && i.stb then 1 else 0
    {}

    /** Everything the ghost state notes of this clock. */
    ghost method Record(i: TxInput)
      requires Valid()
      modifies this
      ensures started && packets == old(NextPackets(i)) && cur == old(NextCur(i)) && out == old(NextOut(i))
      ensures early == (old(early) || old(Early(i)))
      ensures proper == (old(proper) && !(Ends(i) && !rx.valid))
      ensures acked == old(NextAcked(i)) && discarded == old(NextDiscarded(i))
      ensures configsSent == old(configsSent) + if tx.state == ConfigMsb then [tx.buffer] else []
      ensures configsSeen == configsSent && recognised == orderedSets
      ensures Accounted(acked, discarded, packets, cur)
      ensures !tx.TimerEn(i) ==> cur == [] && held == 0
      ensures !early ==> Clockwork(true, tx.TimerEn(i), tx.NextTimer(i), held, tx.reload, cur, packets)
      ensures proper ==> Reached(packets, cur, out, tx.Takes(i), rx.RxByte(tx.Emit(i)))
    {
      hide Accounted, NextAcked, NextDiscarded, Reached, Clockwork, Parse, Reload;
      hide TransmitPath.Valid, TransmitPath.Emit, TransmitPath.NextTimer, ReceivePath.RxByte, ReceivePath.Last;
      hide NextOut, NextCur, NextPackets, NextHeld, Early, Follows, InStep, OnTime, Delivered;
      StepIsAligned();
      RecordAcks(i);
      RecordWords(i, tx.Emit(i));
      RecordBytes(i);
    }

    lemma StepIsAligned()
      requires InStep()
      ensures Aligned()
    {}

    ghost function NextAcked(i: TxInput): seq<byte>
      reads this`acked, tx
    {
      acked + if i.stb && tx.Ack(i) then [i.data] else []
    }

    ghost function NextDiscarded(i: TxInput): nat
      reads this`discarded, tx
    {
      discarded + if tx.Discards(i) then 1 else 0
    }

    /** The bytes acknowledged in this clock. */
    ghost method RecordAcks(i: TxInput)
      requires Accounted(acked, discarded, packets, cur)
      modifies this`acked, this`discarded
      ensures Accounted(acked, discarded, NextPackets(i), NextCur(i))
      ensures acked == old(NextAcked(i)) && discarded == old(NextDiscarded(i))
    {
      hide Accounted;
      tx.AckMeaning(i);
      assert acked + [] == acked;
      if tx.Takes(i) {
        AccountedTake(acked, discarded, packets, cur, Taken(i));
      } else if tx.Discards(i) {
        AccountedDiscard(acked, discarded, packets, cur, i.data);
      } else if Ends(i) {
        AccountedEnd(acked, discarded, packets, cur);
      }
      acked, discarded := NextAcked(i), NextDiscarded(i);
    }

    /** The packet bytes of this clock. */
    ghost method RecordBytes(i: TxInput)
      requires tx.Valid() && InStep() && (!early ==> OnTime()) && (proper ==> Delivered())
      modifies this`packets, this`cur, this`held, this`out, this`started, this`early, this`proper
      ensures started && early == (old(early) || old(Early(i)))
      ensures proper == (old(proper) && !(Ends(i) && !rx.valid))
      ensures packets == old(NextPackets(i)) && cur == old(NextCur(i)) && out == old(NextOut(i))
      ensures !tx.TimerEn(i) ==> cur == [] && held == 0
      ensures !early ==> Clockwork(true, tx.TimerEn(i), tx.NextTimer(i), held, tx.reload, cur, packets)
      ensures proper ==> Reached(packets, cur, out, tx.Takes(i), rx.RxByte(tx.Emit(i)))
    {
      hide Reached, Clockwork, Parse, Reload, TransmitPath.Valid, TransmitPath.Emit, TransmitPath.NextTimer,
        ReceivePath.RxByte, ReceivePath.Last, NextOut, NextCur, NextPackets, NextHeld, Early, Follows;
      if !early && !Early(i) {
        KeepTime(i);
      }
      if proper && (Ends(i) ==> rx.valid) {
        Hand(i);
      }
      KeepStep(i);
      packets, cur, held, out, early, proper, started := NextPackets(i), NextCur(i), NextHeld(i), NextOut(i),
        early || Early(i), proper && (Ends(i) ==> rx.valid), true;
    }

    /** The symbol crosses the channel, and both paths take their clock edge. */
    method Clock(i: TxInput, s: Symbol)
      requires tx.Valid() && Aligned() && s == tx.Emit(i) && i.configReg < 0x1_0000
      modifies tx, rx
      ensures tx.Valid() && Aligned()
      ensures tx.timer == old(tx.NextTimer(i)) && (tx.state == Data <==> old(tx.TimerEn(i)))
      ensures rx.valid == old(tx.Takes(i)) && rx.data == old(rx.RxByte(s))
    {
      hide Reload;
      rx.Tick(s);
      var _ := tx.Tick(i);
    }

    /** Configuration words and ordered sets of this clock. */
    ghost method RecordWords(i: TxInput, s: Symbol)
      requires tx.Valid() && Aligned() && configsSeen == configsSent && recognised == orderedSets
      requires s == tx.Emit(i)
      modifies this`configsSent, this`configsSeen, this`orderedSets, this`recognised
      ensures configsSent == old(configsSent) + if tx.state == ConfigMsb then [tx.buffer] else []
      ensures configsSeen == configsSent && recognised == orderedSets
    {
      if tx.state == ConfigMsb {
        configsSent := configsSent + [tx.buffer];
      }
      if rx.state == RxMsb && !s.k {
        configsSeen := configsSeen + [rx.lsb + 256 * s.d];
      }
      if tx.state in {ConfigD, IdleD} {
        orderedSets := orderedSets + 1;
      }
      if rx.SeenValidCi(s) {
        recognised := recognised + 1;
      }
    }

    lemma KeepStep(i: TxInput)
      requires tx.Valid() && InStep()
      ensures rx.Enable(tx.Emit(i)) == tx.TimerEn(i) && rx.Sample(tx.Emit(i)) == tx.Takes(i)
      ensures !tx.TimerEn(i) ==> NextCur(i) == [] && NextHeld(i) == 0
    {}

    lemma KeepTime(i: TxInput)
      requires OnTime() && !Early(i)
      ensures Clockwork(true, tx.TimerEn(i), tx.NextTimer(i), NextHeld(i), tx.reload, NextCur(i), NextPackets(i))
    {
      if tx.TimerEn(i) {
        ClockworkByte(started, tx.state == Data, tx.timer, held, tx.reload, cur, packets, Taken(i));
      } else {
        ClockworkOther(started, tx.state == Data, tx.timer, held, tx.reload, cur, packets);
      }
    }

    /** What this clock does to the tokens handed over. */
    lemma Hand(i: TxInput)
      requires tx.Valid() && InStep() && Delivered() && (Ends(i) ==> rx.valid)
      ensures Reached(NextPackets(i), NextCur(i), NextOut(i), tx.Takes(i), rx.RxByte(tx.Emit(i)))
    {
      if tx.TimerEn(i) {
        ReachedMiddle(packets, cur, out, rx.valid, rx.data);
        if tx.Takes(i) {
          ReachedTaken(packets, cur, NextOut(i), Taken(i));
        }
      } else if rx.valid {
        ReachedEnd(packets, cur, out, rx.data);
      } else {
        assert out + [] == out;
      }
    }
  }

  // ----- What the user sees

  /** A packet is read back exactly when its first byte lasted longer than /S/, at the two lower speeds, or is 0x55. */
  lemma ReadsExact(p: seq<Octet>, speed: nat)
    requires speed < 3 && Timed(p, Reload(speed))
    ensures Reads(p) == Sent(p) <==> (speed < 2 || p == [] || p[0].data == 0x55)
  {
    if Reads(p) == Sent(p) && p != [] && speed == 2 {
      assert Reads(p)[0] == Sent(p)[0];
    }
  }

  /** Every byte of every packet lasts a hundred, ten or one code groups, for speed codes 0, 1 and 2. */
  lemma ByteTimes(l: Link)
    requires l.Valid() && !l.early
    ensures l.speed < 3
    ensures forall p: seq<Octet>, o | p in l.packets + [l.cur] && o in p :: o.groups == [100, 10, 1][l.speed]
  {}

  /** In every run in which the user keeps a byte until it is taken, every packet taken by the
      transmitter arrives whole and in order, with its last flag on the final
      byte; configuration words and ordered sets arrive as well. */
  lemma RoundTrip(l: Link)
    requires l.Valid() && l.proper && !l.early
    requires forall p: seq<Octet> | p in l.packets :: l.speed < 2 || p == [] || p[0].data == 0x55
    ensures Parse(l.out).packets == Accepted(l.packets)
    ensures l.speed < 3
    ensures forall p: seq<Octet>, o | p in l.packets && o in p :: o.groups == [100, 10, 1][l.speed]
    ensures l.configsSeen == l.configsSent && l.recognised == l.orderedSets
  {
    hide Parse, Reads, Sent;
    ByteTimes(l);
    forall i | 0 <= i < |l.packets| ensures Reads(l.packets[i]) == Sent(l.packets[i]) {
      assert l.packets[i] in l.packets;
      ReadsExact(l.packets[i], l.speed);
    }
  }

  lemma {:induction false} StreamLength(ps: seq<seq<Octet>>)
    ensures |Stream(Packets(ps))| == |Stream(Accepted(ps))|
  {
    if ps != [] {
      StreamLength(ps[..|ps| - 1]);
      StreamSnoc(ps);
    }
  }

  lemma StreamSnoc(ps: seq<seq<Octet>>)
    requires ps != []
    ensures Stream(Packets(ps)) == Stream(Packets(ps[..|ps| - 1])) + Reads(ps[|ps| - 1])
    ensures Stream(Accepted(ps)) == Stream(Accepted(ps[..|ps| - 1])) + Sent(ps[|ps| - 1])
  {
    assert Packets(ps)[..|ps| - 1] == Packets(ps[..|ps| - 1]);
    assert Accepted(ps)[..|ps| - 1] == Accepted(ps[..|ps| - 1]);
  }

  /** Equal streams of packets of equal lengths are equal packet by packet. */
  lemma {:induction false} StreamsEqual(ps: seq<seq<Octet>>)
    ensures Stream(Packets(ps)) == Stream(Accepted(ps)) <==> forall p | p in ps :: Reads(p) == Sent(p)
  {
    if ps != [] {
      var n := |ps| - 1;
      var a, b := Stream(Packets(ps[..n])), Stream(Accepted(ps[..n]));
      StreamsEqual(ps[..n]);
      StreamLength(ps[..n]);
      StreamSnoc(ps);
      assert (a + Reads(ps[n]))[..|a|] == a && (b + Sent(ps[n]))[..|b|] == b;
      assert (a + Reads(ps[n]))[|a|..] == Reads(ps[n]) && (b + Sent(ps[n]))[|b|..] == Sent(ps[n]);
      assert ps == ps[..n] + [ps[n]];
    }
  }

  /** Between packets, the bytes received are exactly the bytes acknowledged to the
      user if and only if none was discarded while a configuration word began, and
      every packet had time for its first byte or begins with 0x55. */
  lemma HandshakeExact(l: Link)
    requires l.Valid() && l.proper && !l.early && l.tx.state != Data
    ensures Stream(Parse(l.out).packets) == l.acked <==>
      l.discarded == 0 && forall p: seq<Octet> | p in l.packets :: l.speed < 2 || p == [] || p[0].data == 0x55
  {
    hide Parse, Reads, Sent, Stream;
    var sent := Stream(Accepted(l.packets));
    NoneInProgress(l);
    StreamLength(l.packets);
    StreamsEqual(l.packets);
    forall p: seq<Octet> | p in l.packets
      ensures Reads(p) == Sent(p) <==> (l.speed < 2 || p == [] || p[0].data == 0x55)
    {
      ReadsExact(p, l.speed);
    }
  }

  lemma NoneInProgress(l: Link)
    requires l.Valid() && l.proper && l.tx.state != Data
    ensures Parse(l.out).packets == Packets(l.packets)
    ensures |l.acked| == |Stream(Accepted(l.packets))| + l.discarded
    ensures l.discarded == 0 ==> l.acked == Stream(Accepted(l.packets))
  {
    assert Stream(Accepted(l.packets)) + Sent(l.cur) == Stream(Accepted(l.packets));
  }
}
