/** A Wishbone host whose bus ends in an Etherbone node, talking to a second
    node that masters the bus of a memory. */
module RemoteMemory {
  import opened Etherbone
  import Bits

  type address = a: nat | a < 0x4000_0000

  type Memory = map<nat, word32>

  function Lookup(m: Memory, a: nat): word32 {
    if a in m then m[a] else 0
  }

  /** The bytes of `data` that the byte enables select, over what was there. */
  function Merge(before: word32, data: word32, be: nat): word32 {
    Join(if be % 2 == 1 then ByteOf(data, 0) else ByteOf(before, 0),
         if be / 2 % 2 == 1 then ByteOf(data, 1) else ByteOf(before, 1),
         if be / 4 % 2 == 1 then ByteOf(data, 2) else ByteOf(before, 2),
         if be / 8 % 2 == 1 then ByteOf(data, 3) else ByteOf(before, 3))
  }

  function Stored(m: Memory, a: nat, data: word32, be: nat): Memory {
    m[a := Merge(Lookup(m, a), data, be)]
  }

  /** A word written with byte enables, byte by byte: those enabled are those of `data`, the others stay. */
  ghost predicate WordWritten(before: word32, after: word32, data: word32, be: nat) {
    forall k | 0 <= k < 4 ::
      ByteOf(after, k) == if Bits.ToBits(be, 4)[k] then ByteOf(data, k) else ByteOf(before, k)
  }

  /** One word is written, and the rest of the memory stays. */
  ghost predicate Written(before: Memory, after: Memory, a: nat, data: word32, be: nat) {
    && WordWritten(Lookup(before, a), Lookup(after, a), data, be)
    && forall x: nat | x != a :: Lookup(after, x) == Lookup(before, x)
  }

  lemma StoredBytes(m: Memory, a: nat, data: word32, be: nat)
    ensures Written(m, Stored(m, a, data, be), a, data, be)
  {
    hide ByteOf, Join;
    var old32 := Lookup(m, a);
    JoinBytes(if be % 2 == 1 then ByteOf(data, 0) else ByteOf(old32, 0),
              if be / 2 % 2 == 1 then ByteOf(data, 1) else ByteOf(old32, 1),
              if be / 4 % 2 == 1 then ByteOf(data, 2) else ByteOf(old32, 2),
              if be / 8 % 2 == 1 then ByteOf(data, 3) else ByteOf(old32, 3));
    EnableBits(be);
  }

  lemma EnableBits(be: nat)
    ensures Bits.ToBits(be, 4) == [be % 2 == 1, be / 2 % 2 == 1, be / 4 % 2 == 1, be / 8 % 2 == 1]
  {
    assert Bits.Pow2(1) == 2 && Bits.Pow2(2) == 4 && Bits.Pow2(3) == 8;
    forall k | 0 <= k < 4
      ensures Bits.ToBits(be, 4)[k] == [be % 2 == 1, be / 2 % 2 == 1, be / 4 % 2 == 1, be / 8 % 2 == 1][k]
    {
      Bits.DigitAt(be, 4, k);
    }
  }

  /** A memory after a sequence of accesses. */
  function Accessed(m: Memory, beats: seq<Beat>): Memory {
    if beats == [] then m
    else
      var b := beats[|beats| - 1];
      var before := Accessed(m, beats[..|beats| - 1]);
      if b.we then Stored(before, b.addr, b.data, b.be) else before
  }

  /** The accesses of a burst of writes that was made into a record and back. */
  function Burst(adr: address, data: seq<word32>, be: nat): (b: seq<Beat>)
    requires data != []
    ensures |b| == |data|
  {
    BeatsOf(RecordOf(Access(true, |data|, 4 * adr, be, data)))
  }

  /** A burst lands as it was meant: word `k`, byte by byte, `k` words after the first,
      the rest of the memory stays, and exactly the last access is marked as such. */
  lemma BurstWrites(m: Memory, adr: address, data: seq<word32>, be: nat)
    requires data != []
    ensures var after := Accessed(m, Burst(adr, data, be));
      && (forall k | 0 <= k < |data| :: WordWritten(Lookup(m, adr + k), Lookup(after, adr + k), data[k], be))
      && forall x: nat | x < adr || adr + |data| <= x :: Lookup(after, x) == Lookup(m, x)
    ensures forall k | 0 <= k < |data| ::
      Burst(adr, data, be)[k].we && (Burst(adr, data, be)[k].last <==> k == |data| - 1)
  {
    hide Accessed, Lookup, WordWritten;
    var beats := Burst(adr, data, be);
    assert beats[..|data|] == beats;
    BurstPrefix(m, adr, data, be, |data|);
  }

  lemma {:induction false} BurstPrefix(m: Memory, adr: address, data: seq<word32>, be: nat, n: nat)
    requires n <= |data| && data != []
    ensures var after := Accessed(m, Burst(adr, data, be)[..n]);
      && (forall k | 0 <= k < n :: WordWritten(Lookup(m, adr + k), Lookup(after, adr + k), data[k], be))
      && forall x: nat | x < adr || adr + n <= x :: Lookup(after, x) == Lookup(m, x)
  {
    hide Stored, Lookup, WordWritten;
    if n > 0 {
      BurstPrefix(m, adr, data, be, n - 1);
      var beats := Burst(adr, data, be)[..n];
      assert beats[..n - 1] == Burst(adr, data, be)[..n - 1];
      var before := Accessed(m, beats[..n - 1]);
      StoredBytes(before, adr + n - 1, data[n - 1], be);
    }
  }

  /** A burst of reads asks for the addresses listed, in order, and marks the last. */
  lemma BurstReads(base: word32, adrs: seq<address>, be: nat)
    requires adrs != []
    ensures var listed := seq(|adrs|, k requires 0 <= k < |adrs| => 4 * adrs[k] as word32);
      var beats := BeatsOf(RecordOf(Access(false, |adrs|, base, be, listed)));
      && |beats| == |adrs|
      && forall k | 0 <= k < |adrs| ::
           && !beats[k].we && beats[k].addr == adrs[k] && beats[k].base == base
           && beats[k].count == |adrs| && (beats[k].last <==> k == |adrs| - 1)
  {}

  // ----- Operations in flight

  datatype Op = Write(adr: nat, data: word32, be: nat) | Read(adr: nat)

  function OpOf(r: Record): Op
    requires Single(r)
  {
    if r.wcount == 1 then Write(r.words[0] / 4, r.words[1], r.byteEnable) else Read(r.words[1] / 4)
  }

  /** A record of one write or one read. */
  predicate Single(r: Record) {
    |r.words| == 2 && ((r.wcount == 1 && r.rcount == 0) || (r.wcount == 0 && r.rcount == 1))
  }

  predicate SingleAccess(a: Access) {
    a.count == 1 && |a.data| == 1
  }

  /** The records between a sender and a receiver, oldest first: received,
      travelling with their bytes reversed, and not yet sent. */
  function InFlight(received: seq<Record>, wire: seq<Record>, queued: seq<Access>): (r: seq<Record>)
    ensures |r| == |received| + |wire| + |queued|
  {
    received
    + seq(|wire|, k requires 0 <= k < |wire| => OnWire(wire[k]))
    + seq(|queued|, k requires 0 <= k < |queued| => RecordOf(queued[k]))
  }

  lemma FlightSend(received: seq<Record>, wire: seq<Record>, queued: seq<Access>)
    requires queued != []
    ensures InFlight(received, wire + [OnWire(RecordOf(queued[0]))], queued[1..]) == InFlight(received, wire, queued)
  {
    OnWireTwice(RecordOf(queued[0]));
    hide OnWire, RecordOf;
    var a, b := InFlight(received, wire + [OnWire(RecordOf(queued[0]))], queued[1..]), InFlight(received, wire, queued);
    assert forall k | 0 <= k < |a| :: a[k] == b[k];
  }

  lemma FlightDeliver(received: seq<Record>, wire: seq<Record>, queued: seq<Access>)
    requires wire != []
    ensures InFlight(received + [OnWire(wire[0])], wire[1..], queued) == InFlight(received, wire, queued)
  {
    hide OnWire, RecordOf;
    var a, b := InFlight(received + [OnWire(wire[0])], wire[1..], queued), InFlight(received, wire, queued);
    assert forall k | 0 <= k < |a| :: a[k] == b[k];
  }

  lemma FlightPush(received: seq<Record>, wire: seq<Record>, queued: seq<Access>, a: Access)
    ensures InFlight(received, wire, queued + [a]) == InFlight(received, wire, queued) + [RecordOf(a)]
  {
    hide OnWire, RecordOf;
  }

  lemma FlightPop(received: seq<Record>, wire: seq<Record>, queued: seq<Access>)
    requires received != []
    ensures InFlight(received, wire, queued) == [received[0]] + InFlight(received[1..], wire, queued)
  {
    hide OnWire, RecordOf;
    var a, b := InFlight(received, wire, queued), [received[0]] + InFlight(received[1..], wire, queued);
    assert forall k | 0 <= k < |a| :: a[k] == b[k];
  }

  /** Every record is a single operation. */
  predicate Singles(rs: seq<Record>) {
    forall k | 0 <= k < |rs| :: Single(rs[k])
  }

  predicate AllWrites(rs: seq<Record>) {
    Singles(rs) && forall k | 0 <= k < |rs| :: rs[k].wcount == 1
  }

  /** The memory once all writes in flight have landed. */
  function Landed(m: Memory, rs: seq<Record>): Memory
    requires Singles(rs)
    decreases |rs|
  {
    if rs == [] then m
    else
      var rest := rs[1..];
      match OpOf(rs[0])
      case Write(a, d, be) => Landed(Stored(m, a, d, be), rest)
      case Read(_) => Landed(m, rest)
  }

  lemma {:induction false} LandedSnoc(m: Memory, rs: seq<Record>, r: Record)
    requires Singles(rs) && Single(r)
    ensures Singles(rs + [r])
    ensures Landed(m, rs + [r]) == match OpOf(r)
      case Write(a, d, be) => Stored(Landed(m, rs), a, d, be)
      case Read(_) => Landed(m, rs)
    decreases |rs|
  {
    hide Stored;
    if rs == [] {
      assert [] + [r] == [r];
    } else {
      assert (rs + [r])[1..] == rs[1..] + [r];
      match OpOf(rs[0])
      case Write(a, d, be) => LandedSnoc(Stored(m, a, d, be), rs[1..], r);
      case Read(_) => LandedSnoc(m, rs[1..], r);
    }
  }

  // ----- The two bus controllers

  /** The host's side of the bus in one cycle; `stb` stands for strobe and cycle. */
  datatype BusRequest = BusRequest(stb: bool, we: bool, adr: address, data: word32, sel: nat)

  datatype SlaveState = HIdle | HWrite | HRead | HWait

  class WishboneSlave {
    var state: SlaveState

    constructor ()
      ensures state == HIdle
    {
      state := HIdle;
    }

    /** What is handed to the record sender in this cycle, if it is ready. */
    function Offers(bus: BusRequest): seq<Access>
      reads this
    {
      match state
      case HWrite => [Access(true, 1, 4 * bus.adr, bus.sel, [bus.data])]
      case HRead => [Access(false, 1, 0, bus.sel, [4 * bus.adr])]
      case _ => []
    }

    predicate SinkReady()
      reads this
    {
      state in {HIdle, HWait}
    }

    /** A response is on the sink while one is awaited. */
    predicate Answers(v: bool, b: Beat)
      reads this
    {
      state == HWait && v && b.we
    }

    predicate Ack(ready: bool, v: bool, b: Beat)
      reads this
    {
      (state == HWrite && ready) || Answers(v, b)
    }

    function NextState(bus: BusRequest, ready: bool, v: bool, b: Beat): SlaveState
      reads this
    {
      match state
      case HIdle => if bus.stb then (if bus.we then HWrite else HRead) else HIdle
      case HWrite => if ready then HIdle else HWrite
      case HRead => if ready then HWait else HRead
      case HWait => if Answers(v, b) then HIdle else HWait
    }

    method Tick(bus: BusRequest, ready: bool, v: bool, b: Beat)
      modifies this
      ensures state == old(NextState(bus, ready, v, b))
    {
      match state {
        case HIdle =>
          if bus.stb {
            state := if bus.we then HWrite else HRead;
          }
        case HWrite =>
          if ready {
            state := HIdle;
          }
        case HRead =>
          if ready {
            state := HWait;
          }
        case HWait =>
          if v && b.we {
            state := HIdle;
          }
      }
    }
  }

  datatype MasterState = MIdle | MWrite | MRead | MSend

  class WishboneMaster {
    var state: MasterState
    var data: word32      // registers of the response
    var base: word32
    var count: nat
    var be: nat

    constructor ()
      ensures state == MIdle
    {
      state, data, base, count, be := MIdle, 0, 0, 0, 0;
    }

    /** The access at the sink is finished in this cycle. */
    predicate SinkReady(v: bool, ack: bool, ready: bool)
      reads this
    {
      match state
      case MIdle => !v
      case MWrite => v && ack
      case MRead => false
      case MSend => ready
    }

    /** The data word at the sink is written to the bus in this cycle. */
    predicate BusWrites(v: bool, ack: bool)
      reads this
    {
      state == MWrite && v && ack
    }

    function NextState(v: bool, b: Beat, ack: bool, ready: bool): MasterState
      reads this
    {
      match state
      case MIdle => if v then (if b.we then MWrite else MRead) else MIdle
      case MWrite => if v && ack && b.last then MIdle else MWrite
      case MRead => if v && ack then MSend else MRead
      case MSend => if v && ready then (if b.last then MIdle else MRead) else MSend
    }

    function NextData(v: bool, ack: bool, dataR: word32): word32
      reads this
    {
      if state == MRead && v && ack then dataR else data
    }

    method Tick(v: bool, b: Beat, ack: bool, dataR: word32, ready: bool)
      modifies this
      ensures state == old(NextState(v, b, ack, ready))
      ensures data == old(NextData(v, ack, dataR))
      ensures base == b.base && count == b.count && be == b.be
    {
      match state {
        case MIdle =>
          if v {
            state := if b.we then MWrite else MRead;
          }
        case MWrite =>
          if v && ack {
            if b.last {
              state := MIdle;
            }
          }
        case MRead =>
          if v && ack {
            data := dataR;
            state := MSend;
          }
        case MSend =>
          if v && ready {
            state := if b.last then MIdle else MRead;
          }
      }
      base, count, be := b.base, b.count, b.be;
    }
  }

  // ----- Coherence

  /** What one clock does to the records in flight between a sender and a receiver. */
  lemma FlightClock(received: seq<Record>, wire: seq<Record>, queued: seq<Access>,
                    popped: bool, delivered: bool, sent: bool, push: seq<Access>)
    requires popped ==> received != []
    requires delivered ==> wire != []
    requires sent ==> queued != []
    requires |push| <= 1
    ensures var received' := (if popped then received[1..] else received) + if delivered then [OnWire(wire[0])] else [];
      var wire' := (if delivered then wire[1..] else wire) + if sent then [OnWire(RecordOf(queued[0]))] else [];
      var queued' := (if sent then queued[1..] else queued) + push;
      var flight := InFlight(received, wire, queued);
      InFlight(received', wire', queued') ==
        (if popped then flight[1..] else flight) + if push == [] then [] else [RecordOf(push[0])]
  {
    hide OnWire, RecordOf, InFlight;
    var r1 := if popped then received[1..] else received;
    if popped {
      FlightPop(received, wire, queued);
    }
    var r2, w2 := r1 + (if delivered then [OnWire(wire[0])] else []), if delivered then wire[1..] else wire;
    if delivered {
      FlightDeliver(r1, wire, queued);
    } else {
      assert r2 == r1;
    }
    var w3, q3 := w2 + (if sent then [OnWire(RecordOf(queued[0]))] else []), if sent then queued[1..] else queued;
    if sent {
      FlightSend(r2, w2, queued);
    } else {
      assert w3 == w2;
    }
    if push == [] {
      assert q3 + push == q3;
    } else {
      assert push == [push[0]];
      FlightPush(r2, w3, q3, push[0]);
    }
  }

  /** `local` is the memory as the host sees it: the remote memory once the
      writes in flight have landed. A read travels behind them, alone, and its
      answer is what the host's memory holds. */
  ghost predicate Coherent(local: Memory, mem: Memory, flight: seq<Record>, answers: seq<Record>,
                           waiting: bool, readAdr: nat) {
    && Singles(flight) && AllWrites(answers)
    && local == Landed(mem, flight)
    && if !waiting then AllWrites(flight) && answers == []
       else if flight == [] then |answers| == 1 && answers[0].words[1] == Lookup(local, readAdr)
       else
         var n := |flight| - 1;
         answers == [] && (forall k | 0 <= k < n :: flight[k].wcount == 1) && OpOf(flight[n]) == Read(readAdr)
  }

  lemma CoherentStart(m: Memory)
    ensures Coherent(m, m, [], [], false, 0)
  {}

  /** The oldest write in flight lands. */
  lemma WriteLands(local: Memory, mem: Memory, flight: seq<Record>, answers: seq<Record>, waiting: bool, readAdr: nat)
    requires Coherent(local, mem, flight, answers, waiting, readAdr)
    requires flight != [] && flight[0].wcount == 1
    ensures var w := OpOf(flight[0]);
      Coherent(local, Stored(mem, w.adr, w.data, w.be), flight[1..], answers, waiting, readAdr)
  {
    hide Stored;
  }

  /** The read at the front of what is in flight is the only thing there; its answer is the host's value. */
  lemma ReadServed(local: Memory, mem: Memory, flight: seq<Record>, answers: seq<Record>,
                   waiting: bool, readAdr: nat, answer: Record)
    requires Coherent(local, mem, flight, answers, waiting, readAdr)
    requires flight != [] && flight[0].wcount == 0
    requires Single(answer) && answer.wcount == 1 && answer.words[1] == Lookup(mem, OpOf(flight[0]).adr)
    ensures answers == [] && Coherent(local, mem, flight[1..], [answer], waiting, readAdr)
  {
  }

  /** The host issues a write: posted, and visible to the host at once. */
  lemma WriteIssued(local: Memory, mem: Memory, flight: seq<Record>, answers: seq<Record>, readAdr: nat, r: Record)
    requires Coherent(local, mem, flight, answers, false, readAdr)
    requires Single(r) && r.wcount == 1
    ensures var w := OpOf(r);
      Coherent(Stored(local, w.adr, w.data, w.be), mem, flight + [r], answers, false, readAdr)
  {
    LandedSnoc(mem, flight, r);
  }

  lemma ReadIssued(local: Memory, mem: Memory, flight: seq<Record>, answers: seq<Record>, readAdr: nat, r: Record)
    requires Coherent(local, mem, flight, answers, false, readAdr)
    requires Single(r) && r.wcount == 0
    ensures Coherent(local, mem, flight + [r], answers, true, OpOf(r).adr)
  {
    LandedSnoc(mem, flight, r);
  }

  /** The host receives the answer to its read: the value its own memory holds. */
  lemma AnswerTaken(local: Memory, mem: Memory, flight: seq<Record>, answers: seq<Record>, readAdr: nat)
    requires Coherent(local, mem, flight, answers, true, readAdr) && answers != []
    ensures flight == [] && answers[0].words[1] == Lookup(local, readAdr)
    ensures Coherent(local, mem, flight, answers[1..], false, readAdr)
  {}

  // ----- One direction: sender, wire and receiver

  /** How far the records between two nodes have come: queued at the sender, travelling,
      and received, and whether the receiver has begun with the first. */
  datatype LinkControl = LinkControl(queued: nat, sender: SenderState, wire: nat, received: nat, idle: bool) {
    predicate InRange() {
      (sender != SIdle ==> queued > 0) && (!idle ==> received > 0)
    }

    predicate Empty() {
      queued == 0 && wire == 0 && received == 0
    }

    /** The control state follows from the lengths of the queues and the two states. */
    lemma Stepped(next: LinkControl, pushed: nat, send: bool, deliver: bool, take: bool)
      requires InRange()
      requires next.queued == queued - (if sender == SData && send then 1 else 0) + pushed
      requires next.wire == wire - (if deliver && wire > 0 then 1 else 0) + if sender == SData && send then 1 else 0
      requires next.received ==
        received - (if !idle && take then 1 else 0) + if deliver && wire > 0 then 1 else 0
      requires next.sender == match sender
        case SIdle => (if queued > 0 then SBase else SIdle)
        case SBase => (if send then SData else SBase)
        case SData => (if send then SIdle else SData)
      requires next.idle == if idle then received == 0 else take
      ensures next == Next(pushed, send, deliver, take)
    {}

    /** One clock. */
    function Next(pushed: nat, send: bool, deliver: bool, take: bool): LinkControl {
      var sent, delivered, taken := sender == SData && send && queued > 0, deliver && wire > 0,
        !idle && take && received > 0;
      LinkControl(queued - (if sent then 1 else 0) + pushed,
                  match sender
                  case SIdle => (if queued > 0 then SBase else SIdle)
                  case SBase => (if send then SData else SBase)
                  case SData => (if send then SIdle else SData),
                  wire - (if delivered then 1 else 0) + (if sent then 1 else 0),
                  received - (if taken then 1 else 0) + (if delivered then 1 else 0),
                  if idle then received == 0 else take)
    }

    function Phase(): nat {
      match sender case SIdle => 0 case SBase => 1 case SData => 2
    }

    /** What the operations on their way to the memory contribute to the bound on the cycles left. */
    function RequestCycles(): int {
      17 * queued - Phase() + 13 * wire + 12 * received - if idle then 0 else 1
    }

    /** ... and the answers on their way back. */
    function ResponseCycles(): int {
      7 * queued - Phase() + 3 * wire + 2 * received - if idle then 0 else 1
    }

    /** What a clock without stalls changes. */
    lemma RequestFalls(pushed: nat, take: bool)
      requires InRange()
      ensures Next(pushed, true, true, take).RequestCycles() == RequestCycles() + 17 * pushed
        - (if queued == 0 then 0 else if sender == SData then 2 else 1) - (if wire == 0 then 0 else 1)
        - if idle then (if received == 0 then 0 else 1) else if take then 11 else 0
    {}

    lemma ResponseFalls(pushed: nat, take: bool)
      requires InRange()
      ensures Next(pushed, true, true, take).ResponseCycles() == ResponseCycles() + 7 * pushed
        - (if queued == 0 then 0 else if sender == SData then 2 else 1) - (if wire == 0 then 0 else 1)
        - if idle then (if received == 0 then 0 else 1) else if take then 1 else 0
    {}
  }

  /** What one clock does to the three queues between two nodes. */
  ghost predicate Moved(queued: seq<Access>, wire: seq<Record>, received: seq<Record>,
                        queued': seq<Access>, wire': seq<Record>, received': seq<Record>,
                        sent: bool, delivered: bool, popped: bool, push: seq<Access>) {
    && (popped ==> received != []) && (delivered ==> wire != []) && (sent ==> queued != [])
    && received' == (if popped then received[1..] else received) + (if delivered then [OnWire(wire[0])] else [])
    && wire' == (if delivered then wire[1..] else wire) + (if sent then [OnWire(RecordOf(queued[0]))] else [])
    && queued' == (if sent then queued[1..] else queued) + push
  }

  lemma FlightMoved(queued: seq<Access>, wire: seq<Record>, received: seq<Record>,
                    queued': seq<Access>, wire': seq<Record>, received': seq<Record>,
                    sent: bool, delivered: bool, popped: bool, push: seq<Access>)
    requires Moved(queued, wire, received, queued', wire', received', sent, delivered, popped, push) && |push| <= 1
    ensures var flight := InFlight(received, wire, queued);
      && (popped ==> flight != [])
      && InFlight(received', wire', queued') ==
        (if popped then flight[1..] else flight) + if push == [] then [] else [RecordOf(push[0])]
    ensures |queued'| == |queued| - (if sent then 1 else 0) + |push|
    ensures |wire'| == |wire| - (if delivered then 1 else 0) + if sent then 1 else 0
    ensures |received'| == |received| - (if popped then 1 else 0) + if delivered then 1 else 0
    ensures !popped && received != [] ==> received' != [] && received'[0] == received[0]
  {
    hide InFlight, OnWire, RecordOf;
    FlightClock(received, wire, queued, popped, delivered, sent, push);
  }

  class RecordLink {
    const sender: RecordSender
    var wire: seq<Record>
    const receiver: RecordReceiver

    ghost function Flight(): seq<Record>
      reads this, sender, receiver
    {
      InFlight(receiver.fifo, wire, sender.fifo)
    }

    ghost predicate Valid()
      reads this, sender, receiver
    {
      sender.Valid() && receiver.Valid() && receiver.pure && Singles(Flight())
    }

    constructor ()
      ensures Valid() && Flight() == [] && fresh(sender) && fresh(receiver) && receiver.state == RIdle
    {
      sender := new RecordSender();
      receiver := new RecordReceiver();
      wire := [];
    }

    /** Nothing is on the output of the receiver otherwise. */
    function Head(): Beat
      reads this, receiver
    {
      if receiver.SourceValid() && receiver.pos < |receiver.fifo[0].words| then receiver.SourceBeat()
      else Beat(false, 0, 0, 0, 0, 0, false)
    }

    /** What is on the output is the oldest record in flight, as a single access. */
    lemma HeadIsOldest()
      requires Valid() && receiver.SourceValid()
      ensures Flight() != [] && Flight()[0] == receiver.fifo[0]
      ensures receiver.LastWord()
      ensures Head() == match OpOf(Flight()[0])
        case Write(a, d, be) => Beat(true, 1, 0, be, a, d, true)
        case Read(a) => Beat(false, 1, Flight()[0].words[0], 0, a, 0, true)
      ensures receiver.state == if Flight()[0].wcount == 1 then RWrites else RReads
    {
      hide Translated;
    }

    function Control(): LinkControl
      reads this, sender, receiver
    {
      LinkControl(|sender.fifo|, sender.state, |wire|, |receiver.fifo|, receiver.state == RIdle)
    }

    /** With records of a single access the control state is all that counts. */
    lemma ControlSteps(take: bool)
      requires Valid()
      ensures Control().InRange() && (sender.Completes() <==> sender.state == SData)
      ensures receiver.SourceValid() <==> receiver.state != RIdle
      ensures receiver.NextState(take) == RIdle <==> if receiver.state == RIdle then receiver.fifo == [] else take
    {
      hide Translated, Encoded;
      if receiver.fifo != [] {
        assert Flight()[0] == receiver.fifo[0];
      }
      if sender.fifo != [] {
        assert Flight()[|receiver.fifo| + |wire|] == RecordOf(sender.fifo[0]);
      }
    }

    /** One clock: records move on; the oldest leaves when it is taken, a new one joins when it is pushed. */
    method Tick(push: seq<Access>, send: bool, deliver: bool, take: bool)
      requires Valid() && |push| <= 1 && forall a | a in push :: SingleAccess(a)
      modifies this, sender, receiver
      ensures Valid()
      ensures Flight() == (if old(receiver.SourceValid()) && take then old(Flight())[1..] else old(Flight())) +
        if push == [] then [] else [RecordOf(push[0])]
      ensures old(receiver.SourceValid()) && !take ==>
        receiver.state == old(receiver.state) && receiver.fifo != [] && receiver.fifo[0] == old(receiver.fifo[0])
      ensures Control() == old(Control().Next(|push|, send, deliver, take))
    {
      hide InFlight, OnWire, RecordOf, RecordSender.Valid, RecordReceiver.Valid, Singles, SingleAccess,
        RecordReceiver.SourceValid, Moved, LinkControl.Next;
      ControlSteps(take);
      if receiver.SourceValid() {
        HeadIsOldest();
      }
      if deliver && wire != [] {
        WireIsSingle();
      }
      ghost var queued, travelling, received := sender.fifo, wire, receiver.fifo;
      ghost var sent, delivered, popped := sender.state == SData && send, deliver && wire != [],
        receiver.SourceValid() && take;
      ghost var before := Control();
      FlightSingles(Flight(), popped, push);
      Advance(push, send, deliver, take);
      FlightMoved(queued, travelling, received, sender.fifo, wire, receiver.fifo, sent, delivered, popped, push);
      before.Stepped(Control(), |push|, send, deliver, take);
    }

    /** The three queues move. */
    method Advance(push: seq<Access>, send: bool, deliver: bool, take: bool)
      requires Valid() && |push| <= 1 && forall a | a in push :: SingleAccess(a)
      requires deliver && wire != [] ==> Single(OnWire(wire[0]))
      modifies this, sender, receiver
      ensures sender.Valid() && receiver.Valid() && receiver.pure
      ensures Moved(old(sender.fifo), old(wire), old(receiver.fifo), sender.fifo, wire, receiver.fifo,
                    old(sender.state) == SData && send, deliver && old(wire) != [],
                    old(receiver.SourceValid()) && take, push)
      ensures old(receiver.SourceValid()) && !take ==> receiver.state == old(receiver.state)
      ensures sender.state == match old(sender.state)
        case SIdle => (if old(sender.fifo) != [] then SBase else SIdle)
        case SBase => (if send then SData else SBase)
        case SData => (if send then SIdle else SData)
      ensures receiver.state == RIdle <==>
        if old(receiver.state) == RIdle then old(receiver.fifo) == [] else take
    {
      hide InFlight, OnWire, RecordOf, RecordSender.Valid, RecordReceiver.Valid, RecordReceiver.SourceValid, Singles,
        SingleAccess, Single, Pure;
      ControlSteps(take);
      NotPopped(take);
      var arriving := if deliver && wire != [] then [OnWire(wire[0])] else [];
      var leaving := if sender.state == SData && send then [OnWire(RecordOf(sender.fifo[0]))] else [];
      wire := (if deliver && wire != [] then wire[1..] else wire) + leaving;
      AdvanceSender(push, send);
      AdvanceReceiver(arriving, take);
    }

    /** The sender offers its words, and takes what is handed to it. */
    method AdvanceSender(push: seq<Access>, send: bool)
      requires sender.Valid() && (sender.Completes() <==> sender.state == SData)
      requires |push| <= 1 && forall a | a in push :: SingleAccess(a)
      modifies sender
      ensures sender.Valid()
      ensures sender.fifo ==
        (if old(sender.state) == SData && send then old(sender.fifo)[1..] else old(sender.fifo)) + push
      ensures sender.state == match old(sender.state)
        case SIdle => (if old(sender.fifo) != [] then SBase else SIdle)
        case SBase => (if send then SData else SBase)
        case SData => (if send then SIdle else SData)
    {
      hide RecordSender.Valid;
      sender.Tick(push, send);
    }

    /** The receiver hands on what it has, and takes a record that arrives. */
    method AdvanceReceiver(arriving: seq<Record>, take: bool)
      requires receiver.Valid() && receiver.pure
      requires |arriving| <= 1 && forall r | r in arriving :: Single(r)
      requires receiver.Pops(take) && receiver.LastWord() <==> receiver.SourceValid() && take
      requires receiver.SourceValid() && !take ==> receiver.NextState(take) == receiver.state
      requires receiver.NextState(take) == RIdle <==> if receiver.state == RIdle then receiver.fifo == [] else take
      modifies receiver
      ensures receiver.Valid() && receiver.pure
      ensures receiver.fifo ==
        (if old(receiver.SourceValid()) && take then old(receiver.fifo)[1..] else old(receiver.fifo)) + arriving
      ensures old(receiver.SourceValid()) && !take ==> receiver.state == old(receiver.state)
      ensures receiver.state == RIdle <==>
        if old(receiver.state) == RIdle then old(receiver.fifo) == [] else take
    {
      hide RecordReceiver.Valid, RecordReceiver.SourceBeat, RecordReceiver.NextState, RecordReceiver.Pops,
        RecordReceiver.LastWord, RecordReceiver.SourceValid;
      receiver.Tick(arriving, take);
    }

    /** The receiver gives up a record only with its last word. */
    lemma NotPopped(take: bool)
      requires Valid()
      ensures receiver.Pops(take) && receiver.LastWord() <==> receiver.SourceValid() && take
      ensures receiver.SourceValid() && !take ==> receiver.NextState(take) == receiver.state
      ensures forall a | SingleAccess(a) :: a.data != []
      ensures forall r | Single(r) :: Pure(r) && r.words != []
    {
      hide Translated;
      if receiver.fifo != [] {
        assert Flight()[0] == receiver.fifo[0];
      }
    }

    lemma WireIsSingle()
      requires Singles(Flight()) && wire != []
      ensures Single(OnWire(wire[0]))
    {
      hide OnWire, Single;
      assert Flight()[|receiver.fifo|] == OnWire(wire[0]);
    }
  }

  lemma FlightSingles(flight: seq<Record>, popped: bool, push: seq<Access>)
    requires Singles(flight) && (popped ==> flight != []) && |push| <= 1 && forall a | a in push :: SingleAccess(a)
    ensures Singles((if popped then flight[1..] else flight) + if push == [] then [] else [RecordOf(push[0])])
  {
    assert push == [] || push[0] in push;
  }

  // ----- The two nodes

  predicate AllReady(e: Schedule) {
    && e.requestReady && e.requestSent && e.requestDelivered && e.memoryAck
    && e.responseReady && e.responseSent && e.responseDelivered
  }

  /** The environment's choices in one clock: which queues accept and which
      records are delivered, and whether the memory's bus acknowledges. */
  datatype Schedule = Schedule(requestReady: bool, requestSent: bool, requestDelivered: bool, memoryAck: bool,
                               responseReady: bool, responseSent: bool, responseDelivered: bool)

  /** Once started, the master works on the record at the head; a value read waits in its register. */
  ghost predicate MasterInStep(state: MasterState, count: nat, data: word32, mem: Memory,
                               receiver: ReceiverState, fifo: seq<Record>) {
    match state
    case MIdle => true
    case MWrite => receiver == RWrites && fifo != []
    case MRead => receiver == RReads && fifo != []
    case MSend =>
      && receiver == RReads && fifo != [] && count == 1
      && |fifo[0].words| == 2 && data == Lookup(mem, fifo[0].words[1] / 4)
  }

  lemma InStepWithHead(state: MasterState, count: nat, data: word32, mem: Memory, receiver: ReceiverState,
                       fifo: seq<Record>, fifo': seq<Record>)
    requires MasterInStep(state, count, data, mem, receiver, fifo)
    requires fifo != [] && fifo' != [] && fifo[0] == fifo'[0]
    ensures MasterInStep(state, count, data, mem, receiver, fifo')
  {}

  lemma IdleInStep(count: nat, data: word32, mem: Memory, receiver: ReceiverState, fifo: seq<Record>)
    ensures MasterInStep(MIdle, count, data, mem, receiver, fifo)
  {}

  /** The control state of the whole: the host's controller, both links, and the master. */
  datatype BusControl =
    BusControl(slave: SlaveState, request: LinkControl, master: MasterState, response: LinkControl)
  {
    predicate InRange() {
      && request.InRange() && response.InRange()
      && (master != MIdle ==> !request.idle)
      && (slave == HWait ==> !request.Empty() || !response.Empty())
      && (!response.Empty() ==> slave == HWait)
    }

    /** Nothing is under way. */
    predicate Quiet() {
      slave == HIdle && request.Empty() && response.Empty()
    }

    /** One clock without a new operation and without stalls; the access at the master's
        sink, if there is one, is a write or a read. */
    function Next(write: bool): BusControl {
      var v, answer := !request.idle, !response.idle && slave in {HIdle, HWait};
      BusControl(
        match slave
        case HIdle | HWrite => HIdle
        case HRead => HWait
        case HWait => (if answer then HIdle else HWait),
        request.Next(if slave in {HWrite, HRead} then 1 else 0, true, true, v && master in {MWrite, MSend}),
        match master
        case MIdle => (if v then (if write then MWrite else MRead) else MIdle)
        case MWrite => (if v then MIdle else MWrite)
        case MRead => (if v then MSend else MRead)
        case MSend => (if v then MIdle else MSend),
        response.Next(if v && master == MSend then 1 else 0, true, true, answer))
    }

    /** A bound on the cycles until everything under way has ended, when nothing stalls. */
    function Rank(): nat
      requires InRange()
    {
      var host := match slave case HIdle => 0 case HWait => 1 case HWrite => 18 case HRead => 19;
      var done := match master case MIdle => 0 case MWrite | MRead => 1 case MSend => 2;
      host + request.RequestCycles() - done + response.ResponseCycles()
    }

    lemma Falls(write: bool)
      requires InRange() && Next(write).InRange() && !Quiet()
      ensures Next(write).Rank() < Rank()
    {
      hide LinkControl.Next, LinkControl.RequestCycles, LinkControl.ResponseCycles;
      var v, issues := !request.idle, slave == HWrite || slave == HRead;
      request.RequestFalls(if issues then 1 else 0, v && (master == MWrite || master == MSend));
      response.ResponseFalls(if v && master == MSend then 1 else 0, !response.idle && !issues);
    }
  }

  class RemoteBus {
    const slave: WishboneSlave
    const request: RecordLink
    const master: WishboneMaster
    var memory: Memory
    const response: RecordLink
    ghost var local: Memory      // the memory the host believes to be on its bus
    ghost var readAdr: nat       // the address of the read in progress

    ghost predicate Valid()
      reads this, slave, master, request, request.sender, request.receiver
      reads response, response.sender, response.receiver
    {
      && request != response && request.sender != response.sender && request.receiver != response.receiver
      && request.Valid() && response.Valid()
      && Coherent(local, memory, request.Flight(), response.Flight(), slave.state == HWait, readAdr)
      && MasterInStep(master.state, master.count, master.data, memory, request.receiver.state, request.receiver.fifo)
    }

    constructor (m: Memory)
      ensures Valid() && memory == m && local == m && slave.state == HIdle
    {
      hide Coherent, RecordLink.Valid, RecordLink.Flight, InFlight, RecordReceiver.Valid, RecordSender.Valid, Singles;
      slave := new WishboneSlave();
      request := new RecordLink();
      master := new WishboneMaster();
      response := new RecordLink();
      memory, local, readAdr := m, m, 0;
      new;
      CoherentStart(m);
    }

    /** The master has finished with the record at its sink in this cycle. */
    predicate MasterTakes(e: Schedule)
      reads this, master, request, request.receiver
    {
      request.receiver.SourceValid() && master.SinkReady(true, e.memoryAck, e.responseReady)
    }

    /** The answer handed to the response sender in this cycle. */
    function Answer(e: Schedule): seq<Access>
      reads this, master, request, request.receiver
    {
      if master.state == MSend && request.receiver.SourceValid() && e.responseReady
      then [Access(true, master.count, master.base, master.be, [master.data])] else []
    }

    function NextMemory(e: Schedule): Memory
      reads this, master, request, request.receiver
    {
      var b := request.Head();
      if master.BusWrites(request.receiver.SourceValid(), e.memoryAck) then Stored(memory, b.addr, b.data, b.be)
      else memory
    }

    /** What the master does in this cycle keeps the two nodes coherent. */
    lemma MasterEvent(e: Schedule)
      requires Valid()
      ensures var flight := if MasterTakes(e) then request.Flight()[1..] else request.Flight();
        var answers := response.Flight() + if Answer(e) == [] then [] else [RecordOf(Answer(e)[0])];
        Coherent(local, NextMemory(e), flight, answers, slave.state == HWait, readAdr)
      ensures |Answer(e)| <= 1 && forall a | a in Answer(e) :: SingleAccess(a)
      ensures MasterTakes(e) ==> request.Flight() != [] && request.receiver.SourceValid()
      ensures Answer(e) != [] ==> response.Flight() == []
    {
      hide Coherent, InFlight, Landed, Stored, Lookup, RecordReceiver.Valid, RecordSender.Valid;
      var flight, answers := request.Flight(), response.Flight();
      assert answers + [] == answers;
      if request.receiver.SourceValid() {
        request.HeadIsOldest();
        if master.state == MWrite && e.memoryAck {
          WriteLands(local, memory, flight, answers, slave.state == HWait, readAdr);
        } else if master.state == MSend && e.responseReady {
          var answer := RecordOf(Answer(e)[0]);
          ReadServed(local, memory, flight, answers, slave.state == HWait, readAdr, answer);
          assert answers + [answer] == [answer];
        }
      }
    }

    /** The master finishes with a record, or stays in step with it. */
    lemma MasterNext(e: Schedule)
      requires Valid()
      ensures request.receiver.SourceValid() ==> request.receiver.fifo != []
      ensures var v, b := request.receiver.SourceValid(), request.Head();
        var next := master.NextState(v, b, e.memoryAck, e.responseReady);
        if MasterTakes(e) || !v then next == MIdle
        else MasterInStep(next, b.count, master.NextData(v, e.memoryAck, Lookup(memory, b.addr)), NextMemory(e),
                          request.receiver.state, request.receiver.fifo)
    {
      hide Coherent, InFlight, Landed, Stored, Lookup, RecordReceiver.Valid, RecordSender.Valid;
      if request.receiver.SourceValid() {
        request.HeadIsOldest();
      }
    }

    ghost function Arrived(e: Schedule): seq<Record>
      requires Valid()
      reads this, slave, master, request, request.sender, request.receiver
      reads response, response.sender, response.receiver
    {
      if MasterTakes(e) && request.Flight() != [] then request.Flight()[1..] else request.Flight()
    }

    /** What is handed to the request sender in this cycle. */
    function Pushed(bus: BusRequest, e: Schedule): seq<Access>
      reads this, slave
    {
      if e.requestReady then slave.Offers(bus) else []
    }

    predicate Answered()
      reads this, slave, response, response.receiver
    {
      response.receiver.SourceValid() && slave.SinkReady()
    }

    ghost function NextLocal(bus: BusRequest, e: Schedule): Memory
      reads this, slave
    {
      if slave.state == HWrite && e.requestReady then Stored(local, bus.adr, bus.data, bus.sel) else local
    }

    ghost function NextReadAdr(bus: BusRequest, e: Schedule): nat
      reads this, slave
    {
      if slave.state == HRead && e.requestReady then bus.adr else readAdr
    }

    /** An answer is taken only while one is awaited, and it is what the host's memory holds. */
    lemma AnswerMeaning()
      requires Valid()
      ensures Answered() ==> slave.state == HWait && response.Flight() != [] && response.receiver.SourceValid()
      ensures response.receiver.SourceValid() ==>
        request.Flight() == [] && response.Flight() != [] && response.Head().we
          && response.Head().data == Lookup(local, readAdr)
    {
      hide Coherent, InFlight, Landed, Stored, Lookup, RecordReceiver.Valid, RecordSender.Valid;
      if response.receiver.SourceValid() {
        response.HeadIsOldest();
        AnswerIsAwaited(local, memory, request.Flight(), response.Flight(), slave.state == HWait, readAdr);
        AnswerTaken(local, memory, request.Flight(), response.Flight(), readAdr);
      }
    }

    lemma PushedSingle(bus: BusRequest, e: Schedule)
      ensures |Pushed(bus, e)| <= 1 && forall a | a in Pushed(bus, e) :: SingleAccess(a)
      ensures Pushed(bus, e) != [] <==> slave.state in {HWrite, HRead} && e.requestReady
    {}

    /** What is in flight after this cycle, and what the host then believes, agree. */
    ghost predicate NextCoherent(bus: BusRequest, e: Schedule)
      requires Valid()
      reads this, slave, master, request, request.sender, request.receiver
      reads response, response.sender, response.receiver
    {
      var push, answer := Pushed(bus, e), Answer(e);
      var flight := Arrived(e) + if push == [] then [] else [RecordOf(push[0])];
      var answers := (if Answered() && response.Flight() != [] then response.Flight()[1..] else response.Flight()) +
        if answer == [] then [] else [RecordOf(answer[0])];
      Coherent(NextLocal(bus, e), NextMemory(e), flight, answers,
        slave.NextState(bus, e.requestReady, response.receiver.SourceValid(), response.Head()) == HWait,
        NextReadAdr(bus, e))
    }

    /** What the host's controller does in this cycle keeps the two nodes coherent. */
    lemma SlaveEvent(bus: BusRequest, e: Schedule)
      requires Valid()
      ensures NextCoherent(bus, e)
    {
      hide Valid, NextCoherent;
      if response.receiver.SourceValid() {
        SlaveTakes(bus, e);
      } else {
        SlaveIssues(bus, e);
      }
    }

    /** An answer arrives. */
    lemma SlaveTakes(bus: BusRequest, e: Schedule)
      requires Valid() && response.receiver.SourceValid()
      ensures NextCoherent(bus, e)
    {
      hide Coherent, InFlight, Landed, Stored, Lookup, RecordReceiver.Valid, RecordSender.Valid, NextMemory,
        RecordLink.Valid, RecordLink.Flight, RecordLink.Head, MasterTakes, SingleAccess, Arrived;
      MasterEvent(e);
      AnswerMeaning();
      ArrivedForm(e);
      var flight, answers := Arrived(e), response.Flight();
      assert Answer(e) == [] && answers + [] == answers;
      AnswerIsAwaited(local, NextMemory(e), flight, answers, slave.state == HWait, readAdr);
      AnswerTaken(local, NextMemory(e), flight, answers, readAdr);
      assert answers[1..] + [] == answers[1..] && flight + [] == flight;
    }

    /** An operation may be issued. */
    lemma SlaveIssues(bus: BusRequest, e: Schedule)
      requires Valid() && !response.receiver.SourceValid()
      ensures NextCoherent(bus, e)
    {
      hide Coherent, InFlight, Landed, Stored, Lookup, RecordReceiver.Valid, RecordSender.Valid, NextMemory,
        RecordLink.Valid, RecordLink.Flight, RecordLink.Head, MasterTakes, SingleAccess, Arrived, Answer;
      MasterEvent(e);
      ArrivedForm(e);
      var mem, flight := NextMemory(e), Arrived(e);
      var answers := response.Flight() + if Answer(e) == [] then [] else [RecordOf(Answer(e)[0])];
      assert flight + [] == flight;
      if slave.state == HWrite && e.requestReady {
        WriteIssued(local, mem, flight, answers, readAdr, RecordOf(Pushed(bus, e)[0]));
      } else if slave.state == HRead && e.requestReady {
        ReadIssued(local, mem, flight, answers, readAdr, RecordOf(Pushed(bus, e)[0]));
      }
    }

    lemma ArrivedForm(e: Schedule)
      requires Valid()
      ensures MasterTakes(e) ==> request.Flight() != [] && request.receiver.SourceValid()
      ensures Arrived(e) == if MasterTakes(e) then request.Flight()[1..] else request.Flight()
    {
      hide Coherent, InFlight, MasterInStep, RecordReceiver.Valid, RecordSender.Valid;
      if request.receiver.SourceValid() {
        request.HeadIsOldest();
      }
    }

    /** Both links advance. */
    method ClockLinks(push: seq<Access>, take: bool, answer: seq<Access>, answered: bool, e: Schedule)
      requires request != response && request.sender != response.sender && request.receiver != response.receiver
      requires request.Valid() && response.Valid()
      requires |push| <= 1 && forall a | a in push :: SingleAccess(a)
      requires |answer| <= 1 && forall a | a in answer :: SingleAccess(a)
      modifies request, request.sender, request.receiver, response, response.sender, response.receiver
      ensures request.Valid() && response.Valid()
      ensures request.Flight() ==
        (if old(request.receiver.SourceValid()) && take then old(request.Flight())[1..] else old(request.Flight())) +
        if push == [] then [] else [RecordOf(push[0])]
      ensures response.Flight() ==
        (if old(response.receiver.SourceValid()) && answered
         then old(response.Flight())[1..] else old(response.Flight())) +
        if answer == [] then [] else [RecordOf(answer[0])]
      ensures old(request.receiver.SourceValid()) && !take ==>
        && request.receiver.state == old(request.receiver.state)
        && request.receiver.fifo != [] && request.receiver.fifo[0] == old(request.receiver.fifo[0])
      ensures request.Control() ==
        old(request.Control().Next(|push|, e.requestSent, e.requestDelivered, take))
      ensures response.Control() ==
        old(response.Control().Next(|answer|, e.responseSent, e.responseDelivered, answered))
    {
      hide RecordLink.Control, LinkControl.Next;
      hide RecordLink.Valid, RecordLink.Flight, RecordOf, SingleAccess, RecordReceiver.SourceValid;
      request.Tick(push, e.requestSent, e.requestDelivered, take);
      response.Tick(answer, e.responseSent, e.responseDelivered, answered);
    }

    /** One clock of both nodes, the links and the memory. A write is acknowledged
        when it is handed on, and the bytes enabled are written; what the host reads is
        always what a memory on its own bus would hold after the writes acknowledged so far. */
    method Tick(bus: BusRequest, e: Schedule) returns (ack: bool, dataR: word32)
      requires Valid()
      modifies this, slave, master, request, request.sender, request.receiver
      modifies response, response.sender, response.receiver
      ensures Valid()
      ensures local ==
        if old(slave.state) == HWrite && ack then Stored(old(local), bus.adr, bus.data, bus.sel) else old(local)
      ensures old(slave.state) == HWrite ==> (ack <==> e.requestReady)
      ensures if old(slave.state) == HWrite && ack then Written(old(local), local, bus.adr, bus.data, bus.sel)
        else local == old(local)
      ensures old(slave.state) == HWait && ack ==> dataR == Lookup(local, readAdr)
      ensures readAdr == if old(slave.state) == HRead && slave.state == HWait then bus.adr else old(readAdr)
      ensures ack ==> old(slave.state) in {HWrite, HWait} && slave.state == HIdle
      ensures !ack ==> slave.state == match old(slave.state)
        case HIdle => if bus.stb then (if bus.we then HWrite else HRead) else HIdle
        case HRead => if e.requestReady then HWait else HRead
        case other => other
    {
      hide Coherent, MasterInStep, Stored, Lookup, Valid, Written, RecordLink.Head;
      StoredBytes(local, bus.adr, bus.data, bus.sel);
      ack, dataR := slave.Ack(e.requestReady, response.receiver.SourceValid(), response.Head()), response.Head().data;
      AckMeaning(bus, e);
      Clock(bus, e);
    }

    /** A read is acknowledged exactly when its answer is taken. */
    lemma AckMeaning(bus: BusRequest, e: Schedule)
      requires Valid()
      ensures slave.state == HWait ==> (slave.Answers(response.receiver.SourceValid(), response.Head()) <==> Answered())
      ensures Answered() ==> response.Head().data == Lookup(NextLocal(bus, e), readAdr)
    {
      hide Coherent, MasterInStep, Lookup, RecordLink.Valid, RecordLink.Head, Stored, InFlight;
      AnswerMeaning();
    }

    method Clock(bus: BusRequest, e: Schedule)
      requires Valid()
      modifies this, slave, master, request, request.sender, request.receiver
      modifies response, response.sender, response.receiver
      ensures Valid()
      ensures local == old(NextLocal(bus, e)) && readAdr == old(NextReadAdr(bus, e)) && memory == old(NextMemory(e))
      ensures slave.state == old(slave.NextState(bus, e.requestReady, response.receiver.SourceValid(), response.Head()))
      ensures request.Control() ==
        old(request.Control().Next(|Pushed(bus, e)|, e.requestSent, e.requestDelivered, MasterTakes(e)))
      ensures response.Control() ==
        old(response.Control().Next(|Answer(e)|, e.responseSent, e.responseDelivered, Answered()))
      ensures master.state ==
        old(master.NextState(request.receiver.SourceValid(), request.Head(), e.memoryAck, e.responseReady))
    {
      hide RecordLink.Control, LinkControl.Next;
      hide Coherent, MasterInStep, InFlight, RecordReceiver.Valid, RecordSender.Valid, RecordLink.Valid,
        RecordLink.Head,
        Stored, Lookup, Single, OpOf, RecordOf, RecordLink.Flight, NextMemory, NextLocal, NextReadAdr,
        WishboneMaster.NextState, WishboneMaster.NextData, SingleAccess, RecordReceiver.SourceValid,
        WishboneSlave.NextState, Pushed, Answer, MasterTakes, Answered, Arrived;
      var push, answer := Pushed(bus, e), Answer(e);
      var beat, masterTakes := request.Head(), MasterTakes(e);
      var slaveSees, answerBeat, answered := response.receiver.SourceValid(), response.Head(), Answered();
      MasterEvent(e);
      MasterNext(e);
      SlaveEvent(bus, e);
      AnswerMeaning();
      PushedSingle(bus, e);
      ArrivedForm(e);
      var value, mem := Lookup(memory, beat.addr), NextMemory(e);
      local, readAdr, memory := NextLocal(bus, e), NextReadAdr(bus, e), mem;
      slave.Tick(bus, e.requestReady, slaveSees, answerBeat);
      ClockMaster(push, masterTakes, answer, answered, beat, value, mem, e);
    }

    function Control(): BusControl
      reads this, slave, master, request, request.sender, request.receiver
      reads response, response.sender, response.receiver
    {
      BusControl(slave.state, request.Control(), master.state, response.Control())
    }

    lemma ControlInRange()
      requires Valid()
      ensures Control().InRange()
    {
      hide RecordLink.Valid, InFlight, Landed, Lookup, RecordReceiver.SourceValid;
      request.ControlSteps(true);
      response.ControlSteps(true);
    }

    /** What the controllers hand on in a cycle without stalls, and what they become, follows from the control state. */
    lemma ControlFollows(bus: BusRequest, e: Schedule)
      requires Valid() && !bus.stb && AllReady(e)
      ensures var write := request.Head().we;
        BusControl(slave.NextState(bus, e.requestReady, response.receiver.SourceValid(), response.Head()),
                   request.Control().Next(|Pushed(bus, e)|, e.requestSent, e.requestDelivered, MasterTakes(e)),
                   master.NextState(request.receiver.SourceValid(), request.Head(), e.memoryAck, e.responseReady),
                   response.Control().Next(|Answer(e)|, e.responseSent, e.responseDelivered, Answered()))
          == Control().Next(write)
    {
      hide Coherent, MasterInStep, InFlight, LinkControl.Next, RecordReceiver.Valid, RecordSender.Valid, Singles;
      request.ControlSteps(true);
      response.ControlSteps(true);
      AnswerMeaning();
      if request.receiver.SourceValid() {
        request.HeadIsOldest();
      }
    }

    /** A cycle without stalls in which the host begins nothing brings everything under way closer to its end. */
    method Settle(bus: BusRequest)
      requires Valid() && !bus.stb
      modifies this, slave, master, request, request.sender, request.receiver
      modifies response, response.sender, response.receiver
      ensures Valid() && Control().InRange() && old(Control()).InRange()
      ensures !old(Control()).Quiet() ==> Control().Rank() < old(Control()).Rank()
    {
      hide Valid, RecordLink.Control, BusControl.Next, BusControl.Rank, BusControl.InRange, BusControl.Quiet, Pushed,
        Answer, MasterTakes, Answered, RecordLink.Head, LinkControl.Next, WishboneMaster.NextState,
        WishboneSlave.NextState, RecordReceiver.SourceValid;
      var e := Schedule(true, true, true, true, true, true, true);
      ControlInRange();
      ControlFollows(bus, e);
      ghost var before, write := Control(), request.Head().we;
      Clock(bus, e);
      ControlInRange();
      if !before.Quiet() {
        before.Falls(write);
      }
    }

    /** The master and both links advance; the master stays in step with the record at its sink. */
    method ClockMaster(push: seq<Access>, take: bool, answer: seq<Access>, answered: bool, beat: Beat, value: word32,
                       ghost mem: Memory, e: Schedule)
      requires request != response && request.sender != response.sender && request.receiver != response.receiver
      requires request.Valid() && response.Valid()
      requires |push| <= 1 && forall a | a in push :: SingleAccess(a)
      requires |answer| <= 1 && forall a | a in answer :: SingleAccess(a)
      requires request.receiver.SourceValid() ==> request.receiver.fifo != []
      requires var v := request.receiver.SourceValid();
        var next := master.NextState(v, beat, e.memoryAck, e.responseReady);
        if take || !v then next == MIdle
        else MasterInStep(next, beat.count, master.NextData(v, e.memoryAck, value), mem,
                          request.receiver.state, request.receiver.fifo)
      modifies master, request, request.sender, request.receiver, response, response.sender, response.receiver
      ensures request.Valid() && response.Valid()
      ensures request.Flight() ==
        (if old(request.receiver.SourceValid()) && take then old(request.Flight())[1..] else old(request.Flight())) +
        if push == [] then [] else [RecordOf(push[0])]
      ensures response.Flight() ==
        (if old(response.receiver.SourceValid()) && answered
         then old(response.Flight())[1..] else old(response.Flight())) +
        if answer == [] then [] else [RecordOf(answer[0])]
      ensures MasterInStep(master.state, master.count, master.data, mem,
                           request.receiver.state, request.receiver.fifo)
      ensures request.Control() ==
        old(request.Control().Next(|push|, e.requestSent, e.requestDelivered, take))
      ensures response.Control() ==
        old(response.Control().Next(|answer|, e.responseSent, e.responseDelivered, answered))
      ensures master.state ==
        old(master.NextState(request.receiver.SourceValid(), beat, e.memoryAck, e.responseReady))
    {
      hide RecordLink.Control, LinkControl.Next;
      hide MasterInStep, RecordLink.Valid, RecordLink.Flight, RecordOf, SingleAccess, RecordReceiver.SourceValid,
        WishboneMaster.NextState, WishboneMaster.NextData;
      var v := request.receiver.SourceValid();
      master.Tick(v, beat, e.memoryAck, value, e.responseReady);
      ClockLinks(push, take, answer, answered, e);
      if take || !v {
        IdleInStep(master.count, master.data, mem, request.receiver.state, request.receiver.fifo);
      } else {
        InStepWithHead(master.state, master.count, master.data, mem, request.receiver.state,
                       old(request.receiver.fifo), request.receiver.fifo);
      }
    }
  }

  lemma AnswerIsAwaited(local: Memory, mem: Memory, flight: seq<Record>, answers: seq<Record>, waiting: bool,
                        readAdr: nat)
    requires Coherent(local, mem, flight, answers, waiting, readAdr) && answers != []
    ensures waiting && Single(answers[0]) && answers[0].wcount == 1
  {}

  /** Once nothing is in flight the remote memory is the host's memory: every
      acknowledged write has landed, in order, with its byte enables. */
  lemma Drained(b: RemoteBus)
    requires b.Valid() && b.request.Flight() == []
    ensures b.memory == b.local
  {}

  /** From every reachable state a bounded number of cycles without stalls, in which the
      host begins nothing, ends everything under way: the host has its answer, and the
      remote memory is the host's memory. */
  method Drain(b: RemoteBus, bus: BusRequest)
    requires b.Valid() && !bus.stb
    modifies b, b.slave, b.master, b.request, b.request.sender, b.request.receiver
    modifies b.response, b.response.sender, b.response.receiver
    ensures b.Valid() && b.slave.state == HIdle && b.request.Flight() == [] && b.response.Flight() == []
    ensures b.memory == b.local
  {
    hide RemoteBus.Valid, BusControl.Rank;
    b.ControlInRange();
    while !b.Control().Quiet()
      invariant b.Valid() && b.Control().InRange()
      decreases b.Control().Rank()
    {
      b.Settle(bus);
    }
    Drained(b);
  }
}
