/** The MAC pipelines: padding, CRC, preamble and gap on the way out, preamble
    and CRC checks on the way in, joined by a lossless link. */
module MacCore {
  import opened Bits
  import opened Crc32
  import opened Streams
  import CrcChecker
  import CrcInserter
  import Gap
  import Padding
  import Preamble

  // ----- Packet level

  /** What leaves the transmit pipeline. */
  function TransmitAll(ps: seq<Packet>): seq<Packet> {
    Preamble.PrefixAll(CrcInserter.InsertAll(Padding.PadAll(ps)))
  }

  /** What leaves the receive pipeline. */
  function ReceiveAll(ps: seq<Packet>): seq<Packet> {
    CrcChecker.CheckAll(Preamble.StripAll(ps))
  }

  /** The packet a user gets back: padded, without error. */
  function Delivered(p: Packet): Packet {
    Packet(Padding.PadCounted(p).bytes, false)
  }

  function DeliverAll(ps: seq<Packet>): (r: seq<Packet>)
    ensures |r| == |ps|
  {
    seq(|ps|, i requires 0 <= i < |ps| => Delivered(ps[i]))
  }

  lemma DeliveredIsPadded(p: Packet)
    requires p.bytes != []
    ensures Delivered(p).bytes == Padding.PadTo(p).bytes <==> Padding.CountsRight(|p.bytes|)
  {
    Padding.PaddingExact(p);
    if Padding.CountsRight(|p.bytes|) {
    } else {
      assert |Padding.PadCounted(p).bytes| > |Padding.PadTo(p).bytes|;
    }
  }

  /** A packet with its check sequence is passed by the checker. */
  lemma CheckInsert(p: Packet)
    requires p.bytes != []
    ensures |CrcInserter.Insert(p).bytes| > 4
    ensures CrcChecker.Checked(CrcInserter.Insert(p)) == Packet(p.bytes, false)
  {
    var frame := WithFcs(p.bytes);
    assert frame[..|frame| - 4] == p.bytes;
    FrameVerdict(frame);
  }

  lemma PaddedLength(ps: seq<Packet>)
    requires forall p | p in ps :: p.bytes != []
    ensures forall p | p in Padding.PadAll(ps) :: |p.bytes| >= 60
  {
    forall i | 0 <= i < |ps| ensures |Padding.PadAll(ps)[i].bytes| >= 60 {}
  }

  lemma {:induction false} CheckInsertAll(ps: seq<Packet>)
    requires forall p | p in ps :: p.bytes != []
    ensures CrcChecker.CheckAll(CrcInserter.InsertAll(Padding.PadAll(ps))) == DeliverAll(ps)
  {
    if ps != [] {
      var n := |ps| - 1;
      var q := Padding.PadCounted(ps[n]);
      assert ps == ps[..n] + [ps[n]];
      CheckInsertAll(ps[..n]);
      CheckInsert(q);
      Padding.PadAllSnoc(ps[..n], ps[n]);
      CrcInserter.InsertAllSnoc(Padding.PadAll(ps[..n]), q);
      CrcChecker.CheckAllSnoc(CrcInserter.InsertAll(Padding.PadAll(ps[..n])), CrcInserter.Insert(q));
    }
  }

  /** Receiving undoes transmitting, for every list of packets. */
  lemma ReceiveTransmit(ps: seq<Packet>)
    requires forall p | p in ps :: p.bytes != []
    ensures ReceiveAll(TransmitAll(ps)) == DeliverAll(ps)
  {
    var framed := CrcInserter.InsertAll(Padding.PadAll(ps));
    forall p | p in framed ensures p.bytes != [] {}
    Preamble.StripPrefixAll(framed);
    CheckInsertAll(ps);
  }

  // ----- Clock level

  /** The control state of preamble and gap. */
  datatype Tail = Tail(preamble: Preamble.State, count: nat, gap: Gap.State, idle: nat) {
    /** A framed token is taken. */
    predicate Accepts(push: bool) {
      preamble.Copy? && gap.Copy? && push
    }

    /** One clock, given whether a framed token is offered, and whether it ends its frame. */
    function Next(offered: bool, ends: bool, push: bool): Tail {
      Tail(
        match preamble case Idle => (if offered then Preamble.Preamble else preamble)
                       case Preamble => (if gap.Copy? && push && count == 7 then Preamble.Copy else preamble)
                       case Copy => (if Accepts(push) && ends then Preamble.Idle else preamble),
        match preamble case Idle => 0
                       case Preamble => (if gap.Copy? && push && count < 7 then count + 1 else count)
                       case Copy => count,
        match gap case Copy => (if Accepts(push) && ends then Gap.Gap else gap)
                  case Gap => (if idle == Gap.GAP - 1 then Gap.Copy else gap),
        if gap.Copy? then 0 else idle + 1)
    }
  }

  /** The control state of the stages behind the buffer. */
  datatype Line = Line(crc: CrcInserter.State, cnt: nat, tail: Tail) {
    predicate InRange() {
      && (crc.Idle? ==> tail.preamble.Idle?)
      && (crc.Append? ==> cnt <= 3)
      && (tail.preamble.Preamble? ==> tail.count < 8)
      && (tail.gap.Gap? ==> tail.idle < Gap.GAP)
    }

    /** The CRC stage offers a token. */
    predicate Framed(full: bool) {
      crc.Append? || (crc.Copy? && full)
    }

    predicate EndsFrame() {
      crc.Append? && cnt == 0
    }

    /** Nothing can move before the buffer offers a token. */
    predicate Waiting(full: bool) {
      tail.gap.Copy? && !full && !crc.Append? && !tail.preamble.Preamble?
    }

    /** One clock, given whether the buffer offers a token and whether it is a last one. */
    function Next(full: bool, last: bool, push: bool): Line {
      var accepts := tail.Accepts(push);
      Line(
        CrcInserter.NextState(crc, cnt, full, last, accepts),
        CrcInserter.NextCnt(crc, cnt, accepts),
        tail.Next(Framed(full), EndsFrame(), push))
    }

    /** The preamble never runs ahead of the CRC stage. */
    lemma OrderKept(full: bool, last: bool, push: bool)
      requires crc.Idle? ==> tail.preamble.Idle?
      ensures Next(full, last, push).crc.Idle? ==> Next(full, last, push).tail.preamble.Idle?
    {}

    /** Bounds how long the stages keep moving without a token from the buffer. */
    function Rank(): (r: nat)
      requires InRange()
      ensures r < LINE_BOUND
    {
      var c := match crc case Append => 3 + cnt case Idle => 2 case Copy => 1;
      var p := match tail.preamble case Idle => 9 case Preamble => 8 - tail.count case Copy => 0;
      var g := if tail.gap.Gap? then Gap.GAP - tail.idle else 0;
      g + 13 * (p + 10 * c)
    }

    /** A clock that takes no token from the buffer brings the stages closer to waiting for one. */
    lemma Falls(full: bool, last: bool)
      requires InRange() && Next(full, last, true).InRange()
      requires !(full && crc.Copy? && tail.Accepts(true))
      ensures Next(full, last, true).Rank() <= Rank()
      ensures !Waiting(full) ==> Next(full, last, true).Rank() < Rank()
    {}
  }

  const LINE_BOUND: nat := 910

  /** When the CRC stage has begun a packet but taken none of it, the first token is still being offered. */
  ghost predicate Offered(crc: CrcInserter.State, got: seq<Token>, full: bool) {
    crc.Copy? && Parse(got).cur == [] ==> full
  }

  lemma OfferedKeeps(line: Line, got: seq<Token>, full: bool, token: Token, taken: bool, push: bool, full': bool)
    requires Offered(line.crc, got, full)
    requires taken <==> full && line.crc.Copy? && line.tail.Accepts(push)
    requires full && !taken ==> full'
    ensures Offered(line.Next(full, token.last, push).crc, got + if taken then [token] else [], full')
  {
    hide Parse;
    if taken {
      ParseSnoc(got, token);
    } else {
      assert got + [] == got;
    }
  }

  /** The control state of the whole transmitter. */
  datatype Stages = Stages(pad: Padding.State, counter: nat, full: bool, line: Line) {
    predicate InRange() {
      line.InRange() && (pad.Padding? ==> counter <= Padding.LIMIT)
    }

    /** No packet is on its way. */
    predicate Quiet() {
      pad.Idle? && !full && line.crc.Idle? && line.tail.preamble.Idle?
    }

    /** The line takes the buffer's token. */
    predicate Takes(push: bool) {
      full && line.crc.Copy? && line.tail.Accepts(push)
    }

    /** One clock without input, given whether the buffer's token is a last one. */
    function Next(last: bool, push: bool): Stages {
      var ready := Takes(push) || !full;
      var pads := pad.Padding? && ready;
      var done := counter >= Padding.LIMIT;
      Stages(if pads && done then Padding.Idle else pad,
             if pads then (if done then 0 else (counter + 1) % 0x1_0000) else counter,
             if ready then pad.Padding? else full,
             line.Next(full, last, push))
    }

    /** A bound on the cycles until every packet accepted has left, when nothing stalls. */
    function Rank(): nat
      requires InRange()
    {
      var padLeft := if pad.Padding? then Padding.LIMIT + 1 - counter else 0;
      line.Rank() + LINE_BOUND * (2 * padLeft + if full then 1 else 0)
    }

    lemma Falls(last: bool)
      requires InRange() && Next(last, true).InRange()
      requires pad.Idle? && !full ==> !line.crc.Copy?
      ensures Next(last, true).Rank() + (if Quiet() then 0 else 1) <= Rank()
    {
      hide Line.Next, Line.Rank, Tail.Accepts;
      if !Takes(true) {
        line.Falls(full, last);
      }
    }
  }

  /** The transmit pipeline: padding, a buffer, CRC, preamble, gap. */
  class Transmitter {
    const pad: Padding.PaddingInserter
    const buffer: Buffer
    const crc: CrcInserter.Inserter
    const preamble: Preamble.Inserter
    const gap: Gap.GapInserter

    /** Every token sent by one stage is the next stage's input, in order. */
    ghost predicate Valid()
      reads this, pad, buffer, crc, crc.crc, preamble, gap
    {
      && pad.Valid() && buffer.Valid() && LineValid()
      && pad.sent == buffer.got && buffer.sent == crc.got
      && Offered(crc.state, crc.got, buffer.full)
    }

    ghost predicate LineValid()
      reads this, crc, crc.crc, preamble, gap
    {
      && crc.Valid() && preamble.Valid() && gap.Valid()
      && crc.sent == preamble.got && preamble.sent == gap.got
      && (crc.state.Idle? ==> preamble.state.Idle?)
    }

    function TailState(): Tail
      reads preamble, gap
    {
      Tail(preamble.state, preamble.count, gap.state, gap.counter)
    }

    function LineState(): Line
      reads crc, preamble, gap
    {
      Line(crc.state, crc.cnt, TailState())
    }

    /** The handshakes of this cycle, read off the control state. */
    lemma LineWires(push: bool)
      requires LineValid()
      ensures var v, t, line := crc.SourceValid(buffer.full), crc.SourceToken(buffer.token), LineState();
        && v == line.Framed(buffer.full)
        && (v && t.last <==> line.EndsFrame())
        && var ready, accepts := preamble.SinkReady(v, gap.SinkReady(push)), line.tail.Accepts(push);
        && CrcInserter.NextState(crc.state, crc.cnt, buffer.full, buffer.token.last, ready)
          == CrcInserter.NextState(crc.state, crc.cnt, buffer.full, buffer.token.last, accepts)
        && CrcInserter.NextCnt(crc.state, crc.cnt, ready) == CrcInserter.NextCnt(crc.state, crc.cnt, accepts)
    {
      hide Parse, CrcInserter.InsertAll, Preamble.PrefixAll, Crc, FcsByte;
    }

    function Control(): Stages
      reads pad, buffer, crc, preamble, gap
    {
      Stages(pad.state, pad.counter, buffer.full, LineState())
    }

    lemma ControlInRange()
      requires Valid()
      ensures Control().InRange()
    {
      hide Parse, Crc;
      LineInRange();
    }

    /** Between packets at the input, the CRC stage never waits for a token that will not come. */
    lemma NotStuck()
      requires Valid() && Parse(pad.got).cur == [] && pad.state.Idle? && !buffer.full
      ensures !crc.state.Copy?
    {
      hide Parse, Crc, LineValid;
      assert buffer.sent + [] == buffer.sent;
    }

    lemma LineTakes(push: bool)
      requires LineValid()
      ensures crc.Valid()
      ensures buffer.full && LineReady(push) <==> buffer.full && crc.state.Copy? && LineState().tail.Accepts(push)
    {}

    /** A token is refused only while padding goes on or the buffer is full. */
    lemma Refuses(push: bool)
      requires crc.Valid()
      ensures !SinkReady(push) ==> pad.state.Padding? || buffer.full
    {}

    lemma QuietSilent()
      ensures Quiet() ==> !SourceValid()
    {}

    lemma LineInRange()
      requires LineValid()
      ensures LineState().InRange()
    {
      hide Parse, CrcInserter.InsertAll, Preamble.PrefixAll, Crc;
    }

    constructor ()
      ensures Valid() && pad.got == gap.sent == [] && Quiet()
      ensures fresh(pad) && fresh(buffer) && fresh(crc) && fresh(crc.crc) && fresh(preamble) && fresh(gap)
    {
      pad := new Padding.PaddingInserter();
      buffer := new Buffer();
      crc := new CrcInserter.Inserter();
      preamble := new Preamble.Inserter();
      gap := new Gap.GapInserter();
    }

    /** The stages behind the buffer accept its token. */
    predicate LineReady(push: bool)
      requires crc.Valid()
      reads this, buffer, crc, crc.crc, preamble, gap
    {
      var v := buffer.full;
      crc.SinkReady(v, preamble.SinkReady(crc.SourceValid(v), gap.SinkReady(push)))
    }

    predicate SinkReady(push: bool)
      requires crc.Valid()
      reads this, pad, buffer, crc, crc.crc, preamble, gap
    {
      pad.SinkReady(buffer.SinkReady(LineReady(push)))
    }

    predicate SourceValid()
      reads this, buffer, crc, preamble, gap
    {
      gap.SourceValid(preamble.SourceValid(crc.SourceValid(buffer.full)))
    }

    function SourceToken(): Token
      requires crc.Valid()
      reads this, buffer, crc, crc.crc, preamble
    {
      preamble.SourceToken(crc.SourceToken(buffer.token))
    }

    method Tick(v: bool, t: Token, push: bool)
      requires Valid()
      modifies pad, buffer, crc, crc.crc, preamble, gap
      ensures Valid()
      ensures pad.got == old(pad.got) + if v && old(SinkReady(push)) then [t] else []
      ensures gap.sent == old(gap.sent) + if old(SourceValid()) && push then [old(SourceToken())] else []
      ensures !v || !old(SinkReady(push)) ==> Control() == old(Control()).Next(old(buffer.token.last), push)
    {
      hide Padding.PaddingInserter.Valid, Padding.PaddingInserter.SourceToken, Buffer.Valid, LineValid, Offered,
        LineReady, Line.Next, Parse, SourceValid, SourceToken, Tail.Accepts;
      LineTakes(push);
      ghost var line, taken := LineState(), buffer.full && LineReady(push);
      var lineReady := LineReady(push);
      var ready := buffer.SinkReady(lineReady);
      var v1, t1 := pad.SourceValid(v), pad.SourceToken(t, ready);
      TickLine(push);
      buffer.Tick(v1, t1, lineReady);
      pad.Tick(v, t, ready);
      OfferedKeeps(line, old(crc.got), old(buffer.full), old(buffer.token), taken, push, buffer.full);
    }

    method TickLine(push: bool)
      requires LineValid()
      modifies crc, crc.crc, preamble, gap
      ensures LineValid()
      ensures crc.got == old(crc.got) + if buffer.full && old(LineReady(push)) then [buffer.token] else []
      ensures gap.sent == old(gap.sent) + if old(SourceValid()) && push then [old(SourceToken())] else []
      ensures LineState() == old(LineState()).Next(buffer.full, buffer.token.last, push)
    {
      hide Tail.Next, Tail.Accepts, Line.Framed, Line.EndsFrame, CrcInserter.NextState, CrcInserter.NextCnt;
      hide CrcInserter.Inserter.Valid, CrcInserter.Inserter.SourceValid, CrcInserter.Inserter.SourceToken,
        CrcInserter.Inserter.SinkReady, Preamble.Inserter.Valid, Preamble.Inserter.SourceValid,
        Preamble.Inserter.SourceToken, Preamble.Inserter.SinkReady, Gap.GapInserter.Valid,
        Gap.GapInserter.SourceValid, Gap.GapInserter.SinkReady;
      var v3, t3 := crc.SourceValid(buffer.full), crc.SourceToken(buffer.token);
      var ready := preamble.SinkReady(v3, gap.SinkReady(push));
      ghost var next := LineState().Next(buffer.full, buffer.token.last, push);
      assert next == Line(CrcInserter.NextState(crc.state, crc.cnt, buffer.full, buffer.token.last, ready),
                          CrcInserter.NextCnt(crc.state, crc.cnt, ready),
                          TailState().Next(v3, v3 && t3.last, push)) by {
        LineWires(push);
      }
      LineState().OrderKept(buffer.full, buffer.token.last, push);
      hide Line.Next;
      TickTail(v3, t3, push);
      crc.Tick(buffer.full, buffer.token, ready);
    }

    /** The preamble and the gap. */
    method TickTail(v: bool, t: Token, push: bool)
      requires preamble.Valid() && gap.Valid() && preamble.sent == gap.got
      modifies preamble, gap
      ensures preamble.Valid() && gap.Valid() && preamble.sent == gap.got
      ensures preamble.got == old(preamble.got) +
        if v && old(preamble.SinkReady(v, gap.SinkReady(push))) then [t] else []
      ensures gap.sent == old(gap.sent) +
        if old(gap.SourceValid(preamble.SourceValid(v))) && push then [old(preamble.SourceToken(t))] else []
      ensures TailState() == old(TailState()).Next(v, v && t.last, push)
    {
      hide Preamble.Inserter.Valid, Gap.GapInserter.Valid;
      var v4, t4 := preamble.SourceValid(v), preamble.SourceToken(t);
      var ready := gap.SinkReady(push);
      gap.Tick(v4, t4, push);
      preamble.Tick(v, t, ready);
    }

    /** No packet is on its way. */
    predicate Quiet()
      reads pad, buffer, crc, preamble, gap
    {
      Control().Quiet()
    }
  }

  /** The receive pipeline: preamble check, a buffer, CRC check. */
  class Receiver {
    const strip: Preamble.Checker
    const buffer: Buffer
    const check: CrcChecker.Checker
    ghost var stalled: bool  // the output was not ready in some cycle

    ghost predicate Valid()
      reads this, strip, buffer, check, check.crc
    {
      && strip.Valid() && buffer.Valid() && check.Valid() && (check.losses == 0 ==> check.Faithful())
      && strip.sent == buffer.got && buffer.sent == check.got
      && (!stalled ==> NeverInReset())
    }

    /** Without back-pressure at the output no token meets the checker in its RESET state. */
    ghost predicate NeverInReset()
      reads this, strip, buffer, check
    {
      && check.losses == 0
      && (check.state == CrcChecker.Reset ==> !buffer.full)
      && (buffer.full && buffer.token.last ==> strip.state == Preamble.Seek)
    }

    constructor ()
      ensures Valid() && strip.got == check.sent == [] && !stalled && !buffer.full
      ensures fresh(strip) && fresh(buffer) && fresh(check) && fresh(check.crc)
    {
      strip := new Preamble.Checker();
      buffer := new Buffer();
      check := new CrcChecker.Checker();
      stalled := false;
    }

    predicate SinkReady(ready: bool)
      reads this, strip, buffer, check
    {
      strip.SinkReady(buffer.SinkReady(check.SinkReady(buffer.full, ready)))
    }

    /** The input stalls only when the output does. */
    lemma NeverStalls()
      ensures SinkReady(true)
    {}

    /** The buffer accepts a token. */
    predicate Moves(ready: bool)
      reads this, buffer, check
    {
      buffer.SinkReady(check.SinkReady(buffer.full, ready))
    }

    /** The CRC checker takes the buffer's token. */
    predicate Checks(ready: bool)
      reads this, buffer, check
    {
      buffer.full && check.SinkReady(true, ready)
    }

    /** One clock, with the registers of all stages. */
    method Clock(v: bool, t: Token, ready: bool)
      requires Valid()
      modifies this, strip, buffer, check, check.crc
      ensures Valid()
      ensures strip.state == if v && old(strip.state) == Preamble.Seek && !t.last && t.data == Preamble.SFD
        then Preamble.Forward
        else if v && old(Moves(ready)) && old(strip.state) == Preamble.Forward && t.last then Preamble.Seek
        else old(strip.state)
      ensures buffer.full == if old(Moves(ready)) then v && old(strip.state) == Preamble.Forward else true
      ensures buffer.token == if old(Moves(ready)) then t else old(buffer.token)
      ensures check.losses == old(check.losses) +
        if old(check.state) == CrcChecker.Reset && old(Checks(ready)) then 1 else 0
      ensures old(check.state) == CrcChecker.Reset ==> check.state == CrcChecker.Idle
      ensures check.state == CrcChecker.Reset <==>
        old(check.state) == CrcChecker.Copy && old(Checks(ready)) && old(buffer.token.last)
      ensures check.base == if check.state == CrcChecker.Reset || old(check.state) == CrcChecker.Reset
        then Parse(check.sent) else old(check.base)
      ensures check.state == CrcChecker.Reset ==>
        check.base == CrcChecker.Finished(old(check.base),
                                          Packet(old(check.cur) + [old(buffer.token.data)], old(buffer.token.error)))
      ensures check.cur == if check.state == CrcChecker.Reset || old(check.state) == CrcChecker.Reset then []
        else old(check.cur) + if old(Checks(ready)) then [old(buffer.token.data)] else []
      ensures strip.got == old(strip.got) + if v && old(SinkReady(ready)) then [t] else []
      ensures check.sent == old(check.sent) +
        if old(check.SourceValid(buffer.full)) && ready then [old(check.SourceToken(buffer.token))] else []
      ensures stalled == (old(stalled) || !ready)
      ensures ready && buffer.full ==> v
    {
      hide Preamble.Checker.Valid, Buffer.Valid, CrcChecker.Checker.Valid, CrcChecker.Checker.Faithful,
        CrcChecker.Finished, CrcChecker.Checker.SourceToken, Parse;
      var checkReady := check.SinkReady(buffer.full, ready);
      var bufferReady := buffer.SinkReady(checkReady);
      var forwarded := strip.SourceValid(v);
      check.Tick(buffer.full, buffer.token, ready);
      buffer.Tick(forwarded, t, checkReady);
      strip.Tick(v, t, bufferReady);
      stalled := stalled || !ready;
    }

    method Tick(v: bool, t: Token, ready: bool)
      requires Valid()
      modifies this, strip, buffer, check, check.crc
      ensures Valid()
      ensures strip.got == old(strip.got) + if v && old(SinkReady(ready)) then [t] else []
      ensures check.sent == old(check.sent) +
        if old(check.SourceValid(buffer.full)) && ready then [old(check.SourceToken(buffer.token))] else []
      ensures stalled == (old(stalled) || !ready)
      ensures ready && buffer.full ==> v
    {
      Clock(v, t, ready);
    }
  }

  // ----- What back-pressure can do

  function ByteAt(f: seq<byte>, k: nat): Token
    requires k < |f|
  {
    Token(f[k], k == |f| - 1, false)
  }

  /** Byte `k - 1` of a frame is in the buffer, and the CRC checker has taken those before. */
  ghost predicate Feeding(r: Receiver, before: seq<Packet>, stale: seq<byte>, f: seq<byte>, k: nat, lost: bool)
    requires 0 < k <= |f|
    reads r, r.strip, r.buffer, r.check
  {
    && r.strip.state == (if k == |f| then Preamble.Seek else Preamble.Forward)
    && r.buffer.full && r.buffer.token == ByteAt(f, k - 1) && r.check.state != CrcChecker.Reset
    && CrcChecker.Taking(before, stale, f, k - 1, lost, r.check.state, r.check.base, r.check.cur)
  }

  /** The rest of a frame arrives without stalls. */
  method Feed(r: Receiver, ghost before: seq<Packet>, ghost stale: seq<byte>, f: seq<byte>, from: nat, ghost lost: bool)
    requires r.Valid() && 0 < from <= |f| && Feeding(r, before, stale, f, from, lost)
    modifies r, r.strip, r.buffer, r.check, r.check.crc
    ensures r.Valid() && Feeding(r, before, stale, f, |f|, lost) && r.check.losses == old(r.check.losses)
  {
    hide Receiver.Valid, CrcChecker.Taking, CrcChecker.Finished, Parse;
    for k := from to |f|
      invariant r.Valid() && Feeding(r, before, stale, f, k, lost) && r.check.losses == old(r.check.losses)
    {
      CrcChecker.TakingNext(before, stale, f, k - 1, lost, r.check.state, r.check.base, r.check.cur);
      r.Clock(true, ByteAt(f, k), true);
      CheckStates(r);
      CrcChecker.TakingState(before, stale, f, k, lost, r.check.state, r.check.base, r.check.cur);
    }
  }

  /** While the CRC checker cannot move, a preamble passes without leaving a trace. */
  method FeedPreamble(r: Receiver, ready: bool)
    requires r.Valid() && r.strip.state == Preamble.Seek && r.check.state != CrcChecker.Reset
    requires !r.buffer.full || (!ready && |r.check.cur| >= 4)
    modifies r, r.strip, r.buffer, r.check, r.check.crc
    ensures r.Valid() && r.strip.state == Preamble.Forward
    ensures r.buffer.full == old(r.buffer.full) && (r.buffer.full ==> r.buffer.token == old(r.buffer.token))
    ensures r.check.state == old(r.check.state) && r.check.base == old(r.check.base) && r.check.cur == old(r.check.cur)
    ensures r.check.losses == old(r.check.losses) && (old(!r.buffer.full) ==> r.check.sent == old(r.check.sent))
  {
    hide Receiver.Valid, CrcChecker.Finished, Parse;
    for k := 0 to 8
      invariant r.Valid() && r.strip.state == if k < 8 then Preamble.Seek else Preamble.Forward
      invariant r.buffer.full == old(r.buffer.full) && (r.buffer.full ==> r.buffer.token == old(r.buffer.token))
      invariant r.check.state == old(r.check.state) && r.check.base == old(r.check.base)
      invariant r.check.cur == old(r.check.cur)
      invariant r.check.losses == old(r.check.losses) && (old(!r.buffer.full) ==> r.check.sent == old(r.check.sent))
    {
      CheckStates(r);
      r.Clock(true, Token(Preamble.PREAMBLE_BYTES[k], false, false), ready);
      CheckStates(r);
    }
  }

  /** The CRC checker's state follows from what it has taken. */
  lemma CheckStates(r: Receiver)
    requires r.Valid()
    ensures r.check.state == CrcChecker.Copy <==> r.check.cur != []
    ensures r.check.state == CrcChecker.Copy && |r.check.cur| >= 4 ==> r.check.Full()
  {
    hide Parse, Crc;
  }

  /** Two valid frames in a row, the output stalling for eight cycles on the last byte of
      the first: the preamble of the second passes meanwhile, so its first byte meets the
      CRC checker in its RESET state. The first frame is delivered, the second is
      delivered with its first byte replaced or missing, and flagged. */
  method StalledLastByte(r: Receiver, f: seq<byte>, g: seq<byte>) returns (ghost stale: seq<byte>)
    requires r.Valid() && r.strip.state == Preamble.Seek && !r.buffer.full && r.check.state == CrcChecker.Idle
    requires Parse(r.check.sent).cur == []
    requires |f| > 4 && |g| > 5 && Crc(INIT, f) == CHECK && Crc(INIT, g) == CHECK
    modifies r, r.strip, r.buffer, r.check, r.check.crc
    ensures r.Valid() && r.check.losses == old(r.check.losses) + 1
    ensures Parse(r.check.sent).packets ==
      old(Parse(r.check.sent).packets) + [Packet(f[..|f| - 4], false)] + [Packet(stale + g[1..|g| - 4], true)]
    ensures |stale| <= 1
  {
    hide Receiver.Valid, CrcChecker.Taking, CrcChecker.Finished, CrcChecker.Outcome, Parse, Crc;
    ghost var before := Parse(r.check.sent).packets;
    FeedPreamble(r, true);
    FrameBegins(r, f);
    r.Clock(true, ByteAt(f, 0), true);
    CheckStates(r);
    Feed(r, before, [], f, 1, false);
    FourTaken(r, before, [], f, false);
    FeedPreamble(r, false);
    CrcChecker.TakingLast(before, [], f, false, r.check.base, r.check.cur);
    r.Clock(true, ByteAt(g, 0), true);
    before := before + CrcChecker.Outcome([], f, false);
    stale := if r.check.Full() then [r.check.fifo[0]] else [];
    ResetBegins(r, before, stale, g);
    r.Clock(true, ByteAt(g, 1), true);
    Feed(r, before, stale, g, 2, true);
    FourTaken(r, before, stale, g, true);
    CrcChecker.TakingLast(before, stale, g, true, r.check.base, r.check.cur);
    r.Clock(false, ByteAt(g, 0), true);
    Outcomes(stale, f, g);
  }

  lemma Outcomes(stale: seq<byte>, f: seq<byte>, g: seq<byte>)
    requires |f| > 4 && |g| > 5
    ensures CrcChecker.Outcome([], f, false) == [Packet(f[..|f| - 4], false)]
    ensures CrcChecker.Outcome(stale, g, true) == [Packet(stale + g[1..|g| - 4], true)]
  {}

  lemma FrameBegins(r: Receiver, f: seq<byte>)
    requires r.Valid() && r.check.state == CrcChecker.Idle && Parse(r.check.sent).cur == []
    ensures CrcChecker.Taking(Parse(r.check.sent).packets, [], f, 0, false, CrcChecker.Idle, r.check.base, r.check.cur)
    ensures r.check.cur + [] == r.check.cur == []
  {
    hide CrcChecker.Taking;
    CrcChecker.StartTaking(r.check, f, []);
  }

  lemma FourTaken(r: Receiver, before: seq<Packet>, stale: seq<byte>, f: seq<byte>, lost: bool)
    requires r.Valid() && |f| > (if lost then 5 else 4) && Feeding(r, before, stale, f, |f|, lost)
    ensures r.check.state == CrcChecker.Copy && |r.check.cur| >= 4 && r.check.Full()
  {
    hide CrcChecker.Taking, Receiver.Valid;
    CrcChecker.TakingCount(before, stale, f, |f| - 1, lost, r.check.state, r.check.base, r.check.cur);
    CheckStates(r);
  }

  /** What the byte taken in the RESET state does to the output. */
  lemma ResetBegins(r: Receiver, before: seq<Packet>, stale: seq<byte>, g: seq<byte>)
    requires r.Valid() && r.check.state == CrcChecker.Reset && Parse(r.check.sent) == Log(before, [])
    requires |g| > 1 && r.buffer.token == ByteAt(g, 0)
    requires stale == if r.check.Full() then [r.check.fifo[0]] else []
    ensures Parse(r.check.sent + if r.check.Full() then [r.check.SourceToken(r.buffer.token)] else []) ==
      Log(before, stale)
    ensures CrcChecker.Taking(before, stale, g, 1, true, CrcChecker.Idle, Log(before, stale), [])
  {
    hide CrcChecker.Taking, Parse, Crc;
    CrcChecker.TakingReset(before, stale, g);
    assert r.check.sent + [] == r.check.sent;
    if r.check.Full() {
      CrcChecker.StaleToken(r.check, r.buffer.token);
    }
  }

  /** The two pipelines back to back. The link is a queue whose two ends the
      environment may stall at will, as it may stall the input and the output. */
  class Loopback {
    const tx: Transmitter
    const rx: Receiver
    var link: seq<Token>

    ghost predicate Valid()
      reads this, tx, tx.pad, tx.buffer, tx.crc, tx.crc.crc, tx.preamble, tx.gap
      reads rx, rx.strip, rx.buffer, rx.check, rx.check.crc
    {
      && tx.buffer != rx.buffer && tx.crc.crc != rx.check.crc
      && tx.Valid() && rx.Valid()
      && tx.gap.sent == rx.strip.got + link
    }

    constructor ()
      ensures Valid() && tx.pad.got == rx.check.sent == [] && !rx.stalled
    {
      tx := new Transmitter();
      rx := new Receiver();
      link := [];
    }

    /** One clock edge: `v`/`t` at the input, `push` and `pop` the link's consent at its two ends, `ready` at the
        output. */
    method Tick(v: bool, t: Token, push: bool, pop: bool, ready: bool)
      requires Valid()
      modifies this, tx.pad, tx.buffer, tx.crc, tx.crc.crc, tx.preamble, tx.gap
      modifies rx, rx.strip, rx.buffer, rx.check, rx.check.crc
      ensures Valid()
      ensures tx.pad.got == old(tx.pad.got) + if v && old(tx.SinkReady(push)) then [t] else []
      ensures rx.check.sent == old(rx.check.sent) +
        if old(rx.check.SourceValid(rx.buffer.full)) && ready
        then [old(rx.check.SourceToken(rx.buffer.token))] else []
      ensures rx.stalled == (old(rx.stalled) || !ready)
      ensures !v || !old(tx.SinkReady(push)) ==>
        tx.Control() == old(tx.Control()).Next(old(tx.buffer.token.last), push)
      ensures ready && rx.buffer.full ==> pop && old(link) != []
      ensures |link| == |old(link)| - (if pop && old(link) != [] && old(rx.SinkReady(ready)) then 1 else 0) +
        if old(tx.SourceValid()) && push then 1 else 0
    {
      hide Stages.Next, Transmitter.Control, Transmitter.Valid, Receiver.Valid, Transmitter.SourceToken,
        Transmitter.SourceValid,
        Transmitter.SinkReady, Receiver.SinkReady, CrcChecker.Checker.SourceToken;
      var offered := pop && link != [];
      var head := if offered then link[0] else Token(0, false, false);
      var taken := offered && rx.SinkReady(ready);
      var sent := tx.SourceValid() && push;
      var token := SentToken();
      rx.Tick(offered, head, ready);
      tx.Tick(v, t, push);
      if taken {
        link := link[1..];
      }
      if sent {
        link := link + [token];
      }
    }

    /** A bound on the cycles until every packet accepted has been delivered, when nothing stalls. */
    ghost function Left(): nat
      requires Valid()
      reads this, tx, tx.pad, tx.buffer, tx.crc, tx.crc.crc, tx.preamble, tx.gap
      reads rx, rx.strip, rx.buffer, rx.check, rx.check.crc
    {
      tx.ControlInRange();
      3 * tx.Control().Rank() + 2 * |link| + if rx.buffer.full then 1 else 0
    }

    /** A cycle without input and without stalls brings the packets accepted closer to delivery. */
    method Settle()
      requires Valid() && Parse(tx.pad.got).cur == []
      modifies this, tx.pad, tx.buffer, tx.crc, tx.crc.crc, tx.preamble, tx.gap
      modifies rx, rx.strip, rx.buffer, rx.check, rx.check.crc
      ensures Valid() && tx.pad.got == old(tx.pad.got) && rx.stalled == old(rx.stalled)
      ensures !old(Quiet()) ==> Left() < old(Left())
    {
      hide Transmitter.Valid, Receiver.Valid, Receiver.SinkReady, Stages.Rank, Stages.Next, Stages.Quiet, Parse,
        Transmitter.SourceValid;
      tx.ControlInRange();
      tx.QuietSilent();
      rx.NeverStalls();
      if tx.pad.state.Idle? && !tx.buffer.full {
        tx.NotStuck();
      }
      ghost var before, last := tx.Control(), tx.buffer.token.last;
      Tick(false, Token(0, false, false), true, true, true);
      tx.ControlInRange();
      before.Falls(last);
    }

    /** A token offered in cycles without stalls is taken, from every reachable state. */
    method Offer(t: Token)
      requires Valid()
      modifies this, tx.pad, tx.buffer, tx.crc, tx.crc.crc, tx.preamble, tx.gap
      modifies rx, rx.strip, rx.buffer, rx.check, rx.check.crc
      ensures Valid() && tx.pad.got == old(tx.pad.got) + [t] && rx.stalled == old(rx.stalled)
    {
      hide Transmitter.Valid, Receiver.Valid, Stages.Rank, Stages.Next, Stages.Quiet, Stages.InRange, Parse,
        Transmitter.SinkReady, Transmitter.SourceValid, Receiver.SinkReady;
      var taken := false;
      tx.ControlInRange();
      while !taken
        invariant Valid() && rx.stalled == old(rx.stalled) && tx.Control().InRange()
        invariant tx.pad.got == old(tx.pad.got) + if taken then [t] else []
        decreases !taken, tx.Control().Rank()
      {
        taken := Ready();
        ghost var before, last := tx.Control(), tx.buffer.token.last;
        Tick(true, t, true, true, true);
        tx.ControlInRange();
        if !taken {
          before.Falls(last);
        }
      }
    }

    method Ready() returns (ready: bool)
      requires Valid()
      ensures ready == tx.SinkReady(true)
      ensures !ready ==> (tx.pad.state.Padding? || tx.buffer.full) && !tx.Control().Quiet()
    {
      hide Transmitter.Valid, Transmitter.SinkReady;
      CrcValid();
      tx.Refuses(true);
      ready := tx.SinkReady(true);
    }

    lemma CrcValid()
      requires Valid()
      ensures tx.crc.Valid()
    {}

    function SentToken(): Token
      requires Valid()
      reads this, tx, tx.pad, tx.buffer, tx.crc, tx.crc.crc, tx.preamble, tx.gap
      reads rx, rx.strip, rx.buffer, rx.check, rx.check.crc
    {
      tx.SourceToken()
    }

    /** No packet is on its way. */
    predicate Quiet()
      reads this, tx, tx.pad, tx.buffer, tx.crc, tx.preamble, tx.gap, rx, rx.buffer
    {
      tx.Quiet() && link == [] && !rx.buffer.full
    }
  }

  // ----- The round trip

  lemma PrefixPackets(a: seq<Token>, b: seq<Token>)
    requires a <= b
    ensures Parse(a).packets <= Parse(b).packets
  {
    assert b == a + b[|a|..];
    ParsePrefix(a, b[|a|..]);
  }

  /** The transmit side: what the link has seen is a prefix of what the input calls for. */
  lemma TransmitPrefix(m: Loopback)
    requires m.Valid()
    ensures Parse(m.tx.gap.sent).packets <= TransmitAll(Parse(m.tx.pad.got).packets)
    ensures m.Quiet() ==> Parse(m.tx.gap.sent).packets == TransmitAll(Parse(m.tx.pad.got).packets)
  {
    hide Parse;
    Padding.SentPackets(m.tx.pad);
    CrcInserter.SentPackets(m.tx.crc);
    Preamble.SentPackets(m.tx.preamble);
    PrefixPackets(m.tx.crc.got, m.tx.pad.sent);
    assert m.Quiet() ==> m.tx.pad.sent == m.tx.crc.got + [] == m.tx.crc.got;
    MapsKeepPrefix(Parse(m.tx.crc.got).packets, Padding.PadAll(Parse(m.tx.pad.got).packets));
  }

  lemma MapsKeepPrefix(a: seq<Packet>, b: seq<Packet>)
    requires a <= b
    ensures CrcInserter.InsertAll(a) <= CrcInserter.InsertAll(b)
    ensures Preamble.PrefixAll(a) <= Preamble.PrefixAll(b)
  {}

  /** The receive side: every complete packet the receiver has taken from the link has been stripped. */
  lemma ReceivePrefix(m: Loopback)
    requires m.Valid()
    ensures Parse(m.rx.check.got).packets <= Preamble.StripAll(Parse(m.rx.strip.got).packets)
    ensures m.Quiet() ==> Parse(m.rx.check.got).packets == Preamble.StripAll(Parse(m.tx.gap.sent).packets)
    ensures Parse(m.rx.strip.got).packets <= Parse(m.tx.gap.sent).packets
    ensures m.rx.strip.errors == Preamble.Rejected(Parse(m.rx.strip.got).packets)
  {
    hide Parse, Preamble.StripAll, Preamble.Rejected, Preamble.Checker.Valid, CrcChecker.Checker.Valid;
    Preamble.ForwardedPackets(m.rx.strip);
    PrefixPackets(m.rx.check.got, m.rx.strip.sent);
    PrefixPackets(m.rx.strip.got, m.tx.gap.sent);
    if m.Quiet() {
      assert m.tx.gap.sent == m.rx.strip.got + [] == m.rx.strip.got;
      assert m.rx.strip.sent == m.rx.check.got + [] == m.rx.check.got;
    }
  }

  lemma StripTransmitted(ps: seq<Packet>, sent: seq<Packet>)
    requires sent <= TransmitAll(ps) && forall p | p in ps :: p.bytes != []
    ensures Preamble.StripAll(sent) == CrcInserter.InsertAll(Padding.PadAll(ps))[..|sent|]
    ensures Preamble.Rejected(sent) == 0
  {
    hide Padding.PadAll, WithFcs, Preamble.StripAll, Preamble.Rejected;
    var framed := CrcInserter.InsertAll(Padding.PadAll(ps));
    PrefixesOf(framed, sent);
    forall p | p in framed[..|sent|] ensures p.bytes != [] {}
    Preamble.StripPrefixAll(framed[..|sent|]);
  }

  lemma PrefixesOf(framed: seq<Packet>, sent: seq<Packet>)
    requires sent <= Preamble.PrefixAll(framed)
    ensures sent == Preamble.PrefixAll(framed[..|sent|])
  {}

  /** The CRC checker turns the first framed packets into the first packets delivered. */
  lemma CheckedPackets(c: CrcChecker.Checker, accepted: seq<Packet>)
    requires c.Valid() && c.Faithful()
    requires forall p | p in accepted :: p.bytes != []
    requires Parse(c.got).packets <= CrcInserter.InsertAll(Padding.PadAll(accepted))
    ensures Parse(c.sent).packets == DeliverAll(accepted)[..|Parse(c.got).packets|]
  {
    hide Parse, CrcChecker.Cut, CrcChecker.CheckAll, Crc;
    var n := |Parse(c.got).packets|;
    var framed := CrcInserter.InsertAll(Padding.PadAll(accepted[..n]));
    assert Parse(c.got).packets == framed by {
      hide Padding.PadCounted, CrcInserter.Insert;
    }
    PaddedLength(accepted[..n]);
    forall p | p in framed ensures |p.bytes| > 1 {}
    CrcChecker.CutIsParse(c.got);
    CheckInsertAll(accepted[..n]);
    CrcChecker.SentPackets(c);
    assert DeliverAll(accepted[..n]) == DeliverAll(accepted)[..n];
  }

  /** In every reachable state the packets delivered are the first packets
      accepted, padded and without error, in order; none is missing once the
      pipelines are quiet. This holds in every run in which no token met the
      checker in its RESET state. */
  lemma RoundTrip(m: Loopback)
    requires m.Valid() && m.rx.check.losses == 0
    ensures var accepted, out := Parse(m.tx.pad.got).packets, Parse(m.rx.check.sent).packets;
      && out <= DeliverAll(accepted)
      && m.rx.strip.errors == 0
      && (m.Quiet() ==> out == DeliverAll(accepted))
  {
    hide Parse, Transmitter.Valid, CrcChecker.Checker.Valid, CrcChecker.Checker.Faithful,
      CrcInserter.Insert, Padding.PadCounted, Delivered, Preamble.StripAll, Preamble.Rejected;
    var accepted := Parse(m.tx.pad.got).packets;
    PacketsNotEmpty(m.tx.pad.got);
    TransmitPrefix(m);
    ReceivePrefix(m);
    StripTransmitted(accepted, Parse(m.rx.strip.got).packets);
    CheckedPackets(m.rx.check, accepted);
    if m.Quiet() {
      StripTransmitted(accepted, Parse(m.tx.gap.sent).packets);
    }
  }

  /** With an output that is always ready the condition holds by itself. */
  lemma RoundTripWithoutBackpressure(m: Loopback)
    requires m.Valid() && !m.rx.stalled
    requires forall p | p in Parse(m.tx.pad.got).packets :: Padding.CountsRight(|p.bytes|)
    ensures var accepted, out := Parse(m.tx.pad.got).packets, Parse(m.rx.check.sent).packets;
      && |out| <= |accepted|
      && (forall i | 0 <= i < |out| :: out[i] == Packet(Padding.PadTo(accepted[i]).bytes, false))
      && (m.Quiet() ==> |out| == |accepted|)
  {
    RoundTrip(m);
    PacketsNotEmpty(m.tx.pad.got);
    var accepted, out := Parse(m.tx.pad.got).packets, Parse(m.rx.check.sent).packets;
    forall i | 0 <= i < |out| ensures out[i] == Packet(Padding.PadTo(accepted[i]).bytes, false) {
      DeliveredIsPadded(accepted[i]);
    }
  }

  /** From every reachable state between packets at the input, a bounded number
      of cycles without stalls delivers everything accepted so far. */
  method Drain(m: Loopback)
    requires m.Valid() && Parse(m.tx.pad.got).cur == []
    modifies m, m.tx.pad, m.tx.buffer, m.tx.crc, m.tx.crc.crc, m.tx.preamble, m.tx.gap
    modifies m.rx, m.rx.strip, m.rx.buffer, m.rx.check, m.rx.check.crc
    ensures m.Valid() && m.Quiet() && m.tx.pad.got == old(m.tx.pad.got)
    ensures !old(m.rx.stalled) ==>
      Parse(m.rx.check.sent).packets == DeliverAll(Parse(old(m.tx.pad.got)).packets)
  {
    hide Loopback.Valid, Loopback.Quiet, Loopback.Left, Parse;
    while !m.Quiet()
      invariant m.Valid() && m.tx.pad.got == old(m.tx.pad.got) && m.rx.stalled == old(m.rx.stalled)
      decreases m.Left()
    {
      m.Settle();
    }
    if !m.rx.stalled {
      NotStalledClean(m);
      RoundTrip(m);
    }
  }

  /** A packet offered byte by byte in cycles without stalls, to an output that has never
      stalled, comes out: unchanged and without error, with zeros up to 60 bytes, after
      everything accepted before it. */
  method SendPacket(m: Loopback, p: seq<byte>)
    requires m.Valid() && Parse(m.tx.pad.got).cur == [] && !m.rx.stalled && 0 < |p| <= 0x1_0000
    modifies m, m.tx.pad, m.tx.buffer, m.tx.crc, m.tx.crc.crc, m.tx.preamble, m.tx.gap
    modifies m.rx, m.rx.strip, m.rx.buffer, m.rx.check, m.rx.check.crc
    ensures m.Valid() && m.Quiet()
    ensures Parse(m.rx.check.sent).packets == DeliverAll(Parse(old(m.tx.pad.got)).packets) +
      [Packet(p + Zeros(if |p| < 60 then 60 - |p| else 0), false)]
  {
    hide Loopback.Valid, Loopback.Quiet, Parse, DeliverAll, Delivered;
    ghost var before := Parse(m.tx.pad.got).packets;
    for k := 0 to |p|
      invariant m.Valid() && !m.rx.stalled
      invariant Parse(m.tx.pad.got) == if k < |p| then Log(before, p[..k]) else Log(before + [Packet(p, false)], [])
    {
      ParseSnoc(m.tx.pad.got, ByteAt(p, k));
      assert p[..k] + [p[k]] == p[..k + 1];
      assert p[..|p|] == p;
      m.Offer(ByteAt(p, k));
    }
    Drain(m);
    DeliveredLast(before, p);
  }

  lemma DeliveredLast(before: seq<Packet>, p: seq<byte>)
    requires 0 < |p| <= 0x1_0000
    ensures DeliverAll(before + [Packet(p, false)]) ==
      DeliverAll(before) + [Packet(p + Zeros(if |p| < 60 then 60 - |p| else 0), false)]
  {
    assert p + Zeros(0) == p;
  }

  lemma NotStalledClean(m: Loopback)
    requires m.Valid() && !m.rx.stalled
    ensures m.rx.check.losses == 0
  {}
}
