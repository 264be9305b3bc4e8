/** The CRC checker: holds back four bytes, strips them at the end of the
    packet and reports whether they were the right check sequence. */
module CrcChecker {
  import opened Bits
  import opened Crc32
  import opened Streams

  /** How the checker cuts its input: a last flag on the first byte of a packet is not seen. */
  function PushCut(l: Log, t: Token): Log {
    var bytes := l.cur + [t.data];
    if t.last && l.cur != [] then Log(l.packets + [Packet(bytes, t.error)], []) else Log(l.packets, bytes)
  }

  function Cut(ts: seq<Token>): Log {
    if ts == [] then Log([], []) else PushCut(Cut(ts[..|ts| - 1]), ts[|ts| - 1])
  }

  lemma CutSnoc(ts: seq<Token>, t: Token)
    ensures Cut(ts + [t]) == PushCut(Cut(ts), t)
  {
    assert (ts + [t])[..|ts|] == ts;
  }

  /** The cut is the ordinary one exactly as long as no packet is a single byte. */
  lemma {:induction false} CutIsParse(ts: seq<Token>)
    ensures Cut(ts) == Parse(ts) <==> forall p | p in Parse(ts).packets :: |p.bytes| > 1
  {
    if ts != [] {
      var before, t := ts[..|ts| - 1], ts[|ts| - 1];
      CutIsParse(before);
      CutShort(before);
      if t.last {
        assert Parse(ts).packets[..|Parse(before).packets|] == Parse(before).packets;
        assert forall p | p in Parse(before).packets :: p in Parse(ts).packets;
      }
      if forall p | p in Parse(before).packets :: |p.bytes| > 1 {
        assert t.last ==> forall p | p in Parse(ts).packets ::
          p in Parse(before).packets || p == Packet(Parse(before).cur + [t.data], t.error);
      } else {
        CutShort(ts);
      }
    }
  }

  /** Once a one-byte packet has been merged, the cut has fewer packets for ever. */
  lemma {:induction false} CutShort(ts: seq<Token>)
    ensures |Cut(ts).packets| <= |Parse(ts).packets|
    ensures (exists p :: p in Parse(ts).packets && |p.bytes| <= 1) ==> |Cut(ts).packets| < |Parse(ts).packets|
  {
    if ts != [] {
      CutShort(ts[..|ts| - 1]);
    }
  }

  /** All but the last four bytes. */
  function Head(bytes: seq<byte>): seq<byte> {
    if |bytes| <= 4 then [] else bytes[..|bytes| - 4]
  }

  /** The last four bytes, or fewer. */
  function Tail(bytes: seq<byte>): seq<byte> {
    if |bytes| <= 4 then bytes else bytes[|bytes| - 4..]
  }

  /** The verdict: the packet without its check sequence, flagged unless that was the right one. */
  function Checked(p: Packet): Packet {
    Packet(Head(p.bytes), p.error || Crc(INIT, p.bytes) != CHECK)
  }

  /** Packets that hold no more than a check sequence disappear. */
  function CheckAll(ps: seq<Packet>): seq<Packet> {
    if ps == [] then [] else
      var p := ps[|ps| - 1];
      CheckAll(ps[..|ps| - 1]) + if |p.bytes| > 4 then [Checked(p)] else []
  }

  lemma CheckAllSnoc(ps: seq<Packet>, p: Packet)
    ensures CheckAll(ps + [p]) == CheckAll(ps) + if |p.bytes| > 4 then [Checked(p)] else []
  {
    assert (ps + [p])[..|ps|] == ps;
  }

  /** The packet in progress: `cur` has been taken, its head has been sent on
      top of `base`, its tail is in the FIFO, and the register has seen all of it. */
  ghost predicate Holding(base: Log, cur: seq<byte>, o: Log, fifo: seq<byte>, reg: seq<bool>) {
    && o == Log(base.packets, base.cur + Head(cur))
    && fifo == Tail(cur)
    && reg == Crc(INIT, cur)
  }

  lemma HoldKeeps(base: Log, cur: seq<byte>, o: Log, fifo: seq<byte>, reg: seq<bool>, t: Token)
    requires Holding(base, cur, o, fifo, reg)
    requires |fifo| < 4 || !t.last
    ensures var o' := if |fifo| == 4 then Push(o, Token(fifo[0], false, t.error)) else o;
      var fifo' := (if |fifo| == 4 then fifo[1..] else fifo) + [t.data];
      Holding(base, cur + [t.data], o', fifo', Crc(reg, [t.data])) && |fifo'| <= 4
  {
    CrcConcat(INIT, cur, [t.data]);
    HeadTailStep(cur, t.data);
    if |fifo| == 4 {
      assert base.cur + Head(cur) + [fifo[0]] == base.cur + (Head(cur) + [fifo[0]]);
    }
  }

  lemma HeadTailStep(cur: seq<byte>, d: byte)
    ensures Tail(cur + [d]) == (if |cur| >= 4 then Tail(cur)[1..] else Tail(cur)) + [d]
    ensures Head(cur + [d]) == if |cur| >= 4 then Head(cur) + [Tail(cur)[0]] else Head(cur)
    ensures |Tail(cur)| == 4 <==> |cur| >= 4
  {}

  /** The last byte: the packet sent is the verdict on the packet taken. */
  lemma HoldFinishes(base: Log, cur: seq<byte>, o: Log, fifo: seq<byte>, reg: seq<bool>, t: Token)
    requires Holding(base, cur, o, fifo, reg) && t.last
    ensures var error := t.error || Crc(reg, [t.data]) != CHECK;
      var o' := if |fifo| == 4 then Push(o, Token(fifo[0], true, error)) else o;
      o' == Finished(base, Packet(cur + [t.data], t.error))
  {
    CrcConcat(INIT, cur, [t.data]);
    HeadTailStep(cur, t.data);
    if |fifo| == 4 {
      assert base.cur + Head(cur) + [fifo[0]] == base.cur + (Head(cur) + [fifo[0]]);
    } else {
      assert base.cur + Head(cur) == base.cur;
    }
  }

  /** What a finished packet adds to the output. */
  function Finished(base: Log, p: Packet): Log {
    if |p.bytes| > 4 then
      Log(base.packets + [Packet(base.cur + Checked(p).bytes, Checked(p).error)], [])
    else base
  }

  lemma FinishFaithful(k: Log, t: Token)
    requires t.last && k.cur != []
    ensures var base, k' := Log(CheckAll(k.packets), []), PushCut(k, t);
      k'.cur == [] && Finished(base, Packet(k.cur + [t.data], t.error)) == Log(CheckAll(k'.packets), [])
  {
    var p := Packet(k.cur + [t.data], t.error);
    CheckAllSnoc(k.packets, p);
    assert [] + Checked(p).bytes == Checked(p).bytes;
  }

  /** Every error burst within 32 consecutive bits of a valid frame is flagged. */
  lemma BurstFlagged(sent: seq<byte>, received: seq<byte>, lo: nat)
    requires Crc(INIT, sent) == CHECK && |received| == |sent| && received != sent
    requires forall i | 0 <= i < |FrameBits(sent)| && i < |FrameBits(received)| &&
      FrameBits(sent)[i] != FrameBits(received)[i] :: lo <= i < lo + 32
    ensures Checked(Packet(received, false)).error
  {
    var x, y := FrameBits(sent), FrameBits(received);
    FrameBitsLength(sent);
    FrameBitsLength(received);
    if x == y {
      FrameBitsInjective(sent, received);
    } else {
      var i :| 0 <= i < |x| && x[i] != y[i];
      WindowDetected(INIT, x, y, lo, if lo + 32 <= |x| then lo + 32 else |x|);
    }
  }

  datatype State = Reset | Idle | Copy

  class Checker {
    const crc: Crc32Register
    var state: State
    var fifo: seq<byte>
    ghost var got: seq<Token>
    ghost var sent: seq<Token>
    ghost var base: Log         // what had been sent when the packet in progress began
    ghost var cur: seq<byte>    // the packet in progress, as far as FIFO and register have seen it
    ghost var losses: nat       // tokens taken in the RESET state

    /** Each packet is checked and stripped on its own; as long as no token was
        taken in the RESET state, the output is the verdict on every packet of the input. */
    ghost predicate Valid()
      reads this, crc
    {
      && crc.Valid()
      && |fifo| <= 4
      && match state
         case Reset => cur == [] && Parse(sent) == base
         case Idle => cur == [] && Holding(base, cur, Parse(sent), fifo, crc.reg)
         case Copy => cur != [] && Holding(base, cur, Parse(sent), fifo, crc.reg)
    }

    ghost predicate Faithful()
      reads this
    {
      cur == Cut(got).cur && base == Log(CheckAll(Cut(got).packets), [])
    }

    constructor ()
      ensures Valid() && Faithful() && losses == 0 && got == sent == [] && state == Reset && fifo == [] && fresh(crc)
    {
      crc := new Crc32Register();
      state, fifo, got, sent, base, cur, losses := Reset, [], [], [], Log([], []), [], 0;
    }

    predicate Full()
      reads this
    {
      |fifo| == 4
    }

    predicate SourceValid(v: bool)
      reads this
    {
      v && Full()
    }

    predicate SinkReady(v: bool, ready: bool)
      reads this
    {
      v && (!Full() || (SourceValid(v) && ready))
    }

    /** The oldest byte held; the error flag compares the register after the byte at the sink. */
    ghost function SourceToken(t: Token): Token
      requires Valid()
      reads this, crc
    {
      Token(if Full() then fifo[0] else 0, t.last, t.error || Crc(crc.reg, [t.data]) != CHECK)
    }

    method Tick(v: bool, t: Token, ready: bool)
      requires Valid() && (losses == 0 ==> Faithful())
      modifies this, crc
      ensures Valid() && (losses == 0 ==> Faithful())
      ensures got == old(got) + if v && old(SinkReady(v, ready)) then [t] else []
      ensures sent == old(sent) + if old(SourceValid(v)) && ready then [old(SourceToken(t))] else []
      ensures losses == old(losses) + if old(state) == Reset && v && old(SinkReady(v, ready)) then 1 else 0
      ensures old(state) == Reset ==> state == Idle && fifo == [] && crc.reg == INIT
      ensures state == Reset <==> old(state) == Copy && v && old(SinkReady(v, ready)) && t.last
      ensures base == if state == Reset || old(state) == Reset then Parse(sent) else old(base)
      ensures state == Reset ==> base == Finished(old(base), Packet(old(cur) + [t.data], t.error))
      ensures cur == if state == Reset || old(state) == Reset then []
        else old(cur) + if v && old(SinkReady(v, ready)) then [t.data] else []
    {
      hide Holding, CheckAll, Parse, Cut, Finished;
      match state {
        case Reset =>
          ResetCycle(v, t, ready);
        case Idle =>
          if SinkReady(v, ready) {
            Take(t);
            state := Copy;
          }
        case Copy =>
          if SinkReady(v, ready) {
            if t.last {
              Finish(t);
            } else {
              Take(t);
            }
          }
      }
    }

    /** FIFO and register are cleared, whatever is offered meanwhile. */
    method ResetCycle(v: bool, t: Token, ready: bool)
      requires Valid() && (losses == 0 ==> Faithful()) && state.Reset?
      modifies this, crc
      ensures Valid() && (losses == 0 ==> Faithful())
      ensures state == Idle && fifo == [] && crc.reg == INIT && cur == [] && base == Parse(sent)
      ensures got == old(got) + if old(SinkReady(v, ready)) then [t] else []
      ensures sent == old(sent) + if old(SourceValid(v)) && ready then [old(SourceToken(t))] else []
      ensures losses == old(losses) + if old(SinkReady(v, ready)) then 1 else 0
    {
      hide Holding, CheckAll, Parse, Cut, Crc;
      if SinkReady(v, ready) {
        got, losses := got + [t], losses + 1;
      }
      if SourceValid(v) && ready {
        sent := sent + [SourceToken(t)];
      }
      fifo, state, base := [], Idle, Parse(sent);
      crc.Clock(true, false, t.data);
      EmptyHead(base);
    }

    /** A byte enters FIFO and register; once the FIFO is full, its oldest byte leaves. */
    method Take(t: Token)
      requires Valid() && (losses == 0 ==> Faithful()) && !state.Reset? && (state.Copy? ==> !t.last)
      modifies this, crc
      ensures crc.Valid() && |fifo| <= 4 && Holding(base, cur, Parse(sent), fifo, crc.reg)
      ensures losses == old(losses) && (losses == 0 ==> Faithful()) && state == old(state)
      ensures base == old(base) && cur == old(cur) + [t.data] && got == old(got) + [t]
      ensures sent == old(sent) + if old(Full()) then [old(SourceToken(t))] else []
    {
      hide Crc, Head, Tail, CheckAll, Parse;
      if state.Idle? {
        IdleIsEmpty();
      }
      if Full() {
        ghost var out := SourceToken(t);
        HoldKeeps(base, cur, Parse(sent), fifo, crc.reg, t.(error := out.error));
        ParseSnoc(sent, out);
        sent, fifo := sent + [out], fifo[1..];
      } else {
        HoldKeeps(base, cur, Parse(sent), fifo, crc.reg, t);
      }
      fifo := fifo + [t.data];
      CrcOne(crc.reg, t.data);
      crc.Clock(false, true, t.data);
      CutSnoc(got, t);
      got, cur := got + [t], cur + [t.data];
    }

    /** The last byte of a packet; the four bytes then in the FIFO are dropped by the reset that follows. */
    method Finish(t: Token)
      requires Valid() && (losses == 0 ==> Faithful()) && state.Copy? && t.last
      modifies this, crc
      ensures Valid() && (losses == 0 ==> Faithful())
      ensures losses == old(losses) && state == Reset && cur == [] && got == old(got) + [t]
      ensures base == Parse(sent) == Finished(old(base), Packet(old(cur) + [t.data], t.error))
      ensures sent == old(sent) + if old(Full()) then [old(SourceToken(t))] else []
    {
      hide Crc, CheckAll, Parse, Finished, Push;
      HoldFinishes(base, cur, Parse(sent), fifo, crc.reg, t);
      if losses == 0 {
        FinishFaithful(Cut(got), t);
      }
      if Full() {
        ParseSnoc(sent, SourceToken(t));
        sent, fifo := sent + [SourceToken(t)], fifo[1..];
      }
      fifo := fifo + [t.data];
      crc.Clock(false, true, t.data);
      CutSnoc(got, t);
      got, cur, base, state := got + [t], [], Parse(sent), Reset;
    }

    lemma IdleIsEmpty()
      requires Valid() && state.Idle?
      ensures fifo == []
    {}
  }

  lemma EmptyHead(l: Log)
    ensures Holding(l, [], l, [], INIT)
  {
    assert FrameBits([]) == [];
    assert l.cur + Head([]) == l.cur;
  }

  /** What the environment does in one cycle: whether the next byte is offered, and whether the output is taken. */
  datatype Cycle = Cycle(offered: bool, ready: bool)

  /** `k` bytes of a frame have been taken, the first of them in the RESET state or not. */
  ghost predicate Taking(before: seq<Packet>, stale: seq<byte>, f: seq<byte>, k: nat, lost: bool,
                         state: State, base: Log, cur: seq<byte>)
    requires k <= |f|
  {
    if lost then
      k >= 1 && cur == f[1..k] && base == Log(before, stale) && state == if k == 1 then Idle else Copy
    else
      cur == f[..k] && base == Log(before, []) && (state == Copy <==> k > 0)
  }

  lemma TakingNext(before: seq<Packet>, stale: seq<byte>, f: seq<byte>, k: nat, lost: bool, state: State, base: Log,
                   cur: seq<byte>)
    requires k + 1 < |f| && state != Reset && Taking(before, stale, f, k, lost, state, base, cur)
    ensures Taking(before, stale, f, k + 1, lost, Copy, base, cur + [f[k]])
  {
    assert f[..k + 1] == f[..k] + [f[k]];
    if lost {
      assert f[1..k + 1] == f[1..k] + [f[k]];
    }
  }

  /** What a valid frame has become once its last byte is taken. */
  function Outcome(stale: seq<byte>, f: seq<byte>, lost: bool): seq<Packet>
    requires |f| > 4
  {
    if !lost then [Packet(f[..|f| - 4], false)]
    else if |f| > 5 then [Packet(stale + f[1..|f| - 4], true)] else []
  }

  lemma TakingLast(before: seq<Packet>, stale: seq<byte>, f: seq<byte>, lost: bool, base: Log, cur: seq<byte>)
    requires |f| > 4 && Crc(INIT, f) == CHECK && Taking(before, stale, f, |f| - 1, lost, Copy, base, cur)
    ensures Finished(base, Packet(cur + [f[|f| - 1]], false)).packets == before + Outcome(stale, f, lost)
    ensures !lost || |f| > 5 ==> Finished(base, Packet(cur + [f[|f| - 1]], false)).cur == []
  {
    hide Crc;
    var n := |f| - 1;
    if lost {
      LostFirstByteDetected(f);
      assert f[1..n] + [f[n]] == f[1..];
      assert Head(f[1..]) == f[1..|f| - 4] || |f| == 5;
    } else {
      assert f[..n] + [f[n]] == f;
      assert [] + Head(f) == Head(f);
    }
  }

  lemma OutcomeIff(before: seq<Packet>, stale: seq<byte>, f: seq<byte>, lost: bool)
    requires |f| > 4
    ensures before + Outcome(stale, f, lost) == before + [Packet(f[..|f| - 4], false)] <==> !lost
  {
    if before + Outcome(stale, f, lost) == before + [Packet(f[..|f| - 4], false)] {
      assert (before + Outcome(stale, f, lost))[|before|..] == Outcome(stale, f, lost);
      assert (before + [Packet(f[..|f| - 4], false)])[|before|..] == [Packet(f[..|f| - 4], false)];
    }
  }

  /** A valid frame, offered byte by byte under arbitrary stalls, is delivered without
      its check sequence and without error if and only if its first byte was not
      taken in the RESET state, which happens in the first cycle or not at all.
      Otherwise that byte is lost, a check byte of the frame before takes its place
      when there is one, and the frame is flagged. */
  method DeliverFrame(c: Checker, f: seq<byte>, run: seq<Cycle>) returns (taken: nat)
    requires c.Valid() && (c.losses == 0 ==> c.Faithful()) && c.state != Copy && Parse(c.sent).cur == []
    requires |f| > 4 && Crc(INIT, f) == CHECK
    modifies c, c.crc
    ensures c.Valid() && (c.losses == 0 ==> c.Faithful()) && taken <= |f|
    ensures c.losses > old(c.losses) <==>
      run != [] && old(c.state) == Reset && run[0].offered && (!old(c.Full()) || run[0].ready)
    ensures taken == |f| ==>
      && (Parse(c.sent).packets == old(Parse(c.sent).packets) + [Packet(f[..|f| - 4], false)]
          <==> c.losses == old(c.losses))
      && Parse(c.sent).packets == old(Parse(c.sent).packets) +
           Outcome(if old(c.Full()) then [old(c.fifo[0])] else [], f, c.losses > old(c.losses))
  {
    hide Crc, Parse, Cut, Holding, Checker.Faithful, Taking, Outcome, Finished;
    ghost var before, losses := Parse(c.sent).packets, c.losses;
    ghost var stale := if c.Full() then [c.fifo[0]] else [];
    taken := 0;
    StartTaking(c, f, stale);
    for i := 0 to |run|
      invariant c.Valid() && (c.losses == 0 ==> c.Faithful())
      invariant taken < |f| && losses <= c.losses
      invariant Taking(before, stale, f, taken, c.losses > losses, c.state, c.base, c.cur)
      invariant c.state == Reset ==> i == 0 && taken == 0 && c.losses == losses
      invariant i == 0 ==> c.sent == old(c.sent) && c.fifo == old(c.fifo) && c.state == old(c.state)
      invariant i == 0 ==> c.losses == losses
      invariant i > 0 ==> (c.losses > losses <==>
        old(c.state) == Reset && run[0].offered && (!old(c.Full()) || run[0].ready))
    {
      var t := Token(f[taken], taken == |f| - 1, false);
      if c.state == Reset {
        if c.Full() {
          StaleToken(c, t);
        }
        assert c.sent + [] == c.sent;
        TakingReset(before, stale, f);
      } else if taken + 1 < |f| {
        TakingNext(before, stale, f, taken, c.losses > losses, c.state, c.base, c.cur);
      }
      var took := run[i].offered && c.SinkReady(true, run[i].ready);
      if took && taken == |f| - 1 {
        TakingCopies(before, stale, f, taken, c.losses > losses, c.state, c.base, c.cur);
        TakingLast(before, stale, f, c.losses > losses, c.base, c.cur);
        OutcomeIff(before, stale, f, c.losses > losses);
      }
      assert c.cur + [] == c.cur;
      c.Tick(run[i].offered, t, run[i].ready);
      if took {
        taken := taken + 1;
        if taken == |f| {
          return;
        }
      }
    }
  }

  lemma TakingCopies(before: seq<Packet>, stale: seq<byte>, f: seq<byte>, k: nat, lost: bool, state: State, base: Log,
                     cur: seq<byte>)
    requires 1 < k <= |f| && Taking(before, stale, f, k, lost, state, base, cur)
    ensures state == Copy
  {}

  lemma TakingCount(before: seq<Packet>, stale: seq<byte>, f: seq<byte>, k: nat, lost: bool, state: State, base: Log,
                    cur: seq<byte>)
    requires k <= |f| && Taking(before, stale, f, k, lost, state, base, cur)
    ensures |cur| == k - if lost then 1 else 0
  {}

  lemma TakingState(before: seq<Packet>, stale: seq<byte>, f: seq<byte>, k: nat, lost: bool, state: State, base: Log,
                    cur: seq<byte>)
    requires k <= |f| && (state == Copy <==> cur != []) && state != Reset
    requires Taking(before, stale, f, k, lost, Copy, base, cur)
    ensures Taking(before, stale, f, k, lost, state, base, cur)
  {}

  lemma TakingReset(before: seq<Packet>, stale: seq<byte>, f: seq<byte>)
    requires |f| > 0
    ensures Taking(before, stale, f, 1, true, Idle, Log(before, stale), [])
    ensures Taking(before, stale, f, 0, false, Idle, Log(before, []), [])
  {
    assert f[1..1] == [] && f[..0] == [];
  }

  lemma StartTaking(c: Checker, f: seq<byte>, stale: seq<byte>)
    requires c.Valid() && c.state != Copy && Parse(c.sent).cur == []
    ensures Taking(Parse(c.sent).packets, stale, f, 0, false, c.state, c.base, c.cur)
    ensures c.state == Reset ==> c.base == Parse(c.sent) == Log(Parse(c.sent).packets, [])
  {
    hide Crc, Parse;
    assert f[..0] == [];
  }

  lemma StaleToken(c: Checker, t: Token)
    requires c.Valid() && c.state.Reset? && c.Full() && Parse(c.sent).cur == [] && !t.last
    ensures Parse(c.sent + [c.SourceToken(t)]) == Log(Parse(c.sent).packets, [c.fifo[0]])
  {
    ParseSnoc(c.sent, c.SourceToken(t));
  }

  /** In every reachable state without a loss the packets sent are exactly the verdicts on the packets received. */
  lemma SentPackets(c: Checker)
    requires c.Valid() && c.Faithful()
    ensures Parse(c.sent).packets == CheckAll(Cut(c.got).packets)
  {
    hide Parse, Cut, CheckAll, Crc;
  }
}
