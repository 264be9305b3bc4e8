/** The interpacket gap: idle cycles between the packets handed to the PHY. */
module Gap {
  import opened Streams

  const GAP: nat := 12

  datatype State = Copy | Gap

  /** Cycle `at[k]` is the one in which token `k` was sent. */
  ghost predicate Spaced(sent: seq<Token>, at: seq<nat>) {
    && |at| == |sent|
    && forall k | 0 < k < |sent| :: at[k - 1] < at[k] && (sent[k - 1].last ==> at[k - 1] + GAP < at[k])
  }

  lemma SpacedSnoc(sent: seq<Token>, at: seq<nat>, t: Token, now: nat)
    requires Spaced(sent, at)
    requires sent != [] ==> var k := |sent| - 1; at[k] < now && (sent[k].last ==> at[k] + GAP < now)
    ensures Spaced(sent + [t], at + [now])
  {}

  class GapInserter {
    var state: State
    var counter: nat
    ghost var got: seq<Token>
    ghost var sent: seq<Token>
    ghost var at: seq<nat>
    ghost var now: nat

    /** Tokens are unchanged, and after a last token at least twelve cycles pass in which nothing is sent. */
    ghost predicate Valid()
      reads this
    {
      && got == sent
      && |at| == |sent|
      && Spaced(sent, at)
      && (sent != [] ==> var k := |sent| - 1;
           && at[k] < now
           && (sent[k].last && state.Copy? ==> at[k] + GAP < now)
           && (state.Gap? ==> counter < GAP && now == at[k] + 1 + counter))
      && (sent == [] ==> state.Copy?)
    }

    constructor ()
      ensures Valid() && got == sent == [] && state == Copy
    {
      state, counter, got, sent, at, now := Copy, 0, [], [], [], 0;
    }

    predicate SinkReady(ready: bool)
      reads this
    {
      state.Copy? && ready
    }

    predicate SourceValid(v: bool)
      reads this
    {
      state.Copy? && v
    }

    method Tick(v: bool, t: Token, ready: bool)
      requires Valid()
      modifies this
      ensures Valid()
      ensures got == old(got) + if v && old(SinkReady(ready)) then [t] else []
      ensures sent == old(sent) + if old(SourceValid(v)) && ready then [t] else []
      ensures now == old(now) + 1
      ensures at == old(at) + if old(SourceValid(v)) && ready then [old(now)] else []
      ensures state == match old(state)
        case Copy => if v && ready && t.last then Gap else Copy
        case Gap => if old(counter) == GAP - 1 then Copy else Gap
      ensures counter == if old(state) == Copy then 0 else old(counter) + 1
    {
      hide Spaced;
      match state {
        case Copy =>
          counter := 0;
          if v && ready {
            SpacedSnoc(sent, at, t, now);
            got, sent, at := got + [t], sent + [t], at + [now];
            if t.last {
              state := Gap;
            }
          }
        case Gap =>
          if counter == GAP - 1 {
            state := Copy;
          }
          counter := counter + 1;
      }
      now := now + 1;
    }
  }

  /** In every run: after a last token, nothing is sent for twelve cycles. */
  lemma TwelveIdleCycles(m: GapInserter)
    requires m.Valid()
    ensures forall k | 0 < k < |m.sent| && m.sent[k - 1].last :: m.at[k - 1] + 12 < m.at[k]
  {}

  /** What either side does in one cycle. */
  datatype Offer = Offer(v: bool, t: Token, ready: bool)

  /** And not for longer: whatever is offered meanwhile, a token offered to a ready
      sink in the thirteenth cycle after a last one is sent then. */
  method NextPacket(m: GapInserter, idle: seq<Offer>, t: Token)
    requires m.Valid() && m.sent != [] && m.sent[|m.sent| - 1].last && m.now == m.at[|m.sent| - 1] + 1
    requires |idle| == 12
    modifies m
    ensures m.Valid()
    ensures m.sent == m.got == old(m.sent) + [t]
    ensures m.at == old(m.at) + [old(m.at[|m.sent| - 1]) + 13]
  {
    for i := 0 to 12
      invariant m.Valid() && m.sent == old(m.sent) && m.at == old(m.at)
      invariant m.now == old(m.now) + i
      invariant if i < 12 then m.state == Gap && m.counter == i else m.state == Copy
    {
      m.Tick(idle[i].v, idle[i].t, idle[i].ready);
    }
    m.Tick(true, t, true);
  }
}
