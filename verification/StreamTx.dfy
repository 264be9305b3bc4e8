/** The stream packetiser in front of the UDP transmitter: bytes are collected
    in a FIFO, and sent as a datagram once there are enough of them. */
module StreamTx {
  import opened Bits

  function Flatten(ds: seq<seq<byte>>): seq<byte> {
    if ds == [] then [] else Flatten(ds[..|ds| - 1]) + ds[|ds| - 1]
  }

  lemma FlattenSnoc(ds: seq<seq<byte>>, d: seq<byte>)
    ensures Flatten(ds + [d]) == Flatten(ds) + d
  {
    assert (ds + [d])[..|ds|] == ds;
  }

  /** Every byte accepted is in a datagram, in the datagram in progress, or in the FIFO, in order. */
  ghost predicate Conserved(accepted: seq<byte>, datagrams: seq<seq<byte>>, cur: seq<byte>, fifo: seq<byte>) {
    accepted == Flatten(datagrams) + cur + fifo
  }

  lemma ConservedSend(accepted: seq<byte>, datagrams: seq<seq<byte>>, cur: seq<byte>, fifo: seq<byte>)
    requires Conserved(accepted, datagrams, cur, fifo) && fifo != []
    ensures Conserved(accepted, datagrams, cur + [fifo[0]], fifo[1..])
    ensures Conserved(accepted, datagrams + [cur + [fifo[0]]], [], fifo[1..])
  {
    FlattenSnoc(datagrams, cur + [fifo[0]]);
    assert Flatten(datagrams) + cur + fifo == Flatten(datagrams) + (cur + [fifo[0]]) + fifo[1..];
    assert Flatten(datagrams) + (cur + [fifo[0]]) + [] + fifo[1..] ==
      Flatten(datagrams) + (cur + [fifo[0]]) + fifo[1..];
  }

  datatype State = Idle | Send

  class Stream2Udp {
    const depth: nat
    const sendLevel: nat
    var state: State
    var fifo: seq<byte>
    var level: nat
    var counter: nat
    ghost var accepted: seq<byte>
    ghost var datagrams: seq<seq<byte>>   // datagrams completed
    ghost var announced: seq<nat>         // the length field each of them carried
    ghost var cur: seq<byte>

    ghost predicate Valid()
      reads this
    {
      && sendLevel >= 1 && |fifo| <= depth
      && Conserved(accepted, datagrams, cur, fifo)
      && |announced| == |datagrams|
      && (forall k | 0 <= k < |datagrams| :: sendLevel <= |datagrams[k]| == announced[k] <= depth)
      && match state
         case Idle => cur == []
         case Send => counter == |cur| < level <= depth && sendLevel <= level <= |cur| + |fifo|
    }

    constructor (depth: nat, sendLevel: nat)
      requires sendLevel >= 1
      ensures Valid() && accepted == [] && this.depth == depth && this.sendLevel == sendLevel
    {
      this.depth, this.sendLevel := depth, sendLevel;
      state, fifo, level, counter, accepted, datagrams, announced, cur := Idle, [], 0, 0, [], [], [], [];
    }

    predicate SinkReady()
      reads this
    {
      |fifo| < depth
    }

    /** The byte at the source is the last of its datagram. */
    predicate SourceLast()
      reads this
    {
      counter + 1 == level
    }

    /** One clock: `v` and `data` at the sink, `ready` at the source. */
    method Tick(v: bool, data: byte, ready: bool)
      requires Valid()
      modifies this
      ensures Valid()
      ensures accepted == old(accepted) + if v && |old(fifo)| < depth then [data] else []
      ensures fifo == (if old(state) == Send && ready then old(fifo)[1..] else old(fifo)) +
        if v && |old(fifo)| < depth then [data] else []
      ensures datagrams == if old(state) == Send && ready && old(counter) + 1 == old(level)
        then old(datagrams) + [old(cur + [fifo[0]])] else old(datagrams)
      ensures state == match old(state)
        case Idle => if old(|fifo|) >= sendLevel then Send else Idle
        case Send => if ready && old(counter) + 1 == old(level) then Idle else Send
      ensures old(state) == Idle && state == Send ==> level == old(|fifo|) && counter == 0
      ensures old(state) == Send ==> level == old(level) && counter == if ready then old(counter) + 1 else old(counter)
      ensures announced == old(announced) +
        if old(state) == Send && ready && old(counter) + 1 == old(level) then [old(level)] else []
    {
      hide Conserved;
      var push := v && SinkReady();
      match state {
        case Idle =>
          if |fifo| >= sendLevel {
            level, counter, state := |fifo|, 0, Send;
          }
        case Send =>
          if ready {
            ConservedSend(accepted, datagrams, cur, fifo);
            if SourceLast() {
              datagrams, announced, cur := datagrams + [cur + [fifo[0]]], announced + [level], [];
              state := Idle;
            } else {
              cur := cur + [fifo[0]];
            }
            fifo, counter := fifo[1..], counter + 1;
          }
      }
      if push {
        Accept(data);
        fifo, accepted := fifo + [data], accepted + [data];
      }
    }

    lemma Accept(data: byte)
      requires Conserved(accepted, datagrams, cur, fifo)
      ensures Conserved(accepted + [data], datagrams, cur, fifo + [data])
    {}
  }

  /** In every reachable state the datagrams sent, followed by what is waiting,
      are the bytes accepted; a sending machine always has a byte to send. */
  lemma NothingLost(m: Stream2Udp)
    requires m.Valid()
    ensures Flatten(m.datagrams) + m.cur + m.fifo == m.accepted
    ensures forall d | d in m.datagrams :: m.sendLevel <= |d| <= m.depth
    ensures m.state == Send ==> m.fifo != []
  {}
}
