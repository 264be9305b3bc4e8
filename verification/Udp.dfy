/** The UDP receiver's payload trimming, byte-wide. */
module Udp {
  import opened Bits
  import opened Streams

  /** A datagram as it reaches the receiver: whether it is UDP, the payload
      length its header declares, and the tokens that are there. */
  datatype Datagram = Datagram(udp: bool, declared: nat, tokens: seq<Token>)

  function Bytes(ts: seq<Token>): (b: seq<byte>)
    ensures |b| == |ts|
  {
    seq(|ts|, i requires 0 <= i < |ts| => ts[i].data)
  }

  /** The number of bytes after which the length comparison ends the payload:
      a declared length of zero wraps around in the 16-bit subtraction. */
  function Limit(declared: nat): nat {
    if declared == 0 then 0x1_0000 else declared
  }

  function Min(a: nat, b: nat): nat {
    if a < b then a else b
  }

  /** What the user receives for a datagram. */
  function Trim(d: Datagram): seq<Packet> {
    var k := Min(Limit(d.declared), |d.tokens|);
    if d.udp && k > 0 then [Packet(Bytes(d.tokens[..k]), d.tokens[k - 1].error)] else []
  }

  function TrimAll(ds: seq<Datagram>): seq<Packet> {
    if ds == [] then [] else TrimAll(ds[..|ds| - 1]) + Trim(ds[|ds| - 1])
  }

  lemma TrimAllSnoc(ds: seq<Datagram>, d: Datagram)
    ensures TrimAll(ds + [d]) == TrimAll(ds) + Trim(d)
  {
    assert (ds + [d])[..|ds|] == ds;
  }

  /** The user receives exactly the declared payload, or what there is of it, if
      and only if the header declares some payload or the datagram is empty or endless. */
  lemma TrimExact(d: Datagram)
    requires d.udp && d.tokens != [] && d.declared < 0x1_0000
    ensures Trim(d) == [Packet(Bytes(d.tokens[..Min(d.declared, |d.tokens|)]), Trim(d)[0].error)] <==> d.declared > 0
  {
    assert |Trim(d)[0].bytes| == Min(Limit(d.declared), |d.tokens|);
  }

  /** Padding after the payload never reaches the user. */
  lemma PaddingUndone(d: Datagram, padding: seq<Token>)
    requires d.udp && d.tokens != [] && d.declared == |d.tokens| < 0x1_0000
    ensures Trim(d.(tokens := d.tokens + padding)) == Trim(d)
    ensures Trim(d)[0].bytes == Bytes(d.tokens)
  {
    assert (d.tokens + padding)[..|d.tokens|] == d.tokens == d.tokens[..|d.tokens|];
  }

  ghost predicate NoLast(ts: seq<Token>) {
    forall t | t in ts :: !t.last
  }

  /** `cur` has been received and passed on. */
  ghost predicate Receiving(done: seq<Datagram>, declared: nat, cur: seq<Token>, o: Log, count: nat) {
    && NoLast(cur) && count == |cur| < Limit(declared)
    && o == Log(TrimAll(done), Bytes(cur))
  }

  /** The rest of a datagram is being dropped: a foreign one, or one already delivered. */
  ghost predicate Dropping(done: seq<Datagram>, udp: bool, declared: nat, cur: seq<Token>, o: Log) {
    && NoLast(cur) && (udp ==> |cur| >= Limit(declared))
    && o == Log(TrimAll(done) + Trim(Datagram(udp, declared, cur)), [])
  }

  lemma ReceiveKeeps(done: seq<Datagram>, declared: nat, cur: seq<Token>, o: Log, count: nat, t: Token)
    requires Receiving(done, declared, cur, o, count)
    ensures var last := t.last || count + 1 == Limit(declared);
      var o' := Push(o, t.(last := last));
      if t.last then o' == Log(TrimAll(done + [Datagram(true, declared, cur + [t])]), [])
      else if last then Dropping(done, true, declared, cur + [t], o')
      else Receiving(done, declared, cur + [t], o', count + 1)
  {
    assert Bytes(cur + [t]) == Bytes(cur) + [t.data];
    assert (cur + [t])[..|cur| + 1] == cur + [t];
    TrimAllSnoc(done, Datagram(true, declared, cur + [t]));
  }

  lemma DropKeeps(done: seq<Datagram>, udp: bool, declared: nat, cur: seq<Token>, o: Log, t: Token)
    requires Dropping(done, udp, declared, cur, o)
    ensures if t.last then o == Log(TrimAll(done + [Datagram(udp, declared, cur + [t])]), [])
      else Dropping(done, udp, declared, cur + [t], o)
  {
    hide TrimAll, Bytes;
    var k := Limit(declared);
    if udp {
      assert (cur + [t])[..k] == cur[..k];
    }
    TrimAllSnoc(done, Datagram(udp, declared, cur + [t]));
  }

  datatype State = Idle | Receive | Drop

  class Receiver {
    var state: State
    var count: nat
    ghost var udp: bool               // header fields of the datagram in progress
    ghost var declared: nat
    ghost var cur: seq<Token>
    ghost var done: seq<Datagram>
    ghost var sent: seq<Token>
    ghost var steady: bool            // the header fields never changed within a datagram

    /** Every datagram has been trimmed to its declared length. */
    ghost predicate Valid()
      reads this
    {
      && count < 0x1_0000
      && (steady ==>
        match state
        case Idle => cur == [] && Parse(sent) == Log(TrimAll(done), [])
        case Receive => udp && declared < 0x1_0000 && Receiving(done, declared, cur, Parse(sent), count)
        case Drop => Dropping(done, udp, declared, cur, Parse(sent)))
    }

    constructor ()
      ensures Valid() && state == Idle && sent == [] && done == [] && steady
    {
      state, count, udp, declared, cur, done, sent, steady := Idle, 0, false, 0, [], [], [], true;
    }

    predicate SinkReady(ready: bool)
      reads this
    {
      match state
      case Idle => false
      case Receive => ready
      case Drop => true
    }

    predicate SourceValid(v: bool)
      reads this
    {
      state == Receive && v
    }

    predicate SourceLast(t: Token, length: nat)
      reads this
    {
      t.last || count == (length + 0xFFFF) % 0x1_0000
    }

    /** One clock; `isUdp` and `length` are the header fields presented with the token. */
    method Tick(v: bool, t: Token, isUdp: bool, length: nat, ready: bool)
      requires Valid() && length < 0x1_0000
      modifies this
      ensures Valid()
      ensures sent == old(sent) + if old(SourceValid(v)) && ready then [t.(last := old(SourceLast(t, length)))] else []
      ensures steady == (old(steady) && (old(state) == Idle || (isUdp == old(udp) && length == old(declared))))
      ensures done == old(done) +
        if v && t.last && old(SinkReady(ready)) then [Datagram(old(udp), old(declared), old(cur) + [t])] else []
      ensures cur == if v && old(SinkReady(ready)) then (if t.last then [] else old(cur) + [t]) else old(cur)
      ensures state == match old(state)
        case Idle => if v then (if isUdp then Receive else Drop) else Idle
        case Receive =>
          if !(v && ready) then Receive
          else if t.last then Idle else if old(SourceLast(t, length)) then Drop else Receive
        case Drop => if v && t.last then Idle else Drop
      ensures count == match old(state)
        case Idle => 0
        case Receive => if v && ready then (old(count) + 1) % 0x1_0000 else old(count)
        case Drop => old(count)
      ensures if old(state) == Idle && v then udp == isUdp && declared == length
        else udp == old(udp) && declared == old(declared)
    {
      hide Receiving, Dropping, TrimAll, Parse;
      steady := steady && (state == Idle || (isUdp == udp && length == declared));
      match state {
        case Idle =>
          count := 0;
          if v {
            Begin(isUdp, length);
          }
        case Receive =>
          if v && ready {
            Deliver(t, length);
          }
        case Drop =>
          if v {
            Skip(t);
          }
      }
    }

    /** The header of a datagram decides what becomes of it. */
    method Begin(isUdp: bool, length: nat)
      requires Valid() && state == Idle && count == 0 && length < 0x1_0000
      modifies this`udp, this`declared, this`state
      ensures Valid() && udp == isUdp && declared == length && state == if isUdp then Receive else Drop
    {
      hide Receiving, Dropping, TrimAll, Parse;
      udp, declared, state := isUdp, length, if isUdp then Receive else Drop;
      Start();
    }

    /** A token that is dropped. */
    method Skip(t: Token)
      requires Valid() && state == Drop
      modifies this`cur, this`done, this`state
      ensures Valid() && state == if t.last then Idle else Drop
      ensures done == old(done) + if t.last then [Datagram(udp, declared, old(cur) + [t])] else []
      ensures cur == if t.last then [] else old(cur) + [t]
    {
      hide Receiving, Dropping, TrimAll, Parse;
      if steady {
        DropKeeps(done, udp, declared, cur, Parse(sent), t);
      }
      Note(t);
      if t.last {
        state := Idle;
      }
    }

    lemma Start()
      requires steady ==> cur == [] && Parse(sent) == Log(TrimAll(done), [])
      requires count == 0
      ensures steady && udp ==> Receiving(done, declared, cur, Parse(sent), count)
      ensures steady && !udp ==> Dropping(done, udp, declared, cur, Parse(sent))
    {
      assert TrimAll(done) + [] == TrimAll(done);
    }

    /** The token is passed on; it is the last one of the payload when the count says so. */
    method Deliver(t: Token, length: nat)
      requires Valid() && state == Receive && length < 0x1_0000 && (steady ==> length == declared)
      modifies this`state, this`count, this`sent, this`cur, this`done
      ensures Valid()
      ensures sent == old(sent) + [t.(last := old(SourceLast(t, length)))]
      ensures done == old(done) + if t.last then [Datagram(udp, declared, old(cur) + [t])] else []
      ensures cur == if t.last then [] else old(cur) + [t]
      ensures state == if t.last then Idle else if old(SourceLast(t, length)) then Drop else Receive
      ensures count == (old(count) + 1) % 0x1_0000
    {
      hide Receiving, Dropping, TrimAll, Parse;
      var out := t.(last := SourceLast(t, length));
      if steady {
        LimitReached();
        ReceiveKeeps(done, declared, cur, Parse(sent), count, t);
      }
      ParseSnoc(sent, out);
      sent := sent + [out];
      Note(t);
      count := (count + 1) % 0x1_0000;
      state := if t.last then Idle else if out.last then Drop else Receive;
    }

    lemma LimitReached()
      requires Valid() && state == Receive && steady
      ensures count + 1 == Limit(declared) <==> count == (declared + 0xFFFF) % 0x1_0000
      ensures count + 1 < Limit(declared) ==> (count + 1) % 0x1_0000 == count + 1
    {}

    ghost method Note(t: Token)
      modifies this`cur, this`done
      ensures done == if t.last then old(done) + [Datagram(udp, declared, old(cur) + [t])] else old(done)
      ensures cur == if t.last then [] else old(cur) + [t]
    {
      if t.last {
        done, cur := done + [Datagram(udp, declared, cur + [t])], [];
      } else {
        cur := cur + [t];
      }
    }
  }

  /** In every reachable state between datagrams, the user has received exactly the trimmed payloads. */
  lemma Received(r: Receiver)
    requires r.Valid() && r.steady && r.state == Idle
    ensures Parse(r.sent) == Log(TrimAll(r.done), [])
  {}
}
