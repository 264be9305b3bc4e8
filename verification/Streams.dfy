/** Valid/ready/last streams. Every block below is a class whose `Tick` is one
    clock edge. Its combinational outputs are the functions `SinkReady`,
    `SourceValid` and `SourceToken`; the ghost histories `got` and `sent` hold
    the tokens transferred on either side since power-up. */
module Streams {
  import opened Bits

  datatype Token = Token(data: byte, last: bool, error: bool)

  /** A complete packet; `error` is the error flag of its last token. */
  datatype Packet = Packet(bytes: seq<byte>, error: bool)

  /** A stream cut into packets, and the bytes of the packet still in progress. */
  datatype Log = Log(packets: seq<Packet>, cur: seq<byte>)

  function Push(l: Log, t: Token): Log {
    var bytes := l.cur + [t.data];
    if t.last then Log(l.packets + [Packet(bytes, t.error)], []) else Log(l.packets, bytes)
  }

  function Parse(ts: seq<Token>): Log {
    if ts == [] then Log([], []) else Push(Parse(ts[..|ts| - 1]), ts[|ts| - 1])
  }

  lemma ParseSnoc(ts: seq<Token>, t: Token)
    ensures Parse(ts + [t]) == Push(Parse(ts), t)
  {
    assert (ts + [t])[..|ts|] == ts;
  }

  /** Later tokens never change packets that are complete. */
  lemma {:induction false} ParsePrefix(a: seq<Token>, b: seq<Token>)
    ensures Parse(a).packets <= Parse(a + b).packets
  {
    if b == [] {
      assert a + b == a;
    } else {
      ParsePrefix(a, b[..|b| - 1]);
      assert a + b == (a + b[..|b| - 1]) + [b[|b| - 1]];
      ParseSnoc(a + b[..|b| - 1], b[|b| - 1]);
    }
  }

  lemma {:induction false} PacketsNotEmpty(ts: seq<Token>)
    ensures forall p | p in Parse(ts).packets :: p.bytes != []
  {
    if ts != [] {
      PacketsNotEmpty(ts[..|ts| - 1]);
    }
  }

  function Zeros(n: nat): (z: seq<byte>)
    ensures |z| == n && forall i | 0 <= i < n :: z[i] == 0
  {
    seq(n, _ => 0)
  }

  /** The one-token register that LiteX inserts at a buffered endpoint. */
  class Buffer {
    var full: bool
    var token: Token
    ghost var got: seq<Token>
    ghost var sent: seq<Token>

    /** Lossless: what went in has come out, except for the token held. */
    ghost predicate Valid()
      reads this
    {
      got == sent + if full then [token] else []
    }

    constructor ()
      ensures Valid() && got == sent == [] && !full
    {
      full, token, got, sent := false, Token(0, false, false), [], [];
    }

    predicate SinkReady(ready: bool)
      reads this
    {
      ready || !full
    }

    method Tick(v: bool, t: Token, ready: bool)
      requires Valid()
      modifies this
      ensures Valid()
      ensures got == old(got) + if v && old(SinkReady(ready)) then [t] else []
      ensures sent == old(sent) + if old(full) && ready then [old(token)] else []
      ensures full == if old(SinkReady(ready)) then v else true
      ensures token == if old(SinkReady(ready)) then t else old(token)
    {
      if full && ready {
        sent := sent + [token];
      }
      if SinkReady(ready) {
        if v {
          got := got + [t];
        }
        full, token := v, t;
      }
    }
  }
}
