/** The ICMP echo responder's incremental checksum. */
module Icmp {
  import opened Bits
  import opened OnesComplement

  /** A message is valid when all its words sum to all ones. */
  predicate ValidMessage(msg: seq<byte>) {
    Sum(NetworkWords(msg)) == 0xFFFF
  }

  /** In bytes: those at even places weigh 256, the others one, and all together a non-zero multiple of 0xFFFF. */
  lemma ValidByWeight(msg: seq<byte>)
    ensures ValidMessage(msg) <==> Weight(msg) > 0 && Weight(msg) % 0xFFFF == 0
  {
    hide Sum, Total, NetworkWords;
    ValidIffMultiple(NetworkWords(msg));
    WeightIsTotal(msg);
  }

  function EchoChecksum(c: word): word {
    (c + 0x800 + if c >= 0xF800 then 1 else 0) % 0x1_0000
  }

  /** The reply: type zero, the checksum updated, the rest echoed. */
  function Reply(msg: seq<byte>): (r: seq<byte>)
    requires |msg| >= 8
    ensures |r| == |msg|
  {
    var c := EchoChecksum(LittleWord(msg[3], msg[2]));
    [0, msg[1], c / 256, c % 256] + msg[4..]
  }

  /** The updated checksum is the old one plus 0x800, modulo 0xFFFF, and never zero. */
  lemma EchoChecksumAdds(c: word)
    ensures EchoChecksum(c) != 0
    ensures EchoChecksum(c) == if c >= 0xF800 then c + 0x800 - 0xFFFF else c + 0x800
  {}

  lemma SplitTotal(ws: seq<word>)
    requires |ws| >= 2
    ensures Total(ws) == ws[0] + ws[1] + Total(ws[2..])
  {
    assert ws == [ws[0], ws[1]] + ws[2..];
    TotalConcat([ws[0], ws[1]], ws[2..]);
    assert [ws[0], ws[1]] == [ws[0]] + [ws[1]] && [ws[0]] == [] + [ws[0]];
    TotalSnoc([ws[0]], ws[1]);
    TotalSnoc([], ws[0]);
  }

  lemma ReplyWords(msg: seq<byte>)
    requires |msg| >= 8
    ensures var ws, rs := NetworkWords(msg), NetworkWords(Reply(msg));
      && rs[2..] == ws[2..]
      && ws[0] == LittleWord(msg[1], msg[0]) && ws[1] == LittleWord(msg[3], msg[2])
      && rs[0] == LittleWord(msg[1], 0) && rs[1] == EchoChecksum(ws[1])
  {
    var r := Reply(msg);
    assert forall i | 4 <= i < |msg| :: r[i] == msg[i];
  }

  /** What changing the type from `t` to zero and the checksum from `c` does to the total. */
  lemma ReplyResidue(total: nat, total': nat, t: byte, c: word)
    requires total > 0 && total % 0xFFFF == 0
    requires total' == total - 256 * t - c + EchoChecksum(c)
    ensures total' % 0xFFFF == 0 <==> t == 8
  {
    EchoChecksumAdds(c);
    var k := if c >= 0xF800 then 1 else 0;
    var shift: int := 0x800 - 256 * t;
    assert total' == total + shift - 0xFFFF * k;
    if t == 8 {
      assert total' == total - 0xFFFF * k;
    } else {
      assert -0xFFFF < shift < 0xFFFF && shift != 0;
    }
  }

  /** For every valid request of any length, the reply is valid exactly when the
      request was of type 8; its checksum is never zero. */
  lemma ReplyValidIff(msg: seq<byte>)
    requires |msg| >= 8 && ValidMessage(msg)
    ensures ValidMessage(Reply(msg)) <==> msg[0] == 8
    ensures EchoChecksum(LittleWord(msg[3], msg[2])) != 0
  {
    hide Sum, Total, NetworkWords, Reply;
    var ws, rs := NetworkWords(msg), NetworkWords(Reply(msg));
    ReplyWords(msg);
    SplitTotal(ws);
    SplitTotal(rs);
    ValidIffMultiple(ws);
    ValidIffMultiple(rs);
    EchoChecksumAdds(ws[1]);
    ReplyResidue(Total(ws), Total(rs), msg[0], ws[1]);
  }

  /** The same in bytes: a request whose bytes weigh a multiple of 0xFFFF is answered by
      such a reply, with type zero, its own code and its own data, exactly when it was of type 8. */
  lemma ReplyByWeight(msg: seq<byte>)
    requires |msg| >= 8 && Weight(msg) > 0 && Weight(msg) % 0xFFFF == 0
    ensures var r := Reply(msg);
      && |r| == |msg| && r[0] == 0 && r[1] == msg[1] && r[4..] == msg[4..]
      && (Weight(r) > 0 && Weight(r) % 0xFFFF == 0 <==> msg[0] == 8)
  {
    hide ValidMessage, Weight;
    ValidByWeight(msg);
    ValidByWeight(Reply(msg));
    ReplyValidIff(msg);
  }
}
