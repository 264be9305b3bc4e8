/** One's complement sums of 16-bit words, as in RFC 1071, and the reference
    model that computes them byte by byte. */
module OnesComplement {
  import opened Bits
  import Modulo

  type word = x: nat | x < 0x1_0000

  /** Addition with end-around carry. */
  function CarryAroundAdd(a: word, b: word): word {
    var c := a + b;
    c % 0x1_0000 + c / 0x1_0000
  }

  /** The running sum, first word first. */
  function Sum(ws: seq<word>): word {
    if ws == [] then 0 else CarryAroundAdd(Sum(ws[..|ws| - 1]), ws[|ws| - 1])
  }

  lemma SumSnoc(ws: seq<word>, w: word)
    ensures Sum(ws + [w]) == CarryAroundAdd(Sum(ws), w)
  {
    assert (ws + [w])[..|ws|] == ws;
  }

  lemma SumEmpty()
    ensures Sum([]) == 0
  {}

  function Total(ws: seq<word>): nat {
    if ws == [] then 0 else Total(ws[..|ws| - 1]) + ws[|ws| - 1]
  }

  lemma TotalSnoc(ws: seq<word>, w: word)
    ensures Total(ws + [w]) == Total(ws) + w
  {
    assert (ws + [w])[..|ws|] == ws;
  }

  lemma {:induction false} TotalConcat(a: seq<word>, b: seq<word>)
    ensures Total(a + b) == Total(a) + Total(b)
  {
    if b == [] {
      assert a + b == a;
    } else {
      assert a + b == (a + b[..|b| - 1]) + [b[|b| - 1]];
      TotalConcat(a, b[..|b| - 1]);
      TotalSnoc(a + b[..|b| - 1], b[|b| - 1]);
    }
  }

  /** The value of a one's complement sum, defined by division: zero only for
      zero, otherwise the remainder modulo 0xFFFF taken from 1 to 0xFFFF. */
  function Normal(total: nat): word {
    if total == 0 then 0 else (total - 1) % 0xFFFF + 1
  }

  lemma NormalIs(total: nat, q: nat, r: nat)
    requires r < 0xFFFF && total == q * 0xFFFF + r + 1
    ensures Normal(total) == r + 1
  {
    Modulo.ModUnique(total - 1, q, r, 0xFFFF);
  }

  /** The carry comes around exactly when the words exceed 0xFFFF together. */
  lemma CarryAround(a: word, w: word)
    ensures CarryAroundAdd(a, w) == if a + w <= 0xFFFF then a + w else a + w - 0xFFFF
  {}

  lemma NormalAdd(total: nat, w: word)
    ensures CarryAroundAdd(Normal(total), w) == Normal(total + w)
  {
    hide CarryAroundAdd, Normal;
    CarryAround(Normal(total), w);
    if total == 0 {
      NormalOfZero();
      if w > 0 {
        NormalIs(w, 0, w - 1);
      }
    } else {
      var q, r := (total - 1) / 0xFFFF, (total - 1) % 0xFFFF;
      NormalIs(total, q, r);
      if r + w < 0xFFFF {
        NormalIs(total + w, q, r + w);
      } else {
        NormalIs(total + w, q + 1, r + w - 0xFFFF);
      }
    }
  }

  lemma NormalOfZero()
    ensures Normal(0) == 0
  {}

  /** The running sum depends only on the total: not on the order, nor on where the carries fall. */
  lemma {:induction false} SumIsNormal(ws: seq<word>)
    ensures Sum(ws) == Normal(Total(ws))
  {
    hide CarryAroundAdd, Normal;
    NormalOfZero();
    if ws != [] {
      SumIsNormal(ws[..|ws| - 1]);
      NormalAdd(Total(ws[..|ws| - 1]), ws[|ws| - 1]);
    }
  }

  /** Exchanges the two bytes of a word. */
  function Swap(w: word): word {
    w % 256 * 256 + w / 256
  }

  lemma SwapInvolution(w: word)
    ensures Swap(Swap(w)) == w
  {
    var lo: nat, hi: nat := w % 256, w / 256;
    var s: nat := Swap(w);
    assert s == lo * 256 + hi;
    assert s / 256 == lo && s % 256 == hi;
  }

  function SwapAll(ws: seq<word>): (r: seq<word>)
    ensures |r| == |ws|
  {
    seq(|ws|, i requires 0 <= i < |ws| => Swap(ws[i]))
  }

  lemma SwapIsRotation(w: nat)
    requires w < 0x1_0000
    ensures Swap(w) == 256 * w - 0xFFFF * (w / 256)
  {}

  lemma AddAsMultiple(a: nat, b: nat)
    requires a < 0x1_0000 && b < 0x1_0000
    ensures CarryAroundAdd(a, b) == a + b - 0xFFFF * ((a + b) / 0x1_0000)
    ensures CarryAroundAdd(a, b) == 0 <==> a == 0 && b == 0
  {}

  /** Two words that differ by a multiple of 0xFFFF and are zero together are equal. */
  lemma SameResidue(x: nat, y: nat, k: int)
    requires x < 0x1_0000 && y < 0x1_0000 && x - y == 0xFFFF * k
    requires x == 0 <==> y == 0
    ensures x == y
  {}

  lemma SwapAdd(a: word, b: word)
    ensures CarryAroundAdd(Swap(a), Swap(b)) == Swap(CarryAroundAdd(a, b))
  {
    hide Swap, CarryAroundAdd;
    var x: nat, y: nat, s: nat := a, b, CarryAroundAdd(a, b);
    SwapIsRotation(x);
    SwapIsRotation(y);
    SwapIsRotation(s);
    SwapZero(x);
    SwapZero(y);
    SwapZero(s);
    AddAsMultiple(x, y);
    AddAsMultiple(Swap(x), Swap(y));
    var sx: nat, sy: nat := Swap(x), Swap(y);
    SameResidue(CarryAroundAdd(Swap(x), Swap(y)), Swap(s),
      s / 256 - x / 256 - y / 256 + 256 * ((x + y) / 0x1_0000) - (sx + sy) / 0x1_0000);
  }

  lemma SwapZero(w: word)
    ensures Swap(w) == 0 <==> w == 0
  {}

  /** Summing byte-swapped words gives the byte-swapped sum. */
  lemma {:induction false} SumSwapAll(ws: seq<word>)
    ensures Sum(SwapAll(ws)) == Swap(Sum(ws))
  {
    if ws != [] {
      var n := |ws| - 1;
      SumSwapAll(ws[..n]);
      SwapAdd(Sum(ws[..n]), ws[n]);
      assert SwapAll(ws) == SwapAll(ws[..n]) + [Swap(ws[n])];
      SumSnoc(SwapAll(ws[..n]), Swap(ws[n]));
    }
  }

  /** The checksum of RFC 1071: the complement of the sum of the words in network byte order. */
  function Rfc1071(networkWords: seq<word>): word {
    0xFFFF - Sum(networkWords)
  }

  /** The totals of a valid message are the non-zero multiples of 0xFFFF. */
  lemma ValidIffMultiple(ws: seq<word>)
    ensures Sum(ws) == 0xFFFF <==> Total(ws) > 0 && Total(ws) % 0xFFFF == 0
  {
    hide Sum, Total, Normal;
    SumIsNormal(ws);
    NormalOnes(Total(ws));
  }

  lemma NormalOnes(total: nat)
    ensures Normal(total) == 0xFFFF <==> total > 0 && total % 0xFFFF == 0
  {
    if total > 0 {
      var q: nat, r: nat := (total - 1) / 0xFFFF, (total - 1) % 0xFFFF;
      assert total == q * 0xFFFF + (r + 1);
    }
  }

  // ----- The reference model

  function LittleWord(lo: byte, hi: byte): word {
    var low: nat, high: nat := lo, hi;
    low + 256 * high
  }

  /** The words of a message of even length, low byte first. */
  function LittleWords(msg: seq<byte>): (ws: seq<word>)
    requires |msg| % 2 == 0
    ensures |ws| == |msg| / 2
  {
    seq(|msg| / 2, i requires 0 <= i < |msg| / 2 => LittleWord(msg[2 * i], msg[2 * i + 1]))
  }

  method Checksum(msg: seq<byte>) returns (c: word)
    requires |msg| % 2 == 0
    ensures c == 0xFFFF - Sum(LittleWords(msg))
  {
    hide Sum, CarryAroundAdd, LittleWord;
    var s: word := 0;
    SumEmpty();
    ghost var ws := LittleWords(msg);
    var i := 0;
    assert ws[..0] == [];
    while i < |msg|
      invariant 0 <= i <= |msg| && i % 2 == 0
      invariant s == Sum(ws[..i / 2])
    {
      var w := LittleWord(msg[i], msg[i + 1]);
      SumSnoc(ws[..i / 2], ws[i / 2]);
      assert ws[..i / 2 + 1] == ws[..i / 2] + [ws[i / 2]];
      s := CarryAroundAdd(s, w);
      i := i + 2;
    }
    assert ws[..|ws|] == ws;
    c := 0xFFFF - s;
  }

  // ----- Messages in bytes

  /** A message as words in network order, an odd last byte padded with zero. */
  function NetworkWords(msg: seq<byte>): (ws: seq<word>)
    ensures |ws| == (|msg| + 1) / 2
  {
    seq((|msg| + 1) / 2, i requires 0 <= i < (|msg| + 1) / 2 =>
      LittleWord(if 2 * i + 1 < |msg| then msg[2 * i + 1] else 0, msg[2 * i]))
  }

  /** The total of a message, byte by byte: the first byte of every pair is the high one. */
  function Weight(msg: seq<byte>): nat {
    if msg == [] then 0
    else
      var n := |msg| - 1;
      var last: nat := msg[n];
      Weight(msg[..n]) + if n % 2 == 0 then 256 * last else last
  }

  lemma {:induction false} WeightIsTotal(msg: seq<byte>)
    ensures Weight(msg) == Total(NetworkWords(msg))
  {
    hide NetworkWords, Total;
    if msg == [] {
      NoWords(msg);
    } else {
      WeightIsTotal(msg[..|msg| - 1]);
      LastByteTotal(msg);
    }
  }

  lemma NoWords(msg: seq<byte>)
    requires msg == []
    ensures Total(NetworkWords(msg)) == 0
  {}

  lemma LastByteTotal(msg: seq<byte>)
    requires msg != []
    ensures var n, last: nat := |msg| - 1, msg[|msg| - 1];
      Total(NetworkWords(msg)) == Total(NetworkWords(msg[..n])) + if n % 2 == 0 then 256 * last else last
  {
    hide Total;
    var n := |msg| - 1;
    var front, ws := NetworkWords(msg[..n]), NetworkWords(msg);
    if n % 2 == 0 {
      assert ws == front + [LittleWord(0, msg[n])];
      TotalSnoc(front, LittleWord(0, msg[n]));
    } else {
      var k := n / 2;
      assert front == ws[..k] + [LittleWord(0, msg[n - 1])] && ws == ws[..k] + [LittleWord(msg[n], msg[n - 1])];
      TotalSnoc(ws[..k], LittleWord(0, msg[n - 1]));
      TotalSnoc(ws[..k], LittleWord(msg[n], msg[n - 1]));
    }
  }

  /** Words read low byte first are those in network order with their bytes exchanged. */
  lemma NetworkSwap(msg: seq<byte>)
    requires |msg| % 2 == 0
    ensures NetworkWords(msg) == SwapAll(LittleWords(msg))
  {
    forall i | 0 <= i < |msg| / 2
      ensures Swap(LittleWord(msg[2 * i], msg[2 * i + 1])) == LittleWord(msg[2 * i + 1], msg[2 * i])
    {
      SwapPair(msg[2 * i], msg[2 * i + 1]);
    }
  }

  lemma SwapPair(lo: byte, hi: byte)
    ensures Swap(LittleWord(lo, hi)) == LittleWord(hi, lo)
  {
    var w: nat, l: nat, h: nat := LittleWord(lo, hi), lo, hi;
    assert w % 256 == l && w / 256 == h;
  }

  /** All words sum to all ones, in either byte order, exactly when the bytes weigh a non-zero multiple of 0xFFFF. */
  lemma OnesByWeight(msg: seq<byte>)
    requires |msg| % 2 == 0
    ensures Sum(LittleWords(msg)) == 0xFFFF <==> Weight(msg) > 0 && Weight(msg) % 0xFFFF == 0
  {
    hide Sum, Total, Weight, LittleWords, NetworkWords, SwapAll;
    NetworkSwap(msg);
    SumSwapAll(LittleWords(msg));
    SwapOnes(Sum(LittleWords(msg)));
    WeightIsTotal(msg);
    ValidIffMultiple(NetworkWords(msg));
  }

  lemma SwapOnes(w: word)
    ensures Swap(w) == 0xFFFF <==> w == 0xFFFF
  {}
}
