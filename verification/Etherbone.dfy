/** Etherbone records: the sender turns packets of memory accesses into records,
    the receiver turns records into accesses. Packet FIFOs are queues of whole packets. */
module Etherbone {
  import opened Bits

  type word32 = x: nat | x < 0x1_0000_0000

  function Join(b0: byte, b1: byte, b2: byte, b3: byte): word32 {
    var x0: nat, x1: nat, x2: nat, x3: nat := b0, b1, b2, b3;
    x0 + 0x100 * x1 + 0x1_0000 * x2 + 0x100_0000 * x3
  }

  function ByteOf(w: word32, k: nat): byte
    requires k < 4
  {
    match k
    case 0 => w % 0x100
    case 1 => w / 0x100 % 0x100
    case 2 => w / 0x1_0000 % 0x100
    case 3 => w / 0x100_0000
  }

  function ReverseBytes(w: word32): word32 {
    Join(ByteOf(w, 3), ByteOf(w, 2), ByteOf(w, 1), ByteOf(w, 0))
  }

  /** Byte `k` is the digit of weight 256^k. */
  lemma ByteDigits(w: word32, k: nat)
    requires k < 4
    ensures ByteOf(w, k) == w / [1, 0x100, 0x1_0000, 0x100_0000][k] % 0x100
  {}

  lemma JoinBytes(b0: byte, b1: byte, b2: byte, b3: byte)
    ensures var w := Join(b0, b1, b2, b3);
      ByteOf(w, 0) == b0 && ByteOf(w, 1) == b1 && ByteOf(w, 2) == b2 && ByteOf(w, 3) == b3
  {
    var x0: nat, x1: nat, x2: nat, x3: nat := b0, b1, b2, b3;
    var w: nat := Join(b0, b1, b2, b3);
    assert w / 0x100 == x1 + 0x100 * x2 + 0x1_0000 * x3;
    assert w / 0x1_0000 == x2 + 0x100 * x3;
  }

  lemma ByteSplit(w: word32)
    ensures Join(ByteOf(w, 0), ByteOf(w, 1), ByteOf(w, 2), ByteOf(w, 3)) == w
  {
    var v: nat := w;
    assert v == v % 0x100 + 0x100 * (v / 0x100);
    assert v / 0x100 == v / 0x100 % 0x100 + 0x100 * (v / 0x1_0000);
    assert v / 0x1_0000 == v / 0x1_0000 % 0x100 + 0x100 * (v / 0x100_0000);
  }

  /** The two byte reversals cancel. */
  lemma ReverseTwice(w: word32)
    ensures ReverseBytes(ReverseBytes(w)) == w
  {
    hide Join, ByteOf;
    JoinBytes(ByteOf(w, 3), ByteOf(w, 2), ByteOf(w, 1), ByteOf(w, 0));
    ByteSplit(w);
  }

  /** Reversing puts the byte of weight 256^k at weight 256^(3 - k). */
  lemma ReversedBytes(w: word32, k: nat)
    requires k < 4
    ensures ByteOf(ReverseBytes(w), k) == ByteOf(w, 3 - k)
  {
    hide Join, ByteOf;
    JoinBytes(ByteOf(w, 3), ByteOf(w, 2), ByteOf(w, 1), ByteOf(w, 0));
  }

  /** On the wire the bytes of each word come in the order of big endian, and nothing else changes. */
  lemma WireBytes(r: Record)
    ensures OnWire(r).wcount == r.wcount && OnWire(r).rcount == r.rcount && OnWire(r).byteEnable == r.byteEnable
    ensures |OnWire(r).words| == |r.words|
    ensures forall i, k | 0 <= i < |r.words| && 0 <= k < 4 ::
      ByteOf(OnWire(r).words[i], k) == r.words[i] / [0x100_0000, 0x1_0000, 0x100, 1][k] % 0x100
  {
    hide ReverseBytes, ByteOf;
    forall i, k | 0 <= i < |r.words| && 0 <= k < 4
      ensures ByteOf(OnWire(r).words[i], k) == r.words[i] / [0x100_0000, 0x1_0000, 0x100, 1][k] % 0x100
    {
      ReversedBytes(r.words[i], k);
      ByteDigits(r.words[i], 3 - k);
    }
  }

  // ----- Records

  /** A record: how many words are written or read, and the words: a base address, then data or addresses. */
  datatype Record = Record(wcount: nat, rcount: nat, byteEnable: nat, words: seq<word32>)

  /** The same record with the bytes of every word reversed, as it travels. */
  function OnWire(r: Record): Record {
    r.(words := seq(|r.words|, k requires 0 <= k < |r.words| => ReverseBytes(r.words[k])))
  }

  lemma OnWireTwice(r: Record)
    ensures OnWire(OnWire(r)) == r
  {
    forall k | 0 <= k < |r.words| ensures OnWire(OnWire(r)).words[k] == r.words[k] {
      ReverseTwice(r.words[k]);
    }
  }

  /** A packet of memory accesses on its way into a record: `data` holds the
      values of a write, or the byte addresses of a read. */
  datatype Access = Access(we: bool, count: nat, base: word32, be: nat, data: seq<word32>)

  function RecordOf(a: Access): Record {
    Record(if a.we then a.count else 0, if a.we then 0 else a.count, a.be, [a.base] + a.data)
  }

  /** The packets taken are those already sent as records, then those still queued. */
  ghost predicate Encoded(got: seq<Access>, out: seq<Record>, fifo: seq<Access>) {
    && |got| == |out| + |fifo|
    && (forall k | 0 <= k < |out| :: out[k] == RecordOf(got[k]))
    && (forall k | 0 <= k < |fifo| :: fifo[k] == got[|out| + k])
  }

  lemma EncodedPop(got: seq<Access>, out: seq<Record>, fifo: seq<Access>)
    requires Encoded(got, out, fifo) && fifo != []
    ensures Encoded(got, out + [RecordOf(fifo[0])], fifo[1..])
  {}

  lemma EncodedPush(got: seq<Access>, out: seq<Record>, fifo: seq<Access>, push: seq<Access>)
    requires Encoded(got, out, fifo)
    ensures Encoded(got + push, out, fifo + push)
  {}

  datatype SenderState = SIdle | SBase | SData

  /** Turns packets of accesses into records, word by word. */
  class RecordSender {
    var state: SenderState
    var fifo: seq<Access>
    var pos: nat                       // data words of the head already sent
    ghost var words: seq<word32>       // words sent of the record in progress
    ghost var out: seq<Record>         // records completed
    ghost var got: seq<Access>

    /** Every packet becomes its record: base address first, then the data in order. */
    ghost predicate Valid()
      reads this
    {
      && Encoded(got, out, fifo)
      && (forall a | a in fifo :: a.data != [])
      && match state
         case SIdle => words == [] && pos == 0
         case SBase => fifo != [] && words == [] && pos == 0
         case SData => fifo != [] && pos < |fifo[0].data| && words == [fifo[0].base] + fifo[0].data[..pos]
    }

    constructor ()
      ensures Valid() && out == [] && fifo == [] && state == SIdle
    {
      state, fifo, pos, words, out, got := SIdle, [], 0, [], [], [];
    }

    predicate SourceValid()
      reads this
    {
      state != SIdle
    }

    /** The word offered completes a record. */
    predicate Completes()
      reads this
    {
      state == SData && fifo != [] && pos + 1 == |fifo[0].data|
    }

    method Tick(push: seq<Access>, ready: bool)
      requires Valid() && |push| <= 1 && forall a | a in push :: a.data != []
      modifies this
      ensures Valid()
      ensures got == old(got) + push
      ensures fifo == (if old(Completes()) && ready then old(fifo)[1..] else old(fifo)) + push
      ensures out == old(out) + if old(Completes()) && ready then [RecordOf(old(fifo)[0])] else []
      ensures state == match old(state)
        case SIdle => if old(fifo) != [] then SBase else SIdle
        case SBase => if ready then SData else SBase
        case SData => if ready && old(Completes()) then SIdle else SData
      ensures pos == if old(state) == SData && ready then (if old(Completes()) then 0 else old(pos) + 1) else old(pos)
    {
      hide Encoded;
      match state {
        case SIdle =>
          if fifo != [] {
            state := SBase;
          }
        case SBase =>
          if ready {
            words := [fifo[0].base];
            assert fifo[0].data[..0] == [];
            state := SData;
          }
        case SData =>
          if ready {
            SendWord();
          }
      }
      EncodedPush(got, out, fifo, push);
      fifo, got := fifo + push, got + push;
    }

    method SendWord()
      requires Valid() && state == SData
      modifies this`state, this`fifo, this`pos, this`words, this`out
      ensures Valid()
      ensures fifo == if old(Completes()) then old(fifo)[1..] else old(fifo)
      ensures out == old(out) + if old(Completes()) then [RecordOf(old(fifo)[0])] else []
      ensures state == if old(Completes()) then SIdle else SData
      ensures pos == if old(Completes()) then 0 else old(pos) + 1
    {
      hide Encoded;
      var a := fifo[0];
      assert words + [a.data[pos]] == [a.base] + a.data[..pos + 1];
      words, pos := words + [a.data[pos]], pos + 1;
      if pos == |a.data| {
        EncodedPop(got, out, fifo);
        assert a.data[..pos] == a.data;
        out := out + [Record(if a.we then a.count else 0, if a.we then 0 else a.count, a.be, words)];
        words, pos, fifo, state := [], 0, fifo[1..], SIdle;
      }
    }
  }

  /** One memory access on its way to the bus. */
  datatype Beat = Beat(we: bool, count: nat, base: word32, be: nat, addr: nat, data: word32, last: bool)

  /** A record that only writes or only reads, with as many words as it announces. */
  predicate Pure(r: Record) {
    || (r.rcount == 0 && r.wcount > 0 && |r.words| == r.wcount + 1)
    || (r.wcount == 0 && r.rcount > 0 && |r.words| == r.rcount + 1)
  }

  /** Access `k` of a record: writes go to consecutive words from the base
      address, reads to the addresses listed, for the return address at the base. */
  function BeatOf(r: Record, k: nat): Beat
    requires Pure(r) && k + 1 < |r.words|
  {
    if r.wcount > 0 then
      Beat(true, r.wcount, 0, r.byteEnable, r.words[0] / 4 + k, r.words[k + 1], k + 1 == r.wcount)
    else
      Beat(false, r.rcount, r.words[0], 0, r.words[k + 1] / 4, 0, k + 1 == r.rcount)
  }

  function BeatsOf(r: Record): (b: seq<Beat>)
    requires Pure(r)
    ensures |b| == |r.words| - 1
  {
    seq(|r.words| - 1, k requires 0 <= k < |r.words| - 1 => BeatOf(r, k))
  }

  datatype ReceiverState = RIdle | RWrites | RBaseRetAddr | RReads

  /** Turns records into memory accesses. */
  class RecordReceiver {
    var state: ReceiverState
    var fifo: seq<Record>
    var pos: nat                   // words popped of the head record
    var base: word32
    var count: nat
    ghost var beats: seq<Beat>     // accesses handed on since the last record was completed
    ghost var done: seq<Record>    // records completed
    ghost var sent: seq<seq<Beat>> // accesses handed on for them
    ghost var pure: bool           // every record only writes or only reads

    ghost predicate Valid()
      reads this
    {
      && (forall r | r in fifo :: r.words != [])
      && (if fifo == [] then pos == 0 else pos < |fifo[0].words|)
      && (pure ==> Orderly())
    }

    /** Each record is turned into exactly its accesses. */
    ghost predicate Orderly()
      reads this
    {
      && (forall r | r in fifo :: Pure(r))
      && Translated(done, sent)
      && match state
         case RIdle => pos == 0 && beats == []
         case RWrites => fifo != [] && fifo[0].wcount > 0 && Inside(fifo[0], pos, count, base, beats)
         case RReads => fifo != [] && fifo[0].rcount > 0 && Inside(fifo[0], pos, count, base, beats)
         case RBaseRetAddr => false
    }

    constructor ()
      ensures Valid() && fifo == [] && state == RIdle && done == [] && pure
    {
      state, fifo, pos, base, count, beats, done, sent, pure := RIdle, [], 0, 0, 0, [], [], [], true;
    }

    predicate SourceValid()
      reads this
    {
      state in {RWrites, RReads} && fifo != []
    }

    function SourceBeat(): Beat
      requires fifo != [] && pos < |fifo[0].words|
      reads this
    {
      var w := fifo[0].words[pos];
      if state == RWrites then
        Beat(true, fifo[0].wcount, 0, fifo[0].byteEnable, base / 4 + count, w, count + 1 == fifo[0].wcount)
      else
        Beat(false, fifo[0].rcount, base, 0, w / 4, 0, count + 1 == fifo[0].rcount)
    }

    predicate Takes(ready: bool)
      reads this
    {
      SourceValid() && ready
    }

    predicate Pops(ready: bool)
      reads this
    {
      Takes(ready) || (state == RIdle && fifo != [])
    }

    predicate LastWord()
      reads this
    {
      fifo != [] && pos + 1 == |fifo[0].words|
    }

    function NextState(ready: bool): ReceiverState
      requires fifo != [] ==> pos < |fifo[0].words|
      reads this
    {
      match state
      case RIdle =>
        if fifo == [] then RIdle
        else if fifo[0].wcount > 0 then RWrites else if fifo[0].rcount > 0 then RReads else RIdle
      case RWrites =>
        if Takes(ready) && SourceBeat().last then (if fifo[0].rcount > 0 then RBaseRetAddr else RIdle) else RWrites
      case RBaseRetAddr => if fifo != [] then RReads else RBaseRetAddr
      case RReads => if Takes(ready) && SourceBeat().last then RIdle else RReads
    }

    method Tick(push: seq<Record>, ready: bool)
      requires Valid() && |push| <= 1 && forall r | r in push :: r.words != []
      modifies this
      ensures Valid()
      ensures pure == (old(pure) && forall r | r in push :: Pure(r))
      ensures fifo == (if old(Pops(ready)) && old(LastWord()) then old(fifo)[1..] else old(fifo)) + push
      ensures pos == if !old(Pops(ready)) then old(pos) else if old(LastWord()) then 0 else old(pos) + 1
      ensures base ==
        if old(state) in {RIdle, RBaseRetAddr} && old(fifo) != [] then old(fifo)[0].words[old(pos)] else old(base)
      ensures count == if old(state) in {RIdle, RBaseRetAddr} then 0
        else old(count) + if old(Takes(ready)) then 1 else 0
      ensures state == old(NextState(ready))
      ensures done == old(done) + if old(Takes(ready)) && old(LastWord()) then [old(fifo)[0]] else []
      ensures beats == if !old(Takes(ready)) then old(beats)
        else if old(LastWord()) then [] else old(beats) + [old(SourceBeat())]
    {
      hide BeatOf, Translated, Inside, Pure, NextState, SourceBeat;
      Step(ready);
      pure := pure && forall r | r in push :: Pure(r);
      fifo := fifo + push;
    }

    /** The state machine, before a record arrives. */
    method Step(ready: bool)
      requires Valid()
      modifies this
      ensures Valid() && pure == old(pure) && state == old(NextState(ready))
      ensures fifo == if old(Pops(ready)) && old(LastWord()) then old(fifo)[1..] else old(fifo)
      ensures pos == if !old(Pops(ready)) then old(pos) else if old(LastWord()) then 0 else old(pos) + 1
      ensures base ==
        if old(state) in {RIdle, RBaseRetAddr} && old(fifo) != [] then old(fifo)[0].words[old(pos)] else old(base)
      ensures count == if old(state) in {RIdle, RBaseRetAddr} then 0
        else old(count) + if old(Takes(ready)) then 1 else 0
      ensures done == old(done) + if old(Takes(ready)) && old(LastWord()) then [old(fifo)[0]] else []
      ensures beats == if !old(Takes(ready)) then old(beats)
        else if old(LastWord()) then [] else old(beats) + [old(SourceBeat())]
    {
      hide BeatOf, Translated, Inside, SourceBeat, Pure;
      match state {
        case RIdle =>
          count := 0;
          if fifo != [] {
            Begin();
          }
        case RWrites =>
          if SourceValid() && ready {
            TakeBeat();
          }
        case RBaseRetAddr =>
          count := 0;
          if fifo != [] {
            base := fifo[0].words[pos];
            state := RReads;
          }
        case RReads =>
          if SourceValid() && ready {
            TakeBeat();
          }
      }
    }

    /** The base address is popped. */
    method Begin()
      requires Valid() && state == RIdle && fifo != [] && count == 0
      modifies this`state, this`fifo, this`pos, this`base
      ensures Valid()
      ensures base == old(fifo)[0].words[old(pos)] && state == old(NextState(false))
      ensures fifo == if old(LastWord()) then old(fifo)[1..] else old(fifo)
      ensures pos == if old(LastWord()) then 0 else old(pos) + 1
    {
      hide Translated, Inside, BeatsOf;
      var r := fifo[0];
      if pure {
        InsideFirst(r);
      }
      base := r.words[pos];
      if r.wcount != 0 {
        state := RWrites;
      } else if r.rcount != 0 {
        state := RReads;
      }
      Pop();
    }

    method TakeBeat()
      requires Valid() && SourceValid()
      modifies this
      ensures Valid() && pure == old(pure) && base == old(base) && count == old(count) + 1
      ensures state == old(NextState(true))
      ensures fifo == if old(LastWord()) then old(fifo)[1..] else old(fifo)
      ensures pos == if old(LastWord()) then 0 else old(pos) + 1
      ensures done == old(done) + if old(LastWord()) then [old(fifo)[0]] else []
      ensures beats == if old(LastWord()) then [] else old(beats) + [old(SourceBeat())]
    {
      hide Translated, Inside, BeatOf;
      var b, r := SourceBeat(), fifo[0];
      if pure {
        InsideNext(r, pos, count, base, beats);
      }
      beats, count := beats + [b], count + 1;
      if b.last {
        state := if state == RWrites && r.rcount != 0 then RBaseRetAddr else RIdle;
      }
      if pos + 1 == |r.words| {
        if pure {
          TranslatedSnoc(done, sent, r, beats);
        }
        done, sent, beats := done + [r], sent + [beats], [];
      }
      Pop();
    }

    method Pop()
      requires fifo != [] && pos < |fifo[0].words| && forall r | r in fifo :: r.words != []
      modifies this`fifo, this`pos
      ensures forall r | r in fifo :: r in old(fifo)
      ensures if old(pos) + 1 == |old(fifo)[0].words| then fifo == old(fifo)[1..] && pos == 0
        else fifo == old(fifo) && pos == old(pos) + 1
    {
      if pos + 1 == |fifo[0].words| {
        fifo, pos := fifo[1..], 0;
      } else {
        pos := pos + 1;
      }
    }
  }

  ghost predicate Translated(done: seq<Record>, sent: seq<seq<Beat>>) {
    |sent| == |done| && forall k | 0 <= k < |done| :: Pure(done[k]) && sent[k] == BeatsOf(done[k])
  }

  lemma TranslatedSnoc(done: seq<Record>, sent: seq<seq<Beat>>, r: Record, beats: seq<Beat>)
    requires Translated(done, sent) && Pure(r) && beats == BeatsOf(r)
    ensures Translated(done + [r], sent + [beats])
  {}

  /** `count` accesses of a record have been handed on. */
  ghost predicate Inside(r: Record, pos: nat, count: nat, base: word32, beats: seq<Beat>) {
    Pure(r) && pos == count + 1 < |r.words| && base == r.words[0] && beats == BeatsOf(r)[..count]
  }

  lemma InsideFirst(r: Record)
    requires Pure(r)
    ensures Inside(r, 1, 0, r.words[0], [])
    ensures r.wcount > 0 || r.rcount > 0
    ensures |r.words| > 1
  {}

  lemma InsideNext(r: Record, pos: nat, count: nat, base: word32, beats: seq<Beat>)
    requires Inside(r, pos, count, base, beats)
    ensures var b := BeatOf(r, count);
      && (b.last <==> pos + 1 == |r.words|)
      && (if b.last then beats + [b] == BeatsOf(r) else Inside(r, pos + 1, count + 1, base, beats + [b]))
      && b == if r.wcount > 0 then
            Beat(true, r.wcount, 0, r.byteEnable, base / 4 + count, r.words[pos], count + 1 == r.wcount)
          else Beat(false, r.rcount, base, 0, r.words[pos] / 4, 0, count + 1 == r.rcount)
  {
    assert BeatsOf(r)[..count + 1] == BeatsOf(r)[..count] + [BeatOf(r, count)];
    if pos + 1 == |r.words| {
      assert BeatsOf(r)[..count + 1] == BeatsOf(r);
    }
  }

  /** What the receiver hands on for a record that both writes and reads. */
  function MixedBeat(r: Record, k: nat): Beat
    requires r.wcount > 0 && r.rcount > 0 && |r.words| == r.wcount + r.rcount + 2 && k < r.wcount + r.rcount
  {
    if k < r.wcount then
      Beat(true, r.wcount, 0, r.byteEnable, r.words[0] / 4 + k, r.words[k + 1], k + 1 == r.wcount)
    else
      Beat(false, r.rcount, r.words[r.wcount + 1], 0, r.words[k + 1] / 4, 0, k + 1 == r.wcount + r.rcount)
  }

  /** A record that both writes and reads is not handled: after the writes, the
      return address is also taken for the first address to read, every read is
      one place off, and the last address stays in the FIFO to be mistaken for
      a base address. Records that only write or only read are consumed whole. */
  method MixedRecord(c: RecordReceiver, r: Record)
    requires c.Valid() && c.state == RIdle && c.fifo == [] && c.beats == []
    requires r.wcount > 0 && r.rcount > 0 && |r.words| == r.wcount + r.rcount + 2
    modifies c
    ensures c.state == RIdle && c.fifo == [r] && c.pos == |r.words| - 1
    ensures c.beats == seq(r.wcount + r.rcount, k requires 0 <= k < r.wcount + r.rcount => MixedBeat(r, k))
  {
    c.Tick([r], true);
    c.Tick([], true);
    MixedWrites(c, r);
    c.Tick([], true);
    MixedReads(c, r);
  }

  method MixedWrites(c: RecordReceiver, r: Record)
    requires r.wcount > 0 && r.rcount > 0 && |r.words| == r.wcount + r.rcount + 2
    requires c.Valid() && c.state == RWrites && c.fifo == [r] && c.pos == 1 && c.count == 0 && c.beats == []
    requires c.base == r.words[0]
    modifies c
    ensures c.Valid() && c.state == RBaseRetAddr && c.fifo == [r] && c.pos == r.wcount + 1
    ensures |c.beats| == r.wcount && forall j | 0 <= j < r.wcount :: c.beats[j] == MixedBeat(r, j)
  {
    hide RecordReceiver.Orderly;
    for k := 0 to r.wcount
      invariant c.Valid() && c.fifo == [r] && c.pos == k + 1 && c.count == k && c.base == r.words[0]
      invariant c.state == if k < r.wcount then RWrites else RBaseRetAddr
      invariant |c.beats| == k && forall j | 0 <= j < k :: c.beats[j] == MixedBeat(r, j)
    {
      c.Tick([], true);
    }
  }

  method MixedReads(c: RecordReceiver, r: Record)
    requires r.wcount > 0 && r.rcount > 0 && |r.words| == r.wcount + r.rcount + 2
    requires c.Valid() && c.state == RReads && c.fifo == [r] && c.pos == r.wcount + 1 && c.count == 0
    requires c.base == r.words[r.wcount + 1]
    requires |c.beats| == r.wcount && forall j | 0 <= j < r.wcount :: c.beats[j] == MixedBeat(r, j)
    modifies c
    ensures c.Valid() && c.state == RIdle && c.fifo == [r] && c.pos == |r.words| - 1
    ensures |c.beats| == r.wcount + r.rcount
    ensures forall j | 0 <= j < r.wcount + r.rcount :: c.beats[j] == MixedBeat(r, j)
  {
    hide RecordReceiver.Orderly;
    for k := 0 to r.rcount
      invariant c.Valid() && c.fifo == [r] && c.pos == r.wcount + 1 + k && c.count == k
      invariant c.base == r.words[r.wcount + 1]
      invariant c.state == if k < r.rcount then RReads else RIdle
      invariant |c.beats| == r.wcount + k && forall j | 0 <= j < r.wcount + k :: c.beats[j] == MixedBeat(r, j)
    {
      c.Tick([], true);
    }
  }

  /** A record with as many words as it announces: a base address before the data of its
      writes, and one before the addresses of its reads. */
  predicate Announced(r: Record) {
    && r.wcount + r.rcount > 0
    && |r.words| == r.wcount + r.rcount + (if r.wcount > 0 then 1 else 0) + if r.rcount > 0 then 1 else 0
  }

  /** A record that only writes or only reads is consumed whole. */
  method PureRecord(c: RecordReceiver, r: Record)
    requires c.Valid() && c.state == RIdle && c.fifo == [] && c.beats == []
    requires Announced(r) && Pure(r)
    modifies c
    ensures c.Valid() && c.state == RIdle && c.fifo == [] && c.pos == 0 && c.done == old(c.done) + [r]
  {
    hide RecordReceiver.Orderly;
    c.Tick([r], true);
    c.Tick([], true);
    var n := r.wcount + r.rcount;
    for k := 0 to n
      invariant c.Valid() && c.count == k
      invariant c.state == if k == n then RIdle else if r.wcount > 0 then RWrites else RReads
      invariant if k < n then c.fifo == [r] && c.pos == k + 1 else c.fifo == [] && c.pos == 0
      invariant c.done == old(c.done) + if k < n then [] else [r]
    {
      c.Tick([], true);
    }
  }

  /** A record is consumed whole if and only if it only writes or only reads. */
  method ConsumedIff(c: RecordReceiver, r: Record)
    requires c.Valid() && c.state == RIdle && c.fifo == [] && c.beats == [] && Announced(r)
    modifies c
    ensures c.state == RIdle
    ensures c.fifo == [] && c.pos == 0 <==> Pure(r)
  {
    if r.wcount > 0 && r.rcount > 0 {
      MixedRecord(c, r);
    } else {
      PureRecord(c, r);
    }
  }
}
