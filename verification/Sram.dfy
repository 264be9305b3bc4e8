/** The packet memories between software and the MAC: a reader that sends a
    slot as a frame, and a writer that stores a frame in the next slot. */
module Sram {
  import opened Modulo

  datatype Endianness = Big | Little

  /** One 32-bit beat; `lastBe` marks the last valid byte lane of the last beat,
      and `error` says whether the error flag of that lane is set. */
  datatype Beat = Beat(data: bv32, last: bool, lastBe: nat, error: bool)

  const ETH_MTU: nat := 1530

  /** The last byte lane of a frame whose length is `lsb` modulo four. */
  function LastLane(e: Endianness, lsb: nat): nat
    requires lsb < 4
  {
    match e
    case Big => if lsb == 0 then 1 else if lsb == 1 then 8 else if lsb == 2 then 4 else 2
    case Little => if lsb == 0 then 8 else if lsb == 1 then 1 else if lsb == 2 then 2 else 4
  }

  /** The bytes a beat counts for. */
  function Increment(e: Endianness, lastBe: nat): (n: nat)
    ensures 1 <= n <= 4
  {
    match e
    case Big => if lastBe == 8 then 1 else if lastBe == 4 then 2 else if lastBe == 2 then 3 else 4
    case Little => if lastBe == 1 then 1 else if lastBe == 2 then 2 else if lastBe == 4 then 3 else 4
  }

  /** Byte lane `i` is marked by 2^i. Big endian fills a word from lane 3 down, little
      endian from lane 0 up: the lane marked is that of the last byte of the frame. */
  lemma LastByteLane(e: Endianness, length: nat)
    requires length > 0
    ensures LastLane(e, length % 4) == [1, 2, 4, 8][if e.Big? then 3 - (length - 1) % 4 else (length - 1) % 4]
  {
    assert length == length / 4 * 4 + length % 4;
  }

  /** And the bytes counted for a beat are those up to the lane marked; a beat without a mark is full. */
  lemma LaneCounts(e: Endianness, lane: nat)
    ensures lane < 4 ==> Increment(e, [1, 2, 4, 8][lane]) == if e.Big? then 4 - lane else lane + 1
    ensures lane !in [1, 2, 4, 8] ==> Increment(e, lane) == 4
  {}

  /** The beats needed for a frame of `length` bytes. */
  function Beats(length: nat): nat {
    (length + 3) / 4
  }

  /** The frame a slot holds. */
  function FrameOf(e: Endianness, mem: seq<bv32>, length: nat): (f: seq<Beat>)
    requires length <= 4 * |mem|
    ensures |f| == Beats(length)
  {
    seq(Beats(length), k requires 0 <= k < Beats(length) =>
      var last := k == Beats(length) - 1;
      Beat(mem[k], last, if last then LastLane(e, length % 4) else 0, false))
  }

  function Data(f: seq<Beat>): (d: seq<bv32>)
    ensures |d| == |f|
  {
    seq(|f|, k requires 0 <= k < |f| => f[k].data)
  }

  /** A frame is the first words of its slot, as many as its bytes fill, and the last is marked as such. */
  lemma FrameLayout(e: Endianness, mem: seq<bv32>, length: nat)
    requires length <= 4 * |mem|
    ensures var f := FrameOf(e, mem, length);
      && Data(f) == mem[..(length + 3) / 4]
      && (forall k | 0 <= k < |f| :: f[k].last <==> k == |f| - 1)
      && (forall k | 0 <= k < |f| - 1 :: f[k].lastBe == 0)
      && forall k | 0 <= k < |f| :: !f[k].error
  {}

  /** The length the writer counts for a frame. */
  function Counted(e: Endianness, f: seq<Beat>): nat {
    if f == [] then 0 else Counted(e, f[..|f| - 1]) + Increment(e, f[|f| - 1].lastBe)
  }

  lemma CountedSnoc(e: Endianness, f: seq<Beat>, b: Beat)
    ensures Counted(e, f + [b]) == Counted(e, f) + Increment(e, b.lastBe)
  {
    assert (f + [b])[..|f|] == f;
  }

  /** Beats before the last count for four bytes each. */
  lemma {:induction false} CountedPrefix(e: Endianness, mem: seq<bv32>, length: nat, k: nat)
    requires length <= 4 * |mem| && k < Beats(length)
    ensures Counted(e, FrameOf(e, mem, length)[..k]) == 4 * k
  {
    if k > 0 {
      var f := FrameOf(e, mem, length);
      CountedPrefix(e, mem, length, k - 1);
      assert f[..k] == f[..k - 1] + [f[k - 1]];
      CountedSnoc(e, f[..k - 1], f[k - 1]);
    }
  }

  /** For either endianness the writer's count of the reader's frame is the length commanded. */
  lemma CountedIsLength(e: Endianness, mem: seq<bv32>, length: nat)
    requires 0 < length <= 4 * |mem|
    ensures Counted(e, FrameOf(e, mem, length)) == length
  {
    var f, n := FrameOf(e, mem, length), Beats(length);
    CountedPrefix(e, mem, length, n - 1);
    assert f == f[..n - 1] + [f[n - 1]];
    CountedSnoc(e, f[..n - 1], f[n - 1]);
    LastBeatCount(e, length);
  }

  lemma LastBeatCount(e: Endianness, length: nat)
    requires length > 0
    ensures 4 * (Beats(length) - 1) + Increment(e, LastLane(e, length % 4)) == length
  {}

  // ----- Reader

  datatype Command = Command(slot: nat, length: nat)

  /** `frame` has been sent, and `word` at the output is the one the counter points at. */
  ghost predicate SendingAt(e: Endianness, mem: seq<bv32>, length: nat, counter: nat, frame: seq<Beat>, word: bv32) {
    && 4 <= length <= 4 * |mem|
    && counter == 4 * |frame| && |frame| < Beats(length)
    && frame == FrameOf(e, mem, length)[..|frame|]
    && word == mem[|frame|]
  }

  lemma BeatKeeps(e: Endianness, mem: seq<bv32>, length: nat, counter: nat, frame: seq<Beat>, word: bv32)
    requires SendingAt(e, mem, length, counter, frame, word)
    ensures var last := counter >= length - 4;
      var frame' := frame + [Beat(word, last, if last then LastLane(e, length % 4) else 0, false)];
      if last then frame' == FrameOf(e, mem, length)
      else (counter + 4) / 4 < |mem| && SendingAt(e, mem, length, counter + 4, frame', mem[(counter + 4) / 4])
  {
    var f, k := FrameOf(e, mem, length), |frame|;
    hide LastLane;
    assert f[..k + 1] == f[..k] + [f[k]];
    assert counter >= length - 4 <==> k == Beats(length) - 1;
    var final := k == Beats(length) - 1;
    assert f[k] == Beat(mem[k], final, if final then LastLane(e, length % 4) else 0, false);
    assert f[..|f|] == f;
  }

  lemma CounterBelow(e: Endianness, mem: seq<bv32>, length: nat, counter: nat, frame: seq<Beat>, word: bv32)
    requires SendingAt(e, mem, length, counter, frame, word)
    ensures counter < 4 * |mem| && counter % 4 == 0
  {
    hide FrameOf;
  }

  lemma SmallModulo(n: nat, d: nat)
    requires n < d
    ensures n % d == n
  {}

  /** A command within the range the length counter is made for. */
  predicate InRange(c: Command, mems: seq<seq<bv32>>) {
    c.slot < |mems| && 4 <= c.length <= 4 * |mems[c.slot]|
  }

  /** Every frame sent is the frame of the slot and length commanded. */
  ghost predicate Served(e: Endianness, mems: seq<seq<bv32>>, sent: seq<seq<Beat>>, served: seq<Command>) {
    && |sent| == |served|
    && forall k | 0 <= k < |served| && InRange(served[k], mems) ::
      sent[k] == FrameOf(e, mems[served[k].slot], served[k].length)
  }

  lemma ServedSnoc(e: Endianness, mems: seq<seq<bv32>>, sent: seq<seq<Beat>>, served: seq<Command>, f: seq<Beat>,
                   c: Command)
    requires Served(e, mems, sent, served)
    requires InRange(c, mems) ==> f == FrameOf(e, mems[c.slot], c.length)
    ensures Served(e, mems, sent + [f], served + [c])
  {}

  /** The counter moves in whole words, as the number of its values is a power of two. */
  predicate Aligned(counter: nat, wrap: nat) {
    counter < wrap && (wrap % 4 == 0 ==> counter % 4 == 0)
  }

  lemma AlignedNext(counter: nat, wrap: nat)
    requires Aligned(counter, wrap) && wrap > 4
    ensures Aligned((counter + 4) % wrap, wrap)
    ensures (counter + 4) % wrap == if counter + 4 < wrap then counter + 4 else counter + 4 - wrap
  {
    hide Aligned;
    assert counter < wrap by {
      AlignedSmall(counter, wrap);
    }
    WrapOnce(counter + 4, wrap);
    AlignedAfter(counter, wrap, if counter + 4 < wrap then counter + 4 else counter + 4 - wrap);
  }

  lemma AlignedSmall(counter: nat, wrap: nat)
    requires Aligned(counter, wrap)
    ensures counter < wrap
  {}

  lemma WrapOnce(n: nat, p: nat)
    requires p > 0 && n < 2 * p
    ensures n % p == if n < p then n else n - p
  {
    ModUnique(n, if n < p then 0 else 1, if n < p then n else n - p, p);
  }

  lemma AlignedAfter(counter: nat, wrap: nat, next: nat)
    requires Aligned(counter, wrap) && wrap > 4
    requires next == if counter + 4 < wrap then counter + 4 else counter + 4 - wrap
    ensures Aligned(next, wrap)
  {}

  datatype ReaderState = Idle | Send | End

  class Reader {
    const endianness: Endianness
    const depth: nat
    const wrap: nat          // number of values of the length counters
    const mems: seq<seq<bv32>>
    var state: ReaderState
    var commands: seq<Command>
    var counter: nat
    var dataR: seq<bv32>     // output registers of the memory ports
    ghost var frame: seq<Beat>         // beats sent of the frame in progress
    ghost var sent: seq<seq<Beat>>     // frames completed
    ghost var served: seq<Command>     // the commands they belong to

    ghost predicate Valid()
      reads this
    {
      && Base()
      && Served(endianness, mems, sent, served)
      && match state
         case Idle => frame == []
         case Send => commands != [] && (InRange(commands[0], mems) ==> Sending(commands[0]))
         case End => commands != [] && (InRange(commands[0], mems) ==>
             frame == FrameOf(endianness, mems[commands[0].slot], commands[0].length))
    }

    ghost predicate Base()
      reads this
    {
      && depth > 0 && wrap > 4 * depth && |mems| == |dataR| > 0 && Aligned(counter, wrap)
      && (forall m | m in mems :: |m| == depth)
      && (forall c | c in commands :: c.slot < |mems|)
    }

    /** The word on the output is always the one the counter points at. */
    ghost predicate Sending(c: Command)
      requires InRange(c, mems) && Base()
      reads this
    {
      SendingAt(endianness, mems[c.slot], c.length, counter, frame, dataR[c.slot])
    }

    constructor (endianness: Endianness, mems: seq<seq<bv32>>, depth: nat, wrap: nat)
      requires depth > 0 && wrap > 4 * depth && mems != [] && forall m | m in mems :: |m| == depth
      ensures Valid() && state == Idle && commands == [] && sent == []
      ensures this.endianness == endianness && this.mems == mems && this.depth == depth
    {
      this.endianness, this.mems, this.depth, this.wrap := endianness, mems, depth, wrap;
      state, commands, counter, dataR := Idle, [], 0, seq(|mems|, _ => 0);
      frame, sent, served := [], [], [];
    }

    predicate SourceValid()
      reads this
    {
      state == Send
    }

    /** The subtraction is unsigned: for lengths below four it wraps around. */
    predicate SourceLast()
      requires commands != []
      reads this`commands, this`counter
    {
      counter >= (if commands[0].length >= 4 then commands[0].length - 4 else commands[0].length + wrap - 4)
    }

    function SourceBeat(): Beat
      requires Valid() && state == Send
      reads this
    {
      Beat(dataR[commands[0].slot], SourceLast(),
           if SourceLast() then LastLane(endianness, commands[0].length % 4) else 0, false)
    }

    function NextState(ready: bool): ReaderState
      requires state == Send ==> commands != []
      reads this`state, this`commands, this`counter
    {
      match state
      case Idle => if commands != [] then Send else Idle
      case Send => if ready && SourceLast() then End else Send
      case End => Idle
    }

    ghost function NextFrame(ready: bool): seq<Beat>
      requires Valid()
      reads this
    {
      if state == End then [] else frame + if state == Send && ready then [SourceBeat()] else []
    }

    ghost function NextSent(): seq<seq<Beat>>
      reads this`state, this`sent, this`frame
    {
      sent + if state == End then [frame] else []
    }

    /** One clock; `command` is what software starts in this cycle, if anything. */
    method Tick(ready: bool, command: seq<Command>)
      requires Valid() && |command| <= 1 && forall c | c in command :: c.slot < |mems|
      modifies this
      ensures Valid()
      ensures frame == old(NextFrame(ready)) && sent == old(NextSent())
      ensures served == old(served) + if old(state) == End then [old(commands[0])] else []
      ensures commands == (if old(state) == End then old(commands)[1..] else old(commands)) + command
      ensures state == old(NextState(ready))
      ensures counter == match old(state)
        case Idle => 0
        case Send => if ready then (old(counter) + 4) % wrap else old(counter)
        case End => old(counter)
    {
      hide FrameOf, SendingAt, Served, SourceLast;
      match state {
        case Idle =>
          Fetch();
        case Send =>
          if ready {
            TakeBeat();
          } else {
            Hold();
          }
        case End =>
          Finish();
      }
      commands := commands + command;
    }

    /** Waiting for a command, with the first word of every slot being read. */
    method Fetch()
      requires Valid() && state == Idle
      modifies this`counter, this`dataR, this`state
      ensures Valid() && counter == 0 && state == if commands != [] then Send else Idle
    {
      hide Served;
      counter := 0;
      ReadPorts(0);
      if commands != [] {
        state := Send;
        FirstWord();
      }
    }

    lemma FirstWord()
      requires Base() && commands != [] && counter == 0 && frame == []
      requires forall n | 0 <= n < |mems| :: dataR[n] == Port(n, 0)
      ensures InRange(commands[0], mems) ==> Sending(commands[0])
    {
      var c := commands[0];
      if InRange(c, mems) {
        PortInRange(c.slot, 0);
        assert FrameOf(endianness, mems[c.slot], c.length)[..0] == [];
      }
    }

    /** The sink is not ready: the same word is read again. */
    method Hold()
      requires Valid() && state == Send
      modifies this`dataR
      ensures Valid()
    {
      hide FrameOf, Served, SendingAt, Port;
      WordHeld();
      ReadPorts(counter);
    }

    lemma WordHeld()
      requires Valid() && state == Send
      ensures var c := commands[0]; InRange(c, mems) ==> Port(c.slot, counter) == dataR[c.slot]
    {
      hide FrameOf, Served;
      if InRange(commands[0], mems) {
        PortInRange(commands[0].slot, counter);
      }
    }

    /** A beat is taken: the ports already read the word after it. */
    method TakeBeat()
      requires Valid() && state == Send
      modifies this`frame, this`counter, this`dataR, this`state
      ensures Valid()
      ensures frame == old(frame) + [old(SourceBeat())]
      ensures state == (if old(SourceLast()) then End else Send) && counter == (old(counter) + 4) % wrap
    {
      hide FrameOf, LastLane, SendingAt, Served, SourceLast, InRange, Port;
      var c, beat, last := commands[0], SourceBeat(), SourceLast();
      if InRange(c, mems) {
        BeatToTake(c);
      }
      var next := (counter + 4) % wrap;
      AlignedNext(counter, wrap);
      counter := next;
      ReadPorts(next);
      frame, state := frame + [beat], if last then End else Send;
    }

    /** Taking the beat on the output keeps the next one in step, or completes the frame. */
    lemma BeatToTake(c: Command)
      requires Valid() && state == Send && c == commands[0] && InRange(c, mems)
      ensures var next := (counter + 4) % wrap;
        if SourceLast() then frame + [SourceBeat()] == FrameOf(endianness, mems[c.slot], c.length)
        else SendingAt(endianness, mems[c.slot], c.length, next, frame + [SourceBeat()], Port(c.slot, next))
    {
      hide FrameOf, LastLane, Served;
      BeatKeeps(endianness, mems[c.slot], c.length, counter, frame, dataR[c.slot]);
      CounterInRange(c);
      SmallModulo(counter + 4, wrap);
      if (counter + 4) / 4 < depth {
        PortInRange(c.slot, counter + 4);
      }
    }

    method Finish()
      requires Valid() && state == End
      modifies this`frame, this`sent, this`served, this`commands, this`state, this`dataR
      ensures Valid() && state == Idle && frame == []
      ensures sent == old(sent) + [old(frame)] && served == old(served) + [old(commands[0])]
      ensures commands == old(commands)[1..]
    {
      hide FrameOf, Served, Port, SendingAt;
      ServedSnoc(endianness, mems, sent, served, frame, commands[0]);
      sent, served, frame := sent + [frame], served + [commands[0]], [];
      commands := commands[1..];
      state := Idle;
      dataR := seq(|mems|, n requires 0 <= n < |mems| => Port(n, 0));
    }

    lemma CounterInRange(c: Command)
      requires Base() && InRange(c, mems) && Sending(c)
      ensures counter + 4 < wrap && counter % 4 == 0
    {
      hide SendingAt, Aligned;
      CounterBelow(endianness, mems[c.slot], c.length, counter, frame, dataR[c.slot]);
    }

    /** The word at a byte address of a slot. */
    function Port(n: nat, address: nat): bv32
      requires depth > 0 && (forall m | m in mems :: |m| == depth) && n < |mems|
    {
      mems[n][address / 4 % depth]
    }

    lemma PortInRange(n: nat, address: nat)
      requires depth > 0 && (forall m | m in mems :: |m| == depth) && n < |mems| && address / 4 < depth
      ensures Port(n, address) == mems[n][address / 4]
    {
      SmallModulo(address / 4, depth);
    }

    /** The clocked read of every memory port. */
    method ReadPorts(address: nat)
      requires Base()
      modifies this`dataR
      ensures Base()
      ensures forall n | 0 <= n < |mems| :: dataR[n] == Port(n, address)
    {
      dataR := seq(|mems|, n requires 0 <= n < |mems| => Port(n, address));
    }
  }

  function Trues(bs: seq<bool>): nat {
    if bs == [] then 0 else Trues(bs[..|bs| - 1]) + if bs[|bs| - 1] then 1 else 0
  }

  /** The last beat of a command of at least a word. */
  lemma LongLast(r: Reader)
    requires r.Valid() && r.state == Send && InRange(r.commands[0], r.mems)
    ensures r.SourceLast() <==> |r.frame| + 1 == (r.commands[0].length + 3) / 4
    ensures |r.frame| < (r.commands[0].length + 3) / 4
  {
    hide Served, FrameOf;
  }

  /** A command is fetched in one cycle, sent in as many ready cycles as its bytes fill
      words, not one less, and finished in one more cycle, under any schedule of the sink. */
  method ServeCommand(r: Reader, ready: seq<bool>, first: bool, last: bool) returns (done: bool)
    requires r.Valid() && r.state == Idle && r.commands != [] && InRange(r.commands[0], r.mems)
    modifies r
    ensures r.Valid()
    ensures done <==> Trues(ready) >= (old(r.commands)[0].length + 3) / 4
    ensures if done then
        var c := old(r.commands)[0];
        r.state == Idle && r.commands == old(r.commands)[1..] && c.length <= 4 * |r.mems[c.slot]|
        && r.sent == old(r.sent) + [FrameOf(r.endianness, r.mems[c.slot], c.length)]
      else r.state == Send && r.sent == old(r.sent) && |r.frame| == Trues(ready)
  {
    hide Reader.Valid, Reader.SourceLast, InRange, FrameOf;
    done := false;
    Fetched(r);
    r.Tick(first, []);
    assert ready[..0] == [];
    for i := 0 to |ready|
      invariant r.Valid() && r.commands == old(r.commands) && r.state == Send && r.sent == old(r.sent)
      invariant |r.frame| == Trues(ready[..i]) < (r.commands[0].length + 3) / 4
    {
      assert ready[..i + 1][..i] == ready[..i];
      TruesGrow(ready, i + 1);
      LongLast(r);
      r.Tick(ready[i], []);
      if r.state == End {
        Ended(r);
        r.Tick(last, []);
        done := true;
        return;
      }
      LongLast(r);
    }
    assert ready[..|ready|] == ready;
  }

  lemma Fetched(r: Reader)
    requires r.Valid() && r.state == Idle && r.commands != [] && InRange(r.commands[0], r.mems)
    ensures r.frame == [] && (r.commands[0].length + 3) / 4 > 0
  {
    hide Served;
  }

  lemma Ended(r: Reader)
    requires r.Valid() && r.state == End && r.commands != [] && InRange(r.commands[0], r.mems)
    ensures var c := r.commands[0];
      c.slot < |r.mems| && c.length <= 4 * |r.mems[c.slot]|
      && r.frame == FrameOf(r.endianness, r.mems[c.slot], c.length)
  {
    hide Served, FrameOf;
  }

  /** The last beat of a command shorter than a word: never, or, for length zero, when the counter is about to wrap. */
  lemma ShortLast(r: Reader)
    requires r.Valid() && r.state == Send && r.commands[0].length < 4 && r.wrap % 4 == 0
    ensures r.SourceLast() <==> r.commands[0].length == 0 && r.counter == r.wrap - 4
  {
    hide Served, FrameOf;
  }

  /** A command of one to three bytes never ends, whatever the sink does. */
  method ShortCommand(r: Reader, ready: seq<bool>)
    requires r.Valid() && r.state == Send && 0 < r.commands[0].length < 4 && r.wrap % 4 == 0
    modifies r
    ensures r.Valid() && r.state == Send && r.commands == old(r.commands) && r.sent == old(r.sent)
  {
    hide Reader.Valid, Reader.SourceLast, Reader.NextFrame;
    for i := 0 to |ready|
      invariant r.Valid() && r.state == Send && r.commands == old(r.commands) && r.sent == old(r.sent)
    {
      ShortLast(r);
      SendsCommand(r);
      r.Tick(ready[i], []);
    }
  }

  lemma SendsCommand(r: Reader)
    requires r.Valid()
    ensures r.state != Idle ==> r.commands != []
  {}

  /** A command of length zero ends after as many beats as the counter has words; the
      run is followed up to there. */
  method EmptyCommand(r: Reader, ready: seq<bool>)
    requires r.Valid() && r.state == Send && r.counter == 0 && r.frame == []
    requires r.commands[0].length == 0 && r.wrap % 4 == 0
    modifies r
    ensures r.Valid() && |r.frame| == if Trues(ready) < r.wrap / 4 then Trues(ready) else r.wrap / 4
    ensures r.state == if Trues(ready) < r.wrap / 4 then Send else End
  {
    hide Reader.Valid, Reader.SourceLast;
    assert ready[..0] == [];
    CounterSteps(r);
    for i := 0 to |ready|
      invariant r.Valid() && r.commands == old(r.commands) && r.state == Send
      invariant |r.frame| == Trues(ready[..i]) < r.wrap / 4 && r.counter == 4 * |r.frame|
    {
      assert ready[..i + 1][..i] == ready[..i];
      TruesGrow(ready, i + 1);
      ShortLast(r);
      CounterSteps(r);
      SendsCommand(r);
      r.Tick(ready[i], []);
      if r.state == End {
        return;
      }
    }
    assert ready[..|ready|] == ready;
  }

  lemma {:induction false} TruesGrow(bs: seq<bool>, i: nat)
    requires i <= |bs|
    ensures Trues(bs[..i]) <= Trues(bs)
  {
    if i < |bs| {
      TruesGrow(bs[..|bs| - 1], i);
      assert bs[..|bs| - 1][..i] == bs[..i];
    } else {
      assert bs[..i] == bs;
    }
  }

  lemma CounterSteps(r: Reader)
    requires r.Valid()
    ensures (r.counter + 4) % r.wrap == if r.counter + 4 < r.wrap then r.counter + 4 else r.counter + 4 - r.wrap
    ensures r.wrap > 4
  {
    hide Served;
    AlignedNext(r.counter, r.wrap);
  }

  // ----- Writer

  datatype Status = Status(slot: nat, length: nat)

  /** A slot begins with the words of a frame. */
  predicate Stores(mem: seq<bv32>, f: seq<Beat>) {
    |f| <= |mem| && mem[..|f|] == Data(f)
  }

  /** The number of values of the slot register: it is as wide as the slot numbers need, but at least one bit. */
  function SlotValues(slots: nat): (p: nat)
    ensures p > 1 || p == slots == 0
    ensures slots <= p
  {
    if slots == 1 then 2 else slots
  }

  function Following(slot: nat, slots: nat): (n: nat)
    requires slots > 0
    ensures n < SlotValues(slots)
  {
    (slot + 1) % SlotValues(slots)
  }

  /** A status entry for the `n`th frame: its slot and its length; if the slot exists, the words are still there. */
  ghost predicate Describes(e: Endianness, mems: seq<seq<bv32>>, entry: Status, n: nat, f: seq<Beat>)
    requires mems != []
  {
    var slot := n % SlotValues(|mems|);
    entry == Status(slot, Counted(e, f)) && (slot < |mems| ==> Stores(mems[slot], f))
  }

  /** The entries not yet cleared describe the latest frames. */
  ghost predicate Reported(e: Endianness, mems: seq<seq<bv32>>, fifo: seq<Status>, stored: seq<seq<Beat>>) {
    && |fifo| <= |stored| && mems != []
    && forall i | 0 <= i < |fifo| ::
      Describes(e, mems, fifo[i], |stored| - |fifo| + i, stored[|stored| - |fifo| + i])
  }

  /** Writing into the next slot disturbs no entry, as long as there is room for one more. */
  lemma WriteKeepsReported(e: Endianness, mems: seq<seq<bv32>>, fifo: seq<Status>, stored: seq<seq<Beat>>,
                           slot: nat, mem: seq<bv32>)
    requires Reported(e, mems, fifo, stored) && |fifo| < |mems|
    requires slot == |stored| % SlotValues(|mems|) < |mems|
    ensures Reported(e, mems[slot := mem], fifo, stored)
  {
    hide Stores, Counted;
    forall i | 0 <= i < |fifo|
      ensures Describes(e, mems[slot := mem], fifo[i], |stored| - |fifo| + i, stored[|stored| - |fifo| + i])
    {
      assert Describes(e, mems, fifo[i], |stored| - |fifo| + i, stored[|stored| - |fifo| + i]);
      DistinctRemainders(|stored| - |fifo| + i, |stored|, SlotValues(|mems|));
    }
  }

  lemma PushKeepsReported(e: Endianness, mems: seq<seq<bv32>>, fifo: seq<Status>, stored: seq<seq<Beat>>,
                          slot: nat, f: seq<Beat>)
    requires Reported(e, mems, fifo, stored) && slot == |stored| % SlotValues(|mems|)
    requires slot < |mems| ==> Stores(mems[slot], f)
    ensures Reported(e, mems, fifo + [Status(slot, Counted(e, f))], stored + [f])
  {
    hide Stores, Counted;
  }

  lemma PopKeepsReported(e: Endianness, mems: seq<seq<bv32>>, fifo: seq<Status>, stored: seq<seq<Beat>>)
    requires Reported(e, mems, fifo, stored) && fifo != []
    ensures Reported(e, mems, fifo[1..], stored)
  {
    hide Describes;
    assert forall i | 0 <= i < |fifo| - 1 :: fifo[1..][i] == fifo[i + 1];
  }

  /** Every frame reported is reported with the length counted for it, and if its slot
      exists, its words were there when it was. */
  ghost predicate Measured(e: Endianness, slots: nat, reported: seq<Status>, stored: seq<seq<Beat>>,
                           images: seq<seq<bv32>>) {
    && |reported| == |stored| == |images|
    && forall k | 0 <= k < |stored| ::
      && reported[k].length == Counted(e, stored[k]) && reported[k].slot < SlotValues(slots)
      && if reported[k].slot < slots then Stores(images[k], stored[k]) else images[k] == []
  }

  lemma MeasuredSnoc(e: Endianness, slots: nat, reported: seq<Status>, stored: seq<seq<Beat>>, images: seq<seq<bv32>>,
                     slot: nat, f: seq<Beat>, image: seq<bv32>)
    requires Measured(e, slots, reported, stored, images)
    requires slot < SlotValues(slots) && if slot < slots then Stores(image, f) else image == []
    ensures Measured(e, slots, reported + [Status(slot, Counted(e, f))], stored + [f], images + [image])
  {
    hide Counted, Stores;
  }

  /** The contents of a slot, if it exists. */
  function SlotOf(mems: seq<seq<bv32>>, slot: nat): seq<bv32> {
    if slot < |mems| then mems[slot] else []
  }

  /** The frame in progress: its words are in the slot, if that exists, and the counter is past them. */
  ghost predicate Storing(e: Endianness, mems: seq<seq<bv32>>, slot: nat, f: seq<Beat>, counter: nat) {
    f != [] && (slot < |mems| ==> Stores(mems[slot], f)) && counter == Counted(e, f)
  }

  lemma StoreKeeps(e: Endianness, mem: seq<bv32>, f: seq<Beat>, b: Beat)
    requires (f == [] || Stores(mem, f)) && |f| < |mem|
    ensures Stores(mem[|f| := b.data], f + [b])
  {
    var m := mem[|f| := b.data];
    assert m[..|f| + 1] == mem[..|f|] + [b.data];
    assert Data(f + [b]) == Data(f) + [b.data];
  }

  lemma SlotAfter(n: nat, p: nat)
    requires p > 1
    ensures (n + 1) % p == (n % p + 1) % p
  {
    ModNext(n, p);
    if n % p == p - 1 {
      ModUnique(p, 1, 0, p);
    } else {
      SmallModulo(n % p + 1, p);
    }
  }

  datatype WriterState = Ready | Write | Discard | DiscardRemaining | Terminate

  lemma FollowingTurn(n: nat, slots: nat)
    requires slots > 0
    ensures Following(n % SlotValues(slots), slots) == (n + 1) % SlotValues(slots)
  {
    SlotAfter(n, SlotValues(slots));
  }

  /** What is left of a queue after its oldest entries were cleared. */
  predicate Rest(before: seq<Status>, fifo: seq<Status>) {
    |fifo| <= |before| && fifo == before[|before| - |fifo|..]
  }

  lemma RestAll(fifo: seq<Status>)
    ensures Rest(fifo, fifo)
  {}

  lemma RestPop(before: seq<Status>, fifo: seq<Status>)
    requires Rest(before, fifo)
    ensures fifo != [] ==> Rest(before, fifo[1..])
  {}

  lemma RestPush(before: seq<Status>, fifo: seq<Status>, entry: Status)
    requires Rest(before, fifo)
    ensures Rest(before + [entry], fifo + [entry])
  {}

  /** What the writer has done so far: its memories, the status entries not yet cleared and all entries
      queued, the frames they stand for, and what their slots held when they were queued. */
  datatype History = History(mems: seq<seq<bv32>>, fifo: seq<Status>, reported: seq<Status>,
                             stored: seq<seq<Beat>>, images: seq<seq<bv32>>, skipped: nat)

  /** The slots are taken in turn by the frames closed; the frames reported have their
      lengths and were stored, if their slots exist; and as long as none was skipped,
      those not yet cleared are still there. */
  ghost predicate Consistent(e: Endianness, h: History, slot: nat) {
    && h.mems != [] && slot == (|h.stored| + h.skipped) % SlotValues(|h.mems|)
    && (h.skipped == 0 ==> Reported(e, h.mems, h.fifo, h.stored))
    && Measured(e, |h.mems|, h.reported, h.stored, h.images)
    && Rest(h.reported, h.fifo)
  }

  lemma ConsistentStart(e: Endianness, mems: seq<seq<bv32>>)
    requires mems != []
    ensures Consistent(e, History(mems, [], [], [], [], 0), 0)
  {
    SmallModulo(0, SlotValues(|mems|));
  }

  /** The history once a frame has been reported. */
  ghost function WithReport(e: Endianness, h: History, slot: nat, f: seq<Beat>): History {
    var entry := Status(slot, Counted(e, f));
    h.(fifo := h.fifo + [entry], reported := h.reported + [entry], stored := h.stored + [f],
       images := h.images + [SlotOf(h.mems, slot)])
  }

  lemma ConsistentReport(e: Endianness, h: History, slot: nat, f: seq<Beat>)
    requires Consistent(e, h, slot) && (slot < |h.mems| ==> Stores(h.mems[slot], f))
    ensures Consistent(e, WithReport(e, h, slot, f), Following(slot, |h.mems|))
  {
    hide Reported, Measured, Counted, Stores, Rest, SlotValues, Following;
    FollowingTurn(|h.stored| + h.skipped, |h.mems|);
    MeasuredSnoc(e, |h.mems|, h.reported, h.stored, h.images, slot, f, SlotOf(h.mems, slot));
    RestPush(h.reported, h.fifo, Status(slot, Counted(e, f)));
    if h.skipped == 0 {
      PushKeepsReported(e, h.mems, h.fifo, h.stored, slot, f);
    }
  }

  lemma ConsistentSkip(e: Endianness, h: History, slot: nat)
    requires Consistent(e, h, slot)
    ensures Consistent(e, h.(skipped := h.skipped + 1), Following(slot, |h.mems|))
  {
    hide Reported, Measured, Rest, SlotValues, Following;
    FollowingTurn(|h.stored| + h.skipped, |h.mems|);
  }

  lemma ConsistentClear(e: Endianness, h: History, slot: nat)
    requires Consistent(e, h, slot) && h.fifo != []
    ensures Consistent(e, h.(fifo := h.fifo[1..]), slot)
  {
    hide Reported, Measured, Rest, SlotValues;
    RestPop(h.reported, h.fifo);
    if h.skipped == 0 {
      PopKeepsReported(e, h.mems, h.fifo, h.stored);
    }
  }

  lemma ConsistentWrite(e: Endianness, h: History, slot: nat, mem: seq<bv32>)
    requires Consistent(e, h, slot) && slot < |h.mems| && |h.fifo| < |h.mems|
    ensures Consistent(e, h.(mems := h.mems[slot := mem]), slot)
  {
    hide Reported, Measured, Rest, SlotValues;
    if h.skipped == 0 {
      WriteKeepsReported(e, h.mems, h.fifo, h.stored, slot, mem);
    }
  }

  lemma EmptyStored(e: Endianness, mem: seq<bv32>)
    ensures Stores(mem, []) && Counted(e, []) == 0
  {
    assert mem[..0] == [];
  }

  class Writer {
    const endianness: Endianness
    const depth: nat
    const slots: nat
    var state: WriterState
    var counter: nat
    var slot: nat
    var fifo: seq<Status>
    var mems: seq<seq<bv32>>
    var errors: nat
    ghost var frame: seq<Beat>          // beats taken of the frame in progress
    ghost var stored: seq<seq<Beat>>    // frames reported so far; a refused frame counts as empty
    ghost var reported: seq<Status>     // their status entries, cleared or not
    ghost var images: seq<seq<bv32>>    // what their slots held when they were queued
    ghost var skipped: nat              // refused frames that took a slot without being reported
    ghost var regular: bool             // every frame fitted and was well formed

    ghost predicate Valid()
      reads this
    {
      && depth > 0 && slots > 0 && |mems| == slots && (forall m | m in mems :: |m| == depth)
      && |fifo| <= slots
      && (regular ==> Orderly())
    }

    ghost function Past(): History
      reads this`mems, this`fifo, this`reported, this`stored, this`images, this`skipped
    {
      History(mems, fifo, reported, stored, images, skipped)
    }

    /** Frames are stored word for word, if their slots exist, and the slots are taken in turn. */
    ghost predicate Orderly()
      requires |mems| == slots > 0
      reads this
    {
      && Consistent(endianness, Past(), slot)
      && match state
         case Ready | DiscardRemaining => counter == 0 && frame == []
         case Write => |fifo| < slots && Storing(endianness, mems, slot, frame, counter) && counter == 4 * |frame|
         case Terminate =>
           if frame == [] then counter == 0
           else |fifo| < slots && Storing(endianness, mems, slot, frame, counter)
         case Discard => |fifo| < slots && Storing(endianness, mems, slot, frame, counter)
    }

    constructor (endianness: Endianness, depth: nat, mems: seq<seq<bv32>>)
      requires depth > 0 && mems != [] && forall m | m in mems :: |m| == depth
      ensures Valid() && state == Ready && stored == [] && frame == [] && fifo == []
      ensures skipped == 0 && slot == 0 && regular && reported == []
      ensures this.endianness == endianness && this.depth == depth && slots == |mems|
    {
      ConsistentStart(endianness, mems);
      this.endianness, this.depth, slots, this.mems := endianness, depth, |mems|, mems;
      state, counter, slot, fifo, errors := Ready, 0, 0, [], 0;
      frame, stored, reported, images, skipped, regular := [], [], [], [], 0, true;
    }

    predicate Room()
      reads this`fifo
    {
      |fifo| < slots
    }

    /** What keeps a run regular: a frame has several beats, all but the last full, and
        fits. It may be refused, be discarded for an error in its last beat, or have no
        slot to go to; a beat offered while a frame is being closed is simply missing. */
    ghost predicate RegularBeat(v: bool, b: Beat)
      reads this
    {
      v ==>
        match state
        case Ready => !b.last && Increment(endianness, b.lastBe) == 4
        case Write => |frame| < depth && (b.last || Increment(endianness, b.lastBe) == 4)
        case _ => true
    }

    /** The beat offered is written: outside a regular run it may still be refused. */
    predicate Ongoing()
      reads this`state, this`fifo, this`counter
    {
      (state == Ready && Room()) || (state == Write && counter != ETH_MTU)
    }

    function NextState(v: bool, b: Beat): WriterState
      reads this`state, this`fifo, this`counter
    {
      match state
      case Ready => if !v then Ready else if Room() then Write else DiscardRemaining
      case Write =>
        if v && b.last then (if b.error then Discard else Terminate)
        else if v && counter == ETH_MTU then DiscardRemaining else Write
      case Discard | Terminate => Ready
      case DiscardRemaining => if v && b.last then Terminate else DiscardRemaining
    }

    function NextCounter(v: bool, b: Beat): nat
      reads this`state, this`fifo, this`counter
    {
      if state in {Discard, Terminate} then 0
      else if v && Ongoing() then counter + Increment(endianness, b.lastBe) else counter
    }

    /** The memories after this cycle: the beat is written at the counter, in the current slot. */
    function NextMems(v: bool, b: Beat): seq<seq<bv32>>
      requires depth > 0 && |mems| == slots && forall m | m in mems :: |m| == depth
      reads this`state, this`fifo, this`counter, this`slot, this`mems
    {
      if v && Ongoing() && slot < slots then mems[slot := mems[slot][counter / 4 % depth := b.data]] else mems
    }

    function NextSlot(): nat
      requires slots > 0
      reads this`state, this`slot
    {
      if state == Terminate then Following(slot, slots) else slot
    }

    ghost function NextFrame(v: bool, b: Beat): seq<Beat>
      reads this`state, this`fifo, this`counter, this`frame
    {
      if state in {Terminate, Discard} then [] else frame + if v && Ongoing() then [b] else []
    }

    ghost function NextStored(): seq<seq<Beat>>
      reads this`state, this`fifo, this`frame, this`stored
    {
      stored + if state == Terminate && Room() then [frame] else []
    }

    ghost function NextReported(): seq<Status>
      reads this`state, this`fifo, this`reported, this`slot, this`counter
    {
      reported + if state == Terminate && Room() then [Status(slot, counter)] else []
    }

    ghost function NextImages(): seq<seq<bv32>>
      reads this`state, this`fifo, this`mems, this`slot, this`images
    {
      images + if state == Terminate && Room() then [SlotOf(mems, slot)] else []
    }

    /** A frame closed without room for its status takes a slot all the same. */
    ghost function NextSkipped(): nat
      reads this`state, this`fifo, this`skipped
    {
      skipped + if state == Terminate && !Room() then 1 else 0
    }

    /** One clock; the sink is always ready, and `clear` acknowledges the oldest status. */
    method Tick(v: bool, b: Beat, clear: bool)
      requires Valid()
      modifies this
      ensures Valid()
      ensures regular == (old(regular) && old(RegularBeat(v, b)))
      ensures stored == old(NextStored()) && skipped == old(NextSkipped()) && frame == old(NextFrame(v, b))
      ensures images == old(NextImages()) && reported == old(NextReported())
      ensures fifo == (if clear && old(fifo) != [] then old(fifo)[1..] else old(fifo)) +
        if old(state) == Terminate && old(Room()) then [Status(old(slot), old(counter))] else []
      ensures state == old(NextState(v, b)) && counter == old(NextCounter(v, b))
      ensures mems == old(NextMems(v, b)) && slot == old(NextSlot())
      ensures errors == old(errors) + if old(state) == Ready && v && !old(Room()) then 1 else 0
    {
      hide Storing, Consistent, Increment, NextState, NextCounter, NextMems, NextSlot, NextFrame, NextStored,
        NextSkipped, NextImages, NextReported;
      var pop := clear && fifo != [];
      Step(v, b);
      if pop {
        if regular {
          ConsistentClear(endianness, Past(), slot);
        }
        fifo := fifo[1..];
      }
    }

    /** The state machine, before a status is cleared. */
    method Step(v: bool, b: Beat)
      requires Valid()
      modifies this
      ensures Valid()
      ensures regular == (old(regular) && old(RegularBeat(v, b)))
      ensures stored == old(NextStored()) && skipped == old(NextSkipped()) && frame == old(NextFrame(v, b))
      ensures images == old(NextImages()) && reported == old(NextReported())
      ensures fifo == old(fifo) + if old(state) == Terminate
        && old(Room()) then [Status(old(slot), old(counter))] else []
      ensures state == old(NextState(v, b)) && counter == old(NextCounter(v, b))
      ensures mems == old(NextMems(v, b)) && slot == old(NextSlot())
      ensures errors == old(errors) + if old(state) == Ready && v && !old(Room()) then 1 else 0
    {
      hide Storing, Stores, Consistent, Counted, Increment, NextMems;
      hide NextSlot, Following, RegularBeat, Orderly, SlotOf;
      Untouched(v, b);
      match state {
        case Ready =>
          if v {
            Begin(b);
          }
        case Write =>
          if v {
            Continue(b);
          }
        case Discard =>
          Drop();
        case DiscardRemaining =>
          if v && b.last {
            Await();
          }
        case Terminate =>
          Report();
      }
    }

    /** A frame with an error in its last beat is forgotten. */
    method Drop()
      requires Valid() && state == Discard
      modifies this`counter, this`frame, this`state
      ensures Valid() && counter == 0 && frame == [] && state == Ready
    {
      hide Consistent;
      counter, frame, state := 0, [], Ready;
    }

    /** The last beat of a refused frame. */
    method Await()
      requires Valid() && state == DiscardRemaining
      modifies this`state
      ensures Valid() && state == Terminate
    {
      hide Consistent;
      state := Terminate;
    }

    lemma Untouched(v: bool, b: Beat)
      requires Valid()
      ensures !v || state !in {Ready, Write} || !Ongoing() ==> NextMems(v, b) == mems
      ensures state != Terminate ==> NextSlot() == slot
      ensures regular && state in {Ready, DiscardRemaining} ==> counter == 0 && frame == []
      ensures !v || state !in {Ready, Write} ==> RegularBeat(v, b)
    {
      hide Consistent;
    }

    /** As long as no frame is closed, at most the current slot changes. */
    lemma NothingClosed(v: bool, b: Beat)
      requires Valid() && state != Terminate
      ensures OtherSlots(mems, NextMems(v, b), slot) && NextSlot() == slot
      ensures NextStored() == stored && NextReported() == reported && NextImages() == images && NextSkipped() == skipped
    {
      hide Orderly;
    }

    /** The first beat of a frame, stored if a status can follow. */
    method Begin(b: Beat)
      requires Valid() && state == Ready
      modifies this`regular, this`state, this`mems, this`counter, this`frame, this`errors
      ensures Valid() && regular == (old(regular) && old(RegularBeat(true, b)))
      ensures frame == old(frame) + if Room() then [b] else []
      ensures state == old(NextState(true, b)) && counter == old(NextCounter(true, b)) && mems == old(NextMems(true, b))
      ensures errors == old(errors) + if Room() then 0 else 1
    {
      hide Storing, Stores, Consistent, Counted, Increment;
      regular := regular && RegularBeat(true, b);
      if Room() {
        StoreBeat(b);
        state := Write;
      } else {
        errors := errors + 1;
        state := DiscardRemaining;
      }
    }

    /** A further beat; the last one decides what becomes of the frame. */
    method Continue(b: Beat)
      requires Valid() && state == Write
      modifies this`regular, this`state, this`mems, this`counter, this`frame
      ensures Valid() && regular == (old(regular) && old(RegularBeat(true, b)))
      ensures frame == old(frame) + if old(Ongoing()) then [b] else []
      ensures state == old(NextState(true, b)) && counter == old(NextCounter(true, b)) && mems == old(NextMems(true, b))
    {
      hide Storing, Stores, Consistent, Counted, Increment;
      regular := regular && RegularBeat(true, b);
      if counter != ETH_MTU {
        StoreBeat(b);
      } else {
        state := DiscardRemaining;
      }
      if b.last {
        state := if b.error then Discard else Terminate;
      }
    }

    /** The beat goes to the word the counter points at, in the current slot. */
    method StoreBeat(b: Beat)
      requires Valid() && Ongoing() && (regular ==> |frame| < depth)
      modifies this`mems, this`counter, this`frame
      ensures |mems| == slots && (forall m | m in mems :: |m| == depth)
      ensures frame == old(frame) + [b]
      ensures counter == old(counter) + Increment(endianness, b.lastBe)
      ensures mems == old(NextMems(true, b))
      ensures regular ==>
        && Consistent(endianness, Past(), slot)
        && Storing(endianness, mems, slot, frame, counter)
        && (Increment(endianness, b.lastBe) == 4 ==> counter == 4 * |frame|)
    {
      hide Storing, Stores, Consistent, Counted, Increment;
      if regular {
        StoringFrame(b);
      }
      if slot < slots {
        mems := mems[slot := mems[slot][counter / 4 % depth := b.data]];
      }
      counter := counter + Increment(endianness, b.lastBe);
      frame := frame + [b];
    }

    lemma StoringFrame(b: Beat)
      requires Valid() && Ongoing() && regular && |frame| < depth
      ensures |fifo| < slots && counter == 4 * |frame|
      ensures Consistent(endianness, Past().(mems := NextMems(true, b)), slot)
      ensures Storing(endianness, NextMems(true, b), slot, frame + [b], counter + Increment(endianness, b.lastBe))
    {
      hide Consistent, Stores;
      SmallModulo(counter / 4, depth);
      CountedSnoc(endianness, frame, b);
      if slot < slots {
        StoreKeeps(endianness, mems[slot], frame, b);
        ConsistentWrite(endianness, Past(), slot, mems[slot][counter / 4 % depth := b.data]);
      } else {
        assert Past().(mems := NextMems(true, b)) == Past();
      }
    }

    /** Every frame closed has taken a slot. */
    lemma SlotInTurn()
      requires Valid() && regular
      ensures slot == (|stored| + skipped) % SlotValues(slots)
      ensures state == Terminate && frame == [] ==> counter == 0
    {
      hide Reported, Measured, Rest;
    }

    /** What closing a frame does to the slots and the frames reported. */
    lemma Closing()
      requires Valid() && state == Terminate && regular
      ensures if Room() then
          counter == Counted(endianness, frame) &&
          Consistent(endianness, WithReport(endianness, Past(), slot, frame), NextSlot())
        else Consistent(endianness, Past().(skipped := skipped + 1), NextSlot())
    {
      hide Consistent, Counted, Following, WithReport, Stores;
      if Room() {
        EmptyStored(endianness, SlotOf(mems, slot));
        ConsistentReport(endianness, Past(), slot, frame);
      } else {
        ConsistentSkip(endianness, Past(), slot);
      }
    }

    /** Between frames nothing but the bookkeeping has to hold. */
    lemma Rested()
      requires |mems| == slots > 0 && state == Ready && counter == 0 && frame == []
      requires Consistent(endianness, Past(), slot)
      ensures Orderly()
    {
      hide Consistent;
    }

    /** The frame is reported, if there is room for its status, and the next slot is taken. */
    method Report()
      requires Valid() && state == Terminate
      modifies this
      ensures Valid() && regular == old(regular) && state == Ready && frame == []
      ensures counter == 0 && slot == old(NextSlot()) && mems == old(mems) && errors == old(errors)
      ensures stored == old(NextStored()) && images == old(NextImages()) && skipped == old(NextSkipped())
      ensures fifo == old(fifo) + if old(Room()) then [Status(old(slot), old(counter))] else []
      ensures reported == old(NextReported())
    {
      hide Consistent, Storing, Orderly, Following, NextStored, NextImages, NextSkipped, NextReported;
      Queue();
      slot := Following(slot, slots);
      frame, counter, state := [], 0, Ready;
      if regular {
        Rested();
      }
    }

    /** The status of the frame is queued. */
    method Queue()
      requires Valid() && state == Terminate
      modifies this`fifo, this`reported, this`stored, this`images, this`skipped
      ensures |fifo| <= slots && (regular ==> Consistent(endianness, Past(), NextSlot()))
      ensures stored == old(NextStored()) && images == old(NextImages()) && skipped == old(NextSkipped())
      ensures fifo == old(fifo) + if old(Room()) then [Status(slot, counter)] else []
      ensures reported == old(NextReported())
    {
      hide Consistent, Counted, Stores, Storing, Following, Orderly, SlotOf;
      if regular {
        Closing();
      }
      if Room() {
        fifo, reported := fifo + [Status(slot, counter)], reported + [Status(slot, counter)];
        stored, images := stored + [frame], images + [SlotOf(mems, slot)];
      } else {
        skipped := skipped + 1;
      }
    }
  }

  /** What the environment does in one cycle: whether the next beat is offered, and whether software clears a status. */
  datatype Cycle = Cycle(offered: bool, clear: bool)

  /** Beats that make up one frame. */
  predicate IsFrame(f: seq<Beat>) {
    forall k | 0 <= k < |f| :: f[k].last <==> k == |f| - 1
  }

  /** A beat of a refused frame is dropped. */
  method RefusedBeat(w: Writer, offered: bool, b: Beat, clear: bool)
    requires w.Valid() && w.regular && (w.state == DiscardRemaining || (w.state == Ready && !w.Room() && offered))
    requires w.state == Ready ==> !b.last && Increment(w.endianness, b.lastBe) == 4
    modifies w
    ensures w.Valid() && w.regular && w.frame == [] && w.counter == 0
    ensures w.state == if offered && b.last then Terminate else DiscardRemaining
    ensures w.errors == old(w.errors) + if old(w.state) == Ready then 1 else 0
    ensures w.stored == old(w.stored) && w.reported == old(w.reported) && w.skipped == old(w.skipped)
    ensures w.mems == old(w.mems) && w.slot == old(w.slot)
    ensures w.fifo == if clear && old(w.fifo) != [] then old(w.fifo)[1..] else old(w.fifo)
  {
    hide Writer.Orderly, Writer.NextMems, Writer.NextSlot, Increment;
    w.Untouched(offered, b);
    w.Tick(offered, b, clear);
  }

  /** A refused frame of any number of beats, offered under any schedule: the writer
      waits to close it, and nothing was stored. */
  method OfferRefused(w: Writer, f: seq<Beat>, run: seq<Cycle>) returns (taken: nat)
    requires w.Valid() && w.regular && w.state == Ready && !w.Room()
    requires |f| > 1 && IsFrame(f) && Increment(w.endianness, f[0].lastBe) == 4
    requires run != [] && run[0].offered
    modifies w
    ensures w.Valid() && w.regular && taken <= |f|
    ensures w.state == (if taken < |f| then DiscardRemaining else Terminate) && w.frame == [] && w.counter == 0
    ensures w.errors == old(w.errors) + 1
    ensures w.stored == old(w.stored) && w.reported == old(w.reported) && w.skipped == old(w.skipped)
    ensures w.mems == old(w.mems) && w.slot == old(w.slot)
    ensures Rest(old(w.fifo), w.fifo)
    ensures (forall c | c in run :: !c.clear) ==> w.fifo == old(w.fifo)
  {
    hide Writer.Valid, Increment, Rest;
    RestAll(w.fifo);
    RestPop(w.fifo, w.fifo);
    RefusedBeat(w, true, f[0], run[0].clear);
    taken := 1;
    for i := 1 to |run|
      invariant w.Valid() && w.regular && 1 <= taken < |f|
      invariant w.state == DiscardRemaining && w.frame == [] && w.counter == 0
      invariant w.errors == old(w.errors) + 1
      invariant w.stored == old(w.stored) && w.reported == old(w.reported) && w.skipped == old(w.skipped)
      invariant w.mems == old(w.mems) && w.slot == old(w.slot)
      invariant Rest(old(w.fifo), w.fifo)
      invariant (forall c | c in run :: !c.clear) ==> w.fifo == old(w.fifo)
    {
      RestPop(old(w.fifo), w.fifo);
      RefusedBeat(w, run[i].offered, f[taken], run[i].clear);
      if run[i].offered {
        taken := taken + 1;
        if taken == |f| {
          return;
        }
      }
    }
  }

  /** Closing a refused frame always takes a slot. Without room it is not reported, and
      the slot is one ahead of the frames reported; when software has made room
      meanwhile, an entry of length zero is queued for a frame nobody stored. */
  method CloseRefused(w: Writer, clear: bool)
    requires w.Valid() && w.regular && w.state == Terminate && w.frame == [] && w.skipped == 0
    modifies w
    ensures w.Valid() && w.regular && w.state == Ready && w.counter == 0 && w.mems == old(w.mems)
    ensures if old(w.Room()) then
        && w.skipped == 0 && w.stored == old(w.stored) + [[]]
        && w.fifo != [] && w.fifo[|w.fifo| - 1] == Status(old(w.slot), 0)
        && w.slot == |w.stored| % SlotValues(w.slots)
      else
        && w.skipped == 1 && w.stored == old(w.stored) && w.reported == old(w.reported)
        && w.slot == (|w.stored| + 1) % SlotValues(w.slots)
        && w.fifo == if clear && old(w.fifo) != [] then old(w.fifo)[1..] else old(w.fifo)
  {
    hide Writer.Orderly, Writer.NextMems, Writer.NextSlot;
    w.Untouched(false, Beat(0, false, 0, false));
    w.SlotInTurn();
    w.Tick(false, Beat(0, false, 0, false), clear);
    w.SlotInTurn();
    w.Untouched(false, Beat(0, false, 0, false));
  }

  /** From then on storage goes wrong, when there are several slots: once software has
      cleared the oldest status, in the cycle that closes the refused frame or after it,
      the next frame is written over a frame that is still reported. */
  method RefusedFrame(w: Writer, f: seq<Beat>, run: seq<Cycle>, early: bool, next: Beat) returns (done: bool)
    requires w.Valid() && w.regular && w.state == Ready && !w.Room() && w.skipped == 0 && w.slots > 1
    requires |f| > 1 && IsFrame(f) && Increment(w.endianness, f[0].lastBe) == 4
    requires run != [] && run[0].offered && forall c | c in run :: !c.clear
    modifies w
    ensures done ==>
      && w.fifo == old(w.fifo)[1..] && w.fifo != [] && w.stored == old(w.stored)
      && 0 <= w.fifo[0].slot < |w.mems| && w.mems[w.fifo[0].slot] != []
      && w.mems[w.fifo[0].slot][0] == next.data
  {
    hide Writer.Valid, Following, Increment, Rest;
    SlotOfSecond(w);
    var taken := OfferRefused(w, f, run);
    done := taken == |f|;
    if done {
      CloseRefused(w, early);
      if !early {
        ClearOne(w);
      }
      Overwrite(w, next);
    }
  }

  method ClearOne(w: Writer)
    requires w.Valid() && w.regular && w.state == Ready && w.fifo != []
    modifies w
    ensures w.Valid() && w.regular && w.state == Ready && w.counter == 0
    ensures w.fifo == old(w.fifo)[1..] && w.stored == old(w.stored) && w.slot == old(w.slot) && w.mems == old(w.mems)
  {
    hide Writer.Orderly, Writer.NextMems, Writer.NextSlot;
    w.Untouched(false, Beat(0, false, 0, false));
    w.Tick(false, Beat(0, false, 0, false), true);
  }

  method Overwrite(w: Writer, next: Beat)
    requires w.Valid() && w.state == Ready && w.Room() && w.counter == 0
    requires w.fifo != [] && w.fifo[0].slot == w.slot < w.slots
    modifies w
    ensures w.fifo == old(w.fifo) && w.stored == old(w.stored)
    ensures 0 <= w.fifo[0].slot < |w.mems| && w.mems[w.fifo[0].slot] != []
    ensures w.mems[w.fifo[0].slot][0] == next.data
  {
    hide Writer.Orderly, Writer.NextSlot, Increment;
    SmallModulo(0, w.depth);
    w.Tick(true, next, false);
  }

  /** The slot after the current one holds the second oldest frame reported, when all slots are in use. */
  lemma SlotOfSecond(w: Writer)
    requires w.Valid() && w.regular && w.state == Ready && !w.Room() && w.skipped == 0 && w.slots > 1
    ensures |w.fifo| == w.slots > 1 && w.fifo[1].slot == (|w.stored| + 1) % w.slots < w.slots
  {
    hide Stores, Counted, Measured, Rest, Storing;
    SecondReported(w);
    ModBack(|w.stored| + 1, w.slots);
  }

  lemma SecondReported(w: Writer)
    requires w.Valid() && w.regular && w.state == Ready && !w.Room() && w.skipped == 0 && w.slots > 1
    ensures |w.fifo| == w.slots <= |w.stored| && w.fifo[1].slot == (|w.stored| - w.slots + 1) % w.slots
  {
    hide Stores, Counted, Measured, Rest, Storing;
    var n, p := |w.stored|, w.slots;
    assert Describes(w.endianness, w.mems, w.fifo[1], n - p + 1, w.stored[n - p + 1]);
  }

  /** A frame of one beat never ends for the writer, because the first state does not look
      at the last flag: the next frame is appended to it. (A count of 1530 would divert
      the writer; the bound on the beats excludes it.) */
  method OneBeatFrame(w: Writer, b: Beat, f: seq<Beat>)
    requires w.Valid() && w.state == Ready && w.Room() && w.frame == [] && w.counter == 0
    requires b.last && IsFrame(f) && |f| <= 382
    requires forall k | 0 <= k < |f| - 1 :: Increment(w.endianness, f[k].lastBe) == 4
    requires f != [] ==> !f[|f| - 1].error
    modifies w
    ensures w.state == (if f == [] then Write else Terminate) && w.frame == [b] + f
    ensures w.stored == old(w.stored) && w.fifo == old(w.fifo) && w.errors == old(w.errors)
  {
    hide Writer.Valid, Increment;
    AppendBeat(w, b);
    for k := 0 to |f|
      invariant w.Valid() && w.state == if k == |f| > 0 then Terminate else Write
      invariant w.frame == [b] + f[..k]
      invariant k < |f| ==> w.counter == Increment(w.endianness, b.lastBe) + 4 * k
      invariant w.stored == old(w.stored) && w.fifo == old(w.fifo) && w.errors == old(w.errors)
    {
      assert f[..k + 1] == f[..k] + [f[k]];
      AppendBeat(w, f[k]);
    }
    assert f[..|f|] == f;
  }

  /** A beat is appended to the frame in progress. */
  method AppendBeat(w: Writer, b: Beat)
    requires w.Valid() && ((w.state == Ready && w.Room()) || (w.state == Write && w.counter != ETH_MTU))
    requires w.state == Write && b.last ==> !b.error
    modifies w
    ensures w.Valid() && w.state == if b.last && old(w.state) == Write then Terminate else Write
    ensures w.frame == old(w.frame) + [b] && w.counter == old(w.counter) + Increment(w.endianness, b.lastBe)
    ensures w.stored == old(w.stored) && w.fifo == old(w.fifo) && w.errors == old(w.errors)
  {
    hide Writer.Orderly, Writer.NextMems, Writer.NextSlot, Writer.RegularBeat, Increment;
    w.Tick(true, b, false);
  }

  /** A frame of several beats, all but the last full. */
  predicate SeveralBeats(e: Endianness, f: seq<Beat>) {
    && |f| > 1 && IsFrame(f)
    && forall k | 0 <= k < |f| - 1 :: Increment(e, f[k].lastBe) == 4
  }

  /** Such a frame without the error flag on its last beat. */
  predicate WellFormed(e: Endianness, f: seq<Beat>) {
    SeveralBeats(e, f) && !f[|f| - 1].error
  }

  /** Slots other than the current one are as they were. */
  predicate OtherSlots(before: seq<seq<bv32>>, mems: seq<seq<bv32>>, slot: nat) {
    |mems| == |before| && forall s | 0 <= s < |mems| && s != slot :: mems[s] == before[s]
  }

  /** What a beat of a frame that found room does to the state and the frame in progress. */
  lemma BeatTaken(w: Writer, f: seq<Beat>, taken: nat, offered: bool)
    requires w.Valid() && w.regular && SeveralBeats(w.endianness, f) && taken < |f| <= w.depth
    requires if taken == 0 then w.state == Ready && w.Room() else w.state == Write
    requires w.frame == f[..taken]
    ensures w.RegularBeat(offered, f[taken])
    ensures var n := taken + if offered then 1 else 0;
      && w.NextFrame(offered, f[taken]) == f[..n]
      && w.NextState(offered, f[taken]) ==
           if n == 0 then Ready else if n < |f| then Write else if f[n - 1].error then Discard else Terminate
  {
    hide Increment, Consistent;
    assert f[..taken + 1] == f[..taken] + [f[taken]];
  }

  /** A cycle in which the next beat of a frame that found room is offered, or not. */
  method OfferBeat(w: Writer, f: seq<Beat>, taken: nat, offered: bool, clear: bool)
    requires w.Valid() && w.regular && SeveralBeats(w.endianness, f) && taken < |f| <= w.depth
    requires if taken == 0 then w.state == Ready && w.Room() else w.state == Write
    requires w.frame == f[..taken]
    modifies w
    ensures w.Valid() && w.regular
    ensures var n := taken + if offered then 1 else 0;
      && w.state == (if n == 0 then Ready else if n < |f| then Write else if f[n - 1].error then Discard else Terminate)
      && w.frame == f[..n]
    ensures w.slot == old(w.slot) && OtherSlots(old(w.mems), w.mems, w.slot)
    ensures w.stored == old(w.stored) && w.reported == old(w.reported) && w.images == old(w.images)
    ensures w.skipped == old(w.skipped) && w.errors == old(w.errors)
    ensures w.fifo == if clear && old(w.fifo) != [] then old(w.fifo)[1..] else old(w.fifo)
  {
    hide Writer.Valid, Writer.NextState, Writer.NextFrame, Writer.NextCounter, Writer.NextMems, Writer.NextSlot,
      Writer.NextStored, Writer.NextReported, Writer.NextImages, Writer.NextSkipped, Writer.RegularBeat, OtherSlots;
    w.NothingClosed(offered, f[taken]);
    BeatTaken(w, f, taken, offered);
    w.Tick(offered, f[taken], clear);
  }

  /** A frame that finds room, offered under any schedule, is written to the current slot
      if that exists, and otherwise nothing is written. */
  method OfferFrame(w: Writer, f: seq<Beat>, run: seq<Cycle>) returns (taken: nat)
    requires w.Valid() && w.regular && w.state == Ready && w.Room()
    requires SeveralBeats(w.endianness, f) && |f| <= w.depth
    modifies w
    ensures w.Valid() && w.regular && taken <= |f|
    ensures w.state == if taken == 0 then Ready else if taken < |f| then Write
      else if f[taken - 1].error then Discard else Terminate
    ensures w.frame == f[..taken] && w.slot == old(w.slot) && OtherSlots(old(w.mems), w.mems, w.slot)
    ensures w.stored == old(w.stored) && w.reported == old(w.reported) && w.images == old(w.images)
    ensures w.skipped == old(w.skipped) && w.errors == old(w.errors)
    ensures taken == |f| && w.slot < w.slots ==> w.slot < |w.mems| && Stores(w.mems[w.slot], f)
    ensures taken == |f| ==> w.counter == Counted(w.endianness, f)
    ensures Rest(old(w.fifo), w.fifo)
  {
    hide Writer.Valid, IsFrame, Rest, Stores, Counted, OtherSlots;
    taken := 0;
    RestAll(w.fifo);
    Started(w);
    SameSlots(w.mems, w.slot);
    for i := 0 to |run|
      invariant w.Valid() && w.regular && taken < |f|
      invariant if taken == 0 then w.state == Ready && w.Room() else w.state == Write
      invariant w.frame == f[..taken] && w.slot == old(w.slot) && OtherSlots(old(w.mems), w.mems, w.slot)
      invariant w.stored == old(w.stored) && w.reported == old(w.reported) && w.images == old(w.images)
      invariant w.skipped == old(w.skipped) && w.errors == old(w.errors)
      invariant Rest(old(w.fifo), w.fifo)
    {
      RestPop(old(w.fifo), w.fifo);
      ghost var before := w.mems;
      OfferBeat(w, f, taken, run[i].offered, run[i].clear);
      SlotsChain(old(w.mems), before, w.mems, w.slot);
      if run[i].offered {
        taken := taken + 1;
        if taken == |f| {
          assert f[..taken] == f;
          AllStored(w, f);
          return;
        }
      }
    }
    SlotExists(w);
  }

  lemma SameSlots(mems: seq<seq<bv32>>, slot: nat)
    ensures OtherSlots(mems, mems, slot)
  {}

  lemma SlotsChain(first: seq<seq<bv32>>, before: seq<seq<bv32>>, mems: seq<seq<bv32>>, slot: nat)
    requires OtherSlots(first, before, slot) && OtherSlots(before, mems, slot)
    ensures OtherSlots(first, mems, slot)
  {}

  /** The cycle after the last beat of a frame that found room, whatever is offered and cleared in it. */
  method CloseTaken(w: Writer, next: Beat, c: Cycle)
    requires w.Valid() && w.regular && w.state in {Terminate, Discard} && w.frame != []
    modifies w
    ensures w.Valid() && w.regular && w.state == Ready && w.counter == 0 && w.frame == []
    ensures w.mems == old(w.mems) && w.errors == old(w.errors) && w.skipped == old(w.skipped)
    ensures var entry := if old(w.state) == Discard then [] else [Status(old(w.slot), old(w.counter))];
      && w.reported == old(w.reported) + entry
      && w.fifo == (if c.clear && old(w.fifo) != [] then old(w.fifo)[1..] else old(w.fifo)) + entry
    ensures w.stored == old(w.stored) + if old(w.state) == Discard then [] else [old(w.frame)]
    ensures w.slot == if old(w.state) == Discard then old(w.slot) else (old(w.slot) + 1) % SlotValues(w.slots)
  {
    hide Consistent, Stores, Counted, SlotOf, SlotValues;
    AllStored(w, w.frame);
    w.Untouched(c.offered, next);
    w.Tick(c.offered, next, c.clear);
  }

  lemma LeftOver(before: seq<Status>, fifo: seq<Status>, clear: bool, entry: Status)
    requires Rest(before, fifo)
    ensures var left := if clear && fifo != [] then fifo[1..] else fifo;
      Rest(before, left + []) && Rest(before + [entry], left + [entry])
  {
    var left := if clear && fifo != [] then fifo[1..] else fifo;
    RestPop(before, fifo);
    RestPush(before, left, entry);
    assert left + [] == left;
  }

  /** A frame that finds room, offered under any schedule and followed by one more cycle,
      is reported if and only if the error flag of its last beat is not set. Reported, its
      entry has its length and its slot, and the next slot is taken; otherwise entries,
      frames and slot are as if it had never come. */
  method ReceiveFrame(w: Writer, f: seq<Beat>, run: seq<Cycle>, next: Beat, final: Cycle) returns (done: bool)
    requires w.Valid() && w.regular && w.state == Ready && w.Room()
    requires SeveralBeats(w.endianness, f) && |f| <= w.depth
    modifies w
    ensures w.Valid() && w.regular
    ensures done ==>
      && w.state == Ready && w.counter == 0 && w.frame == []
      && w.skipped == old(w.skipped) && w.errors == old(w.errors) && OtherSlots(old(w.mems), w.mems, old(w.slot))
      && if f[|f| - 1].error then
           && w.stored == old(w.stored) && w.reported == old(w.reported) && w.slot == old(w.slot)
           && Rest(old(w.fifo), w.fifo)
         else
           var entry := Status(old(w.slot), Counted(w.endianness, f));
           && w.stored == old(w.stored) + [f] && w.reported == old(w.reported) + [entry]
           && w.slot == (old(w.slot) + 1) % SlotValues(w.slots)
           && Rest(old(w.fifo) + [entry], w.fifo)
           && (old(w.slot) < w.slots ==> old(w.slot) < |w.mems| && Stores(w.mems[old(w.slot)], f))
    ensures done ==> (w.reported == old(w.reported) <==> f[|f| - 1].error)
  {
    hide Writer.Valid, IsFrame, Rest, Stores, Counted, OtherSlots, SlotValues;
    var taken := OfferFrame(w, f, run);
    done := taken == |f|;
    if done {
      assert f[..taken] == f;
      LeftOver(old(w.fifo), w.fifo, final.clear, Status(w.slot, w.counter));
      CloseTaken(w, next, final);
    }
  }

  lemma Started(w: Writer)
    requires w.Valid() && w.regular && w.state == Ready
    ensures w.frame == [] && w.counter == 0 && |w.mems| == w.slots
  {
    hide Consistent;
  }

  lemma CountedPositive(e: Endianness, f: seq<Beat>)
    requires f != []
    ensures Counted(e, f) > 0
  {}

  lemma SlotExists(w: Writer)
    requires w.Valid()
    ensures |w.mems| == w.slots > 0
  {}

  lemma AllStored(w: Writer, f: seq<Beat>)
    requires w.Valid() && w.regular && w.state in {Terminate, Discard} && w.frame == f && f != []
    ensures |w.mems| == w.slots && (w.slot < w.slots ==> Stores(w.mems[w.slot], f))
    ensures w.Room() && w.counter == Counted(w.endianness, f)
  {
    hide Consistent;
  }

  /** Closing a frame that was taken queues its status entry and takes the next slot. */
  method CloseFrame(w: Writer)
    requires w.Valid() && w.regular && w.state == Terminate && w.frame != []
    modifies w
    ensures w.Valid() && w.regular && w.state == Ready && w.mems == old(w.mems)
    ensures w.fifo == old(w.fifo) + [Status(old(w.slot), old(w.counter))]
    ensures w.slot == Following(old(w.slot), w.slots)
  {
    hide Writer.Orderly, Writer.NextMems, Following;
    AllStored(w, w.frame);
    w.Untouched(false, Beat(0, false, 0, false));
    w.Tick(false, Beat(0, false, 0, false), false);
  }

  /** Of `n` beats offered the first `kept` were written: those up to a count of exactly 1530, or all. */
  ghost predicate Limited(e: Endianness, f: seq<Beat>, n: nat, kept: nat) {
    && kept <= n <= |f|
    && (kept < n ==> kept > 0 && Counted(e, f[..kept]) == 1530)
    && forall k | 0 < k < kept :: Counted(e, f[..k]) != 1530
  }

  lemma LimitedNext(e: Endianness, f: seq<Beat>, n: nat, kept: nat)
    requires Limited(e, f, n, kept) && n < |f|
    ensures Limited(e, f, n + 1, if kept < n || (n > 0 && Counted(e, f[..kept]) == 1530) then kept else n + 1)
  {
    hide Counted;
  }

  /** Where the writer is then. */
  function Progress(f: seq<Beat>, n: nat, kept: nat): WriterState
    requires n <= |f|
  {
    if n == 0 then Ready
    else if n < |f| then (if kept == n then Write else DiscardRemaining)
    else if f[n - 1].error && kept >= n - 1 then Discard else Terminate
  }

  /** Any frame of several beats that finds room, full beats or not, of any length. The
      limit of 1530 cuts it short if and only if its count meets that number exactly;
      what was written so far is then reported, whatever the error flag says, unless the
      very last beat is the one cut off. */
  method AnyFrame(w: Writer, f: seq<Beat>) returns (kept: nat)
    requires w.Valid() && w.state == Ready && w.Room() && w.frame == [] && w.counter == 0
    requires |f| > 1 && IsFrame(f)
    modifies w
    ensures w.Valid() && kept <= |f|
    ensures kept < |f| <==> exists k :: 0 < k < |f| && Counted(w.endianness, f[..k]) == 1530
    ensures w.frame == f[..kept] && w.counter == Counted(w.endianness, f[..kept])
    ensures w.state == if f[|f| - 1].error && kept >= |f| - 1 then Discard else Terminate
    ensures w.slot == old(w.slot) && w.fifo == old(w.fifo) && w.stored == old(w.stored) && w.errors == old(w.errors)
  {
    hide Writer.Valid, Increment, Counted;
    kept := 0;
    NothingCounted(w.endianness, f);
    for n := 0 to |f|
      invariant w.Valid() && Limited(w.endianness, f, n, kept)
      invariant w.state == Progress(f, n, kept) && (n == 0 ==> w.Room())
      invariant w.frame == f[..kept] && w.counter == Counted(w.endianness, f[..kept])
      invariant w.slot == old(w.slot) && w.fifo == old(w.fifo) && w.stored == old(w.stored)
      invariant w.errors == old(w.errors)
    {
      LimitedNext(w.endianness, f, n, kept);
      kept := OfferAny(w, f, n, kept);
    }
  }

  lemma NothingCounted(e: Endianness, f: seq<Beat>)
    ensures f[..0] == [] && Counted(e, f[..0]) == 0
  {}

  method OfferAny(w: Writer, f: seq<Beat>, n: nat, kept: nat) returns (now: nat)
    requires w.Valid() && |f| > 1 && IsFrame(f) && kept <= n < |f|
    requires w.state == Progress(f, n, kept) && (n == 0 ==> w.Room())
    requires w.frame == f[..kept] && w.counter == Counted(w.endianness, f[..kept])
    modifies w
    ensures w.Valid() && now == (if kept < n || (n > 0 && old(w.counter) == 1530) then kept else n + 1)
    ensures w.state == Progress(f, n + 1, now)
    ensures w.frame == f[..now] && w.counter == Counted(w.endianness, f[..now])
    ensures w.slot == old(w.slot) && w.fifo == old(w.fifo) && w.stored == old(w.stored) && w.errors == old(w.errors)
  {
    hide Writer.Orderly, Writer.NextMems, Writer.RegularBeat, Increment, Counted;
    now := if kept < n || (n > 0 && w.counter == 1530) then kept else n + 1;
    assert f[..n + 1] == f[..n] + [f[n]];
    CountedSnoc(w.endianness, f[..n], f[n]);
    w.Tick(true, f[n], false);
  }

  /** The memory holds the latest of `n` words, those written before them being overwritten. */
  ghost predicate LatestWords(mem: seq<bv32>, f: seq<Beat>, n: nat) {
    && n <= |f| && mem != []
    && forall i | 0 <= i < n && n - |mem| <= i :: mem[i % |mem|] == f[i].data
  }

  lemma LatestNext(mem: seq<bv32>, f: seq<Beat>, n: nat)
    requires LatestWords(mem, f, n) && n < |f|
    ensures LatestWords(mem[n % |mem| := f[n].data], f, n + 1)
  {
    forall i | 0 <= i < n && n + 1 - |mem| <= i
      ensures mem[n % |mem| := f[n].data][i % |mem|] == f[i].data
    {
      DistinctRemainders(i, n, |mem|);
    }
  }

  /** A frame of full beats is never cut short, as its count is a multiple of four: past the
      end of the slot it goes on from the beginning, and is reported with its whole length. */
  method LongFrame(w: Writer, f: seq<Beat>)
    requires w.Valid() && w.state == Ready && w.Room() && w.frame == [] && w.counter == 0
    requires SeveralBeats(w.endianness, f) && w.slot < w.slots
    modifies w
    ensures w.Valid() && w.slot == old(w.slot)
    ensures w.state == if f[|f| - 1].error then Discard else Terminate
    ensures w.counter == 4 * (|f| - 1) + Increment(w.endianness, f[|f| - 1].lastBe)
    ensures w.slot < |w.mems| && |w.mems[w.slot]| == w.depth && LatestWords(w.mems[w.slot], f, |f|)
  {
    hide Writer.Valid, Increment, LatestWords;
    SlotExists(w);
    NoWords(w, f);
    for n := 0 to |f|
      invariant w.Valid() && w.slot == old(w.slot) && w.slot < w.slots == |w.mems| && |w.mems[w.slot]| == w.depth
      invariant w.state == Progress(f, n, n) && (n == 0 ==> w.Room())
      invariant n < |f| ==> w.counter == 4 * n
      invariant n == |f| ==> w.counter == 4 * (|f| - 1) + Increment(w.endianness, f[|f| - 1].lastBe)
      invariant LatestWords(w.mems[w.slot], f, n)
    {
      LatestNext(w.mems[w.slot], f, n);
      OfferFull(w, f, n);
    }
  }

  lemma NoWords(w: Writer, f: seq<Beat>)
    requires w.Valid() && w.slot < w.slots
    ensures |w.mems[w.slot]| == w.depth && LatestWords(w.mems[w.slot], f, 0)
  {}

  method OfferFull(w: Writer, f: seq<Beat>, n: nat)
    requires w.Valid() && |f| > 1 && IsFrame(f) && n < |f| && w.slot < w.slots == |w.mems|
    requires w.state == Progress(f, n, n) && (n == 0 ==> w.Room()) && w.counter == 4 * n
    modifies w
    ensures w.Valid() && w.slot == old(w.slot) && w.state == Progress(f, n + 1, n + 1)
    ensures w.counter == 4 * n + Increment(w.endianness, f[n].lastBe)
    ensures w.mems == old(w.mems)[w.slot := old(w.mems)[w.slot][n % w.depth := f[n].data]]
  {
    hide Writer.Orderly, Writer.RegularBeat, Increment;
    w.Tick(true, f[n], false);
  }

  /** With a single slot every other frame is lost: the slot register counts to one, a slot
      that does not exist. The second frame leaves the memory as it is, and an entry for
      that slot, with the frame's length, is queued for it all the same. */
  method OneSlot(w: Writer, f: seq<Beat>, g: seq<Beat>, first: seq<Cycle>, second: seq<Cycle>) returns (done: bool)
    requires w.Valid() && w.regular && w.slots == 1 && w.state == Ready && w.slot == 0 && w.fifo == []
    requires WellFormed(w.endianness, f) && WellFormed(w.endianness, g) && |f| <= w.depth && |g| <= w.depth
    modifies w
    ensures done ==>
      && |w.mems| == 1 && Stores(w.mems[0], f)
      && w.fifo == [Status(1, Counted(w.endianness, g))] && Counted(w.endianness, g) > 0
  {
    hide Writer.Valid, IsFrame, Stores, Counted;
    SlotExists(w);
    CountedPositive(w.endianness, g);
    var taken := OfferFrame(w, f, first);
    done := taken == |f|;
    if done {
      CloseFrame(w);
      assert w.fifo == [Status(0, Counted(w.endianness, f))];
      ClearOne(w);
      taken := OfferFrame(w, g, second);
      done := taken == |g|;
      if done {
        CloseFrame(w);
        SlotExists(w);
      }
    }
  }

  /** What is offered while a frame is being closed is lost without a trace: the sink is
      always ready, but neither state looks at it. */
  method LostWhileClosing(w: Writer, b: Beat, clear: bool)
    requires w.Valid() && w.state in {Terminate, Discard}
    modifies w
    ensures w.Valid() && w.state == Ready && w.frame == [] && w.regular == old(w.regular)
    ensures w.mems == old(w.mems) && w.errors == old(w.errors)
  {
    w.Untouched(true, b);
    w.Tick(true, b, clear);
  }

  // ----- Reader wired to writer

  /** Some frame has been reported of which nothing was stored. */
  ghost predicate HasEmpty(stored: seq<seq<Beat>>) {
    exists k :: 0 <= k < |stored| && stored[k] == []
  }

  lemma HasEmptySnoc(stored: seq<seq<Beat>>, f: seq<Beat>)
    ensures HasEmpty(stored + [f]) <==> HasEmpty(stored) || f == []
  {
    if HasEmpty(stored) {
      var k :| 0 <= k < |stored| && stored[k] == [];
      assert (stored + [f])[k] == [];
    }
    if f == [] {
      assert (stored + [f])[|stored|] == [];
    }
  }

  /** The two state machines move together, beat by beat, and every frame sent is
      stored, counted as an empty one, or skipped. */
  ghost predicate Tracked(rs: ReaderState, sending: seq<Beat>, sent: seq<seq<Beat>>, ws: WriterState,
                          storing: seq<Beat>, stored: seq<seq<Beat>>, skipped: nat, refused: bool, refusing: bool) {
    && storing == (if refusing then [] else sending)
    && (rs == Idle || sending == [] ==> sending == [] && !refusing)
    && ws == (match rs
       case Idle => Ready
       case Send => (if sending == [] then Ready else if refusing then DiscardRemaining else Write)
       case End => Terminate)
    && |stored| + skipped == |sent|
    && (if refused then refusing || skipped > 0 || HasEmpty(stored)
        else !refusing && skipped == 0 && stored == sent)
  }

  lemma TrackedNext(rs: ReaderState, rs': ReaderState, sending: seq<Beat>, sent: seq<seq<Beat>>, ws: WriterState,
                    ws': WriterState, storing: seq<Beat>, stored: seq<seq<Beat>>, skipped: nat, refused: bool,
                    refusing: bool, b: Beat, last: bool, room: bool)
    requires Tracked(rs, sending, sent, ws, storing, stored, skipped, refused, refusing)
    requires match rs case Idle => rs' != End case Send => rs' == (if last then End else Send) case End => rs' == Idle
    requires ws' == match rs
      case Idle | End => Ready
      case Send =>
        if last then Terminate else if refusing || (ws == Ready && !room) then DiscardRemaining else Write
    requires rs == Send && sending == [] ==> !last
    requires rs == End ==> sending != [] && (refusing || room)
    ensures var refuses := rs == Send && ws == Ready && !room;
      Tracked(rs', if rs == End then [] else sending + if rs == Send then [b] else [],
              sent + if rs == End then [sending] else [],
              ws', if rs == End then [] else storing + if rs == Send && !refusing && !refuses then [b] else [],
              stored + if rs == End && room then [storing] else [], skipped + if rs == End && !room then 1 else 0,
              refused || refuses, rs != End && (refusing || refuses))
  {
    hide HasEmpty;
    HasEmptySnoc(stored, storing);
    assert stored + [] == stored && sent + [] == sent && storing + [] == storing && sending + [] == sending;
  }

  /** Some frame has been reported in a slot that does not exist. */
  ghost predicate HasStray(slots: nat, stored: seq<seq<Beat>>, reported: seq<Status>) {
    exists k :: 0 <= k < |stored| && k < |reported| && stored[k] != [] && reported[k].slot >= slots
  }

  lemma HasStraySnoc(slots: nat, stored: seq<seq<Beat>>, reported: seq<Status>, f: seq<Beat>, entry: Status)
    requires |stored| == |reported|
    ensures HasStray(slots, stored + [f], reported + [entry]) <==>
      HasStray(slots, stored, reported) || (f != [] && entry.slot >= slots)
  {
    if HasStray(slots, stored, reported) {
      var k :| 0 <= k < |stored| && k < |reported| && stored[k] != [] && reported[k].slot >= slots;
      assert (stored + [f])[k] != [] && (reported + [entry])[k].slot >= slots;
    }
    if f != [] && entry.slot >= slots {
      assert (stored + [f])[|stored|] != [] && (reported + [entry])[|stored|].slot >= slots;
    }
  }

  /** The frames that had no slot to go to: the one in progress, or one reported. */
  ghost predicate Strays(slots: nat, slot: nat, storing: seq<Beat>, stored: seq<seq<Beat>>, reported: seq<Status>,
                         strayed: bool, straying: bool) {
    && |stored| == |reported|
    && straying == (storing != [] && slot >= slots)
    && strayed == (straying || HasStray(slots, stored, reported))
  }

  lemma StraysNext(slots: nat, slot: nat, slot': nat, storing: seq<Beat>, storing': seq<Beat>, stored: seq<seq<Beat>>,
                   reported: seq<Status>, strayed: bool, straying: bool, closing: bool, room: bool, counter: nat,
                   begins: bool)
    requires Strays(slots, slot, storing, stored, reported, strayed, straying)
    requires if closing then storing' == [] && (room || storing == []) && !begins else slot' == slot
    requires !closing ==> (begins <==> storing == [] && storing' != [] && slot >= slots)
    requires !closing && storing != [] ==> storing' != []
    ensures Strays(slots, slot', storing', stored + if closing && room then [storing] else [],
                   reported + if closing && room then [Status(slot, counter)] else [],
                   strayed || begins, !closing && (straying || begins))
  {
    hide HasStray;
    HasStraySnoc(slots, stored, reported, storing, Status(slot, counter));
    assert stored + [] == stored && reported + [] == reported;
  }

  class Copy {
    const reader: Reader
    const writer: Writer
    ghost var refused: bool   // a frame began when no status entry was free
    ghost var refusing: bool  // ... and it is the one in progress
    ghost var strayed: bool   // a frame began when the current slot did not exist
    ghost var straying: bool  // ... and it is the one in progress

    ghost predicate Valid()
      reads this, reader, writer
    {
      && reader.Valid() && writer.Valid()
      && reader.depth <= writer.depth && reader.endianness == writer.endianness
      && (forall c | c in reader.commands :: Copied(c))
      && (forall c | c in reader.served :: Copied(c))
      && Together()
    }

    /** Commands for frames of at least two beats that fit a slot. */
    predicate Copied(c: Command) {
      c.slot < |reader.mems| && 5 <= c.length <= 4 * reader.depth
    }

    ghost predicate Together()
      reads this, reader, writer
    {
      && writer.regular
      && Tracked(reader.state, reader.frame, reader.sent, writer.state, writer.frame, writer.stored, writer.skipped,
                 refused, refusing)
      && Strays(writer.slots, writer.slot, writer.frame, writer.stored, writer.reported, strayed, straying)
    }

    constructor (e: Endianness, from: seq<seq<bv32>>, to: seq<seq<bv32>>, depth: nat, wrap: nat)
      requires depth > 0 && wrap > 4 * depth && to != [] && from != []
      requires forall m | m in from + to :: |m| == depth
      ensures Valid() && !refused && !strayed && writer.slots == |to|
      ensures reader.mems == from && reader.sent == [] && reader.commands == []
    {
      assert forall m | m in from :: m in from + to;
      assert forall m | m in to :: m in from + to;
      reader := new Reader(e, from, depth, wrap);
      writer := new Writer(e, depth, to);
      refused, refusing, strayed, straying := false, false, false, false;
    }

    /** One clock; the writer's sink is always ready. */
    method Tick(command: seq<Command>, clear: bool)
      requires Valid() && |command| <= 1 && forall c | c in command :: Copied(c)
      modifies this, reader, writer
      ensures Valid()
      ensures refused == (old(refused) || old(Refuses()))
      ensures strayed == (old(strayed) || old(HasNoSlot()))
    {
      hide Reader.Valid, Writer.Valid, HasEmpty, HasStray, Writer.NextState, Writer.RegularBeat, Writer.NextSlot,
        Writer.NextFrame, Writer.NextStored, Writer.NextSkipped, Writer.NextReported, Reader.NextState,
        Reader.NextFrame, Reader.NextSent, Reader.SourceBeat, Tracked, Strays, Refuses, HasNoSlot;
      var v, b := reader.SourceValid(), OfferedBeat();
      StaysTracked();
      ghost var refuses, noSlot, ends := Refuses(), HasNoSlot(), reader.state == End;
      Clock(v, b, command, clear);
      refused, strayed := refused || refuses, strayed || noSlot;
      refusing, straying := !ends && (refusing || refuses), !ends && (straying || noSlot);
    }

    /** Both ends advance. */
    method Clock(v: bool, b: Beat, command: seq<Command>, clear: bool)
      requires reader.Valid() && writer.Valid() && (reader.state == Send ==> reader.commands != [])
      requires |command| <= 1 && forall c | c in command :: c.slot < |reader.mems|
      modifies reader, writer
      ensures reader.Valid() && writer.Valid()
      ensures reader.state == old(reader.NextState(true)) && reader.frame == old(reader.NextFrame(true))
      ensures reader.sent == old(reader.NextSent())
      ensures forall c | c in reader.commands :: c in old(reader.commands) || c in command
      ensures forall c | c in reader.served :: c in old(reader.served) || c in old(reader.commands)
      ensures writer.state == old(writer.NextState(v, b)) && writer.frame == old(writer.NextFrame(v, b))
      ensures writer.stored == old(writer.NextStored()) && writer.reported == old(writer.NextReported())
      ensures writer.skipped == old(writer.NextSkipped()) && writer.slot == old(writer.NextSlot())
      ensures writer.regular == (old(writer.regular) && old(writer.RegularBeat(v, b)))
    {
      hide Reader.Valid, Writer.Valid, Writer.NextState, Writer.RegularBeat, Writer.NextMems, Writer.NextCounter,
        Writer.NextSlot, Writer.NextFrame, Writer.NextStored, Writer.NextSkipped, Writer.NextReported,
        Writer.NextImages, Reader.NextState, Reader.NextFrame, Reader.NextSent;
      EndHasCommand();
      writer.Tick(v, b, clear);
      reader.Tick(true, command);
    }

    lemma EndHasCommand()
      requires reader.Valid()
      ensures reader.state == End ==> reader.commands != []
    {}

    /** A frame begins when the current slot does not exist. */
    ghost predicate HasNoSlot()
      reads reader, writer
    {
      reader.state == Send && writer.state == Ready && writer.Room() && writer.slot >= writer.slots
    }

    /** A frame begins when no status entry is free. */
    ghost predicate Refuses()
      reads reader, writer
    {
      reader.state == Send && writer.state == Ready && !writer.Room()
    }

    /** What this clock does to frames sent and stored. */
    lemma StaysTracked()
      requires reader.Valid() && writer.Valid() && Together()
      requires reader.depth <= writer.depth && reader.endianness == writer.endianness
      requires forall c | c in reader.commands :: Copied(c)
      ensures reader.state == Send ==> reader.commands != []
      ensures writer.RegularBeat(reader.SourceValid(), OfferedBeat())
      ensures var v, b := reader.SourceValid(), OfferedBeat();
        Tracked(reader.NextState(true), reader.NextFrame(true), reader.NextSent(), writer.NextState(v, b),
                writer.NextFrame(v, b), writer.NextStored(), writer.NextSkipped(), refused || Refuses(),
                reader.state != End && (refusing || Refuses()))
      ensures var v, b := reader.SourceValid(), OfferedBeat();
        Strays(writer.slots, writer.NextSlot(), writer.NextFrame(v, b), writer.NextStored(), writer.NextReported(),
               strayed || HasNoSlot(), reader.state != End && (straying || HasNoSlot()))
    {
      hide Reader.Valid, Writer.Valid, HasEmpty, HasStray, Writer.RegularBeat;
      BeatIsRegular();
      StaysStrayed();
      hide Writer.NextState, Writer.Ongoing, Reader.SourceLast, Tracked, Strays, HasNoSlot;
      var v, b := reader.SourceValid(), OfferedBeat();
      TrackedNext(reader.state, reader.NextState(true), reader.frame, reader.sent, writer.state,
                  writer.NextState(v, b), writer.frame, writer.stored, writer.skipped, refused, refusing,
                  b, reader.state == Send && reader.SourceLast(), writer.Room());
    }

    /** What this clock does to frames without a slot. */
    lemma StaysStrayed()
      requires reader.Valid() && writer.Valid() && Together()
      requires reader.depth <= writer.depth && reader.endianness == writer.endianness
      requires forall c | c in reader.commands :: Copied(c)
      ensures var v, b := reader.SourceValid(), OfferedBeat();
        Strays(writer.slots, writer.NextSlot(), writer.NextFrame(v, b), writer.NextStored(), writer.NextReported(),
               strayed || HasNoSlot(), reader.state != End && (straying || HasNoSlot()))
    {
      hide Reader.Valid, Writer.Valid, HasEmpty, HasStray, Writer.RegularBeat, Following;
      BeatIsRegular();
      SlotExists(writer);
      hide Writer.Ongoing, Writer.NextState, Strays;
      StraysNext(writer.slots, writer.slot, writer.NextSlot(), writer.frame,
                 writer.NextFrame(reader.SourceValid(), OfferedBeat()), writer.stored, writer.reported,
                 strayed, straying, writer.state == Terminate, writer.Room(), writer.counter, HasNoSlot());
    }

    function OfferedBeat(): Beat
      requires reader.Valid()
      reads reader
    {
      if reader.state == Send then reader.SourceBeat() else Beat(0, false, 0, false)
    }

    /** What the writer makes of the beat offered. */
    lemma BeatIsRegular()
      requires reader.Valid() && writer.Valid() && Together()
      requires reader.depth <= writer.depth && reader.endianness == writer.endianness
      requires forall c | c in reader.commands :: Copied(c)
      ensures writer.RegularBeat(reader.SourceValid(), OfferedBeat())
      ensures reader.state == Send ==> (writer.Ongoing() <==> !refusing && (writer.state == Ready ==> writer.Room()))
      ensures writer.state == Terminate && !refusing ==> writer.Room()
      ensures reader.state == End ==> reader.frame != []
      ensures reader.state == Send ==> reader.commands != [] && (reader.frame == [] ==> !reader.SourceLast())
      ensures reader.state == Send ==> writer.state in {Ready, Write, DiscardRemaining}
      ensures reader.state == End <==> writer.state == Terminate
      ensures reader.state != End ==> writer.state != Discard
      ensures writer.NextState(reader.SourceValid(), OfferedBeat()) == match reader.state
        case Idle | End => Ready
        case Send =>
          if reader.SourceLast() then Terminate
          else if refusing || (writer.state == Ready && !writer.Room()) then DiscardRemaining else Write
    {
      hide Reader.Valid, FrameOf, Served, Reported, Storing, Measured, HasEmpty, Increment;
      BeatOffered();
    }

    /** The beats of a frame long enough are well formed. */
    lemma BeatOffered()
      requires reader.Valid() && forall c | c in reader.commands :: Copied(c)
      ensures reader.state == Send ==> reader.commands != []
      ensures reader.state == Send ==>
        var b := OfferedBeat();
        && b.last == reader.SourceLast() && !b.error && |reader.frame| < reader.depth
        && (reader.frame == [] ==> !b.last)
        && (b.last || Increment(reader.endianness, b.lastBe) == 4)
      ensures reader.state == End ==> reader.frame != []
    {
      if reader.state != Idle {
        assert Copied(reader.commands[0]);
        hide Served;
      }
    }
  }

  /** Entry `i` of the status queue belongs to a frame commanded: it has the frame's
      length, and its slot holds the frame's words. */
  ghost predicate EntryExact(m: Copy, i: nat)
    reads m, m.reader, m.writer
  {
    var n := |m.reader.served| - |m.writer.fifo| + i;
    && i < |m.writer.fifo| && 0 <= n < |m.reader.served|
    && var c, entry := m.reader.served[n], m.writer.fifo[i];
    && c.slot < |m.reader.mems| && Beats(c.length) <= |m.reader.mems[c.slot]|
    && entry.slot < |m.writer.mems| && Beats(c.length) <= |m.writer.mems[entry.slot]|
    && entry.length == c.length
    && m.writer.mems[entry.slot][..Beats(c.length)] == m.reader.mems[c.slot][..Beats(c.length)]
  }

  /** When it was reported, frame `n` was in its slot word for word, and it was reported with its length. */
  ghost predicate ReportExact(m: Copy, n: nat)
    reads m, m.reader, m.writer
  {
    && n < |m.reader.served| && n < |m.writer.reported| && n < |m.writer.images|
    && var c := m.reader.served[n];
    && m.writer.reported[n].length == c.length
    && c.slot < |m.reader.mems| && Beats(c.length) <= |m.reader.mems[c.slot]|
    && Beats(c.length) <= |m.writer.images[n]|
    && m.writer.images[n][..Beats(c.length)] == m.reader.mems[c.slot][..Beats(c.length)]
  }

  /** Every frame commanded has been stored and reported, and those not yet cleared are in place. */
  ghost predicate Exact(m: Copy)
    reads m, m.reader, m.writer
  {
    && |m.writer.reported| == |m.reader.served|
    && (forall n | 0 <= n < |m.reader.served| :: ReportExact(m, n))
    && forall i | 0 <= i < |m.writer.fifo| :: EntryExact(m, i)
  }

  /** A frame served is the frame of its command, and not empty. */
  lemma FrameServed(m: Copy, n: nat)
    requires m.Valid() && n < |m.reader.served|
    ensures |m.reader.sent| == |m.reader.served|
    ensures var c := m.reader.served[n];
      && m.Copied(c) && 1 < Beats(c.length) <= |m.reader.mems[c.slot]|
      && Counted(m.writer.endianness, m.reader.sent[n]) == c.length
      && |m.reader.sent[n]| == Beats(c.length)
      && Data(m.reader.sent[n]) == m.reader.mems[c.slot][..Beats(c.length)]
  {
    hide LastLane, Increment, Tracked, Strays, Writer.Valid;
    var c := m.reader.served[n];
    assert c in m.reader.served;
    var mem := m.reader.mems[c.slot];
    assert m.reader.sent[n] == FrameOf(m.reader.endianness, mem, c.length);
    CountedIsLength(m.reader.endianness, mem, c.length);
    assert Data(FrameOf(m.reader.endianness, mem, c.length)) == mem[..Beats(c.length)];
  }

  /** What the writer says about frame `n`, when it was stored. */
  lemma FrameStored(m: Copy, n: nat)
    requires m.Valid() && !m.refused && !m.strayed && n < |m.reader.served|
    ensures |m.writer.reported| == |m.writer.images| == |m.reader.served| == |m.reader.sent|
    ensures m.writer.stored == m.reader.sent && m.writer.skipped == 0
    ensures m.reader.sent[n] != [] && m.writer.reported[n].slot < m.writer.slots
    ensures m.writer.reported[n].length == Counted(m.writer.endianness, m.reader.sent[n])
    ensures Stores(m.writer.images[n], m.reader.sent[n])
  {
    hide Counted, Stores, Reported, Data, Rest, Reader.Valid;
    FrameServed(m, n);
  }

  /** Unless a frame found no free status entry, or no slot, every frame commanded is
      stored word for word, its entry reports exactly the length commanded, and entry
      and words stay in place until the entry is cleared. */
  lemma CopyExact(m: Copy, i: nat)
    requires m.Valid() && !m.refused && !m.strayed && i < |m.writer.fifo|
    ensures EntryExact(m, i)
  {
    hide Copy.Valid, Counted, Data;
    EntryOf(m, i);
    var n := |m.reader.served| - |m.writer.fifo| + i;
    FrameServed(m, n);
    FrameStored(m, n);
  }

  lemma EntryOf(m: Copy, i: nat)
    requires m.Valid() && !m.refused && !m.strayed && i < |m.writer.fifo|
    ensures var n := |m.reader.served| - |m.writer.fifo| + i;
      && 0 <= n < |m.reader.served| == |m.writer.reported| == |m.reader.sent|
      && var entry := m.writer.fifo[i];
      && entry == m.writer.reported[n]
      && |m.writer.mems| == m.writer.slots
      && (entry.slot < m.writer.slots ==> Stores(m.writer.mems[entry.slot], m.reader.sent[n]))
  {
    hide Counted, Stores, Reader.Valid, Measured, HasStray;
    SentIsServed(m);
    var n := |m.reader.sent| - |m.writer.fifo| + i;
    assert Describes(m.writer.endianness, m.writer.mems, m.writer.fifo[i], n, m.writer.stored[n]);
    assert |m.writer.reported| == |m.writer.stored| by {
      hide Reported;
    }
  }

  lemma SentIsServed(m: Copy)
    requires m.Valid()
    ensures |m.reader.sent| == |m.reader.served|
  {
    hide Writer.Valid, Tracked, Strays;
  }

  /** A refused frame is missing from the reports, or reported with length zero. */
  lemma RefusedShows(m: Copy)
    requires m.Valid() && m.refused && m.reader.state == Idle
    ensures !Exact(m)
  {
    hide EntryExact, Reported, FrameOf, Strays;
    if m.writer.skipped == 0 && |m.writer.reported| == |m.reader.served| {
      var k :| 0 <= k < |m.writer.stored| && m.writer.stored[k] == [];
      assert m.reader.served[k] in m.reader.served;
      assert m.writer.reported[k].length == Counted(m.writer.endianness, []) == 0;
      assert !ReportExact(m, k);
    }
  }

  /** A frame without a slot is reported, but was nowhere. */
  lemma StrayShows(m: Copy)
    requires m.Valid() && m.strayed && m.reader.state == Idle
    ensures !Exact(m)
  {
    hide EntryExact, Reported, FrameOf, Counted, HasEmpty;
    if |m.writer.reported| == |m.reader.served| {
      var k :| 0 <= k < |m.writer.stored| && m.writer.stored[k] != [] && m.writer.reported[k].slot >= m.writer.slots;
      assert m.reader.served[k] in m.reader.served;
      assert m.writer.images[k] == [];
      assert !ReportExact(m, k);
    }
  }

  /** Between frames the copy is exact if and only if every frame found a free status
      entry and an existing slot when it began. */
  lemma CopyExactIff(m: Copy)
    requires m.Valid() && m.reader.state == Idle
    ensures Exact(m) <==> !m.refused && !m.strayed
  {
    hide Copy.Valid, EntryExact, ReportExact;
    if m.refused {
      RefusedShows(m);
    } else if m.strayed {
      StrayShows(m);
    } else {
      NothingMissing(m);
      forall n | 0 <= n < |m.reader.served| ensures ReportExact(m, n) {
        ReportedExactly(m, n);
      }
      forall i | 0 <= i < |m.writer.fifo| ensures EntryExact(m, i) {
        CopyExact(m, i);
      }
    }
  }

  lemma ReportedExactly(m: Copy, n: nat)
    requires m.Valid() && !m.refused && !m.strayed && n < |m.reader.served|
    ensures ReportExact(m, n)
  {
    hide Copy.Valid, Counted, Data;
    FrameServed(m, n);
    FrameStored(m, n);
  }

  lemma NothingMissing(m: Copy)
    requires m.Valid() && !m.refused
    ensures |m.writer.reported| == |m.reader.served|
  {
    hide Reported, Counted, Stores;
  }

  /** With several slots every value of the slot register is a slot, and no frame strays. */
  lemma SlotsExist(m: Copy)
    requires m.Valid() && m.writer.slots > 1
    ensures !m.strayed
  {
    hide Reported, Rest, Counted, Stores, Tracked;
  }
}
