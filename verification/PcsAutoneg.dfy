/** Auto-negotiation of the PCS: the link state machine with its watchdog, in
    the transmit clock domain, and the consistency counter over received
    configuration registers, in the receive clock domain. */
module PcsAutoneg {
  import opened Modulo

  datatype LinkState = WaitAbi | WaitAck | MoreAck | Running

  /** One clock of the state machine: its inputs, and what was visible during it. */
  datatype Cycle = Cycle(ci: bool, abi: bool, ack: bool, empty: bool,
                         tick: bool, ok: bool, state: LinkState, restart: bool)

  /** Watchdog ticks come every `max + 1` cycles, the first in cycle 1. */
  predicate TickCycle(c: nat, max: nat) {
    c > 0 && (c - 1) % (max + 1) == 0
  }

  /** A valid ordered set was reported in one of the cycles from `lo` up to `hi`. */
  ghost predicate Reported(trace: seq<Cycle>, lo: int, hi: int) {
    exists c :: 0 <= c < |trace| && lo <= c < hi && trace[c].ci
  }

  /** What a trace says about the watchdog. */
  ghost predicate Watched(trace: seq<Cycle>, max: nat) {
    forall c | 0 <= c < |trace| ::
      && (trace[c].tick <==> TickCycle(c, max))
      && (trace[c].tick ==> (trace[c].ok <==> Reported(trace, c - max, c)))
      && (trace[c].restart <==> (trace[c].tick && !trace[c].ok) || (trace[c].state == Running && trace[c].empty))
  }

  lemma ReportedSnoc(trace: seq<Cycle>, e: Cycle, lo: int, hi: int)
    requires hi <= |trace|
    ensures Reported(trace + [e], lo, hi) == Reported(trace, lo, hi)
    ensures Reported(trace + [e], lo, |trace| + 1) == (Reported(trace, lo, |trace|) || (lo <= |trace| && e.ci))
  {
    var t := trace + [e];
    assert t[..|trace|] == trace;
    if Reported(trace, lo, hi) {
      var c :| 0 <= c < |trace| && lo <= c < hi && trace[c].ci;
      assert t[c].ci;
    }
    if Reported(trace, lo, |trace|) {
      var c :| 0 <= c < |trace| && lo <= c < |trace| && trace[c].ci;
      assert t[c].ci;
    }
    if lo <= |trace| && e.ci {
      assert t[|trace|].ci;
    }
  }

  lemma WatchedSnoc(trace: seq<Cycle>, e: Cycle, max: nat)
    requires Watched(trace, max)
    requires e.tick <==> TickCycle(|trace|, max)
    requires e.tick ==> (e.ok <==> Reported(trace, |trace| - max, |trace|))
    requires e.restart <==> (e.tick && !e.ok) || (e.state == Running && e.empty)
    ensures Watched(trace + [e], max)
  {
    forall c | 0 <= c <= |trace| && (trace + [e])[c].tick
      ensures Reported(trace + [e], c - max, c) == Reported(trace, c - max, c)
    {
      ReportedSnoc(trace, e, c - max, c);
    }
  }

  /** Every window of a period contains a tick. */
  lemma TickInPeriod(lo: nat, max: nat) returns (c: nat)
    requires lo > 0
    ensures lo <= c <= lo + max && TickCycle(c, max)
  {
    var p := max + 1;
    var r := (lo - 1) % p;
    if r == 0 {
      c := lo;
    } else {
      c := lo + p - r;
      NextMultiple(lo - 1, p);
    }
  }

  lemma NextMultiple(n: nat, p: nat)
    requires p > 0
    ensures (n + p - n % p) % p == 0
  {
    var q := n / p;
    assert n + p - n % p == (q + 1) * p;
    ModUnique((q + 1) * p, q + 1, 0, p);
  }

  /** In any two periods without a report the link is restarted: the state
      machine cannot stay in RUNNING, or anywhere else, without valid ordered sets. */
  lemma WatchdogFires(trace: seq<Cycle>, max: nat, lo: nat)
    requires max > 0 && Watched(trace, max) && lo + 2 * (max + 1) <= |trace|
    requires !Reported(trace, lo, lo + 2 * (max + 1))
    ensures exists c :: lo <= c < lo + 2 * (max + 1) && trace[c].restart
  {
    var c := TickInPeriod(lo + max + 1, max);
    assert trace[c].tick;
    assert Reported(trace, c - max, c) ==> Reported(trace, lo, lo + 2 * (max + 1));
    assert trace[c].restart;
  }

  /** A tick restarts the link exactly when nothing was reported strictly
      between it and the tick one period before. */
  lemma TickRestartsIff(trace: seq<Cycle>, max: nat, c: nat)
    requires max > 0 && Watched(trace, max) && c < |trace| && TickCycle(c, max)
    requires !(trace[c].state == Running && trace[c].empty)
    ensures trace[c].restart <==> !Reported(trace, c - max, c)
  {}

  /** If a report falls strictly between every two ticks, and before the first, the watchdog never restarts the link. */
  lemma WatchdogQuiet(trace: seq<Cycle>, max: nat)
    requires max > 0 && Watched(trace, max)
    requires forall c | 0 <= c < |trace| && TickCycle(c, max) :: Reported(trace, c - max, c)
    ensures forall c | 0 <= c < |trace| && trace[c].restart :: trace[c].state == Running && trace[c].empty
  {}

  ghost predicate NoRestart(trace: seq<Cycle>, lo: nat) {
    forall c | lo <= c < |trace| :: !trace[c].restart
  }

  /** The negotiation up to now: an ability pulse in cycle `abi`, and nothing restarted since. */
  ghost predicate AbilitySeen(trace: seq<Cycle>, abi: nat) {
    abi < |trace| && trace[abi].abi && trace[abi].state == WaitAbi && NoRestart(trace, abi)
  }

  /** ... then an acknowledge pulse in cycle `ack`. */
  ghost predicate AcknowledgeSeen(trace: seq<Cycle>, abi: nat, ack: nat) {
    AbilitySeen(trace, abi) && abi < ack < |trace| && trace[ack].ack && trace[ack].state == WaitAck
  }

  /** ... then `n` cycles spent sending acknowledgements. */
  ghost predicate AcknowledgeSent(trace: seq<Cycle>, ack: nat, n: nat) {
    ack + n < |trace| && forall c | ack < c <= ack + n :: trace[c].state == MoreAck
  }

  /** The watchdog registers, given the trace so far: the counter counts down
      to the next tick, the flag remembers reports from cycle `since` on. */
  ghost predicate WatchdogAt(trace: seq<Cycle>, max: nat, counter: nat, tick: bool, ok: bool, since: nat) {
    var now := |trace|;
    && counter <= max && since <= now
    && (if now == 0 then counter == 0 && !tick && since == 0
        else
          && counter == max - (now - 1) % (max + 1) && (tick <==> counter == max)
          && since == if !tick then now + 1 - (max - counter) else if now == 1 then 0 else now - max)
    && (ok <==> Reported(trace, since, now))
  }

  lemma WatchdogKeeps(trace: seq<Cycle>, e: Cycle, max: nat, counter: nat, since: nat)
    requires max > 0 && WatchdogAt(trace, max, counter, e.tick, e.ok, since)
    ensures WatchdogAt(trace + [e], max, if counter == 0 then max else counter - 1, counter == 0,
      !e.tick && (e.ci || e.ok), if e.tick then |trace| + 1 else since)
    ensures e.tick <==> TickCycle(|trace|, max)
    ensures e.tick ==> (e.ok <==> Reported(trace, |trace| - max, |trace|))
  {
    ReportedSnoc(trace, e, since, |trace|);
    if trace != [] {
      ModNext(|trace| - 1, max + 1);
    } else {
      ModUnique(0, 0, 0, max + 1);
    }
  }

  /** Each state is reached only by the pulses that lead to it, in order, without a restart in between. */
  ghost predicate NegotiatedAt(trace: seq<Cycle>, moreAck: nat, state: LinkState, count: nat, abiAt: nat, ackAt: nat) {
    match state
    case WaitAbi => true
    case WaitAck => count == moreAck && AbilitySeen(trace, abiAt)
    case MoreAck =>
      && AcknowledgeSeen(trace, abiAt, ackAt) && count <= moreAck
      && ackAt + 1 + (moreAck - count) == |trace| && AcknowledgeSent(trace, ackAt, moreAck - count)
    case Running =>
      AcknowledgeSeen(trace, abiAt, ackAt) && AcknowledgeSent(trace, ackAt, moreAck + 1)
  }

  /** The state machine, when nothing restarts it. */
  function NextState(state: LinkState, abi: bool, ack: bool, done: bool): LinkState {
    match state
    case WaitAbi => if abi then WaitAck else WaitAbi
    case WaitAck => if ack then MoreAck else WaitAck
    case MoreAck => if done then Running else MoreAck
    case Running => Running
  }

  lemma NegotiatedKeeps(trace: seq<Cycle>, e: Cycle, moreAck: nat, count: nat, abiAt: nat, ackAt: nat)
    requires NegotiatedAt(trace, moreAck, e.state, count, abiAt, ackAt) && !e.restart
    ensures NegotiatedAt(trace + [e], moreAck, NextState(e.state, e.abi, e.ack, count == 0),
      if e.state != MoreAck then moreAck else if count > 0 then count - 1 else 0,
      if e.state == WaitAbi then |trace| else abiAt, if e.state == WaitAck then |trace| else ackAt)
  {
    var t := trace + [e];
    assert forall c | 0 <= c < |trace| :: t[c] == trace[c];
  }

  class LinkControl {
    const max: nat       // watchdog period, less one
    const moreAck: nat   // length of the acknowledge timer
    var state: LinkState
    var inited: bool
    var counter: nat
    var tick: bool
    var ok: bool
    var count: nat
    ghost var trace: seq<Cycle>
    ghost var since: nat   // first cycle whose reports the ok flag remembers
    ghost var abiAt: nat
    ghost var ackAt: nat

    ghost predicate Valid()
      reads this
    {
      && max > 0
      && Watched(trace, max)
      && WatchdogAt(trace, max, counter, tick, ok, since)
      && NegotiatedAt(trace, moreAck, state, count, abiAt, ackAt)
    }

    constructor (max: nat, moreAck: nat)
      requires max > 0
      ensures Valid() && trace == [] && this.max == max && this.moreAck == moreAck
      ensures state == WaitAbi && count == moreAck && !inited
    {
      this.max, this.moreAck := max, moreAck;
      state, inited, counter, tick, ok, count := WaitAbi, false, 0, false, false, moreAck;
      trace, since, abiAt, ackAt := [], 0, 0, 0;
    }

    /** A tick finds that no ordered set has been reported since the tick before. */
    predicate Expired()
      reads this
    {
      tick && !ok
    }

    predicate Restart(empty: bool)
      reads this
    {
      Expired() || (state == Running && empty)
    }

    predicate LinkUp()
      reads this
    {
      state == Running
    }

    function This(ci: bool, abi: bool, ack: bool, empty: bool): Cycle
      reads this
    {
      Cycle(ci, abi, ack, empty, tick, ok, state, Restart(empty))
    }

    method Tick(ci: bool, abi: bool, ack: bool, empty: bool)
      requires Valid()
      modifies this
      ensures Valid()
      ensures trace == old(trace) + [old(This(ci, abi, ack, empty))]
      ensures state == if (old(tick) && !old(ok)) || (old(state) == Running && empty) then WaitAbi
        else match old(state)
        case WaitAbi => if abi then WaitAck else WaitAbi
        case WaitAck => if ack then MoreAck else WaitAck
        case MoreAck => if old(count) == 0 then Running else MoreAck
        case Running => Running
      ensures count == if old(state) != MoreAck then moreAck else if old(count) > 0 then old(count) - 1 else 0
      ensures inited == (old(inited) || (old(state) == WaitAbi && abi))
    {
      hide Watched, WatchdogAt, NegotiatedAt, TickCycle, Reported;
      ghost var e := This(ci, abi, ack, empty);
      WatchdogKeeps(trace, e, max, counter, since);
      WatchedSnoc(trace, e, max);
      if !e.restart {
        NegotiatedKeeps(trace, e, moreAck, count, abiAt, ackAt);
      }
      Negotiate(abi, ack, empty);
      if e.restart {
        NegotiatedFromStart(trace + [e], moreAck, count, abiAt, ackAt);
      }
      Watch(ci);
      trace := trace + [e];
    }

    /** The watchdog counter, and its flag: the tick's clearing overrides a report in the same cycle. */
    method Watch(ci: bool)
      modifies this`tick, this`counter, this`ok, this`since
      ensures tick == (old(counter) == 0) && counter == if old(counter) == 0 then max else old(counter) - 1
      ensures ok == (!old(tick) && (ci || old(ok)))
      ensures since == if old(tick) then |trace| + 1 else old(since)
    {
      since := if tick then |trace| + 1 else since;
      if ci {
        ok := true;
      }
      if tick {
        ok := false;
      }
      tick := false;
      if counter == 0 {
        tick, counter := true, max;
      } else {
        counter := counter - 1;
      }
    }

    /** The state machine and the acknowledge timer; a later assignment of the next state overrides an earlier one. */
    method Negotiate(abi: bool, ack: bool, empty: bool)
      modifies this`state, this`inited, this`count, this`abiAt, this`ackAt
      ensures state == if old(Restart(empty)) then WaitAbi
        else NextState(old(state), abi, ack, old(count) == 0)
      ensures count == if old(state) != MoreAck then moreAck else if old(count) > 0 then old(count) - 1 else 0
      ensures abiAt == if old(state) == WaitAbi then |trace| else old(abiAt)
      ensures ackAt == if old(state) == WaitAck then |trace| else old(ackAt)
      ensures inited == (old(inited) || (old(state) == WaitAbi && abi))
    {
      var next, done, wait := state, count == 0, false;
      match state {
        case WaitAbi =>
          abiAt := |trace|;
          if abi {
            inited := true;
            next := WaitAck;
          }
          if Expired() {
            next := WaitAbi;
          }
        case WaitAck =>
          ackAt := |trace|;
          if ack {
            next := MoreAck;
          }
          if Expired() {
            next := WaitAbi;
          }
        case MoreAck =>
          wait := true;
          if done {
            next := Running;
          }
          if Expired() {
            next := WaitAbi;
          }
        case Running =>
          if Expired() || empty {
            next := WaitAbi;
          }
      }
      count := if !wait then moreAck else if done then 0 else count - 1;
      state := next;
    }
  }

  lemma NegotiatedFromStart(trace: seq<Cycle>, moreAck: nat, count: nat, abiAt: nat, ackAt: nat)
    ensures NegotiatedAt(trace, moreAck, WaitAbi, count, abiAt, ackAt)
  {}

  /** The link is up only after an ability pulse, then an acknowledge pulse, then a
      full acknowledge period, in this order and with no restart in between. */
  lemma LinkUpNegotiated(l: LinkControl)
    requires l.Valid() && l.LinkUp()
    ensures exists abi, ack ::
      && 0 <= abi < ack && ack + l.moreAck + 1 < |l.trace|
      && l.trace[abi].abi && l.trace[ack].ack
      && (forall c | ack < c <= ack + l.moreAck + 1 :: l.trace[c].state == MoreAck)
      && (forall c | abi <= c < |l.trace| :: !l.trace[c].restart)
  {
    hide Watched, WatchdogAt;
    assert l.trace[l.abiAt].abi && l.trace[l.ackAt].ack;
  }

  /** And it does come up: ordered sets in every cycle, an ability pulse, in the next cycle
      an acknowledge pulse, and as many cycles as the timer counts, not one less. */
  method BringUp(max: nat, moreAck: nat) returns (l: LinkControl)
    requires max > 0
    ensures l.Valid() && l.LinkUp() && |l.trace| == moreAck + 3
    ensures forall c | 0 <= c < |l.trace| :: l.trace[c].state != Running && !l.trace[c].restart
  {
    l := new LinkControl(max, moreAck);
    for n := 0 to moreAck + 3
      invariant l.Valid() && |l.trace| == n && l.max == max && l.moreAck == moreAck
      invariant l.state == if n == 0 then WaitAbi else if n == 1 then WaitAck else if n < moreAck + 3 then MoreAck
        else Running
      invariant n < moreAck + 3 ==> l.count == if n < 2 then moreAck else moreAck + 2 - n
      invariant forall c | 0 <= c < n :: l.trace[c].ci && l.trace[c].state != Running && !l.trace[c].restart
    {
      Unexpired(l);
      l.Tick(true, n == 0, n == 1, false);
    }
  }

  /** With a report in every cycle the watchdog does not expire. */
  lemma Unexpired(l: LinkControl)
    requires l.Valid() && l.state != Running && forall c | 0 <= c < |l.trace| :: l.trace[c].ci
    ensures !l.Restart(false)
  {
    hide Watched, NegotiatedAt;
    if l.trace != [] {
      assert l.trace[|l.trace| - 1].ci;
    }
  }

  /** In every run a tick comes in every period of `max + 1` cycles, the first in cycle 1; the
      link is restarted by a tick with no report since the tick before, or by an empty
      register while it is up, and by nothing else. */
  lemma RestartsExplained(l: LinkControl)
    requires l.Valid()
    ensures forall c | 0 <= c < |l.trace| :: l.trace[c].tick <==> c > 0 && (c - 1) % (l.max + 1) == 0
    ensures forall c | 0 <= c < |l.trace| ::
      l.trace[c].restart <==>
        || (l.trace[c].tick && forall b | 0 <= b < c && c - l.max <= b :: !l.trace[b].ci)
        || (l.trace[c].state == Running && l.trace[c].empty)
  {
    hide WatchdogAt, NegotiatedAt;
    forall c | 0 <= c < |l.trace| && l.trace[c].tick
      ensures Reported(l.trace, c - l.max, c) <==> exists b :: 0 <= b < c && c - l.max <= b && l.trace[b].ci
    {
      if Reported(l.trace, c - l.max, c) {
        var b :| 0 <= b < |l.trace| && c - l.max <= b < c && l.trace[b].ci;
        assert 0 <= b < c && c - l.max <= b && l.trace[b].ci;
      }
    }
  }

  /** From any reachable state: two watchdog periods without a report contain a restart. */
  lemma SilenceRestarts(l: LinkControl, lo: nat)
    requires l.Valid() && lo + 2 * (l.max + 1) <= |l.trace|
    requires forall c | lo <= c < lo + 2 * (l.max + 1) :: !l.trace[c].ci
    ensures exists c :: lo <= c < lo + 2 * (l.max + 1) && l.trace[c].restart
  {
    hide Watched, WatchdogAt, NegotiatedAt;
    WatchdogFires(l.trace, l.max, lo);
  }

  // ----- Consistency of received configuration registers

  /** One receive clock: whether a configuration register was completed, its
      value, and the two pulses raised by the clock before. */
  datatype Receipt = Receipt(seen: bool, reg: bv16, abi: bool, ack: bool)

  /** The registers agree when the acknowledge bit is left out of account. */
  predicate Agree(a: bv16, b: bv16) {
    a | 0x4000 == b | 0x4000
  }

  predicate BothAcknowledge(a: bv16, b: bv16) {
    a & b & 0x4000 != 0
  }

  /** Only the SGMII bit may be set in an empty register. */
  predicate Empty(reg: bv16) {
    reg | 1 == 1
  }

  /** In cycle `c` the second of two agreeing, non-empty registers exactly four cycles apart is completed. */
  predicate Matches(rx: seq<Receipt>, c: nat)
    requires c < |rx|
  {
    && c >= 4 && rx[c].seen && rx[c - 4].seen && !rx[c - 3].seen && !rx[c - 2].seen && !rx[c - 1].seen
    && Agree(rx[c - 4].reg, rx[c].reg) && !Empty(rx[c].reg)
  }

  /** The first register of the last match before `c`, or zero. */
  function Candidate(rx: seq<Receipt>, c: nat): bv16
    requires c <= |rx|
  {
    if c == 0 then 0 else if Matches(rx, c - 1) then rx[c - 5].reg else Candidate(rx, c - 1)
  }

  /** A match in which both registers acknowledge, and which repeats the last match. */
  predicate Acknowledges(rx: seq<Receipt>, c: nat)
    requires c < |rx|
  {
    Matches(rx, c) && BothAcknowledge(rx[c - 4].reg, rx[c].reg) && Agree(Candidate(rx, c), rx[c].reg)
  }

  /** The pulses are raised by matches and by nothing else. */
  ghost predicate PulsesExplained(rx: seq<Receipt>) {
    forall c | 0 <= c < |rx| ::
      && (rx[c].abi <==> c > 0 && Matches(rx, c - 1))
      && (rx[c].ack <==> c > 0 && Acknowledges(rx, c - 1))
  }

  /** The cycles since the last register, as far as the counter can tell. */
  ghost predicate CounterAt(rx: seq<Receipt>, counter: nat, previous: bv16) {
    var now := |rx|;
    && counter <= 4
    && (counter > 0 ==>
      var last := now - 1 - (4 - counter);
      last >= 0 && rx[last].seen && rx[last].reg == previous && forall c | last < c < now :: !rx[c].seen)
    && (counter == 0 ==> forall c | 0 <= c < now && now - 4 <= c :: !rx[c].seen)
  }

  lemma {:induction false} CandidateSnoc(rx: seq<Receipt>, r: Receipt, c: nat)
    requires c <= |rx|
    ensures Candidate(rx + [r], c) == Candidate(rx, c)
  {
    if c > 0 {
      CandidateSnoc(rx, r, c - 1);
    }
  }

  lemma PulsesSnoc(rx: seq<Receipt>, r: Receipt)
    requires PulsesExplained(rx)
    requires r.abi <==> rx != [] && Matches(rx, |rx| - 1)
    requires r.ack <==> rx != [] && Acknowledges(rx, |rx| - 1)
    ensures PulsesExplained(rx + [r])
  {
    forall c | 0 <= c < |rx| ensures Acknowledges(rx + [r], c) == Acknowledges(rx, c) {
      CandidateSnoc(rx, r, c);
    }
  }

  lemma CounterSnoc(rx: seq<Receipt>, r: Receipt, counter: nat, previous: bv16)
    requires CounterAt(rx, counter, previous)
    ensures CounterAt(rx + [r], if r.seen then 4 else if counter > 0 then counter - 1 else 0,
      if r.seen then r.reg else previous)
    ensures Matches(rx + [r], |rx|) <==> r.seen && counter == 1 && Agree(previous, r.reg) && !Empty(r.reg)
  {
    var t, now := rx + [r], |rx|;
    assert forall c | 0 <= c < now :: t[c] == rx[c];
    if now >= 4 {
      assert t[now - 4] == rx[now - 4] && t[now - 3] == rx[now - 3] && t[now - 2] == rx[now - 2]
        && t[now - 1] == rx[now - 1];
    }
  }

  class ConfigMatcher {
    var counter: nat
    var previous: bv16
    var candidate: bv16
    var ability: bv16      // advertised by the link partner
    var abi: bool
    var ack: bool
    ghost var rx: seq<Receipt>

    ghost predicate Valid()
      reads this
    {
      && PulsesExplained(rx)
      && CounterAt(rx, counter, previous)
      && candidate == Candidate(rx, |rx|)
      && (abi <==> rx != [] && Matches(rx, |rx| - 1))
      && (ack <==> rx != [] && Acknowledges(rx, |rx| - 1))
    }

    constructor ()
      ensures Valid() && rx == []
    {
      counter, previous, candidate, ability, abi, ack, rx := 0, 0, 0, 0, false, false, [];
    }

    method Tick(seen: bool, reg: bv16)
      requires Valid()
      modifies this
      ensures Valid()
      ensures rx == old(rx) + [Receipt(seen, reg, old(abi), old(ack))]
      ensures ability == if seen then reg else old(ability)
    {
      hide PulsesExplained, CounterAt, Matches, Candidate, Acknowledges, Agree, Empty, BothAcknowledge;
      ghost var r := Receipt(seen, reg, abi, ack);
      PulsesSnoc(rx, r);
      CounterSnoc(rx, r, counter, previous);
      CandidateNext(rx, r, previous, counter);
      var match1 := counter == 1 && Agree(previous, reg) && !Empty(reg);
      abi, ack := false, false;
      if seen {
        if match1 {
          abi := true;
          if BothAcknowledge(previous, reg) && Agree(candidate, reg) {
            ack := true;
          }
          candidate := previous;
        }
        counter, previous, ability := 4, reg, reg;
      } else if counter != 0 {
        counter := counter - 1;
      }
      rx := rx + [r];
    }
  }

  lemma CandidateNext(rx: seq<Receipt>, r: Receipt, previous: bv16, counter: nat)
    requires CounterAt(rx, counter, previous)
    ensures Candidate(rx + [r], |rx| + 1) == if Matches(rx + [r], |rx|) then previous else Candidate(rx, |rx|)
    ensures Acknowledges(rx + [r], |rx|) <==>
      Matches(rx + [r], |rx|) && BothAcknowledge(previous, r.reg) && Agree(Candidate(rx, |rx|), r.reg)
  {
    hide Agree, Empty, BothAcknowledge;
    CandidateSnoc(rx, r, |rx|);
    if Matches(rx + [r], |rx|) {
      assert (rx + [r])[|rx| - 4] == rx[|rx| - 4];
      assert counter == 1 && rx[|rx| - 4].reg == previous by {
        CounterSnoc(rx, r, counter, previous);
      }
    }
  }

  /** What the registers have to be, bit by bit. */
  lemma AgreeBits(a: bv16, b: bv16)
    ensures Agree(a, b) <==> (a ^ b) & 0xBFFF == 0
  {}

  lemma EmptyBits(a: bv16)
    ensures Empty(a) <==> a == 0 || a == 1
  {}

  lemma AcknowledgeBits(a: bv16, b: bv16)
    ensures BothAcknowledge(a, b) <==> a & 0x4000 != 0 && b & 0x4000 != 0
  {}

  /** `gap` clocks without a register, then one with. */
  method Receive(m: ConfigMatcher, reg: bv16, gap: nat)
    requires m.Valid()
    modifies m
    ensures m.Valid() && |m.rx| == |old(m.rx)| + gap + 1 && old(m.rx) <= m.rx
    ensures var n := |old(m.rx)| + gap;
      && (forall c | |old(m.rx)| <= c < n :: !m.rx[c].seen)
      && m.rx[n].seen && m.rx[n].reg == reg
  {
    hide ConfigMatcher.Valid;
    for i := 0 to gap
      invariant m.Valid() && |m.rx| == |old(m.rx)| + i && old(m.rx) <= m.rx
      invariant forall c | |old(m.rx)| <= c < |m.rx| :: !m.rx[c].seen
    {
      m.Tick(false, 0);
    }
    m.Tick(true, reg);
  }

  /** In any state: a register, and after `gap` clocks without one a second. The ability
      pulse is raised exactly when the gap is three, the second is neither 0 nor 1, and
      both are equal in all bits but bit 14. */
  method TwoRegisters(m: ConfigMatcher, a: bv16, b: bv16, gap: nat)
    requires m.Valid()
    modifies m
    ensures m.Valid() && (m.abi <==> gap == 3 && b != 0 && b != 1 && (a ^ b) & 0xBFFF == 0)
  {
    hide PulsesExplained, CounterAt, Candidate, Agree, Empty, BothAcknowledge, Acknowledges;
    Receive(m, a, 0);
    ghost var n := |m.rx|;
    Receive(m, b, gap);
    AgreeBits(a, b);
    EmptyBits(b);
    assert m.rx[n - 1].seen && m.rx[n - 1].reg == a;
  }

  /** Three registers, each four clocks after the one before, to a matcher just reset. The third
      raises the acknowledge pulse exactly when bit 14 is set in the last two, these are otherwise
      equal, and so is the first, unless the third has no other bit set. */
  method ThreeRegisters(a: bv16, b: bv16, c: bv16) returns (ack: bool)
    ensures ack <==>
      && b & 0x4000 != 0 && c & 0x4000 != 0 && (b ^ c) & 0xBFFF == 0
      && ((a ^ b) & 0xBFFF == 0 || c & 0xBFFF == 0)
  {
    hide PulsesExplained, CounterAt, Agree, Empty, BothAcknowledge;
    var m := new ConfigMatcher();
    Receive(m, a, 0);
    Receive(m, b, 3);
    Receive(m, c, 3);
    ack := m.ack;
    ThirdRegister(m.rx, a, b, c);
    RegisterPulse(a, b, c);
  }

  lemma ThirdRegister(rx: seq<Receipt>, a: bv16, b: bv16, c: bv16)
    requires |rx| == 9 && rx[0].seen && rx[4].seen && rx[8].seen
    requires rx[0].reg == a && rx[4].reg == b && rx[8].reg == c
    requires forall i | 0 <= i < 9 && i % 4 != 0 :: !rx[i].seen
    ensures Acknowledges(rx, 8) <==>
      Agree(b, c) && !Empty(c) && BothAcknowledge(b, c) && Agree(if Agree(a, b) && !Empty(b) then a else 0, c)
  {
    hide Agree, Empty, BothAcknowledge;
    assert !rx[1].seen && !rx[2].seen && !rx[3].seen && !rx[5].seen && !rx[6].seen && !rx[7].seen;
    CandidateBefore(rx, 4);
    assert Candidate(rx, 5) == if Matches(rx, 4) then a else 0;
    assert Candidate(rx, 6) == Candidate(rx, 5);
    assert Candidate(rx, 7) == Candidate(rx, 6);
    assert Candidate(rx, 8) == Candidate(rx, 7);
  }

  /** There is no match among the first four. */
  lemma {:induction false} CandidateBefore(rx: seq<Receipt>, c: nat)
    requires c <= 4 && c <= |rx|
    ensures Candidate(rx, c) == 0
  {
    if c > 0 {
      CandidateBefore(rx, c - 1);
    }
  }

  lemma RegisterPulse(a: bv16, b: bv16, c: bv16)
    ensures Agree(b, c) && !Empty(c) && BothAcknowledge(b, c) && Agree(if Agree(a, b) && !Empty(b) then a else 0, c)
      <==> && b & 0x4000 != 0 && c & 0x4000 != 0 && (b ^ c) & 0xBFFF == 0
           && ((a ^ b) & 0xBFFF == 0 || c & 0xBFFF == 0)
  {
    hide Agree, Empty, BothAcknowledge;
    AgreeBits(a, b);
    AgreeBits(b, c);
    AgreeBits(a, c);
    AgreeBits(0, c);
    AcknowledgeBits(b, c);
    EmptyBits(b);
    EmptyBits(c);
    if (a ^ b) & 0xBFFF == 0 && (b ^ c) & 0xBFFF == 0 {
      SameBits(a, b, c);
    }
    if b & 0x4000 != 0 {
      NotEmptyBits(b);
    }
    if c & 0x4000 != 0 {
      NotEmptyBits(c);
    }
    ZeroBits(c);
  }

  lemma SameBits(a: bv16, b: bv16, c: bv16)
    requires (a ^ b) & 0xBFFF == 0 && (b ^ c) & 0xBFFF == 0
    ensures (a ^ c) & 0xBFFF == 0
  {}

  lemma NotEmptyBits(a: bv16)
    requires a & 0x4000 != 0
    ensures a != 0 && a != 1
  {}

  lemma ZeroBits(a: bv16)
    ensures 0 ^ a == a
  {}

  // ----- The two clock domains together

  /** The pulses under way stem from matches. */
  ghost predicate Crossing(rx: seq<Receipt>, abis: seq<nat>, acks: seq<nat>) {
    && (forall j | j in abis :: j < |rx| && Matches(rx, j))
    && (forall j | j in acks :: j < |rx| && Acknowledges(rx, j))
  }

  /** Every pulse the state machine has seen stems from a match: cycle `c` from `abiFrom[c]`, or from `ackFrom[c]`. */
  ghost predicate Traced(trace: seq<Cycle>, rx: seq<Receipt>, abiFrom: seq<nat>, ackFrom: seq<nat>) {
    && |abiFrom| == |ackFrom| == |trace|
    && (forall c | 0 <= c < |trace| && trace[c].abi :: abiFrom[c] < |rx| && Matches(rx, abiFrom[c]))
    && (forall c | 0 <= c < |trace| && trace[c].ack :: ackFrom[c] < |rx| && Acknowledges(rx, ackFrom[c]))
  }

  /** Later receive clocks change no match. */
  lemma MatchesSnoc(rx: seq<Receipt>, r: Receipt, c: nat)
    requires c < |rx|
    ensures Matches(rx + [r], c) == Matches(rx, c) && Acknowledges(rx + [r], c) == Acknowledges(rx, c)
  {
    CandidateSnoc(rx, r, c);
  }

  lemma CrossingSnoc(rx: seq<Receipt>, r: Receipt, abis: seq<nat>, acks: seq<nat>)
    requires Crossing(rx, abis, acks)
    ensures Crossing(rx + [r], abis, acks)
  {
    hide Matches, Acknowledges;
    forall j | j in abis || j in acks
      ensures j < |rx| && Matches(rx + [r], j) == Matches(rx, j) && Acknowledges(rx + [r], j) == Acknowledges(rx, j)
    {
      MatchesSnoc(rx, r, j);
    }
  }

  lemma CrossingRest(rx: seq<Receipt>, abis: seq<nat>, acks: seq<nat>)
    requires Crossing(rx, abis, acks)
    ensures abis != [] ==> abis[0] < |rx| && Matches(rx, abis[0]) && Crossing(rx, abis[1..], acks)
    ensures acks != [] ==> acks[0] < |rx| && Acknowledges(rx, acks[0]) && Crossing(rx, abis, acks[1..])
    ensures abis != [] && acks != [] ==> Crossing(rx, abis[1..], acks[1..])
  {
    hide Matches, Acknowledges;
    assert abis != [] ==> abis[0] in abis;
    assert acks != [] ==> acks[0] in acks;
  }

  lemma TracedSnoc(trace: seq<Cycle>, rx: seq<Receipt>, r: Receipt, abiFrom: seq<nat>, ackFrom: seq<nat>)
    requires Traced(trace, rx, abiFrom, ackFrom)
    ensures Traced(trace, rx + [r], abiFrom, ackFrom)
  {
    hide Matches, Acknowledges;
    forall c | 0 <= c < |trace|
      ensures trace[c].abi ==> Matches(rx + [r], abiFrom[c])
      ensures trace[c].ack ==> Acknowledges(rx + [r], ackFrom[c])
    {
      if trace[c].abi {
        MatchesSnoc(rx, r, abiFrom[c]);
      }
      if trace[c].ack {
        MatchesSnoc(rx, r, ackFrom[c]);
      }
    }
  }

  lemma PulseTaken(trace: seq<Cycle>, e: Cycle, rx: seq<Receipt>, abiFrom: seq<nat>, ackFrom: seq<nat>, abi: nat,
                   ack: nat)
    requires Traced(trace, rx, abiFrom, ackFrom)
    requires e.abi ==> abi < |rx| && Matches(rx, abi)
    requires e.ack ==> ack < |rx| && Acknowledges(rx, ack)
    ensures Traced(trace + [e], rx, abiFrom + [abi], ackFrom + [ack])
  {
    hide Matches, Acknowledges;
  }

  /** Matcher and state machine, with pulses that cross after any delay, in order, and may get lost. */
  class Negotiator {
    const matcher: ConfigMatcher
    const control: LinkControl
    var clock: nat               // receive clocks so far
    var abis: seq<nat>           // ability pulses under way, by the receive clock that raised them
    var acks: seq<nat>
    ghost var abiFrom: seq<nat>
    ghost var ackFrom: seq<nat>

    ghost predicate Valid()
      reads this, matcher, control
    {
      && matcher.Valid() && control.Valid() && clock == |matcher.rx|
      && Crossing(matcher.rx, abis, acks)
      && Traced(control.trace, matcher.rx, abiFrom, ackFrom)
    }

    constructor (max: nat, moreAck: nat)
      requires max > 0
      ensures Valid() && control.trace == [] && matcher.rx == []
    {
      matcher := new ConfigMatcher();
      control := new LinkControl(max, moreAck);
      clock, abis, acks, abiFrom, ackFrom := 0, [], [], [], [];
    }

    /** One receive clock; a pulse raised by it may get lost on its way. */
    method TickReceive(seen: bool, reg: bv16, lost: bool)
      requires Valid()
      modifies this, matcher
      ensures Valid() && control.trace == old(control.trace)
      ensures matcher.rx == old(matcher.rx) + [Receipt(seen, reg, old(matcher.abi), old(matcher.ack))]
      ensures abis == old(abis) + if matcher.abi && !lost then [old(clock)] else []
      ensures acks == old(acks) + if matcher.ack && !lost then [old(clock)] else []
    {
      hide Crossing, Traced, Matches, Acknowledges, LinkControl.Valid;
      ghost var r := Receipt(seen, reg, matcher.abi, matcher.ack);
      CrossingSnoc(matcher.rx, r, abis, acks);
      TracedSnoc(control.trace, matcher.rx, r, abiFrom, ackFrom);
      matcher.Tick(seen, reg);
      PulsesRaised(matcher, abis, acks);
      if matcher.abi && !lost {
        abis := abis + [clock];
      }
      if matcher.ack && !lost {
        acks := acks + [clock];
      }
      clock := clock + 1;
    }

    /** One transmit clock; pulses under way arrive when the environment lets them. */
    method TickTransmit(ci: bool, takeAbi: bool, takeAck: bool)
      requires Valid()
      modifies this, control
      ensures Valid() && matcher.rx == old(matcher.rx)
      ensures control.trace == old(control.trace) +
        [old(control.This(ci, takeAbi && abis != [], takeAck && acks != [], Empty(matcher.ability)))]
      ensures abis == if takeAbi && old(abis) != [] then old(abis)[1..] else old(abis)
      ensures acks == if takeAck && old(acks) != [] then old(acks)[1..] else old(acks)
    {
      hide Crossing, Traced, Matches, Acknowledges, ConfigMatcher.Valid, LinkControl.Valid;
      CrossingRest(matcher.rx, abis, acks);
      var abi, ack := takeAbi && abis != [], takeAck && acks != [];
      ghost var from, ackedBy := if abi then abis[0] else 0, if ack then acks[0] else 0;
      ghost var e := control.This(ci, abi, ack, Empty(matcher.ability));
      PulseTaken(control.trace, e, matcher.rx, abiFrom, ackFrom, from, ackedBy);
      control.Tick(ci, abi, ack, Empty(matcher.ability));
      abiFrom, ackFrom := abiFrom + [from], ackFrom + [ackedBy];
      if abi {
        abis := abis[1..];
      }
      if ack {
        acks := acks[1..];
      }
    }
  }

  /** The pulses raised by the last receive clock stem from a match in it. */
  lemma PulsesRaised(m: ConfigMatcher, abis: seq<nat>, acks: seq<nat>)
    requires m.Valid() && m.rx != [] && Crossing(m.rx, abis, acks)
    ensures m.abi ==> Crossing(m.rx, abis + [|m.rx| - 1], acks)
    ensures m.ack ==> Crossing(m.rx, abis, acks + [|m.rx| - 1])
    ensures m.abi && m.ack ==> Crossing(m.rx, abis + [|m.rx| - 1], acks + [|m.rx| - 1])
  {
    hide Matches, Acknowledges;
  }

  /** The link is up only after the receiver has completed two agreeing, non-empty
      registers exactly four cycles apart, and two such registers that both
      acknowledge and repeat what was seen before; their pulses reached the state
      machine in this order, with no restart since. */
  lemma LinkUpTraced(n: Negotiator)
    requires n.Valid() && n.control.LinkUp()
    ensures exists a, k ::
      && 0 <= a < k && k + n.control.moreAck + 1 < |n.control.trace|
      && n.control.trace[a].abi && n.control.trace[k].ack
      && n.abiFrom[a] < |n.matcher.rx| && Matches(n.matcher.rx, n.abiFrom[a])
      && n.ackFrom[k] < |n.matcher.rx| && Acknowledges(n.matcher.rx, n.ackFrom[k])
      && forall c | a <= c < |n.control.trace| :: !n.control.trace[c].restart
  {
    hide Watched, WatchdogAt, Matches, Acknowledges, ConfigMatcher.Valid;
    LinkUpNegotiated(n.control);
    var a, k :|
      && 0 <= a < k && k + n.control.moreAck + 1 < |n.control.trace|
      && n.control.trace[a].abi && n.control.trace[k].ack
      && (forall c | k < c <= k + n.control.moreAck + 1 :: n.control.trace[c].state == MoreAck)
      && (forall c | a <= c < |n.control.trace| :: !n.control.trace[c].restart);
    assert Matches(n.matcher.rx, n.abiFrom[a]) && Acknowledges(n.matcher.rx, n.ackFrom[k]);
  }
}
