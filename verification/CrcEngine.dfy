/** The symbolic compiler that unrolls the serial register into one list of
    XOR operands per next-state bit. */
module CrcEngine {
  import opened Bits
  import opened Lfsr

  datatype Term = State(n: nat) | Din(n: nat)

  function TermValue(t: Term, s: seq<bool>, d: seq<bool>): bool {
    match t
    case State(n) => n < |s| && s[n]
    case Din(n) => n < |d| && d[n]
  }

  /** The exclusive or of all operands of a list. */
  function Value(l: seq<Term>, s: seq<bool>, d: seq<bool>): bool {
    if l == [] then false else TermValue(l[0], s, d) != Value(l[1..], s, d)
  }

  ghost predicate Distinct<T>(l: seq<T>) {
    forall i, j | 0 <= i < j < |l| :: l[i] != l[j]
  }

  ghost predicate InRange(l: seq<Term>, width: nat, dataWidth: nat) {
    forall t | t in l :: match t case State(n) => n < width case Din(n) => n < dataWidth
  }

  lemma {:induction false} ValueConcat(a: seq<Term>, b: seq<Term>, s: seq<bool>, d: seq<bool>)
    ensures Value(a + b, s, d) == (Value(a, s, d) != Value(b, s, d))
  {
    if a == [] {
      assert a + b == b;
    } else {
      assert (a + b)[1..] == a[1..] + b;
      ValueConcat(a[1..], b, s, d);
    }
  }

  lemma ValueWithout(l: seq<Term>, k: nat, s: seq<bool>, d: seq<bool>)
    requires k < |l|
    ensures Value(l, s, d) == (TermValue(l[k], s, d) != Value(l[..k] + l[k + 1..], s, d))
  {
    assert l == l[..k] + ([l[k]] + l[k + 1..]);
    ValueConcat(l[..k], [l[k]] + l[k + 1..], s, d);
    ValueConcat(l[..k], l[k + 1..], s, d);
  }

  /** `r` keeps one copy of each operand that `l` holds an odd number of times. */
  ghost predicate KeepsOdd(r: seq<Term>, l: seq<Term>) {
    Distinct(r) && forall t :: t in r <==> multiset(l)[t] % 2 == 1
  }

  /** Removing an operand from the front of `l` removes it from `r`, when it is there. */
  lemma KeepsOddTail(r: seq<Term>, l: seq<Term>, k: nat)
    requires KeepsOdd(r, l) && l != [] && k < |r| && r[k] == l[0]
    ensures KeepsOdd(r[..k] + r[k + 1..], l[1..])
  {
    var r' := r[..k] + r[k + 1..];
    assert l == [l[0]] + l[1..];
    forall u ensures u in r' <==> u in r && u != l[0] {
      if u in r && u != l[0] {
        var j :| 0 <= j < |r| && r[j] == u;
        assert u == if j < k then r'[j] else r'[j - 1];
      }
    }
  }

  /** Cancelling pairs of equal operands keeps the value. */
  lemma {:induction false} CancellingKeepsValue(r: seq<Term>, l: seq<Term>, s: seq<bool>, d: seq<bool>)
    requires KeepsOdd(r, l)
    ensures Value(r, s, d) == Value(l, s, d)
    decreases |l|
  {
    assert r == [] || r[0] in r;
    if l == [] {
      assert r == [];
    } else if l[0] in r {
      var k :| 0 <= k < |r| && r[k] == l[0];
      KeepsOddTail(r, l, k);
      CancellingKeepsValue(r[..k] + r[k + 1..], l[1..], s, d);
      ValueWithout(r, k, s, d);
    } else {
      assert l == [l[0]] + l[1..];
      CancellingKeepsValue(r + [l[0]], l[1..], s, d);
      ValueConcat(r, [l[0]], s, d);
    }
  }

  /** Counts the operands in an insertion-ordered dictionary, then keeps those counted an odd number of times. */
  method OptimizeEq(l: seq<Term>) returns (r: seq<Term>)
    ensures KeepsOdd(r, l)
  {
    var keys: seq<Term>, count: map<Term, nat> := [], map[];
    for i := 0 to |l|
      invariant Distinct(keys)
      invariant forall t :: t in keys <==> t in count
      invariant forall t :: (if t in count then count[t] else 0) == multiset(l[..i])[t]
    {
      var e := l[i];
      assert l[..i + 1] == l[..i] + [e];
      if e in count {
        count := count[e := count[e] + 1];
      } else {
        keys := keys + [e];
        count := count[e := 1];
      }
    }
    assert l[..|l|] == l;
    r := [];
    for j := 0 to |keys|
      invariant Distinct(r)
      invariant forall t :: t in r <==> t in keys[..j] && count[t] % 2 == 1
    {
      assert keys[..j + 1] == keys[..j] + [keys[j]];
      if count[keys[j]] % 2 != 0 {
        r := r + [keys[j]];
      }
    }
    assert keys[..|keys|] == keys;
  }

  /** The lists evaluate to the register after `n` serial steps, for one register value and data word. */
  ghost predicate Computes(lists: seq<seq<Term>>, n: nat, s: seq<bool>, d: seq<bool>, taps: seq<bool>)
    requires |s| == |taps| == |lists| > 0 && n <= |d|
  {
    forall i | 0 <= i < |lists| :: Value(lists[i], s, d) == Steps(s, d[..n], taps)[i]
  }

  lemma {:induction false} StepsSnoc(s: seq<bool>, d: seq<bool>, i: nat, taps: seq<bool>)
    requires |s| == |taps| > 0 && i < |d|
    ensures Steps(s, d[..i + 1], taps) == Step(Steps(s, d[..i], taps), d[i], taps)
  {
    assert d[..i + 1] == d[..i] + [d[i]];
    StepsAppend(s, d[..i], [d[i]], taps);
  }

  lemma InRangeOdd(r: seq<Term>, l: seq<Term>, width: nat, dataWidth: nat)
    requires KeepsOdd(r, l) && InRange(l, width, dataWidth)
    ensures InRange(r, width, dataWidth)
  {
    forall t | t in r ensures t in l {
      assert multiset(l)[t] % 2 == 1;
    }
  }

  /** The lists for the first `n` input bits, as a statement over every register value and data word. */
  ghost predicate Unrolls(lists: seq<seq<Term>>, n: nat, dataWidth: nat, taps: seq<bool>)
    requires n <= dataWidth && |taps| > 0
  {
    && |lists| == |taps|
    && (forall i | 0 <= i < |lists| :: InRange(lists[i], |taps|, dataWidth))
    && forall s, d | |s| == |taps| && |d| == dataWidth :: Computes(lists, n, s, d, taps)
  }

  /** The statement for one register value and data word. */
  lemma UnrollsAt(lists: seq<seq<Term>>, n: nat, dataWidth: nat, taps: seq<bool>, s: seq<bool>, d: seq<bool>)
    requires n <= dataWidth && |taps| > 0 && Unrolls(lists, n, dataWidth, taps)
    requires |s| == |taps| && |d| == dataWidth
    ensures forall i | 0 <= i < |lists| :: Value(lists[i], s, d) == Steps(s, d[..n], taps)[i]
  {
    assert Computes(lists, n, s, d, taps);
  }

  /** One round, for one register value and data word. */
  lemma RoundComputes(lists: seq<seq<Term>>, next: seq<seq<Term>>, n: nat, s: seq<bool>, d: seq<bool>,
                      before: seq<bool>, taps: seq<bool>, j: nat)
    requires n < |d| && j < |lists| == |next| == |before| == |taps|
    requires forall i | 0 <= i < |lists| :: Value(lists[i], s, d) == before[i]
    requires next[0] == lists[|lists| - 1] + [Din(n)]
    requires j > 0 ==> KeepsOdd(next[j], if taps[j] then lists[j - 1] + next[0] else lists[j - 1])
    ensures Value(next[j], s, d) == Step(before, d[n], taps)[j]
  {
    ValueConcat(lists[|lists| - 1], [Din(n)], s, d);
    assert Value([Din(n)], s, d) == d[n];
    if j > 0 {
      CancellingKeepsValue(next[j], if taps[j] then lists[j - 1] + next[0] else lists[j - 1], s, d);
      ValueConcat(lists[j - 1], next[0], s, d);
    }
  }

  /** One round of the unrolling: what the popped list and the rewritten lists must satisfy. */
  lemma RoundUnrolls(lists: seq<seq<Term>>, next: seq<seq<Term>>, n: nat, dataWidth: nat, taps: seq<bool>)
    requires n < dataWidth && |taps| > 0 && Unrolls(lists, n, dataWidth, taps)
    requires |next| == |lists| && next[0] == lists[|lists| - 1] + [Din(n)]
    requires forall j | 1 <= j < |lists| ::
      KeepsOdd(next[j], if taps[j] then lists[j - 1] + next[0] else lists[j - 1])
    ensures Unrolls(next, n + 1, dataWidth, taps)
  {
    forall i | 0 <= i < |next| ensures InRange(next[i], |taps|, dataWidth) {
      if i > 0 {
        InRangeOdd(next[i], if taps[i] then lists[i - 1] + next[0] else lists[i - 1], |taps|, dataWidth);
      }
    }
    forall s, d | |s| == |taps| && |d| == dataWidth ensures Computes(next, n + 1, s, d, taps) {
      StepsSnoc(s, d, n, taps);
      UnrollsAt(lists, n, dataWidth, taps, s, d);
      forall j | 0 <= j < |next| ensures Value(next[j], s, d) == Steps(s, d[..n + 1], taps)[j] {
        RoundComputes(lists, next, n, s, d, Steps(s, d[..n], taps), taps, j);
      }
    }
  }

  /** No list is empty, because every next-state bit is 1 for some register value. */
  lemma NoListEmpty(lists: seq<seq<Term>>, dataWidth: nat, taps: seq<bool>, i: nat)
    requires |taps| > 0 && Unrolls(lists, dataWidth, dataWidth, taps) && i < |lists|
    ensures lists[i] != []
  {
    var d := Const(dataWidth, false);
    var s := Unsteps(Const(|taps|, true), d, taps);
    StepsInverse(Const(|taps|, true), d, taps);
    assert d[..dataWidth] == d;
    UnrollsAt(lists, dataWidth, dataWidth, taps, s, d);
  }

  /** One round: the last list is popped and becomes the feedback, which is inserted in
      front and appended where the polynomial has a tap; every list is reduced. */
  method Round(lists: seq<seq<Term>>, i: nat, ghost dataWidth: nat, taps: seq<bool>) returns (curval: seq<seq<Term>>)
    requires |lists| == |taps| > 0 && i < dataWidth && Unrolls(lists, i, dataWidth, taps)
    ensures |curval| == |taps| && Unrolls(curval, i + 1, dataWidth, taps)
  {
    hide Unrolls, KeepsOdd;
    var width := |taps|;
    var feedback := lists[width - 1] + [Din(i)];
    curval := lists[..width - 1];
    for j := 0 to width - 1
      invariant |curval| == width - 1
      invariant forall k | j <= k < width - 1 :: curval[k] == lists[k]
      invariant forall k | 0 <= k < j ::
        KeepsOdd(curval[k], if taps[k + 1] then lists[k] + feedback else lists[k])
    {
      if taps[j + 1] {
        curval := curval[j := curval[j] + feedback];
      }
      var optimized := OptimizeEq(curval[j]);
      curval := curval[j := optimized];
    }
    curval := [feedback] + curval;
    RoundUnrolls(lists, curval, i, dataWidth, taps);
  }

  /** The parallel logic of an engine, built once and read every clock. */
  class Engine {
    const dataWidth: nat
    const taps: seq<bool>
    const lists: seq<seq<Term>>

    /** Every list is non-empty, reads only existing bits, and together they perform `dataWidth` serial steps. */
    ghost predicate Valid() {
      && |taps| > 0
      && Unrolls(lists, dataWidth, dataWidth, taps)
      && forall i | 0 <= i < |lists| :: lists[i] != []
    }

    constructor (dataWidth: nat, width: nat, polynom: nat)
      requires width > 0
      ensures Valid() && this.dataWidth == dataWidth && taps == ToBits(polynom, width)
    {
      var taps := ToBits(polynom, width);
      var curval := seq(width, i requires 0 <= i < width => [State(i)]);
      assert Unrolls(curval, 0, dataWidth, taps) by {
        forall s, d | |s| == width && |d| == dataWidth ensures Computes(curval, 0, s, d, taps) {
          assert d[..0] == [];
        }
      }
      for i := 0 to dataWidth
        invariant |curval| == |taps| == width
        invariant Unrolls(curval, i, dataWidth, taps)
      {
        curval := Round(curval, i, dataWidth, taps);
      }
      forall i | 0 <= i < |curval| ensures curval[i] != [] {
        NoListEmpty(curval, dataWidth, taps, i);
      }
      this.dataWidth, this.taps, this.lists := dataWidth, taps, curval;
    }

    /** The next register value: every list reduced. */
    method Next(last: seq<bool>, data: seq<bool>) returns (next: seq<bool>)
      requires Valid() && |last| == |taps| && |data| == dataWidth
      ensures next == Steps(last, data, taps)
    {
      next := [];
      UnrollsAt(lists, dataWidth, dataWidth, taps, last, data);
      assert data[..dataWidth] == data;
      for i := 0 to |lists|
        invariant |next| == i
        invariant forall k | 0 <= k < i :: next[k] == Value(lists[k], last, data)
      {
        var bit := Reduce(lists[i], last, data);
        next := next + [bit];
      }
    }

    /** XOR of the operands, starting from the first: defined on non-empty lists of existing bits only. */
    method Reduce(xors: seq<Term>, last: seq<bool>, data: seq<bool>) returns (bit: bool)
      requires |last| == |taps| && |data| == dataWidth
      requires xors != [] && InRange(xors, |taps|, dataWidth)
      ensures bit == Value(xors, last, data)
    {
      assert xors[0] in xors;
      bit := TermBit(xors[0], last, data);
      for k := 1 to |xors|
        invariant bit == Value(xors[..k], last, data)
      {
        assert xors[..k + 1] == xors[..k] + [xors[k]] && xors[k] in xors;
        ValueConcat(xors[..k], [xors[k]], last, data);
        var operand := TermBit(xors[k], last, data);
        bit := bit != operand;
      }
      assert xors[..|xors|] == xors;
    }

    /** One operand, read from the register or from the data word. */
    method TermBit(t: Term, last: seq<bool>, data: seq<bool>) returns (bit: bool)
      requires |last| == |taps| && |data| == dataWidth
      requires match t case State(n) => n < |taps| case Din(n) => n < dataWidth
      ensures bit == TermValue(t, last, data)
    {
      match t
      case State(n) => bit := last[n];
      case Din(n) => bit := data[n];
    }
  }
}
