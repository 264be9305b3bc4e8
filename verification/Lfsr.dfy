/** The bit-serial linear feedback shift register that a CRC is defined by.
    A tap vector holds the bits of the polynomial below its leading term. */
module Lfsr {
  import opened Bits

  /** One clock of the serial register: the bit leaving at the top, combined
      with the input bit, is fed back into bit 0 and into every tapped bit. */
  function Step(s: seq<bool>, d: bool, taps: seq<bool>): (r: seq<bool>)
    requires |s| == |taps| > 0
    ensures |r| == |s|
  {
    var feedback := s[|s| - 1] != d;
    seq(|s|, i requires 0 <= i < |s| => if i == 0 then feedback else s[i - 1] != (taps[i] && feedback))
  }

  function Steps(s: seq<bool>, bits: seq<bool>, taps: seq<bool>): (r: seq<bool>)
    requires |s| == |taps| > 0
    ensures |r| == |s|
    decreases |bits|
  {
    if bits == [] then s else Steps(Step(s, bits[0], taps), bits[1..], taps)
  }

  /** Polynomial long division, the textbook definition: shift left, and
      subtract the polynomial when the bit shifted out differs from the input. */
  function DivisionStep(s: seq<bool>, d: bool, taps: seq<bool>): (r: seq<bool>)
    requires |s| == |taps| > 0
    ensures |r| == |s|
  {
    var shifted := [false] + s[..|s| - 1];
    if s[|s| - 1] != d then Xor(shifted, taps) else shifted
  }

  function DivisionSteps(s: seq<bool>, bits: seq<bool>, taps: seq<bool>): (r: seq<bool>)
    requires |s| == |taps| > 0
    ensures |r| == |s|
    decreases |bits|
  {
    if bits == [] then s else DivisionSteps(DivisionStep(s, bits[0], taps), bits[1..], taps)
  }

  lemma StepIsDivision(s: seq<bool>, d: bool, taps: seq<bool>)
    requires |s| == |taps| > 0 && taps[0]
    ensures Step(s, d, taps) == DivisionStep(s, d, taps)
  {
    assert forall i | 0 <= i < |s| :: Step(s, d, taps)[i] == DivisionStep(s, d, taps)[i];
  }

  lemma {:induction false} StepsIsDivision(s: seq<bool>, bits: seq<bool>, taps: seq<bool>)
    requires |s| == |taps| > 0 && taps[0]
    ensures Steps(s, bits, taps) == DivisionSteps(s, bits, taps)
    decreases |bits|
  {
    if bits != [] {
      StepIsDivision(s, bits[0], taps);
      StepsIsDivision(Step(s, bits[0], taps), bits[1..], taps);
    }
  }

  lemma {:induction false} QuietRun(n: nat, taps: seq<bool>)
    requires |taps| > 0
    ensures Steps(Const(|taps|, false), Const(n, false), taps) == Const(|taps|, false)
    ensures DivisionSteps(Const(|taps|, false), Const(n, false), taps) == Const(|taps|, false)
    decreases n
  {
    if n > 0 {
      assert Step(Const(|taps|, false), false, taps) == Const(|taps|, false);
      assert DivisionStep(Const(|taps|, false), false, taps) == Const(|taps|, false);
      assert Const(n, false)[1..] == Const(n - 1, false);
      QuietRun(n - 1, taps);
    }
  }

  lemma {:induction false} StepsAppend(s: seq<bool>, a: seq<bool>, b: seq<bool>, taps: seq<bool>)
    requires |s| == |taps| > 0
    ensures Steps(s, a + b, taps) == Steps(Steps(s, a, taps), b, taps)
    decreases |a|
  {
    if a == [] {
      assert a + b == b;
    } else {
      assert (a + b)[1..] == a[1..] + b;
      StepsAppend(Step(s, a[0], taps), a[1..], b, taps);
    }
  }

  /** Undoes one clock, given the input bit it consumed. */
  function Unstep(r: seq<bool>, d: bool, taps: seq<bool>): (s: seq<bool>)
    requires |r| == |taps| > 0
    ensures |s| == |r|
  {
    seq(|r|, i requires 0 <= i < |r| =>
      if i == |r| - 1 then r[0] != d else r[i + 1] != (taps[i + 1] && r[0]))
  }

  function Unsteps(r: seq<bool>, bits: seq<bool>, taps: seq<bool>): (s: seq<bool>)
    requires |r| == |taps| > 0
    ensures |s| == |r|
    decreases |bits|
  {
    if bits == [] then r else Unstep(Unsteps(r, bits[1..], taps), bits[0], taps)
  }

  lemma StepInverse(s: seq<bool>, d: bool, taps: seq<bool>)
    requires |s| == |taps| > 0
    ensures Step(Unstep(s, d, taps), d, taps) == s
    ensures Unstep(Step(s, d, taps), d, taps) == s
  {
    assert forall i | 0 <= i < |s| :: Step(Unstep(s, d, taps), d, taps)[i] == s[i];
    assert forall i | 0 <= i < |s| :: Unstep(Step(s, d, taps), d, taps)[i] == s[i];
  }

  /** For a fixed input the register is a bijection on states. */
  lemma {:induction false} StepsInverse(s: seq<bool>, bits: seq<bool>, taps: seq<bool>)
    requires |s| == |taps| > 0
    ensures Steps(Unsteps(s, bits, taps), bits, taps) == s
    ensures Unsteps(Steps(s, bits, taps), bits, taps) == s
    decreases |bits|
  {
    if bits != [] {
      StepsInverse(s, bits[1..], taps);
      StepInverse(Unsteps(s, bits[1..], taps), bits[0], taps);
      StepsInverse(Step(s, bits[0], taps), bits[1..], taps);
      StepInverse(s, bits[0], taps);
    }
  }

  lemma StepLinear(s: seq<bool>, t: seq<bool>, d: bool, e: bool, taps: seq<bool>)
    requires |s| == |t| == |taps| > 0
    ensures Step(Xor(s, t), d != e, taps) == Xor(Step(s, d, taps), Step(t, e, taps))
  {
    assert forall i | 0 <= i < |s| ::
      Step(Xor(s, t), d != e, taps)[i] == Xor(Step(s, d, taps), Step(t, e, taps))[i];
  }

  /** The register is linear over GF(2) in state and input together. */
  lemma {:induction false} StepsLinear(s: seq<bool>, t: seq<bool>, a: seq<bool>, b: seq<bool>, taps: seq<bool>)
    requires |s| == |t| == |taps| > 0 && |a| == |b|
    ensures Steps(Xor(s, t), Xor(a, b), taps) == Xor(Steps(s, a, taps), Steps(t, b, taps))
    decreases |a|
  {
    if a != [] {
      StepLinear(s, t, a[0], b[0], taps);
      assert Xor(a, b)[1..] == Xor(a[1..], b[1..]);
      StepsLinear(Step(s, a[0], taps), Step(t, b[0], taps), a[1..], b[1..], taps);
    }
  }

  /** Two runs that meet after at most `width` clocks agreed on the low bits
      before, and fed back the same bit in their first clock. */
  lemma {:induction false} MeetingRunsAgree(s: seq<bool>, x: seq<bool>, t: seq<bool>, y: seq<bool>, taps: seq<bool>)
    requires |s| == |t| == |taps| > 0
    requires |x| == |y| <= |s|
    requires Steps(s, x, taps) == Steps(t, y, taps)
    ensures forall j | 0 <= j < |s| - |x| :: s[j] == t[j]
    ensures x != [] ==> (s[|s| - 1] != x[0]) == (t[|s| - 1] != y[0])
    decreases |x|
  {
    if x != [] {
      var s', t' := Step(s, x[0], taps), Step(t, y[0], taps);
      MeetingRunsAgree(s', x[1..], t', y[1..], taps);
      assert s'[0] == t'[0];
      forall j | 0 <= j < |s| - |x| ensures s[j] == t[j] {
        assert s'[j + 1] == t'[j + 1];
      }
    }
  }

  /** At most `width` input bits map injectively to the state. */
  lemma {:induction false} ShortInputsInjective(s: seq<bool>, x: seq<bool>, y: seq<bool>, taps: seq<bool>)
    requires |s| == |taps| > 0
    requires |x| == |y| <= |s|
    requires Steps(s, x, taps) == Steps(s, y, taps)
    ensures x == y
    decreases |x|
  {
    if x != [] {
      MeetingRunsAgree(s, x, s, y, taps);
      ShortInputsInjective(Step(s, x[0], taps), x[1..], y[1..], taps);
      assert x == [x[0]] + x[1..] && y == [y[0]] + y[1..];
    }
  }

  lemma {:induction false} DivisionStepsAppend(s: seq<bool>, a: seq<bool>, b: seq<bool>, taps: seq<bool>)
    requires |s| == |taps| > 0
    ensures DivisionSteps(s, a + b, taps) == DivisionSteps(DivisionSteps(s, a, taps), b, taps)
    decreases |a|
  {
    if a == [] {
      assert a + b == b;
    } else {
      assert (a + b)[1..] == a[1..] + b;
      DivisionStepsAppend(DivisionStep(s, a[0], taps), a[1..], b, taps);
    }
  }

  lemma SingleStep(s: seq<bool>, d: bool, taps: seq<bool>)
    requires |s| == |taps| > 0
    ensures Steps(s, [d], taps) == Step(s, d, taps) && DivisionSteps(s, [d], taps) == DivisionStep(s, d, taps)
  {
    hide Step, DivisionStep;
    assert [d][1..] == [];
  }

  lemma OneDiffers(zero: seq<bool>, taps: seq<bool>)
    requires |zero| == |taps| > 0 && !taps[0] && !zero[|zero| - 1]
    ensures Step(zero, true, taps) != DivisionStep(zero, true, taps)
  {
    assert Step(zero, true, taps)[0] && !DivisionStep(zero, true, taps)[0];
  }

  /** Without a constant term the register and the division part at the last bit of a quiet input. */
  lemma NoConstantTerm(n: nat, taps: seq<bool>)
    requires |taps| > 0 && n > 0 && !taps[0]
    ensures var zero, d := Const(|taps|, false), Const(n - 1, false) + [true];
      Steps(zero, d, taps) != DivisionSteps(zero, d, taps)
  {
    hide Step, DivisionStep, Steps, DivisionSteps;
    var zero, quiet := Const(|taps|, false), Const(n - 1, false);
    QuietRun(n - 1, taps);
    StepsAppend(zero, quiet, [true], taps);
    DivisionStepsAppend(zero, quiet, [true], taps);
    SingleStep(zero, true, taps);
    OneDiffers(zero, taps);
  }

  /** For words of `n > 0` bits the register performs polynomial division on every
      state and input exactly when the polynomial has a constant term. */
  lemma DividesIffConstantTerm(n: nat, taps: seq<bool>)
    requires |taps| > 0 && n > 0
    ensures taps[0] <==>
      forall s, d | |s| == |taps| && |d| == n :: Steps(s, d, taps) == DivisionSteps(s, d, taps)
  {
    hide Step, Steps, DivisionSteps;
    if taps[0] {
      forall s, d | |s| == |taps| && |d| == n ensures Steps(s, d, taps) == DivisionSteps(s, d, taps) {
        StepsIsDivision(s, d, taps);
      }
    } else {
      NoConstantTerm(n, taps);
    }
  }
}
