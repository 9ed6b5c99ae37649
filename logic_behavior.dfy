/** The Boolean biosafety circuit traced over discrete time: a pollutant
    input P, a kill-switch K that reacts to the pollutant's absence one time
    step late, and a degradation output D that fires while pollutant is
    present and the kill-switch is off. Signals are NumPy integer arrays of
    0s and 1s; the trace is computed for an arbitrary pollutant pattern, and
    `LogicBehavior` is the one fixed 20-step scenario the program draws. */
module LogicGate {
  import opened Numpy

  /** NumPy's failure when `K[0] = 0` is applied to an empty array. */
  datatype Error = IndexError

  datatype Result<T> = Ok(value: T) | Err(error: Error)

  /** The four aligned arrays the program returns: time grid, pollutant,
      kill-switch and degradation. */
  datatype Traces = Traces(t: seq<int>, p: seq<int>, k: seq<int>, d: seq<int>)

  /** The hard-coded pollutant scenario. */
  const FixedPattern: seq<int> := [1,1,1,0,0,0,1,1,0,0,1,1,0,0,0,1,1,0,0,0]

  /** Every element is 0 or 1. */
  predicate IsBinary(s: seq<int>) {
    forall i :: 0 <= i < |s| ==> s[i] == 0 || s[i] == 1
  }

  /** The kill-switch: the negated pattern rolled one step to the right,
      then its first element (the wrapped-around last one) overwritten with 0. */
  function KillSwitch(p: seq<int>): Result<seq<int>> {
    var rolled := Roll(AsInt(LogicalNot(Truthy(p))), 1);
    if |rolled| == 0 then Err(IndexError) else Ok(rolled[0 := 0])
  }

  /** The degradation output: pollutant present and kill-switch not active. */
  function Degradation(p: seq<int>, k: seq<int>): seq<int>
    requires |p| == |k|
  {
    AsInt(LogicalAnd(Truthy(p), LogicalNot(Truthy(k))))
  }

  /** The whole trace for pollutant pattern `p`, on the time grid 0, 1, …, |p| - 1. */
  function Trace(p: seq<int>): Result<Traces> {
    match KillSwitch(p)
    case Err(e) => Err(e)
    case Ok(k) => Ok(Traces(Arange(0, |p|), p, k, Degradation(p, k)))
  }

  /** The program's own scenario: the trace of the fixed 20-step pattern. */
  function LogicBehavior(): Result<Traces> {
    Trace(FixedPattern)
  }

  /** The trace fails exactly for an empty pattern; otherwise the four arrays
      are aligned, the grid counts the steps and the pattern is returned as is. */
  lemma TraceShape(p: seq<int>)
    ensures Trace(p).Err? <==> |p| == 0
    ensures Trace(p).Err? ==> Trace(p).error == IndexError
    ensures Trace(p).Ok? ==>
      var tr := Trace(p).value;
      |tr.t| == |tr.p| == |tr.k| == |tr.d| == |p| && tr.p == p &&
      forall i :: 0 <= i < |p| ==> tr.t[i] == i
  {
  }

  /** Kill-switch lag: K is 0 at step 0 whatever the pattern, and at every
      later step it is the negation of the previous step's pollutant. */
  lemma KillSwitchLag(p: seq<int>)
    requires |p| > 0
    ensures Trace(p).Ok?
    ensures Trace(p).value.k[0] == 0
    ensures forall i :: 1 <= i < |p| ==>
      Trace(p).value.k[i] == if p[i - 1] != 0 then 0 else 1
    ensures IsBinary(p) ==>
      forall i :: 1 <= i < |p| ==> Trace(p).value.k[i] == 1 - p[i - 1]
  {
    RollRightByOne(AsInt(LogicalNot(Truthy(p))));
  }

  /** Degradation rule: D is 1 exactly when pollutant is present and the
      kill-switch is 0, and 0 otherwise. */
  lemma DegradationRule(p: seq<int>)
    requires |p| > 0
    ensures Trace(p).Ok?
    ensures var tr := Trace(p).value;
      forall i :: 0 <= i < |p| ==>
        (tr.d[i] == 1 <==> p[i] != 0 && tr.k[i] == 0) &&
        (tr.d[i] == 0 <==> !(p[i] != 0 && tr.k[i] == 0))
  {
  }

  /** K and D are 0/1 signals for any pattern, so a 0/1 pattern gives a trace
      of 0/1 signals throughout. */
  lemma OutputsBinary(p: seq<int>)
    requires |p| > 0
    ensures Trace(p).Ok?
    ensures IsBinary(Trace(p).value.k) && IsBinary(Trace(p).value.d)
    ensures IsBinary(p) ==> IsBinary(Trace(p).value.p)
  {
  }

  /** Safety: degradation never fires without pollutant. */
  lemma NoDegradationWithoutPollutant(p: seq<int>)
    requires |p| > 0
    ensures Trace(p).Ok?
    ensures forall i :: 0 <= i < |p| && p[i] == 0 ==> Trace(p).value.d[i] == 0
    ensures IsBinary(p) ==> forall i :: 0 <= i < |p| ==> Trace(p).value.d[i] <= p[i]
  {
  }

  /** Closed form: D follows P at step 0, and afterwards D fires exactly when
      the pollutant is present at this step and at the one before. */
  lemma DegradationClosedForm(p: seq<int>)
    requires |p| > 0
    ensures Trace(p).Ok?
    ensures Trace(p).value.d[0] == if p[0] != 0 then 1 else 0
    ensures forall i :: 1 <= i < |p| ==>
      Trace(p).value.d[i] == if p[i] != 0 && p[i - 1] != 0 then 1 else 0
  {
    KillSwitchLag(p);
  }

  /** Mutual exclusion: degradation and kill-switch are never on together. */
  lemma KillSwitchExcludesDegradation(p: seq<int>)
    requires |p| > 0
    ensures Trace(p).Ok?
    ensures forall i :: 0 <= i < |p| ==> !(Trace(p).value.k[i] == 1 && Trace(p).value.d[i] == 1)
  {
  }

  /** The lagged kill-switch agrees with the instantaneous rule "K is the
      negation of P at the same step" only for a pattern in which pollutant is
      present at every step. */
  lemma LaggedEqualsInstantaneousIff(p: seq<int>)
    requires |p| > 0
    ensures Trace(p).Ok?
    ensures Trace(p).value.k == AsInt(LogicalNot(Truthy(p))) <==>
      forall i :: 0 <= i < |p| ==> p[i] != 0
  {
    KillSwitchLag(p);
    if Trace(p).value.k == AsInt(LogicalNot(Truthy(p))) {
      forall i | 0 <= i < |p| ensures p[i] != 0 {
        PresentUpTo(p, Trace(p).value.k, i);
      }
    }
  }

  /** The induction behind LaggedEqualsInstantaneousIff, on a kill-switch
      array `k` that obeys both rules: pollutant is present at step 0, and
      presence at one step makes `k` 0 at the next, hence presence there too. */
  lemma {:induction false} PresentUpTo(p: seq<int>, k: seq<int>, i: nat)
    requires i < |p| == |k|
    requires k[0] == 0
    requires forall j :: 1 <= j < |p| ==> k[j] == if p[j - 1] != 0 then 0 else 1
    requires forall j :: 0 <= j < |p| ==> k[j] == if p[j] != 0 then 0 else 1
    ensures p[i] != 0
    decreases i
  {
    if i == 0 {
      assert k[0] == if p[0] != 0 then 0 else 1;
    } else {
      PresentUpTo(p, k, i - 1);
      assert k[i] == if p[i] != 0 then 0 else 1;
    }
  }

  /** The fixed scenario, worked out: the program's trace is that of the
      literal pattern, on the 20-step grid, with the kill-switch and
      degradation arrays below; the pattern is a 0/1 pattern. */
  lemma FixedScenario()
    ensures LogicBehavior() == Trace(FixedPattern)
    ensures Trace(FixedPattern).Ok?
    ensures Trace(FixedPattern).value.t == Arange(0, 20)
    ensures Trace(FixedPattern).value.p == FixedPattern
    ensures IsBinary(Trace(FixedPattern).value.p)
    ensures Trace(FixedPattern).value.k == [0,0,0,0,1,1,1,0,0,1,1,0,0,1,1,1,0,0,1,1]
    ensures Trace(FixedPattern).value.d == [1,1,1,0,0,0,0,1,0,0,0,1,0,0,0,0,1,0,0,0]
  {
    ScenarioOf(FixedPattern);
  }

  /** The kill-switch does not switch on as soon as the pollutant is gone:
      at step 3 of the fixed scenario pollutant is absent and the kill-switch
      is still off. */
  lemma FixedScenarioKillSwitchLate()
    ensures FixedPattern[3] == 0
    ensures Trace(FixedPattern).Ok? && Trace(FixedPattern).value.k[3] == 0
  {
    FixedScenario();
  }

  /** The program's time grid `np.arange(0, 20, 1)` is 0, 1, …, 19. */
  lemma FixedGrid()
    ensures Arange(0, 20) == [0,1,2,3,4,5,6,7,8,9,10,11,12,13,14,15,16,17,18,19]
  {
  }

  /** The kill-switch and degradation arrays of any pattern with the fixed
      pattern's elements, stated element by element so that the proof goes
      through the contracts of the array operations instead of evaluating
      them on a literal. */
  lemma ScenarioOf(p: seq<int>)
    requires |p| == 20
    requires p[0] == 1 && p[1] == 1 && p[2] == 1 && p[3] == 0 && p[4] == 0
    requires p[5] == 0 && p[6] == 1 && p[7] == 1 && p[8] == 0 && p[9] == 0
    requires p[10] == 1 && p[11] == 1 && p[12] == 0 && p[13] == 0 && p[14] == 0
    requires p[15] == 1 && p[16] == 1 && p[17] == 0 && p[18] == 0 && p[19] == 0
    ensures Trace(p).Ok?
    ensures Trace(p).value.t == Arange(0, 20) && Trace(p).value.p == p
    ensures IsBinary(Trace(p).value.p)
    ensures Trace(p).value.k == [0,0,0,0,1,1,1,0,0,1,1,0,0,1,1,1,0,0,1,1]
    ensures Trace(p).value.d == [1,1,1,0,0,0,0,1,0,0,0,1,0,0,0,0,1,0,0,0]
  {
    KillSwitchLag(p);
    DegradationClosedForm(p);
  }
}
