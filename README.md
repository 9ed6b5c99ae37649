# Biospray logic-gate trace, modelled in Dafny

The biospray simulations draw, among other curves, a discrete trace of the
circuit's Boolean logic: over 20 time steps, a pollutant input P, a
kill-switch K and a degradation output D, each a 0/1 array. `logic_behavior()`
builds them as follows:

- the time grid is `np.arange(0, 20, 1)`;
- P is a hard-coded 20-element pattern;
- K is the negated pattern rolled one step to the right, with its first
  element (the wrap-around of the last one) overwritten with 0;
- D is `P and not K`, element by element.

So the kill-switch lags the pollutant by one step: `K[i] = 1 - P[i-1]` for
`i >= 1`, and `K[0] = 0`.

The model has two modules:

- `numpy.dfy` (module `Numpy`) holds the NumPy operations the trace uses, on
  sequences: `arange`, `roll`, `logical_not`, `logical_and`, `.astype(int)`,
  and NumPy's truth value of integers (zero is false).
- `logic_behavior.dfy` (module `LogicGate`) writes the trace for an arbitrary
  integer pattern as `Trace(p)`. The program's own function is
  `LogicBehavior()`, which is `Trace(FixedPattern)`. The in-place write
  `K[0] = 0` becomes the sequence update `K[0 := 0]`. On an empty pattern that
  write fails in NumPy with an index error, and `Trace` returns
  `Err(IndexError)` there.

The general lemmas hold for every pattern. The worked instance checks the
program's fixed scenario value by value.

The on-screen description of this tab (app.py:23) says the kill-switch
activates when pollutant is absent. The code at logic_behavior.py:7-8 switches
it on one step late. `LaggedEqualsInstantaneousIff` shows how far apart the
two readings are: the lagged kill-switch equals the same-step negation of P
only for a pattern in which pollutant is present at every step.
`FixedScenarioKillSwitchLate` gives the case in the program's own scenario: at
step 3, P[3] = 0 and K[3] = 0.

## Model

| member | source | states |
|---|---|---|
| `Numpy.Arange` | logic_behavior.py:5 | `arange(start, stop)` has `stop - start` elements (none if `stop <= start`), and element `i` is `start + i` |
| `Numpy.Truthy` | logic_behavior.py:7-9 | an integer array read as Booleans: element `i` is true exactly when it is non-zero, and the length is kept |
| `Numpy.LogicalNot` | logic_behavior.py:7 | element-wise negation, same length |
| `Numpy.LogicalAnd` | logic_behavior.py:9 | element-wise conjunction of two equal-length arrays, same length |
| `Numpy.AsInt` | logic_behavior.py:7 | `.astype(int)`: true becomes 1, false becomes 0, same length |
| `Numpy.Roll` | logic_behavior.py:7 | `roll(s, shift)` keeps the length, and element `i` comes from index `(i - shift) mod n` (wrap-around in both directions) |
| `Numpy.RollRightByOne` | logic_behavior.py:7 | `roll(s, 1)` puts the last element first, and element `i - 1` at `i` for `i >= 1` |
| `Numpy.RollInverse` | logic_behavior.py:7 | rolling back by the same shift restores the array; a check of the `roll` model itself, since the program never rolls back |
| `LogicGate.TraceShape` | logic_behavior.py:4-10 | the trace fails (index error) exactly for an empty pattern; otherwise t, P, K and D all have the pattern's length, P is returned unchanged, and `t[i] = i` |
| `LogicGate.KillSwitchLag` | logic_behavior.py:7-8 | `K[0] = 0` for every pattern, and `K[i]` is the negation of `P[i-1]` for `i >= 1`; on a 0/1 pattern `K[i] = 1 - P[i-1]` |
| `LogicGate.DegradationRule` | logic_behavior.py:9 | `D[i] = 1` exactly when `P[i]` is non-zero and `K[i] = 0`, and `D[i] = 0` exactly otherwise |
| `LogicGate.OutputsBinary` | logic_behavior.py:6-9 | K and D are 0/1 arrays for every pattern, and P is one when the input pattern is |
| `LogicGate.NoDegradationWithoutPollutant` | logic_behavior.py:9 | safety: where `P[i] = 0`, `D[i] = 0`; on a 0/1 pattern `D[i] <= P[i]` at every step |
| `LogicGate.DegradationClosedForm` | logic_behavior.py:7-9 | `D[0]` follows `P[0]`, and for `i >= 1` `D[i] = 1` exactly when pollutant is present at both `i - 1` and `i` |
| `LogicGate.KillSwitchExcludesDegradation` | logic_behavior.py:9 | K and D are never both 1 at the same step |
| `LogicGate.LaggedEqualsInstantaneousIff` | app.py:23 | the kill-switch of logic_behavior.py:7-8 equals the same-step negation of P, which is what the on-screen text describes, exactly when pollutant is present at every step |
| `LogicGate.FixedScenarioKillSwitchLate` | logic_behavior.py:6-8 | in the fixed scenario pollutant is absent at step 3 (`P[3] = 0`) while the kill-switch is still off (`K[3] = 0`) |
| `LogicGate.ScenarioOf` | logic_behavior.py:6-9 | for any pattern with the fixed pattern's 20 values, K is `[0,0,0,0,1,1,1,0,0,1,1,0,0,1,1,1,0,0,1,1]` and D is `[1,1,1,0,0,0,0,1,0,0,0,1,0,0,0,0,1,0,0,0]`, on the grid `arange(0, 20)`, and P is a 0/1 array |
| `LogicGate.FixedScenario` | logic_behavior.py:4-10 | `logic_behavior()` is the trace of the literal pattern: grid `arange(0, 20)`, P the literal (a 0/1 array), and the K and D arrays above |
| `LogicGate.FixedGrid` | logic_behavior.py:5 | `arange(0, 20, 1)` is exactly 0, 1, …, 19 |

## Left out

- app.py: the Streamlit tabs, sliders and matplotlib plots are presentation only. They have no logic to model.
- enzyme_kinetics.py: the substrate → intermediate → product cascade is integrated over floats by SciPy's `odeint`. That solver is foreign code, so the model does not cover it.
- promoter_hill.py: the Hill dose-response raises floats to non-integer powers. That numerics is not modelled.
- system_logic.py: the exponential decay curves and the threshold comparison are floating-point `exp` arithmetic. They are not modelled.
- The `matplotlib` import in logic_behavior.py has no effect on the trace.
- Array element types are not modelled. NumPy's machine integers never overflow here, because every value is 0, 1 or a step index below 20. P and K are integer arrays, and the Boolean intermediates are `seq<bool>`.
- The in-place write `K[0] = 0` is modelled as a sequence update. No other reference to the rolled array exists, so aliasing cannot arise.
- Calling `logic_behavior()` twice gives identical arrays. The model gets this for free, because Dafny functions are deterministic, so no lemma states it.
- The time grid of the general `Trace(p)` is `arange(0, |p|)`. For the program's 20-element pattern that is exactly its `arange(0, 20)`, which `FixedScenario` states.
