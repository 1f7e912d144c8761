# Flat-plate glider trajectory optimisation: collocation layout

A Dafny model of the trapezoidal-collocation transcription in
`include/fpgm_collocation.h` (libprecisionbvp). A glider trajectory of N steps is
packed into one decision vector of 8*N reals; each step is
`[x, z, theta, phi, xdot, zdot, thetadot, phidot]`, and the last entry is the input.
The constraint callback turns that vector into a residual array of 4 + 26*N slots,
each of which the COBYLA solver must drive to <= 0:

- every equality-with-slack and every box bound becomes a pair of residuals
  `-v - b` and `v - b` (module `Encoding`);
- step i owns the block `26*i .. 26*i + 25`:
  - offsets 0..13 hold the seven trapezoidal defect pairs of the transition to step
    i+1, each against the tolerance 0.01;
  - offsets 14..25 hold the bound pairs on theta, phi, xdot, zdot, thetadot and phidot;
- the last four slots encode the first step's x and z against the first anchor entries
  `ix[0]` and `iz[0]` (modules `Layout`, `Collocation`).

Around that core the model covers:

- the equations of motion, whose first four derivative components pass through and
  whose aerodynamic accelerations are a parameter (`Dynamics`);
- the quadratic cost with its 1e6 anchor penalty (`Cost`);
- the guess loader, its `remainder()` size test, the guard before the solve and the
  conversion of the solver's vector into six per-channel sequences (`Driver`).

Modules:

- `Encoding`: the paired `<= 0` encoding, `set_bounded_constrains`.
- `Dynamics`: the state derivative. The aerodynamic model is a function-typed
  parameter (`AeroModel`).
- `Layout`: the slot/index bijection of the residual array (`Index`, `Classify`).
- `Collocation`:
  - the defect, the bounds and the anchors;
  - `SlotValue`, the value the residual array holds in each slot;
  - the imperative fill `EvalConstraints`;
  - feasibility read back into the trajectory's terms.
- `Cost`: `control_effort_objective`.
- `Driver`: `load_initial_guess` and `nlopt_optimization` around the opaque solver.

The residual buffer belongs to the solver. The callback never writes the last step's
14 defect slots, so they keep whatever the buffer held. The model carries that content
as an explicit `prior` sequence.

## Model

| member | source | states |
|---|---|---|
| Encoding.Abs | include/fpgm_collocation.h:350 | The magnitude used by the anchor penalty is non-negative, equals r or -r, and bounds both. |
| Encoding.BoundedPair | include/fpgm_collocation.h:181-186 | The pair is (-v - b, v - b). Both halves are <= 0 exactly when -b <= v <= b, i.e. when abs(v) <= b. The pair determines v and b. |
| Encoding.PairFeasible | include/fpgm_collocation.h:183-185 | Both residuals of a pair are non-positive if and only if abs(v) <= b. |
| Encoding.SetBoundedConstraint | include/fpgm_collocation.h:181-186 | Writes the lower residual at index and the upper at index + 1, and leaves every other slot of the buffer unchanged. |
| Encoding.PairSide | include/fpgm_collocation.h:181-186 | The lower half is <= 0 exactly when -b <= v, and the upper half exactly when v <= b. |
| Encoding.SideAt | include/fpgm_collocation.h:184-185 | The lower residual sits at the even offset of a pair and the upper at the odd one. |
| Dynamics.Derivative | include/fpgm_collocation.h:160-167 | The derivative has 7 components. The first four are exactly xdot, zdot, thetadot and the input phidot. The last three are the aerodynamic accelerations. |
| Dynamics.KinematicsIndependentOfAero | include/fpgm_collocation.h:161-164 | States that agree on their velocities, with the same input, give the same first four derivative components, whatever the aerodynamic model and parameters. |
| Layout.Index | include/fpgm_collocation.h:283-308 | Every slot the callback uses lies inside the 4 + 26*N array. Exactly the anchor slots lie at or above 26*N. |
| Layout.Classify | include/fpgm_collocation.h:220-308 | Every index of the 4 + 26*N array is the index of exactly one slot: a defect, bound or anchor pair half, or one of the last step's unwritten defect slots. |
| Layout.ClassifyIndex | include/fpgm_collocation.h:283-308 | Classifying a slot's index gives back that slot. |
| Layout.IndexInjective | include/fpgm_collocation.h:220-308 | No two distinct slots share an index, so no residual is written twice. |
| Layout.LastBlockDefectSlotsUnwritten | include/fpgm_collocation.h:233-308 | An index is written by some slot if and only if it lies outside 26*(N-1) .. 26*(N-1)+13, the last step's defect block. |
| Collocation.Steps | include/fpgm_collocation.h:220 | N is the number of whole 8-slot steps in the vector: 8*N <= length < 8*N + 8. |
| Collocation.StateAt | include/fpgm_collocation.h:236-242 | The state of a step is the seven slots at 8*i .. 8*i+6. |
| Collocation.Defect | include/fpgm_collocation.h:261-262 | For each of the four kinematic components j, the defect is x_i[j] - x_(i+1)[j] + h/2 * (x_i[j+4] + x_(i+1)[j+4]): the trapezoidal rule on the position and its velocity. |
| Collocation.Bounded | include/fpgm_collocation.h:292-304 | Bound q of step i reads theta, phi, xdot, zdot or thetadot of that step (q < 5), or its input phidot (q = 5). |
| Collocation.SlotValue | include/fpgm_collocation.h:283-308 | Each written residual is <= 0 exactly when its value lies on the right side of its bound: defect against 0.01, state against its limit, anchor against ix[0] or iz[0]. An unwritten slot holds the buffer's previous content. |
| Collocation.BoundPairsAtStep | include/fpgm_collocation.h:291-304 | Bound pair q of step i sits at 26*i + 14 + 2*q and encodes slot 8*i + 2 + q against t_c, p_c, v_c, v_c, td_c and pd_c in that order. |
| Collocation.AnchorPairsAtEnd | include/fpgm_collocation.h:307-308 | The x anchor pair sits at 26*N and encodes x[0] against ix[0]; the z anchor pair sits at 26*N + 2 and encodes x[1] against iz[0]. |
| Collocation.IntendedAnchorResidual | include/fpgm_collocation.h:307-308 | The corrected lower residual is <= 0 exactly when x[a] >= anchor - 0.01, and the upper exactly when x[a] <= anchor + 0.01. |
| Collocation.ExtendFilled | include/fpgm_collocation.h:283-308 | Writing one pair at the next two indices extends the correctly filled prefix of the residual array by two. All other slots keep their contents. |
| Collocation.WritePair | include/fpgm_collocation.h:283-308 | Writing a pair at the index of the two slots meant to hold it extends the correctly filled prefix of the residual array by two. |
| Collocation.WriteDefectPairs | include/fpgm_collocation.h:233-289 | For a step with a successor, the loop over the seven components fills offsets 0..13 of the step's block with the tolerance-0.01 pairs of the trapezoidal defect. |
| Collocation.SkipLastDefectSlots | include/fpgm_collocation.h:233 | The last step has no transition. Its 14 defect slots already hold their final value, the buffer's previous content. |
| Collocation.WriteBoundPairs | include/fpgm_collocation.h:291-304 | Fills offsets 14..25 of step i's block with the pairs for theta/t_c, phi/p_c, xdot/v_c, zdot/v_c, thetadot/td_c and phidot/pd_c. |
| Collocation.WriteAnchorPairs | include/fpgm_collocation.h:307-308 | Fills the four slots after the last step block with the x and z anchor pairs. |
| Collocation.EvalConstraints | include/fpgm_collocation.h:208-314 | The result has 4 + 26*N slots. Every slot holds its defect, bound or anchor pair value, or the buffer's previous content for the last step's defect slots. This holds both per slot and per index. |
| Collocation.FeasibleIff | include/fpgm_collocation.h:261-308 | All written residuals are <= 0 if and only if three things hold: every defect component is within 0.01, every step is within its bounds, and abs(x[0]) <= ix[0] and abs(x[1]) <= iz[0]. |
| Collocation.AnchorPairIsBox | include/fpgm_collocation.h:307-308 | An anchor pair is feasible exactly when -ix[0] <= x[0] <= ix[0] (likewise for z). |
| Collocation.AnchorAcceptsMirrorImage | include/fpgm_collocation.h:307 | With ix[0] = 5, x[0] = -5 satisfies both x-anchor residuals while lying 10 from the anchor. |
| Collocation.NegativeAnchorInfeasible | include/fpgm_collocation.h:307 | With a negative ix[0], no x[0] satisfies the x-anchor pair. |
| Collocation.IntendedAnchorFeasibleIff | include/fpgm_collocation.h:307-308 | The corrected anchor pair is feasible if and only if x[a] lies within 0.01 of its anchor. |
| Collocation.GlideDerivative | include/fpgm_collocation.h:160-167 | On a straight glide with zero elevator rate, where the aerodynamics produce no acceleration, the derivative is the constant velocity for the positions and zero for every other component. |
| Collocation.DefectZeroWhenLinear | include/fpgm_collocation.h:261-262 | A component that advances by h*e between two steps, with derivative e at both ends, has trapezoidal defect 0: the rule is exact on linear motion. |
| Collocation.GlideDefectAt | include/fpgm_collocation.h:261-262 | Each component of each transition of such a glide has trapezoidal defect 0. |
| Collocation.GlideHasZeroDefect | include/fpgm_collocation.h:261-284 | An exact straight-glide discretisation has zero defect at every transition, so it meets every defect constraint. |
| Collocation.SlotValueReadsWholeSteps | include/fpgm_collocation.h:236-308 | For N >= 1, two vectors with the same N that agree on their first 8*N slots give the same residual in every slot, so reads never leave the N whole steps, even when a partial step follows. At N = 0 this does not hold: the anchor pairs still read x[0] and x[1]. |
| Cost.AnchorDistance | include/fpgm_collocation.h:350-351 | The penalty 1e6*(abs(x[0]-ix[0]) + abs(x[1]-iz[0])) is non-negative, and zero exactly when the first step sits on both anchors. |
| Cost.Objective | include/fpgm_collocation.h:328-351 | The cost is at least h times the summed stage costs, and equals it exactly when the first step sits on both anchors. |
| Cost.RowDot | include/fpgm_collocation.h:344 | For a diagonal Q, row j of Q times the state is Q[j][j] * s[j]. |
| Cost.QuadForm | include/fpgm_collocation.h:344 | For a diagonal Q, s^T Q s is the weighted sum of squares of the state's components. |
| Cost.DiagonalFormNonnegative | include/fpgm_collocation.h:344 | A weighted sum of squares with non-negative weights is non-negative. |
| Cost.DiagonalWeightsPositiveSemidefinite | include/fpgm_collocation.h:344 | A diagonal Q with non-negative entries is positive semidefinite. |
| Cost.StageCost | include/fpgm_collocation.h:338-348 | With a positive semidefinite Q and R >= 0, each stage cost s^T Q s + u R u is non-negative. |
| Cost.RunningCost | include/fpgm_collocation.h:336-349 | Under the same weights, the sum of stage costs over any number of steps is non-negative. |
| Cost.StageCostReadsStep | include/fpgm_collocation.h:338-348 | Two vectors that agree on their first 8*i + 8 slots give step i the same stage cost. |
| Cost.ObjectiveAtLeastPenalty | include/fpgm_collocation.h:328-351 | Under the same weights and h >= 0, the cost is at least the anchor penalty, and so never negative. |
| Cost.RunningCostReadsPrefix | include/fpgm_collocation.h:330-349 | The running cost of the first m steps depends only on the first 8*m slots. |
| Driver.IeeeRemainder | include/fpgm_collocation.h:408 | The IEEE remainder of a by b > 0 is a mod b or a mod b - b, lies within [-b/2, b/2], and is zero exactly when b divides a. |
| Driver.LoadInitialGuess | include/fpgm_collocation.h:404-413 | The guess is always replaced. The load succeeds if and only if the length is a multiple of 8, and then the guess holds exactly N steps. A failed load keeps N unchanged. |
| Driver.Deinterleave | include/fpgm_collocation.h:555-563 | The result has N entries per channel, and entry i of each of the six channels is slot c + 8*i of the vector. |
| Driver.Channel | include/fpgm_collocation.h:555-563 | Channel c has N entries, entry i being slot c + 8*i. |
| Driver.ConvertToControlState | include/fpgm_collocation.h:554-563 | The conversion loop yields exactly the six channels 0..5 of the first N steps. |
| Driver.InterleaveAt | include/fpgm_collocation.h:555-563 | Slot c + 8*i of a packed vector is channel c of step i. |
| Driver.ChannelOfInterleave | include/fpgm_collocation.h:555-563 | Extracting channel c from a packed trajectory gives channel c back. |
| Driver.DeinterleaveInterleave | include/fpgm_collocation.h:555-563 | Converting a packed trajectory gives the trajectory back. |
| Driver.InterleaveDeinterleave | include/fpgm_collocation.h:555-563 | Re-packing the converted trajectory with channels 6 and 7 gives the solver's vector back, so the conversion loses exactly the pitch rate and the input. |
| Driver.OptimizeAsWritten | include/fpgm_collocation.h:463-567 | As written, an empty guess gives the empty trajectory. Otherwise the run writes past the registered residuals exactly when the guess has more whole steps than N. It reads past the buffer exactly when it does not do that and the guess has fewer than 2 slots (so reading x[1] fails), or ix or iz is empty (so reading ix[0] or iz[0] fails), or 8*N exceeds the guess length. When none of these happens, the guess has at least 2 slots, N = Steps(guess), and the trajectory has N steps, channel c of step i being slot c + 8*i of the solver's vector. |
| Driver.StaleStepCountAfterFailedLoad | include/fpgm_collocation.h:404-563 | Loading 8 values and then 3 leaves N = 1 with a 3-slot guess, and the run reads past the buffer. Loading 8 and then 17 leaves N = 1, so 30 slots are registered, but the callback's last anchor residual lands at index 55. |
| Driver.OneSlotGuessAfterEmptyLoad | include/fpgm_collocation.h:404-413 | Loading an empty vector sets N = 0. A following 1-slot load fails and keeps N = 0, and the run then reads past the 1-slot buffer. |
| Driver.Optimize | include/fpgm_collocation.h:463-567 | The corrected run returns the empty trajectory if and only if the guess is empty or does not hold exactly N steps. Otherwise it returns N steps, channel c of step i being slot c + 8*i of the solver's vector. |
| Driver.OptimizeAfterLoad | include/fpgm_collocation.h:404-563 | After any load, the corrected run returns the empty trajectory if and only if the loaded vector is empty or not whole steps. Otherwise it returns length/8 steps, channel c of step i being slot c + 8*i of the solver's vector. |
| Driver.StaleStepConvertedAfterFailedLoad | include/fpgm_collocation.h:404-563 | Loading 8 values and then 12 leaves N = 1 with a 12-slot guess. The corrected run refuses, and the run as written returns one step whose x is slot 0 of the solver's vector. |
| Driver.OptimizeAgreesWhenConsistent | include/fpgm_collocation.h:463-567 | Whenever the guess holds exactly N steps, the corrected and the as-written run agree unless an anchor sequence is empty, where the run as written reads past it, and the registered 4 + 26*N residuals are exactly what the callback fills. |

## Left out

- The flat-plate force and moment model (`include/fpgm_collocation.h:122-158`): sin, cos,
  atan and pow on doubles, with `atan` of a quotient that is undefined at zero
  horizontal speed. It is the `AeroModel` parameter of the context. Only the four
  pass-through derivative components are stated.
- The NLopt calls (creation, tolerances, COBYLA, `nlopt_optimize`, `nlopt_destroy`): a
  foreign library. The solver's answer is the parameter `solved` of the driver functions;
  the model assumes only that it has the guess's length.
- The `tol_ineq` array initialiser, a variable-length array with a brace initialiser. It
  is a compiler concern and feeds only the solver.
- The objective is registered with a pointer to the physical parameters but reads it as
  the combined parameter record. The model hands the objective the run's parameters
  and limits explicitly.
- `load_parameters`: YAML and file I/O. The parameter and limit records are inputs of
  the model.
- `differential_flat_estimated_rotation`: 3-D floating-point geometry the core does
  not use.
- The `printf` diagnostics. The guess-difference loop is kept only for the slots it
  reads, which decide where `OptimizeAsWritten` reads past the buffer.
- Floating point throughout: residuals, defects and costs are exact reals, so rounding
  in `-v - b`, `h/2` and the quadratic form is not modelled.
- A negative or unset N: the model takes N as an arbitrary integer. A negative N gives
  a negative array size in the source; the model reports this as
  `WritesPastResiduals`, because the callback always writes at least 4 slots.
- Integer width: the model's integers are unbounded. The source's `int` arithmetic
  can overflow in `(int)x.size()` (line 408), in `4 + N*26` (line 502) and in the
  `i*26` slot offsets (lines 283-304). The last two overflow from
  N = 82,595,525 steps, the size cast only from 2^31 slots. Vectors of tens of
  millions of steps are out of the program's range of use, so the model does not
  represent it.
- Empty anchor sequences: `load_parameters` stores `ix` and `iz` without a length
  check (lines 370-398), and the callback and the objective read `ix[0]` and `iz[0]`
  unchecked (lines 307-308 and 350). The per-evaluation members require both to be
  non-empty: `Collocation.Admissible`, and the same condition on `Cost.AnchorDistance`
  and `Cost.Objective`. The whole run, `Driver.OptimizeAsWritten`, takes the limits
  and reports an empty `ix` or `iz` as `ReadsPastBuffer`. The corrected
  `Driver.Optimize` refuses only a guess that is empty or not N whole steps.

## Findings

| source | as written | input that shows it | evidently intended | confidence | as-written member | corrected member |
|---|---|---|---|---|---|---|
| include/fpgm_collocation.h:307-308 | The anchor value `ix[0]` (`iz[0]`) is passed as the bound of the pair, so the residuals accept -ix[0] <= x[0] <= ix[0]. | ix[0] = 5, x[0] = -5: both residuals are <= 0 while x[0] is 10 from the anchor. With ix[0] < 0, nothing is feasible. | x[0] - ix[0] encoded against a small tolerance, holding the first step at its anchor as the cost's penalty term does. | not executed | Collocation.AnchorAcceptsMirrorImage | Collocation.IntendedAnchorFeasibleIff |
| include/fpgm_collocation.h:404-467 | A failed `load_initial_guess` still stores the guess and keeps the old N, and `nlopt_optimization` checks only that the guess is non-empty. | Load 8 values, then 3: N stays 1, the loops after the solve read slots 3..7 of a 3-slot vector. Load 8, then 17: N stays 1, so 30 slots are registered, but the callback writes indices up to 55. | Refuse to optimise unless the guess holds exactly N whole steps. | not executed | Driver.StaleStepCountAfterFailedLoad | Driver.OptimizeAfterLoad |
