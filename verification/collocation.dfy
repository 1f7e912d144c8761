/** Trapezoidal-collocation transcription of the glider dynamics into the
    flat residual array the solver constrains to be <= 0.

    The decision vector packs N steps of [x, z, theta, phi, xdot, zdot,
    thetadot, phidot]; N is its length divided by 8, rounded down. For each
    step with a successor, the seven components of the trapezoidal defect
        s_i - s_{i+1} + (h/2) * (f(s_i, u_i) + f(s_{i+1}, u_{i+1}))
    are each encoded as a pair against the fixed tolerance 0.01. Every step
    also bounds theta, phi, xdot, zdot, thetadot and phidot. After the step
    blocks, x and z of the first step are encoded against the first entries
    of the anchor sequences ix and iz, with the anchor in the place of the
    bound. Slots the evaluation does not write keep whatever the solver's
    buffer held before the call; `prior` stands for that content. */
module Collocation {
  import opened Encoding
  import opened Dynamics
  import opened Layout

  /** The box constraints of one run: velocity, pitch, elevator angle, pitch
      rate and elevator rate bounds, and the per-step anchor sequences for x
      and z (only their first entries are used). */
  datatype Limits = Limits(vc: real, tc: real, pc: real, tdc: real, pdc: real,
                           ix: seq<real>, iz: seq<real>)

  /** Everything one evaluation needs: the aerodynamic model, the physical
      parameters and the limits. */
  datatype Context = Context(aero: AeroModel, params: Params, limits: Limits)

  /** Slack granted to every dynamics defect. */
  const DefectTolerance: real := 0.01

  /** Number of whole steps in a decision vector. */
  function Steps(x: seq<real>): (n: nat)
    ensures 8 * n <= |x| < 8 * n + 8
  {
    |x| / 8
  }

  /** What an evaluation needs of its inputs: the two anchor reads x[0] and
      x[1], and a first entry in each anchor sequence. */
  predicate Admissible(ctx: Context, x: seq<real>)
  {
    |x| >= 2 && |ctx.limits.ix| >= 1 && |ctx.limits.iz| >= 1
  }

  /** The seven state components of step i. */
  function StateAt(x: seq<real>, i: nat): (s: seq<real>)
    requires 8 * i + 8 <= |x|
    ensures |s| == StateSize
  {
    x[8 * i .. 8 * i + 7]
  }

  /** The input (elevator rate) of step i. */
  function InputAt(x: seq<real>, i: nat): real
    requires 8 * i + 8 <= |x|
  {
    x[8 * i + 7]
  }

  /** Component j of the trapezoidal defect of the transition from step i
      to step i+1: s_i[j] - s_{i+1}[j] + (h/2) * (f(s_i, u_i)[j] + f(s_{i+1}, u_{i+1})[j]).
      The four kinematic components do not depend on the aerodynamics: the
      derivative of slot j of a step is slot j + 4 of the same step. */
  function Defect(ctx: Context, x: seq<real>, i: nat, j: nat): (d: real)
    requires 8 * i + 16 <= |x| && j < StateSize
    ensures j < 4 ==>
              d == x[8 * i + j] - x[8 * (i + 1) + j] + ctx.params.h / 2.0 * (x[8 * i + j + 4] + x[8 * (i + 1) + j + 4])
  {
    var f := Derivative(ctx.aero, ctx.params, StateAt(x, i), InputAt(x, i));
    var g := Derivative(ctx.aero, ctx.params, StateAt(x, i + 1), InputAt(x, i + 1));
    x[8 * i + j] - x[8 * (i + 1) + j] + ctx.params.h / 2.0 * (f[j] + g[j])
  }

  /** The bound that quantity q (theta, phi, xdot, zdot, thetadot, phidot) is held to. */
  function Limit(c: Limits, q: nat): real
    requires q < 6
  {
    match q
    case 0 => c.tc
    case 1 => c.pc
    case 2 => c.vc
    case 3 => c.vc
    case 4 => c.tdc
    case _ => c.pdc
  }

  /** The bounded quantity q of step i, which sits at offset 2 + q of the
      step's block: the state components theta .. thetadot for q < 5, the
      input for q = 5. Position is never bounded. */
  function Bounded(x: seq<real>, i: nat, q: nat): (r: real)
    requires q < 6 && 8 * i + 8 <= |x|
    ensures q < 5 ==> r == StateAt(x, i)[2 + q]
    ensures q == 5 ==> r == InputAt(x, i)
  {
    x[8 * i + 2 + q]
  }

  /** The anchor the first step's x (a = 0) or z (a = 1) is encoded against. */
  function Anchor(c: Limits, a: nat): real
    requires a < 2 && |c.ix| >= 1 && |c.iz| >= 1
  {
    if a == 0 then c.ix[0] else c.iz[0]
  }

  /** The residual a slot holds after the evaluation: the pair encoding of
      its defect, bound or anchor, or, for the last step's unwritten defect
      slots, the buffer's previous content. A written slot is non-positive
      exactly when its one-sided bound holds. */
  function SlotValue(ctx: Context, x: seq<real>, prior: seq<real>, s: Slot): (r: real)
    requires Admissible(ctx, x)
    requires |prior| == ResidualCount(Steps(x))
    requires ValidSlot(Steps(x), s)
    ensures s.DefectSlot? ==>
              (r <= 0.0 <==> if s.side == Lower then -DefectTolerance <= Defect(ctx, x, s.step, s.comp)
                             else Defect(ctx, x, s.step, s.comp) <= DefectTolerance)
    ensures s.BoundSlot? ==>
              (r <= 0.0 <==> if s.side == Lower then -Limit(ctx.limits, s.quantity) <= Bounded(x, s.step, s.quantity)
                             else Bounded(x, s.step, s.quantity) <= Limit(ctx.limits, s.quantity))
    ensures s.AnchorSlot? ==>
              (r <= 0.0 <==> if s.side == Lower then -Anchor(ctx.limits, s.anchor) <= x[s.anchor]
                             else x[s.anchor] <= Anchor(ctx.limits, s.anchor))
    ensures s.Unwritten? ==> r == prior[Index(Steps(x), s)]
  {
    match s
    case DefectSlot(i, j, side) => PairSide(side, Defect(ctx, x, i, j), DefectTolerance)
    case BoundSlot(i, q, side) => PairSide(side, Bounded(x, i, q), Limit(ctx.limits, q))
    case AnchorSlot(a, side) => PairSide(side, x[a], Anchor(ctx.limits, a))
    case Unwritten(o) => prior[Index(Steps(x), s)]
  }

  /** The buffer a holds the evaluation's residual in every slot below index
      m and the solver's previous content from m on. */
  ghost predicate FilledUpTo(ctx: Context, x: seq<real>, prior: seq<real>, a: seq<real>, m: int)
    requires Admissible(ctx, x)
    requires |prior| == ResidualCount(Steps(x))
  {
    |a| == |prior| && 0 <= m <= |a| &&
    (forall s | ValidSlot(Steps(x), s) && Index(Steps(x), s) < m :: a[Index(Steps(x), s)] == SlotValue(ctx, x, prior, s)) &&
    (forall k | m <= k < |a| :: a[k] == prior[k])
  }

  /** Writing the residuals of the two halves of a pair at m and m+1 extends
      a filled prefix by two: no other slot shares their indices. */
  lemma ExtendFilled(ctx: Context, x: seq<real>, prior: seq<real>, a: seq<real>, b: seq<real>,
                     m: int, lo: Slot, hi: Slot)
    requires Admissible(ctx, x)
    requires |prior| == ResidualCount(Steps(x))
    requires ValidSlot(Steps(x), lo) && ValidSlot(Steps(x), hi)
    requires Index(Steps(x), lo) == m && Index(Steps(x), hi) == m + 1
    requires FilledUpTo(ctx, x, prior, a, m) && m + 2 <= |a| == |b|
    requires b[m] == SlotValue(ctx, x, prior, lo) && b[m + 1] == SlotValue(ctx, x, prior, hi)
    requires forall k | 0 <= k < |a| && k != m && k != m + 1 :: b[k] == a[k]
    ensures FilledUpTo(ctx, x, prior, b, m + 2)
  {
    var n := Steps(x);
    forall s | ValidSlot(n, s) && Index(n, s) < m + 2
      ensures b[Index(n, s)] == SlotValue(ctx, x, prior, s)
    {
      if Index(n, s) == m {
        IndexInjective(n, s, lo);
      } else if Index(n, s) == m + 1 {
        IndexInjective(n, s, hi);
      }
    }
  }

  /** Writes the pair for (v, b) at index, where the slots lo and hi sit,
      when those slots are meant to hold exactly that pair: the filled prefix
      grows by two. */
  method WritePair(ctx: Context, x: seq<real>, prior: seq<real>, result: array<real>,
                   index: int, v: real, b: real, lo: Slot, hi: Slot)
    requires Admissible(ctx, x)
    requires |prior| == ResidualCount(Steps(x))
    requires ValidSlot(Steps(x), lo) && ValidSlot(Steps(x), hi)
    requires Index(Steps(x), lo) == index && Index(Steps(x), hi) == index + 1
    requires SlotValue(ctx, x, prior, lo) == PairSide(Lower, v, b)
    requires SlotValue(ctx, x, prior, hi) == PairSide(Upper, v, b)
    requires FilledUpTo(ctx, x, prior, result[..], index)
    modifies result
    ensures FilledUpTo(ctx, x, prior, result[..], index + 2)
  {
    ghost var before := result[..];
    SetBoundedConstraint(result, index, v, b);
    ExtendFilled(ctx, x, prior, before, result[..], index, lo, hi);
  }

  /** Writes the seven defect pairs of the transition from step i to i+1. */
  method WriteDefectPairs(ctx: Context, x: seq<real>, prior: seq<real>, result: array<real>, i: nat)
    requires Admissible(ctx, x)
    requires |prior| == ResidualCount(Steps(x))
    requires i + 1 < Steps(x)
    requires FilledUpTo(ctx, x, prior, result[..], 26 * i)
    modifies result
    ensures FilledUpTo(ctx, x, prior, result[..], 26 * i + 14)
  {
    var j := 0;
    while j < 7
      invariant 0 <= j <= 7
      invariant FilledUpTo(ctx, x, prior, result[..], 26 * i + 2 * j)
    {
      WritePair(ctx, x, prior, result, 2 * j + 26 * i, Defect(ctx, x, i, j), DefectTolerance,
                DefectSlot(i, j, Lower), DefectSlot(i, j, Upper));
      j := j + 1;
    }
  }

  /** The last step has no transition: its 14 defect slots keep the buffer's
      previous content, so leaving them alone already fills them. */
  lemma SkipLastDefectSlots(ctx: Context, x: seq<real>, prior: seq<real>, a: seq<real>)
    requires Admissible(ctx, x)
    requires |prior| == ResidualCount(Steps(x))
    requires Steps(x) >= 1
    requires FilledUpTo(ctx, x, prior, a, 26 * (Steps(x) - 1))
    ensures FilledUpTo(ctx, x, prior, a, 26 * (Steps(x) - 1) + 14)
  {
    var n := Steps(x);
    forall s | ValidSlot(n, s) && Index(n, s) < 26 * (n - 1) + 14
      ensures a[Index(n, s)] == SlotValue(ctx, x, prior, s)
    {
      if Index(n, s) >= 26 * (n - 1) {
        IndexInjective(n, s, Unwritten(Index(n, s) - 26 * (n - 1)));
      }
    }
  }

  /** Writes the six bound pairs of step i. */
  method WriteBoundPairs(ctx: Context, x: seq<real>, prior: seq<real>, result: array<real>, i: nat)
    requires Admissible(ctx, x)
    requires |prior| == ResidualCount(Steps(x))
    requires i < Steps(x)
    requires FilledUpTo(ctx, x, prior, result[..], 26 * i + 14)
    modifies result
    ensures FilledUpTo(ctx, x, prior, result[..], 26 * i + 26)
  {
    var q := 0;
    while q < 6
      invariant 0 <= q <= 6
      invariant FilledUpTo(ctx, x, prior, result[..], 26 * i + 14 + 2 * q)
    {
      WritePair(ctx, x, prior, result, 14 + 2 * q + 26 * i, Bounded(x, i, q), Limit(ctx.limits, q),
                BoundSlot(i, q, Lower), BoundSlot(i, q, Upper));
      q := q + 1;
    }
  }

  /** Fills the residual buffer the way the constraint callback does: step by
      step, the defect pairs of the transition (if there is one), then the six
      bound pairs, and finally the two anchor pairs. Every slot ends up
      holding its SlotValue, and every index of the result is some slot's. */
  method EvalConstraints(ctx: Context, x: seq<real>, prior: seq<real>) returns (r: seq<real>)
    requires Admissible(ctx, x)
    requires |prior| == ResidualCount(Steps(x))
    ensures |r| == |prior|
    ensures forall s | ValidSlot(Steps(x), s) :: r[Index(Steps(x), s)] == SlotValue(ctx, x, prior, s)
    ensures forall k | 0 <= k < |r| :: r[k] == SlotValue(ctx, x, prior, Classify(Steps(x), k))
  {
    var n := Steps(x);
    var result := new real[|prior|](k requires 0 <= k < |prior| => prior[k]);
    var i := 0;
    while i < n
      invariant 0 <= i <= n
      invariant FilledUpTo(ctx, x, prior, result[..], 26 * i)
    {
      if i < n - 1 {
        WriteDefectPairs(ctx, x, prior, result, i);
      } else {
        SkipLastDefectSlots(ctx, x, prior, result[..]);
      }
      WriteBoundPairs(ctx, x, prior, result, i);
      i := i + 1;
    }
    WriteAnchorPairs(ctx, x, prior, result);
    r := result[..];
    FilledComplete(ctx, x, prior, r);
  }

  /** Writes the two anchor pairs after the last step block. */
  method WriteAnchorPairs(ctx: Context, x: seq<real>, prior: seq<real>, result: array<real>)
    requires Admissible(ctx, x)
    requires |prior| == ResidualCount(Steps(x))
    requires FilledUpTo(ctx, x, prior, result[..], 26 * Steps(x))
    modifies result
    ensures FilledUpTo(ctx, x, prior, result[..], 26 * Steps(x) + 4)
  {
    var n := Steps(x);
    WritePair(ctx, x, prior, result, 0 + 26 * n, x[0], Anchor(ctx.limits, 0), AnchorSlot(0, Lower), AnchorSlot(0, Upper));
    WritePair(ctx, x, prior, result, 2 + 26 * n, x[1], Anchor(ctx.limits, 1), AnchorSlot(1, Lower), AnchorSlot(1, Upper));
  }

  /** A buffer filled up to its end holds every slot's value, read by slot
      or by index. */
  lemma FilledComplete(ctx: Context, x: seq<real>, prior: seq<real>, a: seq<real>)
    requires Admissible(ctx, x)
    requires |prior| == ResidualCount(Steps(x))
    requires FilledUpTo(ctx, x, prior, a, |prior|)
    ensures forall s | ValidSlot(Steps(x), s) :: a[Index(Steps(x), s)] == SlotValue(ctx, x, prior, s)
    ensures forall k | 0 <= k < |a| :: a[k] == SlotValue(ctx, x, prior, Classify(Steps(x), k))
  {
  }

  /** Every residual the evaluation writes is non-positive. */
  ghost predicate ResidualsFeasible(ctx: Context, x: seq<real>, prior: seq<real>)
    requires Admissible(ctx, x)
    requires |prior| == ResidualCount(Steps(x))
  {
    forall s | ValidSlot(Steps(x), s) && Written(s) :: SlotValue(ctx, x, prior, s) <= 0.0
  }

  /** Every transition's defect lies within the tolerance, componentwise. */
  ghost predicate DefectsWithinTolerance(ctx: Context, x: seq<real>)
  {
    forall i: nat, j: nat | i + 1 < Steps(x) && j < StateSize :: Abs(Defect(ctx, x, i, j)) <= DefectTolerance
  }

  /** Every step keeps theta, phi, xdot, zdot, thetadot and phidot within their bounds. */
  ghost predicate WithinLimits(ctx: Context, x: seq<real>)
  {
    forall i: nat, q: nat | i < Steps(x) && q < 6 :: Abs(Bounded(x, i, q)) <= Limit(ctx.limits, q)
  }

  /** What the two anchor pairs accept: |x[0]| <= ix[0] and |x[1]| <= iz[0]. */
  ghost predicate InsideAnchorBox(ctx: Context, x: seq<real>)
    requires Admissible(ctx, x)
  {
    Abs(x[0]) <= Anchor(ctx.limits, 0) && Abs(x[1]) <= Anchor(ctx.limits, 1)
  }

  /** The feasibility of the written residuals, read back into the
      trajectory's terms: all of them are non-positive exactly when every
      defect is within 0.01, every step respects its bounds, and the first
      step's x and z lie in the anchor box. The solver also constrains the
      last step's unwritten slots, whose buffer content this leaves open. */
  lemma FeasibleIff(ctx: Context, x: seq<real>, prior: seq<real>)
    requires Admissible(ctx, x)
    requires |prior| == ResidualCount(Steps(x))
    ensures ResidualsFeasible(ctx, x, prior)
            <==> DefectsWithinTolerance(ctx, x) && WithinLimits(ctx, x) && InsideAnchorBox(ctx, x)
  {
    var n := Steps(x);
    if ResidualsFeasible(ctx, x, prior) {
      forall i: nat, j: nat | i + 1 < n && j < StateSize
        ensures Abs(Defect(ctx, x, i, j)) <= DefectTolerance
      {
        assert SlotValue(ctx, x, prior, DefectSlot(i, j, Lower)) <= 0.0;
        assert SlotValue(ctx, x, prior, DefectSlot(i, j, Upper)) <= 0.0;
        assert PairFeasible(Defect(ctx, x, i, j), DefectTolerance);
      }
      forall i: nat, q: nat | i < n && q < 6
        ensures Abs(Bounded(x, i, q)) <= Limit(ctx.limits, q)
      {
        assert SlotValue(ctx, x, prior, BoundSlot(i, q, Lower)) <= 0.0;
        assert SlotValue(ctx, x, prior, BoundSlot(i, q, Upper)) <= 0.0;
        assert PairFeasible(Bounded(x, i, q), Limit(ctx.limits, q));
      }
      forall a: nat | a < 2
        ensures Abs(x[a]) <= Anchor(ctx.limits, a)
      {
        assert SlotValue(ctx, x, prior, AnchorSlot(a, Lower)) <= 0.0;
        assert SlotValue(ctx, x, prior, AnchorSlot(a, Upper)) <= 0.0;
        assert PairFeasible(x[a], Anchor(ctx.limits, a));
      }
      assert Abs(x[0]) <= Anchor(ctx.limits, 0);
      assert Abs(x[1]) <= Anchor(ctx.limits, 1);
    }
    if DefectsWithinTolerance(ctx, x) && WithinLimits(ctx, x) && InsideAnchorBox(ctx, x) {
      forall s | ValidSlot(n, s) && Written(s)
        ensures SlotValue(ctx, x, prior, s) <= 0.0
      {
        match s
        case DefectSlot(i, j, side) =>
          assert PairFeasible(Defect(ctx, x, i, j), DefectTolerance);
        case BoundSlot(i, q, side) =>
          assert PairFeasible(Bounded(x, i, q), Limit(ctx.limits, q));
        case AnchorSlot(a, side) =>
          assert PairFeasible(x[a], Anchor(ctx.limits, a));
      }
    }
  }

  /** The anchor pairs put the anchor where the bound goes, so they accept
      exactly the box -ix[0] <= x[0] <= ix[0] (and likewise for z): x[0] is
      held near zero, not near ix[0]. */
  lemma AnchorPairIsBox(ctx: Context, x: seq<real>, prior: seq<real>, a: nat)
    requires Admissible(ctx, x)
    requires |prior| == ResidualCount(Steps(x))
    requires a < 2
    ensures (SlotValue(ctx, x, prior, AnchorSlot(a, Lower)) <= 0.0 && SlotValue(ctx, x, prior, AnchorSlot(a, Upper)) <= 0.0)
            <==> -Anchor(ctx.limits, a) <= x[a] <= Anchor(ctx.limits, a)
  {
  }

  /** The six bound pairs of step i, in the order the callback writes them:
      theta against t_c, phi against p_c, xdot and zdot against v_c,
      thetadot against td_c and the elevator rate against pd_c, the pair for
      quantity q at 26*i + 14 + 2*q. */
  lemma BoundPairsAtStep(ctx: Context, x: seq<real>, prior: seq<real>, i: nat)
    requires Admissible(ctx, x)
    requires |prior| == ResidualCount(Steps(x))
    requires i < Steps(x)
    ensures forall q: nat, side | q < 6 :: Index(Steps(x), BoundSlot(i, q, side)) == 26 * i + 14 + 2 * q + SideOffset(side)
    ensures forall side :: SlotValue(ctx, x, prior, BoundSlot(i, 0, side)) == PairSide(side, x[8 * i + 2], ctx.limits.tc)
    ensures forall side :: SlotValue(ctx, x, prior, BoundSlot(i, 1, side)) == PairSide(side, x[8 * i + 3], ctx.limits.pc)
    ensures forall side :: SlotValue(ctx, x, prior, BoundSlot(i, 2, side)) == PairSide(side, x[8 * i + 4], ctx.limits.vc)
    ensures forall side :: SlotValue(ctx, x, prior, BoundSlot(i, 3, side)) == PairSide(side, x[8 * i + 5], ctx.limits.vc)
    ensures forall side :: SlotValue(ctx, x, prior, BoundSlot(i, 4, side)) == PairSide(side, x[8 * i + 6], ctx.limits.tdc)
    ensures forall side :: SlotValue(ctx, x, prior, BoundSlot(i, 5, side)) == PairSide(side, x[8 * i + 7], ctx.limits.pdc)
  {
  }

  /** The two anchor pairs after the last step block: x[0] against ix[0] at
      26*N, x[1] against iz[0] at 26*N + 2. */
  lemma AnchorPairsAtEnd(ctx: Context, x: seq<real>, prior: seq<real>)
    requires Admissible(ctx, x)
    requires |prior| == ResidualCount(Steps(x))
    ensures forall side :: Index(Steps(x), AnchorSlot(0, side)) == 26 * Steps(x) + SideOffset(side)
    ensures forall side :: Index(Steps(x), AnchorSlot(1, side)) == 26 * Steps(x) + 2 + SideOffset(side)
    ensures forall side :: SlotValue(ctx, x, prior, AnchorSlot(0, side)) == PairSide(side, x[0], ctx.limits.ix[0])
    ensures forall side :: SlotValue(ctx, x, prior, AnchorSlot(1, side)) == PairSide(side, x[1], ctx.limits.iz[0])
  {
  }

  /** With ix[0] = 5, the first step at x = -5 satisfies both x-anchor
      residuals although it lies 10 away from the anchor. */
  lemma AnchorAcceptsMirrorImage(ctx: Context, x: seq<real>, prior: seq<real>)
    requires Admissible(ctx, x)
    requires |prior| == ResidualCount(Steps(x))
    requires ctx.limits.ix[0] == 5.0 && x[0] == -5.0
    ensures SlotValue(ctx, x, prior, AnchorSlot(0, Lower)) <= 0.0
    ensures SlotValue(ctx, x, prior, AnchorSlot(0, Upper)) <= 0.0
    ensures Abs(x[0] - ctx.limits.ix[0]) == 10.0
  {
  }

  /** With a negative anchor no first-step position satisfies the x-anchor pair. */
  lemma NegativeAnchorInfeasible(ctx: Context, x: seq<real>, prior: seq<real>)
    requires Admissible(ctx, x)
    requires |prior| == ResidualCount(Steps(x))
    requires ctx.limits.ix[0] < 0.0
    ensures SlotValue(ctx, x, prior, AnchorSlot(0, Lower)) > 0.0 || SlotValue(ctx, x, prior, AnchorSlot(0, Upper)) > 0.0
  {
  }

  /** The anchor residual the code evidently intends: the offset of x[a]
      from its anchor, held within the tolerance 0.01 like the defects. */
  function IntendedAnchorResidual(ctx: Context, x: seq<real>, a: nat, side: Side): (r: real)
    requires Admissible(ctx, x) && a < 2
    ensures side == Lower ==> (r <= 0.0 <==> Anchor(ctx.limits, a) - DefectTolerance <= x[a])
    ensures side == Upper ==> (r <= 0.0 <==> x[a] <= Anchor(ctx.limits, a) + DefectTolerance)
  {
    PairSide(side, x[a] - Anchor(ctx.limits, a), DefectTolerance)
  }

  /** The intended anchor pair is feasible exactly when x[a] lies within 0.01
      of its anchor, whatever the anchor's sign. */
  lemma IntendedAnchorFeasibleIff(ctx: Context, x: seq<real>, a: nat)
    requires Admissible(ctx, x) && a < 2
    ensures (IntendedAnchorResidual(ctx, x, a, Lower) <= 0.0 && IntendedAnchorResidual(ctx, x, a, Upper) <= 0.0)
            <==> Abs(x[a] - Anchor(ctx.limits, a)) <= DefectTolerance
  {
    ghost var ok := PairFeasible(x[a] - Anchor(ctx.limits, a), DefectTolerance);
  }

  /** The aerodynamic model produces no acceleration at step i of x. */
  predicate Coasting(ctx: Context, x: seq<real>, i: nat)
    requires 8 * i + 8 <= |x|
  {
    ctx.aero(ctx.params, StateAt(x, i), InputAt(x, i)) == Accel(0.0, 0.0, 0.0)
  }

  /** The position reached from start after i steps of the given length. */
  function Advance(start: real, step: real, i: nat): real
  {
    if i == 0 then start else Advance(start, step, i - 1) + step
  }

  /** Component c of step i of a straight, unaccelerated glide: position
      advancing by h times the constant velocity (vx, vz) per step, constant
      attitude and elevator angle, zero pitch rate and zero elevator rate. */
  function GlideComponent(i: nat, c: nat, x0: real, z0: real, theta: real, phi: real,
                          vx: real, vz: real, h: real): real
    requires c < 8
  {
    match c
    case 0 => Advance(x0, h * vx, i)
    case 1 => Advance(z0, h * vz, i)
    case 2 => theta
    case 3 => phi
    case 4 => vx
    case 5 => vz
    case _ => 0.0
  }

  /** The decision vector of n steps of that glide. */
  function Glide(n: nat, x0: real, z0: real, theta: real, phi: real, vx: real, vz: real, h: real): (g: seq<real>)
    ensures |g| == 8 * n
  {
    if n == 0 then []
    else Glide(n - 1, x0, z0, theta, phi, vx, vz, h)
         + seq(8, c requires 0 <= c < 8 => GlideComponent(n - 1, c, x0, z0, theta, phi, vx, vz, h))
  }

  /** Slot c of step i of the glide vector. */
  lemma {:induction false} GlideAt(n: nat, x0: real, z0: real, theta: real, phi: real, vx: real, vz: real, h: real,
                                   i: nat, c: nat)
    requires i < n && c < 8
    ensures Glide(n, x0, z0, theta, phi, vx, vz, h)[8 * i + c] == GlideComponent(i, c, x0, z0, theta, phi, vx, vz, h)
  {
    if i < n - 1 {
      GlideAt(n - 1, x0, z0, theta, phi, vx, vz, h, i, c);
    }
  }

  /** The rate of change of component c along the glide. */
  function GlideRate(c: nat, vx: real, vz: real): real
  {
    if c == 0 then vx else if c == 1 then vz else 0.0
  }

  /** Component c of the glide's derivative at step i, when the
      aerodynamics produce no acceleration there: the velocity for the
      positions, zero for everything else. */
  lemma GlideDerivative(ctx: Context, n: nat, x0: real, z0: real, theta: real, phi: real,
                        vx: real, vz: real, i: nat, c: nat)
    requires i < n && c < StateSize
    requires Coasting(ctx, Glide(n, x0, z0, theta, phi, vx, vz, ctx.params.h), i)
    ensures Derivative(ctx.aero, ctx.params, StateAt(Glide(n, x0, z0, theta, phi, vx, vz, ctx.params.h), i),
                       InputAt(Glide(n, x0, z0, theta, phi, vx, vz, ctx.params.h), i))[c]
            == GlideRate(c, vx, vz)
  {
    var h := ctx.params.h;
    GlideAt(n, x0, z0, theta, phi, vx, vz, h, i, 7);
    if 4 > c {
      GlideAt(n, x0, z0, theta, phi, vx, vz, h, i, c + 4);
    }
  }

  /** An exact discretisation of a straight glide has zero trapezoidal
      defect at every transition, provided the aerodynamic model produces no
      acceleration along it; in particular it meets every defect constraint. */
  lemma GlideHasZeroDefect(ctx: Context, n: nat, x0: real, z0: real,
                           theta: real, phi: real, vx: real, vz: real)
    requires forall i: nat | i < n ::
      Coasting(ctx, Glide(n, x0, z0, theta, phi, vx, vz, ctx.params.h), i)
    ensures forall i: nat, j: nat | i + 1 < n && j < StateSize ::
      Defect(ctx, Glide(n, x0, z0, theta, phi, vx, vz, ctx.params.h), i, j) == 0.0
    ensures DefectsWithinTolerance(ctx, Glide(n, x0, z0, theta, phi, vx, vz, ctx.params.h))
  {
    var h := ctx.params.h;
    var g := Glide(n, x0, z0, theta, phi, vx, vz, h);
    forall i: nat, j: nat | i + 1 < n && j < StateSize
      ensures Defect(ctx, g, i, j) == 0.0
    {
      GlideDefectAt(ctx, n, x0, z0, theta, phi, vx, vz, i, j);
    }
  }

  /** One component of one transition of the glide has zero defect. */
  lemma GlideDefectAt(ctx: Context, n: nat, x0: real, z0: real, theta: real, phi: real,
                      vx: real, vz: real, i: nat, j: nat)
    requires i + 1 < n && j < StateSize
    requires Coasting(ctx, Glide(n, x0, z0, theta, phi, vx, vz, ctx.params.h), i)
    requires Coasting(ctx, Glide(n, x0, z0, theta, phi, vx, vz, ctx.params.h), i + 1)
    ensures Defect(ctx, Glide(n, x0, z0, theta, phi, vx, vz, ctx.params.h), i, j) == 0.0
  {
    var h := ctx.params.h;
    var g := Glide(n, x0, z0, theta, phi, vx, vz, h);
    GlideDerivative(ctx, n, x0, z0, theta, phi, vx, vz, i, j);
    GlideDerivative(ctx, n, x0, z0, theta, phi, vx, vz, i + 1, j);
    GlideSlotStep(n, x0, z0, theta, phi, vx, vz, h, i, j);
    DefectZeroWhenLinear(ctx, g, i, j, GlideRate(j, vx, vz));
  }

  /** In the glide vector, slot j of step i+1 is slot j of step i advanced
      by h times the component's rate. */
  lemma GlideSlotStep(n: nat, x0: real, z0: real, theta: real, phi: real, vx: real, vz: real, h: real,
                      i: nat, j: nat)
    requires i + 1 < n && j < StateSize
    ensures Glide(n, x0, z0, theta, phi, vx, vz, h)[8 * (i + 1) + j]
            == Glide(n, x0, z0, theta, phi, vx, vz, h)[8 * i + j] + h * GlideRate(j, vx, vz)
  {
    GlideAt(n, x0, z0, theta, phi, vx, vz, h, i, j);
    GlideAt(n, x0, z0, theta, phi, vx, vz, h, i + 1, j);
    GlideStep(i, j, x0, z0, theta, phi, vx, vz, h);
  }

  /** A transition whose component j advances by h*e while the derivative's
      component j is e at both ends has zero defect in component j. */
  lemma DefectZeroWhenLinear(ctx: Context, x: seq<real>, i: nat, j: nat, e: real)
    requires 8 * i + 16 <= |x| && j < StateSize
    requires Derivative(ctx.aero, ctx.params, StateAt(x, i), InputAt(x, i))[j] == e
    requires Derivative(ctx.aero, ctx.params, StateAt(x, i + 1), InputAt(x, i + 1))[j] == e
    requires x[8 * (i + 1) + j] == x[8 * i + j] + ctx.params.h * e
    ensures Defect(ctx, x, i, j) == 0.0
  {
    TrapezoidExact(x[8 * i + j], x[8 * (i + 1) + j], e, ctx.params.h);
  }

  /** From one step of the glide to the next, component c advances by h
      times its constant rate of change. */
  lemma GlideStep(i: nat, c: nat, x0: real, z0: real, theta: real, phi: real, vx: real, vz: real, h: real)
    requires c < StateSize
    ensures GlideComponent(i + 1, c, x0, z0, theta, phi, vx, vz, h)
            == GlideComponent(i, c, x0, z0, theta, phi, vx, vz, h) + h * GlideRate(c, vx, vz)
  {
  }

  /** The trapezoidal rule is exact on a linear segment: when b = a + h*e
      the defect a - b + (h/2)(e + e) vanishes. */
  lemma TrapezoidExact(a: real, b: real, e: real, h: real)
    requires b == a + h * e
    ensures a - b + h / 2.0 * (e + e) == 0.0
  {
  }

  /** Reads of the decision vector stay inside the N whole steps: two vectors
      that agree on their first 8*N slots yield the same residual in every
      slot, whatever follows. */
  lemma SlotValueReadsWholeSteps(ctx: Context, x: seq<real>, y: seq<real>, prior: seq<real>, s: Slot)
    requires Admissible(ctx, x) && Admissible(ctx, y)
    requires Steps(x) == Steps(y) >= 1
    requires x[..8 * Steps(x)] == y[..8 * Steps(y)]
    requires |prior| == ResidualCount(Steps(x))
    requires ValidSlot(Steps(x), s)
    ensures SlotValue(ctx, x, prior, s) == SlotValue(ctx, y, prior, s)
  {
    var n := Steps(x);
    forall k | 0 <= k < 8 * n
      ensures x[k] == y[k]
    {
      assert x[k] == x[..8 * n][k];
      assert y[k] == y[..8 * n][k];
    }
    match s
    case DefectSlot(i, j, side) =>
      DefectReadsSteps(ctx, x, y, i, j);
    case BoundSlot(i, q, side) =>
    case AnchorSlot(a, side) =>
    case Unwritten(o) =>
  }

  /** The defect of the transition from step i reads only steps i and i+1. */
  lemma DefectReadsSteps(ctx: Context, x: seq<real>, y: seq<real>, i: nat, j: nat)
    requires 8 * i + 16 <= |x| && 8 * i + 16 <= |y| && j < StateSize
    requires forall k | 8 * i <= k < 8 * i + 16 :: x[k] == y[k]
    ensures Defect(ctx, x, i, j) == Defect(ctx, y, i, j)
  {
    assert StateAt(x, i) == StateAt(y, i);
    assert StateAt(x, i + 1) == StateAt(y, i + 1);
  }
}
