/** The objective the solver minimises: a quadratic running cost over states
    and inputs, summed over the steps and scaled by the timestep, plus a
    penalty of 1e6 per unit of distance between the first step's x and z and
    their anchors. */
module Cost {
  import opened Encoding
  import opened Dynamics
  import opened Collocation

  /** Weight on the anchor penalty. */
  const AnchorPenalty: real := 1000000.0

  /** A 7x7 weight matrix. */
  predicate IsWeightMatrix(q: seq<seq<real>>)
  {
    |q| == StateSize && forall r | 0 <= r < |q| :: |q[r]| == StateSize
  }

  /** A weight matrix whose off-diagonal entries are all zero. */
  predicate IsDiagonal(q: seq<seq<real>>)
    requires IsWeightMatrix(q)
  {
    forall j, k | 0 <= j < StateSize && 0 <= k < StateSize && j != k :: q[j][k] == 0.0
  }

  /** Sum over k < m of q[j][k] * s[k]: the first m terms of row j of q
      applied to s. For a diagonal q only the term k = j survives. */
  function RowDot(q: seq<seq<real>>, s: seq<real>, j: nat, m: nat): (r: real)
    requires IsWeightMatrix(q) && |s| == StateSize && j < StateSize && m <= StateSize
    ensures IsDiagonal(q) ==> r == (if j < m then q[j][j] * s[j] else 0.0)
  {
    if m == 0 then 0.0 else RowDot(q, s, j, m - 1) + q[j][m - 1] * s[m - 1]
  }

  /** Sum over j < m of q[j][j] * s[j]^2: the weighted sum of squares. */
  function DiagonalForm(q: seq<seq<real>>, s: seq<real>, m: nat): real
    requires IsWeightMatrix(q) && |s| == StateSize && m <= StateSize
  {
    if m == 0 then 0.0 else DiagonalForm(q, s, m - 1) + q[m - 1][m - 1] * (s[m - 1] * s[m - 1])
  }

  /** Sum over j < m of s[j] * (q s)[j]: the first m rows of s^T q s. For a
      diagonal q it is the weighted sum of squares. */
  function QuadForm(q: seq<seq<real>>, s: seq<real>, m: nat): (r: real)
    requires IsWeightMatrix(q) && |s| == StateSize && m <= StateSize
    ensures IsDiagonal(q) ==> r == DiagonalForm(q, s, m)
  {
    if m == 0 then 0.0
    else
      var row := RowDot(q, s, m - 1, StateSize);
      assert IsDiagonal(q) ==> s[m - 1] * row == q[m - 1][m - 1] * (s[m - 1] * s[m - 1]);
      QuadForm(q, s, m - 1) + s[m - 1] * row
  }

  /** s^T q s >= 0 for every state s. */
  ghost predicate PositiveSemidefinite(q: seq<seq<real>>)
    requires IsWeightMatrix(q)
  {
    forall s: seq<real> | |s| == StateSize :: QuadForm(q, s, StateSize) >= 0.0
  }

  /** A weighted sum of squares with non-negative weights is non-negative. */
  lemma {:induction false} DiagonalFormNonnegative(q: seq<seq<real>>, s: seq<real>, m: nat)
    requires IsWeightMatrix(q) && |s| == StateSize && m <= StateSize
    requires forall j | 0 <= j < StateSize :: q[j][j] >= 0.0
    ensures DiagonalForm(q, s, m) >= 0.0
  {
    if m > 0 {
      DiagonalFormNonnegative(q, s, m - 1);
      assert s[m - 1] * s[m - 1] >= 0.0;
      assert q[m - 1][m - 1] * (s[m - 1] * s[m - 1]) >= 0.0;
    }
  }

  /** A diagonal weight matrix with non-negative diagonal is positive
      semidefinite, so it meets the hypothesis of the non-negativity results. */
  lemma DiagonalWeightsPositiveSemidefinite(q: seq<seq<real>>)
    requires IsWeightMatrix(q) && IsDiagonal(q)
    requires forall j | 0 <= j < StateSize :: q[j][j] >= 0.0
    ensures PositiveSemidefinite(q)
  {
    forall s: seq<real> | |s| == StateSize
      ensures QuadForm(q, s, StateSize) >= 0.0
    {
      DiagonalFormNonnegative(q, s, StateSize);
    }
  }

  /** The running cost of step i: s_i^T Q s_i + u_i * R * u_i. It is
      non-negative when Q is positive semidefinite and R >= 0. */
  function StageCost(p: Params, x: seq<real>, i: nat): (c: real)
    requires IsWeightMatrix(p.q) && 8 * i + 8 <= |x|
    ensures PositiveSemidefinite(p.q) && p.r >= 0.0 ==> c >= 0.0
  {
    var u := InputAt(x, i);
    assert u * p.r * u == p.r * (u * u);
    assert u * u >= 0.0;
    assert PositiveSemidefinite(p.q) ==> QuadForm(p.q, StateAt(x, i), StateSize) >= 0.0;
    QuadForm(p.q, StateAt(x, i), StateSize) + u * p.r * u
  }

  /** Sum of the stage costs of steps 0 .. m-1; under the same weights it is
      non-negative. */
  function RunningCost(p: Params, x: seq<real>, m: nat): (c: real)
    requires IsWeightMatrix(p.q) && 8 * m <= |x|
    ensures PositiveSemidefinite(p.q) && p.r >= 0.0 ==> c >= 0.0
  {
    if m == 0 then 0.0 else RunningCost(p, x, m - 1) + StageCost(p, x, m - 1)
  }

  /** The anchor penalty term: 1e6 * (|x[0] - ix[0]| + |x[1] - iz[0]|). */
  function AnchorDistance(c: Limits, x: seq<real>): (d: real)
    requires |x| >= 2 && |c.ix| >= 1 && |c.iz| >= 1
    ensures d >= 0.0
    ensures d == 0.0 <==> x[0] == c.ix[0] && x[1] == c.iz[0]
  {
    AnchorPenalty * (Abs(x[0] - c.ix[0]) + Abs(x[1] - c.iz[0]))
  }

  /** The objective: the timestep times the summed stage costs over the
      whole steps, plus the anchor penalty. The penalty never lowers the
      cost, and it vanishes exactly at the anchor. */
  function Objective(p: Params, c: Limits, x: seq<real>): (r: real)
    requires IsWeightMatrix(p.q) && |x| >= 2 && |c.ix| >= 1 && |c.iz| >= 1
    ensures r >= RunningCost(p, x, Steps(x)) * p.h
    ensures r == RunningCost(p, x, Steps(x)) * p.h <==> x[0] == c.ix[0] && x[1] == c.iz[0]
  {
    RunningCost(p, x, Steps(x)) * p.h + AnchorDistance(c, x)
  }

  /** With a positive semidefinite Q, R >= 0 and a non-negative timestep the objective is at
      least the anchor penalty, and so never negative. */
  lemma ObjectiveAtLeastPenalty(p: Params, c: Limits, x: seq<real>)
    requires IsWeightMatrix(p.q) && |x| >= 2 && |c.ix| >= 1 && |c.iz| >= 1
    requires PositiveSemidefinite(p.q) && p.r >= 0.0 && p.h >= 0.0
    ensures Objective(p, c, x) >= AnchorDistance(c, x) >= 0.0
  {
    assert RunningCost(p, x, Steps(x)) >= 0.0;
    assert RunningCost(p, x, Steps(x)) * p.h >= 0.0;
  }

  /** The running cost of the first m steps depends only on the first 8*m
      slots of the decision vector. */
  lemma {:induction false} RunningCostReadsPrefix(p: Params, x: seq<real>, y: seq<real>, m: nat)
    requires IsWeightMatrix(p.q) && 8 * m <= |x| && 8 * m <= |y|
    requires x[..8 * m] == y[..8 * m]
    ensures RunningCost(p, x, m) == RunningCost(p, y, m)
  {
    if m > 0 {
      assert x[..8 * (m - 1)] == x[..8 * m][..8 * (m - 1)];
      assert y[..8 * (m - 1)] == y[..8 * m][..8 * (m - 1)];
      RunningCostReadsPrefix(p, x, y, m - 1);
      StageCostReadsStep(p, x, y, m - 1);
    }
  }

  /** The stage cost of step i reads only the step's own eight slots. */
  lemma StageCostReadsStep(p: Params, x: seq<real>, y: seq<real>, i: nat)
    requires IsWeightMatrix(p.q) && 8 * i + 8 <= |x| && 8 * i + 8 <= |y|
    requires x[..8 * i + 8] == y[..8 * i + 8]
    ensures StageCost(p, x, i) == StageCost(p, y, i)
  {
    assert StateAt(x, i) == x[..8 * i + 8][8 * i .. 8 * i + 7];
    assert StateAt(y, i) == y[..8 * i + 8][8 * i .. 8 * i + 7];
    assert InputAt(x, i) == x[..8 * i + 8][8 * i + 7];
    assert InputAt(y, i) == y[..8 * i + 8][8 * i + 7];
  }
}
