/** The two-sided "fc(x) <= 0" encoding. The solver accepts only inequality
    constraints of the form residual <= 0, so every box bound and every
    equality-with-slack becomes a pair of residuals: the lower one -v - b and
    the upper one v - b. Both are non-positive exactly when -b <= v <= b. */
module Encoding {

  /** Absolute value on reals. */
  function Abs(r: real): (a: real)
    ensures a >= 0.0
    ensures a == r || a == -r
    ensures a >= r && a >= -r
  {
    if r < 0.0 then -r else r
  }

  /** Which half of a residual pair a slot holds: the lower half is stored
      first, at the even offset, the upper half second. */
  datatype Side = Lower | Upper

  /** Offset of a side within its pair. */
  function SideOffset(side: Side): (k: nat)
    ensures k < 2
    ensures k == 0 <==> side == Lower
  {
    match side
    case Lower => 0
    case Upper => 1
  }

  /** The side stored at a given offset parity. */
  function SideAt(parity: int): (side: Side)
    requires 0 <= parity < 2
    ensures SideOffset(side) == parity
  {
    if parity == 0 then Lower else Upper
  }

  /** The residual that one side of the pair for value v and bound b holds.
      The lower residual is non-positive exactly when -b <= v, the upper one
      exactly when v <= b. */
  function PairSide(side: Side, v: real, b: real): (p: real)
    ensures side == Lower ==> (p <= 0.0 <==> -b <= v)
    ensures side == Upper ==> (p <= 0.0 <==> v <= b)
  {
    match side
    case Lower => -v - b
    case Upper => v - b
  }

  /** Both halves of the pair for (v, b), lower first. The pair is feasible
      (both halves <= 0) exactly when v lies in the box [-b, b], and the pair
      determines v and b: its half-difference is v and minus its half-sum is b. */
  function BoundedPair(v: real, b: real): (p: (real, real))
    ensures p.0 == PairSide(Lower, v, b) && p.1 == PairSide(Upper, v, b)
    ensures (p.0 <= 0.0 && p.1 <= 0.0) <==> -b <= v <= b
    ensures (p.0 <= 0.0 && p.1 <= 0.0) <==> Abs(v) <= b
    ensures (p.1 - p.0) / 2.0 == v && -(p.0 + p.1) / 2.0 == b
  {
    (PairSide(Lower, v, b), PairSide(Upper, v, b))
  }

  /** True when both halves of the pair for (v, b) are non-positive, which
      is the case exactly when |v| <= b. */
  predicate PairFeasible(v: real, b: real): (ok: bool)
    ensures ok <==> Abs(v) <= b
  {
    PairSide(Lower, v, b) <= 0.0 && PairSide(Upper, v, b) <= 0.0
  }

  /** Writes the pair for (v, b) into result[index] and result[index + 1]
      and leaves every other slot of the buffer as it was. */
  method SetBoundedConstraint(result: array<real>, index: int, v: real, b: real)
    requires 0 <= index && index + 1 < result.Length
    modifies result
    ensures result[index] == PairSide(Lower, v, b)
    ensures result[index + 1] == PairSide(Upper, v, b)
    ensures forall k | 0 <= k < result.Length && k != index && k != index + 1 :: result[k] == old(result[k])
  {
    result[index] := -v - b;
    result[index + 1] := v - b;
  }
}
