/** The flat-plate glider's equations of motion, with the aerodynamics kept
    abstract. The state is [x, z, theta, phi, xdot, zdot, thetadot] and the
    single input is the elevator rate phidot; the time derivative is
    [xdot, zdot, thetadot, phidot, xddot, zddot, thetaddot]. The first four
    components are exact pass-throughs; the three accelerations come from the
    flat-plate force and moment model, which this module takes as a parameter. */
module Dynamics {

  /** Number of state components per step. */
  const StateSize: nat := 7

  /** Physical parameters of one optimisation run: lever arms (wing to CG,
      pivot to elevator, CG to pivot), surface areas, mass, moment of
      inertia, timestep, the 7x7 state-cost matrix and the input-cost weight. */
  datatype Params = Params(
    wingArm: real, elevatorArm: real, pivotArm: real,
    wingArea: real, elevatorArea: real,
    mass: real, inertia: real,
    h: real,
    q: seq<seq<real>>, r: real)

  /** Translational and angular accelerations produced by the aerodynamic
      forces and gravity. */
  datatype Accel = Accel(xdd: real, zdd: real, thetadd: real)

  /** The flat-plate force and moment model: given the parameters, a state and
      the elevator rate, the accelerations it produces. */
  type AeroModel = (Params, seq<real>, real) -> Accel

  /** The time derivative of state s under input u. */
  function Derivative(aero: AeroModel, p: Params, s: seq<real>, u: real): (d: seq<real>)
    requires |s| == StateSize
    ensures |d| == StateSize
    ensures d[0] == s[4] && d[1] == s[5] && d[2] == s[6] && d[3] == u
    ensures d[4] == aero(p, s, u).xdd && d[5] == aero(p, s, u).zdd && d[6] == aero(p, s, u).thetadd
  {
    var a := aero(p, s, u);
    [s[4], s[5], s[6], u, a.xdd, a.zdd, a.thetadd]
  }

  /** The kinematic half of the derivative does not depend on the aerodynamic
      model nor on position and attitude: two calls whose states agree on the
      velocities and whose inputs agree yield the same first four components,
      whatever the aerodynamics. */
  lemma KinematicsIndependentOfAero(a1: AeroModel, a2: AeroModel, p1: Params, p2: Params,
                                     s1: seq<real>, s2: seq<real>, u: real)
    requires |s1| == StateSize && |s2| == StateSize
    requires s1[4..] == s2[4..]
    ensures Derivative(a1, p1, s1, u)[..4] == Derivative(a2, p2, s2, u)[..4]
  {
    assert s1[4] == s1[4..][0] == s2[4..][0] == s2[4];
    assert s1[5] == s1[4..][1] == s2[4..][1] == s2[5];
    assert s1[6] == s1[4..][2] == s2[4..][2] == s2[6];
  }
}
