/** The optimisation driver around the external solver: storing the initial
    guess, refusing an unusable one, and turning the solver's decision vector
    back into six per-channel sequences (x, z, theta, phi, xdot, zdot; the
    pitch rate and the input channel are dropped). The solver itself is
    opaque: the driver hands it the guess and receives a vector of the same
    length, which the functions here take as the parameter `solved`. */
module Driver {
  import opened Encoding
  import opened Layout
  import opened Collocation

  /** The IEEE 754 remainder of a by b, as the C library's remainder()
      computes it for integral arguments: a - m*b where m is the integer
      nearest a/b, ties going to the even m. It is zero exactly when b
      divides a. */
  function IeeeRemainder(a: int, b: int): (r: int)
    requires b > 0
    ensures r == a % b || r == a % b - b
    ensures -b <= 2 * r <= b
    ensures r == 0 <==> a % b == 0
  {
    var q, m := a / b, a % b;
    if 2 * m < b then m
    else if 2 * m > b then m - b
    else if q % 2 == 0 then m
    else m - b
  }

  /** The optimiser's state: the stored guess and the step count N. N keeps
      whatever value it had (possibly never set) until a load succeeds. */
  datatype Optimizer = Optimizer(guess: seq<real>, n: int)

  /** The stored guess holds exactly N whole steps. */
  predicate Consistent(d: Optimizer)
  {
    |d.guess| == 8 * d.n
  }

  /** Stores v as the guess, whatever its length; reports success, and sets
      N to |v|/8, only when |v| is a multiple of 8. A failed load leaves N
      as it was. */
  function LoadInitialGuess(d: Optimizer, v: seq<real>): (r: (Optimizer, bool))
    ensures r.0.guess == v
    ensures r.1 <==> |v| % 8 == 0
    ensures r.1 ==> Consistent(r.0)
    ensures !r.1 ==> r.0.n == d.n
  {
    if IeeeRemainder(|v|, 8) != 0 then (Optimizer(v, d.n), false)
    else (Optimizer(v, |v| / 8), true)
  }

  /** The trajectory handed back: six parallel per-step sequences. */
  datatype ControlState = ControlState(x: seq<real>, z: seq<real>, theta: seq<real>,
                                       phi: seq<real>, vx: seq<real>, vz: seq<real>)

  /** The trajectory with no steps. */
  const NoTrajectory: ControlState := ControlState([], [], [], [], [], [])

  /** Channel c of the first n steps of a decision vector: v[c], v[c + 8], ... */
  function Channel(v: seq<real>, n: nat, c: nat): (ch: seq<real>)
    requires c < 8 && (n == 0 || c + 8 * (n - 1) < |v|)
    ensures |ch| == n
    ensures forall i | 0 <= i < n :: ch[i] == v[c + 8 * i]
  {
    seq(n, i requires 0 <= i < n => v[c + 8 * i])
  }

  /** The six trajectory channels of the first n steps of a decision vector:
      n entries each, step i taking x, z, theta, phi, xdot and zdot from
      slots 8*i to 8*i + 5; the pitch rate and the input are dropped. */
  function Deinterleave(v: seq<real>, n: nat): (t: ControlState)
    requires n == 0 || 5 + 8 * (n - 1) < |v|
    ensures HasSteps(t, n)
    ensures forall i | 0 <= i < n ::
              t.x[i] == v[8 * i] && t.z[i] == v[1 + 8 * i] && t.theta[i] == v[2 + 8 * i]
              && t.phi[i] == v[3 + 8 * i] && t.vx[i] == v[4 + 8 * i] && t.vz[i] == v[5 + 8 * i]
  {
    ControlState(Channel(v, n, 0), Channel(v, n, 1), Channel(v, n, 2),
                 Channel(v, n, 3), Channel(v, n, 4), Channel(v, n, 5))
  }

  /** The conversion loop: for each step, appends its six trajectory values
      to the six sequences. */
  method ConvertToControlState(v: seq<real>, n: nat) returns (t: ControlState)
    requires n == 0 || 5 + 8 * (n - 1) < |v|
    ensures t == Deinterleave(v, n)
  {
    t := NoTrajectory;
    var i := 0;
    while i < n
      invariant 0 <= i <= n
      invariant t == Deinterleave(v, i)
    {
      t := ControlState(t.x + [v[0 + i * 8]], t.z + [v[1 + i * 8]], t.theta + [v[2 + i * 8]],
                        t.phi + [v[3 + i * 8]], t.vx + [v[4 + i * 8]], t.vz + [v[5 + i * 8]]);
      i := i + 1;
    }
  }

  /** The length of every channel of a trajectory is n. */
  predicate HasSteps(t: ControlState, n: nat)
  {
    |t.x| == n && |t.z| == n && |t.theta| == n && |t.phi| == n && |t.vx| == n && |t.vz| == n
  }

  /** Slot c of step i of the decision vector that a trajectory, a pitch-rate
      sequence w and an input sequence u describe. */
  function Component(t: ControlState, w: seq<real>, u: seq<real>, n: nat, i: nat, c: nat): real
    requires HasSteps(t, n) && |w| == n && |u| == n && i < n && c < 8
  {
    match c
    case 0 => t.x[i]
    case 1 => t.z[i]
    case 2 => t.theta[i]
    case 3 => t.phi[i]
    case 4 => t.vx[i]
    case 5 => t.vz[i]
    case 6 => w[i]
    case _ => u[i]
  }

  /** Packs a trajectory, with the pitch rates and inputs it drops, back into
      a decision vector of 8*n slots. */
  function Interleave(t: ControlState, w: seq<real>, u: seq<real>, n: nat): (v: seq<real>)
    requires HasSteps(t, n) && |w| == n && |u| == n
    ensures |v| == 8 * n
  {
    seq(8 * n, k requires 0 <= k < 8 * n => Component(t, w, u, n, k / 8, k % 8))
  }

  /** Slot c of step i of the packed vector. */
  lemma InterleaveAt(t: ControlState, w: seq<real>, u: seq<real>, n: nat, i: nat, c: nat)
    requires HasSteps(t, n) && |w| == n && |u| == n && i < n && c < 8
    ensures Interleave(t, w, u, n)[c + 8 * i] == Component(t, w, u, n, i, c)
  {
    assert (c + 8 * i) / 8 == i && (c + 8 * i) % 8 == c;
  }

  /** Unpacking a packed trajectory gives the trajectory back. */
  lemma DeinterleaveInterleave(t: ControlState, w: seq<real>, u: seq<real>, n: nat)
    requires HasSteps(t, n) && |w| == n && |u| == n
    ensures Deinterleave(Interleave(t, w, u, n), n) == t
  {
    var v := Interleave(t, w, u, n);
    ChannelOfInterleave(t, w, u, n, 0);
    ChannelOfInterleave(t, w, u, n, 1);
    ChannelOfInterleave(t, w, u, n, 2);
    ChannelOfInterleave(t, w, u, n, 3);
    ChannelOfInterleave(t, w, u, n, 4);
    ChannelOfInterleave(t, w, u, n, 5);
  }

  /** Channel c of a packed vector lists Component c of every step. */
  lemma ChannelOfInterleave(t: ControlState, w: seq<real>, u: seq<real>, n: nat, c: nat)
    requires HasSteps(t, n) && |w| == n && |u| == n && c < 8
    ensures Channel(Interleave(t, w, u, n), n, c) == seq(n, i requires 0 <= i < n => Component(t, w, u, n, i, c))
  {
    forall i | 0 <= i < n
      ensures Interleave(t, w, u, n)[c + 8 * i] == Component(t, w, u, n, i, c)
    {
      InterleaveAt(t, w, u, n, i, c);
    }
  }

  /** Packing the trajectory of a vector of n whole steps together with its
      pitch-rate and input channels gives the vector back: the conversion
      loses exactly channels 6 and 7. */
  lemma InterleaveDeinterleave(v: seq<real>, n: nat)
    requires |v| == 8 * n
    ensures Interleave(Deinterleave(v, n), Channel(v, n, 6), Channel(v, n, 7), n) == v
  {
    var t, w, u := Deinterleave(v, n), Channel(v, n, 6), Channel(v, n, 7);
    var p := Interleave(t, w, u, n);
    forall k | 0 <= k < 8 * n
      ensures p[k] == v[k]
    {
      var i, c := k / 8, k % 8;
      InterleaveAt(t, w, u, n, i, c);
      assert k == c + 8 * i;
    }
  }

  /** What a run of the driver as written comes to. The constraint callback
      sizes its loop by the length of the guess, but the residual array the
      driver registers has 4 + 26*N slots. The callback and the objective
      read x[0] and x[1] and the first entries of the two anchor sequences,
      which the parameter loader accepts empty, and the diagnostic loop after the solve and the
      conversion loop read 8*N slots of the guess and of the solver's
      vector. Where any of these overruns its buffer the outcome names the
      overrun instead of a trajectory; an overrun of the residual array is
      named first. */
  datatype Outcome = Returned(trajectory: ControlState) | WritesPastResiduals | ReadsPastBuffer

  /** The run as the driver performs it: an empty guess gives the empty
      trajectory, and any other guess goes to the solver with N as it
      stands, whether or not the last load succeeded. */
  function OptimizeAsWritten(d: Optimizer, c: Limits, solved: seq<real>): (r: Outcome)
    requires |solved| == |d.guess|
    ensures r.WritesPastResiduals? <==> |d.guess| > 0 && ResidualCount(Steps(d.guess)) > 4 + 26 * d.n
    ensures r.ReadsPastBuffer? <==>
              |d.guess| > 0 && ResidualCount(Steps(d.guess)) <= 4 + 26 * d.n
              && (|d.guess| < 2 || |c.ix| == 0 || |c.iz| == 0 || 8 * d.n > |d.guess|)
    ensures r.Returned? && |d.guess| > 0 ==>
              |d.guess| >= 2 && |c.ix| >= 1 && |c.iz| >= 1
              && d.n == Steps(d.guess) && HasSteps(r.trajectory, d.n)
              && forall i | 0 <= i < d.n ::
                   r.trajectory.x[i] == solved[8 * i] && r.trajectory.z[i] == solved[1 + 8 * i]
                   && r.trajectory.theta[i] == solved[2 + 8 * i] && r.trajectory.phi[i] == solved[3 + 8 * i]
                   && r.trajectory.vx[i] == solved[4 + 8 * i] && r.trajectory.vz[i] == solved[5 + 8 * i]
  {
    if |d.guess| == 0 then Returned(NoTrajectory)
    else if ResidualCount(Steps(d.guess)) > 4 + 26 * d.n then WritesPastResiduals
    else if |solved| < 2 || |c.ix| == 0 || |c.iz| == 0 || 8 * d.n > |solved| then ReadsPastBuffer
    else Returned(Deinterleave(solved, d.n))
  }

  /** The evidently intended run: a guess that is empty or does not hold
      exactly N whole steps is refused with the empty trajectory; any other
      is converted step by step. */
  function Optimize(d: Optimizer, solved: seq<real>): (r: ControlState)
    requires |solved| == |d.guess|
    ensures r == NoTrajectory <==> |d.guess| == 0 || !Consistent(d)
    ensures |d.guess| > 0 && Consistent(d) ==>
              HasSteps(r, d.n) && forall i | 0 <= i < d.n ::
                r.x[i] == solved[8 * i] && r.z[i] == solved[1 + 8 * i]
                && r.theta[i] == solved[2 + 8 * i] && r.phi[i] == solved[3 + 8 * i]
                && r.vx[i] == solved[4 + 8 * i] && r.vz[i] == solved[5 + 8 * i]
  {
    if |d.guess| == 0 || !Consistent(d) then NoTrajectory
    else
      var t := Deinterleave(solved, d.n);
      assert |t.x| == d.n > 0;
      t
  }

  /** A vector of n zeros. */
  function Zeros(n: nat): (z: seq<real>)
    ensures |z| == n
  {
    seq(n, _ => 0.0)
  }

  /** A failed load after a successful one leaves a non-empty guess with
      a stale N, and the driver as written goes ahead with it. After one
      step is loaded, a guess of 3 values keeps N = 1: the constraint
      callback writes 4 of the 30 registered residuals and the loops after
      the solve read slots 3 to 7 of a 3-slot vector. A guess of 17 values
      instead makes the callback lay out two steps, so its last anchor
      residual lands at index 55 of the 30-slot array. */
  lemma StaleStepCountAfterFailedLoad(d0: Optimizer, c: Limits)
    ensures var (d1, ok1) := LoadInitialGuess(d0, Zeros(8));
            var (d2, ok2) := LoadInitialGuess(d1, Zeros(3));
            ok1 && !ok2 && d2.n == 1 && |d2.guess| == 3
            && ResidualCount(d2.n) == 30 && ResidualCount(Steps(d2.guess)) == 4
            && OptimizeAsWritten(d2, c, Zeros(3)) == ReadsPastBuffer
    ensures var (d1, ok1) := LoadInitialGuess(d0, Zeros(8));
            var (d2, ok2) := LoadInitialGuess(d1, Zeros(17));
            ok1 && !ok2 && d2.n == 1 && ResidualCount(d2.n) == 30 && Steps(d2.guess) == 2
            && Index(Steps(d2.guess), AnchorSlot(1, Upper)) == 55
            && OptimizeAsWritten(d2, c, Zeros(17)) == WritesPastResiduals
  {
    var d1 := LoadInitialGuess(d0, Zeros(8)).0;
    assert Steps(LoadInitialGuess(d1, Zeros(17)).0.guess) == 2;
  }

  /** An empty load succeeds with N = 0; a following load of one value
      fails and keeps N = 0. The guess is then non-empty, so the driver as
      written goes ahead, and the constraint callback and the objective read
      x[1] of a one-slot vector. */
  lemma OneSlotGuessAfterEmptyLoad(d0: Optimizer, c: Limits, a: real, b: real)
    ensures var (d1, ok1) := LoadInitialGuess(d0, []);
            var (d2, ok2) := LoadInitialGuess(d1, [a]);
            ok1 && !ok2 && d2 == Optimizer([a], 0)
            && OptimizeAsWritten(d2, c, [b]) == ReadsPastBuffer
  {
  }

  /** A failed load of 12 values after one step keeps N = 1. The guess then
      has one whole step, so the run as written goes through and converts
      the first step of the solver's vector, where the corrected run
      refuses. */
  lemma StaleStepConvertedAfterFailedLoad(d0: Optimizer, c: Limits, solved: seq<real>)
    requires |solved| == 12 && |c.ix| >= 1 && |c.iz| >= 1
    ensures var (d1, ok1) := LoadInitialGuess(d0, Zeros(8));
            var (d2, ok2) := LoadInitialGuess(d1, Zeros(12));
            ok1 && !ok2 && d2.n == 1 && !Consistent(d2)
            && Optimize(d2, solved) == NoTrajectory
            && OptimizeAsWritten(d2, c, solved).Returned?
            && OptimizeAsWritten(d2, c, solved).trajectory.x == [solved[0]]
  {
    var d2 := LoadInitialGuess(LoadInitialGuess(d0, Zeros(8)).0, Zeros(12)).0;
    assert Steps(d2.guess) == 1;
  }

  /** The corrected run after any load: the empty trajectory exactly when the
      loaded vector is empty or not a whole number of steps, and otherwise
      |v|/8 steps, channel c of step i being slot c + 8*i of the solver's
      vector. */
  lemma OptimizeAfterLoad(d: Optimizer, v: seq<real>, solved: seq<real>)
    requires |solved| == |v|
    ensures var r := Optimize(LoadInitialGuess(d, v).0, solved);
            (r == NoTrajectory <==> |v| == 0 || |v| % 8 != 0)
            && (|v| % 8 == 0 ==> HasSteps(r, |v| / 8))
            && (|v| % 8 == 0 ==> forall i | 0 <= i < |v| / 8 ::
                  r.x[i] == solved[8 * i] && r.z[i] == solved[1 + 8 * i]
                  && r.theta[i] == solved[2 + 8 * i] && r.phi[i] == solved[3 + 8 * i]
                  && r.vx[i] == solved[4 + 8 * i] && r.vz[i] == solved[5 + 8 * i])
  {
    var (d1, ok) := LoadInitialGuess(d, v);
    if |v| % 8 != 0 {
      assert !Consistent(d1);
    } else if |v| > 0 {
      assert |Optimize(d1, solved).x| == |v| / 8 > 0;
    }
  }

  /** Wherever the stored guess is consistent the corrected run and the run
      as written agree, unless an anchor sequence is empty and the run as
      written reads past it; and the residual array the driver registers,
      4 + 26*N slots, is exactly the one the constraint callback fills. */
  lemma OptimizeAgreesWhenConsistent(d: Optimizer, c: Limits, solved: seq<real>)
    requires |solved| == |d.guess| && Consistent(d)
    ensures OptimizeAsWritten(d, c, solved)
              == if |d.guess| > 0 && (|c.ix| == 0 || |c.iz| == 0) then ReadsPastBuffer
                 else Returned(Optimize(d, solved))
    ensures d.n >= 0 && 4 + 26 * d.n == ResidualCount(Steps(d.guess))
  {
  }
}
