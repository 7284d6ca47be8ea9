/** `AnalyticFunctionTriplet` (src/analytic.old.ts): checks a caller's
    f, fPrime and fInverse against literal (x, y) checkpoints, in order,
    and throws at the first disagreement. */
module Analytic {
  import opened Outcomes
  import opened Numeric

  /** Tolerance of the value and derivative checks, 10^-4. */
  const CheckTolerance: real := 0.0001

  /** Step of the forward difference: the check tolerance squared, 10^-8. */
  const TangentStep: real := 0.00000001

  /** The tangent the derivative is checked against:
      (f(x + step) - f(x)) / step, probing x + step first. */
  function ForwardDifference(f: Fn, x: real): (r: Result<real>)
    ensures r.Ok? <==> f(x + TangentStep).Ok? && f(x).Ok?
    ensures r.Ok? ==> r.value * TangentStep == f(x + TangentStep).value - f(x).value
  {
    var ahead :- f(x + TangentStep);
    var here :- f(x);
    Ok((ahead - here) / TangentStep)
  }

  /** The three properties a checkpoint (x, y) must have, stated directly:
      f(x) is strictly within 10^-4 of y, fPrime(x) strictly within 10^-4
      of the forward difference at x, and fInverse(y) strictly within the
      default 10^-11 of x. */
  ghost predicate Agrees(f: Fn, fPrime: Fn, fInverse: Fn, x: real, y: real) {
    f(x).Ok? && Abs(f(x).value - y) < CheckTolerance
    && ForwardDifference(f, x).Ok? && fPrime(x).Ok?
    && Abs(fPrime(x).value - ForwardDifference(f, x).value) < CheckTolerance
    && fInverse(y).Ok? && Abs(fInverse(y).value - x) < DefaultTolerance
  }

  /** One iteration of the loop: the checkpoint at index i must be a pair;
      then the value, the derivative and the inverse are checked, in that
      order. */
  function CheckPoint(f: Fn, fPrime: Fn, fInverse: Fn, p: seq<real>, i: nat): (r: Outcome)
    ensures |p| != 2 ==> r == Fail(NotAPoint(i))
    ensures r.Pass? <==> |p| == 2 && Agrees(f, fPrime, fInverse, p[0], p[1])
    ensures |p| == 2 && f(p[0]).Ok? && Abs(f(p[0]).value - p[1]) >= CheckTolerance ==>
              r == Fail(Mismatch(i, Value))
    ensures |p| == 2 && f(p[0]).Ok? && Abs(f(p[0]).value - p[1]) < CheckTolerance
            && ForwardDifference(f, p[0]).Ok? && fPrime(p[0]).Ok?
            && Abs(fPrime(p[0]).value - ForwardDifference(f, p[0]).value) >= CheckTolerance ==>
              r == Fail(Mismatch(i, Derivative))
    ensures |p| == 2 && f(p[0]).Ok? && Abs(f(p[0]).value - p[1]) < CheckTolerance
            && ForwardDifference(f, p[0]).Ok? && fPrime(p[0]).Ok?
            && Abs(fPrime(p[0]).value - ForwardDifference(f, p[0]).value) < CheckTolerance
            && fInverse(p[1]).Ok? && Abs(fInverse(p[1]).value - p[0]) >= DefaultTolerance ==>
              r == Fail(Mismatch(i, Inverse))
  {
    if |p| != 2 then Fail(NotAPoint(i))
    else
      var x, y := p[0], p[1];
      match f(x)
      case Err(e) => Fail(e)
      case Ok(fx) =>
        if !ApproxEquals(fx, y, CheckTolerance) then Fail(Mismatch(i, Value))
        else
          match ForwardDifference(f, x)
          case Err(e) => Fail(e)
          case Ok(tangent) =>
            match fPrime(x)
            case Err(e) => Fail(e)
            case Ok(fPrimeX) =>
              if !ApproxEquals(fPrimeX, tangent, CheckTolerance) then Fail(Mismatch(i, Derivative))
              else
                match fInverse(y)
                case Err(e) => Fail(e)
                case Ok(fInverseY) =>
                  if !ApproxEquals(fInverseY, x, DefaultTolerance) then Fail(Mismatch(i, Inverse))
                  else Pass
  }

  /** The loop from index i on: the first failing checkpoint decides the
      outcome, and the checkpoints before it all passed. */
  function CheckPointsFrom(f: Fn, fPrime: Fn, fInverse: Fn, points: seq<seq<real>>, i: nat): (r: Outcome)
    requires i <= |points|
    ensures r.Pass? <==>
              forall j :: i <= j < |points| ==> CheckPoint(f, fPrime, fInverse, points[j], j).Pass?
    ensures r.Fail? ==>
              exists j :: i <= j < |points| && CheckPoint(f, fPrime, fInverse, points[j], j) == r
                && forall k :: i <= k < j ==> CheckPoint(f, fPrime, fInverse, points[k], k).Pass?
    decreases |points| - i
  {
    if i == |points| then Pass
    else
      match CheckPoint(f, fPrime, fInverse, points[i], i)
      case Fail(e) => Fail(e)
      case Pass => CheckPointsFrom(f, fPrime, fInverse, points, i + 1)
  }

  /** The whole validation the constructor performs. */
  function Validation(f: Fn, fPrime: Fn, fInverse: Fn, points: seq<seq<real>>): (r: Outcome)
    ensures |points| == 0 ==> r == Fail(NoCheckPoints)
    ensures r.Pass? <==>
              |points| > 0 && forall j :: 0 <= j < |points| ==>
                |points[j]| == 2 && Agrees(f, fPrime, fInverse, points[j][0], points[j][1])
  {
    if |points| == 0 then Fail(NoCheckPoints)
    else CheckPointsFrom(f, fPrime, fInverse, points, 0)
  }

  /** The constructor's `for` loop over the checkpoints. */
  method ValidateCheckPoints(f: Fn, fPrime: Fn, fInverse: Fn, points: seq<seq<real>>)
    returns (r: Outcome)
    ensures r == Validation(f, fPrime, fInverse, points)
  {
    var n := |points|;
    if n == 0 {
      return Fail(NoCheckPoints);
    }
    for i := 0 to n
      invariant CheckPointsFrom(f, fPrime, fInverse, points, 0)
                == CheckPointsFrom(f, fPrime, fInverse, points, i)
    {
      var outcome := CheckPoint(f, fPrime, fInverse, points[i], i);
      if outcome.Fail? {
        return outcome;
      }
    }
    r := Pass;
  }

  /** The validated triple. A constructor that throws leaves no object
      behind, so construction is the static method `Create`, which returns
      the new object or the error. */
  class AnalyticFunctionTriplet {
    var f: Fn
    var fPrime: Fn
    var fInverse: Fn

    constructor Init(f: Fn, fPrime: Fn, fInverse: Fn)
      ensures this.f == f && this.fPrime == fPrime && this.fInverse == fInverse
    {
      this.f := f;
      this.fPrime := fPrime;
      this.fInverse := fInverse;
    }

    /** `new AnalyticFunctionTriplet(f, fPrime, fInverse, checkPoints)`. */
    static method Create(f: Fn, fPrime: Fn, fInverse: Fn, checkPoints: seq<seq<real>>)
      returns (r: Result<AnalyticFunctionTriplet>)
      ensures r.Ok? <==> Validation(f, fPrime, fInverse, checkPoints).Pass?
      ensures r.Err? ==> Validation(f, fPrime, fInverse, checkPoints) == Fail(r.error)
      ensures r.Ok? ==>
                fresh(r.value) && r.value.f == f
                && r.value.fPrime == fPrime && r.value.fInverse == fInverse
    {
      var outcome := ValidateCheckPoints(f, fPrime, fInverse, checkPoints);
      if outcome.Fail? {
        return Err(outcome.error);
      }
      var t := new AnalyticFunctionTriplet.Init(f, fPrime, fInverse);
      r := Ok(t);
    }
  }
}
