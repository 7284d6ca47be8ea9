/** The numeric kernel (src/utils.ts): tolerance comparison, the
    strict-positivity guard, the central-difference derivative and the
    bisection inverse. Numbers are exact reals. */
module Numeric {
  import opened Outcomes

  /** Default tolerance of `approxEquals`, 10^-11. */
  const DefaultTolerance: real := 0.00000000001

  /** Step of the central difference, 10^-10. */
  const Infinitesimal: real := 0.0000000001

  /** Number of halvings after which the bisection gives up. The source
      loops without bound; this cap is the model's only addition. */
  const MaxBisections: nat := 2000

  function Abs(x: real): real {
    if x < 0.0 then -x else x
  }

  /** m lies on the closed segment between a and b, whichever is smaller. */
  predicate Between(m: real, a: real, b: real) {
    (a <= m <= b) || (b <= m <= a)
  }

  /** `approxEquals(a, b, t)`: a strict comparison within tolerance t. */
  function ApproxEquals(a: real, b: real, t: real): (r: bool)
    ensures r <==> Abs(a - b) < t
    ensures r <==> Abs(b - a) < t
    ensures t <= 0.0 ==> !r
  {
    a < b + t && a > b - t
  }

  /** `assertStrictlyPositive(n, label)`: throws, naming the label and the
      value, exactly when n is not above zero. */
  function AssertStrictlyPositive(n: real, name: string): (r: Outcome)
    ensures r.Fail? <==> n <= 0.0
    ensures r.Fail? ==> r.error == NotStrictlyPositive(name, n)
  {
    if n <= 0.0 then Fail(NotStrictlyPositive(name, n)) else Pass
  }

  /** The closure of `generateDerivative(f)` applied to x: probes f at
      x + h and then at x - h, and divides their difference by 2h. */
  function CentralDifference(f: Fn, x: real): (r: Result<real>)
    ensures f(x + Infinitesimal).Err? ==> r == Err(f(x + Infinitesimal).error)
    ensures f(x + Infinitesimal).Ok? && f(x - Infinitesimal).Err? ==>
              r == Err(f(x - Infinitesimal).error)
    ensures r.Ok? <==> f(x + Infinitesimal).Ok? && f(x - Infinitesimal).Ok?
    ensures r.Ok? ==>
              r.value * (2.0 * Infinitesimal)
              == f(x + Infinitesimal).value - f(x - Infinitesimal).value
  {
    var above :- f(x + Infinitesimal);
    var below :- f(x - Infinitesimal);
    Ok((above - below) / (2.0 * Infinitesimal))
  }

  /** `generateDerivative(f)`: no domain check of its own; every failure
      comes from f. */
  function GenerateDerivative(f: Fn): (g: Fn)
    ensures forall x :: g(x) == CentralDifference(f, x)
  {
    (x: real) => CentralDifference(f, x)
  }

  /** Over exact reals the central difference of an affine function is its
      slope, at every point. */
  lemma DerivativeOfAffine(a: real, b: real, x: real)
    ensures GenerateDerivative((t: real) => Ok(a * t + b))(x) == Ok(a)
  {
    var f: Fn := (t: real) => Ok(a * t + b);
    var h := Infinitesimal;
    calc {
      (f(x + h).value - f(x - h).value) / (2.0 * h);
      ((a * (x + h) + b) - (a * (x - h) + b)) / (2.0 * h);
      { assert (a * (x + h) + b) - (a * (x - h) + b) == a * (2.0 * h); }
      (a * (2.0 * h)) / (2.0 * h);
      a;
    }
  }

  /** f is defined at both ends and y lies between their values, the value
      at l1 being the lower. */
  ghost predicate Brackets(f: Fn, y: real, l1: real, l2: real) {
    f(l1).Ok? && f(l2).Ok? && f(l1).value <= y <= f(l2).value
  }

  /** What one pass of the bisection loop does. */
  datatype Probe = Found(m: real) | Narrowed(l1: real, l2: real) | Failed(error: Error)

  /** One pass of the loop: evaluate f at the midpoint; return it when its
      value is within the default tolerance of y, otherwise move the end
      on y's side to the midpoint. */
  function Bisect(f: Fn, y: real, l1: real, l2: real): (p: Probe)
    ensures p.Found? ==>
              p.m == (l1 + l2) / 2.0 && f(p.m).Ok? && Abs(f(p.m).value - y) < DefaultTolerance
    ensures p.Narrowed? ==>
              (p.l1 == l1 && p.l2 == (l1 + l2) / 2.0) || (p.l1 == (l1 + l2) / 2.0 && p.l2 == l2)
    ensures p.Narrowed? ==>
              Between(p.l1, l1, l2) && Between(p.l2, l1, l2)
              && p.l2 - p.l1 == (l2 - l1) / 2.0
    ensures p.Narrowed? && Brackets(f, y, l1, l2) ==> Brackets(f, y, p.l1, p.l2)
    ensures p.Failed? <==> f((l1 + l2) / 2.0).Err?
    ensures p.Failed? ==> p.error == f((l1 + l2) / 2.0).error
    ensures f((l1 + l2) / 2.0).Ok? && Abs(f((l1 + l2) / 2.0).value - y) < DefaultTolerance ==>
              p == Found((l1 + l2) / 2.0)
    ensures p.Narrowed? ==>
              if y < f((l1 + l2) / 2.0).value then p == Narrowed(l1, (l1 + l2) / 2.0)
              else p == Narrowed((l1 + l2) / 2.0, l2)
  {
    var m := (l1 + l2) / 2.0;
    match f(m)
    case Err(e) => Failed(e)
    case Ok(fm) =>
      if ApproxEquals(fm, y, DefaultTolerance) then Found(m)
      else if y < fm then Narrowed(l1, m)
      else Narrowed(m, l2)
  }

  /** f increases strictly along the segment from l1 towards l2 (whichever
      way that points on the axis). */
  ghost predicate RisesTowards(f: Fn, l1: real, l2: real) {
    forall a, b ::
      Between(a, l1, l2) && Between(b, l1, l2) && Abs(a - l1) < Abs(b - l1) ==>
        f(a).Ok? && f(b).Ok? && f(a).value < f(b).value
  }

  /** When f is monotone on the bracket, a preimage x of y that lies in the
      bracket stays in it after a pass of the loop. */
  lemma NarrowingKeepsPreimage(f: Fn, y: real, l1: real, l2: real, x: real)
    requires RisesTowards(f, l1, l2)
    requires Between(x, l1, l2) && f(x) == Ok(y)
    requires Bisect(f, y, l1, l2).Narrowed?
    ensures Between(x, Bisect(f, y, l1, l2).l1, Bisect(f, y, l1, l2).l2)
  {
    var m := (l1 + l2) / 2.0;
    assert Between(m, l1, l2);
    var fm := f(m).value;
    if y < fm {
      // x beyond m (away from l1) would give f(x) > f(m) > y
      assert Between(x, l1, m);
    } else {
      // here f(m) < y, so x cannot lie before m
      assert fm != y;
      assert Between(x, m, l2);
    }
  }

  /** The loop of the closure returned by `generateInverse`, with at most
      `fuel` passes left. */
  function Search(f: Fn, y: real, l1: real, l2: real, fuel: nat): (r: Result<real>)
    ensures r.Ok? ==>
              Between(r.value, l1, l2) && f(r.value).Ok?
              && Abs(f(r.value).value - y) < DefaultTolerance
    decreases fuel
  {
    if fuel == 0 then Err(NotConverged)
    else
      match Bisect(f, y, l1, l2)
      case Found(m) => Ok(m)
      case Failed(e) => Err(e)
      case Narrowed(a, b) => Search(f, y, a, b, fuel - 1)
  }

  /** The initial bracket: {l1, l2} = {xStart, xEnd}, with l1 the end whose
      value is the smaller. */
  function Orient(f: Fn, xStart: real, xEnd: real): (r: Result<(real, real)>)
    ensures r.Ok? <==> f(xStart).Ok? && f(xEnd).Ok?
    ensures r.Ok? ==>
              ((r.value.0 == xStart && r.value.1 == xEnd) || (r.value.0 == xEnd && r.value.1 == xStart))
              && f(r.value.0).value <= f(r.value.1).value
    ensures r.Ok? && f(xStart).value != f(xEnd).value ==> f(r.value.0).value < f(r.value.1).value
  {
    var a :- f(xStart);
    var b :- f(xEnd);
    if a < b then Ok((xStart, xEnd)) else Ok((xEnd, xStart))
  }

  /** The closure returned by `generateInverse(f, xStart, xEnd)`, applied
      to y. */
  function BisectionInverse(f: Fn, xStart: real, xEnd: real, y: real): (r: Result<real>)
    ensures r.Ok? ==>
              Between(r.value, xStart, xEnd) && f(r.value).Ok?
              && Abs(f(r.value).value - y) < DefaultTolerance
  {
    var bracket :- Orient(f, xStart, xEnd);
    Search(f, y, bracket.0, bracket.1, MaxBisections)
  }

  /** When y lies between the end values, the initial bracket holds it. */
  lemma InitialBracket(f: Fn, xStart: real, xEnd: real, y: real)
    requires f(xStart).Ok? && f(xEnd).Ok?
    requires Between(y, f(xStart).value, f(xEnd).value)
    ensures Orient(f, xStart, xEnd).Ok?
    ensures Brackets(f, y, Orient(f, xStart, xEnd).value.0, Orient(f, xStart, xEnd).value.1)
  {
  }

  /** `generateInverse(f, xStart, xEnd)`: the interval and the end values
      are checked once, when the inverse is generated. */
  function GenerateInverse(f: Fn, xStart: real, xEnd: real): (r: Result<Fn>)
    ensures xEnd <= xStart ==> r == Err(InvalidDomainBounds(xStart, xEnd))
    ensures xStart < xEnd && f(xStart).Ok? && f(xEnd).Ok? && f(xStart).value == f(xEnd).value ==>
              r == Err(EqualEndValues)
    ensures r.Ok? <==>
              xStart < xEnd && f(xStart).Ok? && f(xEnd).Ok? && f(xStart).value != f(xEnd).value
    ensures r.Ok? ==> forall y :: r.value(y) == BisectionInverse(f, xStart, xEnd, y)
    ensures r.Ok? ==> forall y :: r.value(y).Ok? ==>
              xStart <= r.value(y).value <= xEnd && f(r.value(y).value).Ok?
              && Abs(f(r.value(y).value).value - y) < DefaultTolerance
  {
    if xEnd <= xStart then Err(InvalidDomainBounds(xStart, xEnd))
    else
      var a :- f(xStart);
      var b :- f(xEnd);
      if a == b then Err(EqualEndValues)
      else Ok((y: real) => BisectionInverse(f, xStart, xEnd, y))
  }

  /** The closure's `do ... while (true)` loop as it runs: the bracket
      [l1, l2] is narrowed in place, one pass of `Bisect` at a time, until
      the midpoint's value is close enough to y. Only a generated inverse
      runs it, so xStart < xEnd has been checked. */
  method InverseAt(f: Fn, xStart: real, xEnd: real, y: real) returns (r: Result<real>)
    requires xStart < xEnd
    ensures r == BisectionInverse(f, xStart, xEnd, y)
    ensures r.Ok? ==>
              xStart <= r.value <= xEnd && f(r.value).Ok?
              && Abs(f(r.value).value - y) < DefaultTolerance
  {
    var bracket :- Orient(f, xStart, xEnd);
    var l1, l2 := bracket.0, bracket.1;
    var n := 0;
    while n < MaxBisections
      invariant 0 <= n <= MaxBisections
      invariant Search(f, y, l1, l2, MaxBisections - n) == BisectionInverse(f, xStart, xEnd, y)
      invariant xStart <= l1 <= xEnd && xStart <= l2 <= xEnd
    {
      match Bisect(f, y, l1, l2)
      case Found(m) => return Ok(m);
      case Failed(e) => return Err(e);
      case Narrowed(a, b) => l1, l2 := a, b;
      n := n + 1;
    }
    r := Err(NotConverged);
  }
}
