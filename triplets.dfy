/** `FunctionTriplet` (src/function_triplet.ts): a function bundled with
    its derivative and inverse over a finite domain [d1, d2], with the
    codomain [c1, c2] derived from the end values. Nothing changes a triplet
    once built, so it is a value: the constructor becomes `NewFunctionTriplet`,
    which either throws or returns the triplet. */
module Triplets {
  import opened Outcomes
  import opened Numeric

  function Min(a: real, b: real): real { if a < b then a else b }
  function Max(a: real, b: real): real { if a < b then b else a }

  /** The fields the constructor assigns. `rawF`, `rawFPrime` and
      `rawFInverse` are what the guarded closures call: the caller's f, and
      the supplied or generated derivative and inverse. */
  datatype FunctionTriplet = FunctionTriplet(
    d1: real, d2: real,
    c1: real, c2: real,
    rawF: Fn, rawFPrime: Fn, rawFInverse: Fn)
  {
    /** What every constructed triplet satisfies. */
    ghost predicate Valid() {
      d1 < d2 && rawF(d1).Ok? && rawF(d2).Ok?
      && c1 == Min(rawF(d1).value, rawF(d2).value)
      && c2 == Max(rawF(d1).value, rawF(d2).value)
      && c1 < c2
    }

    /** `assertIsInDomain(x)`: both ends belong to the domain. */
    function AssertIsInDomain(x: real): (r: Outcome)
      ensures r.Fail? <==> x < d1 || x > d2
      ensures r.Fail? ==> r.error == OutsideDomain(x, d1, d2)
    {
      if x < d1 || x > d2 then Fail(OutsideDomain(x, d1, d2)) else Pass
    }

    /** `assertIsInCodomain(y)`: both ends belong to the codomain. */
    function AssertIsInCodomain(y: real): (r: Outcome)
      ensures r.Fail? <==> y < c1 || y > c2
      ensures r.Fail? ==> r.error == OutsideCodomain(y, c1, c2)
    {
      if y < c1 || y > c2 then Fail(OutsideCodomain(y, c1, c2)) else Pass
    }

    /** The guarded `f`. */
    function F(x: real): (r: Result<real>)
      ensures x < d1 || x > d2 ==> r == Err(OutsideDomain(x, d1, d2))
      ensures d1 <= x <= d2 ==> r == rawF(x)
    {
      match AssertIsInDomain(x)
      case Fail(e) => Err(e)
      case Pass => rawF(x)
    }

    /** The guarded `fPrime`: same domain guard as `f`. */
    function FPrime(x: real): (r: Result<real>)
      ensures x < d1 || x > d2 ==> r == Err(OutsideDomain(x, d1, d2))
      ensures d1 <= x <= d2 ==> r == rawFPrime(x)
    {
      match AssertIsInDomain(x)
      case Fail(e) => Err(e)
      case Pass => rawFPrime(x)
    }

    /** The guarded `fInverse`: guarded by the codomain. */
    function FInverse(y: real): (r: Result<real>)
      ensures y < c1 || y > c2 ==> r == Err(OutsideCodomain(y, c1, c2))
      ensures c1 <= y <= c2 ==> r == rawFInverse(y)
    {
      match AssertIsInCodomain(y)
      case Fail(e) => Err(e)
      case Pass => rawFInverse(y)
    }

    /** `newF` of `shiftRight`: the guarded f, translated by delta. */
    function Shifted(delta: real): (g: Fn)
      ensures forall x :: g(x) == F(x - delta)
    {
      (x: real) => F(x - delta)
    }

    /** `shiftRight(delta)`: a new triplet over the translated domain whose
        derivative and inverse are regenerated from the shifted function,
        whatever this triplet was given. */
    function ShiftRight(delta: real): (r: Result<FunctionTriplet>)
      ensures Valid() ==> r.Ok? && r.value.Valid()
      ensures Valid() ==>
                r.value.d1 == d1 + delta && r.value.d2 == d2 + delta
                && r.value.c1 == c1 && r.value.c2 == c2
      ensures Valid() ==> forall x :: (r.value.F(x) ==
                if x < d1 + delta || x > d2 + delta then Err(OutsideDomain(x, d1 + delta, d2 + delta))
                else F(x - delta))
      ensures Valid() ==> forall x :: (r.value.FPrime(x) ==
                if x < d1 + delta || x > d2 + delta then Err(OutsideDomain(x, d1 + delta, d2 + delta))
                else CentralDifference(Shifted(delta), x))
      ensures Valid() ==> forall y :: (r.value.FInverse(y) ==
                if y < c1 || y > c2 then Err(OutsideCodomain(y, c1, c2))
                else BisectionInverse(Shifted(delta), d1 + delta, d2 + delta, y))
    {
      var newF := Shifted(delta);
      var newD1 := d1 + delta;
      var newD2 := d2 + delta;
      var newFInverse :- GenerateInverse(newF, newD1, newD2);
      NewFunctionTriplet(Some(newF), Some(GenerateDerivative(newF)), Some(newFInverse), newD1, newD2)
    }
  }

  /** The constructor `new FunctionTriplet(f, fPrime, fInverse, d1, d2)`:
      an absent fPrime or fInverse is generated numerically from f over
      [d1, d2]. */
  function NewFunctionTriplet(f: Option<Fn>, fPrime: Option<Fn>, fInverse: Option<Fn>,
                              d1: real, d2: real): (r: Result<FunctionTriplet>)
    ensures f.None? ==> r == Err(MissingFunction)
    ensures f.Some? && d1 >= d2 ==> r == Err(UnorderedDomain(d1, d2))
    ensures (f.Some? && d1 < d2 && f.value(d1).Ok? && f.value(d2).Ok?
             && f.value(d1).value == f.value(d2).value) ==> r == Err(NotStrictlyMonotonous)
    ensures r.Ok? <==>
              f.Some? && d1 < d2 && f.value(d1).Ok? && f.value(d2).Ok?
              && f.value(d1).value != f.value(d2).value
    ensures r.Ok? ==>
              r.value.Valid() && r.value.d1 == d1 && r.value.d2 == d2 && r.value.rawF == f.value
    ensures r.Ok? ==> forall x :: (r.value.FPrime(x) ==
              if x < d1 || x > d2 then Err(OutsideDomain(x, d1, d2))
              else if fPrime.Some? then fPrime.value(x)
              else CentralDifference(f.value, x))
    ensures r.Ok? ==> forall y :: (r.value.FInverse(y) ==
              if y < r.value.c1 || y > r.value.c2 then Err(OutsideCodomain(y, r.value.c1, r.value.c2))
              else if fInverse.Some? then fInverse.value(y)
              else BisectionInverse(f.value, d1, d2, y))
  {
    if f.None? then Err(MissingFunction)
    else if d1 >= d2 then Err(UnorderedDomain(d1, d2))
    else
      var g: Fn := f.value;
      match g(d1)
      case Err(e) => Err(e)
      case Ok(c1) =>
        match g(d2)
        case Err(e) => Err(e)
        case Ok(c2) =>
          if c1 == c2 then Err(NotStrictlyMonotonous)
          else
            var derivative := if fPrime.Some? then fPrime.value else GenerateDerivative(g);
            match (if fInverse.Some? then Ok(fInverse.value) else GenerateInverse(g, d1, d2))
            case Err(e) => Err(e)
            case Ok(inverse) =>
              Ok(FunctionTriplet(d1, d2, if c1 < c2 then c1 else c2, if c1 < c2 then c2 else c1,
                                 g, derivative, inverse))
  }

  /** A triplet built without an inverse answers y, when it answers at all,
      with a point of the domain whose value is within the default
      tolerance of y. */
  lemma GeneratedInverseSound(f: Fn, fPrime: Option<Fn>, d1: real, d2: real, y: real)
    requires NewFunctionTriplet(Some(f), fPrime, None, d1, d2).Ok?
    ensures var t := NewFunctionTriplet(Some(f), fPrime, None, d1, d2).value;
            t.FInverse(y).Ok? ==>
              t.c1 <= y <= t.c2 && t.d1 <= t.FInverse(y).value <= t.d2
              && t.F(t.FInverse(y).value).Ok?
              && Abs(t.F(t.FInverse(y).value).value - y) < DefaultTolerance
  {
    var t := NewFunctionTriplet(Some(f), fPrime, None, d1, d2).value;
    if t.FInverse(y).Ok? {
      assert t.FInverse(y) == BisectionInverse(f, d1, d2, y);
    }
  }

  /** A shifted triplet's derivative probes the original's guarded f on
      both sides: at its right end the probe at d2 + h is outside the
      original domain, and at its left end (domain wider than h) so is the
      probe at d1 - h (once the probe at d1 + h has succeeded). */
  lemma ShiftedDerivativeFailsAtEnds(t: FunctionTriplet, delta: real)
    requires t.Valid()
    ensures t.ShiftRight(delta).Ok?
    ensures t.ShiftRight(delta).value.FPrime(t.d2 + delta)
            == Err(OutsideDomain(t.d2 + Infinitesimal, t.d1, t.d2))
    ensures t.d2 - t.d1 >= Infinitesimal && t.rawF(t.d1 + Infinitesimal).Ok? ==>
              t.ShiftRight(delta).value.FPrime(t.d1 + delta)
              == Err(OutsideDomain(t.d1 - Infinitesimal, t.d1, t.d2))
    ensures t.ShiftRight(delta).value.FPrime(t.d1 + delta).Err?
  {
    var s := t.ShiftRight(delta).value;
    var g := t.Shifted(delta);
    assert s.FPrime(t.d2 + delta) == CentralDifference(g, t.d2 + delta);
    assert g(t.d2 + delta + Infinitesimal) == t.F(t.d2 + Infinitesimal);
    assert s.FPrime(t.d1 + delta) == CentralDifference(g, t.d1 + delta);
    assert g(t.d1 + delta + Infinitesimal) == t.F(t.d1 + Infinitesimal);
    assert g(t.d1 + delta - Infinitesimal) == t.F(t.d1 - Infinitesimal);
  }
}
