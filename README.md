# refractr numeric core in Dafny

refractr draws the cross-section of a lens by sampling a few curves. The part
with real logic is a small numeric-function library behind the drawing, and
this project models it over exact reals:

- **Numeric kernel** (`numeric.dfy`, module `Numeric`). This covers the
  tolerance comparison `approxEquals` and the guard `assertStrictlyPositive`.
  It also covers the central-difference derivative generator and the bisection
  inverse generator. The loop of the bisection closure is the method
  `InverseAt`, proved equal to the recursive specification `Search`.
- **Function triplet** (`triplets.dfy`, module `Triplets`). A function is
  bundled with its derivative and inverse over a finite domain `[d1, d2]`,
  with the codomain `[c1, c2]` derived from the end values. Every call is
  guarded by the domain or the codomain. `shiftRight` builds a translated
  copy. A triplet never changes after construction, so it is a datatype. The
  throwing constructor is the function `NewFunctionTriplet`, which returns
  either the triplet or the error.
- **Checkpoint validator** (`analytic.dfy`, module `Analytic`). The class
  `AnalyticFunctionTriplet` checks value, forward-difference derivative and
  inverse at each `(x, y)` checkpoint, in order, and fails at the first
  disagreement.
- **Circular-arc curves** (`curves.dfy`, module `Curves`). These are the
  semicircle, its slope, and the apex-origin inverse used for the lens's left
  face.

Shared types are in `outcomes.dfy` (module `Outcomes`):

- Every `throw` becomes an `Err` carrying an `Error` that names the cause.
- A function passed around is `Fn = real -> Result<real>`. It is fallible
  because the function `shiftRight` builds goes through the guarded `f` of the
  original triplet, and that `f` throws outside its domain.
- An optional constructor argument (`fPrime ? fPrime : …`, `if (!f)`) is an
  `Option`.

The doc comment of the triplet constructor says "d1 > d2". The code requires
`d1 < d2` (src/function_triplet.ts:22 against :28). The model follows the
code.

## Model

| member | source | states |
|---|---|---|
| `Numeric.ApproxEquals` | src/utils.ts:1-5 | true exactly when `|a - b| < t`; symmetric in a and b; always false when `t <= 0` |
| `Numeric.AssertStrictlyPositive` | src/utils.ts:7-10 | fails exactly when `n <= 0`, with an error naming the label and the value; passes otherwise |
| `Numeric.CentralDifference` | src/utils.ts:18-21 | fails with f's error if the probe at x+h fails, else with the error of the probe at x−h; otherwise the result times 2h is `f(x+h) − f(x−h)` |
| `Numeric.GenerateDerivative` | src/utils.ts:16-22 | the generated closure is the central difference at every point and adds no check of its own |
| `Numeric.DerivativeOfAffine` | src/utils.ts:16-22 | over exact reals the generated derivative of `a·x + b` is exactly `a` at every x |
| `Numeric.Bisect` | src/utils.ts:50-60 | one pass sets m to the midpoint. It returns m exactly when `|f(m) − y| < 10⁻¹¹`. Otherwise it moves l2 to m when `y < f(m)` and l1 to m otherwise, the new ends lie between the old ones, and `l2 − l1` halves. `f(l1) ≤ y ≤ f(l2)` is kept. It fails exactly when f(m) fails, with f's error |
| `Numeric.NarrowingKeepsPreimage` | src/utils.ts:50-60 | when f rises strictly from l1 towards l2, a preimage of y inside the bracket stays inside after a pass |
| `Numeric.Search` | src/utils.ts:50-61 | any value the loop returns lies between the initial l1 and l2, and f there is within 10⁻¹¹ of y |
| `Numeric.Orient` | src/utils.ts:39-45 | the initial bracket is {xStart, xEnd} ordered so that `f(l1) ≤ f(l2)`, strictly when the end values differ; it fails exactly when f fails at an end |
| `Numeric.InitialBracket` | src/utils.ts:39-45 | for y between the end values, the oriented bracket holds y |
| `Numeric.BisectionInverse` | src/utils.ts:35-62 | a returned m lies between xStart and xEnd and `|f(m) − y| < 10⁻¹¹` |
| `Numeric.GenerateInverse` | src/utils.ts:31-35 | generation fails when `xEnd ≤ xStart`, or when `f(xStart) = f(xEnd)`, before any y is seen. It succeeds exactly otherwise (f defined at both ends). The inverse's every answer lies in `[xStart, xEnd]` and maps to within 10⁻¹¹ of y |
| `Numeric.InverseAt` | src/utils.ts:35-62 | the in-place loop over `l1`, `l2` returns what the bisection specification returns. Any answer lies in `[xStart, xEnd]` with `|f(m) − y| < 10⁻¹¹` |
| `Triplets.FunctionTriplet.AssertIsInDomain` | src/function_triplet.ts:76-79 | fails exactly when `x < d1` or `x > d2`, so both ends are allowed |
| `Triplets.FunctionTriplet.AssertIsInCodomain` | src/function_triplet.ts:81-84 | fails exactly when `y < c1` or `y > c2` |
| `Triplets.FunctionTriplet.F` | src/function_triplet.ts:45-48 | outside `[d1, d2]` a domain error; inside, the raw f's answer |
| `Triplets.FunctionTriplet.FPrime` | src/function_triplet.ts:50-54 | same domain guard as f; inside, the stored derivative's answer |
| `Triplets.FunctionTriplet.FInverse` | src/function_triplet.ts:56-60 | outside `[c1, c2]` a codomain error; inside, the stored inverse's answer |
| `Triplets.FunctionTriplet.Shifted` | src/function_triplet.ts:64 | the shifted function at x is the guarded f at `x − delta` |
| `Triplets.FunctionTriplet.ShiftRight` | src/function_triplet.ts:63-74 | on a constructed triplet it always succeeds. The domain becomes `[d1+delta, d2+delta]` and the codomain is unchanged. f is translated. The derivative and inverse are regenerated from the shifted function, whatever the original was given |
| `Triplets.NewFunctionTriplet` | src/function_triplet.ts:25-61 | fails with a missing-function error, then on `d1 ≥ d2`, then on `f(d1) = f(d2)`, and succeeds exactly otherwise. Then `c1 = min`, `c2 = max` of the end values and `c1 < c2`. fPrime is the supplied one or the central difference of f. fInverse is the supplied one or the bisection over `[d1, d2]`. Each is behind its guard |
| `Triplets.GeneratedInverseSound` | src/function_triplet.ts:56-60 | a triplet built without an inverse answers only y in `[c1, c2]`. It answers with a point of `[d1, d2]` whose f-value is within 10⁻¹¹ of y |
| `Triplets.ShiftedDerivativeFailsAtEnds` | src/function_triplet.ts:63-74 | the shifted derivative fails at both ends of the new domain. At the right end it probes the old f at `d2 + h`. At the left end it probes at `d1 − h`, once the probe at `d1 + h` succeeds. Both are domain errors of the original |
| `Analytic.ForwardDifference` | src/analytic.old.ts:29 | defined exactly when f is defined at x + 10⁻⁸ and x; its value times 10⁻⁸ is `f(x + 10⁻⁸) − f(x)` |
| `Analytic.CheckPoint` | src/analytic.old.ts:16-38 | a point of length other than 2 fails as not-a-point. A point passes exactly when the value, derivative and inverse agreements all hold. The first disagreement in that order names its check |
| `Analytic.CheckPointsFrom` | src/analytic.old.ts:15-40 | passes exactly when every checkpoint from i on passes. A failure is the failure of some checkpoint j, and every checkpoint before j passed |
| `Analytic.Validation` | src/analytic.old.ts:11-40 | an empty list fails with no-checkpoints. Validation succeeds exactly when the list is non-empty and every checkpoint is a pair that agrees in value, derivative and inverse |
| `Analytic.ValidateCheckPoints` | src/analytic.old.ts:11-40 | the `for` loop returns the validation's outcome |
| `Analytic.AnalyticFunctionTriplet.Init` | src/analytic.old.ts:9-43 | stores the three functions as given |
| `Analytic.AnalyticFunctionTriplet.Create` | src/analytic.old.ts:6-44 | a fresh object holding f, fPrime and fInverse exists exactly when validation passes; otherwise the validation's error |
| `Curves.CircularRd` | src/curves.ts:7-14 | for `|x − d| ≤ R` the value is non-negative and `f(x)² + (x − d)² = R²` |
| `Curves.CircularRdLandmarks` | src/curves.ts:1-6 | for `R ≥ 0` the arc starts at `(d−R, 0)`, peaks at `(d, R)` and ends at `(d+R, 0)` |
| `Curves.CircularPrimeRd` | src/curves.ts:16-24 | within the radius, slope times height is `−(x − d)`. So the slope is positive left of d, zero at d and negative right of d |
| `Curves.CircularInverseRd` | src/curves.ts:26-34 | for `|y| ≤ R` the value lies in `[0, R]` |
| `Curves.CircularInverseIgnoresOffset` | src/curves.ts:27-31 | the inverse's value does not depend on d |
| `Curves.CircularInverseLandmarks` | src/curves.ts:27-31 | for `R ≥ 0` the inverse maps 0 to 0 and R to R |
| `Curves.CircularInverseOnLeftFace` | src/curves.ts:26-31 | with `d = R` and `0 ≤ x ≤ R` the inverse undoes the arc, the pairing used for the lens's left face |
| `Curves.CircularInverseOffApex` | src/curves.ts:26-31 | for `R ≥ 0` and `d ≠ R` the inverse sends the peak back to R, not to d, so it is not an inverse |

## Left out

- Floating point. All numbers are exact reals, so rounding is not modelled. Neither are NaN and ±Infinity, or whether a step of 10⁻¹⁰ or 10⁻⁸ is accurate. In the source `(10**-4)**2` is not exactly 10⁻⁸, and `(d1 + delta) − delta` need not equal `d1`, so a float `shiftRight` can throw where the model cannot.
- Bisection termination. The source loops with no cap. The model stops after `MaxBisections` (2000) passes with a `NotConverged` error. Termination for an arbitrary f would need continuity, so only partial correctness and the bracket are proved.
- Numeric.InverseAt: requires `xStart < xEnd`. The closure it models exists only after `generateInverse` has checked that.
- `Math.sqrt` is a platform call. The curve functions take it as a parameter `sqrt`, assumed to give the non-negative root of a non-negative argument. Its value on a negative argument (NaN in the source) is left open.
- Curves.CircularPrimeRd: requires a non-zero arc height. At `x = d ± R` the source divides by zero and returns ±Infinity or NaN, which reals cannot express.
- Curried factories. The closures of `circularRd`, `circularPrimeRd` and `circularInverseRd` are modelled as functions of `(R, d, x)`. No function value is returned.
- Analytic.AnalyticFunctionTriplet.Create: the source stores `f` before validation and `fPrime`/`fInverse` after it. A constructor that throws publishes no object, so that order cannot be observed. The model builds the object only after validation passes.
- Error messages and `console.log` (src/analytic.old.ts:31). Only which check failed, and the values that identify it, are kept.
- The drawing and demo layer is not part of this model: refractr.js (compiled duplicate of the same classes), src/refractr.ts, src/simulation.ts, src/simulation.old.ts and src/drawFaces.ts. It is canvas and DOM wiring whose only logic is argument guards that consume the core.
