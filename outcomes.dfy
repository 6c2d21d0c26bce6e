/** Values shared by the four refiners of a root bracket: the absolute value
    they all use, and the tagged result each refiner returns in place of the
    report it prints. */
module Outcomes {

  /** Python's `abs` on a number. */
  function Abs(x: real): real
  {
    if x < 0.0 then -x else x
  }

  /** What a refiner reports about its final approximation: the value x_m,
      the step count, and the last change it prints (the final bracket width
      for bisection, |x_m - x_(m-1)| for the other three). The residual
      |f(x_m)| is computed from `value` by the reader of the report. */
  datatype Estimate = Estimate(value: real, steps: nat, lastStep: real)

  /** The outcome of one refiner on one bracket. `DerivativeTooSmall` carries
      the step on which the guard fired and |f'(x_0)|; `DegenerateSecant`
      carries |f(x_1) - f(x_0)|: the two quantities the source reports. */
  datatype Outcome =
    | Converged(est: Estimate)
    | MaxIterationsReached(est: Estimate)
    | EvenMultiplicity
    | DerivativeTooSmall(step: nat, magnitude: real)
    | DegenerateSecant(magnitude: real)
}
