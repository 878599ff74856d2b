/**
 * The argument guards of Open.Nat/Utils/Guard.cs. A guard either lets the
 * caller continue or throws ArgumentOutOfRangeException naming the parameter;
 * being functions, they can have no other effect.
 */
module Guard {
  import opened Wrappers
  import opened Exceptions

  /** Guard.IsInRange: both bounds are inclusive. */
  function IsInRange(paramValue: int, lowerBound: int, upperBound: int, paramName: string): (r: Outcome<Exception>)
    ensures r.Pass? <==> lowerBound <= paramValue <= upperBound
    ensures r.Fail? ==> r.error == ArgumentOutOfRange(paramName)
  {
    if paramValue < lowerBound || paramValue > upperBound then Fail(ArgumentOutOfRange(paramName)) else Pass
  }

  /** Guard.IsTrue. */
  function IsTrue(exp: bool, paramName: string): (r: Outcome<Exception>)
    ensures r.Pass? <==> exp
    ensures r.Fail? ==> r.error == ArgumentOutOfRange(paramName)
  {
    if !exp then Fail(ArgumentOutOfRange(paramName)) else Pass
  }

  /** The bounds themselves pass and their outer neighbours fail. */
  lemma IsInRangeBoundaries(lowerBound: int, upperBound: int, paramName: string)
    requires lowerBound <= upperBound
    ensures IsInRange(lowerBound, lowerBound, upperBound, paramName).Pass?
    ensures IsInRange(upperBound, lowerBound, upperBound, paramName).Pass?
    ensures IsInRange(lowerBound - 1, lowerBound, upperBound, paramName) == Fail(ArgumentOutOfRange(paramName))
    ensures IsInRange(upperBound + 1, lowerBound, upperBound, paramName) == Fail(ArgumentOutOfRange(paramName))
  {
  }
}
