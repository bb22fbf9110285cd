/**
  The immutable parameter record of the weighted moving variance
  (`WeightedMovingVarianceParams`).  Its three fields are `const` in the
  header, so the record is a datatype: a value built once by its member
  initialiser and never changed afterwards.
*/
module WmvParams {
  /** The source's `int`. */
  newtype int32 = x: int | -0x8000_0000 <= x < 0x8000_0000

  /**
    `enableWeight` picks the weight set of the variance, `enableThreshold`
    turns on binarisation of the result and `threshold` is the level it uses.
  */
  datatype WeightedMovingVarianceParams =
    WeightedMovingVarianceParams(enableWeight: bool, enableThreshold: bool, threshold: int32)

  /** The parameters the default constructor passes: `m_params(true, true, 15)`. */
  const DefaultParams: WeightedMovingVarianceParams := WeightedMovingVarianceParams(true, true, 15)
}
