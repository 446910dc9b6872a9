/**
 * The fixed-size arrays of the projection pipeline: `[f64; 4]` homogeneous
 * coordinates and `[[f64; 4]; 4]` row-major matrices, as sequences of the
 * right lengths.
 */
module Matrices {

  /** `[f64; 4]`: a homogeneous coordinate `[x, y, z, w]`. */
  type Vec4 = v: seq<real> | |v| == 4 witness [0.0, 0.0, 0.0, 0.0]

  predicate IsMatrix4(m: seq<seq<real>>)
  {
    |m| == 4 && forall i | 0 <= i < 4 :: |m[i]| == 4
  }

  /** `[[f64; 4]; 4]`: four rows of four entries, indexed `m[row][column]`. */
  type Matrix4 = m: seq<seq<real>> | IsMatrix4(m)
    witness [[0.0, 0.0, 0.0, 0.0], [0.0, 0.0, 0.0, 0.0], [0.0, 0.0, 0.0, 0.0], [0.0, 0.0, 0.0, 0.0]]

  /** `[[0.0; 4]; 4]`. */
  function ZeroMatrix(): Matrix4
  {
    [[0.0, 0.0, 0.0, 0.0], [0.0, 0.0, 0.0, 0.0], [0.0, 0.0, 0.0, 0.0], [0.0, 0.0, 0.0, 0.0]]
  }

  function Identity(): Matrix4
  {
    [[1.0, 0.0, 0.0, 0.0], [0.0, 1.0, 0.0, 0.0], [0.0, 0.0, 1.0, 0.0], [0.0, 0.0, 0.0, 1.0]]
  }

  /** The bottom row of an affine transform. */
  function AffineRow(): Vec4
  {
    [0.0, 0.0, 0.0, 1.0]
  }
}
