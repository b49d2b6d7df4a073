/** Shared value types: optional values, the errors the spectral models can raise,
    and spectra as rows of reals (one entry per energy bin). */
module Common {

  datatype Option<+T> = None | Some(value: T)

  /** The exceptions that the spectral models raise, one constructor per cause. */
  datatype Error =
    /** An attribute that only `prepare_spectrum` sets was read before it ran
        (Python's AttributeError). */
    | MissingAttribute(name: string)
    /** scipy's `interp1d` was called on a value outside its tabulated axis
        (ValueError: bounds_error is in force because `fill_value` is a number). */
    | OutOfInterpolationRange
    /** scipy's `interp1d` was built from fewer than two nodes, or from a value array whose
        length along the interpolation axis differs from the node count (ValueError). */
    | InvalidInterpolationTable
    /** `np.ravel_multi_index` was given a coordinate outside the grid, or the
        interval-width array was indexed past its end (ValueError / IndexError). */
    | InvalidCellIndex
    /** `np.interp` was given no sample points (ValueError). */
    | EmptySamplePoints
    /** `np.interp` was given sample points and values of different lengths (ValueError). */
    | LengthMismatch
    /** A component that is `None` was called as a function (TypeError). */
    | NotCallable
    /** Arrays whose shapes cannot be broadcast against each other (ValueError / TypeError). */
    | ShapeMismatch

  datatype Result<+T> = Ok(value: T) | Err(error: Error)

  /** One spectrum: a value per energy bin. */
  type Spectrum = seq<real>

  /** A 2-D numpy array, as its rows. */
  type Matrix = seq<Spectrum>

  /** The three components a spectral table or a spectral query produces: the cosmic
      (H/He) continuum, the metal part, and (when variable elements are tracked) one
      matrix per variable element. */
  datatype Components = Components(cosmic: Matrix, metal: Matrix, variable: Option<seq<Matrix>>)

  /** Every row has the same length, as every row of a numpy array does. */
  predicate Rectangular(m: Matrix) {
    forall i, j :: 0 <= i < |m| && 0 <= j < |m| ==> |m[i]| == |m[j]|
  }

  /** Every row has exactly `width` entries. */
  predicate RowsOfWidth(m: Matrix, width: nat) {
    forall i :: 0 <= i < |m| ==> |m[i]| == width
  }

  /** `a * row`, elementwise. */
  function ScaleRow(a: real, row: Spectrum): (r: Spectrum)
    ensures |r| == |row|
  {
    seq(|row|, k requires 0 <= k < |row| => a * row[k])
  }

  /** `row / x`, elementwise. */
  function DivRow(row: Spectrum, x: real): (r: Spectrum)
    requires x != 0.0
    ensures |r| == |row|
  {
    seq(|row|, k requires 0 <= k < |row| => row[k] / x)
  }

  /** `a * m`, elementwise over a whole matrix. */
  function ScaleMatrix(a: real, m: Matrix): (r: Matrix)
    ensures |r| == |m|
    ensures forall i :: 0 <= i < |m| ==> r[i] == ScaleRow(a, m[i])
  {
    seq(|m|, i requires 0 <= i < |m| => ScaleRow(a, m[i]))
  }

  lemma ScaleMatrixShape(a: real, m: Matrix, width: nat)
    requires RowsOfWidth(m, width)
    ensures RowsOfWidth(ScaleMatrix(a, m), width) && Rectangular(ScaleMatrix(a, m))
  {
  }
}
