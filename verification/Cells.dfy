/** Typed result cells, shared by the text writers and readers. */
module Cells {

  datatype DataType = Int64 | Float64 | Bool | String

  /** A cell: SQL `NULL`, text, or a scalar of a type whose text form is a parameter. */
  datatype Value<N> = Null | Text(text: string) | Scalar(value: N)
}
