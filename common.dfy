/** Small shared vocabulary: optional values and asset identifiers. */
module Common {

  /** A value that may be absent (a SQL NULL, a pandas NaN). */
  datatype Option<+T> = None | Some(value: T)

  /** An asset is identified by its contract address, stored as text. */
  type Asset = string
}
