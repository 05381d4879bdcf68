/** Shared value types: an error-or-value result, Go's int64 and bytes. */
module Common {

  /** Go's `(value, error)` pair: exactly one of the two is meaningful. */
  datatype Result<+T, +E> = Ok(value: T) | Err(error: E)

  type byte = bv8

  const MinInt64: int := -0x8000_0000_0000_0000
  const MaxInt64: int := 0x7fff_ffff_ffff_ffff

  /** Go's `int64`. */
  newtype int64 = x: int | MinInt64 <= x <= MaxInt64

  /** A string-valued map read the way `os.Getenv` reads the environment and `Header.Get` reads
      header fields: an absent key reads as "", so "" cannot tell absent from empty. */
  function StringAt(m: map<string, string>, key: string): (v: string)
    ensures key !in m ==> v == ""
    ensures v != "" ==> key in m && v == m[key]
    ensures key in m ==> v == m[key]
  {
    if key in m then m[key] else ""
  }
}
