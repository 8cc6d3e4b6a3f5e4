/** The JSON data file as the stores see it. */
module DataFile {
  /** Missing: reading fails; Corrupt: the text does not parse as JSON, or
      parses to something other than an object; Valid(rec): it holds the
      record rec. */
  datatype FileState<R> = Missing | Corrupt | Valid(rec: R)

  /** diasSinAccidentes as JavaScript holds it: a number, NaN, null, or no
      such property (undefined). */
  datatype Count = Num(n: int) | NaN | Null | Absent

  /** `c += k` (and `c++` for k = 1) on a count: ToNumber(null) is 0 and
      ToNumber(undefined) is NaN. */
  function Add(c: Count, k: int): Count {
    match c
    case Num(n) => Num(n + k)
    case Null => Num(k)
    case _ => NaN
  }

  /** JSON.stringify writes NaN as null; an absent property stays absent. */
  function Stored(c: Count): Count {
    if c.NaN? then Null else c
  }
}
