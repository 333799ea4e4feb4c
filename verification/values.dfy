/** Cell values as they travel between the flat file, pandas and the store. */
module Values {
  import opened Text

  datatype Option<+T> = None | Some(value: T)

  /** A scalar cell. `Missing` is a missing value: NaN in a data frame, `None`
      in a change reported by the data editor. Numbers are integers here. */
  datatype Value = Str(s: string) | Int(i: int) | Bool(b: bool) | Missing

  /** Python's truth value of a cell (`bool(v)`), given independently of any
      rendering: the empty string, zero, `False` and `None` are false. */
  predicate Truthy(v: Value)
    ensures Truthy(v) ==> Present(v)
  {
    match v
    case Str(s) => s != ""
    case Int(i) => i != 0
    case Bool(b) => b
    case Missing => false
  }

  /** `str(v)` as `astype(str)` renders a stored cell; a missing cell is NaN. */
  function Render(v: Value): (r: string)
    ensures v.Str? ==> r == v.s
    ensures v.Int? ==> r == IntToString(v.i) && IsLetterless(r)
    ensures v.Bool? ==> Lower(r) == (if v.b then "true" else "false")
    ensures v.Missing? ==> Lower(r) == "nan"
  {
    assert Lower("True") == "true" && Lower("False") == "false" && Lower("nan") == "nan";
    match v
    case Str(s) => s
    case Int(i) => IntToString(i)
    case Bool(b) => if b then "True" else "False"
    case Missing => "nan"
  }

  /** `pd.notna(v)`: every NA form is the one `Missing` value. */
  predicate Present(v: Value) {
    !v.Missing?
  }
}
