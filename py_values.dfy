/**
  The Python values that the inventory functions inspect at run time. The
  functions check their arguments with `isinstance`, so an argument is modelled
  by the kind of object it is: a `str`, an `int`, a `bool` (which Python counts
  as an `int`), or anything else (`None`, a float, a list, ...).
 */
module PyValues {
  import opened Wrappers

  datatype Value = Str(s: string) | Int(i: int) | Bool(b: bool) | Other

  /** `isinstance(v, str) and v`: a non-empty string. */
  predicate IsItemName(v: Value) {
    v.Str? && v.s != ""
  }

  /** `isinstance(v, int)`, which `True` and `False` pass; the integer `v` counts as in arithmetic. */
  function AsInt(v: Value): Option<int> {
    match v
    case Int(i) => Some(i)
    case Bool(b) => Some(if b then 1 else 0)
    case _ => None
  }
}
