/** Option and Result values standing in for Python's `None` and for raised exceptions. */
module Optional {

  /** `None` plays Python's `None` / JavaScript's `null`. */
  datatype Option<+T> = None | Some(value: T) {
    /** Python's `x or default` for an optional value whose only falsy value is `None`. */
    function GetOr(default: T): T {
      match this
      case Some(v) => v
      case None => default
    }
  }

  /** `Failure` stands for an exception raised instead of a value being returned. */
  datatype Result<+R, +E> = Success(value: R) | Failure(error: E)

  /** Python's `s or ""` on an optional string: `None` and `""` both give `""`. */
  function OrEmpty(s: Option<string>): (r: string)
    ensures s.Some? ==> r == s.value
    ensures s.None? ==> r == ""
  {
    s.GetOr("")
  }

  /** Python truthiness of an optional string: present and non-empty. */
  predicate Truthy(s: Option<string>) {
    s.Some? && s.value != ""
  }
}
