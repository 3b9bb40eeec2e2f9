/** Small shared datatypes used by every module of the model. */
module Base {

  /** An optional value: `None` stands for a missing query parameter, a
      missing body field, a JavaScript `NaN`, or a database lookup that found nothing. */
  datatype Option<+T> = None | Some(value: T) {

    /** Returns the value, or `default` when there is none. */
    function GetOr(default: T): T
    {
      match this
      case Some(v) => v
      case None => default
    }
  }

  function Min(a: int, b: int): int { if a <= b then a else b }

  function Max(a: int, b: int): int { if a <= b then b else a }
}
