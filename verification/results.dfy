/** Python exceptions raised by the simulator's pure logic, as values. */
module Results {

  /** The exception classes the modelled code can raise. */
  datatype Error =
    | KeyError          // basis lists of different lengths
    | IndexError        // list or string index out of range
    | ValueError        // int(..., 2) on a non-binary digit, chr() out of range, unknown role, min([])
    | TypeError         // ord() applied to a string whose length is not 1
    | ZeroDivisionError // error rate over an empty sifted key

  /** A computation that either yields a value or raises an exception. */
  datatype Result<+T> = Ok(value: T) | Err(error: Error) {

    predicate IsFailure() {
      Err?
    }

    function PropagateFailure<U>(): Result<U>
      requires Err?
    {
      Err(error)
    }

    function Extract(): T
      requires Ok?
    {
      value
    }
  }

  datatype Option<+T> = None | Some(value: T)

  /** Python's `s[j]`: negative indices count from the end. */
  function PyIndex<T>(s: seq<T>, j: int): (r: Result<T>)
    ensures r.Ok? <==> -|s| <= j < |s|
    ensures 0 <= j < |s| ==> r == Ok(s[j])
    ensures -|s| <= j < 0 ==> r == Ok(s[|s| + j])
  {
    if 0 <= j < |s| then Ok(s[j])
    else if -|s| <= j < 0 then Ok(s[|s| + j])
    else Err(IndexError)
  }
}
