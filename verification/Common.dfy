/** Small datatypes shared by the models. */
module Common {

  datatype Option<+T> = None | Some(value: T)

  datatype Result<+T, +E> = Ok(value: T) | Err(error: E)

  function Max(a: nat, b: nat): nat
  {
    if a < b then b else a
  }

  function Min(a: nat, b: nat): nat
  {
    if a < b then a else b
  }

  /** Positions in a list of length `n`, in increasing order. */
  ghost predicate Increasing(at: seq<nat>, n: nat)
  {
    (forall i, j :: 0 <= i < j < |at| ==> at[i] < at[j]) && (forall i :: 0 <= i < |at| ==> at[i] < n)
  }
}
