/** Outcomes of the operations of divine.py: a value, or the Python exception it raises. */
module Results {

  /** The exceptions the modelled code can raise. */
  datatype Error =
    | ValueError     // math.comb with a negative argument, or int(x, 2) on a malformed string
    | StopIteration  // next(...) in _get_ith_comb finds no candidate

  datatype Result<+T> = Ok(value: T) | Err(error: Error)

  datatype Option<+T> = None | Some(value: T)
}
