/** What several components share. */
module Common {

  datatype Option<T> = None | Some(value: T)

  /** One for true, zero for false: how much a condition adds to a count. */
  function Flag(b: bool): (n: nat)
    ensures n <= 1
  {
    if b then 1 else 0
  }
}
