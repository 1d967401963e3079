/** Outcomes shared by the components. */
module Results {
  datatype Ret = SUCC | FAIL

  datatype Option<+T> = None | Some(value: T)
}
