/** Small result types shared by the whole model. */
module Common {

  /** A value that may be absent: the model of a nullable pointer or of a missing file. */
  datatype Option<+T> = None | Some(value: T)

  /** The state after an operation together with the boolean the operation returns. */
  datatype Reply<+T> = Reply(state: T, ok: bool)
}
