/** Small shared vocabulary of the two stores. */
module Common {

  /** A value that may be absent: JavaScript's `undefined`/`null` results. */
  datatype Option<+T> = None | Some(value: T)

  /** The role carried by a user record and by a presence record. */
  datatype Role = Admin | Player
}
