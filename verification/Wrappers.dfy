/** Result types shared by the model: an absent Go value (a missing map entry,
    a zero time.Time, a nil pointer) and a Go error return. */
module Wrappers {

  datatype Option<+T> = None | Some(value: T)

  datatype Result<+T> = Ok(value: T) | Err(error: string)
}
