/** Result types shared by the models. */
module Common {

  datatype Option<+T> = None | Some(value: T)

  datatype Err = Ok | EINVAL | EAGAIN | ENOENT | EALREADY | ETIMEDOUT
}
