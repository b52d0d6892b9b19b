/** Return codes, by the names of the errno values that the drivers return negated. */
module Codes {
  datatype Code = Success | EINVAL | ENODEV | ECOMM | EIO | ETIMEDOUT | EBUSY | ENOTSUP | ENODATA | EOPNOTSUPP

  datatype Option<+T> = None | Some(value: T)
}
