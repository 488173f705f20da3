/** The error numbers of Linux, negated as the driver returns them. */
module Errno {
  const EIO: int := -5
  const ENOMEM: int := -12
  const EBUSY: int := -16
  const EINVAL: int := -22
  const EOVERFLOW: int := -75
  const EOPNOTSUPP: int := -95
  const ETIMEDOUT: int := -110
  const EREMOTEIO: int := -121
  const ERESTARTSYS: int := -512

  type errno = e: int | e < 0 witness -1
}
