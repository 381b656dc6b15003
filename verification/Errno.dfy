/** The error numbers that system calls return, negated. */
module Errno {
  const EPERM := 1
  const ESRCH := 3
  const EAGAIN := 11
  const ENOMEM := 12
  const EACCES := 13
  const EINVAL := 22
}
