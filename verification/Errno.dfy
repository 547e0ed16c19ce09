/**
  * The error numbers the repository's functions return, and a result that may be one of them.
  */
module Errno {
  datatype Error = ENOENT | EBADF | ENOMEM | EFAULT | EINVAL | ERANGE | E2BIG | EILSEQ | ENOTSUP

  datatype Result<+T> = Ok(value: T) | Err(error: Error)
}
