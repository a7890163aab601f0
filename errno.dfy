// Error numbers of the kernel (kernel/lib/errno.h). Kernel routines return them negated.
module Errno {
  const EPERM: int := 1
  const ENOENT: int := 2
  const EIO: int := 5
  const ENOMEM: int := 12
  const EACCESS: int := 13
  const EFAULT: int := 14
  const EBUSY: int := 16
  const EEXIST: int := 17
  const ENODEV: int := 19
  const ENOTDIR: int := 20
  const EISDIR: int := 21
  const EINVAL: int := 22
  const ENFILE: int := 23
  const EMFILE: int := 24
  const ENOSPC: int := 28
  const ESPIPE: int := 29
  const EROFS: int := 30
  const EPIPE: int := 32
  const ENOSYS: int := 38
  const ENOTIMPL: int := ENOSYS
  const EWAIT_ABANDONED: int := 99
}
