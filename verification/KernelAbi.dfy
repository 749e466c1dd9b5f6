/** Error codes and limits the kernel's file code shares (include/northstar/errno.h, vfs.h and
    syscall_abi.h). */
module KernelAbi {
  const OK: int := 0
  const ENOENT: int := -2
  const EIO: int := -5
  const EBADF: int := -9
  const EBUSY: int := -16
  const EEXIST: int := -17
  const ENOTDIR: int := -20
  const EINVAL: int := -22
  const EMFILE: int := -24
  const ENAMETOOLONG: int := -36
  const ENOSYS: int := -38

  const PATH_MAX: nat := 4096
  const NAME_MAX: nat := 255
}
