/** The WASI error codes the shim answers with. */
module Errno {
  const ESUCCESS := 0
  const EBADF := 8
  const EFAULT := 21
  const EINVAL := 28
}
