/** The error numbers of <errno.h> that the sources return or look for. */
module Errno {
  const ENOENT := 2
  const EIO := 5
}
