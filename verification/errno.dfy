/** Linux errno values the modelled code returns, negated at the use site
    as the C code does (`return -EIO`). */
module Errno {
  const EIO: int := 5
  const ENOMEM: int := 12
  const EINVAL: int := 22
  const ENOSPC: int := 28
  const ENAMETOOLONG: int := 36
  /** EFSCORRUPTED is an alias of EUCLEAN. */
  const EFSCORRUPTED: int := 117
  const ECANCELED: int := 125
}
