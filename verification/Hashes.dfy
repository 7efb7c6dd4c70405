/** Object hashes (utils/hash). */
module Hashes {

  /** A hash is the byte string the source stores; the empty one means "none". */
  type Hash = string

  const EMPTY_HASH: Hash := ""
}
