/** Limits of unpv13e/lib/unp.h. */
module Unp {
  const MAX_LINE: nat := 4096
}
