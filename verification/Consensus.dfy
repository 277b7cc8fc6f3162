/** Limits of the network. */
module Consensus {

  const MAX_BLOCK_SIZE: nat := 2000000
}
