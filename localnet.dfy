/**
 * Where a tile sits inside its local network: one of the four quadrants of
 * the 2x2 block it forms with its neighbours. The Rust enum lives in
 * `crate::network::localnet`, which is not part of this model; only its four
 * variants are used here.
 */
module Localnet {

  datatype LocalNetworkLocation = UpLeft | UpRight | DownLeft | DownRight
}
