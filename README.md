# Tile identifier codec

Each tile of the shape-changeable display carries a 16-bit identifier, burned
into its efuse at manufacture. The codec in `src/id_utils.rs` cuts that word
into fields with fixed masks and shifts:

- bit 0: the root flag, set on the one tile that is the origin of the grid;
- bits 1-2: the local-network location. This is the tile's quadrant in its
  2x2 block (UpLeft, UpRight, DownLeft, DownRight). It is kept unshifted, as
  the raw codes 0, 2, 4 and 6;
- bits 3-15: the 13-bit local-network id;
- all 16 bits: the "MAC address", which the bus uses as the tile's address.

The model has these modules:

- `IdConst` (`id_utils.dfy`) holds the masks, shifts and location codes, under
  the Rust names and with the Rust values. `Id` is `bv16`, which models Rust's
  `u16`, so `&` and `>>` mean exactly what they mean on the tile.
- `IdUtil` (`id_utils.dfy`) holds every accessor as a total Dafny function. It
  also holds the lemmas that relate them.
- `Localnet` (`localnet.dfy`) is the four-variant quadrant enum.
- `Wrappers` (`wrappers.dfy`) holds `Option`.
- `Word` (`word.dfy`) gives each 16-bit word its unsigned value `Nat`, defined
  bit by bit, and proves what shifts do to that value. With it the contracts
  can say what each field means as a number. The local-network id is
  `id / 8`. The root flag is the parity of `id`. The location code is
  `2 * ((id / 2) mod 4)`. `FromNatNat` proves that `Nat` loses no
  information.

The Rust `match` in `get_localnet_location` has a `_ => panic!` arm. It is
modelled in two parts:

- `DecodeLocation` is the `match` on any raw value. The panicking arm becomes
  `None`.
- `GetLocalnetLocation` applies `DecodeLocation` to the masked code. Its body
  has `assert false` in the `None` case, so the verifier proves that no
  identifier reaches the panic.

The system's design treats an invalid quadrant pattern as a fatal
configuration error that is detected at run time. In the code no such pattern
can occur: the mask leaves only four possible values, and each of them has a
variant. The model follows the code.
`LOCALNET_LOCATION_SHIFT` is declared but never used: the shifted decoding at
`src/id_utils.rs:50` is commented out. The model keeps the constant and uses
it nowhere.

`ComposeId` builds an identifier from its three fields. It does not appear in
the source. It is the encoder that the masks imply, and it is there so that the
round trip can be stated in both directions.

## Model

| member | source | states |
|---|---|---|
| IdConst.MasksPartition | src/id_utils.rs:4-11 | the root, location and local-network-id masks are pairwise disjoint; together they make the MAC-address mask, which is 0xFFFF |
| IdUtil.GetRawLocalnetId | src/id_utils.rs:29-31 | the result's value is the identifier rounded down to a multiple of eight |
| IdUtil.GetRawMacAddress | src/id_utils.rs:32-34 | the result is the identifier unchanged |
| IdUtil.GetRawLocalnetLocation | src/id_utils.rs:35-37 | the result is one of LOCALNET_UPLEFT, LOCALNET_UPRIGHT, LOCALNET_DOWNLEFT, LOCALNET_DOWNRIGHT; its value is 2 * ((id / 2) mod 4) |
| IdUtil.GetRawRoot | src/id_utils.rs:38-40 | the result is 0 or ROOT; its value is the parity of the identifier |
| IdUtil.GetLocalnetId | src/id_utils.rs:43-45 | the result is below 0x2000 (13 bits); its value is the identifier divided by eight |
| IdUtil.GetMacAddress | src/id_utils.rs:46-48 | the result is the identifier unchanged |
| IdUtil.LocationCode | src/id_utils.rs:14-17 | each quadrant's code has no bit outside LOCALNET_LOCATION_MASK |
| IdUtil.DecodeLocation | src/id_utils.rs:51-56 | a raw value is accepted exactly when it has no bit outside the location mask; an accepted value is the code of the quadrant returned |
| IdUtil.GetLocalnetLocation | src/id_utils.rs:49-64 | total for every identifier; the returned quadrant's code is the identifier's raw location, so the panicking arm is never taken |
| IdUtil.IsRoot | src/id_utils.rs:66-68 | true exactly when the raw root field equals ROOT, and exactly when the identifier is odd |
| IdUtil.ComposeId | src/id_utils.rs:4-17 | the composed identifier's value is 8 * local-network id + location code + root bit |
| IdUtil.LocationCodeBijection | src/id_utils.rs:51-55 | decoding a raw value yields a quadrant exactly when the raw value is that quadrant's code |
| IdUtil.LocationCodeInjective | src/id_utils.rs:14-17 | distinct quadrants have distinct codes |
| IdUtil.LocationPanicUnreachable | src/id_utils.rs:56-63 | for every identifier the masked location decodes to some quadrant |
| IdUtil.RawLocalnetIdAgrees | src/id_utils.rs:29-45 | the in-place local-network id is the shifted one shifted back by three |
| IdUtil.FieldsPartition | src/id_utils.rs:29-40 | the raw root, location and local-network-id fields are pairwise disjoint and OR together to the identifier |
| IdUtil.RawRoundTrip | src/id_utils.rs:29-45 | (local-network id << 3) \| raw location \| raw root gives back the identifier |
| IdUtil.ValueRoundTrip | src/id_utils.rs:29-45 | the identifier's value is 8 * local-network id + location code + root bit |
| IdUtil.ComposeDecoded | src/id_utils.rs:43-68 | composing an identifier's decoded local-network id, quadrant and root flag gives back the identifier |
| IdUtil.DecodeComposed | src/id_utils.rs:43-68 | decoding a composed identifier gives back the local-network id, quadrant and root flag it was built from |
| IdUtil.LocalnetIdIgnoresLowBits | src/id_utils.rs:43-45 | replacing bits 0-2 by any value leaves the local-network id unchanged |
| IdUtil.RootBitIndependent | src/id_utils.rs:43-68 | setting or clearing the root bit sets is_root to that value and leaves the quadrant and the local-network id unchanged |
| IdUtil.LocationBitsIndependent | src/id_utils.rs:43-68 | writing a quadrant's code into bits 1-2 makes that the decoded quadrant and leaves is_root and the local-network id unchanged |
| Word.FromNatNat | src/id_utils.rs:20 | rebuilding a 16-bit identifier from its unsigned value gives the identifier back |
| Word.NatInjective | src/id_utils.rs:20 | two 16-bit identifiers with the same unsigned value are equal |
| Word.NatShr3 | src/id_utils.rs:44 | shifting right by LOCALNET_ID_SHIFT (three) divides the value by eight |

## Left out

- `ID_MASK` (`src/id_utils.rs:3`) is a `u32` mask for reading the efuse word. No accessor uses it. The model starts from the 16-bit identifier, which is the low 16 bits of that word.
- The `Coordinate` and `CoordinateComponent` aliases (`src/id_utils.rs:21-22`) are not used by any accessor.
- The panic message of `get_localnet_location` (`src/id_utils.rs:56-63`) is not modelled. That includes its call back into `get_localnet_location` at line 60. The arm is proved unreachable, so neither the message nor the call can happen.
- `LocalNetworkLocation` is defined in `crate::network::localnet`. That file is not part of this model, so only the enum's four variants are modelled.
- `ota/src/ota.rs` (Wi-Fi, HTTP download, OTA flash write and restart) is not part of this model. It is I/O against libraries outside the repository.
- `shapechangeable-display/examples/estimate_coordinate.rs` is not part of this model. It is a hardware main loop made of peripheral set-up, real delays, random jitter, and calls into crates whose source is absent.
- The packet framing, the per-node protocol engine and the coordinate estimator are not part of this model. None of them is in the source files modelled here.
