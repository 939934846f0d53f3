/**
 * The fixed layout of a tile's 16-bit identifier, burned in at manufacture:
 *
 *   bit 0      root flag
 *   bits 1-2   local-network location (the quadrant), coded 0, 2, 4 or 6
 *   bits 3-15  local-network id
 *
 * and the whole 16 bits as the tile's bus ("MAC") address.
 */
module IdConst {

  /** A tile identifier is a Rust `u16`. */
  type Id = bv16

  const ROOT_MASK: bv16 := 0x0001
  const ROOT_SHIFT: bv16 := 0
  const LOCALNET_LOCATION_MASK: bv16 := 0x0006
  const LOCALNET_LOCATION_SHIFT: bv16 := 1
  const LOCALNET_ID_MASK: bv16 := 0xFFF8
  const LOCALNET_ID_SHIFT: bv16 := 3
  const MAC_ADDRESS_MASK: bv16 := 0xFFFF
  const MAC_ADDRESS_SHIFT: bv16 := 0

  const ROOT: bv16 := 0x0001
  const LOCALNET_UPLEFT: bv16 := 0x0000
  const LOCALNET_UPRIGHT: bv16 := 0x0002
  const LOCALNET_DOWNLEFT: bv16 := 0x0004
  const LOCALNET_DOWNRIGHT: bv16 := 0x0006

  /**
   * The root, location and local-network-id masks share no bit and together
   * cover all sixteen, which is the MAC-address mask.
   */
  lemma MasksPartition()
    ensures ROOT_MASK & LOCALNET_LOCATION_MASK == 0
    ensures ROOT_MASK & LOCALNET_ID_MASK == 0
    ensures LOCALNET_LOCATION_MASK & LOCALNET_ID_MASK == 0
    ensures ROOT_MASK | LOCALNET_LOCATION_MASK | LOCALNET_ID_MASK == MAC_ADDRESS_MASK
    ensures MAC_ADDRESS_MASK == 0xFFFF
  {
  }
}

/** The accessors that split an identifier into its fields. */
module IdUtil {

  import opened IdConst
  import opened Localnet
  import opened Wrappers
  import opened Word

  /** The local-network id left in place: the identifier rounded down to a multiple of eight. */
  function GetRawLocalnetId(id: Id): (r: bv16)
    ensures Nat(r) == 8 * (Nat(id) / 8)
  {
    NatMaskLocalnetId(id);
    id & LOCALNET_ID_MASK
  }

  /** The bus address: the mask keeps every bit, so it is the identifier itself. */
  function GetRawMacAddress(id: Id): (r: bv16)
    ensures r == id
  {
    id & MAC_ADDRESS_MASK
  }

  /** The location code left in place: always one of the four location constants. */
  function GetRawLocalnetLocation(id: Id): (r: bv16)
    ensures r == LOCALNET_UPLEFT || r == LOCALNET_UPRIGHT || r == LOCALNET_DOWNLEFT || r == LOCALNET_DOWNRIGHT
    ensures Nat(r) == 2 * (Nat(id) / 2 % 4)
  {
    NatMaskLocation(id);
    id & LOCALNET_LOCATION_MASK
  }

  /** The root bit left in place: `ROOT` exactly when the identifier is odd, and 0 otherwise. */
  function GetRawRoot(id: Id): (r: bv16)
    ensures r == 0 || r == ROOT
    ensures Nat(r) == Nat(id) % 2
  {
    NatMaskRoot(id);
    id & ROOT_MASK
  }

  /** The 13-bit local-network id: the identifier divided by eight. */
  function GetLocalnetId(id: Id): (r: bv16)
    ensures r < 0x2000
    ensures Nat(r) == Nat(id) / 8
  {
    assert (id & LOCALNET_ID_MASK) >> LOCALNET_ID_SHIFT == id >> 3;
    NatShr3(id);
    (id & LOCALNET_ID_MASK) >> LOCALNET_ID_SHIFT
  }

  /** The bus address, shifted by zero: the identifier itself. */
  function GetMacAddress(id: Id): (r: bv16)
    ensures r == id
  {
    (id & MAC_ADDRESS_MASK) >> MAC_ADDRESS_SHIFT
  }

  /** The location code of each quadrant. */
  function LocationCode(loc: LocalNetworkLocation): (r: bv16)
    ensures r & !LOCALNET_LOCATION_MASK == 0
  {
    match loc
    case UpLeft => LOCALNET_UPLEFT
    case UpRight => LOCALNET_UPRIGHT
    case DownLeft => LOCALNET_DOWNLEFT
    case DownRight => LOCALNET_DOWNRIGHT
  }

  /**
   * The `match` on a raw location code: each of the four codes names its
   * quadrant, and any other value is the panicking arm, here `None`. A value
   * is accepted exactly when it has no bit outside the location mask.
   */
  function DecodeLocation(raw: bv16): (r: Option<LocalNetworkLocation>)
    ensures r.Some? <==> raw & !LOCALNET_LOCATION_MASK == 0
    ensures r.Some? ==> LocationCode(r.value) == raw
  {
    if raw == LOCALNET_UPLEFT then Some(UpLeft)
    else if raw == LOCALNET_UPRIGHT then Some(UpRight)
    else if raw == LOCALNET_DOWNLEFT then Some(DownLeft)
    else if raw == LOCALNET_DOWNRIGHT then Some(DownRight)
    else None
  }

  /**
   * The quadrant of a tile. The raw code is always one of the four constants,
   * so the panicking arm is never taken and the function is total.
   */
  function GetLocalnetLocation(id: Id): (loc: LocalNetworkLocation)
    ensures LocationCode(loc) == GetRawLocalnetLocation(id)
    ensures DecodeLocation(GetRawLocalnetLocation(id)) == Some(loc)
  {
    match DecodeLocation(GetRawLocalnetLocation(id))
    case Some(l) => l
    case None => assert false; UpLeft
  }

  /** Whether the tile is the root: exactly when bit 0 is set, that is, when the identifier is odd. */
  function IsRoot(id: Id): (b: bool)
    ensures b <==> GetRawRoot(id) == ROOT
    ensures b <==> Nat(id) % 2 == 1
  {
    (id & ROOT_MASK) >> ROOT_SHIFT == ROOT
  }

  /**
   * The identifier a tile with these fields carries: the local-network id in
   * bits 3-15, the location code in bits 1-2 and the root flag in bit 0.
   */
  function ComposeId(localnetId: bv16, loc: LocalNetworkLocation, root: bool): (id: Id)
    requires localnetId < 0x2000
    ensures Nat(id) == 8 * Nat(localnetId) + Nat(LocationCode(loc)) + (if root then 1 else 0)
  {
    var id := (localnetId << LOCALNET_ID_SHIFT) | LocationCode(loc) | RootCode(root);
    NatCompose(localnetId, loc, root);
    id
  }

  /** The root bit of a tile that is, or is not, the root. */
  function RootCode(root: bool): bv16
  {
    if root then ROOT else 0
  }

  /** The identifier with its root bit set or cleared, every other bit kept. */
  function WithRoot(id: Id, root: bool): bv16
  {
    if root then id | ROOT_MASK else id & !ROOT_MASK
  }

  /** The identifier with its location bits replaced by the code of `loc`, every other bit kept. */
  function WithLocation(id: Id, loc: LocalNetworkLocation): bv16
  {
    (id & !LOCALNET_LOCATION_MASK) | LocationCode(loc)
  }

  /** The quadrant decoder accepts a code exactly when it is the code of that quadrant. */
  lemma LocationCodeBijection(raw: bv16, loc: LocalNetworkLocation)
    ensures DecodeLocation(raw) == Some(loc) <==> LocationCode(loc) == raw
  {
  }

  /** Distinct quadrants have distinct codes. */
  lemma LocationCodeInjective(a: LocalNetworkLocation, b: LocalNetworkLocation)
    ensures LocationCode(a) == LocationCode(b) ==> a == b
  {
  }

  /** The panicking arm of the quadrant decoder cannot be reached from any identifier. */
  lemma LocationPanicUnreachable(id: Id)
    ensures DecodeLocation(GetRawLocalnetLocation(id)) != None
  {
  }

  /** The local-network id with and without its shift agree. */
  lemma RawLocalnetIdAgrees(id: Id)
    ensures GetRawLocalnetId(id) == GetLocalnetId(id) << 3
  {
    ShiftBackLocalnetId(id);
  }

  /** The raw fields of an identifier share no bit and together make up the identifier. */
  lemma FieldsPartition(id: Id)
    ensures GetRawRoot(id) & GetRawLocalnetLocation(id) == 0
    ensures GetRawRoot(id) & GetRawLocalnetId(id) == 0
    ensures GetRawLocalnetLocation(id) & GetRawLocalnetId(id) == 0
    ensures GetRawLocalnetId(id) | GetRawLocalnetLocation(id) | GetRawRoot(id) == id
  {
  }

  /** Recombining the decoded fields gives back the identifier. */
  lemma RawRoundTrip(id: Id)
    ensures (GetLocalnetId(id) << LOCALNET_ID_SHIFT) | GetRawLocalnetLocation(id) | GetRawRoot(id) == id
  {
  }

  /** The same round trip on values: eight times the local-network id, plus the location code, plus the root bit. */
  lemma ValueRoundTrip(id: Id)
    ensures Nat(id) == 8 * Nat(GetLocalnetId(id)) + Nat(GetRawLocalnetLocation(id)) + Nat(GetRawRoot(id))
  {
    Recombine(Nat(id));
  }

  /** Decoding an identifier and composing its fields again gives the identifier. */
  lemma ComposeDecoded(id: Id)
    ensures ComposeId(GetLocalnetId(id), GetLocalnetLocation(id), IsRoot(id)) == id
  {
  }

  /** Composing valid fields and decoding the identifier gives the fields back. */
  lemma DecodeComposed(localnetId: bv16, loc: LocalNetworkLocation, root: bool)
    requires localnetId < 0x2000
    ensures GetLocalnetId(ComposeId(localnetId, loc, root)) == localnetId
    ensures GetLocalnetLocation(ComposeId(localnetId, loc, root)) == loc
    ensures IsRoot(ComposeId(localnetId, loc, root)) == root
  {
    var id := ComposeId(localnetId, loc, root);
    DecodeComposedBits(localnetId, loc, root);
    LocationCodeInjective(GetLocalnetLocation(id), loc);
  }

  /** The local-network id does not depend on bits 0-2: any root flag and location give the same id. */
  lemma LocalnetIdIgnoresLowBits(id: Id, low: bv16)
    requires low < 8
    ensures GetLocalnetId((id & LOCALNET_ID_MASK) | low) == GetLocalnetId(id)
  {
  }

  /** Setting or clearing the root bit changes neither the quadrant nor the local-network id. */
  lemma RootBitIndependent(id: Id, root: bool)
    ensures IsRoot(WithRoot(id, root)) == root
    ensures GetLocalnetLocation(WithRoot(id, root)) == GetLocalnetLocation(id)
    ensures GetLocalnetId(WithRoot(id, root)) == GetLocalnetId(id)
  {
    var id' := WithRoot(id, root);
    RootBitRaw(id, root);
    LocationCodeInjective(GetLocalnetLocation(id'), GetLocalnetLocation(id));
  }

  /** Rewriting the location bits changes neither the root flag nor the local-network id. */
  lemma LocationBitsIndependent(id: Id, loc: LocalNetworkLocation)
    ensures GetLocalnetLocation(WithLocation(id, loc)) == loc
    ensures IsRoot(WithLocation(id, loc)) == IsRoot(id)
    ensures GetLocalnetId(WithLocation(id, loc)) == GetLocalnetId(id)
  {
    var id' := WithLocation(id, loc);
    LocationCodeInjective(GetLocalnetLocation(id'), loc);
  }

  // The arithmetic meaning of each mask.

  lemma NatMaskRoot(id: Id)
    ensures Nat(id & ROOT_MASK) == Nat(id) % 2
  {
    NatLowBit(id);
    NatLowBit(id & ROOT_MASK);
    assert (id & ROOT_MASK) >> 1 == 0;
  }

  lemma NatMaskLocation(id: Id)
    ensures Nat(id & LOCALNET_LOCATION_MASK) == 2 * (Nat(id) / 2 % 4)
  {
    var z := id >> 1;
    var w := z & 3;
    assert id & LOCALNET_LOCATION_MASK == w << 1 && w < 0x8000;
    assert Nat(id & LOCALNET_LOCATION_MASK) == 2 * Nat(w) by { NatShl1(w); }
    assert Nat(z) == Nat(id) / 2 by { NatLowBit(id); }
    assert Nat(w) == Nat(z) % 4 by { NatMaskTwoBits(z); }
  }

  lemma NatMaskLocalnetId(id: Id)
    ensures Nat(id & LOCALNET_ID_MASK) == 8 * (Nat(id) / 8)
  {
    var y := id >> 3;
    ClearLowBits(id);
    NatShl3(y);
    NatShr3(id);
  }

  lemma NatMaskTwoBits(z: bv16)
    ensures Nat(z & 3) == Nat(z) % 4
  {
    var w := z & 3;
    assert w >> 1 == (z >> 1) & ROOT_MASK && LowBit(w) == LowBit(z);
    assert Nat(w) == 2 * Nat(w >> 1) + LowBit(w) by { NatLowBit(w); }
    assert Nat((z >> 1) & ROOT_MASK) == Nat(z >> 1) % 2 by { NatMaskRoot(z >> 1); }
    assert Nat(z >> 1) == Nat(z) / 2 && LowBit(z) == Nat(z) % 2 by { NatLowBit(z); }
    ModFour(Nat(z));
  }

  // Bit-level and arithmetic steps of the proofs above.

  lemma ClearLowBits(id: Id)
    ensures id & LOCALNET_ID_MASK == (id >> 3) << 3 && id >> 3 < 0x2000
  {
  }

  lemma NatCompose(localnetId: bv16, loc: LocalNetworkLocation, root: bool)
    requires localnetId < 0x2000
    ensures Nat((localnetId << LOCALNET_ID_SHIFT) | LocationCode(loc) | RootCode(root))
         == 8 * Nat(localnetId) + Nat(LocationCode(loc)) + (if root then 1 else 0)
  {
    var id := (localnetId << LOCALNET_ID_SHIFT) | LocationCode(loc) | RootCode(root);
    DecodeComposedBits(localnetId, loc, root);
    ValueRoundTrip(id);
  }

  lemma DecodeComposedBits(localnetId: bv16, loc: LocalNetworkLocation, root: bool)
    requires localnetId < 0x2000
    ensures var id := (localnetId << LOCALNET_ID_SHIFT) | LocationCode(loc) | RootCode(root);
      && GetLocalnetId(id) == localnetId
      && GetRawLocalnetLocation(id) == LocationCode(loc)
      && GetRawRoot(id) == RootCode(root)
  {
  }

  lemma ShiftBackLocalnetId(id: Id)
    ensures ((id & LOCALNET_ID_MASK) >> LOCALNET_ID_SHIFT) << 3 == id & LOCALNET_ID_MASK
  {
  }

  lemma RootBitRaw(id: Id, root: bool)
    ensures WithRoot(id, root) & ROOT_MASK == RootCode(root)
    ensures WithRoot(id, root) & LOCALNET_LOCATION_MASK == id & LOCALNET_LOCATION_MASK
    ensures WithRoot(id, root) & LOCALNET_ID_MASK == id & LOCALNET_ID_MASK
  {
  }

  lemma Recombine(n: nat)
    ensures n == 8 * (n / 8) + 2 * (n / 2 % 4) + n % 2
  {
  }

  lemma ModFour(n: nat)
    ensures 2 * (n / 2 % 2) + n % 2 == n % 4
  {
  }
}
