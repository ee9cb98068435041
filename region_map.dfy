/** Mapping of a calorimeter tower's (eta, phi) channel indices to the two
    region coordinates used to key the pi0-mass accumulation: a 64-way
    flattened sector and a 6-way interface-board (IB) band within each half
    of the eta range. Eta indices 48..95 form the upper half, 0..47 the lower
    half; the tower grid is 96 x 256. */
module RegionMap {

  /** C++ `unsigned int`. */
  type uint32 = x: int | 0 <= x < 0x1_0000_0000

  /** C++ `int`. */
  type int32 = x: int | -0x8000_0000 <= x < 0x8000_0000

  /** Eta index where the upper half begins, and the end of the eta range. */
  const HalfEta: int := 48
  const EtaExtent: int := 96
  /** Azimuthal extent of the tower grid. */
  const PhiExtent: int := 256
  /** Every sector and every IB band is 8 indices wide. */
  const BandWidth: int := 8

  /** The sector of a tower: phi / 8 in the upper half, 32 + phi / 8 in the
      lower half, -1 for eta at or past the end of the range. The sentinel
      appears exactly for out-of-range eta; on the 96 x 256 grid the upper
      half uses sectors 0..31 and the lower half 32..63, and the sector
      recovers the 8-wide phi band. */
  function CustomSectorMapping(eta: uint32, phi: uint32): (sector: int)
    ensures sector == -1 <==> eta >= EtaExtent
    ensures sector != -1 ==> sector >= 0
    ensures eta < EtaExtent && phi < PhiExtent ==>
              0 <= sector < 64
              && (sector < 32 <==> eta >= HalfEta)
              && sector % 32 == phi / BandWidth
  {
    if eta >= 48 && eta < 96 then
      phi / 8
    else if eta < 48 then
      32 + phi / 8
    else
      -1
  }

  /** The IB board of a tower, read off a twelve-row table of 8-wide eta
      bands: counting outward from the centre line eta = 48, the upper half
      numbers its bands 0..5 upward and the lower half 0..5 downward. The
      table equals the closed forms (eta - 48) / 8 and (47 - eta) / 8, and
      -1 outside [0, 96). The phi index takes no part. */
  function CustomIbBoard(eta: int32, phi: int32): (board: int)
    ensures HalfEta <= eta < EtaExtent ==> board == (eta - HalfEta) / BandWidth
    ensures 0 <= eta < HalfEta ==> board == (HalfEta - 1 - eta) / BandWidth
    ensures !(0 <= eta < EtaExtent) ==> board == -1
  {
    if      eta >= 48 && eta < 56 then 0
    else if eta >= 56 && eta < 64 then 1
    else if eta >= 64 && eta < 72 then 2
    else if eta >= 72 && eta < 80 then 3
    else if eta >= 80 && eta < 88 then 4
    else if eta >= 88 && eta < 96 then 5
    else if eta >= 40 && eta < 48 then 0
    else if eta >= 32 && eta < 40 then 1
    else if eta >= 24 && eta < 32 then 2
    else if eta >= 16 && eta < 24 then 3
    else if eta >= 8  && eta < 16 then 4
    else if eta >= 0  && eta < 8  then 5
    else -1
  }

  /** For in-range towers the board lies in [0, 5]. */
  lemma IbBoardRange(eta: int32, phi: int32)
    requires 0 <= eta < EtaExtent
    ensures 0 <= CustomIbBoard(eta, phi) <= 5
  {
  }

  /** The board does not depend on the phi index. */
  lemma IbBoardIgnoresPhi(eta: int32, phi1: int32, phi2: int32)
    ensures CustomIbBoard(eta, phi1) == CustomIbBoard(eta, phi2)
  {
  }

  /** The two halves are mirror images: eta and 95 - eta sit on the same board. */
  lemma IbBoardMirror(eta: int32, phi: int32)
    requires 0 <= eta < EtaExtent
    ensures CustomIbBoard(eta, phi) == CustomIbBoard(EtaExtent - 1 - eta as int, phi)
  {
  }

  /** Sector and board are valid together: for a non-negative eta that both
      signatures can carry, both are non-negative (eta < 96) or both are -1. */
  lemma SectorAndBoardJointlyValid(eta: nat, phi: nat)
    requires eta < 0x8000_0000 && phi < 0x8000_0000
    ensures CustomSectorMapping(eta, phi) >= 0 <==> CustomIbBoard(eta, phi) >= 0
    ensures CustomSectorMapping(eta, phi) == -1 <==> CustomIbBoard(eta, phi) == -1
  {
  }

  /** The sector alone tells which half a tower is in: on the 96 x 256 grid,
      two towers share a sector exactly when they lie in the same half and
      in the same 8-wide phi band. */
  lemma SectorIdentifiesHalfAndPhiBand(eta1: uint32, phi1: uint32, eta2: uint32, phi2: uint32)
    requires eta1 < EtaExtent && phi1 < PhiExtent
    requires eta2 < EtaExtent && phi2 < PhiExtent
    ensures CustomSectorMapping(eta1, phi1) == CustomSectorMapping(eta2, phi2)
            <==> (eta1 >= HalfEta <==> eta2 >= HalfEta) && phi1 / BandWidth == phi2 / BandWidth
  {
  }

  /** The region key (sector, board) of a tower on the 96 x 256 grid names
      exactly one 8 x 8 tile: two towers get the same key if and only if
      they lie in the same eta band and the same phi band. */
  lemma RegionKeyIdentifiesTile(eta1: nat, phi1: nat, eta2: nat, phi2: nat)
    requires eta1 < EtaExtent && phi1 < PhiExtent
    requires eta2 < EtaExtent && phi2 < PhiExtent
    ensures (CustomSectorMapping(eta1, phi1), CustomIbBoard(eta1, phi1))
            == (CustomSectorMapping(eta2, phi2), CustomIbBoard(eta2, phi2))
            <==> eta1 / BandWidth == eta2 / BandWidth && phi1 / BandWidth == phi2 / BandWidth
  {
  }
}
