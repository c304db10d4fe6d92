/**
 * Geometry of the simulated NOR-flash device: a 1 MiB device split into twelve
 * sectors of unequal size, the lookup of a sector by its start address, and the
 * length of each sector.
 */
module FlashGeometry {

  /** Total size of the device in bytes (1 MiB). */
  const FlashSize: nat := 1024 * 1024

  /** Start offsets of the sectors: four of 16 KiB, one of 64 KiB, seven of 128 KiB. */
  const Sectors: seq<nat> := [
    0x00000000, 0x00004000, 0x00008000, 0x0000c000,
    0x00010000, 0x00020000, 0x00040000, 0x00060000,
    0x00080000, 0x000a0000, 0x000c0000, 0x000e0000
  ]

  /** Number of sectors in the table. */
  const NumAreas: nat := |Sectors|

  ghost predicate StrictlyIncreasing(s: seq<nat>) {
    forall i, j :: 0 <= i < j < |s| ==> s[i] < s[j]
  }

  /** The table starts at 0, is strictly increasing, and its last start lies inside the device. */
  lemma SectorsWellFormed()
    ensures NumAreas == 12
    ensures Sectors[0] == 0 && Sectors[NumAreas - 1] < FlashSize
    ensures StrictlyIncreasing(Sectors)
  {
  }

  /**
   * Linear search of the sector table for an exact match on a sector start.
   * Returns the index of that sector, or -1 when no sector starts at address.
   */
  method FindArea(address: nat) returns (r: int)
    ensures -1 <= r < NumAreas
    ensures r >= 0 ==> Sectors[r] == address
    ensures r >= 0 ==> forall j :: 0 <= j < r ==> Sectors[j] != address
    ensures r == -1 <==> address !in Sectors
  {
    for i := 0 to NumAreas
      invariant forall j :: 0 <= j < i ==> Sectors[j] != address
    {
      if Sectors[i] == address {
        return i;
      }
    }
    return -1;
  }

  /**
   * Length of a sector: the distance from its start to the next sector's start,
   * or, for the last sector, to the end of the device.
   */
  function FlashSectorLen(sector: nat): (len: nat)
    requires sector < NumAreas
    ensures len > 0
    ensures sector + 1 < NumAreas ==> Sectors[sector] + len == Sectors[sector + 1]
    ensures sector + 1 == NumAreas ==> Sectors[sector] + len == FlashSize
    ensures Sectors[sector] + len <= FlashSize
  {
    SectorsWellFormed();
    var end := if sector == NumAreas - 1 then FlashSize + Sectors[0] else Sectors[sector + 1];
    end - Sectors[sector]
  }

  /** A sector start names exactly one sector. */
  lemma SectorStartUnique(i: nat, j: nat)
    requires i < NumAreas && j < NumAreas
    requires Sectors[i] == Sectors[j]
    ensures i == j
  {
    SectorsWellFormed();
  }

  /** An address strictly between two consecutive sector starts is not a sector start. */
  lemma BetweenStartsNotStart(i: nat, address: nat)
    requires i + 1 < NumAreas
    requires Sectors[i] < address < Sectors[i + 1]
    ensures address !in Sectors
  {
    SectorsWellFormed();
  }

  /** Sum of the lengths of the first n sectors. */
  ghost function SectorLenSum(n: nat): nat
    requires n <= NumAreas
  {
    if n == 0 then 0 else SectorLenSum(n - 1) + FlashSectorLen(n - 1)
  }

  /** The first n sector lengths add up to the start of sector n; all of them to the device size. */
  lemma {:induction false} SectorLensSum(n: nat)
    requires n <= NumAreas
    ensures n < NumAreas ==> SectorLenSum(n) == Sectors[n]
    ensures n == NumAreas ==> SectorLenSum(n) == FlashSize
  {
    if n == 0 {
      SectorsWellFormed();
    } else {
      SectorLensSum(n - 1);
    }
  }

  /** Address lies inside sector i, that is in [Sectors[i], Sectors[i] + FlashSectorLen(i)). */
  ghost predicate InSector(i: nat, address: nat) {
    i < NumAreas && Sectors[i] <= address < Sectors[i] + FlashSectorLen(i)
  }

  /** The sector, at index k or later, that holds address. */
  ghost function SectorFrom(address: nat, k: nat): (i: nat)
    requires k < NumAreas && Sectors[k] <= address < FlashSize
    ensures k <= i < NumAreas && InSector(i, address)
    decreases NumAreas - k
  {
    if k == NumAreas - 1 || address < Sectors[k + 1] then k else SectorFrom(address, k + 1)
  }

  /** The sectors tile the device: every address lies in exactly one sector. */
  lemma SectorsTile(address: nat)
    requires address < FlashSize
    ensures exists i :: InSector(i, address)
    ensures forall i: nat, j: nat :: InSector(i, address) && InSector(j, address) ==> i == j
  {
    SectorsWellFormed();
    var i := SectorFrom(address, 0);
  }
}
