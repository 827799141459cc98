// The older FAT classifier of base/loader/src/drivers/fat32.rs. Its BPB
// record declares a 16-bit hidden-sector count, so it is modelled over the
// decoded record rather than over byte offsets.

module Fat32 {
  import opened Common
  import Fat

  /** The fields of `BIOSParameterBlock` that `check` reads. */
  datatype LegacyBpb = LegacyBpb(
    bytesPerSector: u16,
    sectorsPerCluster: u8,
    reservedSectorCnt: u16,
    numFats: u8,
    rootEntryCount: u16,
    totalSectorsLegacy: u16,
    sectorsPerFatLegacy: u16,
    totalSectorsNew: u32,
    sectorsPerFatNew: u32)

  /** The sectors-per-FAT and total-sector counts `check` uses: the legacy
    * pair only when BOTH legacy fields are nonzero, otherwise the 32-bit
    * pair. */
  function Counts(bpb: LegacyBpb): (r: (u32, u32))
    ensures bpb.sectorsPerFatLegacy != 0 && bpb.totalSectorsLegacy != 0 ==>
      r == (bpb.sectorsPerFatLegacy as u32, bpb.totalSectorsLegacy as u32)
    ensures bpb.sectorsPerFatLegacy == 0 || bpb.totalSectorsLegacy == 0 ==>
      r == (bpb.sectorsPerFatNew, bpb.totalSectorsNew)
  {
    if bpb.sectorsPerFatLegacy != 0 && bpb.totalSectorsLegacy != 0 then
      (bpb.sectorsPerFatLegacy as u32, bpb.totalSectorsLegacy as u32)
    else (bpb.sectorsPerFatNew, bpb.totalSectorsNew)
  }

  /** `TypeOfFAT::check`, in wrapping u16/u32 arithmetic; a zero sector
    * size or cluster size divides by zero. */
  function Check(bpb: LegacyBpb): (r: Outcome<Fat.FatType>)
    ensures r.Panic? <==> bpb.bytesPerSector == 0 || bpb.sectorsPerCluster == 0
  {
    if bpb.bytesPerSector == 0 || bpb.sectorsPerCluster == 0 then Panic
    else Done(Fat.Classify(Quot(DataSectors(bpb, Counts(bpb).0, Counts(bpb).1), bpb.sectorsPerCluster)))
  }

  /** `total - (rsvd + numfats * spf + root_dir_sectors)` in u32, with the
    * root directory sectors in u16. */
  function DataSectors(bpb: LegacyBpb, spf: u32, total: u32): u32
    requires bpb.bytesPerSector > 0
  {
    var rds := Quot(Wrap16(Wrap16(bpb.rootEntryCount * 32) + (bpb.bytesPerSector - 1)), bpb.bytesPerSector);
    Wrap32(total - Wrap32(Wrap32(bpb.reservedSectorCnt + Wrap32(bpb.numFats * spf)) + rds))
  }

  /** The same fields read from the driver's BPB. */
  function FromBpb(b: Fat.Bpb): LegacyBpb {
    LegacyBpb(b.bytsPerSec, b.secPerClus, b.rsvdSecCnt, b.numFats, b.rootEntCnt, b.totSec16, b.fatSz16,
              b.totSec32, b.fatSz32)
  }

  /** The two classifiers agree whenever the two 16-bit fields are both zero
    * or both nonzero. */
  lemma CheckAgreesWithDetect(b: Fat.Bpb)
    requires (b.fatSz16 == 0) == (b.totSec16 == 0)
    ensures Check(FromBpb(b)) == Fat.DetectFatType(b)
  {
    var l := FromBpb(b);
    assert Counts(l) == (Fat.FatSize(b), Fat.TotalSectors(b));
  }

  /** When only one 16-bit field is set they can disagree: `detect_fat_type`
    * mixes the legacy FAT size with the 32-bit sector count. */
  lemma CheckDisagreesWithDetect()
    ensures var b := Fat.Bpb(512, 1, 0, 1, 0, 0, 1, 100000, 50000, 2);
      Check(FromBpb(b)) == Done(Fat.FAT16) && Fat.DetectFatType(b) == Done(Fat.FAT32)
  {
    var b := Fat.Bpb(512, 1, 0, 1, 0, 0, 1, 100000, 50000, 2);
    assert Fat.RootDirSectors(b) == Done(0);
    assert Fat.FirstDataSector(b, 0) == 1;
  }

  /** Without overflow, `check` is the determination of section 3.5 of the
    * FAT specification on the counts it selects. */
  lemma CheckIsSpecification(bpb: LegacyBpb)
    requires bpb.bytesPerSector > 0 && bpb.sectorsPerCluster > 0
    requires bpb.rootEntryCount * 32 + bpb.bytesPerSector - 1 < U16_MOD
    requires bpb.reservedSectorCnt + bpb.numFats * Counts(bpb).0
      + Fat.CeilDiv(bpb.rootEntryCount * 32, bpb.bytesPerSector) <= Counts(bpb).1
    ensures Check(bpb) == Done(Fat.Classify(
      (Counts(bpb).1 - (bpb.reservedSectorCnt + bpb.numFats * Counts(bpb).0
        + Fat.CeilDiv(bpb.rootEntryCount * 32, bpb.bytesPerSector))) / bpb.sectorsPerCluster))
  {
    DataSectorsExact(bpb, Counts(bpb).0, Counts(bpb).1, bpb.numFats * Counts(bpb).0);
  }

  lemma DataSectorsExact(bpb: LegacyBpb, spf: u32, total: u32, p: nat)
    requires bpb.bytesPerSector > 0 && p == bpb.numFats * spf
    requires bpb.rootEntryCount * 32 + bpb.bytesPerSector - 1 < U16_MOD
    requires bpb.reservedSectorCnt + p + Fat.CeilDiv(bpb.rootEntryCount * 32, bpb.bytesPerSector) <= total
    ensures DataSectors(bpb, spf, total)
      == total - (bpb.reservedSectorCnt + p + Fat.CeilDiv(bpb.rootEntryCount * 32, bpb.bytesPerSector))
  {
    var x, b := bpb.rootEntryCount * 32, bpb.bytesPerSector;
    Wrap16Id(x);
    Wrap16Id(x + (b - 1));
    var rds := Fat.CeilDiv(x, b);
    Fat.NoWrapSum(bpb.reservedSectorCnt, p, rds);
    Wrap32Id(total - (bpb.reservedSectorCnt + p + rds));
  }

  /** `open` ignores its arguments and returns 100 zero bytes. */
  function Open(device: string, path: string): (r: Result<seq<byte>, ()>)
    ensures r.Ok? && |r.value| == 100 && forall k :: 0 <= k < 100 ==> r.value[k] == 0
  {
    Ok(Zeros(100))
  }
}
