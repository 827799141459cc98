// The ext filesystem probe of base/loader/src/drivers/extfs.rs: the
// superblock of the ext4 on-disk layout is read from LBA 2 (byte 1024 on
// 512-byte sectors) and its magic number compared with 0xEF53.

module Extfs {
  import opened Common
  import opened Uuid
  import opened BlockIo
  import opened UefiDisk

  /** `size_of::<Ext4Superblock>()`. */
  const SUPERBLOCK_SIZE: nat := 1024
  const SUPERBLOCK_LBA: nat := 2
  /** `s_magic` follows thirteen u32 fields and two u16 fields. */
  const MAGIC_OFFSET: nat := 56
  const EXT_MAGIC: u16 := 0xEF53

  /** `detect`: the superblock is read into zeroed memory and the read's
    * status is ignored; an unknown slice panics in the disk driver. */
  function DetectSpec(reg: seq<SliceEntry>, devices: Devices, slice: Guid): (r: Outcome<bool>)
    requires Backed(reg, devices)
    ensures r.Panic? <==> slice !in Guids(reg)
  {
    match ReadBytesRawSpec(reg, devices, slice, SUPERBLOCK_LBA, SUPERBLOCK_SIZE, Zeros(SUPERBLOCK_SIZE))
    case Panic => Panic
    case Done(res) => Done(Le16(res.1, MAGIC_OFFSET) == EXT_MAGIC)
  }

  method Detect(reg: seq<SliceEntry>, devices: Devices, slice: Guid) returns (r: Outcome<bool>)
    requires Backed(reg, devices)
    ensures r == DetectSpec(reg, devices, slice)
  {
    var sb := new byte[SUPERBLOCK_SIZE](_ => 0);
    assert sb[..] == Zeros(SUPERBLOCK_SIZE);
    var st := UefiDisk.ReadBytesRaw(reg, devices, slice, SUPERBLOCK_LBA, SUPERBLOCK_SIZE, sb);
    if st.Panic? {
      return Panic;
    }
    return Done(sb[MAGIC_OFFSET] as int + 0x100 * sb[MAGIC_OFFSET + 1] as int == EXT_MAGIC as int);
  }

  /** A failed read leaves the zeroed buffer, whose magic is 0. */
  lemma DetectFailedReadIsFalse(reg: seq<SliceEntry>, devices: Devices, slice: Guid)
    requires Backed(reg, devices)
    requires var raw := ReadBytesRawSpec(reg, devices, slice, SUPERBLOCK_LBA, SUPERBLOCK_SIZE, Zeros(SUPERBLOCK_SIZE));
      raw.Done? && raw.value.0.Err?
    ensures DetectSpec(reg, devices, slice) == Done(false)
  {
    var dev := DeviceFor(reg, devices, slice).value;
    assert StagedRead(dev, SUPERBLOCK_LBA, SUPERBLOCK_SIZE, Zeros(SUPERBLOCK_SIZE)).1 == Zeros(SUPERBLOCK_SIZE);
  }

  /** After a successful read, the answer is the magic number stored at
    * byte 56 of the superblock on the medium. */
  lemma DetectReadsMediumMagic(reg: seq<SliceEntry>, devices: Devices, slice: Guid, dev: BlockDevice)
    requires Backed(reg, devices) && DeviceFor(reg, devices, slice) == Done(dev)
    requires StagedRead(dev, SUPERBLOCK_LBA, SUPERBLOCK_SIZE, Zeros(SUPERBLOCK_SIZE)).0.Ok?
    ensures var at := SUPERBLOCK_LBA * dev.blockSize + MAGIC_OFFSET;
      && at + 1 < |dev.media|
      && DetectSpec(reg, devices, slice)
        == Done(dev.media[at] as int + 0x100 * dev.media[at + 1] as int == EXT_MAGIC as int)
  {
    var buf := Zeros(SUPERBLOCK_SIZE);
    ReadOkIsContiguous(dev, SUPERBLOCK_LBA, SUPERBLOCK_SIZE, buf);
    var out := StagedRead(dev, SUPERBLOCK_LBA, SUPERBLOCK_SIZE, buf).1;
    var base := SUPERBLOCK_LBA * dev.blockSize;
    assert out[MAGIC_OFFSET] == out[..SUPERBLOCK_SIZE][MAGIC_OFFSET] == dev.media[base + MAGIC_OFFSET];
    assert out[MAGIC_OFFSET + 1] == out[..SUPERBLOCK_SIZE][MAGIC_OFFSET + 1] == dev.media[base + MAGIC_OFFSET + 1];
  }
}
