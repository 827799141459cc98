// The slice registry and byte-count reads of the firmware disk driver
// (base/loader/src/firmware/arch/x86/uefi/disk.rs). Slices are looked up
// by GUID; a read of any byte count is split into a run of whole blocks
// and a one-block scratch read for the remainder.

module FirmwareDisk {
  import opened Common
  import opened Uuid
  import opened BlockIo

  /** A slice (partition) and the EFI handle of its block device. */
  datatype DiskSliceInfo = DiskSliceInfo(guid: Guid, handle: Handle)

  /** The static `DISK_SLICE_INFO`, which `init` publishes once. */
  class DiskSliceTable {
    var entries: seq<DiskSliceInfo>

    constructor ()
      ensures entries == []
    {
      entries := [];
    }

    /** `init` after the handle probe: the probe's slices are published
      * only after asserting that there is at least one. */
    method Init(partitionEntries: seq<DiskSliceInfo>) returns (r: Outcome<()>)
      modifies this
      ensures r.Done? <==> partitionEntries != []
      ensures r.Done? ==> entries == partitionEntries
      ensures r.Panic? ==> entries == old(entries)
    {
      if partitionEntries == [] {
        return Panic;
      }
      entries := partitionEntries;
      return Done(());
    }
  }

  /** Every registered slice's handle carries a block I/O protocol: the
    * probe only registers such handles. */
  predicate Backed(reg: seq<DiskSliceInfo>, devices: Devices) {
    forall i :: 0 <= i < |reg| ==> reg[i].handle in devices
  }

  /** The GUIDs of the registry, in order. */
  function Guids(reg: seq<DiskSliceInfo>): (r: seq<Guid>)
    ensures |r| == |reg| && forall i :: 0 <= i < |reg| ==> r[i] == reg[i].guid
  {
    seq(|reg|, i requires 0 <= i < |reg| => reg[i].guid)
  }

  /** `lookup_handle`: the handle of the first slice whose GUID string
    * equals the query's; an empty registry or no match panics. */
  method LookupHandle(reg: seq<DiskSliceInfo>, guid: Guid) returns (r: Outcome<Handle>)
    ensures r.Done? <==> FirstTextMatch(Guids(reg), guid).Some?
    ensures r.Done? ==> r.value == reg[FirstTextMatch(Guids(reg), guid).value].handle
  {
    if reg == [] {
      return Panic;
    }
    var i := 0;
    while i < |reg|
      invariant 0 <= i <= |reg|
      invariant forall j :: 0 <= j < i ==> AsString(reg[j].guid) != AsString(guid)
    {
      if AsString(reg[i].guid) == AsString(guid) {
        TextMatchAt(Guids(reg), guid, i);
        return Done(reg[i].handle);
      }
      i := i + 1;
    }
    TextMatchNone(Guids(reg), guid);
    return Panic;
  }

  /** `find_slice`: the first slice with an equal GUID; an empty registry or
    * no match panics. */
  method FindSlice(reg: seq<DiskSliceInfo>, guid: Guid) returns (r: Outcome<DiskSliceInfo>)
    ensures r.Done? <==> FirstIndex(Guids(reg), guid).Some?
    ensures r.Done? ==> r.value == reg[FirstIndex(Guids(reg), guid).value]
  {
    if reg == [] {
      return Panic;
    }
    for i := 0 to |reg|
      invariant forall j :: 0 <= j < i ==> reg[j].guid != guid
    {
      if reg[i].guid == guid {
        FirstIndexAt(Guids(reg), guid, i);
        return Done(reg[i]);
      }
    }
    return Panic;
  }

  /** The block device behind a slice. `lookup_handle` compares printed
    * GUIDs, which finds the same entry as comparing fields
    * (`Uuid.TextMatchIsFieldMatch`). */
  function DeviceFor(reg: seq<DiskSliceInfo>, devices: Devices, guid: Guid): Outcome<BlockDevice>
    requires Backed(reg, devices)
  {
    match FirstIndex(Guids(reg), guid)
    case None => Panic
    case Some(i) => Done(devices[reg[i].handle])
  }

  /** `get_phys_block_size`. */
  method GetPhysBlockSize(reg: seq<DiskSliceInfo>, devices: Devices, slice: Guid) returns (r: Outcome<BlockSize>)
    requires Backed(reg, devices)
    ensures r.Done? <==> DeviceFor(reg, devices, slice).Done?
    ensures r.Done? ==> r.value == DeviceFor(reg, devices, slice).value.blockSize
  {
    var h := LookupHandle(reg, slice);
    TextMatchIsFieldMatch(Guids(reg), slice);
    if h.Panic? {
      return Panic;
    }
    return Done(devices[h.value].blockSize);
  }

  /** The outcome of `read_blocks`: the size must be a whole number of
    * blocks (an `assert_eq!`), then the status decides. */
  function ReadBlocksOutcome(reg: seq<DiskSliceInfo>, devices: Devices, guid: Guid, lba: nat, size: nat): Outcome<Result<(), string>>
    requires Backed(reg, devices)
  {
    match DeviceFor(reg, devices, guid)
    case Panic => Panic
    case Done(dev) =>
      if size % dev.blockSize != 0 then Panic else Done(StatusResult(ReadStatus(dev, lba, size)))
  }

  /** `read_blocks`. */
  method ReadBlocks(reg: seq<DiskSliceInfo>, devices: Devices, guid: Guid, lba: nat, size: nat, buffer: array<byte>)
    returns (r: Outcome<Result<(), string>>)
    requires Backed(reg, devices) && size <= buffer.Length
    modifies buffer
    ensures r == ReadBlocksOutcome(reg, devices, guid, lba, size)
    ensures r.Done? ==> buffer[..] == AfterRead(DeviceFor(reg, devices, guid).value, lba, size, old(buffer[..]))
    ensures r.Panic? ==> buffer[..] == old(buffer[..])
  {
    var h := LookupHandle(reg, guid);
    TextMatchIsFieldMatch(Guids(reg), guid);
    if h.Panic? {
      return Panic;
    }
    var dev := devices[h.value];
    if size % dev.blockSize != 0 {
      return Panic;
    }
    var status := BlockIo.ReadBlocks(dev, lba, size, buffer);
    return Done(StatusResult(status));
  }

  /** The bytes the split path leaves in `buffer[..count]`: the whole blocks
    * from `lba`, then the first `count % bs` bytes of a block read at `lba`
    * again. */
  function SplitBytes(dev: BlockDevice, lba: nat, count: nat): (r: seq<byte>)
    requires ReadStatus(dev, lba, WholeBlocks(count, dev.blockSize)) == EFI_SUCCESS
    requires ReadStatus(dev, lba, dev.blockSize) == EFI_SUCCESS
    ensures |r| == count
  {
    var full := WholeBlocks(count, dev.blockSize);
    BlockData(dev, lba, full) + BlockData(dev, lba, dev.blockSize)[..count % dev.blockSize]
  }

  /** What `read_bytes_raw` returns and leaves in the caller's buffer, as
    * written. */
  function ReadBytesRawSpec(reg: seq<DiskSliceInfo>, devices: Devices, slice: Guid, lba: nat, count: nat, buf: seq<byte>)
    : Outcome<(Result<(), string>, seq<byte>)>
    requires Backed(reg, devices) && count <= |buf|
  {
    match DeviceFor(reg, devices, slice)
    case Panic => Panic
    case Done(dev) =>
      var bs := dev.blockSize;
      if count % bs == 0 then
        Done((StatusResult(ReadStatus(dev, lba, count)), AfterRead(dev, lba, count, buf)))
      else if ReadStatus(dev, lba, WholeBlocks(count, bs)) != EFI_SUCCESS || ReadStatus(dev, lba, bs) != EFI_SUCCESS then
        Panic
      else
        Done((Ok(()), SplitBytes(dev, lba, count) + buf[count..]))
  }

  /** `read_bytes_raw`, as written: an aligned count is one `read_blocks`
    * whose error is returned; otherwise both reads are unwrapped, and the
    * remainder is copied from a scratch block read at `lba`. */
  method ReadBytesRaw(reg: seq<DiskSliceInfo>, devices: Devices, slice: Guid, lba: nat, count: nat, buffer: array<byte>)
    returns (r: Outcome<Result<(), string>>)
    requires Backed(reg, devices) && count <= buffer.Length
    modifies buffer
    ensures var spec := ReadBytesRawSpec(reg, devices, slice, lba, count, old(buffer[..]));
      r.Done? <==> spec.Done?
    ensures var spec := ReadBytesRawSpec(reg, devices, slice, lba, count, old(buffer[..]));
      r.Done? ==> r.value == spec.value.0 && buffer[..] == spec.value.1
  {
    var bs := GetPhysBlockSize(reg, devices, slice);
    if bs.Panic? {
      return Panic;
    }
    var blockSize := bs.value;
    ghost var dev := DeviceFor(reg, devices, slice).value;
    if count % blockSize == 0 {
      r := ReadBlocks(reg, devices, slice, lba, count, buffer);
      return;
    }
    var fullCount := WholeBlocks(count, blockSize);
    var rem := count % blockSize;
    assert fullCount + rem == count;
    var r1 := ReadBlocks(reg, devices, slice, lba, fullCount, buffer);
    if r1.Panic? || r1.value.Err? {
      return Panic;
    }
    var tmp := new byte[blockSize];
    var r2 := ReadBlocks(reg, devices, slice, lba, blockSize, tmp);
    if r2.Panic? || r2.value.Err? {
      return Panic;
    }
    ghost var afterFirst := buffer[..];
    CopyInto(buffer, fullCount, tmp, rem);
    SplitAssembly(dev, lba, count, old(buffer[..]), afterFirst, tmp[..], buffer[..]);
    return Done(Ok(()));
  }

  lemma SplitAssembly(dev: BlockDevice, lba: nat, count: nat, orig: seq<byte>, afterFirst: seq<byte>, tmp: seq<byte>, final: seq<byte>)
    requires count <= |orig| && |tmp| == dev.blockSize
    requires ReadStatus(dev, lba, WholeBlocks(count, dev.blockSize)) == EFI_SUCCESS
    requires ReadStatus(dev, lba, dev.blockSize) == EFI_SUCCESS
    requires afterFirst == AfterRead(dev, lba, WholeBlocks(count, dev.blockSize), orig)
    requires tmp == BlockData(dev, lba, dev.blockSize)
    requires var full := WholeBlocks(count, dev.blockSize);
      final == afterFirst[..full] + tmp[..count % dev.blockSize] + afterFirst[count..]
    ensures final == SplitBytes(dev, lba, count) + orig[count..]
  {
    var full := WholeBlocks(count, dev.blockSize);
    assert afterFirst[..full] == BlockData(dev, lba, full);
    assert afterFirst[count..] == orig[count..];
  }

  /** The remainder comes from the first block of the read rather than from
    * the block that follows the whole ones: `buffer[full..count]` holds the
    * first `count % bs` bytes at `lba`. */
  lemma RemainderFromFirstBlock(dev: BlockDevice, lba: nat, count: nat)
    requires ReadStatus(dev, lba, WholeBlocks(count, dev.blockSize)) == EFI_SUCCESS
    requires ReadStatus(dev, lba, dev.blockSize) == EFI_SUCCESS
    ensures var full := WholeBlocks(count, dev.blockSize);
      SplitBytes(dev, lba, count)[full..] == dev.media[lba * dev.blockSize..lba * dev.blockSize + count % dev.blockSize]
  {
  }

  /** An input that shows it: three bytes from a device of two-byte blocks
    * holding 0, 0, 1, 1 deliver 0, 0, 0 instead of 0, 0, 1. */
  lemma RemainderWrongExample()
    ensures var dev := BlockDevice([0, 0, 1, 1], 2, 0);
      ReadStatus(dev, 0, 2) == EFI_SUCCESS
      && SplitBytes(dev, 0, 3) == [0, 0, 0]
      && dev.media[0..3] == [0, 0, 1]
  {
    var dev := BlockDevice([0, 0, 1, 1], 2, 0);
    assert 3 / 2 * 2 == 2;
    assert BlockData(dev, 0, 2) == [0, 0];
  }

  /** The split path is right when the whole read fits in one block. */
  lemma ShortSplitReadIsRight(dev: BlockDevice, lba: nat, count: nat)
    requires count < dev.blockSize
    requires ReadStatus(dev, lba, dev.blockSize) == EFI_SUCCESS
    ensures ReadStatus(dev, lba, WholeBlocks(count, dev.blockSize)) == EFI_SUCCESS
    ensures SplitBytes(dev, lba, count) == dev.media[lba * dev.blockSize..lba * dev.blockSize + count]
  {
    assert count / dev.blockSize == 0;
  }

  /** Only `buffer[..count]` is ever written, on every path. */
  lemma WritesOnlyCount(reg: seq<DiskSliceInfo>, devices: Devices, slice: Guid, lba: nat, count: nat, buf: seq<byte>)
    requires Backed(reg, devices) && count <= |buf|
    ensures var spec := ReadBytesRawSpec(reg, devices, slice, lba, count, buf);
      spec.Done? ==> |spec.value.1| == |buf| && spec.value.1[count..] == buf[count..]
  {
  }

  /** A device error on the aligned path is returned as `Err`; on the split
    * path it panics through `unwrap`. */
  lemma ErrorPaths(reg: seq<DiskSliceInfo>, devices: Devices, slice: Guid, lba: nat, count: nat, buf: seq<byte>)
    requires Backed(reg, devices) && count <= |buf|
    requires DeviceFor(reg, devices, slice).Done?
    requires DeviceFor(reg, devices, slice).value.fault != 0
    ensures var spec := ReadBytesRawSpec(reg, devices, slice, lba, count, buf);
      var dev := DeviceFor(reg, devices, slice).value;
      if count % dev.blockSize == 0 then
        spec.Done? && spec.value.0 == Err("EFI ERROR: " + Decimal(dev.fault)) && spec.value.1 == buf
      else spec.Panic?
  {
  }

  // ---------------------------------------------------------------
  // The evidently intended read: the remainder block follows the whole ones
  // ---------------------------------------------------------------

  function FixedSplitBytes(dev: BlockDevice, lba: nat, count: nat): (r: seq<byte>)
    requires ReadStatus(dev, lba, WholeBlocks(count, dev.blockSize)) == EFI_SUCCESS
    requires ReadStatus(dev, lba + count / dev.blockSize, dev.blockSize) == EFI_SUCCESS
    ensures |r| == count
  {
    var full := WholeBlocks(count, dev.blockSize);
    BlockData(dev, lba, full) + BlockData(dev, lba + count / dev.blockSize, dev.blockSize)[..count % dev.blockSize]
  }

  /** With the scratch block read at `lba + full / bs`, the buffer receives
    * exactly `count` consecutive bytes of the medium starting at block `lba`. */
  lemma FixedSplitIsContiguous(dev: BlockDevice, lba: nat, count: nat)
    requires ReadStatus(dev, lba, WholeBlocks(count, dev.blockSize)) == EFI_SUCCESS
    requires ReadStatus(dev, lba + count / dev.blockSize, dev.blockSize) == EFI_SUCCESS
    ensures FixedSplitBytes(dev, lba, count) == dev.media[lba * dev.blockSize..lba * dev.blockSize + count]
  {
    var bs := dev.blockSize;
    var full := WholeBlocks(count, bs);
    var start := lba * bs;
    assert (lba + count / bs) * bs == start + full by {
      MulAdd(lba, count / bs, bs);
    }
    var tail := BlockData(dev, lba + count / bs, bs)[..count % bs];
    assert tail == dev.media[start + full..start + count];
    assert BlockData(dev, lba, full) == dev.media[start..start + full];
  }

  lemma FixedAssembly(dev: BlockDevice, lba: nat, count: nat, orig: seq<byte>, afterFirst: seq<byte>, tmp: seq<byte>, final: seq<byte>)
    requires count <= |orig| && |tmp| == dev.blockSize
    requires ReadStatus(dev, lba, WholeBlocks(count, dev.blockSize)) == EFI_SUCCESS
    requires ReadStatus(dev, lba + count / dev.blockSize, dev.blockSize) == EFI_SUCCESS
    requires afterFirst == AfterRead(dev, lba, WholeBlocks(count, dev.blockSize), orig)
    requires tmp == BlockData(dev, lba + count / dev.blockSize, dev.blockSize)
    requires var full := WholeBlocks(count, dev.blockSize);
      final == afterFirst[..full] + tmp[..count % dev.blockSize] + afterFirst[count..]
    ensures lba * dev.blockSize + count <= |dev.media|
    ensures final[..count] == dev.media[lba * dev.blockSize..lba * dev.blockSize + count]
    ensures final[count..] == orig[count..]
  {
    var full := WholeBlocks(count, dev.blockSize);
    var head := BlockData(dev, lba, full);
    PrefixOfConcat(head, orig[full..], afterFirst);
    SuffixFrom(afterFirst, orig, full, count);
    ThreeParts(final, afterFirst[..full], tmp[..count % dev.blockSize], afterFirst[count..], count);
    FixedSplitIsContiguous(dev, lba, count);
  }

  lemma PrefixOfConcat(u: seq<byte>, v: seq<byte>, w: seq<byte>)
    requires w == u + v
    ensures w[..|u|] == u
  {
  }

  lemma SuffixFrom(a: seq<byte>, b: seq<byte>, n: nat, m: nat)
    requires n <= m <= |a| == |b| && a[n..] == b[n..]
    ensures a[m..] == b[m..]
  {
    assert forall k :: m <= k < |a| ==> a[k] == a[n..][k - n];
  }

  lemma ThreeParts(w: seq<byte>, x: seq<byte>, y: seq<byte>, z: seq<byte>, n: nat)
    requires w == x + y + z && |x| + |y| == n
    ensures w[..n] == x + y && w[n..] == z
  {
  }

  /** What the corrected `read_bytes_raw` returns and leaves in the buffer:
    * as written, except that the scratch block is read at the block after
    * the whole ones. */
  function ReadBytesRawFixedSpec(reg: seq<DiskSliceInfo>, devices: Devices, slice: Guid, lba: nat, count: nat, buf: seq<byte>)
    : Outcome<(Result<(), string>, seq<byte>)>
    requires Backed(reg, devices) && count <= |buf|
  {
    match DeviceFor(reg, devices, slice)
    case Panic => Panic
    case Done(dev) =>
      var bs := dev.blockSize;
      if count % bs == 0 then
        Done((StatusResult(ReadStatus(dev, lba, count)), AfterRead(dev, lba, count, buf)))
      else if ReadStatus(dev, lba, WholeBlocks(count, bs)) != EFI_SUCCESS
           || ReadStatus(dev, lba + count / bs, bs) != EFI_SUCCESS then
        Panic
      else
        Done((Ok(()), FixedSplitBytes(dev, lba, count) + buf[count..]))
  }

  /** The bytes of the blocks the corrected read transfers: `count` itself
    * when it is whole blocks, otherwise the whole blocks and one more. */
  function CoveredBytes(count: nat, bs: BlockSize): (n: nat)
    ensures count <= n < count + bs
    ensures n % bs == 0
  {
    if count % bs == 0 then count
    else
      var full := WholeBlocks(count, bs);
      var q := count / bs;
      DivModFacts(count, bs);
      MulAdd(q, 1, bs);
      DivUnique(full + bs, bs, q + 1, 0);
      full + bs
  }

  /** The corrected read succeeds exactly when the device works and every
    * block it transfers lies on the medium; it then delivers the `count`
    * medium bytes from block `lba` and keeps the rest of the buffer. When
    * it fails, a whole-block read returns the device's `Err` with the
    * buffer as it was, and any other read panics in `unwrap`. */
  lemma FixedReadOutcome(reg: seq<DiskSliceInfo>, devices: Devices, slice: Guid, lba: nat, count: nat, buf: seq<byte>)
    requires Backed(reg, devices) && count <= |buf|
    requires DeviceFor(reg, devices, slice).Done?
    ensures var dev := DeviceFor(reg, devices, slice).value;
      var spec := ReadBytesRawFixedSpec(reg, devices, slice, lba, count, buf);
      var ok := dev.fault == 0 && lba * dev.blockSize + CoveredBytes(count, dev.blockSize) <= |dev.media|;
      && (ok ==> spec == Done((Ok(()), dev.media[lba * dev.blockSize..lba * dev.blockSize + count] + buf[count..])))
      && (!ok && count % dev.blockSize == 0 ==> spec.Done? && spec.value.0.Err? && spec.value.1 == buf)
      && (!ok && count % dev.blockSize != 0 ==> spec == Panic)
  {
    var dev := DeviceFor(reg, devices, slice).value;
    var bs := dev.blockSize;
    if count % bs != 0 {
      var full := WholeBlocks(count, bs);
      assert (lba + count / bs) * bs == lba * bs + full by {
        MulAdd(lba, count / bs, bs);
      }
      if ReadStatus(dev, lba, full) == EFI_SUCCESS && ReadStatus(dev, lba + count / bs, bs) == EFI_SUCCESS {
        FixedSplitIsContiguous(dev, lba, count);
      }
    }
  }

  /** `read_bytes_raw` with the remainder read at the following block. */
  method ReadBytesRawFixed(reg: seq<DiskSliceInfo>, devices: Devices, slice: Guid, lba: nat, count: nat, buffer: array<byte>)
    returns (r: Outcome<Result<(), string>>)
    requires Backed(reg, devices) && count <= buffer.Length
    modifies buffer
    ensures var spec := ReadBytesRawFixedSpec(reg, devices, slice, lba, count, old(buffer[..]));
      r.Done? <==> spec.Done?
    ensures var spec := ReadBytesRawFixedSpec(reg, devices, slice, lba, count, old(buffer[..]));
      r.Done? ==> r.value == spec.value.0 && buffer[..] == spec.value.1
    ensures r.Done? ==> DeviceFor(reg, devices, slice).Done?
    ensures r.Done? && r.value.Ok? ==> var dev := DeviceFor(reg, devices, slice).value;
      lba * dev.blockSize + count <= |dev.media|
      && buffer[..count] == dev.media[lba * dev.blockSize..lba * dev.blockSize + count]
    ensures r.Done? ==> buffer[count..] == old(buffer[count..])
  {
    var bs := GetPhysBlockSize(reg, devices, slice);
    if bs.Panic? {
      return Panic;
    }
    ghost var dev := DeviceFor(reg, devices, slice).value;
    ghost var orig := buffer[..];
    FixedReadOutcome(reg, devices, slice, lba, count, orig);
    if count % bs.value == 0 {
      r := ReadBlocks(reg, devices, slice, lba, count, buffer);
    } else {
      r := ReadSplitFixed(reg, devices, slice, lba, count, bs.value, buffer);
    }
    if r.Done? && r.value.Ok? {
      assert buffer[..] == dev.media[lba * dev.blockSize..lba * dev.blockSize + count] + orig[count..];
      assert buffer[..count] == dev.media[lba * dev.blockSize..lba * dev.blockSize + count];
    }
  }

  /** The unaligned path of the corrected read: the whole blocks straight
    * into the buffer, then the block after them through a scratch block. */
  method ReadSplitFixed(reg: seq<DiskSliceInfo>, devices: Devices, slice: Guid, lba: nat, count: nat,
                        blockSize: BlockSize, buffer: array<byte>)
    returns (r: Outcome<Result<(), string>>)
    requires Backed(reg, devices) && count <= buffer.Length
    requires DeviceFor(reg, devices, slice).Done? && DeviceFor(reg, devices, slice).value.blockSize == blockSize
    requires count % blockSize != 0
    modifies buffer
    ensures var spec := ReadBytesRawFixedSpec(reg, devices, slice, lba, count, old(buffer[..]));
      (r.Done? <==> spec.Done?) && (r.Done? ==> r.value == spec.value.0 && buffer[..] == spec.value.1)
  {
    ghost var dev := DeviceFor(reg, devices, slice).value;
    var fullCount := WholeBlocks(count, blockSize);
    var rem := count % blockSize;
    var r1 := ReadBlocks(reg, devices, slice, lba, fullCount, buffer);
    if r1.Panic? || r1.value.Err? {
      return Panic;
    }
    var tmp := new byte[blockSize];
    var r2 := ReadBlocks(reg, devices, slice, lba + fullCount / blockSize, blockSize, tmp);
    if r2.Panic? || r2.value.Err? {
      return Panic;
    }
    ghost var afterFirst := buffer[..];
    CopyInto(buffer, fullCount, tmp, rem);
    FixedAssembly(dev, lba, count, old(buffer[..]), afterFirst, tmp[..], buffer[..]);
    FixedFinal(dev, lba, count, old(buffer[..]), buffer[..]);
    return Done(Ok(()));
  }

  /** The buffer the split path leaves is the one `ReadBytesRawFixedSpec`
    * gives. */
  lemma FixedFinal(dev: BlockDevice, lba: nat, count: nat, orig: seq<byte>, final: seq<byte>)
    requires count <= |orig| == |final|
    requires ReadStatus(dev, lba, WholeBlocks(count, dev.blockSize)) == EFI_SUCCESS
    requires ReadStatus(dev, lba + count / dev.blockSize, dev.blockSize) == EFI_SUCCESS
    requires lba * dev.blockSize + count <= |dev.media|
    requires final[..count] == dev.media[lba * dev.blockSize..lba * dev.blockSize + count]
    requires final[count..] == orig[count..]
    ensures final == FixedSplitBytes(dev, lba, count) + orig[count..]
  {
    FixedSplitIsContiguous(dev, lba, count);
    assert final == final[..count] + final[count..];
  }
}
