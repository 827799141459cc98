// The firmware's block device, as EFI_BLOCK_IO_PROTOCOL.ReadBlocks
// (section 13.9 of the UEFI Specification 2.10) presents it to the loader:
// whole blocks only, starting at a logical block address.

module BlockIo {
  import opened Common

  type BlockSize = n: nat | n > 0 witness 512

  /** An EFI handle; the loader only compares and passes them on. */
  type Handle = nat

  /** A medium: its bytes, its block size, and a fault status that a broken
    * device reports on every call (0 for a working device). */
  datatype BlockDevice = BlockDevice(media: seq<byte>, blockSize: BlockSize, fault: u32)

  /** The firmware's handle database, restricted to handles that carry a
    * block I/O protocol. */
  type Devices = map<Handle, BlockDevice>

  /** Low 32 bits of the EFI_STATUS codes, as the 32-bit `read_blocks`
    * binding returns them. */
  const EFI_SUCCESS: u32 := 0
  const EFI_INVALID_PARAMETER: u32 := 2
  const EFI_BAD_BUFFER_SIZE: u32 := 4

  /** The status of reading `n` bytes at block `lba`: success exactly when
    * the device works, `n` is whole blocks and they lie on the medium; a
    * broken device reports its own fault first. */
  function ReadStatus(dev: BlockDevice, lba: nat, n: nat): (r: u32)
    ensures r == EFI_SUCCESS <==> dev.fault == 0 && n % dev.blockSize == 0 && lba * dev.blockSize + n <= |dev.media|
    ensures dev.fault != 0 ==> r == dev.fault
  {
    if dev.fault != 0 then dev.fault
    else if n % dev.blockSize != 0 then EFI_BAD_BUFFER_SIZE
    else if lba * dev.blockSize + n > |dev.media| then EFI_INVALID_PARAMETER
    else EFI_SUCCESS
  }

  /** The bytes a successful read delivers. */
  function BlockData(dev: BlockDevice, lba: nat, n: nat): (r: seq<byte>)
    requires ReadStatus(dev, lba, n) == EFI_SUCCESS
    ensures |r| == n
  {
    dev.media[lba * dev.blockSize..lba * dev.blockSize + n]
  }

  /** The buffer after a read of `n` bytes: on success its first `n` bytes
    * hold the blocks, on failure it is left as it was. */
  function AfterRead(dev: BlockDevice, lba: nat, n: nat, buf: seq<byte>): (r: seq<byte>)
    requires n <= |buf|
    ensures |r| == |buf|
    ensures r[n..] == buf[n..]
  {
    if ReadStatus(dev, lba, n) == EFI_SUCCESS then BlockData(dev, lba, n) + buf[n..] else buf
  }

  /** The firmware call itself: it fills the buffer in place. */
  method ReadBlocks(dev: BlockDevice, lba: nat, n: nat, buffer: array<byte>) returns (status: u32)
    requires n <= buffer.Length
    modifies buffer
    ensures status == ReadStatus(dev, lba, n)
    ensures buffer[..] == AfterRead(dev, lba, n, old(buffer[..]))
  {
    status := ReadStatus(dev, lba, n);
    if status == EFI_SUCCESS {
      var data := BlockData(dev, lba, n);
      for k := 0 to n
        invariant buffer[..k] == data[..k] && buffer[k..] == old(buffer[k..])
      {
        buffer[k] := data[k];
      }
    }
  }

  /** What the disk drivers make of a firmware status: `Ok` for success,
    * otherwise the message `EFI ERROR: ` and the status in decimal. */
  function StatusResult(status: u32): (r: Result<(), string>)
    ensures r.Ok? <==> status == EFI_SUCCESS
    ensures r.Err? ==> r.error == "EFI ERROR: " + Decimal(status)
  {
    if status == EFI_SUCCESS then Ok(()) else Err("EFI ERROR: " + Decimal(status))
  }

  /** The largest multiple of `bs` not above `count`: the bytes of a read
    * that whole blocks can carry. */
  function WholeBlocks(count: nat, bs: BlockSize): (full: nat)
    ensures full <= count && full % bs == 0
    ensures full / bs == count / bs && full + count % bs == count
  {
    DivModFacts(count, bs);
    (count / bs) * bs
  }

  lemma DivModFacts(count: nat, bs: BlockSize)
    ensures (count / bs) * bs + count % bs == count
    ensures ((count / bs) * bs) % bs == 0 && ((count / bs) * bs) / bs == count / bs
  {
    var q := count / bs;
    assert (q * bs) % bs == 0 && (q * bs) / bs == q by {
      MulDiv(q, bs);
    }
  }

  lemma MulDiv(q: nat, bs: BlockSize)
    ensures (q * bs) / bs == q && (q * bs) % bs == 0
  {
    DivUnique(q * bs, bs, q, 0);
  }

  /** `ptr::copy(src, buffer + at, n)` for non-overlapping buffers. */
  method CopyInto(buffer: array<byte>, at: nat, src: array<byte>, n: nat)
    requires at + n <= buffer.Length && n <= src.Length && buffer != src
    modifies buffer
    ensures buffer[..] == old(buffer[..at]) + src[..n] + old(buffer[at + n..])
  {
    for k := 0 to n
      invariant buffer[..at] == old(buffer[..at])
      invariant buffer[at..at + k] == src[..k]
      invariant buffer[at + k..] == old(buffer[at + k..])
    {
      buffer[at + k] := src[k];
    }
    assert buffer[..] == buffer[..at] + buffer[at..at + n] + buffer[at + n..];
  }
}
