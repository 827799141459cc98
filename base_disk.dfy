// The loader's typed disk reads (base/loader/src/drivers/disk.rs): a
// vector, a zeroed value or a caller's buffer filled through the UEFI
// disk driver's `read_bytes_raw`.

module BaseDisk {
  import opened Common
  import opened Uuid
  import opened BlockIo
  import opened UefiDisk

  /** What `read_bytes` makes of a raw read into `count` zeroed bytes: the
    * bytes on success, the driver's error as it is otherwise. */
  function VecOf(raw: Outcome<(Result<(), string>, seq<byte>)>): (r: Outcome<Result<seq<byte>, string>>)
    ensures r.Panic? <==> raw.Panic?
    ensures r.Done? ==> (r.value.Ok? <==> raw.value.0.Ok?)
    ensures r.Done? && r.value.Ok? ==> r.value.value == raw.value.1
    ensures r.Done? && r.value.Err? ==> r.value.error == raw.value.0.error
  {
    match raw
    case Panic => Panic
    case Done(res) =>
      match res.0
      case Ok(_) => Done(Ok(res.1))
      case Err(e) => Done(Err(e))
  }

  /** What `read_bytes_into_box` makes of `read_bytes`: `count` must fit in
    * the `size` bytes of the value, an error panics through `unwrap`, and
    * the bytes land at the front of a zeroed value. */
  function BoxOf(bytes: Outcome<Result<seq<byte>, string>>, count: nat, size: nat): (r: Outcome<seq<byte>>)
    requires bytes.Done? && bytes.value.Ok? ==> |bytes.value.value| == count
    ensures r.Done? <==> count <= size && bytes.Done? && bytes.value.Ok?
    ensures r.Done? ==> |r.value| == size && r.value[..count] == bytes.value.value
    ensures r.Done? ==> forall k :: count <= k < size ==> r.value[k] == 0
  {
    if count > size then Panic
    else match bytes
      case Panic => Panic
      case Done(Err(_)) => Panic
      case Done(Ok(b)) => Done(b + Zeros(size - count))
  }

  function ReadBytesSpec(reg: seq<SliceEntry>, devices: Devices, slice: Guid, lba: nat, count: nat)
    : (r: Outcome<Result<seq<byte>, string>>)
    requires Backed(reg, devices)
    ensures r.Done? && r.value.Ok? ==> |r.value.value| == count
  {
    VecOf(ReadBytesRawSpec(reg, devices, slice, lba, count, Zeros(count)))
  }

  /** `read_bytes`: a vector of exactly `count` bytes on success; the
    * driver's error unchanged otherwise. */
  method ReadBytes(reg: seq<SliceEntry>, devices: Devices, slice: Guid, lba: nat, count: nat)
    returns (r: Outcome<Result<seq<byte>, string>>)
    requires Backed(reg, devices)
    ensures r == ReadBytesSpec(reg, devices, slice, lba, count)
  {
    var buffer := new byte[count](_ => 0);
    assert buffer[..] == Zeros(count);
    var st := UefiDisk.ReadBytesRaw(reg, devices, slice, lba, count, buffer);
    if st.Panic? {
      return Panic;
    }
    match st.value
    case Ok(_) => r := Done(Ok(buffer[..]));
    case Err(e) => r := Done(Err(e));
  }

  /** The vector holds the `count` bytes of the medium from block `lba` on. */
  lemma ReadBytesContents(reg: seq<SliceEntry>, devices: Devices, slice: Guid, lba: nat, count: nat, dev: BlockDevice)
    requires Backed(reg, devices) && DeviceFor(reg, devices, slice) == Done(dev)
    requires ReadBytesSpec(reg, devices, slice, lba, count).Done?
    requires ReadBytesSpec(reg, devices, slice, lba, count).value.Ok?
    ensures lba * dev.blockSize + count <= |dev.media|
    ensures ReadBytesSpec(reg, devices, slice, lba, count).value.value
      == dev.media[lba * dev.blockSize..lba * dev.blockSize + count]
  {
    ReadOkIsContiguous(dev, lba, count, Zeros(count));
    var b := StagedRead(dev, lba, count, Zeros(count)).1;
    assert b[..count] == b;
  }

  function ReadBytesIntoBoxSpec(reg: seq<SliceEntry>, devices: Devices, slice: Guid, lba: nat, count: nat, size: nat)
    : Outcome<seq<byte>>
    requires Backed(reg, devices)
  {
    BoxOf(ReadBytesSpec(reg, devices, slice, lba, count), count, size)
  }

  /** `read_bytes_into_box::<T>` for a `T` of `size` bytes. */
  method ReadBytesIntoBox(reg: seq<SliceEntry>, devices: Devices, slice: Guid, lba: nat, count: nat, size: nat)
    returns (r: Outcome<seq<byte>>)
    requires Backed(reg, devices)
    ensures r == ReadBytesIntoBoxSpec(reg, devices, slice, lba, count, size)
  {
    if count > size {
      return Panic;
    }
    var bytes := ReadBytes(reg, devices, slice, lba, count);
    if bytes.Panic? || bytes.value.Err? {
      return Panic;
    }
    var t := FillBox(bytes.value.value, size);
    return Done(t);
  }

  /** The zeroed box of `size` bytes with `b` copied to its start. */
  method FillBox(b: seq<byte>, size: nat) returns (box: seq<byte>)
    requires |b| <= size
    ensures box == b + Zeros(size - |b|)
  {
    var t := new byte[size](_ => 0);
    for k := 0 to |b|
      invariant t[..k] == b[..k] && forall j :: k <= j < size ==> t[j] == 0
    {
      t[k] := b[k];
    }
    assert t[..] == b + Zeros(size - |b|);
    return t[..];
  }

  /** `read_bytes_into`: the count must fit the buffer, and a device error
    * panics through `unwrap`. */
  method ReadBytesInto(reg: seq<SliceEntry>, devices: Devices, slice: Guid, lba: nat, count: nat, buffer: array<byte>)
    returns (r: Outcome<()>)
    requires Backed(reg, devices)
    modifies buffer
    ensures count > buffer.Length ==> r.Panic? && buffer[..] == old(buffer[..])
    ensures count <= buffer.Length ==>
      var spec := ReadBytesRawSpec(reg, devices, slice, lba, count, old(buffer[..]));
      && (r.Done? <==> spec.Done? && spec.value.0.Ok?)
      && (r.Done? ==> buffer[..] == spec.value.1)
  {
    if count > buffer.Length {
      return Panic;
    }
    var st := UefiDisk.ReadBytesRaw(reg, devices, slice, lba, count, buffer);
    if st.Panic? || st.value.Err? {
      return Panic;
    }
    return Done(());
  }

  /** `read_bytes_raw` hands the call to the UEFI disk driver unchanged. */
  method ReadBytesRaw(reg: seq<SliceEntry>, devices: Devices, slice: Guid, lba: nat, count: nat, buffer: array<byte>)
    returns (r: Outcome<Result<(), string>>)
    requires Backed(reg, devices) && count <= buffer.Length
    modifies buffer
    ensures var spec := ReadBytesRawSpec(reg, devices, slice, lba, count, old(buffer[..]));
      && (r.Done? <==> spec.Done?)
      && (r.Done? ==> r.value == spec.value.0 && buffer[..] == spec.value.1)
  {
    r := UefiDisk.ReadBytesRaw(reg, devices, slice, lba, count, buffer);
  }
}
