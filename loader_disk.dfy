// The second-stage loader's block device driver
// (loader/src/drivers/disk.rs and loader/src/drivers/uefi/disk.rs): a
// registry of named devices ("disk0", "disk0s1", ...), set once, and byte
// reads that stage short requests through one 512-byte block.

module LoaderDisk {
  import opened Common
  import opened BlockIo
  import opened BaseDisk

  /** The driver's fixed staging size, whatever the device's block size. */
  const BLOCK_SIZE: nat := 512

  /** A registered device: its name, its firmware handle, and whether it
    * is a partition ("slice") of the disk registered before it. */
  datatype EFIBlockDevice = EFIBlockDevice(name: string, handle: Handle, isSlice: bool)

  /** Every registered handle carries a block I/O protocol. */
  predicate Backed(devs: seq<EFIBlockDevice>, devices: Devices) {
    forall i :: 0 <= i < |devs| ==> devs[i].handle in devices
  }

  function Names(devs: seq<EFIBlockDevice>): (r: seq<string>)
    ensures |r| == |devs| && forall i :: 0 <= i < |devs| ==> r[i] == devs[i].name
  {
    seq(|devs|, i requires 0 <= i < |devs| => devs[i].name)
  }

  // ---------------------------------------------------------------
  // The registry
  // ---------------------------------------------------------------

  const InitTwice := "UEFI disk driver cannot be initialized more than once."

  /** The static `EFI_BLOCK_DEVICES`. */
  class DeviceTable {
    var devices: seq<EFIBlockDevice>

    constructor ()
      ensures devices == []
    {
      devices := [];
    }

    /** `init`: publishes the probed devices when nothing is registered yet,
      * and refuses every later call without touching the registry. */
    method Init(probed: seq<EFIBlockDevice>) returns (r: Result<(), string>)
      modifies this
      ensures old(devices) == [] ==> r == Ok(()) && devices == probed
      ensures old(devices) != [] ==> r == Err(InitTwice) && devices == old(devices)
    {
      if devices == [] {
        devices := probed;
        return Ok(());
      }
      return Err(InitTwice);
    }
  }

  /** The device `find_device` returns: the first one with that name. */
  function DeviceNamed(devs: seq<EFIBlockDevice>, name: string): (r: Result<EFIBlockDevice, ()>)
    ensures r.Ok? <==> name in Names(devs)
    ensures r.Ok? ==> r.value.name == name
    ensures r.Ok? ==> exists i :: (0 <= i < |devs| && devs[i] == r.value
      && forall j :: 0 <= j < i ==> devs[j].name != name)
  {
    match FirstIndex(Names(devs), name)
    case None => Err(())
    case Some(i) => Ok(devs[i])
  }

  method FindDevice(devs: seq<EFIBlockDevice>, name: string) returns (r: Result<EFIBlockDevice, ()>)
    ensures r == DeviceNamed(devs, name)
  {
    for i := 0 to |devs|
      invariant forall j :: 0 <= j < i ==> devs[j].name != name
    {
      if devs[i].name == name {
        FirstIndexAt(Names(devs), name, i);
        return Ok(devs[i]);
      }
    }
    assert forall j :: 0 <= j < |devs| ==> Names(devs)[j] != name;
    return Err(());
  }

  // ---------------------------------------------------------------
  // Reads
  // ---------------------------------------------------------------

  /** One device read as `_uefi_read_bytes_raw` issues it: a request shorter
    * than 512 bytes reads one 512-byte block into a scratch buffer and
    * copies its first `count` bytes; a longer one goes straight to the
    * device. Status 0 is `Ok`, any other status an "EFI ERROR: n". */
  function Staged(dev: BlockDevice, lba: nat, count: nat, buf: seq<byte>): (r: (Result<(), string>, seq<byte>))
    requires count <= |buf|
    ensures |r.1| == |buf| && r.1[count..] == buf[count..]
  {
    if count < BLOCK_SIZE then
      var status := ReadStatus(dev, lba, BLOCK_SIZE);
      if status == EFI_SUCCESS then (Ok(()), BlockData(dev, lba, BLOCK_SIZE)[..count] + buf[count..])
      else (StatusResult(status), buf)
    else (StatusResult(ReadStatus(dev, lba, count)), AfterRead(dev, lba, count, buf))
  }

  /** Whatever the path, a successful read delivers the `count` bytes of
    * the medium from block `lba` on. */
  lemma StagedOkIsContiguous(dev: BlockDevice, lba: nat, count: nat, buf: seq<byte>)
    requires count <= |buf| && Staged(dev, lba, count, buf).0.Ok?
    ensures lba * dev.blockSize + count <= |dev.media|
    ensures Staged(dev, lba, count, buf).1[..count]
      == dev.media[lba * dev.blockSize..lba * dev.blockSize + count]
  {
    if count < BLOCK_SIZE {
      assert ReadStatus(dev, lba, BLOCK_SIZE) == EFI_SUCCESS;
    } else {
      assert ReadStatus(dev, lba, count) == EFI_SUCCESS;
    }
  }

  /** `_uefi_read_bytes_raw`: the `expect` on `find_device` panics for an
    * unregistered name. */
  function UefiReadSpec(devs: seq<EFIBlockDevice>, devices: Devices, name: string, lba: nat, count: nat, buf: seq<byte>)
    : (r: Outcome<(Result<(), string>, seq<byte>)>)
    requires Backed(devs, devices) && count <= |buf|
    ensures r.Panic? <==> name !in Names(devs)
  {
    match DeviceNamed(devs, name)
    case Err(_) => Panic
    case Ok(d) => Done(Staged(devices[d.handle], lba, count, buf))
  }

  method UefiReadBytesRaw(devs: seq<EFIBlockDevice>, devices: Devices, name: string, lba: nat, count: nat,
                          buffer: array<byte>)
    returns (r: Outcome<Result<(), string>>)
    requires Backed(devs, devices) && count <= buffer.Length
    modifies buffer
    ensures var spec := UefiReadSpec(devs, devices, name, lba, count, old(buffer[..]));
      && (r.Done? <==> spec.Done?)
      && (r.Done? ==> r.value == spec.value.0 && buffer[..] == spec.value.1)
  {
    var found := FindDevice(devs, name);
    if found.Err? {
      return Panic;
    }
    var dev := devices[found.value.handle];
    if count < BLOCK_SIZE {
      var tmp := new byte[BLOCK_SIZE](_ => 0);
      var status := BlockIo.ReadBlocks(dev, lba, BLOCK_SIZE, tmp);
      if status == EFI_SUCCESS {
        CopyInto(buffer, 0, tmp, count);
        assert tmp[..count] == BlockData(dev, lba, BLOCK_SIZE)[..count];
        return Done(Ok(()));
      }
      return Done(StatusResult(status));
    }
    var status := BlockIo.ReadBlocks(dev, lba, count, buffer);
    return Done(StatusResult(status));
  }

  /** `read_bytes_raw`: a short request is staged through a 512-byte
    * scratch buffer filled by `_uefi_read_bytes_raw`, a long one is passed
    * on as it is. */
  function ReadBytesRawSpec(devs: seq<EFIBlockDevice>, devices: Devices, name: string, lba: nat, count: nat, buf: seq<byte>)
    : (r: Outcome<(Result<(), string>, seq<byte>)>)
    requires Backed(devs, devices) && count <= |buf|
  {
    if count < BLOCK_SIZE then
      match UefiReadSpec(devs, devices, name, lba, BLOCK_SIZE, Zeros(BLOCK_SIZE))
      case Panic => Panic
      case Done(res) =>
        if res.0.Ok? then Done((Ok(()), res.1[..count] + buf[count..])) else Done((res.0, buf))
    else UefiReadSpec(devs, devices, name, lba, count, buf)
  }

  /** Staging twice is the same as staging once: `read_bytes_raw` and
    * `_uefi_read_bytes_raw` agree on every request. */
  lemma ReadBytesRawIsUefiRead(devs: seq<EFIBlockDevice>, devices: Devices, name: string, lba: nat, count: nat, buf: seq<byte>)
    requires Backed(devs, devices) && count <= |buf|
    ensures ReadBytesRawSpec(devs, devices, name, lba, count, buf) == UefiReadSpec(devs, devices, name, lba, count, buf)
  {
    if count < BLOCK_SIZE && name in Names(devs) {
      var dev := devices[DeviceNamed(devs, name).value.handle];
      var whole := Staged(dev, lba, BLOCK_SIZE, Zeros(BLOCK_SIZE));
      if ReadStatus(dev, lba, BLOCK_SIZE) == EFI_SUCCESS {
        assert whole.1 == BlockData(dev, lba, BLOCK_SIZE);
      }
    }
  }

  method ReadBytesRaw(devs: seq<EFIBlockDevice>, devices: Devices, name: string, lba: nat, count: nat,
                      buffer: array<byte>)
    returns (r: Outcome<Result<(), string>>)
    requires Backed(devs, devices) && count <= buffer.Length
    modifies buffer
    ensures var spec := ReadBytesRawSpec(devs, devices, name, lba, count, old(buffer[..]));
      && (r.Done? <==> spec.Done?)
      && (r.Done? ==> r.value == spec.value.0 && buffer[..] == spec.value.1)
  {
    if count < BLOCK_SIZE {
      var tmp := new byte[BLOCK_SIZE](_ => 0);
      assert tmp[..] == Zeros(BLOCK_SIZE);
      var st := UefiReadBytesRaw(devs, devices, name, lba, BLOCK_SIZE, tmp);
      if st.Panic? {
        return Panic;
      }
      if st.value.Ok? {
        CopyInto(buffer, 0, tmp, count);
        return Done(Ok(()));
      }
      return Done(st.value);
    }
    r := UefiReadBytesRaw(devs, devices, name, lba, count, buffer);
  }

  function ReadBytesSpec(devs: seq<EFIBlockDevice>, devices: Devices, name: string, lba: nat, count: nat)
    : (r: Outcome<Result<seq<byte>, string>>)
    requires Backed(devs, devices)
    ensures r.Done? && r.value.Ok? ==> |r.value.value| == count
  {
    VecOf(ReadBytesRawSpec(devs, devices, name, lba, count, Zeros(count)))
  }

  /** `read_bytes`: a vector of exactly `count` bytes, or the error. */
  method ReadBytes(devs: seq<EFIBlockDevice>, devices: Devices, name: string, lba: nat, count: nat)
    returns (r: Outcome<Result<seq<byte>, string>>)
    requires Backed(devs, devices)
    ensures r == ReadBytesSpec(devs, devices, name, lba, count)
  {
    var buffer := new byte[count](_ => 0);
    assert buffer[..] == Zeros(count);
    var st := ReadBytesRaw(devs, devices, name, lba, count, buffer);
    if st.Panic? {
      return Panic;
    }
    match st.value
    case Ok(_) => r := Done(Ok(buffer[..]));
    case Err(e) => r := Done(Err(e));
  }

  /** The vector holds the `count` bytes of the named device's medium from
    * block `lba` on. */
  lemma ReadBytesContents(devs: seq<EFIBlockDevice>, devices: Devices, name: string, lba: nat, count: nat)
    requires Backed(devs, devices)
    requires ReadBytesSpec(devs, devices, name, lba, count).Done?
    requires ReadBytesSpec(devs, devices, name, lba, count).value.Ok?
    ensures name in Names(devs)
    ensures var dev := devices[DeviceNamed(devs, name).value.handle];
      && lba * dev.blockSize + count <= |dev.media|
      && ReadBytesSpec(devs, devices, name, lba, count).value.value
         == dev.media[lba * dev.blockSize..lba * dev.blockSize + count]
  {
    ReadBytesRawIsUefiRead(devs, devices, name, lba, count, Zeros(count));
    var dev := devices[DeviceNamed(devs, name).value.handle];
    StagedOkIsContiguous(dev, lba, count, Zeros(count));
    var b := Staged(dev, lba, count, Zeros(count)).1;
    assert b[..count] == b;
  }

  function ReadBytesIntoBoxSpec(devs: seq<EFIBlockDevice>, devices: Devices, name: string, lba: nat, count: nat, size: nat)
    : Outcome<seq<byte>>
    requires Backed(devs, devices)
  {
    BoxOf(ReadBytesSpec(devs, devices, name, lba, count), count, size)
  }

  /** `read_bytes_into_box::<T>` for a `T` of `size` bytes. */
  method ReadBytesIntoBox(devs: seq<EFIBlockDevice>, devices: Devices, name: string, lba: nat, count: nat, size: nat)
    returns (r: Outcome<seq<byte>>)
    requires Backed(devs, devices)
    ensures r == ReadBytesIntoBoxSpec(devs, devices, name, lba, count, size)
  {
    if count > size {
      return Panic;
    }
    var bytes := ReadBytes(devs, devices, name, lba, count);
    if bytes.Panic? || bytes.value.Err? {
      return Panic;
    }
    var t := FillBox(bytes.value.value, size);
    return Done(t);
  }

  /** `read_bytes_into`: the count must fit the buffer, and a device error
    * panics through `unwrap`. */
  method ReadBytesInto(devs: seq<EFIBlockDevice>, devices: Devices, name: string, lba: nat, count: nat, buffer: array<byte>)
    returns (r: Outcome<()>)
    requires Backed(devs, devices)
    modifies buffer
    ensures count > buffer.Length ==> r.Panic? && buffer[..] == old(buffer[..])
    ensures count <= buffer.Length ==>
      var spec := ReadBytesRawSpec(devs, devices, name, lba, count, old(buffer[..]));
      && (r.Done? <==> spec.Done? && spec.value.0.Ok?)
      && (r.Done? ==> buffer[..] == spec.value.1)
  {
    if count > buffer.Length {
      return Panic;
    }
    var st := ReadBytesRaw(devs, devices, name, lba, count, buffer);
    if st.Panic? || st.value.Err? {
      return Panic;
    }
    return Done(());
  }

  // ---------------------------------------------------------------
  // Naming
  // ---------------------------------------------------------------

  /** `for dev in devices { if dev.name == name { available = false } }`. */
  method NameTaken(names: seq<string>, name: string) returns (taken: bool)
    ensures taken <==> name in names
  {
    taken := false;
    for i := 0 to |names|
      invariant taken <==> name in names[..i]
    {
      assert names[..i + 1] == names[..i] + [names[i]];
      if names[i] == name {
        taken := true;
      }
    }
    assert names[..|names|] == names;
  }

  /** The name `name_device` gives as written: it resets `available` for
    * every device, so only the LAST registered name is compared. */
  function NameDeviceAsWritten(names: seq<string>): (r: string)
    ensures r == "disk0" || r == "disk1"
    ensures r == "disk1" <==> names != [] && names[|names| - 1] == "disk0"
  {
    if names != [] && names[|names| - 1] == "disk0" then "disk1" else "disk0"
  }

  /** `name_device` (the loop for the HDD device type). */
  method NameDevice(names: seq<string>) returns (name: string)
    ensures name == NameDeviceAsWritten(names)
  {
    var available := true;
    var diskNum: nat := 0;
    assert "disk" + Decimal(0) == "disk0";
    assert "disk" + Decimal(1) == "disk1";
    while true
      invariant diskNum <= 1
      invariant diskNum == 1 ==> names != [] && names[|names| - 1] == "disk0"
      invariant names == [] ==> available
      decreases 1 - diskNum
    {
      name := "disk" + Decimal(diskNum);
      for i := 0 to |names|
        invariant i > 0 ==> (available <==> names[i - 1] != name)
        invariant names == [] ==> available
      {
        available := true;
        if names[i] == name {
          available := false;
        }
      }
      if available {
        return name;
      }
      if diskNum == 1 {
        assert false;
      }
      diskNum := diskNum + 1;
    }
  }

  /** As written, `name_device` can hand out a name already in use. */
  lemma NameDeviceDuplicates()
    ensures NameDeviceAsWritten(["disk0", "disk1"]) == "disk0"
    ensures "disk0" in ["disk0", "disk1"]
  {
  }

  // Termination of the search for a free number: the names
  // stem + Decimal(start), ..., stem + Decimal(start + n - 1) are all
  // different, so at most |names| of them can be taken.

  lemma SuffixOfConcat(stem: string, a: string, b: string)
    requires stem + a == stem + b
    ensures a == b
  {
    assert a == (stem + a)[|stem|..];
    assert b == (stem + b)[|stem|..];
  }

  /** The candidate names stem + Decimal(j) for start <= j < start + n. */
  function Candidates(stem: string, start: nat, n: nat): set<string> {
    set j | start <= j < start + n :: stem + Decimal(j)
  }

  lemma CandidatesStep(stem: string, start: nat, n: nat)
    requires n > 0
    ensures Candidates(stem, start, n) == Candidates(stem, start, n - 1) + {stem + Decimal(start + n - 1)}
  {
    var a, b := Candidates(stem, start, n - 1), Candidates(stem, start, n);
    forall x | x in b
      ensures x in a + {stem + Decimal(start + n - 1)}
    {
      var j :| start <= j < start + n && x == stem + Decimal(j);
      if j < start + n - 1 {
        assert x in a;
      }
    }
  }

  lemma {:induction false} CandidatesCard(stem: string, start: nat, n: nat)
    ensures |Candidates(stem, start, n)| == n
    decreases n
  {
    if n > 0 {
      var a := Candidates(stem, start, n - 1);
      var last := stem + Decimal(start + n - 1);
      CandidatesStep(stem, start, n);
      if last in a {
        var j :| start <= j < start + n - 1 && last == stem + Decimal(j);
        SuffixOfConcat(stem, Decimal(j), Decimal(start + n - 1));
        DecimalInjective(j, start + n - 1);
      }
      CandidatesCard(stem, start, n - 1);
    }
  }

  lemma {:induction false} SeqSetCard(xs: seq<string>)
    ensures |set x | x in xs| <= |xs|
  {
    if xs != [] {
      var init := xs[..|xs| - 1];
      assert (set x | x in xs) == (set x | x in init) + {xs[|xs| - 1]};
      SeqSetCard(init);
    }
  }

  lemma SubsetCard(a: set<string>, b: set<string>)
    requires a <= b
    ensures |a| <= |b|
  {
    assert b == a + (b - a);
    assert a * (b - a) == {};
  }

  lemma Pigeonhole(names: seq<string>, stem: string, start: nat, n: nat)
    requires forall j :: start <= j < start + n ==> stem + Decimal(j) in names
    ensures n <= |names|
  {
    var taken := Candidates(stem, start, n);
    forall x | x in taken
      ensures x in names
    {
      var j :| start <= j < start + n && x == stem + Decimal(j);
    }
    CandidatesCard(stem, start, n);
    SubsetCard(taken, set x | x in names);
    SeqSetCard(names);
  }

  /** The search loop of the corrected naming: the least `k >= start` for
    * which `stem + k` is free. It stops within |names| + 1 tries. */
  method FirstFree(names: seq<string>, stem: string, start: nat) returns (name: string, k: nat)
    ensures name == stem + Decimal(k) && name !in names
    ensures start <= k <= start + |names|
    ensures forall j :: start <= j < k ==> stem + Decimal(j) in names
  {
    k := start;
    while true
      invariant start <= k <= start + |names|
      invariant forall j :: start <= j < k ==> stem + Decimal(j) in names
      decreases start + |names| - k
    {
      name := stem + Decimal(k);
      var taken := NameTaken(names, name);
      if !taken {
        return;
      }
      Pigeonhole(names, stem, start, k + 1 - start);
      k := k + 1;
    }
  }

  /** The name `name_device` evidently means to give: the first "diskN"
    * not in use. */
  method NameDeviceFixed(names: seq<string>) returns (name: string)
    ensures name !in names
    ensures exists k: nat :: (name == "disk" + Decimal(k)
      && forall j :: 0 <= j < k ==> "disk" + Decimal(j) in names)
  {
    var k;
    name, k := FirstFree(names, "disk", 0);
  }

  /** The position `name_slice` takes its prefix from: the most recent
    * device that is not a slice. */
  function LastDisk(devs: seq<EFIBlockDevice>): (r: Option<nat>)
    ensures r.Some? ==> (r.value < |devs| && !devs[r.value].isSlice
      && forall j :: r.value < j < |devs| ==> devs[j].isSlice)
    ensures r.None? ==> forall j :: 0 <= j < |devs| ==> devs[j].isSlice
  {
    if devs == [] then None
    else if !devs[|devs| - 1].isSlice then Some(|devs| - 1)
    else LastDisk(devs[..|devs| - 1])
  }

  function Prefix(devs: seq<EFIBlockDevice>): string {
    match LastDisk(devs)
    case None => ""
    case Some(i) => devs[i].name
  }

  /** `for dev in devices.iter().rev() { if !dev.is_slice { ... break } }`. */
  method DiskPrefix(devs: seq<EFIBlockDevice>) returns (disk: string)
    ensures disk == Prefix(devs)
  {
    disk := "";
    var i := |devs|;
    while i > 0
      invariant 0 <= i <= |devs|
      invariant LastDisk(devs) == LastDisk(devs[..i])
      decreases i
    {
      assert devs[..i][..i - 1] == devs[..i - 1];
      if !devs[i - 1].isSlice {
        return devs[i - 1].name;
      }
      i := i - 1;
    }
  }

  /** `name_slice`: "{disk}s{k}" for the least `k >= 1` no device is named. */
  method NameSlice(devs: seq<EFIBlockDevice>) returns (name: string)
    ensures name !in Names(devs)
    ensures exists k: nat :: (1 <= k <= |devs| + 1 && name == Prefix(devs) + "s" + Decimal(k)
      && forall j :: 1 <= j < k ==> Prefix(devs) + "s" + Decimal(j) in Names(devs))
  {
    var disk := DiskPrefix(devs);
    var k;
    name, k := FirstFree(Names(devs), disk + "s", 1);
  }
}
