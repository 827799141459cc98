// The filesystem dispatcher of base/loader/src/drivers/fs.rs: it probes a
// slice for ext, then FAT, and forwards file reads to the FAT driver (no
// ext file reading exists). `get_esp_guid` walks the firmware's device
// path; here the GUID it finds is a parameter.

module Fs {
  import opened Common
  import opened Uuid
  import opened BlockIo
  import opened UefiDisk
  import Fat
  import Extfs

  datatype FilesystemType = FAT | EXT | UNKNOWN

  /** `detect_fs_type`: ext is tried first, so a volume that passes both
    * probes is EXT. */
  function DetectFsTypeSpec(reg: seq<SliceEntry>, devices: Devices, slice: Guid): (r: Outcome<FilesystemType>)
    requires Backed(reg, devices)
    ensures r.Panic? <==> slice !in Guids(reg)
    ensures r == Done(EXT) <==> Extfs.DetectSpec(reg, devices, slice) == Done(true)
    ensures r == Done(FAT) <==>
      Extfs.DetectSpec(reg, devices, slice) == Done(false) && Fat.DetectSpec(reg, devices, slice) == Done(true)
    ensures r == Done(UNKNOWN) <==>
      Extfs.DetectSpec(reg, devices, slice) == Done(false) && Fat.DetectSpec(reg, devices, slice) == Done(false)
  {
    match Extfs.DetectSpec(reg, devices, slice)
    case Panic => Panic
    case Done(isExt) =>
      if isExt then Done(EXT)
      else match Fat.DetectSpec(reg, devices, slice)
        case Panic => Panic
        case Done(isFat) => if isFat then Done(FAT) else Done(UNKNOWN)
  }

  method DetectFsType(reg: seq<SliceEntry>, devices: Devices, slice: Guid) returns (r: Outcome<FilesystemType>)
    requires Backed(reg, devices)
    ensures r == DetectFsTypeSpec(reg, devices, slice)
  {
    var isExt := Extfs.Detect(reg, devices, slice);
    if isExt.Panic? {
      return Panic;
    }
    if isExt.value {
      return Done(EXT);
    }
    var isFat := Fat.Detect(reg, devices, slice);
    if isFat.Panic? {
      return Panic;
    }
    if isFat.value {
      return Done(FAT);
    }
    return Done(UNKNOWN);
  }

  /** `read_file_raw` with a null buffer: the FAT driver's size answer, `None`
    * on ext, a panic on an unknown filesystem. */
  function SizeQuery(reg: seq<SliceEntry>, devices: Devices, slice: Guid, path: seq<byte>): (r: Outcome<Option<u64>>)
    requires Backed(reg, devices)
  {
    match DetectFsTypeSpec(reg, devices, slice)
    case Panic => Panic
    case Done(UNKNOWN) => Panic
    case Done(EXT) => Done(None)
    case Done(FAT) =>
      match Fat.FileSizeSpec(reg, devices, slice, path)
      case Panic => Panic
      case Done(n) => Done(Some(n))
  }

  /** `read_file_raw` with a buffer: the result and the buffer afterwards.
    * The FAT driver fills it; on ext it is left as it is. */
  function ReadInto(reg: seq<SliceEntry>, devices: Devices, slice: Guid, path: seq<byte>, buf: seq<byte>)
    : (r: Outcome<(Option<u64>, seq<byte>)>)
    requires Backed(reg, devices)
    ensures r.Done? ==> r.value.0 == None && |r.value.1| == |buf|
  {
    match DetectFsTypeSpec(reg, devices, slice)
    case Panic => Panic
    case Done(UNKNOWN) => Panic
    case Done(EXT) => Done((None, buf))
    case Done(FAT) =>
      match Fat.FatReadSpec(reg, devices, slice, path, buf)
      case Panic => Panic
      case Done(b) => Done((None, b))
  }

  /** `read_file_raw`. */
  method ReadFileRaw(reg: seq<SliceEntry>, devices: Devices, slice: Guid, path: seq<byte>, buffer: array?<byte>)
    returns (r: Outcome<Option<u64>>)
    requires Backed(reg, devices)
    modifies buffer
    ensures buffer == null ==> r == SizeQuery(reg, devices, slice, path)
    ensures buffer != null ==>
      var spec := ReadInto(reg, devices, slice, path, old(buffer[..]));
      && (r.Done? <==> spec.Done?)
      && (r.Done? ==> r.value == spec.value.0 && buffer[..] == spec.value.1)
  {
    var t := DetectFsType(reg, devices, slice);
    if t.Panic? || t.value == UNKNOWN {
      return Panic;
    }
    if t.value == EXT {
      return Done(None);
    }
    r := Fat.ReadBytesRaw(reg, devices, slice, path, buffer);
  }

  /** One `char` per byte, its code point the byte's value. */
  function Latin1(b: seq<byte>): (s: string)
    ensures |s| == |b| && forall i :: 0 <= i < |b| ==> s[i] as int == b[i] as int
  {
    seq(|b|, i requires 0 <= i < |b| => b[i] as char)
  }

  /** The contents read into a zeroed buffer of `n` bytes. */
  function ReadAllSpec(reg: seq<SliceEntry>, devices: Devices, slice: Guid, path: seq<byte>, n: nat)
    : (r: Outcome<seq<byte>>)
    requires Backed(reg, devices)
    ensures r.Done? ==> |r.value| == n
  {
    match ReadInto(reg, devices, slice, path, Zeros(n))
    case Panic => Panic
    case Done(res) => Done(res.1)
  }

  method ReadAll(reg: seq<SliceEntry>, devices: Devices, slice: Guid, path: seq<byte>, n: nat)
    returns (r: Outcome<seq<byte>>)
    requires Backed(reg, devices)
    ensures r == ReadAllSpec(reg, devices, slice, path, n)
  {
    var buffer := new byte[n](_ => 0);
    assert buffer[..] == Zeros(n);
    var rd := ReadFileRaw(reg, devices, slice, path, buffer);
    if rd.Panic? {
      return Panic;
    }
    return Done(buffer[..]);
  }

  /** `read_to_string`: the size is asked first (`unwrap` panics on the ext
    * answer `None`), a zeroed buffer of exactly that size is read into, and
    * each byte becomes one character. */
  function ReadToStringSpec(reg: seq<SliceEntry>, devices: Devices, slice: Guid, path: seq<byte>): (r: Outcome<string>)
    requires Backed(reg, devices)
  {
    match SizeQuery(reg, devices, slice, path)
    case Panic => Panic
    case Done(None) => Panic
    case Done(Some(n)) =>
      match ReadAllSpec(reg, devices, slice, path, n)
      case Panic => Panic
      case Done(b) => Done(Latin1(b))
  }

  method ReadToString(reg: seq<SliceEntry>, devices: Devices, slice: Guid, path: seq<byte>) returns (r: Outcome<string>)
    requires Backed(reg, devices)
    ensures r == ReadToStringSpec(reg, devices, slice, path)
  {
    var size := ReadFileRaw(reg, devices, slice, path, null);
    if size.Panic? || size.value.None? {
      return Panic;
    }
    var contents := ReadAll(reg, devices, slice, path, size.value.value);
    if contents.Panic? {
      return Panic;
    }
    var s := ToLatin1(contents.value);
    return Done(s);
  }

  /** The characters of a byte sequence, one per byte. */
  method ToLatin1(b: seq<byte>) returns (s: string)
    ensures s == Latin1(b)
  {
    s := [];
    for i := 0 to |b|
      invariant s == Latin1(b[..i])
    {
      s := s + [b[i] as char];
    }
    assert b[..|b|] == b;
  }

  /** Reading a file to a string on an ext volume panics. */
  lemma ReadToStringExtPanics(reg: seq<SliceEntry>, devices: Devices, slice: Guid, path: seq<byte>)
    requires Backed(reg, devices) && DetectFsTypeSpec(reg, devices, slice) == Done(EXT)
    ensures ReadToStringSpec(reg, devices, slice, path).Panic?
  {
  }

  /** On FAT the string is the FAT driver's read of the file's entry into
    * `filesize` zeroed bytes, one character per byte (what those bytes are
    * is `Fat.ReadEntryContents`). */
  lemma ReadToStringIsFile(reg: seq<SliceEntry>, devices: Devices, slice: Guid, path: seq<byte>,
                           bpb: Fat.Bpb, e: Fat.DirEntry, s: string)
    requires Backed(reg, devices) && DetectFsTypeSpec(reg, devices, slice) == Done(FAT)
    requires Fat.FileEntry(reg, devices, slice, path) == Done((bpb, e))
    requires ReadToStringSpec(reg, devices, slice, path) == Done(s)
    ensures |s| == e.fileSize
    ensures var read := Fat.ReadEntry(reg, devices, slice, bpb, e, Zeros(e.fileSize));
      read.Done? && s == Latin1(read.value)
  {
    var n := e.fileSize;
    var buf := Zeros(n);
    assert Fat.FileSizeSpec(reg, devices, slice, path) == Done(n as u64);
    assert SizeQuery(reg, devices, slice, path) == Done(Some(n as u64));
    var out := ReadAllSpec(reg, devices, slice, path, n).value;
    assert s == Latin1(out);
    assert Fat.FatReadSpec(reg, devices, slice, path, buf) == Fat.ReadEntry(reg, devices, slice, bpb, e, buf);
    assert ReadInto(reg, devices, slice, path, buf).value.1 == out;
  }

  // ---------------------------------------------------------------
  // File
  // ---------------------------------------------------------------

  type u128 = x: int | 0 <= x < 0x1_0000_0000_0000_0000_0000_0000_0000_0000

  /** `File`: the slice to read, the UUID it was opened by, and the path. */
  datatype File = File(slice: Guid, uuid: Option<u128>, path: seq<byte>)

  /** `File::open_by_guid`. */
  function OpenByGuid(slice: Guid, path: seq<byte>): (f: File)
    ensures f.slice == slice && f.uuid == None && f.path == path
  {
    File(slice, None, path)
  }

  /** `File::open_by_uuid`: whatever the UUID, the file is on the EFI system
    * partition `esp` (what `get_esp_guid` finds); the UUID is only kept. */
  function OpenByUuid(esp: Guid, uuid: u128, path: seq<byte>): (f: File)
    ensures f.slice == esp && f.uuid == Some(uuid) && f.path == path
  {
    File(esp, Some(uuid), path)
  }

  /** `File::read_raw`: `read_file_raw` on the file's slice and path (the
    * two differ only in their panic messages). */
  method FileReadRaw(reg: seq<SliceEntry>, devices: Devices, f: File, buffer: array?<byte>)
    returns (r: Outcome<Option<u64>>)
    requires Backed(reg, devices)
    modifies buffer
    ensures buffer == null ==> r == SizeQuery(reg, devices, f.slice, f.path)
    ensures buffer != null ==>
      var spec := ReadInto(reg, devices, f.slice, f.path, old(buffer[..]));
      && (r.Done? <==> spec.Done?)
      && (r.Done? ==> r.value == spec.value.0 && buffer[..] == spec.value.1)
  {
    r := ReadFileRaw(reg, devices, f.slice, f.path, buffer);
  }

  /** `File::read_to_string`: `Ok` whenever it does not panic. */
  function FileReadToStringSpec(reg: seq<SliceEntry>, devices: Devices, f: File): (r: Outcome<Result<string, ()>>)
    requires Backed(reg, devices)
    ensures r.Panic? <==> ReadToStringSpec(reg, devices, f.slice, f.path).Panic?
    ensures r.Done? ==> r.value == Ok(ReadToStringSpec(reg, devices, f.slice, f.path).value)
  {
    match ReadToStringSpec(reg, devices, f.slice, f.path)
    case Panic => Panic
    case Done(s) => Done(Ok(s))
  }

  method FileReadToString(reg: seq<SliceEntry>, devices: Devices, f: File) returns (r: Outcome<Result<string, ()>>)
    requires Backed(reg, devices)
    ensures r == FileReadToStringSpec(reg, devices, f)
  {
    var s := ReadToString(reg, devices, f.slice, f.path);
    if s.Panic? {
      return Panic;
    }
    return Done(Ok(s.value));
  }
}
