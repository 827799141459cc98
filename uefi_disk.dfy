// The loader's UEFI disk driver (base/loader/src/drivers/uefi/disk.rs):
// the slice registry, byte-count reads staged through one block, files on
// the EFI System Partition read through the firmware, a line reader over
// a file's bytes, and the configuration file read with it.

module UefiDisk {
  import opened Common
  import opened Uuid
  import opened BlockIo
  import opened Config

  datatype FilesystemType = Fat | Xfs | Unknown

  /** A slice found by the probe: its GUID, the handle of its block device,
    * its filesystem, and whether it is the EFI System Partition. */
  datatype SliceEntry = SliceEntry(guid: Guid, handle: Handle, fsType: FilesystemType, isEfiSys: bool)

  function Guids(reg: seq<SliceEntry>): (r: seq<Guid>)
    ensures |r| == |reg| && forall i :: 0 <= i < |reg| ==> r[i] == reg[i].guid
  {
    seq(|reg|, i requires 0 <= i < |reg| => reg[i].guid)
  }

  /** Every registered handle carries a block I/O protocol. */
  predicate Backed(reg: seq<SliceEntry>, devices: Devices) {
    forall i :: 0 <= i < |reg| ==> reg[i].handle in devices
  }

  // ---------------------------------------------------------------
  // Lookups in SLICE_ENTRIES
  // ---------------------------------------------------------------

  /** `lookup_handle`: the handle of the first slice whose GUID prints like
    * the query; an empty registry or no match panics. */
  method LookupHandle(reg: seq<SliceEntry>, guid: Guid) returns (r: Outcome<Handle>)
    ensures r.Done? <==> FirstTextMatch(Guids(reg), guid).Some?
    ensures r.Done? ==> r.value == reg[FirstTextMatch(Guids(reg), guid).value].handle
  {
    if reg == [] {
      return Panic;
    }
    for i := 0 to |reg|
      invariant forall j :: 0 <= j < i ==> AsString(reg[j].guid) != AsString(guid)
    {
      if AsString(reg[i].guid) == AsString(guid) {
        TextMatchAt(Guids(reg), guid, i);
        return Done(reg[i].handle);
      }
    }
    return Panic;
  }

  /** `find_slice`: the first slice with an equal GUID; an empty registry or
    * no match panics. */
  method FindSlice(reg: seq<SliceEntry>, guid: Guid) returns (r: Outcome<SliceEntry>)
    ensures r.Done? <==> FirstIndex(Guids(reg), guid).Some?
    ensures r.Done? ==> r.value == reg[FirstIndex(Guids(reg), guid).value]
  {
    if reg == [] {
      return Panic;
    }
    for i := 0 to |reg|
      invariant forall j :: 0 <= j < i ==> reg[j].guid != guid
    {
      if reg[i].guid == guid {
        FirstIndexAt(Guids(reg), guid, i);
        return Done(reg[i]);
      }
    }
    return Panic;
  }

  /** The first slice marked as the EFI System Partition. */
  function FirstEsp(reg: seq<SliceEntry>): (r: Option<nat>)
    ensures r.Some? ==> r.value < |reg| && reg[r.value].isEfiSys
    ensures r.Some? ==> forall j :: 0 <= j < r.value ==> !reg[j].isEfiSys
    ensures r.None? ==> forall j :: 0 <= j < |reg| ==> !reg[j].isEfiSys
  {
    if reg == [] then None
    else if reg[0].isEfiSys then Some(0)
    else match FirstEsp(reg[1..])
      case None => None
      case Some(i) => Some(i + 1)
  }

  /** `find_esp_slice`: the first slice marked as the EFI System Partition;
    * without one it panics. */
  method FindEspSlice(reg: seq<SliceEntry>) returns (r: Outcome<SliceEntry>)
    ensures r.Done? <==> FirstEsp(reg).Some?
    ensures r.Done? ==> r.value == reg[FirstEsp(reg).value]
  {
    if reg == [] {
      return Panic;
    }
    for i := 0 to |reg|
      invariant forall j :: 0 <= j < i ==> !reg[j].isEfiSys
    {
      if reg[i].isEfiSys {
        assert FirstEsp(reg) == Some(i) by {
          var k := FirstEsp(reg);
          if k.Some? && k.value < i {
          } else if k.Some? && k.value > i {
          }
        }
        return Done(reg[i]);
      }
    }
    return Panic;
  }

  // ---------------------------------------------------------------
  // Reading bytes
  // ---------------------------------------------------------------

  /** The block device behind a slice. `lookup_handle` compares printed
    * GUIDs, which finds the same entry as comparing fields
    * (`Uuid.TextMatchIsFieldMatch`). */
  function DeviceFor(reg: seq<SliceEntry>, devices: Devices, guid: Guid): Outcome<BlockDevice>
    requires Backed(reg, devices)
  {
    match FirstIndex(Guids(reg), guid)
    case None => Panic
    case Some(i) => Done(devices[reg[i].handle])
  }

  /** What `read_bytes_raw` returns and leaves in the caller's buffer once
    * the slice's device is found. A count below the block size reads one
    * whole block into a zeroed scratch block and copies its first `count`
    * bytes; any other count goes to the firmware as it is, which refuses a
    * count that is not a whole number of blocks. */
  function StagedRead(dev: BlockDevice, lba: nat, count: nat, buf: seq<byte>): (r: (Result<(), string>, seq<byte>))
    requires count <= |buf|
    ensures |r.1| == |buf| && r.1[count..] == buf[count..]
  {
    var bs := dev.blockSize;
    if count < bs then
      var status := ReadStatus(dev, lba, bs);
      if status == EFI_SUCCESS then (Ok(()), BlockData(dev, lba, bs)[..count] + buf[count..])
      else (StatusResult(status), buf)
    else
      (StatusResult(ReadStatus(dev, lba, count)), AfterRead(dev, lba, count, buf))
  }

  /** `read_bytes_raw`: the lookup panics for an unknown slice. */
  function ReadBytesRawSpec(reg: seq<SliceEntry>, devices: Devices, slice: Guid, lba: nat, count: nat, buf: seq<byte>)
    : (r: Outcome<(Result<(), string>, seq<byte>)>)
    requires Backed(reg, devices) && count <= |buf|
    ensures r.Panic? <==> slice !in Guids(reg)
  {
    match DeviceFor(reg, devices, slice)
    case Panic => Panic
    case Done(dev) => Done(StagedRead(dev, lba, count, buf))
  }

  method ReadBytesRaw(reg: seq<SliceEntry>, devices: Devices, slice: Guid, lba: nat, count: nat, buffer: array<byte>)
    returns (r: Outcome<Result<(), string>>)
    requires Backed(reg, devices) && count <= buffer.Length
    modifies buffer
    ensures var spec := ReadBytesRawSpec(reg, devices, slice, lba, count, old(buffer[..]));
      r.Done? <==> spec.Done?
    ensures var spec := ReadBytesRawSpec(reg, devices, slice, lba, count, old(buffer[..]));
      r.Done? ==> r.value == spec.value.0 && buffer[..] == spec.value.1
  {
    var h := LookupHandle(reg, slice);
    TextMatchIsFieldMatch(Guids(reg), slice);
    if h.Panic? {
      return Panic;
    }
    var res := StagedReadInto(devices[h.value], lba, count, buffer);
    return Done(res);
  }

  /** The read on the slice's device: a read shorter than a block goes
    * through a zeroed one-block buffer of which `count` bytes are copied. */
  method StagedReadInto(dev: BlockDevice, lba: nat, count: nat, buffer: array<byte>)
    returns (res: Result<(), string>)
    requires count <= buffer.Length
    modifies buffer
    ensures (res, buffer[..]) == StagedRead(dev, lba, count, old(buffer[..]))
  {
    ghost var orig := buffer[..];
    var blockSize := dev.blockSize;
    if count < blockSize {
      var tmp := new byte[blockSize](_ => 0);
      var status := BlockIo.ReadBlocks(dev, lba, blockSize, tmp);
      if status == EFI_SUCCESS {
        CopyInto(buffer, 0, tmp, count);
        assert orig[..0] + tmp[..count] + orig[count..] == tmp[..count] + orig[count..];
        assert tmp[..count] == BlockData(dev, lba, blockSize)[..count];
        return Ok(());
      }
      return StatusResult(status);
    }
    var status := BlockIo.ReadBlocks(dev, lba, count, buffer);
    return StatusResult(status);
  }

  /** A successful read leaves exactly `count` consecutive bytes of the
    * medium, from block `lba` on, at the front of the buffer. */
  lemma ReadOkIsContiguous(dev: BlockDevice, lba: nat, count: nat, buf: seq<byte>)
    requires count <= |buf| && StagedRead(dev, lba, count, buf).0.Ok?
    ensures lba * dev.blockSize + count <= |dev.media|
    ensures StagedRead(dev, lba, count, buf).1[..count]
      == dev.media[lba * dev.blockSize..lba * dev.blockSize + count]
  {
  }

  /** A long read that is not a whole number of blocks is not split: the
    * firmware refuses it with EFI_BAD_BUFFER_SIZE and the buffer stays. */
  lemma LongUnalignedReadFails(dev: BlockDevice, lba: nat, count: nat, buf: seq<byte>)
    requires count <= |buf|
    requires dev.fault == 0 && count >= dev.blockSize && count % dev.blockSize != 0
    ensures StagedRead(dev, lba, count, buf) == (Err("EFI ERROR: 4"), buf)
  {
    assert "EFI ERROR: " + Decimal(4) == "EFI ERROR: 4";
  }

  // ---------------------------------------------------------------
  // Files
  // ---------------------------------------------------------------

  /** `to_ascii_uppercase` on one character: no lower-case ASCII letter
    * is left, each is replaced by its capital, and everything else is kept. */
  function AsciiUpper(c: char): (r: char)
    ensures !('a' <= r <= 'z')
    ensures 'a' <= c <= 'z' ==> 'A' <= r <= 'Z' && r as int + 32 == c as int
    ensures !('a' <= c <= 'z') ==> r == c
  {
    if 'a' <= c <= 'z' then (c as int - 32) as char else c
  }

  /** The firmware path of a FAT file: ASCII upper case, `\` for `/`, and a
    * terminating NUL. */
  function FatPath(path: string): (r: string)
    ensures |r| == |path| + 1 && r[|path|] == '\0'
    ensures forall i :: 0 <= i < |path| ==>
      r[i] == (if path[i] == '/' then '\\' else AsciiUpper(path[i]))
  {
    seq(|path|, i requires 0 <= i < |path| => if path[i] == '/' then '\\' else AsciiUpper(path[i])) + ['\0']
  }

  /** The firmware path has no `/`, no lower-case ASCII letter and no NUL
    * but the last, and keeps every other character in its place. */
  lemma FatPathShape(path: string)
    requires '\0' !in path
    ensures var r := FatPath(path);
      && '/' !in r && (forall i :: 0 <= i < |r| ==> !('a' <= r[i] <= 'z'))
      && (forall i :: 0 <= i < |r| - 1 ==> r[i] != '\0')
      && (forall i :: 0 <= i < |path| && path[i] != '/' && !('a' <= path[i] <= 'z') ==> r[i] == path[i])
  {
    var r := FatPath(path);
    forall i | 0 <= i < |r| ensures r[i] != '/' && !('a' <= r[i] <= 'z') {
    }
  }

  /** The configuration file's path becomes `\EFI\BOOT\ZOS\LOADER.CFG` with
    * a NUL. */
  lemma CfgPathExample()
    ensures FatPath(CfgPath) == "\\EFI\\BOOT\\ZOS\\LOADER.CFG\0"
  {
    var r := FatPath(CfgPath);
    assert |r| == 25;
    forall i | 0 <= i < 25 ensures r[i] == "\\EFI\\BOOT\\ZOS\\LOADER.CFG\0"[i] {
    }
  }

  const CfgPath: string := "/EFI/BOOT/ZOS/LOADER.CFG"

  /** The files the firmware's simple filesystem can open, by volume handle
    * and firmware path. */
  type FirmwareFiles = map<(Handle, string), seq<byte>>

  /** `File::open`: the slice is found by GUID (an empty registry or no
    * match panics). A FAT slice is asked for the file by its firmware
    * path, and a file the firmware cannot open panics; any other
    * filesystem gives an empty file. The contents are the file's bytes,
    * the result the read is meant to have; the code passes the address of
    * the `Vec` struct itself to the firmware, whose effect is undefined. */
  function OpenSpec(reg: seq<SliceEntry>, files: FirmwareFiles, slice: Guid, path: string)
    : (r: Outcome<(FilesystemType, seq<byte>)>)
    ensures r.Done? ==> FirstIndex(Guids(reg), slice).Some?
    ensures r.Done? ==> r.value.0 == reg[FirstIndex(Guids(reg), slice).value].fsType
    ensures r.Done? && r.value.0 != Fat ==> r.value.1 == []
    ensures r.Done? && r.value.0 == Fat ==>
      var key := (reg[FirstIndex(Guids(reg), slice).value].handle, FatPath(path));
      key in files && r.value.1 == files[key]
  {
    match FirstIndex(Guids(reg), slice)
    case None => Panic
    case Some(i) =>
      var e := reg[i];
      if e.fsType == Fat then
        if (e.handle, FatPath(path)) in files then Done((Fat, files[(e.handle, FatPath(path))])) else Panic
      else Done((e.fsType, []))
  }

  /** The bytes of a file as characters, one per byte. */
  function Chars(b: seq<byte>): (r: string)
    ensures |r| == |b| && forall i :: 0 <= i < |b| ==> r[i] == b[i] as char
  {
    seq(|b|, i requires 0 <= i < |b| => b[i] as char)
  }

  /** The scan of `readln` from `pos`: the characters before the stop and
    * where it stopped. It stops at a `\n`; at a position at or past
    * `filesize` it stops and resets to 0; and it reads `contents[pos]`
    * before either check, so running off the end of `contents` panics. */
  function ScanLine(contents: seq<byte>, filesize: nat, pos: nat): Outcome<(string, nat)>
    decreases |contents| - pos
  {
    if pos >= |contents| then Panic
    else if contents[pos] == 10 then Done(([], pos))
    else if pos >= filesize then Done(([], 0))
    else match ScanLine(contents, filesize, pos + 1)
      case Panic => Panic
      case Done(t) => Done(([contents[pos] as char] + t.0, t.1))
  }

  /** `readln`: the line, the end-of-file flag, and the new position. */
  function ReadlnSpec(contents: seq<byte>, filesize: nat, pos: nat): Outcome<(string, bool, nat)> {
    match ScanLine(contents, filesize, pos)
    case Panic => Panic
    case Done(t) =>
      if t.1 + 1 >= filesize then Done((t.0, true, 0)) else Done((t.0, false, t.1 + 1))
  }

  /** The first `\n` at or after `pos`. */
  function NextNewline(contents: seq<byte>, pos: nat): (r: Option<nat>)
    ensures r.Some? ==> pos <= r.value < |contents| && contents[r.value] == 10
    ensures r.Some? ==> forall k :: pos <= k < r.value ==> contents[k] != 10
    ensures r.None? ==> forall k :: pos <= k < |contents| ==> contents[k] != 10
    decreases |contents| - pos
  {
    if pos >= |contents| then None
    else if contents[pos] == 10 then Some(pos)
    else NextNewline(contents, pos + 1)
  }

  lemma {:induction false} ScanToNewline(contents: seq<byte>, pos: nat)
    requires pos <= |contents|
    ensures NextNewline(contents, pos).None? ==> ScanLine(contents, |contents|, pos).Panic?
    ensures NextNewline(contents, pos).Some? ==> var j := NextNewline(contents, pos).value;
      ScanLine(contents, |contents|, pos) == Done((Chars(contents[pos..j]), j))
    decreases |contents| - pos
  {
    if pos < |contents| && contents[pos] != 10 {
      ScanToNewline(contents, pos + 1);
      if NextNewline(contents, pos).Some? {
        var j := NextNewline(contents, pos).value;
        assert Chars(contents[pos..j]) == [contents[pos] as char] + Chars(contents[pos + 1..j]);
      }
    }
  }

  /** On a file whose size is its length, `readln` returns the bytes from
    * `pos` up to the next `\n` and moves past it, reporting the end of
    * the file (and going back to 0) when that `\n` is the last byte; with
    * no `\n` left it panics, even on the last line. */
  lemma ReadlnLine(contents: seq<byte>, pos: nat)
    requires pos <= |contents|
    ensures NextNewline(contents, pos).None? ==> ReadlnSpec(contents, |contents|, pos).Panic?
    ensures NextNewline(contents, pos).Some? ==> var j := NextNewline(contents, pos).value;
      j + 1 == |contents| ==> ReadlnSpec(contents, |contents|, pos) == Done((Chars(contents[pos..j]), true, 0))
    ensures NextNewline(contents, pos).Some? ==> var j: nat := NextNewline(contents, pos).value;
      j + 1 < |contents| ==> ReadlnSpec(contents, |contents|, pos) == Done((Chars(contents[pos..j]), false, j + 1))
  {
    ScanToNewline(contents, pos);
  }

  /** A `readln` that is not at the end moves strictly forward. */
  lemma ReadlnAdvances(contents: seq<byte>, pos: nat)
    requires pos <= |contents|
    ensures var r := ReadlnSpec(contents, |contents|, pos);
      r.Done? && !r.value.1 ==> pos < r.value.2 < |contents|
  {
    ReadlnLine(contents, pos);
  }

  /** An open file: its bytes, the read position and its size. */
  class File {
    var filesystemType: FilesystemType
    var contents: seq<byte>
    var position: nat
    var filesize: nat

    constructor (fsType: FilesystemType, bytes: seq<byte>)
      ensures filesystemType == fsType && contents == bytes
      ensures position == 0 && filesize == |bytes|
    {
      filesystemType := fsType;
      contents := bytes;
      position := 0;
      filesize := |bytes|;
    }

    /** `readln`, step by step. */
    method Readln() returns (r: Outcome<(string, bool)>)
      modifies this
      ensures contents == old(contents) && filesize == old(filesize) && filesystemType == old(filesystemType)
      ensures var spec := ReadlnSpec(old(contents), old(filesize), old(position));
        r.Done? <==> spec.Done?
      ensures var spec := ReadlnSpec(old(contents), old(filesize), old(position));
        r.Done? ==> r.value == (spec.value.0, spec.value.1) && position == spec.value.2
    {
      var c, fs := contents, filesize;
      ghost var scan := ScanLine(c, fs, position);
      var s: string := [];
      assert ScanLine(c, fs, position).Done? ==> s + ScanLine(c, fs, position).value.0 == ScanLine(c, fs, position).value.0;
      while true
        invariant contents == c && filesize == fs && filesystemType == old(filesystemType)
        invariant ScanLine(c, fs, position).Panic? ==> scan.Panic?
        invariant ScanLine(c, fs, position).Done? ==>
          scan == Done((s + ScanLine(c, fs, position).value.0, ScanLine(c, fs, position).value.1))
        decreases |c| - position
      {
        if position >= |c| {
          return Panic;
        }
        if c[position] == 10 {
          assert s + [] == s;
          assert scan == Done((s, position));
          break;
        }
        if position >= fs {
          assert s + [] == s;
          position := 0;
          assert scan == Done((s, position));
          break;
        }
        if ScanLine(c, fs, position + 1).Done? {
          var t := ScanLine(c, fs, position + 1).value;
          assert s + ([c[position] as char] + t.0) == (s + [c[position] as char]) + t.0;
        }
        s := s + [c[position] as char];
        position := position + 1;
      }
      assert scan == Done((s, position));
      position := position + 1;
      if position >= fs {
        position := 0;
        return Done((s, true));
      }
      return Done((s, false));
    }
  }

  method Open(reg: seq<SliceEntry>, files: FirmwareFiles, slice: Guid, path: string) returns (r: Outcome<File>)
    ensures r.Done? <==> OpenSpec(reg, files, slice, path).Done?
    ensures r.Done? ==> var spec := OpenSpec(reg, files, slice, path).value;
      fresh(r.value) && r.value.filesystemType == spec.0 && r.value.contents == spec.1
      && r.value.position == 0 && r.value.filesize == |spec.1|
  {
    var e := FindSlice(reg, slice);
    if e.Panic? {
      return Panic;
    }
    var entry := e.value;
    if entry.fsType == Fat {
      var fwPath := FatPath(path);
      if (entry.handle, fwPath) !in files {
        return Panic;
      }
      var f := new File(Fat, files[(entry.handle, fwPath)]);
      return Done(f);
    }
    var f := new File(entry.fsType, []);
    return Done(f);
  }

  // ---------------------------------------------------------------
  // The configuration file
  // ---------------------------------------------------------------

  /** The lines `readln` delivers from `pos` on, up to and including the
    * one that comes with the end-of-file flag; a `readln` that panics
    * makes the whole reading panic. */
  function ReadlnSeq(contents: seq<byte>, pos: nat): Outcome<seq<string>>
    requires pos <= |contents|
    decreases |contents| - pos
  {
    match ReadlnSpec(contents, |contents|, pos)
    case Panic => Panic
    case Done(t) =>
      if t.1 then Done([t.0])
      else
        ReadlnAdvances(contents, pos);
        match ReadlnSeq(contents, t.2)
        case Panic => Panic
        case Done(rest) => Done([t.0] + rest)
  }

  /** `parse_cfg`: the ESP's `LOADER.CFG`, its lines applied in order to the
    * default configuration. */
  function CfgSpec(reg: seq<SliceEntry>, files: FirmwareFiles): Outcome<Config> {
    match FirstEsp(reg)
    case None => Panic
    case Some(i) =>
      match OpenSpec(reg, files, reg[i].guid, CfgPath)
      case Panic => Panic
      case Done(f) =>
        match ReadlnSeq(f.1, 0)
        case Panic => Panic
        case Done(lines) => FoldLines(DefaultConfig, lines)
  }

  /** What is left of `parse_cfg` with `config` so far and the file read up
    * to `pos`. */
  function CfgFrom(contents: seq<byte>, pos: nat, config: Config): Outcome<Config>
    requires pos <= |contents|
  {
    match ReadlnSeq(contents, pos)
    case Panic => Panic
    case Done(lines) => FoldLines(config, lines)
  }

  method ParseCfg(reg: seq<SliceEntry>, files: FirmwareFiles) returns (r: Outcome<Config>)
    ensures r == CfgSpec(reg, files)
  {
    var esp := FindEspSlice(reg);
    if esp.Panic? {
      return Panic;
    }
    var file := Open(reg, files, esp.value.guid, CfgPath);
    if file.Panic? {
      return Panic;
    }
    var f := file.value;
    ghost var c := f.contents;
    var config := DefaultConfig;
    var eof := false;
    assert CfgFrom(c, 0, config) == CfgSpec(reg, files);
    while !eof
      invariant f.contents == c && f.filesize == |c| && f.position <= |c|
      invariant !eof ==> CfgFrom(c, f.position, config) == CfgSpec(reg, files)
      invariant eof ==> Done(config) == CfgSpec(reg, files)
      decreases if eof then 0 else |c| + 1 - f.position
    {
      ghost var pos := f.position;
      ReadlnAdvances(c, pos);
      var line := f.Readln();
      if line.Panic? {
        return Panic;
      }
      eof := line.value.1;
      CfgStep(c, pos, config);
      var kv := ParseKeyValuePair(line.value.0);
      if kv.0 == "root" {
        var g := NewFromString(kv.1);
        if g.Panic? {
          return Panic;
        }
        config := config.(rootfs := g.value);
      } else if kv.0 == "resolution" {
        config := config.(resolution := kv.1);
      }
    }
    return Done(config);
  }

  /** One round of the loop of `parse_cfg`: read a line, apply it, and stop
    * after the line that comes with the end-of-file flag. */
  lemma CfgStep(contents: seq<byte>, pos: nat, config: Config)
    requires pos <= |contents| && ReadlnSpec(contents, |contents|, pos).Done?
    ensures var t := ReadlnSpec(contents, |contents|, pos).value;
      CfgFrom(contents, pos, config) ==
        match ApplyLine(config, t.0)
        case Panic => Panic
        case Done(c1) => if t.1 then Done(c1) else CfgFrom(contents, t.2, c1)
  {
    var t := ReadlnSpec(contents, |contents|, pos).value;
    ReadlnAdvances(contents, pos);
    if t.1 {
      FoldCons(config, t.0, []);
      assert [t.0] + [] == [t.0];
    } else {
      match ReadlnSeq(contents, t.2)
      case Panic =>
      case Done(rest) =>
        FoldCons(config, t.0, rest);
    }
  }

  /** The lines of the bytes from `pos` on, each ended by a `\n`; the
    * bytes after the last `\n` are dropped. */
  function NewlineLines(contents: seq<byte>, pos: nat): seq<string>
    requires pos <= |contents|
    decreases |contents| - pos
  {
    match NextNewline(contents, pos)
    case None => []
    case Some(j) => [Chars(contents[pos..j])] + NewlineLines(contents, j + 1)
  }

  /** On a file that ends with `\n`, `readln` delivers its `\n`-ended lines. */
  lemma {:induction false} ReadlnSeqIsNewlineLines(contents: seq<byte>, pos: nat)
    requires pos < |contents| && contents[|contents| - 1] == 10
    ensures ReadlnSeq(contents, pos) == Done(NewlineLines(contents, pos))
    decreases |contents| - pos
  {
    assert NextNewline(contents, pos).Some? by {
      assert contents[|contents| - 1] == 10;
    }
    ReadlnLine(contents, pos);
    var j := NextNewline(contents, pos).value;
    var line := Chars(contents[pos..j]);
    if j + 1 < |contents| {
      ReadlnSeqIsNewlineLines(contents, j + 1);
      ReadlnSeqCons(contents, pos, line, j + 1);
    } else {
      ReadlnSeqLast(contents, pos, line);
      assert NewlineLines(contents, j + 1) == [];
      assert [line] + [] == [line];
    }
  }

  /** Without `\r`, those lines are the ones `str::lines` finds. */
  lemma {:induction false} NewlineLinesAreLines(contents: seq<byte>, pos: nat)
    requires pos <= |contents| && (pos < |contents| ==> contents[|contents| - 1] == 10)
    requires forall k :: 0 <= k < |contents| ==> contents[k] != 13
    ensures NewlineLines(contents, pos) == Lines(Chars(contents[pos..]))
    decreases |contents| - pos
  {
    if pos == |contents| {
      assert NewlineLines(contents, pos) == [];
      assert Chars(contents[pos..]) == [];
      assert Lines([]) == [];
    } else {
      assert NextNewline(contents, pos).Some? by {
        assert contents[|contents| - 1] == 10;
      }
      var j := NextNewline(contents, pos).value;
      NewlineLinesCons(contents, pos, j);
      LinesStep(contents, pos, j);
      NewlineLinesAreLines(contents, j + 1);
      SameHeadSameTail(NewlineLines(contents, pos), Lines(Chars(contents[pos..])), Chars(contents[pos..j]),
                       NewlineLines(contents, j + 1), Lines(Chars(contents[j + 1..])));
    }
  }

  lemma NewlineLinesCons(contents: seq<byte>, pos: nat, j: nat)
    requires pos <= j < |contents| && NextNewline(contents, pos) == Some(j)
    ensures NewlineLines(contents, pos) == [Chars(contents[pos..j])] + NewlineLines(contents, j + 1)
  {
  }

  lemma SameHeadSameTail(a: seq<string>, b: seq<string>, head: string, aTail: seq<string>, bTail: seq<string>)
    requires a == [head] + aTail && b == [head] + bTail && aTail == bTail
    ensures a == b
  {
  }

  /** For a file that ends with `\n` and has no `\r`, `readln` delivers
    * exactly the lines `str::lines` finds in the text, so `parse_cfg`
    * agrees with the one in `config.rs`. */
  lemma ReadlnSeqIsLines(contents: seq<byte>)
    requires |contents| > 0 && contents[|contents| - 1] == 10
    requires forall k :: 0 <= k < |contents| ==> contents[k] != 13
    ensures ReadlnSeq(contents, 0) == Done(Lines(Chars(contents)))
  {
    ReadlnSeqIsNewlineLines(contents, 0);
    NewlineLinesAreLines(contents, 0);
    assert contents[0..] == contents;
  }

  lemma ReadlnSeqCons(contents: seq<byte>, pos: nat, line: string, next: nat)
    requires pos <= |contents| && ReadlnSpec(contents, |contents|, pos) == Done((line, false, next))
    requires next <= |contents| && ReadlnSeq(contents, next).Done?
    ensures ReadlnSeq(contents, pos) == Done([line] + ReadlnSeq(contents, next).value)
  {
  }

  lemma ReadlnSeqLast(contents: seq<byte>, pos: nat, line: string)
    requires pos <= |contents| && ReadlnSpec(contents, |contents|, pos) == Done((line, true, 0))
    ensures ReadlnSeq(contents, pos) == Done([line])
  {
  }

  /** The text from `pos` on is the line up to the next `\n`, then the rest. */
  lemma LinesStep(contents: seq<byte>, pos: nat, j: nat)
    requires pos <= j < |contents| && NextNewline(contents, pos) == Some(j)
    requires forall k :: 0 <= k < |contents| ==> contents[k] != 13
    ensures Lines(Chars(contents[pos..])) == [Chars(contents[pos..j])] + Lines(Chars(contents[j + 1..]))
  {
    var line := Chars(contents[pos..j]);
    var after := Chars(contents[j + 1..]);
    assert Chars(contents[pos..]) == line + ['\n'] + after;
    assert '\n' !in line by {
      forall k | 0 <= k < |line| ensures line[k] != '\n' {
        assert contents[pos + k] != 10;
      }
    }
    assert '\r' !in line by {
      forall k | 0 <= k < |line| ensures line[k] != '\r' {
        assert contents[pos + k] != 13;
      }
    }
    LinesCons(line, after);
  }

  /** With a well-formed file, `parse_cfg` here applies to the default
    * configuration exactly the lines that `parse_cfg` in `config.rs` does. */
  lemma CfgAgreesWithConfigRs(contents: seq<byte>, config: Config)
    requires |contents| > 0 && contents[|contents| - 1] == 10
    requires forall k :: 0 <= k < |contents| ==> contents[k] != 13
    ensures CfgFrom(contents, 0, config) == FoldLines(config, Lines(Chars(contents)))
  {
    ReadlnSeqIsLines(contents);
  }

  /** An empty file, or one whose last line has no `\n`, makes `parse_cfg`
    * panic: `readln` runs off the end of the bytes looking for the `\n`. */
  lemma {:induction false} UnterminatedCfgPanics(contents: seq<byte>, pos: nat, config: Config)
    requires pos <= |contents|
    requires |contents| == 0 || contents[|contents| - 1] != 10
    ensures ReadlnSeq(contents, pos) == Panic
    ensures CfgFrom(contents, pos, config) == Panic
    decreases |contents| - pos
  {
    ReadlnLine(contents, pos);
    if NextNewline(contents, pos).Some? {
      var j := NextNewline(contents, pos).value;
      UnterminatedCfgPanics(contents, j + 1, config);
      ReadlnSeqPanics(contents, pos, Chars(contents[pos..j]), j + 1);
    }
  }

  lemma ReadlnSeqPanics(contents: seq<byte>, pos: nat, line: string, next: nat)
    requires pos <= |contents| && ReadlnSpec(contents, |contents|, pos) == Done((line, false, next))
    requires next <= |contents| && ReadlnSeq(contents, next) == Panic
    ensures ReadlnSeq(contents, pos) == Panic
  {
  }

  /** A file whose last line has no `\n` panics at that line. */
  lemma UnterminatedLastLinePanics(contents: seq<byte>, pos: nat)
    requires pos <= |contents|
    requires forall k :: pos <= k < |contents| ==> contents[k] != 10
    ensures ReadlnSpec(contents, |contents|, pos).Panic?
  {
    ReadlnLine(contents, pos);
  }
}
