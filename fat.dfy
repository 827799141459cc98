// The loader's FAT driver (base/loader/src/drivers/fat.rs): the BIOS
// parameter block and 32-byte directory entries of the Microsoft FAT32 File
// System Specification 1.03, the FAT type determination of its section 3.5,
// 8.3 names, and the one-cluster file read the loader uses for its
// configuration file. Arithmetic wraps as Rust's release build does;
// division by zero, `assert!` and out-of-range indexing panic.

module Fat {
  import opened Common
  import opened Uuid
  import opened BlockIo
  import opened UefiDisk

  datatype FatType = FAT12 | FAT16 | FAT32

  /** The BPB fields the driver reads, at their packed offsets. */
  datatype Bpb = Bpb(
    bytsPerSec: u16,   // offset 11
    secPerClus: u8,    // offset 13
    rsvdSecCnt: u16,   // offset 14
    numFats: u8,       // offset 16
    rootEntCnt: u16,   // offset 17
    totSec16: u16,     // offset 19
    fatSz16: u16,      // offset 22
    totSec32: u32,     // offset 32
    fatSz32: u32,      // offset 36
    rootClus: u32)     // offset 44

  /** `size_of::<BiosParameterBlock>()`. */
  const BPB_SIZE: nat := 64

  function DecodeBpb(b: seq<byte>): Bpb {
    Bpb(Le16(b, 11), ByteAt(b, 13), Le16(b, 14), ByteAt(b, 16), Le16(b, 17), Le16(b, 19),
        Le16(b, 22), Le32(b, 32), Le32(b, 36), Le32(b, 44))
  }

  /** The directory entry fields the driver reads. */
  datatype DirEntry = DirEntry(name: seq<byte>, attr: u8, fstClusHi: u16, fstClusLo: u16, fileSize: u32)

  const ENTRY_SIZE: nat := 32
  const ATTR_DIRECTORY: u8 := 0x10

  function DecodeEntry(b: seq<byte>, off: int): (e: DirEntry)
    ensures |e.name| == 11
  {
    DirEntry(Bytes(b, off, 11), ByteAt(b, off + 11), Le16(b, off + 20), Le16(b, off + 26), Le32(b, off + 28))
  }

  // ---------------------------------------------------------------
  // FAT type and cluster arithmetic
  // ---------------------------------------------------------------

  /** `((rootentcnt * 32) + (bytspersec - 1)) / bytspersec` in u16
    * arithmetic; a zero `bytspersec` divides by zero. */
  function RootDirSectors(bpb: Bpb): (r: Outcome<u16>)
    ensures r.Panic? <==> bpb.bytsPerSec == 0
  {
    if bpb.bytsPerSec == 0 then Panic
    else Done(Quot(Wrap16(Wrap16(bpb.rootEntCnt * 32) + (bpb.bytsPerSec - 1)), bpb.bytsPerSec))
  }

  /** When the u16 sum does not overflow, the root directory takes the
    * ceiling of rootentcnt * 32 / bytspersec sectors. */
  lemma RootDirSectorsIsCeiling(bpb: Bpb)
    requires bpb.bytsPerSec > 0 && bpb.rootEntCnt * 32 + bpb.bytsPerSec - 1 < U16_MOD
    ensures var r := RootDirSectors(bpb).value;
      r * bpb.bytsPerSec >= bpb.rootEntCnt * 32 && (r - 1) * bpb.bytsPerSec < bpb.rootEntCnt * 32
  {
    var x, b := bpb.rootEntCnt * 32, bpb.bytsPerSec;
    var r := (x + b - 1) / b;
    assert RootDirSectors(bpb).value == r;
    DivModBasics(x + b - 1, b);
    assert r * b + (x + b - 1) % b == x + b - 1;
    MulSub(r, 1, b);
  }

  /** The 16-bit FAT size when it is nonzero, else the 32-bit one. */
  function FatSize(bpb: Bpb): (r: u32)
    ensures bpb.fatSz16 != 0 ==> r == bpb.fatSz16
    ensures bpb.fatSz16 == 0 ==> r == bpb.fatSz32
  {
    if bpb.fatSz16 != 0 then bpb.fatSz16 else bpb.fatSz32
  }

  /** The 16-bit sector count when it is nonzero, else the 32-bit one. */
  function TotalSectors(bpb: Bpb): (r: u32)
    ensures bpb.totSec16 != 0 ==> r == bpb.totSec16
    ensures bpb.totSec16 == 0 ==> r == bpb.totSec32
  {
    if bpb.totSec16 != 0 then bpb.totSec16 else bpb.totSec32
  }

  /** `rsvdseccnt + numfats * fat_size + root_dir_sectors` in u32. */
  function FirstDataSector(bpb: Bpb, rds: u16): u32 {
    Wrap32(Wrap32(bpb.rsvdSecCnt + Wrap32(bpb.numFats * FatSize(bpb))) + rds)
  }

  /** The cluster-count thresholds of section 3.5. */
  function Classify(clusters: nat): (t: FatType)
    ensures t == FAT12 <==> clusters < 4085
    ensures t == FAT16 <==> 4085 <= clusters < 65525
    ensures t == FAT32 <==> clusters >= 65525
  {
    if clusters < 4085 then FAT12 else if clusters < 65525 then FAT16 else FAT32
  }

  /** `detect_fat_type`: a zero `bytspersec` or `secperclus` divides by zero. */
  function DetectFatType(bpb: Bpb): (r: Outcome<FatType>)
    ensures r.Panic? <==> bpb.bytsPerSec == 0 || bpb.secPerClus == 0
  {
    match RootDirSectors(bpb)
    case Panic => Panic
    case Done(rds) =>
      if bpb.secPerClus == 0 then Panic
      else Done(Classify(Quot(Wrap32(TotalSectors(bpb) - FirstDataSector(bpb, rds)), bpb.secPerClus)))
  }

  /** The ceiling division of section 3.5. */
  function CeilDiv(x: nat, b: nat): nat
    requires b > 0
  {
    (x + b - 1) / b
  }

  /** The u32 sum rsvd + fats + rds when it does not overflow. */
  lemma FirstDataSectorExact(bpb: Bpb, rds: u16)
    requires bpb.rsvdSecCnt + bpb.numFats * FatSize(bpb) + rds < U32_MOD
    ensures FirstDataSector(bpb, rds) == bpb.rsvdSecCnt + bpb.numFats * FatSize(bpb) + rds
  {
    var p := bpb.numFats * FatSize(bpb);
    NoWrapSum(bpb.rsvdSecCnt, p, rds);
  }

  lemma NoWrapSum(r: nat, p: nat, d: nat)
    requires r + p + d < U32_MOD
    ensures Wrap32(Wrap32(r + Wrap32(p)) + d) == r + p + d
  {
    Wrap32Id(p);
    Wrap32Id(r + p);
    Wrap32Id(r + p + d);
  }

  /** Without overflow, `detect_fat_type` is the determination of section
    * 3.5 computed on unbounded integers. */
  lemma DetectFatTypeIsSpecification(bpb: Bpb)
    requires bpb.bytsPerSec > 0 && bpb.secPerClus > 0
    requires bpb.rootEntCnt * 32 + bpb.bytsPerSec - 1 < U16_MOD
    requires bpb.rsvdSecCnt + bpb.numFats * FatSize(bpb) + CeilDiv(bpb.rootEntCnt * 32, bpb.bytsPerSec)
      <= TotalSectors(bpb)
    ensures DetectFatType(bpb) == Done(Classify(
      (TotalSectors(bpb) - (bpb.rsvdSecCnt + bpb.numFats * FatSize(bpb)
        + CeilDiv(bpb.rootEntCnt * 32, bpb.bytsPerSec))) / bpb.secPerClus))
  {
    var rds := RootDirSectors(bpb).value;
    RootDirSectorsExact(bpb);
    FirstDataSectorExact(bpb, rds);
    var d := TotalSectors(bpb) - FirstDataSector(bpb, rds);
    Wrap32Id(d);
  }

  lemma RootDirSectorsExact(bpb: Bpb)
    requires bpb.bytsPerSec > 0
    requires bpb.rootEntCnt * 32 + bpb.bytsPerSec - 1 < U16_MOD
    ensures RootDirSectors(bpb) == Done(CeilDiv(bpb.rootEntCnt * 32, bpb.bytsPerSec))
  {
    var x, b := bpb.rootEntCnt * 32, bpb.bytsPerSec;
    Wrap16Id(x);
    Wrap16Id(x + (b - 1));
  }

  /** `find_first_sector_of_cluster`: `(n - 2) * secperclus + first data
    * sector` in u32. */
  function FirstSectorOfCluster(bpb: Bpb, n: u32): (r: Outcome<u32>)
    ensures r.Panic? <==> bpb.bytsPerSec == 0
  {
    match RootDirSectors(bpb)
    case Panic => Panic
    case Done(rds) => Done(Wrap32(Wrap32(Wrap32(n - 2) * bpb.secPerClus) + FirstDataSector(bpb, rds)))
  }

  /** The exact sector when nothing overflows (clusters are numbered from 2). */
  lemma FirstSectorExact(bpb: Bpb, n: u32)
    requires n >= 2 && bpb.bytsPerSec > 0
    requires (n - 2) * bpb.secPerClus + bpb.rsvdSecCnt + bpb.numFats * FatSize(bpb)
      + RootDirSectors(bpb).value < U32_MOD
    ensures FirstSectorOfCluster(bpb, n) == Done((n - 2) * bpb.secPerClus + bpb.rsvdSecCnt
      + bpb.numFats * FatSize(bpb) + RootDirSectors(bpb).value)
  {
    var rds := RootDirSectors(bpb).value;
    var q := (n - 2) * bpb.secPerClus;
    FirstDataSectorExact(bpb, rds);
    Wrap32Id(n - 2);
    Wrap32Id(q);
    Wrap32Id(q + FirstDataSector(bpb, rds));
  }

  /** Later clusters start at later sectors, as long as nothing overflows. */
  lemma FirstSectorIncreasing(bpb: Bpb, n: u32, m: u32)
    requires 2 <= n < m && bpb.bytsPerSec > 0 && bpb.secPerClus > 0
    requires (m - 2) * bpb.secPerClus + bpb.rsvdSecCnt + bpb.numFats * FatSize(bpb)
      + RootDirSectors(bpb).value < U32_MOD
    ensures FirstSectorOfCluster(bpb, n).value < FirstSectorOfCluster(bpb, m).value
  {
    MulAdd(n - 2, m - n, bpb.secPerClus);
    MulAtLeast(m - n, bpb.secPerClus);
    FirstSectorExact(bpb, n);
    FirstSectorExact(bpb, m);
  }

  /** The end-of-chain marks of the three FAT types. */
  function EofMark(t: FatType): u32 {
    match t
    case FAT12 => 0x0FF8
    case FAT16 => 0xFFF8
    case FAT32 => 0x0FFF_FFF8
  }

  /** `is_eof`. */
  function IsEof(t: FatType, content: u32): (r: bool)
    ensures t == FAT12 ==> (r <==> content >= 0x0FF8)
    ensures t == FAT16 ==> (r <==> content >= 0xFFF8)
    ensures t == FAT32 ==> (r <==> content >= 0x0FFF_FFF8)
  {
    content >= EofMark(t)
  }

  // ---------------------------------------------------------------
  // 8.3 names
  // ---------------------------------------------------------------

  const DOT: byte := 0x2E
  const SPACE: byte := 0x20
  const SLASH: byte := 0x2F
  const LOADER: seq<byte> := [0x4C, 0x4F, 0x41, 0x44, 0x45, 0x52]
  const CFG: seq<byte> := [0x43, 0x46, 0x47]
  /** "FAT" */
  const FAT_LABEL: seq<byte> := [0x46, 0x41, 0x54]

  function Spaces(n: nat): (r: seq<byte>)
    ensures |r| == n && forall k :: 0 <= k < n ==> r[k] == SPACE
  {
    seq<byte>(n, k => SPACE)
  }

  /** Byte `k` of the 11-byte name: the extension's bytes from offset 8,
    * over the base name's bytes from offset 0, over spaces. */
  function DosByte(base: seq<byte>, ext: seq<byte>, k: nat): byte {
    if 8 <= k < 8 + |ext| then ext[k - 8] else if k < |base| then base[k] else SPACE
  }

  /** `to_dos_filename`: names over 11 bytes are refused by `assert!`; a
    * name with a '.' (other than "." itself) is split at its FIRST '.';
    * an extension over 3 bytes indexes past byte 10 and panics. */
  function DosName(name: seq<byte>): (r: Outcome<seq<byte>>)
    ensures r.Done? ==> |r.value| == 11
    ensures |name| > 11 ==> r.Panic?
  {
    if |name| > 11 then Panic
    else if DOT in name && |name| > 1 then
      var parts := SplitOnce(name, DOT).value;
      if |parts.1| > 3 then Panic
      else Done(seq<byte>(11, k requires 0 <= k < 11 => DosByte(parts.0, parts.1, k)))
    else Done(seq<byte>(11, k requires 0 <= k < 11 => DosByte(name, [], k)))
  }

  /** A name without a '.' (or "." itself) is copied and padded with spaces. */
  lemma DosNameUndotted(name: seq<byte>)
    requires |name| <= 11 && (DOT !in name || |name| <= 1)
    ensures DosName(name) == Done(name + Spaces(11 - |name|))
  {
    assert DosName(name).value == name + Spaces(11 - |name|);
  }

  /** A short dotted name is its base padded to 8 bytes, then its
    * extension padded to 3. */
  lemma DosNameDotted(base: seq<byte>, ext: seq<byte>)
    requires DOT !in base && |base| <= 8 && |ext| <= 3
    requires 0 < |base| + |ext| <= 10
    ensures DosName(base + [DOT] + ext) == Done(base + Spaces(8 - |base|) + ext + Spaces(3 - |ext|))
  {
    var name := base + [DOT] + ext;
    assert name[|base|] == DOT;
    SplitOnceAt(base, DOT, ext);
    var r := DosName(name).value;
    var padded := base + Spaces(8 - |base|) + ext + Spaces(3 - |ext|);
    forall k | 0 <= k < 11
      ensures r[k] == padded[k]
    {
      if k < |base| {
        assert padded[k] == base[k];
      } else if k < 8 {
        assert padded[k] == SPACE;
      } else if k < 8 + |ext| {
        assert padded[k] == ext[k - 8];
      } else {
        assert padded[k] == SPACE;
      }
    }
    assert r == padded;
  }

  /** The length check counts the '.', so a name that fills both the
    * 8-byte base and the 3-byte extension is refused. */
  lemma DosNameFullLengthPanics(base: seq<byte>, ext: seq<byte>)
    requires |base| == 8 && |ext| == 3
    ensures DosName(base + [DOT] + ext).Panic?
  {
  }

  /** An extension of more than 3 bytes panics. */
  lemma DosNameLongExtension(base: seq<byte>, ext: seq<byte>)
    requires DOT !in base && |base| + 1 + |ext| <= 11 && |ext| > 3
    ensures DosName(base + [DOT] + ext).Panic?
  {
    var name := base + [DOT] + ext;
    assert name[|base|] == DOT;
    SplitOnceAt(base, DOT, ext);
  }

  /** "LOADER.CFG" becomes "LOADER  CFG". */
  lemma DosNameExample()
    ensures DosName(LOADER + [DOT] + CFG) == Done(LOADER + [SPACE, SPACE] + CFG)
  {
    assert DOT !in LOADER;
    DosNameDotted(LOADER, CFG);
    assert Spaces(2) == [SPACE, SPACE];
    assert LOADER + Spaces(2) + CFG + Spaces(0) == LOADER + [SPACE, SPACE] + CFG;
  }

  /** The method fills an 11-byte array of spaces in place, as the driver
    * does. */
  method ToDosFilename(name: seq<byte>) returns (r: Outcome<seq<byte>>)
    ensures r == DosName(name)
  {
    if |name| > 11 {
      return Panic;
    }
    var filename := new byte[11](_ => SPACE);
    if DOT in name && |name| > 1 {
      var parts := SplitOnce(name, DOT).value;
      var base, ext := parts.0, parts.1;
      for i := 0 to |base|
        invariant forall k :: 0 <= k < 11 ==> filename[k] == DosByte(base[..i], [], k)
      {
        filename[i] := base[i];
      }
      assert base[..|base|] == base;
      for i := 0 to |ext|
        invariant 8 + i <= 11
        invariant forall k :: 0 <= k < 11 ==> filename[k] == DosByte(base, ext[..i], k)
      {
        if 8 + i >= 11 {
          return Panic;
        }
        filename[8 + i] := ext[i];
      }
      assert ext[..|ext|] == ext;
      assert filename[..] == seq<byte>(11, k requires 0 <= k < 11 => DosByte(base, ext, k));
      return Done(filename[..]);
    }
    for i := 0 to |name|
      invariant forall k :: 0 <= k < 11 ==> filename[k] == DosByte(name[..i], [], k)
    {
      filename[i] := name[i];
    }
    assert name[..|name|] == name;
    assert filename[..] == seq<byte>(11, k requires 0 <= k < 11 => DosByte(name, [], k));
    return Done(filename[..]);
  }

  // ---------------------------------------------------------------
  // Detection
  // ---------------------------------------------------------------

  /** "FAT" at offset 54 (the FAT12/16 file system type label) or 82 (the
    * FAT32 one). */
  predicate HasFatLabel(bs: seq<byte>)
    requires |bs| == 512
  {
    bs[54..57] == FAT_LABEL || bs[82..85] == FAT_LABEL
  }

  /** `detect`: the boot sector read into zeroed memory, errors ignored. */
  function DetectSpec(reg: seq<SliceEntry>, devices: Devices, slice: Guid): (r: Outcome<bool>)
    requires Backed(reg, devices)
    ensures r.Panic? <==> slice !in Guids(reg)
  {
    match ReadBytesRawSpec(reg, devices, slice, 0, 512, Zeros(512))
    case Panic => Panic
    case Done(res) => Done(HasFatLabel(res.1))
  }

  method Detect(reg: seq<SliceEntry>, devices: Devices, slice: Guid) returns (r: Outcome<bool>)
    requires Backed(reg, devices)
    ensures r == DetectSpec(reg, devices, slice)
  {
    var buffer := new byte[512](_ => 0);
    assert buffer[..] == Zeros(512);
    var st := UefiDisk.ReadBytesRaw(reg, devices, slice, 0, 512, buffer);
    if st.Panic? {
      return Panic;
    }
    return Done(buffer[54..57] == FAT_LABEL || buffer[82..85] == FAT_LABEL);
  }

  /** A failed read leaves the zeroed buffer, which carries no label. */
  lemma DetectFailedReadIsFalse(reg: seq<SliceEntry>, devices: Devices, slice: Guid)
    requires Backed(reg, devices)
    requires var raw := ReadBytesRawSpec(reg, devices, slice, 0, 512, Zeros(512));
      raw.Done? && raw.value.0.Err?
    ensures DetectSpec(reg, devices, slice) == Done(false)
  {
    var dev := DeviceFor(reg, devices, slice).value;
    var raw := StagedRead(dev, 0, 512, Zeros(512));
    assert raw.1 == Zeros(512);
    assert Zeros(512)[54] != FAT_LABEL[0];
    assert Zeros(512)[54..57][0] == Zeros(512)[54];
    assert Zeros(512)[82..85][0] == Zeros(512)[82];
  }

  // ---------------------------------------------------------------
  // Path walk
  // ---------------------------------------------------------------

  /** `to_uppercase`, for the ASCII letters: no lower-case ASCII letter is
    * left, each is replaced by its capital, and every other byte is kept. */
  function UpperAscii(s: seq<byte>): (r: seq<byte>)
    ensures |r| == |s|
    ensures forall i :: 0 <= i < |s| ==> !(0x61 <= r[i] <= 0x7A)
    ensures forall i :: 0 <= i < |s| && 0x61 <= s[i] <= 0x7A ==> r[i] as int + 32 == s[i] as int
    ensures forall i :: 0 <= i < |s| && !(0x61 <= s[i] <= 0x7A) ==> r[i] == s[i]
  {
    seq<byte>(|s|, i requires 0 <= i < |s| => if 0x61 <= s[i] <= 0x7A then s[i] - 32 else s[i])
  }

  /** `trim_start_matches("/")`. */
  function TrimSlashes(s: seq<byte>): (r: seq<byte>)
    ensures |r| <= |s| && r == s[|s| - |r|..]
    ensures forall k :: 0 <= k < |s| - |r| ==> s[k] == SLASH
    ensures r == [] || r[0] != SLASH
  {
    if s != [] && s[0] == SLASH then TrimSlashes(s[1..]) else s
  }

  /** `str::split(c)`: every piece between the `c`s, empty ones included. */
  function SplitAll(s: seq<byte>, c: byte): (r: seq<seq<byte>>)
    ensures |r| >= 1
    ensures forall i :: 0 <= i < |r| ==> c !in r[i]
    decreases |s|
  {
    match SplitOnce(s, c)
    case None => [s]
    case Some(p) => [p.0] + SplitAll(p.1, c)
  }

  /** The path components `find_file` looks up, in order. */
  function Segments(path: seq<byte>): (r: seq<seq<byte>>)
    ensures |r| >= 1
    ensures forall i :: 0 <= i < |r| ==> SLASH !in r[i]
  {
    SplitAll(TrimSlashes(UpperAscii(path)), SLASH)
  }

  function EntriesPerCluster(bpb: Bpb): nat {
    (bpb.bytsPerSec * bpb.secPerClus) / ENTRY_SIZE
  }

  /** The directory cluster read into memory that starts zeroed (the
    * driver never initialises it); read errors are ignored. */
  function DirBytes(reg: seq<SliceEntry>, devices: Devices, slice: Guid, bpb: Bpb, cluster: u32)
    : (r: Outcome<seq<byte>>)
    requires Backed(reg, devices)
    ensures r.Done? ==> |r.value| == EntriesPerCluster(bpb) * ENTRY_SIZE
  {
    var n := EntriesPerCluster(bpb) * ENTRY_SIZE;
    match FirstSectorOfCluster(bpb, cluster)
    case Panic => Panic
    case Done(lba) =>
      match ReadBytesRawSpec(reg, devices, slice, lba, n, Zeros(n))
      case Panic => Panic
      case Done(res) => Done(res.1)
  }

  predicate IsLast(e: DirEntry)
    requires |e.name| == 11
  {
    e.name[0] == 0xE5 || e.name[0] == 0x00
  }

  /** What one directory scan finds. */
  datatype Scan = Hit(entry: DirEntry) | Descend(cluster: u32) | Miss

  /** The scan of entries `k..num` of a directory for `seg`: it stops at
    * the first entry whose name starts with 0xE5 or 0x00; the 8.3 form of
    * `seg` is computed at each comparison, so its panic happens only once
    * an entry is compared. */
  function ScanDir(buf: seq<byte>, k: nat, num: nat, seg: seq<byte>): (r: Outcome<Scan>)
    ensures r.Done? && r.value.Hit? ==> exists j :: (k <= j < num
      && DecodeEntry(buf, j * ENTRY_SIZE) == r.value.entry
      && DosName(seg) == Done(r.value.entry.name) && r.value.entry.attr != ATTR_DIRECTORY)
    ensures r.Done? && r.value.Descend? ==> exists j :: (k <= j < num
      && var e := DecodeEntry(buf, j * ENTRY_SIZE);
      DosName(seg) == Done(e.name) && e.attr == ATTR_DIRECTORY && r.value.cluster == e.fstClusLo)
    decreases num - k
  {
    if k >= num then Done(Miss)
    else
      var e := DecodeEntry(buf, k * ENTRY_SIZE);
      if IsLast(e) then Done(Miss)
      else match DosName(seg)
        case Panic => Panic
        case Done(dn) =>
          if e.name == dn then
            if e.attr != ATTR_DIRECTORY then Done(Hit(e)) else Done(Descend(e.fstClusLo))
          else ScanDir(buf, k + 1, num, seg)
  }

  /** Entry `j` of a directory cluster. */
  function EntryAt(buf: seq<byte>, j: nat): (e: DirEntry)
    ensures |e.name| == 11
  {
    DecodeEntry(buf, j * ENTRY_SIZE)
  }

  /** No entry from `k` to `j` marks the end of the directory. */
  predicate Live(buf: seq<byte>, k: nat, j: nat) {
    forall i :: k <= i <= j ==> !IsLast(EntryAt(buf, i))
  }

  /** When the component has an 8.3 form `dn`, the scan never panics, and it
    * misses exactly when no entry before the first end marker is named
    * `dn`. */
  lemma {:induction false} ScanDirMiss(buf: seq<byte>, k: nat, num: nat, seg: seq<byte>, dn: seq<byte>)
    requires DosName(seg) == Done(dn)
    ensures ScanDir(buf, k, num, seg).Done?
    ensures ScanDir(buf, k, num, seg) == Done(Miss) <==>
      forall j :: k <= j < num && Live(buf, k, j) ==> EntryAt(buf, j).name != dn
    decreases num - k
  {
    if k < num && !IsLast(EntryAt(buf, k)) {
      if EntryAt(buf, k).name == dn {
        assert Live(buf, k, k);
      } else {
        ScanDirMiss(buf, k + 1, num, seg, dn);
        forall j | k + 1 <= j < num
          ensures Live(buf, k, j) <==> Live(buf, k + 1, j)
        {
          LiveStep(buf, k, j);
        }
      }
    } else if k < num {
      forall j | k <= j < num
        ensures !Live(buf, k, j)
      {
        assert IsLast(EntryAt(buf, k));
      }
    }
  }

  /** A live run from `k` is the live entry `k` followed by a live run from
    * `k + 1`. */
  lemma LiveStep(buf: seq<byte>, k: nat, j: nat)
    requires k < j
    ensures Live(buf, k, j) <==> !IsLast(EntryAt(buf, k)) && Live(buf, k + 1, j)
  {
    if !IsLast(EntryAt(buf, k)) && Live(buf, k + 1, j) {
      forall i | k <= i <= j
        ensures !IsLast(EntryAt(buf, i))
      {
        if i > k {
          assert k + 1 <= i <= j;
        }
      }
    }
  }

  /** Entry `j` is the first entry from `k` on named `dn`, and no end marker
    * comes before it. */
  predicate FirstNamed(buf: seq<byte>, k: nat, j: nat, dn: seq<byte>) {
    && Live(buf, k, j) && EntryAt(buf, j).name == dn
    && forall i :: k <= i < j ==> EntryAt(buf, i).name != dn
  }

  /** What a matching entry makes of the scan: a file is the hit, a
    * directory is descended into through its low cluster word. */
  function Found(e: DirEntry): Scan {
    if e.attr != ATTR_DIRECTORY then Hit(e) else Descend(e.fstClusLo)
  }

  /** A scan that does not miss stops at the FIRST entry named `dn` before
    * the end marker. */
  lemma {:induction false} ScanDirFirst(buf: seq<byte>, k: nat, num: nat, seg: seq<byte>, dn: seq<byte>)
    requires DosName(seg) == Done(dn)
    requires ScanDir(buf, k, num, seg).Done? && !ScanDir(buf, k, num, seg).value.Miss?
    ensures exists j :: k <= j < num && FirstNamed(buf, k, j, dn) && ScanDir(buf, k, num, seg).value == Found(EntryAt(buf, j))
    decreases num - k
  {
    ScanDirUnfold(buf, k, num, seg, dn);
    if EntryAt(buf, k).name == dn {
      assert FirstNamed(buf, k, k, dn);
    } else {
      ScanDirFirst(buf, k + 1, num, seg, dn);
      var j :| k + 1 <= j < num && FirstNamed(buf, k + 1, j, dn) && ScanDir(buf, k + 1, num, seg).value == Found(EntryAt(buf, j));
      FirstNamedStep(buf, k, j, dn);
    }
  }

  /** One entry of the scan, for a component with an 8.3 form. */
  lemma ScanDirUnfold(buf: seq<byte>, k: nat, num: nat, seg: seq<byte>, dn: seq<byte>)
    requires DosName(seg) == Done(dn)
    ensures k >= num || IsLast(EntryAt(buf, k)) ==> ScanDir(buf, k, num, seg) == Done(Miss)
    ensures k < num && !IsLast(EntryAt(buf, k)) && EntryAt(buf, k).name == dn ==>
      ScanDir(buf, k, num, seg) == Done(Found(EntryAt(buf, k)))
    ensures k < num && !IsLast(EntryAt(buf, k)) && EntryAt(buf, k).name != dn ==>
      ScanDir(buf, k, num, seg) == ScanDir(buf, k + 1, num, seg)
  {
  }

  /** A live entry not named `dn` in front of the first `dn` from `k + 1`
    * leaves it the first from `k`. */
  lemma FirstNamedStep(buf: seq<byte>, k: nat, j: nat, dn: seq<byte>)
    requires k < j && !IsLast(EntryAt(buf, k)) && EntryAt(buf, k).name != dn
    requires FirstNamed(buf, k + 1, j, dn)
    ensures FirstNamed(buf, k, j, dn)
  {
    LiveStep(buf, k, j);
    forall i | k <= i < j
      ensures EntryAt(buf, i).name != dn
    {
      if i > k {
        assert k + 1 <= i < j;
      }
    }
  }

  /** A component without an 8.3 form panics as soon as it is compared with
    * a live entry; before an end marker or in an empty directory the scan
    * misses without comparing. */
  lemma ScanDirNameError(buf: seq<byte>, k: nat, num: nat, seg: seq<byte>)
    requires DosName(seg).Panic?
    ensures ScanDir(buf, k, num, seg).Panic? <==> k < num && !IsLast(EntryAt(buf, k))
    ensures !ScanDir(buf, k, num, seg).Panic? ==> ScanDir(buf, k, num, seg) == Done(Miss)
  {
  }

  /** The walk over the path components from component `i`, in directory
    * `cluster`: a file is returned from any component; a directory entry
    * moves the walk to its low cluster word; a miss stays in the same
    * directory; Err once the components run out. */
  function Walk(reg: seq<SliceEntry>, devices: Devices, slice: Guid, bpb: Bpb, segs: seq<seq<byte>>, i: nat, cluster: u32)
    : (r: Outcome<Result<DirEntry, ()>>)
    requires Backed(reg, devices)
    ensures r.Done? && r.value.Ok? ==> (r.value.value.attr != ATTR_DIRECTORY
      && exists j :: i <= j < |segs| && DosName(segs[j]) == Done(r.value.value.name))
    ensures i >= |segs| ==> r == Done(Err(()))
    decreases |segs| - i
  {
    if i >= |segs| then Done(Err(()))
    else match DirBytes(reg, devices, slice, bpb, cluster)
      case Panic => Panic
      case Done(buf) =>
        match ScanDir(buf, 0, EntriesPerCluster(bpb), segs[i])
        case Panic => Panic
        case Done(Hit(e)) => Done(Ok(e))
        case Done(Descend(c)) => Walk(reg, devices, slice, bpb, segs, i + 1, c)
        case Done(Miss) => Walk(reg, devices, slice, bpb, segs, i + 1, cluster)
  }

  /** `find_file`: only FAT32 volumes are walked, from the root cluster. */
  function FindFileSpec(reg: seq<SliceEntry>, devices: Devices, slice: Guid, path: seq<byte>, bpb: Bpb)
    : (r: Outcome<Result<DirEntry, ()>>)
    requires Backed(reg, devices)
    ensures DetectFatType(bpb) != Done(FAT32) ==> r.Panic?
  {
    if DetectFatType(bpb) != Done(FAT32) then Panic
    else Walk(reg, devices, slice, bpb, Segments(path), 0, bpb.rootClus)
  }

  /** One directory cluster, read as `find_file` reads it. */
  method ReadDirectory(reg: seq<SliceEntry>, devices: Devices, slice: Guid, bpb: Bpb, cluster: u32)
    returns (r: Outcome<seq<byte>>)
    requires Backed(reg, devices) && bpb.bytsPerSec > 0
    ensures r == DirBytes(reg, devices, slice, bpb, cluster)
  {
    var n := EntriesPerCluster(bpb) * ENTRY_SIZE;
    var lba := FirstSectorOfCluster(bpb, cluster).value;
    var entries := new byte[n](_ => 0);
    assert entries[..] == Zeros(n);
    var st := UefiDisk.ReadBytesRaw(reg, devices, slice, lba, n, entries);
    if st.Panic? {
      return Panic;
    }
    return Done(entries[..]);
  }

  /** The entry loop of `find_file` for one path component. */
  method ScanDirectory(buf: seq<byte>, num: nat, seg: seq<byte>) returns (r: Outcome<Scan>)
    ensures r == ScanDir(buf, 0, num, seg)
  {
    var k := 0;
    while k < num
      invariant k <= num
      invariant ScanDir(buf, 0, num, seg) == ScanDir(buf, k, num, seg)
      decreases num - k
    {
      var e := DecodeEntry(buf, k * ENTRY_SIZE);
      if IsLast(e) {
        return Done(Miss);
      }
      var dn := ToDosFilename(seg);
      if dn.Panic? {
        return Panic;
      }
      if e.name == dn.value {
        if e.attr != ATTR_DIRECTORY {
          return Done(Hit(e));
        }
        return Done(Descend(e.fstClusLo));
      }
      k := k + 1;
    }
    return Done(Miss);
  }

  lemma WalkStep(reg: seq<SliceEntry>, devices: Devices, slice: Guid, bpb: Bpb, segs: seq<seq<byte>>, i: nat,
                 cluster: u32, buf: seq<byte>, scan: Outcome<Scan>)
    requires Backed(reg, devices) && i < |segs|
    requires DirBytes(reg, devices, slice, bpb, cluster) == Done(buf)
    requires ScanDir(buf, 0, EntriesPerCluster(bpb), segs[i]) == scan
    ensures scan.Panic? ==> Walk(reg, devices, slice, bpb, segs, i, cluster) == Panic
    ensures scan.Done? && scan.value.Hit? ==> Walk(reg, devices, slice, bpb, segs, i, cluster) == Done(Ok(scan.value.entry))
    ensures scan.Done? && scan.value.Descend? ==>
      Walk(reg, devices, slice, bpb, segs, i, cluster) == Walk(reg, devices, slice, bpb, segs, i + 1, scan.value.cluster)
    ensures scan.Done? && scan.value.Miss? ==>
      Walk(reg, devices, slice, bpb, segs, i, cluster) == Walk(reg, devices, slice, bpb, segs, i + 1, cluster)
  {
  }

  /** A component that names no live entry of the directory leaves the walk
    * in the same directory for the next component. */
  lemma WalkSkipsUnmatched(reg: seq<SliceEntry>, devices: Devices, slice: Guid, bpb: Bpb, segs: seq<seq<byte>>, i: nat,
                           cluster: u32, buf: seq<byte>, dn: seq<byte>)
    requires Backed(reg, devices) && i < |segs|
    requires DirBytes(reg, devices, slice, bpb, cluster) == Done(buf)
    requires DosName(segs[i]) == Done(dn)
    requires forall j :: 0 <= j < EntriesPerCluster(bpb) && Live(buf, 0, j) ==> EntryAt(buf, j).name != dn
    ensures Walk(reg, devices, slice, bpb, segs, i, cluster) == Walk(reg, devices, slice, bpb, segs, i + 1, cluster)
  {
    ScanDirMiss(buf, 0, EntriesPerCluster(bpb), segs[i], dn);
    WalkStep(reg, devices, slice, bpb, segs, i, cluster, buf, ScanDir(buf, 0, EntriesPerCluster(bpb), segs[i]));
  }

  method FindFile(reg: seq<SliceEntry>, devices: Devices, slice: Guid, path: seq<byte>, bpb: Bpb)
    returns (r: Outcome<Result<DirEntry, ()>>)
    requires Backed(reg, devices)
    ensures r == FindFileSpec(reg, devices, slice, path, bpb)
  {
    if DetectFatType(bpb) != Done(FAT32) {
      return Panic;
    }
    var cluster := bpb.rootClus;
    var segs := Segments(path);
    ghost var goal := FindFileSpec(reg, devices, slice, path, bpb);
    assert goal == Walk(reg, devices, slice, bpb, segs, 0, cluster);
    for i := 0 to |segs|
      invariant goal == Walk(reg, devices, slice, bpb, segs, i, cluster)
    {
      var dir := ReadDirectory(reg, devices, slice, bpb, cluster);
      if dir.Panic? {
        return Panic;
      }
      var scan := ScanDirectory(dir.value, EntriesPerCluster(bpb), segs[i]);
      WalkStep(reg, devices, slice, bpb, segs, i, cluster, dir.value, scan);
      match scan {
        case Panic => return Panic;
        case Done(Hit(e)) => return Done(Ok(e));
        case Done(Descend(c)) => cluster := c;
        case Done(Miss) =>
      }
    }
    return Done(Err(()));
  }

  // ---------------------------------------------------------------
  // File read
  // ---------------------------------------------------------------

  /** The BPB read into zeroed memory at LBA 0, errors ignored. */
  function BpbOf(reg: seq<SliceEntry>, devices: Devices, slice: Guid): (r: Outcome<Bpb>)
    requires Backed(reg, devices)
    ensures r.Panic? <==> slice !in Guids(reg)
  {
    match ReadBytesRawSpec(reg, devices, slice, 0, BPB_SIZE, Zeros(BPB_SIZE))
    case Panic => Panic
    case Done(res) => Done(DecodeBpb(res.1))
  }

  /** The BPB and the file's directory entry; `find_file(..).unwrap()`
    * panics when the path is not found. */
  function FileEntry(reg: seq<SliceEntry>, devices: Devices, slice: Guid, path: seq<byte>)
    : (r: Outcome<(Bpb, DirEntry)>)
    requires Backed(reg, devices)
    ensures r.Done? ==> (BpbOf(reg, devices, slice) == Done(r.value.0)
      && FindFileSpec(reg, devices, slice, path, r.value.0) == Done(Ok(r.value.1)))
  {
    match BpbOf(reg, devices, slice)
    case Panic => Panic
    case Done(bpb) =>
      match FindFileSpec(reg, devices, slice, path, bpb)
      case Panic => Panic
      case Done(Err(_)) => Panic
      case Done(Ok(e)) => Done((bpb, e))
  }

  /** `secperclus as u16 * bytspersec as u16`, a u16 product. */
  function ClusterBytes(bpb: Bpb): u16 {
    Wrap16(bpb.secPerClus * bpb.bytsPerSec)
  }

  /** The answer to a size query (null buffer). */
  function FileSizeSpec(reg: seq<SliceEntry>, devices: Devices, slice: Guid, path: seq<byte>): Outcome<u64>
    requires Backed(reg, devices)
  {
    match FileEntry(reg, devices, slice, path)
    case Panic => Panic
    case Done(p) => Done(p.1.fileSize)
  }

  /** The caller's buffer after a read: the file must be smaller than one
    * cluster (`assert!`), and exactly `filesize` bytes are read from its
    * first cluster; the read's own status is ignored. A file longer than
    * the buffer would be written past its end and is treated as a panic. */
  function FatReadSpec(reg: seq<SliceEntry>, devices: Devices, slice: Guid, path: seq<byte>, buf: seq<byte>)
    : (r: Outcome<seq<byte>>)
    requires Backed(reg, devices)
    ensures r.Done? ==> |r.value| == |buf|
  {
    match FileEntry(reg, devices, slice, path)
    case Panic => Panic
    case Done(p) => ReadEntry(reg, devices, slice, p.0, p.1, buf)
  }

  /** The read of a found entry `e`; a file longer than the buffer would
    * be written past its end and is a panic here. */
  function ReadEntry(reg: seq<SliceEntry>, devices: Devices, slice: Guid, bpb: Bpb, e: DirEntry, buf: seq<byte>)
    : (r: Outcome<seq<byte>>)
    requires Backed(reg, devices)
    ensures r.Done? ==> |r.value| == |buf|
  {
    if e.fileSize >= ClusterBytes(bpb) || e.fileSize > |buf| then Panic
    else match FirstSectorOfCluster(bpb, e.fstClusLo)
      case Panic => Panic
      case Done(lba) =>
        match ReadBytesRawSpec(reg, devices, slice, lba, e.fileSize, buf)
        case Panic => Panic
        case Done(res) => Done(res.1)
  }

  /** A completed read is of a file smaller than a cluster; it changes no
    * byte past `filesize`, and when the device read succeeds the first
    * `filesize` bytes are those of the file's first cluster. */
  lemma ReadEntryContents(reg: seq<SliceEntry>, devices: Devices, slice: Guid, bpb: Bpb, e: DirEntry,
                          buf: seq<byte>, dev: BlockDevice, lba: u32, out: seq<byte>)
    requires Backed(reg, devices) && DeviceFor(reg, devices, slice) == Done(dev)
    requires FirstSectorOfCluster(bpb, e.fstClusLo) == Done(lba)
    requires ReadEntry(reg, devices, slice, bpb, e, buf) == Done(out)
    ensures bpb.bytsPerSec > 0 && e.fileSize < ClusterBytes(bpb) && e.fileSize <= |buf| == |out|
    ensures out[e.fileSize..] == buf[e.fileSize..]
    ensures StagedRead(dev, lba, e.fileSize, buf).0.Ok? ==>
      (lba * dev.blockSize + e.fileSize <= |dev.media|
       && out[..e.fileSize] == dev.media[lba * dev.blockSize..lba * dev.blockSize + e.fileSize])
  {
    if StagedRead(dev, lba, e.fileSize, buf).0.Ok? {
      ReadOkIsContiguous(dev, lba, e.fileSize, buf);
    }
  }

  /** How `FileEntry` follows from the boot-sector read and the lookup. */
  lemma FileEntryStep(reg: seq<SliceEntry>, devices: Devices, slice: Guid, path: seq<byte>,
                      res: (Result<(), string>, seq<byte>), found: Outcome<Result<DirEntry, ()>>)
    requires Backed(reg, devices)
    requires ReadBytesRawSpec(reg, devices, slice, 0, BPB_SIZE, Zeros(BPB_SIZE)) == Done(res)
    requires FindFileSpec(reg, devices, slice, path, DecodeBpb(res.1)) == found
    ensures FileEntry(reg, devices, slice, path) == match found
      case Panic => Panic
      case Done(Err(_)) => Panic
      case Done(Ok(e)) => Done((DecodeBpb(res.1), e))
  {
  }

  /** `read_bytes_raw`: a null buffer asks for the file size; otherwise the
    * file is read into the buffer and the result is `None`. */
  method ReadBytesRaw(reg: seq<SliceEntry>, devices: Devices, slice: Guid, path: seq<byte>, buffer: array?<byte>)
    returns (r: Outcome<Option<u64>>)
    requires Backed(reg, devices)
    modifies buffer
    ensures buffer == null ==> r == match FileSizeSpec(reg, devices, slice, path)
      case Panic => Panic
      case Done(n) => Done(Some(n))
    ensures buffer != null ==>
      var spec := FatReadSpec(reg, devices, slice, path, old(buffer[..]));
      && (r.Done? <==> spec.Done?)
      && (r.Done? ==> r.value == None && buffer[..] == spec.value)
  {
    var boot := new byte[BPB_SIZE](_ => 0);
    assert boot[..] == Zeros(BPB_SIZE);
    var st := UefiDisk.ReadBytesRaw(reg, devices, slice, 0, BPB_SIZE, boot);
    if st.Panic? {
      return Panic;
    }
    var bpb := DecodeBpb(boot[..]);
    var found := FindFile(reg, devices, slice, path, bpb);
    FileEntryStep(reg, devices, slice, path, (st.value, boot[..]), found);
    if found.Panic? || found.value.Err? {
      return Panic;
    }
    var e := found.value.value;
    if buffer == null {
      return Done(Some(e.fileSize));
    }
    if e.fileSize >= ClusterBytes(bpb) || e.fileSize > buffer.Length {
      return Panic;
    }
    var lba := FirstSectorOfCluster(bpb, e.fstClusLo).value;
    var rd := UefiDisk.ReadBytesRaw(reg, devices, slice, lba, e.fileSize, buffer);
    if rd.Panic? {
      return Panic;
    }
    return Done(None);
  }
}
