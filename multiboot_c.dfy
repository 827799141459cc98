// The i386 initializer's Multiboot2 parser in C
// (hal/i386/initializer/initializer.c): the boot loader's magic gate, the
// BootInfo defaults, and the walk over the boot-information tags that fills
// the BootInfo and i386BootInfo tables. Widths are those of i386, where
// uintptr_t and size_t are 32 bits; the tags are read from a memory image
// indexed by physical address, whose bytes outside the image read as zero.

module MultibootC {
  import opened Common

  const MULTIBOOT2_BOOTLOADER_MAGIC: u32 := 0x36d7_6289
  const TAG_END: u32 := 0
  const TAG_CMDLINE: u32 := 1
  const TAG_MODULE: u32 := 3
  const TAG_MMAP: u32 := 6
  const TAG_FRAMEBUFFER: u32 := 8
  const TAG_ACPI_OLD: u32 := 14
  const TAG_ACPI_NEW: u32 := 15
  const MEMORY_AVAILABLE: u32 := 1

  /** `sizeof(EarlyLogBuffer.buffer)`. */
  const LOG_BUFFER_SIZE: u16 := 6144
  const SERIAL_PORT: u16 := 0x3f8
  /** The length of `MemoryMap.Entry`. */
  const MAX_ENTRIES: nat := 100

  datatype Serial = Serial(enabled: bool, port: u16)

  datatype Framebuffer = Framebuffer(enabled: bool, addr: u32, width: u16, height: u16, pitch: u16, depth: u8, size: u64)

  datatype Console = Console(cursorPos: i32, line: i32, maxChars: i32, maxLine: i32)

  /** A `MemoryMap.Entry`; `kind` (the field `Type`) is 0 for available
    * memory and 1 for reserved memory. */
  datatype MemEntry = MemEntry(base: u32, length: u32, kind: u8)

  /** `MemoryInfo`: the totals in KiB and the entry table. */
  datatype MemoryInfo = MemoryInfo(total: u32, available: u32, entries: seq<MemEntry>)

  /** `i386BootInfo.ACPI.RSDP`. */
  datatype Rsdp = Rsdp(signature: seq<byte>, checksum: u8, oemId: seq<byte>, revision: u8, rsdtAddress: u32)

  /** The file statics `component_archive_address` and `component_archive_size`. */
  datatype Archive = Archive(address: u32, size: u32)

  /** Everything the parser can change: the parts of both tables it writes,
    * the statics, and the memory holding the tags (the memcpy calls store
    * into it). `params` is the address `BootInfo.params` points at. */
  datatype State = State(logSize: u16, serial: Serial, framebuffer: Framebuffer, console: Console,
                         memory: MemoryInfo, params: nat, rsdp: Rsdp, archive: Archive, image: seq<byte>)

  predicate Wf(st: State) {
    |st.memory.entries| == MAX_ENTRIES && |st.rsdp.signature| == 8 && |st.rsdp.oemId| == 6
  }

  /** How a run ends: the walk reached the END tag, it loops forever on a
    * tag whose advance is zero, or it writes `Entry[i]` with `i >= 100`
    * (undefined behaviour, past the end of the table). */
  datatype Status = Parsed | Hang | EntryOverflow

  const ZERO_ENTRY := MemEntry(0, 0, 0)

  /** Both tables after `memset(.., 0, ..)`, with the zero-initialised statics. */
  function Zeroed(image: seq<byte>): (st: State)
    ensures Wf(st) && st.image == image
  {
    State(0, Serial(false, 0), Framebuffer(false, 0, 0, 0, 0, 0, 0), Console(0, 0, 0, 0),
          MemoryInfo(0, 0, seq(MAX_ENTRIES, _ => ZERO_ENTRY)), 0, Rsdp(Zeros(8), 0, Zeros(6), 0, 0),
          Archive(0, 0), image)
  }

  /** What `InitializeBootInfo` sets before parsing: the log buffer size and,
    * when built with `SERIAL_LOG`, the serial port. */
  function Defaults(st: State, serialLog: bool): (r: State)
    ensures r.logSize == LOG_BUFFER_SIZE
    ensures r.serial == if serialLog then Serial(true, SERIAL_PORT) else st.serial
    ensures r.(logSize := st.logSize, serial := st.serial) == st
  {
    st.(logSize := LOG_BUFFER_SIZE, serial := if serialLog then Serial(true, SERIAL_PORT) else st.serial)
  }

  // ----- Tags -----

  function TagType(image: seq<byte>, tag: nat): u32 {
    Le32(image, tag)
  }

  function TagSize(image: seq<byte>, tag: nat): u32 {
    Le32(image, tag + 4)
  }

  /** The step to the next tag, `(tag->size + 7) & ~7`, in 32-bit unsigned
    * arithmetic. */
  function Advance(size: u32): u32 {
    AlignDown8(Wrap32(size + 7))
  }

  /** The advance is the size rounded up to a multiple of 8, except that a
    * size of 0, or one within 7 of 2^32, gives an advance of 0, so the walk
    * never leaves that tag. */
  lemma AdvanceRoundsUp(size: u32)
    ensures Advance(size) % 8 == 0
    ensures size <= 0xFFFF_FFF8 ==> size <= Advance(size) < size + 8
    ensures Advance(size) == 0 <==> size == 0 || size > 0xFFFF_FFF8
  {
    if size <= 0xFFFF_FFF8 {
      Wrap32Id(size + 7);
    } else {
      assert Wrap32(size + 7) == size + 7 - U32_MOD;
    }
  }

  /** An `int` result on i386: the low 32 bits read as two's complement. */
  function SignedWrap32(x: int): (r: i32)
    ensures (r - x) % U32_MOD == 0
  {
    var m := x % U32_MOD;
    if m >= 0x8000_0000 then m - U32_MOD else m
  }

  /** The framebuffer a FRAMEBUFFER tag describes: the 64-bit address cut
    * to uintptr_t, width, height and pitch cut to uint16_t, the depth in
    * bytes, and the size computed as an `int` product then converted to
    * uint64_t. */
  function FramebufferOf(image: seq<byte>, tag: nat): Framebuffer {
    var width := Wrap16(Le32(image, tag + 20));
    var height := Wrap16(Le32(image, tag + 24));
    var depth := ByteAt(image, tag + 28) / 8;
    Framebuffer(true, Wrap32(Le64(image, tag + 8)), width, height, Wrap16(Le32(image, tag + 16)), depth,
                Wrap64(SignedWrap32(width * height * depth)))
  }

  /** The console is the largest grid of 8 x 16 pixel cells that fits the
    * framebuffer, with the cursor at its origin. */
  function ConsoleOf(fb: Framebuffer): (c: Console)
    ensures c.cursorPos == 0 && c.line == 0
    ensures c.maxChars * 8 <= fb.width < c.maxChars * 8 + 8
    ensures c.maxLine * 16 <= fb.height < c.maxLine * 16 + 16
  {
    Console(0, 0, fb.width / 8, fb.height / 16)
  }

  /** The framebuffer size is the product of its fields while that fits in
    * an `int`. */
  lemma FramebufferSizeExact(image: seq<byte>, tag: nat)
    requires var fb := FramebufferOf(image, tag); fb.width * fb.height * fb.depth < 0x8000_0000
    ensures var fb := FramebufferOf(image, tag); fb.size == fb.width * fb.height * fb.depth
  {
    var fb := FramebufferOf(image, tag);
    NonNegProduct(fb.width, fb.height, fb.depth);
    SmallIntKept(fb.width * fb.height * fb.depth);
  }

  lemma NonNegProduct(x: nat, y: nat, z: nat)
    ensures x * y * z >= 0
  {
  }

  lemma SmallIntKept(p: int)
    requires 0 <= p < 0x8000_0000
    ensures Wrap64(SignedWrap32(p)) == p
  {
  }

  /** A 32768 x 32768 framebuffer of 16 bits per pixel overflows the `int`
    * product, which is then sign-extended: the size reads 2^64 - 2^31. */
  lemma FramebufferSizeSignExtends(image: seq<byte>, tag: nat)
    requires Le32(image, tag + 20) == 0x8000 && Le32(image, tag + 24) == 0x8000
    requires ByteAt(image, tag + 28) == 16
    ensures FramebufferOf(image, tag).size == U64_MOD - 0x8000_0000
  {
    assert Wrap16(0x8000) == 0x8000;
    assert SignedWrap32(0x8000 * 0x8000 * 2) == -0x8000_0000;
  }

  /** Width, height and pitch keep only their low 16 bits. */
  lemma FramebufferFieldsTruncate(image: seq<byte>, tag: nat)
    ensures FramebufferOf(image, tag).width == Le32(image, tag + 20) % U16_MOD
    ensures FramebufferOf(image, tag).height == Le32(image, tag + 24) % U16_MOD
    ensures FramebufferOf(image, tag).pitch == Le32(image, tag + 16) % U16_MOD
    ensures FramebufferOf(image, tag).addr == Le64(image, tag + 8) % U32_MOD
  {
  }

  // ----- The memory map -----

  /** The KiB the C code counts for a region of `len` bytes:
    * `(len >> 32) / 1024 + (len & 0xffffffff) / 1024`. */
  function CountedKiB(len: u64): nat {
    (len / U32_MOD) / 1024 + (len % U32_MOD) / 1024
  }

  /** `acc += (len >> 32) / 1024; acc += (len & 0xffffffff) / 1024;` on a
    * 32-bit size_t: one wrap-around addition of the counted KiB. */
  function AddKiB(acc: u32, len: u64): (r: u32)
    ensures r == Wrap32(acc + CountedKiB(len))
  {
    var hi := (len / U32_MOD) / 1024;
    var lo := (len % U32_MOD) / 1024;
    WrapAddWrap(acc + hi, lo);
    Wrap32(Wrap32(acc + hi) + lo)
  }

  lemma WrapAddWrap(a: nat, b: nat)
    ensures Wrap32(Wrap32(a) + b) == Wrap32(a + b)
  {
    var q := a / U32_MOD;
    assert a == q * U32_MOD + Wrap32(a);
    DivUnique(a + b, U32_MOD, q + (Wrap32(a) + b) / U32_MOD, (Wrap32(a) + b) % U32_MOD);
  }

  /** The table entry for the memory-map entry at `at`: its base address
    * and its length in KiB cut to 32 bits, and whether it is available. */
  function EntryOf(image: seq<byte>, at: nat): MemEntry {
    MemEntry(Wrap32(Le64(image, at)), Wrap32(Le64(image, at + 8) / 1024),
             if Le32(image, at + 16) == MEMORY_AVAILABLE then 0 else 1)
  }

  /** The totals after the entry at `at`: both grow by the region's
    * counted KiB, `available` only when the region is available. */
  function Counted(m: MemoryInfo, image: seq<byte>, at: nat): (r: MemoryInfo)
    ensures r.entries == m.entries
  {
    var len := Le64(image, at + 8);
    m.(total := AddKiB(m.total, len),
       available := if Le32(image, at + 16) == MEMORY_AVAILABLE then AddKiB(m.available, len) else m.available)
  }

  /** `Entry[i]` set from the entry at `at`, nothing else changed. */
  function Recorded(m: MemoryInfo, image: seq<byte>, at: nat, i: nat): (r: MemoryInfo)
    requires i < |m.entries|
    ensures r.total == m.total && r.available == m.available
    ensures |r.entries| == |m.entries| && r.entries[i] == EntryOf(image, at)
    ensures forall j :: 0 <= j < |m.entries| && j != i ==> r.entries[j] == m.entries[j]
  {
    m.(entries := m.entries[i := EntryOf(image, at)])
  }

  /** The MMAP case from the entry at `at`, which is the `i`-th: entries are
    * stepped by `entry_size` while they start inside the tag; the totals
    * are counted before `Entry[i]` is written. */
  function MmapSpec(m: MemoryInfo, image: seq<byte>, tag: nat, at: nat, i: nat): (r: (Status, MemoryInfo))
    requires |m.entries| == MAX_ENTRIES && i <= MAX_ENTRIES
    ensures |r.1.entries| == MAX_ENTRIES && r.0 != Hang
    decreases MAX_ENTRIES - i
  {
    if at >= tag + TagSize(image, tag) then (Parsed, m)
    else if i == MAX_ENTRIES then (EntryOverflow, Counted(m, image, at))
    else MmapSpec(Recorded(Counted(m, image, at), image, at, i), image, tag, at + Le32(image, tag + 8), i + 1)
  }

  /** Later entries never overwrite earlier ones. */
  lemma {:induction false} MmapKeepsEarlierEntries(m: MemoryInfo, image: seq<byte>, tag: nat, at: nat, i: nat)
    requires |m.entries| == MAX_ENTRIES && i <= MAX_ENTRIES
    ensures MmapSpec(m, image, tag, at, i).1.entries[..i] == m.entries[..i]
    decreases MAX_ENTRIES - i
  {
    if at < tag + TagSize(image, tag) && i < MAX_ENTRIES {
      var next := Recorded(Counted(m, image, at), image, at, i);
      MmapKeepsEarlierEntries(next, image, tag, at + Le32(image, tag + 8), i + 1);
      assert next.entries[..i] == m.entries[..i];
      var r := MmapSpec(next, image, tag, at + Le32(image, tag + 8), i + 1).1.entries;
      assert r[..i] == r[..i + 1][..i];
    }
  }

  /** An entry that starts inside the tag lands in `Entry[i]`, unless the
    * table is already full. */
  lemma MmapRecordsEntry(m: MemoryInfo, image: seq<byte>, tag: nat, at: nat, i: nat)
    requires |m.entries| == MAX_ENTRIES && i < MAX_ENTRIES
    requires at < tag + TagSize(image, tag)
    ensures MmapSpec(m, image, tag, at, i).1.entries[i] == EntryOf(image, at)
  {
    var next := Recorded(Counted(m, image, at), image, at, i);
    MmapKeepsEarlierEntries(next, image, tag, at + Le32(image, tag + 8), i + 1);
    var r := MmapSpec(next, image, tag, at + Le32(image, tag + 8), i + 1).1.entries;
    assert r[i] == r[..i + 1][i];
  }

  /** An `entry_size` of 0 never moves past the first entry, so the index
    * runs off the end of the 100-entry table. */
  lemma {:induction false} MmapZeroEntrySizeOverflows(m: MemoryInfo, image: seq<byte>, tag: nat, at: nat, i: nat)
    requires |m.entries| == MAX_ENTRIES && i <= MAX_ENTRIES
    requires Le32(image, tag + 8) == 0 && at < tag + TagSize(image, tag)
    ensures MmapSpec(m, image, tag, at, i).0 == EntryOverflow
    decreases MAX_ENTRIES - i
  {
    if i < MAX_ENTRIES {
      MmapZeroEntrySizeOverflows(Recorded(Counted(m, image, at), image, at, i), image, tag, at, i + 1);
    }
  }

  /** The intended count of a region: its length in whole KiB. */
  function RegionKiB(len: u64): (r: nat)
    ensures r * 1024 <= len < r * 1024 + 1024
  {
    len / 1024
  }

  /** Below 4 GiB the counted KiB are the region's KiB; at 4 GiB the high
    * half is divided by 1024 instead of being scaled up, and a 4 GiB region
    * counts as 0 KiB. */
  lemma CountedKiBDropsHighHalf(len: u64)
    ensures len < U32_MOD ==> CountedKiB(len) == RegionKiB(len)
    ensures CountedKiB(U32_MOD) == 0 && RegionKiB(U32_MOD) == 0x40_0000
  {
  }

  // ----- The ACPI cases -----

  /** The ACPI_OLD case (which MODULE and ACPI_NEW fall into) on the tag at
    * `tag`, whose RSDP starts at byte 8: the two memcpy calls copy the
    * table's Signature and OEMID INTO the tag (string_utils' memcpy copies
    * from its destination to its source), then Checksum, Revision and
    * RSDTAddress are read from the tag. */
  function AcpiSpec(rsdp: Rsdp, image: seq<byte>, tag: nat): (Rsdp, seq<byte>) {
    var image1 := Store(image, tag + 8, rsdp.signature);
    var checksum := ByteAt(image1, tag + 16);
    var image2 := Store(image1, tag + 17, rsdp.oemId);
    (rsdp.(checksum := checksum, revision := ByteAt(image2, tag + 23), rsdtAddress := Le32(image2, tag + 24)), image2)
  }

  /** The RSDP fields the ACPI case records: Checksum, Revision and
    * RSDTAddress are the tag's; Signature and OEMID stay as they were, and
    * the tag's own signature bytes are overwritten with the table's. */
  lemma AcpiRecords(rsdp: Rsdp, image: seq<byte>, tag: nat)
    requires |rsdp.signature| == 8 && |rsdp.oemId| == 6
    ensures var (r, image') := AcpiSpec(rsdp, image, tag);
      && r.signature == rsdp.signature && r.oemId == rsdp.oemId
      && r.checksum == ByteAt(image, tag + 16)
      && r.revision == ByteAt(image, tag + 23)
      && r.rsdtAddress == Le32(image, tag + 24)
      && |image'| == |image|
      && forall k :: 0 <= k < 8 && tag + 8 + k < |image| ==> image'[tag + 8 + k] == rsdp.signature[k]
  {
    var image1 := Store(image, tag + 8, rsdp.signature);
    var image2 := Store(image1, tag + 17, rsdp.oemId);
    assert ByteAt(image1, tag + 16) == ByteAt(image, tag + 16);
    assert ByteAt(image2, tag + 23) == ByteAt(image, tag + 23);
    assert Le32(image2, tag + 24) == Le32(image, tag + 24);
  }

  /** The archive a MODULE tag describes: it starts at `mod_start`, and its
    * size is `mod_end - mod_start` in 32-bit unsigned arithmetic, which
    * wraps when the end lies below the start. */
  function ModuleOf(image: seq<byte>, tag: nat): (r: Archive)
    ensures r.address == Le32(image, tag + 8)
    ensures Le32(image, tag + 8) <= Le32(image, tag + 12) ==> r.size == Le32(image, tag + 12) - Le32(image, tag + 8)
    ensures Le32(image, tag + 8) > Le32(image, tag + 12) ==> r.size == U32_MOD + Le32(image, tag + 12) - Le32(image, tag + 8)
  {
    Archive(Le32(image, tag + 8), Wrap32(Le32(image, tag + 12) - Le32(image, tag + 8)))
  }

  // ----- The walk -----

  /** The `switch` on one tag that is not END. */
  function TagStep(st: State, tag: nat): (r: (Status, State))
    requires Wf(st)
    ensures Wf(r.1) && |r.1.image| == |st.image| && r.0 != Hang
  {
    var t := TagType(st.image, tag);
    if t == TAG_FRAMEBUFFER then
      if ByteAt(st.image, tag + 29) == 1 then
        var fb := FramebufferOf(st.image, tag);
        (Parsed, st.(framebuffer := fb, console := ConsoleOf(fb)))
      else (Parsed, st)
    else if t == TAG_CMDLINE then (Parsed, st.(params := tag + 8))
    else if t == TAG_MMAP then
      var m := MmapSpec(st.memory, st.image, tag, tag + 16, 0);
      (m.0, st.(memory := m.1))
    else if t == TAG_MODULE || t == TAG_ACPI_NEW || t == TAG_ACPI_OLD then
      var archive := if t == TAG_MODULE then ModuleOf(st.image, tag) else st.archive;
      var (rsdp, image) := AcpiSpec(st.rsdp, st.image, tag);
      (Parsed, st.(archive := archive, rsdp := rsdp, image := image))
    else (Parsed, st)
  }

  /** The `for` loop over the tags from `tag`: stop at END, otherwise run
    * the tag's case and go on from there. */
  function Walk(st: State, tag: nat): (r: (Status, State))
    requires Wf(st)
    ensures Wf(r.1) && |r.1.image| == |st.image|
    decreases |st.image| - tag, 1
  {
    if TagType(st.image, tag) == TAG_END then (Parsed, st)
    else Next(st, tag, TagStep(st, tag))
  }

  /** After the case of the tag at `tag` ended in `step`: advance by the
    * size read after the case ran. */
  function Next(st: State, tag: nat, step: (Status, State)): (r: (Status, State))
    requires Wf(st) && Wf(step.1) && |step.1.image| == |st.image|
    requires TagType(st.image, tag) != TAG_END
    ensures Wf(r.1) && |r.1.image| == |st.image|
    decreases |st.image| - tag, 0
  {
    if step.0 != Parsed then step
    else
      var adv := Advance(TagSize(step.1.image, tag));
      if adv == 0 then (Hang, step.1) else Walk(step.1, tag + adv)
  }

  /** One unfolding of `Walk`; a tag other than END lies inside the image. */
  lemma WalkUnfold(st: State, tag: nat)
    requires Wf(st)
    ensures TagType(st.image, tag) != TAG_END ==>
      tag < |st.image| && Walk(st, tag) == Next(st, tag, TagStep(st, tag))
    ensures TagType(st.image, tag) == TAG_END ==> Walk(st, tag) == (Parsed, st)
  {
  }

  /** One unfolding of `Next`. */
  lemma NextUnfold(st: State, tag: nat, step: (Status, State))
    requires Wf(st) && Wf(step.1) && |step.1.image| == |st.image|
    requires TagType(st.image, tag) != TAG_END
    ensures var adv := Advance(TagSize(step.1.image, tag));
      Next(st, tag, step) == if step.0 != Parsed then step else if adv == 0 then (Hang, step.1)
                             else Walk(step.1, tag + adv)
  {
  }

  /** A MODULE tag records the archive and then falls through into the
    * ACPI cases, taking RSDP fields from the module tag's own bytes. */
  lemma ModuleFallsThrough(st: State, tag: nat)
    requires Wf(st) && TagType(st.image, tag) == TAG_MODULE
    ensures var (status, st') := TagStep(st, tag);
      && status == Parsed
      && st'.archive == Archive(Le32(st.image, tag + 8), Wrap32(Le32(st.image, tag + 12) - Le32(st.image, tag + 8)))
      && st'.rsdp.checksum == ByteAt(st.image, tag + 16)
      && st'.rsdp.revision == ByteAt(st.image, tag + 23)
      && st'.rsdp.rsdtAddress == Le32(st.image, tag + 24)
      && st'.(archive := st.archive, rsdp := st.rsdp, image := st.image) == st
  {
    AcpiRecords(st.rsdp, st.image, tag);
  }

  /** An RGB framebuffer tag records the framebuffer, its fields cut to 16
    * bits, and resets the console to its size in 8x16 character cells;
    * nothing else changes. */
  lemma FramebufferTagRecorded(st: State, tag: nat)
    requires Wf(st)
    requires TagType(st.image, tag) == TAG_FRAMEBUFFER && ByteAt(st.image, tag + 29) == 1
    ensures var (status, r) := TagStep(st, tag);
      && status == Parsed
      && r.framebuffer.enabled && r.framebuffer.addr == Wrap32(Le64(st.image, tag + 8))
      && r.framebuffer.width == Wrap16(Le32(st.image, tag + 20))
      && r.framebuffer.height == Wrap16(Le32(st.image, tag + 24))
      && r.framebuffer.pitch == Wrap16(Le32(st.image, tag + 16))
      && r.framebuffer.depth == ByteAt(st.image, tag + 28) / 8
      && r.console == Console(0, 0, r.framebuffer.width / 8, r.framebuffer.height / 16)
      && r.(framebuffer := st.framebuffer, console := st.console) == st
  {
  }

  /** A tag type the switch has no case for changes nothing, and a
    * framebuffer that is not RGB is ignored. */
  lemma OtherTagsChangeNothing(st: State, tag: nat)
    requires Wf(st)
    requires var t := TagType(st.image, tag);
      || (t != TAG_FRAMEBUFFER && t != TAG_CMDLINE && t != TAG_MMAP && t != TAG_MODULE && t != TAG_ACPI_NEW && t != TAG_ACPI_OLD)
      || (t == TAG_FRAMEBUFFER && ByteAt(st.image, tag + 29) != 1)
    ensures TagStep(st, tag) == (Parsed, st)
  {
  }

  /** A command-line tag points `params` at its string, 8 bytes in. */
  lemma CmdlinePointsIntoTag(st: State, tag: nat)
    requires Wf(st) && TagType(st.image, tag) == TAG_CMDLINE
    ensures TagStep(st, tag) == (Parsed, st.(params := tag + 8))
  {
  }

  // ----- The tables as objects -----

  class BootInfo {
    var logSize: u16
    var serial: Serial
    var framebuffer: Framebuffer
    var console: Console
    var total: u32
    var available: u32
    var entries: array<MemEntry>
    var params: nat

    /** The table as `memset(&bootinfo, 0, sizeof(bootinfo))` leaves it. */
    constructor ()
      ensures fresh(entries)
      ensures logSize == 0 && serial == Zeroed([]).serial && framebuffer == Zeroed([]).framebuffer
      ensures console == Zeroed([]).console && Memory() == Zeroed([]).memory && params == 0
    {
      logSize, serial := 0, Serial(false, 0);
      framebuffer, console := Framebuffer(false, 0, 0, 0, 0, 0, 0), Console(0, 0, 0, 0);
      total, available := 0, 0;
      entries := new MemEntry[MAX_ENTRIES](_ => ZERO_ENTRY);
      params := 0;
    }

    function Memory(): MemoryInfo
      reads this, entries
    {
      MemoryInfo(total, available, entries[..])
    }

    /** The MMAP case: the loop over the entries of the tag at `tag`. */
    method ParseMmap(image: seq<byte>, tag: nat) returns (status: Status)
      requires entries.Length == MAX_ENTRIES
      modifies this`total, this`available, entries
      ensures (status, Memory()) == MmapSpec(old(Memory()), image, tag, tag + 16, 0)
    {
      var i: nat := 0;
      var at: nat := tag + 16;
      while at < tag + TagSize(image, tag)
        invariant i <= MAX_ENTRIES
        invariant MmapSpec(Memory(), image, tag, at, i) == MmapSpec(old(Memory()), image, tag, tag + 16, 0)
        decreases MAX_ENTRIES - i
      {
        ghost var before := Memory();
        var len := Le64(image, at + 8);
        total := AddKiB(total, len);
        if Le32(image, at + 16) == MEMORY_AVAILABLE {
          available := AddKiB(available, len);
        }
        assert Memory() == Counted(before, image, at);
        if i == MAX_ENTRIES {
          return EntryOverflow;
        }
        entries[i] := EntryOf(image, at);
        assert Memory() == Recorded(Counted(before, image, at), image, at, i);
        i := i + 1;
        at := at + Le32(image, tag + 8);
      }
      return Parsed;
    }
  }

  class I386BootInfo {
    var rsdp: Rsdp

    constructor ()
      ensures rsdp == Zeroed([]).rsdp
    {
      rsdp := Rsdp(Zeros(8), 0, Zeros(6), 0, 0);
    }
  }

  /** Holder of the statics `component_archive_address` and
    * `component_archive_size`. */
  class ComponentArchive {
    var archive: Archive

    constructor ()
      ensures archive == Archive(0, 0)
    {
      archive := Archive(0, 0);
    }
  }

  function StateOf(b: BootInfo, a: I386BootInfo, c: ComponentArchive, image: array<byte>): State
    reads b, b.entries, a, c, image
  {
    State(b.logSize, b.serial, b.framebuffer, b.console, b.Memory(), b.params, a.rsdp, c.archive, image[..])
  }

  /** `memcpy` as string_utils writes it, with the table's bytes `data` as
    * its destination and the tag memory from `at` as its source: it copies
    * the table's bytes into the memory. */
  method StoreBytes(image: array<byte>, at: nat, data: seq<byte>)
    modifies image
    ensures image[..] == Store(old(image[..]), at, data)
  {
    for k := 0 to |data|
      invariant image[..] == Store(old(image[..]), at, data[..k])
    {
      if at + k < image.Length {
        image[at + k] := data[k];
      }
    }
    assert data[..|data|] == data;
  }

  /** The ACPI_OLD case. */
  method ParseAcpi(acpi: I386BootInfo, image: array<byte>, tag: nat)
    modifies acpi, image
    ensures (acpi.rsdp, image[..]) == AcpiSpec(old(acpi.rsdp), old(image[..]), tag)
  {
    StoreBytes(image, tag + 8, acpi.rsdp.signature);
    var checksum := ByteAt(image[..], tag + 16);
    StoreBytes(image, tag + 17, acpi.rsdp.oemId);
    acpi.rsdp := acpi.rsdp.(checksum := checksum, revision := ByteAt(image[..], tag + 23),
                            rsdtAddress := Le32(image[..], tag + 24));
  }

  /** The `switch` on the tag at `tag`, which is not END. */
  method ParseTag(b: BootInfo, a: I386BootInfo, c: ComponentArchive, image: array<byte>, tag: nat)
    returns (status: Status)
    requires Wf(StateOf(b, a, c, image))
    modifies b, b.entries, a, c, image
    ensures b.entries == old(b.entries)
    ensures (status, StateOf(b, a, c, image)) == TagStep(old(StateOf(b, a, c, image)), tag)
  {
    var t := TagType(image[..], tag);
    status := Parsed;
    if t == TAG_FRAMEBUFFER {
      if ByteAt(image[..], tag + 29) == 1 {
        b.framebuffer := FramebufferOf(image[..], tag);
        b.console := ConsoleOf(b.framebuffer);
      }
    } else if t == TAG_CMDLINE {
      b.params := tag + 8;
    } else if t == TAG_MMAP {
      status := b.ParseMmap(image[..], tag);
    } else if t == TAG_MODULE || t == TAG_ACPI_NEW || t == TAG_ACPI_OLD {
      if t == TAG_MODULE {
        c.archive := ModuleOf(image[..], tag);
      }
      ParseAcpi(a, image, tag);
    }
  }

  /** `ParseMultibootHeader`: the walk from the first tag, 8 bytes past the
    * information structure's address. */
  method ParseMultibootHeader(b: BootInfo, a: I386BootInfo, c: ComponentArchive, image: array<byte>, addr: u32)
    returns (status: Status)
    requires Wf(StateOf(b, a, c, image))
    modifies b, b.entries, a, c, image
    ensures b.entries == old(b.entries)
    ensures (status, StateOf(b, a, c, image)) == Walk(old(StateOf(b, a, c, image)), addr + 8)
  {
    var tag: nat := addr + 8;
    ghost var goal := Walk(old(StateOf(b, a, c, image)), addr + 8);
    while TagType(image[..], tag) != TAG_END
      invariant b.entries == old(b.entries) && Wf(StateOf(b, a, c, image))
      invariant Walk(StateOf(b, a, c, image), tag) == goal
      decreases image.Length - tag
    {
      ghost var before := StateOf(b, a, c, image);
      WalkUnfold(before, tag);
      status := ParseTag(b, a, c, image, tag);
      ghost var after := StateOf(b, a, c, image);
      var adv := Advance(TagSize(image[..], tag));
      NextUnfold(before, tag, (status, after));
      if status != Parsed {
        return;
      }
      if adv == 0 {
        return Hang;
      }
      tag := tag + adv;
    }
    WalkUnfold(StateOf(b, a, c, image), tag);
    return Parsed;
  }

  /** `InitializeBootInfo`: the defaults, then the walk. */
  method InitializeBootInfo(b: BootInfo, a: I386BootInfo, c: ComponentArchive, image: array<byte>, addr: u32,
                            serialLog: bool)
    returns (status: Status)
    requires Wf(StateOf(b, a, c, image))
    modifies b, b.entries, a, c, image
    ensures b.entries == old(b.entries)
    ensures (status, StateOf(b, a, c, image)) == Walk(Defaults(old(StateOf(b, a, c, image)), serialLog), addr + 8)
  {
    b.logSize := LOG_BUFFER_SIZE;
    if serialLog {
      b.serial := Serial(true, SERIAL_PORT);
    }
    status := ParseMultibootHeader(b, a, c, image, addr);
  }

  /** `main` up to its logging: a wrong boot-loader magic hangs before
    * anything is touched; otherwise both tables start zeroed and are filled
    * by `InitializeBootInfo`. The result is the tables' final state. */
  method EntryPoint(magic: u32, addr: u32, image: array<byte>, serialLog: bool) returns (status: Status, st: State)
    modifies image
    ensures magic != MULTIBOOT2_BOOTLOADER_MAGIC ==> status == Hang && image[..] == old(image[..])
    ensures magic == MULTIBOOT2_BOOTLOADER_MAGIC ==>
      (status, st) == Walk(Defaults(Zeroed(old(image[..])), serialLog), addr + 8)
    ensures st.image == image[..]
  {
    if magic != MULTIBOOT2_BOOTLOADER_MAGIC {
      return Hang, Zeroed(image[..]);
    }
    var b := new BootInfo();
    var a := new I386BootInfo();
    var c := new ComponentArchive();
    assert StateOf(b, a, c, image) == Zeroed(image[..]);
    status := InitializeBootInfo(b, a, c, image, addr, serialLog);
    st := StateOf(b, a, c, image);
  }
}
