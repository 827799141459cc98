// The i686 segment descriptors and the boot-information defaults of
// hal/lib/src/bootinfo.rs. `GdtEntry::new` and `GlobalDescriptorTable::new`
// appear with the same text in hal/boot/bootinfo/src/i686.rs and
// hal/boot/arch_bootinfo/i686/src/lib.rs; one model serves all three. The
// layout is the 8-byte segment descriptor of the Intel 64 and IA-32
// Architectures Software Developer's Manual, Volume 3A, section 3.4.5.

module HalBootInfo {
  import opened Common
  import MultibootRust

  /** `GdtEntry` (packed): limit bits 0..15, base bits 0..15, base bits
    * 16..23, the access byte, the flags byte (whose low nibble is limit
    * bits 16..19) and base bits 24..31. */
  datatype GdtEntry = GdtEntry(limitLow: u16, baseLow: u16, baseMiddle: u8, access: u8, granularity: u8, baseHigh: u8)

  /** `entry.granularity |= 0b1100_0000` on a `u8`: bits 6 and 7 (the
    * page-granularity and 32-bit flags) set, the low six bits kept. */
  function SetFlags(g: u8): (r: u8)
    ensures r / 0x40 == 3 && r % 0x40 == g % 0x40
  {
    0xC0 + g % 0x40
  }

  /** `GdtEntry::new`: the limit's low half, the base cut into its three
    * parts, the access byte as given and the flags byte with its top two
    * bits set. */
  function NewEntry(base: u32, limit: u32, access: u8, granularity: u8): GdtEntry {
    GdtEntry(limit % 0x1_0000, base % 0x1_0000, (base / 0x1_0000) % 0x100, access,
             SetFlags(granularity), (base / 0x100_0000) % 0x100)
  }

  /** The base address the descriptor encodes. */
  function Base(e: GdtEntry): u32 {
    e.baseLow + e.baseMiddle * 0x1_0000 + e.baseHigh * 0x100_0000
  }

  /** The 20-bit limit the descriptor encodes. */
  function Limit(e: GdtEntry): nat {
    e.limitLow + (e.granularity % 0x10) * 0x1_0000
  }

  /** The base round-trips through its three parts; the access byte is
    * kept; the flags byte gets G and D/B set and keeps its low six bits. */
  lemma NewEntryFields(base: u32, limit: u32, access: u8, granularity: u8)
    ensures var e := NewEntry(base, limit, access, granularity);
      && Base(e) == base
      && e.access == access
      && e.granularity / 0x40 == 3 && e.granularity % 0x40 == granularity % 0x40
      && e.limitLow == limit % 0x1_0000
  {
  }

  /** Limit bits 16..19 come from the flags argument, never from `limit`:
    * the encoded limit ignores everything in `limit` above bit 15. */
  lemma NewEntryLimit(base: u32, limit: u32, access: u8, granularity: u8)
    ensures Limit(NewEntry(base, limit, access, granularity)) == limit % 0x1_0000 + (granularity % 0x10) * 0x1_0000
    ensures Limit(NewEntry(0, 0xF_FFFF, 0x9A, 0)) == 0xFFFF
  {
  }

  /** `GlobalDescriptorTable::new`: the null descriptor, the supervisor code
    * and data segments, and the two user-mode placeholders. */
  function NewTable(): (t: seq<GdtEntry>)
    ensures |t| == 5
  {
    [NewEntry(0, 0, 0, 0),
     NewEntry(0, 0xFFFF_FFFF, 0x9A, 0xCF),
     NewEntry(0, 0xFFFF_FFFF, 0x92, 0xCF),
     NewEntry(0, 0, 0x9A, 0xCF),
     NewEntry(0, 0, 0x92, 0xCF)]
  }

  /** A flat segment over the whole 4 GiB: base 0, limit 0xFFFFF in
    * 4 KiB pages (the G flag, bit 7 of the flags byte). */
  predicate Flat(e: GdtEntry) {
    Base(e) == 0 && Limit(e) == 0xF_FFFF && e.granularity / 0x80 == 1
  }

  /** Limit 0xFFFFFFFF with flags 0xCF gives a flat segment. */
  lemma FlatEntry(access: u8)
    ensures var e := NewEntry(0, 0xFFFF_FFFF, access, 0xCF); Flat(e) && e.access == access
  {
    assert SetFlags(0xCF) == 0xCF;
    assert NewEntry(0, 0xFFFF_FFFF, access, 0xCF) == GdtEntry(0xFFFF, 0, 0, access, 0xCF, 0);
  }

  /** Limit 0 with flags 0xCF still encodes limit 0xF0000, from the flags. */
  lemma ZeroLimitEntry(access: u8)
    ensures var e := NewEntry(0, 0, access, 0xCF); Base(e) == 0 && Limit(e) == 0xF_0000 && e.access == access
  {
    assert SetFlags(0xCF) == 0xCF;
    assert NewEntry(0, 0, access, 0xCF) == GdtEntry(0, 0, 0, access, 0xCF, 0);
  }

  /** The five descriptors as they are laid out: entries 1 and 2 are the
    * flat supervisor code (0x9A) and data (0x92) segments of `FlatEntry`;
    * the null descriptor's flags byte is 0xC0, not 0; the user-mode
    * placeholders are `ZeroLimitEntry`'s, with ring-0 access bytes. */
  lemma TableEntries()
    ensures NewTable()[0] == GdtEntry(0, 0, 0, 0, 0xC0, 0)
    ensures NewTable()[1] == GdtEntry(0xFFFF, 0, 0, 0x9A, 0xCF, 0)
    ensures NewTable()[2] == GdtEntry(0xFFFF, 0, 0, 0x92, 0xCF, 0)
    ensures NewTable()[3] == GdtEntry(0, 0, 0, 0x9A, 0xCF, 0)
    ensures NewTable()[4] == GdtEntry(0, 0, 0, 0x92, 0xCF, 0)
  {
    assert SetFlags(0xCF) == 0xCF && SetFlags(0) == 0xC0;
  }

  // ----- Defaults -----

  /** `EarlyLogBuffer`: `size` is a `usize`, the buffer 6144 `char`s. */
  datatype EarlyLogBuffer = EarlyLogBuffer(size: nat, index: u16, lastFlushIndex: u16, buffer: seq<char>)

  /** `EarlyLogBuffer::default`. */
  function DefaultLog(): EarlyLogBuffer {
    EarlyLogBuffer(0, 0, 0, seq(6144, _ => '\0'))
  }

  /** The default log is empty, all-NUL and 6144 characters long, the
    * length the i386 initializer records as the log size. */
  lemma DefaultLogEmpty()
    ensures var l := DefaultLog();
      && l.size == 0 && l.index == 0 && l.lastFlushIndex == 0
      && |l.buffer| == MultibootRust.LOG_BUFFER_LEN
      && forall i :: 0 <= i < |l.buffer| ==> l.buffer[i] == '\0'
  {
  }

  datatype MemoryMapEntry = MemoryMapEntry(baseAddress: nat, length: nat, kind: u8)

  datatype MemoryInfo = MemoryInfo(totalPhysicalMemory: nat, availableMemory: nat, memoryMap: seq<MemoryMapEntry>,
                                   memoryMapEntries: u16)

  /** `MemoryInfo::default`. */
  function DefaultMemoryInfo(): MemoryInfo {
    MemoryInfo(0, 0, seq(100, _ => MemoryMapEntry(0, 0, 0)), 0)
  }

  /** The default memory information holds 100 zeroed entries, none of
    * them counted, and no memory. */
  lemma DefaultMemoryInfoEmpty()
    ensures var m := DefaultMemoryInfo();
      && m.totalPhysicalMemory == 0 && m.availableMemory == 0 && m.memoryMapEntries == 0
      && |m.memoryMap| == 100
      && forall i :: 0 <= i < |m.memoryMap| ==> m.memoryMap[i] == MemoryMapEntry(0, 0, 0)
  {
  }
}
