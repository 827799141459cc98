// The boot-information record zoslib hands to system components
// (sys/zoslib/src/bootinfo.rs): an empty record and the checked accessor.
// `size_of::<BootInfo>()` depends on the target's layout and is a
// parameter, `sizeOf`.

module ZoslibBootInfo {
  import opened Common

  const MAX_MEMORY_MAP_ENTRIES: nat := 18
  const MAX_EXTENSION_COUNT: nat := 32
  const MAX_CMDLINE_SIZE: nat := 50

  const BOOTINFO_MAGIC: u16 := 0xFAFA
  const BOOTINFO_END: u16 := 0xFF77

  datatype MemoryMap = MemoryMap(start: nat, len: nat, kind: u8)

  datatype Extension = Extension(name: seq<char>, path: seq<char>, addr: nat, size: nat)

  datatype FBInfo = FBInfo(enabled: bool, addr: nat, width: u32, height: u32, pitch: u32, depth: u32, size: u64)

  datatype BootInfo = BootInfo(magic: u16, version: seq<char>, size: nat, cmdline: seq<char>, fbInfo: FBInfo,
                               memoryMap: seq<MemoryMap>, extensions: seq<Extension>, end: u16)

  /** The fixed array lengths of the `#[repr(C)]` record. */
  predicate Shaped(b: BootInfo) {
    && |b.version| == 8 && |b.cmdline| == MAX_CMDLINE_SIZE
    && |b.memoryMap| == MAX_MEMORY_MAP_ENTRIES && |b.extensions| == MAX_EXTENSION_COUNT
    && forall i :: 0 <= i < |b.extensions| ==> |b.extensions[i].name| == 24 && |b.extensions[i].path| == 100
  }

  const ZERO_EXTENSION: Extension := Extension(seq(24, _ => '\0'), seq(100, _ => '\0'), 0, 0)

  /** `BootInfo::new_empty`: every field zero (`core::mem::zeroed`), then
    * `size` set to the record's size. */
  function NewEmpty(sizeOf: nat): (b: BootInfo)
    ensures Shaped(b)
  {
    BootInfo(0, seq(8, _ => '\0'), sizeOf, seq(MAX_CMDLINE_SIZE, _ => '\0'), FBInfo(false, 0, 0, 0, 0, 0, 0),
             seq(MAX_MEMORY_MAP_ENTRIES, _ => MemoryMap(0, 0, 0)), seq(MAX_EXTENSION_COUNT, _ => ZERO_EXTENSION), 0)
  }

  /** The empty record carries its size and no magic numbers. */
  lemma NewEmptyIsZero(sizeOf: nat)
    ensures var b := NewEmpty(sizeOf);
      && b.size == sizeOf && b.magic == 0 && b.end == 0 && !b.fbInfo.enabled
      && (forall i :: 0 <= i < |b.cmdline| ==> b.cmdline[i] == '\0')
      && (forall i :: 0 <= i < |b.memoryMap| ==> b.memoryMap[i] == MemoryMap(0, 0, 0))
  {
  }

  /** `BootInfo::get` on the record `b` at the pointer: each failed
    * `assert!` panics. */
  function Get(b: BootInfo, sizeOf: nat): (r: Outcome<BootInfo>)
    ensures r.Done? <==> b.magic == BOOTINFO_MAGIC && b.end == BOOTINFO_END && b.size == sizeOf
    ensures r.Done? ==> r.value == b
  {
    if b.magic != BOOTINFO_MAGIC then Panic
    else if b.end != BOOTINFO_END then Panic
    else if b.size != sizeOf then Panic
    else Done(b)
  }

  /** A fresh empty record is rejected, its magic being 0; stamping both
    * magic numbers into it is all `get` asks for. */
  lemma GetRejectsNewEmpty(sizeOf: nat)
    ensures Get(NewEmpty(sizeOf), sizeOf) == Panic
    ensures Get(NewEmpty(sizeOf).(magic := BOOTINFO_MAGIC, end := BOOTINFO_END), sizeOf).Done?
  {
  }
}
