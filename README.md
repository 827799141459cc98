# zOS boot storage and format layer, modelled in Dafny

This project models the storage and format layer of the zOS UEFI loader, along with the boot-time encoders and byte utilities of the i386 initializer and its support libraries. Every operation is modelled on values or, where the program updates state in place, on classes and arrays. Each one is proved against a specification of what the code does.

- **GUIDs** (`Uuid`, `UuidLayout`):
  - the 8-4-4-4-12 text form of section 3 of RFC 4122, as parsed by `GUID::new_from_string` and printed by both `as_string`s;
  - a round trip between the two;
  - the positions of the dashes.
- **Loader configuration** (`Config`):
  - `parse_key_value_pair`;
  - `parse_cfg`'s fold over lines, where the last `root` and the last `resolution` win.
- **Block adapters**: byte-count reads over devices that move only whole blocks.
  - `FirmwareDisk`: the firmware adapter, with its prefix of whole blocks and one scratch block.
  - `UefiDisk`: the driver adapter with one-block staging, plus the slice registry lookups, `File::open`, `readln` and `parse_cfg`.
  - `BaseDisk`: the base loader's typed wrappers.
  - `LoaderDisk`, `LoaderNames`: the loader's device registry, its "diskN"/"diskNsM" naming, and the staged 512-byte reads.
  - `BlockIo`: the block arithmetic they all share.
- **File systems**:
  - `Fat`: the FAT reader, following the Microsoft FAT32 File System Specification v1.03, sections 3.5 and 6. This covers 8.3 names, FAT-type classification, cluster arithmetic, the end-of-chain test, the directory walk and the single-cluster read.
  - `Fat32`: the older classifier.
  - `Extfs`: the ext superblock probe.
  - `Fs`: the file-system facade.
- **Multiboot2 boot information** (section 3.6 of the Multiboot2 Specification 2.0):
  - `MultibootC`: the C parser of the i386 initializer;
  - `MultibootRust`: the Rust parser. One model covers both `initbootinfo.rs` and `bootinfo.rs`, whose bodies are identical.
- **Byte utilities**:
  - `StringUtils`: `strlen`, `itoa`, `memcpy`, `memset` and `memmove`;
  - `Writer`: the bounded byte cursor.
- **Encoders and validators**:
  - `HalBootInfo` (hal/lib/src/bootinfo.rs): `GdtEntry::new` and the five-entry table (section 3.4.5 of the Intel 64 and IA-32 Architectures Software Developer's Manual, Volume 3A), plus the boot-information defaults;
  - `ZoslibBootInfo`: zoslib's checked `BootInfo::get`.

Text that appears more than once in the repository shares one model:
- The three `GdtEntry::new`/`GlobalDescriptorTable::new` copies, in hal/lib/src/bootinfo.rs:198-228, hal/boot/bootinfo/src/i686.rs:44-74 and hal/boot/arch_bootinfo/i686/src/lib.rs:26-56.
- `parse_key_value_pair` of base/loader/src/drivers/uefi/disk.rs:187-199, which repeats base/loader/src/config.rs:69-82.
- `read_bytes_raw` of loader/src/drivers/uefi/disk.rs:5-31, which repeats `_uefi_read_bytes_raw` in loader/src/drivers/disk.rs:118-144.
- `name_device` of loader/src/disk.rs:175-200, which repeats loader/src/drivers/disk.rs:267-293.

When the code and its documentation disagree, the model follows the code. For example, `memcpy` copies from its destination into its source, although string_utils.h:12-13 says the opposite. Such a case is modelled as written and, where the intent is evident, also corrected (see "## Findings"). The exception is code whose behaviour is undefined, where there is nothing as written to model: the `UefiDisk.Open` line under "## Left out" is such a case.

`Panic` in an `Outcome` stands for a Rust `panic!`, a failed `assert!` or `unwrap`, or an out-of-bounds index. `Err` stands for the code's own error value.

## Model

| member | source | states |
|---|---|---|
| Uuid.Hex | base/loader/src/uuid.rs:72-75 | `{:08X}` / `{:04X}` / `{:02X}`: exactly `w` characters, each an upper-case hex digit |
| Uuid.HexBytes | base/loader/src/uuid.rs:76-83 | each `data4` byte printed as two digits: twice as many characters as bytes |
| Uuid.AsString | base/loader/src/uuid.rs:71-84 | `as_string`: data1, data2 and data3 as 8, 4 and 4 upper-case hex digits, then data4 as 2 + 12 digits, the five groups joined by dashes; `Uuid.AsStringInjective` shows distinct GUIDs print differently and `Uuid.RoundTrip` that `new_from_string` reads the text back |
| Uuid.ParseHex | base/loader/src/uuid.rs:52-54 | `from_str_radix(_, 16)` succeeds only with a value below the type's bound |
| Uuid.ParseGuid | base/loader/src/uuid.rs:43-67 | `new_from_string`: three `split_once("-")` fields parsed as u32, u16 and u16, and the dash-free rest as eight byte pairs; any missing dash, non-hex field, out-of-range value or short rest panics; `Uuid.RoundTrip` proves it inverts `AsString` |
| Uuid.RemoveAll | base/loader/src/uuid.rs:49 | `replace('-', "")` leaves no dash |
| Uuid.ParseData4 | base/loader/src/uuid.rs:59-66 | the `split_at(2)` loop yields the eight bytes of `Data4Of`, `None` when a split runs past the end or a pair is not hex |
| Uuid.NewFromString | base/loader/src/uuid.rs:43-69 | `new_from_string` returns `ParseGuid`: the GUID, or a panic at the failing `unwrap`/`split_at` |
| Uuid.HexDigitRoundTrip | base/loader/src/uuid.rs:72 | a printed digit parses back to its value |
| Uuid.HexValueOfHex | base/loader/src/uuid.rs:52-54 | the digits `{:0wX}` prints read back as the number |
| Uuid.ParseHexOfHex | base/loader/src/uuid.rs:52-54 | `from_str_radix` of the printed field is the field |
| Uuid.RemoveAllAbsent | base/loader/src/uuid.rs:49 | `replace` changes nothing in a string without a dash |
| Uuid.RemoveAllConcat | base/loader/src/uuid.rs:49 | `replace` distributes over concatenation |
| Uuid.HexBytesFacts | base/loader/src/uuid.rs:76-83 | characters `2k..2k+2` are byte `k` printed; every character is a hex digit |
| Uuid.HexBytesConcat | base/loader/src/uuid.rs:76-83 | printing bytes distributes over concatenation |
| Uuid.NoDash | base/loader/src/uuid.rs:72 | hex digits hold no dash |
| Uuid.Data4OfHexBytes | base/loader/src/uuid.rs:59-66 | the sixteen printed digits of `data4` parse back as `data4` |
| Uuid.RoundTrip | base/loader/src/uuid.rs:43-84 | `new_from_string(as_string(g)) == g` for every GUID |
| Uuid.AsStringFields | base/loader/src/uuid.rs:46-48 | the three `split_once('-')` of the text yield the printed data1, data2, data3 and the data4 part |
| Uuid.TailReadsBack | base/loader/src/uuid.rs:49 | the data4 part with its dash removed is the sixteen digits of data4 |
| Uuid.ParseGuidOfFields | base/loader/src/uuid.rs:43-69 | fields that parse give the GUID they spell |
| Uuid.AsStringInjective | base/loader/src/uuid.rs:71-84 | two GUIDs print alike exactly when they are equal |
| Uuid.Texts | base/loader/src/drivers/uefi/disk.rs:140 | the printed form of every registered GUID, position by position |
| Uuid.TextMatchAt | base/loader/src/drivers/uefi/disk.rs:138-145 | the first entry that prints like the key is the one the search finds |
| Uuid.TextMatchNone | base/loader/src/drivers/uefi/disk.rs:138-146 | with no entry printing like the key nothing is found |
| Uuid.TextMatchIsFieldMatch | base/loader/src/drivers/uefi/disk.rs:140 | comparing `as_string()` texts finds the same entry as comparing the GUIDs field by field |
| UuidLayout.Parts | base/loader/src/uuid.rs:72-83 | the text is 36 characters: the three fields and a dash, two data4 bytes, a dash, six data4 bytes |
| UuidLayout.Layout | base/loader/src/uuid.rs:72 | dashes at positions 8, 13, 18 and 23 and upper-case hex digits elsewhere |
| UuidLayout.FieldsReadBack | base/loader/src/uuid.rs:72-75 | data1, data2, data3 read back from positions 0..8, 9..13 and 14..18 |
| BlockIo.BlockData | base/loader/src/libuefi/protocol/block_io.rs:23-25 | a successful read delivers exactly the `n` bytes of the medium from block `lba` on |
| BlockIo.AfterRead | base/loader/src/libuefi/protocol/block_io.rs:23-25 | the buffer after a read: the blocks in front on success, unchanged on failure; bytes past `n` never touched |
| BlockIo.ReadBlocks | base/loader/src/libuefi/protocol/block_io.rs:23-25 | `read_blocks` returns the device's status and leaves the buffer as `AfterRead` says |
| BlockIo.ReadStatus | base/loader/src/libuefi/protocol/block_io.rs:23-25 | the status of a read: success exactly when the device works, the size is whole blocks and the blocks lie on the medium; a broken device reports its own fault |
| BlockIo.StatusResult | base/loader/src/drivers/uefi/disk.rs:121-128 | `Ok` exactly for `EFI_SUCCESS`, otherwise `Err("EFI ERROR: " + status in decimal)` |
| BlockIo.WholeBlocks | base/loader/src/firmware/arch/x86/uefi/disk.rs:103-104 | the whole-block part of a count: a multiple of the block size, at most the count, the remainder making up the rest |
| BlockIo.CopyInto | base/loader/src/drivers/uefi/disk.rs:112 | `ptr::copy` of `n` bytes into the buffer at `at`: those bytes replaced, the rest unchanged |
| FirmwareDisk.DiskSliceTable.constructor | base/loader/src/firmware/arch/x86/uefi/disk.rs:29 | `DISK_SLICE_INFO` starts empty |
| FirmwareDisk.DiskSliceTable.Init | base/loader/src/firmware/arch/x86/uefi/disk.rs:78-79 | `init` publishes the probed slices exactly when there is at least one, and panics otherwise leaving the table as it was |
| FirmwareDisk.Guids | base/loader/src/firmware/arch/x86/uefi/disk.rs:31-35 | the GUID of every registered slice, in registry order |
| FirmwareDisk.LookupHandle | base/loader/src/firmware/arch/x86/uefi/disk.rs:163-175 | `lookup_handle` succeeds exactly when some slice prints like the query, and then returns the first such slice's handle |
| FirmwareDisk.FindSlice | base/loader/src/firmware/arch/x86/uefi/disk.rs:180-192 | `find_slice` succeeds exactly when some slice's GUID equals the query, and returns the first one |
| FirmwareDisk.GetPhysBlockSize | base/loader/src/firmware/arch/x86/uefi/disk.rs:153-157 | the block size of the slice's device; panics exactly when the slice is unknown |
| FirmwareDisk.ReadBlocks | base/loader/src/firmware/arch/x86/uefi/disk.rs:133-148 | `read_blocks`: panics on an unknown slice or a size that is not whole blocks; otherwise the device's status as `Ok`/`Err` and the buffer as the device leaves it; on a panic the buffer is untouched |
| FirmwareDisk.SplitBytes | base/loader/src/firmware/arch/x86/uefi/disk.rs:100-123 | the split path delivers exactly `count` bytes |
| FirmwareDisk.ReadBytesRaw | base/loader/src/firmware/arch/x86/uefi/disk.rs:85-127 | `read_bytes_raw` as written returns and leaves in the buffer what `ReadBytesRawSpec` says |
| FirmwareDisk.RemainderFromFirstBlock | base/loader/src/firmware/arch/x86/uefi/disk.rs:113-122 | the remainder bytes come from the block at `lba`, not from the block after the whole ones |
| FirmwareDisk.RemainderWrongExample | base/loader/src/firmware/arch/x86/uefi/disk.rs:113 | three bytes from a device holding 0, 0, 1, 1 in two-byte blocks come out 0, 0, 0 instead of 0, 0, 1 |
| FirmwareDisk.ShortSplitReadIsRight | base/loader/src/firmware/arch/x86/uefi/disk.rs:100-123 | when the whole read is shorter than a block the split path delivers the right bytes |
| FirmwareDisk.WritesOnlyCount | base/loader/src/firmware/arch/x86/uefi/disk.rs:85-127 | no path writes past `buffer[..count]` |
| FirmwareDisk.ErrorPaths | base/loader/src/firmware/arch/x86/uefi/disk.rs:97-113 | a device error is returned as `Err` on the aligned path and panics through `unwrap` on the split path |
| FirmwareDisk.FixedSplitBytes | base/loader/src/firmware/arch/x86/uefi/disk.rs:100-123 | the corrected split path delivers exactly `count` bytes |
| FirmwareDisk.FixedSplitIsContiguous | base/loader/src/firmware/arch/x86/uefi/disk.rs:100-123 | with the scratch block read after the whole ones, the buffer holds the `count` consecutive medium bytes from block `lba` |
| FirmwareDisk.ReadBytesRawFixed | base/loader/src/firmware/arch/x86/uefi/disk.rs:85-127 | the corrected read completes exactly when `ReadBytesRawFixedSpec` does and then returns and leaves in the buffer what it gives; on `Ok` the buffer's first `count` bytes are the medium's from block `lba`, and nothing past them changes |
| FirmwareDisk.ReadBytesRawSpec | base/loader/src/firmware/arch/x86/uefi/disk.rs:85-127 | `read_bytes_raw` as written: an aligned count is one `read_blocks` returned as is; an unaligned one reads the whole blocks and then one block at `lba` into scratch, panicking through `unwrap` on either error (`ErrorPaths`, `WritesOnlyCount`, `RemainderFromFirstBlock`) |
| FirmwareDisk.ReadBytesRawFixedSpec | base/loader/src/firmware/arch/x86/uefi/disk.rs:85-127 | the corrected read: as written, except that the scratch block is read at `lba + count / block_size`; `FixedReadOutcome` states its results |
| FirmwareDisk.CoveredBytes | base/loader/src/firmware/arch/x86/uefi/disk.rs:100-123 | the bytes the corrected read transfers: `count` rounded up to whole blocks |
| FirmwareDisk.FixedReadOutcome | base/loader/src/firmware/arch/x86/uefi/disk.rs:85-127 | on a working device whose medium covers the rounded-up request the corrected read returns `Ok` with the medium's `count` bytes from block `lba` followed by the rest of the buffer; otherwise an aligned read returns `Err` with the buffer unchanged and an unaligned one panics |
| FirmwareDisk.ReadSplitFixed | base/loader/src/firmware/arch/x86/uefi/disk.rs:100-123 | the corrected unaligned path returns and leaves in the buffer what `ReadBytesRawFixedSpec` gives, panicking exactly when it does |
| FirmwareDisk.FixedFinal | base/loader/src/firmware/arch/x86/uefi/disk.rs:113-122 | the whole blocks followed by the scratch block's first bytes make up the buffer `ReadBytesRawFixedSpec` gives |
| Config.KeptStart | base/loader/src/config.rs:77-79 | the first kept character at or after `lo`: everything before it is stripped |
| Config.KeptEnd | base/loader/src/config.rs:77-79 | the end of the last kept character: everything after it is stripped |
| Config.Trim | base/loader/src/config.rs:77-79 | `trim` / `trim_matches` keep the contiguous middle between the stripped ends, which neither starts nor ends with a stripped character |
| Config.ParseKeyValuePair | base/loader/src/config.rs:69-82 | no `=` gives two empty strings; the key has no `=` and no surrounding whitespace; the value has no leading or trailing `"` |
| Config.SplitsAtFirstEquals | base/loader/src/config.rs:76 | the line is split at its first `=`, later ones stay in the value |
| Config.KeyValueExample | base/loader/src/config.rs:76-79 | `root="A=B"` gives key `root` and value `A=B` |
| Config.ExampleNoSpaces | base/loader/src/config.rs:77-78 | trimming text without whitespace changes nothing |
| Config.ExampleValueQuotes | base/loader/src/config.rs:79 | `trim_matches('"')` of `"A=B"` is `A=B` |
| Config.FoldCons | base/loader/src/config.rs:47-61 | the lines are applied first to last |
| Config.ApplyLine | base/loader/src/config.rs:51-57 | one line's effect: `root` takes the value through `new_from_string` and its panics, `resolution` takes it as is, any other key changes nothing (`Config.PanicStep`, `Config.RootStep`) |
| Config.FoldLines | base/loader/src/config.rs:47-61 | the configuration after the lines in order, a panic stopping everything; `FoldPanicsIff`, `FoldLastRootWins` and `FoldLastResolutionWins` state what it means |
| Config.FoldPanicsIff | base/loader/src/config.rs:51-53 | parsing panics exactly when some `root` value is not a GUID |
| Config.FoldLastResolutionWins | base/loader/src/config.rs:55-57 | the last `resolution` line decides, and without one the default `native` stays |
| Config.FoldLastRootWins | base/loader/src/config.rs:51-53 | the last `root` line decides, and without one the zero GUID stays |
| Config.Lines | base/loader/src/config.rs:47 | `str::lines` yields pieces without line breaks |
| Config.LinesCons | base/loader/src/config.rs:47 | a line ended by `\n` is the first line, followed by the lines of the rest |
| Config.ParseCfg | base/loader/src/config.rs:41-64 | the line loop returns the default configuration with every line applied in order |
| Config.LinesJoin | base/loader/src/config.rs:47 | every line is read, the last one too: joining the lines gives the text back, up to a final `\n` |
| Config.PanicStep | base/loader/src/config.rs:51-53 | one line panics exactly when it is a `root` line whose value does not parse as a GUID |
| Config.RootStep | base/loader/src/config.rs:51-53 | a `root` line sets the root GUID to its parsed value; any other line leaves it as it was |
| UefiDisk.Guids | base/loader/src/drivers/uefi/disk.rs:30-36 | the GUID of every registered slice, in registry order |
| UefiDisk.LookupHandle | base/loader/src/drivers/uefi/disk.rs:134-147 | succeeds exactly when some slice prints like the query, and returns the first such slice's handle |
| UefiDisk.FindSlice | base/loader/src/drivers/uefi/disk.rs:152-164 | succeeds exactly when some slice's GUID equals the query, and returns the first one |
| UefiDisk.FirstEsp | base/loader/src/drivers/uefi/disk.rs:173-177 | the first slice marked as the EFI System Partition, none before it; `None` when no slice is marked |
| UefiDisk.FindEspSlice | base/loader/src/drivers/uefi/disk.rs:169-181 | `find_esp_slice` returns the first ESP slice and panics exactly when there is none |
| UefiDisk.StagedRead | base/loader/src/drivers/uefi/disk.rs:106-129 | no byte past `count` changes, whichever path the read takes |
| UefiDisk.ReadBytesRawSpec | base/loader/src/drivers/uefi/disk.rs:102-104 | `read_bytes_raw` panics exactly when the slice is not registered |
| UefiDisk.ReadBytesRaw | base/loader/src/drivers/uefi/disk.rs:102-130 | `read_bytes_raw` returns and leaves in the buffer what `ReadBytesRawSpec` says |
| UefiDisk.StagedReadInto | base/loader/src/drivers/uefi/disk.rs:106-129 | the read on the slice's device: a short read is staged through a zeroed block of which `count` bytes are copied |
| UefiDisk.ReadOkIsContiguous | base/loader/src/drivers/uefi/disk.rs:106-129 | a successful read leaves the `count` consecutive medium bytes from block `lba` at the buffer's front |
| UefiDisk.LongUnalignedReadFails | base/loader/src/drivers/uefi/disk.rs:120-128 | a read of at least a block that is not whole blocks is refused with `EFI ERROR: 4` and the buffer stays |
| UefiDisk.FatPath | base/loader/src/drivers/uefi/disk.rs:268 | the firmware path: upper-cased, `\` for `/`, one character per character plus the NUL |
| UefiDisk.AsciiUpper | base/loader/src/drivers/uefi/disk.rs:268 | `to_ascii_uppercase` on one character: no lower-case ASCII letter is left, each becomes its capital, and every other character is kept |
| UefiDisk.FatPathShape | base/loader/src/drivers/uefi/disk.rs:268 | the firmware path has no `/`, no lower-case ASCII letter, and its only NUL is the last character |
| UefiDisk.CfgPathExample | base/loader/src/drivers/uefi/disk.rs:226 | `/EFI/BOOT/ZOS/LOADER.CFG` becomes `\EFI\BOOT\ZOS\LOADER.CFG` with a NUL |
| UefiDisk.OpenSpec | base/loader/src/drivers/uefi/disk.rs:260-310 | `File::open` finds the slice by GUID; a FAT slice yields the firmware file at its path, any other filesystem an empty file |
| UefiDisk.Chars | base/loader/src/drivers/uefi/disk.rs:321 | the bytes pushed as characters, one per byte |
| UefiDisk.NextNewline | base/loader/src/drivers/uefi/disk.rs:316 | the first `\n` at or after `pos`, none before it; `None` when there is none |
| UefiDisk.ScanToNewline | base/loader/src/drivers/uefi/disk.rs:316-324 | the scan stops at the next `\n` with the bytes before it, and panics when it runs off the end without one |
| UefiDisk.ReadlnLine | base/loader/src/drivers/uefi/disk.rs:313-333 | `readln` returns the bytes up to the next `\n` and moves past it, reporting the end of the file when that `\n` is the last byte; with no `\n` left it panics |
| UefiDisk.ReadlnAdvances | base/loader/src/drivers/uefi/disk.rs:313-333 | a `readln` that does not report the end moves the position strictly forward |
| UefiDisk.ReadlnSpec | base/loader/src/drivers/uefi/disk.rs:313-333 | `readln`: the bytes up to the next newline, the end-of-file flag once the position after the newline reaches `filesize` (the position then resets to 0), and otherwise the position after the newline; a scan past the contents panics (`ReadlnLine`, `ReadlnAdvances`, `UnterminatedLastLinePanics`) |
| UefiDisk.File.constructor | base/loader/src/drivers/uefi/disk.rs:287-292 | an open file at position 0 whose size is the length of its contents |
| UefiDisk.File.Readln | base/loader/src/drivers/uefi/disk.rs:313-333 | the loop of `readln` returns the line and flag of `ReadlnSpec` and moves the position as it says, changing nothing else |
| UefiDisk.Open | base/loader/src/drivers/uefi/disk.rs:260-310 | `File::open` returns the file `OpenSpec` describes, panicking exactly when it does |
| UefiDisk.ParseCfg | base/loader/src/drivers/uefi/disk.rs:223-249 | the `readln` loop of `parse_cfg` returns `CfgSpec`: the ESP's `LOADER.CFG` applied line by line to the default configuration |
| UefiDisk.CfgSpec | base/loader/src/drivers/uefi/disk.rs:223-249 | `parse_cfg`: the first ESP's `LOADER.CFG` opened, read line by line, and its lines folded into the default configuration; no ESP or no file panics (`CfgAgreesWithConfigRs`) |
| UefiDisk.CfgStep | base/loader/src/drivers/uefi/disk.rs:231-246 | one round of the loop: read a line, apply it, and stop after the line flagged as the last |
| UefiDisk.ReadlnSeqIsNewlineLines | base/loader/src/drivers/uefi/disk.rs:313-333 | on a file ending with `\n`, `readln` delivers its `\n`-ended lines in order |
| UefiDisk.NewlineLinesAreLines | base/loader/src/config.rs:47 | without `\r`, those lines are the ones `str::lines` finds |
| UefiDisk.ReadlnSeqIsLines | base/loader/src/drivers/uefi/disk.rs:231-233 | for a file ending with `\n` and without `\r`, `readln` delivers exactly the lines of `str::lines` |
| UefiDisk.LinesStep | base/loader/src/config.rs:47 | the text is the line up to the next `\n`, then the lines of the rest |
| UefiDisk.CfgAgreesWithConfigRs | base/loader/src/drivers/uefi/disk.rs:223-249 | on such a file this `parse_cfg` computes the same configuration as the one in `config.rs` |
| UefiDisk.UnterminatedCfgPanics | base/loader/src/drivers/uefi/disk.rs:316 | an empty file, or one whose last line has no `\n`, makes `parse_cfg` panic |
| UefiDisk.UnterminatedLastLinePanics | base/loader/src/drivers/uefi/disk.rs:316 | a `readln` with no `\n` left panics |
| BaseDisk.VecOf | base/loader/src/drivers/disk.rs:66-75 | a raw read into `count` zeroed bytes gives those bytes on success and the driver's error unchanged otherwise |
| BaseDisk.BoxOf | base/loader/src/drivers/disk.rs:33-42 | the box exists exactly when `count` fits and the read succeeded; it holds the bytes read in front and zeros after |
| BaseDisk.ReadBytesSpec | base/loader/src/drivers/disk.rs:66-75 | a successful `read_bytes` gives exactly `count` bytes |
| BaseDisk.ReadBytes | base/loader/src/drivers/disk.rs:66-75 | `read_bytes` returns `ReadBytesSpec` |
| BaseDisk.ReadBytesContents | base/loader/src/drivers/disk.rs:66-75 | the vector holds the `count` medium bytes from block `lba` on |
| BaseDisk.ReadBytesIntoBox | base/loader/src/drivers/disk.rs:33-42 | `read_bytes_into_box` returns `BoxOf` of `read_bytes` |
| BaseDisk.FillBox | base/loader/src/drivers/disk.rs:36-39 | the zeroed value with the bytes copied to its start |
| BaseDisk.ReadBytesInto | base/loader/src/drivers/disk.rs:50-53 | a count larger than the buffer panics and leaves it; otherwise success exactly when the raw read succeeds, with the buffer it leaves |
| BaseDisk.ReadBytesRaw | base/loader/src/drivers/disk.rs:90-92 | the call goes to the UEFI driver unchanged |
| LoaderDisk.DeviceTable.constructor | loader/src/drivers/disk.rs:17 | the registry starts empty |
| LoaderDisk.DeviceTable.Init | loader/src/drivers/disk.rs:359-369 | on an empty registry the probed devices are published and the result is `Ok`; on a non-empty one the result is the "cannot be initialized more than once" error and the registry is unchanged |
| LoaderDisk.Names | loader/src/drivers/disk.rs:22-26 | the registered names, one per device, in registry order |
| LoaderDisk.DeviceNamed | loader/src/drivers/disk.rs:295-307 | a device is found exactly when the name is registered; the one found carries that name and is the first such device |
| LoaderDisk.FindDevice | loader/src/drivers/disk.rs:295-307 | the loop over the registry returns what `DeviceNamed` specifies: the first device with that name, or `Err(())` |
| LoaderDisk.Staged | loader/src/drivers/disk.rs:123-143 | one device read changes no byte of the buffer at or beyond `count` |
| LoaderDisk.StagedOkIsContiguous | loader/src/drivers/disk.rs:123-143 | a successful read, staged or direct, delivers the `count` medium bytes starting at block `lba`, and those bytes lie on the medium |
| LoaderDisk.UefiReadSpec | loader/src/drivers/disk.rs:118-144 | the read panics through the `expect` exactly when no device has the name |
| LoaderDisk.UefiReadBytesRaw | loader/src/drivers/disk.rs:118-144 | the method panics exactly when the specification does; otherwise its status and the new buffer are the specification's |
| LoaderDisk.ReadBytesRawIsUefiRead | loader/src/drivers/disk.rs:93-111 | staging a short request in `read_bytes_raw` and again in `_uefi_read_bytes_raw` gives the same outcome and buffer as staging it once |
| LoaderDisk.ReadBytesRaw | loader/src/drivers/disk.rs:93-111 | the short path stages through a 512-byte scratch buffer and the long path reads directly; the outcome and the new buffer are `ReadBytesRawSpec`'s |
| LoaderDisk.ReadBytesRawSpec | loader/src/drivers/disk.rs:93-111 | `read_bytes_raw`: a request under 512 bytes staged through a zeroed 512-byte scratch read whose first `count` bytes are copied on `Ok`, a longer one passed on; `ReadBytesRawIsUefiRead` proves both equal the direct read |
| LoaderDisk.ReadBytesSpec | loader/src/drivers/disk.rs:71-78 | a successful `read_bytes` yields exactly `count` bytes |
| LoaderDisk.ReadBytes | loader/src/drivers/disk.rs:71-78 | the method allocates a zeroed `count`-byte vector, fills it and returns what `ReadBytesSpec` says |
| LoaderDisk.ReadBytesContents | loader/src/drivers/disk.rs:71-78 | a successful read names a registered device, lies on its medium, and yields the `count` medium bytes from block `lba` on |
| LoaderDisk.ReadBytesIntoBox | loader/src/drivers/disk.rs:43-52 | it panics when `count` exceeds the box; otherwise the box is the bytes read followed by zeros; any read failure panics through `unwrap` |
| LoaderDisk.ReadBytesInto | loader/src/drivers/disk.rs:60-63 | it panics with the buffer untouched when `count` exceeds the buffer; otherwise it completes exactly when the raw read succeeds, and the buffer is then the raw read's |
| LoaderDisk.NameTaken | loader/src/drivers/disk.rs:330-334 | the scan reports a name taken exactly when some registered device has it |
| LoaderDisk.NameDeviceAsWritten | loader/src/drivers/disk.rs:280-285 | because `available` is reset on every iteration, only the last device's name is compared, so the result is "disk1" exactly when the last name is "disk0", and "disk0" otherwise |
| LoaderDisk.NameDevice | loader/src/drivers/disk.rs:267-293 | the loop's result is `NameDeviceAsWritten` of the registered names |
| LoaderDisk.NameDeviceDuplicates | loader/src/drivers/disk.rs:280-285 | after "disk0" and "disk1" are registered, the name handed out is "disk0", which is already taken |
| LoaderDisk.FirstFree | loader/src/drivers/disk.rs:320-340 | the search returns the least number `k >= start` whose name is free, and it stops within `|names| + 1` tries |
| LoaderDisk.NameDeviceFixed | loader/src/drivers/disk.rs:267-293 | the evidently intended `name_device`: its result is "diskK" for the least free K, and that name is unused |
| LoaderDisk.LastDisk | loader/src/drivers/disk.rs:313-318 | the result is the last device that is not a slice, every later device being a slice, or None when every device is a slice |
| LoaderDisk.DiskPrefix | loader/src/drivers/disk.rs:312-318 | the reverse scan yields the last non-slice device's name, or "" when there is none |
| LoaderDisk.NameSlice | loader/src/drivers/disk.rs:309-341 | the result is "{disk}s{k}" for the least k >= 1 that no device uses, with k at most the device count plus 1, and the name is unused |
| LoaderNames.Core | loader/src/disk.rs:20-29 | the records of loader/src/disk.rs, each with its slice number dropped, map one-to-one to the driver's records |
| LoaderNames.NameSliceAsWritten | loader/src/disk.rs:225-230 | the reset of `available` at line 226 means only the last device is compared, so the number is 2 exactly when the last device is "{disk}s1", and 1 otherwise |
| LoaderNames.NameSlice | loader/src/disk.rs:203-237 | the loop's result, name and slice number together, is `NameSliceAsWritten` |
| LoaderNames.NameSliceDuplicates | loader/src/disk.rs:225-230 | after disk0, disk0s1 and disk0s2, the name offered is disk0s1 again, which is already registered |
| Fat.DecodeEntry | base/loader/src/drivers/fat.rs:70-84 | a decoded directory entry carries an 11-byte name |
| Fat.RootDirSectors | base/loader/src/drivers/fat.rs:160 | the u16 computation panics exactly when `bytspersec` is 0 |
| Fat.RootDirSectorsIsCeiling | base/loader/src/drivers/fat.rs:160 | when the u16 sum does not overflow, the result is the least sector count that holds `rootentcnt` 32-byte entries |
| Fat.FatSize | base/loader/src/drivers/fat.rs:162-170 | the 16-bit FAT size when it is nonzero, otherwise the 32-bit one |
| Fat.TotalSectors | base/loader/src/drivers/fat.rs:172-177 | the 16-bit sector count when it is nonzero, otherwise the 32-bit one |
| Fat.Classify | base/loader/src/drivers/fat.rs:183-191 | FAT12 exactly below 4085 clusters, FAT16 exactly from 4085 to below 65525, FAT32 exactly from 65525 |
| Fat.DetectFatType | base/loader/src/drivers/fat.rs:159-192 | the determination panics exactly when `bytspersec` or `secperclus` is 0 |
| Fat.FirstDataSectorExact | base/loader/src/drivers/fat.rs:179 | without u32 overflow, the first data sector is reserved sectors plus FATs plus root directory sectors |
| Fat.DetectFatTypeIsSpecification | base/loader/src/drivers/fat.rs:159-192 | without overflow, the u16/u32 computation equals the cluster-count determination of section 3.5 of the FAT specification, taken on unbounded integers with ceiling division |
| Fat.RootDirSectorsExact | base/loader/src/drivers/fat.rs:160 | without overflow, the root directory size is the ceiling of rootentcnt * 32 / bytspersec |
| Fat.FirstSectorOfCluster | base/loader/src/drivers/fat.rs:198-214 | the u32 computation panics exactly when `bytspersec` is 0 |
| Fat.FirstSectorExact | base/loader/src/drivers/fat.rs:198-214 | without overflow, the first sector of cluster n is (n - 2) * secperclus plus the first data sector |
| Fat.FirstSectorIncreasing | base/loader/src/drivers/fat.rs:213 | without overflow, a later cluster starts at a strictly later sector |
| Fat.DecodeBpb | base/loader/src/drivers/fat.rs:34-57 | the BPB fields the driver uses, little-endian at offsets 11, 13, 14, 16, 17, 19, 22, 32, 36 and 44 of the first sector |
| Fat.FirstDataSector | base/loader/src/drivers/fat.rs:201-211 | `rsvdseccnt + numfats * fat_size + root_dir_sectors` in u32; `FirstDataSectorExact` states it without overflow |
| Fat.IsEof | base/loader/src/drivers/fat.rs:220-249 | end of chain exactly at or above 0x0FF8 for FAT12, 0xFFF8 for FAT16 and 0x0FFFFFF8 for FAT32 |
| Fat.Spaces | base/loader/src/drivers/fat.rs:102 | n bytes, every one 0x20 |
| Fat.DosName | base/loader/src/drivers/fat.rs:98-127 | a completed conversion gives 11 bytes, and a name over 11 bytes always panics |
| Fat.DosNameUndotted | base/loader/src/drivers/fat.rs:120-126 | a name with no '.', or "." itself, becomes the name padded with spaces to 11 bytes |
| Fat.DosNameDotted | base/loader/src/drivers/fat.rs:105-117 | base.ext becomes the base padded to 8 bytes followed by the extension padded to 3 |
| Fat.DosNameFullLengthPanics | base/loader/src/drivers/fat.rs:99 | a full 8.3 name, at 12 bytes with its '.', is refused by the length assertion |
| Fat.DosNameLongExtension | base/loader/src/drivers/fat.rs:112-114 | an extension longer than 3 bytes indexes past byte 10 and panics |
| Fat.DosNameExample | base/loader/src/drivers/fat.rs:94 | "LOADER.CFG" becomes "LOADER  CFG", the example the docs give |
| Fat.ToDosFilename | base/loader/src/drivers/fat.rs:98-127 | filling the space-initialised 11-byte array in place gives `DosName`, panics included |
| Fat.DetectSpec | base/loader/src/drivers/fat.rs:136-155 | detection panics exactly when the slice GUID is not registered |
| Fat.Detect | base/loader/src/drivers/fat.rs:136-155 | the boot sector is read into zeroed memory, read errors are ignored, and the result is true exactly when "FAT" is at offset 54 or 82 |
| Fat.DetectFailedReadIsFalse | base/loader/src/drivers/fat.rs:140-141 | when the device read fails, the zeroed buffer carries no "FAT" label, so the result is false |
| Fat.HasFatLabel | base/loader/src/drivers/fat.rs:149 | "FAT" at offset 54 or at offset 82 of the boot sector |
| Fat.UpperAscii | base/loader/src/drivers/fat.rs:256 | the path with every lower-case ASCII letter replaced by its capital and every other byte kept: same length, no lower-case ASCII byte left |
| Fat.TrimSlashes | base/loader/src/drivers/fat.rs:257 | the result is a suffix of the input, every byte removed is '/', and it does not start with '/' |
| Fat.SplitAll | base/loader/src/drivers/fat.rs:271 | at least one piece, and none of the pieces contains the separator |
| Fat.Segments | base/loader/src/drivers/fat.rs:256-271 | the components `find_file` looks up: the path upper-cased, leading `/` trimmed, split at every `/`; at least one component, none containing `/` |
| Fat.DirBytes | base/loader/src/drivers/fat.rs:274-283 | a directory read yields exactly entries-per-cluster times 32 bytes |
| Fat.ScanDir | base/loader/src/drivers/fat.rs:285-301 | a hit is an entry at or after k whose name is the component's 8.3 form and which is not a directory; a descend is a directory entry with that name, and the walk moves to its low cluster word; a name that does not convert panics only when an entry is reached |
| Fat.Walk | base/loader/src/drivers/fat.rs:271-304 | a file found is not a directory, and its name is the 8.3 form of one remaining path component; once the components are exhausted the result is `Err(())` |
| Fat.FindFileSpec | base/loader/src/drivers/fat.rs:255-305 | every volume that is not FAT32 panics |
| Fat.ReadDirectory | base/loader/src/drivers/fat.rs:274-283 | the method returns `DirBytes`: the cluster's bytes read into zero-initialised memory |
| Fat.ScanDirectory | base/loader/src/drivers/fat.rs:285-301 | the entry loop returns `ScanDir` from entry 0 |
| Fat.EntryAt | base/loader/src/drivers/fat.rs:285 | the j-th 32-byte directory entry of the cluster, with an 11-byte name |
| Fat.ScanDirMiss | base/loader/src/drivers/fat.rs:285-301 | with a convertible component the scan completes, and it misses exactly when no entry before the first 0x00 or 0xE5 marker carries the component's 8.3 name |
| Fat.ScanDirFirst | base/loader/src/drivers/fat.rs:285-301 | a hit or descend is decided by the first entry bearing the name: every entry up to it is live (no end marker), none before it has the name, and the result is that entry's `Found` |
| Fat.ScanDirNameError | base/loader/src/drivers/fat.rs:290 | a component that does not convert panics exactly when the scan reaches a live entry; otherwise the scan misses |
| Fat.LiveStep | base/loader/src/drivers/fat.rs:287-289 | entries k..j are live exactly when entry k has no end marker and entries k+1..j are live |
| Fat.ScanDirUnfold | base/loader/src/drivers/fat.rs:285-301 | one entry of the scan: an end marker or the end of the cluster misses, a matching name is found, any other entry moves on to the next |
| Fat.FirstNamedStep | base/loader/src/drivers/fat.rs:285-301 | a live, non-matching entry k before the first match from k+1 keeps that match first from k |
| Fat.WalkStep | base/loader/src/drivers/fat.rs:271-302 | one component's scan decides the walk: a panic or a hit ends it, a directory entry continues it in that cluster, a miss continues it in the same cluster |
| Fat.WalkSkipsUnmatched | base/loader/src/drivers/fat.rs:271-302 | a component none of whose live entries in the current directory bears its name leaves the walk in the same cluster for the next component |
| Fat.FindFile | base/loader/src/drivers/fat.rs:255-305 | the loop over the path components returns `FindFileSpec` |
| Fat.BpbOf | base/loader/src/drivers/fat.rs:313-318 | reading the BPB panics exactly when the slice GUID is not registered |
| Fat.FileEntry | base/loader/src/drivers/fat.rs:313-321 | a found entry is the one `find_file` returns under the BPB read from LBA 0; a failed lookup panics through `unwrap` |
| Fat.FatReadSpec | base/loader/src/drivers/fat.rs:312-337 | a completed file read leaves a buffer of the same length |
| Fat.FileSizeSpec | base/loader/src/drivers/fat.rs:321-326 | the size query: the found entry's `filesize`, a panic when the lookup fails; `Fat.ReadBytesRaw` returns it for a null buffer |
| Fat.ReadEntry | base/loader/src/drivers/fat.rs:328-335 | a completed read of an entry leaves a buffer of the same length |
| Fat.ReadEntryContents | base/loader/src/drivers/fat.rs:328-335 | a completed read is of a file smaller than a cluster; bytes past `filesize` are unchanged; when the device read succeeds, the first `filesize` bytes are those of the file's first cluster |
| Fat.FileEntryStep | base/loader/src/drivers/fat.rs:313-321 | the BPB read and the lookup together determine `FileEntry`: a lookup panic and a not-found both panic |
| Fat.ReadBytesRaw | base/loader/src/drivers/fat.rs:312-337 | a null buffer gets `Some(filesize)`; otherwise the method completes exactly when `FatReadSpec` does, returning `None` with the buffer `FatReadSpec` gives |
| Fat32.Counts | base/loader/src/drivers/fat32.rs:149-158 | the legacy FAT size and sector count are used only when both are nonzero; otherwise both 32-bit fields are |
| Fat32.Check | base/loader/src/drivers/fat32.rs:148-173 | the classification panics exactly when the sector size or cluster size is 0 |
| Fat32.DataSectors | base/loader/src/drivers/fat32.rs:160-172 | `total - (rsvd + numfats * spf + root_dir_sectors)` in u32 with root directory sectors in u16; `DataSectorsExact` states it without overflow |
| Fat32.FromBpb | base/loader/src/drivers/fat32.rs:29-55 | the legacy BPB fields read from the driver's BPB, used to compare `check` with `detect_fat_type` (`CheckAgreesWithDetect`) |
| Fat32.CheckAgreesWithDetect | base/loader/src/drivers/fat32.rs:151-158 | when the two 16-bit fields are both zero or both nonzero, `check` and `fat.rs`'s `detect_fat_type` classify every BPB alike |
| Fat32.CheckDisagreesWithDetect | base/loader/src/drivers/fat32.rs:151-158 | when only the 16-bit FAT size is set, the two classifiers differ (FAT16 against FAT32 on a concrete BPB) |
| Fat32.CheckIsSpecification | base/loader/src/drivers/fat32.rs:160-172 | without overflow, `check` is the cluster-count determination of section 3.5 of the FAT specification, on the counts it selects |
| Fat32.DataSectorsExact | base/loader/src/drivers/fat32.rs:160-161 | without overflow, the wrapping data-sector count equals total - (reserved + FATs + ceiling root sectors) |
| Fat32.Open | base/loader/src/drivers/fat32.rs:120-126 | whatever the arguments, the result is `Ok` of 100 zero bytes |
| Extfs.DetectSpec | base/loader/src/drivers/extfs.rs:211-226 | the probe panics exactly when the slice GUID is not registered |
| Extfs.Detect | base/loader/src/drivers/extfs.rs:211-226 | the superblock (1024 bytes at LBA 2) is read into zeroed memory, the read's status is ignored, and the result is true exactly when the little-endian u16 at byte 56 is 0xEF53 |
| Extfs.DetectFailedReadIsFalse | base/loader/src/drivers/extfs.rs:213-214 | a failed read leaves zeroed memory, whose magic is 0, so the result is false |
| Extfs.DetectReadsMediumMagic | base/loader/src/drivers/extfs.rs:219 | after a successful read, the answer compares with 0xEF53 the two medium bytes at offset 56 of block 2 |
| Fs.DetectFsTypeSpec | base/loader/src/drivers/fs.rs:67-77 | ext is probed first: EXT exactly when the ext probe says yes, FAT exactly when it says no and the FAT probe says yes, UNKNOWN when both say no, and a panic exactly for an unregistered slice |
| Fs.DetectFsType | base/loader/src/drivers/fs.rs:67-77 | the method returns `DetectFsTypeSpec` |
| Fs.ReadInto | base/loader/src/drivers/fs.rs:84-99 | a completed read with a buffer returns `None` and keeps the buffer length |
| Fs.ReadFileRaw | base/loader/src/drivers/fs.rs:84-99 | a null buffer gets the FAT size answer, `None` on ext, and a panic on an unknown filesystem; with a buffer, the FAT driver fills it and ext leaves it untouched |
| Fs.SizeQuery | base/loader/src/drivers/fs.rs:84-99 | `read_file_raw` with a null buffer: the FAT size answer, `None` on ext, a panic on an unknown filesystem |
| Fs.Latin1 | base/loader/src/drivers/fs.rs:115-117 | one character per byte, each character's code point equal to the byte's value |
| Fs.ReadAllSpec | base/loader/src/drivers/fs.rs:106-111 | a completed read into n zeroed bytes yields exactly n bytes |
| Fs.ReadAll | base/loader/src/drivers/fs.rs:106-111 | the method returns `ReadAllSpec` |
| Fs.ReadToString | base/loader/src/drivers/fs.rs:104-120 | the size is queried first, the `unwrap` panicking on `None`; the file is then read into a zeroed buffer of that size, and each byte becomes one character |
| Fs.ReadToStringSpec | base/loader/src/drivers/fs.rs:104-120 | the size queried first (the ext answer `None` panics at `unwrap`), a zeroed buffer of that size filled, each byte one character (`ReadToStringExtPanics`, `ReadToStringIsFile`) |
| Fs.ToLatin1 | base/loader/src/drivers/fs.rs:113-117 | the push loop builds `Latin1` of the bytes |
| Fs.ReadToStringExtPanics | base/loader/src/drivers/fs.rs:90-93 | on an ext volume the size query answers `None`, so `read_to_string` panics |
| Fs.ReadToStringIsFile | base/loader/src/drivers/fs.rs:104-120 | on FAT the string has `filesize` characters and is the FAT driver's read of the file's entry into `filesize` zeroed bytes |
| Fs.OpenByGuid | base/loader/src/drivers/fs.rs:138-144 | the file keeps the slice and the path, with no UUID |
| Fs.OpenByUuid | base/loader/src/drivers/fs.rs:146-154 | the file is on the EFI system partition whatever the UUID; the UUID is only recorded |
| Fs.FileReadRaw | base/loader/src/drivers/fs.rs:159-180 | `read_raw` is `read_file_raw` on the file's slice and path |
| Fs.FileReadToStringSpec | base/loader/src/drivers/fs.rs:183-199 | it panics exactly when `read_to_string` does, and otherwise gives `Ok` of the same string |
| Fs.FileReadToString | base/loader/src/drivers/fs.rs:183-199 | the method returns `FileReadToStringSpec` |
| StringUtils.CStrLen | hal/lib/string_utils.c:4-12 | the length reaches the first NUL: the byte at `p + n` is 0 and every byte before it is not |
| StringUtils.Strlen | hal/lib/string_utils.c:4-12 | the loop counts exactly `CStrLen` bytes |
| StringUtils.CStrLenUnique | hal/lib/string_utils.c:7-9 | any n with a NUL at `p + n` and none before it is the length |
| StringUtils.Rem | hal/lib/string_utils.c:35 | the remainder is below the divisor |
| StringUtils.QuoRem | hal/lib/string_utils.c:35-39 | division by 10 or 16: n = q * b + r; below b the quotient is 0 and the remainder n; from b on the quotient is between 0 and n, exclusive |
| StringUtils.LsbDigits | hal/lib/string_utils.c:33-39 | the do-while loop emits at least one digit |
| StringUtils.Reversed | hal/lib/string_utils.c:45-54 | the same length, element k taken from position len - 1 - k |
| StringUtils.Digits | hal/lib/string_utils.c:33-54 | at least one digit, most significant first |
| StringUtils.DigitByteRoundTrip | hal/lib/string_utils.c:37 | every remainder below the base is written as a digit of that base and reads back as itself |
| StringUtils.DigitsStep | hal/lib/string_utils.c:33-39 | for n >= b, the digits of n are those of n / b followed by the digit for n % b |
| StringUtils.DigitsRoundTrip | hal/lib/string_utils.c:33-54 | the written digits read back, positionally, as n, and each is a digit of the base |
| StringUtils.DigitsNoLeadingZero | hal/lib/string_utils.c:39 | the first digit is '0' exactly when n is 0 |
| StringUtils.ItoaTextTerminated | hal/lib/string_utils.c:42 | the text is at least two bytes, ends in NUL and has no other NUL |
| StringUtils.ItoaText | hal/lib/string_utils.c:15-55 | the text `itoa` writes: `-` and the magnitude for a negative `d` under 'd', otherwise the 32-bit unsigned value in base 16 under 'x' and base 10 otherwise, NUL-terminated (`ItoaZero`, `ItoaNegative`, `ItoaNegativeHex`) |
| StringUtils.SignDigitsNul | hal/lib/string_utils.c:25-42 | a non-NUL sign, then digits, then a NUL: the text's only NUL is its last byte |
| StringUtils.ItoaZero | hal/lib/string_utils.c:33-39 | zero is written "0" in every base, the loop body running once |
| StringUtils.ItoaNegativeHex | hal/lib/string_utils.c:19 | under 'x', -1 is written as its 32-bit two's complement "ffffffff" |
| StringUtils.ItoaNegative | hal/lib/string_utils.c:19-30 | a negative d under 'd' is '-' plus the digits of its magnitude; under any base other than 'd' and 'x' it is the decimal digits of 2^32 + d |
| StringUtils.StrlenAfterItoa | hal/lib/string_utils.c:4-55 | `strlen` of the buffer `itoa` wrote is the text length without its NUL |
| StringUtils.Itoa | hal/lib/string_utils.c:15-55 | memory afterwards is the old memory with `ItoaText(base, d)` stored at `buf`, and nothing else changed |
| StringUtils.ItoaDigits | hal/lib/string_utils.c:33-54 | the digits most significant first, then the NUL, are stored at `p`, and nothing else changes |
| StringUtils.ReverseAfterDigits | hal/lib/string_utils.c:33-54 | storing the least-significant-first digits, writing the NUL after them and reversing the digit range together store the digits most significant first, followed by the NUL |
| StringUtils.EmitDigits | hal/lib/string_utils.c:33-39 | the loop stores the digits least significant first from `p` on and returns the address just past the last one |
| StringUtils.LsbStep | hal/lib/string_utils.c:35-39 | one turn of the loop adds the next digit to those already emitted, and the quotient's digits remain |
| StringUtils.ReverseRange | hal/lib/string_utils.c:45-54 | the swap loop stores the reverse of the old range over it, and changes nothing else |
| StringUtils.CopyUp | hal/lib/string_utils.c:61-63 | the memory keeps its size after the ascending copy loop |
| StringUtils.CopyUpStoresSource | hal/lib/string_utils.c:86-88 | when the target starts at or below the source, or the ranges do not overlap, the ascending loop stores the ORIGINAL source bytes at the target |
| StringUtils.CopyUpStep | hal/lib/string_utils.c:86-88 | one more byte copied extends the stored prefix of the source by that byte, when source and target do not overlap forwards |
| StringUtils.Memcpy | hal/lib/string_utils.c:57-64 | the loop as written is the ascending copy from `destination` into `source` |
| StringUtils.MemcpyCopiesBackwards | hal/lib/string_utils.c:62 | on disjoint ranges `memcpy(d, s, n)` overwrites s with the bytes of d and leaves d as it was |
| StringUtils.MemcpyOneByteExample | hal/lib/string_utils.c:62 | copying byte 1 to byte 0 of [1, 2] leaves [1, 1], where [2, 2] is meant |
| StringUtils.MemcpyFixed | hal/lib/string_utils.h:12-13 | with `d[i] = s[i]`, on non-overlapping ranges the destination receives the source bytes and nothing else changes |
| StringUtils.Memset | hal/lib/string_utils.c:67-73 | the `count` bytes from `destination` become `value`, and nothing else changes |
| StringUtils.Memmove | hal/lib/string_utils.c:76-90 | the destination receives the source's ORIGINAL bytes even when the ranges overlap, and nothing else changes |
| StringUtils.CopyDown | hal/lib/string_utils.c:80-84 | the descending loop, taken when the source starts below the destination, stores the original source at the destination |
| StringUtils.CopyDownStep | hal/lib/string_utils.c:81-83 | each step of the descending loop reads a byte no earlier step overwrote, keeping the invariant that the source's tail is stored at the destination's tail |
| StringUtils.CopyForward | hal/lib/string_utils.c:85-89 | the ascending loop, taken when the destination is below the source or the ranges do not overlap, stores the original source at the destination |
| Writer.Fitting | hal/i386/initializer/src/writer.rs:27-33 | the bytes that fit number at most `len(s)` and do not run past the buffer end |
| Writer.WriteSpec | hal/i386/initializer/src/writer.rs:26-35 | the buffer keeps its length, and the position stays within it and never moves back |
| Writer.WriteSpecMeaning | hal/i386/initializer/src/writer.rs:26-35 | the write succeeds exactly when s fits; on success s is stored at the old position and the position is advanced past it; on failure the prefix that fits is stored and the position is the buffer end; every other byte is unchanged |
| Writer.WriteConcat | hal/i386/initializer/src/writer.rs:26-35 | writing s1 and then s2 leaves the same buffer and position as writing s1 + s2, and succeeds exactly when both writes do |
| Writer.Cursor.constructor | hal/i386/initializer/src/writer.rs:13-23 | a cursor over the borrowed buffer, at position 0 |
| Writer.Cursor.WriteStr | hal/i386/initializer/src/writer.rs:26-35 | the byte loop's result, buffer and position are those of `WriteSpec` |
| MultibootC.Zeroed | hal/i386/initializer/initializer.c:31-34 | after the two `memset` calls every field is zero, the 100-entry memory table and the RSDP arrays have their fixed sizes, and the tag memory is untouched |
| MultibootC.Defaults | hal/i386/initializer/initializer.c:97-107 | the log size becomes 6144; the serial port is enabled at 0x3f8 exactly when built with SERIAL_LOG; nothing else changes |
| MultibootC.AdvanceRoundsUp | hal/i386/initializer/initializer.c:123 | the 32-bit advance is a multiple of 8, and for sizes up to 2^32 - 8 it is the size rounded up to 8; it is 0, so the walk never leaves the tag, exactly when the size is 0 or within 7 of 2^32 |
| MultibootC.Advance | hal/i386/initializer/initializer.c:123 | `(tag->size + 7) & ~7` in 32-bit unsigned arithmetic; `AdvanceRoundsUp` states that it is the size rounded up to 8 except at 0 and near 2^32 |
| MultibootC.FramebufferOf | hal/i386/initializer/initializer.c:136-142 | the framebuffer of a FRAMEBUFFER tag: address cut to 32 bits, width, height and pitch cut to 16 bits, depth in bytes, and size as the i386 `int` product widened to 64 bits (`FramebufferFieldsTruncate`, `FramebufferSizeExact`, `FramebufferSizeSignExtends`) |
| MultibootC.ConsoleOf | hal/i386/initializer/initializer.c:145-148 | the console is the largest grid of 8 x 16 pixel cells that fits the framebuffer, with the cursor at its origin |
| MultibootC.CountedKiB | hal/i386/initializer/initializer.c:168-169 | the KiB counted for a region: `(len >> 32) / 1024 + (len & 0xffffffff) / 1024`, which agrees with the region's KiB below 4 GiB and counts a 4 GiB region as 0 (`CountedKiBDropsHighHalf`) |
| MultibootC.EntryOf | hal/i386/initializer/initializer.c:176-185 | the table entry of one memory-map entry: base address and length in KiB cut to 32 bits, and 0 exactly for an available region (`MmapRecordsEntry`) |
| MultibootC.ModuleOf | hal/i386/initializer/initializer.c:192-195 | the archive of a MODULE tag starts at `mod_start`; its size is `mod_end - mod_start` when the end is not below the start, and wraps modulo 2^32 when it is |
| MultibootC.AcpiSpec | hal/i386/initializer/initializer.c:198-209 | the ACPI case: Signature and OEMID copied into the tag by the swapped `memcpy`, then Checksum, Revision and RSDTAddress read from the tag (`AcpiRecords`) |
| MultibootC.SignedWrap32 | hal/i386/initializer/initializer.c:142 | the `int` result agrees with the exact product modulo 2^32 |
| MultibootC.FramebufferSizeExact | hal/i386/initializer/initializer.c:142 | while width * height * depth fits in an `int`, the size is that product |
| MultibootC.FramebufferSizeSignExtends | hal/i386/initializer/initializer.c:142 | a 32768 x 32768 framebuffer at 16 bits per pixel overflows the `int` product, and the size becomes 2^64 - 2^31 after sign extension |
| MultibootC.FramebufferFieldsTruncate | hal/i386/initializer/initializer.c:137-140 | width, height and pitch keep only their low 16 bits; the 64-bit address keeps its low 32 |
| MultibootC.AddKiB | hal/i386/initializer/initializer.c:168-169 | the two `+=` on a 32-bit total are one wrap-around addition of the region's counted KiB |
| MultibootC.WrapAddWrap | hal/i386/initializer/initializer.c:168-169 | wrapping after each addition gives the same result as wrapping once at the end |
| MultibootC.Counted | hal/i386/initializer/initializer.c:167-174 | counting a region changes no table entry |
| MultibootC.Recorded | hal/i386/initializer/initializer.c:176-185 | only `Entry[i]` changes: it becomes the region's base, its length in KiB and its kind; the totals keep their values |
| MultibootC.MmapSpec | hal/i386/initializer/initializer.c:162-188 | the table keeps its 100 entries, and the case never hangs: it ends Parsed or by writing past the table |
| MultibootC.MmapKeepsEarlierEntries | hal/i386/initializer/initializer.c:187 | later entries never overwrite earlier table positions |
| MultibootC.MmapRecordsEntry | hal/i386/initializer/initializer.c:176-185 | an entry starting inside the tag lands in `Entry[i]` while the table has room |
| MultibootC.MmapZeroEntrySizeOverflows | hal/i386/initializer/initializer.c:165 | an `entry_size` of 0 never advances, so the index runs past the 100-entry table |
| MultibootC.RegionKiB | hal/i386/initializer/initializer.c:177 | the region's length in whole KiB: r * 1024 <= len < (r + 1) * 1024 |
| MultibootC.CountedKiBDropsHighHalf | hal/i386/initializer/initializer.c:168-169 | below 4 GiB the counted KiB are the region's KiB; a 4 GiB region counts as 0 KiB instead of 4194304 |
| MultibootC.AcpiRecords | hal/i386/initializer/initializer.c:205-209 | Checksum, Revision and RSDTAddress are taken from the tag; the `memcpy` calls leave Signature and OEMID as they were and overwrite the tag's signature bytes with the table's |
| MultibootC.TagStep | hal/i386/initializer/initializer.c:126-212 | one case keeps the table shapes and the memory size, and never hangs |
| MultibootC.Walk | hal/i386/initializer/initializer.c:121-213 | the walk keeps the table shapes and the memory size |
| MultibootC.Next | hal/i386/initializer/initializer.c:123 | stepping to the next tag keeps the table shapes and the memory size |
| MultibootC.WalkUnfold | hal/i386/initializer/initializer.c:121-123 | END stops the walk with the state unchanged; any other tag lies inside the memory, and its case runs before the walk advances |
| MultibootC.NextUnfold | hal/i386/initializer/initializer.c:123 | after a case that ended normally, the walk advances by the size read after the case ran, and hangs on an advance of 0 |
| MultibootC.ModuleFallsThrough | hal/i386/initializer/initializer.c:192-209 | a MODULE tag records the archive address and size, then falls through into the ACPI case, which takes RSDP fields from the module tag's bytes; nothing else in the state changes |
| MultibootC.OtherTagsChangeNothing | hal/i386/initializer/initializer.c:210-211 | a tag type the switch has no case for, or a framebuffer that is not RGB, leaves the state unchanged |
| MultibootC.FramebufferTagRecorded | hal/i386/initializer/initializer.c:129-150 | an RGB FRAMEBUFFER tag records the framebuffer with address cut to 32 bits and width, height and pitch cut to 16 bits, resets the console to its size in 8x16 cells, and changes nothing else |
| MultibootC.CmdlinePointsIntoTag | hal/i386/initializer/initializer.c:153-155 | a command-line tag points `params` at its string, 8 bytes into the tag |
| MultibootC.BootInfo.constructor | hal/i386/initializer/initializer.c:31-33 | the table as `memset` leaves it, with a fresh 100-entry array |
| MultibootC.BootInfo.ParseMmap | hal/i386/initializer/initializer.c:158-189 | the loop's status and the new memory information are those of `MmapSpec` from the first entry |
| MultibootC.I386BootInfo.constructor | hal/i386/initializer/initializer.c:32-34 | a zeroed RSDP |
| MultibootC.ComponentArchive.constructor | hal/i386/initializer/initializer.c:11-14 | the zero-initialised statics |
| MultibootC.StoreBytes | hal/lib/string_utils.c:57-64 | the `memcpy` as written stores the table's bytes into the tag memory, and changes nothing else |
| MultibootC.ParseAcpi | hal/i386/initializer/initializer.c:200-209 | the new RSDP and memory are those of `AcpiSpec` |
| MultibootC.ParseTag | hal/i386/initializer/initializer.c:126-212 | the switch leaves the status and the state that `TagStep` gives |
| MultibootC.ParseMultibootHeader | hal/i386/initializer/initializer.c:117-214 | the `for` loop ends with the status and state of `Walk` from the first tag, 8 bytes past the information address |
| MultibootC.InitializeBootInfo | hal/i386/initializer/initializer.c:97-114 | the defaults are set, then `Walk` runs from the first tag |
| MultibootC.EntryPoint | hal/i386/initializer/initializer.c:23-35 | a wrong boot-loader magic hangs with memory untouched; otherwise the tables start zeroed and end as the walk over the defaults leaves them |
| MultibootRust.NextTagOnAlignedTag | hal/i386/initializer/src/initbootinfo.rs:87 | on an 8-aligned tag, the next is the tag plus its size rounded up to 8, between size and size + 7 bytes on |
| MultibootRust.NextTagOnUnalignedTag | hal/i386/initializer/src/initbootinfo.rs:87 | because `+` binds tighter than `&`, on an unaligned tag the sum is rounded as a whole: from address 4 an 8-byte tag is followed at 16, not 12 |
| MultibootRust.NextTagMoves | hal/i386/initializer/src/initbootinfo.rs:87 | the pointer never moves back and is always 8-aligned; it stays put exactly on an aligned tag of size 0 |
| MultibootRust.NextTag | hal/i386/initializer/src/initbootinfo.rs:87 | `(tag + size + 7) & !7` rounded as a whole; `NextTagOnAlignedTag`, `NextTagOnUnalignedTag` and `NextTagMoves` state what it means |
| MultibootRust.FramebufferOf | hal/i386/initializer/src/initbootinfo.rs:57-62 | the framebuffer of an RGB FRAMEBUFFER tag: address cut to 32 bits, width, height and pitch copied, depth in bytes, and size as a wrapping u64 product (`FramebufferSizeWraps`) |
| MultibootRust.ConsoleOf | hal/i386/initializer/src/initbootinfo.rs:66-69 | the console is the largest grid of 8 x 16 pixel cells that fits the framebuffer, with the cursor at its origin |
| MultibootRust.Step | hal/i386/initializer/src/initbootinfo.rs:50-83 | the `match` on one tag: only an RGB framebuffer tag records a framebuffer and console, every other tag changes nothing (`FramebufferTagRecorded`, `OtherTagsChangeNothing`) |
| MultibootRust.Walk | hal/i386/initializer/src/initbootinfo.rs:44-89 | the `loop` over the tags from `tag` to END, hanging on a tag whose next pointer does not move; `ParseMultibootHeader` and `WalkWithoutFramebuffer` state its results |
| MultibootRust.NextTagAgreesWithC | hal/i386/initializer/src/initbootinfo.rs:87 | on an aligned tag whose size does not wrap the C parser's 32-bit advance, the Rust and C parsers step to the same next tag |
| MultibootRust.FramebufferSizeWraps | hal/i386/initializer/src/initbootinfo.rs:62 | a 4294967295 x 4294967295 framebuffer at 16 bits per pixel overflows the `u64` product, which wraps |
| MultibootRust.FramebufferTagRecorded | hal/i386/initializer/src/initbootinfo.rs:50-71 | an RGB framebuffer tag records the address, size and 32-bit fields, and resets the console to 8x16 character cells; nothing else changes |
| MultibootRust.OtherTagsChangeNothing | hal/i386/initializer/src/initbootinfo.rs:73-84 | every other tag, and a framebuffer that is not RGB, changes nothing |
| MultibootRust.WalkWithoutFramebuffer | hal/i386/initializer/src/initbootinfo.rs:47-89 | a walk over tags with no framebuffer among them leaves the state as it was |
| MultibootRust.ParseMultibootHeader | hal/i386/initializer/src/initbootinfo.rs:40-90 | `x` is cleared, then the loop ends with the status and state of `Walk` from 8 bytes past the address |
| MultibootRust.Initialize | hal/i386/initializer/src/initbootinfo.rs:24-38 | the log size becomes 6144, the serial port is enabled exactly under `serial_debug`, then the parse runs |
| HalBootInfo.NewEntryFields | hal/lib/src/bootinfo.rs:198-214 | the base survives its split into three parts; the access byte is kept; the flags byte gets bits 6 and 7 set and keeps its low six bits; the limit keeps its low 16 bits |
| HalBootInfo.NewEntryLimit | hal/lib/src/bootinfo.rs:201-210 | limit bits 16..19 come from the flags argument, never from `limit`, so a limit of 0xFFFFF with flags 0 encodes only 0xFFFF |
| HalBootInfo.NewEntry | hal/lib/src/bootinfo.rs:199-213 | `GdtEntry::new`: limit bits 0..15, the base cut into bits 0..15, 16..23 and 24..31, the access byte, and the flags byte with bits 6 and 7 set; `HalBootInfo.NewEntryFields` proves the base and access round-trip |
| HalBootInfo.SetFlags | hal/lib/src/bootinfo.rs:210 | the `granularity` byte or-ed with 0b1100_0000 on a u8: the two top bits are set and the low six kept |
| HalBootInfo.NewTable | hal/lib/src/bootinfo.rs:216-228 | the table has five descriptors |
| HalBootInfo.DefaultLog | hal/lib/src/bootinfo.rs:52-70 | `EarlyLogBuffer::default`: size, index and flush index 0 and 6144 NUL characters, as `HalBootInfo.DefaultLogEmpty` states |
| HalBootInfo.DefaultMemoryInfo | hal/lib/src/bootinfo.rs:132-145 | `MemoryInfo::default`: no memory and 100 zeroed, uncounted map entries, as `HalBootInfo.DefaultMemoryInfoEmpty` states |
| HalBootInfo.FlatEntry | hal/lib/src/bootinfo.rs:221-222 | limit 0xFFFFFFFF with flags 0xCF gives a flat 4 GiB segment: base 0, limit 0xFFFFF, page granularity, and the given access byte |
| HalBootInfo.ZeroLimitEntry | hal/lib/src/bootinfo.rs:223-224 | limit 0 with flags 0xCF still encodes limit 0xF0000, which comes from the flags |
| HalBootInfo.TableEntries | hal/lib/src/bootinfo.rs:219-225 | the five descriptors byte for byte: the null descriptor's flags byte is 0xC0, not 0; code 0x9A and data 0x92 are flat; the user-mode placeholders have ring-0 access bytes |
| HalBootInfo.DefaultLogEmpty | hal/lib/src/bootinfo.rs:52-70 | the default log is empty, with zero counters and 6144 NUL characters, the length the i386 initializer records as the log size |
| HalBootInfo.DefaultMemoryInfoEmpty | hal/lib/src/bootinfo.rs:132-145 | no memory, no counted entries, and 100 zeroed map entries |
| ZoslibBootInfo.NewEmpty | sys/zoslib/src/bootinfo.rs:77-82 | the empty record has the fixed array lengths of the `#[repr(C)]` layout |
| ZoslibBootInfo.NewEmptyIsZero | sys/zoslib/src/bootinfo.rs:77-82 | the empty record carries its size, zero magic numbers, no framebuffer, and an all-NUL command line and memory map |
| ZoslibBootInfo.Get | sys/zoslib/src/bootinfo.rs:85-92 | `get` panics unless both magic numbers match and the size is the record's size; when it returns, it returns the record unchanged |
| ZoslibBootInfo.GetRejectsNewEmpty | sys/zoslib/src/bootinfo.rs:77-92 | `get` rejects a fresh empty record, whose magic is 0; stamping in both magic numbers is all it then asks |

## Left out

- Device probing and firmware calls: `probe_disks`, the handle walk of `init`, `find_efi_slice`, and the EFI_BLOCK_IO_PROTOCOL and file protocol calls themselves are firmware I/O. Devices are values (`BlockIo.BlockDevice`), registries are explicit inputs, and the firmware's files are a map from path to bytes.
- `get_esp_guid` walks the firmware's device path of the loaded image. The GUID it finds is a parameter of `Fs.OpenByUuid` and `UefiDisk.ParseCfg`.
- ext file reading: `extfs.rs` `find_file` is an empty stub and `fs.rs` answers `None` for ext volumes. Only the superblock probe and that `None` are modelled.
- fat32.rs `find_file` and `read` are not modelled: they are not called by the loader, and their BPB layout is not the standard one. `TypeOfFAT::check` and the `open` stub are modelled.
- `Config.ParseCfg` takes the configuration text as its input. The `File::open` and `lines` calls that config.rs makes on it are not defined in that file; the uefi/disk.rs `parse_cfg` that reads the file through `readln` is modelled as `UefiDisk.ParseCfg`.
- `Fat.UpperAscii`: fat.rs:256 applies Rust's Unicode `to_uppercase`; the model maps only the ASCII letters. A path with other letters that change case ("ß" becomes "SS", changing the length) is not modelled, and the kept length does not hold of the source for such paths. The path is modelled as its UTF-8 bytes.
- `Fat.ReadEntry`: a caller's buffer shorter than the file's `filesize` is modelled as `Panic`; at fat.rs:333 the source writes `filesize` bytes through the raw pointer regardless, past the end of the buffer (undefined behaviour).
- `BlockIo.BlockDevice`: a device's fault is modelled as permanent, reported on every call; a fault that hits only one of two successive reads (the second `read_blocks` of a split read) is not modelled.
- `BlockIo.AfterRead`: a failed read is modelled as leaving the buffer untouched. The UEFI Specification does not promise that for EFI_DEVICE_ERROR; `Fat.DetectFailedReadIsFalse` and `Extfs.DetectFailedReadIsFalse` rely on this assumption.
- `UefiDisk.Open`: at uefi/disk.rs:282 `file.read(&mut count, &mut contents)` passes the address of the `Vec` struct itself (`read<T>` with T = `Vec<u8>`, libuefi/protocol/file.rs:71-73), so the firmware writes the file's bytes over the `Vec` header on the stack and `contents` comes back corrupt, which is undefined behaviour. Here the model departs from the code and takes the intended result that the doc comment at file.rs:70 describes, namely that the contents are the file's bytes and `filesize` is their length. The as-written result has no value to model (what a corrupted `Vec` header does next is undefined), so the discrepancy has no "## Findings" row.
- `LoaderNames.NameSlice`: `EFIBlockDevice::new` is the constructor of the datatype `ProbedDevice`, which stores its four arguments as given.
- Logging (`ldrprintln!`, `early_log`, the C `main`'s log calls and `cpuid`) and the warning printed for a module tag are output only, and are not modelled.
- Uninitialised buffers (`Vec::with_capacity`, `MaybeUninit`, stack arrays) are modelled as zero-filled.
- Rust arithmetic is that of a release build: overflow wraps where the source's types would wrap. Panics (`unwrap`, `assert!`, out-of-range indexing, division by zero) are a `Panic` outcome.
- `MultibootC` and `MultibootRust` model physical addresses as natural numbers over one memory image:
  - bytes outside the image read as zero, so a walk that runs off it meets an END tag;
  - writes outside the image are dropped;
  - the 32-bit wrap of the pointer arithmetic itself is not modelled.
- `MultibootRust.NextTag`: the `usize` overflow of `tag + size + 7` is not modelled, because addresses are natural numbers.
- `MultibootC.Walk`: a tag whose advance is zero, or an entry size of zero, loops forever in the C code. The model stops with `Hang`; writing `Entry[i]` past its 100 entries stops with `EntryOverflow`.
- `MultibootC.FramebufferOf`: the `int` product `width * height * depth` overflows in C with undefined behaviour. It is modelled as the i386 two's-complement wrap, sign-extended to 64 bits.
- `StringUtils.Strlen`: the `int` counter's overflow past 2^31 - 1 bytes is not modelled. A string without a NUL in memory is excluded by the precondition, since the C loop would read past the end.
- `StringUtils.Itoa`: the precondition excludes `d == INT_MIN` under `'d'`, where `-d` is undefined behaviour in C. It also requires the text to fit in memory, since C writes past the buffer.
- C pointers are indices into one byte array. Aliasing between distinct C objects beyond that array is not modelled.
- `ZoslibBootInfo.Get`: `size_of::<BootInfo>()` depends on the target's layout and is a parameter.
- Loading the GDT (`lgdt`) and the segment reloads are privileged instructions, and are not modelled.
- `UuidLayout.FieldsReadBack` reads back data1, data2 and data3 from their digit positions. The data4 bytes are placed by `UuidLayout.Parts`, which gives them as `HexBytes` of the two groups. There is no per-position read-back for them; `Uuid.RoundTrip` covers them.
- Concurrency and the global `static mut` registries: every access is modelled as sequential.

## Findings

| source | as written | input that shows it | evidently intended | confidence | as-written member | corrected member |
|---|---|---|---|---|---|---|
| base/loader/src/firmware/arch/x86/uefi/disk.rs:113 | the remainder block is read at `lba` | block size 2, media 0, 0, 1, 1, `count` 3 from LBA 0: the buffer gets 0, 0, 0 | the remainder block is read at `lba + count / block_size`, giving 0, 0, 1 | not executed | FirmwareDisk.RemainderWrongExample | FirmwareDisk.ReadBytesRawFixed |
| hal/lib/string_utils.c:62 | `source[i] = destination[i]` copies into the source | memory 1, 2 with the destination at 0 and the source at 1, one byte: memory becomes 1, 1 instead of 2, 2 | `destination[i] = source[i]`, as string_utils.h:12-13 documents | not executed | StringUtils.MemcpyOneByteExample | StringUtils.MemcpyFixed |
| loader/src/drivers/disk.rs:281 | `available` is reset for every device, so only the last device's name is compared | devices named "disk0" and "disk1": the new disk is named "disk0" again | the first N with no device named "diskN" | not executed | LoaderDisk.NameDeviceDuplicates | LoaderDisk.NameDeviceFixed |
| loader/src/disk.rs:226 | `available` is reset for every device, so only the last device's name is compared | devices "disk0", "disk0s1", "disk0s2": the new slice is named "disk0s1" again | the least k >= 1 that no device uses, as loader/src/drivers/disk.rs computes | not executed | LoaderNames.NameSliceDuplicates | LoaderDisk.NameSlice |
| hal/i386/initializer/initializer.c:168-169 | `(len >> 32) / 1024 + (len & 0xffffffff) / 1024` counts the high word in units of 2^32 bytes, not 4 GiB per unit | a region of 4 GiB (len 2^32) counts as 0 KiB | `len / 1024` KiB, that is 4194304 | not executed | MultibootC.CountedKiBDropsHighHalf | MultibootC.RegionKiB |
