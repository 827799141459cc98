// The i386 initializer's Multiboot2 parser in Rust: `initialize` and
// `parse_multiboot_header`, which hal/i386/initializer/src/initbootinfo.rs
// and hal/i386/initializer/src/bootinfo.rs both define with the same body
// (only their imports differ). Only the framebuffer tag is decoded; `usize`
// is 32 bits on i386.

module MultibootRust {
  import opened Common
  import MultibootC

  const TAG_END: u32 := 0
  const TAG_FRAMEBUFFER: u32 := 8

  /** `early_log_buffer.buffer.len()`. */
  const LOG_BUFFER_LEN: u32 := 6144
  const SERIAL_PORT: u16 := 0x3F8

  datatype Serial = Serial(enabled: bool, port: u16)

  datatype Framebuffer = Framebuffer(enabled: bool, addr: u32, width: u32, height: u32, pitch: u32, depth: u32, size: u64)

  datatype Console = Console(cursorPos: u32, line: u32, maxChars: u32, maxLine: u32)

  /** What the parser can change: the BootInfo fields it writes and
    * `i386bootinfo.x`. */
  datatype State = State(logSize: u32, serial: Serial, framebuffer: Framebuffer, console: Console, x: i32)

  /** How a run ends: the walk reached the END tag, or it loops forever on
    * a tag whose advance leaves the pointer where it was. */
  datatype Status = Parsed | Hang

  function TagType(image: seq<byte>, tag: nat): u32 {
    Le32(image, tag)
  }

  function TagSize(image: seq<byte>, tag: nat): u32 {
    Le32(image, tag + 4)
  }

  /** `(tag as usize + ((*tag).size as usize + 7) & !7)`: by precedence the
    * sum is taken first and the whole of it rounded down. */
  function NextTag(tag: nat, size: u32): nat {
    AlignDown8(tag + size + 7)
  }

  /** For an 8-aligned tag the expression is the intended one: the tag
    * plus its size rounded up to a multiple of 8. */
  lemma NextTagOnAlignedTag(tag: nat, size: u32)
    requires tag % 8 == 0
    ensures NextTag(tag, size) == tag + AlignDown8(size + 7)
    ensures size <= NextTag(tag, size) - tag < size + 8
  {
    assert (tag + size + 7) % 8 == (size + 7) % 8;
  }

  /** On an unaligned tag it is not: at address 4 a tag of 8 bytes is
    * followed at 16, not at 12. */
  lemma NextTagOnUnalignedTag()
    ensures NextTag(4, 8) == 16 && 4 + AlignDown8(8 + 7) == 12
  {
  }

  /** The pointer never moves back, and stays put exactly when the tag is
    * aligned and its size is 0. */
  lemma NextTagMoves(tag: nat, size: u32)
    ensures NextTag(tag, size) >= tag && NextTag(tag, size) % 8 == 0
    ensures NextTag(tag, size) == tag <==> tag % 8 == 0 && size == 0
  {
  }

  /** On an aligned tag whose size does not wrap the C parser's 32-bit
    * advance, the Rust parser steps to the same next tag. */
  lemma NextTagAgreesWithC(tag: nat, size: u32)
    requires tag % 8 == 0 && size <= 0xFFFF_FFF8
    ensures NextTag(tag, size) == tag + MultibootC.Advance(size)
  {
    NextTagOnAlignedTag(tag, size);
    Wrap32Id(size + 7);
  }

  /** The framebuffer an RGB FRAMEBUFFER tag describes: the address cut to
    * `usize`, the 32-bit fields copied, the depth in bytes, and the size as
    * a wrapping `u64` product. */
  function FramebufferOf(image: seq<byte>, tag: nat): Framebuffer {
    var width := Le32(image, tag + 20);
    var height := Le32(image, tag + 24);
    var depth := ByteAt(image, tag + 28) / 8;
    Framebuffer(true, Wrap32(Le64(image, tag + 8)), width, height, Le32(image, tag + 16), depth,
                Wrap64(width * height * depth))
  }

  /** The console is the largest grid of 8 x 16 pixel cells that fits the
    * framebuffer, with the cursor at its origin. */
  function ConsoleOf(fb: Framebuffer): (c: Console)
    ensures c.cursorPos == 0 && c.line == 0
    ensures c.maxChars * 8 <= fb.width < c.maxChars * 8 + 8
    ensures c.maxLine * 16 <= fb.height < c.maxLine * 16 + 16
  {
    Console(0, 0, fb.width / 8, fb.height / 16)
  }

  /** The `match` on one tag that is not END: only an RGB framebuffer
    * changes anything. */
  function Step(st: State, image: seq<byte>, tag: nat): State {
    if TagType(image, tag) == TAG_FRAMEBUFFER && ByteAt(image, tag + 29) == 1 then
      var fb := FramebufferOf(image, tag);
      st.(framebuffer := fb, console := ConsoleOf(fb))
    else st
  }

  /** The `loop` from the tag at `tag`. */
  function Walk(st: State, image: seq<byte>, tag: nat): (Status, State)
    decreases |image| - tag
  {
    if TagType(image, tag) == TAG_END then (Parsed, st)
    else
      var next := NextTag(tag, TagSize(image, tag));
      if next == tag then (Hang, Step(st, image, tag))
      else
        assert tag < |image| && next > tag by {
          NextTagMoves(tag, TagSize(image, tag));
        }
        Walk(Step(st, image, tag), image, next)
  }

  /** A 4294967295 x 4294967295 framebuffer of 16 bits per pixel overflows
    * the `u64` product, which wraps. */
  lemma FramebufferSizeWraps(image: seq<byte>, tag: nat)
    requires Le32(image, tag + 20) == 0xFFFF_FFFF && Le32(image, tag + 24) == 0xFFFF_FFFF
    requires ByteAt(image, tag + 28) == 16
    ensures FramebufferOf(image, tag).size == U64_MOD - 0x4_0000_0000 + 2
  {
    assert 0xFFFF_FFFF * 0xFFFF_FFFF * 2 == U64_MOD + U64_MOD - 0x4_0000_0000 + 2;
  }

  /** An RGB framebuffer tag records the framebuffer and resets the
    * console to its size in 8x16 character cells; nothing else changes. */
  lemma FramebufferTagRecorded(st: State, image: seq<byte>, tag: nat)
    requires TagType(image, tag) == TAG_FRAMEBUFFER && ByteAt(image, tag + 29) == 1
    ensures var r := Step(st, image, tag);
      && r.framebuffer.enabled && r.framebuffer.width == Le32(image, tag + 20)
      && r.framebuffer.height == Le32(image, tag + 24) && r.framebuffer.pitch == Le32(image, tag + 16)
      && r.framebuffer.depth == ByteAt(image, tag + 28) / 8
      && r.framebuffer.size == (r.framebuffer.width * r.framebuffer.height * r.framebuffer.depth) % U64_MOD
      && r.console == Console(0, 0, Le32(image, tag + 20) / 8, Le32(image, tag + 24) / 16)
      && r.(framebuffer := st.framebuffer, console := st.console) == st
  {
  }

  /** Every other tag, and a framebuffer that is not RGB, changes nothing. */
  lemma OtherTagsChangeNothing(st: State, image: seq<byte>, tag: nat)
    requires TagType(image, tag) != TAG_FRAMEBUFFER || ByteAt(image, tag + 29) != 1
    ensures Step(st, image, tag) == st
  {
  }

  /** A walk over tags none of which is an RGB framebuffer leaves the
    * state as it was. */
  lemma {:induction false} WalkWithoutFramebuffer(st: State, image: seq<byte>, tag: nat)
    requires forall t :: tag <= t ==> TagType(image, t) != TAG_FRAMEBUFFER
    ensures Walk(st, image, tag).1 == st
    decreases |image| - tag
  {
    if TagType(image, tag) != TAG_END {
      var next := NextTag(tag, TagSize(image, tag));
      NextTagMoves(tag, TagSize(image, tag));
      if next != tag {
        WalkWithoutFramebuffer(st, image, next);
      }
    }
  }

  class BootInfo {
    var logSize: u32
    var serial: Serial
    var framebuffer: Framebuffer
    var console: Console
  }

  class I386BootInfo {
    var x: i32
  }

  function StateOf(b: BootInfo, a: I386BootInfo): State
    reads b, a
  {
    State(b.logSize, b.serial, b.framebuffer, b.console, a.x)
  }

  /** `parse_multiboot_header`: `x` is cleared, then the walk runs from the
    * first tag, 8 bytes past the information structure's address. */
  method ParseMultibootHeader(b: BootInfo, a: I386BootInfo, image: seq<byte>, addr: u32) returns (status: Status)
    modifies b, a
    ensures (status, StateOf(b, a)) == Walk(old(StateOf(b, a)).(x := 0), image, addr + 8)
  {
    a.x := 0;
    var tag: nat := addr + 8;
    ghost var goal := Walk(StateOf(b, a), image, tag);
    while true
      invariant Walk(StateOf(b, a), image, tag) == goal
      decreases |image| - tag
    {
      var t := TagType(image, tag);
      if t == TAG_FRAMEBUFFER {
        if ByteAt(image, tag + 29) == 1 {
          b.framebuffer := FramebufferOf(image, tag);
          b.console := ConsoleOf(b.framebuffer);
        }
      } else if t == TAG_END {
        break;
      }
      var next := NextTag(tag, TagSize(image, tag));
      NextTagMoves(tag, TagSize(image, tag));
      if next == tag {
        return Hang;
      }
      tag := next;
    }
    return Parsed;
  }

  /** `initialize`: the log buffer size, the serial port when built with
    * `serial_debug`, then the parse. */
  method Initialize(b: BootInfo, a: I386BootInfo, image: seq<byte>, addr: u32, serialDebug: bool)
    returns (status: Status)
    modifies b, a
    ensures var start := old(StateOf(b, a)).(logSize := LOG_BUFFER_LEN, x := 0,
                                             serial := if serialDebug then Serial(true, SERIAL_PORT) else old(b.serial));
      (status, StateOf(b, a)) == Walk(start, image, addr + 8)
  {
    b.logSize := LOG_BUFFER_LEN;
    if serialDebug {
      b.serial := Serial(true, SERIAL_PORT);
    }
    status := ParseMultibootHeader(b, a, image, addr);
  }
}
