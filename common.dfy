// Machine integers, byte-level decoding, outcomes and decimal formatting
// shared by every module of the model.

module Common {

  type u8 = x: int | 0 <= x < 0x100
  type u16 = x: int | 0 <= x < 0x1_0000
  type u32 = x: int | 0 <= x < 0x1_0000_0000
  type u64 = x: int | 0 <= x < 0x1_0000_0000_0000_0000
  type i32 = x: int | -0x8000_0000 <= x < 0x8000_0000
  type byte = u8

  const U16_MOD: nat := 0x1_0000
  const U32_MOD: nat := 0x1_0000_0000
  const U64_MOD: nat := 0x1_0000_0000_0000_0000

  /** The result of running code that may stop the machine: a Rust panic
    * (`unwrap` of an error, `assert!`, an index out of bounds, `panic!`). */
  datatype Outcome<T> = Done(value: T) | Panic

  datatype Option<T> = None | Some(value: T)

  datatype Result<T, E> = Ok(value: T) | Err(error: E)

  /** Wrap-around conversions, as an `as` cast or a release-mode overflow does. */
  function Wrap16(x: int): u16 { x % U16_MOD }
  function Wrap32(x: int): u32 { x % U32_MOD }
  function Wrap64(x: int): u64 { x % U64_MOD }

  lemma Wrap16Id(x: int)
    requires 0 <= x < U16_MOD
    ensures Wrap16(x) == x
  {
  }

  lemma Wrap32Id(x: int)
    requires 0 <= x < U32_MOD
    ensures Wrap32(x) == x
  {
  }

  /** `x & !7` (`x & ~7` in C) for an `x` of at most 32 bits: `x` rounded
    * down to a multiple of 8. */
  function AlignDown8(x: nat): (r: nat)
    ensures r % 8 == 0 && r <= x < r + 8
  {
    x - x % 8
  }

  /** `image` with `data` stored from address `at` on; stores past the end
    * of the image are dropped. */
  function Store(image: seq<byte>, at: nat, data: seq<byte>): (r: seq<byte>)
    ensures |r| == |image|
    ensures forall k :: 0 <= k < |image| ==> r[k] == if at <= k < at + |data| then data[k - at] else image[k]
  {
    seq(|image|, k requires 0 <= k < |image| => if at <= k < at + |data| then data[k - at] else image[k])
  }

  /** Two stores side by side are one store of both. */
  lemma StoreConcat(image: seq<byte>, at: nat, a: seq<byte>, b: seq<byte>)
    ensures Store(Store(image, at, a), at + |a|, b) == Store(image, at, a + b)
  {
  }

  /** The stored data reads back. */
  lemma StoreSlice(image: seq<byte>, at: nat, x: seq<byte>, i: nat, j: nat)
    requires i <= j <= |x| && at + |x| <= |image|
    ensures Store(image, at, x)[at + i..at + j] == x[i..j]
  {
  }

  /** Writing one byte is storing a one-byte sequence. */
  lemma StoreOne(image: seq<byte>, at: nat, v: byte)
    requires at < |image|
    ensures image[at := v] == Store(image, at, [v])
  {
  }

  /** One more byte written after those already stored. */
  lemma StoreNext(m0: seq<byte>, p: nat, written: seq<byte>, v: byte, before: seq<byte>, after: seq<byte>)
    requires p + |written| < |m0|
    requires before == Store(m0, p, written)
    requires after == before[p + |written| := v]
    ensures after == Store(m0, p, written + [v])
  {
    StoreOne(before, p + |written|, v);
    StoreConcat(m0, p, written, [v]);
  }

  /** A store inside an earlier one replaces that part of its data. */
  /** Writing the first byte of `data` just below a store of the rest of
    * it completes the store of `data`. */
  lemma StorePrev(m0: seq<byte>, q: nat, data: seq<byte>, before: seq<byte>, after: seq<byte>)
    requires |data| >= 1 && q + |data| <= |m0|
    requires before == Store(m0, q + 1, data[1..])
    requires after == before[q := data[0]]
    ensures after == Store(m0, q, data)
  {
    var goal := Store(m0, q, data);
    forall k | 0 <= k < |m0|
      ensures after[k] == goal[k]
    {
      if q < k < q + |data| {
        assert data[1..][k - q - 1] == data[k - q];
      }
    }
  }

  lemma StoreInside(image: seq<byte>, at: nat, x: seq<byte>, at2: nat, y: seq<byte>)
    requires at <= at2 && at2 + |y| <= at + |x|
    ensures Store(Store(image, at, x), at2, y) == Store(image, at, x[..at2 - at] + y + x[at2 - at + |y|..])
  {
  }

  /** Byte `i` of a memory image; bytes outside the image read as zero. */
  function ByteAt(mem: seq<byte>, i: int): byte {
    if 0 <= i < |mem| then mem[i] else 0
  }

  /** Little-endian decoders at an explicit offset. */
  function Le16(mem: seq<byte>, off: int): u16 {
    ByteAt(mem, off) + 0x100 * ByteAt(mem, off + 1)
  }

  function Le32(mem: seq<byte>, off: int): u32 {
    Le16(mem, off) + 0x1_0000 * Le16(mem, off + 2)
  }

  function Le64(mem: seq<byte>, off: int): u64 {
    Le32(mem, off) + 0x1_0000_0000 * Le32(mem, off + 4)
  }

  /** `n` bytes of `mem` starting at `off`, zero outside the image. */
  function Bytes(mem: seq<byte>, off: int, n: nat): (r: seq<byte>)
    ensures |r| == n
    ensures forall k :: 0 <= k < n ==> r[k] == ByteAt(mem, off + k)
  {
    seq<byte>(n, k => ByteAt(mem, off + k))
  }

  function Zeros(n: nat): (r: seq<byte>)
    ensures |r| == n && forall k :: 0 <= k < n ==> r[k] == 0
  {
    seq<byte>(n, k => 0)
  }

  /** The ASCII character of a digit value (`0`-`9`, then lower-case `a`-`z`). */
  function DigitChar(d: nat): char
    requires d < 36
  {
    if d < 10 then (48 + d) as char else (87 + d) as char
  }

  /** Rust's `{}` formatting of an unsigned integer: decimal, no padding. */
  function Decimal(n: nat): (r: string)
    decreases n
  {
    if n < 10 then [DigitChar(n)] else Decimal(n / 10) + [DigitChar(n % 10)]
  }

  lemma {:induction false} DecimalNonEmpty(n: nat)
    ensures |Decimal(n)| >= 1
    ensures forall k :: 0 <= k < |Decimal(n)| ==> '0' <= Decimal(n)[k] <= '9'
    decreases n
  {
    if n >= 10 {
      DecimalNonEmpty(n / 10);
    }
  }

  /** Different numbers print differently. */
  lemma {:induction false} DecimalInjective(a: nat, b: nat)
    requires Decimal(a) == Decimal(b)
    ensures a == b
    decreases a
  {
    DecimalNonEmpty(a / 10);
    DecimalNonEmpty(b / 10);
    if a < 10 && b < 10 {
      assert Decimal(a)[0] == Decimal(b)[0];
    } else if a >= 10 && b >= 10 {
      var da, db := Decimal(a / 10), Decimal(b / 10);
      assert Decimal(a) == da + [DigitChar(a % 10)];
      assert Decimal(b) == db + [DigitChar(b % 10)];
      assert |da| == |db|;
      assert da == Decimal(a)[..|da|] == Decimal(b)[..|db|] == db;
      assert DigitChar(a % 10) == Decimal(a)[|da|] == DigitChar(b % 10);
      DecimalInjective(a / 10, b / 10);
    }
  }

  /** Rust's `str::split_once(c)`: the text before and after the FIRST `c`. */
  function SplitOnce<T(==)>(s: seq<T>, c: T): (r: Option<(seq<T>, seq<T>)>)
    ensures r.None? <==> c !in s
    ensures r.Some? ==> s == r.value.0 + [c] + r.value.1 && c !in r.value.0
  {
    if s == [] then None
    else if s[0] == c then Some(([], s[1..]))
    else match SplitOnce(s[1..], c)
      case None => None
      case Some(p) => Some(([s[0]] + p.0, p.1))
  }

  lemma {:induction false} SplitOnceAt<T>(a: seq<T>, c: T, b: seq<T>)
    requires c !in a
    ensures SplitOnce(a + [c] + b, c) == Some((a, b))
  {
    if a != [] {
      assert (a + [c] + b)[1..] == a[1..] + [c] + b;
      SplitOnceAt(a[1..], c, b);
      assert [a[0]] + a[1..] == a;
    }
  }

  /** The first position of `x` in `xs`: `Iterator::position` of an
    * equality test. */
  function FirstIndex<T(==)>(xs: seq<T>, x: T): (r: Option<nat>)
    ensures r.Some? ==> r.value < |xs| && xs[r.value] == x
    ensures r.Some? ==> forall j :: 0 <= j < r.value ==> xs[j] != x
    ensures r.None? <==> x !in xs
  {
    if xs == [] then None
    else if xs[0] == x then Some(0)
    else match FirstIndex(xs[1..], x)
      case None => None
      case Some(i) => Some(i + 1)
  }

  /** A position holding `x` with no `x` before it is the first one. */
  lemma FirstIndexAt<T>(xs: seq<T>, x: T, i: nat)
    requires i < |xs| && xs[i] == x
    requires forall j :: 0 <= j < i ==> xs[j] != x
    ensures FirstIndex(xs, x) == Some(i)
  {
    var r := FirstIndex(xs, x);
    assert r.Some?;
    if r.value < i {
    } else if r.value > i {
    }
  }

  // Arithmetic helpers for division by a non-constant divisor.

  lemma MulAtLeast(k: int, b: int)
    requires k >= 1 && b > 0
    ensures k * b >= b
  {
  }

  lemma MulSub(q: int, d: int, b: int)
    ensures (q - d) * b == q * b - d * b
  {
  }

  lemma MulAdd(q: int, d: int, b: int)
    ensures (q + d) * b == q * b + d * b
  {
  }

  lemma DivModBasics(a: int, b: int)
    requires b > 0
    ensures a == (a / b) * b + a % b && 0 <= a % b < b
  {
  }

  /** Division of a natural number by a positive one, with the bounds
    * callers need. */
  function Quot(a: nat, b: nat): (q: nat)
    requires b > 0
    ensures q <= a && q * b <= a < q * b + b
  {
    DivModBasics(a, b);
    MulGrows(a / b, b);
    a / b
  }

  lemma MulGrows(q: nat, b: int)
    requires b >= 1
    ensures q * b >= q
  {
    MulSub(b, 1, q);
  }

  /** Euclidean division is unique. */
  lemma DivUnique(a: int, b: int, q: int, r: int)
    requires b > 0 && a == q * b + r && 0 <= r < b
    ensures a / b == q && a % b == r
  {
    var d, m := a / b, a % b;
    DivModBasics(a, b);
    MulSub(q, d, b);
    if q > d {
      MulAtLeast(q - d, b);
    }
    if q < d {
      MulAtLeast(d - q, b);
      MulSub(d, q, b);
    }
  }
}
