// The freestanding C string and memory routines of hal/lib/string_utils.c.
// Memory is one byte array `mem`; a C pointer is an index into it.

module StringUtils {
  import opened Common

  // ----- strlen -----

  /** A NUL byte at or after `p`. */
  predicate Terminated(mem: seq<byte>, p: nat) {
    exists k :: p <= k < |mem| && mem[k] == 0
  }

  /** The number of bytes from `p` before the first NUL. */
  function CStrLen(mem: seq<byte>, p: nat): (n: nat)
    requires Terminated(mem, p)
    ensures p + n < |mem| && mem[p + n] == 0
    ensures forall k :: p <= k < p + n ==> mem[k] != 0
    decreases |mem| - p
  {
    if mem[p] == 0 then 0
    else
      assert Terminated(mem, p + 1) by {
        var w :| p <= w < |mem| && mem[w] == 0;
        assert p + 1 <= w;
      }
      1 + CStrLen(mem, p + 1)
  }

  /** `strlen`: counts the bytes before the NUL. */
  method Strlen(mem: seq<byte>, str: nat) returns (length: nat)
    requires Terminated(mem, str)
    ensures length == CStrLen(mem, str)
  {
    length := 0;
    while mem[str + length] != 0
      invariant length <= CStrLen(mem, str)
      invariant forall k :: str <= k < str + length ==> mem[k] != 0
      decreases CStrLen(mem, str) - length
    {
      length := length + 1;
    }
  }

  /** The first NUL determines the length. */
  lemma {:induction false} CStrLenUnique(mem: seq<byte>, p: nat, n: nat)
    requires p + n < |mem| && mem[p + n] == 0
    requires forall k :: p <= k < p + n ==> mem[k] != 0
    ensures Terminated(mem, p) && CStrLen(mem, p) == n
    decreases n
  {
    assert mem[p + n] == 0;
    if n > 0 {
      CStrLenUnique(mem, p + 1, n - 1);
    }
  }

  // ----- itoa -----

  /** The digit character for `r`: '0'..'9', then lower-case 'a'..'f'. */
  function DigitByte(r: nat): byte
    requires r < 16
  {
    if r < 10 then r + '0' as int else r + 'a' as int - 10
  }

  function DigitValue(c: byte): nat {
    if '0' as int <= c <= '9' as int then c - '0' as int
    else if 'a' as int <= c <= 'f' as int then c - 'a' as int + 10
    else 0
  }

  predicate IsDigit(c: byte, b: nat) {
    ('0' as int <= c <= '9' as int && c - '0' as int < b) || (b == 16 && 'a' as int <= c <= 'f' as int)
  }

  /** `n / b`, `n % b` and `n * b` for the two divisors `itoa` uses,
    * written case by case so that each is by a constant. */
  function Quo(n: nat, b: nat): nat
    requires b == 10 || b == 16
  {
    if b == 10 then n / 10 else n / 16
  }

  function Rem(n: nat, b: nat): (r: nat)
    requires b == 10 || b == 16
    ensures r < b
  {
    if b == 10 then n % 10 else n % 16
  }

  function Times(v: nat, b: nat): nat
    requires b == 10 || b == 16
  {
    if b == 10 then v * 10 else v * 16
  }

  lemma QuoRem(n: nat, b: nat)
    requires b == 10 || b == 16
    ensures n == Times(Quo(n, b), b) + Rem(n, b)
    ensures n < b ==> Rem(n, b) == n && Quo(n, b) == 0
    ensures n >= b ==> 0 < Quo(n, b) < n
  {
  }

  /** The digits of `n` in base `b` as the do-while loop emits them, least
    * significant first. */
  function LsbDigits(n: nat, b: nat): (r: seq<byte>)
    requires b == 10 || b == 16
    ensures |r| >= 1
    decreases n
  {
    if n < b then [DigitByte(n)] else [DigitByte(Rem(n, b))] + LsbDigits(Quo(n, b), b)
  }

  function Reversed(s: seq<byte>): (r: seq<byte>)
    ensures |r| == |s|
    ensures forall k :: 0 <= k < |s| ==> r[k] == s[|s| - 1 - k]
  {
    seq(|s|, k requires 0 <= k < |s| => s[|s| - 1 - k])
  }

  /** The digits of `n` in base `b`, most significant first. */
  function Digits(n: nat, b: nat): (r: seq<byte>)
    requires b == 10 || b == 16
    ensures |r| >= 1
  {
    Reversed(LsbDigits(n, b))
  }

  /** The text `itoa(buf, base, d)` writes, with its terminating NUL: a
    * '-' and the magnitude for a negative `d` under 'd'; otherwise the
    * 32-bit unsigned value of `d` (`unsigned long` on i386) in base 16
    * under 'x' and in base 10 under any other `base`. */
  function ItoaText(base: int, d: i32): seq<byte> {
    if base == 'd' as int && d < 0 then ['-' as int] + Digits(-(d as int), 10) + [0]
    else Digits(Wrap32(d), if base == 'x' as int then 16 else 10) + [0]
  }

  /** The value of the digit string `s` read most significant first. */
  function ValueOf(s: seq<byte>, b: nat): nat
    requires b == 10 || b == 16
  {
    if s == [] then 0 else Times(ValueOf(s[..|s| - 1], b), b) + DigitValue(s[|s| - 1])
  }

  lemma DigitByteRoundTrip(r: nat, b: nat)
    requires b == 10 || b == 16
    requires r < b
    ensures DigitValue(DigitByte(r)) == r && IsDigit(DigitByte(r), b)
  {
  }

  /** Appending the next digit: the most significant digits of `n / b`,
    * then the last digit of `n`. */
  lemma {:induction false} DigitsStep(n: nat, b: nat)
    requires b == 10 || b == 16
    requires n >= b
    ensures Digits(n, b) == Digits(Quo(n, b), b) + [DigitByte(Rem(n, b))]
  {
    var lsb := LsbDigits(Quo(n, b), b);
    assert LsbDigits(n, b) == [DigitByte(Rem(n, b))] + lsb;
    assert Reversed([DigitByte(Rem(n, b))] + lsb) == Reversed(lsb) + [DigitByte(Rem(n, b))];
  }

  /** The digits read back as `n`: `itoa`'s digit loop and its reversal
    * together write `n` in positional notation. */
  lemma {:induction false} DigitsRoundTrip(n: nat, b: nat)
    requires b == 10 || b == 16
    ensures ValueOf(Digits(n, b), b) == n
    ensures forall k :: 0 <= k < |Digits(n, b)| ==> IsDigit(Digits(n, b)[k], b)
    decreases n
  {
    QuoRem(n, b);
    if n < b {
      assert Digits(n, b) == [DigitByte(n)];
      DigitByteRoundTrip(n, b);
      assert Digits(n, b)[..0] == [];
    } else {
      DigitsStep(n, b);
      DigitsRoundTrip(Quo(n, b), b);
      var s := Digits(n, b);
      assert s[..|s| - 1] == Digits(Quo(n, b), b);
      DigitByteRoundTrip(Rem(n, b), b);
    }
  }

  /** Only zero is written with a leading '0': the loop stops when the
    * quotient reaches zero. */
  lemma {:induction false} DigitsNoLeadingZero(n: nat, b: nat)
    requires b == 10 || b == 16
    ensures Digits(n, b)[0] == '0' as int <==> n == 0
    decreases n
  {
    if n < b {
      assert Digits(n, b) == [DigitByte(n)];
    } else {
      DigitsStep(n, b);
      QuoRem(n, b);
      DigitsNoLeadingZero(Quo(n, b), b);
    }
  }

  /** Digits are never NUL, so the text's only NUL is its last byte. */
  lemma ItoaTextTerminated(base: int, d: i32)
    ensures var t := ItoaText(base, d);
      && |t| >= 2 && t[|t| - 1] == 0
      && forall k :: 0 <= k < |t| - 1 ==> t[k] != 0
  {
    if base == 'd' as int && d < 0 {
      var n: nat := -(d as int);
      var ds := Digits(n, 10);
      DigitsRoundTrip(n, 10);
      SignDigitsNul(['-' as int], ds, 10);
      assert ItoaText(base, d) == ['-' as int] + ds + [0];
    } else {
      var b := if base == 'x' as int then 16 else 10;
      var ds := Digits(Wrap32(d), b);
      DigitsRoundTrip(Wrap32(d), b);
      SignDigitsNul([], ds, b);
      assert ItoaText(base, d) == [] + ds + [0];
    }
  }

  /** A sign that is not NUL, digits, then a NUL: the only NUL is the last. */
  lemma SignDigitsNul(sign: seq<byte>, ds: seq<byte>, b: nat)
    requires forall k :: 0 <= k < |sign| ==> sign[k] != 0
    requires forall k :: 0 <= k < |ds| ==> IsDigit(ds[k], b)
    ensures var t := sign + ds + [0]; t[|t| - 1] == 0 && forall k :: 0 <= k < |t| - 1 ==> t[k] != 0
  {
    var t := sign + ds + [0];
    forall k | 0 <= k < |t| - 1
      ensures t[k] != 0
    {
      if k >= |sign| {
        assert t[k] == ds[k - |sign|];
      }
    }
  }

  /** Zero is written "0" in every base: the digit loop runs once. */
  lemma ItoaZero(base: int)
    ensures ItoaText(base, 0) == ['0' as int, 0]
  {
  }

  /** A negative number under 'x' is written as its 32-bit two's
    * complement: -1 is "ffffffff". */
  lemma ItoaNegativeHex()
    ensures ItoaText('x' as int, -1) == [102, 102, 102, 102, 102, 102, 102, 102, 0]
  {
    assert Wrap32(-1) == 0xFFFF_FFFF;
    assert LsbDigits(0xF, 16) == [102];
    assert LsbDigits(0xFF, 16) == [102, 102];
    assert LsbDigits(0xFFF, 16) == [102, 102, 102];
    assert LsbDigits(0xFFFF, 16) == [102, 102, 102, 102];
    assert LsbDigits(0xF_FFFF, 16) == [102, 102, 102, 102, 102];
    assert LsbDigits(0xFF_FFFF, 16) == [102, 102, 102, 102, 102, 102];
    assert LsbDigits(0xFFF_FFFF, 16) == [102, 102, 102, 102, 102, 102, 102];
  }

  /** A negative number under 'd' is its sign and its magnitude; under any
    * other base but 'x' its 32-bit unsigned value is written in decimal. */
  lemma ItoaNegative(base: int, d: i32)
    requires d < 0
    ensures base == 'd' as int ==> ItoaText(base, d) == ['-' as int] + Digits(-(d as int), 10) + [0]
    ensures base != 'd' as int && base != 'x' as int ==> ItoaText(base, d) == Digits(U32_MOD + d, 10) + [0]
  {
    var u := Wrap32(d);
    assert u == U32_MOD + d;
  }

  /** `strlen` of what `itoa` wrote is the length of the text without its
    * NUL. */
  lemma StrlenAfterItoa(mem: seq<byte>, buf: nat, base: int, d: i32)
    requires buf + |ItoaText(base, d)| <= |mem|
    ensures Terminated(Store(mem, buf, ItoaText(base, d)), buf)
    ensures CStrLen(Store(mem, buf, ItoaText(base, d)), buf) == |ItoaText(base, d)| - 1
  {
    var t := ItoaText(base, d);
    var m := Store(mem, buf, t);
    ItoaTextTerminated(base, d);
    assert m[buf + |t| - 1] == 0;
    assert forall k :: buf <= k < buf + |t| - 1 ==> m[k] != 0 by {
      forall k | buf <= k < buf + |t| - 1 ensures m[k] != 0 {
        assert m[k] == t[k - buf];
      }
    }
    CStrLenUnique(m, buf, |t| - 1);
  }

  /** `itoa`. The '-' is written before `buf` is moved past it, so the
    * reversal leaves it in front. */
  method Itoa(mem: array<byte>, buf: nat, base: int, d: i32)
    requires !(base == 'd' as int && d == -0x8000_0000)
    requires buf + |ItoaText(base, d)| <= mem.Length
    modifies mem
    ensures mem[..] == Store(old(mem[..]), buf, ItoaText(base, d))
  {
    ghost var orig := mem[..];
    var p := buf;
    var ud: nat := Wrap32(d);
    var divisor := 10;
    ghost var sign: seq<byte> := [];
    if base == 'd' as int && d < 0 {
      mem[p] := '-' as int;
      p := p + 1;
      ud := -(d as int);
      sign := ['-' as int];
    } else if base == 'x' as int {
      divisor := 16;
    }
    assert ItoaText(base, d) == sign + Digits(ud, divisor) + [0];
    assert mem[..] == Store(orig, buf, sign);
    ItoaDigits(mem, p, ud, divisor);
    StoreConcat(orig, buf, sign, Digits(ud, divisor) + [0]);
  }

  /** `itoa` from the digit loop on: the digits of `ud` from `p` on, least
    * significant first, then the NUL, then the digits reversed in place. */
  method ItoaDigits(mem: array<byte>, p: nat, ud: nat, divisor: nat)
    requires divisor == 10 || divisor == 16
    requires p + |Digits(ud, divisor)| + 1 <= mem.Length
    modifies mem
    ensures mem[..] == Store(old(mem[..]), p, Digits(ud, divisor) + [0])
  {
    ghost var m0 := mem[..];
    ghost var lsb := LsbDigits(ud, divisor);
    assert Digits(ud, divisor) == Reversed(lsb);
    var end := EmitDigits(mem, p, ud, divisor);
    ghost var m1 := mem[..];
    mem[end] := 0;
    ghost var m2 := mem[..];
    assert m2 == m1[end := 0];
    assert m2[p..end] == mem[p..end];
    ReverseRange(mem, p, end);
    ReverseAfterDigits(m0, p, lsb, m1, m2, mem[..]);
  }

  /** The three steps of `ItoaDigits` on memory values: digits stored, the
    * NUL written after them, and the digits reversed. */
  lemma ReverseAfterDigits(m0: seq<byte>, p: nat, lsb: seq<byte>, m1: seq<byte>, m2: seq<byte>, m3: seq<byte>)
    requires p + |lsb| < |m0|
    requires m1 == Store(m0, p, lsb)
    requires m2 == m1[p + |lsb| := 0]
    requires m3 == Store(m2, p, Reversed(m2[p..p + |lsb|]))
    ensures m3 == Store(m0, p, Reversed(lsb) + [0])
  {
    var x := lsb + [0];
    StoreNext(m0, p, lsb, 0, m1, m2);
    assert m2 == Store(m0, p, x);
    StoreSlice(m0, p, x, 0, |lsb|);
    assert x[0..|lsb|] == lsb;
    assert m2[p..p + |lsb|] == lsb;
    assert m3 == Store(Store(m0, p, x), p, Reversed(lsb));
    StoreInside(m0, p, x, p, Reversed(lsb));
    assert x[..0] + Reversed(lsb) + x[|lsb|..] == Reversed(lsb) + [0];
  }

  /** The do-while loop of `itoa`: the digits of `ud`, least significant
    * first, from `p` on; returns the address after the last digit. */
  method EmitDigits(mem: array<byte>, p: nat, ud: nat, divisor: nat) returns (end: nat)
    requires divisor == 10 || divisor == 16
    requires p + |LsbDigits(ud, divisor)| <= mem.Length
    modifies mem
    ensures end == p + |LsbDigits(ud, divisor)|
    ensures mem[..] == Store(old(mem[..]), p, LsbDigits(ud, divisor))
  {
    end := p;
    var n: nat := ud;
    ghost var written: seq<byte> := [];
    while true
      invariant end == p + |written|
      invariant LsbDigits(ud, divisor) == written + LsbDigits(n, divisor)
      invariant mem[..] == Store(old(mem[..]), p, written)
      decreases n
    {
      var digit := DigitByte(Rem(n, divisor));
      ghost var before := mem[..];
      mem[end] := digit;
      StoreNext(old(mem[..]), p, written, digit, before, mem[..]);
      LsbStep(ud, divisor, written, n);
      written := written + [digit];
      end := end + 1;
      if n < divisor {
        break;
      }
      n := Quo(n, divisor);
    }
  }

  /** One turn of the do-while loop: the next digit joins those emitted. */
  lemma LsbStep(u: nat, b: nat, written: seq<byte>, n: nat)
    requires b == 10 || b == 16
    requires LsbDigits(u, b) == written + LsbDigits(n, b)
    ensures n < b ==> LsbDigits(u, b) == written + [DigitByte(Rem(n, b))]
    ensures n >= b ==> LsbDigits(u, b) == (written + [DigitByte(Rem(n, b))]) + LsbDigits(Quo(n, b), b)
  {
    QuoRem(n, b);
    if n >= b {
      assert LsbDigits(n, b) == [DigitByte(Rem(n, b))] + LsbDigits(Quo(n, b), b);
    }
  }

  /** The `while (p1 < p2)` swap loop of `itoa` on `mem[lo..hi]`. */
  method ReverseRange(mem: array<byte>, lo: nat, hi: nat)
    requires lo < hi <= mem.Length
    modifies mem
    ensures mem[..] == Store(old(mem[..]), lo, Reversed(old(mem[lo..hi])))
  {
    ghost var seg := mem[lo..hi];
    var p1 := lo;
    var p2 := hi - 1;
    while p1 < p2
      invariant lo <= p1 <= p2 + 1 && p2 < hi && p1 + p2 == lo + hi - 1
      invariant forall k :: 0 <= k < mem.Length && !(lo <= k < hi) ==> mem[k] == old(mem[k])
      invariant forall k :: lo <= k < p1 ==> mem[k] == seg[hi - 1 - k]
      invariant forall k :: p2 < k < hi ==> mem[k] == seg[hi - 1 - k]
      invariant forall k :: p1 <= k <= p2 ==> mem[k] == seg[k - lo]
    {
      var tmp := mem[p1];
      mem[p1] := mem[p2];
      mem[p2] := tmp;
      p1 := p1 + 1;
      p2 := p2 - 1;
    }
    assert forall k :: lo <= k < hi ==> mem[k] == Reversed(seg)[k - lo];
  }

  // ----- memcpy, memset, memmove -----

  /** The memory after `n` steps of the loop `mem[to + i] = mem[from + i]`
    * for i = 0, 1, ...; each step reads what the earlier ones left. */
  function CopyUp(mem: seq<byte>, from: nat, to: nat, n: nat): (r: seq<byte>)
    requires from + n <= |mem| && to + n <= |mem|
    ensures |r| == |mem|
  {
    if n == 0 then mem
    else
      var m := CopyUp(mem, from, to, n - 1);
      m[to + n - 1 := m[from + n - 1]]
  }

  /** When the copy runs toward lower addresses or the ranges do not
    * overlap, no step reads a byte an earlier step wrote: the copy stores
    * the original `mem[from..from + n]` at `to`. */
  lemma {:induction false} CopyUpStoresSource(mem: seq<byte>, from: nat, to: nat, n: nat)
    requires from + n <= |mem| && to + n <= |mem|
    requires to <= from || from + n <= to
    ensures CopyUp(mem, from, to, n) == Store(mem, to, mem[from..from + n])
  {
    if n > 0 {
      CopyUpStoresSource(mem, from, to, n - 1);
      var before := CopyUp(mem, from, to, n - 1);
      assert CopyUp(mem, from, to, n) == before[to + n - 1 := before[from + n - 1]];
      CopyUpStep(mem, from, to, n, before, CopyUp(mem, from, to, n));
    }
  }

  /** One more step of a copy that so far stored the source: the byte it
    * reads has not been written yet. */
  lemma CopyUpStep(mem: seq<byte>, from: nat, to: nat, n: nat, before: seq<byte>, after: seq<byte>)
    requires 0 < n && from + n <= |mem| && to + n <= |mem|
    requires to <= from || from + n <= to
    requires before == Store(mem, to, mem[from..from + n - 1])
    requires after == before[to + n - 1 := before[from + n - 1]]
    ensures after == Store(mem, to, mem[from..from + n])
  {
    var done := mem[from..from + n - 1];
    assert !(to <= from + n - 1 < to + |done|);
    assert before[from + n - 1] == mem[from + n - 1];
    StoreNext(mem, to, done, mem[from + n - 1], before, after);
    assert done + [mem[from + n - 1]] == mem[from..from + n];
  }

  /** `memcpy` as written: the loop assigns `s[i] = d[i]`, copying from
    * `destination` to `source`. */
  method Memcpy(mem: array<byte>, destination: nat, source: nat, count: nat)
    requires destination + count <= mem.Length && source + count <= mem.Length
    modifies mem
    ensures mem[..] == CopyUp(old(mem[..]), destination, source, count)
  {
    for i := 0 to count
      invariant mem[..] == CopyUp(old(mem[..]), destination, source, i)
    {
      mem[source + i] := mem[destination + i];
    }
  }

  /** As written, `memcpy(d, s, n)` on disjoint ranges leaves `d` as it was
    * and overwrites `s` with `d`'s bytes. */
  lemma MemcpyCopiesBackwards(mem: seq<byte>, destination: nat, source: nat, count: nat)
    requires destination + count <= source && source + count <= |mem|
    ensures CopyUp(mem, destination, source, count) == Store(mem, source, mem[destination..destination + count])
    ensures CopyUp(mem, destination, source, count)[destination..destination + count] == mem[destination..destination + count]
  {
    CopyUpStoresSource(mem, destination, source, count);
  }

  /** One byte shows it: copying byte 1 to byte 0 of [1, 2] leaves [1, 1]
    * where [2, 2] was meant. */
  lemma MemcpyOneByteExample()
    ensures CopyUp([1, 2], 0, 1, 1) == [1, 1]
    ensures Store([1, 2], 0, [1, 2][1..2]) == [2, 2]
  {
    assert Store([1, 2], 0, [1, 2][1..2]) == [2, 2] by {
      assert [1, 2][1..2] == [2];
    }
  }

  /** `memcpy` with the assignment the other way round, `d[i] = s[i]`, as
    * string_utils.h documents it: on ranges that do not overlap (which C's
    * `memcpy` demands) the destination receives the source. */
  method MemcpyFixed(mem: array<byte>, destination: nat, source: nat, count: nat)
    requires destination + count <= mem.Length && source + count <= mem.Length
    requires destination + count <= source || source + count <= destination
    modifies mem
    ensures mem[..] == Store(old(mem[..]), destination, old(mem[source..source + count]))
  {
    for i := 0 to count
      invariant mem[..] == CopyUp(old(mem[..]), source, destination, i)
    {
      mem[destination + i] := mem[source + i];
    }
    CopyUpStoresSource(old(mem[..]), source, destination, count);
  }

  /** `memset`: bytes `[destination, destination + count)` become `value`;
    * nothing else changes. */
  method Memset(mem: array<byte>, destination: nat, value: u8, count: nat)
    requires destination + count <= mem.Length
    modifies mem
    ensures mem[..] == Store(old(mem[..]), destination, seq(count, _ => value))
  {
    for i := 0 to count
      invariant mem[..] == Store(old(mem[..]), destination, seq(i, _ => value))
    {
      mem[destination + i] := value;
    }
  }

  /** `memmove`: the destination receives the source's original bytes even
    * when the ranges overlap. It copies from the top down exactly when the
    * source starts below the destination and runs into it. */
  method Memmove(mem: array<byte>, destination: nat, source: nat, count: nat)
    requires destination + count <= mem.Length && source + count <= mem.Length
    modifies mem
    ensures mem[..] == Store(old(mem[..]), destination, old(mem[source..source + count]))
  {
    if source < destination && source + count > destination {
      CopyDown(mem, destination, source, count);
    } else {
      CopyForward(mem, destination, source, count);
    }
  }

  /** `memmove`'s backward loop, from the last byte to the first. */
  method CopyDown(mem: array<byte>, destination: nat, source: nat, count: nat)
    requires destination + count <= mem.Length && source + count <= mem.Length
    requires source < destination
    modifies mem
    ensures mem[..] == Store(old(mem[..]), destination, old(mem[source..source + count]))
  {
    ghost var orig := mem[..];
    var i := count;
    assert orig[source + count..source + count] == [];
    while i != 0
      invariant 0 <= i <= count
      invariant mem[..] == Store(orig, destination + i, orig[source + i..source + count])
    {
      ghost var before := mem[..];
      var v := mem[source + i - 1];
      assert v == before[source + i - 1];
      mem[destination + i - 1] := v;
      assert mem[..] == before[destination + i - 1 := v];
      CopyDownStep(orig, destination, source, count, i, before, mem[..]);
      i := i - 1;
    }
  }

  /** One step of the backward loop: the byte it reads is still the
    * original, since the bytes already written all lie above it. */
  lemma CopyDownStep(orig: seq<byte>, destination: nat, source: nat, count: nat, i: nat,
                     before: seq<byte>, after: seq<byte>)
    requires destination + count <= |orig| && source + count <= |orig|
    requires source < destination && 0 < i <= count
    requires before == Store(orig, destination + i, orig[source + i..source + count])
    requires after == before[destination + i - 1 := before[source + i - 1]]
    ensures after == Store(orig, destination + i - 1, orig[source + i - 1..source + count])
  {
    var data := orig[source + i - 1..source + count];
    assert data[1..] == orig[source + i..source + count];
    assert before[source + i - 1] == data[0];
    StorePrev(orig, destination + i - 1, data, before, after);
  }

  /** `memmove`'s forward loop, taken when it reads no byte it wrote. */
  method CopyForward(mem: array<byte>, destination: nat, source: nat, count: nat)
    requires destination + count <= mem.Length && source + count <= mem.Length
    requires destination <= source || source + count <= destination
    modifies mem
    ensures mem[..] == Store(old(mem[..]), destination, old(mem[source..source + count]))
  {
    ghost var orig := mem[..];
    for i := 0 to count
      invariant mem[..] == CopyUp(orig, source, destination, i)
    {
      mem[destination + i] := mem[source + i];
    }
    CopyUpStoresSource(orig, source, destination, count);
  }
}
