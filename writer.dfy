// The bounded byte cursor of hal/i386/initializer/src/writer.rs: a
// `core::fmt::Write` sink over a borrowed byte buffer.

module Writer {
  import opened Common

  /** `core::fmt::Error` and `core::fmt::Result`. */
  datatype FmtError = FmtError
  type WriteResult = Result<(), FmtError>

  /** How many bytes of `s` fit from `position` on in `len` bytes. */
  function Fitting(len: nat, position: nat, s: seq<byte>): (n: nat)
    requires position <= len
    ensures n <= |s| && position + n <= len
  {
    if position + |s| <= len then |s| else len - position
  }

  /** `write_str` on buffer contents and a position: the bytes of `s` that
    * fit are stored from the position on. */
  function WriteSpec(buffer: seq<byte>, position: nat, s: seq<byte>): (r: (WriteResult, seq<byte>, nat))
    requires position <= |buffer|
    ensures |r.1| == |buffer| && position <= r.2 <= |buffer|
  {
    var n := Fitting(|buffer|, position, s);
    (if n == |s| then Ok(()) else Err(FmtError), Store(buffer, position, s[..n]), position + n)
  }

  /** It fails exactly when some bytes do not fit, and then the position
    * stops at the end of the buffer; every byte outside the written range
    * keeps its value. */
  lemma WriteSpecMeaning(buffer: seq<byte>, position: nat, s: seq<byte>)
    requires position <= |buffer|
    ensures var r := WriteSpec(buffer, position, s);
      && (r.0.Ok? <==> position + |s| <= |buffer|)
      && (r.0.Ok? ==> r.2 == position + |s| && r.1[position..r.2] == s)
      && (r.0.Err? ==> r.2 == |buffer| && r.1[position..] == s[..|buffer| - position])
      && forall k :: 0 <= k < |buffer| && !(position <= k < r.2) ==> r.1[k] == buffer[k]
  {
    var n := Fitting(|buffer|, position, s);
    StoreSlice(buffer, position, s[..n], 0, n);
    assert s[..n][0..n] == s[..n];
  }

  /** Writing `s1` and then `s2` leaves the buffer and the position as
    * writing `s1 + s2` does, and succeeds when both writes do. */
  lemma WriteConcat(buffer: seq<byte>, position: nat, s1: seq<byte>, s2: seq<byte>)
    requires position <= |buffer|
    ensures var (r1, b1, p1) := WriteSpec(buffer, position, s1);
      var (r2, b2, p2) := WriteSpec(b1, p1, s2);
      var (r, b, p) := WriteSpec(buffer, position, s1 + s2);
      b2 == b && p2 == p && (r.Ok? <==> r1.Ok? && r2.Ok?)
  {
    var (r1, b1, p1) := WriteSpec(buffer, position, s1);
    var (r2, b2, p2) := WriteSpec(b1, p1, s2);
    var (r, b, p) := WriteSpec(buffer, position, s1 + s2);
    var n1 := Fitting(|buffer|, position, s1);
    var n2 := Fitting(|buffer|, p1, s2);
    StoreConcat(buffer, position, s1[..n1], s2[..n2]);
    if n1 == |s1| {
      assert s1[..n1] + s2[..n2] == (s1 + s2)[..n1 + n2];
    } else {
      assert n2 == 0;
      assert s1[..n1] + s2[..n2] == (s1 + s2)[..n1];
    }
  }

  /** `Cursor`: the buffer it borrows and the next position to write. */
  class Cursor {
    const buffer: array<byte>
    var position: nat

    ghost predicate Valid()
      reads this
    {
      position <= buffer.Length
    }

    /** `Cursor::new`, which `create_cursor` calls: a cursor at 0. */
    constructor (buffer: array<byte>)
      ensures this.buffer == buffer && position == 0 && Valid()
    {
      this.buffer := buffer;
      position := 0;
    }

    /** `write_str`: byte by byte, failing at the first byte that finds
      * the buffer full; the bytes written before it stay written. */
    method WriteStr(s: seq<byte>) returns (r: WriteResult)
      requires Valid()
      modifies this, buffer
      ensures Valid()
      ensures (r, buffer[..], position) == WriteSpec(old(buffer[..]), old(position), s)
    {
      for i := 0 to |s|
        invariant position == old(position) + i <= buffer.Length
        invariant buffer[..] == Store(old(buffer[..]), old(position), s[..i])
      {
        if position >= buffer.Length {
          return Err(FmtError);
        }
        ghost var before := buffer[..];
        buffer[position] := s[i];
        StoreNext(old(buffer[..]), old(position), s[..i], s[i], before, buffer[..]);
        assert s[..i] + [s[i]] == s[..i + 1];
        position := position + 1;
      }
      assert s[..|s|] == s;
      return Ok(());
    }
  }
}
