// GUIDs as the loader stores and prints them (base/loader/src/uuid.rs and
// base/loader/src/libuefi/general.rs): the 8-4-4-4-12 text form of
// section 3 of RFC 4122, printed upper-case, with the first three fields
// taken as native integers (`from_le` is the identity on x86).

module Uuid {
  import opened Common

  type Data4 = s: seq<u8> | |s| == 8 witness [0, 0, 0, 0, 0, 0, 0, 0]

  /** The derived `PartialEq` of the Rust struct is field-wise, which is
    * exactly Dafny's equality on this datatype. */
  datatype Guid = Guid(data1: u32, data2: u16, data3: u16, data4: Data4)

  const ZeroGuid := Guid(0, 0, 0, [0, 0, 0, 0, 0, 0, 0, 0])

  // ---------------------------------------------------------------
  // Formatting: `{:0wX}`
  // ---------------------------------------------------------------

  function Pow16(w: nat): (r: nat)
    ensures r >= 1
  {
    if w == 0 then 1 else 16 * Pow16(w - 1)
  }

  function UpperHexDigit(d: nat): (c: char)
    requires d < 16
  {
    if d < 10 then (48 + d) as char else (55 + d) as char
  }

  predicate IsUpperHexDigit(c: char) {
    '0' <= c <= '9' || 'A' <= c <= 'F'
  }

  /** `n` printed as exactly `w` upper-case hex digits, zero-padded. */
  function Hex(n: nat, w: nat): (r: string)
    requires n < Pow16(w)
    ensures |r| == w
    ensures forall k :: 0 <= k < w ==> IsUpperHexDigit(r[k])
  {
    if w == 0 then []
    else Hex(n / 16, w - 1) + [UpperHexDigit(n % 16)]
  }

  /** Each byte as two upper-case hex digits, in index order. */
  function HexBytes(b: seq<u8>): (r: string)
    ensures |r| == 2 * |b|
  {
    if b == [] then [] else Hex(b[0], 2) + HexBytes(b[1..])
  }

  /** `as_string` of both GUID structs: `{:08X}-{:04X}-{:04X}-` and then the
    * eight bytes of `data4` as `{:02X}`, with one more dash after the second. */
  function AsString(g: Guid): string {
    Hex(g.data1, 8) + "-" + Hex(g.data2, 4) + "-" + Hex(g.data3, 4) + "-"
    + HexBytes(g.data4[..2]) + "-" + HexBytes(g.data4[2..])
  }

  // ---------------------------------------------------------------
  // Parsing: `from_str_radix(_, 16)` and `new_from_string`
  // ---------------------------------------------------------------

  /** `char::to_digit(16)`: both cases of `a`-`f` are accepted. */
  function HexDigitValue(c: char): Option<nat> {
    if '0' <= c <= '9' then Some(c as int - 48)
    else if 'a' <= c <= 'f' then Some(c as int - 87)
    else if 'A' <= c <= 'F' then Some(c as int - 55)
    else None
  }

  predicate AllHexDigits(s: string) {
    forall k :: 0 <= k < |s| ==> HexDigitValue(s[k]).Some?
  }

  /** The value of a string of hex digits, most significant first. */
  function HexValue(s: string): nat
    requires AllHexDigits(s)
  {
    if s == [] then 0
    else 16 * HexValue(s[..|s| - 1]) + HexDigitValue(s[|s| - 1]).value
  }

  /** Rust's unsigned `from_str_radix(s, 16)` for a type whose values are
    * below `bound`: an empty string, a lone sign, a character that is not a
    * hex digit (a `-` included) or a value that does not fit is an error;
    * one leading `+` is allowed. Each accumulation step is overflow-checked,
    * and since the partial values only grow, a step overflows exactly when
    * the final value does not fit. */
  function ParseHex(s: string, bound: nat): (r: Option<nat>)
    ensures r.Some? ==> r.value < bound
  {
    var digits := if |s| > 1 && s[0] == '+' then s[1..] else s;
    if digits == [] || !AllHexDigits(digits) then None
    else if HexValue(digits) < bound then Some(HexValue(digits))
    else None
  }

  /** `str::replace(c, "")`. */
  function RemoveAll(s: string, c: char): (r: string)
    ensures c !in r
  {
    if s == [] then [] else (if s[0] == c then [] else [s[0]]) + RemoveAll(s[1..], c)
  }

  /** The byte that the `b`-th `split_at(2)` of `text` yields. */
  function PairValue(text: string, b: nat): Option<nat>
    requires 2 * b + 2 <= |text|
  {
    ParseHex(text[2 * b..2 * b + 2], 0x100)
  }

  /** The eight bytes of `data4` read from the dash-free rest, or `None` when
    * a `split_at(2)` runs past its end or a pair is not a hex byte. */
  function Data4Of(text: string): (r: Option<Data4>)
  {
    if |text| < 16 || exists b :: 0 <= b < 8 && PairValue(text, b).None? then None
    else var d: Data4 := seq<u8>(8, b requires 0 <= b < 8 => PairValue(text, b).value); Some(d)
  }

  /** The three dash-separated leading fields and the rest. */
  function SplitFields(s: string): Option<(string, string, string, string)> {
    match SplitOnce(s, '-')
    case None => None
    case Some(s1) =>
      match SplitOnce(s1.1, '-')
      case None => None
      case Some(s2) =>
        match SplitOnce(s2.1, '-')
        case None => None
        case Some(s3) => Some((s1.0, s2.0, s3.0, s3.1))
  }

  /** What `new_from_string` returns. Every malformed input panics, at the
    * `unwrap` of a `split_once`, of a `from_str_radix`, or at a `split_at(2)`
    * past the end of the dash-free rest; characters after the sixteenth
    * digit of the rest are never looked at. */
  function ParseGuid(s: string): Outcome<Guid> {
    match SplitFields(s)
    case None => Panic
    case Some(f) =>
      var d1, d2, d3 := ParseHex(f.0, U32_MOD), ParseHex(f.1, U16_MOD), ParseHex(f.2, U16_MOD);
      var d4 := Data4Of(RemoveAll(f.3, '-'));
      if d1.None? || d2.None? || d3.None? || d4.None? then Panic
      else Done(Guid(d1.value, d2.value, d3.value, d4.value))
  }

  /** The loop of `new_from_string` over the eight bytes of `data4`. */
  method ParseData4(data4: string) returns (r: Option<Data4>)
    ensures r == Data4Of(data4)
  {
    var d4 := new u8[8];
    var rem := data4;
    for b := 0 to 8
      invariant 2 * b <= |data4| && rem == data4[2 * b..]
      invariant forall j :: 0 <= j < b ==> PairValue(data4, j) == Some(d4[j] as nat)
    {
      if |rem| < 2 {
        return None;
      }
      var piece;
      piece, rem := rem[..2], rem[2..];
      assert piece == data4[2 * b..2 * b + 2];
      var v := ParseHex(piece, 0x100);
      if v.None? {
        assert PairValue(data4, b).None?;
        return None;
      }
      d4[b] := v.value;
    }
    assert d4[..] == seq<u8>(8, b requires 0 <= b < 8 => PairValue(data4, b).value);
    return Some(d4[..]);
  }

  /** `GUID::new_from_string`. */
  method NewFromString(guid: string) returns (r: Outcome<Guid>)
    ensures r == ParseGuid(guid)
  {
    var s1 := SplitOnce(guid, '-');
    if s1.None? { return Panic; }
    var s2 := SplitOnce(s1.value.1, '-');
    if s2.None? { return Panic; }
    var s3 := SplitOnce(s2.value.1, '-');
    if s3.None? { return Panic; }
    var data4 := RemoveAll(s3.value.1, '-');
    var data1 := ParseHex(s1.value.0, U32_MOD);
    if data1.None? { return Panic; }
    var data2 := ParseHex(s2.value.0, U16_MOD);
    if data2.None? { return Panic; }
    var data3 := ParseHex(s3.value.0, U16_MOD);
    if data3.None? { return Panic; }
    var d4 := ParseData4(data4);
    if d4.None? { return Panic; }
    return Done(Guid(data1.value, data2.value, data3.value, d4.value));
  }

  // ---------------------------------------------------------------
  // Properties
  // ---------------------------------------------------------------

  lemma HexDigitRoundTrip(d: nat)
    requires d < 16
    ensures HexDigitValue(UpperHexDigit(d)) == Some(d)
  {
  }

  lemma {:induction false} HexValueOfHex(n: nat, w: nat)
    requires n < Pow16(w)
    ensures AllHexDigits(Hex(n, w)) && HexValue(Hex(n, w)) == n
  {
    if w > 0 {
      var s := Hex(n, w);
      assert n / 16 < Pow16(w - 1) by {
        assert n < 16 * Pow16(w - 1);
      }
      HexValueOfHex(n / 16, w - 1);
      assert s[..|s| - 1] == Hex(n / 16, w - 1);
      HexDigitRoundTrip(n % 16);
      assert HexValue(s) == 16 * (n / 16) + n % 16;
    }
  }

  lemma ParseHexOfHex(n: nat, w: nat, bound: nat)
    requires w >= 1 && n < Pow16(w) && n < bound
    ensures ParseHex(Hex(n, w), bound) == Some(n)
  {
    HexValueOfHex(n, w);
  }

  lemma {:induction false} RemoveAllAbsent(s: string, c: char)
    requires c !in s
    ensures RemoveAll(s, c) == s
  {
    if s != [] {
      RemoveAllAbsent(s[1..], c);
    }
  }

  lemma {:induction false} RemoveAllConcat(a: string, b: string, c: char)
    ensures RemoveAll(a + b, c) == RemoveAll(a, c) + RemoveAll(b, c)
  {
    if a != [] {
      var x := if a[0] == c then [] else [a[0]];
      calc {
        RemoveAll(a + b, c);
        { assert (a + b)[0] == a[0]; assert (a + b)[1..] == a[1..] + b; }
        x + RemoveAll(a[1..] + b, c);
        { RemoveAllConcat(a[1..], b, c); }
        x + (RemoveAll(a[1..], c) + RemoveAll(b, c));
        (x + RemoveAll(a[1..], c)) + RemoveAll(b, c);
      }
    } else {
      assert a + b == b;
    }
  }

  lemma {:induction false} HexBytesFacts(b: seq<u8>)
    ensures forall k :: 0 <= k < |b| ==> HexBytes(b)[2 * k..2 * k + 2] == Hex(b[k], 2)
    ensures forall k :: 0 <= k < |HexBytes(b)| ==> IsUpperHexDigit(HexBytes(b)[k])
  {
    if b != [] {
      HexBytesFacts(b[1..]);
      var r := HexBytes(b);
      assert r == Hex(b[0], 2) + HexBytes(b[1..]);
      forall k | 1 <= k < |b| ensures r[2 * k..2 * k + 2] == Hex(b[k], 2) {
        assert r[2 * k..2 * k + 2] == HexBytes(b[1..])[2 * (k - 1)..2 * (k - 1) + 2];
      }
    }
  }

  lemma {:induction false} HexBytesConcat(a: seq<u8>, b: seq<u8>)
    ensures HexBytes(a + b) == HexBytes(a) + HexBytes(b)
  {
    if a != [] {
      calc {
        HexBytes(a + b);
        { assert (a + b)[0] == a[0]; assert (a + b)[1..] == a[1..] + b; }
        Hex(a[0], 2) + HexBytes(a[1..] + b);
        { HexBytesConcat(a[1..], b); }
        Hex(a[0], 2) + (HexBytes(a[1..]) + HexBytes(b));
        (Hex(a[0], 2) + HexBytes(a[1..])) + HexBytes(b);
      }
    } else {
      assert a + b == b;
    }
  }

  lemma NoDash(s: string)
    requires forall k :: 0 <= k < |s| ==> IsUpperHexDigit(s[k])
    ensures '-' !in s
  {
    assert forall k :: 0 <= k < |s| ==> s[k] != '-';
  }

  /** The data4 digits come back as data4. */
  lemma Data4OfHexBytes(d: Data4)
    ensures Data4Of(HexBytes(d)) == Some(d)
  {
    var text := HexBytes(d);
    HexBytesFacts(d);
    forall b | 0 <= b < 8 ensures PairValue(text, b) == Some(d[b] as nat) {
      ParseHexOfHex(d[b], 2, 0x100);
    }
    assert seq<u8>(8, b requires 0 <= b < 8 => PairValue(text, b).value) == d;
  }

  /** A GUID comes back from its text form unchanged. */
  lemma RoundTrip(g: Guid)
    ensures ParseGuid(AsString(g)) == Done(g)
  {
    var tail := HexBytes(g.data4[..2]) + "-" + HexBytes(g.data4[2..]);
    AsStringFields(g);
    TailReadsBack(g);
    Data4OfHexBytes(g.data4);
    ParseHexOfHex(g.data1, 8, U32_MOD);
    ParseHexOfHex(g.data2, 4, U16_MOD);
    ParseHexOfHex(g.data3, 4, U16_MOD);
    ParseGuidOfFields(AsString(g), Hex(g.data1, 8), Hex(g.data2, 4), Hex(g.data3, 4), tail, g);
  }

  /** The text splits at its first three dashes into the three fields and
    * the `data4` part. */
  lemma AsStringFields(g: Guid)
    ensures SplitFields(AsString(g))
      == Some((Hex(g.data1, 8), Hex(g.data2, 4), Hex(g.data3, 4), HexBytes(g.data4[..2]) + "-" + HexBytes(g.data4[2..])))
  {
    var h1, h2, h3 := Hex(g.data1, 8), Hex(g.data2, 4), Hex(g.data3, 4);
    var tail := HexBytes(g.data4[..2]) + "-" + HexBytes(g.data4[2..]);
    assert AsString(g) == h1 + "-" + (h2 + "-" + (h3 + "-" + tail));
    NoDash(h1);
    NoDash(h2);
    NoDash(h3);
    SplitOnceAt(h1, '-', h2 + "-" + (h3 + "-" + tail));
    SplitOnceAt(h2, '-', h3 + "-" + tail);
    SplitOnceAt(h3, '-', tail);
  }

  /** Without its dash, the `data4` part is the sixteen digits of `data4`. */
  lemma TailReadsBack(g: Guid)
    ensures RemoveAll(HexBytes(g.data4[..2]) + "-" + HexBytes(g.data4[2..]), '-') == HexBytes(g.data4)
  {
    var lo, hi := HexBytes(g.data4[..2]), HexBytes(g.data4[2..]);
    HexBytesFacts(g.data4[..2]);
    HexBytesFacts(g.data4[2..]);
    NoDash(lo);
    NoDash(hi);
    RemoveAllConcat(lo + "-", hi, '-');
    RemoveAllConcat(lo, "-", '-');
    RemoveAllAbsent(lo, '-');
    RemoveAllAbsent(hi, '-');
    assert g.data4[..2] + g.data4[2..] == g.data4;
    HexBytesConcat(g.data4[..2], g.data4[2..]);
  }

  lemma ParseGuidOfFields(s: string, f1: string, f2: string, f3: string, tail: string, g: Guid)
    requires SplitFields(s) == Some((f1, f2, f3, tail))
    requires ParseHex(f1, U32_MOD) == Some(g.data1 as nat) && ParseHex(f2, U16_MOD) == Some(g.data2 as nat)
    requires ParseHex(f3, U16_MOD) == Some(g.data3 as nat) && Data4Of(RemoveAll(tail, '-')) == Some(g.data4)
    ensures ParseGuid(s) == Done(g)
  {
  }

  lemma AsStringInjective(a: Guid, b: Guid)
    ensures AsString(a) == AsString(b) <==> a == b
  {
    if AsString(a) == AsString(b) {
      RoundTrip(a);
      RoundTrip(b);
    }
  }

  // ---------------------------------------------------------------
  // Looking a GUID up in a registry
  // ---------------------------------------------------------------

  /** The printed forms of a sequence of GUIDs. */
  function Texts(guids: seq<Guid>): (r: seq<string>)
    ensures |r| == |guids| && forall j :: 0 <= j < |guids| ==> r[j] == AsString(guids[j])
  {
    seq(|guids|, j requires 0 <= j < |guids| => AsString(guids[j]))
  }

  /** The first position whose GUID prints like `guid`. */
  function FirstTextMatch(guids: seq<Guid>, guid: Guid): Option<nat> {
    FirstIndex(Texts(guids), AsString(guid))
  }

  /** An entry that prints like `guid`, with none such before it, is the
    * one found. */
  lemma TextMatchAt(guids: seq<Guid>, guid: Guid, i: nat)
    requires i < |guids| && AsString(guids[i]) == AsString(guid)
    requires forall j :: 0 <= j < i ==> AsString(guids[j]) != AsString(guid)
    ensures FirstTextMatch(guids, guid) == Some(i)
  {
    FirstIndexAt(Texts(guids), AsString(guid), i);
  }

  /** No entry prints like `guid`: nothing is found. */
  lemma TextMatchNone(guids: seq<Guid>, guid: Guid)
    requires forall j :: 0 <= j < |guids| ==> AsString(guids[j]) != AsString(guid)
    ensures FirstTextMatch(guids, guid) == None
  {
    var texts := Texts(guids);
    assert forall j :: 0 <= j < |texts| ==> texts[j] != AsString(guid);
  }

  /** Comparing the printed forms finds the same entry as comparing the
    * fields, because different GUIDs print differently. */
  lemma TextMatchIsFieldMatch(guids: seq<Guid>, guid: Guid)
    ensures FirstTextMatch(guids, guid) == FirstIndex(guids, guid)
  {
    var texts, text := Texts(guids), AsString(guid);
    match FirstIndex(guids, guid)
    case Some(i) =>
      forall j | 0 <= j < i ensures texts[j] != text {
        AsStringInjective(guids[j], guid);
      }
      FirstIndexAt(texts, text, i);
    case None =>
      forall j | 0 <= j < |texts| ensures texts[j] != text {
        AsStringInjective(guids[j], guid);
      }
  }
}
