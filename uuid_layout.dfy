// Where each field of a GUID sits in its text form
// (base/loader/src/uuid.rs, `as_string`).

module UuidLayout {
  import opened Common
  import opened Uuid

  /** The text form as its three parts: the 19 characters up to the third
    * dash, the first two bytes of data4, and the last six after a dash. */
  lemma Parts(g: Guid)
    ensures var s := AsString(g);
      && |s| == 36
      && s[..19] == Hex(g.data1, 8) + "-" + Hex(g.data2, 4) + "-" + Hex(g.data3, 4) + "-"
      && s[19..23] == HexBytes(g.data4[..2])
      && s[23] == '-'
      && s[24..] == HexBytes(g.data4[2..])
  {
  }

  /** The layout of the text form: 36 characters, dashes at 8, 13, 18 and 23,
    * upper-case hex digits elsewhere. */
  lemma Layout(g: Guid)
    ensures |AsString(g)| == 36
    ensures var s := AsString(g);
      s[8] == '-' && s[13] == '-' && s[18] == '-' && s[23] == '-'
    ensures var s := AsString(g);
      forall k :: 0 <= k < 36 && k != 8 && k != 13 && k != 18 && k != 23 ==> IsUpperHexDigit(s[k])
  {
    var s := AsString(g);
    Parts(g);
    var head := s[..19];
    var h1, h2, h3 := Hex(g.data1, 8), Hex(g.data2, 4), Hex(g.data3, 4);
    assert head[8] == '-' && head[13] == '-' && head[18] == '-';
    forall k | 0 <= k < 19 && k != 8 && k != 13 && k != 18 ensures IsUpperHexDigit(head[k]) {
      if k < 8 { assert head[k] == h1[k]; }
      else if k < 13 { assert head[k] == h2[k - 9]; }
      else { assert head[k] == h3[k - 14]; }
    }
    HexBytesFacts(g.data4[..2]);
    HexBytesFacts(g.data4[2..]);
    forall k | 19 <= k < 36 && k != 23 ensures IsUpperHexDigit(s[k]) {
      if k < 23 { assert s[k] == s[19..23][k - 19]; }
      else { assert s[k] == s[24..][k - 24]; }
    }
  }

  /** data1, data2 and data3 read back from the digits at positions 0..8,
    * 9..13 and 14..18. */
  lemma FieldsReadBack(g: Guid)
    ensures var s := AsString(g);
      && AllHexDigits(s[0..8]) && HexValue(s[0..8]) == g.data1
      && AllHexDigits(s[9..13]) && HexValue(s[9..13]) == g.data2
      && AllHexDigits(s[14..18]) && HexValue(s[14..18]) == g.data3
  {
    var s := AsString(g);
    Parts(g);
    var head := s[..19];
    assert s[0..8] == head[0..8] == Hex(g.data1, 8);
    assert s[9..13] == head[9..13] == Hex(g.data2, 4);
    assert s[14..18] == head[14..18] == Hex(g.data3, 4);
    HexValueOfHex(g.data1, 8);
    HexValueOfHex(g.data2, 4);
    HexValueOfHex(g.data3, 4);
  }
}
