// The loader configuration file (base/loader/src/config.rs): lines of
// `key = "value"`, of which `root` (a GUID) and `resolution` are known.

module Config {
  import opened Common
  import opened Uuid

  datatype Config = Config(rootfs: Guid, resolution: string)

  /** `Config::default()`. */
  const DefaultConfig := Config(ZeroGuid, "native")

  // ---------------------------------------------------------------
  // Trimming, as `str::trim` and `str::trim_matches` do it
  // ---------------------------------------------------------------

  /** The Unicode White_Space property, which `str::trim` uses. */
  predicate IsWhitespace(c: char) {
    var n := c as int;
    (0x09 <= n <= 0x0D) || n == 0x20 || n == 0x85 || n == 0xA0
    || n == 0x1680 || (0x2000 <= n <= 0x200A) || n == 0x2028 || n == 0x2029
    || n == 0x202F || n == 0x205F || n == 0x3000
  }

  /** The character `trim_matches('"')` strips. */
  predicate IsQuote(c: char) {
    c == '"'
  }

  /** The first position at or after `lo` that holds a kept character, or
    * the end of `s`. */
  function KeptStart(s: string, strip: char -> bool, lo: nat): (i: nat)
    requires lo <= |s|
    ensures lo <= i <= |s|
    ensures forall k :: lo <= k < i ==> strip(s[k])
    ensures i == |s| || !strip(s[i])
    decreases |s| - lo
  {
    if lo < |s| && strip(s[lo]) then KeptStart(s, strip, lo + 1) else lo
  }

  /** The position just after the last kept character in `s[lo..hi]`, or `lo`. */
  function KeptEnd(s: string, strip: char -> bool, lo: nat, hi: nat): (j: nat)
    requires lo <= hi <= |s|
    ensures lo <= j <= hi
    ensures forall k :: j <= k < hi ==> strip(s[k])
    ensures j == lo || !strip(s[j - 1])
    decreases hi
  {
    if lo < hi && strip(s[hi - 1]) then KeptEnd(s, strip, lo, hi - 1) else hi
  }

  /** `str::trim` and `str::trim_matches`: trimming both ends keeps a
    * contiguous middle part of the text, drops only stripped characters
    * around it, and the part kept neither starts nor ends with one. */
  function Trim(s: string, strip: char -> bool): (r: string)
    ensures var i := KeptStart(s, strip, 0);
      && i + |r| <= |s| && r == s[i..i + |r|]
      && (forall k :: 0 <= k < i ==> strip(s[k]))
      && (forall k :: i + |r| <= k < |s| ==> strip(s[k]))
    ensures r == [] || (!strip(r[0]) && !strip(r[|r| - 1]))
  {
    var i := KeptStart(s, strip, 0);
    s[i..KeptEnd(s, strip, i, |s|)]
  }

  // ---------------------------------------------------------------
  // One line
  // ---------------------------------------------------------------

  /** `parse_key_value_pair`: a line without `=` gives two empty strings;
    * otherwise the text before the first `=` is the key and the rest the
    * value, both trimmed of whitespace, and then every leading and trailing
    * `"` is stripped from the value. */
  function ParseKeyValuePair(line: string): (r: (string, string))
    ensures '=' !in line ==> r == ("", "")
    ensures '=' !in r.0
    ensures r.0 == [] || (!IsWhitespace(r.0[0]) && !IsWhitespace(r.0[|r.0| - 1]))
    ensures r.1 == [] || (r.1[0] != '"' && r.1[|r.1| - 1] != '"')
  {
    match SplitOnce(line, '=')
    case None => ("", "")
    case Some(kv) =>
      (Trim(kv.0, IsWhitespace), Trim(Trim(kv.1, IsWhitespace), IsQuote))
  }

  /** The line is split at its FIRST `=`: later ones stay in the value. */
  lemma SplitsAtFirstEquals(key: string, value: string)
    requires '=' !in key
    ensures ParseKeyValuePair(key + "=" + value)
      == (Trim(key, IsWhitespace), Trim(Trim(value, IsWhitespace), IsQuote))
  {
    SplitOnceAt(key, '=', value);
  }

  /** For instance `root="A=B"` gives the key `root` and the value `A=B`. */
  lemma KeyValueExample()
    ensures ParseKeyValuePair("root=\"A=B\"") == ("root", "A=B")
  {
    var key, value := "root", "\"A=B\"";
    assert "root=\"A=B\"" == key + "=" + value;
    SplitsAtFirstEquals(key, value);
    ExampleNoSpaces();
    ExampleValueQuotes();
  }

  lemma ExampleNoSpaces()
    ensures Trim("root", IsWhitespace) == "root"
    ensures Trim("\"A=B\"", IsWhitespace) == "\"A=B\""
  {
    var key, value := "root", "\"A=B\"";
    assert key[0] == 'r' && key[3] == 't' && !IsWhitespace('r') && !IsWhitespace('t');
    assert value[0] == '"' && value[4] == '"' && !IsWhitespace('"');
  }

  lemma ExampleValueQuotes()
    ensures Trim("\"A=B\"", IsQuote) == "A=B"
  {
    var s := "\"A=B\"";
    assert KeptStart(s, IsQuote, 1) == 1 by { assert s[1] == 'A'; }
    assert KeptEnd(s, IsQuote, 1, 4) == 4 by { assert s[3] == 'B'; }
    assert s[1..4] == "A=B";
  }

  /** The effect of one line on the configuration: `root` takes the value
    * through `GUID::new_from_string` (and its panics), `resolution` takes it
    * as is, and every other key, the empty one included, changes nothing. */
  function ApplyLine(config: Config, line: string): Outcome<Config> {
    var kv := ParseKeyValuePair(line);
    if kv.0 == "root" then
      match ParseGuid(kv.1)
      case Panic => Panic
      case Done(g) => Done(config.(rootfs := g))
    else if kv.0 == "resolution" then Done(config.(resolution := kv.1))
    else Done(config)
  }

  /** The configuration after the lines in order; a panic stops everything. */
  function FoldLines(config: Config, lines: seq<string>): Outcome<Config>
    decreases |lines|
  {
    if lines == [] then Done(config)
    else match ApplyLine(config, lines[0])
      case Panic => Panic
      case Done(c) => FoldLines(c, lines[1..])
  }

  /** Folding a first line and then the rest. */
  lemma FoldCons(config: Config, line: string, rest: seq<string>)
    ensures FoldLines(config, [line] + rest) ==
      match ApplyLine(config, line)
      case Panic => Panic
      case Done(c1) => FoldLines(c1, rest)
  {
    assert ([line] + rest)[1..] == rest;
  }

  /** The value of the last line whose key is `key`. */
  function LastValue(lines: seq<string>, key: string): Option<string>
    decreases |lines|
  {
    if lines == [] then None
    else match LastValue(lines[1..], key)
      case Some(v) => Some(v)
      case None =>
        if ParseKeyValuePair(lines[0]).0 == key then Some(ParseKeyValuePair(lines[0]).1) else None
  }

  /** A `root` line whose value is not a GUID. */
  predicate BadRoot(line: string) {
    ParseKeyValuePair(line).0 == "root" && ParseGuid(ParseKeyValuePair(line).1).Panic?
  }

  /** Folding the lines panics exactly when some `root` value is not a GUID. */
  lemma {:induction false} FoldPanicsIff(config: Config, lines: seq<string>)
    ensures FoldLines(config, lines).Panic? <==> exists i :: 0 <= i < |lines| && BadRoot(lines[i])
    decreases |lines|
  {
    if lines != [] {
      var rest := lines[1..];
      PanicStep(config, lines[0]);
      if BadRoot(lines[0]) {
        assert FoldLines(config, lines).Panic?;
      } else {
        var c1 := ApplyLine(config, lines[0]).value;
        assert FoldLines(config, lines) == FoldLines(c1, rest);
        FoldPanicsIff(c1, rest);
        BadRootShift(lines);
      }
    }
  }

  /** A bad `root` line after a good first line is one of the rest. */
  lemma BadRootShift(lines: seq<string>)
    requires lines != [] && !BadRoot(lines[0])
    ensures (exists i :: 0 <= i < |lines| && BadRoot(lines[i]))
      <==> (exists i :: 0 <= i < |lines[1..]| && BadRoot(lines[1..][i]))
  {
    var rest := lines[1..];
    if exists i :: 0 <= i < |lines| && BadRoot(lines[i]) {
      var i :| 0 <= i < |lines| && BadRoot(lines[i]);
      assert rest[i - 1] == lines[i];
    }
    if exists i :: 0 <= i < |rest| && BadRoot(rest[i]) {
      var i :| 0 <= i < |rest| && BadRoot(rest[i]);
      assert lines[i + 1] == rest[i];
    }
  }

  lemma PanicStep(config: Config, line: string)
    ensures ApplyLine(config, line).Panic? <==> BadRoot(line)
  {
  }

  /** When folding succeeds, the last `resolution` line wins, and without
    * one the earlier value stays. */
  lemma {:induction false} FoldLastResolutionWins(config: Config, lines: seq<string>)
    requires FoldLines(config, lines).Done?
    ensures FoldLines(config, lines).value.resolution
      == (match LastValue(lines, "resolution") case Some(v) => v case None => config.resolution)
    decreases |lines|
  {
    if lines != [] {
      var kv := ParseKeyValuePair(lines[0]);
      var c1 := ApplyLine(config, lines[0]).value;
      assert c1.resolution == (if kv.0 == "resolution" then kv.1 else config.resolution);
      FoldLastResolutionWins(c1, lines[1..]);
    }
  }

  /** When folding succeeds, the last `root` line wins, and without one the
    * earlier value stays. */
  lemma {:induction false} FoldLastRootWins(config: Config, lines: seq<string>)
    requires FoldLines(config, lines).Done?
    ensures LastValue(lines, "root").None? ==> FoldLines(config, lines).value.rootfs == config.rootfs
    ensures LastValue(lines, "root").Some? ==>
      ParseGuid(LastValue(lines, "root").value) == Done(FoldLines(config, lines).value.rootfs)
    decreases |lines|
  {
    if lines != [] {
      var c1 := ApplyLine(config, lines[0]).value;
      RootStep(config, lines[0]);
      FoldLastRootWins(c1, lines[1..]);
    }
  }

  lemma RootStep(config: Config, line: string)
    requires ApplyLine(config, line).Done?
    ensures var kv := ParseKeyValuePair(line);
      kv.0 == "root" ==> ParseGuid(kv.1) == Done(ApplyLine(config, line).value.rootfs)
    ensures ParseKeyValuePair(line).0 != "root" ==> ApplyLine(config, line).value.rootfs == config.rootfs
  {
  }

  // ---------------------------------------------------------------
  // The whole file
  // ---------------------------------------------------------------

  function StripCr(line: string): string {
    if line != [] && line[|line| - 1] == '\r' then line[..|line| - 1] else line
  }

  /** `str::lines`: pieces between `\n`s, each ended by `\n` losing one
    * trailing `\r`; no final empty line after a trailing `\n`. */
  function Lines(text: string): (r: seq<string>)
    ensures forall i :: 0 <= i < |r| ==> '\n' !in r[i]
    decreases |text|
  {
    if text == [] then []
    else match SplitOnce(text, '\n')
      case None => [text]
      case Some(p) => [StripCr(p.0)] + Lines(p.1)
  }

  /** A line ended by `\n` and the text after it. */
  lemma LinesCons(line: string, after: string)
    requires '\n' !in line && '\r' !in line
    ensures Lines(line + ['\n'] + after) == [line] + Lines(after)
  {
    SplitOnceAt(line, '\n', after);
    assert StripCr(line) == line;
  }

  /** `parse_cfg` over the text of the file: every line, in order. */
  method ParseCfg(text: string) returns (r: Outcome<Config>)
    ensures r == FoldLines(DefaultConfig, Lines(text))
  {
    var config := DefaultConfig;
    var lines := Lines(text);
    for i := 0 to |lines|
      invariant FoldLines(DefaultConfig, lines) == FoldLines(config, lines[i..])
    {
      var line := lines[i];
      assert lines[i..][1..] == lines[i + 1..];
      var kv := ParseKeyValuePair(line);
      if kv.0 == "root" {
        var g := NewFromString(kv.1);
        if g.Panic? {
          return Panic;
        }
        config := config.(rootfs := g.value);
      } else if kv.0 == "resolution" {
        config := config.(resolution := kv.1);
      }
    }
    return Done(config);
  }

  /** Every line of the text is read, the last one too, whether or not it
    * is followed by a line break, and no line holds a line break. */
  lemma {:induction false} LinesJoin(text: string)
    requires '\r' !in text
    ensures Join(Lines(text)) == text || Join(Lines(text)) + "\n" == text
    decreases |text|
  {
    if text != [] {
      match SplitOnce(text, '\n')
      case None =>
      case Some(p) =>
        var a, b := p.0, p.1;
        NoCrInParts(text, a, b);
        assert StripCr(a) == a;
        assert Lines(text) == [a] + Lines(b);
        LinesJoin(b);
        if b == [] {
          assert Lines(text) == [a];
        } else {
          JoinCons(a, Lines(b));
          GlueStep(text, a, b, Join(Lines(b)));
        }
    }
  }

  lemma NoCrInParts(text: string, a: string, b: string)
    requires text == a + ['\n'] + b && '\r' !in text
    ensures '\r' !in a && '\r' !in b
  {
    assert forall k :: 0 <= k < |a| ==> a[k] == text[k];
    assert forall k :: 0 <= k < |b| ==> b[k] == text[|a| + 1 + k];
  }

  lemma JoinCons(head: string, rest: seq<string>)
    requires rest != []
    ensures Join([head] + rest) == head + "\n" + Join(rest)
  {
    assert ([head] + rest)[1..] == rest;
  }

  lemma GlueStep(text: string, a: string, b: string, joined: string)
    requires text == a + ['\n'] + b
    requires joined == b || joined + "\n" == b
    ensures a + "\n" + joined == text || a + "\n" + joined + "\n" == text
  {
  }

  /** The lines glued back with `\n` between them. */
  function Join(lines: seq<string>): string
    decreases |lines|
  {
    if lines == [] then []
    else if |lines| == 1 then lines[0]
    else lines[0] + "\n" + Join(lines[1..])
  }
}
