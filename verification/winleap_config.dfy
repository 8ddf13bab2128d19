/**
 * winleap's configuration: the boolean and selector-key value parsers and
 * read_config_file, which reads `number=class`, `instance_keys=` and
 * `debug=` lines into a Config. The file is the sequence of its lines
 * (without their newline), or None when it cannot be opened.
 */
module WinleapConfig {
  import opened Common
  import opened CString
  import opened Registry
  import opened MarkTable

  const MaxInstanceKeys: nat := 128
  const DefaultInstanceKeys: string := "qwertyuiopasdfghjklzxcvbnm1234567890"

  // ---------------------------------------------------------------------
  // parse_bool

  /** parse_bool: Some(b) is the value stored in *out; None is a refusal,
      which leaves *out untouched. */
  function ParseBool(value: string): (r: Option<bool>)
    ensures r == Some(true) <==>
      EqualsIgnoreCase(value, "true") || EqualsIgnoreCase(value, "yes") || value == "1"
    ensures r == Some(false) <==>
      EqualsIgnoreCase(value, "false") || EqualsIgnoreCase(value, "no") || value == "0"
  {
    if EqualsIgnoreCase(value, "true") || EqualsIgnoreCase(value, "yes") || value == "1" then Some(true)
    else if EqualsIgnoreCase(value, "false") || EqualsIgnoreCase(value, "no") || value == "0" then Some(false)
    else None
  }

  /** Only the letters' case is ignored: lower-casing the value first
      never changes the answer. */
  lemma ParseBoolIgnoresCase(value: string)
    ensures ParseBool(Lower(value)) == ParseBool(value)
  {
    LowerIdempotent(value);
    if Lower(value) == "1" || Lower(value) == "0" {
      assert |value| == 1 && Lower(value)[0] == ToLower(value[0]);
    }
  }

  // ---------------------------------------------------------------------
  // parse_instance_keys

  /** The characters parse_instance_keys keeps: printable and not white space. */
  predicate Selectable(c: char)
  {
    !IsSpace(c) && IsPrint(c)
  }

  /** The kept characters of raw, lower-cased, in input order. */
  function SelectorChars(raw: string): (r: string)
    ensures |r| <= |raw|
    ensures forall k :: 0 <= k < |r| ==> Selectable(r[k]) && !IsUpper(r[k])
  {
    if |raw| == 0 then []
    else
      var last := if Selectable(raw[|raw| - 1]) then [ToLower(raw[|raw| - 1])] else [];
      SelectorChars(raw[..|raw| - 1]) + last
  }

  lemma {:induction false} SelectorCharsConcat(a: string, b: string)
    ensures SelectorChars(a + b) == SelectorChars(a) + SelectorChars(b)
    decreases |b|
  {
    if |b| > 0 {
      var b' := b[..|b| - 1];
      assert (a + b)[..|a + b| - 1] == a + b';
      SelectorCharsConcat(a, b');
    } else {
      assert a + b == a;
    }
  }

  predicate Distinct(s: string)
  {
    forall i, j :: 0 <= i < j < |s| ==> s[i] != s[j]
  }

  /** What parse_instance_keys accepts: the kept characters, provided they
      are non-empty, pairwise distinct after lower-casing and fit in
      out_size - 1 places. */
  function InstanceKeysSpec(raw: string, outSize: nat): Option<string>
  {
    var keys := SelectorChars(raw);
    if outSize < 2 || |keys| == 0 || !Distinct(keys) || |keys| > outSize - 1 then None
    else Some(keys)
  }

  /**
   * parse_instance_keys: scan raw once, dropping white space and
   * non-printable characters, lower-casing the rest into `out` and marking
   * each in `seen`; fail on a repeated key, on running out of room, and on
   * an empty result.
   */
  method ParseInstanceKeys(raw: string, outSize: nat) returns (r: Option<string>)
    ensures r == InstanceKeysSpec(raw, outSize)
  {
    if outSize < 2 {
      return None;
    }
    var seen := new bool[256](_ => false);
    var out := new char[outSize];
    var j := 0;
    var i := 0;
    ghost var kept: string := [];
    while i < |raw|
      invariant 0 <= i <= |raw|
      invariant j == |kept| <= outSize - 1
      invariant kept == SelectorChars(raw[..i]) && Distinct(kept)
      invariant out[..j] == kept
      invariant forall k :: 0 <= k < 256 ==> (seen[k] <==> k as char in kept)
    {
      var ch := raw[i];
      KeptStep(raw, i);
      if IsSpace(ch) || !IsPrint(ch) {
        i := i + 1;
        continue;
      }
      var normalized := ToLower(ch);
      var key := normalized as int;
      if seen[key] {
        RepeatRefused(raw, i + 1, kept + [normalized]);
        return None;
      }
      if j >= outSize - 1 {
        KeptPrefix(raw, i + 1);
        return None;
      }
      seen[key] := true;
      out[j] := normalized;
      kept := kept + [normalized];
      j := j + 1;
      i := i + 1;
    }
    assert raw[..i] == raw;
    if j == 0 {
      return None;
    }
    r := Some(out[..j]);
  }

  lemma KeptStep(raw: string, i: nat)
    requires i < |raw|
    ensures SelectorChars(raw[..i + 1]) ==
      SelectorChars(raw[..i]) + (if Selectable(raw[i]) then [ToLower(raw[i])] else [])
  {
    assert raw[..i + 1][..i] == raw[..i];
  }

  /** A repeat among the keys kept from a prefix is a repeat in the whole. */
  lemma RepeatRefused(raw: string, n: nat, prefix: string)
    requires n <= |raw| && prefix == SelectorChars(raw[..n])
    requires |prefix| > 0 && prefix[|prefix| - 1] in prefix[..|prefix| - 1]
    ensures !Distinct(SelectorChars(raw))
  {
    KeptPrefix(raw, n);
    var keys := SelectorChars(raw);
    var p :| 0 <= p < |prefix| - 1 && prefix[p] == prefix[|prefix| - 1];
    assert keys[p] == prefix[p] && keys[|prefix| - 1] == prefix[|prefix| - 1];
  }

  /** The keys kept from a prefix of raw start the keys kept from raw. */
  lemma KeptPrefix(raw: string, n: nat)
    requires n <= |raw|
    ensures |SelectorChars(raw[..n])| <= |SelectorChars(raw)|
    ensures SelectorChars(raw)[..|SelectorChars(raw[..n])|] == SelectorChars(raw[..n])
  {
    assert raw == raw[..n] + raw[n..];
    SelectorCharsConcat(raw[..n], raw[n..]);
  }

  /** On success the selector keys are non-empty, shorter than out_size,
      lower-case, printable, free of white space and of repeats, and they
      are the kept characters in input order; failure happens exactly on
      a repeat, an empty result or a result that is too long. */
  lemma InstanceKeysProperties(raw: string, outSize: nat)
    ensures var r := InstanceKeysSpec(raw, outSize);
      r.None? <==> (outSize < 2 || |SelectorChars(raw)| == 0 ||
                   !Distinct(SelectorChars(raw)) || |SelectorChars(raw)| >= outSize)
    ensures var r := InstanceKeysSpec(raw, outSize);
      r.Some? ==>
        0 < |r.value| < outSize && HasNoUpper(r.value) && Distinct(r.value) &&
        (forall k :: 0 <= k < |r.value| ==> Selectable(r.value[k])) &&
        r.value == SelectorChars(raw)
  {
  }

  /** White space is dropped and letters are lower-cased. */
  lemma SpacedKeysLowered()
    ensures InstanceKeysSpec("x Y", MaxInstanceKeys) == Some("xy")
  {
    assert "x"[..0] == "" && SelectorChars("x") == "x";
    assert "x "[..1] == "x" && SelectorChars("x ") == "x";
    assert "x Y"[..2] == "x " && SelectorChars("x Y") == "xy";
    assert Distinct("xy");
  }

  /** A key repeated in another case is refused. */
  lemma CaseRepeatRefused()
    ensures InstanceKeysSpec("aA", MaxInstanceKeys) == None
  {
    assert "a"[..0] == "" && SelectorChars("a") == "a";
    assert "aA"[..1] == "a" && SelectorChars("aA") == "aa";
    assert "aa"[0] == "aa"[1];
  }

  /** A value of blanks only is refused. */
  lemma BlankKeysRefused()
    ensures InstanceKeysSpec("  ", MaxInstanceKeys) == None
  {
    assert " "[..0] == "" && SelectorChars(" ") == "";
    assert "  "[..1] == " " && SelectorChars("  ") == "";
  }

  // ---------------------------------------------------------------------
  // read_config_file

  /** The loaded configuration: marks in file order, the selector keys and
      the debug switch. */
  datatype Config = Config(marks: seq<Mark>, instanceKeys: string, debug: bool)

  /** What read_config_file sets before reading the first line. */
  function DefaultConfig(): Config
  {
    Config([], DefaultInstanceKeys, false)
  }

  /** The mark number of a strict `number=` key: strtol must consume the
      whole key, read at least one digit, and give 1..INT_MAX. */
  function StrictMarkNumber(key: string): (r: Option<int>)
    ensures r.Some? ==> 1 <= r.value <= IntMax
  {
    var c := Strtol(key);
    if c.end == 0 || c.end != |key| || c.value <= 0 || c.value > IntMax then None
    else Some(c.value)
  }

  /** A key with no leading white space is a strict mark number exactly when
      it is an optional '+' followed by nothing but digits, at least one,
      whose value lies in 1..INT_MAX; that value is the number. */
  lemma StrictMarkNumberShape(key: string)
    requires |key| > 0 && !IsSpace(key[0])
    ensures var sign := SignLength(key);
      var ds := key[sign..];
      StrictMarkNumber(key).Some? <==>
        (0 < |ds| && AllDigits(ds) && (sign == 0 || key[0] == '+') &&
         1 <= DigitsValue(ds) <= IntMax)
    ensures var ds := key[SignLength(key)..];
      StrictMarkNumber(key).Some? ==> AllDigits(ds) && StrictMarkNumber(key).value == DigitsValue(ds)
  {
    var sign := SignLength(key);
    var ds := key[sign..];
    assert LeadingSpaceCount(key) == 0;
    assert key[0..] == key;
    var nd := LeadingDigitCount(ds);
    assert key[sign..sign + nd] == ds[..nd];
    if AllDigits(ds) {
      assert nd == |ds|;
      assert ds[..nd] == ds;
    }
  }

  /** Every number "%d" writes for a valid mark is read back as that mark. */
  lemma StrictMarkNumberDecimal(n: nat)
    requires 1 <= n <= IntMax
    ensures StrictMarkNumber(Decimal(n)) == Some(n)
  {
    StrtolDecimal(n);
  }

  /** What one line means once trimmed and split at its first '='. */
  datatype ConfigLine =
    | Skipped
    | InstanceKeysSetting(value: string)
    | DebugSetting(value: string)
    | MarkEntry(mark: Mark)

  /** The per-line logic of read_config_file: blank lines, '#' comments,
      lines without '=' and empty keys are skipped; the keys instance_keys
      and debug are recognised in any case; anything else must be a strict
      mark number with a non-empty value. Key and value are trimmed. */
  function ClassifyLine(line: string): ConfigLine
  {
    var p := Trim(line);
    if |p| == 0 || p[0] == '#' then Skipped
    else match IndexOfChar(p, '=')
      case None => Skipped
      case Some(eq) => ClassifyPair(Trim(p[..eq]), Trim(p[eq + 1..]))
  }

  /** What a trimmed key and value mean. */
  function ClassifyPair(key: string, value: string): ConfigLine
  {
    if |key| == 0 then Skipped
    else if EqualsIgnoreCase(key, "instance_keys") then InstanceKeysSetting(value)
    else if EqualsIgnoreCase(key, "debug") then DebugSetting(value)
    else match StrictMarkNumber(key)
      case None => Skipped
      case Some(n) => if |value| == 0 then Skipped else MarkEntry(Mark(n, value))
  }

  /** A mark line's record: a number in 1..INT_MAX and a non-empty class
      with no white space at either end. */
  lemma MarkEntryShape(line: string)
    requires ClassifyLine(line).MarkEntry?
    ensures var m := ClassifyLine(line).mark;
      1 <= m.number <= IntMax && |m.wmClass| > 0 && Trim(m.wmClass) == m.wmClass
  {
    var p := Trim(line);
    var eq := IndexOfChar(p, '=').value;
    var key, value := Trim(p[..eq]), Trim(p[eq + 1..]);
    assert ClassifyLine(line) == ClassifyPair(key, value);
    PairMarkShape(key, value);
    TrimIdempotent(p[eq + 1..]);
  }

  lemma PairMarkShape(key: string, value: string)
    requires ClassifyPair(key, value).MarkEntry?
    ensures StrictMarkNumber(key).Some?
    ensures ClassifyPair(key, value).mark == Mark(StrictMarkNumber(key).value, value) && |value| > 0
  {
  }

  /**
   * The per-line steps of read_config_file: trim the line, find the first
   * '=', trim key and value in place, and decide what the line is.
   */
  method ParseConfigLine(line: string) returns (c: ConfigLine)
    ensures c == ClassifyLine(line)
  {
    var lo, hi := TrimSpan(line);
    var p := line[lo..hi];
    assert p == Trim(line);
    if |p| == 0 || p[0] == '#' {
      return Skipped;
    }
    var eq := IndexOfChar(p, '=');
    if eq.None? {
      return Skipped;
    }
    var klo, khi := TrimSpan(p[..eq.value]);
    var key := p[..eq.value][klo..khi];
    var vlo, vhi := TrimSpan(p[eq.value + 1..]);
    var value := p[eq.value + 1..][vlo..vhi];
    assert ClassifyLine(line) == ClassifyPair(key, value);
    if |key| == 0 {
      return Skipped;
    }
    if EqualsIgnoreCase(key, "instance_keys") {
      return InstanceKeysSetting(value);
    }
    if EqualsIgnoreCase(key, "debug") {
      return DebugSetting(value);
    }
    var num := StrictMarkNumber(key);
    if num.None? || |value| == 0 {
      return Skipped;
    }
    c := MarkEntry(Mark(num.value, value));
  }

  /** Every line of the file, classified. */
  function Classified(lines: seq<string>): (kinds: seq<ConfigLine>)
    ensures |kinds| == |lines|
  {
    if |lines| == 0 then [] else [ClassifyLine(lines[0])] + Classified(lines[1..])
  }

  /** Line i of the file is classified on its own. */
  lemma {:induction false} ClassifiedAt(lines: seq<string>, i: nat)
    requires i < |lines|
    ensures Classified(lines)[i] == ClassifyLine(lines[i])
  {
    if i > 0 {
      ClassifiedAt(lines[1..], i - 1);
    }
  }

  /** A setting whose value read_config_file refuses, failing the whole load. */
  predicate Refused(kind: ConfigLine)
  {
    match kind
    case InstanceKeysSetting(v) => InstanceKeysSpec(v, MaxInstanceKeys).None?
    case DebugSetting(v) => ParseBool(v).None?
    case _ => false
  }

  /** The mark a line stores, if any. */
  function MarkOf(kind: ConfigLine): seq<Mark>
  {
    if kind.MarkEntry? then [kind.mark] else []
  }

  /** The effect of one line on the configuration being loaded; None fails
      the load. Only a mark line changes the marks, and it appends one. */
  function ApplyLine(cfg: Config, kind: ConfigLine): (r: Option<Config>)
    ensures r.None? <==> Refused(kind)
    ensures r.Some? ==> r.value.marks == cfg.marks + MarkOf(kind)
  {
    match kind
    case Skipped => Some(cfg)
    case InstanceKeysSetting(v) =>
      (match InstanceKeysSpec(v, MaxInstanceKeys)
       case None => None
       case Some(keys) => Some(cfg.(instanceKeys := keys)))
    case DebugSetting(v) =>
      (match ParseBool(v)
       case None => None
       case Some(b) => Some(cfg.(debug := b)))
    case MarkEntry(m) => Some(cfg.(marks := cfg.marks + [m]))
  }

  /** The loop of read_config_file from `cfg` on: it goes on reading lines
      only while fewer than MAX_MARKS marks are stored. */
  function LoadFrom(kinds: seq<ConfigLine>, cfg: Config): Option<Config>
    decreases |kinds|
  {
    if |kinds| == 0 || |cfg.marks| >= MaxMarks then Some(cfg)
    else match ApplyLine(cfg, kinds[0])
      case None => None
      case Some(next) => LoadFrom(kinds[1..], next)
  }

  /** One line of the loop: apply it, then go on from the result. */
  lemma LoadFromStep(kinds: seq<ConfigLine>, i: nat, cfg: Config)
    requires i < |kinds| && |cfg.marks| < MaxMarks
    ensures LoadFrom(kinds[i..], cfg) ==
      if ApplyLine(cfg, kinds[i]).None? then None
      else LoadFrom(kinds[i + 1..], ApplyLine(cfg, kinds[i]).value)
  {
    assert kinds[i..][0] == kinds[i] && kinds[i..][1..] == kinds[i + 1..];
  }

  /** read_config_file: None when the file cannot be opened, when a setting
      is refused, or when no mark was stored. */
  function LoadConfig(file: Option<seq<string>>): Option<Config>
  {
    if file.None? then None
    else match LoadFrom(Classified(file.value), DefaultConfig())
      case None => None
      case Some(cfg) => if |cfg.marks| > 0 then Some(cfg) else None
  }

  /**
   * read_config_file: start from the defaults and, line by line while
   * fewer than MAX_MARKS marks are stored, apply each setting (failing the
   * load on a refused value) or store each mark.
   */
  method ReadConfigFile(file: Option<seq<string>>) returns (r: Option<Config>)
    ensures r == LoadConfig(file)
  {
    if file.None? {
      return None;
    }
    var lines := file.value;
    ghost var kinds := Classified(lines);
    var config := DefaultConfig();
    var i := 0;
    while i < |lines| && |config.marks| < MaxMarks
      invariant 0 <= i <= |lines|
      invariant LoadFrom(kinds, DefaultConfig()) == LoadFrom(kinds[i..], config)
    {
      LoadFromStep(kinds, i, config);
      var next := ReadConfigLine(lines, i, config);
      if next.None? {
        return None;
      }
      config := next.value;
      i := i + 1;
    }
    if i == |lines| {
      assert kinds[i..] == [];
    }
    if |config.marks| > 0 {
      r := Some(config);
    } else {
      r := None;
    }
  }

  /** The loop body of read_config_file for line i. */
  method ReadConfigLine(lines: seq<string>, i: nat, config: Config) returns (next: Option<Config>)
    requires i < |lines|
    ensures next == ApplyLine(config, Classified(lines)[i])
  {
    var kind := ParseConfigLine(lines[i]);
    ClassifiedAt(lines, i);
    next := ApplyConfigLine(config, kind);
  }

  /** One line's effect: set the selector keys or the debug switch (a
      refused value fails the load) or store the mark. */
  method ApplyConfigLine(config: Config, kind: ConfigLine) returns (r: Option<Config>)
    ensures r == ApplyLine(config, kind)
  {
    match kind {
      case Skipped =>
        r := Some(config);
      case InstanceKeysSetting(value) =>
        var keys := ParseInstanceKeys(value, MaxInstanceKeys);
        if keys.None? {
          return None;
        }
        r := Some(config.(instanceKeys := keys.value));
      case DebugSetting(value) =>
        var parsed := ParseBool(value);
        if parsed.None? {
          return None;
        }
        r := Some(config.(debug := parsed.value));
      case MarkEntry(m) =>
        r := Some(config.(marks := config.marks + [m]));
    }
  }

  /** The marks the mark lines would give, in file order, with no cap. */
  function MarkEntries(kinds: seq<ConfigLine>): seq<Mark>
  {
    if |kinds| == 0 then [] else MarkOf(kinds[0]) + MarkEntries(kinds[1..])
  }

  /** A successful load stores the first MAX_MARKS mark lines' records,
      in file order, after the marks already held. */
  lemma {:induction false} LoadFromMarks(kinds: seq<ConfigLine>, cfg: Config)
    requires |cfg.marks| <= MaxMarks
    requires LoadFrom(kinds, cfg).Some?
    ensures LoadFrom(kinds, cfg).value.marks ==
      cfg.marks + Take(MarkEntries(kinds), MaxMarks - |cfg.marks|)
    decreases |kinds|
  {
    var room := MaxMarks - |cfg.marks|;
    if |kinds| == 0 || room == 0 {
      assert Take(MarkEntries(kinds), room) == [];
    } else {
      var next := ApplyLine(cfg, kinds[0]).value;
      LoadFromMarks(kinds[1..], next);
      var first, rest := MarkOf(kinds[0]), MarkEntries(kinds[1..]);
      assert MarkEntries(kinds) == first + rest;
      assert Take(first + rest, room) == first + Take(rest, room - |first|);
    }
  }

  /** A load fails exactly when some refused setting comes before MAX_MARKS
      marks have been stored: lines after the cap are never looked at. */
  lemma {:induction false} LoadFromFails(kinds: seq<ConfigLine>, cfg: Config)
    requires |cfg.marks| <= MaxMarks
    ensures LoadFrom(kinds, cfg).None? <==>
      exists j :: 0 <= j < |kinds| && Refused(kinds[j]) &&
        |cfg.marks| + |MarkEntries(kinds[..j])| < MaxMarks
    decreases |kinds|
  {
    if |kinds| == 0 {
    } else if |cfg.marks| >= MaxMarks {
    } else if Refused(kinds[0]) {
      assert kinds[..0] == [];
    } else {
      var next := ApplyLine(cfg, kinds[0]).value;
      var rest := kinds[1..];
      var first := MarkOf(kinds[0]);
      LoadFromFails(rest, next);
      forall j | 0 < j <= |kinds|
        ensures MarkEntries(kinds[..j]) == first + MarkEntries(rest[..j - 1])
      {
        assert kinds[..j][0] == kinds[0];
        assert kinds[..j][1..] == rest[..j - 1];
      }
      if LoadFrom(kinds, cfg).None? {
        var j' :| 0 <= j' < |rest| && Refused(rest[j']) &&
          |next.marks| + |MarkEntries(rest[..j'])| < MaxMarks;
        assert kinds[j' + 1] == rest[j'];
      } else {
        forall j | 0 <= j < |kinds| && Refused(kinds[j])
          ensures |cfg.marks| + |MarkEntries(kinds[..j])| >= MaxMarks
        {
          assert rest[j - 1] == kinds[j];
        }
      }
    }
  }

  /** Once MAX_MARKS marks are stored nothing after is read: appending
      lines, even refused settings, does not change the result. */
  lemma {:induction false} LoadStopsAtCap(kinds: seq<ConfigLine>, more: seq<ConfigLine>, cfg: Config)
    requires LoadFrom(kinds, cfg).Some?
    requires |LoadFrom(kinds, cfg).value.marks| >= MaxMarks
    ensures LoadFrom(kinds + more, cfg) == LoadFrom(kinds, cfg)
    decreases |kinds|
  {
    if |kinds| > 0 && |cfg.marks| < MaxMarks {
      assert (kinds + more)[0] == kinds[0];
      assert (kinds + more)[1..] == kinds[1..] + more;
      LoadStopsAtCap(kinds[1..], more, ApplyLine(cfg, kinds[0]).value);
    }
  }

  lemma {:induction false} MarkEntriesValid(lines: seq<string>)
    ensures forall k :: 0 <= k < |MarkEntries(Classified(lines))| ==>
      var m := MarkEntries(Classified(lines))[k];
      1 <= m.number <= IntMax && |m.wmClass| > 0 && Trim(m.wmClass) == m.wmClass
  {
    if |lines| > 0 {
      MarkEntriesValid(lines[1..]);
      if ClassifyLine(lines[0]).MarkEntry? {
        MarkEntryShape(lines[0]);
      }
    }
  }

  /** A successful read_config_file holds between one and MAX_MARKS marks,
      exactly the first mark lines of the file, each with a number in
      1..INT_MAX and a non-empty trimmed class. */
  lemma LoadedConfig(lines: seq<string>)
    requires LoadConfig(Some(lines)).Some?
    ensures var c := LoadConfig(Some(lines)).value;
      1 <= |c.marks| <= MaxMarks &&
      c.marks == Take(MarkEntries(Classified(lines)), MaxMarks) &&
      forall k :: 0 <= k < |c.marks| ==>
        1 <= c.marks[k].number <= IntMax && |c.marks[k].wmClass| > 0 &&
        Trim(c.marks[k].wmClass) == c.marks[k].wmClass
  {
    LoadFromMarks(Classified(lines), DefaultConfig());
    MarkEntriesValid(lines);
  }

  /** Selector keys as select_instance_interactively relies on them. */
  predicate KeysValid(keys: string)
  {
    0 < |keys| < MaxInstanceKeys && HasNoUpper(keys) && Distinct(keys)
  }

  /** The loop never leaves the selector keys invalid: an accepted
      instance_keys value is valid, and so are the defaults. */
  lemma {:induction false} LoadKeepsKeysValid(kinds: seq<ConfigLine>, cfg: Config)
    requires KeysValid(cfg.instanceKeys)
    requires LoadFrom(kinds, cfg).Some?
    ensures KeysValid(LoadFrom(kinds, cfg).value.instanceKeys)
    decreases |kinds|
  {
    if |kinds| > 0 && |cfg.marks| < MaxMarks {
      var next := ApplyLine(cfg, kinds[0]).value;
      if kinds[0].InstanceKeysSetting? {
        InstanceKeysProperties(kinds[0].value, MaxInstanceKeys);
      }
      LoadKeepsKeysValid(kinds[1..], next);
    }
  }

  lemma DefaultKeysValid()
    ensures KeysValid(DefaultInstanceKeys)
  {
    DefaultKeysDistinct();
    assert HasNoUpper(DefaultInstanceKeys);
  }

  lemma DefaultKeysDistinct()
    ensures Distinct(DefaultInstanceKeys)
  {
    var letters, digits := "qwertyuiopasdfghjklzxcvbnm", "1234567890";
    assert DefaultInstanceKeys == letters + digits;
    LettersDistinct();
    assert forall j :: 0 <= j < |digits| ==> IsDigit(digits[j]);
    assert forall i :: 0 <= i < |letters| ==> !IsDigit(letters[i]);
    DistinctConcat(letters, digits);
  }

  /** The letter rows of the default keys hold no repeat. */
  lemma LettersDistinct()
    ensures Distinct("qwertyuiopasdfghjklzxcvbnm")
  {
    var top, home, bottom := "qwertyuiop", "asdfghjkl", "zxcvbnm";
    assert top + home + bottom == "qwertyuiopasdfghjklzxcvbnm";
    DistinctConcat(top, home);
    DistinctConcat(top + home, bottom);
  }

  /** Two key strings with no repeat and no key in common join without a
      repeat. */
  lemma DistinctConcat(x: string, y: string)
    requires Distinct(x) && Distinct(y)
    requires forall i, j :: 0 <= i < |x| && 0 <= j < |y| ==> x[i] != y[j]
    ensures Distinct(x + y)
  {
  }

  /** Whatever file was loaded, its selector keys are valid. */
  lemma LoadedKeysValid(lines: seq<string>)
    requires LoadConfig(Some(lines)).Some?
    ensures KeysValid(LoadConfig(Some(lines)).value.instanceKeys)
  {
    DefaultKeysValid();
    var kinds := Classified(lines);
    assert LoadFrom(kinds, DefaultConfig()).Some?;
    LoadKeepsKeysValid(kinds, DefaultConfig());
  }

  /** Leading digits are not enough for a strict mark key: "3x=foo" is
      skipped. */
  lemma TrailingJunkKeySkipped()
    ensures ClassifyLine("3x=foo") == Skipped
  {
    var line := "3x=foo";
    TrimUnspaced(line);
    assert IndexOfChar(line, '=') == Some(2);
    assert line[..2] == "3x";
    TrimUnspaced("3x");
    JunkKeyRefused();
    assert ClassifyLine(line) == ClassifyPair("3x", Trim(line[3..]));
    assert Lower("3x") != Lower("instance_keys") && Lower("3x") != Lower("debug");
  }

  /** strtol stops at the 'x' of "3x", so the key is not a mark number. */
  lemma JunkKeyRefused()
    ensures StrictMarkNumber("3x").None?
  {
    var key := "3x";
    assert LeadingSpaceCount(key) == 0;
    assert key[0..] == key;
    assert LeadingDigitCount(key) == 1;
    assert Strtol(key).end == 1;
  }

  /** A string that starts and ends with a non-space is its own trim. */
  lemma TrimUnspaced(s: string)
    requires |s| > 0 && !IsSpace(s[0]) && !IsSpace(s[|s| - 1])
    ensures Trim(s) == s
  {
    assert LeadingSpaceCount(s) == 0;
    assert s[0..] == s;
    assert TrailingSpaceCount(s) == 0;
  }
}
