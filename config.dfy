/**
 * The configuration loader (`read_config`) and the reading of the five
 * settings the driver needs out of the resulting dictionary.
 */
module Config {
  import opened Wrappers
  import opened Text
  import opened Numerals

  /** The two ways the tuple unpacking `key, value = ...` fails. */
  datatype ConfigError =
    | NotEnoughValues  // the line has no '=' (a blank line included)
    | TooManyValues    // the line has two or more '='

  /** One line of the file: strip it, split it on '=', require exactly two
      pieces, and strip each piece. */
  function ParseLine(line: string): (r: Result<(string, string), ConfigError>)
    ensures r.Success? <==> Occurrences(Strip(line), '=') == 1
    ensures r == Failure(NotEnoughValues) <==> '=' !in Strip(line)
    ensures r.Success? ==> IsTrimmed(r.value.0) && IsTrimmed(r.value.1)
    ensures r.Success? ==> '=' !in r.value.0 && '=' !in r.value.1
  {
    var parts := Split(Strip(line), '=');
    assert '=' !in Strip(line) <==> Occurrences(Strip(line), '=') == 0;
    if |parts| < 2 then Failure(NotEnoughValues)
    else if |parts| > 2 then Failure(TooManyValues)
    else
      StripAddsNothing(parts[0], '=');
      StripAddsNothing(parts[1], '=');
      Success((Strip(parts[0]), Strip(parts[1])))
  }

  /** A line `key=value` written from a trimmed key and value that contain
      no '=' reads back as that very entry. */
  lemma {:induction false} ParseLineRoundTrip(key: string, value: string)
    requires IsTrimmed(key) && IsTrimmed(value)
    requires '=' !in key && '=' !in value
    ensures ParseLine(key + "=" + value) == Success((key, value))
  {
    var line := key + "=" + value;
    assert line == key + ['='] + value;
    assert IsTrimmed(line) by {
      assert line[0] == if key == [] then '=' else key[0];
      assert line[|line| - 1] == if value == [] then '=' else value[|value| - 1];
    }
    StripTrimmed(line);
    SplitJoined(key, value, '=');
    StripTrimmed(key);
    StripTrimmed(value);
  }

  /** Whatever white space surrounds the line and its `=`, as in
      `key = value`: a stripped line made of two `=`-free pieces joined by
      one `=` parses to those two pieces, each stripped. */
  lemma {:induction false} ParseLineMeaning(line: string, before: string, after: string)
    requires Strip(line) == before + "=" + after
    requires '=' !in before && '=' !in after
    ensures ParseLine(line) == Success((Strip(before), Strip(after)))
  {
    assert before + "=" + after == before + ['='] + after;
    SplitJoined(before, after, '=');
  }

  /** Every line that parses does so at its one `=`: the key is the stripped
      text before it and the value the stripped text after it. */
  lemma {:induction false} ParseLineAt(line: string)
    requires ParseLine(line).Success?
    ensures '=' in Strip(line)
    ensures ParseLine(line).value ==
            (Strip(Strip(line)[..FirstIndex(Strip(line), '=')]),
             Strip(Strip(line)[FirstIndex(Strip(line), '=') + 1..]))
  {
    var s := Strip(line);
    var i := FirstIndex(s, '=');
    OccurrencesFrom(s, '=', i);
    assert s == s[..i] + "=" + s[i + 1..];
    ParseLineMeaning(line, s[..i], s[i + 1..]);
  }

  /** A parsed line: the stored key and value, or the unpacking error. */
  type Parsed = Result<(string, string), ConfigError>

  /** Every line of the file, parsed on its own. */
  function ParseLines(lines: seq<string>): (rs: seq<Parsed>)
    ensures |rs| == |lines|
    ensures forall i :: 0 <= i < |lines| ==> rs[i] == ParseLine(lines[i])
  {
    if lines == [] then [] else ParseLines(lines[..|lines| - 1]) + [ParseLine(lines[|lines| - 1])]
  }

  lemma {:induction false} ParseLinesSnoc(lines: seq<string>, line: string)
    ensures ParseLines(lines + [line]) == ParseLines(lines) + [ParseLine(line)]
  {
    assert (lines + [line])[..|lines|] == lines;
  }

  /** The loop of `read_config` from a partly filled dictionary `config`:
      each parsed line in order stores its entry, overwriting an earlier one
      with the same key; the first bad line aborts the whole load. */
  function Fill(config: map<string, string>, rs: seq<Parsed>): (r: Result<map<string, string>, ConfigError>)
    ensures r.Success? ==> config.Keys <= r.value.Keys
    decreases |rs|
  {
    if rs == [] then Success(config)
    else
      match rs[0]
      case Failure(e) => Failure(e)
      case Success(entry) => Fill(config[entry.0 := entry.1], rs[1..])
  }

  /** What `read_config` returns for a file with these lines. */
  function LoadConfig(lines: seq<string>): Result<map<string, string>, ConfigError> {
    Fill(map[], ParseLines(lines))
  }

  /** `read_config`: fills a dictionary line by line. */
  method ReadConfig(lines: seq<string>) returns (r: Result<map<string, string>, ConfigError>)
    ensures r == LoadConfig(lines)
  {
    var config: map<string, string> := map[];
    ghost var rs := ParseLines(lines);
    for i := 0 to |lines|
      invariant Fill(config, rs[i..]) == LoadConfig(lines)
    {
      assert rs[i..][0] == ParseLine(lines[i]);
      assert rs[i..][1..] == rs[i + 1..];
      var parsed := ParseLine(lines[i]);
      if parsed.Failure? {
        return Failure(parsed.error);
      }
      var (key, value) := parsed.value;
      config := config[key := value];
    }
    assert rs[|lines|..] == [];
    return Success(config);
  }

  /** The keys of the well-formed entries among `rs`. */
  function KeysOf(rs: seq<Parsed>): set<string> {
    set i | 0 <= i < |rs| && rs[i].Success? :: rs[i].value.0
  }

  /** Storing fails exactly when some line failed to parse, and it reports
      the error of the first such line. */
  lemma {:induction false} FillFails(config: map<string, string>, rs: seq<Parsed>)
    ensures Fill(config, rs).Failure? <==> exists i :: 0 <= i < |rs| && rs[i].Failure?
    ensures Fill(config, rs).Failure? ==>
            exists i :: 0 <= i < |rs| && rs[i] == Failure(Fill(config, rs).error) &&
                        forall j :: 0 <= j < i ==> rs[j].Success?
    decreases |rs|
  {
    if rs != [] && rs[0].Success? {
      var rest := rs[1..];
      var entry := rs[0].value;
      FillFails(config[entry.0 := entry.1], rest);
      if Fill(config, rs).Failure? {
        var e := Fill(config, rs).error;
        var i :| 0 <= i < |rest| && rest[i] == Failure(e) && forall j :: 0 <= j < i ==> rest[j].Success?;
        assert rs[i + 1] == Failure(e);
        assert forall j :: 0 <= j < i + 1 ==> rs[j].Success? by {
          forall j | 0 <= j < i + 1 ensures rs[j].Success? {
            if j > 0 { assert rs[j] == rest[j - 1]; }
          }
        }
      }
      if exists i :: 0 <= i < |rs| && rs[i].Failure? {
        var i :| 0 <= i < |rs| && rs[i].Failure?;
        assert i > 0 && rest[i - 1].Failure?;
      }
    }
  }

  /** The file loads exactly when every line holds exactly one '=' once
      stripped; a blank line, a line with no '=' and a line with two or more
      all abort the load, with the error of the first bad line. */
  lemma {:induction false} LoadConfigFails(lines: seq<string>)
    ensures LoadConfig(lines).Success? <==>
            forall i :: 0 <= i < |lines| ==> Occurrences(Strip(lines[i]), '=') == 1
    ensures LoadConfig(lines).Failure? ==>
            exists i :: 0 <= i < |lines| && ParseLine(lines[i]) == Failure(LoadConfig(lines).error) &&
                        forall j :: 0 <= j < i ==> ParseLine(lines[j]).Success?
  {
    FillFails(map[], ParseLines(lines));
  }

  /** The keys of a non-empty list of entries: the first entry's key, if
      it has one, and the keys of the rest. */
  lemma {:induction false} KeysOfCons(rs: seq<Parsed>)
    requires rs != []
    ensures KeysOf(rs) == (if rs[0].Success? then {rs[0].value.0} else {}) + KeysOf(rs[1..])
  {
    var rest := rs[1..];
    forall k | k in KeysOf(rs) ensures k in (if rs[0].Success? then {rs[0].value.0} else {}) + KeysOf(rest) {
      var i :| 0 <= i < |rs| && rs[i].Success? && rs[i].value.0 == k;
      if i > 0 { assert rs[i] == rest[i - 1]; }
    }
    forall k | k in KeysOf(rest) ensures k in KeysOf(rs) {
      var i :| 0 <= i < |rest| && rest[i].Success? && rest[i].value.0 == k;
      assert rs[i + 1] == rest[i];
    }
  }

  /** A stored dictionary holds exactly the keys it started with plus the
      keys of the entries. */
  lemma {:induction false} FillKeys(config: map<string, string>, rs: seq<Parsed>)
    requires Fill(config, rs).Success?
    ensures Fill(config, rs).value.Keys == config.Keys + KeysOf(rs)
    decreases |rs|
  {
    if rs != [] {
      var entry := rs[0].value;
      FillKeys(config[entry.0 := entry.1], rs[1..]);
      KeysOfCons(rs);
    }
  }

  /** Storing stripped entries into a dictionary of stripped keys and values
      keeps every key and value stripped. */
  lemma {:induction false} FillTrimmed(config: map<string, string>, rs: seq<Parsed>)
    requires Fill(config, rs).Success?
    requires forall k :: k in config ==> IsTrimmed(k) && IsTrimmed(config[k])
    requires forall i :: 0 <= i < |rs| && rs[i].Success? ==> IsTrimmed(rs[i].value.0) && IsTrimmed(rs[i].value.1)
    ensures forall k :: k in Fill(config, rs).value ==> IsTrimmed(k) && IsTrimmed(Fill(config, rs).value[k])
    decreases |rs|
  {
    if rs != [] {
      var entry := rs[0].value;
      assert IsTrimmed(entry.0) && IsTrimmed(entry.1);
      assert forall i :: 0 <= i < |rs[1..]| ==> rs[1..][i] == rs[i + 1];
      FillTrimmed(config[entry.0 := entry.1], rs[1..]);
    }
  }

  /** The key set of the configuration is exactly the set of stripped keys of
      its lines, and every stored key and value is stripped. */
  lemma {:induction false} LoadConfigKeys(lines: seq<string>)
    requires LoadConfig(lines).Success?
    ensures LoadConfig(lines).value.Keys ==
            set i | 0 <= i < |lines| && ParseLine(lines[i]).Success? :: ParseLine(lines[i]).value.0
    ensures forall k :: k in LoadConfig(lines).value ==>
                          IsTrimmed(k) && IsTrimmed(LoadConfig(lines).value[k])
  {
    var rs := ParseLines(lines);
    var keys := set i | 0 <= i < |lines| && ParseLine(lines[i]).Success? :: ParseLine(lines[i]).value.0;
    forall k | k in keys ensures k in KeysOf(rs) {
      var i :| 0 <= i < |lines| && ParseLine(lines[i]).Success? && ParseLine(lines[i]).value.0 == k;
      assert rs[i] == ParseLine(lines[i]);
    }
    forall k | k in KeysOf(rs) ensures k in keys {
      var i :| 0 <= i < |rs| && rs[i].Success? && rs[i].value.0 == k;
      assert rs[i] == ParseLine(lines[i]);
    }
    forall i | 0 <= i < |rs| && rs[i].Success?
      ensures IsTrimmed(rs[i].value.0) && IsTrimmed(rs[i].value.1)
    {
      assert rs[i] == ParseLine(lines[i]);
    }
    FillKeys(map[], rs);
    FillTrimmed(map[], rs);
  }

  /** One more line either aborts the load or sets that line's key to its
      value and leaves every other entry as it was. */
  lemma {:induction false} FillSnoc(config: map<string, string>, rs: seq<Parsed>, r: Parsed)
    ensures Fill(config, rs + [r]) ==
            match Fill(config, rs)
            case Failure(e) => Failure(e)
            case Success(m) =>
              match r
              case Failure(e) => Failure(e)
              case Success(entry) => Success(m[entry.0 := entry.1])
    decreases |rs|
  {
    if rs == [] {
      assert (rs + [r])[1..] == [];
    } else {
      assert (rs + [r])[0] == rs[0];
      assert (rs + [r])[1..] == rs[1..] + [r];
      match rs[0]
      case Failure(e) =>
      case Success(entry) =>
        FillSnoc(config[entry.0 := entry.1], rs[1..], r);
    }
  }

  /** Appending a line to the configuration file: the load fails if that line
      is malformed, and otherwise that line's key takes its value while every
      other entry keeps its value. */
  lemma {:induction false} LoadConfigSnoc(lines: seq<string>, line: string)
    requires LoadConfig(lines).Success?
    ensures LoadConfig(lines + [line]) ==
            match ParseLine(line)
            case Failure(e) => Failure(e)
            case Success(entry) => Success(LoadConfig(lines).value[entry.0 := entry.1])
  {
    var rs := ParseLines(lines);
    var r := ParseLine(line);
    ParseLinesSnoc(lines, line);
    FillSnoc(map[], rs, r);
  }

  /** A key no entry mentions keeps the value it had before. */
  lemma {:induction false} FillUntouched(config: map<string, string>, rs: seq<Parsed>, key: string)
    requires Fill(config, rs).Success?
    requires key in config
    requires forall j :: 0 <= j < |rs| && rs[j].Success? ==> rs[j].value.0 != key
    ensures key in Fill(config, rs).value && Fill(config, rs).value[key] == config[key]
    decreases |rs|
  {
    if rs != [] {
      var entry := rs[0].value;
      assert forall j :: 0 <= j < |rs[1..]| ==> rs[1..][j] == rs[j + 1];
      FillUntouched(config[entry.0 := entry.1], rs[1..], key);
    }
  }

  /** The value from the last entry with a given key wins. */
  lemma {:induction false} FillLastWins(config: map<string, string>, rs: seq<Parsed>, i: nat)
    requires Fill(config, rs).Success?
    requires i < |rs| && rs[i].Success?
    requires forall j :: i < j < |rs| && rs[j].Success? ==> rs[j].value.0 != rs[i].value.0
    ensures rs[i].value.0 in Fill(config, rs).value
    ensures Fill(config, rs).value[rs[i].value.0] == rs[i].value.1
    decreases |rs|
  {
    var entry := rs[0].value;
    var rest := rs[1..];
    assert forall j :: 0 <= j < |rest| ==> rest[j] == rs[j + 1];
    if i == 0 {
      FillUntouched(config[entry.0 := entry.1], rest, entry.0);
    } else {
      FillLastWins(config[entry.0 := entry.1], rest, i - 1);
    }
  }

  /** For the whole file: a key's value is the one on the last line that
      names that key. */
  lemma {:induction false} LoadConfigLastWins(lines: seq<string>, i: nat)
    requires LoadConfig(lines).Success?
    requires i < |lines| && ParseLine(lines[i]).Success?
    requires forall j :: i < j < |lines| && ParseLine(lines[j]).Success? ==>
                           ParseLine(lines[j]).value.0 != ParseLine(lines[i]).value.0
    ensures ParseLine(lines[i]).value.0 in LoadConfig(lines).value
    ensures LoadConfig(lines).value[ParseLine(lines[i]).value.0] == ParseLine(lines[i]).value.1
  {
    var rs := ParseLines(lines);
    assert rs[i] == ParseLine(lines[i]);
    forall j | i < j < |rs| && rs[j].Success?
      ensures rs[j].value.0 != rs[i].value.0
    {
      assert rs[j] == ParseLine(lines[j]);
    }
    FillLastWins(map[], rs, i);
  }

  /** The settings `main` reads from the dictionary. */
  datatype Settings = Settings(
    batchSize: int,
    serverAddress: string,
    tableNumber: string,
    startingPage: int,
    authToken: string)

  /** Why `main` cannot start: a missing key (KeyError) or a number that does
      not read as a decimal (ValueError). */
  datatype SettingsError = MissingKey(key: string) | NotAnInteger(text: string)

  const BatchSizeKey := "batch size"
  const ServerAddressKey := "server address"
  const TableNumberKey := "table number"
  const StartingPageKey := "starting page number"
  const AuthTokenKey := "auth token"

  /** The five lookups of `main`, in its order; the first that fails stops
      the program. */
  function ReadSettings(config: map<string, string>): (r: Result<Settings, SettingsError>)
    ensures r.Success? <==>
            BatchSizeKey in config && ServerAddressKey in config && TableNumberKey in config &&
            StartingPageKey in config && AuthTokenKey in config &&
            ParseDecimal(config[BatchSizeKey]).Some? && ParseDecimal(config[StartingPageKey]).Some?
    ensures r.Success? ==>
            ParseDecimal(config[BatchSizeKey]) == Some(r.value.batchSize) &&
            ParseDecimal(config[StartingPageKey]) == Some(r.value.startingPage) &&
            r.value.serverAddress == config[ServerAddressKey] &&
            r.value.tableNumber == config[TableNumberKey] &&
            r.value.authToken == config[AuthTokenKey]
    ensures r.Failure? && r.error.MissingKey? ==> r.error.key !in config
    ensures r.Failure? && r.error.NotAnInteger? ==> ParseDecimal(r.error.text).None?
    // The first lookup that fails, in `main`'s order, is the one reported.
    ensures BatchSizeKey !in config ==> r == Failure(MissingKey(BatchSizeKey))
    ensures BatchSizeKey in config && ParseDecimal(config[BatchSizeKey]).None? ==>
              r == Failure(NotAnInteger(config[BatchSizeKey]))
    ensures BatchSizeKey in config && ParseDecimal(config[BatchSizeKey]).Some? &&
            ServerAddressKey !in config ==>
              r == Failure(MissingKey(ServerAddressKey))
    ensures BatchSizeKey in config && ParseDecimal(config[BatchSizeKey]).Some? &&
            ServerAddressKey in config && TableNumberKey !in config ==>
              r == Failure(MissingKey(TableNumberKey))
    ensures BatchSizeKey in config && ParseDecimal(config[BatchSizeKey]).Some? &&
            ServerAddressKey in config && TableNumberKey in config && StartingPageKey !in config ==>
              r == Failure(MissingKey(StartingPageKey))
    ensures BatchSizeKey in config && ParseDecimal(config[BatchSizeKey]).Some? &&
            ServerAddressKey in config && TableNumberKey in config && StartingPageKey in config &&
            ParseDecimal(config[StartingPageKey]).None? ==>
              r == Failure(NotAnInteger(config[StartingPageKey]))
    ensures BatchSizeKey in config && ParseDecimal(config[BatchSizeKey]).Some? &&
            ServerAddressKey in config && TableNumberKey in config && StartingPageKey in config &&
            ParseDecimal(config[StartingPageKey]).Some? && AuthTokenKey !in config ==>
              r == Failure(MissingKey(AuthTokenKey))
  {
    if BatchSizeKey !in config then Failure(MissingKey(BatchSizeKey))
    else if ParseDecimal(config[BatchSizeKey]).None? then Failure(NotAnInteger(config[BatchSizeKey]))
    else if ServerAddressKey !in config then Failure(MissingKey(ServerAddressKey))
    else if TableNumberKey !in config then Failure(MissingKey(TableNumberKey))
    else if StartingPageKey !in config then Failure(MissingKey(StartingPageKey))
    else if ParseDecimal(config[StartingPageKey]).None? then Failure(NotAnInteger(config[StartingPageKey]))
    else if AuthTokenKey !in config then Failure(MissingKey(AuthTokenKey))
    else Success(Settings(
      ParseDecimal(config[BatchSizeKey]).value,
      config[ServerAddressKey],
      config[TableNumberKey],
      ParseDecimal(config[StartingPageKey]).value,
      config[AuthTokenKey]))
  }
}
