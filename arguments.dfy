/** The value-level logic of the start-up: the stream pipelines over the
    argument list (extractSingleArgument, extractBedrockServerCommands,
    getServerProperties' filters and maps), the constructor's choice of where
    the arguments come from, and the merge of property overrides into the
    template's table. The imperative side lives in module Bootstrap. */
module Arguments {
  import opened Outcomes
  import opened JavaText
  import opened Lines
  import opened Variables

  // ---------------------------------------------------------------------------
  // Single-value options: extractSingleArgument

  /** The first argument that starts with prefix decides: its text after the
      first '=' up to the next '=' (split("=")[1]); with no such argument the
      result is defaultValue. Later matching arguments are never looked at. */
  function ExtractSingleArgument(arguments: seq<string>, prefix: string, defaultValue: string)
    : (r: Result<string, Exception>)
    ensures (forall i :: 0 <= i < |arguments| ==> !StartsWith(arguments[i], prefix)) ==> r == Ok(defaultValue)
    ensures forall i :: 0 <= i < |arguments| && StartsWith(arguments[i], prefix) &&
                        (forall j :: 0 <= j < i ==> !StartsWith(arguments[j], prefix)) ==>
                        r == SplitAt(arguments[i], '=', 1)
  {
    if arguments == [] then Ok(defaultValue)
    else if StartsWith(arguments[0], prefix) then SplitAt(arguments[0], '=', 1)
    else
      assert forall i :: 1 <= i < |arguments| ==> arguments[1..][i - 1] == arguments[i];
      ExtractSingleArgument(arguments[1..], prefix, defaultValue)
  }

  /** The value taken from the first matching argument, spelled out: the text
      between its first '=' and the next '=' (or its end), and an
      ArrayIndexOutOfBoundsException when nothing but '=' follows the first
      '=' or there is no '=' at all. */
  lemma FirstMatchDecides(arguments: seq<string>, prefix: string, defaultValue: string, i: nat)
    requires i < |arguments| && StartsWith(arguments[i], prefix)
    requires forall j :: 0 <= j < i ==> !StartsWith(arguments[j], prefix)
    ensures var a := arguments[i];
            ExtractSingleArgument(arguments, prefix, defaultValue) ==
            if '=' in a && HasOtherThan(After(a, '='), '=') then Ok(Before(After(a, '='), '='))
            else Err(ArrayIndexOutOfBounds)
  {
    SplitSecond(arguments[i], '=');
  }

  // ---------------------------------------------------------------------------
  // Repeated options: extractBedrockServerCommands

  /** The arguments that start with prefix, in input order (the stream's filter). */
  function Matching(arguments: seq<string>, prefix: string): (m: seq<string>)
    ensures |m| <= |arguments|
    ensures forall k :: 0 <= k < |m| ==> StartsWith(m[k], prefix)
    ensures forall i :: 0 <= i < |arguments| && StartsWith(arguments[i], prefix) ==> arguments[i] in m
  {
    if arguments == [] then []
    else
      assert forall i :: 1 <= i < |arguments| ==> arguments[1..][i - 1] == arguments[i];
      (if StartsWith(arguments[0], prefix) then [arguments[0]] else []) + Matching(arguments[1..], prefix)
  }

  /** Filtering keeps the input order: filtering a concatenation concatenates the filtered parts. */
  lemma {:induction false} MatchingAppend(a: seq<string>, b: seq<string>, prefix: string)
    ensures Matching(a + b, prefix) == Matching(a, prefix) + Matching(b, prefix)
  {
    if a != [] {
      assert (a + b)[1..] == a[1..] + b;
      MatchingAppend(a[1..], b, prefix);
    } else {
      assert a + b == b;
    }
  }

  /** A stream's map and collect: every string through f, in order; the
      first exception f throws ends the stream and is the result. */
  function MapEach(m: seq<string>, f: string -> Result<string, Exception>): (r: Result<seq<string>, Exception>)
    ensures r.Ok? <==> forall k :: 0 <= k < |m| ==> f(m[k]).Ok?
    ensures r.Ok? ==> |r.value| == |m| && forall k :: 0 <= k < |m| ==> f(m[k]) == Ok(r.value[k])
    ensures r.Err? ==> exists k :: 0 <= k < |m| && f(m[k]) == Err(r.error) && forall j :: 0 <= j < k ==> f(m[j]).Ok?
  {
    if m == [] then Ok([])
    else
      var first := f(m[0]);
      var rest := MapEach(m[1..], f);
      assert forall k :: 1 <= k < |m| ==> m[k] == m[1..][k - 1];
      if first.Err? then
        assert f(m[0]) == Err(first.error);
        Err(first.error)
      else if rest.Err? then
        var k :| 0 <= k < |m[1..]| && f(m[1..][k]) == Err(rest.error) && forall j :: 0 <= j < k ==> f(m[1..][j]).Ok?;
        assert f(m[k + 1]) == Err(rest.error);
        Err(rest.error)
      else
        Ok([first.value] + rest.value)
  }

  /** One command per "--bedrock-commands" argument, in input order: the text
      between the argument's first '=' and the next one. */
  function ExtractBedrockServerCommands(arguments: seq<string>): Result<seq<string>, Exception> {
    MapEach(Matching(arguments, BEDROCK_SERVER_COMMANDS_PREFIX), a => SplitAt(a, '=', 1))
  }

  /** The commands are the second '='-separated fields of the matching
      arguments, one per argument and in order; when one matching argument
      has none, the first such argument's exception is the result. */
  lemma BedrockCommandsAreSecondFields(arguments: seq<string>)
    ensures var m := Matching(arguments, BEDROCK_SERVER_COMMANDS_PREFIX);
            var r := ExtractBedrockServerCommands(arguments);
            && (r.Ok? <==> forall k :: 0 <= k < |m| ==> SplitAt(m[k], '=', 1).Ok?)
            && (r.Ok? ==> |r.value| == |m| && forall k :: 0 <= k < |m| ==> SplitAt(m[k], '=', 1) == Ok(r.value[k]))
            && (r.Err? ==> r == Err(ArrayIndexOutOfBounds))
  {
  }

  // ---------------------------------------------------------------------------
  // Free-form property overrides: getServerProperties and notReservedCommand

  /** The argument is none of the three options the start-up reads itself. */
  predicate NotReservedCommand(argument: string) {
    !(StartsWith(argument, BACKUP_PATH_PREFIX)
      || StartsWith(argument, SERVER_PATH_PREFIX)
      || StartsWith(argument, BEDROCK_SERVER_COMMANDS_PREFIX))
  }

  /** The argument passes both filters of getServerProperties. */
  predicate IsPropertyArgument(argument: string) {
    NotReservedCommand(argument) && StartsWith(argument, "--")
  }

  /** What one argument contributes to the override table. */
  datatype Parsed = Skipped | Property(key: string, value: string)

  /** The maps of getServerProperties applied to the text after "--": the
      key is split("=")[0], the value the substring that starts one character
      after the key. */
  function SplitProperty(text: string): Result<Parsed, Exception> {
    var key :- SplitAt(text, '=', 0);
    if |key| + 1 > |text| then Err(StringIndexOutOfBounds)
    else Ok(Property(key, text[|key| + 1..]))
  }

  /** What one argument contributes, case by case: a non-property argument is
      skipped; a property argument without '=' after "--" throws
      StringIndexOutOfBounds, one made of '=' alone throws
      ArrayIndexOutOfBounds, and any other is cut at its first '='. */
  function ParseOverride(argument: string): Result<Parsed, Exception> {
    if !IsPropertyArgument(argument) then Ok(Skipped)
    else
      var text := argument[2..];
      if '=' !in text then Err(StringIndexOutOfBounds)
      else if !HasOtherThan(text, '=') then Err(ArrayIndexOutOfBounds)
      else
        var key := Before(text, '=');
        Ok(Property(key, text[|key| + 1..]))
  }

  /** The cases are exactly the filters and maps of getServerProperties,
      with String.split's dropping of trailing empty strings. */
  lemma ParseOverrideIsSplit(argument: string)
    ensures ParseOverride(argument) ==
            if IsPropertyArgument(argument) then SplitProperty(argument[2..]) else Ok(Skipped)
  {
    if IsPropertyArgument(argument) {
      var text := argument[2..];
      SplitFirst(text, '=');
    }
  }

  /** A property argument is "--", the key, one '=' and the value: the key
      holds no '=', the value may. */
  lemma OverrideReassembles(argument: string)
    requires ParseOverride(argument).Ok? && ParseOverride(argument).value.Property?
    ensures var p := ParseOverride(argument).value;
            argument == "--" + p.key + "=" + p.value && '=' !in p.key
  {
    var text := argument[2..];
    var p := ParseOverride(argument).value;
    assert p == Property(Before(text, '='), After(text, '='));
    assert argument[..2] == "--";
    BeforeAfter(text, '=');
    Reassemble(argument, 2, p.key, '=', p.value);
  }

  /** A property argument without '=' throws in substring: split gives the
      whole text as key, and the value would start past its end. */
  lemma MissingEqualsThrows()
    ensures ParseOverride("--difficulty") == Err(StringIndexOutOfBounds)
  {
    var a := "--difficulty";
    assert a[2] == 'd' && SERVER_PATH_PREFIX[2] == 's' && BACKUP_PATH_PREFIX[3] == 'a';
    assert forall j :: 0 <= j < |a[2..]| ==> a[2..][j] != '=';
  }

  /** A property argument of '=' alone splits into no fields at all. */
  lemma OnlyEqualsThrows()
    ensures ParseOverride("--=") == Err(ArrayIndexOutOfBounds)
  {
    var a := "--=";
    assert a[2] == '=' && BACKUP_PATH_PREFIX[2] == 'b' && SERVER_PATH_PREFIX[2] == 's';
    assert a[2..] == "=" && "="[0] == '=';
  }

  /** The converse of OverrideReassembles: "--" + key + "=" + value, when it
      is a property argument and key holds no '=', parses back into key and
      value, unless key is empty and value is '=' alone (then split has no
      field at all). */
  lemma OverrideParses(key: string, value: string)
    requires IsPropertyArgument("--" + key + "=" + value) && '=' !in key
    requires key != "" || HasOtherThan(value, '=')
    ensures ParseOverride("--" + key + "=" + value) == Ok(Property(key, value))
  {
    var argument := "--" + key + "=" + value;
    var text := argument[2..];
    assert text == key + ['='] + value;
    BeforeAfterSeparated(key, '=', value);
    OtherAroundSeparator(key, '=', value);
    assert text[|key| + 1..] == value;
  }

  /** "--level-name=a=b" is a property argument. */
  lemma LevelNameIsProperty()
    ensures IsPropertyArgument("--level-name=a=b")
  {
    var a := "--level-name=a=b";
    assert a[2] == 'l' && BACKUP_PATH_PREFIX[2] == 'b' && SERVER_PATH_PREFIX[2] == 's';
    assert a[..2] == "--";
  }

  /** The value keeps every '=' after the first one. */
  lemma ValueKeepsEquals()
    ensures ParseOverride("--level-name=a=b") == Ok(Property("level-name", "a=b"))
  {
    assert "--level-name=a=b" == "--" + "level-name" + "=" + "a=b";
    LevelNameIsProperty();
    OverrideParses("level-name", "a=b");
  }

  /** The argument sets key in the override table. */
  predicate Defines(argument: string, key: string) {
    var r := ParseOverride(argument);
    r.Ok? && r.value.Property? && r.value.key == key
  }

  /** The override table after one more argument: what the argument defines
      is put into the table; a malformed property argument throws. */
  function WithOverride(table: map<string, string>, argument: string): Result<map<string, string>, Exception> {
    var parsed :- ParseOverride(argument);
    match parsed
    case Skipped => Ok(table)
    case Property(key, value) => Ok(table[key := value])
  }

  /** Putting one argument into a table that already holds entries of its own
      is putting it into the new entries and keeping the old ones below. */
  lemma WithOverrideOnTop(base: map<string, string>, table: map<string, string>, argument: string)
    ensures WithOverride(base + table, argument) ==
            match WithOverride(table, argument)
            case Err(e) => Err(e)
            case Ok(updated) => Ok(base + updated)
  {
    var parsed := ParseOverride(argument);
    if parsed.Ok? && parsed.value.Property? {
      var key, value := parsed.value.key, parsed.value.value;
      assert (base + table)[key := value] == base + table[key := value];
    }
  }

  /** The override table getServerProperties builds, argument by argument in
      input order (a later key replaces an earlier one); the first malformed
      property argument throws. */
  function Overrides(arguments: seq<string>): Result<map<string, string>, Exception> {
    if arguments == [] then Ok(map[])
    else
      var table :- Overrides(arguments[..|arguments| - 1]);
      WithOverride(table, arguments[|arguments| - 1])
  }

  /** One step of the table: the table of all arguments is the table of all
      but the last, updated by what the last argument defines. */
  lemma OverridesLast(arguments: seq<string>)
    requires arguments != [] && Overrides(arguments).Ok?
    ensures var init := arguments[..|arguments| - 1];
            var p := ParseOverride(arguments[|arguments| - 1]);
            && Overrides(init).Ok? && p.Ok?
            && Overrides(arguments).value ==
               if p.value.Property? then Overrides(init).value[p.value.key := p.value.value]
               else Overrides(init).value
  {
  }

  /** The table of the first i + 1 arguments, from the table of the first i
      and argument i. */
  lemma OverridesStep(arguments: seq<string>, i: nat)
    requires i < |arguments|
    ensures Overrides(arguments[..i + 1]) ==
            match Overrides(arguments[..i])
            case Err(e) => Err(e)
            case Ok(table) => WithOverride(table, arguments[i])
  {
    assert arguments[..i + 1][..i] == arguments[..i];
  }

  /** Once a prefix of the arguments has thrown, the rest is never processed. */
  lemma {:induction false} OverridesFailureStops(arguments: seq<string>, n: nat)
    requires n <= |arguments| && Overrides(arguments[..n]).Err?
    ensures Overrides(arguments) == Overrides(arguments[..n])
    decreases |arguments|
  {
    if n < |arguments| {
      var init := arguments[..|arguments| - 1];
      assert init[..n] == arguments[..n];
      OverridesFailureStops(init, n);
    } else {
      assert arguments[..n] == arguments;
    }
  }

  /** Building the table throws exactly the exception of the first malformed
      property argument. */
  lemma {:induction false} OverridesFirstFailure(arguments: seq<string>, i: nat)
    requires i < |arguments| && ParseOverride(arguments[i]).Err?
    requires forall j :: 0 <= j < i ==> ParseOverride(arguments[j]).Ok?
    ensures Overrides(arguments) == Err(ParseOverride(arguments[i]).error)
  {
    var prefix := arguments[..i + 1];
    assert prefix[..i] == arguments[..i];
    OverridesSucceed(arguments[..i]);
    OverridesFailureStops(arguments, i + 1);
  }

  /** With no malformed property argument the table is built. */
  lemma {:induction false} OverridesSucceed(arguments: seq<string>)
    requires forall j :: 0 <= j < |arguments| ==> ParseOverride(arguments[j]).Ok?
    ensures Overrides(arguments).Ok?
  {
    if arguments != [] {
      var init := arguments[..|arguments| - 1];
      assert forall j :: 0 <= j < |init| ==> init[j] == arguments[j];
      OverridesSucceed(init);
    }
  }

  /** The last argument that defines a key gives that key's value. */
  lemma {:induction false} OverrideLastWins(arguments: seq<string>, i: nat, key: string, value: string)
    requires Overrides(arguments).Ok?
    requires i < |arguments| && ParseOverride(arguments[i]) == Ok(Property(key, value))
    requires forall j :: i < j < |arguments| ==> !Defines(arguments[j], key)
    ensures key in Overrides(arguments).value && Overrides(arguments).value[key] == value
  {
    var last := |arguments| - 1;
    var init := arguments[..last];
    if i < last {
      assert forall j :: i < j < |init| ==> init[j] == arguments[j];
      OverrideLastWins(init, i, key, value);
    }
  }

  /** Argument i sets key to value and no later argument sets key again. */
  predicate IsLastDefinition(arguments: seq<string>, i: int, key: string, value: string) {
    && 0 <= i < |arguments|
    && ParseOverride(arguments[i]) == Ok(Property(key, value))
    && forall j :: i < j < |arguments| ==> !Defines(arguments[j], key)
  }

  /** Every key of the table comes from an argument that defines it with that
      value, and no later argument defines the key again. */
  lemma {:induction false} OverrideKeysFromArguments(arguments: seq<string>, key: string)
    requires Overrides(arguments).Ok? && key in Overrides(arguments).value
    ensures exists i :: IsLastDefinition(arguments, i, key, Overrides(arguments).value[key])
  {
    assert arguments != [];
    var last := |arguments| - 1;
    var init := arguments[..last];
    var value := Overrides(arguments).value[key];
    OverridesLast(arguments);
    if Defines(arguments[last], key) {
      assert IsLastDefinition(arguments, last, key, value);
    } else {
      assert key in Overrides(init).value && Overrides(init).value[key] == value;
      OverrideKeysFromArguments(init, key);
      var i :| IsLastDefinition(init, i, key, value);
      assert arguments[i] == init[i];
      assert forall j :: i < j < |init| ==> !Defines(init[j], key);
      forall j | i < j < |arguments|
        ensures !Defines(arguments[j], key)
      {
        if j < last {
          assert arguments[j] == init[j];
          assert !Defines(init[j], key);
        } else {
          assert j == last;
        }
      }
      assert IsLastDefinition(arguments, i, key, value);
    }
  }

  /** An argument that is reserved or does not start with "--" never reaches
      the table, wherever it stands. */
  lemma {:induction false} NonPropertyIgnored(a: seq<string>, argument: string, b: seq<string>)
    requires !IsPropertyArgument(argument)
    ensures Overrides(a + [argument] + b) == Overrides(a + b)
    decreases |b|
  {
    if b == [] {
      assert (a + [argument] + b)[..|a|] == a;
      assert a + b == a;
    } else {
      var init := b[..|b| - 1];
      NonPropertyIgnored(a, argument, init);
      assert (a + [argument] + b)[..|a + [argument] + b| - 1] == a + [argument] + init;
      assert (a + b)[..|a + b| - 1] == a + init;
    }
  }

  // ---------------------------------------------------------------------------
  // extractArgumentsFromCommandLine

  /** Paths.get(dir, name) with '/' as the separator. */
  function Resolve(dir: string, name: string): (path: string)
    ensures |name| <= |path| && path[|path| - |name|..] == name
    ensures dir == "" ==> path == name
  {
    if dir == "" then name
    else if dir[|dir| - 1] == '/' then dir + name
    else dir + "/" + name
  }

  /** Different file names in one directory give different paths. */
  lemma ResolveDistinct(dir: string, name1: string, name2: string)
    requires name1 != name2
    ensures Resolve(dir, name1) != Resolve(dir, name2)
  {
    var base := if dir == "" then "" else if dir[|dir| - 1] == '/' then dir else dir + "/";
    assert Resolve(dir, name1) == base + name1;
    assert Resolve(dir, name2) == base + name2;
    if base + name1 == base + name2 {
      assert name1 == (base + name1)[|base|..];
    }
  }

  /** The fields extractArgumentsFromCommandLine sets. */
  datatype StartConfig = StartConfig(
    backupPath: string,
    serverPath: string,
    bedrockServerCommands: seq<string>,
    overrides: map<string, string>,
    serverPropertyPath: string,
    serverPropertyTemplatePath: string)

  /** extractArgumentsFromCommandLine as a value: each option in the order the
      source reads them, the first exception wins, and an empty backup path
      is rejected last. */
  function ParseArguments(arguments: seq<string>): (r: Result<StartConfig, Exception>)
    ensures r.Ok? ==> r.value.backupPath != ""
    ensures r.Ok? ==> r.value.serverPropertyPath != r.value.serverPropertyTemplatePath
  {
    var backupPath :- ExtractSingleArgument(arguments, BACKUP_PATH_PREFIX, BACKUP_PATH_DEFAULT_VALUE);
    var serverPath :- ExtractSingleArgument(arguments, SERVER_PATH_PREFIX, SERVER_PATH_DEFAULT_VALUE);
    var commands :- ExtractBedrockServerCommands(arguments);
    var overrides :- Overrides(arguments);
    if backupPath == "" then Err(InvalidStartArguments)
    else
      ResolveDistinct(serverPath, SERVER_PROPERTIES_NAME, SERVER_PROPERTIES_TEMPLATE_NAME);
      Ok(StartConfig(
           backupPath, serverPath, commands, overrides,
           Resolve(serverPath, SERVER_PROPERTIES_NAME),
           Resolve(serverPath, SERVER_PROPERTIES_TEMPLATE_NAME)))
  }

  /** Cutting "--backup-location==x" at its first '='. */
  lemma DoubleEqualsCut()
    ensures '=' in "--backup-location==x" && After("--backup-location==x", '=') == "=x"
  {
    assert "--backup-location==x" == BACKUP_PATH_PREFIX + ['='] + "=x";
    BeforeAfterSeparated(BACKUP_PATH_PREFIX, '=', "=x");
  }

  /** After the first '=' comes another '=' right away, then an 'x'. */
  lemma EqualsThenX()
    ensures Before("=x", '=') == "" && HasOtherThan("=x", '=')
  {
    assert "=x" == [] + ['='] + ['x'];
    BeforeAfterSeparated([], '=', ['x']);
    assert "=x"[1] != '=';
  }

  /** split("=")[1] of "--backup-location==x" is the empty text between the two '='. */
  lemma DoubleEqualsField()
    ensures SplitAt("--backup-location==x", '=', 1) == Ok("")
  {
    DoubleEqualsCut();
    EqualsThenX();
    SplitSecond("--backup-location==x", '=');
  }

  /** "--backup-location==x" is not one of the other two reserved options. */
  lemma OnlyBackupOption()
    ensures StartsWith("--backup-location==x", BACKUP_PATH_PREFIX)
    ensures !StartsWith("--backup-location==x", SERVER_PATH_PREFIX)
    ensures !StartsWith("--backup-location==x", BEDROCK_SERVER_COMMANDS_PREFIX)
    ensures !IsPropertyArgument("--backup-location==x")
  {
    var a := "--backup-location==x";
    assert a[2] == 'b';
    assert SERVER_PATH_PREFIX[2] == 's';
    assert BEDROCK_SERVER_COMMANDS_PREFIX[2] == 'b';
    assert a[3] == 'a';
    assert BEDROCK_SERVER_COMMANDS_PREFIX[3] == 'e';
    assert a[..|BACKUP_PATH_PREFIX|] == BACKUP_PATH_PREFIX;
  }

  /** The backup path read from "--backup-location==x" is empty. */
  lemma BackupValueEmpty()
    ensures ExtractSingleArgument(["--backup-location==x"], BACKUP_PATH_PREFIX, BACKUP_PATH_DEFAULT_VALUE) == Ok("")
  {
    DoubleEqualsField();
    OnlyBackupOption();
  }

  /** Without a "--server-location" argument the server path is its default. */
  lemma ServerValueDefault(arguments: seq<string>)
    requires forall i :: 0 <= i < |arguments| ==> !StartsWith(arguments[i], SERVER_PATH_PREFIX)
    ensures ExtractSingleArgument(arguments, SERVER_PATH_PREFIX, SERVER_PATH_DEFAULT_VALUE) == Ok("")
  {
  }

  /** With no argument starting with prefix the filter keeps nothing. */
  lemma {:induction false} MatchingNone(arguments: seq<string>, prefix: string)
    requires forall i :: 0 <= i < |arguments| ==> !StartsWith(arguments[i], prefix)
    ensures Matching(arguments, prefix) == []
  {
    if arguments != [] {
      var rest := arguments[1..];
      assert forall i :: 0 <= i < |rest| ==> rest[i] == arguments[i + 1];
      MatchingNone(rest, prefix);
    }
  }

  /** Without a "--bedrock-commands" argument there are no bedrock commands. */
  lemma NoBedrockCommands(arguments: seq<string>)
    requires forall i :: 0 <= i < |arguments| ==> !StartsWith(arguments[i], BEDROCK_SERVER_COMMANDS_PREFIX)
    ensures ExtractBedrockServerCommands(arguments) == Ok([])
  {
    MatchingNone(arguments, BEDROCK_SERVER_COMMANDS_PREFIX);
  }

  /** Arguments that are reserved options or lack "--" override nothing. */
  lemma {:induction false} NoOverrides(arguments: seq<string>)
    requires forall i :: 0 <= i < |arguments| ==> !IsPropertyArgument(arguments[i])
    ensures Overrides(arguments) == Ok(map[])
  {
    if arguments != [] {
      var init := arguments[..|arguments| - 1];
      assert forall i :: 0 <= i < |init| ==> init[i] == arguments[i];
      NoOverrides(init);
    }
  }

  /** "--backup-location==x" leaves an empty backup path, which the start-up
      rejects. */
  lemma EmptyBackupPathRejected()
    ensures ParseArguments(["--backup-location==x"]) == Err(InvalidStartArguments)
  {
    var arguments := ["--backup-location==x"];
    BackupValueEmpty();
    OnlyBackupOption();
    assert arguments[0] == "--backup-location==x";
    ServerValueDefault(arguments);
    NoBedrockCommands(arguments);
    NoOverrides(arguments);
  }

  // ---------------------------------------------------------------------------
  // The constructor's choice of argument source

  /** The argument list the constructor works from: the command line when
      it is not empty, else the lines of the saved-arguments file, else none. */
  function ArgumentSource(arguments: seq<string>, savedConfig: Option<string>): Option<seq<string>> {
    if |arguments| != 0 then Some(arguments)
    else if savedConfig.Some? then Some(ReadLines(savedConfig.value))
    else None
  }

  /** The constructor's start-up as a value, given the content of the
      saved-arguments file (if there is one): the parsed configuration and
      the saved-arguments file afterwards.
      - arguments given: they are parsed, and saved only if parsing succeeded
        (a parse exception escapes before the file is written);
      - none given but a saved file: its lines are parsed and the file is gone;
      - neither: the start-up is refused. */
  function Startup(arguments: seq<string>, savedConfig: Option<string>)
    : (Result<StartConfig, Exception>, Option<string>)
  {
    match ArgumentSource(arguments, savedConfig)
    case None => (Err(InvalidStartArguments), savedConfig)
    case Some(source) =>
      var parsed := ParseArguments(source);
      if |arguments| == 0 then (parsed, None)
      else (parsed, if parsed.Ok? then Some(Terminated(arguments)) else savedConfig)
  }

  /** A start with arguments saves them so that the next start without
      arguments runs with the same configuration, and consumes the file. */
  lemma SavedArgumentsRestored(arguments: seq<string>, savedConfig: Option<string>)
    requires |arguments| != 0 && ParseArguments(arguments).Ok?
    requires forall i :: 0 <= i < |arguments| ==> NoLineBreak(arguments[i])
    ensures Startup([], Startup(arguments, savedConfig).1) == (ParseArguments(arguments), None)
  {
    ReadLinesOfTerminated(arguments);
  }

  /** Saved arguments serve one start only: a second start without arguments
      right after a first one is refused. */
  lemma SavedArgumentsUsedOnce(savedConfig: Option<string>)
    ensures Startup([], Startup([], savedConfig).1).0 == Err(InvalidStartArguments)
  {
  }

  // ---------------------------------------------------------------------------
  // Merging the overrides into the template: overwriteValidServerProperties

  /** The overrides whose key the template has. */
  function Applied(properties: map<string, string>, overrides: map<string, string>): map<string, string> {
    map k | k in overrides && k in properties :: overrides[k]
  }

  /** The overrides whose key the template lacks: reported, never applied. */
  function Rejected(properties: map<string, string>, overrides: map<string, string>): map<string, string> {
    map k | k in overrides && k !in properties :: overrides[k]
  }

  /** The template's table with the applicable overrides written over it. */
  function Merged(properties: map<string, string>, overrides: map<string, string>): map<string, string> {
    properties + Applied(properties, overrides)
  }

  /** The merge keeps the template's key set, takes the override's value for
      every key both have, and keeps the template's value elsewhere. */
  lemma MergeMeaning(properties: map<string, string>, overrides: map<string, string>)
    ensures Merged(properties, overrides).Keys == properties.Keys
    ensures forall k :: k in properties ==>
              Merged(properties, overrides)[k] == if k in overrides then overrides[k] else properties[k]
  {
  }

  /** Applied and rejected overrides split the overrides between them: disjoint
      keys, and together exactly the overrides. */
  lemma MergePartition(properties: map<string, string>, overrides: map<string, string>)
    ensures Applied(properties, overrides).Keys !! Rejected(properties, overrides).Keys
    ensures Applied(properties, overrides) + Rejected(properties, overrides) == overrides
  {
    var both := Applied(properties, overrides) + Rejected(properties, overrides);
    assert both.Keys == overrides.Keys;
  }

  /** A single override: a known key replaces exactly that key's value; an
      unknown key is rejected and leaves the properties untouched. */
  lemma MergeSingle(properties: map<string, string>, key: string, value: string)
    ensures Merged(properties, map[key := value]) == if key in properties then properties[key := value] else properties
    ensures Rejected(properties, map[key := value]) == if key in properties then map[] else map[key := value]
  {
    if key in properties {
      assert Merged(properties, map[key := value]) == properties[key := value];
    } else {
      assert Applied(properties, map[key := value]) == map[];
      assert Merged(properties, map[key := value]) == properties;
    }
  }

  /** Applying overrides in two batches is applying them all at once: the
      order in which the table is walked does not matter. */
  lemma MergeInBatches(properties: map<string, string>, first: map<string, string>, second: map<string, string>)
    requires first.Keys !! second.Keys
    ensures Merged(Merged(properties, first), second) == Merged(properties, first + second)
  {
    var once := Merged(properties, first);
    MergeMeaning(properties, first);
    MergeMeaning(once, second);
    MergeMeaning(properties, first + second);
  }

  /** The overrides rejected batch by batch are those rejected at once. */
  lemma RejectedInBatches(properties: map<string, string>, first: map<string, string>, second: map<string, string>)
    requires first.Keys !! second.Keys
    ensures Rejected(properties, first) + Rejected(Merged(properties, first), second) ==
            Rejected(properties, first + second)
  {
    MergeMeaning(properties, first);
    var batches := Rejected(properties, first) + Rejected(Merged(properties, first), second);
    assert batches.Keys == Rejected(properties, first + second).Keys;
  }
}
