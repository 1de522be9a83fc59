/** The Bootstrapper object: the fields its constructor fills in step by step,
    the saved-arguments file it writes or consumes, and the property files it
    prepares before the server is booted. */
module Bootstrap {
  import opened Outcomes
  import opened Lines
  import opened Variables
  import opened Arguments

  /** The files the start-up touches, by path. Text files hold their text;
      property files are held as their key/value table, since the
      java.util.Properties file format is not part of this model. */
  class FileSystem {
    var texts: map<string, string>
    var propertyFiles: map<string, map<string, string>>

    constructor(texts: map<string, string>, propertyFiles: map<string, map<string, string>>)
      ensures this.texts == texts && this.propertyFiles == propertyFiles
    {
      this.texts := texts;
      this.propertyFiles := propertyFiles;
    }
  }

  /** The path of the saved-arguments file in directory dir. */
  function ConfigPath(dir: string): string {
    Resolve(dir, CONFIG_FILENAME)
  }

  /** The content of the saved-arguments file in directory dir, if it exists. */
  function SavedConfig(texts: map<string, string>, dir: string): Option<string> {
    if ConfigPath(dir) in texts then Some(texts[ConfigPath(dir)]) else None
  }

  /** The table processServerProperties loads: the template, which is first
      copied from server.properties when it is missing; None when neither
      file exists. */
  function TemplateSource(files: map<string, map<string, string>>, propertyPath: string, templatePath: string)
    : Option<map<string, string>>
  {
    if templatePath in files then Some(files[templatePath])
    else if propertyPath in files then Some(files[propertyPath])
    else None
  }

  class Bootstrapper {
    const mcPalLocationDir: string
    var backupPath: string
    var serverPath: string
    var serverProperties: map<string, string>
    var overriddenServerProperties: map<string, string>
    var serverPropertyPath: string
    var serverPropertyTemplatePath: string
    var bedrockServerCommands: seq<string>

    /** The start configuration the fields hold. */
    function Config(): StartConfig
      reads this`backupPath, this`serverPath, this`bedrockServerCommands,
            this`overriddenServerProperties, this`serverPropertyPath, this`serverPropertyTemplatePath
    {
      StartConfig(backupPath, serverPath, bedrockServerCommands, overriddenServerProperties,
                  serverPropertyPath, serverPropertyTemplatePath)
    }

    /** The field initialisers: both property tables start empty. */
    constructor Init(mcPalLocationDir: string)
      ensures this.mcPalLocationDir == mcPalLocationDir
      ensures serverProperties == map[] && overriddenServerProperties == map[]
    {
      this.mcPalLocationDir := mcPalLocationDir;
      backupPath, serverPath := "", "";
      serverProperties, overriddenServerProperties := map[], map[];
      serverPropertyPath, serverPropertyTemplatePath := "", "";
      bedrockServerCommands := [];
    }

    /** The constructor Bootstrapper(String... args), with the jar's directory
        given instead of looked up. Arguments on the command line are used and
        saved; without them the saved arguments are read and their file
        deleted; with neither the start-up is refused. The property files are
        then prepared. */
    static method Create(mcPalLocationDir: string, args: seq<string>, fs: FileSystem)
      returns (r: Result<Bootstrapper, Exception>)
      modifies fs
      ensures SavedConfig(fs.texts, mcPalLocationDir) == Startup(args, SavedConfig(old(fs.texts), mcPalLocationDir)).1
      ensures fs.texts - {ConfigPath(mcPalLocationDir)} == old(fs.texts) - {ConfigPath(mcPalLocationDir)}
      ensures var parsed := Startup(args, SavedConfig(old(fs.texts), mcPalLocationDir)).0;
              parsed.Err? ==> r == Err(parsed.error) && fs.propertyFiles == old(fs.propertyFiles)
      ensures var parsed := Startup(args, SavedConfig(old(fs.texts), mcPalLocationDir)).0;
              parsed.Ok? ==>
                var c := parsed.value;
                match TemplateSource(old(fs.propertyFiles), c.serverPropertyPath, c.serverPropertyTemplatePath)
                case None =>
                  r == Err(SystemExit(1)) && fs.propertyFiles == old(fs.propertyFiles)
                case Some(template) =>
                  && r.Ok? && fresh(r.value)
                  && r.value.mcPalLocationDir == mcPalLocationDir
                  && r.value.Config() == c
                  && r.value.serverProperties == Merged(template, c.overrides)
                  && fs.propertyFiles ==
                     old(fs.propertyFiles)[c.serverPropertyTemplatePath := template]
                                          [c.serverPropertyPath := Merged(template, c.overrides)]
    {
      var b := new Bootstrapper.Init(mcPalLocationDir);
      var outcome := b.TakeArguments(args, fs);
      if outcome.Pass? {
        ghost var c := b.Config();
        assert c == Startup(args, SavedConfig(old(fs.texts), mcPalLocationDir)).0.value;
        outcome := b.ProcessServerProperties(fs);
        ghost var template := TemplateSource(old(fs.propertyFiles), b.serverPropertyPath, b.serverPropertyTemplatePath);
        assert template.Some? ==> map[] + template.value == template.value;
      }
      r := if outcome.Pass? then Ok(b) else Err(outcome.error);
    }

    /** The constructor's first half: the arguments come from the command
        line, which are then saved, or else from the saved-arguments file,
        which is then deleted; with neither the start-up is refused. */
    method TakeArguments(args: seq<string>, fs: FileSystem) returns (r: Outcome<Exception>)
      modifies this`backupPath, this`serverPath, this`bedrockServerCommands,
               this`overriddenServerProperties, this`serverPropertyPath, this`serverPropertyTemplatePath,
               fs`texts
      ensures SavedConfig(fs.texts, mcPalLocationDir) == Startup(args, SavedConfig(old(fs.texts), mcPalLocationDir)).1
      ensures fs.texts - {ConfigPath(mcPalLocationDir)} == old(fs.texts) - {ConfigPath(mcPalLocationDir)}
      ensures var parsed := Startup(args, SavedConfig(old(fs.texts), mcPalLocationDir)).0;
              && (parsed.Err? ==> r == Fail(parsed.error))
              && (parsed.Ok? ==>
                    r == Pass &&
                    Config() == parsed.value.(overrides := old(overriddenServerProperties) + parsed.value.overrides))
    {
      var configPath := ConfigPath(mcPalLocationDir);
      if |args| != 0 {
        r := ExtractArgumentsFromCommandLine(args);
        if r.Fail? {
          return;
        }
        WriteConfigFile(mcPalLocationDir, args, fs);
      } else if configPath in fs.texts {
        var arguments := ReadLines(fs.texts[configPath]);
        fs.texts := fs.texts - {configPath};
        r := ExtractArgumentsFromCommandLine(arguments);
      } else {
        r := Fail(InvalidStartArguments);
      }
    }

    /** extractArgumentsFromCommandLine: the fields are set in the source's
        order and the first exception stops it; an empty backup path is
        rejected after everything else has been read. */
    method ExtractArgumentsFromCommandLine(arguments: seq<string>) returns (r: Outcome<Exception>)
      modifies this`backupPath, this`serverPath, this`bedrockServerCommands,
               this`overriddenServerProperties, this`serverPropertyPath, this`serverPropertyTemplatePath
      ensures var parsed := ParseArguments(arguments);
              && (parsed.Err? ==> r == Fail(parsed.error))
              && (parsed.Ok? ==>
                    && r == Pass
                    && backupPath == parsed.value.backupPath
                    && serverPath == parsed.value.serverPath
                    && bedrockServerCommands == parsed.value.bedrockServerCommands
                    && overriddenServerProperties == old(overriddenServerProperties) + parsed.value.overrides
                    && serverPropertyPath == parsed.value.serverPropertyPath
                    && serverPropertyTemplatePath == parsed.value.serverPropertyTemplatePath)
    {
      var backup := ExtractSingleArgument(arguments, BACKUP_PATH_PREFIX, BACKUP_PATH_DEFAULT_VALUE);
      if backup.Err? {
        return Fail(backup.error);
      }
      backupPath := backup.value;
      var server := ExtractSingleArgument(arguments, SERVER_PATH_PREFIX, SERVER_PATH_DEFAULT_VALUE);
      if server.Err? {
        return Fail(server.error);
      }
      serverPath := server.value;
      var commands := ExtractBedrockServerCommands(arguments);
      if commands.Err? {
        return Fail(commands.error);
      }
      bedrockServerCommands := commands.value;
      r := GetServerProperties(arguments);
      if r.Fail? {
        return;
      }
      serverPropertyPath := Resolve(serverPath, SERVER_PROPERTIES_NAME);
      serverPropertyTemplatePath := Resolve(serverPath, SERVER_PROPERTIES_TEMPLATE_NAME);
      if backupPath == "" {
        return Fail(InvalidStartArguments);
      }
    }

    /** getServerProperties: the arguments are taken one at a time, in
        order, and each property argument is put into the override table; the
        first malformed one throws, after the earlier ones have been put. */
    method GetServerProperties(arguments: seq<string>) returns (r: Outcome<Exception>)
      modifies this`overriddenServerProperties
      ensures Overrides(arguments).Err? ==> r == Fail(Overrides(arguments).error)
      ensures Overrides(arguments).Ok? ==>
                r == Pass && overriddenServerProperties == old(overriddenServerProperties) + Overrides(arguments).value
    {
      for i := 0 to |arguments|
        invariant Overrides(arguments[..i]).Ok?
        invariant overriddenServerProperties == old(overriddenServerProperties) + Overrides(arguments[..i]).value
      {
        OverridesStep(arguments, i);
        WithOverrideOnTop(old(overriddenServerProperties), Overrides(arguments[..i]).value, arguments[i]);
        r := PutOverride(arguments[i]);
        if r.Fail? {
          OverridesFailureStops(arguments, i + 1);
          return;
        }
      }
      assert arguments[..|arguments|] == arguments;
      r := Pass;
    }

    /** The step getServerProperties takes for one argument. */
    method PutOverride(argument: string) returns (r: Outcome<Exception>)
      modifies this`overriddenServerProperties
      ensures match WithOverride(old(overriddenServerProperties), argument)
              case Err(e) => r == Fail(e) && overriddenServerProperties == old(overriddenServerProperties)
              case Ok(table) => r == Pass && overriddenServerProperties == table
    {
      var parsed := ParseOverride(argument);
      if parsed.Err? {
        return Fail(parsed.error);
      }
      if parsed.value.Property? {
        overriddenServerProperties := overriddenServerProperties[parsed.value.key := parsed.value.value];
      }
      r := Pass;
    }

    /** overwriteValidServerProperties: each override whose key the loaded
        table has replaces that key's value; the others are collected as
        invalid and reported. */
    method OverwriteValidServerProperties() returns (invalidProperties: map<string, string>)
      modifies this`serverProperties
      ensures serverProperties == Merged(old(serverProperties), overriddenServerProperties)
      ensures invalidProperties == Rejected(old(serverProperties), overriddenServerProperties)
    {
      invalidProperties := map[];
      var pending := overriddenServerProperties.Keys;
      ghost var done: set<string> := {};
      while pending != {}
        invariant pending !! done && pending + done == overriddenServerProperties.Keys
        invariant serverProperties.Keys == old(serverProperties).Keys
        invariant forall k :: k in serverProperties ==>
                    serverProperties[k] == if k in done then overriddenServerProperties[k] else old(serverProperties)[k]
        invariant invalidProperties.Keys == done - old(serverProperties).Keys
        invariant forall k :: k in invalidProperties ==> invalidProperties[k] == overriddenServerProperties[k]
        decreases pending
      {
        var key :| key in pending;
        var value := overriddenServerProperties[key];
        if key in serverProperties {
          serverProperties := serverProperties[key := value];
        } else {
          invalidProperties := invalidProperties[key := value];
        }
        done := done + {key};
        pending := pending - {key};
      }
      MergeMeaning(old(serverProperties), overriddenServerProperties);
    }

    /** processServerProperties: make sure a template exists, load it,
        apply the overrides, and write the result as server.properties. */
    method ProcessServerProperties(fs: FileSystem) returns (r: Outcome<Exception>)
      requires serverPropertyPath != serverPropertyTemplatePath
      modifies this`serverProperties, fs`propertyFiles
      ensures match TemplateSource(old(fs.propertyFiles), serverPropertyPath, serverPropertyTemplatePath)
              case None =>
                && r == Fail(SystemExit(1))
                && fs.propertyFiles == old(fs.propertyFiles)
                && serverProperties == old(serverProperties)
              case Some(template) =>
                && r == Pass
                && serverProperties == Merged(old(serverProperties) + template, overriddenServerProperties)
                && fs.propertyFiles == old(fs.propertyFiles)[serverPropertyTemplatePath := template]
                                                            [serverPropertyPath := serverProperties]
    {
      r := PrepareTemplate(fs);
      if r.Fail? {
        return;
      }
      ghost var prepared := fs.propertyFiles;
      fs.propertyFiles := fs.propertyFiles - {serverPropertyPath};
      serverProperties := serverProperties + fs.propertyFiles[serverPropertyTemplatePath];
      var invalidProperties := OverwriteValidServerProperties();
      fs.propertyFiles := fs.propertyFiles[serverPropertyPath := serverProperties];
      assert fs.propertyFiles == prepared[serverPropertyPath := serverProperties];
    }

    /** The first step of processServerProperties: a missing template is
        copied from server.properties; with neither file the program exits
        with status 1. */
    method PrepareTemplate(fs: FileSystem) returns (r: Outcome<Exception>)
      requires serverPropertyPath != serverPropertyTemplatePath
      modifies fs`propertyFiles
      ensures match TemplateSource(old(fs.propertyFiles), serverPropertyPath, serverPropertyTemplatePath)
              case None => r == Fail(SystemExit(1)) && fs.propertyFiles == old(fs.propertyFiles)
              case Some(template) =>
                r == Pass && fs.propertyFiles == old(fs.propertyFiles)[serverPropertyTemplatePath := template]
    {
      if serverPropertyTemplatePath !in fs.propertyFiles {
        if serverPropertyPath in fs.propertyFiles {
          fs.propertyFiles := fs.propertyFiles[serverPropertyTemplatePath := fs.propertyFiles[serverPropertyPath]];
        } else {
          return Fail(SystemExit(1));
        }
      } else {
        assert fs.propertyFiles == fs.propertyFiles[serverPropertyTemplatePath := fs.propertyFiles[serverPropertyTemplatePath]];
      }
      r := Pass;
    }

    /** writeConfigFile: the arguments, each followed by a line terminator,
        replace the saved-arguments file. */
    static method WriteConfigFile(fromPath: string, args: seq<string>, fs: FileSystem)
      modifies fs`texts
      ensures fs.texts == old(fs.texts)[ConfigPath(fromPath) := Terminated(args)]
    {
      var configContent := Terminated(args);
      fs.texts := fs.texts[ConfigPath(fromPath) := configContent];
    }
  }
}
