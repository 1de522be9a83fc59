# MCpal for Bedrock: start-up and console, modelled in Dafny

MCpal wraps a Minecraft Bedrock dedicated server. On start-up the
`Bootstrapper` reads its options from the command line, or, when it is
started without any, from the arguments it saved on the previous start
(`MCpal.cfg` next to the jar). The options are:

- `--backup-location=…` and `--server-location=…`, where the first matching argument wins;
- any number of `--bedrock-commands=…`;
- free-form `--key=value` pairs that override entries of `server.properties`.

The start-up then makes sure a `server.properties.template` exists. It
loads the template, writes over it the overrides whose key the template
knows, and stores the result as `server.properties`. While the server runs,
`MinecraftConsole` does two jobs. It echoes every line the server prints
and clears the shared running flag when a line contains
`Stopping the server`. It also writes commands to the server's input, one
per line.

The project is split into these files:

- `outcomes.dfy`: the exceptions the modelled code can raise, and the `Result`/`Option`/`Outcome` wrappers.
- `variables.dfy`: the constants of `model.Variables` that the start-up uses.
- `java_text.dfy`: `String.startsWith`, `String.contains`, and `String.split` with a one-character pattern. It follows Java exactly: the fields between separators, trailing empty fields removed, and `[s]` when the separator does not occur.
- `lines.dfy`: text written as `"%s%n"` per line, and how `readAllLines`/`readLine` cut text back into lines.
- `arguments.dfy`: the value-level logic, namely:
  - the stream pipelines over the argument list;
  - the choice of argument source;
  - the merge of overrides into the template table.
- `bootstrap.dfy`: the `Bootstrapper` object as a class whose methods fill in its fields step by step, over an abstract file system. Each method is proved against a specification function: argument parsing and merging against those of `arguments.dfy`, the template step against `TemplateSource` in `bootstrap.dfy`, and the saved-arguments file against `Lines.Terminated`.
- `console.dfy`: `MinecraftConsole` as a class with the `run` loop and `sendCommand`, and the running flag as a fold over the console lines.

## Model

| member | source | states |
|---|---|---|
| Arguments.ExtractSingleArgument | src/main/java/Bootstrapper.java:158-164 | With no argument starting with the prefix the result is the default. Otherwise the result is `split("=")[1]` of the first argument that starts with it; later matches are ignored. |
| Arguments.FirstMatchDecides | src/main/java/Bootstrapper.java:158-164 | The first match's value is the text between its first `=` and the next `=` or the end. The result is ArrayIndexOutOfBounds when there is no `=`, or when only `=` follows the first one. |
| Arguments.Matching | src/main/java/Bootstrapper.java:153 | The stream's prefix filter. Every argument kept starts with the prefix, every argument that starts with it is kept, and the result is never longer than the input. |
| Arguments.ExtractBedrockServerCommands | src/main/java/Bootstrapper.java:151-156 | Defined as `MapEach` of `split("=")[1]` over the `--bedrock-commands` arguments. Its meaning is stated by `BedrockCommandsAreSecondFields` and `NoBedrockCommands`. |
| Arguments.MatchingAppend | src/main/java/Bootstrapper.java:151-153 | The prefix filter keeps input order: filtering a concatenation concatenates the filtered parts. |
| Arguments.MapEach | src/main/java/Bootstrapper.java:152-155 | A map-and-collect over a stream succeeds exactly when every element maps. On success it gives one result per element, in order. Otherwise it gives the exception of the first element that throws. |
| Arguments.BedrockCommandsAreSecondFields | src/main/java/Bootstrapper.java:151-156 | The bedrock commands are the `split("=")[1]` fields of the `--bedrock-commands` arguments: one per argument, in order. The only possible failure is ArrayIndexOutOfBounds. |
| JavaText.SplitFirst | src/main/java/Bootstrapper.java:130 | `s.split("=")[0]` is the text before the first `=`. It throws only when `s` consists of `=` characters alone (at least one). |
| JavaText.SplitSecond | src/main/java/Bootstrapper.java:154 | `s.split("=")[1]` is the text between the first and second `=`. It exists exactly when something other than `=` follows the first `=`. |
| JavaText.JoinFields | src/main/java/Bootstrapper.java:130 | Splitting at every `=` loses nothing: joining the fields back with `=` gives the text. |
| JavaText.Split | src/main/java/Bootstrapper.java:130 | Defined as Java's `split` with a one-character pattern: the fields between separators with trailing empty fields removed, or `[s]` when the separator does not occur. Its fields are characterised by `SplitFirst` and `SplitSecond`. |
| JavaText.SplitAt | src/main/java/Bootstrapper.java:154 | Defined as `split(...)[k]`, with ArrayIndexOutOfBounds when the array has no element `k`. |
| Arguments.NotReservedCommand | src/main/java/Bootstrapper.java:138-144 | Defined as: the argument starts with none of `--backup-location`, `--server-location` and `--bedrock-commands`. |
| Arguments.IsPropertyArgument | src/main/java/Bootstrapper.java:126-127 | Defined as: the argument is not reserved and starts with `--` (both filters of the pipeline). |
| Arguments.SplitProperty | src/main/java/Bootstrapper.java:129-133 | Defined as the pipeline's map for one property text: key `split("=")[0]`, value `substring(key.length() + 1)`, with both exceptions. |
| Arguments.ParseOverride | src/main/java/Bootstrapper.java:125-133 | Defined case by case. A non-property argument is skipped. A property argument throws StringIndexOutOfBounds without `=`, and ArrayIndexOutOfBounds when it is `=` alone. Any other property argument is cut at its first `=`. `ParseOverrideIsSplit` proves this equals the pipeline. |
| Arguments.ParseOverrideIsSplit | src/main/java/Bootstrapper.java:125-133 | For one argument, the case-by-case parse equals the source's pipeline. Reserved options and arguments without `--` are skipped. Otherwise the key is `split("=")[0]` of the text after `--`, and the value is `substring(key.length() + 1)`, with both exceptions. |
| Arguments.OverrideReassembles | src/main/java/Bootstrapper.java:128-132 | A parsed property argument is exactly `"--" + key + "=" + value`, and the key holds no `=`. |
| Arguments.OverrideParses | src/main/java/Bootstrapper.java:128-132 | The converse: `"--" + key + "=" + value` parses back into `key` and `value`. This needs a property argument whose key has no `=`, and excludes an empty key with a value of `=` only. |
| Arguments.MissingEqualsThrows | src/main/java/Bootstrapper.java:131 | `--difficulty` throws StringIndexOutOfBounds. |
| Arguments.OnlyEqualsThrows | src/main/java/Bootstrapper.java:130 | `--=` throws ArrayIndexOutOfBounds. |
| Arguments.ValueKeepsEquals | src/main/java/Bootstrapper.java:131 | `--level-name=a=b` sets `level-name` to `a=b`. |
| Arguments.WithOverride | src/main/java/Bootstrapper.java:134 | Defined as one argument's `put` into the table: a throw, the table unchanged for a skipped argument, or the table with the key set. |
| Arguments.Overrides | src/main/java/Bootstrapper.java:124-136 | Defined as the override table built argument by argument in input order, stopping at the first throw. Its meaning is stated by the `Overrides…` and `OverrideLastWins` lemmas. |
| Arguments.WithOverrideOnTop | src/main/java/Bootstrapper.java:134 | Putting one argument into a table with older entries affects only the new entries; the older ones stay underneath. |
| Arguments.OverridesLast | src/main/java/Bootstrapper.java:125-134 | The table of all the arguments is the table of all but the last one, with the last argument's key put in. |
| Arguments.OverridesStep | src/main/java/Bootstrapper.java:125-134 | The table of the first i+1 arguments comes from the table of the first i and argument i. |
| Arguments.OverridesFailureStops | src/main/java/Bootstrapper.java:125-134 | Once a prefix has thrown, the remaining arguments change nothing. |
| Arguments.OverridesFirstFailure | src/main/java/Bootstrapper.java:125-134 | Building the table throws exactly the exception of the first malformed property argument. |
| Arguments.OverridesSucceed | src/main/java/Bootstrapper.java:125-134 | With no malformed property argument, the table is built. |
| Arguments.OverrideLastWins | src/main/java/Bootstrapper.java:134 | The last argument that defines a key gives that key's value. |
| Arguments.OverrideKeysFromArguments | src/main/java/Bootstrapper.java:125-134 | Every key in the table comes from an argument that defines it with that value, and no later argument redefines it. |
| Arguments.NonPropertyIgnored | src/main/java/Bootstrapper.java:138-144 | A reserved option, or an argument without `--`, never affects the table, wherever it stands. |
| Arguments.OnlyBackupOption | src/main/java/Bootstrapper.java:138-144 | `--backup-location==x` is reserved as a backup option, and as neither of the other two. |
| Arguments.Resolve | src/main/java/Bootstrapper.java:119-120 | `Paths.get(dir, name)` ends with `name`, and is `name` itself when `dir` is empty. |
| Arguments.ResolveDistinct | src/main/java/Bootstrapper.java:119-120 | Different names in one directory give different paths. In particular, `server.properties` and its template never collide. |
| Arguments.ParseArguments | src/main/java/Bootstrapper.java:114-122 | A successful parse has a non-empty backup path and two distinct property paths. |
| Arguments.DoubleEqualsField | src/main/java/Bootstrapper.java:162 | `split("=")[1]` of `--backup-location==x` is the empty text. |
| Arguments.BackupValueEmpty | src/main/java/Bootstrapper.java:115 | `--backup-location==x` gives an empty backup path. |
| Arguments.ServerValueDefault | src/main/java/Bootstrapper.java:116 | For every argument list without a `--server-location` argument, the server path is its default. |
| Arguments.MatchingNone | src/main/java/Bootstrapper.java:153 | When no argument starts with the prefix, the filter keeps nothing. |
| Arguments.NoBedrockCommands | src/main/java/Bootstrapper.java:117 | For every argument list without a `--bedrock-commands` argument, the command list is empty and nothing throws. |
| Arguments.NoOverrides | src/main/java/Bootstrapper.java:118 | For every argument list made only of reserved options and arguments without `--`, the override table is empty and nothing throws. |
| Arguments.EmptyBackupPathRejected | src/main/java/Bootstrapper.java:121 | `--backup-location==x` is read completely, and then refused for its empty backup path. |
| Lines.TerminatedAppend | src/main/java/Bootstrapper.java:171-173 | Writing one more argument appends exactly that argument and one line terminator. |
| Lines.ReadLinesOfTerminated | src/main/java/Bootstrapper.java:170-179 | Reading back the saved-arguments text gives the same arguments, provided none holds a line break. |
| Lines.CarriageReturnSplitsLine | src/main/java/Bootstrapper.java:54 | Why line breaks inside an argument are excluded: an argument holding a carriage return comes back as two lines. |
| Lines.Terminated | src/main/java/Bootstrapper.java:171-173 | Defined as every argument followed by one `%n` (`\n`), concatenated in order. |
| Lines.ReadLines | src/main/java/Bootstrapper.java:54 | Defined as `readAllLines`: a line ends at `\n`, `\r` or `\r\n`, and a final terminator starts no further line. |
| Arguments.ArgumentSource | src/main/java/Bootstrapper.java:49-57 | Defined as: the command line when it is not empty, else the lines of the saved-arguments file, else none. |
| Arguments.Startup | src/main/java/Bootstrapper.java:49-59 | Defined as the constructor's first half as a value: the parse outcome, and the saved-arguments file afterwards (written after a successful parse of a command line, deleted when it was used, kept otherwise). |
| Arguments.SavedArgumentsRestored | src/main/java/Bootstrapper.java:49-59 | A successful start with arguments saves them. The next start without arguments then parses the same configuration and consumes the file. |
| Arguments.SavedArgumentsUsedOnce | src/main/java/Bootstrapper.java:53-58 | Two starts in a row without arguments: the second is refused with the IllegalStateException. |
| Arguments.Applied | src/main/java/Bootstrapper.java:92-94 | Defined as the overrides whose key the template has. |
| Arguments.Rejected | src/main/java/Bootstrapper.java:95-97 | Defined as the overrides whose key the template lacks. |
| Arguments.Merged | src/main/java/Bootstrapper.java:91-98 | Defined as the template with the applicable overrides written over it. |
| Arguments.MergeMeaning | src/main/java/Bootstrapper.java:91-98 | The merged table keeps the template's keys. It takes the override's value wherever both tables have the key, and the template's value elsewhere. |
| Arguments.MergePartition | src/main/java/Bootstrapper.java:91-98 | Applied and invalid overrides are disjoint, and together they are all the overrides. |
| Arguments.MergeSingle | src/main/java/Bootstrapper.java:92-96 | A single override whose key the template has replaces that key's value. A single override with an unknown key is invalid and changes nothing. |
| Arguments.MergeInBatches | src/main/java/Bootstrapper.java:91-98 | Merging in two batches with disjoint keys equals merging once. The order of the walk over the table does not matter. |
| Arguments.RejectedInBatches | src/main/java/Bootstrapper.java:91-98 | The invalid overrides collected batch by batch are those collected at once. |
| Bootstrap.TemplateSource | src/main/java/Bootstrapper.java:65-76 | Defined as the table that gets loaded: the template if it exists, else `server.properties` (which is then copied), else none. |
| Bootstrap.Bootstrapper.Init | src/main/java/Bootstrapper.java:32-39 | Both property tables start empty. |
| Bootstrap.Bootstrapper.Create | src/main/java/Bootstrapper.java:46-62 | The whole constructor. Its outcome and the saved-arguments file are those of the `Startup` specification, and no other text file changes. On success: the fields hold the parsed configuration, the template exists (copied from `server.properties` if it was missing), and `server.properties` holds the template merged with the overrides. On a parse failure no property file changes. Without either property file it exits with status 1. |
| Bootstrap.Bootstrapper.TakeArguments | src/main/java/Bootstrapper.java:49-59 | Takes the command line if it is not empty, saving it only after a successful parse. Otherwise it reads and deletes the saved file; with neither, the start-up is refused. The fields then match `Startup`'s configuration. |
| Bootstrap.Bootstrapper.ExtractArgumentsFromCommandLine | src/main/java/Bootstrapper.java:114-122 | Fails with the exception of `ParseArguments` when that fails. Otherwise it sets every field to the parsed configuration, adding the overrides on top of the table's previous content. |
| Bootstrap.Bootstrapper.GetServerProperties | src/main/java/Bootstrapper.java:124-136 | The loop over the arguments either throws the table's exception, or adds the whole override table to the field. |
| Bootstrap.Bootstrapper.PutOverride | src/main/java/Bootstrapper.java:129-134 | One argument's step: a throw leaves the table unchanged, and a property argument puts its key and value. |
| Bootstrap.Bootstrapper.OverwriteValidServerProperties | src/main/java/Bootstrapper.java:86-106 | The loop over the overrides leaves exactly the merged table, and collects exactly the invalid overrides. |
| Bootstrap.Bootstrapper.ProcessServerProperties | src/main/java/Bootstrapper.java:64-84 | The template is loaded and merged, and the result is stored as `server.properties`; the template file is kept. With neither file: exit status 1 and nothing changes. |
| Bootstrap.Bootstrapper.PrepareTemplate | src/main/java/Bootstrapper.java:65-73 | A missing template is copied from `server.properties`; an existing template is left alone. With neither file: exit status 1. |
| Bootstrap.Bootstrapper.WriteConfigFile | src/main/java/Bootstrapper.java:170-179 | The saved-arguments file is replaced by the arguments, one per line. |
| Console.RunningAfter | src/main/java/controller/MinecraftConsole.java:18-23 | Defined as the running flag after the lines, taken one at a time in order. `RunningAfterMeaning` states it in closed form. |
| JavaText.Contains | src/main/java/controller/MinecraftConsole.java:22 | `contains` is true exactly when the sentinel occurs at some position of the line. |
| Console.AfterLine | src/main/java/controller/MinecraftConsole.java:22 | After one line, the flag is set exactly when it was set before and the line does not contain the sentinel. |
| Console.RunningAfterMeaning | src/main/java/controller/MinecraftConsole.java:18-23 | Over a whole line sequence, the final flag is the initial flag AND "no line contains the sentinel". |
| Console.StoppedStaysStopped | src/main/java/controller/MinecraftConsole.java:22 | Once cleared, no later line sets the flag again. |
| Console.RunningAfterConcat | src/main/java/controller/MinecraftConsole.java:19-23 | Reading two batches of lines is reading the second batch from the flag the first one left. |
| Console.SentinelInsideLine | src/main/java/controller/MinecraftConsole.java:22 | The sentinel is found wherever it stands in a line. |
| Console.FirstCharacterMissing | src/main/java/controller/MinecraftConsole.java:22 | A line lacking the sentinel's first character never contains the sentinel. |
| Console.ShutdownLineStops | src/main/java/controller/MinecraftConsole.java:22 | `[INFO] Stopping the server...` clears the flag. |
| Console.LowerCaseLineIgnored | src/main/java/controller/MinecraftConsole.java:22 | The test is case-sensitive: `[INFO] stopping the server...` leaves the flag set. |
| Console.LinesRead | src/main/java/controller/MinecraftConsole.java:18-26 | A run reads neither more lines than the stream holds nor more than the loop checks before the interrupt, and reads none from a closed reader. |
| Console.RunExitOf | src/main/java/controller/MinecraftConsole.java:18-26 | The run ends by interrupt exactly when it read as many lines as checks before the interrupt. It ends at end of stream exactly when the reader was open, the stream ended normally and the interrupt never came. Otherwise the read failed. |
| Console.MinecraftConsole.constructor | src/main/java/controller/MinecraftConsole.java:10-13 | A fresh console: nothing read, logged or written. |
| Console.MinecraftConsole.ReadLine | src/main/java/controller/MinecraftConsole.java:20 | `readLine` gives the next line, `null` at end of stream, or an IOException from a closed reader or a broken stream. |
| Console.MinecraftConsole.Run | src/main/java/controller/MinecraftConsole.java:15-27 | The exit is as `RunExitOf` says, and the reader is closed on every path. The lines read are consumed and echoed to the log in order. The flag is `RunningAfter` of the lines read. |
| Console.MinecraftConsole.SendCommand | src/main/java/controller/MinecraftConsole.java:29-37 | Logs `Sending command: ` plus the command first. A working writer then receives exactly the command and one line terminator; a failing one gives an unchecked exception and nothing written. The writer's content is always the sent commands, one per line. |

## Left out

- `evaluatePathOfJar` (src/main/java/Bootstrapper.java:108-112): the jar's directory comes from the class loader, so it is a parameter of `Create`.
- `main` and `bootServer`: starting the server is not part of this model. Neither is `controller.Server`, apart from its `isServerRunning` flag.
- The `java.util.Properties` text format: property files are held as their key/value tables, so `load` and `store` are a map read and a map write.
- `Paths.get`: paths are joined with `/`. There is no normalisation and no Windows separators. `Resolve` never fails, while `Paths.get(serverPath, …)` (src/main/java/Bootstrapper.java:119-120) can throw InvalidPathException, for example on a `--server-location` value with characters the platform forbids.
- Character sets: the saved-arguments file is text, not UTF-8 bytes.
- `%n` is modelled as `"\n"`. Reading back accepts `\n`, `\r` and `\r\n`, as `readAllLines` and `readLine` do.
- The `printf`/`println` messages of the start-up are not modelled. The console's standard-output lines are kept as the `log` sequence.
- `printStackTrace` on a read failure writes to standard error, and is not modelled.
- Threads: the interrupt is modelled as the loop check, `cancelAt`, at which it is first seen. The cross-thread visibility of the running flag is not modelled.
- IOExceptions of the file operations in the start-up are not modelled. The file system is an in-memory map whose operations always succeed.
- `System.exit(1)` is modelled as the error outcome `SystemExit(1)`: the process ending is not modelled.
- Bootstrap.Bootstrapper.GetServerProperties: on a throw, its contract gives only the exception. The puts made before the throw are stated by `PutOverride` and the loop invariant, not in the method's own postcondition.
- Console.MinecraftConsole.SendCommand: a failing writer is modelled as writing nothing. A buffered writer that fails part-way may have passed part of the text on.
- Console.MinecraftConsole.Run: the order of echo and test inside one iteration is the order of the statements in the method body. The contract states only the final log and flag.
- End of stream: the model follows the code, and reaching the end of the server's output does not clear the running flag; only a sentinel line does.
