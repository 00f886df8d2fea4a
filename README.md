# ForgeGradle core, modelled in Dafny

This project models four parts of ForgeGradle, the Gradle plugin that sets up Minecraft mod workspaces. It then proves what those parts promise.

- **The deobfuscation task** (`DeobfuscateJar`).
  - It sanitises the MCInjector exceptor configuration against the entries of the deobfuscated archive. Unknown classes are dropped, and so are unknown inner classes.
  - It loads the MCP method and field CSV files into a rename table.
  - It rewrites access-transformer symbols through that table.
  - It fills in the optional inputs of the exceptor call: the JSON and the log file.
- **The development launcher** (`GradleStart`).
  - The default launch arguments.
  - The update of those arguments from the command line.
  - The flat `--key value` list handed to the real main class.
  - The logged form of that list, with the access token redacted.
  - The login guard.
  - The library-path extension.
- **The user extension** (`UserBaseExtension`).
  - The source replacement table.
  - The run directory, which is mirrored into the token replacer.
  - The client JVM and run argument lists, handed out resolved.
- **The common plugin** (`BasePlugin`).
  - The `'!'` guard on the build directory, and the first replacements.
  - The routing of a version description's libraries into the deps, client-deps and natives configurations.
  - The version check, the two MCP dependencies and the banner shown once per run, in `afterEvaluate`.

A further module, `JavaStrings`, gives the Java and Guava string operations the code relies on:
- `String.split` with its removal of trailing empty fields;
- `indexOf`, `contains` and `equalsIgnoreCase`;
- `Joiner.join` and `Strings.isNullOrEmpty`.

`Wrappers` holds `Option` and `Result`.

Modelling choices:
- **Objects whose fields the code updates are classes.** These are the injector configuration, the access map, the launcher, the extension and the plugin.
- **Where modelled, Java null becomes `None` and a thrown exception becomes a `Failure` result.** The null-pointer and parser failures listed under "Left out" are not modelled.
- **Hash-map iteration order is arbitrary.** Every property is stated for all orders:
  - the launcher's `argMap` is a sequence of entries with distinct keys;
  - `removeUnknownClasses` visits the keys in an order the model leaves open.
- **Several external things become inputs:**
  - files become sequences of lines;
  - an archive becomes the set of its entry names;
  - Gradle's configuration states are given values;
  - the values the delayed strings resolve to are given strings.
- **Gradle's dependency handler is an append-only log** of (configuration, dependency) pairs.
- **The launcher's command-line parser is not modelled.** What the option parser reports (the options with arguments, and the non-option words) is the input to `parseArgs`.

## Model

| member | source | states |
|---|---|---|
| JavaStrings.SplitFields | src/main/java/net/minecraftforge/gradle/tasks/DeobfuscateJar.java:331 | Java `split`: without the separator the result is the whole string, otherwise the raw fields with only empty ones dropped from the end, none containing the separator |
| JavaStrings.IndexOf | src/main/java/net/minecraftforge/gradle/tasks/DeobfuscateJar.java:364 | -1 iff the character is absent, else the position of its first occurrence |
| JavaStrings.Contains | src/main/java/net/minecraftforge/gradle/common/BasePlugin.java:490-494 | true iff the substring occurs at some position |
| DeobfuscateJar.RemoveUnknownInnerClasses | src/main/java/net/minecraftforge/gradle/tasks/DeobfuscateJar.java:175-187 | the inner-class loop leaves exactly the filtered list `KeptInnerClasses` |
| DeobfuscateJar.RemoveUnknownClasses | src/main/java/net/minecraftforge/gradle/tasks/DeobfuscateJar.java:153-194 | the configuration is modified in place into `Sanitize(zip, old config)`, whatever the key order |
| DeobfuscateJar.KeptInnerClassesMembers | src/main/java/net/minecraftforge/gradle/tasks/DeobfuscateJar.java:177-186 | an inner-class entry survives iff it was there and `inner_class + ".class"` is in the archive |
| DeobfuscateJar.KeptInnerClassesConcat | src/main/java/net/minecraftforge/gradle/tasks/DeobfuscateJar.java:177-186 | filtering distributes over concatenation, so survivors keep their relative order |
| DeobfuscateJar.KeptInnerClassesShrinks | src/main/java/net/minecraftforge/gradle/tasks/DeobfuscateJar.java:177-186 | the survivors are a sub-multiset of the list: nothing is added or duplicated |
| DeobfuscateJar.KeptInnerClassesAllPresent | src/main/java/net/minecraftforge/gradle/tasks/DeobfuscateJar.java:177-186 | a list whose classes are all in the archive is unchanged |
| DeobfuscateJar.KeptInnerClassesIdempotent | src/main/java/net/minecraftforge/gradle/tasks/DeobfuscateJar.java:175-187 | filtering twice is filtering once |
| DeobfuscateJar.SanitizeKeepsPresentClasses | src/main/java/net/minecraftforge/gradle/tasks/DeobfuscateJar.java:158-175 | the kept keys are a subset of the input keys, a key is kept iff `key + ".class"` is in the archive, and a kept struct keeps its other fields and the nullness of its inner-class list |
| DeobfuscateJar.SanitizeFiltersInnerClasses | src/main/java/net/minecraftforge/gradle/tasks/DeobfuscateJar.java:174-187 | in a kept struct the inner-class list holds exactly the original entries present in the archive, never more copies than before |
| DeobfuscateJar.SanitizeIdempotent | src/main/java/net/minecraftforge/gradle/tasks/DeobfuscateJar.java:153-194 | sanitising twice against the same archive is sanitising once |
| DeobfuscateJar.LoadRenames | src/main/java/net/minecraftforge/gradle/tasks/DeobfuscateJar.java:322-346 | the nested file and line loops give exactly the fold `CsvFiles` over the files, including where a line fails |
| DeobfuscateJar.HeaderLineSkipped | src/main/java/net/minecraftforge/gradle/tasks/DeobfuscateJar.java:331-334 | a line whose field 0 is "searge" leaves the table unchanged |
| DeobfuscateJar.LineWithoutCommaFails | src/main/java/net/minecraftforge/gradle/tasks/DeobfuscateJar.java:331-334 | a non-header line without a comma, the empty line included, fails on field 1 |
| DeobfuscateJar.OnlyCommasFails | src/main/java/net/minecraftforge/gradle/tasks/DeobfuscateJar.java:331-332 | a line made only of commas fails on field 0, since `split` gives no fields for it |
| DeobfuscateJar.CsvLinesConcat | src/main/java/net/minecraftforge/gradle/tasks/DeobfuscateJar.java:326-345 | reading lines `a` then `b` is reading `a + b`, and a failure in `a` stops the load |
| DeobfuscateJar.CsvFilesAreConcatenatedLines | src/main/java/net/minecraftforge/gradle/tasks/DeobfuscateJar.java:322-326 | null files are skipped and the rest read as one stream of lines |
| DeobfuscateJar.CsvLinesLastWriteWins | src/main/java/net/minecraftforge/gradle/tasks/DeobfuscateJar.java:331-335 | after a successful load each key holds the value of the last line defining it; other keys keep their old value |
| DeobfuscateJar.LastDefinitionConcat | src/main/java/net/minecraftforge/gradle/tasks/DeobfuscateJar.java:322-346 | the last definition in `a + b` is that of `b` when `b` has one, else that of `a` |
| DeobfuscateJar.FieldCsvOverridesMethodCsv | src/main/java/net/minecraftforge/gradle/tasks/DeobfuscateJar.java:103 | the method CSV is read first, so a key the field CSV defines takes the field CSV's value |
| DeobfuscateJar.SplitMember | src/main/java/net/minecraftforge/gradle/tasks/DeobfuscateJar.java:364-373 | the member token is name + descriptor, the name has no '(' and the descriptor is empty or starts with '(' |
| DeobfuscateJar.SplitMemberUnique | src/main/java/net/minecraftforge/gradle/tasks/DeobfuscateJar.java:364-373 | that split is the only one with those properties |
| DeobfuscateJar.RemapParts | src/main/java/net/minecraftforge/gradle/tasks/DeobfuscateJar.java:362-380 | same number of parts, only part 1 may change, and it becomes rename + descriptor iff its name has a rename |
| DeobfuscateJar.SymbolWithoutSpaceUnchanged | src/main/java/net/minecraftforge/gradle/tasks/DeobfuscateJar.java:361-382 | a symbol without a space, which splits into a single part, is forwarded unchanged |
| DeobfuscateJar.SymbolRenamed | src/main/java/net/minecraftforge/gradle/tasks/DeobfuscateJar.java:361-382 | "owner name(desc)" with a rename for name is forwarded as owner '.' rename, with the descriptor verbatim |
| DeobfuscateJar.ErroringRemappingAccessMap.constructor | src/main/java/net/minecraftforge/gradle/tasks/DeobfuscateJar.java:314-320 | the map starts with the loaded renames and nothing forwarded |
| DeobfuscateJar.ErroringRemappingAccessMap.AddAccessChange | src/main/java/net/minecraftforge/gradle/tasks/DeobfuscateJar.java:359-383 | exactly one change is forwarded: the remapped symbol with the access string unchanged |
| DeobfuscateJar.ApplyExceptor | src/main/java/net/minecraftforge/gradle/tasks/DeobfuscateJar.java:124-151 | without an exceptor JSON nothing is sanitised and the JSON argument is null; with one, the sanitised configuration goes to "transformed.json" in the temporary directory |
| DeobfuscateJar.DoTask | src/main/java/net/minecraftforge/gradle/tasks/DeobfuscateJar.java:77-94 | the exceptor reads "deobfed.jar" in the temporary directory and logs to the configured log, or to "exceptor.log" there when none is set |
| GradleStart.ReplaceValue | src/main/resources/GradleStart.java:215 | replacing a present key's value keeps every key and its place, and changes only that key's value |
| GradleStart.Put | src/main/resources/GradleStart.java:56-62 | `put` adds the key, gives it the value, leaves every other key's value and keeps keys distinct |
| GradleStart.PutOverlays | src/main/resources/GradleStart.java:55-63 | a further put extends the overlaid defaults by one entry, the later value winning |
| GradleStart.GradleStart.constructor | src/main/resources/GradleStart.java:29-30 | the argument map and the extras start empty |
| GradleStart.GradleStart.SetDefaultArguments | src/main/resources/GradleStart.java:55-63 | the seven defaults are present with their values ("FML", "{}", the placeholders, null username and password), and every other key keeps its value |
| GradleStart.GradleStart.ParseArgs | src/main/resources/GradleStart.java:197-223 | each entry, in enumeration order, takes its option's argument when it has one; the non-option words become the extras |
| GradleStart.UpdateKnownKeysOnlyKnown | src/main/resources/GradleStart.java:210-219 | parsing adds no key and removes none, and a key changes only when it was already in the map and the parser gave it an argument |
| GradleStart.UpdateKnownKeysPointwise | src/main/resources/GradleStart.java:210-219 | each entry is updated on its own, from its own option |
| GradleStart.UpdateKnownKeysSameKeys | src/main/resources/GradleStart.java:210-219 | parsing keeps each entry's key in its place |
| GradleStart.GradleStart.PreLaunch | src/main/resources/GradleStart.java:65-70 | a login is attempted iff the password is non-null and non-empty |
| GradleStart.GradleStart.GetArgs | src/main/resources/GradleStart.java:151-195 | the list is the map's pairs in enumeration order, then the `--tweakClass` pair iff the tweak class is non-empty, then the extras in order; the logged string is its redacted rendering |
| GradleStart.LogArguments | src/main/resources/GradleStart.java:174-192 | the logging loop, which skips an element after an access-token flag, gives the bracketed rendering `RenderLog` |
| GradleStart.MapArgsStep | src/main/resources/GradleStart.java:154-160 | one entry adds "--key", value iff its value is non-null and non-empty |
| GradleStart.MapArgsArePairs | src/main/resources/GradleStart.java:154-160 | the map part has even length and alternates "--key" and value |
| GradleStart.FlattenPairs | src/main/resources/GradleStart.java:157-158 | each emitted entry becomes two consecutive elements |
| GradleStart.EmittedEntriesExact | src/main/resources/GradleStart.java:154-160 | (key, value) is emitted iff the map holds that non-empty value for key |
| GradleStart.EmittedKeysInMap | src/main/resources/GradleStart.java:154-160 | only keys of the map are emitted |
| GradleStart.ValueOfAbsent | src/main/resources/GradleStart.java:66 | `get` of an absent key is null |
| GradleStart.Shown | src/main/resources/GradleStart.java:177-190 | the shown positions are in range and increasing, and the walk starts at its first position |
| GradleStart.RenderFromStep | src/main/resources/GradleStart.java:177-190 | one step of the log: the shown item, then ", " only if another element follows |
| GradleStart.RedactedValueNotShown | src/main/resources/GradleStart.java:180-184 | the element after a shown case-insensitive "--accessToken" never appears in the log |
| GradleStart.HiddenOnlyAfterFlag | src/main/resources/GradleStart.java:177-190 | the only elements the log leaves out come right after a shown access-token flag |
| GradleStart.NoFlagLogsAll | src/main/resources/GradleStart.java:175-191 | without an access-token flag the log is the whole list joined with ", " |
| GradleStart.LibraryPath | src/main/resources/GradleStart.java:72-82 | the library path is the natives directory if it was null or empty, else path + separator + natives directory |
| UserBaseExtension.LastReplacement | src/main/java/net/minecraftforge/gradle/user/UserBaseExtension.java:62-68 | there is no last replacement for a key iff no entry's token prints as that key |
| UserBaseExtension.UserBaseExtension.constructor | src/main/java/net/minecraftforge/gradle/user/UserBaseExtension.java:35-39 | replacements and includes start empty, the run directory is "run", and both argument lists are empty |
| UserBaseExtension.UserBaseExtension.Replace | src/main/java/net/minecraftforge/gradle/user/UserBaseExtension.java:52-55 | the value is stored under the token's string, overwriting an earlier one |
| UserBaseExtension.UserBaseExtension.ReplaceAll | src/main/java/net/minecraftforge/gradle/user/UserBaseExtension.java:62-68 | the table after one `replace` per entry in enumeration order |
| UserBaseExtension.ReplacedAllContents | src/main/java/net/minecraftforge/gradle/user/UserBaseExtension.java:62-68 | the keys are the old ones plus every entry's token; a token holds the last value given for it, and other keys keep theirs |
| UserBaseExtension.LastReplacementFront | src/main/java/net/minecraftforge/gradle/user/UserBaseExtension.java:62-68 | the last replacement is the rest's when the rest has one, else the first entry's |
| UserBaseExtension.ReplacedAllConcat | src/main/java/net/minecraftforge/gradle/user/UserBaseExtension.java:62-68 | replacing `a + b` is replacing `a` then `b` |
| UserBaseExtension.ReplacedAllSingle | src/main/java/net/minecraftforge/gradle/user/UserBaseExtension.java:52-68 | a one-entry map is a single `replace` |
| UserBaseExtension.UserBaseExtension.GetReplacements | src/main/java/net/minecraftforge/gradle/user/UserBaseExtension.java:75-78 | the current table |
| UserBaseExtension.UserBaseExtension.GetIncludes | src/main/java/net/minecraftforge/gradle/user/UserBaseExtension.java:85-88 | the current include patterns |
| UserBaseExtension.UserBaseExtension.SetRunDir | src/main/java/net/minecraftforge/gradle/user/UserBaseExtension.java:95-99 | the run directory is the value, and the replacer maps "{RUN_DIR}" to it |
| UserBaseExtension.UserBaseExtension.GetRunDir | src/main/java/net/minecraftforge/gradle/user/UserBaseExtension.java:106-109 | the current run directory |
| UserBaseExtension.UserBaseExtension.GetClientJvmArgs | src/main/java/net/minecraftforge/gradle/user/UserBaseExtension.java:116-119 | the current JVM arguments |
| UserBaseExtension.UserBaseExtension.GetResolvedClientJvmArgs | src/main/java/net/minecraftforge/gradle/user/UserBaseExtension.java:121-124 | the JVM arguments resolved element by element |
| UserBaseExtension.UserBaseExtension.SetClientJvmArgs | src/main/java/net/minecraftforge/gradle/user/UserBaseExtension.java:131-134 | replaces the JVM arguments and nothing else |
| UserBaseExtension.UserBaseExtension.GetClientRunArgs | src/main/java/net/minecraftforge/gradle/user/UserBaseExtension.java:141-144 | the current run arguments |
| UserBaseExtension.UserBaseExtension.GetResolvedClientRunArgs | src/main/java/net/minecraftforge/gradle/user/UserBaseExtension.java:146-149 | the run arguments resolved element by element |
| UserBaseExtension.UserBaseExtension.SetClientRunArgs | src/main/java/net/minecraftforge/gradle/user/UserBaseExtension.java:156-159 | replaces the run arguments and nothing else |
| UserBaseExtension.UserBaseExtension.Resolve | src/main/java/net/minecraftforge/gradle/user/UserBaseExtension.java:161-169 | same length, element i is `resolveString` of input element i |
| BasePlugin.BannerFlag.constructor | src/main/java/net/minecraftforge/gradle/common/BasePlugin.java:165 | the banner flag starts set |
| BasePlugin.BasePlugin.constructor | src/main/java/net/minecraftforge/gradle/common/BasePlugin.java:76-78 | an empty replacer, no dependencies and no stored version |
| BasePlugin.BasePlugin.Apply | src/main/java/net/minecraftforge/gradle/common/BasePlugin.java:86-101 | fails iff the build path contains '!', and then before any replacement is set; otherwise sets the cache, build and project-cache directories, the last defaulting to ".gradle" in the project |
| BasePlugin.BasePlugin.AfterEvaluate | src/main/java/net/minecraftforge/gradle/common/BasePlugin.java:179-217 | a failed project or a null or empty version changes nothing (the latter is an error); otherwise the two MCP archives are added, the banner is shown iff the shared flag was still set, and the flag is then clear |
| BasePlugin.BasePlugin.ParseAndStoreVersion | src/main/java/net/minecraftforge/gradle/common/BasePlugin.java:459-520 | a missing file gives null and changes nothing; a load error changes nothing; otherwise exactly `AddedDependencies` is appended; then a missing asset index is an error that leaves the replacer and stored version unchanged, and otherwise the asset index is set and the version kept |
| BasePlugin.BasePlugin.AddDepsLibraries | src/main/java/net/minecraftforge/gradle/common/BasePlugin.java:485-501 | the dependencies loop appends exactly `DepsEntries` of the libraries |
| BasePlugin.BasePlugin.AddNativesLibraries | src/main/java/net/minecraftforge/gradle/common/BasePlugin.java:507-511 | the natives loop appends exactly `NativesEntries` of the libraries |
| BasePlugin.ContainsBang | src/main/java/net/minecraftforge/gradle/common/BasePlugin.java:86 | the build-path check holds iff the path contains the character '!' |
| BasePlugin.EntriesConcat | src/main/java/net/minecraftforge/gradle/common/BasePlugin.java:485-511 | both loops keep the libraries' order |
| BasePlugin.EntriesConfigs | src/main/java/net/minecraftforge/gradle/common/BasePlugin.java:487-511 | the dependencies loop uses only the deps and client-deps configurations, the natives loop only the natives one |
| BasePlugin.EntriesPartition | src/main/java/net/minecraftforge/gradle/common/BasePlugin.java:485-511 | every library lands in exactly one loop's output |
| BasePlugin.DepsEntryIff | src/main/java/net/minecraftforge/gradle/common/BasePlugin.java:485-501 | an artifact is added to a deps configuration iff some library without natives has it, under the client configuration when that library's name contains "java3d", "paulscode", "lwjgl", "twitch" or "jinput" and under the plain deps configuration otherwise |
| BasePlugin.NativesEntryIff | src/main/java/net/minecraftforge/gradle/common/BasePlugin.java:507-511 | an artifact is added to natives iff some library with natives has it |
| BasePlugin.ResolvedConfigsGetNothing | src/main/java/net/minecraftforge/gradle/common/BasePlugin.java:483-512 | a configuration that is no longer unresolved gets nothing from its loop |

## Left out

- `deobfJar` and `MCInjectorImpl.process` are left out. They call into SpecialSource and MCInjector for bytecode remapping, inheritance lookup and applying access bits. Their code is not part of this model. `ApplyExceptor` returns the arguments it would pass to `process`.
- `addAccessChange` forwards to SpecialSource's `AccessMap`, which is not part of this model. The forwarded (symbol, access) pairs are recorded instead.
- `loadAccessTransformer` only opens and closes a file reader, so it is left out.
- The `ErroringRemappingAccessMap` constructor is split in two:
  - `LoadRenames` is its loading loop, where a throw becomes a `Failure`;
  - the class constructor receives the table that loop produced.
- File contents are not read.
  - CSV files become sequences of lines, JSON structures become values, and the archive becomes the set of its entry names.
  - Writing "transformed.json" is represented by the `written` result.
  - Canonical-path resolution is not modelled; `new File(dir, name)` is `dir + "/" + name`.
- The injector configuration's struct fields other than `enclosingMethod` and `innerClasses` are left out. `MCInjectorStruct` is not part of this model.
- Logging is left out: the logger calls of every class, apart from the string `getArgs` builds for its log line.
- In `GradleStart`, several parts are not modelled:
  - the joptsimple option parser;
  - the Yggdrasil login (`attemptLogin`);
  - `System.setProperty`, the class-loader `sys_paths` hack and the reflective launch in `launch` and `main`.
- `hackNatives` is modelled as the function `LibraryPath`. Setting the property is a runtime effect.
- The values of the `CONFIG_*` and `REPLACE_*` constants are not modelled. They live in `Constants.java`, which is not part of this model, so they appear as the datatypes `Config` and `Token`. The exception is "{RUN_DIR}", whose value `UserConstants.java` gives.
- `Constants.resolveString` and `Object.toString` are functions fixed when a `UserBaseExtension` is created.
- The extension's replacer and the plugin's replacer are one object in the source. Here they are separate maps, one in each class.
- In `BasePlugin`, most of `apply` is not modelled:
  - log listeners and extension creation by reflection;
  - repositories, the remote JSONs (`getRemoteJsons`, `getWithEtag`: network and file caching) and configuration creation;
  - task creation.
- `BasePlugin.BasePlugin.ParseAndStoreVersion` does not model these steps:
  - loading the version JSON with its inheritance directories; the loaded version or its error is an input;
  - `getArtifactName`, which is a field of `Library`;
  - the null-pointer failures the source would hit on a null version or a null library name;
  - a null `id` inside a present asset index (`assetIndexId` is `None` only when the asset index object itself is missing, which is modelled: the dependencies both loops added stay added and the method fails before the replacer and `mcVersionJson` are set).
- `DeobfuscateJar.RemoveUnknownClasses` does not model the null-pointer failure the source hits on a null struct value or a null element of an inner-class list; struct values and list elements are always present.
- `GradleStart.GradleStart.ParseArgs` does not model joptsimple's failure when an option is given twice (`valueOf` then throws); each option has at most one value.
- `UserBaseExtension.UserBaseExtension.Replace` does not model the null-pointer failure of `toString` on a null token; a token is always a value.
- `UserBaseExtension.UserBaseExtension.SetRunDir` does not model a null run directory; the value is always a string.
- `UserBaseExtension.UserBaseExtension.GetReplacements`, `GetIncludes`, `GetClientJvmArgs`, `GetClientRunArgs`, `SetClientJvmArgs` and `SetClientRunArgs` hand out and keep value copies. In the source they return and store the live `HashMap` and `ArrayList` objects, so a build script that edits such an object (`getIncludes().add(...)`, or a list it passed to a setter) changes the extension; this aliasing is not captured, and in the model `includes` keeps its initial empty list.
- `BasePlugin.BasePlugin.AfterEvaluate` takes as inputs the strings that the delayed strings `delayedString(...).call()` resolve to. Token substitution is not part of this model.
- Gradle's `afterEvaluate` callback registration is represented by the `projectFailed` input of `AfterEvaluate`.
- `JavaStrings.EqualsIgnoreCase` folds ASCII letters only. Java's comparison also folds some non-ASCII characters onto ASCII letters (the Kelvin sign onto 'k'), so such a spelling of "--accessToken" is redacted by the source but not by the model.
