/**
  The common plugin: the guard on the build directory and the first token
  replacements in `apply`, the routing of a version description's libraries
  into the dependency configurations in `parseAndStoreVersion`, and the
  version check, the two MCP dependencies and the once-per-run banner in
  `afterEvaluate`.

  Gradle's dependency handler is modelled as an append-only log of
  (configuration, dependency) pairs, the configurations' resolution states
  are inputs, and the replacer is a map from replacement tokens to values.
  The string values of the configuration names and of the tokens live in
  `Constants.java`, which is not part of this model; they are named here
  symbolically.
 */
module BasePlugin {
  import opened Wrappers
  import opened JavaStrings

  datatype Config = McDeps | McDepsClient | Natives | Mappings | McpData

  /** Gradle's `Configuration.State`. */
  datatype ConfigState = Unresolved | Resolved | ResolvedWithFailures

  datatype Token = CacheDir | BuildDir | ProjectCacheDir | AssetIndex

  datatype Dependency =
    | Artifact(name: string)
    | Coordinates(group: string, name: string, version: string, classifier: Option<string>, ext: string)

  /** A library of the version description, as far as the routing reads it:
      its name, its natives table (null for a plain library) and the
      artifact name `getArtifactName` gives for it. */
  datatype Library = Library(name: string, natives: Option<map<string, string>>, artifactName: string)

  /** A version description: its libraries and the id of its asset index,
      `None` when the description has no asset index object. */
  datatype Version = Version(libraries: seq<Library>, assetIndexId: Option<string>)

  /** Libraries only the client needs, recognised by name. */
  predicate IsClientLibrary(name: string)
  {
    || Contains(name, "java3d")
    || Contains(name, "paulscode")
    || Contains(name, "lwjgl")
    || Contains(name, "twitch")
    || Contains(name, "jinput")
  }

  function DepsConfig(name: string): Config
  {
    if IsClientLibrary(name) then McDepsClient else McDeps
  }

  /** What the dependencies loop adds: each library without natives, in
      order, under the configuration its name selects. */
  function DepsEntries(libs: seq<Library>): seq<(Config, Dependency)>
  {
    if libs == [] then []
    else
      var lib := libs[|libs| - 1];
      DepsEntries(libs[..|libs| - 1]) +
        (if lib.natives.None? then [(DepsConfig(lib.name), Artifact(lib.artifactName))] else [])
  }

  /** What the natives loop adds: each library with natives, in order. */
  function NativesEntries(libs: seq<Library>): seq<(Config, Dependency)>
  {
    if libs == [] then []
    else
      var lib := libs[|libs| - 1];
      NativesEntries(libs[..|libs| - 1]) +
        (if lib.natives.Some? then [(Natives, Artifact(lib.artifactName))] else [])
  }

  /** Everything `parseAndStoreVersion` adds, given the two configurations'
      states: a loop runs only while its configuration is unresolved. */
  function AddedDependencies(v: Version, depsState: ConfigState, nativesState: ConfigState): seq<(Config, Dependency)>
  {
    (if depsState == Unresolved then DepsEntries(v.libraries) else []) +
    (if nativesState == Unresolved then NativesEntries(v.libraries) else [])
  }

  /** The project cache directory: the one Gradle was started with, else
      ".gradle" in the project directory. */
  function ProjectCacheDirOf(startParameter: Option<string>, projectDir: string): string
  {
    match startParameter
    case Some(dir) => dir
    case None => projectDir + "/.gradle"
  }

  const BuildPathError: string := "Build path contains !"
  const MissingVersionError: string := "You must set the Minecraft version!"
  /** What reading the id of an absent asset index throws. */
  const MissingAssetIndexError: string := "NullPointerException: version.assetIndex"

  /** The MCP mappings archive `afterEvaluate` adds. */
  function MappingsDependency(mcpChannel: string, mcpVersion: string, mcpMcVersion: string): Dependency
  {
    Coordinates("de.oceanlabs.mcp", "mcp_" + mcpChannel, mcpVersion + "-" + mcpMcVersion, None, "zip")
  }

  /** The MCP data archive `afterEvaluate` adds. */
  function McpDataDependency(mcVersion: string): Dependency
  {
    Coordinates("de.oceanlabs.mcp", "mcp", mcVersion, Some("srg"), "zip")
  }

  /** The static `displayBanner` flag, shared by every plugin of a run. */
  class BannerFlag {
    var display: bool

    constructor ()
      ensures display
    {
      display := true;
    }
  }

  class BasePlugin {
    var replacer: map<Token, string>
    var dependencies: seq<(Config, Dependency)>
    var mcVersionJson: Option<Version>
    const banner: BannerFlag

    constructor (banner: BannerFlag)
      ensures replacer == map[] && dependencies == [] && mcVersionJson == None
      ensures this.banner == banner
    {
      replacer := map[];
      dependencies := [];
      mcVersionJson := None;
      this.banner := banner;
    }

    /**
      The start of `apply`: a build directory whose absolute path contains
      '!' is refused before anything is set up; otherwise the cache, build
      and project-cache directories become replacements. `cacheDir` is the
      absolute path of the Minecraft cache under the Gradle user home.
     */
    method Apply(buildDir: string, cacheDir: string, startProjectCacheDir: Option<string>, projectDir: string)
      returns (r: Result<(), string>)
      modifies this`replacer
      ensures r.Failure? <==> Contains(buildDir, "!")
      ensures r.Failure? ==> r.error == BuildPathError && replacer == old(replacer)
      ensures r.Success? ==> replacer == old(replacer)[CacheDir := cacheDir][BuildDir := buildDir]
                                         [ProjectCacheDir := ProjectCacheDirOf(startProjectCacheDir, projectDir)]
    {
      if Contains(buildDir, "!") {
        return Failure(BuildPathError);
      }
      replacer := replacer[CacheDir := cacheDir];
      replacer := replacer[BuildDir := buildDir];
      var projectCacheDir := projectDir + "/.gradle";
      if startProjectCacheDir.Some? {
        projectCacheDir := startProjectCacheDir.value;
      }
      replacer := replacer[ProjectCacheDir := projectCacheDir];
      r := Success(());
    }

    /**
      `afterEvaluate`, reached through the action `apply` registers: nothing
      happens when the project has already failed; a null or empty version
      is an error; otherwise the two MCP archives are added and the banner
      is shown iff no plugin of this run has shown it yet. The result says
      whether the banner was shown. The MCP strings are the values the
      delayed strings resolve to.
     */
    method AfterEvaluate(projectFailed: bool, version: Option<string>,
                         mcpChannel: string, mcpVersion: string, mcpMcVersion: string, mcVersion: string)
      returns (r: Result<bool, string>)
      modifies this`dependencies, banner
      ensures projectFailed ==>
        r == Success(false) && dependencies == old(dependencies) && banner.display == old(banner.display)
      ensures !projectFailed && IsNullOrEmpty(version) ==>
        r == Failure(MissingVersionError) && dependencies == old(dependencies) && banner.display == old(banner.display)
      ensures !projectFailed && !IsNullOrEmpty(version) ==>
        && r == Success(old(banner.display))
        && dependencies == old(dependencies) +
             [(Mappings, MappingsDependency(mcpChannel, mcpVersion, mcpMcVersion)), (McpData, McpDataDependency(mcVersion))]
        && !banner.display
    {
      if projectFailed {
        return Success(false);
      }
      if IsNullOrEmpty(version) {
        return Failure(MissingVersionError);
      }
      dependencies := dependencies + [(Mappings, MappingsDependency(mcpChannel, mcpVersion, mcpMcVersion))];
      dependencies := dependencies + [(McpData, McpDataDependency(mcVersion))];
      if !banner.display {
        return Success(false);
      }
      banner.display := false;
      r := Success(true);
    }

    /**
      `parseAndStoreVersion`, after the version file has been looked up and
      loaded: a missing file gives null and changes nothing; a file that
      cannot be loaded is an error; otherwise the libraries are routed into
      the configurations that are still unresolved, the asset index becomes
      a replacement and the version is kept. A description without an asset
      index throws only after both loops have run, so its dependencies stay
      added while the replacer and the stored version are untouched.
     */
    method ParseAndStoreVersion(fileExists: bool, loaded: Result<Version, string>,
                                depsState: ConfigState, nativesState: ConfigState)
      returns (r: Result<Option<Version>, string>)
      modifies this`dependencies, this`replacer, this`mcVersionJson
      ensures !fileExists ==> r == Success(None) && unchanged(this)
      ensures fileExists && loaded.Failure? ==> r == Failure(loaded.error) && unchanged(this)
      ensures fileExists && loaded.Success? ==>
        dependencies == old(dependencies) + AddedDependencies(loaded.value, depsState, nativesState)
      ensures fileExists && loaded.Success? && loaded.value.assetIndexId.None? ==>
        && r == Failure(MissingAssetIndexError)
        && replacer == old(replacer) && mcVersionJson == old(mcVersionJson)
      ensures fileExists && loaded.Success? && loaded.value.assetIndexId.Some? ==>
        && r == Success(Some(loaded.value))
        && replacer == old(replacer)[AssetIndex := loaded.value.assetIndexId.value]
        && mcVersionJson == Some(loaded.value)
    {
      if !fileExists {
        return Success(None);
      }
      if loaded.Failure? {
        return Failure(loaded.error);
      }
      var version := loaded.value;
      var libs := version.libraries;

      if depsState == Unresolved {
        AddDepsLibraries(libs);
      }
      if nativesState == Unresolved {
        AddNativesLibraries(libs);
      }
      if version.assetIndexId.None? {
        return Failure(MissingAssetIndexError);
      }
      replacer := replacer[AssetIndex := version.assetIndexId.value];
      mcVersionJson := Some(version);
      r := Success(Some(version));
    }

    /** The dependencies loop of `parseAndStoreVersion`. */
    method AddDepsLibraries(libs: seq<Library>)
      modifies this`dependencies
      ensures dependencies == old(dependencies) + DepsEntries(libs)
    {
      var i := 0;
      while i < |libs|
        invariant 0 <= i <= |libs|
        invariant dependencies == old(dependencies) + DepsEntries(libs[..i])
      {
        assert libs[..i + 1][..i] == libs[..i];
        var lib := libs[i];
        if lib.natives.None? {
          var configName := McDeps;
          if Contains(lib.name, "java3d")
             || Contains(lib.name, "paulscode")
             || Contains(lib.name, "lwjgl")
             || Contains(lib.name, "twitch")
             || Contains(lib.name, "jinput")
          {
            configName := McDepsClient;
          }
          dependencies := dependencies + [(configName, Artifact(lib.artifactName))];
        }
        i := i + 1;
      }
      assert libs[..i] == libs;
    }

    /** The natives loop of `parseAndStoreVersion`. */
    method AddNativesLibraries(libs: seq<Library>)
      modifies this`dependencies
      ensures dependencies == old(dependencies) + NativesEntries(libs)
    {
      var i := 0;
      while i < |libs|
        invariant 0 <= i <= |libs|
        invariant dependencies == old(dependencies) + NativesEntries(libs[..i])
      {
        assert libs[..i + 1][..i] == libs[..i];
        var lib := libs[i];
        if lib.natives.Some? {
          dependencies := dependencies + [(Natives, Artifact(lib.artifactName))];
        }
        i := i + 1;
      }
      assert libs[..i] == libs;
    }
  }

  // ---------------------------------------------------------------------------
  // Properties of the routing

  /** The '!' check is a search for that one character. */
  lemma ContainsBang(s: string)
    ensures Contains(s, "!") <==> '!' in s
  {
    if '!' in s {
      var i :| 0 <= i < |s| && s[i] == '!';
      assert OccursAt(s, "!", i);
    }
    if Contains(s, "!") {
      var i: nat :| OccursAt(s, "!", i);
      assert s[i] == s[i..i + 1][0];
    }
  }

  /** The loops keep the libraries' order: routing a concatenation is the
      concatenation of the routings. */
  lemma {:induction false} EntriesConcat(a: seq<Library>, b: seq<Library>)
    ensures DepsEntries(a + b) == DepsEntries(a) + DepsEntries(b)
    ensures NativesEntries(a + b) == NativesEntries(a) + NativesEntries(b)
    decreases |b|
  {
    if b == [] {
      assert a + b == a;
    } else {
      var b' := b[..|b| - 1];
      EntriesConcat(a, b');
      assert (a + b)[..|a + b| - 1] == a + b';
      assert (a + b)[|a + b| - 1] == b[|b| - 1];
    }
  }

  /** The dependencies loop only ever uses the two deps configurations, the
      natives loop only the natives configuration. */
  lemma {:induction false} EntriesConfigs(libs: seq<Library>)
    ensures forall e :: e in DepsEntries(libs) ==> e.0 == McDeps || e.0 == McDepsClient
    ensures forall e :: e in NativesEntries(libs) ==> e.0 == Natives
  {
    if libs != [] {
      EntriesConfigs(libs[..|libs| - 1]);
    }
  }

  /** Every library lands in exactly one of the two loops' output. */
  lemma {:induction false} EntriesPartition(libs: seq<Library>)
    ensures |DepsEntries(libs)| + |NativesEntries(libs)| == |libs|
  {
    if libs != [] {
      EntriesPartition(libs[..|libs| - 1]);
    }
  }

  /** An artifact is added to a deps configuration iff some library without
      natives has it, and then under the configuration that library's name
      selects. */
  lemma {:induction false} DepsEntryIff(libs: seq<Library>, c: Config, artifact: string)
    ensures (c, Artifact(artifact)) in DepsEntries(libs) <==>
      exists i :: 0 <= i < |libs| && libs[i].natives.None? && libs[i].artifactName == artifact
                  && c == DepsConfig(libs[i].name)
  {
    if libs != [] {
      var init := libs[..|libs| - 1];
      DepsEntryIff(init, c, artifact);
      if exists i :: 0 <= i < |init| && init[i].natives.None? && init[i].artifactName == artifact
                     && c == DepsConfig(init[i].name) {
        var i :| 0 <= i < |init| && init[i].natives.None? && init[i].artifactName == artifact
                 && c == DepsConfig(init[i].name);
        assert libs[i] == init[i];
      }
      if exists i :: 0 <= i < |libs| && libs[i].natives.None? && libs[i].artifactName == artifact
                     && c == DepsConfig(libs[i].name) {
        var i :| 0 <= i < |libs| && libs[i].natives.None? && libs[i].artifactName == artifact
                 && c == DepsConfig(libs[i].name);
        if i < |init| {
          assert init[i] == libs[i];
        }
      }
    }
  }

  /** An artifact is added to the natives configuration iff some library
      with natives has it. */
  lemma {:induction false} NativesEntryIff(libs: seq<Library>, c: Config, artifact: string)
    ensures (c, Artifact(artifact)) in NativesEntries(libs) <==>
      c == Natives && exists i :: 0 <= i < |libs| && libs[i].natives.Some? && libs[i].artifactName == artifact
  {
    if libs != [] {
      var init := libs[..|libs| - 1];
      NativesEntryIff(init, c, artifact);
      if exists i :: 0 <= i < |init| && init[i].natives.Some? && init[i].artifactName == artifact {
        var i :| 0 <= i < |init| && init[i].natives.Some? && init[i].artifactName == artifact;
        assert libs[i] == init[i];
      }
      if exists i :: 0 <= i < |libs| && libs[i].natives.Some? && libs[i].artifactName == artifact {
        var i :| 0 <= i < |libs| && libs[i].natives.Some? && libs[i].artifactName == artifact;
        if i < |init| {
          assert init[i] == libs[i];
        }
      }
    }
  }

  /** A configuration that is no longer unresolved gets nothing from its
      loop. */
  lemma ResolvedConfigsGetNothing(v: Version, depsState: ConfigState, nativesState: ConfigState)
    ensures depsState != Unresolved ==>
      AddedDependencies(v, depsState, nativesState) ==
        (if nativesState == Unresolved then NativesEntries(v.libraries) else [])
    ensures nativesState != Unresolved ==>
      AddedDependencies(v, depsState, nativesState) ==
        (if depsState == Unresolved then DepsEntries(v.libraries) else [])
  {
    var d := if depsState == Unresolved then DepsEntries(v.libraries) else [];
    var n := if nativesState == Unresolved then NativesEntries(v.libraries) else [];
    assert [] + n == n;
    assert d + [] == d;
  }
}
