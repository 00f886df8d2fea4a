/**
  The user-facing `minecraft { ... }` extension: the source replacement
  table, the run directory (mirrored into the plugin's token replacer) and
  the client JVM and run argument lists, which are handed out resolved.

  The values a build script passes are arbitrary objects; the model keeps
  them as values of a type parameter `T`, together with the two things the
  extension asks of them: `toString`, and the plugin's `resolveString`
  (which turns a delayed value or a closure into its string). Both are
  foreign to this model and are fixed when the extension is created.
 */
module UserBaseExtension {
  import opened Wrappers

  /** The token the run directory is stored under in the replacer. */
  const RunDirToken: string := "{RUN_DIR}"

  /** The table after `replace(token, v)` for each entry in turn: the later
      entry wins when two tokens print the same. */
  function ReplacedAll<T>(toStr: T -> string, m: map<string, T>, entries: seq<(T, T)>): map<string, T>
    decreases |entries|
  {
    if entries == [] then m
    else ReplacedAll(toStr, m[toStr(entries[0].0) := entries[0].1], entries[1..])
  }

  /** The last replacement given for `key`, if any. */
  function LastReplacement<T>(toStr: T -> string, entries: seq<(T, T)>, key: string): (r: Option<T>)
    ensures r.None? <==> forall i :: 0 <= i < |entries| ==> toStr(entries[i].0) != key
  {
    if entries == [] then None
    else if toStr(entries[|entries| - 1].0) == key then Some(entries[|entries| - 1].1)
    else LastReplacement(toStr, entries[..|entries| - 1], key)
  }

  class UserBaseExtension<T> {
    var replacements: map<string, T>
    var includes: seq<string>
    var runDir: string
    var clientJvmArgs: seq<T>
    var clientRunArgs: seq<T>
    /** The plugin's token replacer, as far as this extension writes to it. */
    var replacer: map<string, string>
    const toStr: T -> string
    const resolveString: T -> string

    /** A new extension: empty table and includes, run directory "run", no
        arguments. */
    constructor (toStr: T -> string, resolveString: T -> string, replacer: map<string, string>)
      ensures replacements == map[] && includes == []
      ensures runDir == "run"
      ensures clientJvmArgs == [] && clientRunArgs == []
      ensures this.replacer == replacer
      ensures this.toStr == toStr && this.resolveString == resolveString
    {
      replacements := map[];
      includes := [];
      runDir := "run";
      clientJvmArgs := [];
      clientRunArgs := [];
      this.replacer := replacer;
      this.toStr := toStr;
      this.resolveString := resolveString;
    }

    /** `replace(token, replacement)`: stored under the token's string, any
        earlier value for it overwritten. */
    method Replace(token: T, replacement: T)
      modifies this`replacements
      ensures replacements == old(replacements)[toStr(token) := replacement]
    {
      replacements := replacements[toStr(token) := replacement];
    }

    /** `replace(map)`: one `replace` per entry, in the map's enumeration
        order. */
    method ReplaceAll(entries: seq<(T, T)>)
      modifies this`replacements
      ensures replacements == ReplacedAll(toStr, old(replacements), entries)
    {
      var i := 0;
      while i < |entries|
        invariant 0 <= i <= |entries|
        invariant ReplacedAll(toStr, old(replacements), entries) == ReplacedAll(toStr, replacements, entries[i..])
      {
        assert entries[i..][1..] == entries[i + 1..];
        Replace(entries[i].0, entries[i].1);
        i := i + 1;
      }
    }

    method GetReplacements() returns (r: map<string, T>)
      ensures r == replacements
    {
      r := replacements;
    }

    method GetIncludes() returns (r: seq<string>)
      ensures r == includes
    {
      r := includes;
    }

    /** `setRunDir`: the run directory, and the replacer's run-directory
        token with it. */
    method SetRunDir(value: string)
      modifies this`runDir, this`replacer
      ensures runDir == value
      ensures replacer == old(replacer)[RunDirToken := value]
    {
      runDir := value;
      replacer := replacer[RunDirToken := runDir];
    }

    method GetRunDir() returns (r: string)
      ensures r == runDir
    {
      r := runDir;
    }

    method GetClientJvmArgs() returns (r: seq<T>)
      ensures r == clientJvmArgs
    {
      r := clientJvmArgs;
    }

    method SetClientJvmArgs(args: seq<T>)
      modifies this`clientJvmArgs
      ensures clientJvmArgs == args
    {
      clientJvmArgs := args;
    }

    method GetClientRunArgs() returns (r: seq<T>)
      ensures r == clientRunArgs
    {
      r := clientRunArgs;
    }

    method SetClientRunArgs(args: seq<T>)
      modifies this`clientRunArgs
      ensures clientRunArgs == args
    {
      clientRunArgs := args;
    }

    /** `resolve`: every element resolved to its string, in order. */
    method Resolve(list: seq<T>) returns (out: seq<string>)
      ensures |out| == |list|
      ensures forall i :: 0 <= i < |list| ==> out[i] == resolveString(list[i])
    {
      out := [];
      var i := 0;
      while i < |list|
        invariant 0 <= i <= |list|
        invariant |out| == i
        invariant forall j :: 0 <= j < i ==> out[j] == resolveString(list[j])
      {
        out := out + [resolveString(list[i])];
        i := i + 1;
      }
    }

    method GetResolvedClientJvmArgs() returns (out: seq<string>)
      ensures |out| == |clientJvmArgs|
      ensures forall i :: 0 <= i < |clientJvmArgs| ==> out[i] == resolveString(clientJvmArgs[i])
    {
      out := Resolve(clientJvmArgs);
    }

    method GetResolvedClientRunArgs() returns (out: seq<string>)
      ensures |out| == |clientRunArgs|
      ensures forall i :: 0 <= i < |clientRunArgs| ==> out[i] == resolveString(clientRunArgs[i])
    {
      out := Resolve(clientRunArgs);
    }
  }

  // ---------------------------------------------------------------------------
  // Properties of the replacement table

  /** After `replace(map)`, the tokens are the earlier ones plus every
      entry's; each entry's token holds the last value given for it, and
      every other token keeps its value. */
  lemma {:induction false} ReplacedAllContents<T>(toStr: T -> string, m: map<string, T>, entries: seq<(T, T)>, key: string)
    ensures key in ReplacedAll(toStr, m, entries) <==>
      key in m || exists i :: 0 <= i < |entries| && toStr(entries[i].0) == key
    ensures key in ReplacedAll(toStr, m, entries) ==>
      ReplacedAll(toStr, m, entries)[key] ==
        match LastReplacement(toStr, entries, key)
        case Some(v) => v
        case None => m[key]
    decreases |entries|
  {
    if entries != [] {
      var m' := m[toStr(entries[0].0) := entries[0].1];
      var rest := entries[1..];
      ReplacedAllContents(toStr, m', rest, key);
      LastReplacementFront(toStr, entries, key);
      if key in ReplacedAll(toStr, m, entries) && !(key in m) {
        if toStr(entries[0].0) != key {
          var i :| 0 <= i < |rest| && toStr(rest[i].0) == key;
          assert toStr(entries[i + 1].0) == key;
        }
      }
      if exists i :: 0 <= i < |entries| && toStr(entries[i].0) == key {
        var i :| 0 <= i < |entries| && toStr(entries[i].0) == key;
        if i > 0 {
          assert toStr(rest[i - 1].0) == key;
        }
      }
    }
  }

  /** The last replacement for a key, read from the front. */
  lemma {:induction false} LastReplacementFront<T>(toStr: T -> string, entries: seq<(T, T)>, key: string)
    requires entries != []
    ensures LastReplacement(toStr, entries, key) ==
      match LastReplacement(toStr, entries[1..], key)
      case Some(v) => Some(v)
      case None => if toStr(entries[0].0) == key then Some(entries[0].1) else None
    decreases |entries|
  {
    if |entries| > 1 {
      var init := entries[..|entries| - 1];
      LastReplacementFront(toStr, init, key);
      assert init[1..] == entries[1..][..|entries[1..]| - 1];
    }
  }

  /** `replace(map)` equals the single `replace`s one after the other. */
  lemma {:induction false} ReplacedAllConcat<T>(toStr: T -> string, m: map<string, T>, a: seq<(T, T)>, b: seq<(T, T)>)
    ensures ReplacedAll(toStr, m, a + b) == ReplacedAll(toStr, ReplacedAll(toStr, m, a), b)
    decreases |a|
  {
    if a != [] {
      assert (a + b)[0] == a[0] && (a + b)[1..] == a[1..] + b;
      ReplacedAllConcat(toStr, m[toStr(a[0].0) := a[0].1], a[1..], b);
    } else {
      assert a + b == b;
    }
  }

  /** A one-entry map is a single `replace`. */
  lemma ReplacedAllSingle<T>(toStr: T -> string, m: map<string, T>, token: T, replacement: T)
    ensures ReplacedAll(toStr, m, [(token, replacement)]) == m[toStr(token) := replacement]
  {
    assert [(token, replacement)][1..] == [];
  }
}
