/**
  The generated development launcher: the default launch arguments, the
  update of those arguments from the command line, the flat `--key value`
  list handed to the real main class, the logged form of that list with the
  access token hidden, the login guard and the library-path extension.

  The argument map is a Java `HashMap`; its iteration order is arbitrary, so
  it is modelled as a sequence of entries with distinct keys in whatever
  order the map enumerates them, and the properties below hold for every
  such order. A value of `None` is a key mapped to null.
 */
module GradleStart {
  import opened Wrappers
  import opened JavaStrings

  type ArgEntry = (string, Option<string>)

  predicate DistinctKeys(m: seq<ArgEntry>)
  {
    forall i, j :: 0 <= i < j < |m| ==> m[i].0 != m[j].0
  }

  function Keys(m: seq<ArgEntry>): set<string>
  {
    set i | 0 <= i < |m| :: m[i].0
  }

  /** `argMap.get(key)`: null both for an absent key and for a null value. */
  function ValueOf(m: seq<ArgEntry>, key: string): Option<string>
  {
    if m == [] then None
    else if m[|m| - 1].0 == key then m[|m| - 1].1
    else ValueOf(m[..|m| - 1], key)
  }

  /** Every entry for `key` with its value replaced, the rest untouched. */
  function ReplaceValue(m: seq<ArgEntry>, key: string, value: Option<string>): (r: seq<ArgEntry>)
    ensures |r| == |m| && forall i :: 0 <= i < |m| ==> r[i].0 == m[i].0
    ensures forall k :: ValueOf(r, k) == if k == key && k in Keys(m) then value else ValueOf(m, k)
  {
    if m == [] then []
    else
      var init := ReplaceValue(m[..|m| - 1], key, value);
      var last := m[|m| - 1];
      assert Keys(m) == Keys(m[..|m| - 1]) + {last.0};
      var r := init + [if last.0 == key then (key, value) else last];
      assert r[..|r| - 1] == init;
      r
  }

  /** `argMap.put(key, value)`. The model keeps an existing key where it is
      and appends a new one; a hash map promises no order, and no property
      of this model depends on where a key sits. */
  function Put(m: seq<ArgEntry>, key: string, value: Option<string>): (r: seq<ArgEntry>)
    ensures Keys(r) == Keys(m) + {key}
    ensures ValueOf(r, key) == value
    ensures forall k :: k != key ==> ValueOf(r, k) == ValueOf(m, k)
    ensures DistinctKeys(m) ==> DistinctKeys(r)
  {
    if key in Keys(m) then
      var r := ReplaceValue(m, key, value);
      assert Keys(r) == Keys(m) by {
        forall k | k in Keys(m) ensures k in Keys(r) {
          var i :| 0 <= i < |m| && m[i].0 == k;
          assert r[i].0 == k;
        }
      }
      r
    else
      var r := m + [(key, value)];
      assert r[..|r| - 1] == m;
      assert Keys(r) == Keys(m) + {key} by {
        forall k | k in Keys(m) ensures k in Keys(r) {
          var i :| 0 <= i < |m| && m[i].0 == k;
          assert r[i].0 == k;
        }
        assert r[|m|].0 == key;
      }
      r
  }

  /** The values `setDefaultArguments` puts, placeholders included. */
  const DefaultArguments: map<string, Option<string>> := map[
    "version" := Some("@@MCVERSION@@"),
    "assetIndex" := Some("@@ASSETINDEX@@"),
    "assetsDir" := Some("@@ASSETSDIR@@"),
    "accessToken" := Some("FML"),
    "userProperties" := Some("{}"),
    "username" := None,
    "password" := None]

  /** `m` is `original` with the entries of `d` put over it. */
  ghost predicate Overlays(m: seq<ArgEntry>, original: seq<ArgEntry>, d: map<string, Option<string>>)
  {
    && Keys(m) == Keys(original) + d.Keys
    && forall k :: ValueOf(m, k) == if k in d then d[k] else ValueOf(original, k)
  }

  /** A further put extends the overlay by one entry, the later value winning. */
  lemma PutOverlays(m: seq<ArgEntry>, original: seq<ArgEntry>, d: map<string, Option<string>>,
                    key: string, value: Option<string>)
    requires Overlays(m, original, d)
    ensures Overlays(Put(m, key, value), original, d[key := value])
  {
    var r := Put(m, key, value);
    forall k ensures ValueOf(r, k) == if k in d[key := value] then d[key := value][k] else ValueOf(original, k) {
      if k != key {
        assert ValueOf(r, k) == ValueOf(m, k);
      }
    }
  }

  /** One entry as `parseArgs` leaves it. */
  function UpdatedEntry(e: ArgEntry, options: map<string, string>): ArgEntry
  {
    if e.0 in options then (e.0, Some(options[e.0])) else e
  }

  /** The map after `parseArgs`: every key the map already has and the parser
      gave an argument for takes that argument; nothing else changes. */
  function UpdateKnownKeys(m: seq<ArgEntry>, options: map<string, string>): (r: seq<ArgEntry>)
    ensures |r| == |m|
  {
    if m == [] then []
    else
      var last := m[|m| - 1];
      UpdateKnownKeys(m[..|m| - 1], options) + [UpdatedEntry(last, options)]
  }

  /** The entries `getArgs` emits, in enumeration order: those whose value is
      neither null nor empty. */
  function EmittedEntries(m: seq<ArgEntry>): seq<(string, string)>
  {
    if m == [] then []
    else
      var last := m[|m| - 1];
      EmittedEntries(m[..|m| - 1]) + (if IsNullOrEmpty(last.1) then [] else [(last.0, last.1.value)])
  }

  /** Each emitted entry as the pair "--key", value. */
  function Flatten(e: seq<(string, string)>): seq<string>
  {
    if e == [] then []
    else Flatten(e[..|e| - 1]) + ["--" + e[|e| - 1].0, e[|e| - 1].1]
  }

  function MapArgs(m: seq<ArgEntry>): seq<string>
  {
    Flatten(EmittedEntries(m))
  }

  /** The `--tweakClass` pair, present iff the tweak class is not empty. */
  function TweakArgs(tweakClass: string): seq<string>
  {
    if tweakClass != "" then ["--tweakClass", tweakClass] else []
  }

  // ---------------------------------------------------------------------------
  // The logged form of the argument list

  predicate IsAccessTokenFlag(s: string)
  {
    EqualsIgnoreCase("--accessToken", s)
  }

  /** The index the logging loop visits after `i`: an access-token flag makes
      it skip the next element. */
  function NextLogged(out: seq<string>, i: nat): nat
    requires i < |out|
  {
    if IsAccessTokenFlag(out[i]) then i + 2 else i + 1
  }

  /** The indices of `out` the log shows, from `i` on, in increasing order. */
  function Shown(out: seq<string>, i: nat): (r: seq<nat>)
    ensures forall k :: 0 <= k < |r| ==> i <= r[k] < |out|
    ensures forall k, l :: 0 <= k < l < |r| ==> r[k] < r[l]
    ensures i < |out| ==> r != [] && r[0] == i
    decreases |out| - i
  {
    if i >= |out| then [] else [i] + Shown(out, NextLogged(out, i))
  }

  /** How one shown element is written: a flag is followed by "{REDACTED}". */
  function LoggedItem(out: seq<string>, j: nat): string
    requires j < |out|
  {
    if IsAccessTokenFlag(out[j]) then out[j] + "{REDACTED}" else out[j]
  }

  function LoggedItems(out: seq<string>, idx: seq<nat>): (r: seq<string>)
    requires forall k :: 0 <= k < |idx| ==> idx[k] < |out|
    ensures |r| == |idx|
  {
    if idx == [] then [] else [LoggedItem(out, idx[0])] + LoggedItems(out, idx[1..])
  }

  /** The items separated by ", ". */
  function JoinComma(items: seq<string>): string
  {
    if |items| == 0 then ""
    else if |items| == 1 then items[0]
    else items[0] + ", " + JoinComma(items[1..])
  }

  function RenderFrom(out: seq<string>, i: nat): string
  {
    JoinComma(LoggedItems(out, Shown(out, i)))
  }

  /** The bracketed list `getArgs` logs. */
  function RenderLog(out: seq<string>): string
  {
    "[" + RenderFrom(out, 0) + "]"
  }

  /** One step of the logging loop. */
  lemma RenderFromStep(out: seq<string>, i: nat)
    requires i < |out|
    ensures RenderFrom(out, i) == LoggedItem(out, i) +
      (if NextLogged(out, i) < |out| then ", " + RenderFrom(out, NextLogged(out, i)) else "")
  {
    var rest := Shown(out, NextLogged(out, i));
    assert Shown(out, i) == [i] + rest;
    assert ([i] + rest)[1..] == rest;
  }

  // ---------------------------------------------------------------------------
  // Library path

  /**
    `hackNatives`: the natives directory becomes the library path when that
    was null or empty, and is otherwise appended after a path separator.
   */
  function LibraryPath(paths: Option<string>, nativesDir: string, pathSeparator: string): (r: string)
    ensures IsNullOrEmpty(paths) ==> r == nativesDir
    ensures !IsNullOrEmpty(paths) ==>
      && |r| == |paths.value| + |pathSeparator| + |nativesDir|
      && r[..|paths.value|] == paths.value
      && r[|paths.value|..|paths.value| + |pathSeparator|] == pathSeparator
    ensures |r| >= |nativesDir| && r[|r| - |nativesDir|..] == nativesDir
  {
    if IsNullOrEmpty(paths) then nativesDir else paths.value + pathSeparator + nativesDir
  }

  // ---------------------------------------------------------------------------
  // The launcher object

  class GradleStart {
    var argMap: seq<ArgEntry>
    var extras: seq<string>
    /** What `getTweakClass` returns: the value substituted for
        "@@TWEAKERCLIENT@@" when the launcher is generated. */
    const tweakClass: string

    ghost predicate Valid()
      reads this
    {
      DistinctKeys(argMap)
    }

    constructor (tweakClass: string)
      ensures Valid() && argMap == [] && extras == [] && this.tweakClass == tweakClass
    {
      argMap := [];
      extras := [];
      this.tweakClass := tweakClass;
    }

    /** `setDefaultArguments`: the seven defaults are put; other keys keep
        their values. */
    method SetDefaultArguments()
      requires Valid()
      modifies this`argMap
      ensures Valid()
      ensures Keys(argMap) == Keys(old(argMap)) + DefaultArguments.Keys
      ensures forall k :: (ValueOf(argMap, k) ==
        if k in DefaultArguments then DefaultArguments[k] else ValueOf(old(argMap), k))
    {
      assert Overlays(argMap, argMap, map[]);
      ghost var original, d := argMap, map[];
      PutOverlays(argMap, original, d, "version", Some("@@MCVERSION@@"));
      argMap, d := Put(argMap, "version", Some("@@MCVERSION@@")), d["version" := Some("@@MCVERSION@@")];
      PutOverlays(argMap, original, d, "assetIndex", Some("@@ASSETINDEX@@"));
      argMap, d := Put(argMap, "assetIndex", Some("@@ASSETINDEX@@")), d["assetIndex" := Some("@@ASSETINDEX@@")];
      PutOverlays(argMap, original, d, "assetsDir", Some("@@ASSETSDIR@@"));
      argMap, d := Put(argMap, "assetsDir", Some("@@ASSETSDIR@@")), d["assetsDir" := Some("@@ASSETSDIR@@")];
      PutOverlays(argMap, original, d, "accessToken", Some("FML"));
      argMap, d := Put(argMap, "accessToken", Some("FML")), d["accessToken" := Some("FML")];
      PutOverlays(argMap, original, d, "userProperties", Some("{}"));
      argMap, d := Put(argMap, "userProperties", Some("{}")), d["userProperties" := Some("{}")];
      PutOverlays(argMap, original, d, "username", None);
      argMap, d := Put(argMap, "username", None), d["username" := None];
      PutOverlays(argMap, original, d, "password", None);
      argMap, d := Put(argMap, "password", None), d["password" := None];
      assert d == DefaultArguments;
    }

    /**
      `parseArgs` after the option parser has run: `options` are the
      arguments the parser reports for the options it was told to accept,
      `nonOptions` the remaining non-option words. Each key of the map, in
      enumeration order, takes its option's argument when it has one.
     */
    method ParseArgs(options: map<string, string>, nonOptions: seq<string>)
      requires Valid()
      modifies this`argMap, this`extras
      ensures Valid()
      ensures argMap == UpdateKnownKeys(old(argMap), options)
      ensures extras == nonOptions
    {
      ghost var original := argMap;
      var i := 0;
      while i < |argMap|
        invariant 0 <= i <= |argMap| == |original|
        invariant forall j :: 0 <= j < i ==> argMap[j] == UpdatedEntry(original[j], options)
        invariant forall j :: i <= j < |argMap| ==> argMap[j] == original[j]
      {
        var key := argMap[i].0;
        if key in options {
          argMap := argMap[i := (key, Some(options[key]))];
        }
        i := i + 1;
      }
      UpdateKnownKeysPointwise(original, options);
      UpdateKnownKeysOnlyKnown(original, options, "");
      extras := nonOptions;
    }

    /** The `preLaunch` guard: a login is attempted iff the password is
        neither null nor empty. The login itself is not part of this model. */
    method PreLaunch() returns (attemptLogin: bool)
      ensures attemptLogin <==> ValueOf(argMap, "password").Some? && ValueOf(argMap, "password").value != ""
    {
      attemptLogin := !IsNullOrEmpty(ValueOf(argMap, "password"));
    }

    /**
      `getArgs`: the map's emitted pairs in enumeration order, then the
      tweak-class pair, then the extras; and the bracketed list it logs.
     */
    method GetArgs() returns (out: seq<string>, logged: string)
      ensures out == MapArgs(argMap) + TweakArgs(tweakClass) + extras
      ensures logged == RenderLog(out)
    {
      var list: seq<string> := [];
      var i := 0;
      while i < |argMap|
        invariant 0 <= i <= |argMap|
        invariant list == MapArgs(argMap[..i])
      {
        MapArgsStep(argMap, i);
        var val := argMap[i].1;
        if !IsNullOrEmpty(val) {
          list := list + ["--" + argMap[i].0];
          list := list + [val.value];
        }
        i := i + 1;
      }
      assert argMap[..i] == argMap;
      if tweakClass != "" {
        list := list + ["--tweakClass"];
        list := list + [tweakClass];
      }
      list := list + extras;
      out := list;
      logged := LogArguments(out);
    }
  }

  /** The logging loop of `getArgs`: each element in turn, an access-token
      flag followed by "{REDACTED}" in place of the next element, and ", "
      between shown elements. */
  method LogArguments(out: seq<string>) returns (logged: string)
    ensures logged == RenderLog(out)
  {
      var b := "[";
      var x := 0;
      while x < |out|
        invariant 0 <= x <= |out| + 1
        invariant b + RenderFrom(out, x) == "[" + RenderFrom(out, 0)
      {
        RenderFromStep(out, x);
        ghost var next := NextLogged(out, x);
        b := b + out[x];
        if IsAccessTokenFlag(out[x]) {
          b := b + "{REDACTED}";
          x := x + 1;
        }
        if x < |out| - 1 {
          b := b + ", ";
        }
        x := x + 1;
        assert x == next;
      }
      b := b + "]";
      logged := b;
  }

  // ---------------------------------------------------------------------------
  // Properties

  lemma {:induction false} ValueOfAbsent(m: seq<ArgEntry>, key: string)
    requires key !in Keys(m)
    ensures ValueOf(m, key) == None
  {
    if m != [] {
      assert Keys(m[..|m| - 1]) <= Keys(m);
      ValueOfAbsent(m[..|m| - 1], key);
    }
  }

  /** Parsing changes no key and adds none: unknown options are dropped, and
      each known key takes its option's argument when there is one. */
  lemma {:induction false} UpdateKnownKeysOnlyKnown(m: seq<ArgEntry>, options: map<string, string>, key: string)
    ensures Keys(UpdateKnownKeys(m, options)) == Keys(m)
    ensures ValueOf(UpdateKnownKeys(m, options), key) ==
      if key in Keys(m) && key in options then Some(options[key]) else ValueOf(m, key)
    ensures DistinctKeys(m) ==> DistinctKeys(UpdateKnownKeys(m, options))
  {
    var r := UpdateKnownKeys(m, options);
    if m != [] {
      var init := m[..|m| - 1];
      UpdateKnownKeysOnlyKnown(init, options, key);
      UpdateKnownKeysSameKeys(m, options);
      assert Keys(m) == Keys(init) + {m[|m| - 1].0};
      assert r[..|r| - 1] == UpdateKnownKeys(init, options);
      if key !in Keys(m) {
        ValueOfAbsent(m, key);
        ValueOfAbsent(r, key);
      }
    }
  }

  /** Parsing updates each entry on its own. */
  lemma {:induction false} UpdateKnownKeysPointwise(m: seq<ArgEntry>, options: map<string, string>)
    ensures forall j :: 0 <= j < |m| ==> UpdateKnownKeys(m, options)[j] == UpdatedEntry(m[j], options)
  {
    if m != [] {
      UpdateKnownKeysPointwise(m[..|m| - 1], options);
    }
  }

  /** The list-building loop's step. */
  lemma MapArgsStep(m: seq<ArgEntry>, i: nat)
    requires i < |m|
    ensures MapArgs(m[..i + 1]) == MapArgs(m[..i]) +
      (if IsNullOrEmpty(m[i].1) then [] else ["--" + m[i].0, m[i].1.value])
  {
    assert m[..i + 1][..i] == m[..i];
    var e := EmittedEntries(m[..i]);
    if !IsNullOrEmpty(m[i].1) {
      var e' := e + [(m[i].0, m[i].1.value)];
      assert e'[..|e'| - 1] == e;
    } else {
      assert EmittedEntries(m[..i + 1]) == e + [];
      assert e + [] == e;
    }
  }

  lemma {:induction false} UpdateKnownKeysSameKeys(m: seq<ArgEntry>, options: map<string, string>)
    ensures forall i :: 0 <= i < |m| ==> UpdateKnownKeys(m, options)[i].0 == m[i].0
  {
    if m != [] {
      UpdateKnownKeysSameKeys(m[..|m| - 1], options);
    }
  }

  /** The map part of the list alternates "--key" and value, so it has even
      length. */
  lemma {:induction false} MapArgsArePairs(m: seq<ArgEntry>)
    ensures |MapArgs(m)| == 2 * |EmittedEntries(m)|
    ensures forall j :: 0 <= j < |EmittedEntries(m)| ==>
      MapArgs(m)[2 * j] == "--" + EmittedEntries(m)[j].0 && MapArgs(m)[2 * j + 1] == EmittedEntries(m)[j].1
  {
    FlattenPairs(EmittedEntries(m));
  }

  lemma {:induction false} FlattenPairs(e: seq<(string, string)>)
    ensures |Flatten(e)| == 2 * |e|
    ensures forall j :: 0 <= j < |e| ==> Flatten(e)[2 * j] == "--" + e[j].0 && Flatten(e)[2 * j + 1] == e[j].1
  {
    if e != [] {
      FlattenPairs(e[..|e| - 1]);
    }
  }

  /** Exactly the entries with a non-null, non-empty value are emitted, each
      once, whatever the enumeration order. */
  lemma {:induction false} EmittedEntriesExact(m: seq<ArgEntry>, key: string, value: string)
    requires DistinctKeys(m)
    ensures (key, value) in EmittedEntries(m) <==> ValueOf(m, key) == Some(value) && value != ""
  {
    if m != [] {
      var init := m[..|m| - 1];
      var last := m[|m| - 1];
      EmittedEntriesExact(init, key, value);
      if last.0 == key {
        assert key !in Keys(init) by {
          forall i | 0 <= i < |init| ensures init[i].0 != key {
            assert init[i] == m[i];
          }
        }
        ValueOfAbsent(init, key);
        if (key, value) in EmittedEntries(init) {
          EmittedKeysInMap(init, key, value);
        }
      }
    }
  }

  lemma {:induction false} EmittedKeysInMap(m: seq<ArgEntry>, key: string, value: string)
    requires (key, value) in EmittedEntries(m)
    ensures key in Keys(m)
  {
    var init := m[..|m| - 1];
    assert Keys(init) <= Keys(m);
    if (key, value) in EmittedEntries(init) {
      EmittedKeysInMap(init, key, value);
    }
  }

  /** An access-token flag that the log shows is never followed by its
      value: the element after it is not shown. */
  lemma {:induction false} RedactedValueNotShown(out: seq<string>, i: nat, j: nat)
    requires j in Shown(out, i) && IsAccessTokenFlag(out[j])
    ensures j + 1 !in Shown(out, i)
    decreases |out| - i
  {
    var rest := Shown(out, NextLogged(out, i));
    assert Shown(out, i) == [i] + rest;
    if j != i {
      RedactedValueNotShown(out, NextLogged(out, i), j);
    }
  }

  /** The only elements the log leaves out are the ones right after a shown
      access-token flag. */
  lemma {:induction false} HiddenOnlyAfterFlag(out: seq<string>, i: nat, k: nat)
    requires i <= k < |out| && k !in Shown(out, i)
    ensures k >= 1 && k - 1 in Shown(out, i) && IsAccessTokenFlag(out[k - 1])
    decreases |out| - i
  {
    var next := NextLogged(out, i);
    assert Shown(out, i) == [i] + Shown(out, next);
    if next <= k {
      HiddenOnlyAfterFlag(out, next, k);
    }
  }

  /** Without an access-token flag the log is the whole list. */
  lemma {:induction false} NoFlagLogsAll(out: seq<string>, i: nat)
    requires i <= |out|
    requires forall j :: 0 <= j < |out| ==> !IsAccessTokenFlag(out[j])
    ensures RenderFrom(out, i) == JoinComma(out[i..])
    decreases |out| - i
  {
    if i < |out| {
      NoFlagLogsAll(out, i + 1);
      RenderFromStep(out, i);
      assert out[i..] == [out[i]] + out[i + 1..];
      if i + 1 == |out| {
        assert out[i..] == [out[i]];
      }
    }
  }
}
