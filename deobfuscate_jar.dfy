/**
  The rules the deobfuscation task applies around its calls into the
  remapping and exceptor libraries: loading the rename table from the MCP
  method and field CSVs, rewriting access-transformer symbols through it,
  removing exceptor-configuration entries for classes the archive does not
  contain, and the defaults for the optional task inputs.

  An archive is the set of its entry names; a CSV file is its sequence of
  lines; a file path is a string.
 */
module DeobfuscateJar {
  import opened Wrappers
  import opened JavaStrings

  // ---------------------------------------------------------------------------
  // The exceptor (MCInjector) configuration

  /** One `innerClasses` element of an exceptor JSON struct. Only `innerClass`
      is read by the sanitiser; the other attributes are carried through. */
  datatype InnerClass = InnerClass(
    innerClass: Option<string>,
    outerClass: Option<string>,
    innerName: Option<string>,
    access: Option<string>)

  /** The struct the exceptor JSON holds for one class. `enclosingMethod`
      stands for every field the sanitiser leaves alone. */
  datatype InjectorStruct = InjectorStruct(
    enclosingMethod: Option<string>,
    innerClasses: Option<seq<InnerClass>>)

  /** The archive entry a class name denotes: Java's `name + ".class"`, where
      a null name concatenates as "null". */
  function ClassFile(name: Option<string>): string
  {
    (if name.None? then "null" else name.value) + ".class"
  }

  predicate InArchive(zip: set<string>, ic: InnerClass)
  {
    ClassFile(ic.innerClass) in zip
  }

  /** The inner-class entries whose class file is in the archive, in order. */
  function KeptInnerClasses(zip: set<string>, s: seq<InnerClass>): seq<InnerClass>
  {
    if s == [] then []
    else
      var init := KeptInnerClasses(zip, s[..|s| - 1]);
      if InArchive(zip, s[|s| - 1]) then init + [s[|s| - 1]] else init
  }

  /** A struct with its unknown inner classes removed; a null list stays null. */
  function SanitizeStruct(zip: set<string>, st: InjectorStruct): InjectorStruct
  {
    match st.innerClasses
    case None => st
    case Some(list) => st.(innerClasses := Some(KeptInnerClasses(zip, list)))
  }

  /** The exceptor configuration restricted to what the archive contains. */
  function Sanitize(zip: set<string>, config: map<string, InjectorStruct>): map<string, InjectorStruct>
  {
    map k | k in config && ClassFile(Some(k)) in zip :: SanitizeStruct(zip, config[k])
  }

  /** The exceptor JSON, loaded into a mutable map of class name to struct. */
  class InjectorConfig {
    var structs: map<string, InjectorStruct>

    constructor (structs: map<string, InjectorStruct>)
      ensures this.structs == structs
    {
      this.structs := structs;
    }
  }

  /**
    The inner loop of `removeUnknownClasses`: walk the list once and drop every
    entry whose class file the archive lacks.
   */
  method RemoveUnknownInnerClasses(zip: set<string>, innerClasses: seq<InnerClass>)
    returns (kept: seq<InnerClass>)
    ensures kept == KeptInnerClasses(zip, innerClasses)
  {
    kept := [];
    var i := 0;
    while i < |innerClasses|
      invariant 0 <= i <= |innerClasses|
      invariant kept == KeptInnerClasses(zip, innerClasses[..i])
    {
      assert innerClasses[..i + 1][..i] == innerClasses[..i];
      if InArchive(zip, innerClasses[i]) {
        kept := kept + [innerClasses[i]];
      }
      i := i + 1;
    }
    assert innerClasses[..i] == innerClasses;
  }

  /**
    `removeUnknownClasses`: visit the classes in the map's (arbitrary)
    iteration order, delete those whose class file is missing, and filter the
    inner-class list of each survivor.
   */
  method RemoveUnknownClasses(zip: set<string>, config: InjectorConfig)
    modifies config
    ensures config.structs == Sanitize(zip, old(config.structs))
  {
    ghost var original := config.structs;
    var pending := config.structs.Keys;
    while pending != {}
      invariant pending <= original.Keys
      invariant forall k :: k in config.structs <==>
        k in original && (k in pending || ClassFile(Some(k)) in zip)
      invariant forall k :: k in config.structs ==>
        config.structs[k] == if k in pending then original[k] else SanitizeStruct(zip, original[k])
      decreases pending
    {
      var className :| className in pending;
      pending := pending - {className};
      if ClassFile(Some(className)) !in zip {
        config.structs := config.structs - {className};
      } else {
        var st := config.structs[className];
        if st.innerClasses.Some? {
          var kept := RemoveUnknownInnerClasses(zip, st.innerClasses.value);
          config.structs := config.structs[className := st.(innerClasses := Some(kept))];
        }
      }
    }
    assert config.structs == Sanitize(zip, original);
  }

  // ---------------------------------------------------------------------------
  // Properties of the sanitiser

  /** An inner-class entry survives exactly when its class file is present. */
  lemma {:induction false} KeptInnerClassesMembers(zip: set<string>, s: seq<InnerClass>, x: InnerClass)
    ensures x in KeptInnerClasses(zip, s) <==> x in s && InArchive(zip, x)
  {
    if s != [] {
      KeptInnerClassesMembers(zip, s[..|s| - 1], x);
      assert s == s[..|s| - 1] + [s[|s| - 1]];
    }
  }

  /** Filtering distributes over concatenation, so survivors keep their
      relative order. */
  lemma {:induction false} KeptInnerClassesConcat(zip: set<string>, a: seq<InnerClass>, b: seq<InnerClass>)
    ensures KeptInnerClasses(zip, a + b) == KeptInnerClasses(zip, a) + KeptInnerClasses(zip, b)
  {
    if b == [] {
      assert a + b == a;
    } else {
      var b' := b[..|b| - 1];
      KeptInnerClassesConcat(zip, a, b');
      assert (a + b)[..|a + b| - 1] == a + b';
      assert (a + b)[|a + b| - 1] == b[|b| - 1];
    }
  }

  /** Filtering never adds an entry: the survivors are a sub-multiset. */
  lemma {:induction false} KeptInnerClassesShrinks(zip: set<string>, s: seq<InnerClass>)
    ensures multiset(KeptInnerClasses(zip, s)) <= multiset(s)
  {
    if s != [] {
      KeptInnerClassesShrinks(zip, s[..|s| - 1]);
      assert s == s[..|s| - 1] + [s[|s| - 1]];
    }
  }

  /** A list whose classes are all present is left as it is. */
  lemma {:induction false} KeptInnerClassesAllPresent(zip: set<string>, s: seq<InnerClass>)
    requires forall i :: 0 <= i < |s| ==> InArchive(zip, s[i])
    ensures KeptInnerClasses(zip, s) == s
  {
    if s != [] {
      KeptInnerClassesAllPresent(zip, s[..|s| - 1]);
    }
  }

  /** Filtering a second time changes nothing. */
  lemma KeptInnerClassesIdempotent(zip: set<string>, s: seq<InnerClass>)
    ensures KeptInnerClasses(zip, KeptInnerClasses(zip, s)) == KeptInnerClasses(zip, s)
  {
    var k := KeptInnerClasses(zip, s);
    forall i | 0 <= i < |k| ensures InArchive(zip, k[i]) {
      KeptInnerClassesMembers(zip, s, k[i]);
    }
    KeptInnerClassesAllPresent(zip, k);
  }

  /**
    Sanitising only removes: a class is kept iff its class file is in the
    archive, and a kept struct keeps its other fields and the nullness of its
    inner-class list.
   */
  lemma SanitizeKeepsPresentClasses(zip: set<string>, config: map<string, InjectorStruct>)
    ensures Sanitize(zip, config).Keys <= config.Keys
    ensures forall k :: k in Sanitize(zip, config) <==> k in config && k + ".class" in zip
    ensures forall k :: k in Sanitize(zip, config) ==>
      && Sanitize(zip, config)[k].enclosingMethod == config[k].enclosingMethod
      && (Sanitize(zip, config)[k].innerClasses.None? <==> config[k].innerClasses.None?)
  {
  }

  /**
    In a kept struct, the inner-class list holds exactly the original entries
    whose class file is in the archive, never more copies of one than before.
   */
  lemma SanitizeFiltersInnerClasses(zip: set<string>, config: map<string, InjectorStruct>, k: string, x: InnerClass)
    requires k in Sanitize(zip, config) && config[k].innerClasses.Some?
    ensures Sanitize(zip, config)[k].innerClasses.Some?
    ensures x in Sanitize(zip, config)[k].innerClasses.value <==>
      x in config[k].innerClasses.value && ClassFile(x.innerClass) in zip
    ensures multiset(Sanitize(zip, config)[k].innerClasses.value) <= multiset(config[k].innerClasses.value)
  {
    KeptInnerClassesMembers(zip, config[k].innerClasses.value, x);
    KeptInnerClassesShrinks(zip, config[k].innerClasses.value);
  }

  /** Sanitising twice against the same archive is the same as once. */
  lemma SanitizeIdempotent(zip: set<string>, config: map<string, InjectorStruct>)
    ensures Sanitize(zip, Sanitize(zip, config)) == Sanitize(zip, config)
  {
    var once := Sanitize(zip, config);
    forall k | k in once ensures SanitizeStruct(zip, once[k]) == once[k] {
      if config[k].innerClasses.Some? {
        KeptInnerClassesIdempotent(zip, config[k].innerClasses.value);
      }
    }
  }

  // ---------------------------------------------------------------------------
  // The rename table read from the MCP CSV files

  /** A CSV line without the field the loader indexes (`pts[index]` throws). */
  datatype CsvError = MissingField(line: string, index: nat)

  /** One line of a rename CSV: the header (first field "searge") is skipped;
      any other line maps its first field to its second. */
  function CsvLine(renames: map<string, string>, line: string): Result<map<string, string>, CsvError>
  {
    var pts := Split(line, ',');
    if |pts| == 0 then Failure(MissingField(line, 0))
    else if pts[0] == "searge" then Success(renames)
    else if |pts| < 2 then Failure(MissingField(line, 1))
    else Success(renames[pts[0] := pts[1]])
  }

  /** The lines of one file, in order, stopping at the first failing line. */
  function CsvLines(renames: map<string, string>, lines: seq<string>): Result<map<string, string>, CsvError>
    decreases |lines|
  {
    if lines == [] then Success(renames)
    else
      match CsvLine(renames, lines[0])
      case Failure(e) => Failure(e)
      case Success(next) => CsvLines(next, lines[1..])
  }

  /** The files, in order; a null file is skipped. */
  function CsvFiles(renames: map<string, string>, files: seq<Option<seq<string>>>): Result<map<string, string>, CsvError>
    decreases |files|
  {
    if files == [] then Success(renames)
    else if files[0].None? then CsvFiles(renames, files[1..])
    else
      match CsvLines(renames, files[0].value)
      case Failure(e) => Failure(e)
      case Success(next) => CsvFiles(next, files[1..])
  }

  /**
    The loop of the `ErroringRemappingAccessMap` constructor: for each file
    that is not null, for each line, split at commas and store field 0 to
    field 1 unless field 0 is the header's "searge". A line without the field
    it reads throws, which ends the load.
   */
  method LoadRenames(renameCsvs: seq<Option<seq<string>>>)
    returns (r: Result<map<string, string>, CsvError>)
    ensures r == CsvFiles(map[], renameCsvs)
  {
    var renames: map<string, string> := map[];
    var i := 0;
    while i < |renameCsvs|
      invariant 0 <= i <= |renameCsvs|
      invariant CsvFiles(map[], renameCsvs) == CsvFiles(renames, renameCsvs[i..])
    {
      var f := renameCsvs[i];
      if f.None? {
        i := i + 1;
        continue;
      }
      var lines := f.value;
      ghost var atFileStart := renames;
      var j := 0;
      while j < |lines|
        invariant 0 <= j <= |lines|
        invariant CsvLines(atFileStart, lines) == CsvLines(renames, lines[j..])
      {
        var pts := Split(lines[j], ',');
        if |pts| == 0 {
          r := Failure(MissingField(lines[j], 0));
          return;
        }
        if pts[0] != "searge" {
          if |pts| < 2 {
            r := Failure(MissingField(lines[j], 1));
            return;
          }
          renames := renames[pts[0] := pts[1]];
        }
        j := j + 1;
      }
      i := i + 1;
    }
    r := Success(renames);
  }

  /** The CSV files the deobfuscation task reads: the method CSV, then the
      field CSV, each possibly absent. */
  function DeobfRenameCsvs(methodCsv: Option<seq<string>>, fieldCsv: Option<seq<string>>): seq<Option<seq<string>>>
  {
    [methodCsv, fieldCsv]
  }

  /** The key a line defines, if it is not the header and is well-formed. */
  function DefinedKey(line: string): Option<string>
  {
    var pts := Split(line, ',');
    if |pts| >= 2 && pts[0] != "searge" then Some(pts[0]) else None
  }

  /** The value the LAST line defining `key` gives it, if any line does. */
  function LastDefinition(lines: seq<string>, key: string): Option<string>
  {
    if lines == [] then None
    else
      var later := LastDefinition(lines[1..], key);
      if later.Some? then later
      else if DefinedKey(lines[0]) == Some(key) then Some(Split(lines[0], ',')[1])
      else None
  }

  function Lookup(m: map<string, string>, key: string): Option<string>
  {
    if key in m then Some(m[key]) else None
  }

  /** All present files are read as one stream of lines, in file order. */
  function PresentLines(files: seq<Option<seq<string>>>): seq<string>
  {
    if files == [] then []
    else (if files[0].None? then [] else files[0].value) + PresentLines(files[1..])
  }

  // ---------------------------------------------------------------------------
  // Properties of the rename loader

  /** A header line adds nothing. */
  lemma HeaderLineSkipped(renames: map<string, string>, line: string)
    requires |Split(line, ',')| > 0 && Split(line, ',')[0] == "searge"
    ensures CsvLine(renames, line) == Success(renames)
  {
  }

  /** A non-header line without a comma (the empty line included) fails,
      because its field 1 does not exist. */
  lemma LineWithoutCommaFails(renames: map<string, string>, line: string)
    requires ',' !in line && line != "searge"
    ensures CsvLine(renames, line) == Failure(MissingField(line, 1))
  {
  }

  /** A line made only of commas fails already on field 0: Java's split
      returns no fields at all for it. */
  lemma {:induction false} OnlyCommasFails(renames: map<string, string>, line: string)
    requires line != [] && forall i :: 0 <= i < |line| ==> line[i] == ','
    ensures CsvLine(renames, line) == Failure(MissingField(line, 0))
  {
    OnlyCommasRawSplit(line);
    var raw := RawSplit(line, ',');
    var pts := DropTrailingEmpty(raw);
    assert line[0] == ',';
  }

  lemma {:induction false} OnlyCommasRawSplit(line: string)
    requires forall i :: 0 <= i < |line| ==> line[i] == ','
    ensures forall i :: 0 <= i < |RawSplit(line, ',')| ==> RawSplit(line, ',')[i] == ""
  {
    if |line| > 0 {
      OnlyCommasRawSplit(line[1..]);
    }
  }

  /** Reading lines `a` then `b` is reading `a + b`. */
  lemma {:induction false} CsvLinesConcat(renames: map<string, string>, a: seq<string>, b: seq<string>)
    ensures CsvLines(renames, a + b) ==
      match CsvLines(renames, a)
      case Failure(e) => Failure(e)
      case Success(next) => CsvLines(next, b)
    decreases |a|
  {
    if a == [] {
      assert a + b == b;
    } else {
      assert (a + b)[0] == a[0];
      assert (a + b)[1..] == a[1..] + b;
      match CsvLine(renames, a[0])
      case Failure(e) =>
      case Success(next) => CsvLinesConcat(next, a[1..], b);
    }
  }

  /** Null files are skipped and the others are read as one stream. */
  lemma {:induction false} CsvFilesAreConcatenatedLines(renames: map<string, string>, files: seq<Option<seq<string>>>)
    ensures CsvFiles(renames, files) == CsvLines(renames, PresentLines(files))
    decreases |files|
  {
    if files != [] {
      if files[0].None? {
        CsvFilesAreConcatenatedLines(renames, files[1..]);
        assert PresentLines(files) == [] + PresentLines(files[1..]);
        assert [] + PresentLines(files[1..]) == PresentLines(files[1..]);
      } else {
        CsvLinesConcat(renames, files[0].value, PresentLines(files[1..]));
        match CsvLines(renames, files[0].value)
        case Failure(e) =>
        case Success(next) => CsvFilesAreConcatenatedLines(next, files[1..]);
      }
    }
  }

  /**
    Last write wins: after a successful load each key holds the value of the
    last line defining it, and keys no line defines keep their old value (or
    stay absent).
   */
  lemma {:induction false} CsvLinesLastWriteWins(renames: map<string, string>, lines: seq<string>, key: string)
    requires CsvLines(renames, lines).Success?
    ensures Lookup(CsvLines(renames, lines).value, key) ==
      if LastDefinition(lines, key).Some? then LastDefinition(lines, key) else Lookup(renames, key)
    decreases |lines|
  {
    if lines != [] {
      var next := CsvLine(renames, lines[0]).value;
      CsvLinesLastWriteWins(next, lines[1..], key);
    }
  }

  /** The last definition in `a + b` is `b`'s if `b` has one. */
  lemma {:induction false} LastDefinitionConcat(a: seq<string>, b: seq<string>, key: string)
    ensures LastDefinition(a + b, key) ==
      if LastDefinition(b, key).Some? then LastDefinition(b, key) else LastDefinition(a, key)
  {
    if a == [] {
      assert a + b == b;
    } else {
      assert (a + b)[0] == a[0];
      assert (a + b)[1..] == a[1..] + b;
      LastDefinitionConcat(a[1..], b, key);
    }
  }

  /**
    The method CSV is read before the field CSV, so a key that the field CSV
    defines ends up with the field CSV's value whatever the method CSV says.
   */
  lemma FieldCsvOverridesMethodCsv(methodCsv: seq<string>, fieldCsv: seq<string>, key: string)
    requires CsvFiles(map[], DeobfRenameCsvs(Some(methodCsv), Some(fieldCsv))).Success?
    requires LastDefinition(fieldCsv, key).Some?
    ensures Lookup(CsvFiles(map[], DeobfRenameCsvs(Some(methodCsv), Some(fieldCsv))).value, key)
      == LastDefinition(fieldCsv, key)
  {
    var files := DeobfRenameCsvs(Some(methodCsv), Some(fieldCsv));
    CsvFilesAreConcatenatedLines(map[], files);
    assert PresentLines(files) == methodCsv + fieldCsv by {
      assert PresentLines(files[1..]) == fieldCsv + PresentLines(files[2..]);
      assert files[2..] == [];
    }
    CsvLinesLastWriteWins(map[], methodCsv + fieldCsv, key);
    LastDefinitionConcat(methodCsv, fieldCsv, key);
  }

  // ---------------------------------------------------------------------------
  // Access-transformer symbols rewritten through the rename table

  /** A member token split at its first '(' into name and descriptor. */
  function SplitMember(p: string): (r: (string, string))
    ensures r.0 + r.1 == p
    ensures '(' !in r.0
    ensures r.1 == "" || r.1[0] == '('
  {
    var idx := IndexOf(p, '(');
    if idx == -1 then (p, "")
    else
      assert p == p[..idx] + p[idx..];
      (p[..idx], p[idx..])
  }

  /**
    The space-separated parts of a symbol after renaming: only part 1 may
    change; when its name before the first '(' has a rename, the name is
    replaced and the descriptor suffix is kept verbatim.
   */
  function RemapParts(renames: map<string, string>, pts: seq<string>): (r: seq<string>)
    ensures |r| == |pts|
    ensures forall i :: 0 <= i < |pts| && i != 1 ==> r[i] == pts[i]
    ensures |pts| >= 2 && SplitMember(pts[1]).0 !in renames ==> r == pts
    ensures |pts| >= 2 && SplitMember(pts[1]).0 in renames ==>
      r[1] == renames[SplitMember(pts[1]).0] + SplitMember(pts[1]).1
  {
    if |pts| < 2 then pts
    else
      var (start, end) := SplitMember(pts[1]);
      if start in renames then pts[1 := renames[start] + end] else pts
  }

  /** The key `addAccessChange` forwards: the renamed parts joined with '.'. */
  function RemappedSymbol(renames: map<string, string>, symbolString: string): string
  {
    Join(RemapParts(renames, Split(symbolString, ' ')), '.')
  }

  /** A symbol without a space is forwarded unchanged. */
  lemma SymbolWithoutSpaceUnchanged(renames: map<string, string>, symbolString: string)
    requires ' ' !in symbolString
    ensures RemappedSymbol(renames, symbolString) == symbolString
  {
  }

  /** A symbol with a rename for its member name, such as
      "net/minecraft/A func_1_a(I)V", becomes owner '.' renamed name and the
      untouched descriptor. */
  lemma {:induction false} SymbolRenamed(renames: map<string, string>, owner: string, name: string, desc: string)
    requires ' ' !in owner && ' ' !in name && ' ' !in desc && owner != "" && name != ""
    requires '(' !in name && (desc == "" || desc[0] == '(')
    requires name in renames
    ensures RemappedSymbol(renames, owner + " " + name + desc) == owner + "." + renames[name] + desc
  {
    var s := owner + " " + name + desc;
    var t := name + desc;
    assert s == owner + [' '] + t;
    TwoFieldSplit(owner, t, ' ');
    var pts := Split(s, ' ');
    assert pts == [owner, t];
    SplitMemberUnique(t, name, desc);
    var r := RemapParts(renames, pts);
    assert r == [owner, renames[name] + desc];
    assert Join(r, '.') == owner + ['.'] + (renames[name] + desc);
  }

  /** The name/descriptor split of a member token is the only one with the
      properties `SplitMember` promises. */
  lemma {:induction false} SplitMemberUnique(p: string, name: string, desc: string)
    requires p == name + desc && '(' !in name && (desc == "" || desc[0] == '(')
    ensures SplitMember(p) == (name, desc)
  {
    IndexOfAfterName(name, desc);
    if desc != "" {
      assert p[..|name|] == name && p[|name|..] == desc;
    } else {
      assert p == name;
    }
  }

  /** The first '(' of a name followed by a descriptor starts the descriptor. */
  lemma {:induction false} IndexOfAfterName(name: string, desc: string)
    requires '(' !in name && (desc == "" || desc[0] == '(')
    ensures IndexOf(name + desc, '(') == if desc == "" then -1 else |name|
  {
    if name == [] {
      assert name + desc == desc;
    } else {
      IndexOfAfterName(name[1..], desc);
      assert (name + desc)[1..] == name[1..] + desc;
    }
  }

  /** Splitting "a c b" at `c`, for `a` and `b` non-empty and free of `c`. */
  lemma {:induction false} TwoFieldSplit(a: string, b: string, c: char)
    requires c !in a && c !in b && a != "" && b != ""
    ensures Split(a + [c] + b, c) == [a, b]
  {
    var s := a + [c] + b;
    assert s[|a|] == c;
    RawSplitTwoFields(a, b, c);
  }

  lemma {:induction false} RawSplitTwoFields(a: string, b: string, c: char)
    requires c !in a && c !in b
    ensures RawSplit(a + [c] + b, c) == [a, b]
  {
    if a == [] {
      assert a + [c] + b == [c] + b;
      RawSplitNoSeparator(b, c);
    } else {
      RawSplitTwoFields(a[1..], b, c);
      assert (a + [c] + b)[1..] == a[1..] + [c] + b;
      assert [a[0]] + a[1..] == a;
    }
  }

  lemma {:induction false} RawSplitNoSeparator(s: string, c: char)
    requires c !in s
    ensures RawSplit(s, c) == [s]
  {
    if |s| > 0 {
      RawSplitNoSeparator(s[1..], c);
      assert [s[0]] + s[1..] == s;
    }
  }

  /** The access map the remapper is given. The renames are fixed at
      construction; the changes it forwards to SpecialSource's `AccessMap`
      are recorded in order, since that class is not part of this model. */
  class ErroringRemappingAccessMap {
    const renames: map<string, string>
    var forwarded: seq<(string, string)>

    constructor (renames: map<string, string>)
      ensures this.renames == renames && forwarded == []
    {
      this.renames := renames;
      forwarded := [];
    }

    /** `addAccessChange`: rewrite the symbol and forward it with the access
        string unchanged. */
    method AddAccessChange(symbolString: string, accessString: string)
      modifies this
      ensures forwarded == old(forwarded) + [(RemappedSymbol(renames, symbolString), accessString)]
    {
      var pts := Split(symbolString, ' ');
      if |pts| >= 2 {
        var idx := IndexOf(pts[1], '(');
        var start := pts[1];
        var end := "";
        if idx != -1 {
          start := pts[1][..idx];
          end := pts[1][idx..];
        }
        if start in renames {
          pts := pts[1 := renames[start] + end];
        }
      }
      var joinedString := Join(pts, '.');
      forwarded := forwarded + [(joinedString, accessString)];
    }
  }

  // ---------------------------------------------------------------------------
  // The task action and its optional inputs

  /** `new File(dir, name)`, with '/' as the separator. */
  function FileIn(dir: string, name: string): string
  {
    dir + "/" + name
  }

  /** The arguments `applyExceptor` hands to `MCInjectorImpl.process`. */
  datatype InjectorCall = InjectorCall(
    inJar: string, outJar: string, config: string, log: string,
    json: Option<string>, applyMarkers: bool)

  /**
    `applyExceptor`: with an exceptor JSON configured, sanitise it against the
    entries of the input archive and pass the temporary "transformed.json"
    holding it; without one, pass a null JSON and sanitise nothing.
    `written` is what is written to "transformed.json".
   */
  method ApplyExceptor(
    inJar: string, inJarEntries: set<string>, outJar: string, config: string, log: string,
    temporaryDir: string, exceptorJson: Option<map<string, InjectorStruct>>, applyMarkers: bool)
    returns (call: InjectorCall, written: Option<map<string, InjectorStruct>>)
    ensures call.inJar == inJar && call.outJar == outJar && call.config == config && call.log == log
    ensures call.applyMarkers == applyMarkers
    ensures exceptorJson.None? ==> call.json == None && written == None
    ensures exceptorJson.Some? ==>
      call.json == Some(FileIn(temporaryDir, "transformed.json")) &&
      written == Some(Sanitize(inJarEntries, exceptorJson.value))
  {
    var json: Option<string> := None;
    written := None;
    if exceptorJson.Some? {
      var struct := new InjectorConfig(exceptorJson.value);
      RemoveUnknownClasses(inJarEntries, struct);
      json := Some(FileIn(temporaryDir, "transformed.json"));
      written := Some(struct.structs);
    }
    call := InjectorCall(inJar, outJar, config, log, json, applyMarkers);
  }

  /**
    `doTask` after the SpecialSource pass (which is not part of this model and
    whose output archive is given by its entries): the exceptor reads the
    temporary "deobfed.jar", and logs to the configured log or, when none is
    set, to "exceptor.log" in the temporary directory.
   */
  method DoTask(
    deobfedEntries: set<string>, outJar: string, exceptorCfg: string, log: Option<string>,
    temporaryDir: string, exceptorJson: Option<map<string, InjectorStruct>>, applyMarkers: bool)
    returns (call: InjectorCall, written: Option<map<string, InjectorStruct>>)
    ensures call.inJar == FileIn(temporaryDir, "deobfed.jar") && call.outJar == outJar
    ensures call.config == exceptorCfg
    ensures call.log == if log.None? then FileIn(temporaryDir, "exceptor.log") else log.value
    ensures exceptorJson.None? ==> call.json == None && written == None
    ensures exceptorJson.Some? ==> written == Some(Sanitize(deobfedEntries, exceptorJson.value))
  {
    var tempObfJar := FileIn(temporaryDir, "deobfed.jar");
    var logFile := if log.None? then FileIn(temporaryDir, "exceptor.log") else log.value;
    call, written := ApplyExceptor(tempObfJar, deobfedEntries, outJar, exceptorCfg, logFile,
                                   temporaryDir, exceptorJson, applyMarkers);
  }
}
