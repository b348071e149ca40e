/** The converter's records: a build target read from a Makefile.am (`Library`),
    a configure option (`Option`, updated in place by the configure.ac scan),
    a collected `AC_DEFINE`, a CMake file in preparation, and the value view of
    the whole conversion state. */
module Records {
  import opened Strings
  import opened Lexical
  import opened Dicts

  /** The outcome of a step that can raise `IndexError`, which ends the conversion. */
  datatype Result<T> = Ok(value: T) | IndexError

  /** Whether a target is built as a library (`*_LIBRARIES`) or an application (`*_PROGRAMS`). */
  datatype TargetType = LibraryTarget | ProgramTarget

  /** A target of some Makefile.am. `condition` and `compilerFlags` are strings because
      the converter extends them with `+=` by a string, which appends its characters. */
  datatype Library = Library(
    name: string,
    dependant: bool,
    filelist: seq<string>,
    condition: string,
    linkWithLibs: seq<string>,
    compilerFlags: string,
    linkerFlags: seq<string>,
    conditionalAppends: Dict<seq<string>>,
    justVariables: Dict<seq<seq<string>>>,
    targetType: TargetType,
    kind: string,
    referredName: string,
    canonicName: string,
    directory: string)

  /** The cleaning of a dependant target's name: `$`, `(` and `)` are removed. */
  function StripReference(s: string): (r: string)
    ensures '$' !in r && '(' !in r && ')' !in r
    ensures forall c :: c != '$' && c != '(' && c != ')' ==> (c in r <==> c in s)
  {
    RemoveEach(s, "$()")
  }

  /** `Library.__init__`. A name holding `$` is a reference to a variable: it loses its
      `$`, `(` and `)` and is a static, dependant target referred to by that name.
      Otherwise `lib<x>.a` is static and `lib<x>.so`-like names are dynamic, referred to
      by the name without its first three and last two or three characters. */
  function NewLibrary(rawName: string, directory: string): (l: Library)
    ensures l.dependant <==> '$' in rawName
    ensures !l.dependant ==> l.name == rawName
    ensures l.canonicName == Canonicalize(l.name) && l.directory == directory
    ensures l.filelist == [] && l.condition == [] && l.linkWithLibs == [] && l.compilerFlags == []
            && l.linkerFlags == [] && l.conditionalAppends == Empty() && l.justVariables == Empty()
    ensures l.targetType == LibraryTarget
  {
    var dependant := '$' in rawName;
    var name := if dependant then StripReference(rawName) else rawName;
    var kind := if dependant || EndsWith(name, ".a") then "STATIC" else "DYNAMIC";
    var cut := if kind == "STATIC" then 2 else 3;
    var referred := if dependant then name else DropLast(Drop(name, 3), cut);
    Library(name, dependant, [], [], [], [], [], Empty(), Empty(), LibraryTarget,
            kind, referred, Canonicalize(name), directory)
  }

  /** A dependant target's name is the reference without `$`, `(` and `)`; it is static
      and referred to by that name. */
  lemma NewLibraryDependant(rawName: string, directory: string)
    requires '$' in rawName
    ensures var l := NewLibrary(rawName, directory);
            && '$' !in l.name && '(' !in l.name && ')' !in l.name
            && (forall c :: c != '$' && c != '(' && c != ')' ==> (c in l.name <==> c in rawName))
            && l.kind == "STATIC" && l.referredName == l.name
  {
  }

  /** Any other target is static exactly when its name ends with `.a`, and is referred
      to by the name without `lib` and without `.a` or a three-character suffix. */
  lemma NewLibraryKind(rawName: string, directory: string)
    requires '$' !in rawName
    ensures var l := NewLibrary(rawName, directory);
            && (l.kind == "STATIC" <==> EndsWith(rawName, ".a"))
            && (l.kind == "STATIC" || l.kind == "DYNAMIC")
            && var cut := if l.kind == "STATIC" then 2 else 3;
               (|rawName| >= 3 + cut ==> l.referredName == rawName[3..|rawName| - cut])
               && (|rawName| < 3 + cut ==> l.referredName == [])
  {
    var l := NewLibrary(rawName, directory);
    var cut := if l.kind == "STATIC" then 2 else 3;
    assert |rawName| >= 3 + cut ==> l.referredName == rawName[3..][..|rawName| - 3 - cut];
  }

  /** Index of the first target with the given canonical name, or -1: the search made by
      `has_library` and `get_library_for_name`. */
  function FindLibrary(libs: seq<Library>, canonic: string): (r: int)
    ensures -1 <= r < |libs|
    ensures r >= 0 ==> libs[r].canonicName == canonic
    ensures forall j :: 0 <= j < |libs| && (r == -1 || j < r) ==> libs[j].canonicName != canonic
  {
    if libs == [] then -1
    else if libs[0].canonicName == canonic then 0
    else
      var k := FindLibrary(libs[1..], canonic);
      assert forall j :: 1 <= j < |libs| ==> libs[j] == libs[1..][j - 1];
      if k == -1 then -1 else k + 1
  }

  /** Appending a target does not change where an already present name is found. */
  lemma {:induction false} FindLibraryAppend(libs: seq<Library>, l: Library, canonic: string)
    ensures FindLibrary(libs + [l], canonic) ==
              if FindLibrary(libs, canonic) >= 0 then FindLibrary(libs, canonic)
              else if l.canonicName == canonic then |libs| else -1
  {
    var r := FindLibrary(libs + [l], canonic);
    if FindLibrary(libs, canonic) >= 0 {
      assert (libs + [l])[FindLibrary(libs, canonic)] == libs[FindLibrary(libs, canonic)];
    } else if l.canonicName == canonic {
      assert (libs + [l])[|libs|] == l;
    }
    assert forall j :: 0 <= j < |libs| ==> (libs + [l])[j] == libs[j];
  }

  /** Replacing a target by one with the same canonical name does not move any lookup. */
  lemma FindLibraryUpdate(libs: seq<Library>, i: nat, l: Library, canonic: string)
    requires i < |libs| && l.canonicName == libs[i].canonicName
    ensures FindLibrary(libs[i := l], canonic) == FindLibrary(libs, canonic)
  {
    var a := FindLibrary(libs[i := l], canonic);
    var b := FindLibrary(libs, canonic);
    assert forall j :: 0 <= j < |libs| ==> libs[i := l][j].canonicName == libs[j].canonicName;
  }

  /** The value of an `Option`. */
  datatype OptionVal = OptionVal(
    name: string,
    description: string,
    status: string,
    define: string,
    defineValue: string,
    defineDescription: string,
    extraDefines: seq<string>)

  /** `set_define_value`'s cleaning: brackets are removed only when a `[` is present;
      commas are kept. */
  function CleanDefineValue(v: string): (r: string)
    ensures '[' !in r
    ensures '[' in v ==> ']' !in r && forall c :: c != ']' && c != '[' ==> (c in r <==> c in v)
    ensures '[' !in v ==> r == v
  {
    if '[' in v then Remove(Remove(v, ']'), '[') else v
  }

  /** Cleaning a value twice is cleaning it once. */
  lemma CleanDefineValueIdempotent(v: string)
    ensures CleanDefineValue(CleanDefineValue(v)) == CleanDefineValue(v)
  {
  }

  /** The name an option gets in the constructor: `-` becomes `_`, then upper case. */
  function OptionName(key: string): (r: string)
    ensures |r| == |key|
    ensures forall i :: 0 <= i < |r| ==> r[i] != '-' && !('a' <= r[i] <= 'z')
    ensures forall i :: 0 <= i < |r| && key[i] != '-' ==> r[i] == UpperChar(key[i])
    ensures forall i :: 0 <= i < |r| && key[i] == '-' ==> r[i] == '_'
  {
    Upper(ReplaceChar(key, '-', '_'))
  }

  /** `Option.__init__`. */
  function NewOptionVal(name: string, description: string, status: string, define: string,
                        defineValue: string, defineDescription: string): (o: OptionVal)
    ensures o.name == OptionName(name)
    ensures o.description == description && o.status == status && o.define == define
    ensures o.defineValue == RemoveEach(defineValue, "],[")
    ensures o.defineDescription == defineDescription && o.extraDefines == []
  {
    OptionVal(OptionName(name), description, status, define, RemoveEach(defineValue, "],["),
              defineDescription, [])
  }

  /** `Option.finalize`: a description of at most one character becomes `Enable <name>`,
      a status of at most one character becomes `OFF`, and a define description of at most
      one character takes the (new) description. */
  function Finalized(o: OptionVal): (r: OptionVal)
    ensures |r.description| >= 2 && |r.status| >= 2 && |r.defineDescription| >= 2
    ensures r.description == (if |o.description| <= 1 then "Enable " + o.name else o.description)
    ensures r.status == (if |o.status| <= 1 then "OFF" else o.status)
    ensures |o.defineDescription| >= 2 ==> r.defineDescription == o.defineDescription
    ensures |o.defineDescription| <= 1 ==> r.defineDescription == r.description
    ensures r.name == o.name && r.define == o.define && r.defineValue == o.defineValue
    ensures r.extraDefines == o.extraDefines
  {
    var description := if |o.description| <= 1 then "Enable " + o.name else o.description;
    var status := if |o.status| <= 1 then "OFF" else o.status;
    var defineDescription := if |o.defineDescription| <= 1 then description else o.defineDescription;
    o.(description := description, status := status, defineDescription := defineDescription)
  }

  /** Finalizing an option twice gives the same option as finalizing it once. */
  lemma FinalizeIdempotent(o: OptionVal)
    ensures Finalized(Finalized(o)) == Finalized(o)
  {
  }

  /** An option of the generated top-level CMakeLists.txt. */
  class Option {
    var name: string
    var description: string
    var status: string
    var define: string
    var defineValue: string
    var defineDescription: string
    var extraDefines: seq<string>

    ghost function View(): OptionVal
      reads this
    {
      OptionVal(name, description, status, define, defineValue, defineDescription, extraDefines)
    }

    constructor (name0: string, description0: string, status0: string, define0: string,
                 defineValue0: string, defineDescription0: string)
      ensures View() == NewOptionVal(name0, description0, status0, define0, defineValue0, defineDescription0)
    {
      name := OptionName(name0);
      description := description0;
      status := status0;
      define := define0;
      defineValue := RemoveEach(defineValue0, "],[");
      defineDescription := defineDescription0;
      extraDefines := [];
    }

    method SetName(n: string)
      modifies this
      ensures View() == old(View()).(name := n)
    {
      name := n;
    }

    method SetDescription(d: string)
      modifies this
      ensures View() == old(View()).(description := d)
    {
      description := d;
    }

    method SetStatus(s: string)
      modifies this
      ensures View() == old(View()).(status := s)
    {
      status := s;
    }

    method SetDefine(d: string)
      modifies this
      ensures View() == old(View()).(define := d)
    {
      define := d;
    }

    method SetDefineValue(v: string)
      modifies this
      ensures View() == old(View()).(defineValue := CleanDefineValue(v))
    {
      var w := v;
      if '[' in w {
        w := Remove(w, ']');
        w := Remove(w, '[');
      }
      defineValue := w;
    }

    method SetDefineDescription(d: string)
      modifies this
      ensures View() == old(View()).(defineDescription := d)
    {
      defineDescription := d;
    }

    method Finalize()
      modifies this
      ensures View() == Finalized(old(View()))
    {
      if |description| <= 1 {
        description := "Enable " + name;
      }
      if |status| <= 1 {
        status := "OFF";
      }
      if |defineDescription| <= 1 {
        defineDescription := description;
      }
    }

    method AddExtraDefine(d: string)
      modifies this
      ensures View() == old(View()).(extraDefines := old(extraDefines) + [d])
    {
      extraDefines := extraDefines + [d];
    }
  }

  /** An `AC_DEFINE` collected by the scan (an entry of `temp_defines`). */
  datatype Define = Define(name: string, optionName: string, description: string, value: string, used: bool)

  /** A CMakeLists.txt in preparation: the text of each target built in its directory,
      and the extra text (the `add_subdirectory` lines). */
  datatype CMakeFile = CMakeFile(directory: string, contents: seq<string>, extra: string)

  /** The value of every piece of conversion state. */
  datatype Model = Model(
    libraries: seq<Library>,
    options: Dict<OptionVal>,
    defines: Dict<Define>,
    configVariables: Dict<seq<string>>,
    cmakeFiles: Dict<CMakeFile>,
    extraContent: Dict<string>,
    requiredDirectories: seq<string>)
  {
    /** Every dictionary of the state is well formed. */
    ghost predicate Valid() {
      && options.Valid() && defines.Valid() && configVariables.Valid()
      && cmakeFiles.Valid() && extraContent.Valid()
    }
  }

  /** The run's fixed inputs: the directories to exclude, the working directory, and the
      files the converter can see. */
  datatype Env = Env(excludes: seq<string>, workingDirectory: string, tree: Tree)

  /** The files the converter can see: which paths exist, and the lines of those it reads. */
  datatype Tree = Tree(files: set<string>, contents: map<string, seq<string>>) {
    predicate IsFile(p: string) { p in files }
    function Lines(p: string): seq<string> { if p in contents then contents[p] else [] }
  }
}
