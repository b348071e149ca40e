/** The last phase of the conversion: the top-level CMakeLists.txt written from the
    options and defines of configure.ac, the merge of each directory's
    `add_subdirectory` lines into its CMake file, the texts the CMake files receive, and
    the directories that get a default CMake file. */
module Writer {
  import opened Strings
  import opened Lexical
  import opened Dicts
  import opened Records
  import opened Generator

  // ---------------------------------------------------------- the options, by name

  function NameOf(o: OptionVal): string { o.name }

  /** The options in insertion order. */
  function OptionValues(opts: Dict<OptionVal>, keys: seq<string>): (r: seq<OptionVal>)
    ensures |r| == |keys|
    ensures forall i :: 0 <= i < |keys| ==> r[i] == opts.Get(keys[i], NoOption)
  {
    if keys == [] then [] else [opts.Get(keys[0], NoOption)] + OptionValues(opts, keys[1..])
  }

  /** `sorted(options.items(), key=name)`: the options of the dictionary, each as often
      as it occurs there, in the order of their names. */
  function SortedOptions(opts: Dict<OptionVal>): (r: seq<OptionVal>)
    ensures multiset(r) == multiset(OptionValues(opts, opts.keys))
    ensures SortedBy(r, NameOf)
  {
    SortBySorted(OptionValues(opts, opts.keys), NameOf);
    SortBy(OptionValues(opts, opts.keys), NameOf)
  }

  /** Each option finalized, in place. */
  function FinalizedAll(os: seq<OptionVal>): (r: seq<OptionVal>)
    ensures |r| == |os| && forall i :: 0 <= i < |os| ==> r[i] == Finalized(os[i])
  {
    Mapped(os, Finalized)
  }

  /** `f` applied to each element, in order. */
  function Mapped<T, U>(xs: seq<T>, f: T -> U): (r: seq<U>)
    ensures |r| == |xs| && forall i :: 0 <= i < |xs| ==> r[i] == f(xs[i])
  {
    if xs == [] then [] else [f(xs[0])] + Mapped(xs[1..], f)
  }

  /** Finalizing keeps the options in the order of their names. */
  lemma TopOptionsOrdered(opts: Dict<OptionVal>)
    ensures SortedBy(FinalizedAll(SortedOptions(opts)), NameOf)
  {
    var s := SortedOptions(opts);
    var f := FinalizedAll(s);
    forall i, j | 0 <= i < j < |f| ensures StrLe(NameOf(f[i]), NameOf(f[j])) {
      assert NameOf(f[i]) == NameOf(s[i]) && NameOf(f[j]) == NameOf(s[j]);
    }
  }

  // ---------------------------------------------------------- the top-level text

  /** The declaration of an option. */
  function Declaration(o: OptionVal): string {
    "# Option to " + o.description + "\n"
    + "option( " + o.name + " \"" + o.description + "\" " + o.status + " )\n" + "\n"
  }

  /** The text of each element, in order. */
  function Joined<T>(xs: seq<T>, f: T -> string): string {
    if xs == [] then "" else f(xs[0]) + Joined(xs[1..], f)
  }

  /** Each element's text is in the joined text. */
  lemma {:induction false} JoinedHolds<T>(xs: seq<T>, f: T -> string, i: nat)
    requires i < |xs|
    ensures Contains(Joined(xs, f), f(xs[i]))
  {
    if i == 0 {
      ContainsHead(f(xs[0]), Joined(xs[1..], f));
    } else {
      assert xs[1..][i - 1] == xs[i];
      JoinedHolds(xs[1..], f, i - 1);
      ContainsAfter(f(xs[0]), Joined(xs[1..], f), f(xs[i]));
    }
  }

  function Declarations(os: seq<OptionVal>): string {
    Joined(os, Declaration)
  }

  /** The `#define` an enabled option puts in config.h: its define with its cleaned
      value, or `HAVE_<name>` with no value when it has no define. */
  function DefineLine(o: OptionVal): string {
    "    file(APPEND ${CONFIG_H} \"" + ("#define " + DefinedName(o) + " ") + (DefinedValue(o) + "\\n\\n\")\n")
  }

  /** The name an enabled option defines in config.h. */
  function DefinedName(o: OptionVal): (r: string)
    ensures r != []
    ensures o.define == [] ==> r == "HAVE_" + o.name
  {
    if |o.define| >= 1 then o.define else "HAVE_" + o.name
  }

  /** The value it gives that name. */
  function DefinedValue(o: OptionVal): string {
    if |o.define| >= 1 then ReplaceQuotes(RemoveGarbage(o.defineValue)) else ""
  }

  /** A define matched to an option by name likeness, with its warning. */
  function ExtraDefineLine(extra: string): string {
    var v := RemoveGarbage(extra);
    "## !!! WARNING " + v + " Identified with some pattern matching magic.\n## Remove if not relevant!\")\n"
    + "    file(APPEND ${CONFIG_H} \"#define " + v + "\\n\\n\")\n"
  }

  /** The defines matched to an option by name likeness, in order. */
  function ExtraDefineLines(extras: seq<string>): string {
    Joined(extras, ExtraDefineLine)
  }

  /** The config.h lines of an option, written when the option is on. */
  function ConfigBlock(o: OptionVal): string {
    ConfigOpening(o) + DefineLine(o) + ExtraDefineLines(o.extraDefines) + "endif( " + o.name + " )\n"
  }

  /** The lines that open an option's block: the test, the message and the comment. */
  function ConfigOpening(o: OptionVal): string {
    "if( " + o.name + " )\n"
    + "    message(\" " + o.name + " Enabled\")\n"
    + "    file(APPEND ${CONFIG_H} \"/* " + RemoveGarbage(o.defineDescription) + " */\\n\")\n"
  }

  function ConfigBlocks(os: seq<OptionVal>): string {
    Joined(os, ConfigBlock)
  }

  /** The defines no option claimed, in insertion order. */
  function UnusedKeys(defs: Dict<Define>, keys: seq<string>): (r: seq<string>)
    ensures forall k :: k in r <==> k in keys && !defs.Get(k, Define(k, "", "", "", true)).used
  {
    if keys == [] then []
    else
      (if !defs.Get(keys[0], Define(keys[0], "", "", "", true)).used then [keys[0]] else [])
      + UnusedKeys(defs, keys[1..])
  }

  /** The config.h lines of a define no option claimed. */
  function UnusedDefine(key: string, d: Define): string {
    "file(APPEND ${CONFIG_H} \"/* " + RemoveGarbage(d.description) + " */\\n\")\n"
    + "file(APPEND ${CONFIG_H} \"#define " + key + " " + ReplaceQuotes(RemoveGarbage(d.value)) + " \\n\\n \")\n"
  }

  /** The config.h lines of the define of a key. */
  function UnusedLines(defs: Dict<Define>): string -> string {
    k => UnusedDefine(k, defs.Get(k, Define(k, "", "", "", true)))
  }

  function UnusedDefines(defs: Dict<Define>, keys: seq<string>): string {
    Joined(keys, UnusedLines(defs))
  }

  /** The comment with the time of the run and the CMake version line. */
  function TopHeader(timestamp: string): string {
    "# Autogenerated by auto2cmake on " + timestamp + "\n\n# Options\n\n"
    + "cmake_minimum_required(VERSION 2.8)\n"
  }

  /** The lines that start config.h, between the declarations and the option blocks. */
  function ConfigHeader(): string {
    "# The lines below will generate the config.h based on the options above\n"
    + "# The file will be in the ${CMAKE_BINARY_DIR} location\n"
    + "set(CONFIG_H ${CMAKE_BINARY_DIR}/config.h)\n"
    + "string(TIMESTAMP CURRENT_TIMESTAMP)\n"
    + "file(WRITE ${CONFIG_H} \"/* WARNING: This file is auto-generated by CMake on ${CURRENT_TIMESTAMP}. DO NOT EDIT!!! */\\n\\n\")\n"
  }

  /** The warning before the defines no option claimed. */
  function UnusedHeader(): string {
    "\n"
    + "## !!! WARNING These are the defines that were defined regardless of an option.\n"
    + "## !!! Or the script couldn't match them. Match them accordingly, delete them or keep them\n"
  }

  /** The include directory of config.h and its global define. */
  function TopTrailer(): string {
    "\n"
    + "# Setting the include directory for the application to find config.h\n"
    + "include_directories( ${CMAKE_BINARY_DIR} )"
    + "\n"
    + "# Since we have created a config.h add a global define for it\n"
    + "add_definitions( \"-DHAVE_CONFIG_H\" )"
  }

  /** The fixed lines of the top-level file, around its three parts that depend on the
      options and defines: the header before the declarations, the config.h preamble
      before the option blocks, the warning before the unclaimed defines, and the
      trailer. */
  datatype TopFrame = TopFrame(header: string, configHeader: string, unusedHeader: string, trailer: string)

  /** The fixed lines the converter writes, with the time of the run. */
  function TopLines(timestamp: string): TopFrame {
    TopFrame(TopHeader(timestamp), ConfigHeader(), UnusedHeader(), TopTrailer())
  }

  /** The top-level CMakeLists.txt, before the targets of the working directory are
      appended to it: the options in the order of their names, finalized, each declared
      and given its config.h block, then the defines no option claimed, within the fixed
      lines `frame` (which are `TopLines` of the time of the run). */
  function TopText(opts: Dict<OptionVal>, defs: Dict<Define>, frame: TopFrame): string {
    var os := FinalizedAll(SortedOptions(opts));
    TopLayout(frame, Declarations(os), ConfigBlocks(os), UnusedDefines(defs, UnusedKeys(defs, defs.keys)))
  }

  /** The top-level text around its three variable parts: the declarations `d`, the
      config.h blocks `b` and the lines of the unclaimed defines `u`. */
  function TopLayout(f: TopFrame, d: string, b: string, u: string): string {
    f.header + d + f.configHeader + b + f.unusedHeader + u + f.trailer
  }

  lemma TopLayoutHolds(f: TopFrame, d: string, b: string, u: string)
    ensures var t := TopLayout(f, d, b, u);
            Contains(t, d) && Contains(t, b) && Contains(t, u)
  {
    LayoutParts(f.header, d, f.configHeader, b, f.unusedHeader, u, f.trailer);
  }

  /** The top-level text holds the declarations and the config.h blocks of the options
      in the order of their names, finalized, and the lines of the defines no option
      claimed. */
  lemma TopTextParts(opts: Dict<OptionVal>, defs: Dict<Define>, frame: TopFrame)
    ensures var os := FinalizedAll(SortedOptions(opts));
            var t := TopText(opts, defs, frame);
            && Contains(t, Declarations(os)) && Contains(t, ConfigBlocks(os))
            && Contains(t, UnusedDefines(defs, UnusedKeys(defs, defs.keys)))
  {
    var os := FinalizedAll(SortedOptions(opts));
    TopLayoutHolds(frame, Declarations(os), ConfigBlocks(os), UnusedDefines(defs, UnusedKeys(defs, defs.keys)));
  }

  lemma {:induction false} ContainsTransitive(a: string, b: string, c: string)
    requires Contains(a, b) && Contains(b, c)
    ensures Contains(a, c)
    decreases |a|
  {
    if StartsWith(a, b) {
      assert a == b + a[|b|..];
      ContainsBefore(b, a[|b|..], c);
    } else {
      ContainsTransitive(a[1..], b, c);
    }
  }

  /** The layout of seven parts holds each part between its neighbours. */
  lemma LayoutParts(h: string, d: string, c: string, b: string, uh: string, u: string, tr: string)
    ensures var t := h + d + c + b + uh + u + tr;
            && Contains(t, d) && Contains(t, b) && Contains(t, u) && StartsWith(t, h) && EndsWith(t, tr)
  {
    ContainsWithin(h, d, c);
    ContainsBefore(h + d + c, b, d);
    ContainsBefore(h + d + c + b, uh, d);
    ContainsBefore(h + d + c + b + uh, u, d);
    ContainsBefore(h + d + c + b + uh + u, tr, d);
    ContainsWithin(h + d + c, b, uh);
    ContainsBefore(h + d + c + b + uh, u, b);
    ContainsBefore(h + d + c + b + uh + u, tr, b);
    ContainsWithin(h + d + c + b + uh, u, tr);
    var t := h + d + c + b + uh + u + tr;
    assert t == h + (d + c + b + uh + u + tr);
    assert t[..|h|] == h;
    assert t[|t| - |tr|..] == tr;
  }

  /** Every option of the dictionary, finalized, is declared in the top-level file and has
      its config.h block there. */
  lemma TopTextOption(opts: Dict<OptionVal>, defs: Dict<Define>, frame: TopFrame, k: string)
    requires opts.Valid() && k in opts.entries
    ensures var o := Finalized(opts.entries[k]);
            && Contains(TopText(opts, defs, frame), Declaration(o))
            && Contains(TopText(opts, defs, frame), ConfigBlock(o))
  {
    var os := FinalizedAll(SortedOptions(opts));
    var o := Finalized(opts.entries[k]);
    OptionHolds(opts, k);
    TopTextParts(opts, defs, frame);
    var t := TopText(opts, defs, frame);
    ContainsTransitive(t, Declarations(os), Declaration(o));
    ContainsTransitive(t, ConfigBlocks(os), ConfigBlock(o));
  }

  lemma OptionHolds(opts: Dict<OptionVal>, k: string)
    requires opts.Valid() && k in opts.entries
    ensures var os := FinalizedAll(SortedOptions(opts));
            var o := Finalized(opts.entries[k]);
            Contains(Declarations(os), Declaration(o)) && Contains(ConfigBlocks(os), ConfigBlock(o))
  {
    var os := FinalizedAll(SortedOptions(opts));
    var m := SortedPosition(opts, k);
    JoinedHolds(os, Declaration, m);
    JoinedHolds(os, ConfigBlock, m);
  }

  /** Where an option of the dictionary stands among the sorted options. */
  lemma SortedPosition(opts: Dict<OptionVal>, k: string) returns (m: nat)
    requires opts.Valid() && k in opts.entries
    ensures m < |FinalizedAll(SortedOptions(opts))| && FinalizedAll(SortedOptions(opts))[m] == Finalized(opts.entries[k])
  {
    var values := OptionValues(opts, opts.keys);
    var sorted := SortedOptions(opts);
    var j :| 0 <= j < |opts.keys| && opts.keys[j] == k;
    assert values[j] == opts.entries[k];
    assert opts.entries[k] in multiset(values);
    assert opts.entries[k] in multiset(sorted);
    m :| 0 <= m < |sorted| && sorted[m] == opts.entries[k];
  }

  /** Every define no option claimed has its config.h lines in the top-level file. */
  lemma TopTextUnused(opts: Dict<OptionVal>, defs: Dict<Define>, frame: TopFrame, k: string)
    requires defs.Valid() && k in defs.entries && !defs.entries[k].used
    ensures Contains(TopText(opts, defs, frame), UnusedDefine(k, defs.entries[k]))
  {
    UnusedDefineHolds(defs, k);
    TopTextParts(opts, defs, frame);
    ContainsTransitive(TopText(opts, defs, frame), UnusedDefines(defs, UnusedKeys(defs, defs.keys)),
                       UnusedDefine(k, defs.entries[k]));
  }

  lemma UnusedDefineHolds(defs: Dict<Define>, k: string)
    requires defs.Valid() && k in defs.entries && !defs.entries[k].used
    ensures Contains(UnusedDefines(defs, UnusedKeys(defs, defs.keys)), UnusedDefine(k, defs.entries[k]))
  {
    var ks := UnusedKeys(defs, defs.keys);
    assert k in ks;
    var m :| 0 <= m < |ks| && ks[m] == k;
    JoinedHolds(ks, UnusedLines(defs), m);
    assert UnusedLines(defs)(ks[m]) == UnusedDefine(k, defs.entries[k]);
  }

  /** Every option's declaration gets a description and a status CMake accepts: at
      least two characters each. */
  lemma DeclaredOptionsComplete(opts: Dict<OptionVal>)
    ensures forall o :: o in FinalizedAll(SortedOptions(opts)) ==> |o.description| >= 2 && |o.status| >= 2
  {
  }

  /** Every enabled option defines its name in config.h, an option without a define
      `HAVE_<name>`. */
  lemma DefineLineDefines(o: OptionVal)
    ensures Contains(DefineLine(o), "#define " + DefinedName(o) + " ")
  {
    ContainsWithin("    file(APPEND ${CONFIG_H} \"", "#define " + DefinedName(o) + " ",
                   DefinedValue(o) + "\\n\\n\")\n");
  }

  lemma ContainsWithin(a: string, b: string, c: string)
    ensures Contains(a + b + c, b)
  {
    ContainsItself(a, b);
    ContainsBefore(a + b, c, b);
  }

  // ---------------------------------------------------------- add_subdirectory lines

  /** `process_cmake_file_directories`: every directory with `add_subdirectory` lines
      gets them as the extra text of its CMake file, which is created when missing. */
  function MergeExtra(files: Dict<CMakeFile>, extra: Dict<string>, keys: seq<string>): (r: Dict<CMakeFile>)
    ensures files.Valid() ==> r.Valid()
    decreases |keys|
  {
    if keys == [] then files
    else
      var f := files.Get(keys[0], FreshFile(keys[0]));
      MergeExtra(files.Put(keys[0], f.(extra := extra.Get(keys[0], ""))), extra, keys[1..])
  }

  /** After the merge, a directory with `add_subdirectory` lines has a CMake file whose
      extra text is those lines and whose target texts are unchanged; every other CMake
      file is unchanged. */
  lemma {:induction false} MergeExtraContents(files: Dict<CMakeFile>, extra: Dict<string>, keys: seq<string>,
                                              dir: string)
    ensures var b := files.Get(dir, FreshFile(dir));
            MergeExtra(files, extra, keys).Get(dir, FreshFile(dir))
            == if dir in keys then b.(extra := extra.Get(dir, "")) else b
    ensures dir in MergeExtra(files, extra, keys).entries <==> dir in files.entries || dir in keys
    decreases |keys|
  {
    if keys != [] {
      var f := files.Get(keys[0], FreshFile(keys[0]));
      MergeExtraContents(files.Put(keys[0], f.(extra := extra.Get(keys[0], ""))), extra, keys[1..], dir);
    }
  }

  // ---------------------------------------------------------- the files written

  /** What a directory's CMake file receives: its extra text, then its targets' texts. */
  function FileText(f: CMakeFile): string {
    f.extra + Concat(f.contents)
  }

  /** The CMakeLists.txt of each directory after the write-out. Every directory's old file
      is removed first except the working directory's, which already holds the top-level
      text; so the working directory's file is the top-level text followed by its own
      CMake file's text, and every other file is exactly its CMake file's text. */
  function Written(files: Dict<CMakeFile>, wd: string, top: string): (r: map<string, string>)
    ensures r.Keys == files.entries.Keys + {wd}
  {
    map d | d in files.entries.Keys + {wd} ::
      (if d == wd then top else "") + (if d in files.entries then FileText(files.entries[d]) else "")
  }

  lemma WrittenFiles(files: Dict<CMakeFile>, wd: string, top: string)
    ensures var r := Written(files, wd, top);
            && StartsWith(r[wd], top)
            && (wd in files.entries ==> r[wd] == top + FileText(files.entries[wd]))
            && forall d :: d in files.entries && d != wd ==> r[d] == FileText(files.entries[d])
  {
    var r := Written(files, wd, top);
    assert r[wd][..|top|] == top;
  }

  // ---------------------------------------------------------- default CMake files

  /** Python's `list.remove(x)` for an `x` of the list: its first occurrence goes. */
  function RemoveFirst(s: seq<string>, x: string): (r: seq<string>)
    ensures x in s ==> |r| == |s| - 1
    ensures x !in s ==> r == s
  {
    if s == [] then []
    else if s[0] == x then s[1..]
    else [s[0]] + RemoveFirst(s[1..], x)
  }

  /** Removing leaves only what was there. */
  lemma {:induction false} RemoveFirstWithin(s: seq<string>, x: string, d: string)
    requires d in RemoveFirst(s, x)
    ensures d in s
  {
    if s != [] && s[0] != x && d != s[0] {
      RemoveFirstWithin(s[1..], x, d);
    }
  }

  /** The write-out loop as written: for each directory with a CMake file, in order, one
      occurrence of it is removed from the required directories. */
  function RemoveWritten(required: seq<string>, keys: seq<string>): seq<string>
    decreases |keys|
  {
    if keys == [] then required
    else
      RemoveWritten(if keys[0] in required then RemoveFirst(required, keys[0]) else required, keys[1..])
  }

  /** The directories that are not excluded, in order. */
  function Included(dirs: seq<string>, excludes: seq<string>): (r: seq<string>)
    ensures forall d :: d in r <==> d in dirs && !ShouldExclude(d, excludes)
  {
    if dirs == [] then []
    else if ShouldExclude(dirs[0], excludes) then Included(dirs[1..], excludes)
    else [dirs[0]] + Included(dirs[1..], excludes)
  }

  /** The directories that get a default CMake file, as the converter computes them. */
  function DefaultDirectoriesAsWritten(required: seq<string>, files: Dict<CMakeFile>, excludes: seq<string>)
    : seq<string>
  {
    Included(RemoveWritten(required, files.keys), excludes)
  }

  /** Removing the first occurrence takes one occurrence away. */
  lemma {:induction false} RemoveFirstCount(s: seq<string>, x: string)
    ensures multiset(RemoveFirst(s, x)) == multiset(s) - multiset{x}
  {
    if s != [] {
      assert s == [s[0]] + s[1..];
      assert multiset(s) == multiset{s[0]} + multiset(s[1..]);
      if s[0] != x {
        RemoveFirstCount(s[1..], x);
        assert RemoveFirst(s, x) == [s[0]] + RemoveFirst(s[1..], x);
        assert multiset(RemoveFirst(s, x)) == multiset{s[0]} + multiset(RemoveFirst(s[1..], x));
      }
    }
  }

  /** The write-out removes one occurrence of a directory per CMake file it has. */
  lemma {:induction false} RemoveWrittenCount(required: seq<string>, keys: seq<string>)
    ensures multiset(RemoveWritten(required, keys)) == multiset(required) - multiset(keys)
    decreases |keys|
  {
    if keys != [] {
      var k := keys[0];
      var next := if k in required then RemoveFirst(required, k) else required;
      RemoveWrittenCount(next, keys[1..]);
      RemoveFirstCount(required, k);
      assert keys == [k] + keys[1..];
      assert k !in required ==> multiset(required) - multiset{k} == multiset(required);
    }
  }

  /** As written, a directory gets a default CMake file exactly when it is required more
      often than it has CMake files and is not excluded; so a directory required twice
      gets one although it has a CMake file. */
  lemma DefaultDirectoriesAsWrittenExact(required: seq<string>, files: Dict<CMakeFile>, excludes: seq<string>,
                                         d: string)
    ensures d in DefaultDirectoriesAsWritten(required, files, excludes) <==>
            multiset(required)[d] > multiset(files.keys)[d] && !ShouldExclude(d, excludes)
  {
    var rest := RemoveWritten(required, files.keys);
    RemoveWrittenCount(required, files.keys);
    assert d in rest <==> multiset(rest)[d] > 0;
  }

  /** A subdirectory listed twice (`SUBDIRS = lib lib`) is required twice; one occurrence
      survives the removal, so the directory gets a default CMake file although it has a
      CMake file of its own, which the default one then overwrites. */
  lemma DefaultDirectoriesAsWrittenOverwrites()
    ensures var files := Dict(["w/lib"], map["w/lib" := FreshFile("w/lib")]);
            && files.Valid()
            && DefaultDirectoriesAsWritten(["w/lib", "w/lib"], files, []) == ["w/lib"]
            && "w/lib" in files.entries
  {
    var files := Dict(["w/lib"], map["w/lib" := FreshFile("w/lib")]);
    assert RemoveFirst(["w/lib", "w/lib"], "w/lib") == ["w/lib"];
    assert RemoveWritten(["w/lib", "w/lib"], files.keys) == ["w/lib"];
  }

  /** The directories that get a default CMake file: the required ones that have no CMake
      file and are not excluded, in order. */
  function DefaultDirectories(required: seq<string>, files: Dict<CMakeFile>, excludes: seq<string>)
    : seq<string>
  {
    if required == [] then []
    else if required[0] in files.entries || ShouldExclude(required[0], excludes) then
      DefaultDirectories(required[1..], files, excludes)
    else [required[0]] + DefaultDirectories(required[1..], files, excludes)
  }

  /** A directory gets a default CMake file exactly when it is required, has no CMake
      file and is not excluded; however often it is required. */
  lemma {:induction false} DefaultDirectoriesExact(required: seq<string>, files: Dict<CMakeFile>,
                                                   excludes: seq<string>, d: string)
    ensures d in DefaultDirectories(required, files, excludes) <==>
            d in required && d !in files.entries && !ShouldExclude(d, excludes)
  {
    if required != [] {
      DefaultDirectoriesExact(required[1..], files, excludes, d);
      assert required == [required[0]] + required[1..];
    }
  }

  /** The directories that are not among `keys`, in order. */
  function Without(required: seq<string>, keys: seq<string>): seq<string> {
    if required == [] then []
    else (if required[0] !in keys then [required[0]] else []) + Without(required[1..], keys)
  }

  lemma DistinctTail(s: seq<string>)
    requires Distinct(s) && s != []
    ensures Distinct(s[1..]) && s[0] !in s[1..]
  {
    DistinctPairs(s);
    DistinctPairs(s[1..]);
    assert forall i :: 0 <= i < |s[1..]| ==> s[1..][i] == s[i + 1];
  }

  lemma DistinctCons(x: string, t: seq<string>)
    requires Distinct(t) && x !in t
    ensures Distinct([x] + t)
  {
    DistinctPairs(t);
    DistinctPairs([x] + t);
    forall i, j | 0 <= i < j < |[x] + t| ensures ([x] + t)[i] != ([x] + t)[j] {
      if i > 0 {
        assert ([x] + t)[i] == t[i - 1];
      }
      assert ([x] + t)[j] == t[j - 1];
    }
  }

  /** In a list without repetition, removing the first occurrence removes every one. */
  lemma {:induction false} RemoveFirstDistinct(s: seq<string>, x: string)
    requires Distinct(s)
    ensures RemoveFirst(s, x) == Without(s, [x])
    ensures Distinct(RemoveFirst(s, x))
  {
    if s != [] {
      DistinctTail(s);
      if s[0] == x {
        WithoutAbsent(s[1..], x);
      } else {
        RemoveFirstDistinct(s[1..], x);
        var t := RemoveFirst(s[1..], x);
        if s[0] in t {
          RemoveFirstWithin(s[1..], x, s[0]);
        }
        DistinctCons(s[0], t);
      }
    }
  }

  lemma {:induction false} WithoutAbsent(s: seq<string>, x: string)
    requires x !in s
    ensures Without(s, [x]) == s
  {
    if s != [] {
      WithoutAbsent(s[1..], x);
      assert s == [s[0]] + s[1..];
    }
  }

  lemma {:induction false} WithoutNone(s: seq<string>)
    ensures Without(s, []) == s
  {
    if s != [] {
      WithoutNone(s[1..]);
      assert s == [s[0]] + s[1..];
    }
  }

  /** Removing one key, then the others, is removing them all. */
  lemma {:induction false} WithoutStep(s: seq<string>, k: string, keys: seq<string>)
    ensures Without(Without(s, [k]), keys) == Without(s, [k] + keys)
  {
    if s != [] {
      WithoutStep(s[1..], k, keys);
      var x := s[0];
      assert x in [k] + keys <==> x == k || x in keys;
      if x != k {
        var w := Without(s, [k]);
        assert w == [x] + Without(s[1..], [k]);
        assert w[1..] == Without(s[1..], [k]);
        assert Without(w, keys) == (if x !in keys then [x] else []) + Without(w[1..], keys);
      } else {
        assert Without(s, [k]) == Without(s[1..], [k]);
      }
    }
  }

  /** Without repetition in the required directories, removing one occurrence per CMake
      file removes every directory that has one. */
  lemma {:induction false} RemoveWrittenDistinct(required: seq<string>, keys: seq<string>)
    requires Distinct(required)
    ensures RemoveWritten(required, keys) == Without(required, keys)
    decreases |keys|
  {
    if keys == [] {
      WithoutNone(required);
    } else {
      var k := keys[0];
      RemoveFirstDistinct(required, k);
      if k !in required {
        WithoutAbsent(required, k);
      }
      var next := if k in required then RemoveFirst(required, k) else required;
      assert next == Without(required, [k]) && Distinct(next);
      RemoveWrittenDistinct(next, keys[1..]);
      WithoutStep(required, k, keys[1..]);
      assert [k] + keys[1..] == keys;
    }
  }

  /** So the two computations agree when no directory is required twice. */
  lemma DefaultDirectoriesAgree(required: seq<string>, files: Dict<CMakeFile>, excludes: seq<string>)
    requires Distinct(required) && files.Valid()
    ensures DefaultDirectoriesAsWritten(required, files, excludes) == DefaultDirectories(required, files, excludes)
  {
    RemoveWrittenDistinct(required, files.keys);
    IncludedWithout(required, files, excludes);
  }

  lemma {:induction false} IncludedWithout(required: seq<string>, files: Dict<CMakeFile>, excludes: seq<string>)
    requires files.Valid()
    ensures Included(Without(required, files.keys), excludes) == DefaultDirectories(required, files, excludes)
  {
    if required != [] {
      IncludedWithout(required[1..], files, excludes);
      var x := required[0];
      var rest := Without(required[1..], files.keys);
      assert x in files.keys <==> x in files.entries;
      if x !in files.keys {
        assert Without(required, files.keys) == [x] + rest;
        assert ([x] + rest)[1..] == rest;
        assert Included([x] + rest, excludes)
               == (if !ShouldExclude(x, excludes) then [x] else []) + Included(rest, excludes);
      } else {
        assert Without(required, files.keys) == rest;
      }
    }
  }
}
