/** The converter's global state and the steps that change it, in the order a run takes
    them: the scan of configure.ac (with the Makefile.am files it names), the binding of
    defines to options, the top-level text, the targets, the `add_subdirectory` merge and
    the write-out. Each step is proved to leave the state its value-level definition in
    `Configure`, `Makefile`, `Generator` or `Writer` describes. */
module Conversion {
  import opened Strings
  import opened Lexical
  import opened Dicts
  import opened Records
  import opened Makefile
  import opened Configure
  import opened Generator
  import opened Writer
  import opened Scanner
  import opened Binding
  import opened Output

  /** The module-level dictionaries and lists of the converter. */
  class Session {
    var libraries: seq<Library>
    var options: Dict<OptionVal>
    var defines: Dict<Define>
    var configVariables: Dict<seq<string>>
    var cmakeFiles: Dict<CMakeFile>
    var extraContent: Dict<string>
    var requiredDirectories: seq<string>

    /** The state as a value. */
    function Snapshot(): Model
      reads this
    {
      Model(libraries, options, defines, configVariables, cmakeFiles, extraContent, requiredDirectories)
    }

    ghost predicate Valid()
      reads this
    {
      Snapshot().Valid()
    }

    /** The state before any file is read: everything empty. */
    constructor ()
      ensures Valid()
      ensures Snapshot() == Model([], Empty(), Empty(), Empty(), Empty(), Empty(), [])
    {
      libraries := [];
      options := Empty();
      defines := Empty();
      configVariables := Empty();
      cmakeFiles := Empty();
      extraContent := Empty();
      requiredDirectories := [];
    }

    /** Replaces the whole state. */
    method Load(m: Model)
      modifies this
      ensures Snapshot() == m
    {
      libraries := m.libraries;
      options := m.options;
      defines := m.defines;
      configVariables := m.configVariables;
      cmakeFiles := m.cmakeFiles;
      extraContent := m.extraContent;
      requiredDirectories := m.requiredDirectories;
    }

    // ------------------------------------------------------------ the macro handlers

    /** `process_argument`: a scan that runs off the end of the text fails and changes
        nothing; otherwise the option of the key is created or updated. */
    method ProcessArgument(line: string) returns (ok: bool)
      modifies this
      ensures ok <==> ParseArgument(line).Ok?
      ensures ok ==> Snapshot() == old(Snapshot()).(options := ArgumentEffect(old(options), ParseArgument(line).value))
      ensures !ok ==> Snapshot() == old(Snapshot())
    {
      var a := ReadArgument(line);
      if a.IndexError? {
        return false;
      }
      Load(Snapshot().(options := ArgumentEffect(options, a.value)));
      return true;
    }

    /** `process_conditional`: the option the condition tests gets the define. */
    method ProcessConditional(line: string)
      modifies this
      ensures Snapshot() == old(Snapshot()).(options := ConditionalEffect(old(options), ParseConditional(line)))
    {
      var c := ReadConditional(line);
      Load(Snapshot().(options := ConditionalEffect(options, c)));
    }

    /** `process_a_define`: the define is recorded under its name, unused. */
    method ProcessADefine(line: string)
      modifies this
      ensures Snapshot() == old(Snapshot()).(defines := DefineEffect(old(defines), ParseDefine(line)))
    {
      var d := ReadADefine(line);
      Load(Snapshot().(defines := DefineEffect(defines, d)));
    }

    /** The first of the entries `entries` of `process_config_files`: its Makefile.am is
        processed when it exists. */
    method ConfigEntry(env: Env, entry: string, ghost entries: seq<string>) returns (ok: bool)
      requires Valid() && entries != [] && entries[0] == entry
      modifies this
      ensures Valid()
      ensures ProcessEntries(old(Snapshot()), env, entries)
              == if ok then ProcessEntries(Snapshot(), env, entries[1..]) else IndexError
    {
      var path := MakefileOf(env, entry);
      if env.tree.IsFile(path) {
        var r := ProcessMakefileAm(Snapshot(), env, path);
        if r.IndexError? {
          return false;
        }
        Load(r.value);
      }
      return true;
    }

    /** `process_config_files`: every listed entry whose Makefile.am exists is processed,
        in order; a failure in one of them ends the run. */
    method ProcessConfigFiles(line: string, env: Env) returns (ok: bool)
      requires Valid()
      modifies this
      ensures Valid()
      ensures ProcessEntries(old(Snapshot()), env, ConfigFiles(line)) == if ok then Ok(Snapshot()) else IndexError
    {
      ok := ProcessEntryList(env, ConfigFiles(line));
    }

    /** The loop of `process_config_files` over its entries. */
    method ProcessEntryList(env: Env, entries: seq<string>) returns (ok: bool)
      requires Valid()
      modifies this
      ensures Valid()
      ensures ProcessEntries(old(Snapshot()), env, entries) == if ok then Ok(Snapshot()) else IndexError
    {
      var i := 0;
      while i < |entries|
        invariant i <= |entries| && Valid()
        invariant ProcessEntries(old(Snapshot()), env, entries) == ProcessEntries(Snapshot(), env, entries[i..])
      {
        assert entries[i..][1..] == entries[i + 1..];
        ok := ConfigEntry(env, entries[i], entries[i..]);
        if !ok {
          return false;
        }
        i := i + 1;
      }
      return true;
    }

    /** The call through `function_list`. */
    method Handle(env: Env, macro: string, text: string) returns (ok: bool)
      requires Valid()
      modifies this
      ensures Valid()
      ensures Configure.Dispatch(old(Snapshot()), env, macro, text) == if ok then Ok(Snapshot()) else IndexError
    {
      if macro == "AC_ARG_ENABLE" {
        ok := ProcessArgument(text);
      } else if macro == "AM_CONDITIONAL" {
        ProcessConditional(text);
        ok := true;
      } else if macro == "AC_DEFINE" {
        ProcessADefine(text);
        ok := true;
      } else {
        ok := ProcessConfigFiles(text, env);
      }
    }

    // ------------------------------------------------------------ the configure.ac loop

    /** The look-back at the top of each iteration: the `previous_line` and
        `previous_line_distance` bookkeeping of the converter. */
    static method LookBackStep(current: string, previous: string, distance: nat)
      returns (previous': string, distance': nat)
      ensures (previous', distance') == LookBack(current, previous, distance)
    {
      previous', distance' := previous, distance;
      if |current| > 1 && '$' in current {
        previous', distance' := current, 0;
      } else if distance < 3 {
        if '$' in current {
          previous', distance' := current, 0;
        } else {
          distance' := distance + 1;
        }
      } else {
        previous', distance' := "", distance + 1;
      }
    }

    /** The rest of an iteration on a line that names a macro: the joined text goes to
        the macro's handler, and the index of the line last joined is returned. */
    method MacroStep(lines: seq<string>, i: nat, env: Env, macro: string, previous: string)
      returns (ok: bool, last: nat)
      requires i < |lines| && Valid()
      modifies this
      ensures Valid()
      ensures MacroScan(lines, i, env, old(Snapshot()), macro, previous)
              == if ok then Ok((Snapshot(), last)) else IndexError
      ensures ok ==> last < |lines|
    {
      var joined := JoinMacro(lines, i);
      if joined.IndexError? {
        return false, 0;
      }
      var full;
      full, last := joined.value.0, joined.value.1;
      ok := Handle(env, macro, if macro == "AC_DEFINE" then full + previous else full);
    }

    /** One iteration of the loop over the stripped lines: the look-back, the skip of
        comments and blank lines, the variable capture, and the joined macro. */
    method ScanStep(lines: seq<string>, i: nat, env: Env, current: string, previous: string, distance: nat)
      returns (ok: bool, current': string, previous': string, distance': nat)
      requires i < |lines| && Valid()
      modifies this
      ensures Valid()
      ensures ScanLine(lines, i, env, Scan(old(Snapshot()), current, previous, distance))
              == if ok then Ok(Scan(Snapshot(), current', previous', distance')) else IndexError
    {
      previous', distance' := LookBackStep(current, previous, distance);
      current' := lines[i];
      if StartsWith(current', "#") || current' == [] {
        return true, current', previous', distance';
      }
      var a := ReadAssignment(current');
      Load(Snapshot().(configVariables := CaptureEffect(configVariables, a)));
      var macro := ProcessableLine(current');
      if macro == "" {
        return true, current', previous', distance';
      }
      var last;
      ok, last := MacroStep(lines, i, env, macro, previous');
      if ok {
        current' := lines[last];
      }
    }

    /** `process_configure_ac` on the lines of configure.ac: the loop over every line,
        then the exact and the fuzzy binding of the defines to the options. */
    method ProcessConfigureAc(env: Env, raw: seq<string>, similar: (string, string) -> Ratio) returns (ok: bool)
      requires Valid()
      modifies this
      ensures Valid()
      ensures ConfigureAc(old(Snapshot()), env, raw, similar) == if ok then Ok(Snapshot()) else IndexError
    {
      var lines := StripAll(raw);
      var current, previous, distance := "", "", 0;
      var i := 0;
      while i < |lines|
        invariant i <= |lines| && Valid()
        invariant ScanFrom(lines, 0, env, Scan(old(Snapshot()), "", "", 0))
                  == ScanFrom(lines, i, env, Scan(Snapshot(), current, previous, distance))
      {
        var stepped;
        stepped, current, previous, distance := ScanStep(lines, i, env, current, previous, distance);
        if !stepped {
          return false;
        }
        i := i + 1;
      }
      ExactPass();
      FuzzyPass(similar);
      return true;
    }

    // ------------------------------------------------------------ the binding passes

    /** The first loop after the scan, on the options and defines of the state. */
    method ExactPass()
      requires Valid()
      modifies this
      ensures Valid()
      ensures (options, defines) == ResolveExact(old(options), old(defines))
      ensures Snapshot() == old(Snapshot()).(options := options, defines := defines)
    {
      options, defines := BindExact(options, defines);
    }

    /** The second loop, on the options and defines of the state. */
    method FuzzyPass(similar: (string, string) -> Ratio)
      requires Valid()
      modifies this
      ensures Valid()
      ensures (options, defines) == ResolveFuzzy(old(options), old(defines), Criterion(similar))
      ensures Snapshot() == old(Snapshot()).(options := options, defines := defines)
    {
      options, defines := BindFuzzy(options, defines, Criterion(similar));
    }
  
    // ------------------------------------------------------------ the generation

    /** The `finalize` call on each option as its declaration is written in the top-level
        file: the options are finalized in place. The text written alongside is
        `Output.WriteTopFinalizing`. */
    method FinalizeAll()
      requires Valid()
      modifies this
      ensures Valid()
      ensures FinalizedFrom(options, old(options))
      ensures Snapshot() == old(Snapshot()).(options := options)
    {
      options := FinalizeOptions(options);
    }

    /** `process_libraries`: each target's text, in order, goes to the CMake file of its
        directory, which is created when missing. */
    method ProcessLibraries(flagsOf: Library -> seq<string>, tree: Tree)
      requires Valid()
      modifies this
      ensures Valid()
      ensures Snapshot() == Generator.ProcessLibraries(old(Snapshot()), flagsOf, tree)
    {
      cmakeFiles := AddTargetTexts(libraries, TextFor(Snapshot(), flagsOf, tree), cmakeFiles);
    }

    /** `process_cmake_file_directories`: each directory with `add_subdirectory` lines gets
        them as the extra text of its CMake file, which is created when missing. */
    method ProcessCmakeFileDirectories()
      requires Valid()
      modifies this
      ensures Valid()
      ensures cmakeFiles == MergeExtra(old(cmakeFiles), extraContent, extraContent.keys)
      ensures Snapshot() == old(Snapshot()).(cmakeFiles := cmakeFiles)
    {
      cmakeFiles := MergeDirectories(cmakeFiles, extraContent);
    }

    /** The write-out: `written` maps each directory to what its CMakeLists.txt holds
        afterwards; each directory written is removed once from the required ones. */
    method WriteOut(wd: string, top: string) returns (written: map<string, string>)
      requires Valid()
      modifies this
      ensures Valid()
      ensures written == Written(cmakeFiles, wd, top)
      ensures requiredDirectories == RemoveWritten(old(requiredDirectories), cmakeFiles.keys)
      ensures Snapshot() == old(Snapshot()).(requiredDirectories := requiredDirectories)
    {
      written, requiredDirectories := WriteFiles(cmakeFiles, requiredDirectories, wd, top);
    }

    // ------------------------------------------------------------ the whole generation

    /** What follows the write of the top-level CMakeLists.txt, whose text is `top`: the
        targets, the `add_subdirectory` merge and the write-out. `written` maps each
        directory to its CMakeLists.txt afterwards, `defaults` lists the directories that
        get a default one. */
    method Generate(env: Env, flagsOf: Library -> seq<string>, top: string)
      returns (written: map<string, string>, defaults: seq<string>)
      requires Valid()
      modifies this
      ensures Valid()
      ensures cmakeFiles == MergeExtra(Targets(libraries, TextFor(old(Snapshot()), flagsOf, env.tree), old(cmakeFiles)),
                                       extraContent, extraContent.keys)
      ensures written == Written(cmakeFiles, env.workingDirectory, top)
      ensures requiredDirectories == RemoveWritten(old(requiredDirectories), cmakeFiles.keys)
      ensures defaults == DefaultDirectories(old(requiredDirectories), cmakeFiles, env.excludes)
      ensures Distinct(old(requiredDirectories)) ==> defaults == Included(requiredDirectories, env.excludes)
      ensures Snapshot() == old(Snapshot()).(cmakeFiles := cmakeFiles, requiredDirectories := requiredDirectories)
    {
      ProcessLibraries(flagsOf, env.tree);
      ProcessCmakeFileDirectories();
      var required := requiredDirectories;
      written := WriteOut(env.workingDirectory, top);
      defaults := DefaultList(required, cmakeFiles, env.excludes);
      if Distinct(required) {
        DefaultDirectoriesAgree(required, cmakeFiles, env.excludes);
      }
    }
  }
}
