# auto2cmake in Dafny

This project models the core of `auto2cmake.py`, the converter that reads an Autotools
build (a `configure.ac` and the `Makefile.am` files it names) and writes CMake files
(a top-level `CMakeLists.txt` holding the options and the `config.h` generator, and
one `CMakeLists.txt` per directory holding its targets). It covers:

- the lexical helpers (`count_parentheses`, `replace_quotes`, `should_exclude`,
  `remove_garbage`, `canonicalize`, `processable_line`, `make_nice_library_name`);
- the `Library` and `Option` records (`Option` is a class updated in place);
- the `configure.ac` scan: the macro handlers `process_argument`,
  `process_conditional`, `process_a_define` and `process_config_files`, the variable
  capture, the macro joiner and the look-back line kept for `AC_DEFINE`;
- the exact and fuzzy passes that bind defines to options;
- `process_makefile_am` (both passes, the `$(var)` resolution and `SUBDIRS`);
- `filelist_to_string` and the text `process_libraries` builds for each target;
- `process_cmake_file_directories`, the top-level file, and the write-out that decides
  which directories get a default CMake file.

Modules, one per file, follow the program's layers:

| file | module | holds |
|---|---|---|
| strings.dfy | `Strings` | Python string operations (`find`, `split`, `strip`, `replace`, `upper`) |
| dicts.dfy | `Dicts` | insertion-ordered dictionaries, as Python's `dict` |
| lexical.dfy | `Lexical` | the lexical helpers |
| records.dfy | `Records` | `Library`, the `Option` class and its value `OptionVal`, `Define`, `CMakeFile`, the conversion state `Model` |
| makefile.dfy | `Makefile` | `process_makefile_am` as functions of the state |
| configure.dfy | `Configure` | the `configure.ac` scan and the two binding passes as functions of the state |
| scanner.dfy | `Scanner` | the character and line loops of the scan, as methods proved against `Configure` |
| binding.dfy | `Binding` | the loops of the two binding passes, as methods proved against `Configure` |
| generator.dfy | `Generator` | `filelist_to_string` and the per-target text of `process_libraries` |
| writer.dfy | `Writer` | the top-level text, the merge of extra content, the write-out and the default directories |
| output.dfy | `Output` | the loops of the output stage, as methods proved against `Generator` and `Writer` |
| session.dfy | `Conversion` | the class `Session` holding the converter's global state, with one method per step |

The global dictionaries and lists of the program (`options`, `temp_defines`,
`libraries`, `config_ac_variables`, `cmake_files`, `extra_content`,
`required_directories`) are the fields of `Conversion.Session`; each of its methods
changes them as the corresponding function does, and states the new state as a
function of the old one (`Snapshot()`), whose properties are proved as lemmas.

Where the code and its comments or its evident design disagree, the model follows the
code, except for the default directories (see "## Findings"):

- `canonicalize` turns `@` into `_`, although its comment says `@` is kept
  (`Lexical.CanonicalizeStrudel`).
- `process_argument` overwrites an existing option's description and status with the
  new ones, even when these are empty (`Configure.ArgumentEffect`).
- `Library.condition` and `Library.compiler_flags` start as lists and are extended with
  `+=` by strings, which appends characters; two conditioned lines give the
  concatenation `CC`. The comparison `get_define() == library.condition` at
  auto2cmake.py:729 compares a string with a list, so it never holds, and a target's
  own condition is always used as written (`Generator.LibraryConditionRequired`).
- `should_exclude` treats an empty exclude entry as excluding every directory, while
  pass 1 skips empty entries (`Lexical.EmptyPrefixExcludesAll`, `Makefile.ProcessIt`).

## Model

| member | source | states |
|---|---|---|
| Lexical.CountParenthesesCounts | auto2cmake.py:227-234 | the count is the number of `(` minus the number of `)` |
| Lexical.CountParenthesesAdditive | auto2cmake.py:227-234 | the count of a concatenation is the sum of the counts |
| Lexical.ReplaceQuotesLength | auto2cmake.py:240-242 | the result is longer by exactly the number of `"` in the input |
| Lexical.ReplaceQuotesEscaped | auto2cmake.py:240-242 | every `"` of the result is preceded by a backslash |
| Lexical.ReplaceQuotesChars | auto2cmake.py:240-242 | no character other than the backslash appears that was not in the input |
| Lexical.ReplaceQuotesRoundTrip | auto2cmake.py:240-242 | unescaping the result gives the input back |
| Lexical.ShouldExclude | auto2cmake.py:261-265 | true exactly when some exclude entry is a prefix of the directory |
| Lexical.EmptyPrefixExcludesAll | auto2cmake.py:261-265 | an empty exclude entry excludes every directory |
| Lexical.DropGarbageChars | auto2cmake.py:270-276 | the result keeps exactly the input's characters that are not `[ ] , $ ( )` |
| Lexical.RemoveGarbageClean | auto2cmake.py:270-278 | the result has no garbage character, only input characters, and no whitespace at either end |
| Lexical.RemoveGarbageIdempotent | auto2cmake.py:270-278 | removing garbage twice is removing it once |
| Lexical.Canonicalize | auto2cmake.py:284-291 | same length; letters, digits and `_` kept in place; every other character becomes `_` |
| Lexical.CanonicalizeIdempotent | auto2cmake.py:284-291 | canonicalizing twice is canonicalizing once |
| Lexical.CanonicalizeStrudel | auto2cmake.py:282-291 | `a@b` becomes `a_b`: the `@` is not kept |
| Lexical.ProcessableLine | auto2cmake.py:354-359 | the result is one of the four macro names exactly when the line starts with that name and `(`, and empty when it starts with none |
| Lexical.MakeNiceLibraryName | auto2cmake.py:888-903 | a `-L` flag comes back with only its quotes removed; any other result holds no `/`, `.` or `'` |
| Lexical.MakeNiceLibraryNameArchive | auto2cmake.py:888-903 | `lib<stem>.<ext>` without a directory names `<stem>` (`libfoo.a` is `foo`) |
| Lexical.MakeNiceLibraryNameFlag | auto2cmake.py:888-903 | `-l<name>` names `<name>` (`-lm` is `m`) |
| Lexical.LastComponent | auto2cmake.py:892-896 | the result is a suffix of the path holding no `/`; when it is shorter than the path, a `/` stands right before it |
| Lexical.LastComponentPlain | auto2cmake.py:892-896 | a name without `/` is its own last component |
| Lexical.LastComponentAfter | auto2cmake.py:892-896 | the last component of `dir/file` is `file`, for a file name without `/` |
| Lexical.Stem | auto2cmake.py:897-900 | a name without `.` is kept; otherwise the text before its first `.`, with a leading `lib` dropped; the result holds no `.` |
| Lexical.StemOfArchive | auto2cmake.py:897-900 | the stem of `lib<stem>.<ext>` is `<stem>` |
| Lexical.MakeNiceLibraryNameInDirectory | auto2cmake.py:888-903 | `dir/lib<stem>.<ext>` gives `<stem>`, for a directory that is no `-L` flag |
| Lexical.MakeNiceLibraryNameSibling | auto2cmake.py:888-903 | `../lib/libbar.la` gives `bar` |
| Records.StripReference | auto2cmake.py:106-109 | the name loses every `$`, `(` and `)` and keeps every other character |
| Records.NewLibrary | auto2cmake.py:91-126 | a target is dependant exactly when its raw name has `$`; its canonic name is the canonicalized name; every list starts empty and it is a library |
| Records.NewLibraryDependant | auto2cmake.py:106-126 | a dependant target is STATIC, its name has no `$ ( )`, and its referred name is its name |
| Records.NewLibraryKind | auto2cmake.py:115-123 | otherwise it is STATIC exactly when the name ends in `.a`; the referred name drops 3 leading and 2 (static) or 3 (dynamic) trailing characters |
| Records.FindLibrary | auto2cmake.py:245-249 | the index of the first target with the canonic name, or -1 when there is none |
| Records.FindLibraryAppend | auto2cmake.py:218-222 | appending a target does not change an earlier find, and finds the new one only when it is the first of its name |
| Records.FindLibraryUpdate | auto2cmake.py:245-249 | updating a target in place under its own canonic name changes no find |
| Strings.RemoveEach | auto2cmake.py:143-146 | removing a set of characters, as the constructor does with `]`, `,` and `[` in the define value: none of them is left and every other character is kept |
| Records.CleanDefineValue | auto2cmake.py:174-178 | with a `[`, the value loses every `[` and `]`; without one it is unchanged |
| Records.CleanDefineValueIdempotent | auto2cmake.py:174-178 | setting a define value twice cleans it as once |
| Records.OptionName | auto2cmake.py:135-139 | same length; `-` becomes `_` and letters are upper-cased |
| Records.NewOptionVal | auto2cmake.py:134-148 | the option gets the cleaned name, the given fields, the stripped value and no extra defines |
| Records.Finalized | auto2cmake.py:189-195 | description, status and define description have length at least 2; a short description becomes `Enable <name>`, a short status `OFF`, a short define description the description; all else unchanged |
| Records.FinalizeIdempotent | auto2cmake.py:189-195 | finalizing twice is finalizing once |
| Records.Option.constructor | auto2cmake.py:134-148 | the new option's value is the constructed value |
| Records.Option.SetName | auto2cmake.py:150-151 | only the name changes |
| Records.Option.SetDescription | auto2cmake.py:156-157 | only the description changes |
| Records.Option.SetStatus | auto2cmake.py:162-163 | only the status changes |
| Records.Option.SetDefine | auto2cmake.py:168-169 | only the define changes |
| Records.Option.SetDefineValue | auto2cmake.py:174-178 | only the define value changes, to the cleaned value |
| Records.Option.SetDefineDescription | auto2cmake.py:183-184 | only the define description changes |
| Records.Option.Finalize | auto2cmake.py:189-195 | the new value is the finalized old value |
| Records.Option.AddExtraDefine | auto2cmake.py:197-198 | the define is appended to the extra defines, nothing else changes |
| Makefile.HeadLength | auto2cmake.py:454 | the head of a path ends at its last `/`: no `/` follows it |
| Makefile.TrimSlashes | auto2cmake.py:454 | the head loses its trailing slashes and nothing else |
| Makefile.TrimSlashesOnce | auto2cmake.py:454 | a directory without a trailing slash comes back unchanged from `dir/` |
| Makefile.Dirname | auto2cmake.py:454 | the directory is a prefix of the path, and empty for a path without `/` |
| Makefile.DirnameOfJoin | auto2cmake.py:454 | the directory of `dir/name` is `dir` |
| Makefile.ProcessIt | auto2cmake.py:480-483 | true exactly when no non-empty exclude entry is a prefix of the directory |
| Makefile.ProcessItAfterGuard | auto2cmake.py:457-458 | a directory that passed `should_exclude` is processed by pass 1 |
| Makefile.Drop2 | auto2cmake.py:477-478 | the target names are the tokens after the first two |
| Makefile.TargetFor | auto2cmake.py:486-490 | a `_PROGRAMS` target is an application whose referred name is its canonic name; otherwise the plain library |
| Makefile.AddTarget | auto2cmake.py:491-492 | the targets already there keep their places; at most the new target is added, at the end, exactly when no target had its canonic name; afterwards the name is found |
| Makefile.AddTargetDedup | auto2cmake.py:491-492 | canonic names stay distinct, earlier targets stay, and the new canonic name is found |
| Makefile.AddTargetsDedup | auto2cmake.py:485-492 | the same for all the names of a line: each is found afterwards |
| Makefile.DiscoverDedup | auto2cmake.py:469-492 | pass 1 keeps canonic names distinct and only appends targets |
| Makefile.DiscoverFinds | auto2cmake.py:469-492 | after pass 1, every name that a `_LIBRARIES` or `_PROGRAMS` line of a processed directory lists from its third word on has a target with its canonic name |
| Makefile.IfLine | auto2cmake.py:502-506 | an `if` line sets the condition to its second token and fails without one; `endif` clears it; other lines keep it |
| Makefile.EndifIsNotIf | auto2cmake.py:502-506 | an `endif` line is not taken as an `if` line, so it only clears the condition |
| Makefile.ContinueShortest | auto2cmake.py:512-514 | the continuation loop glues the shortest run of lines not ending in `\`, and fails only when every run ends in `\` |
| Makefile.Pad | auto2cmake.py:517 | `'%-1s' % x` left-justifies `x` in a field of width one: `x` is kept, the result is at least one character long, and any padding is spaces |
| Makefile.SetField | auto2cmake.py:541-600 | the chosen field is replaced by the tokens (or the flags text), or extended by them on `+=`; every other field of the target is kept |
| Makefile.Attach | auto2cmake.py:532-600 | a known target gets the active condition appended and the field set, and its name is recorded; every other target and an unknown name change nothing |
| Makefile.VariableOf | auto2cmake.py:520-524 | the variable has no `+` |
| Makefile.VariableOfName | auto2cmake.py:520-524 | for a name `v` without `+` and without whitespace at either end, the left-hand side `v` followed by whitespace, an optional `+` and more whitespace names exactly `v` |
| Makefile.PlusLineSplit | auto2cmake.py:519 | a line `<v> += <rhs>` with no other `=` splits into `<v> +` and ` <rhs>` |
| Makefile.PlusLineVariable | auto2cmake.py:520-524 | the part `<v> +` before the `=` names the variable `v` |
| Makefile.PlusLineAppends | auto2cmake.py:541 | a line `<v> += <rhs>` holds `+=`, so it appends |
| Makefile.Branch | auto2cmake.py:526-600 | a suffix branch that applies attaches to its target; the variables, condition and subdirectories stay |
| Makefile.Branches | auto2cmake.py:526-600 | the suffix branches change neither the variables nor the condition |
| Makefile.OnlySources | auto2cmake.py:527-545 | a `_SOURCES` variable takes only the sources branch |
| Makefile.SourcesAssignment | auto2cmake.py:527-545 | an assignment to `<name>_SOURCES` of a known target replaces its file list by the tokens after `=`, or appends them on `+=`, and appends the active condition |
| Makefile.SourcesPlusLine | auto2cmake.py:519-545 | the line `<name>_SOURCES += <files>` for a known target extends its file list by the tokens of the text after `=`, appends the active condition, records the target as defined in this file and changes no other target |
| Makefile.AttachField | auto2cmake.py:534-598 | an attach to a known target appends the active condition, replaces or extends the chosen field only, records the name, and leaves every other target unchanged |
| Makefile.LinkAddAssignment | auto2cmake.py:546-560 | an assignment to `<name>_LDADD` of a known target replaces its libraries to link by the tokens after `=`, or appends them on `+=`; appends the active condition, records the name for the file, keeps its other fields and every other target |
| Makefile.CompileFlagsAssignment | auto2cmake.py:562-584 | an assignment to `<name>_CFLAGS`, `_CXXFLAGS` or `_CPPFLAGS` of a known target sets its compiler flags to the line's flags text, or appends that text on `+=`; appends the active condition, records the name, keeps its other fields and every other target |
| Makefile.LinkFlagsAssignment | auto2cmake.py:586-598 | an assignment to `<name>_LDFLAGS` of a known target replaces its linker flags by the tokens after `=`, or appends them on `+=`; appends the active condition, records the name, keeps its other fields and every other target |
| Makefile.UnusedAssignment | auto2cmake.py:600-616 | an assignment whose variable names no known target through any suffix goes to the unused case (`SUBDIRS` and plain variables) and changes no target and records no name |
| Makefile.AssignLinkAdd | auto2cmake.py:546-560 | only the `_LDADD` branch applies to a `<name>_LDADD` variable, and it attaches to the target |
| Makefile.AssignCompileFlags | auto2cmake.py:562-584 | only the flags branch applies to a `<name>_CFLAGS`, `_CXXFLAGS` or `_CPPFLAGS` variable, with the name cut at the right length |
| Makefile.AssignLinkFlags | auto2cmake.py:586-598 | only the `_LDFLAGS` branch applies to a `<name>_LDFLAGS` variable |
| Makefile.AssignUnused | auto2cmake.py:600-616 | no branch takes a variable naming no known target, so the assignment is the unused case |
| Makefile.LinkAddSuffix | auto2cmake.py:546-548 | `<name>_LDADD` ends with `_LDADD` and with none of the other four suffixes, and cutting it gives `name` |
| Makefile.CFlagsSuffix | auto2cmake.py:562-566 | `<name>_CFLAGS` ends with `_CFLAGS` and with none of the other suffixes, and cutting seven characters gives `name` |
| Makefile.CxxFlagsSuffix | auto2cmake.py:562-568 | `<name>_CXXFLAGS` and `<name>_CPPFLAGS` end with none of the other suffixes, and cutting nine characters gives `name` |
| Makefile.LinkFlagsSuffix | auto2cmake.py:586-588 | `<name>_LDFLAGS` ends with `_LDFLAGS` and with none of the other suffixes, and cutting it gives `name` |
| Makefile.FlagsOfAssignment | auto2cmake.py:578-580 | the flags text of `<variable><gap>=<rest>` is `<gap><rest>` stripped: only the variable and the first `=` are removed |
| Makefile.FlagsKeepPlus | auto2cmake.py:578-584 | the flags text of a `+=` line starts with the `+`, which `+=` then appends to the compiler flags |
| Makefile.SourcesBranch | auto2cmake.py:527-545 | that assignment line is exactly the attach of the tokens to the target |
| Makefile.AssignSources | auto2cmake.py:527-545 | the same, from the variable and the right-hand side |
| Makefile.Record | auto2cmake.py:607-616 | one more value and one more condition are appended for the variable; other variables unchanged |
| Makefile.RecordLockstep | auto2cmake.py:607-616 | values and conditions stay in lockstep |
| Makefile.Unused | auto2cmake.py:602-616 | `SUBDIRS` sets the subdirectories; a variable without `_LIBRARIES` and `_PROGRAMS` is recorded; targets and condition unchanged |
| Makefile.AssignmentLine | auto2cmake.py:509-524 | an assignment line fails exactly when it has no `=`; the condition is kept |
| Makefile.Assign | auto2cmake.py:518-616 | an assignment keeps the condition |
| Makefile.Pass2Lockstep | auto2cmake.py:496-616 | pass 2 keeps every variable's values and conditions in lockstep |
| Makefile.AttachTargets | auto2cmake.py:532-600 | attaching an assignment to a target keeps every target's canonic name and directory at its place |
| Makefile.BranchTargets | auto2cmake.py:526-600 | so does one suffix branch |
| Makefile.BranchesTargets | auto2cmake.py:526-600 | so do the suffix branches of an assignment |
| Makefile.AssignmentTargets | auto2cmake.py:509-600 | so does an assignment line |
| Makefile.Pass2LineTargets | auto2cmake.py:496-616 | so does any line of pass 2 |
| Makefile.Pass2Targets | auto2cmake.py:496-616 | pass 2 keeps every target's canonic name and directory at its place |
| Makefile.Pass2LineLockstep | auto2cmake.py:496-616 | one line of pass 2 keeps the lockstep |
| Makefile.AssignmentLockstep | auto2cmake.py:509-616 | one assignment line keeps the lockstep |
| Makefile.AssignLockstep | auto2cmake.py:518-616 | one assignment keeps the lockstep |
| Makefile.UnusedLockstep | auto2cmake.py:602-616 | an unused assignment keeps the lockstep |
| Makefile.Dedup | auto2cmake.py:625 | `set(...)` of the names: the same members, no repeats |
| Makefile.CleanAll | auto2cmake.py:634 | every condition is cleaned of garbage |
| Makefile.AppendOne | auto2cmake.py:633-637 | a new cleaned condition gets the value's token list as its group, an existing one gets the value joined by spaces appended; every other group is kept and no other condition appears |
| Makefile.AppendConditionalsGrows | auto2cmake.py:633-638 | every condition gets a group and existing groups are only extended |
| Makefile.ResolveInLibrary | auto2cmake.py:629-642 | a variable a file mentions as `$(var)` becomes conditional groups; otherwise its values are kept as a plain variable; file list, name and condition unchanged |
| Makefile.ResolveNames | auto2cmake.py:625-642 | every target keeps its canonic name and directory at its place |
| Makefile.ResolveNamesOthers | auto2cmake.py:625-642 | a target not named in the file is not changed |
| Makefile.ResolveNamesNamed | auto2cmake.py:625-642 | over distinct names, the target a name finds becomes the one-variable step (`ResolveInLibrary`) applied once to it |
| Makefile.ResolveVariablesNamed | auto2cmake.py:622-642 | a target named in the file gets the step for every variable, in insertion order (`ResolveAll`) |
| Makefile.ResolveVariablesOthers | auto2cmake.py:622-642 | a target named by no name of the file is left as it was |
| Makefile.ResolveAll | auto2cmake.py:622-642 | the steps for all variables keep a target's file list, canonic name and directory |
| Makefile.FindLibrarySame | auto2cmake.py:624 | a lookup by canonic name gives the same index in targets that keep their canonic names |
| Makefile.ResolveFile | auto2cmake.py:618-642 | the `$(var)` step of a file keeps every target's canonic name and directory at its place |
| Makefile.ResolveFileTargets | auto2cmake.py:618-642 | a target named in the file gets every variable's step in insertion order; any other target is unchanged |
| Makefile.ResolveVariables | auto2cmake.py:622-642 | every target keeps its canonic name and directory at its place |
| Makefile.Subdirs | auto2cmake.py:644-651 | the extra text is the old one followed by the `add_subdirectory( s )` line of each listed subdirectory `s` whose path is not excluded, and those paths follow the old required directories, both in the order listed |
| Makefile.SubdirPathsExact | auto2cmake.py:646-650 | `dir/s` becomes required exactly when `s` is listed and `dir/s` is not excluded |
| Makefile.SubdirsSingle | auto2cmake.py:646-650 | `SUBDIRS = sub` gives the one line `add_subdirectory( sub )` and requires `dir/sub` |
| Makefile.BothPasses | auto2cmake.py:466-616 | pass 2, started with no condition, no subdirectories and no variables after pass 1, leaves its variables well formed |
| Makefile.Finish | auto2cmake.py:618-651 | the targets are the `$(var)` step of the file (`ResolveFile`) and keep their canonic names and directories; when `SUBDIRS` was set, the directory's extra content becomes its `add_subdirectory` lines (`Subdirs`) and the subdirectories not excluded follow the required directories; otherwise both are unchanged; options, defines, configure variables and CMake files are unchanged |
| Makefile.StripAll | auto2cmake.py:470 | every line is stripped |
| Makefile.ProcessMakefileAm | auto2cmake.py:448-651 | a missing file changes nothing; otherwise options, defines, configure variables and CMake files are unchanged and the extra content stays well formed |
| Makefile.ProcessMakefileAmEffect | auto2cmake.py:448-651 | a missing file or an excluded directory changes nothing; otherwise the result is an index error exactly when the passes fail, and else `Finish` of the passes' state: the extra content and required directories as `Subdirs` states them |
| Makefile.ProcessMakefileAmTargets | auto2cmake.py:448-651 | the targets known before keep their canonic names and directories at their places, and canonic names stay distinct |
| Configure.ScanFor | auto2cmake.py:320-331 | the first index from `i` whose character is (or is not) `c`; running off the end is the `IndexError` |
| Configure.ArgumentDescriptionMissing | auto2cmake.py:315-333 | without `[` the description is empty; with `[` but no `]` the scan fails |
| Configure.ArgumentDescriptionText | auto2cmake.py:315-333 | a description holds no `]`, does not start with a space and is followed by `]` in the text |
| Configure.ArgumentKey | auto2cmake.py:309-313 | the key is the text before the first comma with `-` made `_` |
| Configure.ParseArgument | auto2cmake.py:306-340 | fails exactly when the description scan fails; the status is `ON` exactly when the text contains `=yes`, `OFF` otherwise |
| Configure.ArgumentEffect | auto2cmake.py:343-348 | a new key gets a new option last; an existing one keeps its define fields and gets the new description and status; others unchanged |
| Configure.FirstField | auto2cmake.py:367-371 | the text before the first comma |
| Configure.BoundOption | auto2cmake.py:372-382 | the bound option holds no `- " =` or space, and is empty without `$` |
| Configure.ParseConditional | auto2cmake.py:365-382 | the define is the first field and the bound option is read after `$` |
| Configure.ConditionalEffect | auto2cmake.py:384-387 | the bound option's define is set, creating the option last when missing; others unchanged |
| Configure.BalanceIsCount | auto2cmake.py:402-414 | the round depth of a prefix is its parenthesis count |
| Configure.DefineStep | auto2cmake.py:403-424 | the stage advances exactly on a comma at bracket depth 0; the loop stops at the `)` that closes `AC_DEFINE(` or at stage 4 |
| Configure.DefineStepInv | auto2cmake.py:403-424 | one character keeps the invariant: name and value without comma, a description starting with its comma |
| Configure.DefineRunInv | auto2cmake.py:403-424 | the whole loop keeps it |
| Configure.DefineRunStops | auto2cmake.py:403-424 | the loop ends at the balancing `)`, at the third top-level comma, or at the end of the text |
| Configure.DefineFields | auto2cmake.py:396-424 | the name and value never hold a comma |
| Configure.DefineFieldsStop | auto2cmake.py:403-418 | from the start, the loop stops at the balancing `)`, at the third top-level comma or at the end |
| Configure.DefineOptionName | auto2cmake.py:427-439 | the option name holds no `"` and no lower-case letter, and is empty without `$` |
| Configure.DefineOptionNameOf | auto2cmake.py:427-439 | the option name is the upper-cased text between the first `$` and the next `"` |
| Configure.ParseDefine | auto2cmake.py:392-442 | the define gets the loop's fields, the option name, and is not used |
| Configure.DefineEffect | auto2cmake.py:437-442 | a define with the same name is overwritten in place, with `used` reset; others unchanged |
| Configure.NameLength | auto2cmake.py:976-978 | the longest prefix of letters, digits and `_` |
| Configure.SkipSpaces | auto2cmake.py:979-980 | the first non-whitespace index from `j` |
| Configure.Capture | auto2cmake.py:971-987 | no `=` means no assignment; a captured name starts with a letter and is a prefix of name characters |
| Configure.CaptureInBounds | auto2cmake.py:976-981 | with an `=` in the line, neither loop runs off the end |
| Configure.CaptureSound | auto2cmake.py:971-987 | a capture is the name, whitespace, `=` and the value |
| Configure.CaptureComplete | auto2cmake.py:971-987 | every line of that shape is captured with that name and value |
| Configure.CaptureEffect | auto2cmake.py:989-993 | the value is appended to the variable's values; other variables only grow |
| Configure.JoinFrom | auto2cmake.py:998-1009 | the last line joined lies within the file |
| Configure.JoinMacroShortest | auto2cmake.py:998-1009 | the joiner passes on the shortest run of lines, each followed by a space, whose parenthesis count is 0; it fails only when no run balances |
| Configure.JoinFromFacts | auto2cmake.py:998-1009 | from any point of an unbalanced run, the joiner returns the first balanced run, or fails when none is |
| Configure.JoinFromShortest | auto2cmake.py:998-1009 | the shortest balanced run is what the joiner returns |
| Configure.LookBack | auto2cmake.py:951-963 | a line with `$` is kept (when longer than 1, or within 3 lines); otherwise the distance grows and the line is forgotten after 3 |
| Configure.FirstMatch | auto2cmake.py:1019-1034 | the first define in order that matches the option by define name or option name, or -1 |
| Configure.ResolveExact | auto2cmake.py:1017-1034 | every option is bound to its first match; a define is used exactly when it was or some option bound it |
| Configure.ExactBindsFirst | auto2cmake.py:1017-1034 | an option with a match is bound to the first one in insertion order, which becomes used; one without a match is unchanged |
| Configure.FuzzyExtras | auto2cmake.py:1037-1050 | the defines added to an option are exactly the unused ones that meet the criterion |
| Configure.ResolveFuzzy | auto2cmake.py:1037-1050 | every option gets its fuzzy extras appended in define order; a define is used exactly when it was or some option meets it |
| Configure.FuzzyMatch | auto2cmake.py:1043-1048 | a define key and an option key equal up to case always match |
| Configure.Criterion | auto2cmake.py:1043-1048 | with a symmetric similarity, the criterion is symmetric in the two keys |
| Configure.FuzzyContainment | auto2cmake.py:1043-1048 | a define key that contains the option key, in any case (`HAVE_FOO_BAR` and `foo_bar`), matches it whatever the similarity |
| Configure.FuzzyAdds | auto2cmake.py:1037-1050 | a define is added to an option exactly when it was unused and meets it, and it then becomes used |
| Configure.ConfigFiles | auto2cmake.py:923-925 | the entries are non-empty tokens |
| Configure.ConfigFilesClean | auto2cmake.py:923-925 | every entry holds only characters of the line, none of them whitespace or one of `[ ] , $ ( )` |
| Configure.ConfigFilesOfEntries | auto2cmake.py:923-925 | `AC_CONFIG_FILES([e1 e2 ...])`, for entries free of whitespace and of `[ ] , $ ( )`, gives the entries `e1, e2, ...` in order |
| Strings.SplitWsJoin | auto2cmake.py:925 | splitting words joined by single spaces at whitespace gives the words back |
| Strings.SplitWsChars | auto2cmake.py:925 | each token of a whitespace split holds only characters of the text, none of them whitespace |
| Configure.ProcessEntries | auto2cmake.py:926-929 | only targets, extra content and required directories can change |
| Configure.ProcessEntriesMissing | auto2cmake.py:926-929 | entries whose Makefile.am is missing change nothing |
| Configure.ProcessEntriesAppend | auto2cmake.py:926-929 | processing two lists of entries is processing their concatenation |
| Configure.ProcessEntriesTargets | auto2cmake.py:926-929 | reading the entries keeps every target known before at its place with its canonic name and directory, and canonic names distinct |
| Configure.Dispatch | auto2cmake.py:1013-1014 | each macro name calls its handler on the text it is given |
| Configure.MacroScan | auto2cmake.py:996-1014 | the lines of a macro are joined until the parentheses balance and dispatched, `AC_DEFINE` with the kept look-back line appended; a handled macro keeps the state well formed and the variables as they were, and its run of lines ends within the file |
| Configure.ScanLine | auto2cmake.py:947-1014 | one line keeps the state well formed, only grows the variables, and keeps the look-back invariant |
| Configure.ScanFrom | auto2cmake.py:947-1014 | the same for the rest of the file |
| Configure.ConfigureAc | auto2cmake.py:935-1050 | the scan and both passes keep the state well formed |
| Configure.ParenthesisStopsCapture | auto2cmake.py:976-981 | a `(` right after the name characters stops the capture |
| Configure.MacroIsNoAssignment | auto2cmake.py:971-996 | a macro line is never taken as a variable definition |
| Configure.MacroNameChars | auto2cmake.py:939-942 | the four macro names are made of name characters only |
| Configure.ScanLineAssignment | auto2cmake.py:965-994 | a variable line records its value and moves the look-back |
| Configure.ScanLineUnbalanced | auto2cmake.py:996-1009 | a macro whose parentheses never balance ends the scan with `IndexError` |
| Configure.ScanLineMacro | auto2cmake.py:996-1014 | a balanced macro is dispatched on its joined text, and the scan resumes with its last line as the current one |
| Configure.ScanLinePlain | auto2cmake.py:965-996 | any other line only moves the look-back |
| Scanner.FieldBefore | auto2cmake.py:310-313 | the loop reads the text before the first stop character |
| Scanner.AfterDollar | auto2cmake.py:374-380 | the two-stage loop reads the text after the first `$` up to a stop character |
| Scanner.ScanLoop | auto2cmake.py:320-327 | each inner loop of `process_argument` computes `ScanFor` |
| Scanner.ReadUpToBracket | auto2cmake.py:329-331 | the last loop reads up to `]`, failing at the end of the text |
| Scanner.ReadDescription | auto2cmake.py:315-333 | the loops compute the description |
| Scanner.ReadDefine | auto2cmake.py:403-424 | the character loop computes `DefineFields` |
| Scanner.JoinMacro | auto2cmake.py:998-1009 | the joiner loop computes `JoinFrom` |
| Scanner.NameEnd | auto2cmake.py:976-978 | the name loop ends at `NameLength` |
| Scanner.SpacesEnd | auto2cmake.py:979-980 | the whitespace loop ends at `SkipSpaces` |
| Scanner.RestFrom | auto2cmake.py:985-987 | the value loop reads the rest of the line |
| Scanner.ReadAssignment | auto2cmake.py:971-987 | the loops compute `Capture` |
| Scanner.ReadArgument | auto2cmake.py:307-340 | the loops of `process_argument` compute `ParseArgument`: the key, the help text or the `IndexError` of running off the end, and the default |
| Scanner.ReadConditional | auto2cmake.py:366-382 | the loops of `process_conditional` compute `ParseConditional` |
| Scanner.ReadADefine | auto2cmake.py:393-442 | the loops of `process_a_define` compute `ParseDefine` |
| Binding.WithExtrasAppend | auto2cmake.py:1049 | extra defines added in two rounds are added in one |
| Binding.ExactStep | auto2cmake.py:1018-1034 | one option's iteration keeps the keys of both dictionaries |
| Binding.ExactRun | auto2cmake.py:1017-1034 | the loop over the options keeps the keys of both dictionaries |
| Binding.ExactRunResolves | auto2cmake.py:1017-1034 | the loop over options in order computes `ResolveExact` |
| Binding.FindDefine | auto2cmake.py:1019-1034 | the inner loop finds the first match |
| Binding.ExactOne | auto2cmake.py:1018-1034 | one iteration of the exact pass computes `ExactStep` |
| Binding.BindExact | auto2cmake.py:1017-1034 | the exact pass computes `ResolveExact` |
| Binding.AddRun | auto2cmake.py:1041-1050 | the inner fuzzy loop keeps the option keys |
| Binding.AddRunOptions | auto2cmake.py:1041-1050 | after `j` options, exactly those met so far have the define added |
| Binding.AddRunFlag | auto2cmake.py:1041-1050 | the define becomes used exactly when some option so far meets it |
| Binding.AddRunAll | auto2cmake.py:1041-1050 | the whole inner loop adds the define to every option that meets it |
| Binding.AddToSimilar | auto2cmake.py:1041-1050 | the inner loop computes `AddRun` |
| Binding.FuzzyStep | auto2cmake.py:1038-1050 | one define's iteration keeps the keys of both dictionaries |
| Binding.FuzzyRun | auto2cmake.py:1037-1050 | the loop over the defines keeps the keys of both dictionaries |
| Binding.FuzzyRunOption | auto2cmake.py:1037-1050 | after `i` defines, each option holds its fuzzy extras among them |
| Binding.FuzzyRunDefine | auto2cmake.py:1037-1050 | after `i` defines, each of them is used exactly when it was or some option meets it |
| Binding.FuzzyRunResolves | auto2cmake.py:1037-1050 | the loop over the defines in order computes `ResolveFuzzy` |
| Binding.FuzzyOne | auto2cmake.py:1038-1050 | one iteration of the fuzzy pass computes `FuzzyStep` |
| Binding.BindFuzzy | auto2cmake.py:1037-1050 | the fuzzy pass computes `ResolveFuzzy` |
| Generator.FileLinesMention | auto2cmake.py:909-917 | every file of the list has its line in the text |
| Generator.Sorted | auto2cmake.py:911 | `sorted` is a permutation of its input |
| Generator.FileListToString | auto2cmake.py:909-917 | the loop computes the lines of the sorted files |
| Generator.SortedUnique | auto2cmake.py:911 | two sorted permutations of each other are equal |
| Generator.FileListOrderFree | auto2cmake.py:909-917 | the text does not depend on the order of the files |
| Generator.FileListMentions | auto2cmake.py:909-917 | every file has its line; a missing file's line is commented out with `# File not found. Fix manually` |
| Generator.FileLinesAppend | auto2cmake.py:909-917 | the lines written for two lists one after the other are the lines written for the joined list |
| Generator.FileLinesSplit | auto2cmake.py:909-917 | the lines of a list are the lines before a file, that file's own line, and the lines after it; the lines before it, when there are any, hold a character that is not whitespace |
| Generator.FileListSorted | auto2cmake.py:909-917 | the text is the lines of the files in sorted order |
| Generator.UnfoldNone | auto2cmake.py:686-691 | with no `$` entry naming a plain variable, nothing is unfolded |
| Generator.UnfoldLastWins | auto2cmake.py:686-691 | the last such entry's file list is the one kept |
| Generator.PlainEntries | auto2cmake.py:712-719 | the entries without `$` are kept as they are |
| Generator.OptionBlocksNone | auto2cmake.py:676-700 | with no option bound to the condition, no block is written |
| Generator.OptionBlocksLast | auto2cmake.py:676-700 | with one, the required condition is the last bound option's name |
| Generator.PlainFlags | auto2cmake.py:781-785 | the plain flags text is empty exactly when every flag holds `$` or `@` |
| Generator.PlainFlagsClean | auto2cmake.py:781-790 | the compile flags written hold no `$` or `@`, and every `"` in them is escaped |
| Generator.IncludeTokens | auto2cmake.py:818-826 | no more include directories than tokens |
| Generator.IncludeTokensEmpty | auto2cmake.py:816-828 | no include directories exactly when no token starts with `-I` |
| Generator.IncludeTokensMember | auto2cmake.py:822-826 | a directory is taken exactly when some token whose stripped form starts with `-I` gives it, with `$(top_srcdir)` made `${CMAKE_SOURCE_DIR}` |
| Generator.ConfigLinkNames | auto2cmake.py:852-857 | no more link names than tokens |
| Generator.ConfigLinkNamesBare | auto2cmake.py:852-857 | the link names from a configure variable hold no `/`, `.` or `'` |
| Generator.ConfigLinkNamesMember | auto2cmake.py:852-857 | a link name is taken exactly when it is the library name some token stands for and is not a `-L` flag |
| Generator.LibraryText | auto2cmake.py:664-869 | a target's text starts with its header comment and `set(project ...)` lines and holds its build command followed directly by its settings (compile flags, include directories, link libraries), guarded or not |
| Generator.SettingsAfterTarget | auto2cmake.py:757-869 | the build command with its settings stays whole in the text, with or without the `if`/`endif()` around it |
| Generator.LibraryTextGuarded | auto2cmake.py:757-769 | a target with a required condition has its build command inside `if (<condition>)`, and its text ends with `endif()` |
| Generator.OwnSources | auto2cmake.py:738-755 | with a condition, the target's own files are written after `if (<condition>)` and end with `)`, `endif()` and a blank line; without one they are written after `list(APPEND ${project}_SOURCES` and end with `)` on a line of its own |
| Generator.OwnSourcesMentions | auto2cmake.py:738-755 | each file of the target's own list has its line, under the condition or in the stripped unconditional list: an existing file as a new line indented by four with `${CMAKE_CURRENT_SOURCE_DIR}/<file>`, a missing one as that path after `#` followed by `# File not found. Fix manually` (for names that do not end in whitespace, as no word of a Makefile.am does) |
| Generator.LibraryTextMentions | auto2cmake.py:725-755 | the same holds in the whole text of the target, whether or not its build command is guarded |
| Strings.StripKeeps | auto2cmake.py:753 | `strip` keeps whole, at the same place relative to the first character it keeps, any piece whose last character is not whitespace and that has a non-whitespace character at or before its start |
| Generator.LibraryConditionRequired | auto2cmake.py:757-758 | a target's own condition is the required condition |
| Generator.GroupsUnconditional | auto2cmake.py:671-723 | unconditional groups leave the required condition as it was |
| Generator.UnconditionalTarget | auto2cmake.py:668-758 | a target with no condition and only unconditional groups is built unguarded |
| Generator.GroupRequired | auto2cmake.py:673-708 | a conditional group requires its condition when no option is bound to it, and the last bound option's name otherwise |
| Generator.AddTarget | auto2cmake.py:876-881 | the directory's CMake file is created last when missing |
| Generator.Targets | auto2cmake.py:658-881 | adding every target's text keeps the CMake files well formed |
| Generator.ProcessLibraries | auto2cmake.py:657-883 | only the CMake files change |
| Generator.TargetsDirectories | auto2cmake.py:876-881 | a directory has a CMake file exactly when it had one or some target lives there |
| Generator.TargetsContents | auto2cmake.py:876-881 | a directory's file gets its targets' texts appended in target order |
| Writer.OptionValues | auto2cmake.py:1311 | the options in insertion order |
| Writer.SortedOptions | auto2cmake.py:1311 | the options sorted by name: sorted, and a permutation of them |
| Writer.FinalizedAll | auto2cmake.py:1312-1313 | every option is finalized, in place |
| Writer.TopOptionsOrdered | auto2cmake.py:1311-1318 | the declarations come in ascending name order |
| Writer.DeclaredOptionsComplete | auto2cmake.py:1311-1318 | every declared option has a description and a status of length at least 2 |
| Writer.DefinedName | auto2cmake.py:1339-1343 | an option without a define defines `HAVE_<name>` |
| Writer.DefineLineDefines | auto2cmake.py:1339-1343 | the config line holds `#define` of that name |
| Writer.TopTextParts | auto2cmake.py:1303-1375 | the top-level text holds the declarations and the config.h blocks of the options in the order of their names, finalized, and the lines of the defines no option claimed |
| Writer.TopTextOption | auto2cmake.py:1311-1353 | every option of the dictionary, finalized, has its `option(...)` declaration and its `if(...)` block in the top-level text |
| Writer.TopTextUnused | auto2cmake.py:1359-1363 | every define no option claimed has its two config.h lines in the top-level text |
| Writer.JoinedHolds | auto2cmake.py:1312-1363 | each element's text is in the text the loop writes for the list |
| Writer.UnusedKeys | auto2cmake.py:1359-1361 | the defines written unconditionally are exactly the unused ones |
| Writer.MergeExtra | auto2cmake.py:1078-1084 | merging keeps the CMake files well formed |
| Writer.MergeExtraContents | auto2cmake.py:1078-1084 | a directory with extra content gets it as its file's extra content, creating the file when missing; other files unchanged |
| Writer.Written | auto2cmake.py:1388-1403 | the files written are those of the CMake files and the working directory |
| Writer.WrittenFiles | auto2cmake.py:1388-1403 | the working directory's file is the top-level text followed by its own text; every other file is exactly its text |
| Writer.RemoveFirst | auto2cmake.py:1398-1399 | `list.remove` removes one occurrence |
| Writer.RemoveFirstWithin | auto2cmake.py:1398-1399 | it adds nothing |
| Writer.RemoveFirstCount | auto2cmake.py:1398-1399 | `list.remove` takes one occurrence away |
| Writer.RemoveWrittenCount | auto2cmake.py:1395-1399 | the write-out leaves the required directories less one occurrence per CMake file (multiset difference) |
| Writer.Included | auto2cmake.py:1407 | a directory is kept exactly when it is listed and not excluded |
| Writer.DefaultDirectoriesAsWrittenExact | auto2cmake.py:1395-1407 | as written, a directory gets a default CMake file exactly when it is required more often than it has CMake files and is not excluded |
| Writer.DefaultDirectoriesAsWrittenOverwrites | auto2cmake.py:1398-1407 | `SUBDIRS = lib lib` leaves `lib` among the default directories although it has its own CMake file |
| Writer.DefaultDirectoriesExact | auto2cmake.py:1398-1407 | corrected: a directory gets a default file exactly when it is required, has no CMake file and is not excluded |
| Writer.RemoveFirstDistinct | auto2cmake.py:1398-1399 | in a list without repeats, removing one occurrence removes them all |
| Writer.RemoveWrittenDistinct | auto2cmake.py:1395-1399 | without repeats, the write-out removes every directory that has a CMake file |
| Writer.DefaultDirectoriesAgree | auto2cmake.py:1395-1407 | without repeats, the code as written and the corrected rule agree |
| Writer.IncludedWithout | auto2cmake.py:1405-1407 | the corrected rule is the filter of the directories without a CMake file |
| Output.FinalizeOptions | auto2cmake.py:1311-1313 | the loop finalizes every option and keeps the keys |
| Output.AddTargetTexts | auto2cmake.py:658-881 | the loop over the targets computes `Targets` |
| Output.MergeDirectories | auto2cmake.py:1078-1084 | the loop computes `MergeExtra` |
| Output.WrittenAfterAt | auto2cmake.py:1395-1403 | after some directories, each written file holds its expected text |
| Output.WrittenAfterAll | auto2cmake.py:1395-1403 | after all directories, the files are `Written` |
| Output.WriteFiles | auto2cmake.py:1395-1403 | the write loop writes `Written` and removes each written directory once from the required ones |
| Output.WriteDeclarations | auto2cmake.py:1311-1320 | the loop finalizes each option in name order and writes `Writer.Declarations` of the finalized options |
| Output.WriteExtraDefines | auto2cmake.py:1346-1350 | the loop writes `Writer.ExtraDefineLines` |
| Output.WriteConfigBlocks | auto2cmake.py:1332-1352 | the loop writes `Writer.ConfigBlocks` |
| Output.WriteUnusedDefines | auto2cmake.py:1359-1363 | the loop over the defines writes `Writer.UnusedDefines` of the unclaimed ones, in insertion order |
| Output.MapWriting | auto2cmake.py:1311-1320 | a loop that replaces each element by its image and writes the image's text computes the images and their joined texts |
| Output.WriteTop | auto2cmake.py:1303-1375 | the writes of the top-level file, around its fixed text, produce `Writer.TopText` |
| Output.TopTextDeclared | auto2cmake.py:1311-1353 | every option of the finalized dictionary has its declaration and its config.h block in the top-level text |
| Output.WriteTopFinalizing | auto2cmake.py:1303-1375 | the top-level text is `Writer.TopText`, the options come out finalized with the same keys, and each of them is declared in the text |
| Output.FinalList | auto2cmake.py:1407 | the list comprehension computes `Included` |
| Output.DefaultList | auto2cmake.py:1395-1407 | the corrected list of default directories |
| Conversion.Session.constructor | auto2cmake.py:44-57 | every global starts empty |
| Conversion.Session.ProcessArgument | auto2cmake.py:306-348 | fails and changes nothing when the scan fails; otherwise only the options change, by `ArgumentEffect` |
| Conversion.Session.ProcessConditional | auto2cmake.py:365-387 | only the options change, by `ConditionalEffect` |
| Conversion.Session.ProcessADefine | auto2cmake.py:392-442 | only the defines change, by `DefineEffect` |
| Conversion.Session.ConfigEntry | auto2cmake.py:926-929 | one entry of `AC_CONFIG_FILES` is processed as `ProcessEntries` says |
| Conversion.Session.ProcessConfigFiles | auto2cmake.py:922-929 | the new state is `ProcessEntries` of the entries |
| Conversion.Session.ProcessEntryList | auto2cmake.py:926-929 | the loop over the entries computes `ProcessEntries`, stopping at the first failure |
| Conversion.Session.Handle | auto2cmake.py:1011-1014 | the new state is `Dispatch` of the macro |
| Conversion.Session.LookBackStep | auto2cmake.py:951-963 | computes `LookBack` |
| Conversion.Session.MacroStep | auto2cmake.py:997-1014 | joins the macro and dispatches it: the new state and the last joined line are `MacroScan`'s, and a failed join or handler fails |
| Conversion.Session.ScanStep | auto2cmake.py:947-1014 | the new state is `ScanLine` |
| Conversion.Session.ProcessConfigureAc | auto2cmake.py:935-1050 | the new state is `ConfigureAc` |
| Conversion.Session.ExactPass | auto2cmake.py:1017-1034 | options and defines become `ResolveExact` of the old ones; nothing else changes |
| Conversion.Session.FuzzyPass | auto2cmake.py:1037-1050 | options and defines become `ResolveFuzzy` of the old ones under the similarity criterion; nothing else changes |
| Conversion.Session.FinalizeAll | auto2cmake.py:1311-1313 | every option is finalized; nothing else changes |
| Conversion.Session.ProcessLibraries | auto2cmake.py:657-883 | the new state is `ProcessLibraries` of the old |
| Conversion.Session.ProcessCmakeFileDirectories | auto2cmake.py:1078-1084 | the CMake files become `MergeExtra` of the old; nothing else changes |
| Conversion.Session.WriteOut | auto2cmake.py:1395-1403 | writes `Written` and removes each written directory once from the required ones |
| Conversion.Session.Generate | auto2cmake.py:1382-1407 | targets, merge and write-out in order; the default directories are the corrected list, equal to the as-written one when the required directories have no repeats |

## Left out

- Reading and writing files: the contents of `configure.ac` and of every `Makefile.am`,
  and which paths are files, are given as the `Tree` parameter; the written files are
  returned as a map from directory to text; the removal of old files at
  auto2cmake.py:1388-1392 is part of `Writer.Written` (each file holds only its new text)
  when every directory is spelt the one way the file system resolves it (see the
  `Writer.Written` line below).
- Writer.Written: directories are keys compared as strings, as the program compares
  them, but two spellings of one path (`proj/` and `proj`, `proj//lib` and `proj/lib`)
  are two keys of the model and one file on disk. With a working directory given with a
  trailing `/`, the top-level file is written to `proj//CMakeLists.txt`, the CMake file
  of the top directory is keyed `proj` (the directory name of `proj//Makefile.am`), the
  comparison at auto2cmake.py:1391 fails, and the program deletes the top-level text it
  has just written; the model keeps `proj/` with the top-level text and `proj` with its
  own text, and does not show that loss.
- Writer.WrittenFiles: its statement that the working directory's file is the top-level
  text followed by its own text describes the file on disk only when the working
  directory is spelt as the directory of its `Makefile.am` is; with a trailing `/` the
  program leaves that file without the top-level text, which the model does not show.
- Writer.DefaultDirectoriesExact: required directories (`proj/lib`, built at
  auto2cmake.py:650) and CMake file directories (`proj//lib` under a working directory
  with a trailing `/`) are compared as strings; where two spellings name one directory,
  the program overwrites a generated file with a default one, which the model does not
  show.
- The timestamp of the top-level file is a parameter of `Writer.TopLines`, which gives
  the fixed text of the top-level file (`Writer.TopFrame`) to `Writer.TopText`.
- `similar` (`difflib.SequenceMatcher`) is a parameter returning a ratio in [0, 1];
  only the containment branch of the match is specified exactly.
- The `$`-flag resolution loop at auto2cmake.py:793-814 depends on mutating a list while
  iterating it and on a greedy regular expression; the flags it resolves are the
  `flagsOf` parameter of `Generator.ProcessLibraries`.
- `generate_default_cmake`, `convert_sourcetree_to_cmake`, `create_cmakefile`,
  `moc_header`, `find_file`, `find_wildcard_file`, the qmake conversion, `main`,
  `usage`, option parsing and the GUI: not part of this model. The default directories
  are computed; the files written in them are not.
- `warning` and `print`, including the debug print at auto2cmake.py:659-660: diagnostics
  only, not modelled.
- `CMakeFile.libraries` is appended to but never read: not modelled.
- List aliasing: `conditional_appends[c] = value` shares the list of
  `defined_variables`; the model copies it.
- `Library` and `CMakeFile` are values held in the session's sequence and dictionary;
  an update in place is the replacement of the element. `Option` is a class
  (`Records.Option`); the session holds option values (`OptionVal`), which its methods
  replace as the setters would change the objects.
- Makefile.ProcessMakefileAm: `process_makefile_am` is modelled as a function of the
  state; its two line passes and its resolution loops are recursive functions rather
  than loops, and it is applied by `Conversion.Session.ConfigEntry`.
- Character classes (`isalpha`, `isdigit`, `isalnum`, `upper`) are ASCII only; Python's
  Unicode classes are not modelled.
- `upcase_identifiers`, `generate_comments` and `more_newlines` are held at 1, their
  only value.
- Conversion.Session.Generate: takes the top-level text as a parameter (computed by
  `Output.WriteTopFinalizing`) rather than writing it itself; and its `defaults` are the
  corrected list (`Writer.DefaultDirectories`), not the program's `final_list`
  (`Writer.DefaultDirectoriesAsWritten`, computed by `Output.FinalList` on the required
  directories left by the write-out). The two agree when no directory is required
  twice, and differ as the Findings table shows.
- Output.WriteTopFinalizing: the finalization in place that the source does inside the
  declarations loop is the separate `Output.FinalizeOptions` (on the session,
  `Conversion.Session.FinalizeAll`); the text is built from the finalized options
  either way. The session does not write the top-level text itself: it is computed from
  the session's options and defines by `Output.WriteTopFinalizing` and handed to
  `Conversion.Session.Generate`.
- Configure.ScanLine, Configure.ScanFrom, Configure.ConfigureAc: their contracts state
  well-formedness and growth only; what each line does is stated by
  `Configure.ScanLineAssignment`, `Configure.ScanLineMacro`,
  `Configure.ScanLineUnbalanced` and `Configure.ScanLinePlain`.
- Makefile.ProcessMakefileAm: its own contract states what does not change; what it
  does is stated by `Makefile.ProcessMakefileAmEffect` (the result is `Makefile.Finish`
  of the passes, whose contract gives the extra content and required directories) and
  `Makefile.ProcessMakefileAmTargets`; the effect of an assignment line is stated for
  each suffix (`Makefile.SourcesAssignment`, `Makefile.LinkAddAssignment`,
  `Makefile.CompileFlagsAssignment`, `Makefile.LinkFlagsAssignment`) and for a line
  naming no target (`Makefile.UnusedAssignment`), the `$(var)` step by
  `Makefile.ResolveFileTargets`, and the discovery by `Makefile.DiscoverFinds`; that
  the pass applies these line by line is stated by the pass's own recursion
  (`Makefile.Pass2`, `Makefile.Pass2Lockstep`).
- Makefile.Branches: its own contract states only what the suffix branches keep; what
  each branch does is stated by the per-suffix lemmas named above.
- Makefile.AssignmentLine: its own contract states when the line fails and what it
  keeps; its effect is stated by the per-suffix lemmas and `Makefile.UnusedAssignment`.
- Makefile.Assign: the same; its effect for each suffix is `Makefile.AssignSources`,
  `Makefile.AssignLinkAdd`, `Makefile.AssignCompileFlags`, `Makefile.AssignLinkFlags`
  and `Makefile.AssignUnused`.
- Makefile.ResolveNames: its own contract states only that targets keep their places;
  its effect is stated by `Makefile.ResolveNamesNamed` and `Makefile.ResolveNamesOthers`.
- Makefile.ResolveVariables: the same; its effect is stated by
  `Makefile.ResolveVariablesNamed` and `Makefile.ResolveVariablesOthers`.
- Configure.BoundOption: states the characters the bound option cannot hold, not the
  text it is; the scan itself is `Scanner.AfterDollar`.

## Findings

| source | as written | input that shows it | evidently intended | confidence | as-written member | corrected member |
|---|---|---|---|---|---|---|
| auto2cmake.py:1398-1407 | `required_directories.remove(d)` removes only the first occurrence of a directory that has a CMake file | a `Makefile.am` with `SUBDIRS = lib lib` and a target in `lib`: `lib` is required twice, one occurrence survives, and a default `CMakeLists.txt` overwrites the generated one | every directory that has a CMake file is dropped from the default directories, however often it is required | not executed | Writer.DefaultDirectoriesAsWrittenOverwrites | Writer.DefaultDirectoriesExact |
