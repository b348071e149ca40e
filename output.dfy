/** The loops of the generation phase, as the converter runs them on its dictionaries:
    the finalization of the options, the writes of the top-level file, the targets'
    texts, the `add_subdirectory` merge, the write-out and the list of directories that
    get a default CMake file. Each is
    proved to compute what `Generator` and `Writer` define. */
module Output {
  import opened Strings
  import opened Lexical
  import opened Dicts
  import opened Records
  import opened Generator
  import opened Writer

  /** `opts` is `opts0` with every option finalized: the same keys in the same order,
      each mapped to its option finalized. */
  ghost predicate FinalizedFrom(opts: Dict<OptionVal>, opts0: Dict<OptionVal>) {
    && opts.keys == opts0.keys && opts.entries.Keys == opts0.entries.Keys
    && forall k :: k in opts.entries ==> opts.entries[k] == Finalized(opts0.entries[k])
  }

  /** The options of `opts0` among `done` are finalized in `opts`, the others as they were. */
  ghost predicate FinalizedAmong(opts: Dict<OptionVal>, opts0: Dict<OptionVal>, done: seq<string>) {
    && opts.Valid() && opts.keys == opts0.keys && opts.entries.Keys == opts0.entries.Keys
    && forall k :: k in opts.entries ==>
         opts.entries[k] == if k in done then Finalized(opts0.entries[k]) else opts0.entries[k]
  }

  /** Finalizing one more option, not finalized yet. */
  lemma FinalizeStep(opts: Dict<OptionVal>, opts0: Dict<OptionVal>, done: seq<string>, k: string)
    requires FinalizedAmong(opts, opts0, done) && k in opts.entries && k !in done
    ensures FinalizedAmong(opts.Put(k, Finalized(opts.entries[k])), opts0, done + [k])
  {
    var opts' := opts.Put(k, Finalized(opts.entries[k]));
    forall x | x in opts'.entries
      ensures opts'.entries[x] == if x in done + [k] then Finalized(opts0.entries[x]) else opts0.entries[x]
    {
      assert x in done + [k] <==> x in done || x == k;
    }
  }

  /** The loop over the sorted options that calls `finalize` on each: every option of
      the dictionary is finalized, and the dictionary keeps its keys and their order. */
  method FinalizeOptions(opts0: Dict<OptionVal>) returns (opts: Dict<OptionVal>)
    requires opts0.Valid()
    ensures opts.Valid() && FinalizedFrom(opts, opts0)
  {
    opts := opts0;
    var keys := opts0.keys;
    var i := 0;
    assert keys[..0] == [];
    while i < |keys|
      invariant i <= |keys| && FinalizedAmong(opts, opts0, keys[..i])
    {
      Unvisited(keys, i);
      var k := keys[i];
      FinalizeStep(opts, opts0, keys[..i], k);
      opts := opts.Put(k, Finalized(opts.entries[k]));
      i := i + 1;
    }
    assert keys[..i] == keys;
  }

  // ---------------------------------------------------------- the top-level file

  lemma JoinedCons<T>(x: T, xs: seq<T>, f: T -> string)
    ensures Joined([x] + xs, f) == f(x) + Joined(xs, f)
  {
    assert ([x] + xs)[0] == x && ([x] + xs)[1..] == xs;
  }

  /** One more element's text written, in a loop that writes the texts of `xs`. */
  lemma JoinedStep<T>(xs: seq<T>, f: T -> string, i: nat, text: string)
    requires i < |xs| && text + Joined(xs[i..], f) == Joined(xs, f)
    ensures (text + f(xs[i])) + Joined(xs[i + 1..], f) == Joined(xs, f)
  {
    assert xs[i..] == [xs[i]] + xs[i + 1..];
    JoinedCons(xs[i], xs[i + 1..], f);
  }

  lemma JoinedStart<T>(xs: seq<T>, f: T -> string)
    ensures "" + Joined(xs[0..], f) == Joined(xs, f)
  {
    assert xs[0..] == xs;
  }

  lemma JoinedAll<T>(xs: seq<T>, f: T -> string, text: string)
    requires text + Joined(xs[|xs|..], f) == Joined(xs, f)
    ensures text == Joined(xs, f)
  {
    assert xs[|xs|..] == [];
  }

  /** The first loop over the options in the order of their names: each option is
      finalized, then its declaration is written. `fin` holds the options finalized, in
      the same order. */
  method WriteDeclarations(os: seq<OptionVal>) returns (fin: seq<OptionVal>, text: string)
    ensures fin == FinalizedAll(os) && text == Declarations(fin)
  {
    fin, text := MapWriting(os, Finalized, Declaration);
  }

  /** A loop that replaces each element `x` in turn by `g(x)` and writes the text `f` of
      the new element. */
  method MapWriting<T>(xs: seq<T>, g: T -> T, f: T -> string) returns (ys: seq<T>, text: string)
    ensures ys == Mapped(xs, g) && text == Joined(ys, f)
  {
    ys := [];
    text := "";
    var i := 0;
    while i < |xs|
      invariant i <= |xs| && ys == Mapped(xs[..i], g) && text == Joined(ys, f)
    {
      var y := g(xs[i]);
      MappedSnoc(xs, i, g);
      JoinedSnoc(ys, y, f);
      text := text + f(y);
      ys := ys + [y];
      i := i + 1;
    }
    assert xs[..i] == xs;
  }

  lemma MappedSnoc<T>(xs: seq<T>, i: nat, g: T -> T)
    requires i < |xs|
    ensures Mapped(xs[..i + 1], g) == Mapped(xs[..i], g) + [g(xs[i])]
  {
    var l, r := Mapped(xs[..i + 1], g), Mapped(xs[..i], g) + [g(xs[i])];
    assert forall j :: 0 <= j < |l| ==> l[j] == r[j];
  }

  lemma {:induction false} JoinedSnoc<T>(xs: seq<T>, x: T, f: T -> string)
    ensures Joined(xs + [x], f) == Joined(xs, f) + f(x)
  {
    if xs == [] {
      assert [] + [x] == [x];
      assert Joined([x], f) == f(x) + Joined([x][1..], f);
    } else {
      JoinedSnoc(xs[1..], x, f);
      assert (xs + [x])[1..] == xs[1..] + [x];
    }
  }

  /** The loop over the defines matched to an option by name likeness. */
  method WriteExtraDefines(extras: seq<string>) returns (text: string)
    ensures text == ExtraDefineLines(extras)
  {
    text := "";
    JoinedStart(extras, ExtraDefineLine);
    var i := 0;
    while i < |extras|
      invariant i <= |extras| && text + ExtraDefineLines(extras[i..]) == ExtraDefineLines(extras)
    {
      JoinedStep(extras, ExtraDefineLine, i, text);
      text := text + ExtraDefineLine(extras[i]);
      i := i + 1;
    }
    JoinedAll(extras, ExtraDefineLine, text);
  }

  /** The second loop over the options: each one's config.h block, with its define and
      then its extra defines. */
  method WriteConfigBlocks(os: seq<OptionVal>) returns (text: string)
    ensures text == ConfigBlocks(os)
  {
    text := "";
    JoinedStart(os, ConfigBlock);
    var i := 0;
    while i < |os|
      invariant i <= |os| && text + ConfigBlocks(os[i..]) == ConfigBlocks(os)
    {
      var o := os[i];
      var extras := WriteExtraDefines(o.extraDefines);
      var block := ConfigOpening(o) + DefineLine(o) + extras + "endif( " + o.name + " )\n";
      assert block == ConfigBlock(o);
      JoinedStep(os, ConfigBlock, i, text);
      text := text + block;
      i := i + 1;
    }
    JoinedAll(os, ConfigBlock, text);
  }

  /** The defines no option claimed, from a key on. */
  lemma UnusedKeysCons(defs: Dict<Define>, keys: seq<string>, i: nat)
    requires i < |keys|
    ensures var k := keys[i];
            UnusedKeys(defs, keys[i..])
            == (if !defs.Get(k, Define(k, "", "", "", true)).used then [k] else []) + UnusedKeys(defs, keys[i + 1..])
  {
    assert keys[i..][0] == keys[i] && keys[i..][1..] == keys[i + 1..];
  }

  /** An element written or skipped, in a loop that writes the texts of some elements. */
  lemma JoinedPick<T>(x: T, keep: bool, rest: seq<T>, f: T -> string, text: string, total: string)
    requires text + Joined((if keep then [x] else []) + rest, f) == total
    ensures (if keep then text + f(x) else text) + Joined(rest, f) == total
  {
    if keep {
      JoinedCons(x, rest, f);
    } else {
      assert [] + rest == rest;
    }
  }

  /** One more define looked at, in the loop over the defines. */
  lemma UnusedStep(defs: Dict<Define>, keys: seq<string>, i: nat, text: string)
    requires i < |keys|
    requires text + UnusedDefines(defs, UnusedKeys(defs, keys[i..])) == UnusedDefines(defs, UnusedKeys(defs, keys))
    ensures var k := keys[i];
            var d := defs.Get(k, Define(k, "", "", "", true));
            (if !d.used then text + UnusedDefine(k, d) else text) + UnusedDefines(defs, UnusedKeys(defs, keys[i + 1..]))
            == UnusedDefines(defs, UnusedKeys(defs, keys))
  {
    var k := keys[i];
    var d := defs.Get(k, Define(k, "", "", "", true));
    UnusedKeysCons(defs, keys, i);
    JoinedPick(k, !d.used, UnusedKeys(defs, keys[i + 1..]), UnusedLines(defs), text,
               UnusedDefines(defs, UnusedKeys(defs, keys)));
    assert UnusedLines(defs)(k) == UnusedDefine(k, d);
  }

  /** The loop over the defines, in insertion order: those no option claimed get their
      config.h lines. */
  method WriteUnusedDefines(defs: Dict<Define>) returns (text: string)
    ensures text == UnusedDefines(defs, UnusedKeys(defs, defs.keys))
  {
    var keys := defs.keys;
    text := "";
    assert keys[0..] == keys;
    var i := 0;
    while i < |keys|
      invariant i <= |keys|
      invariant text + UnusedDefines(defs, UnusedKeys(defs, keys[i..])) == UnusedDefines(defs, UnusedKeys(defs, keys))
    {
      var k := keys[i];
      var d := defs.Get(k, Define(k, "", "", "", true));
      UnusedStep(defs, keys, i, text);
      if !d.used {
        text := text + UnusedDefine(k, d);
      }
      i := i + 1;
    }
    assert keys[i..] == [];
  }

  /** The write of the top-level CMakeLists.txt: the header, the declarations loop (which
      finalizes each option), the config.h preamble, the option blocks, the warning, the
      defines no option claimed and the trailer, in that order. */
  method WriteTop(opts: Dict<OptionVal>, defs: Dict<Define>, frame: TopFrame) returns (top: string)
    ensures top == TopText(opts, defs, frame)
  {
    top := frame.header;
    var fin, decls := WriteDeclarations(SortedOptions(opts));
    top := top + decls;
    top := top + frame.configHeader;
    var blocks := WriteConfigBlocks(fin);
    top := top + blocks;
    top := top + frame.unusedHeader;
    var unused := WriteUnusedDefines(defs);
    top := top + unused;
    top := top + frame.trailer;
  }

  /** An option is declared in a text: its `option(...)` declaration and its config.h
      block are both there. */
  predicate DeclaredIn(top: string, o: OptionVal) {
    Contains(top, Declaration(o)) && Contains(top, ConfigBlock(o))
  }

  /** Every option of the dictionary is declared in the text. */
  ghost predicate AllDeclared(top: string, opts: Dict<OptionVal>) {
    forall k :: k in opts.entries ==> DeclaredIn(top, opts.entries[k])
  }

  /** A text `top` that declares every option of `opts0` finalized declares every option
      of the finalized dictionary `opts`. */
  lemma TopTextDeclares(opts0: Dict<OptionVal>, opts: Dict<OptionVal>, top: string)
    requires opts0.Valid() && FinalizedFrom(opts, opts0)
    requires forall k :: k in opts0.entries ==> DeclaredIn(top, Finalized(opts0.entries[k]))
    ensures AllDeclared(top, opts)
  {
  }

  /** Every option of `opts0`, finalized, is declared in the top-level text of `opts0`. */
  lemma TopTextDeclared(opts0: Dict<OptionVal>, opts: Dict<OptionVal>, defs: Dict<Define>, frame: TopFrame)
    requires opts0.Valid() && FinalizedFrom(opts, opts0)
    ensures AllDeclared(TopText(opts0, defs, frame), opts)
  {
    var top := TopText(opts0, defs, frame);
    forall k | k in opts0.entries ensures DeclaredIn(top, Finalized(opts0.entries[k])) {
      TopTextOption(opts0, defs, frame, k);
    }
    TopTextDeclares(opts0, opts, top);
  }

  /** The write of the top-level file together with the finalization in place of the
      options it declares: `opts` is `opts0` finalized, and each of its options has its
      declaration and its config.h block in the text. */
  method WriteTopFinalizing(opts0: Dict<OptionVal>, defs: Dict<Define>, frame: TopFrame)
    returns (top: string, opts: Dict<OptionVal>)
    requires opts0.Valid()
    ensures top == TopText(opts0, defs, frame)
    ensures opts.Valid() && FinalizedFrom(opts, opts0)
    ensures AllDeclared(top, opts)
  {
    top := WriteTop(opts0, defs, frame);
    opts := FinalizeOptions(opts0);
    TopTextDeclared(opts0, opts, defs, frame);
  }

  /** The loop of `process_libraries` over the targets, in order. */
  method AddTargetTexts(libs: seq<Library>, textOf: Library -> string, files0: Dict<CMakeFile>)
    returns (files: Dict<CMakeFile>)
    ensures files == Targets(libs, textOf, files0)
  {
    files := files0;
    var i := 0;
    while i < |libs|
      invariant i <= |libs| && Targets(libs, textOf, files0) == Targets(libs[i..], textOf, files)
    {
      assert libs[i..][1..] == libs[i + 1..];
      var lib := libs[i];
      files := Generator.AddTarget(files, lib.directory, textOf(lib));
      i := i + 1;
    }
  }

  /** `process_cmake_file_directories`: the loop over the directories with
      `add_subdirectory` lines. */
  method MergeDirectories(files0: Dict<CMakeFile>, extra: Dict<string>) returns (files: Dict<CMakeFile>)
    ensures files == MergeExtra(files0, extra, extra.keys)
  {
    files := files0;
    var keys := extra.keys;
    var i := 0;
    while i < |keys|
      invariant i <= |keys| && MergeExtra(files0, extra, keys) == MergeExtra(files, extra, keys[i..])
    {
      assert keys[i..][1..] == keys[i + 1..];
      var dir := keys[i];
      var f := if dir in files.entries then files.entries[dir] else FreshFile(dir);
      files := files.Put(dir, f.(extra := extra.Get(dir, "")));
      i := i + 1;
    }
  }

  /** The files after the CMake files of the directories `ks` are written, one after
      the other, each appended to what its file held. */
  function WrittenAfter(files: Dict<CMakeFile>, ks: seq<string>, wd: string, top: string): map<string, string>
    decreases |ks|
  {
    if ks == [] then map[wd := top]
    else
      var w := WrittenAfter(files, ks[..|ks| - 1], wd, top);
      var k := ks[|ks| - 1];
      w[k := (if k in w then w[k] else "") + (if k in files.entries then FileText(files.entries[k]) else "")]
  }

  /** Without repeats among `ks`, each file holds its text once, after the top-level
      text in the working directory. */
  lemma {:induction false} WrittenAfterAt(files: Dict<CMakeFile>, ks: seq<string>, wd: string, top: string,
                                          d: string)
    requires Distinct(ks)
    ensures var w := WrittenAfter(files, ks, wd, top);
            && (d in w <==> d in ks || d == wd)
            && (d in w ==> w[d] == (if d == wd then top else "")
                                   + (if d in ks && d in files.entries then FileText(files.entries[d]) else ""))
    decreases |ks|
  {
    if ks != [] {
      var n := |ks| - 1;
      WrittenAfterAt(files, ks[..n], wd, top, d);
      assert d in ks <==> d in ks[..n] || d == ks[n] by {
        assert ks == ks[..n] + [ks[n]];
      }
    }
  }

  /** Once every directory is written, the files are those of the write-out. */
  lemma WrittenAfterAll(files: Dict<CMakeFile>, wd: string, top: string)
    requires files.Valid()
    ensures WrittenAfter(files, files.keys, wd, top) == Written(files, wd, top)
  {
    var w := WrittenAfter(files, files.keys, wd, top);
    var r := Written(files, wd, top);
    forall d ensures (d in w <==> d in r) && (d in w ==> w[d] == r[d]) {
      WrittenAfterAt(files, files.keys, wd, top, d);
    }
  }

  /** The write-out loop: each directory's file is appended its CMake file's text, on
      top of the top-level text in the working directory and of nothing elsewhere, and
      the directory is removed once from the required ones. `written` maps each
      directory to what its CMakeLists.txt holds afterwards. */
  method WriteFiles(files: Dict<CMakeFile>, required0: seq<string>, wd: string, top: string)
    returns (written: map<string, string>, required: seq<string>)
    requires files.Valid()
    ensures written == Written(files, wd, top)
    ensures required == RemoveWritten(required0, files.keys)
  {
    written := map[wd := top];
    required := required0;
    var keys := files.keys;
    var i := 0;
    assert keys[..0] == [];
    while i < |keys|
      invariant i <= |keys|
      invariant RemoveWritten(required0, keys) == RemoveWritten(required, keys[i..])
      invariant written == WrittenAfter(files, keys[..i], wd, top)
    {
      Unvisited(keys, i);
      var dir := keys[i];
      assert keys[i..][1..] == keys[i + 1..];
      if dir in required {
        required := RemoveFirst(required, dir);
      }
      assert keys[..i + 1][..i] == keys[..i];
      var before := if dir in written then written[dir] else "";
      written := written[dir := before + FileText(files.entries[dir])];
      i := i + 1;
    }
    assert keys[..i] == keys;
    WrittenAfterAll(files, wd, top);
  }

  /** `final_list`: the required directories that are not excluded, in order. */
  method FinalList(required: seq<string>, excludes: seq<string>) returns (r: seq<string>)
    ensures r == Included(required, excludes)
  {
    r := [];
    var i := 0;
    while i < |required|
      invariant i <= |required| && r + Included(required[i..], excludes) == Included(required, excludes)
    {
      assert required[i..][1..] == required[i + 1..];
      if !ShouldExclude(required[i], excludes) {
        r := r + [required[i]];
      }
      i := i + 1;
    }
  }

  /** The directories that get a default CMake file, by the rule the write-out evidently
      intends: the required ones without a CMake file of their own that are not excluded,
      in order. */
  method DefaultList(required: seq<string>, files: Dict<CMakeFile>, excludes: seq<string>) returns (r: seq<string>)
    ensures r == DefaultDirectories(required, files, excludes)
  {
    r := [];
    var i := 0;
    while i < |required|
      invariant i <= |required| && r + DefaultDirectories(required[i..], files, excludes)
                                   == DefaultDirectories(required, files, excludes)
    {
      assert required[i..][1..] == required[i + 1..];
      var dir := required[i];
      if dir !in files.entries && !ShouldExclude(dir, excludes) {
        r := r + [dir];
      }
      i := i + 1;
    }
  }
}
