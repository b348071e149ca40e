/** The text the converter writes: the file lists of a target, the CMake code of each
    target (`process_libraries`), the top-level CMakeLists.txt built from the options
    and defines of configure.ac (`convert`), and the merging of the `add_subdirectory`
    text into the CMake files. */
module Generator {
  import opened Strings
  import opened Lexical
  import opened Dicts
  import opened Records

  // ------------------------------------------------------------------ file lists

  /** The line written for one file: its path under the current source directory,
      indented by `spaces`, or the same line commented out with a note when the file
      does not exist in the target's directory. */
  function FileLine(file: string, dir: string, spaces: nat, tree: Tree): string {
    if tree.IsFile(dir + "/" + file) then "\n" + Repeat(' ', spaces) + "${CMAKE_CURRENT_SOURCE_DIR}/" + file
    else "\n#" + Repeat(' ', spaces) + "${CMAKE_CURRENT_SOURCE_DIR}/" + file + " # File not found. Fix manually"
  }

  /** The lines of the files, in the given order. */
  function FileLines(files: seq<string>, dir: string, spaces: nat, tree: Tree): string {
    if files == [] then []
    else FileLines(files[..|files| - 1], dir, spaces, tree) + FileLine(files[|files| - 1], dir, spaces, tree)
  }

  /** Every file of the list has its line in the text. */
  lemma {:induction false} FileLinesMention(files: seq<string>, f: string, dir: string, spaces: nat, tree: Tree)
    requires f in files
    ensures Contains(FileLines(files, dir, spaces, tree), FileLine(f, dir, spaces, tree))
    decreases |files|
  {
    var init := files[..|files| - 1];
    var last := FileLine(files[|files| - 1], dir, spaces, tree);
    var front := FileLines(init, dir, spaces, tree);
    assert FileLines(files, dir, spaces, tree) == front + last;
    if files[|files| - 1] == f {
      ContainsItself(front, last);
    } else {
      assert files == init + [files[|files| - 1]];
      assert f in init;
      FileLinesMention(init, f, dir, spaces, tree);
      ContainsBefore(front, last, FileLine(f, dir, spaces, tree));
    }
  }

  lemma ContainsItself(a: string, b: string)
    ensures Contains(a + b, b)
  {
    assert Contains(b, b) by {
      assert StartsWith(b, b);
    }
    ContainsAfter(a, b, b);
  }

  lemma {:induction false} ContainsAfter(a: string, b: string, sub: string)
    requires Contains(b, sub)
    ensures Contains(a + b, sub)
  {
    if a != [] {
      assert (a + b)[1..] == a[1..] + b;
      ContainsAfter(a[1..], b, sub);
    } else {
      assert a + b == b;
    }
  }

  lemma {:induction false} ContainsBefore(a: string, b: string, sub: string)
    requires Contains(a, sub)
    ensures Contains(a + b, sub)
    decreases |a|
  {
    if StartsWith(a, sub) {
      assert (a + b)[..|sub|] == a[..|sub|];
    } else {
      assert (a + b)[1..] == a[1..] + b;
      ContainsBefore(a[1..], b, sub);
    }
  }

  function Identity(s: string): string { s }

  /** Python's `sorted` of a list of strings. */
  function Sorted(files: seq<string>): (r: seq<string>)
    ensures multiset(r) == multiset(files)
  {
    SortBy(files, Identity)
  }

  /** `filelist_to_string`: the lines of the files in sorted order. */
  function FileListText(elements: seq<string>, dir: string, spaces: nat, tree: Tree): string {
    FileLines(Sorted(elements), dir, spaces, tree)
  }

  /** The loop of `filelist_to_string`, over the sorted files. */
  method FileListToString(elements: seq<string>, dir: string, spaces: nat, tree: Tree) returns (r: string)
    ensures r == FileListText(elements, dir, spaces, tree)
  {
    var files := Sorted(elements);
    r := "";
    var i := 0;
    while i < |files|
      invariant 0 <= i <= |files|
      invariant r == FileLines(files[..i], dir, spaces, tree)
    {
      FileLinesSnoc(files, i, dir, spaces, tree);
      r := r + FileLine(files[i], dir, spaces, tree);
      i := i + 1;
    }
    assert files[..|files|] == files;
  }

  lemma FileLinesSnoc(files: seq<string>, i: nat, dir: string, spaces: nat, tree: Tree)
    requires i < |files|
    ensures FileLines(files[..i + 1], dir, spaces, tree) == FileLines(files[..i], dir, spaces, tree) + FileLine(files[i], dir, spaces, tree)
  {
    assert files[..i + 1][..i] == files[..i];
  }

  /** The head of a sorted list is no greater than any of its elements. */
  lemma SortedHead(a: seq<string>, x: string)
    requires SortedBy(a, Identity) && x in a
    ensures StrLe(a[0], x)
  {
    var j :| 0 <= j < |a| && a[j] == x;
    if j > 0 {
      assert StrLe(Identity(a[0]), Identity(a[j]));
    } else {
      StrLeTotal(x, x);
    }
  }

  lemma SortedTail(a: seq<string>)
    requires SortedBy(a, Identity) && a != []
    ensures SortedBy(a[1..], Identity)
  {
    assert forall i :: 0 <= i < |a[1..]| ==> a[1..][i] == a[i + 1];
  }

  /** Two sorted lists with the same elements are the same list. */
  lemma {:induction false} SortedUnique(a: seq<string>, b: seq<string>)
    requires SortedBy(a, Identity) && SortedBy(b, Identity) && multiset(a) == multiset(b)
    ensures a == b
  {
    if a == [] {
      assert |b| == |multiset(b)| == 0;
    } else {
      assert |b| == |multiset(b)| == |multiset(a)| == |a|;
      SortedHeadsEqual(a, b);
      MultisetTail(a);
      MultisetTail(b);
      SortedTail(a);
      SortedTail(b);
      SortedUnique(a[1..], b[1..]);
    }
  }

  /** Two non-empty sorted lists with the same elements start alike. */
  lemma SortedHeadsEqual(a: seq<string>, b: seq<string>)
    requires a != [] && b != []
    requires SortedBy(a, Identity) && SortedBy(b, Identity) && multiset(a) == multiset(b)
    ensures a[0] == b[0]
  {
    assert a[0] in multiset(b) && b[0] in multiset(a);
    SortedHead(b, a[0]);
    SortedHead(a, b[0]);
    StrLeAntisymmetric(a[0], b[0]);
  }

  /** The tail of a list holds one occurrence of its head less. */
  lemma MultisetTail<T>(a: seq<T>)
    requires a != []
    ensures multiset(a[1..]) == multiset(a) - multiset{a[0]}
  {
    assert a == [a[0]] + a[1..];
  }

  /** The file list depends only on which files there are, not on the order in which
      the Makefile.am lists them. */
  lemma FileListOrderFree(a: seq<string>, b: seq<string>, dir: string, spaces: nat, tree: Tree)
    requires multiset(a) == multiset(b)
    ensures FileListText(a, dir, spaces, tree) == FileListText(b, dir, spaces, tree)
  {
    SortBySorted(a, Identity);
    SortBySorted(b, Identity);
    SortedUnique(Sorted(a), Sorted(b));
  }

  /** Every file has its line, and a missing one is commented out with the note. */
  lemma FileListMentions(elements: seq<string>, f: string, dir: string, spaces: nat, tree: Tree)
    requires f in elements
    ensures Contains(FileListText(elements, dir, spaces, tree), FileLine(f, dir, spaces, tree))
    ensures !tree.IsFile(dir + "/" + f) ==>
              FileLine(f, dir, spaces, tree) ==
                "\n#" + Repeat(' ', spaces) + "${CMAKE_CURRENT_SOURCE_DIR}/" + f + " # File not found. Fix manually"
  {
    assert f in multiset(Sorted(elements));
    FileLinesMention(Sorted(elements), f, dir, spaces, tree);
  }

  /** The files of the list, in order. */
  lemma FileListSorted(elements: seq<string>, dir: string, spaces: nat, tree: Tree)
    ensures exists files :: && multiset(files) == multiset(elements) && SortedBy(files, Identity)
                            && FileListText(elements, dir, spaces, tree) == FileLines(files, dir, spaces, tree)
  {
    SortBySorted(elements, Identity);
    assert FileListText(elements, dir, spaces, tree) == FileLines(Sorted(elements), dir, spaces, tree);
  }

  // ---------------------------------------------------------- conditional groups

  /** A `$(var)` entry of a group that names one of the target's plain variables. */
  predicate Unfolds(lib: Library, entry: string) {
    '$' in entry && RemoveGarbage(entry) in lib.justVariables.entries
  }

  /** The file list such an entry stands for: the values of the variable, flattened. */
  function UnfoldedList(lib: Library, entry: string, tree: Tree): string {
    FileListText(Flatten(lib.justVariables.Get(RemoveGarbage(entry), [])), lib.directory, 8, tree)
  }

  /** The loop over a group's entries that keeps the file list of each unfolding entry,
      each one replacing the one before, starting from `acc`. */
  function Unfold(lib: Library, entries: seq<string>, acc: string, tree: Tree): string {
    if entries == [] then acc
    else Unfold(lib, entries[1..], if Unfolds(lib, entries[0]) then UnfoldedList(lib, entries[0], tree) else acc, tree)
  }

  /** With no unfolding entry, the starting text stays. */
  lemma {:induction false} UnfoldNone(lib: Library, entries: seq<string>, acc: string, tree: Tree)
    requires forall k :: 0 <= k < |entries| ==> !Unfolds(lib, entries[k])
    ensures Unfold(lib, entries, acc, tree) == acc
  {
    if entries != [] {
      assert !Unfolds(lib, entries[0]);
      UnfoldNone(lib, entries[1..], acc, tree);
    }
  }

  /** The last unfolding entry wins. */
  lemma {:induction false} UnfoldLastWins(lib: Library, entries: seq<string>, acc: string, tree: Tree, j: nat)
    requires j < |entries| && Unfolds(lib, entries[j])
    requires forall k :: j < k < |entries| ==> !Unfolds(lib, entries[k])
    ensures Unfold(lib, entries, acc, tree) == UnfoldedList(lib, entries[j], tree)
  {
    var acc1 := if Unfolds(lib, entries[0]) then UnfoldedList(lib, entries[0], tree) else acc;
    if j == 0 {
      UnfoldNone(lib, entries[1..], acc1, tree);
    } else {
      UnfoldLastWins(lib, entries[1..], acc1, tree, j - 1);
    }
  }

  /** The entries of a group that hold no `$`. */
  function PlainEntries(entries: seq<string>): (r: seq<string>)
    ensures forall x :: x in r <==> x in entries && '$' !in x
  {
    if entries == [] then []
    else (if '$' !in entries[0] then [entries[0]] else []) + PlainEntries(entries[1..])
  }

  /** The block written for a group bound to an option named `name`: the file list of
      the last unfolding entry, or else the entries themselves, one per line. */
  function OptionBlock(lib: Library, entries: seq<string>, name: string, tree: Tree): string {
    var unfolded := Unfold(lib, entries, "", tree);
    "\nif(" + name + ")\n"
    + (if unfolded != "" then "    list(APPEND ${project}_SOURCES" + unfolded
       else "    list(APPEND ${project}_SOURCES\n        " + Join(entries, "\n        "))
    + "\n    )\nendif()\n"
  }

  /** The walk over the options (in insertion order) for a group whose condition is
      `cond`: a block for every option whose define is `cond`; whether there was one; and
      the name of the last one, which becomes the condition the target requires. */
  function OptionBlocks(lib: Library, cond: string, entries: seq<string>, keys: seq<string>,
                        opts: Dict<OptionVal>, tree: Tree): (r: (string, bool, string))
  {
    if keys == [] then ("", false, "")
    else
      var o := opts.Get(keys[0], NoOption);
      var rest := OptionBlocks(lib, cond, entries, keys[1..], opts, tree);
      if o.define == cond then (OptionBlock(lib, entries, o.name, tree) + rest.0, true, if rest.1 then rest.2 else o.name)
      else rest
  }

  /** The option a key stands for when it is not mapped, which never happens. */
  const NoOption := OptionVal("", "", "", "", "", "", [])

  /** An option matches a group when its define is the group's condition. */
  predicate BindsGroup(opts: Dict<OptionVal>, key: string, cond: string) {
    opts.Get(key, NoOption).define == cond
  }

  /** With no option matching, nothing is written and no condition is required. */
  lemma {:induction false} OptionBlocksNone(lib: Library, cond: string, entries: seq<string>, keys: seq<string>,
                                            opts: Dict<OptionVal>, tree: Tree)
    requires forall k :: 0 <= k < |keys| ==> !BindsGroup(opts, keys[k], cond)
    ensures OptionBlocks(lib, cond, entries, keys, opts, tree) == ("", false, "")
  {
    if keys != [] {
      assert !BindsGroup(opts, keys[0], cond);
      OptionBlocksNone(lib, cond, entries, keys[1..], opts, tree);
    }
  }

  /** With some option matching, a block is written and the condition required is the
      name of the last option in insertion order that matches. */
  lemma {:induction false} OptionBlocksLast(lib: Library, cond: string, entries: seq<string>, keys: seq<string>,
                                            opts: Dict<OptionVal>, tree: Tree, j: nat)
    requires j < |keys| && BindsGroup(opts, keys[j], cond)
    requires forall k :: j < k < |keys| ==> !BindsGroup(opts, keys[k], cond)
    ensures OptionBlocks(lib, cond, entries, keys, opts, tree).1
    ensures OptionBlocks(lib, cond, entries, keys, opts, tree).2 == opts.Get(keys[j], NoOption).name
  {
    if j == 0 {
      OptionBlocksNone(lib, cond, entries, keys[1..], opts, tree);
    } else {
      OptionBlocksLast(lib, cond, entries, keys[1..], opts, tree, j - 1);
    }
  }

  /** One group of `conditional_appends`, with the condition the target requires so far:
      a conditional group is written once per matching option, or (with no match) under
      its own condition, which it then requires; the unconditional group lists the last
      unfolding entry's files and then the files of the plain entries. */
  function Group(lib: Library, cond: string, entries: seq<string>, opts: Dict<OptionVal>, tree: Tree,
                 required: string): (string, string)
  {
    if cond != "" then
      var b := OptionBlocks(lib, cond, entries, opts.keys, opts, tree);
      if b.1 then (b.0, b.2)
      else ("\nif(" + cond + ")\n    list(APPEND ${project}_SOURCES\n        " + Join(entries, "\n        ")
            + "\n    )\nendif()\n", cond)
    else
      ("list(APPEND ${project}_SOURCES" + Unfold(lib, entries, "", tree)
       + FileListText(PlainEntries(entries), lib.directory, 8, tree) + "\n)\n", required)
  }

  /** The groups from position `k` of the insertion order on, after text `text` with
      required condition `required`. */
  function Groups(lib: Library, opts: Dict<OptionVal>, tree: Tree, k: nat, text: string, required: string)
    : (string, string)
    requires k <= |lib.conditionalAppends.keys|
    decreases |lib.conditionalAppends.keys| - k
  {
    var ca := lib.conditionalAppends;
    if k == |ca.keys| then (text, required)
    else
      var g := Group(lib, ca.keys[k], ca.Get(ca.keys[k], []), opts, tree, required);
      Groups(lib, opts, tree, k + 1, text + g.0, g.1)
  }

  // ---------------------------------------------------------- the target's own part

  /** The target's own files: under its condition, or else unconditionally, stripped. The
      condition is used as it is: it is never the define of an option, because the
      converter compares a define with the condition's list of characters. */
  function OwnSources(lib: Library, tree: Tree): (r: string)
    ensures lib.condition != "" ==> StartsWith(r, "if (" + lib.condition + ")\n") && EndsWith(r, ")\nendif()\n\n")
    ensures lib.condition == "" ==> StartsWith(r, "list(APPEND ${project}_SOURCES") && EndsWith(r, "\n)\n")
  {
    var files := FileListText(lib.filelist, lib.directory, 4, tree);
    if lib.condition != "" then
      Framing("if (" + lib.condition + ")\n", "    list(APPEND ${project}_SOURCES\n    ", files, ")\nendif()\n\n");
      "if (" + lib.condition + ")\n" + "    list(APPEND ${project}_SOURCES\n    " + files + ")\nendif()\n\n"
    else
      Framing("list(APPEND ${project}_SOURCES", "\n    ", Strip(files), "\n)\n");
      "list(APPEND ${project}_SOURCES" + "\n    " + Strip(files) + "\n)\n"
  }

  /** A text made of four pieces starts with the first and ends with the last. */
  lemma Framing(p: string, x: string, y: string, w: string)
    ensures StartsWith(p + x + y + w, p) && EndsWith(p + x + y + w, w)
  {
    var s := p + x + y + w;
    assert s[..|p|] == p;
    assert s[|s| - |w|..] == w;
  }

  /** Each file of the target's own list has its line among its own sources, with or
      without the condition: a file that exists is listed on a line of its own, one
      that is missing is commented out with the note. Its name must not end in
      whitespace, since the unconditional list is stripped. */
  lemma OwnSourcesMentions(lib: Library, tree: Tree, f: string)
    requires f in lib.filelist
    requires f == [] || !IsSpace(f[|f| - 1])
    ensures tree.IsFile(lib.directory + "/" + f) ==>
              Contains(OwnSources(lib, tree), "\n" + "    " + "${CMAKE_CURRENT_SOURCE_DIR}/" + f)
    ensures !tree.IsFile(lib.directory + "/" + f) ==>
              Contains(OwnSources(lib, tree), "#" + "    " + "${CMAKE_CURRENT_SOURCE_DIR}/" + f + " # File not found. Fix manually")
  {
    if tree.IsFile(lib.directory + "/" + f) {
      OwnSourcesListed(lib, tree, f);
    } else {
      OwnSourcesMissing(lib, tree, f);
    }
  }

  lemma OwnSourcesListed(lib: Library, tree: Tree, f: string)
    requires f in lib.filelist && tree.IsFile(lib.directory + "/" + f)
    requires f == [] || !IsSpace(f[|f| - 1])
    ensures Contains(OwnSources(lib, tree), "\n" + "    " + "${CMAKE_CURRENT_SOURCE_DIR}/" + f)
  {
    var a, b := OwnListPieces(lib, tree, f);
    var line := FileLine(f, lib.directory, 4, tree);
    var t := "\n" + "    " + "${CMAKE_CURRENT_SOURCE_DIR}/" + f;
    FileLineListed(f, lib.directory, tree);
    ListedFacts(f, t);
    OccursAt0(line);
    if lib.condition != "" {
      var open := "if (" + lib.condition + ")\n" + "    list(APPEND ${project}_SOURCES\n    ";
      WithinText(open, a, line, b, ")\nendif()\n\n", t, 0);
    } else {
      StrippedListed(a, line, b, t);
    }
  }

  lemma OwnSourcesMissing(lib: Library, tree: Tree, f: string)
    requires f in lib.filelist && !tree.IsFile(lib.directory + "/" + f)
    ensures Contains(OwnSources(lib, tree), "#" + "    " + "${CMAKE_CURRENT_SOURCE_DIR}/" + f + " # File not found. Fix manually")
  {
    var a, b := OwnListPieces(lib, tree, f);
    var line := FileLine(f, lib.directory, 4, tree);
    var t := "#" + "    " + "${CMAKE_CURRENT_SOURCE_DIR}/" + f + " # File not found. Fix manually";
    FileLineMissing(f, lib.directory, tree);
    MissingFacts(f, t);
    OccursAfter("\n", t);
    if lib.condition != "" {
      var open := "if (" + lib.condition + ")\n" + "    list(APPEND ${project}_SOURCES\n    ";
      WithinText(open, a, line, b, ")\nendif()\n\n", t, 1);
    } else {
      StrippedMissing(a, line, b, t);
    }
  }

  /** The target's own file list around the line of one of its files. */
  lemma OwnListPieces(lib: Library, tree: Tree, f: string) returns (a: string, b: string)
    requires f in lib.filelist
    ensures FileListText(lib.filelist, lib.directory, 4, tree) == a + FileLine(f, lib.directory, 4, tree) + b
    ensures a == [] || exists j :: 0 <= j < |a| && !IsSpace(a[j])
  {
    var xs := Sorted(lib.filelist);
    assert f in multiset(xs);
    var k :| 0 <= k < |xs| && xs[k] == f;
    FileLinesSplit(xs, k, lib.directory, 4, tree);
    a := FileLines(xs[..k], lib.directory, 4, tree);
    b := FileLines(xs[k + 1..], lib.directory, 4, tree);
  }

  /** The line of an existing file starts with its newline and indentation and ends with
      the last character of the name. */
  lemma ListedFacts(f: string, t: string)
    requires t == "\n" + "    " + "${CMAKE_CURRENT_SOURCE_DIR}/" + f
    requires f == [] || !IsSpace(f[|f| - 1])
    ensures 6 <= |t| && t[..5] == "\n    " && !IsSpace(t[5]) && !IsSpace(t[|t| - 1])
  {
    var h := "\n" + "    ";
    var p := "${CMAKE_CURRENT_SOURCE_DIR}/";
    assert h == "\n    ";
    assert t == h + (p + f);
    assert t[..5] == h;
    assert t[5] == p[0] == '$';
    if f != [] {
      assert t[|t| - 1] == f[|f| - 1];
    } else {
      assert t[|t| - 1] == p[|p| - 1] == '/';
    }
  }

  /** The commented line of a missing file starts with `#` and ends with the note. */
  lemma MissingFacts(f: string, t: string)
    requires t == "#" + "    " + "${CMAKE_CURRENT_SOURCE_DIR}/" + f + " # File not found. Fix manually"
    ensures 6 <= |t| && !IsSpace(t[0]) && !IsSpace(t[|t| - 1])
  {
    var q := " # File not found. Fix manually";
    assert t[0] == '#';
    assert t[|t| - 1] == q[|q| - 1] == 'y';
  }

  lemma OccursAt0(s: string)
    ensures OccursAt(s, s, 0)
  {
    assert s[..|s|] == s;
  }

  lemma OccursAfter(c: string, t: string)
    ensures OccursAt(c + t, t, |c|)
  {
    assert (c + t)[|c|..] == t;
  }

  /** A piece of a line among other lines is a piece of any text around them. */
  lemma WithinText(open: string, a: string, line: string, b: string, close: string, t: string, off: nat)
    requires OccursAt(line, t, off)
    ensures Contains(open + (a + line + b) + close, t)
  {
    ContainsAt(line, t, off);
    ContainsAfter(a, line, t);
    ContainsBefore(a + line, b, t);
    ContainsAfter(open, a + line + b, t);
    ContainsBefore(open + (a + line + b), close, t);
  }

  /** The line of an existing file of the target's own list, indented by four. */
  lemma FileLineListed(f: string, dir: string, tree: Tree)
    requires tree.IsFile(dir + "/" + f)
    ensures FileLine(f, dir, 4, tree) == "\n" + "    " + "${CMAKE_CURRENT_SOURCE_DIR}/" + f
  {
    assert Repeat(' ', 4) == "    ";
  }

  /** The line of a missing file of the target's own list: a newline, then the path
      commented out and indented by four, with the note. */
  lemma FileLineMissing(f: string, dir: string, tree: Tree)
    requires !tree.IsFile(dir + "/" + f)
    ensures FileLine(f, dir, 4, tree)
            == "\n" + ("#" + "    " + "${CMAKE_CURRENT_SOURCE_DIR}/" + f + " # File not found. Fix manually")
  {
    assert Repeat(' ', 4) == "    ";
    CommentRegrouped("    ", "${CMAKE_CURRENT_SOURCE_DIR}/", f, " # File not found. Fix manually");
  }

  lemma CommentRegrouped(w: string, p: string, f: string, q: string)
    ensures "\n#" + w + p + f + q == "\n" + ("#" + w + p + f + q)
  {
    assert "\n#" == "\n" + "#";
  }

  /** The unconditional list of the target's own files keeps the line of an existing
      file after `strip`: a line in the middle keeps its indentation, and the first line
      loses it to `strip` and gets it back from the text before the list. */
  lemma StrippedListed(a: string, line: string, b: string, t: string)
    requires line == t && 6 <= |t| && t[..5] == "\n    " && !IsSpace(t[5]) && !IsSpace(t[|t| - 1])
    requires a == [] || exists j :: 0 <= j < |a| && !IsSpace(a[j])
    ensures Contains("list(APPEND ${project}_SOURCES" + "\n    " + Strip(a + line + b) + "\n)\n", t)
  {
    var files := a + line + b;
    OccursAt0(line);
    PieceOfMiddle(a, line, b, t, 0);
    if a == [] {
      StrippedHead(files, t);
    } else {
      var j :| 0 <= j < |a| && !IsSpace(a[j]);
      assert files[j] == a[j];
      StrippedMiddle(files, t, |a|, j);
    }
  }

  /** The unconditional list keeps the commented line of a missing file after `strip`. */
  lemma StrippedMissing(a: string, line: string, b: string, t: string)
    requires line == "\n" + t && t != [] && !IsSpace(t[0]) && !IsSpace(t[|t| - 1])
    ensures Contains("list(APPEND ${project}_SOURCES" + "\n    " + Strip(a + line + b) + "\n)\n", t)
  {
    var files := a + line + b;
    OccursAfter("\n", t);
    PieceOfMiddle(a, line, b, t, 1);
    StrippedMiddle(files, t, |a| + 1, |a| + 1);
  }

  /** The first line of the list, when it is an existing file, is written after the
      indentation that `strip` took from it. */
  lemma StrippedHead(files: string, t: string)
    requires OccursAt(files, t, 0) && 6 <= |t| && t[..5] == "\n    "
    requires !IsSpace(t[5]) && !IsSpace(t[|t| - 1])
    ensures Contains("list(APPEND ${project}_SOURCES" + "\n    " + Strip(files) + "\n)\n", t)
  {
    var head := "list(APPEND ${project}_SOURCES";
    StrippedFirst(files, t);
    ContainsAfter(head, "\n    " + Strip(files), t);
    Regrouped(head, "\n    ", Strip(files));
    ContainsBefore(head + "\n    " + Strip(files), "\n)\n", t);
  }

  /** Any other line of the list is kept whole by `strip`. */
  lemma StrippedMiddle(files: string, t: string, i: nat, p: nat)
    requires OccursAt(files, t, i) && t != [] && p <= i && p < |files|
    requires !IsSpace(files[p]) && !IsSpace(t[|t| - 1])
    ensures Contains("list(APPEND ${project}_SOURCES" + "\n    " + Strip(files) + "\n)\n", t)
  {
    var head := "list(APPEND ${project}_SOURCES";
    StrippedKeeps(files, t, i, p);
    ContainsAfter(head + "\n    ", Strip(files), t);
    ContainsBefore(head + "\n    " + Strip(files), "\n)\n", t);
  }

  lemma PieceOfMiddle(a: string, line: string, b: string, t: string, off: nat)
    requires OccursAt(line, t, off)
    ensures OccursAt(a + line + b, t, |a| + off)
    ensures t != [] ==> (a + line + b)[|a| + off] == t[0]
  {
    var files := a + line + b;
    forall j | 0 <= j < |t| ensures files[|a| + off + j] == t[j] {
      assert files[|a| + off + j] == line[off + j];
      assert t[j] == line[off..off + |t|][j];
    }
    assert files[|a| + off..|a| + off + |t|] == t;
  }

  /** The first line of a list that starts with an existing file loses its newline and
      indentation to `strip`: what is left starts with the path. */
  lemma StrippedFirst(files: string, t: string)
    requires OccursAt(files, t, 0) && 6 <= |t| && t[..5] == "\n    "
    requires !IsSpace(t[5]) && !IsSpace(t[|t| - 1])
    ensures StartsWith("\n    " + Strip(files), t)
  {
    var u := t[5..];
    assert files[5] == t[5] && files[|t| - 1] == t[|t| - 1] by {
      assert files[..|t|] == t;
    }
    StripKeeps(files, 5, |u|, 5);
    LeadingFive(files, t);
    var r := Strip(files);
    assert files[5..5 + |u|] == u by {
      assert files[..|t|] == t;
    }
    assert r[..|u|] == u;
    Prefixed("\n    ", u, r);
  }

  lemma LeadingFive(files: string, t: string)
    requires OccursAt(files, t, 0) && 6 <= |t| && t[..5] == "\n    " && !IsSpace(t[5])
    ensures LeadingSpaces(files) == 5
  {
    assert files[..|t|] == t;
    forall j | 0 <= j < 5 ensures IsSpace(files[j]) {
      assert files[j] == t[..5][j];
    }
    var l := TrimLeft(files);
    var n := LeadingSpaces(files);
    assert l == [] || l[0] == files[n];
  }

  lemma Prefixed(w: string, u: string, r: string)
    requires |u| <= |r| && r[..|u|] == u
    ensures StartsWith(w + r, w + u)
  {
    assert (w + r)[..|w + u|] == w + u;
  }

  /** A piece of a text whose last character is not a space, with a non-space character
      at or before it, is still there after `strip`. */
  lemma StrippedKeeps(s: string, t: string, i: nat, p: nat)
    requires OccursAt(s, t, i) && t != [] && p <= i && p < |s|
    requires !IsSpace(s[p]) && !IsSpace(t[|t| - 1])
    ensures Contains(Strip(s), t)
  {
    LastOfPiece(s, t, i);
    StripKeeps(s, i, |t|, p);
    ContainsAt(Strip(s), t, i - LeadingSpaces(s));
  }

  lemma LastOfPiece(s: string, t: string, i: nat)
    requires OccursAt(s, t, i) && t != []
    ensures s[i + |t| - 1] == t[|t| - 1]
  {
    assert t[|t| - 1] == s[i..i + |t|][|t| - 1];
  }

  /** The file lines of two lists one after the other are the lines of the joined list. */
  lemma {:induction false} FileLinesAppend(xs: seq<string>, ys: seq<string>, dir: string, spaces: nat, tree: Tree)
    ensures FileLines(xs + ys, dir, spaces, tree) == FileLines(xs, dir, spaces, tree) + FileLines(ys, dir, spaces, tree)
    decreases |ys|
  {
    var front := FileLines(xs, dir, spaces, tree);
    if ys == [] {
      assert xs + ys == xs;
      Regrouped(front, [], []);
    } else {
      var zs := xs + ys;
      var init := ys[..|ys| - 1];
      assert zs[..|zs| - 1] == xs + init && zs[|zs| - 1] == ys[|ys| - 1];
      FileLinesLast(zs, dir, spaces, tree);
      FileLinesLast(ys, dir, spaces, tree);
      FileLinesAppend(xs, init, dir, spaces, tree);
      Regrouped(front, FileLines(init, dir, spaces, tree), FileLine(ys[|ys| - 1], dir, spaces, tree));
    }
  }

  lemma FileLinesLast(zs: seq<string>, dir: string, spaces: nat, tree: Tree)
    requires zs != []
    ensures FileLines(zs, dir, spaces, tree) == FileLines(zs[..|zs| - 1], dir, spaces, tree) + FileLine(zs[|zs| - 1], dir, spaces, tree)
  {
  }

  lemma FileLinesOne(x: string, dir: string, spaces: nat, tree: Tree)
    ensures FileLines([x], dir, spaces, tree) == FileLine(x, dir, spaces, tree)
  {
    var line := FileLine(x, dir, spaces, tree);
    assert [x][..0] == [];
    assert FileLines([x], dir, spaces, tree) == [] + line;
    assert [] + line == line;
  }

  lemma Regrouped(a: string, b: string, c: string)
    ensures (a + b) + c == a + (b + c)
  {
  }

  /** The lines of a list are those before a file, the file's own, and those after. */
  lemma FileLinesSplit(xs: seq<string>, k: nat, dir: string, spaces: nat, tree: Tree)
    requires k < |xs|
    ensures FileLines(xs, dir, spaces, tree)
            == FileLines(xs[..k], dir, spaces, tree) + FileLine(xs[k], dir, spaces, tree) + FileLines(xs[k + 1..], dir, spaces, tree)
    ensures k == 0 || exists j :: 0 <= j < |FileLines(xs[..k], dir, spaces, tree)| && !IsSpace(FileLines(xs[..k], dir, spaces, tree)[j])
  {
    assert xs == xs[..k] + ([xs[k]] + xs[k + 1..]);
    FileLinesAppend(xs[..k], [xs[k]] + xs[k + 1..], dir, spaces, tree);
    FileLinesAppend([xs[k]], xs[k + 1..], dir, spaces, tree);
    FileLinesOne(xs[k], dir, spaces, tree);
    Regrouped(FileLines(xs[..k], dir, spaces, tree), FileLine(xs[k], dir, spaces, tree), FileLines(xs[k + 1..], dir, spaces, tree));
    if k > 0 {
      FileLinesVisible(xs[..k], dir, spaces, tree);
    }
  }

  /** The lines of a non-empty list hold a character that is not whitespace. */
  lemma FileLinesVisible(ys: seq<string>, dir: string, spaces: nat, tree: Tree)
    requires ys != []
    ensures exists j :: 0 <= j < |FileLines(ys, dir, spaces, tree)| && !IsSpace(FileLines(ys, dir, spaces, tree)[j])
  {
    FileLinesLast(ys, dir, spaces, tree);
    var front := FileLines(ys[..|ys| - 1], dir, spaces, tree);
    var last := FileLine(ys[|ys| - 1], dir, spaces, tree);
    var d := if tree.IsFile(dir + "/" + ys[|ys| - 1]) then 1 + spaces else 2 + spaces;
    assert last[d] == '$';
    assert (front + last)[|front| + d] == '$';
  }

  /** The command that builds the target. */
  function TargetLine(lib: Library): string {
    if lib.targetType == LibraryTarget then
      "add_library ( " + lib.referredName + " " + lib.kind + " " + "${${project}_SOURCES} )\n"
    else "add_executable(" + lib.name + " ${${project}_SOURCES} )\n"
  }

  /** No `"` stands unescaped. */
  ghost predicate QuotesEscaped(s: string) {
    forall i :: 0 <= i < |s| && s[i] == '"' ==> i > 0 && s[i - 1] == '\\'
  }

  lemma QuotesEscapedAppend(a: string, b: string)
    requires QuotesEscaped(a) && QuotesEscaped(b)
    ensures QuotesEscaped(a + b)
  {
    forall i | 0 <= i < |a + b| && (a + b)[i] == '"'
      ensures i > 0 && (a + b)[i - 1] == '\\'
    {
      if i >= |a| {
        assert (a + b)[i] == b[i - |a|];
        assert (a + b)[i - 1] == b[i - 1 - |a|];
      }
    }
  }

  /** A flag that CMake can take as it is: it refers to no variable. */
  predicate IsPlainFlag(f: string) {
    '$' !in f && '@' !in f
  }

  /** The plain compiler flags, each with its quotes escaped and a space after it. */
  function PlainFlags(flags: seq<string>): (r: string)
    ensures r == "" <==> forall i :: 0 <= i < |flags| ==> !IsPlainFlag(flags[i])
  {
    if flags == [] then ""
    else (if IsPlainFlag(flags[0]) then ReplaceQuotes(flags[0]) + " " else "") + PlainFlags(flags[1..])
  }

  /** The flags that reach CMake refer to no variable and hold no unescaped quote. */
  lemma {:induction false} PlainFlagsClean(flags: seq<string>)
    ensures '$' !in PlainFlags(flags) && '@' !in PlainFlags(flags)
    ensures QuotesEscaped(PlainFlags(flags))
  {
    if flags != [] {
      PlainFlagsClean(flags[1..]);
      if IsPlainFlag(flags[0]) {
        var f := ReplaceQuotes(flags[0]);
        ReplaceQuotesChars(flags[0], '$');
        ReplaceQuotesChars(flags[0], '@');
        ReplaceQuotesEscaped(flags[0]);
        QuotesEscapedAppend(f, " ");
        QuotesEscapedAppend(f + " ", PlainFlags(flags[1..]));
        assert PlainFlags(flags) == f + " " + PlainFlags(flags[1..]);
      } else {
        assert PlainFlags(flags) == "" + PlainFlags(flags[1..]);
      }
    }
  }

  /** The compile flags of the target, when it has plain ones. */
  function CompileFlagsText(lib: Library): string {
    var plain := PlainFlags(SplitWs(lib.compilerFlags));
    if plain != "" then
      "set_target_properties( " + lib.referredName + "\n    PROPERTIES COMPILE_FLAGS \"" + plain + "\"\n)"
    else ""
  }

  /** A token that names an include directory. */
  predicate IsIncludeToken(t: string) {
    StartsWith(Strip(t), "-I")
  }

  /** An include token with `$(top_srcdir)` made `${CMAKE_SOURCE_DIR}`. */
  function IncludeDirectory(t: string): string {
    ReplaceAll(t, "$(top_srcdir)", "${CMAKE_SOURCE_DIR}")
  }

  /** The `-I` tokens among some tokens, each made an include directory, in order. */
  function IncludeTokens(tokens: seq<string>): (r: seq<string>)
    ensures |r| <= |tokens|
  {
    Selected(tokens, IsIncludeToken, IncludeDirectory)
  }

  /** `f` of each element satisfying `p`, in order. */
  function Selected<T, U>(xs: seq<T>, p: T -> bool, f: T -> U): (r: seq<U>)
    ensures |r| <= |xs|
  {
    if xs == [] then []
    else if p(xs[0]) then [f(xs[0])] + Selected(xs[1..], p, f)
    else Selected(xs[1..], p, f)
  }

  /** Nothing is selected exactly when no element satisfies `p`. */
  lemma {:induction false} SelectedEmpty<T, U>(xs: seq<T>, p: T -> bool, f: T -> U)
    ensures Selected(xs, p, f) == [] <==> forall i :: 0 <= i < |xs| ==> !p(xs[i])
  {
    if xs != [] && !p(xs[0]) {
      var rest := xs[1..];
      SelectedEmpty(rest, p, f);
      if forall i :: 0 <= i < |rest| ==> !p(rest[i]) {
        forall i | 0 < i < |xs| ensures !p(xs[i]) {
          assert xs[i] == rest[i - 1];
        }
      } else {
        var i :| 0 <= i < |rest| && p(rest[i]);
        assert xs[i + 1] == rest[i];
      }
    }
  }

  /** `y` is selected exactly when it is `f` of some element satisfying `p`. */
  lemma {:induction false} SelectedMember<T, U>(xs: seq<T>, p: T -> bool, f: T -> U, y: U)
    ensures y in Selected(xs, p, f) <==> exists i :: 0 <= i < |xs| && p(xs[i]) && y == f(xs[i])
    decreases |xs|
  {
    if xs != [] {
      var rest := xs[1..];
      SelectedMember(rest, p, f, y);
      if exists i :: 0 <= i < |rest| && p(rest[i]) && y == f(rest[i]) {
        var i :| 0 <= i < |rest| && p(rest[i]) && y == f(rest[i]);
        assert xs[i + 1] == rest[i];
      }
      if exists i :: 0 <= i < |xs| && p(xs[i]) && y == f(xs[i]) {
        var i :| 0 <= i < |xs| && p(xs[i]) && y == f(xs[i]);
        if i > 0 {
          assert rest[i - 1] == xs[i];
        }
      }
    }
  }

  /** A directory is taken exactly when some `-I` token gives it. */
  lemma IncludeTokensMember(tokens: seq<string>, d: string)
    ensures d in IncludeTokens(tokens) <==>
              exists i :: 0 <= i < |tokens| && IsIncludeToken(tokens[i]) && d == IncludeDirectory(tokens[i])
  {
    SelectedMember(tokens, IsIncludeToken, IncludeDirectory, d);
  }

  /** Some directory is taken exactly when some token names one. */
  lemma IncludeTokensEmpty(tokens: seq<string>)
    ensures IncludeTokens(tokens) == [] <==> forall i :: 0 <= i < |tokens| ==> !IsIncludeToken(tokens[i])
  {
    SelectedEmpty(tokens, IsIncludeToken, IncludeDirectory);
  }

  /** The tokens of a resolved flag: its quotes removed, split at whitespace. */
  function FlagTokens(flag: string): seq<string> {
    SplitWs(Strip(Remove(flag, '\'')))
  }

  /** The tokens of all the resolved flags, in order. */
  function AllFlagTokens(finalFlags: seq<string>): seq<string> {
    if finalFlags == [] then [] else FlagTokens(finalFlags[0]) + AllFlagTokens(finalFlags[1..])
  }

  /** The include directories named by the resolved flags, in order. */
  function IncludeDirs(finalFlags: seq<string>): seq<string> {
    IncludeTokens(AllFlagTokens(finalFlags))
  }

  /** The include directories, one per line, with their `-I` removed. */
  function IncludeLines(dirs: seq<string>): string {
    if dirs == [] then "" else "\n    " + ReplaceAll(dirs[0], "-I", "") + IncludeLines(dirs[1..])
  }

  /** The private include directories of the target, when it has some. */
  function IncludeText(lib: Library, finalFlags: seq<string>): string {
    var dirs := IncludeDirs(finalFlags);
    if dirs != [] then "\ntarget_include_directories( " + lib.referredName + " PRIVATE" + IncludeLines(dirs) + "\n)\n"
    else ""
  }

  // ---------------------------------------------------------- link libraries

  /** The names of the libraries some items stand for, one per line. */
  function NiceLines(items: seq<string>): string {
    if items == [] then "" else "\n    " + MakeNiceLibraryName(items[0]) + NiceLines(items[1..])
  }

  /** The libraries named by the tokens of a configure variable, without `-L` flags. */
  function ConfigLinkNames(tokens: seq<string>): (r: seq<string>)
    ensures |r| <= |tokens|
  {
    if tokens == [] then []
    else
      var n := MakeNiceLibraryName(tokens[0]);
      (if !StartsWith(n, "-L") then [n] else []) + ConfigLinkNames(tokens[1..])
  }

  /** A library is taken exactly when it is the name some token stands for and that name
      is not a `-L` flag. */
  lemma {:induction false} ConfigLinkNamesMember(tokens: seq<string>, n: string)
    ensures n in ConfigLinkNames(tokens) <==>
              exists i :: 0 <= i < |tokens| && n == MakeNiceLibraryName(tokens[i]) && !StartsWith(n, "-L")
    decreases |tokens|
  {
    if tokens != [] {
      var rest := tokens[1..];
      ConfigLinkNamesMember(rest, n);
      if exists i :: 0 <= i < |rest| && n == MakeNiceLibraryName(rest[i]) && !StartsWith(n, "-L") {
        var i :| 0 <= i < |rest| && n == MakeNiceLibraryName(rest[i]) && !StartsWith(n, "-L");
        assert tokens[i + 1] == rest[i];
      }
      if exists i :: 0 <= i < |tokens| && n == MakeNiceLibraryName(tokens[i]) && !StartsWith(n, "-L") {
        var i :| 0 <= i < |tokens| && n == MakeNiceLibraryName(tokens[i]) && !StartsWith(n, "-L");
        if i > 0 {
          assert rest[i - 1] == tokens[i];
        }
      }
    }
  }

  /** Every library taken from a configure variable is a bare name: no directory, no
      extension and no quote. */
  lemma {:induction false} ConfigLinkNamesBare(tokens: seq<string>)
    ensures forall n :: n in ConfigLinkNames(tokens) ==> '/' !in n && '.' !in n && '\'' !in n
  {
    if tokens != [] {
      ConfigLinkNamesBare(tokens[1..]);
      var n := MakeNiceLibraryName(tokens[0]);
      assert StartsWith(Remove(tokens[0], '\''), "-L") ==> StartsWith(n, "-L");
    }
  }

  /** Lines, each indented under a CMake command. */
  function Indented(names: seq<string>): string {
    if names == [] then "" else "\n    " + names[0] + Indented(names[1..])
  }

  /** One entry of the target's link list: a variable of the target stands for its values;
      a configure substitution `@X@` for the libraries of variable `X`, or a line to fix
      when there is no such variable; anything else for itself. */
  function LinkEntry(lib: Library, cv: Dict<seq<string>>, link: string): string {
    var t := MakeNiceLibraryName(link);
    if StartsWith(t, "$") then
      var clean := RemoveGarbage(t);
      if clean in lib.justVariables.entries then NiceLines(Flatten(lib.justVariables.Get(clean, []))) else ""
    else if StartsWith(t, "@") then
      var name := Remove(t, '@');
      if name in cv.entries then Indented(ConfigLinkNames(SplitWs(Concat(cv.Get(name, [])))))
      else "\n#    " + t + " # <-- FIX THIS"
    else "\n    " + t
  }

  function LinkEntries(lib: Library, cv: Dict<seq<string>>, links: seq<string>): string {
    if links == [] then "" else LinkEntry(lib, cv, links[0]) + LinkEntries(lib, cv, links[1..])
  }

  /** The libraries the target links with, when it names some. */
  function LinkText(lib: Library, cv: Dict<seq<string>>): string {
    if lib.linkWithLibs != [] then
      "\ntarget_link_libraries( " + lib.referredName + LinkEntries(lib, cv, lib.linkWithLibs) + "\n)\n"
    else ""
  }

  // ---------------------------------------------------------- a whole target

  /** The condition the target's build commands are put under: its own condition, or
      else the one its conditional groups left. */
  function RequiredCondition(lib: Library, opts: Dict<OptionVal>, tree: Tree): string {
    if lib.condition != "" then lib.condition else Groups(lib, opts, tree, 0, "", "").1
  }

  /** What follows the build command: compile flags, include directories, link libraries. */
  function TargetSettings(lib: Library, cv: Dict<seq<string>>, finalFlags: seq<string>): string {
    CompileFlagsText(lib) + IncludeText(lib, finalFlags) + LinkText(lib, cv)
  }

  /** The CMake text for one target (`process_libraries`, for one library). `finalFlags`
      are its compiler flags after their variables are resolved. */
  function LibraryText(lib: Library, opts: Dict<OptionVal>, cv: Dict<seq<string>>,
                       finalFlags: seq<string>, tree: Tree): (r: string)
    ensures StartsWith(r, Header(lib)) && Contains(r, TargetLine(lib))
    ensures Contains(r, TargetLine(lib) + TargetSettings(lib, cv, finalFlags))
  {
    var required := RequiredCondition(lib, opts, tree);
    var front := Groups(lib, opts, tree, 0, "", "").0 + OwnSources(lib, tree);
    var sources := Header(lib) + front;
    var settings := TargetSettings(lib, cv, finalFlags);
    var build := TargetLine(lib) + settings;
    HeadAndTarget(Header(lib), front, required, TargetLine(lib), settings);
    SettingsAfterTarget(sources, required, build);
    if required != "" then sources + Guarded(required, build) else sources + build
  }

  /** A text made of a header, a front, and a target line with its settings, guarded or
      not, starts with the header and holds the target line. */
  lemma HeadAndTarget(h: string, front: string, cond: string, t: string, settings: string)
    ensures var g := h + front + Guarded(cond, t + settings);
            StartsWith(g, h) && Contains(g, t)
    ensures var p := h + front + (t + settings);
            StartsWith(p, h) && Contains(p, t)
  {
    var g := h + front + Guarded(cond, t + settings);
    var p := h + front + (t + settings);
    assert g == h + (front + Guarded(cond, t + settings));
    assert p == h + (front + (t + settings));
    assert g[..|h|] == h && p[..|h|] == h;
    ContainsHead(t, settings);
    ContainsAfter(h + front, t + settings, t);
    assert Guarded(cond, t + settings) == "if (" + cond + ")\n" + (t + settings) + "\nendif()\n";
    ContainsAfter("if (" + cond + ")\n", t + settings, t);
    ContainsBefore("if (" + cond + ")\n" + (t + settings), "\nendif()\n", t);
    ContainsAfter(h + front, Guarded(cond, t + settings), t);
  }

  /** The build command with its settings is kept whole, guarded or not. */
  lemma SettingsAfterTarget(a: string, cond: string, build: string)
    ensures Contains(a + build, build)
    ensures Contains(a + Guarded(cond, build), build)
  {
    ContainsItself(a, build);
    var open := "if (" + cond + ")\n";
    ContainsItself(open, build);
    ContainsBefore(open + build, "\nendif()\n", build);
    assert Guarded(cond, build) == open + build + "\nendif()\n";
    ContainsAfter(a, Guarded(cond, build), build);
  }

  lemma ContainsHead(x: string, y: string)
    ensures Contains(x + y, x)
  {
    assert (x + y)[..|x|] == x;
  }

  /** Text put under a CMake condition. */
  function Guarded(cond: string, body: string): string {
    "if (" + cond + ")\n" + body + "\nendif()\n"
  }

  /** The header every target's text starts with. */
  function Header(lib: Library): string {
    "# Generating the library " + lib.name + "\n"
    + "set(project \"" + lib.referredName + "\")\n\n" + "set(${project}, \"\")\n"
  }

  /** A target with a required condition is built under it: its text holds the `if` of
      that condition right before the build command, and ends with the `endif`. */
  lemma LibraryTextGuarded(lib: Library, opts: Dict<OptionVal>, cv: Dict<seq<string>>,
                           finalFlags: seq<string>, tree: Tree)
    requires RequiredCondition(lib, opts, tree) != ""
    ensures var text := LibraryText(lib, opts, cv, finalFlags, tree);
            && Contains(text, "if (" + RequiredCondition(lib, opts, tree) + ")\n" + TargetLine(lib))
            && EndsWith(text, "\nendif()\n")
  {
    var required := RequiredCondition(lib, opts, tree);
    Framed(Header(lib) + (Groups(lib, opts, tree, 0, "", "").0 + OwnSources(lib, tree)),
           required, TargetLine(lib), TargetSettings(lib, cv, finalFlags));
  }

  /** Each file of the target's own list has its line in the target's text, commented
      out with the note exactly when it is missing from the target's directory. */
  lemma LibraryTextMentions(lib: Library, opts: Dict<OptionVal>, cv: Dict<seq<string>>,
                            finalFlags: seq<string>, tree: Tree, f: string)
    requires f in lib.filelist
    requires f == [] || !IsSpace(f[|f| - 1])
    ensures tree.IsFile(lib.directory + "/" + f) ==>
              Contains(LibraryText(lib, opts, cv, finalFlags, tree), "\n" + "    " + "${CMAKE_CURRENT_SOURCE_DIR}/" + f)
    ensures !tree.IsFile(lib.directory + "/" + f) ==>
              Contains(LibraryText(lib, opts, cv, finalFlags, tree),
                       "#" + "    " + "${CMAKE_CURRENT_SOURCE_DIR}/" + f + " # File not found. Fix manually")
  {
    var required := RequiredCondition(lib, opts, tree);
    var build := TargetLine(lib) + TargetSettings(lib, cv, finalFlags);
    var tail := if required != "" then Guarded(required, build) else build;
    var groups := Groups(lib, opts, tree, 0, "", "").0;
    assert LibraryText(lib, opts, cv, finalFlags, tree) == Header(lib) + (groups + OwnSources(lib, tree)) + tail;
    OwnSourcesMentions(lib, tree, f);
    if tree.IsFile(lib.directory + "/" + f) {
      InFront(Header(lib), groups, OwnSources(lib, tree), tail, "\n" + "    " + "${CMAKE_CURRENT_SOURCE_DIR}/" + f);
    } else {
      InFront(Header(lib), groups, OwnSources(lib, tree), tail,
              "#" + "    " + "${CMAKE_CURRENT_SOURCE_DIR}/" + f + " # File not found. Fix manually");
    }
  }

  lemma InFront(h: string, g: string, o: string, tail: string, t: string)
    requires Contains(o, t)
    ensures Contains(h + (g + o) + tail, t)
  {
    ContainsAfter(g, o, t);
    ContainsAfter(h, g + o, t);
    ContainsBefore(h + (g + o), tail, t);
  }

  lemma Framed(a: string, cond: string, t: string, rest: string)
    ensures Contains(a + Guarded(cond, t + rest), "if (" + cond + ")\n" + t)
    ensures EndsWith(a + Guarded(cond, t + rest), "\nendif()\n")
  {
    var g := "if (" + cond + ")\n" + t;
    var e := "\nendif()\n";
    var text := a + Guarded(cond, t + rest);
    assert text == (a + g) + (rest + e);
    ContainsItself(a, g);
    ContainsBefore(a + g, rest + e, g);
    assert text[|text| - |e|..] == e;
  }

  /** A target with its own condition requires that condition. */
  lemma LibraryConditionRequired(lib: Library, opts: Dict<OptionVal>, tree: Tree)
    requires lib.condition != ""
    ensures RequiredCondition(lib, opts, tree) == lib.condition
  {
  }

  /** Unconditional groups leave the required condition as it was. */
  lemma {:induction false} GroupsUnconditional(lib: Library, opts: Dict<OptionVal>, tree: Tree, k: nat,
                                               text: string, required: string)
    requires k <= |lib.conditionalAppends.keys|
    requires forall j :: k <= j < |lib.conditionalAppends.keys| ==> lib.conditionalAppends.keys[j] == ""
    ensures Groups(lib, opts, tree, k, text, required).1 == required
    decreases |lib.conditionalAppends.keys| - k
  {
    if k < |lib.conditionalAppends.keys| {
      GroupsUnconditional(lib, opts, tree, k + 1, text + Group(lib, "", lib.conditionalAppends.Get("", []), opts, tree, required).0, required);
    }
  }

  /** A target with no condition anywhere is built unconditionally. */
  lemma UnconditionalTarget(lib: Library, opts: Dict<OptionVal>, tree: Tree)
    requires lib.condition == ""
    requires forall j :: 0 <= j < |lib.conditionalAppends.keys| ==> lib.conditionalAppends.keys[j] == ""
    ensures RequiredCondition(lib, opts, tree) == ""
  {
    GroupsUnconditional(lib, opts, tree, 0, "", "");
  }

  /** A conditional group requires the name of the last option whose define is its
      condition, or its own condition when there is none. */
  lemma GroupRequired(lib: Library, cond: string, entries: seq<string>, opts: Dict<OptionVal>, tree: Tree,
                      required: string)
    requires cond != ""
    ensures (forall k :: 0 <= k < |opts.keys| ==> !BindsGroup(opts, opts.keys[k], cond)) ==>
              Group(lib, cond, entries, opts, tree, required).1 == cond
    ensures forall j :: 0 <= j < |opts.keys| && BindsGroup(opts, opts.keys[j], cond)
                          && (forall k :: j < k < |opts.keys| ==> !BindsGroup(opts, opts.keys[k], cond)) ==>
              Group(lib, cond, entries, opts, tree, required).1 == opts.Get(opts.keys[j], NoOption).name
  {
    if forall k :: 0 <= k < |opts.keys| ==> !BindsGroup(opts, opts.keys[k], cond) {
      OptionBlocksNone(lib, cond, entries, opts.keys, opts, tree);
    }
    forall j | 0 <= j < |opts.keys| && BindsGroup(opts, opts.keys[j], cond)
               && (forall k :: j < k < |opts.keys| ==> !BindsGroup(opts, opts.keys[k], cond))
      ensures Group(lib, cond, entries, opts, tree, required).1 == opts.Get(opts.keys[j], NoOption).name
    {
      OptionBlocksLast(lib, cond, entries, opts.keys, opts, tree, j);
    }
  }

  // ---------------------------------------------------------- all targets

  /** The CMake file a directory starts with when it has none yet. */
  function FreshFile(dir: string): CMakeFile {
    CMakeFile(dir, [], "")
  }

  /** `cmake_files[dir]`, created when missing, gets one more target's text. */
  function AddTarget(files: Dict<CMakeFile>, dir: string, text: string): (r: Dict<CMakeFile>)
    ensures r.keys == (if dir in files.entries then files.keys else files.keys + [dir])
    ensures files.Valid() ==> r.Valid()
  {
    var f := files.Get(dir, FreshFile(dir));
    files.Put(dir, f.(contents := f.contents + [text]))
  }

  /** The text of one target, from the options and configure variables of the state and
      its resolved compiler flags. */
  function TextOf(lib: Library, m: Model, flagsOf: Library -> seq<string>, tree: Tree): string {
    LibraryText(lib, m.options, m.configVariables, flagsOf(lib), tree)
  }

  /** The text of each target, from one state. */
  function TextFor(m: Model, flagsOf: Library -> seq<string>, tree: Tree): Library -> string {
    lib => TextOf(lib, m, flagsOf, tree)
  }

  /** Each target's text, in order, goes to the CMake file of its directory. */
  function Targets(libs: seq<Library>, textOf: Library -> string, files: Dict<CMakeFile>): (r: Dict<CMakeFile>)
    ensures files.Valid() ==> r.Valid()
    decreases |libs|
  {
    if libs == [] then files
    else Targets(libs[1..], textOf, AddTarget(files, libs[0].directory, textOf(libs[0])))
  }

  /** `process_libraries`. `flagsOf` gives each target's compiler flags with their
      variables resolved. */
  function ProcessLibraries(m: Model, flagsOf: Library -> seq<string>, tree: Tree): (r: Model)
    ensures m.Valid() ==> r.Valid()
    ensures r == m.(cmakeFiles := r.cmakeFiles)
  {
    m.(cmakeFiles := Targets(m.libraries, TextFor(m, flagsOf, tree), m.cmakeFiles))
  }

  /** The texts of the targets built in `dir`, in order. */
  function TextsIn(libs: seq<Library>, dir: string, textOf: Library -> string): seq<string>
    decreases |libs|
  {
    if libs == [] then []
    else (if libs[0].directory == dir then [textOf(libs[0])] else []) + TextsIn(libs[1..], dir, textOf)
  }

  /** After the targets are added, a directory has a CMake file exactly when it had one
      or some target is built there. */
  lemma {:induction false} TargetsDirectories(libs: seq<Library>, textOf: Library -> string,
                                              files: Dict<CMakeFile>, dir: string)
    ensures dir in Targets(libs, textOf, files).entries <==>
            dir in files.entries || exists i :: 0 <= i < |libs| && libs[i].directory == dir
    decreases |libs|
  {
    if libs != [] {
      var rest := libs[1..];
      var files1 := AddTarget(files, libs[0].directory, textOf(libs[0]));
      assert dir in files1.entries <==> dir in files.entries || libs[0].directory == dir;
      TargetsDirectories(rest, textOf, files1, dir);
      if exists i :: 0 <= i < |libs| && libs[i].directory == dir {
        var i :| 0 <= i < |libs| && libs[i].directory == dir;
        if i > 0 {
          assert rest[i - 1].directory == dir;
        }
      }
      if exists i :: 0 <= i < |rest| && rest[i].directory == dir {
        var i :| 0 <= i < |rest| && rest[i].directory == dir;
        assert libs[i + 1].directory == dir;
      }
    }
  }

  /** After the targets are added, a directory's file holds what it held, then the texts
      of the targets built there, in their order; its extra text is unchanged. */
  lemma {:induction false} TargetsContents(libs: seq<Library>, textOf: Library -> string,
                                           files: Dict<CMakeFile>, dir: string)
    ensures var b := files.Get(dir, FreshFile(dir));
            Targets(libs, textOf, files).Get(dir, FreshFile(dir))
            == b.(contents := b.contents + TextsIn(libs, dir, textOf))
    decreases |libs|
  {
    if libs != [] {
      var files1 := AddTarget(files, libs[0].directory, textOf(libs[0]));
      TargetsContents(libs[1..], textOf, files1, dir);
      var b := files.Get(dir, FreshFile(dir));
      var b1 := files1.Get(dir, FreshFile(dir));
      if libs[0].directory == dir {
        assert b1 == b.(contents := b.contents + [textOf(libs[0])]);
        assert b.contents + [textOf(libs[0])] + TextsIn(libs[1..], dir, textOf)
               == b.contents + TextsIn(libs, dir, textOf);
      } else {
        assert b1 == b;
        assert TextsIn(libs, dir, textOf) == TextsIn(libs[1..], dir, textOf);
      }
    }
  }
}
