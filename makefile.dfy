/** The reading of one Makefile.am (`process_makefile_am`): a first pass that
    discovers the targets, a second pass that gives them their sources, link
    libraries and flags under the current `if` condition and collects plain
    variables, a step that resolves `$(var)` references into conditional source
    groups, and the `SUBDIRS` bookkeeping. Lines are the stripped lines of the file. */
module Makefile {
  import opened Strings
  import opened Lexical
  import opened Dicts
  import opened Records

  // ------------------------------------------------------------------------ paths

  /** Length of the part of `p` up to and including its last `/` (0 when there is none). */
  function HeadLength(p: string): (n: nat)
    ensures n <= |p| && (n > 0 ==> p[n - 1] == '/')
    ensures forall i :: n <= i < |p| ==> p[i] != '/'
  {
    if p == [] then 0 else if p[|p| - 1] == '/' then |p| else HeadLength(p[..|p| - 1])
  }

  /** `s.rstrip('/')`. */
  function TrimSlashes(s: string): (r: string)
    ensures |r| <= |s| && r == s[..|r|] && (r == [] || r[|r| - 1] != '/')
    ensures forall i :: |r| <= i < |s| ==> s[i] == '/'
  {
    if s != [] && s[|s| - 1] == '/' then TrimSlashes(s[..|s| - 1]) else s
  }

  /** `os.path.dirname`: the part before the last `/`, without trailing slashes unless it
      is made of slashes only. */
  function Dirname(p: string): (d: string)
    ensures StartsWith(p, d)
    ensures '/' !in p ==> d == []
  {
    var head := p[..HeadLength(p)];
    if exists i :: 0 <= i < |head| && head[i] != '/' then
      var d := TrimSlashes(head);
      assert p[..|d|] == head[..|d|];
      d
    else head
  }

  /** The directory of `dir/name` is `dir`. */
  lemma DirnameOfJoin(dir: string, name: string)
    requires '/' !in name && dir != [] && dir[|dir| - 1] != '/'
    ensures Dirname(dir + "/" + name) == dir
  {
    var p := dir + "/" + name;
    assert forall i :: |dir| + 1 <= i < |p| ==> p[i] == name[i - |dir| - 1];
    HeadLengthAt(p, |dir| + 1);
    assert p[..|dir| + 1] == dir + "/";
    assert (dir + "/")[|dir| - 1] == dir[|dir| - 1];
    TrimSlashesOnce(dir);
  }

  lemma {:induction false} HeadLengthAt(p: string, n: nat)
    requires 0 < n <= |p| && p[n - 1] == '/' && forall i :: n <= i < |p| ==> p[i] != '/'
    ensures HeadLength(p) == n
  {
    if |p| > n {
      assert p[..|p| - 1][n - 1] == '/';
      HeadLengthAt(p[..|p| - 1], n);
    }
  }

  lemma TrimSlashesOnce(dir: string)
    requires dir != [] && dir[|dir| - 1] != '/'
    ensures TrimSlashes(dir + "/") == dir
  {
    assert (dir + "/")[..|dir|] == dir;
  }

  // ---------------------------------------------------------------------- pass 1

  /** The test pass 1 makes for each line: no non-empty exclusion entry is a prefix of
      the directory. */
  function ProcessIt(dir: string, excludes: seq<string>): (b: bool)
    ensures b <==> forall i :: 0 <= i < |excludes| && excludes[i] != [] ==> !StartsWith(dir, excludes[i])
  {
    if excludes == [] then true
    else
      assert forall i :: 1 <= i < |excludes| ==> excludes[1..][i - 1] == excludes[i];
      !(StartsWith(dir, excludes[0]) && excludes[0] != []) && ProcessIt(dir, excludes[1..])
  }

  /** Once the directory has passed `should_exclude`, pass 1 always processes it. */
  lemma ProcessItAfterGuard(dir: string, excludes: seq<string>)
    requires !ShouldExclude(dir, excludes)
    ensures ProcessIt(dir, excludes)
  {
  }

  /** The target made from one name of a discovery line; a program is referred to by
      its canonical name. */
  function TargetFor(rawName: string, dir: string, program: bool): (l: Library)
    ensures l == (if program then NewLibrary(rawName, dir).(targetType := ProgramTarget,
                                                              referredName := NewLibrary(rawName, dir).canonicName)
                  else NewLibrary(rawName, dir))
    ensures l.canonicName == Canonicalize(l.name) && l.directory == dir
  {
    var l := NewLibrary(rawName, dir);
    if program then l.(targetType := ProgramTarget, referredName := l.canonicName) else l
  }

  /** `if not has_library(...): libraries.append(...)`: the targets already there stay
      in place, at most `l` is added at the end, and only when its canonical name was
      missing; afterwards the name is found. */
  function AddTarget(libs: seq<Library>, l: Library): (r: seq<Library>)
    ensures IsPrefix(libs, r) && |r| <= |libs| + 1
    ensures |r| == |libs| + 1 <==> FindLibrary(libs, l.canonicName) < 0
    ensures |r| == |libs| + 1 ==> r[|libs|] == l
    ensures FindLibrary(r, l.canonicName) >= 0
  {
    if FindLibrary(libs, l.canonicName) >= 0 then libs
    else
      FindLibraryAppend(libs, l, l.canonicName);
      assert (libs + [l])[..|libs|] == libs;
      libs + [l]
  }

  /** The names `k` onwards of a discovery line, added one by one. */
  function AddTargets(libs: seq<Library>, names: seq<string>, k: nat, dir: string, program: bool): seq<Library>
    requires k <= |names|
    decreases |names| - k
  {
    if k == |names| then libs else AddTargets(AddTarget(libs, TargetFor(names[k], dir, program)), names, k + 1, dir, program)
  }

  /** No two targets share a canonical name. */
  predicate DistinctCanonic(libs: seq<Library>) {
    forall i, j :: 0 <= i < j < |libs| ==> libs[i].canonicName != libs[j].canonicName
  }

  predicate IsPrefix(a: seq<Library>, b: seq<Library>) {
    |a| <= |b| && b[..|a|] == a
  }

  /** Adding one target keeps the targets already there and canonical names distinct, and
      afterwards the target's canonical name is found. */
  lemma AddTargetDedup(libs: seq<Library>, l: Library)
    requires DistinctCanonic(libs)
    ensures var r := AddTarget(libs, l);
            DistinctCanonic(r) && IsPrefix(libs, r) && FindLibrary(r, l.canonicName) >= 0
  {
    var r := AddTarget(libs, l);
    if FindLibrary(libs, l.canonicName) < 0 {
      assert r[|libs|] == l;
      assert r[..|libs|] == libs;
      FindLibraryAppend(libs, l, l.canonicName);
    }
  }

  /** Adding targets keeps the targets already there, keeps canonical names distinct, and
      afterwards every name of the line has a target with its canonical name. */
  lemma {:induction false} AddTargetsDedup(libs: seq<Library>, names: seq<string>, k: nat, dir: string, program: bool)
    requires k <= |names| && DistinctCanonic(libs)
    ensures var r := AddTargets(libs, names, k, dir, program);
            && DistinctCanonic(r) && IsPrefix(libs, r)
            && forall j :: k <= j < |names| ==> FindLibrary(r, TargetFor(names[j], dir, program).canonicName) >= 0
    decreases |names| - k
  {
    if k < |names| {
      var l := TargetFor(names[k], dir, program);
      var next := AddTarget(libs, l);
      AddTargetDedup(libs, l);
      AddTargetsDedup(next, names, k + 1, dir, program);
      var r := AddTargets(next, names, k + 1, dir, program);
      assert r == AddTargets(libs, names, k, dir, program);
      PrefixTransitive(libs, next, r);
      forall j | k <= j < |names|
        ensures FindLibrary(r, TargetFor(names[j], dir, program).canonicName) >= 0
      {
        if j == k {
          PrefixFound(next, r, l.canonicName);
        }
      }
    }
  }

  lemma PrefixTransitive(a: seq<Library>, b: seq<Library>, c: seq<Library>)
    requires IsPrefix(a, b) && IsPrefix(b, c)
    ensures IsPrefix(a, c)
  {
    assert c[..|a|] == c[..|b|][..|a|];
  }

  /** A name found in a prefix is found in the whole. */
  lemma PrefixFound(a: seq<Library>, b: seq<Library>, canonic: string)
    requires IsPrefix(a, b) && FindLibrary(a, canonic) >= 0
    ensures FindLibrary(b, canonic) >= 0
  {
    var j := FindLibrary(a, canonic);
    assert b[j] == a[j];
  }

  /** One line of the first pass: a line naming `_LIBRARIES` or `_PROGRAMS` adds its
      names from the third word on. */
  function DiscoverLine(libs: seq<Library>, line: string, dir: string, excludes: seq<string>): seq<Library>
  {
    if StartsWith(line, "#") then libs
    else if Contains(line, "_LIBRARIES") || Contains(line, "_PROGRAMS") then
      if ProcessIt(dir, excludes) then AddTargets(libs, Drop2(SplitWs(line)), 0, dir, Contains(line, "_PROGRAMS"))
      else libs
    else libs
  }

  /** One line of the first pass keeps every target already known and adds none whose
      canonical name is taken. */
  lemma DiscoverLineDedup(libs: seq<Library>, line: string, dir: string, excludes: seq<string>)
    requires DistinctCanonic(libs)
    ensures DistinctCanonic(DiscoverLine(libs, line, dir, excludes)) && IsPrefix(libs, DiscoverLine(libs, line, dir, excludes))
  {
    if !StartsWith(line, "#") && (Contains(line, "_LIBRARIES") || Contains(line, "_PROGRAMS")) && ProcessIt(dir, excludes) {
      AddTargetsDedup(libs, Drop2(SplitWs(line)), 0, dir, Contains(line, "_PROGRAMS"));
    }
  }

  /** `elements[2:]`. */
  function Drop2(e: seq<string>): (r: seq<string>)
    ensures |e| >= 2 ==> r == e[2..]
    ensures |e| < 2 ==> r == []
  {
    if |e| >= 2 then e[2..] else []
  }

  /** The first pass over the lines from `i` on. */
  function Discover(libs: seq<Library>, lines: seq<string>, i: nat, dir: string, excludes: seq<string>): seq<Library>
    requires i <= |lines|
    decreases |lines| - i
  {
    if i == |lines| then libs else Discover(DiscoverLine(libs, lines[i], dir, excludes), lines, i + 1, dir, excludes)
  }

  /** The first pass keeps every target already known and never makes two targets with
      one canonical name. */
  lemma {:induction false} DiscoverDedup(libs: seq<Library>, lines: seq<string>, i: nat, dir: string, excludes: seq<string>)
    requires i <= |lines| && DistinctCanonic(libs)
    ensures DistinctCanonic(Discover(libs, lines, i, dir, excludes)) && IsPrefix(libs, Discover(libs, lines, i, dir, excludes))
    decreases |lines| - i
  {
    if i < |lines| {
      var next := DiscoverLine(libs, lines[i], dir, excludes);
      DiscoverLineDedup(libs, lines[i], dir, excludes);
      DiscoverDedup(next, lines, i + 1, dir, excludes);
      PrefixTransitive(libs, next, Discover(next, lines, i + 1, dir, excludes));
    }
  }

  /** After the first pass, every name a processed `_LIBRARIES` or `_PROGRAMS` line lists
      from its third word on has a target with its canonical name. */
  lemma {:induction false} DiscoverFinds(libs: seq<Library>, lines: seq<string>, i: nat, dir: string,
                                         excludes: seq<string>, j: nat, name: string)
    requires i <= j < |lines| && DistinctCanonic(libs)
    requires !StartsWith(lines[j], "#") && (Contains(lines[j], "_LIBRARIES") || Contains(lines[j], "_PROGRAMS"))
    requires ProcessIt(dir, excludes) && name in Drop2(SplitWs(lines[j]))
    ensures FindLibrary(Discover(libs, lines, i, dir, excludes),
                        TargetFor(name, dir, Contains(lines[j], "_PROGRAMS")).canonicName) >= 0
    decreases |lines| - i
  {
    var next := DiscoverLine(libs, lines[i], dir, excludes);
    var program := Contains(lines[j], "_PROGRAMS");
    var canonic := TargetFor(name, dir, program).canonicName;
    if !StartsWith(lines[i], "#") && (Contains(lines[i], "_LIBRARIES") || Contains(lines[i], "_PROGRAMS")) {
      AddTargetsDedup(libs, Drop2(SplitWs(lines[i])), 0, dir, Contains(lines[i], "_PROGRAMS"));
    }
    if i == j {
      var names := Drop2(SplitWs(lines[j]));
      var k :| 0 <= k < |names| && names[k] == name;
      assert FindLibrary(next, canonic) >= 0;
      DiscoverDedup(next, lines, i + 1, dir, excludes);
      PrefixFound(next, Discover(next, lines, i + 1, dir, excludes), canonic);
    } else {
      DiscoverFinds(next, lines, i + 1, dir, excludes, j, name);
    }
  }

  // ---------------------------------------------------------------------- pass 2

  /** A plain variable of the Makefile.am: the token lists of its assignments and the `if`
      condition of each, in lockstep. */
  datatype VarDef = VarDef(values: seq<seq<string>>, conditions: seq<string>)

  /** The state of the second pass. */
  datatype Pass = Pass(libs: seq<Library>, ifCondition: string, dirsToGoIn: string,
                       vars: Dict<VarDef>, inThisFile: seq<string>)

  /** The condition after an `if` or `endif` line: the second word of an `if` line
      (`IndexError` when there is none), "" after `endif`. */
  function IfLine(cond: string, line: string): (r: Result<string>)
    ensures StartsWith(line, "if") ==> (r.Ok? <==> |SplitWs(line)| >= 2) && (r.Ok? ==> r.value == SplitWs(line)[1])
    ensures StartsWith(line, "endif") ==> r == Ok("")
    ensures !StartsWith(line, "if") && !StartsWith(line, "endif") ==> r == Ok(cond)
  {
    EndifIsNotIf(line);
    if StartsWith(line, "if") then
      (var e := SplitWs(line); if |e| < 2 then IndexError else Ok(e[1]))
    else if StartsWith(line, "endif") then Ok("")
    else Ok(cond)
  }

  lemma EndifIsNotIf(line: string)
    ensures StartsWith(line, "endif") ==> !StartsWith(line, "if")
  {
    if StartsWith(line, "endif") {
      assert line[0] == "endif"[0];
    }
  }

  /** The backslash continuation from line `k`, which has given `acc`: while the text ends
      with `\`, the next line is appended; `IndexError` when there is no next line. */
  function ContinueFrom(lines: seq<string>, k: nat, acc: string): (r: Result<string>)
    requires k < |lines|
    decreases |lines| - k
  {
    if !EndsWith(acc, "\\") then Ok(acc)
    else if k + 1 >= |lines| then IndexError
    else ContinueFrom(lines, k + 1, acc + lines[k + 1])
  }

  /** Lines `i` up to `e` (exclusive) concatenated. */
  function Glued(lines: seq<string>, i: nat, e: nat): string
    requires i <= e <= |lines|
    decreases e
  {
    if e == i then [] else Glued(lines, i, e - 1) + lines[e - 1]
  }

  /** Lines `i` up to `e` (exclusive) form the shortest run from `i` whose text does not
      end with `\`. */
  predicate ShortestRun(lines: seq<string>, i: nat, e: nat)
    requires i <= e <= |lines|
  {
    && !EndsWith(Glued(lines, i, e), "\\")
    && forall f :: i < f < e ==> EndsWith(Glued(lines, i, f), "\\")
  }

  /** The continuation takes the shortest run of lines from `i` that ends in a line whose
      accumulated text does not end with `\`; it fails when every run ends with `\`. */
  lemma {:induction false} ContinueShortest(lines: seq<string>, i: nat, k: nat)
    requires i <= k < |lines|
    requires forall e :: i < e <= k ==> EndsWith(Glued(lines, i, e), "\\")
    ensures var r := ContinueFrom(lines, k, Glued(lines, i, k + 1));
            r.Ok? ==> exists e :: k < e <= |lines| && r.value == Glued(lines, i, e) && ShortestRun(lines, i, e)
    ensures var r := ContinueFrom(lines, k, Glued(lines, i, k + 1));
            r.IndexError? ==> forall e :: i < e <= |lines| ==> EndsWith(Glued(lines, i, e), "\\")
    decreases |lines| - k
  {
    var acc := Glued(lines, i, k + 1);
    if !EndsWith(acc, "\\") {
      assert ContinueFrom(lines, k, acc) == Ok(acc);
      assert ShortestRun(lines, i, k + 1);
    } else if k + 1 >= |lines| {
      assert ContinueFrom(lines, k, acc) == IndexError;
    } else {
      var next := Glued(lines, i, k + 2);
      assert acc + lines[k + 1] == next;
      assert ContinueFrom(lines, k, acc) == ContinueFrom(lines, k + 1, next);
      ContinueShortest(lines, i, k + 1);
      var r := ContinueFrom(lines, k + 1, next);
      if r.Ok? {
        var e :| k + 1 < e <= |lines| && r.value == Glued(lines, i, e) && ShortestRun(lines, i, e);
        assert k < e;
      }
    }
  }

  /** `'%-1s' % item`: the piece left-justified in a field of width one, so it is kept
      as it is and only an empty piece is filled with one space. */
  function Pad(x: string): (r: string)
    ensures StartsWith(r, x) && |r| == (if |x| >= 1 then |x| else 1)
    ensures forall i :: |x| <= i < |r| ==> r[i] == ' '
  {
    if x == [] then " " else x
  }

  function PadAll(parts: seq<string>): (r: string)
  {
    if parts == [] then [] else Pad(parts[0]) + PadAll(parts[1..])
  }

  /** `''.join('%-1s' % item for item in line.split('\t '))`. */
  function TabJoin(line: string): string
  {
    PadAll(SplitOn(line, "\t "))
  }

  /** The fields of the second pass a suffix selects. */
  datatype Field = Sources | LinkAdd | CompileFlags | LinkFlags

  /** The update of one target's field by an assignment line: `=` replaces the chosen
      field, `+=` extends it at the end, and every other field of the target is kept. */
  function SetField(lib: Library, field: Field, plus: bool, tokens: seq<string>, text: string): (r: Library)
    ensures r.(filelist := lib.filelist, linkWithLibs := lib.linkWithLibs,
               compilerFlags := lib.compilerFlags, linkerFlags := lib.linkerFlags) == lib
    ensures field != Sources ==> r.filelist == lib.filelist
    ensures field != LinkAdd ==> r.linkWithLibs == lib.linkWithLibs
    ensures field != CompileFlags ==> r.compilerFlags == lib.compilerFlags
    ensures field != LinkFlags ==> r.linkerFlags == lib.linkerFlags
    ensures field == Sources ==> r.filelist == (if plus then lib.filelist + tokens else tokens)
    ensures field == LinkAdd ==> r.linkWithLibs == (if plus then lib.linkWithLibs + tokens else tokens)
    ensures field == CompileFlags ==> r.compilerFlags == (if plus then lib.compilerFlags + text else text)
    ensures field == LinkFlags ==> r.linkerFlags == (if plus then lib.linkerFlags + tokens else tokens)
  {
    match field
    case Sources => lib.(filelist := if plus then lib.filelist + tokens else tokens)
    case LinkAdd => lib.(linkWithLibs := if plus then lib.linkWithLibs + tokens else tokens)
    case CompileFlags => lib.(compilerFlags := if plus then lib.compilerFlags + text else text)
    case LinkFlags => lib.(linkerFlags := if plus then lib.linkerFlags + tokens else tokens)
  }

  /** An assignment to a field of the target with canonical name `name`: when the target
      exists, it gets the current condition appended and the field set or extended, and the
      name is recorded for this file. The flag says whether a target was found. */
  function Attach(st: Pass, name: string, field: Field, plus: bool, tokens: seq<string>, text: string): (r: (Pass, bool))
    ensures r.1 <==> FindLibrary(st.libs, name) >= 0
    ensures !r.1 ==> r.0 == st
    ensures r.1 ==> var j := FindLibrary(st.libs, name);
                    && r.0 == st.(libs := r.0.libs, inThisFile := st.inThisFile + [name])
                    && |r.0.libs| == |st.libs|
                    && r.0.libs[j] == SetField(st.libs[j].(condition := st.libs[j].condition + st.ifCondition),
                                               field, plus, tokens, text)
                    && forall i :: 0 <= i < |st.libs| && i != j ==> r.0.libs[i] == st.libs[i]
  {
    var j := FindLibrary(st.libs, name);
    if j < 0 then (st, false)
    else
      var lib := st.libs[j];
      var conditioned := if st.ifCondition != [] then lib.(condition := lib.condition + st.ifCondition) else lib;
      assert st.ifCondition == [] ==> lib.condition + st.ifCondition == lib.condition;
      (st.(libs := st.libs[j := SetField(conditioned, field, plus, tokens, text)], inThisFile := st.inThisFile + [name]), true)
  }

  /** An attach to a known target sets or extends the chosen field of that target only,
      appends the current condition to it, and records its name. */
  lemma AttachField(st: Pass, name: string, field: Field, plus: bool, tokens: seq<string>, text: string)
    requires FindLibrary(st.libs, name) >= 0
    ensures var j := FindLibrary(st.libs, name);
            var lib := st.libs[j];
            var r := Attach(st, name, field, plus, tokens, text).0;
            && |r.libs| == |st.libs| && r.inThisFile == st.inThisFile + [name]
            && r.libs[j].condition == lib.condition + st.ifCondition
            && r.libs[j].filelist == (if field != Sources then lib.filelist else if plus then lib.filelist + tokens else tokens)
            && r.libs[j].linkWithLibs == (if field != LinkAdd then lib.linkWithLibs else if plus then lib.linkWithLibs + tokens else tokens)
            && r.libs[j].compilerFlags == (if field != CompileFlags then lib.compilerFlags else if plus then lib.compilerFlags + text else text)
            && r.libs[j].linkerFlags == (if field != LinkFlags then lib.linkerFlags else if plus then lib.linkerFlags + tokens else tokens)
            && forall i :: 0 <= i < |st.libs| && i != j ==> r.libs[i] == st.libs[i]
  {
    var j := FindLibrary(st.libs, name);
    var c := st.libs[j].(condition := st.libs[j].condition + st.ifCondition);
    var u := SetField(c, field, plus, tokens, text);
    assert Attach(st, name, field, plus, tokens, text).0.libs[j] == u;
    assert u.condition == c.condition;
  }

  /** `defined_variables[variable]` gets one more value and the condition it was
      assigned under, an unknown variable starting with none. */
  function Record(vars: Dict<VarDef>, variable: string, tokens: seq<string>, cond: string): (r: Dict<VarDef>)
    ensures variable in r.entries
    ensures var old1 := if variable in vars.entries then vars.entries[variable] else VarDef([], []);
            r.entries[variable] == VarDef(old1.values + [tokens], old1.conditions + [cond])
    ensures forall v :: v in vars.entries && v != variable ==> v in r.entries && r.entries[v] == vars.entries[v]
    ensures forall v :: v in r.entries ==> v in vars.entries || v == variable
  {
    var old1 := if variable in vars.entries then vars.entries[variable] else VarDef([], []);
    vars.Put(variable, VarDef(old1.values + [tokens], old1.conditions + [cond]))
  }

  /** Recording a value keeps values and conditions in lockstep. */
  lemma RecordLockstep(vars: Dict<VarDef>, variable: string, tokens: seq<string>, cond: string)
    requires Lockstep(vars)
    ensures Lockstep(Record(vars, variable, tokens, cond))
  {
    var r := Record(vars, variable, tokens, cond);
    assert r.Valid();
    forall v | v in r.entries
      ensures |r.entries[v].values| == |r.entries[v].conditions|
    {
      if v != variable {
        assert r.entries[v] == vars.entries[v];
      }
    }
  }

  /** An assignment that no target took: `SUBDIRS` sets the subdirectories, and any
      variable not naming `_LIBRARIES` or `_PROGRAMS` is recorded as a plain variable. */
  function Unused(st: Pass, variable: string, rhs: string): (r: Pass)
    ensures r.libs == st.libs && r.ifCondition == st.ifCondition && r.inThisFile == st.inThisFile
    ensures r.dirsToGoIn == if variable == "SUBDIRS" then rhs else st.dirsToGoIn
    ensures r.vars == if !Contains(variable, "_LIBRARIES") && !Contains(variable, "_PROGRAMS")
                      then Record(st.vars, variable, SplitWs(rhs), st.ifCondition) else st.vars
  {
    var st1 := if variable == "SUBDIRS" then st.(dirsToGoIn := rhs) else st;
    if !Contains(variable, "_LIBRARIES") && !Contains(variable, "_PROGRAMS") then
      st1.(vars := Record(st1.vars, variable, SplitWs(rhs), st1.ifCondition))
    else st1
  }

  /** The assigned variable: the text before the first `=`, stripped, without `+`. */
  function VariableOf(lhs: string): (v: string)
    ensures '+' !in v
  {
    var v := Strip(lhs);
    if '+' in v then
      var w := Strip(Remove(v, '+'));
      StripChars(Remove(v, '+'));
      w
    else v
  }

  /** The left-hand side of `<v> =` or `<v> +=`, with any whitespace around the `+`, names
      the variable `v`. */
  lemma VariableOfName(v: string, pre: string, plus: bool, post: string)
    requires v != [] && !IsSpace(v[0]) && !IsSpace(v[|v| - 1]) && '+' !in v
    requires forall i :: 0 <= i < |pre| ==> IsSpace(pre[i])
    requires forall i :: 0 <= i < |post| ==> IsSpace(post[i])
    ensures VariableOf(v + pre + (if plus then "+" else "") + post) == v
  {
    if plus {
      var w := v + pre + "+";
      assert v + pre + "+" + post == w + post;
      StripTrailing(w, post);
      assert '+' in w by { assert w[|w| - 1] == '+'; }
      RemoveAppend(v + pre, "+", '+');
      RemoveAppend(v, pre, '+');
      RemoveAbsent(v, '+');
      RemoveAbsent(pre, '+');
      assert Remove("+", '+') == [];
      assert Remove(w, '+') == v + pre;
      StripTrailing(v, pre);
    } else {
      assert v + pre + "" + post == v + (pre + post);
      StripTrailing(v, pre + post);
    }
  }

  /** The compiler flags of a flags line: the line without the first occurrence of the
      variable and the first `=`, stripped (a `+=` line keeps its `+`). */
  function FlagsOfLine(line: string, variable: string): string
  {
    Strip(ReplaceFirst(ReplaceFirst(line, variable, ""), "=", ""))
  }

  /** One suffix branch of an assignment line: when it applies, the target named `name`
      takes the assignment, and the flag records whether some branch has found its target.
      No branch touches the variables, the condition or the subdirectories. */
  function Branch(b: (Pass, bool), applies: bool, name: string, field: Field, plus: bool,
                  tokens: seq<string>, text: string): (r: (Pass, bool))
    ensures r.0.vars == b.0.vars && r.0.ifCondition == b.0.ifCondition && r.0.dirsToGoIn == b.0.dirsToGoIn
    ensures !applies ==> r == b
    ensures applies ==> r == (Attach(b.0, name, field, plus, tokens, text).0,
                              b.1 || Attach(b.0, name, field, plus, tokens, text).1)
  {
    if applies then
      var a := Attach(b.0, name, field, plus, tokens, text);
      (a.0, b.1 || a.1)
    else b
  }

  /** The four suffix branches of an assignment to `variable`, in order. */
  function Branches(st: Pass, variable: string, plus: bool, tokens: seq<string>, flagsText: string): (r: (Pass, bool))
    ensures r.0.vars == st.vars && r.0.ifCondition == st.ifCondition
  {
    var b1 := Branch((st, false), EndsWith(variable, "_SOURCES"), DropLast(variable, 8), Sources, plus, tokens, "");
    var b2 := Branch(b1, EndsWith(variable, "_LDADD"), DropLast(variable, 6), LinkAdd, plus, tokens, "");
    var flags := EndsWith(variable, "_CXXFLAGS") || EndsWith(variable, "_CPPFLAGS") || EndsWith(variable, "_CFLAGS");
    var cut := if EndsWith(variable, "_CFLAGS") then 7 else 9;
    var b3 := Branch(b2, flags, DropLast(variable, cut), CompileFlags, plus, [], flagsText);
    Branch(b3, EndsWith(variable, "_LDFLAGS"), DropLast(variable, 8), LinkFlags, plus, tokens, "")
  }

  /** An assignment line after continuation and cleaning: the four suffix branches in
      order, then the unused case. `IndexError` when the line has no `=` to split on. */
  function AssignmentLine(st: Pass, line: string): (r: Result<Pass>)
    ensures r.Ok? <==> |SplitOn(line, "=")| >= 2
    ensures r.Ok? ==> r.value.ifCondition == st.ifCondition
  {
    var el := SplitOn(line, "=");
    if |el| < 2 then IndexError
    else
      var variable := VariableOf(el[0]);
      Ok(Assign(st, variable, Contains(line, "+="), el[1], FlagsOfLine(line, variable)))
  }

  /** The assignment of `rhs` to `variable`: the suffix branches, then the unused case when
      no branch found its target. */
  function Assign(st: Pass, variable: string, plus: bool, rhs: string, flagsText: string): (r: Pass)
    ensures r.ifCondition == st.ifCondition
  {
    var b := Branches(st, variable, plus, SplitWs(rhs), flagsText);
    if b.1 then b.0 else Unused(b.0, variable, rhs)
  }

  /** The cleaning of a joined assignment: backslashes removed, tab-space pairs folded. */
  function CleanAssignment(joined: string): string
  {
    TabJoin(Remove(joined, '\\'))
  }

  /** Line `i` of the second pass. The continuation reads ahead, but the next line read by
      the pass is still `i + 1`: continuation lines are scanned again on their own. */
  function Pass2Line(lines: seq<string>, i: nat, st: Pass): (r: Result<Pass>)
    requires i < |lines|
  {
    var line := lines[i];
    if StartsWith(line, "#") then Ok(st)
    else match IfLine(st.ifCondition, line)
      case IndexError => IndexError
      case Ok(cond) =>
        var st1 := st.(ifCondition := cond);
        if '=' !in line then Ok(st1)
        else match ContinueFrom(lines, i, line)
          case IndexError => IndexError
          case Ok(joined) => AssignmentLine(st1, CleanAssignment(joined))
  }

  /** The second pass from line `i` on. */
  function Pass2(lines: seq<string>, i: nat, st: Pass): Result<Pass>
    requires i <= |lines|
    decreases |lines| - i
  {
    if i == |lines| then Ok(st)
    else match Pass2Line(lines, i, st)
      case IndexError => IndexError
      case Ok(next) => Pass2(lines, i + 1, next)
  }

  /** The variables form a proper dict, and every one has as many conditions as values. */
  ghost predicate Lockstep(vars: Dict<VarDef>) {
    && vars.Valid()
    && forall v :: v in vars.entries ==> |vars.entries[v].values| == |vars.entries[v].conditions|
  }

  /** The second pass keeps values and conditions in lockstep. */
  lemma {:induction false} Pass2Lockstep(lines: seq<string>, i: nat, st: Pass)
    requires i <= |lines| && Lockstep(st.vars)
    ensures Pass2(lines, i, st).Ok? ==> Lockstep(Pass2(lines, i, st).value.vars)
    decreases |lines| - i
  {
    if i < |lines| {
      var r := Pass2Line(lines, i, st);
      if r.Ok? {
        Pass2LineLockstep(lines, i, st);
        Pass2Lockstep(lines, i + 1, r.value);
      }
    }
  }

  lemma Pass2LineLockstep(lines: seq<string>, i: nat, st: Pass)
    requires i < |lines| && Lockstep(st.vars)
    ensures Pass2Line(lines, i, st).Ok? ==> Lockstep(Pass2Line(lines, i, st).value.vars)
  {
    var line := lines[i];
    if !StartsWith(line, "#") && IfLine(st.ifCondition, line).Ok? && '=' in line && ContinueFrom(lines, i, line).Ok? {
      var st1 := st.(ifCondition := IfLine(st.ifCondition, line).value);
      AssignmentLockstep(st1, CleanAssignment(ContinueFrom(lines, i, line).value));
    }
  }

  lemma AssignmentLockstep(st: Pass, line: string)
    requires Lockstep(st.vars)
    ensures AssignmentLine(st, line).Ok? ==> Lockstep(AssignmentLine(st, line).value.vars)
  {
    var el := SplitOn(line, "=");
    if |el| >= 2 {
      var variable := VariableOf(el[0]);
      AssignLockstep(st, variable, Contains(line, "+="), el[1], FlagsOfLine(line, variable));
    }
  }

  lemma AssignLockstep(st: Pass, variable: string, plus: bool, rhs: string, flagsText: string)
    requires Lockstep(st.vars)
    ensures Lockstep(Assign(st, variable, plus, rhs, flagsText).vars)
  {
    var b := Branches(st, variable, plus, SplitWs(rhs), flagsText);
    if !b.1 {
      UnusedLockstep(b.0, variable, rhs);
    }
  }

  /** The unused case keeps values and conditions in lockstep. */
  lemma UnusedLockstep(st: Pass, variable: string, rhs: string)
    requires Lockstep(st.vars)
    ensures Lockstep(Unused(st, variable, rhs).vars)
  {
    if !Contains(variable, "_LIBRARIES") && !Contains(variable, "_PROGRAMS") {
      RecordLockstep(st.vars, variable, SplitWs(rhs), st.ifCondition);
    }
  }

  /** `b` holds the targets of `a` at the same positions, with the same canonical names
      and directories. */
  predicate SameTargets(a: seq<Library>, b: seq<Library>) {
    |a| == |b| && forall i :: 0 <= i < |a| ==> b[i].canonicName == a[i].canonicName && b[i].directory == a[i].directory
  }

  /** `b` starts with the targets of `a`, with the same canonical names and directories. */
  predicate KeepsTargets(a: seq<Library>, b: seq<Library>) {
    |a| <= |b| && SameTargets(a, b[..|a|])
  }

  lemma SameTargetsTransitive(a: seq<Library>, b: seq<Library>, c: seq<Library>)
    requires SameTargets(a, b) && SameTargets(b, c)
    ensures SameTargets(a, c)
  {
  }

  /** Targets that keep their canonical names keep them distinct. */
  lemma SameTargetsDistinct(a: seq<Library>, b: seq<Library>)
    requires SameTargets(a, b) && DistinctCanonic(a)
    ensures DistinctCanonic(b)
  {
  }

  /** Keeping the targets of a prefix, then every target at its place, keeps those of the prefix. */
  lemma KeepsThenSame(a: seq<Library>, b: seq<Library>, c: seq<Library>)
    requires KeepsTargets(a, b) && SameTargets(b, c)
    ensures KeepsTargets(a, c)
  {
    assert forall i :: 0 <= i < |a| ==> c[..|a|][i] == c[i] && b[..|a|][i] == b[i];
  }

  lemma KeepsTransitive(a: seq<Library>, b: seq<Library>, c: seq<Library>)
    requires KeepsTargets(a, b) && KeepsTargets(b, c)
    ensures KeepsTargets(a, c)
  {
    assert forall i :: 0 <= i < |a| ==> c[..|a|][i] == c[..|b|][i] && b[..|a|][i] == b[i];
  }

  /** An attach changes only the fields of one target, not its name or directory. */
  lemma AttachTargets(st: Pass, name: string, field: Field, plus: bool, tokens: seq<string>, text: string)
    ensures SameTargets(st.libs, Attach(st, name, field, plus, tokens, text).0.libs)
  {
  }

  /** One suffix branch keeps every target at its place. */
  lemma BranchTargets(b: (Pass, bool), applies: bool, name: string, field: Field, plus: bool,
                      tokens: seq<string>, text: string)
    ensures SameTargets(b.0.libs, Branch(b, applies, name, field, plus, tokens, text).0.libs)
  {
    AttachTargets(b.0, name, field, plus, tokens, text);
  }

  /** The four suffix branches keep every target at its place. */
  lemma BranchesTargets(st: Pass, variable: string, plus: bool, tokens: seq<string>, flagsText: string)
    ensures SameTargets(st.libs, Branches(st, variable, plus, tokens, flagsText).0.libs)
  {
    var b1 := Branch((st, false), EndsWith(variable, "_SOURCES"), DropLast(variable, 8), Sources, plus, tokens, "");
    BranchTargets((st, false), EndsWith(variable, "_SOURCES"), DropLast(variable, 8), Sources, plus, tokens, "");
    var b2 := Branch(b1, EndsWith(variable, "_LDADD"), DropLast(variable, 6), LinkAdd, plus, tokens, "");
    BranchTargets(b1, EndsWith(variable, "_LDADD"), DropLast(variable, 6), LinkAdd, plus, tokens, "");
    SameTargetsTransitive(st.libs, b1.0.libs, b2.0.libs);
    var flags := EndsWith(variable, "_CXXFLAGS") || EndsWith(variable, "_CPPFLAGS") || EndsWith(variable, "_CFLAGS");
    var cut := if EndsWith(variable, "_CFLAGS") then 7 else 9;
    var b3 := Branch(b2, flags, DropLast(variable, cut), CompileFlags, plus, [], flagsText);
    BranchTargets(b2, flags, DropLast(variable, cut), CompileFlags, plus, [], flagsText);
    SameTargetsTransitive(st.libs, b2.0.libs, b3.0.libs);
    BranchTargets(b3, EndsWith(variable, "_LDFLAGS"), DropLast(variable, 8), LinkFlags, plus, tokens, "");
    SameTargetsTransitive(st.libs, b3.0.libs, Branches(st, variable, plus, tokens, flagsText).0.libs);
  }

  /** One assignment line keeps every target at its place. */
  lemma AssignmentTargets(st: Pass, line: string)
    ensures AssignmentLine(st, line).Ok? ==> SameTargets(st.libs, AssignmentLine(st, line).value.libs)
  {
    var el := SplitOn(line, "=");
    if |el| >= 2 {
      var variable := VariableOf(el[0]);
      AssignTargets(st, variable, Contains(line, "+="), el[1], FlagsOfLine(line, variable));
    }
  }

  lemma AssignTargets(st: Pass, variable: string, plus: bool, rhs: string, flagsText: string)
    ensures SameTargets(st.libs, Assign(st, variable, plus, rhs, flagsText).libs)
  {
    BranchesTargets(st, variable, plus, SplitWs(rhs), flagsText);
  }

  /** One line of the second pass keeps every target at its place. */
  lemma Pass2LineTargets(lines: seq<string>, i: nat, st: Pass)
    requires i < |lines|
    ensures Pass2Line(lines, i, st).Ok? ==> SameTargets(st.libs, Pass2Line(lines, i, st).value.libs)
  {
    var line := lines[i];
    if !StartsWith(line, "#") && IfLine(st.ifCondition, line).Ok? && '=' in line && ContinueFrom(lines, i, line).Ok? {
      var st1 := st.(ifCondition := IfLine(st.ifCondition, line).value);
      AssignmentTargets(st1, CleanAssignment(ContinueFrom(lines, i, line).value));
    }
  }

  /** The second pass adds no target, drops none, and renames or moves none: it only
      fills in the fields of the targets pass 1 found. */
  lemma {:induction false} Pass2Targets(lines: seq<string>, i: nat, st: Pass)
    requires i <= |lines|
    ensures Pass2(lines, i, st).Ok? ==> SameTargets(st.libs, Pass2(lines, i, st).value.libs)
    decreases |lines| - i
  {
    if i < |lines| {
      var r := Pass2Line(lines, i, st);
      if r.Ok? {
        Pass2LineTargets(lines, i, st);
        Pass2Targets(lines, i + 1, r.value);
        if Pass2(lines, i + 1, r.value).Ok? {
          SameTargetsTransitive(st.libs, r.value.libs, Pass2(lines, i + 1, r.value).value.libs);
        }
      }
    }
  }

  /** The character `k` places from the end of a text ending with `a`. */
  lemma SuffixChar(s: string, a: string, k: nat)
    requires EndsWith(s, a) && 0 < k <= |a|
    ensures s[|s| - k] == a[|a| - k]
  {
    assert s[|s| - k] == s[|s| - |a|..][|a| - k];
  }

  /** Two suffixes of one text agree `k` places from the end. */
  lemma SuffixesAgree(s: string, a: string, b: string, k: nat)
    requires EndsWith(s, a) && 0 < k <= |a| && k <= |b|
    ensures EndsWith(s, b) ==> a[|a| - k] == b[|b| - k]
  {
    SuffixChar(s, a, k);
    if EndsWith(s, b) {
      SuffixChar(s, b, k);
    }
  }

  /** `<name>_SOURCES` ends with `_SOURCES` only, of the five suffixes. */
  lemma SourcesSuffix(name: string)
    ensures var v := name + "_SOURCES";
            && EndsWith(v, "_SOURCES") && DropLast(v, 8) == name
            && !EndsWith(v, "_LDADD") && !EndsWith(v, "_CXXFLAGS") && !EndsWith(v, "_CPPFLAGS")
            && !EndsWith(v, "_CFLAGS") && !EndsWith(v, "_LDFLAGS")
  {
    var v := name + "_SOURCES";
    assert EndsWith(v, "_SOURCES");
    assert DropLast(v, 8) == name;
    SuffixesAgree(v, "_SOURCES", "_LDADD", 1);
    SuffixesAgree(v, "_SOURCES", "_CXXFLAGS", 2);
    SuffixesAgree(v, "_SOURCES", "_CPPFLAGS", 2);
    SuffixesAgree(v, "_SOURCES", "_CFLAGS", 2);
    SuffixesAgree(v, "_SOURCES", "_LDFLAGS", 2);
  }

  /** Of the four branches, only the first applies to a `_SOURCES` variable. */
  lemma OnlySources(st: Pass, variable: string, plus: bool, tokens: seq<string>, flagsText: string)
    requires EndsWith(variable, "_SOURCES")
    requires !EndsWith(variable, "_LDADD") && !EndsWith(variable, "_CXXFLAGS") && !EndsWith(variable, "_CPPFLAGS")
             && !EndsWith(variable, "_CFLAGS") && !EndsWith(variable, "_LDFLAGS")
    ensures Branches(st, variable, plus, tokens, flagsText)
            == Branch((st, false), true, DropLast(variable, 8), Sources, plus, tokens, "")
  {
  }

  /** A `<name>_SOURCES` line for a known target, under the condition `C`: the target's
      file list becomes the tokens after the first `=` (or is extended by them for `+=`),
      its condition gets `C` appended, and no other target changes. */
  lemma SourcesAssignment(st: Pass, line: string, name: string)
    requires |SplitOn(line, "=")| >= 2
    requires VariableOf(SplitOn(line, "=")[0]) == name + "_SOURCES"
    requires FindLibrary(st.libs, name) >= 0
    ensures var j := FindLibrary(st.libs, name);
            var r := AssignmentLine(st, line);
            var tokens := SplitWs(SplitOn(line, "=")[1]);
            && r.Ok? && |r.value.libs| == |st.libs|
            && r.value.libs[j].filelist == (if Contains(line, "+=") then st.libs[j].filelist + tokens else tokens)
            && r.value.libs[j].condition == st.libs[j].condition + st.ifCondition
            && r.value.inThisFile == st.inThisFile + [name]
            && forall i :: 0 <= i < |st.libs| && i != j ==> r.value.libs[i] == st.libs[i]
  {
    SourcesBranch(st, line, name);
  }

  /** A line `<name>_SOURCES += <files>` for a known target extends its file list by the
      tokens of `<files>`. */
  lemma SourcesPlusLine(st: Pass, name: string, files: string)
    requires name != [] && !IsSpace(name[0]) && '+' !in name && '=' !in name && '=' !in files
    requires FindLibrary(st.libs, name) >= 0
    ensures var j := FindLibrary(st.libs, name);
            var r := AssignmentLine(st, name + "_SOURCES" + " += " + files);
            && r.Ok? && |r.value.libs| == |st.libs|
            && r.value.libs[j].filelist == st.libs[j].filelist + SplitWs(" " + files)
            && r.value.libs[j].condition == st.libs[j].condition + st.ifCondition
            && r.value.inThisFile == st.inThisFile + [name]
            && forall i :: 0 <= i < |st.libs| && i != j ==> r.value.libs[i] == st.libs[i]
  {
    SourcesPlusShape(name, files);
    SourcesAssignment(st, name + "_SOURCES" + " += " + files, name);
  }

  /** The line `<name>_SOURCES += <files>` splits at its `=` into the variable
      `<name>_SOURCES`, marked as an append, and the text after it. */
  lemma SourcesPlusShape(name: string, files: string)
    requires name != [] && !IsSpace(name[0]) && '+' !in name && '=' !in name && '=' !in files
    ensures var line := name + "_SOURCES" + " += " + files;
            && |SplitOn(line, "=")| >= 2 && SplitOn(line, "=")[1] == " " + files
            && VariableOf(SplitOn(line, "=")[0]) == name + "_SOURCES" && Contains(line, "+=")
  {
    var v := name + "_SOURCES";
    SourcesName(name);
    PlusLineSplit(v, files);
    PlusLineVariable(v);
    PlusLineAppends(v, files);
  }

  /** `<name>_SOURCES` keeps the ends and the absent characters of `name`. */
  lemma SourcesName(name: string)
    requires name != [] && !IsSpace(name[0]) && '+' !in name && '=' !in name
    ensures var v := name + "_SOURCES";
            v[0] == name[0] && v[|v| - 1] == 'S' && '+' !in v && '=' !in v
  {
    var v := name + "_SOURCES";
    assert forall k :: |name| <= k < |v| ==> v[k] == "_SOURCES"[k - |name|];
  }

  /** The line `<v> += <rhs>` splits at its only `=`. */
  lemma PlusLineSplit(v: string, rhs: string)
    requires '=' !in v && '+' !in v && '=' !in rhs
    ensures SplitOn(v + " += " + rhs, "=") == [v + " +", " " + rhs]
  {
    assert v + " += " + rhs == (v + " +") + ['='] + (" " + rhs);
    assert '=' !in v + " +" by { assert forall k :: |v| <= k < |v| + 2 ==> (v + " +")[k] in " +"; }
    SplitOnChar(v + " +", '=', " " + rhs);
  }

  /** The part before the `=` of `<v> +=` names the variable `v`. */
  lemma PlusLineVariable(v: string)
    requires v != [] && !IsSpace(v[0]) && !IsSpace(v[|v| - 1]) && '+' !in v
    ensures VariableOf(v + " +") == v
  {
    assert v + " " + "+" + "" == v + " +" by {
      assert " " + "+" + "" == " +";
    }
    VariableOfName(v, " ", true, "");
  }

  /** The line `<v> += <rhs>` holds `+=`, so it appends. */
  lemma PlusLineAppends(v: string, rhs: string)
    ensures Contains(v + " += " + rhs, "+=")
  {
    var line := v + " += " + rhs;
    assert OccursAt(line, "+=", |v| + 1) by {
      assert line[|v| + 1] == '+' && line[|v| + 2] == '=';
      assert line[|v| + 1..|v| + 3] == "+=";
    }
    assert Find(line, "+=") >= 0;
  }

  /** A `_SOURCES` line for a known target is taken by that target in the first branch. */
  lemma SourcesBranch(st: Pass, line: string, name: string)
    requires |SplitOn(line, "=")| >= 2
    requires VariableOf(SplitOn(line, "=")[0]) == name + "_SOURCES"
    requires FindLibrary(st.libs, name) >= 0
    ensures AssignmentLine(st, line)
            == Ok(Attach(st, name, Sources, Contains(line, "+="), SplitWs(SplitOn(line, "=")[1]), "").0)
  {
    var variable := name + "_SOURCES";
    var el := SplitOn(line, "=");
    AssignSources(st, name, Contains(line, "+="), el[1], FlagsOfLine(line, variable));
  }

  lemma AssignSources(st: Pass, name: string, plus: bool, rhs: string, flagsText: string)
    requires FindLibrary(st.libs, name) >= 0
    ensures Assign(st, name + "_SOURCES", plus, rhs, flagsText)
            == Attach(st, name, Sources, plus, SplitWs(rhs), "").0
  {
    SourcesSuffix(name);
    OnlySources(st, name + "_SOURCES", plus, SplitWs(rhs), flagsText);
  }

  /** `<name>_LDADD` ends with `_LDADD` only, of the five suffixes. */
  lemma LinkAddSuffix(name: string)
    ensures var v := name + "_LDADD";
            && EndsWith(v, "_LDADD") && DropLast(v, 6) == name
            && !EndsWith(v, "_SOURCES") && !EndsWith(v, "_CXXFLAGS") && !EndsWith(v, "_CPPFLAGS")
            && !EndsWith(v, "_CFLAGS") && !EndsWith(v, "_LDFLAGS")
  {
    var v := name + "_LDADD";
    assert EndsWith(v, "_LDADD");
    assert DropLast(v, 6) == name;
    SuffixesAgree(v, "_LDADD", "_SOURCES", 1);
    SuffixesAgree(v, "_LDADD", "_CXXFLAGS", 1);
    SuffixesAgree(v, "_LDADD", "_CPPFLAGS", 1);
    SuffixesAgree(v, "_LDADD", "_CFLAGS", 1);
    SuffixesAgree(v, "_LDADD", "_LDFLAGS", 1);
  }

  /** `<name>_CFLAGS` ends with `_CFLAGS` only, of the five suffixes. */
  lemma CFlagsSuffix(name: string)
    ensures var v := name + "_CFLAGS";
            && EndsWith(v, "_CFLAGS") && DropLast(v, 7) == name
            && !EndsWith(v, "_SOURCES") && !EndsWith(v, "_LDADD") && !EndsWith(v, "_CXXFLAGS")
            && !EndsWith(v, "_CPPFLAGS") && !EndsWith(v, "_LDFLAGS")
  {
    var v := name + "_CFLAGS";
    assert EndsWith(v, "_CFLAGS");
    assert DropLast(v, 7) == name;
    SuffixesAgree(v, "_CFLAGS", "_SOURCES", 2);
    SuffixesAgree(v, "_CFLAGS", "_LDADD", 1);
    SuffixesAgree(v, "_CFLAGS", "_CXXFLAGS", 7);
    SuffixesAgree(v, "_CFLAGS", "_CPPFLAGS", 7);
    SuffixesAgree(v, "_CFLAGS", "_LDFLAGS", 6);
  }

  /** `<name>_CXXFLAGS` and `<name>_CPPFLAGS` end with their own suffix only, of the five,
      and not with `_CFLAGS`. */
  lemma CxxFlagsSuffix(name: string, suffix: string)
    requires suffix == "_CXXFLAGS" || suffix == "_CPPFLAGS"
    ensures var v := name + suffix;
            && EndsWith(v, suffix) && DropLast(v, 9) == name
            && !EndsWith(v, "_SOURCES") && !EndsWith(v, "_LDADD") && !EndsWith(v, "_CFLAGS")
            && !EndsWith(v, "_LDFLAGS")
  {
    var v := name + suffix;
    assert |suffix| == 9 && suffix[1] == 'C' && suffix[2] in "XP" && suffix[7] == 'G' && suffix[8] == 'S';
    assert EndsWith(v, suffix) && DropLast(v, 9) == name;
    SuffixesAgree(v, suffix, "_SOURCES", 2);
    SuffixesAgree(v, suffix, "_LDADD", 1);
    SuffixesAgree(v, suffix, "_CFLAGS", 7);
    SuffixesAgree(v, suffix, "_LDFLAGS", 7);
  }

  /** `<name>_LDFLAGS` ends with `_LDFLAGS` only, of the five suffixes. */
  lemma LinkFlagsSuffix(name: string)
    ensures var v := name + "_LDFLAGS";
            && EndsWith(v, "_LDFLAGS") && DropLast(v, 8) == name
            && !EndsWith(v, "_SOURCES") && !EndsWith(v, "_LDADD") && !EndsWith(v, "_CXXFLAGS")
            && !EndsWith(v, "_CPPFLAGS") && !EndsWith(v, "_CFLAGS")
  {
    var v := name + "_LDFLAGS";
    assert EndsWith(v, "_LDFLAGS");
    assert DropLast(v, 8) == name;
    SuffixesAgree(v, "_LDFLAGS", "_SOURCES", 2);
    SuffixesAgree(v, "_LDFLAGS", "_LDADD", 1);
    SuffixesAgree(v, "_LDFLAGS", "_CXXFLAGS", 7);
    SuffixesAgree(v, "_LDFLAGS", "_CPPFLAGS", 7);
    SuffixesAgree(v, "_LDFLAGS", "_CFLAGS", 6);
  }

  lemma AssignLinkAdd(st: Pass, name: string, plus: bool, rhs: string, flagsText: string)
    requires FindLibrary(st.libs, name) >= 0
    ensures Assign(st, name + "_LDADD", plus, rhs, flagsText)
            == Attach(st, name, LinkAdd, plus, SplitWs(rhs), "").0
  {
    LinkAddSuffix(name);
  }

  lemma AssignCompileFlags(st: Pass, name: string, suffix: string, plus: bool, rhs: string, flagsText: string)
    requires suffix == "_CFLAGS" || suffix == "_CXXFLAGS" || suffix == "_CPPFLAGS"
    requires FindLibrary(st.libs, name) >= 0
    ensures Assign(st, name + suffix, plus, rhs, flagsText)
            == Attach(st, name, CompileFlags, plus, [], flagsText).0
  {
    if suffix == "_CFLAGS" {
      CFlagsSuffix(name);
    } else {
      CxxFlagsSuffix(name, suffix);
    }
    AssignFlagsVariable(st, name + suffix, name, plus, rhs, flagsText);
  }

  /** A variable that ends with a compiler-flags suffix, and with none of the other
      suffixes, names the target its flags go to. */
  lemma AssignFlagsVariable(st: Pass, v: string, name: string, plus: bool, rhs: string, flagsText: string)
    requires FindLibrary(st.libs, name) >= 0
    requires EndsWith(v, "_CXXFLAGS") || EndsWith(v, "_CPPFLAGS") || EndsWith(v, "_CFLAGS")
    requires !EndsWith(v, "_SOURCES") && !EndsWith(v, "_LDADD") && !EndsWith(v, "_LDFLAGS")
    requires DropLast(v, if EndsWith(v, "_CFLAGS") then 7 else 9) == name
    ensures Assign(st, v, plus, rhs, flagsText) == Attach(st, name, CompileFlags, plus, [], flagsText).0
  {
  }

  lemma AssignLinkFlags(st: Pass, name: string, plus: bool, rhs: string, flagsText: string)
    requires FindLibrary(st.libs, name) >= 0
    ensures Assign(st, name + "_LDFLAGS", plus, rhs, flagsText)
            == Attach(st, name, LinkFlags, plus, SplitWs(rhs), "").0
  {
    LinkFlagsSuffix(name);
  }

  /** A `<name>_LDADD` line for a known target, under the condition `C`: the target's
      libraries to link become the tokens after the first `=` (or are extended by them for
      `+=`), its condition gets `C` appended, its other fields are kept, and no other
      target changes. */
  lemma LinkAddAssignment(st: Pass, line: string, name: string)
    requires |SplitOn(line, "=")| >= 2
    requires VariableOf(SplitOn(line, "=")[0]) == name + "_LDADD"
    requires FindLibrary(st.libs, name) >= 0
    ensures var j := FindLibrary(st.libs, name);
            var r := AssignmentLine(st, line);
            var tokens := SplitWs(SplitOn(line, "=")[1]);
            && r.Ok? && |r.value.libs| == |st.libs|
            && r.value.libs[j].linkWithLibs == (if Contains(line, "+=") then st.libs[j].linkWithLibs + tokens else tokens)
            && r.value.libs[j].filelist == st.libs[j].filelist
            && r.value.libs[j].compilerFlags == st.libs[j].compilerFlags
            && r.value.libs[j].linkerFlags == st.libs[j].linkerFlags
            && r.value.libs[j].condition == st.libs[j].condition + st.ifCondition
            && r.value.inThisFile == st.inThisFile + [name]
            && forall i :: 0 <= i < |st.libs| && i != j ==> r.value.libs[i] == st.libs[i]
  {
    LinkAddBranch(st, line, name);
    AttachField(st, name, LinkAdd, Contains(line, "+="), SplitWs(SplitOn(line, "=")[1]), "");
  }

  lemma LinkAddBranch(st: Pass, line: string, name: string)
    requires |SplitOn(line, "=")| >= 2
    requires VariableOf(SplitOn(line, "=")[0]) == name + "_LDADD"
    requires FindLibrary(st.libs, name) >= 0
    ensures AssignmentLine(st, line)
            == Ok(Attach(st, name, LinkAdd, Contains(line, "+="), SplitWs(SplitOn(line, "=")[1]), "").0)
  {
    var el := SplitOn(line, "=");
    AssignLinkAdd(st, name, Contains(line, "+="), el[1], FlagsOfLine(line, name + "_LDADD"));
  }

  /** A `<name>_CFLAGS`, `<name>_CXXFLAGS` or `<name>_CPPFLAGS` line for a known target,
      under the condition `C`: the target's compiler flags become the flags text of the
      line (or are extended by it for `+=`), its condition gets `C` appended, its other
      fields are kept, and no other target changes. */
  lemma CompileFlagsAssignment(st: Pass, line: string, name: string, suffix: string)
    requires suffix == "_CFLAGS" || suffix == "_CXXFLAGS" || suffix == "_CPPFLAGS"
    requires |SplitOn(line, "=")| >= 2
    requires VariableOf(SplitOn(line, "=")[0]) == name + suffix
    requires FindLibrary(st.libs, name) >= 0
    ensures var j := FindLibrary(st.libs, name);
            var r := AssignmentLine(st, line);
            var text := FlagsOfLine(line, name + suffix);
            && r.Ok? && |r.value.libs| == |st.libs|
            && r.value.libs[j].compilerFlags == (if Contains(line, "+=") then st.libs[j].compilerFlags + text else text)
            && r.value.libs[j].filelist == st.libs[j].filelist
            && r.value.libs[j].linkWithLibs == st.libs[j].linkWithLibs
            && r.value.libs[j].linkerFlags == st.libs[j].linkerFlags
            && r.value.libs[j].condition == st.libs[j].condition + st.ifCondition
            && r.value.inThisFile == st.inThisFile + [name]
            && forall i :: 0 <= i < |st.libs| && i != j ==> r.value.libs[i] == st.libs[i]
  {
    CompileFlagsBranch(st, line, name, suffix);
    AttachField(st, name, CompileFlags, Contains(line, "+="), [], FlagsOfLine(line, name + suffix));
  }

  lemma CompileFlagsBranch(st: Pass, line: string, name: string, suffix: string)
    requires suffix == "_CFLAGS" || suffix == "_CXXFLAGS" || suffix == "_CPPFLAGS"
    requires |SplitOn(line, "=")| >= 2
    requires VariableOf(SplitOn(line, "=")[0]) == name + suffix
    requires FindLibrary(st.libs, name) >= 0
    ensures AssignmentLine(st, line)
            == Ok(Attach(st, name, CompileFlags, Contains(line, "+="), [], FlagsOfLine(line, name + suffix)).0)
  {
    var el := SplitOn(line, "=");
    AssignCompileFlags(st, name, suffix, Contains(line, "+="), el[1], FlagsOfLine(line, name + suffix));
  }

  /** A `<name>_LDFLAGS` line for a known target, under the condition `C`: the target's
      linker flags become the tokens after the first `=` (or are extended by them for
      `+=`), its condition gets `C` appended, its other fields are kept, and no other
      target changes. */
  lemma LinkFlagsAssignment(st: Pass, line: string, name: string)
    requires |SplitOn(line, "=")| >= 2
    requires VariableOf(SplitOn(line, "=")[0]) == name + "_LDFLAGS"
    requires FindLibrary(st.libs, name) >= 0
    ensures var j := FindLibrary(st.libs, name);
            var r := AssignmentLine(st, line);
            var tokens := SplitWs(SplitOn(line, "=")[1]);
            && r.Ok? && |r.value.libs| == |st.libs|
            && r.value.libs[j].linkerFlags == (if Contains(line, "+=") then st.libs[j].linkerFlags + tokens else tokens)
            && r.value.libs[j].filelist == st.libs[j].filelist
            && r.value.libs[j].linkWithLibs == st.libs[j].linkWithLibs
            && r.value.libs[j].compilerFlags == st.libs[j].compilerFlags
            && r.value.libs[j].condition == st.libs[j].condition + st.ifCondition
            && r.value.inThisFile == st.inThisFile + [name]
            && forall i :: 0 <= i < |st.libs| && i != j ==> r.value.libs[i] == st.libs[i]
  {
    LinkFlagsBranch(st, line, name);
    AttachField(st, name, LinkFlags, Contains(line, "+="), SplitWs(SplitOn(line, "=")[1]), "");
  }

  lemma LinkFlagsBranch(st: Pass, line: string, name: string)
    requires |SplitOn(line, "=")| >= 2
    requires VariableOf(SplitOn(line, "=")[0]) == name + "_LDFLAGS"
    requires FindLibrary(st.libs, name) >= 0
    ensures AssignmentLine(st, line)
            == Ok(Attach(st, name, LinkFlags, Contains(line, "+="), SplitWs(SplitOn(line, "=")[1]), "").0)
  {
    var el := SplitOn(line, "=");
    AssignLinkFlags(st, name, Contains(line, "+="), el[1], FlagsOfLine(line, name + "_LDFLAGS"));
  }

  /** No suffix of `variable` names a known target. */
  predicate NamesNoTarget(libs: seq<Library>, variable: string) {
    && (EndsWith(variable, "_SOURCES") ==> FindLibrary(libs, DropLast(variable, 8)) < 0)
    && (EndsWith(variable, "_LDADD") ==> FindLibrary(libs, DropLast(variable, 6)) < 0)
    && (EndsWith(variable, "_CFLAGS") ==> FindLibrary(libs, DropLast(variable, 7)) < 0)
    && (EndsWith(variable, "_CXXFLAGS") || EndsWith(variable, "_CPPFLAGS") ==> FindLibrary(libs, DropLast(variable, 9)) < 0)
    && (EndsWith(variable, "_LDFLAGS") ==> FindLibrary(libs, DropLast(variable, 8)) < 0)
  }

  /** An assignment line whose variable names no known target through any suffix is left
      to the unused case: it may set the subdirectories and record a plain variable, and
      changes no target and records no name for this file. */
  lemma UnusedAssignment(st: Pass, line: string)
    requires |SplitOn(line, "=")| >= 2
    requires NamesNoTarget(st.libs, VariableOf(SplitOn(line, "=")[0]))
    ensures var el := SplitOn(line, "=");
            var r := AssignmentLine(st, line);
            && r == Ok(Unused(st, VariableOf(el[0]), el[1]))
            && r.value.libs == st.libs && r.value.inThisFile == st.inThisFile
  {
    var el := SplitOn(line, "=");
    AssignUnused(st, VariableOf(el[0]), Contains(line, "+="), el[1], FlagsOfLine(line, VariableOf(el[0])));
  }

  lemma AssignUnused(st: Pass, variable: string, plus: bool, rhs: string, flagsText: string)
    requires NamesNoTarget(st.libs, variable)
    ensures Assign(st, variable, plus, rhs, flagsText) == Unused(st, variable, rhs)
  {
  }

  /** The flags text of an assignment line that starts with its variable: the line without
      the variable and the first `=`, stripped, so whatever stands between the variable and
      the `=` is kept. */
  lemma FlagsOfAssignment(variable: string, gap: string, rest: string)
    requires '=' !in gap
    ensures FlagsOfLine(variable + gap + "=" + rest, variable) == Strip(gap + rest)
  {
    assert variable + gap + "=" + rest == variable + (gap + "=" + rest);
    ReplaceFirstPrefix(variable, gap + "=" + rest);
    ReplaceFirstCharAfter(gap, '=', rest);
  }

  /** A `+=` line keeps its `+` in the flags text: the compiler flags of
      `<variable> += <rest>` start with `+`. */
  lemma FlagsKeepPlus(variable: string, rest: string)
    ensures var r := FlagsOfLine(variable + " += " + rest, variable);
            r != [] && r[0] == '+'
  {
    PlusFlagsText(variable, rest);
    PlusStripped(" " + rest);
  }

  /** The flags text of `<variable> += <rest>` is ` + <rest>` stripped. */
  lemma PlusFlagsText(variable: string, rest: string)
    ensures FlagsOfLine(variable + " += " + rest, variable) == Strip(" +" + (" " + rest))
  {
    var a := variable + " += " + rest;
    var b := variable + " +" + "=" + (" " + rest);
    var n := |variable|;
    assert |a| == |b| == n + 4 + |rest|;
    forall k | 0 <= k < |a| ensures a[k] == b[k] {
      if k < n {
        assert a[k] == variable[k] == b[k];
      } else if k < n + 4 {
        assert a[k] == " += "[k - n];
        assert b[k] == " += "[k - n];
      } else {
        assert a[k] == rest[k - n - 4] == b[k];
      }
    }
    assert a == b;
    FlagsOfAssignment(variable, " +", " " + rest);
  }

  /** Stripping ` +<t>` leaves a text that starts with `+`. */
  lemma PlusStripped(t: string)
    ensures var r := Strip(" +" + t);
            r != [] && r[0] == '+'
  {
    var s := " +" + t;
    assert s[0] == ' ' && s[1] == '+';
    var l := DropWhile(s, IsSpace);
    assert |s| - |l| == 1 by {
      assert !IsSpace(s[1]) && IsSpace(s[0]);
    }
    assert l[0] == '+';
    var r := DropLastWhile(l, IsSpace);
    assert r != [] by {
      assert !IsSpace(l[0]);
    }
    assert Strip(s) == r;
  }

  // ------------------------------------------------------------------ $(var) step

  /** The first occurrences of the names, in order (the iteration over
      `set(libraries_in_this_file)`; the targets are distinct, so their order does not
      matter). */
  function Dedup(names: seq<string>): (r: seq<string>)
    ensures forall x :: x in r <==> x in names
    ensures forall i, j :: 0 <= i < j < |r| ==> r[i] != r[j]
  {
    if names == [] then []
    else
      var rest := Dedup(names[..|names| - 1]);
      var last := names[|names| - 1];
      assert names == names[..|names| - 1] + [last];
      if last in rest then rest else rest + [last]
  }

  /** The `zip` of a variable's cleaned conditions and its values from position `k` on,
      merged into the target's conditional groups: a new condition gets the value list, an
      existing one gets the value joined by spaces appended. */
  function AppendConditionals(ca: Dict<seq<string>>, conds: seq<string>, values: seq<seq<string>>, k: nat)
    : Dict<seq<string>>
    requires k <= |conds| && k <= |values|
    decreases |conds| - k
  {
    if k == |conds| || k == |values| then ca
    else AppendConditionals(AppendOne(ca, conds[k], values[k]), conds, values, k + 1)
  }

  /** Every condition with its garbage removed. */
  function CleanAll(conds: seq<string>): (r: seq<string>)
    ensures |r| == |conds| && forall i :: 0 <= i < |conds| ==> r[i] == RemoveGarbage(conds[i])
  {
    MapAll(RemoveGarbage, conds)
  }

  /** One pair of the `zip`: the group of condition `cn` starts as `value`, or gets `value`
      joined by spaces appended; every other group is kept as it was. */
  function AppendOne(ca: Dict<seq<string>>, cn: string, value: seq<string>): (r: Dict<seq<string>>)
    ensures cn in r.entries
    ensures cn !in ca.entries ==> r.entries[cn] == value
    ensures cn in ca.entries ==> r.entries[cn] == ca.entries[cn] + [Join(value, " ")]
    ensures forall c :: c in ca.entries && c != cn ==> c in r.entries && r.entries[c] == ca.entries[c]
    ensures forall c :: c in r.entries ==> c in ca.entries || c == cn
    ensures forall c :: c in ca.entries ==> c in r.entries && StartsWithStrings(r.entries[c], ca.entries[c])
    ensures ca.Valid() ==> r.Valid()
  {
    if cn in ca.entries then ca.Put(cn, ca.entries[cn] + [Join(value, " ")]) else ca.Put(cn, value)
  }

  /** Merging only extends the groups already there, keeps the dict proper, and leaves a
      group for the cleaned condition of every pair of the `zip`. */
  lemma {:induction false} AppendConditionalsGrows(ca: Dict<seq<string>>, conds: seq<string>, values: seq<seq<string>>, k: nat)
    requires k <= |conds| && k <= |values|
    ensures var r := AppendConditionals(ca, conds, values, k);
            && (forall c :: c in ca.entries ==> c in r.entries && StartsWithStrings(r.entries[c], ca.entries[c]))
            && (forall i :: k <= i < |conds| && i < |values| ==> conds[i] in r.entries)
            && (ca.Valid() ==> r.Valid())
    decreases |conds| - k
  {
    if k < |conds| && k < |values| {
      var next := AppendOne(ca, conds[k], values[k]);
      AppendConditionalsGrows(next, conds, values, k + 1);
      var r := AppendConditionals(next, conds, values, k + 1);
      forall c | c in ca.entries
        ensures c in r.entries && StartsWithStrings(r.entries[c], ca.entries[c])
      {
        StartsWithStringsTransitive(r.entries[c], next.entries[c], ca.entries[c]);
      }
      forall i | k <= i < |conds| && i < |values|
        ensures conds[i] in r.entries
      {
        if i == k {
          assert conds[k] in next.entries;
        }
      }
    }
  }

  lemma StartsWithStringsTransitive(a: seq<string>, b: seq<string>, c: seq<string>)
    requires StartsWithStrings(a, b) && StartsWithStrings(b, c)
    ensures StartsWithStrings(a, c)
  {
    assert a[..|c|] == a[..|b|][..|c|];
  }

  predicate StartsWithStrings(s: seq<string>, prefix: seq<string>) {
    |prefix| <= |s| && s[..|prefix|] == prefix
  }

  /** Whether some file of the target mentions `$(var)`. */
  predicate Mentions(files: seq<string>, vname: string) {
    exists i :: 0 <= i < |files| && Contains(files[i], "$(" + vname + ")")
  }

  /** The `$(var)` step for one target and one variable: when a file mentions the
      variable, its conditions and values become conditional groups; otherwise (or when it
      has no values) the variable's values are kept as a plain variable of the target. */
  function ResolveInLibrary(lib: Library, vname: string, vd: VarDef): (r: Library)
    ensures r.filelist == lib.filelist && r.canonicName == lib.canonicName && r.condition == lib.condition
    ensures r.directory == lib.directory
    ensures Mentions(lib.filelist, vname) && |vd.conditions| > 0 && |vd.values| > 0 ==>
              r == lib.(conditionalAppends := AppendConditionals(lib.conditionalAppends, CleanAll(vd.conditions), vd.values, 0))
    ensures !(Mentions(lib.filelist, vname) && |vd.conditions| > 0 && |vd.values| > 0) ==>
              r == lib.(justVariables := lib.justVariables.Put(vname, vd.values))
  {
    if Mentions(lib.filelist, vname) && |vd.conditions| > 0 && |vd.values| > 0 then
      lib.(conditionalAppends := AppendConditionals(lib.conditionalAppends, CleanAll(vd.conditions), vd.values, 0))
    else lib.(justVariables := lib.justVariables.Put(vname, vd.values))
  }

  /** The step for one variable over the names from position `k` on. */
  function ResolveNames(libs: seq<Library>, vname: string, vd: VarDef, names: seq<string>, k: nat): (r: seq<Library>)
    requires k <= |names|
    ensures SameTargets(libs, r)
    decreases |names| - k
  {
    if k == |names| then libs
    else
      var j := FindLibrary(libs, names[k]);
      var next := if j < 0 then libs else libs[j := ResolveInLibrary(libs[j], vname, vd)];
      ResolveNames(next, vname, vd, names, k + 1)
  }

  /** The step over the variables from position `k` on, in insertion order. */
  function ResolveVariables(libs: seq<Library>, vars: Dict<VarDef>, names: seq<string>, k: nat): (r: seq<Library>)
    requires k <= |vars.keys| && vars.Valid()
    ensures SameTargets(libs, r)
    decreases |vars.keys| - k
  {
    if k == |vars.keys| then libs
    else ResolveVariables(ResolveNames(libs, vars.keys[k], vars.entries[vars.keys[k]], names, 0), vars, names, k + 1)
  }

  /** A target not named in this file is left alone by the `$(var)` step. */
  lemma {:induction false} ResolveNamesOthers(libs: seq<Library>, vname: string, vd: VarDef, names: seq<string>, k: nat, i: nat)
    requires k <= |names| && i < |libs|
    requires forall n :: n in names[k..] ==> FindLibrary(libs, n) != i
    ensures ResolveNames(libs, vname, vd, names, k)[i] == libs[i]
    decreases |names| - k
  {
    if k < |names| {
      var j := FindLibrary(libs, names[k]);
      assert names[k] in names[k..];
      var next := if j < 0 then libs else libs[j := ResolveInLibrary(libs[j], vname, vd)];
      if j >= 0 {
        forall n | n in names[k + 1..] ensures FindLibrary(next, n) != i {
          assert n in names[k..];
          FindLibraryUpdate(libs, j, ResolveInLibrary(libs[j], vname, vd), n);
        }
      }
      assert names[k + 1..] == names[k..][1..];
      ResolveNamesOthers(next, vname, vd, names, k + 1, i);
    }
  }

  /** A lookup gives the same index in targets that keep their canonical names. */
  lemma FindLibrarySame(a: seq<Library>, b: seq<Library>, n: string)
    requires SameTargets(a, b)
    ensures FindLibrary(b, n) == FindLibrary(a, n)
  {
    var x := FindLibrary(a, n);
    var y := FindLibrary(b, n);
    if x >= 0 {
      assert b[x].canonicName == n;
    }
    if y >= 0 {
      assert a[y].canonicName == n;
    }
  }

  /** The `$(var)` step for one variable over distinct names: the target a name of the
      file finds is replaced by the step for that target and variable, applied once. */
  lemma {:induction false} ResolveNamesNamed(libs: seq<Library>, vname: string, vd: VarDef,
                                             names: seq<string>, k: nat, n: string)
    requires k <= |names|
    requires forall a, b :: k <= a < b < |names| ==> names[a] != names[b]
    requires n in names[k..] && FindLibrary(libs, n) >= 0
    ensures var j := FindLibrary(libs, n);
            ResolveNames(libs, vname, vd, names, k)[j] == ResolveInLibrary(libs[j], vname, vd)
    decreases |names| - k
  {
    var j := FindLibrary(libs, n);
    var i := FindLibrary(libs, names[k]);
    var next := if i < 0 then libs else libs[i := ResolveInLibrary(libs[i], vname, vd)];
    assert names[k + 1..] == names[k..][1..];
    if names[k] == n {
      forall m | m in names[k + 1..] ensures FindLibrary(next, m) != j {
        var a :| k + 1 <= a < |names| && names[a] == m;
        FindLibraryUpdate(libs, j, ResolveInLibrary(libs[j], vname, vd), m);
      }
      ResolveNamesOthers(next, vname, vd, names, k + 1, j);
    } else {
      assert n in names[k + 1..];
      if i >= 0 {
        FindLibraryUpdate(libs, i, ResolveInLibrary(libs[i], vname, vd), n);
      }
      ResolveNamesNamed(next, vname, vd, names, k + 1, n);
    }
  }

  /** The step for the variables from position `k` on applied to one target, in the
      insertion order of the variables. */
  function ResolveAll(lib: Library, vars: Dict<VarDef>, k: nat): (r: Library)
    requires k <= |vars.keys| && vars.Valid()
    ensures r.filelist == lib.filelist && r.canonicName == lib.canonicName && r.directory == lib.directory
    decreases |vars.keys| - k
  {
    if k == |vars.keys| then lib
    else ResolveAll(ResolveInLibrary(lib, vars.keys[k], vars.entries[vars.keys[k]]), vars, k + 1)
  }

  /** The whole `$(var)` step on a target that a name `n` of this file finds: the target
      gets the step for every variable, in insertion order. */
  lemma {:induction false} ResolveVariablesNamed(libs: seq<Library>, vars: Dict<VarDef>, names: seq<string>,
                                                 k: nat, n: string)
    requires k <= |vars.keys| && vars.Valid()
    requires forall a, b :: 0 <= a < b < |names| ==> names[a] != names[b]
    requires n in names && FindLibrary(libs, n) >= 0
    ensures var i := FindLibrary(libs, n);
            ResolveVariables(libs, vars, names, k)[i] == ResolveAll(libs[i], vars, k)
    decreases |vars.keys| - k
  {
    if k < |vars.keys| {
      var vname := vars.keys[k];
      var next := ResolveNames(libs, vname, vars.entries[vname], names, 0);
      assert names[0..] == names;
      ResolveNamesNamed(libs, vname, vars.entries[vname], names, 0, n);
      FindLibrarySame(libs, next, n);
      ResolveVariablesNamed(next, vars, names, k + 1, n);
    }
  }

  /** The whole `$(var)` step leaves alone a target that no name of this file finds. */
  lemma {:induction false} ResolveVariablesOthers(libs: seq<Library>, vars: Dict<VarDef>, names: seq<string>,
                                                  k: nat, i: nat)
    requires k <= |vars.keys| && vars.Valid() && i < |libs|
    requires forall n :: n in names ==> FindLibrary(libs, n) != i
    ensures ResolveVariables(libs, vars, names, k)[i] == libs[i]
    decreases |vars.keys| - k
  {
    if k < |vars.keys| {
      var vname := vars.keys[k];
      var next := ResolveNames(libs, vname, vars.entries[vname], names, 0);
      assert names[0..] == names;
      ResolveNamesOthers(libs, vname, vars.entries[vname], names, 0, i);
      forall n | n in names ensures FindLibrary(next, n) != i {
        FindLibrarySame(libs, next, n);
      }
      ResolveVariablesOthers(next, vars, names, k + 1, i);
    }
  }

  // -------------------------------------------------------------------- SUBDIRS

  /** The `add_subdirectory` lines of the subdirectories that are not excluded, in order. */
  function SubdirLines(dir: string, subs: seq<string>, excludes: seq<string>): string {
    if subs == [] then ""
    else if ShouldExclude(dir + "/" + subs[0], excludes) then SubdirLines(dir, subs[1..], excludes)
    else "\nadd_subdirectory( " + subs[0] + " )" + SubdirLines(dir, subs[1..], excludes)
  }

  /** The paths of the subdirectories that are not excluded, in order. */
  function SubdirPaths(dir: string, subs: seq<string>, excludes: seq<string>): seq<string> {
    if subs == [] then []
    else if ShouldExclude(dir + "/" + subs[0], excludes) then SubdirPaths(dir, subs[1..], excludes)
    else [dir + "/" + subs[0]] + SubdirPaths(dir, subs[1..], excludes)
  }

  /** The loop over the subdirectories from position `k` on: each one not excluded adds
      its `add_subdirectory` line to the extra text and its path to the required
      directories, in order. */
  function Subdirs(dir: string, subs: seq<string>, k: nat, excludes: seq<string>, extra: string, req: seq<string>)
    : (r: (string, seq<string>))
    requires k <= |subs|
    ensures r == (extra + SubdirLines(dir, subs[k..], excludes), req + SubdirPaths(dir, subs[k..], excludes))
    decreases |subs| - k
  {
    if k == |subs| then
      assert subs[k..] == [];
      assert extra + SubdirLines(dir, [], excludes) == extra;
      assert req + SubdirPaths(dir, [], excludes) == req;
      (extra, req)
    else
      var path := dir + "/" + subs[k];
      assert subs[k..][1..] == subs[k + 1..];
      var line := "\nadd_subdirectory( " + subs[k] + " )";
      if !ShouldExclude(path, excludes) then
        assert SubdirLines(dir, subs[k..], excludes) == line + SubdirLines(dir, subs[k + 1..], excludes);
        assert SubdirPaths(dir, subs[k..], excludes) == [path] + SubdirPaths(dir, subs[k + 1..], excludes);
        assert extra + line + SubdirLines(dir, subs[k + 1..], excludes) == extra + (line + SubdirLines(dir, subs[k + 1..], excludes));
        assert req + [path] + SubdirPaths(dir, subs[k + 1..], excludes) == req + ([path] + SubdirPaths(dir, subs[k + 1..], excludes));
        Subdirs(dir, subs, k + 1, excludes, extra + line, req + [path])
      else Subdirs(dir, subs, k + 1, excludes, extra, req)
  }

  /** A subdirectory is required exactly when it is listed and not excluded. */
  lemma {:induction false} SubdirPathsExact(dir: string, subs: seq<string>, excludes: seq<string>, s: string)
    ensures dir + "/" + s in SubdirPaths(dir, subs, excludes) <==> s in subs && !ShouldExclude(dir + "/" + s, excludes)
  {
    if subs != [] {
      SubdirPathsExact(dir, subs[1..], excludes, s);
      PathInjective(dir, subs[0], s);
      assert s in subs <==> s == subs[0] || s in subs[1..];
      var rest := SubdirPaths(dir, subs[1..], excludes);
      if !ShouldExclude(dir + "/" + subs[0], excludes) {
        assert SubdirPaths(dir, subs, excludes) == [dir + "/" + subs[0]] + rest;
      } else {
        assert SubdirPaths(dir, subs, excludes) == rest;
      }
    }
  }

  /** Two paths in one directory are equal only for equal names. */
  lemma PathInjective(dir: string, a: string, b: string)
    ensures dir + "/" + a == dir + "/" + b ==> a == b
  {
    if dir + "/" + a == dir + "/" + b {
      assert (dir + "/" + a)[|dir| + 1..] == a;
      assert (dir + "/" + b)[|dir| + 1..] == b;
    }
  }

  /** `SUBDIRS = sub`: one `add_subdirectory( sub )` line, and `dir/sub` required. */
  lemma SubdirsSingle(dir: string, sub: string, excludes: seq<string>, req: seq<string>)
    requires !ShouldExclude(dir + "/" + sub, excludes)
    ensures Subdirs(dir, [sub], 0, excludes, "", req) == ("\nadd_subdirectory( " + sub + " )", req + [dir + "/" + sub])
  {
    assert [sub][0..] == [sub] && [sub][1..] == [];
    var line := "\nadd_subdirectory( " + sub + " )";
    assert SubdirLines(dir, [sub], excludes) == line + SubdirLines(dir, [], excludes) == line + "";
    assert SubdirPaths(dir, [sub], excludes) == [dir + "/" + sub] + SubdirPaths(dir, [], excludes);
    assert "" + (line + "") == line;
  }

  // ----------------------------------------------------------------- whole file

  /** Pass 1 and pass 2 over the stripped lines of an existing Makefile.am; pass 2 starts
      with no condition, no subdirectories and no variables. */
  function BothPasses(m: Model, env: Env, file: string): (r: Result<Pass>)
    ensures r.Ok? ==> r.value.vars.Valid()
  {
    var dir := Dirname(file);
    var lines := StripAll(env.tree.Lines(file));
    var start := Pass(Discover(m.libraries, lines, 0, dir, env.excludes), "", "", Empty(), []);
    Pass2Lockstep(lines, 0, start);
    Pass2(lines, 0, start)
  }

  /** What follows the passes: the `$(var)` step over the distinct target names of this
      file, then the `SUBDIRS` bookkeeping when the file set `SUBDIRS`; the extra content
      of the directory becomes its `add_subdirectory` lines, and the subdirectories not
      excluded become required. */
  function Finish(m: Model, p: Pass, dir: string, excludes: seq<string>): (r: Model)
    requires p.vars.Valid() && m.extraContent.Valid()
    ensures r.extraContent.Valid()
    ensures && r.options == m.options && r.defines == m.defines
            && r.configVariables == m.configVariables && r.cmakeFiles == m.cmakeFiles
    ensures r.libraries == ResolveFile(p.libs, p.vars, p.inThisFile)
    ensures SameTargets(p.libs, r.libraries)
    ensures p.dirsToGoIn != [] ==>
              && r.extraContent == m.extraContent.Put(dir, SubdirLines(dir, SplitWs(p.dirsToGoIn), excludes))
              && r.requiredDirectories == m.requiredDirectories + SubdirPaths(dir, SplitWs(p.dirsToGoIn), excludes)
    ensures p.dirsToGoIn == [] ==> r.extraContent == m.extraContent && r.requiredDirectories == m.requiredDirectories
  {
    var resolved := ResolveFile(p.libs, p.vars, p.inThisFile);
    if p.dirsToGoIn != [] then
      var subs := SplitWs(p.dirsToGoIn);
      var extra := SubdirLines(dir, subs, excludes);
      var sd := Subdirs(dir, subs, 0, excludes, "", m.requiredDirectories);
      assert subs[0..] == subs;
      assert sd.0 == "" + extra == extra;
      m.(libraries := resolved, extraContent := m.extraContent.Put(dir, sd.0), requiredDirectories := sd.1)
    else m.(libraries := resolved)
  }

  /** The `$(var)` step of one file, when it defined any variable, over the distinct
      target names it assigned to. */
  function ResolveFile(libs: seq<Library>, vars: Dict<VarDef>, inThisFile: seq<string>): (r: seq<Library>)
    requires vars.Valid()
    ensures SameTargets(libs, r)
  {
    if vars.keys != [] then ResolveVariables(libs, vars, Dedup(inThisFile), 0) else libs
  }

  /** After the passes, a target named in this file gets the `$(var)` step for every
      variable the file defined, in insertion order; every other target is left as the
      passes made it. */
  lemma ResolveFileTargets(libs: seq<Library>, vars: Dict<VarDef>, inThisFile: seq<string>, i: nat)
    requires vars.Valid() && i < |libs|
    ensures var r := ResolveFile(libs, vars, inThisFile);
            && ((exists n :: n in inThisFile && FindLibrary(libs, n) == i) ==> r[i] == ResolveAll(libs[i], vars, 0))
            && ((forall n :: n in inThisFile ==> FindLibrary(libs, n) != i) ==> r[i] == libs[i])
  {
    var names := Dedup(inThisFile);
    if vars.keys != [] {
      if exists n :: n in inThisFile && FindLibrary(libs, n) == i {
        var n :| n in inThisFile && FindLibrary(libs, n) == i;
        ResolveVariablesNamed(libs, vars, names, 0, n);
      } else {
        ResolveVariablesOthers(libs, vars, names, 0, i);
      }
    }
  }

  /** The whole of `process_makefile_am` on the model: a missing file or an excluded
      directory changes nothing; an `IndexError` of pass 2 ends the run; otherwise the two
      passes and then `Finish`. */
  function ProcessMakefileAm(m: Model, env: Env, file: string): (r: Result<Model>)
    requires m.extraContent.Valid()
    ensures r.Ok? ==> r.value.extraContent.Valid()
    ensures r.Ok? ==> && r.value.options == m.options && r.value.defines == m.defines
                      && r.value.configVariables == m.configVariables && r.value.cmakeFiles == m.cmakeFiles
    ensures !env.tree.IsFile(file) ==> r == Ok(m)
  {
    if !env.tree.IsFile(file) then Ok(m)
    else
      var dir := Dirname(file);
      if ShouldExclude(dir, env.excludes) then Ok(m)
      else
        match BothPasses(m, env, file)
        case IndexError => IndexError
        case Ok(p) => Ok(Finish(m, p, dir, env.excludes))
  }

  /** The effect of an existing Makefile.am in a directory that is not excluded: the run
      fails exactly when the passes fail, and otherwise the new state is `Finish` of the
      passes, so a file that sets `SUBDIRS` gives its directory the `add_subdirectory` lines
      of the subdirectories not excluded, and makes those required. An excluded directory
      changes nothing. */
  lemma ProcessMakefileAmEffect(m: Model, env: Env, file: string)
    requires m.extraContent.Valid() && env.tree.IsFile(file)
    ensures ShouldExclude(Dirname(file), env.excludes) ==> ProcessMakefileAm(m, env, file) == Ok(m)
    ensures !ShouldExclude(Dirname(file), env.excludes) ==>
              && (ProcessMakefileAm(m, env, file).IndexError? <==> BothPasses(m, env, file).IndexError?)
              && (BothPasses(m, env, file).Ok? ==>
                    ProcessMakefileAm(m, env, file) == Ok(Finish(m, BothPasses(m, env, file).value, Dirname(file), env.excludes)))
  {
  }

  /** `process_makefile_am` keeps every target already known at its place, with its
      canonical name and directory, and never gives two targets one canonical name. */
  lemma ProcessMakefileAmTargets(m: Model, env: Env, file: string)
    requires m.extraContent.Valid() && DistinctCanonic(m.libraries)
    ensures ProcessMakefileAm(m, env, file).Ok? ==>
              && DistinctCanonic(ProcessMakefileAm(m, env, file).value.libraries)
              && KeepsTargets(m.libraries, ProcessMakefileAm(m, env, file).value.libraries)
  {
    var dir := Dirname(file);
    if env.tree.IsFile(file) && !ShouldExclude(dir, env.excludes) && BothPasses(m, env, file).Ok? {
      var lines := StripAll(env.tree.Lines(file));
      var libs := Discover(m.libraries, lines, 0, dir, env.excludes);
      var start := Pass(libs, "", "", Empty(), []);
      DiscoverDedup(m.libraries, lines, 0, dir, env.excludes);
      assert KeepsTargets(m.libraries, libs);
      Pass2Targets(lines, 0, start);
      var p := BothPasses(m, env, file).value;
      var r := Finish(m, p, dir, env.excludes);
      SameTargetsTransitive(libs, p.libs, r.libraries);
      SameTargetsDistinct(libs, r.libraries);
      KeepsThenSame(m.libraries, libs, r.libraries);
    } else {
      assert m.libraries[..|m.libraries|] == m.libraries;
    }
  }

  /** Every line stripped, as each read of the file strips it. */
  function StripAll(ls: seq<string>): (r: seq<string>)
    ensures |r| == |ls| && forall i :: 0 <= i < |ls| ==> r[i] == Strip(ls[i])
  {
    MapAll(Strip, ls)
  }
}
