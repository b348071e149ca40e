/** The converter's small lexical helpers (auto2cmake.py, "Helper functions"):
    parenthesis balance, quote escaping, exclusion by directory prefix,
    garbage-character removal, name canonicalisation, recognition of the four
    configure.ac macro heads and reduction of a link reference to a bare
    library name. */
module Lexical {
  import opened Strings

  /** `count_parentheses`: scans the line, adding one for each `(` and removing one for
      each `)`. */
  function CountParentheses(line: string): int
  {
    if line == [] then 0
    else (if line[0] == '(' then 1 else if line[0] == ')' then -1 else 0) + CountParentheses(line[1..])
  }

  /** The scan computes the number of `(` minus the number of `)`. */
  lemma {:induction false} CountParenthesesCounts(line: string)
    ensures CountParentheses(line) == multiset(line)['('] as int - multiset(line)[')'] as int
  {
    if line != [] {
      CountParenthesesCounts(line[1..]);
      assert line == [line[0]] + line[1..];
      assert multiset(line) == multiset([line[0]]) + multiset(line[1..]);
    }
  }

  /** The balance of a concatenation is the sum of the balances. */
  lemma {:induction false} CountParenthesesAdditive(a: string, b: string)
    ensures CountParentheses(a + b) == CountParentheses(a) + CountParentheses(b)
  {
    if a != [] {
      assert (a + b)[1..] == a[1..] + b;
      CountParenthesesAdditive(a[1..], b);
    } else {
      assert a + b == b;
    }
  }

  /** `replace_quotes`: every `"` becomes `\"`. */
  function ReplaceQuotes(a: string): string
  {
    if a == [] then []
    else (if a[0] == '"' then "\\\"" else [a[0]]) + ReplaceQuotes(a[1..])
  }

  /** Escaping adds one character per quote. */
  lemma {:induction false} ReplaceQuotesLength(a: string)
    ensures |ReplaceQuotes(a)| == |a| + multiset(a)['"']
  {
    if a != [] {
      ReplaceQuotesLength(a[1..]);
      assert a == [a[0]] + a[1..];
      assert multiset(a) == multiset([a[0]]) + multiset(a[1..]);
    }
  }

  /** Every quote of the result is preceded by a backslash. */
  lemma {:induction false} ReplaceQuotesEscaped(a: string)
    ensures forall i :: 0 <= i < |ReplaceQuotes(a)| && ReplaceQuotes(a)[i] == '"' ==>
                          i > 0 && ReplaceQuotes(a)[i - 1] == '\\'
  {
    if a != [] {
      ReplaceQuotesEscaped(a[1..]);
      var rest := ReplaceQuotes(a[1..]);
      var head := if a[0] == '"' then "\\\"" else [a[0]];
      var r := head + rest;
      assert ReplaceQuotes(a) == r;
      forall i | 0 <= i < |r|
        ensures r[i] == '"' ==> i > 0 && r[i - 1] == '\\'
      {
        if i >= |head| {
          assert r[i] == rest[i - |head|];
          if i > |head| {
            assert r[i - 1] == rest[i - 1 - |head|];
          }
        } else if a[0] == '"' {
          assert r[i] == head[i] && head[0] == '\\' && head[1] == '"';
          if i > 0 {
            assert r[i - 1] == head[i - 1];
          }
        } else {
          assert r[i] == a[0];
        }
      }
    }
  }

  /** Escaping brings in no character but the backslash. */
  lemma {:induction false} ReplaceQuotesChars(a: string, c: char)
    requires c != '\\' && c !in a
    ensures c !in ReplaceQuotes(a)
  {
    if a != [] {
      ReplaceQuotesChars(a[1..], c);
    }
  }

  /** Reads `\"` back as `"`, scanning left to right. */
  function Unescape(r: string): string
  {
    if |r| >= 2 && r[0] == '\\' && r[1] == '"' then "\"" + Unescape(r[2..])
    else if r == [] then []
    else [r[0]] + Unescape(r[1..])
  }

  /** Escaping loses nothing: unescaping the result gives the original text back. */
  lemma {:induction false} ReplaceQuotesRoundTrip(a: string)
    ensures Unescape(ReplaceQuotes(a)) == a
  {
    if a != [] {
      ReplaceQuotesRoundTrip(a[1..]);
      var rest := ReplaceQuotes(a[1..]);
      if a[0] == '"' {
        assert ReplaceQuotes(a) == "\\\"" + rest;
        assert ("\\\"" + rest)[2..] == rest;
      } else {
        assert ReplaceQuotes(a) == [a[0]] + rest;
        assert ([a[0]] + rest)[1..] == rest;
      }
    }
  }

  /** `should_exclude`: some exclusion entry is a prefix of the directory. */
  function ShouldExclude(dir: string, excludes: seq<string>): (b: bool)
    ensures b <==> exists i :: 0 <= i < |excludes| && StartsWith(dir, excludes[i])
  {
    if excludes == [] then false
    else
      assert forall i :: 1 <= i < |excludes| ==> excludes[1..][i - 1] == excludes[i];
      StartsWith(dir, excludes[0]) || ShouldExclude(dir, excludes[1..])
  }

  /** An empty entry in the exclusion list excludes every directory. */
  lemma EmptyPrefixExcludesAll(dir: string, excludes: seq<string>)
    requires "" in excludes
    ensures ShouldExclude(dir, excludes)
  {
    var i :| 0 <= i < |excludes| && excludes[i] == "";
    assert StartsWith(dir, excludes[i]);
  }

  /** The characters `remove_garbage` deletes. */
  predicate IsGarbage(c: char) {
    c == '[' || c == ']' || c == ',' || c == '$' || c == '(' || c == ')'
  }

  /** The six `replace(c, '')` calls of `remove_garbage`, which together keep exactly
      the characters that are not garbage. */
  function DropGarbage(v: string): string
  {
    if v == [] then [] else (if IsGarbage(v[0]) then [] else [v[0]]) + DropGarbage(v[1..])
  }

  /** Exactly the characters of the input that are not garbage remain. */
  lemma {:induction false} DropGarbageChars(v: string)
    ensures forall c :: c in DropGarbage(v) ==> !IsGarbage(c) && c in v
    ensures forall c :: c in v && !IsGarbage(c) ==> c in DropGarbage(v)
  {
    if v != [] {
      DropGarbageChars(v[1..]);
      assert v == [v[0]] + v[1..];
    }
  }

  /** Garbage is removed from each part of a concatenation on its own. */
  lemma {:induction false} DropGarbageAppend(a: string, b: string)
    ensures DropGarbage(a + b) == DropGarbage(a) + DropGarbage(b)
    decreases |a|
  {
    if a != [] {
      assert (a + b)[0] == a[0] && (a + b)[1..] == a[1..] + b;
      DropGarbageAppend(a[1..], b);
    } else {
      assert a + b == b;
    }
  }

  /** `remove_garbage`: deletes `] , [ $ ( )` and strips the result. */
  function RemoveGarbage(v: string): string
  {
    Strip(DropGarbage(v))
  }

  /** The result holds no garbage character and only characters of the input, and has no
      whitespace at either end. */
  lemma RemoveGarbageClean(v: string)
    ensures var r := RemoveGarbage(v);
            && (forall c :: c in r ==> !IsGarbage(c) && c in v)
            && (r == [] || (!IsSpace(r[0]) && !IsSpace(r[|r| - 1])))
  {
    DropGarbageChars(v);
    StripChars(DropGarbage(v));
  }

  lemma DropGarbageAbsent(v: string)
    requires forall c :: c in v ==> !IsGarbage(c)
    ensures DropGarbage(v) == v
  {
    if v != [] {
      assert v[0] in v;
      DropGarbageAbsent(v[1..]);
    }
  }

  /** Removing garbage twice is the same as removing it once. */
  lemma RemoveGarbageIdempotent(v: string)
    ensures RemoveGarbage(RemoveGarbage(v)) == RemoveGarbage(v)
  {
    var r := RemoveGarbage(v);
    RemoveGarbageClean(v);
    DropGarbageAbsent(r);
    StripOfTrimmed(r);
  }

  /** The characters `canonicalize` keeps as they are. */
  predicate IsCanonicalChar(c: char) {
    IsDigit(c) || IsAlpha(c) || c == '_'
  }

  /** `canonicalize`: every character that is not a letter, a digit or `_` becomes `_`
      (the strudel `@` included). */
  function Canonicalize(a: string): (r: string)
    ensures |r| == |a|
    ensures forall i :: 0 <= i < |r| ==> IsCanonicalChar(r[i])
    ensures forall i :: 0 <= i < |a| && IsCanonicalChar(a[i]) ==> r[i] == a[i]
    ensures forall i :: 0 <= i < |a| && !IsCanonicalChar(a[i]) ==> r[i] == '_'
  {
    if a == [] then []
    else [if IsCanonicalChar(a[0]) then a[0] else '_'] + Canonicalize(a[1..])
  }

  /** A canonical name is its own canonical form. */
  lemma CanonicalizeIdempotent(a: string)
    ensures Canonicalize(Canonicalize(a)) == Canonicalize(a)
  {
    var r := Canonicalize(a);
    assert forall i :: 0 <= i < |r| ==> Canonicalize(r)[i] == r[i];
  }

  /** The strudel is not kept, whatever the comment above `canonicalize` says. */
  lemma CanonicalizeStrudel()
    ensures Canonicalize("a@b") == "a_b"
  {
    assert Canonicalize("a@b")[1] == '_';
  }

  /** `processable_line`: the name of the macro the line starts with, trying
      `AC_ARG_ENABLE(`, `AM_CONDITIONAL(`, `AC_DEFINE(` and `AC_CONFIG_FILES(`; "" when none. */
  function ProcessableLine(line: string): (r: string)
    ensures r in ["", "AC_ARG_ENABLE", "AM_CONDITIONAL", "AC_DEFINE", "AC_CONFIG_FILES"]
    ensures r != "" ==> StartsWith(line, r + "(")
    ensures r == "" <==> !StartsWith(line, "AC_ARG_ENABLE(") && !StartsWith(line, "AM_CONDITIONAL(")
                         && !StartsWith(line, "AC_DEFINE(") && !StartsWith(line, "AC_CONFIG_FILES(")
  {
    if StartsWith(line, "AC_ARG_ENABLE(") then "AC_ARG_ENABLE"
    else if StartsWith(line, "AM_CONDITIONAL(") then "AM_CONDITIONAL"
    else if StartsWith(line, "AC_DEFINE(") then "AC_DEFINE"
    else if StartsWith(line, "AC_CONFIG_FILES(") then "AC_CONFIG_FILES"
    else ""
  }

  /** The last `/`-separated component of a path: the text after its last `/`, or the
      whole text when it has no `/`. */
  function LastComponent(name: string): (r: string)
    ensures '/' !in r && forall c :: c in r ==> c in name
    ensures EndsWith(name, r)
    ensures |r| < |name| ==> name[|name| - |r| - 1] == '/'
  {
    var fullp := SplitOn(name, "/");
    var last := if |fullp| > 1 then fullp[|fullp| - 1] else Concat(fullp);
    assert |fullp| == 1 ==> Concat(fullp) == fullp[0];
    NoCharFromNotContains(last, '/');
    SubstringChars(name, last, fullp);
    LastPieceSuffix(name, fullp);
    last
  }

  /** The last of several pieces of a split on `/` follows a `/` at the end of the text. */
  lemma LastPieceSuffix(name: string, fullp: seq<string>)
    requires |fullp| >= 1 && Join(fullp, "/") == name
    ensures var last := fullp[|fullp| - 1];
            && EndsWith(name, last) && (|fullp| > 1 ==> |last| < |name| && name[|name| - |last| - 1] == '/')
  {
    var last := fullp[|fullp| - 1];
    if |fullp| > 1 {
      JoinLast(fullp, "/");
      var head := Join(fullp[..|fullp| - 1], "/");
      assert name == (head + "/") + last;
      assert name[|name| - |last|..] == last;
      assert name[|name| - |last| - 1] == (head + "/")[|head|];
    }
  }

  /** A file name up to its first `.`, without a leading `lib`; a name without `.` as it is. */
  function Stem(last: string): (r: string)
    ensures '.' !in r && forall c :: c in r ==> c in last
    ensures '.' !in last ==> r == last
    ensures '.' in last ==> var first := PrefixBefore(last, {'.'});
                            r == if StartsWith(first, "lib") then first[3..] else first
  {
    if '.' in last then
      var first := SplitOn(last, ".")[0];
      FirstPiece(last, '.');
      NoCharFromNotContains(first, '.');
      PieceChars(last, ".", SplitOn(last, "."), 0);
      if StartsWith(first, "lib") then first[3..] else first
    else last
  }

  /** The first piece of a split on a character is the text before its first occurrence. */
  lemma FirstPiece(s: string, c: char)
    requires c in s
    ensures SplitOn(s, [c])[0] == PrefixBefore(s, {c})
  {
    var i :| 0 <= i < |s| && s[i] == c;
    ContainsChar(s, c, i);
    var n := Find(s, [c]);
    forall j | 0 <= j < n ensures s[j] != c {
      assert !OccursAt(s, [c], j);
      assert s[j..j + 1] == [s[j]];
    }
    assert s[n..n + 1] == [s[n]];
    PrefixBeforeAt(s, {c}, n);
  }

  /** `make_nice_library_name`: quotes removed; a `-L` flag is kept whole, anything
      else loses its directory, its extension with a leading `lib`, and a leading `-l`. */
  function MakeNiceLibraryName(link: string): (r: string)
    ensures StartsWith(Remove(link, '\''), "-L") ==> r == Remove(link, '\'')
    ensures !StartsWith(Remove(link, '\''), "-L") ==> '/' !in r && '.' !in r && '\'' !in r
  {
    var name := Remove(link, '\'');
    if StartsWith(name, "-L") then name
    else
      var stem := Stem(LastComponent(name));
      if StartsWith(stem, "-l") then stem[2..] else stem
  }

  /** A name without `/` is its own last component. */
  lemma LastComponentPlain(name: string)
    requires '/' !in name
    ensures LastComponent(name) == name
  {
    CharNotContained(name, '/');
    assert SplitOn(name, "/") == [name];
    ConcatOne([name]);
  }

  /** A path `dir/file` has `file` as its last component when `file` holds no `/`. */
  lemma LastComponentAfter(dir: string, file: string)
    requires '/' !in file
    ensures LastComponent(dir + "/" + file) == file
  {
    var name := dir + "/" + file;
    var r := LastComponent(name);
    var n := |file|;
    assert name[|name| - n..] == file;
    assert name[|name| - n - 1] == '/';
  }

  /** The stem of `lib<stem>.<ext>` is `<stem>`. */
  lemma StemOfArchive(stem: string, ext: string)
    requires '.' !in stem
    ensures Stem("lib" + stem + "." + ext) == stem
  {
    var file := "lib" + stem + "." + ext;
    var n := 3 + |stem|;
    assert file[n] == '.' && file[..n] == "lib" + stem;
    assert forall j :: 0 <= j < n ==> file[j] != '.';
    PrefixBeforeAt(file, {'.'}, n);
  }

  /** An archive or shared object `lib<stem>.<ext>` without a directory names the
      library `<stem>` (`libfoo.a` is `foo`). */
  lemma MakeNiceLibraryNameArchive(stem: string, ext: string)
    requires '/' !in stem && '/' !in ext && '.' !in stem && '\'' !in stem && '\'' !in ext
    requires !StartsWith(stem, "-l")
    ensures MakeNiceLibraryName("lib" + stem + "." + ext) == stem
  {
    var name := "lib" + stem + "." + ext;
    var n := 3 + |stem|;
    assert '\'' !in name && '/' !in name by {
      assert forall j :: n < j < |name| ==> name[j] == ext[j - n - 1];
      assert forall j :: 3 <= j < n ==> name[j] == stem[j - 3];
    }
    RemoveAbsent(name, '\'');
    LastComponentPlain(name);
    StemOfArchive(stem, ext);
    assert !StartsWith(name, "-L") by {
      assert name[..2][0] == 'l';
    }
  }

  /** The same archive in a directory: `<dir>/lib<stem>.<ext>` names `<stem>`
      (`../lib/libbar.la` is `bar`). */
  lemma MakeNiceLibraryNameInDirectory(dir: string, stem: string, ext: string)
    requires '/' !in stem && '/' !in ext && '.' !in stem
    requires '\'' !in dir && '\'' !in stem && '\'' !in ext
    requires !StartsWith(stem, "-l") && !StartsWith(dir, "-L")
    ensures MakeNiceLibraryName(dir + "/lib" + stem + "." + ext) == stem
  {
    var file := "lib" + stem + "." + ext;
    var name := dir + "/" + file;
    assert dir + "/lib" + stem + "." + ext == name;
    RemoveAbsent(name, '\'');
    LastComponentAfter(dir, file);
    StemOfArchive(stem, ext);
    NotFlagAfterSlash(dir, file);
  }

  /** A path `dir/file` is not a `-L` flag when `dir` is not one. */
  lemma NotFlagAfterSlash(dir: string, file: string)
    requires !StartsWith(dir, "-L")
    ensures !StartsWith(dir + "/" + file, "-L")
  {
    var name := dir + "/" + file;
    if |dir| >= 2 {
      assert name[..2] == dir[..2];
    } else if |dir| == 1 {
      assert name[1] == '/';
      assert name[..2][1] == '/';
    } else {
      if |name| >= 2 {
        assert name[..2][0] == '/';
      }
    }
  }

  /** The example of a library in a sibling directory. */
  lemma MakeNiceLibraryNameSibling()
    ensures MakeNiceLibraryName("../lib/libbar.la") == "bar"
  {
    assert "../lib"[..2] == ".." && "bar"[..2] == "ba";
    MakeNiceLibraryNameInDirectory("../lib", "bar", "la");
    SiblingPath();
  }

  lemma SiblingPath()
    ensures "../lib" + "/lib" + "bar" + "." + "la" == "../lib/libbar.la"
  {
    var p := "../lib" + "/lib" + "bar" + "." + "la";
    assert |p| == 16;
    forall i | 0 <= i < 16 ensures p[i] == "../lib/libbar.la"[i] {
    }
  }

  /** A `-l<name>` flag names the library `<name>` (`-lm` is `m`). */
  lemma MakeNiceLibraryNameFlag(n: string)
    requires '/' !in n && '.' !in n && '\'' !in n
    ensures MakeNiceLibraryName("-l" + n) == n
  {
    var name := "-l" + n;
    RemoveAbsent(name, '\'');
    assert name[1] == 'l';
    LastComponentPlain(name);
    assert Stem(name) == name;
    assert !StartsWith(name, "-L") by {
      assert name[..2][1] == 'l';
    }
  }

  lemma NoCharFromNotContains(s: string, c: char)
    requires !Contains(s, [c])
    ensures c !in s
  {
    forall i | 0 <= i < |s| ensures s[i] != c {
      ContainsChar(s, c, i);
    }
  }

  lemma ContainsChar(s: string, c: char, i: nat)
    requires i < |s|
    ensures s[i] == c ==> Contains(s, [c])
  {
    if s[i] == c {
      ContainsAt(s, [c], i);
    }
  }

  lemma ContainsAt(s: string, sub: string, i: nat)
    requires OccursAt(s, sub, i)
    ensures Contains(s, sub)
    decreases i
  {
    if i > 0 {
      assert s[1..][i - 1..i - 1 + |sub|] == s[i..i + |sub|];
      ContainsAt(s[1..], sub, i - 1);
    }
  }

  /** Every character of a piece of a split is a character of the split string. */
  lemma PieceChars(s: string, sep: string, parts: seq<string>, k: nat)
    requires |parts| >= 1 && k < |parts| && Join(parts, sep) == s
    ensures forall c :: c in parts[k] ==> c in s
    decreases k
  {
    if k > 0 {
      assert |parts| > 1;
      PieceChars(Join(parts[1..], sep), sep, parts[1..], k - 1);
    }
  }

  lemma SubstringChars(name: string, last: string, fullp: seq<string>)
    requires |fullp| >= 1 && Join(fullp, "/") == name
    requires last == if |fullp| > 1 then fullp[|fullp| - 1] else Concat(fullp)
    ensures forall c :: c in last ==> c in name
  {
    var k := |fullp| - 1;
    if k == 0 {
      ConcatOne(fullp);
    }
    assert last == fullp[k];
    PieceChars(name, "/", fullp, k);
  }

  lemma ConcatOne(p: seq<string>)
    requires |p| == 1
    ensures Concat(p) == p[0]
  {
    assert p[1..] == [];
  }
}
