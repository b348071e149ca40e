/** The character and line loops of the configure.ac scan, as the converter runs them:
    each method is proved to compute the reading that the `Configure` module defines. */
module Scanner {
  import opened Strings
  import opened Lexical
  import opened Records
  import opened Configure

  /** The characters up to the first `stop`: `for c in s: if c == stop: break; r += c`. */
  method FieldBefore(s: string, stop: char) returns (r: string)
    ensures r == PrefixBefore(s, {stop})
  {
    r := "";
    var i := 0;
    while i < |s| && s[i] != stop
      invariant 0 <= i <= |s| && r == s[..i]
      invariant forall j :: 0 <= j < i ==> s[j] != stop
    {
      r := r + [s[i]];
      i := i + 1;
    }
    PrefixBeforeAt(s, {stop}, i);
  }

  /** The characters after the first `$` up to a stop character, by the converter's
      two-stage loop (1 skipping, 2 adding). */
  method AfterDollar(s: string, stops: set<char>) returns (r: string)
    ensures r == PrefixBefore(AfterFirst(s, '$'), stops)
  {
    r := "";
    var stage := 1;
    var i := 0;
    ghost var d := 0;
    while i < |s|
      invariant 0 <= i <= |s| && stage in {1, 2}
      invariant stage == 1 ==> r == "" && forall j :: 0 <= j < i ==> s[j] != '$'
      invariant stage == 2 ==> && d < i && s[d] == '$' && (forall j :: 0 <= j < d ==> s[j] != '$')
                               && r == s[d + 1..i] && forall j :: d < j < i ==> s[j] !in stops
    {
      var c := s[i];
      if c in stops && stage == 2 {
        break;
      }
      if stage == 2 {
        r := r + [c];
      }
      if c == '$' {
        if stage == 1 {
          d := i;
        }
        stage := 2;
      }
      i := i + 1;
    }
    if stage == 1 {
      assert '$' !in s;
    } else {
      AfterDollarAt(s, stops, d, i);
    }
  }

  /** The text between the first `$` at `d` and the first stop character after it at `e`
      (or the end) is the one `AfterDollar` promises. */
  lemma AfterDollarAt(s: string, stops: set<char>, d: nat, e: nat)
    requires d < e <= |s| && s[d] == '$' && forall j :: 0 <= j < d ==> s[j] != '$'
    requires (forall j :: d < j < e ==> s[j] !in stops) && (e < |s| ==> s[e] in stops)
    ensures PrefixBefore(AfterFirst(s, '$'), stops) == s[d + 1..e]
  {
    PrefixBeforeAt(s, {'$'}, d);
    assert AfterFirst(s, '$') == s[d + 1..];
    PrefixBeforeAt(s[d + 1..], stops, e - d - 1);
    assert s[d + 1..][..e - d - 1] == s[d + 1..e];
  }

  /** One of `process_argument`'s inner loops, `while s[i] == c and i < len(s)` (or
      `!=`): the index test comes second, so running off the end fails. */
  method ScanLoop(s: string, i: nat, c: char, want: bool) returns (r: Result<nat>)
    ensures r == ScanFor(s, i, c, want)
  {
    var k := i;
    while k < |s| && (s[k] == c) != want
      invariant i <= k && ScanFor(s, i, c, want) == ScanFor(s, k, c, want)
      decreases |s| - k
    {
      k := k + 1;
    }
    if k >= |s| {
      return IndexError;
    }
    return Ok(k);
  }

  /** The last of those loops, which also collects the characters up to `]`. */
  method ReadUpToBracket(s: string, i: nat) returns (r: Result<string>)
    ensures r == match ScanFor(s, i, ']', true)
                 case IndexError => IndexError
                 case Ok(e) => Ok(s[i..e])
  {
    var description := "";
    var k := i;
    while k < |s| && s[k] != ']'
      invariant i <= k && ScanFor(s, i, ']', true) == ScanFor(s, k, ']', true)
      invariant k <= |s| ==> description == s[i..k]
      decreases |s| - k
    {
      description := description + [s[k]];
      k := k + 1;
    }
    if k >= |s| {
      return IndexError;
    }
    return Ok(description);
  }

  /** The scan for the help text of an `AC_ARG_ENABLE`: to the first `[`, over spaces,
      over the option's spelling, over spaces again, then up to `]`. */
  method ReadDescription(s: string) returns (r: Result<string>)
    ensures r == ArgumentDescription(s)
  {
    var p := FieldBefore(s, '[');
    if |p| == |s| {
      return Ok("");
    }
    var j1 := ScanLoop(s, |p| + 1, ' ', false);
    if j1.IndexError? {
      return IndexError;
    }
    var j2 := ScanLoop(s, j1.value, ' ', true);
    if j2.IndexError? {
      return IndexError;
    }
    var j3 := ScanLoop(s, j2.value, ' ', false);
    if j3.IndexError? {
      return IndexError;
    }
    r := ReadUpToBracket(s, j3.value);
  }

  /** `process_argument`'s reading of its line: the key before the first comma with `-`
      made `_`, the help text, and the default `ON` exactly when `=yes` occurs. */
  method ReadArgument(line: string) returns (r: Result<ArgumentFields>)
    ensures r == ParseArgument(line)
  {
    var s := ArgumentText(line);
    var name := FieldBefore(s, ',');
    var description := ReadDescription(s);
    if description.IndexError? {
      return IndexError;
    }
    var status := if Contains(s, "=yes") then "ON" else "OFF";
    r := Ok(ArgumentFields(ReplaceChar(name, '-', '_'), description.value, status));
  }

  /** `process_conditional`'s reading of its line: the define before the first comma and
      the option after the first `$`, `-` made `_`. */
  method ReadConditional(line: string) returns (r: ConditionalFields)
    ensures r == ParseConditional(line)
  {
    var s := ConditionalText(line);
    var define := FieldBefore(s, ',');
    var raw := AfterDollar(s, {'"', ' ', '='});
    r := ConditionalFields(define, ReplaceChar(raw, '-', '_'));
  }

  /** `process_a_define`'s reading of its line: the scanned fields and the option named
      after the first `$`, upper-cased; the define starts unused. */
  method ReadADefine(line: string) returns (d: Define)
    ensures d == ParseDefine(line)
  {
    var s := DefineText(line);
    var fields := ReadDefine(s);
    var variable := AfterDollar(s, {'"'});
    d := Define(fields.name, Upper(variable), fields.description, fields.value, false);
  }

  /** `process_a_define`'s character loop, with its counters and its two `break`s. */
  method ReadDefine(s: string) returns (r: DefineScan)
    ensures r == DefineFields(s)
  {
    var stage, sqp, roup := 1, 0, 1;
    var name, value, description := "", "", "";
    var i := 0;
    while i < |s|
      invariant 0 <= i <= |s| && 1 <= stage < 4
      invariant DefineFields(s) == DefineRun(s, i, DefineScan(stage, sqp, roup, name, value, description, i, false))
    {
      var c := s[i];
      ghost var before := DefineScan(stage, sqp, roup, name, value, description, i, false);
      if c == '[' {
        sqp := sqp + 1;
      }
      if c == ']' {
        sqp := sqp - 1;
      }
      if c == '(' {
        roup := roup + 1;
      }
      if c == ')' {
        roup := roup - 1;
        if roup == 0 {
          assert DefineStep(before, c) == DefineScan(stage, sqp, roup, name, value, description, i + 1, true);
          return DefineScan(stage, sqp, roup, name, value, description, i + 1, true);
        }
      }
      if c == ',' && sqp == 0 {
        stage := stage + 1;
        if stage == 4 {
          assert DefineStep(before, c) == DefineScan(4, sqp, roup, name, value, description, i + 1, true);
          return DefineScan(4, sqp, roup, name, value, description, i + 1, true);
        }
      }
      if stage == 1 && c != ',' {
        name := name + [c];
      } else if stage == 2 && c != ',' {
        value := value + [c];
      } else if stage == 3 {
        description := description + [c];
      }
      ghost var after := DefineStep(before, c);
      assert after.stage == stage && after.squares == sqp && after.rounds == roup && !after.stopped;
      assert after.name == name && after.value == value && after.description == description;
      i := i + 1;
    }
    return DefineScan(stage, sqp, roup, name, value, description, i, false);
  }

  /** The joiner of a macro: from line `i`, lines are read and appended with a space
      until the parentheses balance; reading past the last line fails. */
  method JoinMacro(lines: seq<string>, i: nat) returns (r: Result<(string, nat)>)
    ensures r == JoinFrom(lines, i, "")
  {
    var full := "";
    var k := i;
    while true
      invariant JoinFrom(lines, i, "") == JoinFrom(lines, k, full)
      decreases |lines| - k
    {
      if k >= |lines| {
        return IndexError;
      }
      full := full + lines[k] + " ";
      if CountParentheses(full) == 0 {
        return Ok((full, k));
      }
      k := k + 1;
    }
  }

  /** The name loop of a variable definition: letters, digits and `_` from the start. */
  method NameEnd(line: string) returns (j: nat)
    ensures j == NameLength(line)
  {
    j := 0;
    while j < |line| && IsNameChar(line[j])
      invariant 0 <= j <= NameLength(line)
      invariant NameLength(line) == j + NameLength(line[j..])
    {
      assert line[j..][1..] == line[j + 1..];
      j := j + 1;
    }
    if j < |line| {
      assert line[j..][0] == line[j];
    }
  }

  /** The loop over whitespace from `j` on. */
  method SpacesEnd(line: string, j: nat) returns (t: nat)
    requires j <= |line|
    ensures t == SkipSpaces(line, j)
  {
    t := j;
    while t < |line| && IsSpace(line[t])
      invariant j <= t <= |line| && SkipSpaces(line, j) == SkipSpaces(line, t)
    {
      t := t + 1;
    }
  }

  /** The value loop: every character after `j`. */
  method RestFrom(line: string, j: nat) returns (value: string)
    requires j <= |line|
    ensures value == line[j..]
  {
    value := "";
    var k := j;
    while k < |line|
      invariant j <= k <= |line| && value == line[j..k]
    {
      value := value + [line[k]];
      k := k + 1;
    }
  }

  /** The reading of a `name=value` line: the name characters from the start, then
      whitespace, then `=` and the rest of the line. The name and whitespace loops test
      no bound; they stop at the `=` at the latest. */
  method ReadAssignment(line: string) returns (a: Assignment)
    ensures a == Capture(line)
  {
    if '=' !in line || !IsAlpha(line[0]) {
      return NoAssignment;
    }
    CaptureInBounds(line);
    var n := NameEnd(line);
    var t := SpacesEnd(line, n);
    if line[t] == '=' {
      var value := RestFrom(line, t + 1);
      return Assignment(line[..n], value);
    }
    return NoAssignment;
  }
}
