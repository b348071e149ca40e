/** What the configure.ac scan extracts from one line, and what it does with it:
    `AC_ARG_ENABLE` and `AM_CONDITIONAL` create or update options, `AC_DEFINE`
    records a define, `name=value` lines are collected as variables, macros are
    joined over several lines, and a recent line holding `$` is kept for
    `AC_DEFINE`. After the scan, defines are bound to options by an exact pass
    and a fuzzy pass. */
module Configure {
  import opened Strings
  import opened Lexical
  import opened Dicts
  import opened Records
  import opened Makefile

  // ------------------------------------------------------------------ AC_ARG_ENABLE

  /** First index from `i` on whose character is `c` (`want`) or is not `c` (`!want`);
      `IndexError` when the scan runs off the end of `s`. */
  function ScanFor(s: string, i: nat, c: char, want: bool): (r: Result<nat>)
    decreases |s| - i
    ensures r.Ok? ==> i <= r.value < |s| && (s[r.value] == c) == want
    ensures r.Ok? ==> forall j :: i <= j < r.value ==> (s[j] == c) != want
    ensures r.IndexError? ==> forall j :: i <= j < |s| ==> (s[j] == c) != want
  {
    if i >= |s| then IndexError
    else if (s[i] == c) == want then Ok(i)
    else ScanFor(s, i + 1, c, want)
  }

  /** The help text of an `AC_ARG_ENABLE`: after the first `[` the scan skips spaces,
      the option's spelling and spaces again, then reads up to `]`. No `[` gives "". */
  function ArgumentDescription(s: string): Result<string>
  {
    var b := |PrefixBefore(s, {'['})|;
    if b == |s| then Ok("")
    else match ScanFor(s, b + 1, ' ', false)
      case IndexError => IndexError
      case Ok(j1) => match ScanFor(s, j1, ' ', true)
        case IndexError => IndexError
        case Ok(j2) => match ScanFor(s, j2, ' ', false)
          case IndexError => IndexError
          case Ok(j3) => match ScanFor(s, j3, ']', true)
            case IndexError => IndexError
            case Ok(j4) => Ok(s[j3..j4])
  }

  /** No `[` gives no help text, and a `[` without any `]` makes the scan fail. */
  lemma ArgumentDescriptionMissing(s: string)
    ensures '[' !in s ==> ArgumentDescription(s) == Ok("")
    ensures '[' in s && ']' !in s ==> ArgumentDescription(s) == IndexError
  {
    var p := PrefixBefore(s, {'['});
    if |p| == |s| {
      assert p == s;
    } else if ']' !in s {
      var r1 := ScanFor(s, |p| + 1, ' ', false);
      if r1.Ok? {
        var r2 := ScanFor(s, r1.value, ' ', true);
        if r2.Ok? {
          var r3 := ScanFor(s, r2.value, ' ', false);
          if r3.Ok? {
            var r4 := ScanFor(s, r3.value, ']', true);
          }
        }
      }
    }
  }

  /** After a `[`, the help text holds no `]`, does not start with a space, and is
      followed by `]` in the line. */
  lemma ArgumentDescriptionText(s: string)
    ensures var r := ArgumentDescription(s);
            r.Ok? && '[' in s ==> && ']' !in r.value && (r.value == [] || r.value[0] != ' ')
                                  && exists j :: OccursAt(s, r.value + "]", j)
  {
    var p := PrefixBefore(s, {'['});
    if |p| < |s| {
      var r1 := ScanFor(s, |p| + 1, ' ', false);
      if r1.Ok? {
        var r2 := ScanFor(s, r1.value, ' ', true);
        if r2.Ok? {
          var r3 := ScanFor(s, r2.value, ' ', false);
          if r3.Ok? {
            var j3 := r3.value;
            var r4 := ScanFor(s, j3, ']', true);
            if r4.Ok? {
              var j4 := r4.value;
              assert ArgumentDescription(s) == Ok(s[j3..j4]);
              assert s[j3..j4] + "]" == s[j3..j4 + 1];
              assert OccursAt(s, s[j3..j4] + "]", j3);
            }
          }
        }
      }
    }
  }

  /** The text of an `AC_ARG_ENABLE` after its head, stripped. */
  function ArgumentText(line: string): string
  {
    Strip(Drop(line, |"AC_ARG_ENABLE("|))
  }

  datatype ArgumentFields = ArgumentFields(key: string, description: string, status: string)

  /** The option key of an `AC_ARG_ENABLE`: the text before the first comma, `-` made `_`. */
  function ArgumentKey(s: string): (key: string)
    ensures |key| == |PrefixBefore(s, {','})| && StartsWith(s, PrefixBefore(s, {','}))
    ensures ',' !in key && '-' !in key
    ensures forall i :: 0 <= i < |key| && s[i] != '-' ==> key[i] == s[i]
    ensures forall i :: 0 <= i < |key| && s[i] == '-' ==> key[i] == '_'
  {
    var p := PrefixBefore(s, {','});
    var key := ReplaceChar(p, '-', '_');
    assert forall i :: 0 <= i < |key| ==> key[i] != ',' && key[i] != '-';
    key
  }

  /** `process_argument`'s reading of a line: the key from the text before the first
      comma, the help text, and `ON` exactly when `=yes` occurs. */
  function ParseArgument(line: string): (r: Result<ArgumentFields>)
    ensures r.Ok? <==> ArgumentDescription(ArgumentText(line)).Ok?
    ensures r.Ok? ==>
              && r.value.description == ArgumentDescription(ArgumentText(line)).value
              && r.value.key == ArgumentKey(ArgumentText(line))
              && (r.value.status == "ON" <==> Contains(ArgumentText(line), "=yes"))
              && (r.value.status == "ON" || r.value.status == "OFF")
  {
    var s := ArgumentText(line);
    match ArgumentDescription(s)
    case IndexError => IndexError
    case Ok(description) =>
      Ok(ArgumentFields(ArgumentKey(s), description, if Contains(s, "=yes") then "ON" else "OFF"))
  }

  /** The update `process_argument` makes: a new key gets a fresh option (whose name is
      the upper-cased key); an existing key gets the key itself as name, and its
      description and status are overwritten, while its define is kept. */
  function ArgumentEffect(opts: Dict<OptionVal>, f: ArgumentFields): (r: Dict<OptionVal>)
    ensures r.keys == if f.key in opts.entries then opts.keys else opts.keys + [f.key]
    ensures f.key in r.entries
    ensures r.entries[f.key].description == f.description && r.entries[f.key].status == f.status
    ensures f.key !in opts.entries ==> r.entries[f.key] == NewOptionVal(f.key, f.description, f.status, "", "", "")
    ensures f.key in opts.entries ==>
              && r.entries[f.key].name == f.key
              && r.entries[f.key].define == opts.entries[f.key].define
              && r.entries[f.key].defineValue == opts.entries[f.key].defineValue
              && r.entries[f.key].defineDescription == opts.entries[f.key].defineDescription
              && r.entries[f.key].extraDefines == opts.entries[f.key].extraDefines
    ensures forall k :: k in opts.entries && k != f.key ==> k in r.entries && r.entries[k] == opts.entries[k]
    ensures opts.Valid() ==> r.Valid()
  {
    if f.key !in opts.entries then
      opts.Put(f.key, NewOptionVal(f.key, f.description, f.status, "", "", ""))
    else
      opts.Put(f.key, opts.entries[f.key].(name := f.key, description := f.description, status := f.status))
  }

  // ----------------------------------------------------------------- AM_CONDITIONAL

  function ConditionalText(line: string): string
  {
    Strip(Drop(line, |"AM_CONDITIONAL("|))
  }

  datatype ConditionalFields = ConditionalFields(define: string, bound: string)

  /** The text before the first comma. */
  function FirstField(s: string): (r: string)
    ensures ',' !in r && StartsWith(s, r)
    ensures |r| < |s| ==> s[|r|] == ','
  {
    PrefixBefore(s, {','})
  }

  /** The option an `AM_CONDITIONAL` tests: the text after the first `$` up to a `"`, a
      space or `=`, with `-` made `_`. */
  function BoundOption(s: string): (r: string)
    ensures '-' !in r && '"' !in r && ' ' !in r && '=' !in r
    ensures '$' !in s ==> r == []
  {
    var raw := PrefixBefore(AfterFirst(s, '$'), {'"', ' ', '='});
    var bound := ReplaceChar(raw, '-', '_');
    assert forall i :: 0 <= i < |bound| ==> bound[i] != '-' && bound[i] != '"' && bound[i] != ' ' && bound[i] != '=';
    bound
  }

  /** `process_conditional`'s reading of a line: the define and the option it binds. */
  function ParseConditional(line: string): (r: ConditionalFields)
    ensures r.define == FirstField(ConditionalText(line)) && r.bound == BoundOption(ConditionalText(line))
  {
    var s := ConditionalText(line);
    ConditionalFields(FirstField(s), BoundOption(s))
  }

  /** The update `process_conditional` makes: the bound option gets the define, and is
      created (with empty description and status) when it does not exist. */
  function ConditionalEffect(opts: Dict<OptionVal>, f: ConditionalFields): (r: Dict<OptionVal>)
    ensures r.keys == if f.bound in opts.entries then opts.keys else opts.keys + [f.bound]
    ensures f.bound in r.entries && r.entries[f.bound].define == f.define
    ensures f.bound !in opts.entries ==> r.entries[f.bound] == NewOptionVal(f.bound, "", "", f.define, "", "")
    ensures f.bound in opts.entries ==> r.entries[f.bound] == opts.entries[f.bound].(define := f.define)
    ensures forall k :: k in opts.entries && k != f.bound ==> k in r.entries && r.entries[k] == opts.entries[k]
    ensures opts.Valid() ==> r.Valid()
  {
    if f.bound in opts.entries then opts.Put(f.bound, opts.entries[f.bound].(define := f.define))
    else opts.Put(f.bound, NewOptionVal(f.bound, "", "", f.define, "", ""))
  }

  // ---------------------------------------------------------------------- AC_DEFINE

  /** The state of `process_a_define`'s character loop: the stage (1 name, 2 value,
      3 description), the square-bracket depth, the round-parenthesis depth (1 for the
      parenthesis of `AC_DEFINE(` itself), the three fields, the characters consumed, and
      whether the loop has broken out. */
  datatype DefineScan = DefineScan(stage: nat, squares: int, rounds: int, name: string,
                                   value: string, description: string, consumed: nat, stopped: bool)

  const DefineStart := DefineScan(1, 0, 1, "", "", "", 0, false)

  /** What one character does to the round-parenthesis depth. */
  function Delta(c: char): int {
    if c == '(' then 1 else if c == ')' then -1 else 0
  }

  /** The parenthesis balance of the first `n` characters. */
  function Balance(s: string, n: nat): int
    requires n <= |s|
  {
    if n == 0 then 0 else Balance(s, n - 1) + Delta(s[n - 1])
  }

  /** `Balance` is `count_parentheses` of the prefix. */
  lemma {:induction false} BalanceIsCount(s: string, n: nat)
    requires n <= |s|
    ensures Balance(s, n) == CountParentheses(s[..n])
  {
    if n > 0 {
      BalanceIsCount(s, n - 1);
      assert s[..n] == s[..n - 1] + [s[n - 1]];
      CountParenthesesAdditive(s[..n - 1], [s[n - 1]]);
    }
  }

  /** One character of the loop, which has not broken out yet. */
  function DefineStep(st: DefineScan, c: char): (r: DefineScan)
    requires !st.stopped
    ensures r.consumed == st.consumed + 1 && r.rounds == st.rounds + Delta(c)
    ensures r.stopped <==> (c == ')' && r.rounds == 0) || r.stage == 4
    ensures r.squares == st.squares + (if c == '[' then 1 else if c == ']' then -1 else 0)
    ensures r.stage == if c == ',' && r.squares == 0 then st.stage + 1 else st.stage
  {
    var squares := st.squares + (if c == '[' then 1 else if c == ']' then -1 else 0);
    var rounds := st.rounds + Delta(c);
    var moved := st.(squares := squares, rounds := rounds, consumed := st.consumed + 1);
    if c == ')' && rounds == 0 then moved.(stopped := true)
    else
      var stage := if c == ',' && squares == 0 then st.stage + 1 else st.stage;
      if stage == 4 then moved.(stage := 4, stopped := true)
      else if stage == 1 && c != ',' then moved.(stage := stage, name := st.name + [c])
      else if stage == 2 && c != ',' then moved.(stage := stage, value := st.value + [c])
      else if stage == 3 then moved.(stage := stage, description := st.description + [c])
      else moved.(stage := stage)
  }

  /** The loop over the characters from `i` on, up to its `break`. */
  function DefineRun(s: string, i: nat, st: DefineScan): DefineScan
    requires i <= |s|
    decreases |s| - i
  {
    if i == |s| || st.stopped then st else DefineRun(s, i + 1, DefineStep(st, s[i]))
  }

  /** What the loop keeps true: a name and a value never hold a comma, the description
      starts with the comma that opened it, and stage 4 only occurs at the break. */
  ghost predicate DefineInv(st: DefineScan) {
    && 1 <= st.stage <= 4
    && (st.stage == 4 ==> st.stopped)
    && ',' !in st.name && ',' !in st.value
    && (st.stage < 2 ==> st.value == [])
    && (st.stage < 3 ==> st.description == [])
    && (st.stage >= 3 ==> st.description != [] && st.description[0] == ',')
  }

  lemma DefineStepInv(st: DefineScan, c: char)
    requires DefineInv(st) && !st.stopped
    ensures DefineInv(DefineStep(st, c))
  {
    var r := DefineStep(st, c);
    if st.stage == 3 && !r.stopped {
      assert r.description == st.description + [c];
    }
  }

  lemma {:induction false} DefineRunInv(s: string, i: nat, st: DefineScan)
    requires i <= |s| && DefineInv(st)
    ensures DefineInv(DefineRun(s, i, st))
    decreases |s| - i
  {
    if i < |s| && !st.stopped {
      DefineStepInv(st, s[i]);
      DefineRunInv(s, i + 1, DefineStep(st, s[i]));
    }
  }

  /** Where the loop stops: it reads the whole text unless it breaks, and it breaks right
      after the first `)` that balances `AC_DEFINE(`, or after the third comma outside
      square brackets; the parenthesis depth is one plus the balance of what was read, and
      no prefix read before the stop closes more parentheses than it opens. */
  lemma {:induction false} DefineRunStops(s: string, i: nat, st: DefineScan)
    requires i <= |s| && DefineInv(st) && !st.stopped && st.consumed == i
    requires st.rounds == 1 + Balance(s, i)
    requires forall e :: 0 <= e <= i ==> Balance(s, e) >= 0
    ensures var r := DefineRun(s, i, st);
            && i <= r.consumed <= |s|
            && r.rounds == 1 + Balance(s, r.consumed)
            && (r.stopped ==> r.consumed >= 1 && ((s[r.consumed - 1] == ')' && r.rounds == 0)
                                                 || (s[r.consumed - 1] == ',' && r.stage == 4)))
            && (!r.stopped ==> r.consumed == |s|)
            && forall e :: 0 <= e < r.consumed ==> Balance(s, e) >= 0
    decreases |s| - i
  {
    if i < |s| {
      var t := DefineStep(st, s[i]);
      DefineStepInv(st, s[i]);
      assert Balance(s, i + 1) == Balance(s, i) + Delta(s[i]);
      if !t.stopped {
        assert t.rounds >= 1;
        DefineRunStops(s, i + 1, t);
      } else {
        assert DefineRun(s, i, st) == t;
      }
    }
  }

  function DefineText(line: string): string
  {
    Strip(Drop(line, |"AC_DEFINE("|))
  }

  /** The option name of an `AC_DEFINE`: the text after the first `$` up to a `"`,
      upper-cased. */
  function DefineOptionName(s: string): (r: string)
    ensures '"' !in r && forall i :: 0 <= i < |r| ==> !('a' <= r[i] <= 'z')
    ensures '$' !in s ==> r == []
  {
    var raw := PrefixBefore(AfterFirst(s, '$'), {'"'});
    var r := Upper(raw);
    assert forall i :: 0 <= i < |r| ==> r[i] == UpperChar(raw[i]) && raw[i] != '"';
    r
  }

  /** The option name is the text between the first `$` and the `"` after it, upper-cased. */
  lemma DefineOptionNameOf(a: string, b: string, c: string)
    requires '$' !in a && '"' !in b
    ensures DefineOptionName(a + "$" + b + "\"" + c) == Upper(b)
  {
    var s := a + "$" + b + "\"" + c;
    var t := b + "\"" + c;
    assert s == a + "$" + t;
    PrefixBeforeAt(s, {'$'}, |a|);
    assert s[|a| + 1..] == t;
    PrefixBeforeAt(t, {'"'}, |b|);
    assert t[..|b|] == b;
  }

  /** The name, value and description the character loop reads from the text. */
  function DefineFields(s: string): (r: DefineScan)
    ensures ',' !in r.name && ',' !in r.value
    ensures r.description == [] || r.description[0] == ','
  {
    DefineRunInv(s, 0, DefineStart);
    DefineRun(s, 0, DefineStart)
  }

  /** The loop read from the beginning stops as `DefineRunStops` says. */
  lemma DefineFieldsStop(s: string)
    ensures var r := DefineFields(s);
            && r.consumed <= |s|
            && (r.stopped ==> r.consumed >= 1 && ((s[r.consumed - 1] == ')' && 1 + Balance(s, r.consumed) == 0)
                                                 || (s[r.consumed - 1] == ',' && r.stage == 4)))
            && (!r.stopped ==> r.consumed == |s|)
            && forall e :: 0 <= e < r.consumed ==> Balance(s, e) >= 0
  {
    assert DefineFields(s) == DefineRun(s, 0, DefineStart);
    assert forall e :: 0 <= e <= 0 ==> Balance(s, e) >= 0;
    DefineRunStops(s, 0, DefineStart);
  }

  /** `process_a_define`'s reading of a line: the three fields of the loop and the option
      name; a fresh define is unused. */
  function ParseDefine(line: string): (d: Define)
    ensures var f := DefineFields(DefineText(line));
            d.name == f.name && d.value == f.value && d.description == f.description
    ensures d.optionName == DefineOptionName(DefineText(line)) && !d.used
  {
    var s := DefineText(line);
    var f := DefineFields(s);
    Define(f.name, DefineOptionName(s), f.description, f.value, false)
  }

  /** `temp_defines[name] = ...`: a define with a name already seen replaces the earlier
      one in place and is unused again. */
  function DefineEffect(defs: Dict<Define>, d: Define): (r: Dict<Define>)
    ensures r.keys == if d.name in defs.entries then defs.keys else defs.keys + [d.name]
    ensures d.name in r.entries && r.entries[d.name] == d.(used := false)
    ensures forall k :: k in defs.entries && k != d.name ==> k in r.entries && r.entries[k] == defs.entries[k]
    ensures defs.Valid() ==> r.Valid()
  {
    defs.Put(d.name, d.(used := false))
  }

  // ------------------------------------------------------------- name=value variables

  predicate IsNameChar(c: char) {
    IsAlnum(c) || c == '_'
  }

  predicate AllSpace(w: string) {
    forall i :: 0 <= i < |w| ==> IsSpace(w[i])
  }

  /** Length of the longest prefix made of letters, digits and `_`. */
  function NameLength(s: string): (n: nat)
    ensures n <= |s| && forall i :: 0 <= i < n ==> IsNameChar(s[i])
    ensures n < |s| ==> !IsNameChar(s[n])
  {
    if s == [] || !IsNameChar(s[0]) then 0 else 1 + NameLength(s[1..])
  }

  datatype Assignment = NoAssignment | Assignment(name: string, value: string)

  /** The first index from `j` on that is not whitespace, or the length. */
  function SkipSpaces(s: string, j: nat): (t: nat)
    requires j <= |s|
    ensures j <= t <= |s| && (forall i :: j <= i < t ==> IsSpace(s[i])) && (t < |s| ==> !IsSpace(s[t]))
    decreases |s| - j
  {
    if j == |s| || !IsSpace(s[j]) then j else SkipSpaces(s, j + 1)
  }

  /** A configure.ac variable definition: a line that contains `=` and starts with a
      letter, whose longest name prefix is followed by optional whitespace and `=`. The
      value is the rest of the line, not stripped. */
  function Capture(line: string): (r: Assignment)
    ensures '=' !in line ==> r == NoAssignment
    ensures r.Assignment? ==>
              && r.name != [] && IsAlpha(r.name[0]) && StartsWith(line, r.name)
              && (forall i :: 0 <= i < |r.name| ==> IsNameChar(r.name[i]))
  {
    if '=' !in line || !IsAlpha(line[0]) then NoAssignment
    else
      var n := NameLength(line);
      var t := SkipSpaces(line, n);
      if t < |line| && line[t] == '=' then Assignment(line[..n], line[t + 1..]) else NoAssignment
  }

  /** The scans for a variable never run past the end of the line: they stop at the `=`
      at the latest. */
  lemma CaptureInBounds(line: string)
    requires '=' in line
    ensures SkipSpaces(line, NameLength(line)) < |line|
  {
    var e :| 0 <= e < |line| && line[e] == '=';
    assert !IsNameChar(line[e]) && !IsSpace(line[e]);
  }

  /** A captured line is `name`, then whitespace, then `=`, then the value. */
  lemma CaptureSound(line: string)
    ensures Capture(line).Assignment? ==>
              exists w :: AllSpace(w) && line == Capture(line).name + w + "=" + Capture(line).value
  {
    var r := Capture(line);
    if r.Assignment? {
      var n := NameLength(line);
      var t := SkipSpaces(line, n);
      var w := line[n..t];
      assert line == line[..n] + w + "=" + line[t + 1..];
      assert forall i :: 0 <= i < |w| ==> w[i] == line[n + i];
      assert AllSpace(w);
    }
  }

  /** Every line of the form `name  = value` is captured as exactly that variable. */
  lemma CaptureComplete(name: string, w: string, value: string)
    requires name != [] && IsAlpha(name[0]) && forall i :: 0 <= i < |name| ==> IsNameChar(name[i])
    requires AllSpace(w)
    ensures Capture(name + w + "=" + value) == Assignment(name, value)
  {
    var line := name + w + "=" + value;
    assert line[|name| + |w|] == '=';
    assert line[0] == name[0];
    NameLengthOf(line, |name|);
    assert forall i :: |name| <= i < |name| + |w| ==> line[i] == w[i - |name|];
    SkipSpacesOf(line, |name|, |name| + |w|);
    assert line[..|name|] == name;
    assert line[|name| + |w| + 1..] == value;
  }

  lemma NameLengthOf(s: string, n: nat)
    requires n < |s| && (forall i :: 0 <= i < n ==> IsNameChar(s[i])) && !IsNameChar(s[n])
    ensures NameLength(s) == n
  {
    if n > 0 {
      NameLengthOf(s[1..], n - 1);
    }
  }

  lemma SkipSpacesOf(s: string, j: nat, n: nat)
    requires j <= n < |s| && (forall i :: j <= i < n ==> IsSpace(s[i])) && !IsSpace(s[n])
    ensures SkipSpaces(s, j) == n
    decreases n - j
  {
    if j < n {
      SkipSpacesOf(s, j + 1, n);
    }
  }

  /** `config_ac_variables[name]["value"].append(value)`: values are only ever appended. */
  function CaptureEffect(vars: Dict<seq<string>>, a: Assignment): (r: Dict<seq<string>>)
    ensures a.NoAssignment? ==> r == vars
    ensures a.Assignment? ==>
              && a.name in r.entries
              && r.entries[a.name] == (if a.name in vars.entries then vars.entries[a.name] else []) + [a.value]
              && r.keys == (if a.name in vars.entries then vars.keys else vars.keys + [a.name])
    ensures forall k :: k in vars.entries ==> k in r.entries && StartsWithSeq(r.entries[k], vars.entries[k])
    ensures vars.Valid() ==> r.Valid()
  {
    match a
    case NoAssignment => vars
    case Assignment(name, value) =>
      vars.Put(name, (if name in vars.entries then vars.entries[name] else []) + [value])
  }

  predicate StartsWithSeq(s: seq<string>, prefix: seq<string>) {
    |prefix| <= |s| && s[..|prefix|] == prefix
  }

  // ---------------------------------------------------------------- macro joining

  /** Lines `i` up to `e` (exclusive), each followed by a space, as the joiner accumulates
      them. The lines here and below are the stripped lines of configure.ac: every read of
      a line in the scan strips it first. */
  function Joined(lines: seq<string>, i: nat, e: nat): string
    requires i <= e <= |lines|
    decreases e
  {
    if e == i then [] else Joined(lines, i, e - 1) + lines[e - 1] + " "
  }

  /** Joining lines `i` up to `e` leaves the parentheses open. */
  predicate Unbalanced(lines: seq<string>, i: nat, e: nat)
    requires i <= e <= |lines|
  {
    CountParentheses(Joined(lines, i, e)) != 0
  }

  /** The joiner from line `k` on, having accumulated `acc`: the joined text and the last
      line used, or `IndexError` when the lines run out before the balance reaches 0. */
  function JoinFrom(lines: seq<string>, k: nat, acc: string): (r: Result<(string, nat)>)
    decreases |lines| - k
    ensures r.Ok? ==> k <= r.value.1 < |lines|
  {
    if k >= |lines| then IndexError
    else
      var full := acc + lines[k] + " ";
      if CountParentheses(full) == 0 then Ok((full, k)) else JoinFrom(lines, k + 1, full)
  }

  /** The joiner passes on the shortest run of lines from `i` whose joined text is
      balanced; it fails exactly when no such run exists. */
  lemma JoinMacroShortest(lines: seq<string>, i: nat)
    requires i < |lines|
    ensures var r := JoinFrom(lines, i, "");
            && (r.Ok? ==>
                  && i <= r.value.1 < |lines|
                  && r.value.0 == Joined(lines, i, r.value.1 + 1)
                  && !Unbalanced(lines, i, r.value.1 + 1)
                  && forall e :: i < e <= r.value.1 ==> Unbalanced(lines, i, e))
            && (r.IndexError? ==> forall e :: i < e <= |lines| ==> Unbalanced(lines, i, e))
  {
    JoinFromFacts(lines, i, i, "");
  }

  lemma {:induction false} JoinFromFacts(lines: seq<string>, i: nat, k: nat, acc: string)
    requires i <= k <= |lines| && acc == Joined(lines, i, k)
    requires forall e :: i < e <= k ==> Unbalanced(lines, i, e)
    decreases |lines| - k
    ensures var r := JoinFrom(lines, k, acc);
            && (r.Ok? ==>
                  && k <= r.value.1 < |lines|
                  && r.value.0 == Joined(lines, i, r.value.1 + 1)
                  && !Unbalanced(lines, i, r.value.1 + 1)
                  && forall e :: i < e <= r.value.1 ==> Unbalanced(lines, i, e))
            && (r.IndexError? ==> forall e :: i < e <= |lines| ==> Unbalanced(lines, i, e))
  {
    if k < |lines| {
      var full := acc + lines[k] + " ";
      assert full == Joined(lines, i, k + 1);
      if CountParentheses(full) != 0 {
        assert Unbalanced(lines, i, k + 1);
        assert JoinFrom(lines, k, acc) == JoinFrom(lines, k + 1, full);
        JoinFromFacts(lines, i, k + 1, full);
      } else {
        assert JoinFrom(lines, k, acc) == Ok((full, k));
      }
    } else {
      assert JoinFrom(lines, k, acc) == IndexError;
    }
  }

  // ---------------------------------------------------------------------- look-back

  /** The look-back ahead of each line: a line holding `$` (longer than one character, or
      within three lines of the last kept one) becomes the kept line; otherwise the kept
      line ages by one and is dropped once it is three lines old. */
  function LookBack(current: string, previous: string, distance: nat): (r: (string, nat))
    ensures '$' in current && (|current| > 1 || distance < 3) ==> r == (current, 0)
    ensures '$' !in current && distance < 3 ==> r == (previous, distance + 1)
    ensures !('$' in current && |current| > 1) && distance >= 3 ==> r == ("", distance + 1)
    ensures LookBackInv(previous, distance) ==> LookBackInv(r.0, r.1)
  {
    if |current| > 1 && '$' in current then (current, 0)
    else if distance < 3 then (if '$' in current then (current, 0) else (previous, distance + 1))
    else ("", distance + 1)
  }

  /** The kept line is empty, or it holds `$` and is at most three lines old: the
      look-back keeps this true. */
  ghost predicate LookBackInv(previous: string, distance: nat) {
    previous == [] || ('$' in previous && distance <= 3)
  }

  // --------------------------------------------------------------------- resolution

  /** The define at position `j` of the insertion order. */
  function DefineAt(defs: Dict<Define>, j: nat): Define
    requires defs.Valid() && j < |defs.keys|
  {
    defs.entries[defs.keys[j]]
  }

  /** A define matches an option when it is the option's define or names the option. */
  predicate ExactMatch(o: OptionVal, d: Define) {
    o.define == d.name || o.name == d.optionName
  }

  /** Index in `keys` of the first define the option matches, or -1. */
  function FirstMatch(o: OptionVal, keys: seq<string>, defs: map<string, Define>): (r: int)
    requires forall k :: k in keys ==> k in defs
    ensures -1 <= r < |keys|
    ensures r >= 0 ==> ExactMatch(o, defs[keys[r]])
    ensures forall j :: 0 <= j < |keys| && (r == -1 || j < r) ==> !ExactMatch(o, defs[keys[j]])
  {
    if keys == [] then -1
    else if ExactMatch(o, defs[keys[0]]) then 0
    else
      var k := FirstMatch(o, keys[1..], defs);
      assert forall j :: 1 <= j < |keys| ==> keys[j] == keys[1..][j - 1];
      if k == -1 then -1 else k + 1
  }

  /** Binding an option to a define: it takes the define's name, description and value
      (brackets cleaned as `set_define_value` does). */
  function Bind(o: OptionVal, d: Define): OptionVal
  {
    o.(define := d.name, defineDescription := d.description, defineValue := CleanDefineValue(d.value))
  }

  /** The option after the exact pass. */
  function ExactOption(o: OptionVal, defs: Dict<Define>): OptionVal
    requires defs.Valid()
  {
    var j := FirstMatch(o, defs.keys, defs.entries);
    if j >= 0 then Bind(o, defs.entries[defs.keys[j]]) else o
  }

  /** The exact pass over the options in key order, each against the defines in key
      order with a `break` at the first match. */
  function ResolveExact(opts: Dict<OptionVal>, defs: Dict<Define>): (r: (Dict<OptionVal>, Dict<Define>))
    requires defs.Valid()
    ensures r.0.keys == opts.keys && forall k :: k in r.0.entries <==> k in opts.entries
    ensures r.1.keys == defs.keys && forall n :: n in r.1.entries <==> n in defs.entries
    ensures opts.Valid() ==> r.0.Valid()
    ensures defs.Valid() ==> r.1.Valid()
    ensures forall k :: k in opts.entries ==> r.0.entries[k] == ExactOption(opts.entries[k], defs)
    ensures forall n :: n in defs.entries ==>
              r.1.entries[n] == defs.entries[n].(used := defs.entries[n].used || BoundByExact(opts, defs, n))
  {
    (Dict(opts.keys, map k | k in opts.entries :: ExactOption(opts.entries[k], defs)),
     Dict(defs.keys, map n | n in defs.entries ::
                       defs.entries[n].(used := defs.entries[n].used || BoundByExact(opts, defs, n))))
  }

  /** Some option's first match is the define named `n`. */
  predicate BoundByExact(opts: Dict<OptionVal>, defs: Dict<Define>, n: string)
    requires defs.Valid()
  {
    exists k :: k in opts.entries && FirstMatchIs(opts.entries[k], defs, n)
  }

  predicate FirstMatchIs(o: OptionVal, defs: Dict<Define>, n: string)
    requires defs.Valid()
  {
    var j := FirstMatch(o, defs.keys, defs.entries);
    j >= 0 && defs.keys[j] == n
  }

  /** An option binds to at most one define, the first in insertion order that matches
      it, and that define is used; an option no define matches is left as it was. */
  lemma ExactBindsFirst(opts: Dict<OptionVal>, defs: Dict<Define>, k: string)
    requires defs.Valid() && k in opts.entries
    ensures var o := opts.entries[k];
            var r := ResolveExact(opts, defs);
            && ((exists j :: 0 <= j < |defs.keys| && ExactMatch(o, DefineAt(defs, j))) ==>
                  exists j :: && 0 <= j < |defs.keys| && ExactMatch(o, DefineAt(defs, j))
                              && (forall i :: 0 <= i < j ==> !ExactMatch(o, DefineAt(defs, i)))
                              && r.0.entries[k] == Bind(o, DefineAt(defs, j))
                              && r.1.entries[defs.keys[j]].used)
            && ((forall j :: 0 <= j < |defs.keys| ==> !ExactMatch(o, DefineAt(defs, j))) ==>
                  r.0.entries[k] == o)
  {
    var o := opts.entries[k];
    var r := ResolveExact(opts, defs);
    var f := FirstMatch(o, defs.keys, defs.entries);
    if f >= 0 {
      var n := defs.keys[f];
      assert FirstMatchIs(o, defs, n);
      assert BoundByExact(opts, defs, n);
      assert r.0.entries[k] == Bind(o, DefineAt(defs, f));
      assert r.1.entries[n].used;
    }
  }

  /** The similarity ratio of two strings, a number between 0 and 1. */
  type Ratio = r: real | 0.0 <= r <= 1.0

  /** The fuzzy criterion, on the upper-cased define key and option key. */
  predicate FuzzyMatch(defineKey: string, optionKey: string, similar: (string, string) -> Ratio): (b: bool)
    ensures Upper(defineKey) == Upper(optionKey) ==> b
  {
    assert StartsWith(Upper(defineKey), Upper(defineKey));
    var d := Upper(defineKey);
    var o := Upper(optionKey);
    similar(d, o) > 0.5 || Contains(o, d) || Contains(d, o)
  }

  /** The criterion as a function of the two keys, the form the fuzzy pass takes it in. */
  function Criterion(similar: (string, string) -> Ratio): (meets: (string, string) -> bool)
    ensures (forall a, b :: similar(a, b) == similar(b, a)) ==> forall d, o :: meets(d, o) == meets(o, d)
  {
    (defineKey: string, optionKey: string) => FuzzyMatch(defineKey, optionKey, similar)
  }

  /** Whether a define key and an option key meet the criterion `meets`. */
  predicate Meets(meets: (string, string) -> bool, defineKey: string, optionKey: string) {
    meets(defineKey, optionKey)
  }

  /** The define keys, in order, that the fuzzy pass adds to the option `optionKey`: the
      ones still unused after the exact pass that meet the criterion. */
  function FuzzyExtras(keys: seq<string>, defs: map<string, Define>, optionKey: string,
                       meets: (string, string) -> bool): (r: seq<string>)
    requires forall k :: k in keys ==> k in defs
    ensures forall x :: x in r <==> x in keys && !defs[x].used && Meets(meets, x, optionKey)
  {
    if keys == [] then []
    else
      var last := keys[|keys| - 1];
      var rest := FuzzyExtras(keys[..|keys| - 1], defs, optionKey, meets);
      assert keys == keys[..|keys| - 1] + [last];
      assert forall x :: x in keys <==> x in keys[..|keys| - 1] || x == last;
      rest + (if !defs[last].used && Meets(meets, last, optionKey) then [last] else [])
  }

  /** The fuzzy pass: each define still unused is added as an extra define to every
      option whose key meets the criterion, and is then used. */
  function ResolveFuzzy(opts: Dict<OptionVal>, defs: Dict<Define>, meets: (string, string) -> bool)
    : (r: (Dict<OptionVal>, Dict<Define>))
    requires defs.Valid()
    ensures r.0.keys == opts.keys && forall k :: k in r.0.entries <==> k in opts.entries
    ensures r.1.keys == defs.keys && forall n :: n in r.1.entries <==> n in defs.entries
    ensures opts.Valid() ==> r.0.Valid()
    ensures defs.Valid() ==> r.1.Valid()
    ensures forall k :: k in opts.entries ==>
              r.0.entries[k] == opts.entries[k].(extraDefines := opts.entries[k].extraDefines
                                                   + FuzzyExtras(defs.keys, defs.entries, k, meets))
    ensures forall n :: n in defs.entries ==>
              r.1.entries[n] == defs.entries[n].(used := defs.entries[n].used || FuzzyBound(opts, n, meets))
  {
    (Dict(opts.keys, map k | k in opts.entries ::
                       opts.entries[k].(extraDefines := opts.entries[k].extraDefines
                                          + FuzzyExtras(defs.keys, defs.entries, k, meets))),
     Dict(defs.keys, map n | n in defs.entries ::
                       defs.entries[n].(used := defs.entries[n].used || FuzzyBound(opts, n, meets))))
  }

  /** Some option key meets the fuzzy criterion with the define key `n`. */
  predicate FuzzyBound(opts: Dict<OptionVal>, n: string, meets: (string, string) -> bool) {
    exists k :: k in opts.entries && Meets(meets, n, k)
  }

  /** Containment alone makes a fuzzy match, whatever the similarity ratio: a define key
      that holds the option key, in any case (as `HAVE_FOO_BAR` holds `foo_bar`), matches it. */
  lemma FuzzyContainment(before: string, optionKey: string, after: string, similar: (string, string) -> Ratio)
    ensures FuzzyMatch(before + optionKey + after, optionKey, similar)
  {
    var d := Upper(before + optionKey + after);
    var o := Upper(optionKey);
    var p := |before|;
    assert forall i :: 0 <= i < |o| ==> d[p + i] == o[i] by {
      forall i | 0 <= i < |o|
        ensures d[p + i] == o[i]
      {
        assert (before + optionKey + after)[p + i] == optionKey[i];
      }
    }
    assert d[p..p + |o|] == o;
    ContainsAt(d, o, p);
  }

  /** The fuzzy pass adds the define `n` to option `k` exactly when `n` was unused after
      the exact pass and the keys meet the criterion; every such define is used after. */
  lemma FuzzyAdds(opts: Dict<OptionVal>, defs: Dict<Define>, meets: (string, string) -> bool,
                  k: string, n: string)
    requires defs.Valid() && k in opts.entries && n in defs.entries
    ensures n in ResolveFuzzy(opts, defs, meets).0.entries[k].extraDefines <==>
              n in opts.entries[k].extraDefines || (!defs.entries[n].used && Meets(meets, n, k))
    ensures !defs.entries[n].used && Meets(meets, n, k) ==> ResolveFuzzy(opts, defs, meets).1.entries[n].used
  {
  }

  // ----------------------------------------------------------------- AC_CONFIG_FILES

  /** The entries of an `AC_CONFIG_FILES`: the text after its head, stripped, cleaned of
      garbage characters and split on whitespace. */
  function ConfigFiles(line: string): (r: seq<string>)
    ensures forall i :: 0 <= i < |r| ==> r[i] != []
  {
    SplitWs(RemoveGarbage(Strip(Drop(line, |"AC_CONFIG_FILES("|))))
  }

  /** Every entry is a run of characters of the line with no whitespace and none of the
      garbage characters `[ ] , $ ( )`. */
  lemma ConfigFilesClean(line: string, i: nat, c: char)
    requires i < |ConfigFiles(line)| && c in ConfigFiles(line)[i]
    ensures !IsSpace(c) && !IsGarbage(c) && c in line
  {
    var d := Drop(line, |"AC_CONFIG_FILES("|);
    SplitWsChars(RemoveGarbage(Strip(d)), i, c);
    CleanedChars(d, c);
    DropChars(line, |"AC_CONFIG_FILES("|, c);
  }

  /** A character left after stripping and removing garbage is a non-garbage character
      of the text. */
  lemma CleanedChars(d: string, c: char)
    requires c in RemoveGarbage(Strip(d))
    ensures c in d && !IsGarbage(c)
  {
    RemoveGarbageClean(Strip(d));
    StripChars(d);
  }

  /** The entries of `AC_CONFIG_FILES([e1 e2 ...])`, for entries free of whitespace and
      garbage, are `e1, e2, ...` in order. */
  lemma ConfigFilesOfEntries(ws: seq<string>)
    requires forall k :: 0 <= k < |ws| ==> ws[k] != [] && NoSpace(ws[k])
    requires forall k, c :: 0 <= k < |ws| && c in ws[k] ==> !IsGarbage(c)
    ensures ConfigFiles("AC_CONFIG_FILES(" + ("[" + Join(ws, " ") + "])")) == ws
  {
    var j := Join(ws, " ");
    var body := "[" + j + "])";
    assert ConfigFiles("AC_CONFIG_FILES(" + body) == SplitWs(RemoveGarbage(Strip(body))) by {
      assert Drop("AC_CONFIG_FILES(" + body, |"AC_CONFIG_FILES("|) == body;
    }
    assert RemoveGarbage(Strip(body)) == j by {
      BracketedStrip(j);
      JoinNoGarbage(ws);
      BracketsDropped(j);
      JoinTrimmed(ws, " ");
    }
    assert SplitWs(j) == ws by { SplitWsJoin(ws); }
  }

  /** `[<text>])` starts and ends with a non-blank character, so `strip` keeps it. */
  lemma BracketedStrip(j: string)
    ensures Strip("[" + j + "])") == "[" + j + "])"
  {
    var body := "[" + j + "])";
    assert body[0] == '[' && body[|body| - 1] == ')';
    StripTrailing(body, []);
    assert body + [] == body;
  }

  /** Removing garbage from `[<text>])` leaves `<text>` when the text holds none. */
  lemma BracketsDropped(j: string)
    requires forall c :: c in j ==> !IsGarbage(c)
    ensures DropGarbage("[" + j + "])") == j
  {
    DropGarbageAppend("[" + j, "])");
    DropGarbageAppend("[", j);
    assert DropGarbage("[") == [];
    assert DropGarbage("])") == [];
    DropGarbageAbsent(j);
  }

  /** Words free of garbage, joined by spaces, hold no garbage. */
  lemma JoinNoGarbage(ws: seq<string>)
    requires forall k, c :: 0 <= k < |ws| && c in ws[k] ==> !IsGarbage(c)
    ensures forall c :: c in Join(ws, " ") ==> !IsGarbage(c)
  {
    forall c | c in Join(ws, " ") ensures !IsGarbage(c) {
      JoinChars(ws, " ", c);
    }
  }

  /** The Makefile.am an entry stands for, in the working directory. */
  function MakefileOf(env: Env, entry: string): string {
    env.workingDirectory + "/" + entry + ".am"
  }

  /** `process_config_files` over the entries in order: each entry whose Makefile.am
      exists is processed, the others are skipped; an `IndexError` ends the run. Only the
      targets, the extra content and the required directories can change. */
  function ProcessEntries(m: Model, env: Env, entries: seq<string>): (r: Result<Model>)
    requires m.extraContent.Valid()
    ensures r.Ok? ==> r.value.extraContent.Valid()
    ensures r.Ok? ==> && r.value.options == m.options && r.value.defines == m.defines
                      && r.value.configVariables == m.configVariables && r.value.cmakeFiles == m.cmakeFiles
    decreases |entries|
  {
    if entries == [] then Ok(m)
    else
      var path := MakefileOf(env, entries[0]);
      if !env.tree.IsFile(path) then ProcessEntries(m, env, entries[1..])
      else
        match ProcessMakefileAm(m, env, path)
        case IndexError => IndexError
        case Ok(m1) => ProcessEntries(m1, env, entries[1..])
  }

  /** Entries whose Makefile.am does not exist change nothing. */
  /** Directory targets are never renamed, moved or dropped while the entries are read,
      and their canonic names stay distinct. */
  lemma {:induction false} ProcessEntriesTargets(m: Model, env: Env, entries: seq<string>)
    requires m.extraContent.Valid() && DistinctCanonic(m.libraries)
    ensures ProcessEntries(m, env, entries).Ok? ==>
              && DistinctCanonic(ProcessEntries(m, env, entries).value.libraries)
              && KeepsTargets(m.libraries, ProcessEntries(m, env, entries).value.libraries)
    decreases |entries|
  {
    assert m.libraries[..|m.libraries|] == m.libraries;
    if entries != [] {
      var path := MakefileOf(env, entries[0]);
      if !env.tree.IsFile(path) {
        ProcessEntriesTargets(m, env, entries[1..]);
      } else if ProcessMakefileAm(m, env, path).Ok? {
        var m1 := ProcessMakefileAm(m, env, path).value;
        ProcessMakefileAmTargets(m, env, path);
        ProcessEntriesTargets(m1, env, entries[1..]);
        if ProcessEntries(m1, env, entries[1..]).Ok? {
          KeepsTransitive(m.libraries, m1.libraries, ProcessEntries(m1, env, entries[1..]).value.libraries);
        }
      }
    }
  }

  lemma {:induction false} ProcessEntriesMissing(m: Model, env: Env, entries: seq<string>)
    requires m.extraContent.Valid()
    requires forall i :: 0 <= i < |entries| ==> !env.tree.IsFile(MakefileOf(env, entries[i]))
    ensures ProcessEntries(m, env, entries) == Ok(m)
    decreases |entries|
  {
    if entries != [] {
      ProcessEntriesMissing(m, env, entries[1..]);
    }
  }

  /** The entries are processed one after another: a list of entries is its first part,
      then its second part from the model the first part left. */
  lemma {:induction false} ProcessEntriesAppend(m: Model, env: Env, a: seq<string>, b: seq<string>)
    requires m.extraContent.Valid()
    ensures ProcessEntries(m, env, a + b) ==
              match ProcessEntries(m, env, a)
              case IndexError => IndexError
              case Ok(m1) => ProcessEntries(m1, env, b)
    decreases |a|
  {
    if a != [] {
      assert (a + b)[1..] == a[1..] + b;
      var path := MakefileOf(env, a[0]);
      if !env.tree.IsFile(path) {
        ProcessEntriesAppend(m, env, a[1..], b);
      } else {
        match ProcessMakefileAm(m, env, path)
        case IndexError =>
        case Ok(m1) => ProcessEntriesAppend(m1, env, a[1..], b);
      }
    } else {
      assert a + b == b;
    }
  }

  // ---------------------------------------------------------------------- the driver

  /** The macro handlers of `function_list`, applied to the joined text. */
  function Dispatch(m: Model, env: Env, macro: string, text: string): (r: Result<Model>)
    requires m.Valid()
    ensures r.Ok? ==> r.value.Valid() && r.value.configVariables == m.configVariables
    ensures macro == "AC_ARG_ENABLE" ==>
              r == match ParseArgument(text)
                   case IndexError => IndexError
                   case Ok(f) => Ok(m.(options := ArgumentEffect(m.options, f)))
    ensures macro == "AM_CONDITIONAL" ==> r == Ok(m.(options := ConditionalEffect(m.options, ParseConditional(text))))
    ensures macro == "AC_DEFINE" ==> r == Ok(m.(defines := DefineEffect(m.defines, ParseDefine(text))))
    ensures macro == "AC_CONFIG_FILES" ==> r == ProcessEntries(m, env, ConfigFiles(text))
  {
    if macro == "AC_ARG_ENABLE" then
      match ParseArgument(text)
      case IndexError => IndexError
      case Ok(f) => Ok(m.(options := ArgumentEffect(m.options, f)))
    else if macro == "AM_CONDITIONAL" then Ok(m.(options := ConditionalEffect(m.options, ParseConditional(text))))
    else if macro == "AC_DEFINE" then Ok(m.(defines := DefineEffect(m.defines, ParseDefine(text))))
    else ProcessEntries(m, env, ConfigFiles(text))
  }

  /** The state the loop carries from one line to the next: the conversion state, the
      last line read (the last joined one after a macro), and the look-back. */
  datatype Scan = Scan(model: Model, current: string, previous: string, distance: nat)

  /** One iteration of the loop over line `i` of the stripped lines. */
  function ScanLine(lines: seq<string>, i: nat, env: Env, st: Scan): (r: Result<Scan>)
    requires i < |lines| && st.model.Valid()
    ensures r.Ok? ==> r.value.model.Valid()
    ensures r.Ok? ==> Grows(st.model.configVariables, r.value.model.configVariables)
    ensures r.Ok? && LookBackInv(st.previous, st.distance) ==> LookBackInv(r.value.previous, r.value.distance)
  {
    GrowsReflexive(st.model.configVariables);
    var (previous, distance) := LookBack(st.current, st.previous, st.distance);
    var line := lines[i];
    if StartsWith(line, "#") || line == [] then Ok(Scan(st.model, line, previous, distance))
    else
      var m := st.model.(configVariables := CaptureEffect(st.model.configVariables, Capture(line)));
      var macro := ProcessableLine(line);
      if macro == "" then Ok(Scan(m, line, previous, distance))
      else
        match MacroScan(lines, i, env, m, macro, previous)
        case IndexError => IndexError
        case Ok((m1, last)) => Ok(Scan(m1, lines[last], previous, distance))
  }

  /** The macro part of an iteration: the joined run of lines from `i` (with the kept
      look-back line after an `AC_DEFINE`) goes to the macro's handler; the result is the
      handler's model and the index of the run's last line. */
  function MacroScan(lines: seq<string>, i: nat, env: Env, m: Model, macro: string, previous: string)
    : (r: Result<(Model, nat)>)
    requires m.Valid()
    ensures r.Ok? ==> r.value.0.Valid() && r.value.0.configVariables == m.configVariables
    ensures r.Ok? ==> i <= r.value.1 < |lines|
  {
    match JoinFrom(lines, i, "")
    case IndexError => IndexError
    case Ok((full, last)) =>
      match Dispatch(m, env, macro, if macro == "AC_DEFINE" then full + previous else full)
      case IndexError => IndexError
      case Ok(m1) => Ok((m1, last))
  }

  /** The loop from line `i` on. Every line is visited, including the ones a macro
      already joined: the joiner's advance of `i` does not carry over to the next
      iteration. */
  function ScanFrom(lines: seq<string>, i: nat, env: Env, st: Scan): (r: Result<Scan>)
    requires i <= |lines| && st.model.Valid()
    ensures r.Ok? ==> r.value.model.Valid()
    ensures r.Ok? ==> Grows(st.model.configVariables, r.value.model.configVariables)
    ensures r.Ok? && LookBackInv(st.previous, st.distance) ==> LookBackInv(r.value.previous, r.value.distance)
    decreases |lines| - i
  {
    if i == |lines| then GrowsReflexive(st.model.configVariables); Ok(st)
    else
      match ScanLine(lines, i, env, st)
      case IndexError => IndexError
      case Ok(st1) =>
        var r := ScanFrom(lines, i + 1, env, st1);
        if r.Ok? then GrowsTransitive(st.model.configVariables, st1.model.configVariables, r.value.model.configVariables); r
        else r
  }

  /** `process_configure_ac` on the lines of configure.ac: the scan, then the exact
      pass and the fuzzy pass that bind the defines to the options. */
  function ConfigureAc(m: Model, env: Env, raw: seq<string>, similar: (string, string) -> Ratio): (r: Result<Model>)
    requires m.Valid()
    ensures r.Ok? ==> r.value.Valid()
  {
    match ScanFrom(StripAll(raw), 0, env, Scan(m, "", "", 0))
    case IndexError => IndexError
    case Ok(st) =>
      var (options, defines) := ResolveExact(st.model.options, st.model.defines);
      var (options2, defines2) := ResolveFuzzy(options, defines, Criterion(similar));
      Ok(st.model.(options := options2, defines := defines2))
  }

  /** A name prefix followed by `(` is not an assignment. */
  lemma ParenthesisStopsCapture(line: string, n: nat)
    requires n < |line| && line[n] == '(' && forall i :: 0 <= i < n ==> IsNameChar(line[i])
    ensures Capture(line) == NoAssignment
  {
    if '=' in line && IsAlpha(line[0]) {
      NameLengthOf(line, n);
      SkipSpacesOf(line, n, n);
    }
  }

  /** A macro line is never captured as a variable: its name is followed by `(`. */
  lemma MacroIsNoAssignment(line: string)
    requires ProcessableLine(line) != ""
    ensures Capture(line) == NoAssignment
  {
    var macro := ProcessableLine(line);
    MacroNameChars(macro);
    StartsWithAt(line, macro + "(");
    assert forall i :: 0 <= i < |macro| ==> line[i] == (macro + "(")[i] == macro[i];
    assert line[|macro|] == (macro + "(")[|macro|];
    ParenthesisStopsCapture(line, |macro|);
  }

  /** The macro names are made of name characters. */
  lemma MacroNameChars(macro: string)
    requires macro in ["AC_ARG_ENABLE", "AM_CONDITIONAL", "AC_DEFINE", "AC_CONFIG_FILES"]
    ensures forall i :: 0 <= i < |macro| ==> IsNameChar(macro[i])
  {
  }

  /** A `name=value` line appends its value to the variable, and the line becomes the
      current one; options and defines are not touched. */
  lemma ScanLineAssignment(lines: seq<string>, i: nat, env: Env, st: Scan)
    requires i < |lines| && st.model.Valid() && Capture(lines[i]).Assignment?
    ensures var lb := LookBack(st.current, st.previous, st.distance);
            ScanLine(lines, i, env, st) ==
              Ok(Scan(st.model.(configVariables := CaptureEffect(st.model.configVariables, Capture(lines[i]))),
                      lines[i], lb.0, lb.1))
  {
    var line := lines[i];
    var a := Capture(line);
    assert line[0] == a.name[0];
    assert !StartsWith(line, "#");
    if ProcessableLine(line) != "" {
      MacroIsNoAssignment(line);
    }
  }

  /** A macro whose parentheses no run of the remaining lines balances ends the run with
      an `IndexError`. */
  lemma ScanLineUnbalanced(lines: seq<string>, i: nat, env: Env, st: Scan)
    requires i < |lines| && st.model.Valid()
    requires !StartsWith(lines[i], "#") && lines[i] != [] && ProcessableLine(lines[i]) != ""
    requires forall e :: i < e <= |lines| ==> Unbalanced(lines, i, e)
    ensures ScanLine(lines, i, env, st) == IndexError
  {
    JoinMacroShortest(lines, i);
  }

  /** A macro line hands its handler the shortest run of lines from it whose
      parentheses balance (with the kept look-back line after an `AC_DEFINE`), and the
      last line of that run becomes the current one. */
  lemma ScanLineMacro(lines: seq<string>, i: nat, last: nat, env: Env, st: Scan)
    requires i <= last < |lines| && st.model.Valid()
    requires !StartsWith(lines[i], "#") && lines[i] != [] && ProcessableLine(lines[i]) != ""
    requires !Unbalanced(lines, i, last + 1) && forall e :: i < e <= last ==> Unbalanced(lines, i, e)
    ensures var lb := LookBack(st.current, st.previous, st.distance);
            var macro := ProcessableLine(lines[i]);
            var full := Joined(lines, i, last + 1);
            var text := if macro == "AC_DEFINE" then full + lb.0 else full;
            ScanLine(lines, i, env, st) ==
              match Dispatch(st.model, env, macro, text)
              case IndexError => IndexError
              case Ok(m1) => Ok(Scan(m1, lines[last], lb.0, lb.1))
  {
    JoinFromShortest(lines, i, last);
    MacroIsNoAssignment(lines[i]);
    assert st.model.(configVariables := CaptureEffect(st.model.configVariables, Capture(lines[i]))) == st.model;
  }

  /** The joiner's result is the shortest balanced run, whatever it is. */
  lemma JoinFromShortest(lines: seq<string>, i: nat, last: nat)
    requires i <= last < |lines|
    requires !Unbalanced(lines, i, last + 1) && forall e :: i < e <= last ==> Unbalanced(lines, i, e)
    ensures JoinFrom(lines, i, "") == Ok((Joined(lines, i, last + 1), last))
  {
    JoinMacroShortest(lines, i);
    var r := JoinFrom(lines, i, "");
    assert r.Ok?;
    var k := r.value.1;
    assert !Unbalanced(lines, i, k + 1) && !Unbalanced(lines, i, last + 1);
    assert k == last;
  }

  /** Lines that are neither macros nor assignments leave the state as it was, apart from
      the current line and the look-back. */
  lemma ScanLinePlain(lines: seq<string>, i: nat, env: Env, st: Scan)
    requires i < |lines| && st.model.Valid()
    requires ProcessableLine(lines[i]) == "" && Capture(lines[i]) == NoAssignment
    ensures var lb := LookBack(st.current, st.previous, st.distance);
            ScanLine(lines, i, env, st) == Ok(Scan(st.model, lines[i], lb.0, lb.1))
  {
  }

  /** Every variable of `a` is in `b`, with `a`'s values at the start of its list. */
  predicate Grows(a: Dict<seq<string>>, b: Dict<seq<string>>) {
    forall k :: k in a.entries ==> k in b.entries && StartsWithSeq(b.entries[k], a.entries[k])
  }

  lemma GrowsTransitive(a: Dict<seq<string>>, b: Dict<seq<string>>, c: Dict<seq<string>>)
    requires Grows(a, b) && Grows(b, c)
    ensures Grows(a, c)
  {
    forall k | k in a.entries
      ensures k in c.entries && StartsWithSeq(c.entries[k], a.entries[k])
    {
      StartsWithSeqTransitive(c.entries[k], b.entries[k], a.entries[k]);
    }
  }

  lemma GrowsReflexive(a: Dict<seq<string>>)
    ensures Grows(a, a)
  {
    forall k | k in a.entries
      ensures StartsWithSeq(a.entries[k], a.entries[k])
    {
      assert a.entries[k][..|a.entries[k]|] == a.entries[k];
    }
  }

  lemma StartsWithSeqTransitive(a: seq<string>, b: seq<string>, c: seq<string>)
    requires StartsWithSeq(a, b) && StartsWithSeq(b, c)
    ensures StartsWithSeq(a, c)
  {
    assert a[..|c|] == a[..|b|][..|c|];
  }
}
