/** Python string primitives the converter relies on, restated over `seq<char>`:
    whitespace stripping and splitting, splitting on a separator, joining,
    substring search, prefix/suffix tests, character removal, ASCII case
    mapping and code-point ordering with a stable sort. */
module Strings {

  /** Python's `str.isspace()` set of characters. */
  predicate IsSpace(c: char) {
    || c == ' ' || c == '\t' || c == '\n' || c == '\r' || c == '\U{B}' || c == '\U{C}'
    || ('\U{1C}' <= c <= '\U{1F}') || c == '\U{85}' || c == '\U{A0}' || c == '\U{1680}'
    || ('\U{2000}' <= c <= '\U{200A}') || c == '\U{2028}' || c == '\U{2029}'
    || c == '\U{202F}' || c == '\U{205F}' || c == '\U{3000}'
  }

  /** ASCII part of Python's `str.isdigit()` / `str.isalpha()`. */
  predicate IsDigit(c: char) { '0' <= c <= '9' }
  predicate IsAlpha(c: char) { 'a' <= c <= 'z' || 'A' <= c <= 'Z' }
  predicate IsAlnum(c: char) { IsDigit(c) || IsAlpha(c) }

  predicate StartsWith(s: string, prefix: string) {
    |prefix| <= |s| && s[..|prefix|] == prefix
  }

  predicate EndsWith(s: string, suffix: string) {
    |suffix| <= |s| && s[|s| - |suffix|..] == suffix
  }

  /** Python's `sub in s`. */
  predicate Contains(s: string, sub: string)
    decreases |s|
  {
    StartsWith(s, sub) || (s != [] && Contains(s[1..], sub))
  }

  /** Python's `s[n:]`. */
  function Drop(s: string, n: nat): (r: string)
    ensures |r| == if n <= |s| then |s| - n else 0
    ensures n <= |s| ==> r == s[n..]
  {
    if n <= |s| then s[n..] else []
  }

  /** Python's `s[:-n]` for a positive `n`. */
  function DropLast(s: string, n: nat): (r: string)
    ensures |r| == if n <= |s| then |s| - n else 0
    ensures r == s[..|r|]
  {
    if n <= |s| then s[..|s| - n] else []
  }

  /** Python's `s.lstrip()`. */
  function TrimLeft(s: string): (r: string)
    ensures |r| <= |s| && r == s[|s| - |r|..]
    ensures r == [] || !IsSpace(r[0])
    ensures forall i :: 0 <= i < |s| - |r| ==> IsSpace(s[i])
  {
    DropWhile(s, IsSpace)
  }

  /** Python's `s.rstrip()`. */
  function TrimRight(s: string): (r: string)
    ensures |r| <= |s| && r == s[..|r|]
    ensures r == [] || !IsSpace(r[|r| - 1])
    ensures forall i :: |r| <= i < |s| ==> IsSpace(s[i])
  {
    DropLastWhile(s, IsSpace)
  }

  /** `s` without its longest prefix of characters satisfying `p`. */
  function DropWhile(s: string, p: char -> bool): (r: string)
    ensures |r| <= |s| && r == s[|s| - |r|..]
    ensures r == [] || !p(r[0])
    ensures forall i :: 0 <= i < |s| - |r| ==> p(s[i])
  {
    if s != [] && p(s[0]) then
      var r := DropWhile(s[1..], p);
      assert forall i :: 0 < i < |s| - |r| ==> s[i] == s[1..][i - 1];
      r
    else s
  }

  /** `s` without its longest suffix of characters satisfying `p`. */
  function DropLastWhile(s: string, p: char -> bool): (r: string)
    ensures |r| <= |s| && r == s[..|r|]
    ensures r == [] || !p(r[|r| - 1])
    ensures forall i :: |r| <= i < |s| ==> p(s[i])
  {
    if s != [] && p(s[|s| - 1]) then DropLastWhile(s[..|s| - 1], p) else s
  }

  /** Number of whitespace characters `s.lstrip()` removes. */
  function LeadingSpaces(s: string): nat
  {
    |s| - |TrimLeft(s)|
  }

  /** The strings with `f` applied to each, in order. */
  function MapAll(f: string -> string, ss: seq<string>): (r: seq<string>)
    ensures |r| == |ss| && forall i :: 0 <= i < |ss| ==> r[i] == f(ss[i])
  {
    if ss == [] then [] else [f(ss[0])] + MapAll(f, ss[1..])
  }

  /** Python's `s.strip()`: the result is a piece of `s` with no whitespace at either end,
      and everything cut away was whitespace. */
  function Strip(s: string): (r: string)
    ensures r == [] || (!IsSpace(r[0]) && !IsSpace(r[|r| - 1]))
    ensures LeadingSpaces(s) + |r| <= |s| && r == s[LeadingSpaces(s)..LeadingSpaces(s) + |r|]
  {
    DropBoth(s, IsSpace)
  }

  /** `s` without its longest prefix and then its longest suffix of characters
      satisfying `p`. */
  function DropBoth(s: string, p: char -> bool): (r: string)
    ensures r == [] || (!p(r[0]) && !p(r[|r| - 1]))
    ensures var n := |s| - |DropWhile(s, p)|; n + |r| <= |s| && r == s[n..n + |r|]
  {
    var l := DropWhile(s, p);
    var r := DropLastWhile(l, p);
    PrefixOfSuffix(s, l, r);
    r
  }

  /** A prefix `r` of a suffix `l` of `s` is the slice of `s` where `l` starts. */
  lemma PrefixOfSuffix<T>(s: seq<T>, l: seq<T>, r: seq<T>)
    requires |l| <= |s| && l == s[|s| - |l|..] && |r| <= |l| && r == l[..|r|]
    ensures r == s[|s| - |l|..|s| - |l| + |r|] && (r != [] ==> r[0] == l[0])
  {
  }

  /** Whitespace after a text with no whitespace at either end is what `strip` removes. */
  lemma StripTrailing(w: string, g: string)
    requires w != [] && !IsSpace(w[0]) && !IsSpace(w[|w| - 1])
    requires forall i :: 0 <= i < |g| ==> IsSpace(g[i])
    ensures Strip(w + g) == w
  {
    var s := w + g;
    var l := DropWhile(s, IsSpace);
    assert !IsSpace(s[0]);
    assert l == s;
    var r := DropLastWhile(s, IsSpace);
    assert !IsSpace(s[|w| - 1]);
    assert forall j :: |w| <= j < |s| ==> s[j] == g[j - |w|];
    assert |r| == |w|;
    assert r == s[..|w|] == w;
  }

  /** Stripping keeps the piece `s[i..i + m]` whole when a non-space character stands at
      or before its start and its last character is not a space. */
  lemma StripKeeps(s: string, i: nat, m: nat, p: nat)
    requires p <= i && 0 < m && i + m <= |s|
    requires !IsSpace(s[p]) && !IsSpace(s[i + m - 1])
    ensures LeadingSpaces(s) <= i && OccursAt(Strip(s), s[i..i + m], i - LeadingSpaces(s))
  {
    StripBounds(s, i, m, p);
    var r := Strip(s);
    var n := LeadingSpaces(s);
    assert r == s[n..n + |r|];
    PieceWithin(s, r, n, i, m);
  }

  lemma StripBounds(s: string, i: nat, m: nat, p: nat)
    requires p <= i && 0 < m && i + m <= |s|
    requires !IsSpace(s[p]) && !IsSpace(s[i + m - 1])
    ensures LeadingSpaces(s) <= i && i + m <= LeadingSpaces(s) + |Strip(s)|
  {
    var l := DropWhile(s, IsSpace);
    var r := DropLastWhile(l, IsSpace);
    var n := |s| - |l|;
    assert TrimLeft(s) == l;
    assert n <= p;
    assert l[i + m - 1 - n] == s[i + m - 1];
    assert Strip(s) == r;
  }

  /** A piece of `s` that lies inside the slice `r` of `s` starting at `n` is a piece of `r`. */
  lemma PieceWithin(s: string, r: string, n: nat, i: nat, m: nat)
    requires n + |r| <= |s| && r == s[n..n + |r|]
    requires n <= i && i + m <= n + |r|
    ensures OccursAt(r, s[i..i + m], i - n)
  {
    var a := r[i - n..i - n + m];
    var b := s[i..i + m];
    forall j | 0 <= j < m ensures a[j] == b[j] {
      assert r[i - n + j] == s[n..n + |r|][i - n + j];
    }
    assert a == b;
  }

  /** A string that starts with `p` agrees with it on each of `p`'s positions. */
  lemma StartsWithAt(s: string, p: string)
    requires StartsWith(s, p)
    ensures forall i :: 0 <= i < |p| ==> s[i] == p[i]
  {
    assert forall i :: 0 <= i < |p| ==> s[i] == s[..|p|][i];
  }

  /** Stripping keeps only characters of the original. */
  lemma StripChars(s: string)
    ensures forall c :: c in Strip(s) ==> c in s
  {
    var r := Strip(s);
    forall i | 0 <= i < |r| ensures r[i] in s {
      assert r[i] == s[LeadingSpaces(s) + i];
    }
  }

  lemma StripIdempotent(s: string)
    ensures Strip(Strip(s)) == Strip(s)
  {
    var r := Strip(s);
    assert TrimLeft(r) == r;
    assert TrimRight(r) == r;
  }

  /** A string with no whitespace at either end is its own strip. */
  lemma StripOfTrimmed(s: string)
    requires s == [] || (!IsSpace(s[0]) && !IsSpace(s[|s| - 1]))
    ensures Strip(s) == s
  {
  }

  /** Python's `sep.join(parts)`. */
  function Join(parts: seq<string>, sep: string): string
  {
    if parts == [] then [] else if |parts| == 1 then parts[0] else parts[0] + sep + Join(parts[1..], sep)
  }

  /** The last piece of a join follows the last separator. */
  lemma {:induction false} JoinLast(parts: seq<string>, sep: string)
    requires |parts| >= 2
    ensures Join(parts, sep) == Join(parts[..|parts| - 1], sep) + sep + parts[|parts| - 1]
    decreases |parts|
  {
    if |parts| > 2 {
      JoinLast(parts[1..], sep);
      assert parts[1..][..|parts| - 2] == parts[..|parts| - 1][1..];
    }
  }

  /** Python's `"".join(parts)`. */
  function Concat(parts: seq<string>): string
  {
    if parts == [] then [] else parts[0] + Concat(parts[1..])
  }

  lemma ConcatAppend(parts: seq<string>, p: string)
    ensures Concat(parts + [p]) == Concat(parts) + p
  {
    if parts != [] {
      assert (parts + [p])[1..] == parts[1..] + [p];
      ConcatAppend(parts[1..], p);
    }
  }

  lemma ConcatSplit(a: seq<string>, b: seq<string>)
    ensures Concat(a + b) == Concat(a) + Concat(b)
  {
    if a != [] {
      calc {
        Concat(a + b);
        { assert (a + b)[0] == a[0] && (a + b)[1..] == a[1..] + b; }
        a[0] + Concat(a[1..] + b);
        { ConcatSplit(a[1..], b); }
        a[0] + (Concat(a[1..]) + Concat(b));
        Concat(a) + Concat(b);
      }
    } else {
      assert a + b == b;
    }
  }

  /** Python's `[x for l in lists for x in l]`. */
  function Flatten(lists: seq<seq<string>>): seq<string>
  {
    if lists == [] then [] else lists[0] + Flatten(lists[1..])
  }

  lemma FlattenAppend(lists: seq<seq<string>>, l: seq<string>)
    ensures Flatten(lists + [l]) == Flatten(lists) + l
  {
    if lists != [] {
      assert (lists + [l])[1..] == lists[1..] + [l];
      FlattenAppend(lists[1..], l);
    }
  }

  /** `sub` occurs in `s` starting at index `j`. */
  predicate OccursAt(s: string, sub: string, j: int) {
    0 <= j && j + |sub| <= |s| && s[j..j + |sub|] == sub
  }

  /** Index of the first occurrence of `sub` in `s`, as Python's `s.find(sub)`. */
  function Find(s: string, sub: string): (r: int)
    decreases |s|
    ensures r == -1 || OccursAt(s, sub, r)
    ensures forall j :: 0 <= j && (j < r || r == -1) ==> !OccursAt(s, sub, j)
    ensures (r >= 0) == Contains(s, sub)
  {
    if StartsWith(s, sub) then 0
    else if s == [] then -1
    else
      var k := Find(s[1..], sub);
      forall j | 1 <= j ensures OccursAt(s, sub, j) == OccursAt(s[1..], sub, j - 1) {
        if j + |sub| <= |s| {
          assert s[1..][j - 1..j - 1 + |sub|] == s[j..j + |sub|];
        } else {
          assert !OccursAt(s, sub, j) && !OccursAt(s[1..], sub, j - 1);
        }
      }
      if k == -1 then -1 else k + 1
  }

  /** A string without the character `c` does not contain it as a substring. */
  lemma CharNotContained(s: string, c: char)
    requires c !in s
    ensures !Contains(s, [c])
  {
    forall j | 0 <= j ensures !OccursAt(s, [c], j) {
      if j + 1 <= |s| {
        assert s[j..j + 1][0] == s[j];
      }
    }
    NotContainsFromWindows(s, [c]);
  }

  /** `find` returns the first occurrence. */
  lemma FindFirst(s: string, sub: string, i: nat)
    requires OccursAt(s, sub, i) && forall j :: 0 <= j < i ==> !OccursAt(s, sub, j)
    ensures Find(s, sub) == i
  {
  }

  /** Python's `s.split(sep)` for a non-empty separator: the pieces joined by `sep`
      give `s` back, and no piece holds the separator. */
  function SplitOn(s: string, sep: string): (r: seq<string>)
    requires sep != []
    decreases |s|
    ensures |r| >= 1
    ensures Join(r, sep) == s
    ensures forall k :: 0 <= k < |r| ==> !Contains(r[k], sep)
  {
    var i := Find(s, sep);
    if i == -1 then
      [s]
    else
      var head := s[..i];
      var rest := SplitOn(s[i + |sep|..], sep);
      JoinCons(s, sep, i, rest);
      NoEarlierOccurrence(s, sep, i);
      assert forall k :: 1 <= k < |rest| + 1 ==> ([head] + rest)[k] == rest[k - 1];
      [head] + rest
  }

  /** Splitting on a character that occurs exactly once gives the text before it and
      the text after it. */
  lemma SplitOnChar(a: string, c: char, b: string)
    requires c !in a && c !in b
    ensures SplitOn(a + [c] + b, [c]) == [a, b]
  {
    var s := a + [c] + b;
    assert s[|a|..|a| + 1] == [c];
    forall j | 0 <= j < |a| ensures !OccursAt(s, [c], j) {
      assert s[j..j + 1][0] == a[j];
    }
    FindFirst(s, [c], |a|);
    assert s[..|a|] == a && s[|a| + 1..] == b;
    CharNotContained(b, c);
  }

  /** The piece before an occurrence of `sep` at `i`, joined to the pieces of what follows
      it, gives `s` back. */
  lemma JoinCons(s: string, sep: string, i: nat, rest: seq<string>)
    requires OccursAt(s, sep, i) && |rest| >= 1 && Join(rest, sep) == s[i + |sep|..]
    ensures Join([s[..i]] + rest, sep) == s
  {
    JoinFront(s[..i], rest, sep);
    AroundOccurrence(s, sep, i);
  }

  /** Joining one more piece in front puts it and a separator before the rest. */
  lemma JoinFront(h: string, rest: seq<string>, sep: string)
    requires |rest| >= 1
    ensures Join([h] + rest, sep) == h + sep + Join(rest, sep)
  {
    assert ([h] + rest)[1..] == rest;
  }

  /** A text is the part before an occurrence, the occurrence, and the part after it. */
  lemma AroundOccurrence(s: string, sub: string, i: nat)
    requires OccursAt(s, sub, i)
    ensures s == s[..i] + sub + s[i + |sub|..]
  {
    assert s == s[..i] + s[i..i + |sub|] + s[i + |sub|..];
  }

  /** No occurrence of `sep` lies wholly before its first occurrence at `i`. */
  lemma NoEarlierOccurrence(s: string, sep: string, i: int)
    requires sep != [] && 0 <= i <= |s|
    requires forall j :: 0 <= j < i ==> !OccursAt(s, sep, j)
    ensures !Contains(s[..i], sep)
  {
    var t := s[..i];
    forall j | 0 <= j ensures OccursAt(t, sep, j) ==> OccursAt(s, sep, j) {
      if j + |sep| <= |t| {
        assert t[j..j + |sep|] == s[j..j + |sep|];
      }
    }
    NotContainsFromWindows(t, sep);
  }

  lemma NotContainsFromWindows(t: string, sep: string)
    requires forall j :: 0 <= j ==> !OccursAt(t, sep, j)
    ensures !Contains(t, sep)
    decreases |t|
  {
    assert !OccursAt(t, sep, 0);
    if t != [] {
      forall j | 0 <= j ensures OccursAt(t[1..], sep, j) ==> OccursAt(t, sep, j + 1) {
        if j + |sep| <= |t[1..]| {
          assert t[1..][j..j + |sep|] == t[j + 1..j + 1 + |sep|];
        }
      }
      NotContainsFromWindows(t[1..], sep);
    }
  }

  /** Removes every occurrence of one character, as `s.replace(c, '')`. */
  function Remove(s: string, c: char): (r: string)
    ensures c !in r
    ensures forall d :: d != c ==> (d in r <==> d in s)
    ensures |r| <= |s|
  {
    if s == [] then [] else (if s[0] == c then [] else [s[0]]) + Remove(s[1..], c)
  }

  /** Removing a character from a concatenation removes it from each part. */
  lemma {:induction false} RemoveAppend(a: string, b: string, c: char)
    ensures Remove(a + b, c) == Remove(a, c) + Remove(b, c)
    decreases |a|
  {
    if a != [] {
      assert (a + b)[0] == a[0] && (a + b)[1..] == a[1..] + b;
      RemoveAppend(a[1..], b, c);
    } else {
      assert a + b == b;
    }
  }

  /** Removes every occurrence of each character of `cs`, one `replace` after another. */
  function RemoveEach(s: string, cs: string): (r: string)
    ensures forall c :: c in cs ==> c !in r
    ensures forall c :: c !in cs ==> (c in r <==> c in s)
    decreases |cs|
  {
    if cs == [] then s else RemoveEach(Remove(s, cs[0]), cs[1..])
  }

  lemma RemoveAbsent(s: string, c: char)
    requires c !in s
    ensures Remove(s, c) == s
  {
  }

  /** Replaces every occurrence of one character by another, as `s.replace(c, d)`. */
  function ReplaceChar(s: string, c: char, d: char): (r: string)
    ensures |r| == |s|
    ensures forall i :: 0 <= i < |s| ==> r[i] == if s[i] == c then d else s[i]
  {
    if s == [] then [] else [if s[0] == c then d else s[0]] + ReplaceChar(s[1..], c, d)
  }

  /** Python's `s.replace(pat, repl)` for a non-empty `pat`. */
  function ReplaceAll(s: string, pat: string, repl: string): string
    requires pat != []
  {
    Join(SplitOn(s, pat), repl)
  }

  /** Python's `s.replace(pat, repl, 1)`. */
  function ReplaceFirst(s: string, pat: string, repl: string): (r: string)
    ensures pat == [] ==> r == repl + s
    ensures !Contains(s, pat) ==> r == s
    ensures Contains(s, pat) && pat != [] ==>
              var i := Find(s, pat); r == s[..i] + repl + s[i + |pat|..]
  {
    if pat == [] then repl + s
    else
      var i := Find(s, pat);
      if i == -1 then s else s[..i] + repl + s[i + |pat|..]
  }

  /** Replacing the first occurrence of a prefix removes that prefix. */
  lemma ReplaceFirstPrefix(p: string, t: string)
    ensures ReplaceFirst(p + t, p, "") == t
  {
    if p != [] {
      assert OccursAt(p + t, p, 0);
      FindFirst(p + t, p, 0);
      assert (p + t)[|p|..] == t;
    }
  }

  /** Replacing the first occurrence of a character not in `a` removes the one after `a`. */
  lemma ReplaceFirstCharAfter(a: string, c: char, b: string)
    requires c !in a
    ensures ReplaceFirst(a + [c] + b, [c], "") == a + b
  {
    var t := a + [c] + b;
    assert OccursAt(t, [c], |a|);
    forall j | 0 <= j < |a| ensures !OccursAt(t, [c], j) {
      assert t[j..j + 1][0] == a[j];
    }
    FindFirst(t, [c], |a|);
    assert t[..|a|] == a && t[|a| + 1..] == b;
  }

  /** ASCII part of Python's `str.upper()`. */
  function UpperChar(c: char): char {
    if 'a' <= c <= 'z' then (c as int - 'a' as int + 'A' as int) as char else c
  }

  function Upper(s: string): (r: string)
    ensures |r| == |s|
    ensures forall i :: 0 <= i < |s| ==> r[i] == UpperChar(s[i])
  {
    if s == [] then [] else [UpperChar(s[0])] + Upper(s[1..])
  }

  /** `n` copies of a character, as `c * n`. */
  function Repeat(c: char, n: nat): (r: string)
    ensures |r| == n && forall i :: 0 <= i < n ==> r[i] == c
  {
    if n == 0 then [] else [c] + Repeat(c, n - 1)
  }

  /** Prefix of `s` before the first character of `stops`, as a loop over the
      characters that breaks at a stop character. */
  function PrefixBefore(s: string, stops: set<char>): (r: string)
    ensures |r| <= |s| && r == s[..|r|]
    ensures forall i :: 0 <= i < |r| ==> r[i] !in stops
    ensures |r| < |s| ==> s[|r|] in stops
  {
    if s == [] || s[0] in stops then [] else [s[0]] + PrefixBefore(s[1..], stops)
  }

  /** The prefix before the first stop character is the one the stop character ends. */
  lemma {:induction false} PrefixBeforeAt(s: string, stops: set<char>, n: nat)
    requires n <= |s| && (forall j :: 0 <= j < n ==> s[j] !in stops) && (n < |s| ==> s[n] in stops)
    ensures PrefixBefore(s, stops) == s[..n]
  {
    if n > 0 {
      PrefixBeforeAt(s[1..], stops, n - 1);
      assert s[..n] == [s[0]] + s[1..][..n - 1];
    }
  }

  /** The text after the first `c`, or "" when there is none. */
  function AfterFirst(s: string, c: char): (r: string)
    ensures c in s ==> |PrefixBefore(s, {c})| < |s| && r == s[|PrefixBefore(s, {c})| + 1..]
    ensures c !in s ==> r == []
  {
    var p := PrefixBefore(s, {c});
    if |p| < |s| then s[|p| + 1..] else []
  }

  /** Python's `s.split()`: the maximal runs of non-whitespace characters. */
  function SplitWs(s: string): (r: seq<string>)
    decreases |s|
    ensures forall k :: 0 <= k < |r| ==> r[k] != [] && NoSpace(r[k])
  {
    var t := TrimLeft(s);
    if t == [] then []
    else
      var n := WordLength(t);
      var rest := SplitWs(t[n..]);
      ConsTokens(t[..n], rest);
      [t[..n]] + rest
  }

  lemma ConsTokens(w: string, rest: seq<string>)
    requires w != [] && NoSpace(w)
    requires forall k :: 0 <= k < |rest| ==> rest[k] != [] && NoSpace(rest[k])
    ensures forall k :: 0 <= k < |[w] + rest| ==> ([w] + rest)[k] != [] && NoSpace(([w] + rest)[k])
  {
    forall k | 0 <= k < |[w] + rest|
      ensures ([w] + rest)[k] != [] && NoSpace(([w] + rest)[k])
    {
      if k > 0 {
        assert ([w] + rest)[k] == rest[k - 1];
      }
    }
  }

  /** A text with a non-blank character splits into its first word and the tokens after it. */
  lemma SplitWsFirst(s: string, t: string, n: nat)
    requires t == TrimLeft(s) && t != [] && n == WordLength(t)
    ensures SplitWs(s) == [t[..n]] + SplitWs(t[n..])
  {
  }

  /** Dropping a prefix keeps only characters of the text. */
  lemma DropChars(s: string, n: nat, c: char)
    requires c in Drop(s, n)
    ensures c in s
  {
    var k :| 0 <= k < |Drop(s, n)| && Drop(s, n)[k] == c;
    assert s[n + k] == c;
  }

  /** Every token holds only characters of the text it was split from, and no whitespace. */
  lemma SplitWsChars(s: string, i: nat, c: char)
    requires i < |SplitWs(s)| && c in SplitWs(s)[i]
    ensures c in s && !IsSpace(c)
  {
    var e := SplitWs(s)[i];
    var m :| 0 <= m < |e| && e[m] == c;
    SplitWsKeepsText(s);
    ConcatHolds(SplitWs(s), i, c);
    RemoveSpacesChars(s, c);
  }

  /** A character of one piece is a character of the pieces put together. */
  lemma {:induction false} ConcatHolds(parts: seq<string>, i: nat, c: char)
    requires i < |parts| && c in parts[i]
    ensures c in Concat(parts)
    decreases i
  {
    if i > 0 {
      ConcatHolds(parts[1..], i - 1, c);
    }
  }

  /** Removing whitespace keeps only characters of the input. */
  lemma {:induction false} RemoveSpacesChars(s: string, c: char)
    requires c in RemoveSpaces(s)
    ensures c in s
    decreases |s|
  {
    if s != [] && c !in [s[0]] {
      RemoveSpacesChars(s[1..], c);
    }
  }

  /** A text that does not start with whitespace is its own left-trimmed form. */
  lemma TrimLeftNone(s: string)
    requires s == [] || !IsSpace(s[0])
    ensures TrimLeft(s) == s
  {
  }

  /** One space in front of a text that does not start with whitespace changes no token. */
  lemma SplitWsSpace(j: string)
    requires j == [] || !IsSpace(j[0])
    ensures SplitWs(" " + j) == SplitWs(j)
  {
    assert (" " + j)[1..] == j;
    TrimLeftNone(j);
    assert TrimLeft(" " + j) == j;
  }

  /** A word followed by whitespace or by nothing is read whole. */
  lemma {:induction false} WordLengthOf(w: string, rest: string)
    requires NoSpace(w) && (rest == [] || IsSpace(rest[0]))
    ensures WordLength(w + rest) == |w|
    decreases |w|
  {
    if w != [] {
      assert (w + rest)[1..] == w[1..] + rest;
      assert NoSpace(w[1..]) by { assert forall i :: 0 <= i < |w| - 1 ==> w[1..][i] == w[i + 1]; }
      WordLengthOf(w[1..], rest);
    } else {
      assert w + rest == rest;
    }
  }

  /** Joining non-empty pieces starts with the first piece's first character and ends with
      the last piece's last character. */
  lemma {:induction false} JoinEnds(ws: seq<string>, sep: string)
    requires ws != [] && forall k :: 0 <= k < |ws| ==> ws[k] != []
    ensures var j := Join(ws, sep);
            j != [] && j[0] == ws[0][0] && j[|j| - 1] == ws[|ws| - 1][|ws[|ws| - 1]| - 1]
    decreases |ws|
  {
    if |ws| > 1 {
      var tail := ws[1..];
      var t := Join(tail, sep);
      assert forall k :: 0 <= k < |tail| ==> tail[k] == ws[k + 1];
      JoinEnds(tail, sep);
      var j := Join(ws, sep);
      assert j == ws[0] + sep + t;
      assert j[0] == ws[0][0];
      assert j[|j| - 1] == t[|t| - 1];
      assert tail[|tail| - 1] == ws[|ws| - 1];
    } else {
      assert Join(ws, sep) == ws[0];
    }
  }

  /** Words without whitespace joined by a separator are their own stripped form. */
  lemma JoinTrimmed(ws: seq<string>, sep: string)
    requires forall k :: 0 <= k < |ws| ==> ws[k] != [] && NoSpace(ws[k])
    ensures Strip(Join(ws, sep)) == Join(ws, sep)
  {
    var j := Join(ws, sep);
    if ws != [] {
      JoinEnds(ws, sep);
      assert !IsSpace(ws[0][0]) && !IsSpace(ws[|ws| - 1][|ws[|ws| - 1]| - 1]);
      StripTrailing(j, []);
      assert j + [] == j;
    }
  }

  /** Every character of a join comes from the separator or from one of the pieces. */
  lemma {:induction false} JoinChars(ws: seq<string>, sep: string, c: char)
    requires c in Join(ws, sep)
    ensures c in sep || exists k :: 0 <= k < |ws| && c in ws[k]
    decreases |ws|
  {
    if |ws| > 1 {
      if c !in ws[0] && c !in sep {
        JoinChars(ws[1..], sep, c);
        var k :| 0 <= k < |ws[1..]| && c in ws[1..][k];
        assert c in ws[k + 1];
      }
    }
  }

  /** A word at the front, followed by whitespace or by nothing, is the first token. */
  lemma SplitWsWord(w: string, rest: string)
    requires w != [] && NoSpace(w) && (rest == [] || IsSpace(rest[0]))
    ensures SplitWs(w + rest) == [w] + SplitWs(rest)
  {
    var t := w + rest;
    assert t[0] == w[0];
    TrimLeftNone(t);
    WordLengthOf(w, rest);
    SplitWsFirst(t, t, |w|);
    assert t[..|w|] == w;
    assert t[|w|..] == rest;
  }

  /** Splitting words joined by single spaces gives the words back. */
  lemma {:induction false} SplitWsJoin(ws: seq<string>)
    requires forall k :: 0 <= k < |ws| ==> ws[k] != [] && NoSpace(ws[k])
    ensures SplitWs(Join(ws, " ")) == ws
    decreases |ws|
  {
    if ws == [] {
      TrimLeftNone([]);
      assert SplitWs([]) == [];
    } else if |ws| == 1 {
      assert Join(ws, " ") == ws[0] == ws[0] + [];
      SplitWsWord(ws[0], []);
      TrimLeftNone([]);
      assert SplitWs([]) == [];
      assert SplitWs(Join(ws, " ")) == [ws[0]];
    } else {
      var tail := ws[1..];
      var t := Join(tail, " ");
      assert forall k :: 0 <= k < |tail| ==> tail[k] == ws[k + 1];
      assert Join(ws, " ") == ws[0] + (" " + t) by {
        assert Join(ws, " ") == ws[0] + " " + t;
      }
      JoinEnds(tail, " ");
      SplitWsWordSpace(ws[0], t);
      SplitWsJoin(tail);
      assert [ws[0]] + tail == ws;
    }
  }

  /** A word, a space and a text that starts with no whitespace: the word, then the
      tokens of the text. */
  lemma SplitWsWordSpace(w: string, t: string)
    requires w != [] && NoSpace(w) && (t == [] || !IsSpace(t[0]))
    ensures SplitWs(w + (" " + t)) == [w] + SplitWs(t)
  {
    SplitWsWord(w, " " + t);
    SplitWsSpace(t);
  }

  /** Splitting loses exactly the whitespace: the tokens put back together are `s`
      without its whitespace characters. */
  lemma {:induction false} SplitWsKeepsText(s: string)
    ensures Concat(SplitWs(s)) == RemoveSpaces(s)
    decreases |s|
  {
    var t := TrimLeft(s);
    LeadingSpacesGone(s, |s| - |t|);
    if t != [] {
      var n := WordLength(t);
      SplitWsKeepsText(t[n..]);
      WordThenRest(t, n);
    }
  }

  predicate NoSpace(w: string) {
    forall i :: 0 <= i < |w| ==> !IsSpace(w[i])
  }

  /** The characters of `s` with whitespace left out. */
  function RemoveSpaces(s: string): string
  {
    if s == [] then [] else (if IsSpace(s[0]) then [] else [s[0]]) + RemoveSpaces(s[1..])
  }

  lemma LeadingSpacesGone(s: string, a: nat)
    requires a <= |s| && forall i :: 0 <= i < a ==> IsSpace(s[i])
    ensures RemoveSpaces(s) == RemoveSpaces(s[a..])
  {
    if a > 0 {
      assert s[1..][a - 1..] == s[a..];
      LeadingSpacesGone(s[1..], a - 1);
    }
  }

  lemma {:induction false} WordThenRest(t: string, n: nat)
    requires n <= |t| && NoSpace(t[..n])
    ensures RemoveSpaces(t) == t[..n] + RemoveSpaces(t[n..])
  {
    if n > 0 {
      assert t[..n][0] == t[0];
      var w := t[1..][..n - 1];
      assert w == t[1..n];
      assert NoSpace(w) by {
        assert forall i :: 0 <= i < |w| ==> w[i] == t[..n][i + 1];
      }
      WordThenRest(t[1..], n - 1);
      assert t[1..][n - 1..] == t[n..];
      assert t[..n] == [t[0]] + w;
    }
  }

  /** Length of the leading run of non-whitespace characters. */
  function WordLength(t: string): (n: nat)
    ensures n <= |t| && NoSpace(t[..n])
    ensures n < |t| ==> IsSpace(t[n])
    ensures t != [] && !IsSpace(t[0]) ==> n > 0
  {
    if t == [] || IsSpace(t[0]) then 0
    else
      var k := WordLength(t[1..]);
      assert t[..k + 1] == [t[0]] + t[1..][..k];
      k + 1
  }

  /** Python's `s[a] < s[b]` ordering of strings by code points. */
  predicate StrLe(a: string, b: string) {
    a == [] || (b != [] && (a[0] < b[0] || (a[0] == b[0] && StrLe(a[1..], b[1..]))))
  }

  lemma {:induction false} StrLeTotal(a: string, b: string)
    ensures StrLe(a, b) || StrLe(b, a)
  {
    if a != [] && b != [] && a[0] == b[0] {
      StrLeTotal(a[1..], b[1..]);
    }
  }

  lemma {:induction false} StrLeTransitive(a: string, b: string, c: string)
    requires StrLe(a, b) && StrLe(b, c)
    ensures StrLe(a, c)
  {
    if a != [] && b != [] && c != [] && a[0] == b[0] && b[0] == c[0] {
      StrLeTransitive(a[1..], b[1..], c[1..]);
    }
  }

  lemma {:induction false} StrLeAntisymmetric(a: string, b: string)
    requires StrLe(a, b) && StrLe(b, a)
    ensures a == b
  {
    if a != [] && b != [] {
      StrLeAntisymmetric(a[1..], b[1..]);
      assert a == [a[0]] + a[1..] && b == [b[0]] + b[1..];
    }
  }

  ghost predicate SortedBy<T>(s: seq<T>, key: T -> string) {
    forall i, j :: 0 <= i < j < |s| ==> StrLe(key(s[i]), key(s[j]))
  }

  /** Inserts `x` in front of the first element whose key is not smaller. */
  function InsertBy<T>(x: T, s: seq<T>, key: T -> string): (r: seq<T>)
    ensures multiset(r) == multiset(s) + multiset{x}
    ensures |r| == |s| + 1
  {
    if s == [] || StrLe(key(x), key(s[0])) then [x] + s
    else
      assert s == [s[0]] + s[1..];
      [s[0]] + InsertBy(x, s[1..], key)
  }

  /** Python's stable `sorted(s, key=key)`, as an insertion sort. */
  function SortBy<T>(s: seq<T>, key: T -> string): (r: seq<T>)
    ensures multiset(r) == multiset(s)
    ensures |r| == |s|
  {
    if s == [] then []
    else
      assert s == [s[0]] + s[1..];
      InsertBy(s[0], SortBy(s[1..], key), key)
  }

  /** Every key of `s` is at least `m`. */
  ghost predicate AllAtLeast<T>(m: string, s: seq<T>, key: T -> string) {
    forall i :: 0 <= i < |s| ==> StrLe(m, key(s[i]))
  }

  lemma {:induction false} InsertByAtLeast<T>(x: T, s: seq<T>, key: T -> string, m: string)
    requires AllAtLeast(m, s, key) && StrLe(m, key(x))
    ensures AllAtLeast(m, InsertBy(x, s, key), key)
  {
    if s != [] && !StrLe(key(x), key(s[0])) {
      InsertByAtLeast(x, s[1..], key, m);
      var t := InsertBy(x, s[1..], key);
      assert InsertBy(x, s, key) == [s[0]] + t;
      assert forall i :: 1 <= i < |s| ==> s[i] == s[1..][i - 1];
    }
  }

  /** A head no greater than every key of a sorted tail makes a sorted sequence. */
  lemma ConsSorted<T>(h: T, t: seq<T>, key: T -> string)
    requires SortedBy(t, key) && AllAtLeast(key(h), t, key)
    ensures SortedBy([h] + t, key)
  {
    var r := [h] + t;
    forall i, j | 0 <= i < j < |r| ensures StrLe(key(r[i]), key(r[j])) {
      assert r[j] == t[j - 1];
      if i > 0 {
        assert r[i] == t[i - 1];
      }
    }
  }

  lemma {:induction false} InsertBySorted<T>(x: T, s: seq<T>, key: T -> string)
    requires SortedBy(s, key)
    ensures SortedBy(InsertBy(x, s, key), key)
  {
    if s == [] {
      assert InsertBy(x, s, key) == [x];
    } else if StrLe(key(x), key(s[0])) {
      forall j | 0 <= j < |s| ensures StrLe(key(x), key(s[j])) {
        if j > 0 {
          StrLeTransitive(key(x), key(s[0]), key(s[j]));
        }
      }
      ConsSorted(x, s, key);
    } else {
      StrLeTotal(key(x), key(s[0]));
      var rest := s[1..];
      assert SortedBy(rest, key) by {
        assert forall i :: 0 <= i < |rest| ==> rest[i] == s[i + 1];
      }
      assert AllAtLeast(key(s[0]), rest, key) by {
        assert forall i :: 0 <= i < |rest| ==> rest[i] == s[i + 1];
      }
      InsertBySorted(x, rest, key);
      InsertByAtLeast(x, rest, key, key(s[0]));
      ConsSorted(s[0], InsertBy(x, rest, key), key);
    }
  }

  /** The insertion sort yields a list ordered by key. */
  lemma {:induction false} SortBySorted<T>(s: seq<T>, key: T -> string)
    ensures SortedBy(SortBy(s, key), key)
  {
    if s != [] {
      SortBySorted(s[1..], key);
      InsertBySorted(s[0], SortBy(s[1..], key), key);
    }
  }
}
