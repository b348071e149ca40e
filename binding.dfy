/** The two loops that follow the scan of configure.ac and bind the defines it collected
    to its options. Each loop is described step by step by a run function (the state
    after its first `i` iterations); the methods are proved to follow the run, and the
    run is proved to end in the declarative `Configure.ResolveExact` and
    `Configure.ResolveFuzzy`. */
module Binding {
  import opened Dicts
  import opened Records
  import opened Configure

  /** An option with more extra defines. */
  function WithExtras(o: OptionVal, xs: seq<string>): OptionVal {
    o.(extraDefines := o.extraDefines + xs)
  }

  /** Extra defines added in two rounds are added in one. */
  lemma WithExtrasAppend(o: OptionVal, xs: seq<string>, ys: seq<string>)
    ensures WithExtras(WithExtras(o, xs), ys) == WithExtras(o, xs + ys)
  {
    assert o.extraDefines + xs + ys == o.extraDefines + (xs + ys);
  }

  /** A define that is used when it was, or when `b` holds. */
  function UsedIf(d: Define, b: bool): Define {
    d.(used := d.used || b)
  }

  // ---------------------------------------------------------------- the exact pass

  /** One iteration of the exact pass, for the option of key `k`: its first match among
      the defines in order, if any, is bound to it and is used. */
  function ExactStep(opts: Dict<OptionVal>, defs: Dict<Define>, k: string): (r: (Dict<OptionVal>, Dict<Define>))
    requires defs.Valid() && k in opts.entries
    ensures r.0.keys == opts.keys && r.0.entries.Keys == opts.entries.Keys && (opts.Valid() ==> r.0.Valid())
    ensures r.1.keys == defs.keys && r.1.entries.Keys == defs.entries.Keys && r.1.Valid()
  {
    var o := opts.entries[k];
    var j := FirstMatch(o, defs.keys, defs.entries);
    if j >= 0 then (opts.Put(k, Bind(o, DefineAt(defs, j))), defs.Put(defs.keys[j], DefineAt(defs, j).(used := true)))
    else (opts, defs)
  }

  /** The exact pass after its first `i` options. */
  function ExactRun(opts0: Dict<OptionVal>, defs0: Dict<Define>, i: nat): (r: (Dict<OptionVal>, Dict<Define>))
    requires opts0.Valid() && defs0.Valid() && i <= |opts0.keys|
    ensures r.0.keys == opts0.keys && r.0.entries.Keys == opts0.entries.Keys && r.0.Valid()
    ensures r.1.keys == defs0.keys && r.1.entries.Keys == defs0.entries.Keys && r.1.Valid()
  {
    if i == 0 then (opts0, defs0)
    else
      var p := ExactRun(opts0, defs0, i - 1);
      ExactStep(p.0, p.1, opts0.keys[i - 1])
  }

  /** An option among `ks` has the define named `n` as its first match. */
  ghost predicate BoundAmong(opts: Dict<OptionVal>, defs: Dict<Define>, ks: seq<string>, n: string)
    requires defs.Valid()
  {
    exists k :: k in ks && k in opts.entries && FirstMatchIs(opts.entries[k], defs, n)
  }

  /** Option `k` after the first `i` options, as the declarative pass has it. */
  function ExactAt(opts0: Dict<OptionVal>, defs0: Dict<Define>, k: string, i: nat): OptionVal
    requires defs0.Valid() && k in opts0.entries && i <= |opts0.keys|
  {
    if k in opts0.keys[..i] then ExactOption(opts0.entries[k], defs0) else opts0.entries[k]
  }

  /** Define `n` after the first `i` options, as the declarative pass has it. */
  ghost function UsedAt(opts0: Dict<OptionVal>, defs0: Dict<Define>, n: string, i: nat): Define
    requires defs0.Valid() && n in defs0.entries && i <= |opts0.keys|
  {
    UsedIf(defs0.entries[n], BoundAmong(opts0, defs0, opts0.keys[..i], n))
  }

  /** Every option is as `ExactAt` says. */
  ghost predicate OptionsAt(opts0: Dict<OptionVal>, defs0: Dict<Define>, opts: Dict<OptionVal>, i: nat)
    requires defs0.Valid() && i <= |opts0.keys|
  {
    forall k :: k in opts0.entries ==> k in opts.entries && opts.entries[k] == ExactAt(opts0, defs0, k, i)
  }

  /** Every define is as `UsedAt` says. */
  ghost predicate DefinesAt(opts0: Dict<OptionVal>, defs0: Dict<Define>, defs: Dict<Define>, i: nat)
    requires defs0.Valid() && i <= |opts0.keys|
  {
    forall n :: n in defs0.entries ==> n in defs.entries && defs.entries[n] == UsedAt(opts0, defs0, n, i)
  }

  /** The first match depends only on the names and option names of the defines. */
  lemma {:induction false} FirstMatchNames(o: OptionVal, keys: seq<string>, a: map<string, Define>, b: map<string, Define>)
    requires forall k :: k in keys ==> k in a && k in b && a[k].name == b[k].name && a[k].optionName == b[k].optionName
    ensures FirstMatch(o, keys, a) == FirstMatch(o, keys, b)
  {
    if keys != [] {
      FirstMatchNames(o, keys[1..], a, b);
    }
  }

  /** In the middle of the pass the option of key `i` is untouched and its first match is
      the one among the original defines. */
  lemma ExactCurrent(opts0: Dict<OptionVal>, defs0: Dict<Define>, opts: Dict<OptionVal>, defs: Dict<Define>, i: nat)
    requires opts0.Valid() && defs0.Valid() && i < |opts0.keys|
    requires defs.keys == defs0.keys && defs.Valid()
    requires OptionsAt(opts0, defs0, opts, i) && DefinesAt(opts0, defs0, defs, i)
    ensures var k := opts0.keys[i];
            && k in opts.entries && opts.entries[k] == opts0.entries[k]
            && FirstMatch(opts.entries[k], defs.keys, defs.entries) == FirstMatch(opts0.entries[k], defs0.keys, defs0.entries)
  {
    var k := opts0.keys[i];
    Unvisited(opts0.keys, i);
    assert opts.entries[k] == ExactAt(opts0, defs0, k, i);
    FirstMatchNames(opts0.entries[k], defs0.keys, defs.entries, defs0.entries);
  }

  /** Step `i` of the exact pass on the options. */
  lemma ExactOptionsStep(opts0: Dict<OptionVal>, defs0: Dict<Define>, opts: Dict<OptionVal>, defs: Dict<Define>, i: nat)
    requires opts0.Valid() && defs0.Valid() && i < |opts0.keys|
    requires defs.keys == defs0.keys && defs.Valid()
    requires OptionsAt(opts0, defs0, opts, i) && DefinesAt(opts0, defs0, defs, i)
    ensures opts0.keys[i] in opts.entries && OptionsAt(opts0, defs0, ExactStep(opts, defs, opts0.keys[i]).0, i + 1)
  {
    var k := opts0.keys[i];
    ExactCurrent(opts0, defs0, opts, defs, i);
    Unvisited(opts0.keys, i);
    var opts' := ExactStep(opts, defs, k).0;
    assert opts'.entries == opts.entries[k := ExactOption(opts0.entries[k], defs0)];
    forall k2 | k2 in opts0.entries
      ensures opts'.entries[k2] == ExactAt(opts0, defs0, k2, i + 1)
    {
      assert k2 in opts0.keys[..i + 1] <==> k2 in opts0.keys[..i] || k2 == k;
    }
  }

  /** Step `i` of the exact pass on the defines. */
  lemma ExactDefinesStep(opts0: Dict<OptionVal>, defs0: Dict<Define>, opts: Dict<OptionVal>, defs: Dict<Define>, i: nat)
    requires opts0.Valid() && defs0.Valid() && i < |opts0.keys|
    requires defs.keys == defs0.keys && defs.Valid()
    requires OptionsAt(opts0, defs0, opts, i) && DefinesAt(opts0, defs0, defs, i)
    ensures opts0.keys[i] in opts.entries && DefinesAt(opts0, defs0, ExactStep(opts, defs, opts0.keys[i]).1, i + 1)
  {
    var k := opts0.keys[i];
    ExactCurrent(opts0, defs0, opts, defs, i);
    Unvisited(opts0.keys, i);
    var j := FirstMatch(opts0.entries[k], defs0.keys, defs0.entries);
    var defs' := ExactStep(opts, defs, k).1;
    forall n | n in defs0.entries
      ensures defs'.entries[n] == UsedAt(opts0, defs0, n, i + 1)
    {
      ExactDefineAt(opts0, defs0, j, i, n);
    }
  }

  /** Step `i` of the declarative pass, seen from define `n`: it is used now when it is the
      first match `j` of the option of key `i`. */
  lemma ExactDefineAt(opts0: Dict<OptionVal>, defs0: Dict<Define>, j: int, i: nat, n: string)
    requires opts0.Valid() && defs0.Valid() && i < |opts0.keys| && n in defs0.entries
    requires opts0.keys[..i + 1] == opts0.keys[..i] + [opts0.keys[i]]
    requires j == FirstMatch(opts0.entries[opts0.keys[i]], defs0.keys, defs0.entries)
    ensures UsedAt(opts0, defs0, n, i + 1) ==
              if j >= 0 && n == defs0.keys[j] then defs0.entries[n].(used := true) else UsedAt(opts0, defs0, n, i)
  {
    var k := opts0.keys[i];
    if j >= 0 && n == defs0.keys[j] {
      assert FirstMatchIs(opts0.entries[k], defs0, n);
    }
  }

  /** The run of the exact pass and the declarative pass agree after the first `i` options. */
  ghost predicate ExactAgrees(opts0: Dict<OptionVal>, defs0: Dict<Define>, i: nat)
    requires opts0.Valid() && defs0.Valid() && i <= |opts0.keys|
  {
    var p := ExactRun(opts0, defs0, i);
    OptionsAt(opts0, defs0, p.0, i) && DefinesAt(opts0, defs0, p.1, i)
  }

  /** Step `i` of the run, from the agreement after the first `i - 1` options. */
  lemma ExactRunNext(opts0: Dict<OptionVal>, defs0: Dict<Define>, i: nat)
    requires opts0.Valid() && defs0.Valid() && 0 < i <= |opts0.keys| && ExactAgrees(opts0, defs0, i - 1)
    ensures ExactAgrees(opts0, defs0, i)
  {
    var p := ExactRun(opts0, defs0, i - 1);
    ExactOptionsStep(opts0, defs0, p.0, p.1, i - 1);
    ExactDefinesStep(opts0, defs0, p.0, p.1, i - 1);
  }

  /** The run of the exact pass agrees with the declarative pass after every step. */
  lemma {:induction false} ExactRunAt(opts0: Dict<OptionVal>, defs0: Dict<Define>, i: nat)
    requires opts0.Valid() && defs0.Valid() && i <= |opts0.keys|
    ensures ExactAgrees(opts0, defs0, i)
  {
    if i > 0 {
      ExactRunAt(opts0, defs0, i - 1);
      ExactRunNext(opts0, defs0, i);
    } else {
      assert opts0.keys[..0] == [];
    }
  }

  /** Options that agree with the declarative pass after every option are its result. */
  lemma ExactOptionsResolve(opts0: Dict<OptionVal>, defs0: Dict<Define>, opts: Dict<OptionVal>)
    requires opts0.Valid() && defs0.Valid() && OptionsAt(opts0, defs0, opts, |opts0.keys|)
    requires opts.entries.Keys == opts0.entries.Keys
    ensures opts.entries == ResolveExact(opts0, defs0).0.entries
  {
    var keys := opts0.keys;
    assert keys[..|keys|] == keys;
    var r := ResolveExact(opts0, defs0).0;
    assert r.entries.Keys == opts.entries.Keys;
    forall k | k in opts0.entries
      ensures opts.entries[k] == r.entries[k]
    {
      assert opts.entries[k] == ExactAt(opts0, defs0, k, |keys|);
    }
  }

  /** Defines that agree with the declarative pass after every option are its result. */
  lemma ExactDefinesResolve(opts0: Dict<OptionVal>, defs0: Dict<Define>, defs: Dict<Define>)
    requires opts0.Valid() && defs0.Valid() && DefinesAt(opts0, defs0, defs, |opts0.keys|)
    requires defs.entries.Keys == defs0.entries.Keys
    ensures defs.entries == ResolveExact(opts0, defs0).1.entries
  {
    var keys := opts0.keys;
    assert keys[..|keys|] == keys;
    var r := ResolveExact(opts0, defs0).1;
    assert r.entries.Keys == defs.entries.Keys;
    forall n | n in defs0.entries
      ensures defs.entries[n] == r.entries[n]
    {
      assert defs.entries[n] == UsedAt(opts0, defs0, n, |keys|);
      assert BoundAmong(opts0, defs0, keys, n) == BoundByExact(opts0, defs0, n);
    }
  }

  /** The whole run of the exact pass is `ResolveExact`. */
  lemma ExactRunResolves(opts0: Dict<OptionVal>, defs0: Dict<Define>)
    requires opts0.Valid() && defs0.Valid()
    ensures ExactRun(opts0, defs0, |opts0.keys|) == ResolveExact(opts0, defs0)
  {
    ExactRunAt(opts0, defs0, |opts0.keys|);
    var p := ExactRun(opts0, defs0, |opts0.keys|);
    assert ExactAgrees(opts0, defs0, |opts0.keys|);
    ExactOptionsResolve(opts0, defs0, p.0);
    ExactDefinesResolve(opts0, defs0, p.1);
  }

  /** The inner loop of the exact pass: the defines in order, up to the first that is the
      option's define or whose option name is the option's name. */
  method FindDefine(o: OptionVal, defs: Dict<Define>) returns (j: int)
    requires defs.Valid()
    ensures j == FirstMatch(o, defs.keys, defs.entries)
  {
    j := 0;
    while j < |defs.keys|
      invariant j <= |defs.keys|
      invariant forall i :: 0 <= i < j ==> !ExactMatch(o, defs.entries[defs.keys[i]])
    {
      var d := defs.entries[defs.keys[j]];
      if o.define == d.name || o.name == d.optionName {
        return j;
      }
      j := j + 1;
    }
    return -1;
  }

  /** One iteration of the first loop, for the option of key `k`: the two tests of the
      converter against its first match, which is then used. */
  method ExactOne(opts0: Dict<OptionVal>, defs0: Dict<Define>, k: string) returns (opts: Dict<OptionVal>, defs: Dict<Define>)
    requires defs0.Valid() && k in opts0.entries
    ensures (opts, defs) == ExactStep(opts0, defs0, k)
  {
    opts, defs := opts0, defs0;
    var o := opts.entries[k];
    var j := FindDefine(o, defs);
    if j >= 0 {
      var n := defs.keys[j];
      var d := defs.entries[n];
      if o.define == d.name {
        o := o.(defineDescription := d.description, defineValue := CleanDefineValue(d.value));
      }
      if o.name == d.optionName {
        o := o.(define := d.name, defineDescription := d.description, defineValue := CleanDefineValue(d.value));
      }
      assert o == Bind(opts.entries[k], DefineAt(defs, j));
      opts := opts.Put(k, o);
      defs := defs.Put(n, d.(used := true));
    }
  }

  /** The first loop after the scan: each option, in order, against the defines in
      order up to the first that is its define or names it; the option takes that
      define's name, description and value, and the define is used. */
  method BindExact(opts0: Dict<OptionVal>, defs0: Dict<Define>) returns (opts: Dict<OptionVal>, defs: Dict<Define>)
    requires opts0.Valid() && defs0.Valid()
    ensures opts.Valid() && defs.Valid()
    ensures (opts, defs) == ResolveExact(opts0, defs0)
  {
    opts, defs := opts0, defs0;
    var keys := opts0.keys;
    var i := 0;
    while i < |keys|
      invariant i <= |keys| && (opts, defs) == ExactRun(opts0, defs0, i)
    {
      opts, defs := ExactOne(opts, defs, keys[i]);
      i := i + 1;
    }
    ExactRunResolves(opts0, defs0);
  }

  // ---------------------------------------------------------------- the fuzzy pass

  /** Option `o` with `n` added when `n` and its key `k` meet the criterion. */
  function Added(o: OptionVal, n: string, k: string, meets: (string, string) -> bool): OptionVal {
    if Meets(meets, n, k) then WithExtras(o, [n]) else o
  }

  /** The inner loop of the fuzzy pass after its first `j` options: the define key `n` is
      added to each option that meets the criterion, and the flag says one did. */
  function AddRun(opts0: Dict<OptionVal>, n: string, meets: (string, string) -> bool, j: nat)
    : (r: (Dict<OptionVal>, bool))
    requires opts0.Valid() && j <= |opts0.keys|
    ensures r.0.keys == opts0.keys && r.0.entries.Keys == opts0.entries.Keys && r.0.Valid()
  {
    if j == 0 then (opts0, false)
    else
      var p := AddRun(opts0, n, meets, j - 1);
      var k := opts0.keys[j - 1];
      if Meets(meets, n, k) then (p.0.Put(k, WithExtras(p.0.entries[k], [n])), true) else p
  }

  /** After `j` options the first `j` have `n` added as `Added` says; the others are as
      they were. */
  lemma {:induction false} AddRunOptions(opts0: Dict<OptionVal>, n: string, meets: (string, string) -> bool, j: nat)
    requires opts0.Valid() && j <= |opts0.keys|
    ensures forall k :: k in opts0.entries ==>
              AddRun(opts0, n, meets, j).0.entries[k]
                == if k in opts0.keys[..j] then Added(opts0.entries[k], n, k, meets) else opts0.entries[k]
  {
    if j > 0 {
      AddRunOptions(opts0, n, meets, j - 1);
      AddRunOptionsStep(opts0, n, meets, j - 1);
    }
  }

  /** Step `j` of the inner loop on the options. */
  lemma AddRunOptionsStep(opts0: Dict<OptionVal>, n: string, meets: (string, string) -> bool, j: nat)
    requires opts0.Valid() && j < |opts0.keys|
    requires forall k :: k in opts0.entries ==>
               AddRun(opts0, n, meets, j).0.entries[k]
                 == if k in opts0.keys[..j] then Added(opts0.entries[k], n, k, meets) else opts0.entries[k]
    ensures forall k :: k in opts0.entries ==>
              AddRun(opts0, n, meets, j + 1).0.entries[k]
                == if k in opts0.keys[..j + 1] then Added(opts0.entries[k], n, k, meets) else opts0.entries[k]
  {
    var keys := opts0.keys;
    Unvisited(keys, j);
    forall k2 | k2 in opts0.entries
      ensures AddRun(opts0, n, meets, j + 1).0.entries[k2]
              == if k2 in keys[..j + 1] then Added(opts0.entries[k2], n, k2, meets) else opts0.entries[k2]
    {
      assert k2 in keys[..j + 1] <==> k2 in keys[..j] || k2 == keys[j];
    }
  }

  /** After `j` options the flag says whether one of them met the criterion. */
  lemma {:induction false} AddRunFlag(opts0: Dict<OptionVal>, n: string, meets: (string, string) -> bool, j: nat)
    requires opts0.Valid() && j <= |opts0.keys|
    ensures AddRun(opts0, n, meets, j).1 <==> exists k :: k in opts0.keys[..j] && Meets(meets, n, k)
  {
    var keys := opts0.keys;
    if j > 0 {
      AddRunFlag(opts0, n, meets, j - 1);
      assert keys[..j] == keys[..j - 1] + [keys[j - 1]];
      if Meets(meets, n, keys[j - 1]) {
        assert keys[j - 1] in keys[..j];
      }
    }
  }

  /** The whole inner loop adds `n` to exactly the options that meet the criterion, and
      reports whether there was one. */
  lemma AddRunAll(opts0: Dict<OptionVal>, n: string, meets: (string, string) -> bool)
    requires opts0.Valid()
    ensures forall k :: k in opts0.entries ==>
              AddRun(opts0, n, meets, |opts0.keys|).0.entries[k] == Added(opts0.entries[k], n, k, meets)
    ensures AddRun(opts0, n, meets, |opts0.keys|).1 == FuzzyBound(opts0, n, meets)
  {
    AddRunOptions(opts0, n, meets, |opts0.keys|);
    AddRunFlag(opts0, n, meets, |opts0.keys|);
    assert opts0.keys[..|opts0.keys|] == opts0.keys;
  }

  /** The inner loop of the fuzzy pass, as the converter runs it. */
  method AddToSimilar(opts0: Dict<OptionVal>, n: string, meets: (string, string) -> bool)
    returns (opts: Dict<OptionVal>, matched: bool)
    requires opts0.Valid()
    ensures (opts, matched) == AddRun(opts0, n, meets, |opts0.keys|)
  {
    opts := opts0;
    var keys := opts0.keys;
    matched := false;
    var j := 0;
    while j < |keys|
      invariant j <= |keys| && (opts, matched) == AddRun(opts0, n, meets, j)
    {
      var k := keys[j];
      assert k in opts.entries by {
        assert k in opts0.entries;
      }
      if Meets(meets, n, k) {
        opts := opts.Put(k, WithExtras(opts.entries[k], [n]));
        matched := true;
      }
      j := j + 1;
    }
  }

  /** One iteration of the fuzzy pass, for the define of key `n`: when it is unused it
      goes to every option it meets, and is used when there was one. */
  function FuzzyStep(opts: Dict<OptionVal>, defs: Dict<Define>, n: string, meets: (string, string) -> bool)
    : (r: (Dict<OptionVal>, Dict<Define>))
    requires opts.Valid() && defs.Valid() && n in defs.entries
    ensures r.0.keys == opts.keys && r.0.entries.Keys == opts.entries.Keys && r.0.Valid()
    ensures r.1.keys == defs.keys && r.1.entries.Keys == defs.entries.Keys && r.1.Valid()
  {
    var d := defs.entries[n];
    if d.used then (opts, defs)
    else
      var a := AddRun(opts, n, meets, |opts.keys|);
      (a.0, if a.1 then defs.Put(n, d.(used := true)) else defs)
  }

  /** The fuzzy pass after its first `i` defines. */
  function FuzzyRun(opts0: Dict<OptionVal>, defs0: Dict<Define>, meets: (string, string) -> bool, i: nat)
    : (r: (Dict<OptionVal>, Dict<Define>))
    requires opts0.Valid() && defs0.Valid() && i <= |defs0.keys|
    ensures r.0.keys == opts0.keys && r.0.entries.Keys == opts0.entries.Keys && r.0.Valid()
    ensures r.1.keys == defs0.keys && r.1.entries.Keys == defs0.entries.Keys && r.1.Valid()
  {
    if i == 0 then (opts0, defs0)
    else
      var p := FuzzyRun(opts0, defs0, meets, i - 1);
      FuzzyStep(p.0, p.1, defs0.keys[i - 1], meets)
  }

  /** Every option has the extra defines of the first `i` define keys. */
  ghost predicate ExtrasAt(opts0: Dict<OptionVal>, defs0: Dict<Define>, opts: Dict<OptionVal>, i: nat,
                           meets: (string, string) -> bool)
    requires defs0.Valid() && i <= |defs0.keys|
  {
    forall k :: k in opts0.entries ==>
      k in opts.entries
      && opts.entries[k] == WithExtras(opts0.entries[k], FuzzyExtras(defs0.keys[..i], defs0.entries, k, meets))
  }

  /** The first `i` defines are used when they were or when they met an option. */
  ghost predicate FuzzyUsedAt(opts0: Dict<OptionVal>, defs0: Dict<Define>, defs: Dict<Define>, i: nat,
                              meets: (string, string) -> bool)
    requires defs0.Valid() && i <= |defs0.keys|
  {
    forall m :: m in defs0.entries ==>
      m in defs.entries
      && defs.entries[m] == if m in defs0.keys[..i] then UsedIf(defs0.entries[m], FuzzyBound(opts0, m, meets))
                            else defs0.entries[m]
  }

  /** The keys `keys + [n]` give the extras of `keys`, then `n` when it is unused and
      meets the criterion. */
  lemma FuzzyExtrasLast(keys: seq<string>, n: string, defs: map<string, Define>, k: string,
                        meets: (string, string) -> bool)
    requires forall x :: x in keys ==> x in defs
    requires n in defs
    ensures FuzzyExtras(keys + [n], defs, k, meets)
            == if !defs[n].used && Meets(meets, n, k) then FuzzyExtras(keys, defs, k, meets) + [n]
               else FuzzyExtras(keys, defs, k, meets)
  {
    assert (keys + [n])[..|keys + [n]| - 1] == keys;
    var e := FuzzyExtras(keys, defs, k, meets);
    assert e + [] == e;
  }

  /** Step `i` of the fuzzy pass, seen from option `k`. */
  lemma FuzzyExtrasAt(opts0: Dict<OptionVal>, defs0: Dict<Define>, opts: Dict<OptionVal>, opts': Dict<OptionVal>,
                      i: nat, k: string, meets: (string, string) -> bool)
    requires defs0.Valid() && i < |defs0.keys| && k in opts0.entries && k in opts.entries && k in opts'.entries
    requires opts.entries[k] == WithExtras(opts0.entries[k], FuzzyExtras(defs0.keys[..i], defs0.entries, k, meets))
    requires var n := defs0.keys[i];
             opts'.entries[k] == if defs0.entries[n].used then opts.entries[k] else Added(opts.entries[k], n, k, meets)
    ensures opts'.entries[k] == WithExtras(opts0.entries[k], FuzzyExtras(defs0.keys[..i + 1], defs0.entries, k, meets))
  {
    var names := defs0.keys;
    var n := names[i];
    assert names[..i + 1] == names[..i] + [n];
    FuzzyExtrasLast(names[..i], n, defs0.entries, k, meets);
    WithExtrasAppend(opts0.entries[k], FuzzyExtras(names[..i], defs0.entries, k, meets), [n]);
  }

  /** The criterion only reads the options' keys: every option of the pass has them. */
  lemma FuzzyBoundKeys(a: Dict<OptionVal>, b: Dict<OptionVal>, n: string, meets: (string, string) -> bool)
    requires a.entries.Keys == b.entries.Keys
    ensures FuzzyBound(a, n, meets) == FuzzyBound(b, n, meets)
  {
    if FuzzyBound(a, n, meets) {
      var k :| k in a.entries && Meets(meets, n, k);
      assert k in b.entries;
    }
    if FuzzyBound(b, n, meets) {
      var k :| k in b.entries && Meets(meets, n, k);
      assert k in a.entries;
    }
  }

  /** Define `m` after the first `i` defines of the pass: once visited, it is used when
      it was or when it met an option; before, it is as it was. */
  ghost predicate DefineAfter(opts0: Dict<OptionVal>, defs0: Dict<Define>, meets: (string, string) -> bool,
                              i: nat, m: string)
    requires opts0.Valid() && defs0.Valid() && i <= |defs0.keys| && m in defs0.entries
  {
    FuzzyRun(opts0, defs0, meets, i).1.entries[m]
      == if m in defs0.keys[..i] then UsedIf(defs0.entries[m], FuzzyBound(opts0, m, meets)) else defs0.entries[m]
  }

  /** Step `i` of the run on define `m`. */
  lemma FuzzyDefineStep(opts0: Dict<OptionVal>, defs0: Dict<Define>, meets: (string, string) -> bool,
                        i: nat, m: string)
    requires opts0.Valid() && defs0.Valid() && 0 < i <= |defs0.keys| && m in defs0.entries
    requires DefineAfter(opts0, defs0, meets, i - 1, m) && DefineAfter(opts0, defs0, meets, i - 1, defs0.keys[i - 1])
    ensures DefineAfter(opts0, defs0, meets, i, m)
  {
    var names := defs0.keys;
    var n := names[i - 1];
    var p := FuzzyRun(opts0, defs0, meets, i - 1);
    Unvisited(names, i - 1);
    FuzzyBoundKeys(p.0, opts0, n, meets);
    if !defs0.entries[n].used {
      AddRunAll(p.0, n, meets);
    }
    assert m in names[..i] <==> m in names[..i - 1] || m == n;
  }

  lemma {:induction false} FuzzyRunDefine(opts0: Dict<OptionVal>, defs0: Dict<Define>,
                                          meets: (string, string) -> bool, i: nat, m: string)
    requires opts0.Valid() && defs0.Valid() && i <= |defs0.keys| && m in defs0.entries
    ensures DefineAfter(opts0, defs0, meets, i, m)
  {
    if i > 0 {
      FuzzyRunDefine(opts0, defs0, meets, i - 1, m);
      FuzzyRunDefine(opts0, defs0, meets, i - 1, defs0.keys[i - 1]);
      FuzzyDefineStep(opts0, defs0, meets, i, m);
    } else {
      assert defs0.keys[..0] == [];
    }
  }

  /** Option `k` after the first `i` defines of the pass: it has the extras of those. */
  ghost predicate OptionAfter(opts0: Dict<OptionVal>, defs0: Dict<Define>, meets: (string, string) -> bool,
                              i: nat, k: string)
    requires opts0.Valid() && defs0.Valid() && i <= |defs0.keys| && k in opts0.entries
  {
    FuzzyRun(opts0, defs0, meets, i).0.entries[k]
      == WithExtras(opts0.entries[k], FuzzyExtras(defs0.keys[..i], defs0.entries, k, meets))
  }

  /** Step `i` of the run on option `k`. */
  lemma FuzzyOptionStep(opts0: Dict<OptionVal>, defs0: Dict<Define>, meets: (string, string) -> bool,
                        i: nat, k: string)
    requires opts0.Valid() && defs0.Valid() && 0 < i <= |defs0.keys| && k in opts0.entries
    requires OptionAfter(opts0, defs0, meets, i - 1, k) && DefineAfter(opts0, defs0, meets, i - 1, defs0.keys[i - 1])
    ensures OptionAfter(opts0, defs0, meets, i, k)
  {
    var names := defs0.keys;
    var n := names[i - 1];
    var p := FuzzyRun(opts0, defs0, meets, i - 1);
    Unvisited(names, i - 1);
    if !defs0.entries[n].used {
      AddRunAll(p.0, n, meets);
    }
    FuzzyExtrasAt(opts0, defs0, p.0, FuzzyRun(opts0, defs0, meets, i).0, i - 1, k, meets);
  }

  /** Before the first define, every option is as it was. */
  lemma FuzzyOptionStart(opts0: Dict<OptionVal>, defs0: Dict<Define>, meets: (string, string) -> bool, k: string)
    requires opts0.Valid() && defs0.Valid() && k in opts0.entries
    ensures OptionAfter(opts0, defs0, meets, 0, k)
  {
    assert defs0.keys[..0] == [];
    assert opts0.entries[k].extraDefines + [] == opts0.entries[k].extraDefines;
  }

  /** Step `i` of the run on option `k`, from the state of define `i - 1` before it. */
  lemma FuzzyOptionNext(opts0: Dict<OptionVal>, defs0: Dict<Define>, meets: (string, string) -> bool,
                        i: nat, k: string)
    requires opts0.Valid() && defs0.Valid() && 0 < i <= |defs0.keys| && k in opts0.entries
    requires OptionAfter(opts0, defs0, meets, i - 1, k)
    ensures OptionAfter(opts0, defs0, meets, i, k)
  {
    FuzzyRunDefine(opts0, defs0, meets, i - 1, defs0.keys[i - 1]);
    FuzzyOptionStep(opts0, defs0, meets, i, k);
  }

  lemma {:induction false} FuzzyRunOption(opts0: Dict<OptionVal>, defs0: Dict<Define>,
                                          meets: (string, string) -> bool, i: nat, k: string)
    requires opts0.Valid() && defs0.Valid() && i <= |defs0.keys| && k in opts0.entries
    ensures OptionAfter(opts0, defs0, meets, i, k)
  {
    if i > 0 {
      FuzzyRunOption(opts0, defs0, meets, i - 1, k);
      FuzzyOptionNext(opts0, defs0, meets, i, k);
    } else {
      FuzzyOptionStart(opts0, defs0, meets, k);
    }
  }

  /** Options that agree with the declarative pass after every define are its result. */
  lemma FuzzyOptionsResolve(opts0: Dict<OptionVal>, defs0: Dict<Define>, opts: Dict<OptionVal>,
                            meets: (string, string) -> bool)
    requires defs0.Valid() && ExtrasAt(opts0, defs0, opts, |defs0.keys|, meets)
    requires opts.entries.Keys == opts0.entries.Keys
    ensures opts.entries == ResolveFuzzy(opts0, defs0, meets).0.entries
  {
    var names := defs0.keys;
    assert names[..|names|] == names;
    var r := ResolveFuzzy(opts0, defs0, meets).0;
    assert r.entries.Keys == opts.entries.Keys;
  }

  /** Defines that agree with the declarative pass after every define are its result. */
  lemma FuzzyDefinesResolve(opts0: Dict<OptionVal>, defs0: Dict<Define>, defs: Dict<Define>,
                            meets: (string, string) -> bool)
    requires defs0.Valid() && FuzzyUsedAt(opts0, defs0, defs, |defs0.keys|, meets)
    requires defs.entries.Keys == defs0.entries.Keys
    ensures defs.entries == ResolveFuzzy(opts0, defs0, meets).1.entries
  {
    var names := defs0.keys;
    assert names[..|names|] == names;
    var r := ResolveFuzzy(opts0, defs0, meets).1;
    assert r.entries.Keys == defs.entries.Keys;
  }

  /** The whole run of the fuzzy pass is `ResolveFuzzy`. */
  lemma FuzzyRunResolves(opts0: Dict<OptionVal>, defs0: Dict<Define>, meets: (string, string) -> bool)
    requires opts0.Valid() && defs0.Valid()
    ensures FuzzyRun(opts0, defs0, meets, |defs0.keys|) == ResolveFuzzy(opts0, defs0, meets)
  {
    var p := FuzzyRun(opts0, defs0, meets, |defs0.keys|);
    forall k | k in opts0.entries
      ensures p.0.entries[k] == WithExtras(opts0.entries[k], FuzzyExtras(defs0.keys[..|defs0.keys|], defs0.entries, k, meets))
    {
      FuzzyRunOption(opts0, defs0, meets, |defs0.keys|, k);
      assert OptionAfter(opts0, defs0, meets, |defs0.keys|, k);
    }
    forall m | m in defs0.entries
      ensures p.1.entries[m] == if m in defs0.keys[..|defs0.keys|] then UsedIf(defs0.entries[m], FuzzyBound(opts0, m, meets))
                                else defs0.entries[m]
    {
      FuzzyRunDefine(opts0, defs0, meets, |defs0.keys|, m);
      assert DefineAfter(opts0, defs0, meets, |defs0.keys|, m);
    }
    FuzzyOptionsResolve(opts0, defs0, p.0, meets);
    FuzzyDefinesResolve(opts0, defs0, p.1, meets);
  }

  /** One iteration of the second loop, for the define of key `n`. */
  method FuzzyOne(opts0: Dict<OptionVal>, defs0: Dict<Define>, n: string, meets: (string, string) -> bool)
    returns (opts: Dict<OptionVal>, defs: Dict<Define>)
    requires opts0.Valid() && defs0.Valid() && n in defs0.entries
    ensures (opts, defs) == FuzzyStep(opts0, defs0, n, meets)
  {
    opts, defs := opts0, defs0;
    var d := defs.entries[n];
    if !d.used {
      var matched;
      opts, matched := AddToSimilar(opts, n, meets);
      if matched {
        defs := defs.Put(n, d.(used := true));
      }
    }
  }

  /** The second loop: each define still unused after the first, in order, is added to
      every option it fuzzily matches, and is then used. */
  method BindFuzzy(opts0: Dict<OptionVal>, defs0: Dict<Define>, meets: (string, string) -> bool)
    returns (opts: Dict<OptionVal>, defs: Dict<Define>)
    requires opts0.Valid() && defs0.Valid()
    ensures opts.Valid() && defs.Valid()
    ensures (opts, defs) == ResolveFuzzy(opts0, defs0, meets)
  {
    opts, defs := opts0, defs0;
    var names := defs0.keys;
    var i := 0;
    while i < |names|
      invariant i <= |names| && (opts, defs) == FuzzyRun(opts0, defs0, meets, i)
    {
      assert names[i] in defs.entries by {
        assert names[i] in defs0.entries;
      }
      opts, defs := FuzzyOne(opts, defs, names[i], meets);
      i := i + 1;
    }
    FuzzyRunResolves(opts0, defs0, meets);
  }
}
