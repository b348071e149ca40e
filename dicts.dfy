/** Python's insertion-ordered `dict` with string keys: the keys in the order
    they were first inserted, and the mapping itself. */
module Dicts {

  datatype Dict<V> = Dict(keys: seq<string>, entries: map<string, V>) {

    /** Every key appears once in the order, and exactly the mapped keys appear. */
    ghost predicate Valid() {
      && Distinct(keys)
      && (forall k :: k in entries <==> k in keys)
    }

    /** `d[k]` for a key of the order; `default` stands for a key that is not mapped,
        which a well-formed dictionary never has. */
    function Get(k: string, default: V): V {
      if k in entries then entries[k] else default
    }

    /** `d[k] = v`: an existing key keeps its place, a new key goes last. */
    function Put(k: string, v: V): (d: Dict<V>)
      ensures d.entries == entries[k := v]
      ensures k in entries ==> d.keys == keys
      ensures k !in entries ==> d.keys == keys + [k]
      ensures Valid() ==> d.Valid()
    {
      assert (keys + [k])[..|keys|] == keys;
      Dict(if k in entries then keys else keys + [k], entries[k := v])
    }
  }

  /** No key occurs twice: the last one is not among the others, which have no repeats. */
  predicate Distinct(s: seq<string>) {
    s == [] || (s[|s| - 1] !in s[..|s| - 1] && Distinct(s[..|s| - 1]))
  }

  /** In a sequence without repeats, the element at `i` is not among those before it. */
  lemma {:induction false} DistinctPrefix(s: seq<string>, i: nat)
    requires Distinct(s) && i < |s|
    ensures s[i] !in s[..i]
  {
    var n := |s| - 1;
    if i < n {
      DistinctPrefix(s[..n], i);
      assert s[..n][..i] == s[..i];
    }
  }

  /** So key `i` of a dictionary is met for the first time at position `i`. */
  lemma Unvisited(keys: seq<string>, i: nat)
    requires i < |keys| && Distinct(keys)
    ensures keys[i] !in keys[..i] && keys[..i + 1] == keys[..i] + [keys[i]]
  {
    DistinctPrefix(keys, i);
    assert keys[..i + 1] == keys[..i] + [keys[i]];
  }

  /** Equivalently: no two positions hold the same element. */
  lemma {:induction false} DistinctPairs(s: seq<string>)
    ensures Distinct(s) <==> forall i, j :: 0 <= i < j < |s| ==> s[i] != s[j]
  {
    if s != [] {
      var n := |s| - 1;
      var p := s[..n];
      DistinctPairs(p);
      assert forall i :: 0 <= i < n ==> p[i] == s[i];
      if forall i, j :: 0 <= i < j < |s| ==> s[i] != s[j] {
        assert s[n] !in p by {
          forall i | 0 <= i < n ensures p[i] != s[n] { assert s[i] != s[n]; }
        }
      }
      if Distinct(s) {
        forall i, j | 0 <= i < j < |s| ensures s[i] != s[j] {
          if j == n {
            assert s[i] == p[i];
          } else {
            assert p[i] != p[j];
          }
        }
      }
    }
  }

  function Empty<V>(): (d: Dict<V>)
    ensures d.Valid() && d.keys == [] && d.entries == map[]
  {
    Dict([], map[])
  }
}
