/** Ascending sort by a numeric key with missing keys placed last: the order
    pandas' `sort_values` produces. pandas' default sort is not stable, so
    the contracts here promise a sorted permutation and nothing about the
    relative order of equal keys. */
module KeySort {
  import opened Results

  /** `a` may come before `b`: numbers ascending, missing keys last. */
  predicate KeyLe(a: Option<real>, b: Option<real>) {
    b.None? || (a.Some? && a.value <= b.value)
  }

  /** Every element of `s` has a key and the keys ascend along `s`. */
  predicate SortedBy<T>(s: seq<T>, key: map<T, Option<real>>) {
    && (forall x :: x in s ==> x in key)
    && (forall i, j :: 0 <= i < j < |s| ==> KeyLe(key[s[i]], key[s[j]]))
  }

  function Insert<T>(x: T, s: seq<T>, key: map<T, Option<real>>): (r: seq<T>)
    requires x in key
    requires SortedBy(s, key)
    ensures forall y :: y in r ==> y == x || y in s
    ensures multiset(r) == multiset(s) + multiset{x}
    ensures SortedBy(r, key)
  {
    if |s| == 0 then [x]
    else if KeyLe(key[x], key[s[0]]) then [x] + s
    else
      var rest := Insert(x, s[1..], key);
      assert s == [s[0]] + s[1..];
      HeadBelowRest(s[0], x, s[1..], rest, key);
      [s[0]] + rest
  }

  lemma HeadBelowRest<T>(h: T, x: T, tail: seq<T>, rest: seq<T>, key: map<T, Option<real>>)
    requires h in key && x in key && SortedBy([h] + tail, key) && SortedBy(rest, key)
    requires KeyLe(key[h], key[x])
    requires forall y :: y in rest ==> y == x || y in tail
    ensures SortedBy([h] + rest, key)
  {
    var s := [h] + rest;
    forall i, j | 0 <= i < j < |s| ensures KeyLe(key[s[i]], key[s[j]]) {
      if i == 0 {
        assert s[j] in rest;
        if s[j] != x {
          var k :| 0 <= k < |tail| && tail[k] == s[j];
          var t := [h] + tail;
          assert t[0] == h && t[k + 1] == s[j];
          assert KeyLe(key[t[0]], key[t[k + 1]]);
        }
      } else {
        assert s[i] == rest[i - 1] && s[j] == rest[j - 1];
        assert KeyLe(key[rest[i - 1]], key[rest[j - 1]]);
      }
    }
  }

  /** Sorts `s` by `key`. */
  function SortBy<T>(s: seq<T>, key: map<T, Option<real>>): (r: seq<T>)
    requires forall x :: x in s ==> x in key
    ensures multiset(r) == multiset(s)
    ensures SortedBy(r, key)
  {
    if |s| == 0 then [] else
      assert s == [s[0]] + s[1..];
      Insert(s[0], SortBy(s[1..], key), key)
  }
}
