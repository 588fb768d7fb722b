/** The dictionary Python builds from a sequence of key/value pairs, as a
    dict comprehension or `dict(pairs)` does: a later pair overrides an
    earlier pair with the same key. */
module Dicts {

  /** Pair `i` is the last pair in `pairs` with its key. */
  predicate LastOf<K(==), V>(pairs: seq<(K, V)>, i: int) {
    0 <= i < |pairs| && forall j :: i < j < |pairs| ==> pairs[j].0 != pairs[i].0
  }

  /** What a dictionary built from `pairs` holds: exactly the keys of the
      pairs, each with the value of its last pair. */
  ghost predicate BuiltFrom<K, V>(pairs: seq<(K, V)>, m: map<K, V>) {
    && (forall k :: k in m ==> exists i :: 0 <= i < |pairs| && pairs[i].0 == k)
    && (forall i :: 0 <= i < |pairs| ==> pairs[i].0 in m)
    && (forall i :: LastOf(pairs, i) ==> m[pairs[i].0] == pairs[i].1)
  }

  function LastWins<K(==), V>(pairs: seq<(K, V)>): (m: map<K, V>)
    ensures forall k :: k in m ==> exists i :: 0 <= i < |pairs| && pairs[i].0 == k
    ensures forall i :: 0 <= i < |pairs| ==> pairs[i].0 in m
    ensures forall i :: LastOf(pairs, i) ==> m[pairs[i].0] == pairs[i].1
  {
    if |pairs| == 0 then map[]
    else
      var init := pairs[..|pairs| - 1];
      var last := pairs[|pairs| - 1];
      var m0 := LastWins(init);
      var m := m0[last.0 := last.1];
      LastWinsStep(pairs, m0, m);
      m
  }

  /** Adding the last pair to the dictionary of the others. */
  lemma LastWinsStep<K, V>(pairs: seq<(K, V)>, m0: map<K, V>, m: map<K, V>)
    requires |pairs| > 0 && BuiltFrom(pairs[..|pairs| - 1], m0)
    requires m == m0[pairs[|pairs| - 1].0 := pairs[|pairs| - 1].1]
    ensures BuiltFrom(pairs, m)
  {
    var init := pairs[..|pairs| - 1];
    var last := pairs[|pairs| - 1];
    forall k | k in m ensures exists i :: 0 <= i < |pairs| && pairs[i].0 == k {
      if k == last.0 {
        assert pairs[|pairs| - 1].0 == k;
      } else {
        var i :| 0 <= i < |init| && init[i].0 == k;
        assert pairs[i].0 == k;
      }
    }
    forall i | 0 <= i < |pairs| ensures pairs[i].0 in m {
      if i < |pairs| - 1 {
        assert init[i] == pairs[i];
      }
    }
    forall i | LastOf(pairs, i) ensures m[pairs[i].0] == pairs[i].1 {
      if i < |pairs| - 1 {
        assert init[i] == pairs[i];
        assert pairs[i].0 != last.0;
        assert LastOf(init, i);
      }
    }
  }
}
