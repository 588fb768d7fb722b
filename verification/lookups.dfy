/** The code-to-label lookups built from the trial record's header before
    any trial is read (embargo22abehaviorinterface.py, lines 34-41). */
module Lookups {
  import opened Results
  import opened Dicts
  import opened Tables

  /** The parts of the header the conversion reads: the `DEF.OUTCOME`
      dictionary as (label, number) pairs in its stored order, and the
      `Conditions.TypeCond` array. */
  datatype Header = Header(outcomes: seq<(string, int)>, typeCond: seq<int>)

  /** Outcome number -> outcome label, and condition number (1-based) ->
      condition-type description. */
  datatype Lookups = Lookups(outcomeOf: map<int, string>, conditionOf: map<int, string>)

  /** The OUTCOME dictionary turned around, number -> label. When two labels
      share a number the later one wins, as in the dict comprehension. */
  function InvertOutcomes(defs: seq<(string, int)>): (m: map<int, string>)
    ensures forall n :: n in m <==> exists i :: 0 <= i < |defs| && defs[i].1 == n
    ensures forall i :: 0 <= i < |defs| && (forall j :: i < j < |defs| ==> defs[j].1 != defs[i].1) ==>
              m[defs[i].1] == defs[i].0
  {
    var pairs := seq(|defs|, i requires 0 <= i < |defs| => (defs[i].1, defs[i].0));
    assert forall i :: 0 <= i < |defs| ==> pairs[i] == (defs[i].1, defs[i].0);
    LastWins(pairs)
  }

  /** The numbers of `defs` are pairwise different, as in a well-formed
      OUTCOME dictionary. */
  ghost predicate NumbersDistinct(defs: seq<(string, int)>) {
    forall i, j :: 0 <= i < j < |defs| ==> defs[i].1 != defs[j].1
  }

  /** With distinct numbers the inversion is an exact inverse: every label
      is found under its own number, and every number leads back to a pair
      of the dictionary. */
  lemma InvertOutcomesIsInverse(defs: seq<(string, int)>)
    requires NumbersDistinct(defs)
    ensures forall i :: 0 <= i < |defs| ==> InvertOutcomes(defs)[defs[i].1] == defs[i].0
    ensures forall n :: n in InvertOutcomes(defs) ==>
              exists i :: 0 <= i < |defs| && defs[i] == (InvertOutcomes(defs)[n], n)
  {
    var m := InvertOutcomes(defs);
    forall n | n in m ensures exists i :: 0 <= i < |defs| && defs[i] == (m[n], n) {
      var i :| 0 <= i < |defs| && defs[i].1 == n;
      assert m[defs[i].1] == defs[i].0;
    }
  }

  /** The description of a condition-type code: {0: blank, 1: target,
      2: visual_stimulus}. */
  function ConditionTypeName(code: int): Option<string> {
    if code == 0 then Some("blank")
    else if code == 1 then Some("target")
    else if code == 2 then Some("visual_stimulus")
    else None
  }

  /** The descriptions of `typeCond[i..]`, failing at the first unknown code. */
  function ConditionTypesFrom(typeCond: seq<int>, i: nat): (r: Result<seq<string>>)
    requires i <= |typeCond|
    decreases |typeCond| - i
    ensures r.Ok? <==> forall k :: i <= k < |typeCond| ==> ConditionTypeName(typeCond[k]).Some?
    ensures r.Ok? ==> |r.value| == |typeCond| - i
    ensures r.Ok? ==> forall k :: i <= k < |typeCond| ==> Some(r.value[k - i]) == ConditionTypeName(typeCond[k])
    ensures r.Err? ==> r.error.UnknownConditionType? && i <= r.error.index < |typeCond|
    ensures r.Err? ==> ConditionTypeName(typeCond[r.error.index]).None?
    ensures r.Err? ==> forall k :: i <= k < r.error.index ==> ConditionTypeName(typeCond[k]).Some?
  {
    if i == |typeCond| then Ok([])
    else match ConditionTypeName(typeCond[i])
      case None => Err(UnknownConditionType(i))
      case Some(d) =>
        var rest :- ConditionTypesFrom(typeCond, i + 1);
        Ok([d] + rest)
  }

  /** `{c + 1: d for c, d in enumerate(types)}`. */
  function ConditionMap(types: seq<string>): (m: map<int, string>)
    ensures forall c :: c in m <==> 1 <= c <= |types|
    ensures forall c :: 1 <= c <= |types| ==> m[c] == types[c - 1]
  {
    var pairs := seq(|types|, k requires 0 <= k < |types| => (k + 1, types[k]));
    var m := LastWins(pairs);
    forall c | 1 <= c <= |types| ensures c in m && m[c] == types[c - 1] {
      assert pairs[c - 1] == (c, types[c - 1]);
      assert LastOf(pairs, c - 1);
    }
    m
  }

  /** The lookups of lines 36-41: the inverted OUTCOME dictionary, and the
      description of `TypeCond[c - 1]` for each 1-based condition `c`. An
      unknown condition-type code fails before any trial is read. */
  function BuildLookups(h: Header): (r: Result<Lookups>)
    ensures r.Err? <==> exists k :: 0 <= k < |h.typeCond| && ConditionTypeName(h.typeCond[k]).None?
    ensures r.Err? ==> r.error.UnknownConditionType? && r.error.index < |h.typeCond|
    ensures r.Err? ==> ConditionTypeName(h.typeCond[r.error.index]).None?
    ensures r.Err? ==> forall k :: 0 <= k < r.error.index ==> ConditionTypeName(h.typeCond[k]).Some?
    ensures r.Ok? ==> r.value.outcomeOf == InvertOutcomes(h.outcomes)
    ensures r.Ok? ==> forall c :: c in r.value.conditionOf <==> 1 <= c <= |h.typeCond|
    ensures r.Ok? ==> forall c :: 1 <= c <= |h.typeCond| ==>
              Some(r.value.conditionOf[c]) == ConditionTypeName(h.typeCond[c - 1])
  {
    var types :- ConditionTypesFrom(h.typeCond, 0);
    Ok(Lookups(InvertOutcomes(h.outcomes), ConditionMap(types)))
  }
}
