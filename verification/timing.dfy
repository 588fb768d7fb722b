/** The time columns (embargo22abehaviorinterface.py, lines 77-93):
    milliseconds become seconds, time columns are ordered by their mean
    offset from the trial start, and the remaining columns follow in
    alphabetical order. */
module Timing {
  import opened Results
  import opened Cells
  import opened Text
  import opened Tables
  import opened KeySort

  /** `s` is the millisecond entry `ms` in seconds: both missing, or both
      numbers with `s * 1000 == ms`. */
  predicate InSeconds(ms: Entry, s: Entry) {
    || (ms.None? && s.None?)
    || (ms.Some? && ms.value.Num? && s.Some? && s.value.Num? && s.value.v * 1000.0 == ms.value.v)
  }

  predicate ColumnInSeconds(ms: seq<Entry>, s: seq<Entry>) {
    |ms| == |s| && forall i :: 0 <= i < |ms| ==> InSeconds(ms[i], s[i])
  }

  /** `col[i..] / 1000.0`: missing stays missing, text is a `TypeError`. */
  function ScaleFrom(col: seq<Entry>, column: string, i: nat): (r: Result<seq<Entry>>)
    requires i <= |col|
    decreases |col| - i
    ensures r.Ok? <==> forall k :: i <= k < |col| ==> !(col[k].Some? && col[k].value.Text?)
    ensures r.Ok? ==> |r.value| == |col| - i && forall k :: i <= k < |col| ==> InSeconds(col[k], r.value[k - i])
    ensures r.Err? ==> r.error.NotNumeric? && r.error.column == column && i <= r.error.row < |col|
    ensures r.Err? ==> col[r.error.row].Some? && col[r.error.row].value.Text?
  {
    if i == |col| then Ok([])
    else match col[i]
      case Some(Text(_)) => Err(NotNumeric(column, i))
      case Some(Num(v)) =>
        var rest :- ScaleFrom(col, column, i + 1);
        Ok([Some(Num(v / 1000.0))] + rest)
      case None =>
        var rest :- ScaleFrom(col, column, i + 1);
        Ok([None] + rest)
  }

  /** Divides each column in `todo`, in order, by 1000. */
  function ScaleEach(t: Table, todo: seq<string>): (r: Result<Table>)
    requires Wf(t) && Distinct(todo) && forall n :: n in todo ==> n in t.cols
    decreases |todo|
    ensures r.Ok? <==> forall n :: n in todo ==> NoText(t.cols[n])
    ensures r.Err? ==> r.error.NotNumeric? && r.error.column in todo
    ensures r.Ok? ==> Wf(r.value) && r.value.names == t.names && r.value.height == t.height
    ensures r.Ok? ==> forall n :: n in r.value.cols <==> n in t.cols
    ensures r.Ok? ==> forall n :: n in todo ==> ColumnInSeconds(t.cols[n], r.value.cols[n])
    ensures r.Ok? ==> forall n :: n in t.cols && n !in todo ==> r.value.cols[n] == t.cols[n]
  {
    if |todo| == 0 then Ok(t)
    else
      var n := todo[0];
      assert todo == [n] + todo[1..];
      var c :- ScaleFrom(t.cols[n], n, 0);
      assert ColumnInSeconds(t.cols[n], c) && NoText(t.cols[n]);
      var t1 := SetColumn(t, n, c);
      var r := ScaleEach(t1, todo[1..]);
      ScaleEachStep(t, todo, c, t1, r);
      r
  }

  /** Scaling the first column of `todo` and then the rest scales all of
      `todo`. */
  lemma ScaleEachStep(t: Table, todo: seq<string>, c: seq<Entry>, t1: Table, r: Result<Table>)
    requires Wf(t) && Distinct(todo) && |todo| > 0 && forall n :: n in todo ==> n in t.cols
    requires ColumnInSeconds(t.cols[todo[0]], c) && NoText(t.cols[todo[0]])
    requires t1 == SetColumn(t, todo[0], c)
    requires r.Ok? <==> forall n :: n in todo[1..] ==> NoText(t1.cols[n])
    requires r.Err? ==> r.error.NotNumeric? && r.error.column in todo[1..]
    requires r.Ok? ==> Wf(r.value) && r.value.names == t1.names && r.value.height == t1.height
    requires r.Ok? ==> forall n :: n in r.value.cols <==> n in t1.cols
    requires r.Ok? ==> forall n :: n in todo[1..] ==> ColumnInSeconds(t1.cols[n], r.value.cols[n])
    requires r.Ok? ==> forall n :: n in t1.cols && n !in todo[1..] ==> r.value.cols[n] == t1.cols[n]
    ensures r.Ok? <==> forall n :: n in todo ==> NoText(t.cols[n])
    ensures r.Err? ==> r.error.NotNumeric? && r.error.column in todo
    ensures r.Ok? ==> Wf(r.value) && r.value.names == t.names && r.value.height == t.height
    ensures r.Ok? ==> forall n :: n in r.value.cols <==> n in t.cols
    ensures r.Ok? ==> forall n :: n in todo ==> ColumnInSeconds(t.cols[n], r.value.cols[n])
    ensures r.Ok? ==> forall n :: n in t.cols && n !in todo ==> r.value.cols[n] == t.cols[n]
  {
    var n := todo[0];
    assert todo == [n] + todo[1..];
    forall m | m in todo[1..] ensures t1.cols[m] == t.cols[m] {
      var k :| 0 <= k < |todo[1..]| && todo[1..][k] == m;
      assert todo[k + 1] == m;
    }
  }

  /** The labels of `names` that name time columns. */
  function TimeNames(names: seq<string>): (s: set<string>)
    ensures forall n :: n in s <==> n in names && IsTimeColumn(n)
  {
    set n | n in names && IsTimeColumn(n)
  }

  /** Lines 77-79: exactly the columns whose name contains "Time" and not
      "Now" are divided by 1000; every other column keeps its values. Text
      in a time column is a `TypeError`. */
  function ScaleTimes(t: Table): (r: Result<Table>)
    requires Wf(t)
    ensures r.Ok? <==> forall n :: n in t.cols && IsTimeColumn(n) ==> NoText(t.cols[n])
    ensures r.Err? ==> r.error.NotNumeric? && IsTimeColumn(r.error.column)
    ensures r.Ok? ==> Wf(r.value) && r.value.names == t.names && r.value.height == t.height
    ensures r.Ok? ==> forall n :: n in r.value.cols <==> n in t.cols
    ensures r.Ok? ==> forall n :: n in t.cols && IsTimeColumn(n) ==> ColumnInSeconds(t.cols[n], r.value.cols[n])
    ensures r.Ok? ==> forall n :: n in t.cols && !IsTimeColumn(n) ==> r.value.cols[n] == t.cols[n]
  {
    ScaleEach(t, Filter(t.names, TimeNames(t.names), true))
  }

  function Sum(xs: seq<real>): real {
    if |xs| == 0 then 0.0 else xs[0] + Sum(xs[1..])
  }

  /** pandas' `mean()` skipping missing values: `None` when nothing is left. */
  function Mean(xs: seq<real>): (r: Option<real>)
    ensures r.None? <==> |xs| == 0
  {
    if |xs| == 0 then None else Some(Sum(xs) / |xs| as real)
  }

  /** `col - start` on the rows where both are numbers; a row where either is
      missing gives NaN, which the mean skips. */
  function Offsets(col: seq<Entry>, start: seq<Entry>): (r: seq<real>)
    decreases |col|
  {
    if |col| == 0 || |start| == 0 then []
    else
      var rest := Offsets(col[1..], start[1..]);
      match (NumKey(col[0]), NumKey(start[0]))
      case (Some(x), Some(s)) => [x - s] + rest
      case _ => rest
  }

  /** The mean offset of a time column from the trial start (lines 82-83). */
  function MeanOffset(col: seq<Entry>, start: seq<Entry>): Option<real> {
    Mean(Offsets(col, start))
  }

  lemma {:induction false} SumBounds(xs: seq<real>, lo: real, hi: real)
    requires forall i :: 0 <= i < |xs| ==> lo <= xs[i] <= hi
    ensures |xs| as real * lo <= Sum(xs) <= |xs| as real * hi
  {
    if |xs| > 0 {
      SumBounds(xs[1..], lo, hi);
      assert |xs| as real * lo == lo + (|xs| - 1) as real * lo;
      assert |xs| as real * hi == hi + (|xs| - 1) as real * hi;
    }
  }

  /** A mean lies between any lower and upper bound of the values. */
  lemma MeanBetween(xs: seq<real>, lo: real, hi: real)
    requires forall i :: 0 <= i < |xs| ==> lo <= xs[i] <= hi
    ensures Mean(xs).Some? ==> lo <= Mean(xs).value <= hi
  {
    if |xs| > 0 {
      SumBounds(xs, lo, hi);
      var n := |xs| as real;
      assert Sum(xs) / n >= lo by {
        assert Sum(xs) >= n * lo;
      }
      assert Sum(xs) / n <= hi by {
        assert Sum(xs) <= n * hi;
      }
    }
  }

  /** Every offset of the trial start from itself is zero. */
  lemma {:induction false} SelfOffsetsZero(start: seq<Entry>)
    ensures forall i :: 0 <= i < |Offsets(start, start)| ==> Offsets(start, start)[i] == 0.0
  {
    if |start| > 0 {
      SelfOffsetsZero(start[1..]);
    }
  }

  /** The trial start's own mean offset is zero (or undefined when it is
      never recorded), so `start_time` sorts among the time columns by its
      offset zero. */
  lemma StartOffsetIsZero(start: seq<Entry>)
    ensures MeanOffset(start, start) == None || MeanOffset(start, start) == Some(0.0)
  {
    SelfOffsetsZero(start);
    MeanBetween(Offsets(start, start), 0.0, 0.0);
  }

  /** No non-time column comes before a time column. */
  ghost predicate TimeColumnsFirst(names: seq<string>) {
    forall i, j :: 0 <= i < j < |names| && IsTimeColumn(names[j]) ==> IsTimeColumn(names[i])
  }

  /** The time columns ascend by mean offset from `TimeTrialStart`, columns
      without a mean last. */
  ghost predicate TimesByMeanOffset(t: Table) {
    && "TimeTrialStart" in t.cols
    && forall i, j ::
         (0 <= i < j < |t.names| && IsTimeColumn(t.names[i]) && IsTimeColumn(t.names[j])
          && t.names[i] in t.cols && t.names[j] in t.cols) ==>
         KeyLe(MeanOffset(t.cols[t.names[i]], t.cols["TimeTrialStart"]),
               MeanOffset(t.cols[t.names[j]], t.cols["TimeTrialStart"]))
  }

  /** The non-time columns are in alphabetical order. */
  ghost predicate OthersAlphabetical(names: seq<string>) {
    forall i, j :: 0 <= i < j < |names| && !IsTimeColumn(names[i]) && !IsTimeColumn(names[j]) ==>
      LexLe(names[i], names[j])
  }

  /** Lines 82-93: the columns rearranged, each exactly once, time columns
      first by mean offset from the trial start, then the rest
      alphabetically. A missing `TimeTrialStart` column is an error. */
  function OrderColumns(t: Table): (r: Result<Table>)
    requires Wf(t)
    ensures r.Err? <==> "TimeTrialStart" !in t.cols
    ensures r.Err? ==> r.error == MissingColumn("TimeTrialStart")
    ensures r.Ok? ==> Wf(r.value) && r.value.cols == t.cols && r.value.height == t.height
    ensures r.Ok? ==> multiset(r.value.names) == multiset(t.names)
    ensures r.Ok? ==> TimeColumnsFirst(r.value.names)
    ensures r.Ok? ==> TimesByMeanOffset(r.value)
    ensures r.Ok? ==> OthersAlphabetical(r.value.names)
  {
    if "TimeTrialStart" !in t.cols then Err(MissingColumn("TimeTrialStart"))
    else
      var start := t.cols["TimeTrialStart"];
      var times := Filter(t.names, TimeNames(t.names), true);
      var others := Filter(t.names, TimeNames(t.names), false);
      var keys := map n | n in times :: MeanOffset(t.cols[n], start);
      var sortedTimes := SortBy(times, keys);
      var sortedOthers := SortNames(others);
      var r := Table(sortedTimes + sortedOthers, t.cols, t.height);
      OrderFacts(t, times, others, keys, sortedTimes, sortedOthers, r);
      Ok(r)
  }

  lemma OrderFacts(t: Table, times: seq<string>, others: seq<string>, keys: map<string, Option<real>>,
                   sortedTimes: seq<string>, sortedOthers: seq<string>, r: Table)
    requires Wf(t) && "TimeTrialStart" in t.cols
    requires times == Filter(t.names, TimeNames(t.names), true)
    requires others == Filter(t.names, TimeNames(t.names), false)
    requires forall n :: n in keys <==> n in times
    requires forall n :: n in keys ==> keys[n] == MeanOffset(t.cols[n], t.cols["TimeTrialStart"])
    requires multiset(sortedTimes) == multiset(times) && SortedBy(sortedTimes, keys)
    requires multiset(sortedOthers) == multiset(others) && LexSorted(sortedOthers)
    requires r == Table(sortedTimes + sortedOthers, t.cols, t.height)
    ensures Wf(r)
    ensures multiset(r.names) == multiset(t.names)
    ensures TimeColumnsFirst(r.names)
    ensures TimesByMeanOffset(r)
    ensures OthersAlphabetical(r.names)
  {
    var S := TimeNames(t.names);
    OrderPermutes(t, times, others, sortedTimes, sortedOthers, r);
    SidesOfSplit(t.names, S, times, others, sortedTimes, sortedOthers);
    NamesInTimesIff(t, r, S);
    FromSplit(r, S, keys, sortedTimes, sortedOthers);
  }

  /** The sorted halves keep the time columns apart from the rest. */
  lemma SidesOfSplit(names: seq<string>, S: set<string>, times: seq<string>, others: seq<string>,
                     sortedTimes: seq<string>, sortedOthers: seq<string>)
    requires times == Filter(names, S, true) && others == Filter(names, S, false)
    requires multiset(sortedTimes) == multiset(times) && multiset(sortedOthers) == multiset(others)
    ensures forall x :: x in sortedTimes ==> x in S
    ensures forall x :: x in sortedOthers ==> x !in S
  {
    forall x | x in sortedTimes ensures x in S {
      assert x in multiset(times);
    }
    forall x | x in sortedOthers ensures x !in S {
      assert x in multiset(others);
    }
  }

  /** In any rearrangement of the names, membership of `S` is being a time
      column. */
  lemma NamesInTimesIff(t: Table, r: Table, S: set<string>)
    requires S == TimeNames(t.names) && multiset(r.names) == multiset(t.names)
    ensures forall i :: 0 <= i < |r.names| ==> (r.names[i] in S <==> IsTimeColumn(r.names[i]))
  {
    forall i | 0 <= i < |r.names| ensures r.names[i] in S <==> IsTimeColumn(r.names[i]) {
      assert r.names[i] in multiset(t.names);
    }
  }

  /** A key-sorted front of time columns followed by an alphabetical back of
      the other columns is the final order. */
  lemma FromSplit(r: Table, S: set<string>, keys: map<string, Option<real>>,
                  front: seq<string>, back: seq<string>)
    requires "TimeTrialStart" in r.cols && r.names == front + back
    requires forall x :: x in front ==> x in S
    requires forall x :: x in back ==> x !in S
    requires SortedBy(front, keys) && LexSorted(back)
    requires forall i :: 0 <= i < |r.names| ==> (r.names[i] in S <==> IsTimeColumn(r.names[i]))
    requires forall n :: n in keys ==> n in r.cols && keys[n] == MeanOffset(r.cols[n], r.cols["TimeTrialStart"])
    ensures TimeColumnsFirst(r.names)
    ensures TimesByMeanOffset(r)
    ensures OthersAlphabetical(r.names)
  {
    SplitOrder(r.names, front, back, S, keys);
    TimesFirstFromSplit(r.names, S);
    TimesOrderedFromSplit(r, S, keys);
    OthersFromSplit(r.names, S);
  }

  lemma TimesFirstFromSplit(names: seq<string>, S: set<string>)
    requires forall i :: 0 <= i < |names| ==> (names[i] in S <==> IsTimeColumn(names[i]))
    requires forall i, j :: 0 <= i < j < |names| && names[j] in S ==> names[i] in S
    ensures TimeColumnsFirst(names)
  {
    forall i, j | 0 <= i < j < |names| && IsTimeColumn(names[j]) ensures IsTimeColumn(names[i]) {
      assert names[j] in S;
    }
  }

  lemma TimesOrderedFromSplit(r: Table, S: set<string>, keys: map<string, Option<real>>)
    requires "TimeTrialStart" in r.cols
    requires forall i :: 0 <= i < |r.names| ==> (r.names[i] in S <==> IsTimeColumn(r.names[i]))
    requires forall i, j :: 0 <= i < j < |r.names| && r.names[i] in S && r.names[j] in S ==>
               r.names[i] in keys && r.names[j] in keys && KeyLe(keys[r.names[i]], keys[r.names[j]])
    requires forall n :: n in keys ==> n in r.cols && keys[n] == MeanOffset(r.cols[n], r.cols["TimeTrialStart"])
    ensures TimesByMeanOffset(r)
  {
    forall i, j | 0 <= i < j < |r.names| && IsTimeColumn(r.names[i]) && IsTimeColumn(r.names[j])
                  && r.names[i] in r.cols && r.names[j] in r.cols
      ensures KeyLe(MeanOffset(r.cols[r.names[i]], r.cols["TimeTrialStart"]),
                    MeanOffset(r.cols[r.names[j]], r.cols["TimeTrialStart"]))
    {
      assert r.names[i] in S && r.names[j] in S;
      assert KeyLe(keys[r.names[i]], keys[r.names[j]]);
    }
  }

  lemma OthersFromSplit(names: seq<string>, S: set<string>)
    requires forall i :: 0 <= i < |names| ==> (names[i] in S <==> IsTimeColumn(names[i]))
    requires forall i, j :: 0 <= i < j < |names| && names[i] !in S && names[j] !in S ==>
               LexLe(names[i], names[j])
    ensures OthersAlphabetical(names)
  {
    forall i, j | 0 <= i < j < |names| && !IsTimeColumn(names[i]) && !IsTimeColumn(names[j])
      ensures LexLe(names[i], names[j])
    {
      assert names[i] !in S && names[j] !in S;
    }
  }

  /** A list made of a key-sorted front inside `S` and an alphabetical back
      outside `S` has its `S` members first, key-sorted, and the others
      alphabetical. */
  lemma SplitOrder(names: seq<string>, front: seq<string>, back: seq<string>, S: set<string>,
                   keys: map<string, Option<real>>)
    requires names == front + back
    requires forall x :: x in front ==> x in S
    requires forall x :: x in back ==> x !in S
    requires SortedBy(front, keys) && LexSorted(back)
    ensures forall i, j :: 0 <= i < j < |names| && names[j] in S ==> names[i] in S
    ensures forall i, j :: 0 <= i < j < |names| && names[i] in S && names[j] in S ==>
              names[i] in keys && names[j] in keys && KeyLe(keys[names[i]], keys[names[j]])
    ensures forall i, j :: 0 <= i < j < |names| && names[i] !in S && names[j] !in S ==>
              LexLe(names[i], names[j])
  {
    var k := |front|;
    forall i | 0 <= i < |names| ensures (i < k <==> names[i] in S) {
      if i < k {
        assert names[i] == front[i];
      } else {
        assert names[i] == back[i - k];
      }
    }
    forall i, j | 0 <= i < j < |names| && names[i] in S && names[j] in S
      ensures names[i] in keys && names[j] in keys && KeyLe(keys[names[i]], keys[names[j]])
    {
      assert names[i] == front[i] && names[j] == front[j];
    }
    forall i, j | 0 <= i < j < |names| && names[i] !in S && names[j] !in S
      ensures LexLe(names[i], names[j])
    {
      assert names[i] == back[i - k] && names[j] == back[j - k];
    }
  }

  lemma OrderPermutes(t: Table, times: seq<string>, others: seq<string>,
                      sortedTimes: seq<string>, sortedOthers: seq<string>, r: Table)
    requires Wf(t)
    requires times == Filter(t.names, TimeNames(t.names), true)
    requires others == Filter(t.names, TimeNames(t.names), false)
    requires multiset(sortedTimes) == multiset(times)
    requires multiset(sortedOthers) == multiset(others)
    requires r == Table(sortedTimes + sortedOthers, t.cols, t.height)
    ensures Wf(r)
    ensures multiset(r.names) == multiset(t.names)
  {
    FilterPartition(t.names, TimeNames(t.names));
    assert multiset(r.names) == multiset(t.names);
    DistinctPermutation(t.names, r.names);
    forall n ensures n in r.names <==> n in t.names {
      assert n in r.names <==> n in multiset(r.names);
      assert n in t.names <==> n in multiset(t.names);
    }
  }
}
