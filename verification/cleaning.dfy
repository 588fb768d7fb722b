/** The cleaning chain of the trial table (embargo22abehaviorinterface.py,
    lines 46-68): the sentinel becomes missing, all-missing columns go, rows
    are sorted by trial number, the trial number and the nested-structure
    columns are dropped, and single-valued columns are removed. */
module Cleaning {
  import opened Results
  import opened Cells
  import opened Tables
  import opened KeySort

  /** The columns that hold nested structures and cannot live in a flat table. */
  const StructureColumns: seq<string> :=
    ["Database", "Graphics", "Events", "ServerParams", "TTLCfg", "FPPos", "BKColor", "FPColor"]

  /** An entry with the sentinel read as missing. */
  function Unsentinel(e: Entry): Entry {
    if e == Some(Sentinel) then None else e
  }

  /** `replace(-1, NaN)`: every sentinel becomes missing, nothing else changes. */
  function ReplaceSentinel(t: Table): (r: Table)
    requires Wf(t)
    ensures Wf(r) && r.names == t.names && r.height == t.height
    ensures forall n :: n in r.cols <==> n in t.cols
    ensures forall n, i :: n in r.cols && 0 <= i < r.height ==> r.cols[n][i] != Some(Sentinel)
    ensures forall n, i :: n in r.cols && 0 <= i < r.height ==>
              (r.cols[n][i].None? <==> t.cols[n][i].None? || t.cols[n][i] == Some(Sentinel))
    ensures forall n, i :: n in r.cols && 0 <= i < r.height && r.cols[n][i].Some? ==>
              r.cols[n][i] == t.cols[n][i]
  {
    Table(t.names,
          map n | n in t.cols :: seq(t.height, i requires 0 <= i < t.height => Unsentinel(t.cols[n][i])),
          t.height)
  }

  predicate AllMissing(col: seq<Entry>) {
    forall i :: 0 <= i < |col| ==> col[i].None?
  }

  /** Every column of the table holds at least one recorded entry. */
  predicate AllPresent(t: Table) {
    forall n :: n in t.cols ==> !AllMissing(t.cols[n])
  }

  /** `dropna(axis=1, how="all")`: exactly the columns without a single
      present entry are dropped; the rest are untouched. */
  function DropAllMissing(t: Table): (r: Table)
    requires Wf(t)
    ensures Wf(r) && r.height == t.height
    ensures forall n :: n in r.cols <==> n in t.cols && !AllMissing(t.cols[n])
    ensures forall n :: n in r.cols ==> r.cols[n] == t.cols[n]
  {
    Without(t, set n | n in t.cols && AllMissing(t.cols[n]))
  }

  /** The first row whose entry is text, which pandas cannot order against numbers. */
  function FirstText(col: seq<Entry>, i: nat): (r: Option<nat>)
    requires i <= |col|
    decreases |col| - i
    ensures r.None? <==> forall k :: i <= k < |col| ==> !(col[k].Some? && col[k].value.Text?)
    ensures r.Some? ==> i <= r.value < |col| && col[r.value].Some? && col[r.value].value.Text?
    ensures r.Some? ==> forall k :: i <= k < r.value ==> !(col[k].Some? && col[k].value.Text?)
  {
    if i == |col| then None
    else if col[i].Some? && col[i].value.Text? then Some(i)
    else FirstText(col, i + 1)
  }

  /** The sort keys of a column: its numbers, with missing and text as `None`. */
  function Keys(col: seq<Entry>): (r: seq<Option<real>>)
    ensures |r| == |col| && forall k :: 0 <= k < |col| ==> r[k] == NumKey(col[k])
  {
    seq(|col|, k requires 0 <= k < |col| => NumKey(col[k]))
  }

  /** The sort keys of a raw trial-number column once the sentinel reads as missing. */
  function CleanKeys(col: seq<Entry>): (r: seq<Option<real>>)
    ensures |r| == |col| && forall k :: 0 <= k < |col| ==> r[k] == NumKey(Unsentinel(col[k]))
  {
    seq(|col|, k requires 0 <= k < |col| => NumKey(Unsentinel(col[k])))
  }

  /** Along `p`, the keys ascend, missing ones last. */
  ghost predicate OrderedAlong(keys: seq<Option<real>>, p: seq<nat>) {
    forall i, j :: 0 <= i < j < |p| && p[i] < |keys| && p[j] < |keys| ==> KeyLe(keys[p[i]], keys[p[j]])
  }

  /** `sort_values(by="TrialNum")`: the rows rearranged, each exactly once,
      so that the trial numbers ascend with missing ones last. A missing
      `TrialNum` column is a `KeyError`; text in it a `TypeError`. */
  function SortByTrialNum(t: Table): (r: Result<Table>)
    requires Wf(t)
    ensures "TrialNum" !in t.cols ==> r == Err(MissingColumn("TrialNum"))
    ensures "TrialNum" in t.cols ==>
              (r.Err? <==> exists k :: 0 <= k < t.height && t.cols["TrialNum"][k].Some? && t.cols["TrialNum"][k].value.Text?)
    ensures r.Err? && "TrialNum" in t.cols ==> r.error.NotNumeric? && r.error.column == "TrialNum"
    ensures r.Ok? ==> Wf(r.value) && r.value.names == t.names && r.value.height == t.height
    ensures r.Ok? ==> exists p :: IsPermutation(p, t.height) && RowsFrom(t, r.value, p) && OrderedAlong(Keys(t.cols["TrialNum"]), p)
  {
    if "TrialNum" !in t.cols then Err(MissingColumn("TrialNum"))
    else
      var col := t.cols["TrialNum"];
      match FirstText(col, 0)
      case Some(k) => Err(NotNumeric("TrialNum", k))
      case None =>
        var keys: map<nat, Option<real>> := map k: nat | k < t.height :: NumKey(col[k]);
        var p := SortBy(Range(t.height), keys);
        var r := PermuteRows(t, p);
        assert OrderedAlong(Keys(col), p) by {
          PermutationBounds(p, t.height);
        }
        Ok(r)
  }

  /** Line 60 and 61: drop `TrialNum`, then the structure columns; any of
      them absent is a `KeyError`. */
  function DropNested(t: Table): (r: Result<Table>)
    requires Wf(t)
    ensures r.Err? <==> "TrialNum" !in t.cols || exists k :: 0 <= k < |StructureColumns| && StructureColumns[k] !in t.cols
    ensures r.Err? ==> r.error.MissingColumn?
    ensures r.Ok? ==> Wf(r.value) && r.value.height == t.height
    ensures r.Ok? ==> forall n :: n in r.value.cols <==> n in t.cols && n != "TrialNum" && n !in StructureColumns
    ensures r.Ok? ==> forall n :: n in r.value.cols ==> r.value.cols[n] == t.cols[n]
  {
    var t1 :- Drop(t, ["TrialNum"]);
    TrialNumNotStructural();
    var t2 :- Drop(t1, StructureColumns);
    DroppedBoth(t, t1, t2);
    Ok(t2)
  }

  /** `TrialNum` is not one of the structure columns. */
  lemma TrialNumNotStructural()
    ensures "TrialNum" !in StructureColumns
  {
  }

  lemma DroppedBoth(t: Table, t1: Table, t2: Table)
    requires forall n :: n in t1.cols <==> n in t.cols && n !in ["TrialNum"]
    requires forall n :: n in t1.cols ==> t1.cols[n] == t.cols[n]
    requires forall n :: n in t2.cols <==> n in t1.cols && n !in StructureColumns
    requires forall n :: n in t2.cols ==> t2.cols[n] == t1.cols[n]
    ensures forall n :: n in t2.cols <==> n in t.cols && n != "TrialNum" && n !in StructureColumns
    ensures forall n :: n in t2.cols ==> t2.cols[n] == t.cols[n]
  {
  }

  /** Lines 60 and 61 together are one `drop` of `TrialNum` and the
      structure columns: the same failures, naming the same column, and the
      same table on success. */
  lemma DropNestedIsOneDrop(t: Table)
    requires Wf(t)
    ensures DropNested(t) == Drop(t, ["TrialNum"] + StructureColumns)
  {
    var L := ["TrialNum"] + StructureColumns;
    assert L[0] == "TrialNum" && L[1..] == StructureColumns;
    if "TrialNum" in t.cols {
      assert FirstAbsent(t, ["TrialNum"]) == None;
      assert (set n | n in ["TrialNum"]) == {"TrialNum"};
      var t1 := Without(t, {"TrialNum"});
      assert Drop(t, ["TrialNum"]) == Ok(t1);
      TrialNumNotStructural();
      FirstAbsentAgrees(t1, t, StructureColumns);
      assert FirstAbsent(t, L) == FirstAbsent(t, StructureColumns);
      if FirstAbsent(t, StructureColumns).None? {
        var S := set n | n in StructureColumns;
        WithoutTwice(t, {"TrialNum"}, S);
        ElementsOfConcat(["TrialNum"], StructureColumns);
      }
    }
  }

  lemma ElementsOfConcat<T>(a: seq<T>, b: seq<T>)
    ensures (set x | x in a + b) == (set x | x in a) + (set x | x in b)
  {
  }

  /** The column holds an entry that is neither missing nor the sentinel. */
  predicate HasRecord(col: seq<Entry>) {
    exists i :: 0 <= i < |col| && Unsentinel(col[i]).Some?
  }

  /** Two entries of the column differ once the sentinel is read as missing. */
  predicate Varies(col: seq<Entry>) {
    exists i, j :: 0 <= i < |col| && 0 <= j < |col| && Unsentinel(col[i]) != Unsentinel(col[j])
  }

  /** The input lines 56-62 accept: a `TrialNum` column with a recorded
      entry (else line 58 drops it and line 59 raises a `KeyError`) and no
      text (else the sort of line 59 raises a `TypeError`), and every
      structure column recorded (else line 58 drops it and line 61 raises a
      `KeyError`). */
  predicate CleanAccepts(t: Table) {
    && "TrialNum" in t.cols && HasRecord(t.cols["TrialNum"]) && NoText(t.cols["TrialNum"])
    && forall s :: s in StructureColumns ==> s in t.cols && HasRecord(t.cols[s])
  }

  /** Lines 56-62 as one step. */
  function Clean(t: Table): (r: Result<Table>)
    requires Wf(t)
    ensures r.Ok? <==> CleanAccepts(t)
    ensures r.Ok? ==> Wf(r.value) && r.value.height == t.height
    ensures r.Ok? ==> "TrialNum" !in r.value.cols && forall n :: n in StructureColumns ==> n !in r.value.cols
    ensures r.Ok? ==> forall n :: n in r.value.cols <==>
              n in t.cols && n != "TrialNum" && n !in StructureColumns && HasRecord(t.cols[n])
    ensures r.Ok? ==> forall n, i :: n in r.value.cols && 0 <= i < r.value.height ==> r.value.cols[n][i] != Some(Sentinel)
    ensures r.Ok? ==> AllPresent(r.value)
    ensures r.Ok? ==> t.height > 0
    ensures r.Ok? ==> "TrialNum" in t.cols && exists p :: IsPermutation(p, t.height) && Cleaned(t, r.value, p)
  {
    var t1 := DropAllMissing(ReplaceSentinel(t));
    CleanAcceptsIff(t, t1);
    var t2 :- SortByTrialNum(t1);
    var t3 :- DropNested(t2);
    CleanFacts(t, t1, t2, t3);
    CleanShape(t, t1, t2, t3);
    CleanPresence(t, t1, t2, t3);
    CleanColumns(t, t1, t2, t3);
    Ok(t3)
  }

  /** The sort and the drops that follow the replacement and the
      all-missing drop both succeed exactly on the input `CleanAccepts`. */
  lemma CleanAcceptsIff(t: Table, t1: Table)
    requires Wf(t) && t1 == DropAllMissing(ReplaceSentinel(t))
    ensures (SortByTrialNum(t1).Ok? && DropNested(SortByTrialNum(t1).value).Ok?) <==> CleanAccepts(t)
  {
    if "TrialNum" in t.cols {
      RecordedIff(t, "TrialNum");
    }
    if "TrialNum" in t1.cols {
      TextSurvivesReplace(t.cols["TrialNum"], t1.cols["TrialNum"]);
      var s := SortByTrialNum(t1);
      if s.Ok? {
        StructuresKept(t, t1, s.value);
      }
    }
  }

  /** The sentinel replacement neither adds nor removes text. */
  lemma TextSurvivesReplace(c: seq<Entry>, c1: seq<Entry>)
    requires |c1| == |c| && forall k :: 0 <= k < |c| ==> c1[k] == Unsentinel(c[k])
    ensures NoText(c1) <==> NoText(c)
  {
  }

  /** After the sort, the drops of lines 60-61 succeed exactly when every
      structure column was recorded in the input. */
  lemma StructuresKept(t: Table, t1: Table, t2: Table)
    requires Wf(t) && t1 == DropAllMissing(ReplaceSentinel(t)) && "TrialNum" in t1.cols
    requires Wf(t2) && t2.names == t1.names
    ensures DropNested(t2).Ok? <==> forall s :: s in StructureColumns ==> s in t.cols && HasRecord(t.cols[s])
  {
    forall s | s in StructureColumns ensures s in t2.cols <==> s in t.cols && HasRecord(t.cols[s]) {
      assert s in t2.cols <==> s in t1.cols;
      if s in t.cols {
        RecordedIff(t, s);
      }
    }
    DropNestedOkIff(t2);
  }

  /** The drops of lines 60-61 succeed exactly when `TrialNum` and every
      structure column are present. */
  lemma DropNestedOkIff(t: Table)
    requires Wf(t)
    ensures DropNested(t).Ok? <==> "TrialNum" in t.cols && forall s :: s in StructureColumns ==> s in t.cols
  {
  }

  /** Row `i` of `r` is row `p[i]` of `t` with the sentinel read as missing,
      and the trial numbers of `t` ascend along `p`. */
  ghost predicate Cleaned(t: Table, r: Table, p: seq<nat>) {
    && "TrialNum" in t.cols
    && OrderedAlong(CleanKeys(t.cols["TrialNum"]), p)
    && |p| == r.height
    && forall n, i :: n in r.cols && 0 <= i < r.height ==> CleanedAt(t, r, p, n, i)
  }

  /** Entry `i` of column `n` is the input entry of row `p[i]`, the sentinel
      read as missing. */
  ghost predicate CleanedAt(t: Table, r: Table, p: seq<nat>, n: string, i: nat) {
    n in t.cols && n in r.cols && i < |p| && p[i] < |t.cols[n]| && i < |r.cols[n]|
    && r.cols[n][i] == Unsentinel(t.cols[n][p[i]])
  }

  lemma CleanFacts(t: Table, t1: Table, t2: Table, t3: Table)
    requires Wf(t) && t1 == DropAllMissing(ReplaceSentinel(t))
    requires SortByTrialNum(t1) == Ok(t2) && DropNested(t2) == Ok(t3)
    ensures t.height > 0
    ensures "TrialNum" in t.cols && exists p :: IsPermutation(p, t.height) && Cleaned(t, t3, p)
  {
    assert "TrialNum" in t1.cols;
    NonEmptyWhenKept(t, t1, "TrialNum");
    var p :| IsPermutation(p, t.height) && RowsFrom(t1, t2, p) && OrderedAlong(Keys(t1.cols["TrialNum"]), p);
    UnsentinelAfterReplace(t, t1);
    KeysOfCleanColumn(t.cols["TrialNum"], t1.cols["TrialNum"]);
    RowsThroughClean(t, t1, t2, t3, p);
  }

  lemma CleanShape(t: Table, t1: Table, t2: Table, t3: Table)
    requires Wf(t) && t1 == DropAllMissing(ReplaceSentinel(t))
    requires SortByTrialNum(t1) == Ok(t2) && DropNested(t2) == Ok(t3)
    ensures Wf(t3) && t3.height == t.height
    ensures "TrialNum" !in t3.cols && forall n :: n in StructureColumns ==> n !in t3.cols
    ensures forall n, i :: n in t3.cols && 0 <= i < t3.height ==> t3.cols[n][i] != Some(Sentinel)
  {
    var p :| IsPermutation(p, t.height) && RowsFrom(t1, t2, p);
    PermutedNoSentinel(t1, t2, p);
  }

  /** The columns cleaning keeps: those with a recorded entry, other than
      `TrialNum` and the structure columns. */
  lemma CleanColumns(t: Table, t1: Table, t2: Table, t3: Table)
    requires Wf(t) && t1 == DropAllMissing(ReplaceSentinel(t))
    requires SortByTrialNum(t1) == Ok(t2) && DropNested(t2) == Ok(t3)
    ensures forall n :: n in t3.cols <==>
              n in t.cols && n != "TrialNum" && n !in StructureColumns && HasRecord(t.cols[n])
  {
    forall n ensures n in t1.cols <==> n in t.cols && HasRecord(t.cols[n]) {
      if n in t.cols {
        RecordedIff(t, n);
      }
    }
    assert forall n :: n in t2.cols <==> n in t1.cols;
  }

  /** After the sentinel replacement a column is not all missing exactly
      when it has a recorded entry. */
  lemma RecordedIff(t: Table, n: string)
    requires Wf(t) && n in t.cols
    ensures !AllMissing(ReplaceSentinel(t).cols[n]) <==> HasRecord(t.cols[n])
  {
  }

  lemma PermutedNoSentinel(t1: Table, t2: Table, p: seq<nat>)
    requires Wf(t1) && Wf(t2) && t2.height == t1.height
    requires IsPermutation(p, t1.height) && RowsFrom(t1, t2, p)
    requires forall n, k :: n in t1.cols && 0 <= k < t1.height ==> t1.cols[n][k] != Some(Sentinel)
    ensures forall n, i :: n in t2.cols && 0 <= i < t2.height ==> t2.cols[n][i] != Some(Sentinel)
  {
  }

  lemma CleanPresence(t: Table, t1: Table, t2: Table, t3: Table)
    requires Wf(t) && t1 == DropAllMissing(ReplaceSentinel(t))
    requires SortByTrialNum(t1) == Ok(t2) && DropNested(t2) == Ok(t3)
    ensures forall n :: n in t3.cols ==> !AllMissing(t3.cols[n])
  {
    var p :| IsPermutation(p, t.height) && RowsFrom(t1, t2, p);
    forall n | n in t3.cols ensures !AllMissing(t3.cols[n]) {
      PermutedKeepsPresence(t1, t2, p, n);
    }
  }

  lemma PermutedKeepsPresence(t1: Table, t2: Table, p: seq<nat>, n: string)
    requires Wf(t1) && Wf(t2) && t2.height == t1.height
    requires IsPermutation(p, t1.height) && RowsFrom(t1, t2, p)
    requires n in t2.cols && n in t1.cols && !AllMissing(t1.cols[n])
    ensures !AllMissing(t2.cols[n])
  {
    var k :| 0 <= k < t1.height && t1.cols[n][k].Some?;
    PermutationCovers(p, t1.height, k);
    var i :| 0 <= i < |p| && p[i] == k;
    assert t2.cols[n][i] == t1.cols[n][k];
  }

  lemma KeysOfCleanColumn(col: seq<Entry>, col1: seq<Entry>)
    requires |col1| == |col| && forall k :: 0 <= k < |col| ==> col1[k] == Unsentinel(col[k])
    ensures Keys(col1) == CleanKeys(col)
  {
  }

  /** A column survives the all-missing drop only if the table has a row. */
  lemma NonEmptyWhenKept(t: Table, t1: Table, n: string)
    requires Wf(t) && t1 == DropAllMissing(ReplaceSentinel(t)) && n in t1.cols
    ensures t.height > 0
  {
  }

  lemma RowsThroughClean(t: Table, t1: Table, t2: Table, t3: Table, p: seq<nat>)
    requires Wf(t) && Wf(t1) && Wf(t2) && t1.height == t.height && t2.height == t.height && t3.height == t.height
    requires IsPermutation(p, t.height) && RowsFrom(t1, t2, p)
    requires forall n :: n in t3.cols ==> n in t2.cols && t3.cols[n] == t2.cols[n]
    requires forall n, k :: n in t1.cols && 0 <= k < t.height ==> n in t.cols && t1.cols[n][k] == Unsentinel(t.cols[n][k])
    requires "TrialNum" in t.cols && OrderedAlong(CleanKeys(t.cols["TrialNum"]), p)
    ensures Cleaned(t, t3, p)
  {
    PermutationBounds(p, t.height);
    forall n, i | n in t3.cols && 0 <= i < t3.height ensures CleanedAt(t, t3, p, n, i) {
      assert t3.cols[n][i] == t2.cols[n][i] == t1.cols[n][p[i]];
    }
  }

  /** After the replacement and the column drop, every kept entry is the
      input entry with the sentinel read as missing. */
  lemma UnsentinelAfterReplace(t: Table, t1: Table)
    requires Wf(t) && t1 == DropAllMissing(ReplaceSentinel(t))
    ensures forall n, k :: n in t1.cols && 0 <= k < t.height ==> n in t.cols && t1.cols[n][k] == Unsentinel(t.cols[n][k])
  {
  }

  /** The distinct values of a column, missing counted as one value
      (`unique()`). */
  function Values(col: seq<Entry>): set<Entry> {
    set i | 0 <= i < |col| :: col[i]
  }

  /** `len(unique()) == 1`. */
  predicate SingleValued(col: seq<Entry>) {
    |Values(col)| == 1
  }

  /** A column has exactly one distinct value iff it is non-empty and every
      entry equals the first. */
  lemma SingleValuedIff(col: seq<Entry>)
    ensures SingleValued(col) <==> |col| > 0 && forall i :: 0 <= i < |col| ==> col[i] == col[0]
  {
    var V := Values(col);
    if |col| > 0 && forall i :: 0 <= i < |col| ==> col[i] == col[0] {
      assert V == {col[0]};
    }
    if SingleValued(col) {
      var v :| v in V;
      assert |V - {v}| == 0;
      assert V == {v};
      var k :| 0 <= k < |col| && col[k] == v;
      forall i | 0 <= i < |col| ensures col[i] == col[0] {
        assert col[i] in V && col[0] in V;
      }
    }
  }

  /** Lines 65-68: exactly the single-valued columns are removed; every
      kept column holds at least two distinct values (missing counted as a
      value) once the table has a row. */
  function DropSingleValued(t: Table): (r: Table)
    requires Wf(t)
    ensures Wf(r) && r.height == t.height
    ensures forall n :: n in r.cols <==> n in t.cols && !SingleValued(t.cols[n])
    ensures forall n :: n in r.cols ==> r.cols[n] == t.cols[n]
    ensures t.height > 0 ==> forall n :: n in r.cols ==> exists i, j :: 0 <= i < j < t.height && r.cols[n][i] != r.cols[n][j]
  {
    var r := Without(t, set n | n in t.cols && SingleValued(t.cols[n]));
    forall n | n in r.cols && t.height > 0 ensures exists i, j :: 0 <= i < j < t.height && r.cols[n][i] != r.cols[n][j] {
      SingleValuedIff(t.cols[n]);
      var i :| 0 <= i < t.height && t.cols[n][i] != t.cols[n][0];
      assert r.cols[n][0] != r.cols[n][i];
    }
    r
  }
}
