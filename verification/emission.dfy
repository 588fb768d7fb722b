/** Renaming the start and end columns and emitting one row per trial
    (embargo22abehaviorinterface.py, lines 96-104). The trial-table calls of
    the file-format library are not modelled; what they receive is: the set
    of column names registered with `add_trial_column`, and one dictionary
    per trial as passed to `add_trial`. */
module Emission {
  import opened Results
  import opened Cells
  import opened Tables
  import opened Dicts

  /** The rename of lines 96-99. */
  function Renamed(n: string): string {
    if n == "TimeTrialStart" then "start_time"
    else if n == "TimeTrialEnd" then "stop_time"
    else n
  }

  /** No two labels of `names` end up with the same name after renaming. */
  ghost predicate RenameClean(names: seq<string>) {
    forall i, j :: 0 <= i < j < |names| ==> Renamed(names[i]) != Renamed(names[j])
  }

  /** Renaming keeps distinct labels apart unless a table already holds a
      `start_time` (or `stop_time`) column next to `TimeTrialStart` (or
      `TimeTrialEnd`). */
  lemma RenameCleanIff(names: seq<string>)
    requires Distinct(names)
    ensures RenameClean(names) <==>
              !("TimeTrialStart" in names && "start_time" in names) && !("TimeTrialEnd" in names && "stop_time" in names)
  {
  }

  /** Label `j` is the last label of `names` renamed to its name. */
  ghost predicate LastRenamed(names: seq<string>, j: int) {
    0 <= j < |names| && forall k :: j < k < |names| ==> Renamed(names[k]) != Renamed(names[j])
  }

  /** Row `i` as a dictionary keyed by the renamed labels (`df.T.to_dict()`);
      should two labels share a name, the later column wins. */
  function RowOf(t: Table, i: nat): (row: map<string, Entry>)
    requires Wf(t) && i < t.height
    ensures forall k :: k in row <==> exists j :: 0 <= j < |t.names| && Renamed(t.names[j]) == k
    ensures forall j :: LastRenamed(t.names, j) ==> row[Renamed(t.names[j])] == t.cols[t.names[j]][i]
  {
    var pairs := seq(|t.names|, j requires 0 <= j < |t.names| => (Renamed(t.names[j]), t.cols[t.names[j]][i]));
    var row := LastWins(pairs);
    RowFromPairs(t, i, pairs, row);
    row
  }

  lemma RowFromPairs(t: Table, i: nat, pairs: seq<(string, Entry)>, row: map<string, Entry>)
    requires Wf(t) && i < t.height
    requires |pairs| == |t.names|
    requires forall j :: 0 <= j < |pairs| ==> pairs[j] == (Renamed(t.names[j]), t.cols[t.names[j]][i])
    requires BuiltFrom(pairs, row)
    ensures forall k :: k in row <==> exists j :: 0 <= j < |t.names| && Renamed(t.names[j]) == k
    ensures forall j :: LastRenamed(t.names, j) ==> row[Renamed(t.names[j])] == t.cols[t.names[j]][i]
  {
    RowKeys(t.names, pairs, row);
    RowValues(t, i, pairs, row);
  }

  lemma RowKeys<V>(names: seq<string>, pairs: seq<(string, V)>, row: map<string, V>)
    requires |pairs| == |names| && forall j :: 0 <= j < |pairs| ==> pairs[j].0 == Renamed(names[j])
    requires forall k :: k in row ==> exists j :: 0 <= j < |pairs| && pairs[j].0 == k
    requires forall j :: 0 <= j < |pairs| ==> pairs[j].0 in row
    ensures forall k :: k in row <==> exists j :: 0 <= j < |names| && Renamed(names[j]) == k
  {
    forall k | k in row ensures exists j :: 0 <= j < |names| && Renamed(names[j]) == k {
      var j :| 0 <= j < |pairs| && pairs[j].0 == k;
      assert Renamed(names[j]) == k;
    }
  }

  lemma RowValues(t: Table, i: nat, pairs: seq<(string, Entry)>, row: map<string, Entry>)
    requires Wf(t) && i < t.height
    requires |pairs| == |t.names|
    requires forall j :: 0 <= j < |pairs| ==> pairs[j] == (Renamed(t.names[j]), t.cols[t.names[j]][i])
    requires forall j :: 0 <= j < |pairs| ==> pairs[j].0 in row
    requires forall j :: LastOf(pairs, j) ==> row[pairs[j].0] == pairs[j].1
    ensures forall j :: LastRenamed(t.names, j) ==> row[Renamed(t.names[j])] == t.cols[t.names[j]][i]
  {
    forall j | LastRenamed(t.names, j) ensures Renamed(t.names[j]) in row && row[Renamed(t.names[j])] == t.cols[t.names[j]][i] {
      assert pairs[j].0 == Renamed(t.names[j]);
      assert LastOf(pairs, j);
    }
  }

  /** What reaches the file: the registered column names and one dictionary
      per trial. */
  datatype Trials = Trials(registered: set<string>, rows: seq<map<string, Entry>>)

  /** Lines 96-104: one dictionary per row, in row order, keyed by the
      renamed labels; only `TimeTrialStart` and `TimeTrialEnd` change name
      and every value is the row's entry. The registered names are the
      labels BEFORE the rename (line 100 iterates the set built at line 88). */
  function Emit(t: Table): (out: Trials)
    requires Wf(t)
    ensures |out.rows| == t.height
    ensures forall n :: n in out.registered <==> n in t.cols
    ensures forall i, k :: 0 <= i < t.height ==>
              (k in out.rows[i] <==> exists j :: 0 <= j < |t.names| && Renamed(t.names[j]) == k)
    ensures RenameClean(t.names) ==>
              forall i, n :: 0 <= i < t.height && n in t.cols ==> out.rows[i][Renamed(n)] == t.cols[n][i]
  {
    var rows := seq(t.height, i requires 0 <= i < t.height => RowOf(t, i));
    assert forall i :: 0 <= i < t.height ==> rows[i] == RowOf(t, i);
    assert RenameClean(t.names) ==>
             forall i, n :: 0 <= i < t.height && n in t.cols ==> rows[i][Renamed(n)] == t.cols[n][i] by {
      if RenameClean(t.names) {
        forall i | 0 <= i < t.height {
          CleanRowValues(t, i);
        }
      }
    }
    Trials((set n | n in t.names), rows)
  }

  lemma CleanRowValues(t: Table, i: nat)
    requires Wf(t) && RenameClean(t.names) && i < t.height
    ensures forall n :: n in t.cols ==> Renamed(n) in RowOf(t, i) && RowOf(t, i)[Renamed(n)] == t.cols[n][i]
  {
    forall n | n in t.cols ensures Renamed(n) in RowOf(t, i) && RowOf(t, i)[Renamed(n)] == t.cols[n][i] {
      var j :| 0 <= j < |t.names| && t.names[j] == n;
      assert LastRenamed(t.names, j);
    }
  }

}
