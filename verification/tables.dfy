/** A pandas DataFrame of trial data, column by column: an ordered list of
    distinct column labels, the entries of each column, and the number of
    rows. */
module Tables {
  import opened Results
  import opened Cells

  predicate Distinct<T(==)>(s: seq<T>) {
    forall i, j :: 0 <= i < j < |s| ==> s[i] != s[j]
  }

  datatype Table = Table(names: seq<string>, cols: map<string, seq<Entry>>, height: nat)

  /** Labels are distinct, exactly the labelled columns exist, and every
      column has one entry per row. */
  ghost predicate Wf(t: Table) {
    && Distinct(t.names)
    && (forall n :: n in t.cols <==> n in t.names)
    && (forall n :: n in t.cols ==> |t.cols[n]| == t.height)
  }

  /** The elements of `s`, in order, that are in `S` (when `inside`) or not
      in `S` (otherwise). */
  function Filter(s: seq<string>, S: set<string>, inside: bool): (r: seq<string>)
    ensures forall x :: x in r <==> x in s && (x in S) == inside
    ensures Distinct(s) ==> Distinct(r)
  {
    if |s| == 0 then []
    else
      var rest := Filter(s[1..], S, inside);
      assert Distinct(s) ==> s[0] !in s[1..] && Distinct(s[1..]);
      (if (s[0] in S) == inside then [s[0]] else []) + rest
  }

  /** Splitting a list by a set and rejoining the parts loses nothing. */
  lemma {:induction false} FilterPartition(s: seq<string>, S: set<string>)
    ensures multiset(Filter(s, S, true)) + multiset(Filter(s, S, false)) == multiset(s)
  {
    if |s| > 0 {
      FilterPartition(s[1..], S);
      var ins, outs := Filter(s[1..], S, true), Filter(s[1..], S, false);
      assert s[0] in S ==> Filter(s, S, true) == [s[0]] + ins && Filter(s, S, false) == outs;
      assert s[0] !in S ==> Filter(s, S, true) == ins && Filter(s, S, false) == [s[0]] + outs;
      SplitHead(s, Filter(s, S, true), Filter(s, S, false), ins, outs);
    }
  }

  /** Sending the head of a list to one side of a split of its tail splits
      the whole list. */
  lemma SplitHead<T>(s: seq<T>, a: seq<T>, b: seq<T>, a1: seq<T>, b1: seq<T>)
    requires |s| > 0 && multiset(a1) + multiset(b1) == multiset(s[1..])
    requires (a == [s[0]] + a1 && b == b1) || (a == a1 && b == [s[0]] + b1)
    ensures multiset(a) + multiset(b) == multiset(s)
  {
    assert s == [s[0]] + s[1..];
  }

  /** A list with no repeated element stays so under any permutation. */
  lemma {:induction false} DistinctIffSingleCounts<T>(s: seq<T>)
    ensures Distinct(s) <==> forall x :: multiset(s)[x] <= 1
  {
    if |s| > 0 {
      DistinctIffSingleCounts(s[1..]);
      assert s == [s[0]] + s[1..];
      if Distinct(s) {
        assert s[0] !in s[1..];
      } else {
        var i, j :| 0 <= i < j < |s| && s[i] == s[j];
        if i == 0 {
          assert s[j] == s[1..][j - 1];
          assert multiset(s)[s[0]] >= 2;
        } else {
          assert s[1..][i - 1] == s[1..][j - 1];
          assert !Distinct(s[1..]);
          var x :| multiset(s[1..])[x] > 1;
          assert multiset(s)[x] > 1;
        }
      }
    }
  }

  lemma DistinctPermutation<T>(a: seq<T>, b: seq<T>)
    requires multiset(a) == multiset(b) && Distinct(a)
    ensures Distinct(b)
  {
    DistinctIffSingleCounts(a);
    DistinctIffSingleCounts(b);
  }

  /** The table without the columns in `gone` (pandas `drop` of present
      labels, or selecting the labels outside `gone`). */
  function Without(t: Table, gone: set<string>): (r: Table)
    requires Wf(t)
    ensures Wf(r) && r.height == t.height
    ensures forall n :: n in r.cols <==> n in t.cols && n !in gone
    ensures forall n :: n in r.cols ==> r.cols[n] == t.cols[n]
  {
    Table(Filter(t.names, gone, false), map n | n in t.cols && n !in gone :: t.cols[n], t.height)
  }

  /** Removing the labels in `A` and then those in `B` removes those in
      `A + B`, keeping the survivors in their order. */
  lemma {:induction false} FilterTwice(s: seq<string>, A: set<string>, B: set<string>)
    ensures Filter(Filter(s, A, false), B, false) == Filter(s, A + B, false)
  {
    if |s| > 0 {
      FilterTwice(s[1..], A, B);
      var inner := Filter(s[1..], A, false);
      if s[0] in A {
        assert Filter(s, A, false) == inner;
        assert Filter(s, A + B, false) == Filter(s[1..], A + B, false);
      } else {
        var x := [s[0]] + inner;
        assert Filter(s, A, false) == x;
        assert x[0] == s[0] && x[1..] == inner;
        if s[0] in B {
          assert Filter(x, B, false) == Filter(inner, B, false);
          assert Filter(s, A + B, false) == Filter(s[1..], A + B, false);
        } else {
          assert Filter(x, B, false) == [s[0]] + Filter(inner, B, false);
          assert Filter(s, A + B, false) == [s[0]] + Filter(s[1..], A + B, false);
        }
      }
    }
  }

  /** Dropping two sets of columns one after the other is dropping their union. */
  lemma WithoutTwice(t: Table, A: set<string>, B: set<string>)
    requires Wf(t)
    ensures Without(Without(t, A), B) == Without(t, A + B)
  {
    var r1, r2 := Without(Without(t, A), B), Without(t, A + B);
    FilterTwice(t.names, A, B);
    assert r1.cols.Keys == r2.cols.Keys;
    assert r1.cols == r2.cols;
  }

  /** The first label of `labels` that is not a column of `t`. */
  function FirstAbsent(t: Table, labels: seq<string>): (r: Option<string>)
    ensures r.None? <==> forall k :: 0 <= k < |labels| ==> labels[k] in t.cols
    ensures r.Some? ==> r.value in labels && r.value !in t.cols
  {
    if |labels| == 0 then None
    else if labels[0] !in t.cols then Some(labels[0])
    else FirstAbsent(t, labels[1..])
  }

  /** Tables that agree on which of `labels` are columns report the same
      first absent label. */
  lemma {:induction false} FirstAbsentAgrees(t: Table, u: Table, labels: seq<string>)
    requires forall k :: 0 <= k < |labels| ==> (labels[k] in t.cols <==> labels[k] in u.cols)
    ensures FirstAbsent(t, labels) == FirstAbsent(u, labels)
  {
    if |labels| > 0 {
      FirstAbsentAgrees(t, u, labels[1..]);
    }
  }

  /** pandas `drop(columns=labels)`: a label that is not a column is a
      `KeyError` and nothing is dropped. */
  function Drop(t: Table, labels: seq<string>): (r: Result<Table>)
    requires Wf(t)
    ensures r.Err? <==> exists k :: 0 <= k < |labels| && labels[k] !in t.cols
    ensures r.Err? ==> r.error.MissingColumn? && r.error.name in labels && r.error.name !in t.cols
    ensures r.Ok? ==> Wf(r.value) && r.value.height == t.height
    ensures r.Ok? ==> forall n :: n in r.value.cols <==> n in t.cols && n !in labels
    ensures r.Ok? ==> forall n :: n in r.value.cols ==> r.value.cols[n] == t.cols[n]
  {
    match FirstAbsent(t, labels)
    case Some(n) => Err(MissingColumn(n))
    case None => Ok(Without(t, set n | n in labels))
  }

  /** pandas `df[name] = vals`: replaces the column in place when it
      exists and appends it as the last column otherwise. */
  function SetColumn(t: Table, name: string, vals: seq<Entry>): (r: Table)
    requires Wf(t) && |vals| == t.height
    ensures Wf(r) && r.height == t.height
    ensures name in t.cols ==> r.names == t.names
    ensures name !in t.cols ==> r.names == t.names + [name]
    ensures r.cols[name] == vals
    ensures forall n :: n in r.cols <==> n in t.cols || n == name
    ensures forall n :: n in t.cols && n != name ==> r.cols[n] == t.cols[n]
  {
    Table(if name in t.cols then t.names else t.names + [name], t.cols[name := vals], t.height)
  }

  /** The row numbers `0 .. n-1`. */
  function Range(n: nat): (r: seq<nat>)
    ensures |r| == n && forall i :: 0 <= i < n ==> r[i] == i
  {
    seq(n, i requires 0 <= i < n => i)
  }

  /** `p` lists every row number below `n` exactly once. */
  predicate IsPermutation(p: seq<nat>, n: nat) {
    multiset(p) == multiset(Range(n))
  }

  lemma PermutationBounds(p: seq<nat>, n: nat)
    requires IsPermutation(p, n)
    ensures |p| == n && forall i :: 0 <= i < |p| ==> p[i] < n
  {
    assert |multiset(p)| == |multiset(Range(n))|;
    forall i | 0 <= i < |p| ensures p[i] < n {
      assert p[i] in multiset(p);
      assert p[i] in Range(n);
    }
  }

  lemma PermutationCovers(p: seq<nat>, n: nat, k: nat)
    requires IsPermutation(p, n) && k < n
    ensures exists i :: 0 <= i < |p| && p[i] == k
  {
    assert Range(n)[k] == k;
    assert k in multiset(Range(n));
    assert k in multiset(p);
  }

  /** Row `i` of `r` is row `p[i]` of `t`, in every column. */
  ghost predicate RowsFrom(t: Table, r: Table, p: seq<nat>) {
    && |p| == r.height
    && forall n, i {:trigger r.cols[n][i]} :: n in r.cols && 0 <= i < r.height ==>
         n in t.cols && p[i] < |t.cols[n]| && i < |r.cols[n]| && r.cols[n][i] == t.cols[n][p[i]]
  }

  /** The rows of `t` rearranged so that row `i` is the old row `p[i]`. */
  function PermuteRows(t: Table, p: seq<nat>): (r: Table)
    requires Wf(t) && IsPermutation(p, t.height)
    ensures Wf(r) && r.names == t.names && r.height == t.height
    ensures RowsFrom(t, r, p)
  {
    PermutationBounds(p, t.height);
    Table(t.names,
          map n | n in t.cols :: seq(t.height, i requires 0 <= i < t.height => t.cols[n][p[i]]),
          t.height)
  }
}
