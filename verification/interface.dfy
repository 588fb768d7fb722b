/** `Embargo22ABehaviorInterface.run_conversion`
    (embargo22abehaviorinterface.py, lines 25-104) as one pure function: the
    header lookups and the trial table go in, the registered column names
    and one dictionary per trial come out, or the first failure. */
module BehaviorInterface {
  import opened Results
  import opened Cells
  import opened Text
  import opened Tables
  import opened Lookups
  import opened Cleaning
  import opened Translation
  import opened Timing
  import opened Emission

  /** `shown` is the lower-cased outcome label of the code `code`. */
  predicate OutcomeLabel(code: Entry, lk: Lookups, shown: Entry) {
    Known(code, lk.outcomeOf) && shown == Some(Text(Lower(lk.outcomeOf[CodeOf(code).value])))
  }

  /** `shown` is the condition type of the condition number `code`. */
  predicate ConditionLabel(code: Entry, lk: Lookups, shown: Entry) {
    Known(code, lk.conditionOf) && shown == Some(Text(lk.conditionOf[CodeOf(code).value]))
  }

  /** An input entry carried into the output: unchanged, or read as
      milliseconds and written as seconds. */
  predicate Carried(inSeconds: bool, e: Entry, out: Entry) {
    if inSeconds then InSeconds(e, out) else out == e
  }

  /** Row `i` of `t` is the input row `p[i]`, the rows in trial-number order:
      the two code columns replaced by their labels, every other entry carried
      over with the sentinel read as missing (and, once `scaled`, the time
      columns in seconds). */
  ghost predicate Traced(trials: Table, lk: Lookups, t: Table, p: seq<nat>, scaled: bool) {
    && "TrialNum" in trials.cols && "Outcome" in trials.cols && "CurrCond" in trials.cols
    && "Outcome" in t.cols && "condition type" in t.cols
    && IsPermutation(p, trials.height) && |p| == t.height
    && OrderedAlong(CleanKeys(trials.cols["TrialNum"]), p)
    && (forall i :: 0 <= i < t.height ==>
          p[i] < |trials.cols["Outcome"]| && i < |t.cols["Outcome"]|
          && OutcomeLabel(Unsentinel(trials.cols["Outcome"][p[i]]), lk, t.cols["Outcome"][i]))
    && (forall i :: 0 <= i < t.height ==>
          p[i] < |trials.cols["CurrCond"]| && i < |t.cols["condition type"]|
          && ConditionLabel(Unsentinel(trials.cols["CurrCond"][p[i]]), lk, t.cols["condition type"][i]))
    && EntriesCarried(trials, t, p, scaled)
  }

  /** Every entry outside the two code columns is carried from its input row. */
  ghost predicate EntriesCarried(trials: Table, t: Table, p: seq<nat>, scaled: bool) {
    forall n, i :: n in t.cols && n != "Outcome" && n != "condition type" && 0 <= i < t.height ==>
      EntryCarried(trials, t, p, scaled, n, i)
  }

  /** Entry `i` of column `n` is carried from input row `p[i]`. */
  ghost predicate EntryCarried(trials: Table, t: Table, p: seq<nat>, scaled: bool, n: string, i: nat) {
    && n in trials.cols && n in t.cols && i < |p| && p[i] < |trials.cols[n]| && i < |t.cols[n]|
    && Carried(scaled && IsTimeColumn(n), Unsentinel(trials.cols[n][p[i]]), t.cols[n][i])
  }

  /** An input column the conversion keeps: not one of the columns lines
      60-61 drop, and not constant once the sentinel is read as missing. */
  predicate Survives(trials: Table, n: string) {
    n in trials.cols && n != "TrialNum" && n !in StructureColumns && Varies(trials.cols[n])
  }

  /** Every code of input column `n`, the sentinel read as missing, has a
      label in `labels`. */
  predicate CodesKnown(trials: Table, n: string, labels: map<int, string>) {
    n in trials.cols && forall k :: 0 <= k < |trials.cols[n]| ==> Known(Unsentinel(trials.cols[n][k]), labels)
  }

  /** The input lines 34-74 accept: every `TypeCond` code is known (line
      40), cleaning succeeds (lines 56-62), `Outcome` and `CurrCond` survive
      the constant-column drop (else lines 71 and 73 raise a `KeyError`), and
      each of their codes has a label (else the lookups of lines 71 and 73
      raise one). */
  predicate PrepareAccepts(h: Header, trials: Table) {
    && BuildLookups(h).Ok? && CleanAccepts(trials)
    && Survives(trials, "Outcome") && Survives(trials, "CurrCond")
    && CodesKnown(trials, "Outcome", BuildLookups(h).value.outcomeOf)
    && CodesKnown(trials, "CurrCond", BuildLookups(h).value.conditionOf)
  }

  /** The input lines 34-93 accept: as `PrepareAccepts`, and `TimeTrialStart`
      survives (else line 82 raises an `AttributeError`) and no surviving
      time column holds text (else the division of line 79 raises a
      `TypeError`). */
  ghost predicate ReconstructAccepts(h: Header, trials: Table) {
    && PrepareAccepts(h, trials) && Survives(trials, "TimeTrialStart")
    && forall n :: Survives(trials, n) && IsTimeColumn(n) ==> NoText(trials.cols[n])
  }

  /** Lines 65-74: the constant columns dropped, then the two code columns
      translated into their labels. */
  function Label(t: Table, lk: Lookups): (r: Result<Table>)
    requires Wf(t)
    ensures r.Ok? <==>
              && "Outcome" in t.cols && !SingleValued(t.cols["Outcome"])
              && "CurrCond" in t.cols && !SingleValued(t.cols["CurrCond"])
              && (forall i :: 0 <= i < t.height ==> Known(t.cols["Outcome"][i], lk.outcomeOf))
              && (forall i :: 0 <= i < t.height ==> Known(t.cols["CurrCond"][i], lk.conditionOf))
    ensures r.Ok? ==> Wf(r.value) && r.value.height == t.height
    ensures r.Ok? ==> "Outcome" in r.value.cols && "condition type" in r.value.cols
    ensures r.Ok? ==> forall n :: n in r.value.cols <==>
              n == "condition type" || (n in t.cols && !SingleValued(t.cols[n]))
    ensures r.Ok? ==> forall n :: n in r.value.cols && n != "Outcome" && n != "condition type" ==>
              r.value.cols[n] == t.cols[n]
    ensures r.Ok? ==> forall i :: 0 <= i < t.height ==>
              OutcomeLabel(t.cols["Outcome"][i], lk, r.value.cols["Outcome"][i])
    ensures r.Ok? ==> forall i :: 0 <= i < t.height ==>
              ConditionLabel(t.cols["CurrCond"][i], lk, r.value.cols["condition type"][i])
    ensures r.Ok? && AllPresent(t) && t.height > 0 ==> AllPresent(r.value)
    ensures r.Ok? && t.height > 0 ==> t.height >= 2
  {
    var informative := DropSingleValued(t);
    LabelOk(t, lk, informative, Translate(informative, lk));
    LabelShape(t, lk, informative, Translate(informative, lk));
    LabelValues(t, lk, informative, Translate(informative, lk));
    Translate(informative, lk)
  }

  lemma LabelOk(t: Table, lk: Lookups, informative: Table, r: Result<Table>)
    requires Wf(t) && informative == DropSingleValued(t) && r == Translate(informative, lk)
    ensures r.Ok? <==>
              && "Outcome" in t.cols && !SingleValued(t.cols["Outcome"])
              && "CurrCond" in t.cols && !SingleValued(t.cols["CurrCond"])
              && (forall i :: 0 <= i < t.height ==> Known(t.cols["Outcome"][i], lk.outcomeOf))
              && (forall i :: 0 <= i < t.height ==> Known(t.cols["CurrCond"][i], lk.conditionOf))
    ensures r.Ok? && t.height > 0 ==> t.height >= 2
  {
    InformativeAgrees(t, informative, "Outcome");
    InformativeAgrees(t, informative, "CurrCond");
  }

  lemma LabelShape(t: Table, lk: Lookups, informative: Table, r: Result<Table>)
    requires Wf(t) && informative == DropSingleValued(t) && r == Translate(informative, lk)
    ensures r.Ok? ==> Wf(r.value) && r.value.height == t.height
    ensures r.Ok? ==> "Outcome" in r.value.cols && "condition type" in r.value.cols
    ensures r.Ok? ==> forall n :: n in r.value.cols <==>
              n == "condition type" || (n in t.cols && !SingleValued(t.cols[n]))
    ensures r.Ok? ==> forall n :: n in r.value.cols && n != "Outcome" && n != "condition type" ==>
              r.value.cols[n] == t.cols[n]
    ensures r.Ok? && AllPresent(t) && t.height > 0 ==> AllPresent(r.value)
  {
    if r.Ok? {
      LabelKeepsPresence(t, informative, r.value);
    }
  }

  lemma LabelValues(t: Table, lk: Lookups, informative: Table, r: Result<Table>)
    requires Wf(t) && informative == DropSingleValued(t) && r == Translate(informative, lk)
    ensures r.Ok? ==> "Outcome" in t.cols && "CurrCond" in t.cols && "Outcome" in r.value.cols && "condition type" in r.value.cols
    ensures r.Ok? ==> forall i :: 0 <= i < t.height ==>
              OutcomeLabel(t.cols["Outcome"][i], lk, r.value.cols["Outcome"][i])
    ensures r.Ok? ==> forall i :: 0 <= i < t.height ==>
              ConditionLabel(t.cols["CurrCond"][i], lk, r.value.cols["condition type"][i])
  {
    InformativeAgrees(t, informative, "Outcome");
    InformativeAgrees(t, informative, "CurrCond");
  }

  /** A column survives the constant-column filter exactly when it is not
      single-valued, and survives unchanged. */
  lemma InformativeAgrees(t: Table, informative: Table, n: string)
    requires forall m :: m in informative.cols <==> m in t.cols && !SingleValued(t.cols[m])
    requires forall m :: m in informative.cols ==> informative.cols[m] == t.cols[m]
    ensures n in informative.cols <==> n in t.cols && !SingleValued(t.cols[n])
    ensures n in informative.cols ==> informative.cols[n] == t.cols[n]
  {
  }

  lemma LabelKeepsPresence(t: Table, informative: Table, labelled: Table)
    requires Wf(t) && Wf(labelled) && labelled.height == informative.height == t.height
    requires forall n :: n in informative.cols ==> n in t.cols && informative.cols[n] == t.cols[n]
    requires forall n :: n in labelled.cols && n != "Outcome" && n != "condition type" ==>
               n in informative.cols && labelled.cols[n] == informative.cols[n]
    requires forall i :: 0 <= i < t.height && "Outcome" in labelled.cols ==> labelled.cols["Outcome"][i].Some?
    requires forall i :: 0 <= i < t.height && "condition type" in labelled.cols ==>
               labelled.cols["condition type"][i].Some?
    ensures AllPresent(t) && t.height > 0 ==> AllPresent(labelled)
  {
    if AllPresent(t) && t.height > 0 {
      forall n | n in labelled.cols ensures !AllMissing(labelled.cols[n]) {
        if n == "Outcome" || n == "condition type" {
          assert labelled.cols[n][0].Some?;
        } else {
          assert labelled.cols[n] == t.cols[n];
        }
      }
    }
  }

  /** Lines 77-93: the time columns in seconds, then the columns in their
      final order. */
  function Arrange(t: Table): (r: Result<Table>)
    requires Wf(t)
    ensures r.Ok? <==> "TimeTrialStart" in t.cols && forall n :: n in t.cols && IsTimeColumn(n) ==> NoText(t.cols[n])
    ensures r.Ok? ==> Wf(r.value) && r.value.height == t.height
    ensures r.Ok? ==> forall n :: n in r.value.cols <==> n in t.cols
    ensures r.Ok? ==> forall n :: n in t.cols && IsTimeColumn(n) ==> ColumnInSeconds(t.cols[n], r.value.cols[n])
    ensures r.Ok? ==> forall n :: n in t.cols && !IsTimeColumn(n) ==> r.value.cols[n] == t.cols[n]
    ensures r.Ok? ==> TimeColumnsFirst(r.value.names) && TimesByMeanOffset(r.value) && OthersAlphabetical(r.value.names)
    ensures r.Ok? && AllPresent(t) ==> AllPresent(r.value)
  {
    var seconds :- ScaleTimes(t);
    var ordered :- OrderColumns(seconds);
    SecondsKeepPresence(t, seconds);
    Ok(ordered)
  }

  lemma SecondsKeepPresence(t: Table, seconds: Table)
    requires forall n :: n in seconds.cols <==> n in t.cols
    requires forall n :: n in t.cols && IsTimeColumn(n) ==> ColumnInSeconds(t.cols[n], seconds.cols[n])
    requires forall n :: n in t.cols && !IsTimeColumn(n) ==> seconds.cols[n] == t.cols[n]
    ensures AllPresent(t) ==> AllPresent(seconds)
  {
    if AllPresent(t) {
      forall n | n in seconds.cols ensures !AllMissing(seconds.cols[n]) {
        if IsTimeColumn(n) {
          var i :| 0 <= i < |t.cols[n]| && t.cols[n][i].Some?;
          assert InSeconds(t.cols[n][i], seconds.cols[n][i]);
        }
      }
    }
  }

  /** Lines 34-74: the lookups read from the header and the trial table
      cleaned and labelled. */
  function Prepare(h: Header, trials: Table): (r: Result<Table>)
    requires Wf(trials)
    ensures r.Ok? <==> PrepareAccepts(h, trials)
    ensures r.Ok? ==> Wf(r.value) && r.value.height == trials.height && trials.height >= 2
    ensures r.Ok? ==> "TrialNum" !in r.value.cols && forall n :: n in StructureColumns ==> n !in r.value.cols
    ensures r.Ok? ==> AllPresent(r.value)
    ensures r.Ok? ==> forall n :: n in r.value.cols <==> n == "condition type" || Survives(trials, n)
    ensures r.Ok? ==> "Outcome" in r.value.cols && "condition type" in r.value.cols
  {
    var lk :- BuildLookups(h);
    var cleaned :- Clean(trials);
    CleanedColumnsFromInput(trials, cleaned);
    LabelAccepts(trials, lk, cleaned);
    LabelledFacts(trials, cleaned, Label(cleaned, lk));
    PreparedColumns(trials, cleaned, Label(cleaned, lk));
    Label(cleaned, lk)
  }

  /** Labelling a cleaned table succeeds exactly when both code columns
      survive and hold only known codes. */
  lemma LabelAccepts(trials: Table, lk: Lookups, cleaned: Table)
    requires Wf(trials) && Wf(cleaned) && cleaned.height == trials.height && trials.height > 0
    requires exists p :: IsPermutation(p, trials.height) && Cleaned(trials, cleaned, p)
    requires forall n :: n in cleaned.cols <==>
               n in trials.cols && n != "TrialNum" && n !in StructureColumns && HasRecord(trials.cols[n])
    ensures Label(cleaned, lk).Ok? <==>
              && Survives(trials, "Outcome") && Survives(trials, "CurrCond")
              && CodesKnown(trials, "Outcome", lk.outcomeOf) && CodesKnown(trials, "CurrCond", lk.conditionOf)
  {
    var p :| IsPermutation(p, trials.height) && Cleaned(trials, cleaned, p);
    CodeColumnAccepted(trials, cleaned, p, "Outcome", lk.outcomeOf);
    CodeColumnAccepted(trials, cleaned, p, "CurrCond", lk.conditionOf);
  }

  /** One code column is kept by cleaning, is not single-valued and holds
      only known codes exactly when it survives and its input codes are
      known. */
  lemma CodeColumnAccepted(trials: Table, cleaned: Table, p: seq<nat>, n: string, labels: map<int, string>)
    requires Wf(trials) && Wf(cleaned) && cleaned.height == trials.height && trials.height > 0
    requires IsPermutation(p, trials.height) && Cleaned(trials, cleaned, p)
    requires forall m :: m in cleaned.cols <==>
               m in trials.cols && m != "TrialNum" && m !in StructureColumns && HasRecord(trials.cols[m])
    ensures (&& n in cleaned.cols && !SingleValued(cleaned.cols[n])
             && forall i :: 0 <= i < cleaned.height ==> Known(cleaned.cols[n][i], labels))
            <==> Survives(trials, n) && CodesKnown(trials, n, labels)
  {
    SurvivesIff(trials, cleaned, p, n);
    if n in cleaned.cols {
      CleanedColumn(trials, cleaned, p, n);
      AlongUnsentinel(trials.cols[n], cleaned.cols[n], p, labels);
    }
  }

  /** A column that cleaning keeps is the input column, rows rearranged
      along `p` and the sentinel read as missing. */
  lemma CleanedColumn(trials: Table, cleaned: Table, p: seq<nat>, n: string)
    requires Wf(cleaned) && Cleaned(trials, cleaned, p) && n in cleaned.cols && n in trials.cols
    ensures |cleaned.cols[n]| == |p|
    ensures forall i :: 0 <= i < |p| ==> p[i] < |trials.cols[n]| && cleaned.cols[n][i] == Unsentinel(trials.cols[n][p[i]])
  {
    forall i | 0 <= i < |p| ensures p[i] < |trials.cols[n]| && cleaned.cols[n][i] == Unsentinel(trials.cols[n][p[i]]) {
      CleanedEntry(trials, cleaned, p, n, i);
    }
  }

  /** A column rearranged along a permutation, the sentinel read as missing,
      holds text, or an unknown code, exactly when its source does. */
  lemma AlongUnsentinel(src: seq<Entry>, col: seq<Entry>, p: seq<nat>, labels: map<int, string>)
    requires IsPermutation(p, |src|) && |col| == |p|
    requires forall i :: 0 <= i < |p| ==> p[i] < |src| && col[i] == Unsentinel(src[p[i]])
    ensures NoText(col) <==> NoText(src)
    ensures (forall i :: 0 <= i < |col| ==> Known(col[i], labels)) <==>
            (forall k :: 0 <= k < |src| ==> Known(Unsentinel(src[k]), labels))
  {
    if !NoText(src) {
      var k :| 0 <= k < |src| && src[k].Some? && src[k].value.Text?;
      PermutationCovers(p, |src|, k);
      var i :| 0 <= i < |p| && p[i] == k;
      assert col[i] == src[k];
    }
    if forall i :: 0 <= i < |col| ==> Known(col[i], labels) {
      forall k | 0 <= k < |src| ensures Known(Unsentinel(src[k]), labels) {
        PermutationCovers(p, |src|, k);
        var i :| 0 <= i < |p| && p[i] == k;
        assert col[i] == Unsentinel(src[k]);
      }
    }
  }

  /** A column survives cleaning and the constant-column drop exactly when
      `Survives` says so. */
  lemma SurvivesIff(trials: Table, cleaned: Table, p: seq<nat>, n: string)
    requires Wf(trials) && Wf(cleaned) && cleaned.height == trials.height && trials.height > 0
    requires IsPermutation(p, trials.height) && Cleaned(trials, cleaned, p)
    requires forall m :: m in cleaned.cols <==>
               m in trials.cols && m != "TrialNum" && m !in StructureColumns && HasRecord(trials.cols[m])
    ensures (n in cleaned.cols && !SingleValued(cleaned.cols[n])) <==> Survives(trials, n)
  {
    if n in trials.cols && n != "TrialNum" && n !in StructureColumns {
      if Varies(trials.cols[n]) {
        VariesHasRecord(trials.cols[n]);
      }
      if n in cleaned.cols {
        CleanedVariesIff(trials, cleaned, p, n);
      }
    }
  }

  /** The columns left after cleaning and labelling are `condition type`
      and exactly the input columns that survive. */
  lemma PreparedColumns(trials: Table, cleaned: Table, r: Result<Table>)
    requires Wf(trials) && Wf(cleaned) && cleaned.height == trials.height && trials.height > 0
    requires exists p :: IsPermutation(p, trials.height) && Cleaned(trials, cleaned, p)
    requires forall n :: n in cleaned.cols <==>
               n in trials.cols && n != "TrialNum" && n !in StructureColumns && HasRecord(trials.cols[n])
    requires r.Ok? ==> forall n :: n in r.value.cols <==>
               n == "condition type" || (n in cleaned.cols && !SingleValued(cleaned.cols[n]))
    ensures r.Ok? ==> forall n :: n in r.value.cols <==> n == "condition type" || Survives(trials, n)
  {
    var p :| IsPermutation(p, trials.height) && Cleaned(trials, cleaned, p);
    forall n ensures (n in cleaned.cols && !SingleValued(cleaned.cols[n])) <==> Survives(trials, n) {
      SurvivesIff(trials, cleaned, p, n);
    }
  }

  /** Two entries that differ cannot both be missing. */
  lemma VariesHasRecord(col: seq<Entry>)
    requires Varies(col)
    ensures HasRecord(col)
  {
    var i, j :| 0 <= i < |col| && 0 <= j < |col| && Unsentinel(col[i]) != Unsentinel(col[j]);
    if Unsentinel(col[i]).None? {
      assert Unsentinel(col[j]).Some?;
    }
  }

  /** Cleaning only rearranges rows, so a cleaned column is single-valued
      exactly when the input column never varies. */
  lemma CleanedVariesIff(trials: Table, cleaned: Table, p: seq<nat>, n: string)
    requires Wf(trials) && Wf(cleaned) && cleaned.height == trials.height && trials.height > 0
    requires IsPermutation(p, trials.height) && Cleaned(trials, cleaned, p)
    requires n in cleaned.cols && n in trials.cols
    ensures SingleValued(cleaned.cols[n]) <==> !Varies(trials.cols[n])
  {
    var col, src := cleaned.cols[n], trials.cols[n];
    SingleValuedIff(col);
    PermutationBounds(p, trials.height);
    CleanedEntry(trials, cleaned, p, n, 0);
    if Varies(src) {
      var i, j :| 0 <= i < |src| && 0 <= j < |src| && Unsentinel(src[i]) != Unsentinel(src[j]);
      PermutationCovers(p, trials.height, i);
      PermutationCovers(p, trials.height, j);
      var a :| 0 <= a < |p| && p[a] == i;
      var b :| 0 <= b < |p| && p[b] == j;
      CleanedEntry(trials, cleaned, p, n, a);
      CleanedEntry(trials, cleaned, p, n, b);
      assert col[a] != col[b];
    } else {
      forall i | 0 <= i < |col| ensures col[i] == col[0] {
        CleanedEntry(trials, cleaned, p, n, i);
        assert Unsentinel(src[p[i]]) == Unsentinel(src[p[0]]);
      }
    }
  }

  /** Every column left after cleaning is an input column. */
  lemma CleanedColumnsFromInput(trials: Table, cleaned: Table)
    requires Wf(cleaned) && cleaned.height > 0
    requires exists p :: IsPermutation(p, trials.height) && Cleaned(trials, cleaned, p)
    ensures forall n :: n in cleaned.cols ==> n in trials.cols
  {
    var p :| IsPermutation(p, trials.height) && Cleaned(trials, cleaned, p);
    forall n | n in cleaned.cols ensures n in trials.cols {
      CleanedEntry(trials, cleaned, p, n, 0);
    }
  }

  /** What labelling a cleaned table leaves. */
  lemma LabelledFacts(trials: Table, cleaned: Table, r: Result<Table>)
    requires Wf(cleaned) && cleaned.height == trials.height && cleaned.height > 0 && AllPresent(cleaned)
    requires "TrialNum" !in cleaned.cols && forall n :: n in StructureColumns ==> n !in cleaned.cols
    requires forall n :: n in cleaned.cols ==> n in trials.cols
    requires r.Ok? ==> Wf(r.value) && r.value.height == cleaned.height
    requires r.Ok? ==> "Outcome" in r.value.cols && "condition type" in r.value.cols
    requires r.Ok? ==> forall n :: n in r.value.cols && n != "condition type" ==> n in cleaned.cols
    requires r.Ok? ==> AllPresent(r.value)
    ensures r.Ok? ==> Wf(r.value) && r.value.height == trials.height && trials.height > 0
    ensures r.Ok? ==> "TrialNum" !in r.value.cols && forall n :: n in StructureColumns ==> n !in r.value.cols
    ensures r.Ok? ==> AllPresent(r.value)
    ensures r.Ok? ==> forall n :: n in r.value.cols ==> n in trials.cols || n == "condition type"
    ensures r.Ok? ==> "Outcome" in r.value.cols && "condition type" in r.value.cols
  {
    if r.Ok? {
      RemovedStayRemoved(cleaned, r.value);
    }
  }

  /** Cleaning moves input row `p[i]` to row `i`; labelling then rewrites the
      two code columns in place. */
  lemma CleanedThenLabelled(trials: Table, lk: Lookups, cleaned: Table, labelled: Table)
    requires Wf(trials) && Wf(cleaned) && Wf(labelled) && trials.height > 0
    requires cleaned.height == trials.height && labelled.height == trials.height
    requires exists p :: IsPermutation(p, trials.height) && Cleaned(trials, cleaned, p)
    requires "Outcome" in cleaned.cols && "CurrCond" in cleaned.cols
    requires "Outcome" in labelled.cols && "condition type" in labelled.cols
    requires forall i :: 0 <= i < cleaned.height ==>
               OutcomeLabel(cleaned.cols["Outcome"][i], lk, labelled.cols["Outcome"][i])
    requires forall i :: 0 <= i < cleaned.height ==>
               ConditionLabel(cleaned.cols["CurrCond"][i], lk, labelled.cols["condition type"][i])
    requires forall n :: n in labelled.cols && n != "condition type" ==> n in cleaned.cols
    requires forall n :: n in labelled.cols && n != "Outcome" && n != "condition type" ==>
               labelled.cols[n] == cleaned.cols[n]
    ensures exists p :: Traced(trials, lk, labelled, p, false)
  {
    var p :| IsPermutation(p, trials.height) && Cleaned(trials, cleaned, p);
    PermutationBounds(p, trials.height);
    CleanedEntry(trials, cleaned, p, "Outcome", 0);
    CleanedEntry(trials, cleaned, p, "CurrCond", 0);
    forall i | 0 <= i < labelled.height
      ensures p[i] < |trials.cols["Outcome"]| && i < |labelled.cols["Outcome"]|
      ensures OutcomeLabel(Unsentinel(trials.cols["Outcome"][p[i]]), lk, labelled.cols["Outcome"][i])
    {
      CleanedEntry(trials, cleaned, p, "Outcome", i);
    }
    forall i | 0 <= i < labelled.height
      ensures p[i] < |trials.cols["CurrCond"]| && i < |labelled.cols["condition type"]|
      ensures ConditionLabel(Unsentinel(trials.cols["CurrCond"][p[i]]), lk, labelled.cols["condition type"][i])
    {
      CleanedEntry(trials, cleaned, p, "CurrCond", i);
    }
    forall n, i | n in labelled.cols && n != "Outcome" && n != "condition type" && 0 <= i < labelled.height
      ensures EntryCarried(trials, labelled, p, false, n, i)
    {
      CleanedEntry(trials, cleaned, p, n, i);
      assert labelled.cols[n][i] == cleaned.cols[n][i];
    }
    assert Traced(trials, lk, labelled, p, false);
  }

  /** The column the translation adds is none of the columns cleaning
      removed, so those stay removed. */
  lemma RemovedStayRemoved(cleaned: Table, labelled: Table)
    requires "TrialNum" !in cleaned.cols && forall n :: n in StructureColumns ==> n !in cleaned.cols
    requires forall n :: n in labelled.cols && n != "condition type" ==> n in cleaned.cols
    ensures "TrialNum" !in labelled.cols && forall n :: n in StructureColumns ==> n !in labelled.cols
  {
  }

  /** Lines 34-93: the trial table, cleaned, translated, in seconds and in
      its final column order, before the rename. */
  function Reconstruct(h: Header, trials: Table): (r: Result<Table>)
    requires Wf(trials)
    ensures r.Ok? <==> ReconstructAccepts(h, trials)
    ensures r.Ok? ==> Wf(r.value) && r.value.height == trials.height && trials.height >= 2
    ensures r.Ok? ==> "TrialNum" !in r.value.cols && forall n :: n in StructureColumns ==> n !in r.value.cols
    ensures r.Ok? ==> AllPresent(r.value)
    ensures r.Ok? ==> forall n :: n in r.value.cols <==> n == "condition type" || Survives(trials, n)
    ensures r.Ok? ==> "TimeTrialStart" in r.value.cols && "Outcome" in r.value.cols && "condition type" in r.value.cols
    ensures r.Ok? ==> TimeColumnsFirst(r.value.names) && TimesByMeanOffset(r.value) && OthersAlphabetical(r.value.names)
  {
    var labelled :- Prepare(h, trials);
    PreparedTraced(h, trials);
    ArrangeAccepts(trials, BuildLookups(h).value, labelled);
    Arrange(labelled)
  }

  /** Lines 56-74 read row by row: every prepared row is one input row, the
      rows in trial-number order. */
  lemma PreparedTraced(h: Header, trials: Table)
    requires Wf(trials) && Prepare(h, trials).Ok?
    ensures BuildLookups(h).Ok?
    ensures exists p :: Traced(trials, BuildLookups(h).value, Prepare(h, trials).value, p, false)
  {
    var lk := BuildLookups(h).value;
    var cleaned := Clean(trials).value;
    var labelled := Label(cleaned, lk).value;
    assert Prepare(h, trials) == Ok(labelled);
    CleanedThenLabelled(trials, lk, cleaned, labelled);
  }

  /** Arranging a prepared table succeeds exactly when `TimeTrialStart`
      survives and no surviving time column holds text. */
  lemma ArrangeAccepts(trials: Table, lk: Lookups, labelled: Table)
    requires Wf(trials) && Wf(labelled) && labelled.height == trials.height
    requires exists p :: Traced(trials, lk, labelled, p, false)
    requires forall n :: n in labelled.cols <==> n == "condition type" || Survives(trials, n)
    ensures Arrange(labelled).Ok? <==>
              Survives(trials, "TimeTrialStart") && forall n :: Survives(trials, n) && IsTimeColumn(n) ==> NoText(trials.cols[n])
  {
    var p :| Traced(trials, lk, labelled, p, false);
    CodeColumnsAreNotTimes();
    assert "TimeTrialStart" != "condition type" by { assert "TimeTrialStart"[0] != "condition type"[0]; }
    forall n | Survives(trials, n) && IsTimeColumn(n) ensures NoText(labelled.cols[n]) <==> NoText(trials.cols[n]) {
      CarriedColumn(trials, labelled, p, n);
      AlongUnsentinel(trials.cols[n], labelled.cols[n], p, map[]);
    }
  }

  /** A column outside the two code columns of a traced table is its input
      column, rows rearranged along `p` and the sentinel read as missing. */
  lemma CarriedColumn(trials: Table, t: Table, p: seq<nat>, n: string)
    requires Wf(trials) && Wf(t) && IsPermutation(p, trials.height) && |p| == t.height
    requires EntriesCarried(trials, t, p, false)
    requires n in t.cols && n in trials.cols && n != "Outcome" && n != "condition type"
    ensures |t.cols[n]| == |p| && |trials.cols[n]| == trials.height
    ensures forall i :: 0 <= i < |p| ==> p[i] < |trials.cols[n]| && t.cols[n][i] == Unsentinel(trials.cols[n][p[i]])
  {
    forall i | 0 <= i < |p| ensures p[i] < |trials.cols[n]| && t.cols[n][i] == Unsentinel(trials.cols[n][p[i]]) {
      CarriedEntry(trials, t, p, false, n, i);
    }
  }

  /** Lines 56-93 read row by row: every output row is one input row, the
      rows in trial-number order. */
  lemma ReconstructTraced(h: Header, trials: Table)
    requires Wf(trials) && Reconstruct(h, trials).Ok?
    ensures BuildLookups(h).Ok?
    ensures exists p :: Traced(trials, BuildLookups(h).value, Reconstruct(h, trials).value, p, true)
  {
    var lk := BuildLookups(h).value;
    var labelled := Prepare(h, trials).value;
    var ordered := Arrange(labelled).value;
    assert Reconstruct(h, trials) == Ok(ordered);
    PreparedTraced(h, trials);
    ScaledAndOrdered(trials, lk, labelled, ordered);
  }

  lemma CleanedEntry(t: Table, r: Table, p: seq<nat>, n: string, i: nat)
    requires Cleaned(t, r, p) && n in r.cols && i < r.height
    ensures n in t.cols && p[i] < |t.cols[n]| && i < |r.cols[n]| && r.cols[n][i] == Unsentinel(t.cols[n][p[i]])
  {
    assert CleanedAt(t, r, p, n, i);
  }

  /** Scaling and ordering keep every row where it is. */
  lemma ScaledAndOrdered(trials: Table, lk: Lookups, labelled: Table, ordered: Table)
    requires Wf(labelled) && Wf(ordered)
    requires exists p :: Traced(trials, lk, labelled, p, false)
    requires ordered.height == labelled.height
    requires forall n :: n in ordered.cols <==> n in labelled.cols
    requires forall n :: n in labelled.cols && IsTimeColumn(n) ==> ColumnInSeconds(labelled.cols[n], ordered.cols[n])
    requires forall n :: n in labelled.cols && !IsTimeColumn(n) ==> ordered.cols[n] == labelled.cols[n]
    ensures exists p :: Traced(trials, lk, ordered, p, true)
  {
    var p :| Traced(trials, lk, labelled, p, false);
    CodeColumnsAreNotTimes();
    ScaledEntries(trials, labelled, ordered, p);
    assert ordered.cols["Outcome"] == labelled.cols["Outcome"];
    assert ordered.cols["condition type"] == labelled.cols["condition type"];
    assert Traced(trials, lk, ordered, p, true);
  }

  lemma ScaledEntries(trials: Table, labelled: Table, ordered: Table, p: seq<nat>)
    requires Wf(labelled) && Wf(ordered) && EntriesCarried(trials, labelled, p, false)
    requires ordered.height == labelled.height
    requires forall n :: n in ordered.cols <==> n in labelled.cols
    requires forall n :: n in labelled.cols && IsTimeColumn(n) ==> ColumnInSeconds(labelled.cols[n], ordered.cols[n])
    requires forall n :: n in labelled.cols && !IsTimeColumn(n) ==> ordered.cols[n] == labelled.cols[n]
    ensures EntriesCarried(trials, ordered, p, true)
  {
    forall n, i | n in ordered.cols && n != "Outcome" && n != "condition type" && 0 <= i < ordered.height
      ensures EntryCarried(trials, ordered, p, true, n, i)
    {
      CarriedEntry(trials, labelled, p, false, n, i);
      if IsTimeColumn(n) {
        assert ColumnInSeconds(labelled.cols[n], ordered.cols[n]);
        assert InSeconds(labelled.cols[n][i], ordered.cols[n][i]);
      }
    }
  }

  lemma CarriedEntry(trials: Table, t: Table, p: seq<nat>, scaled: bool, n: string, i: nat)
    requires Wf(t) && EntriesCarried(trials, t, p, scaled)
    requires n in t.cols && n != "Outcome" && n != "condition type" && i < t.height
    ensures n in trials.cols && i < |p| && p[i] < |trials.cols[n]| && i < |t.cols[n]|
    ensures Carried(scaled && IsTimeColumn(n), Unsentinel(trials.cols[n][p[i]]), t.cols[n][i])
  {
    assert EntryCarried(trials, t, p, scaled, n, i);
  }

  /** Neither labelled column is a time column. */
  lemma CodeColumnsAreNotTimes()
    ensures !IsTimeColumn("Outcome") && !IsTimeColumn("condition type")
  {
    NoTimeIn("Outcome");
    NoTimeIn("condition type");
  }

  lemma NoTimeIn(s: string)
    requires forall j :: 0 <= j < |s| ==> s[j] != 'T'
    ensures !Contains(s, "Time")
  {
    forall j: nat ensures !OccursAt(s, "Time", j) {
      if j + 4 <= |s| {
        assert s[j..j + 4][0] == s[j];
      }
    }
  }

  /** Lines 65-68: a column whose entries all agree once the sentinel is read
      as missing is gone from the output. */
  lemma ConstantColumnsDropped(h: Header, trials: Table, n: string)
    requires Wf(trials) && Reconstruct(h, trials).Ok?
    requires n in trials.cols && n != "condition type"
    requires forall i, j :: 0 <= i < j < trials.height ==>
               Unsentinel(trials.cols[n][i]) == Unsentinel(trials.cols[n][j])
    ensures n !in Reconstruct(h, trials).value.cols
  {
    var lk := BuildLookups(h).value;
    var cleaned := Clean(trials).value;
    var labelled := Label(cleaned, lk).value;
    assert Prepare(h, trials) == Ok(labelled);
    assert Reconstruct(h, trials) == Arrange(labelled);
    if n in labelled.cols {
      ConstantStaysConstant(trials, cleaned, n);
    }
  }

  /** Cleaning only reorders the rows of a column, so a column whose entries
      agree still has entries that agree. */
  lemma ConstantStaysConstant(trials: Table, cleaned: Table, n: string)
    requires Wf(cleaned) && cleaned.height == trials.height && n in cleaned.cols
    requires exists p :: IsPermutation(p, trials.height) && Cleaned(trials, cleaned, p)
    requires n in trials.cols
    requires forall i, j :: 0 <= i < j < |trials.cols[n]| ==>
               Unsentinel(trials.cols[n][i]) == Unsentinel(trials.cols[n][j])
    ensures cleaned.height > 0 ==> SingleValued(cleaned.cols[n])
  {
    if cleaned.height > 0 {
      var p :| IsPermutation(p, trials.height) && Cleaned(trials, cleaned, p);
      forall i | 0 <= i < |cleaned.cols[n]| ensures cleaned.cols[n][i] == cleaned.cols[n][0] {
        CleanedEntry(trials, cleaned, p, n, i);
        CleanedEntry(trials, cleaned, p, n, 0);
        if p[i] < p[0] {
          assert Unsentinel(trials.cols[n][p[i]]) == Unsentinel(trials.cols[n][p[0]]);
        } else if p[0] < p[i] {
          assert Unsentinel(trials.cols[n][p[0]]) == Unsentinel(trials.cols[n][p[i]]);
        }
      }
      SingleValuedIff(cleaned.cols[n]);
    }
  }

  /** Lines 65-71 together: when every trial has the same outcome the column
      is dropped as constant, and the translation of line 71 then fails. */
  lemma ConstantOutcomeFails(h: Header, trials: Table)
    requires Wf(trials) && "Outcome" in trials.cols
    requires forall i, j :: 0 <= i < j < trials.height ==>
               Unsentinel(trials.cols["Outcome"][i]) == Unsentinel(trials.cols["Outcome"][j])
    ensures Reconstruct(h, trials).Err?
  {
    if Reconstruct(h, trials).Ok? {
      ConstantColumnsDropped(h, trials, "Outcome");
    }
  }

  /** The whole of `run_conversion`: the columns registered on the file and
      one dictionary per trial. */
  function Convert(h: Header, trials: Table): (r: Result<Trials>)
    requires Wf(trials)
    ensures r.Ok? <==> ReconstructAccepts(h, trials)
    ensures r.Ok? ==> |r.value.rows| == trials.height && trials.height >= 2
    ensures r.Ok? ==> "TimeTrialStart" in r.value.registered && "Outcome" in r.value.registered
    ensures r.Ok? ==> "condition type" in r.value.registered
    ensures r.Ok? ==> forall n :: n in r.value.registered <==> n == "condition type" || Survives(trials, n)
    ensures r.Ok? ==> forall i :: 0 <= i < |r.value.rows| ==> "start_time" in r.value.rows[i]
    ensures r.Ok? ==> forall i, k :: 0 <= i < |r.value.rows| && k in r.value.rows[i] ==>
              k != "TimeTrialStart" && k != "TimeTrialEnd"
  {
    var t :- Reconstruct(h, trials);
    EmitKeys(t);
    Ok(Emit(t))
  }

  /** The row keys of an emitted table: never an old time-column name, and
      `start_time` whenever `TimeTrialStart` was a column. */
  lemma EmitKeys(t: Table)
    requires Wf(t) && "TimeTrialStart" in t.cols
    ensures forall i :: 0 <= i < t.height ==> "start_time" in Emit(t).rows[i]
    ensures forall i, k :: 0 <= i < t.height && k in Emit(t).rows[i] ==> k != "TimeTrialStart" && k != "TimeTrialEnd"
  {
    var j :| 0 <= j < |t.names| && t.names[j] == "TimeTrialStart";
    RenamedNeverOld(t.names[j]);
    forall i, k | 0 <= i < t.height && k in Emit(t).rows[i] ensures k != "TimeTrialStart" && k != "TimeTrialEnd" {
      var m :| 0 <= m < |t.names| && Renamed(t.names[m]) == k;
      RenamedNeverOld(t.names[m]);
    }
  }

  /** No renamed label is one of the two old names. */
  lemma RenamedNeverOld(n: string)
    ensures Renamed(n) != "TimeTrialStart" && Renamed(n) != "TimeTrialEnd"
    ensures n == "TimeTrialStart" ==> Renamed(n) == "start_time"
  {
    if n == "TimeTrialStart" || n == "TimeTrialEnd" {
      assert Renamed(n)[0] == 's';
    }
  }

  /** `row` is the file's dictionary for input row `k`: its outcome as a
      lower-cased label, its condition type, its start time in seconds, and
      every other surviving column's entry under its renamed label, the
      sentinel read as missing and time columns in seconds. */
  ghost predicate FileRow(trials: Table, lk: Lookups, row: map<string, Entry>, k: nat) {
    && "Outcome" in trials.cols && "CurrCond" in trials.cols && "TimeTrialStart" in trials.cols
    && k < |trials.cols["Outcome"]| && k < |trials.cols["CurrCond"]| && k < |trials.cols["TimeTrialStart"]|
    && "Outcome" in row && OutcomeLabel(Unsentinel(trials.cols["Outcome"][k]), lk, row["Outcome"])
    && "condition type" in row && ConditionLabel(Unsentinel(trials.cols["CurrCond"][k]), lk, row["condition type"])
    && "start_time" in row && InSeconds(Unsentinel(trials.cols["TimeTrialStart"][k]), row["start_time"])
    && forall n :: Survives(trials, n) && n != "Outcome" && n != "condition type" ==>
         k < |trials.cols[n]| && Renamed(n) in row && Carried(IsTimeColumn(n), Unsentinel(trials.cols[n][k]), row[Renamed(n)])
  }

  /** The file's trials are the input rows in trial-number order: trial `i`
      is input row `p[i]`. */
  ghost predicate FileRows(trials: Table, lk: Lookups, out: Trials) {
    && "TrialNum" in trials.cols
    && |out.rows| == trials.height
    && exists p :: && IsPermutation(p, trials.height) && |p| == trials.height
                   && OrderedAlong(CleanKeys(trials.cols["TrialNum"]), p)
                   && forall i :: 0 <= i < trials.height ==> p[i] < trials.height && FileRow(trials, lk, out.rows[i], p[i])
  }

  /** Lines 56-104 end to end: when the input has no `start_time` or
      `stop_time` column of its own, trial `i` of the file is input row
      `p[i]`, in trial-number order, with every surviving entry carried under
      its new name. */
  lemma ConvertTraced(h: Header, trials: Table, out: Trials)
    requires Wf(trials) && Convert(h, trials) == Ok(out)
    requires "start_time" !in trials.cols && "stop_time" !in trials.cols
    ensures BuildLookups(h).Ok? && FileRows(trials, BuildLookups(h).value, out)
  {
    ConvertIsEmit(h, trials, out);
    ReconstructTraced(h, trials);
    RebuiltRows(trials, BuildLookups(h).value, Reconstruct(h, trials).value, out);
  }

  lemma RebuiltRows(trials: Table, lk: Lookups, t: Table, out: Trials)
    requires Wf(trials) && Wf(t) && t.height == trials.height
    requires out == Emit(t) && exists p :: Traced(trials, lk, t, p, true)
    requires "TimeTrialStart" in t.cols
    requires forall n :: n in t.cols <==> n == "condition type" || Survives(trials, n)
    requires "start_time" !in trials.cols && "stop_time" !in trials.cols
    ensures FileRows(trials, lk, out)
  {
    var p :| Traced(trials, lk, t, p, true);
    assert "TimeTrialStart" in trials.cols by {
      assert "TimeTrialStart"[0] != "condition type"[0];
    }
    RenameHolds(t, trials);
    EmittedRows(trials, lk, t, p);
    RowsInOrder(trials, lk, out, p);
  }

  lemma RowsInOrder(trials: Table, lk: Lookups, out: Trials, p: seq<nat>)
    requires "TrialNum" in trials.cols && IsPermutation(p, trials.height) && |p| == trials.height
    requires OrderedAlong(CleanKeys(trials.cols["TrialNum"]), p) && |out.rows| == trials.height
    requires forall i :: 0 <= i < trials.height ==> p[i] < trials.height && FileRow(trials, lk, out.rows[i], p[i])
    ensures FileRows(trials, lk, out)
  {
  }

  /** Every row emitted from a traced table, when the rename is clean. */
  lemma EmittedRows(trials: Table, lk: Lookups, t: Table, p: seq<nat>)
    requires Wf(trials) && Wf(t) && t.height == trials.height
    requires Traced(trials, lk, t, p, true) && RenameClean(t.names)
    requires forall n :: n in t.cols <==> n == "condition type" || Survives(trials, n)
    requires "TimeTrialStart" in t.cols && "TimeTrialStart" in trials.cols
    ensures |Emit(t).rows| == trials.height
    ensures forall i :: 0 <= i < trials.height ==> p[i] < trials.height && FileRow(trials, lk, Emit(t).rows[i], p[i])
  {
    PermutationBounds(p, trials.height);
    forall i | 0 <= i < trials.height ensures p[i] < trials.height && FileRow(trials, lk, Emit(t).rows[i], p[i]) {
      EmittedRow(trials, lk, t, p, i);
    }
  }

  lemma ConvertIsEmit(h: Header, trials: Table, out: Trials)
    requires Wf(trials) && Convert(h, trials) == Ok(out)
    ensures Reconstruct(h, trials).Ok? && out == Emit(Reconstruct(h, trials).value)
    ensures Wf(Reconstruct(h, trials).value) && Reconstruct(h, trials).value.height == trials.height
    ensures "TimeTrialStart" in Reconstruct(h, trials).value.cols
    ensures forall n :: n in Reconstruct(h, trials).value.cols <==> n == "condition type" || Survives(trials, n)
  {
  }

  /** Row `i` emitted from a traced table, when the rename is clean. */
  lemma EmittedRow(trials: Table, lk: Lookups, t: Table, p: seq<nat>, i: nat)
    requires Wf(trials) && Wf(t) && Traced(trials, lk, t, p, true) && RenameClean(t.names) && i < t.height
    requires forall n :: n in t.cols <==> n == "condition type" || Survives(trials, n)
    requires "TimeTrialStart" in t.cols && "TimeTrialStart" in trials.cols
    ensures FileRow(trials, lk, Emit(t).rows[i], p[i])
  {
    var row := Emit(t).rows[i];
    PermutationBounds(p, trials.height);
    StartIsTimeColumn();
    RenamedNeverOld("TimeTrialStart");
    assert Renamed("Outcome") == "Outcome" && Renamed("condition type") == "condition type";
    assert "TimeTrialStart"[0] != "Outcome"[0] && "TimeTrialStart"[0] != "condition type"[0];
    CarriedEntry(trials, t, p, true, "TimeTrialStart", i);
    assert row[Renamed("TimeTrialStart")] == t.cols["TimeTrialStart"][i];
    assert row[Renamed("Outcome")] == t.cols["Outcome"][i];
    assert row[Renamed("condition type")] == t.cols["condition type"][i];
    assert row == RowOf(t, i);
    CleanRowValues(t, i);
    EmittedCarried(trials, t, p, i, row);
  }

  /** Every carried column of an emitted row sits under its renamed label. */
  lemma EmittedCarried(trials: Table, t: Table, p: seq<nat>, i: nat, row: map<string, Entry>)
    requires Wf(t) && EntriesCarried(trials, t, p, true) && i < t.height && |p| == t.height
    requires forall n :: Survives(trials, n) ==> n in t.cols
    requires forall n :: n in t.cols ==> Renamed(n) in row && row[Renamed(n)] == t.cols[n][i]
    ensures forall n :: Survives(trials, n) && n != "Outcome" && n != "condition type" ==>
              p[i] < |trials.cols[n]| && Renamed(n) in row
              && Carried(IsTimeColumn(n), Unsentinel(trials.cols[n][p[i]]), row[Renamed(n)])
  {
    forall n | Survives(trials, n) && n != "Outcome" && n != "condition type"
      ensures p[i] < |trials.cols[n]| && Renamed(n) in row
      ensures Carried(IsTimeColumn(n), Unsentinel(trials.cols[n][p[i]]), row[Renamed(n)])
    {
      CarriedEntry(trials, t, p, true, n, i);
    }
  }

  lemma StartIsTimeColumn()
    ensures IsTimeColumn("TimeTrialStart")
  {
    assert OccursAt("TimeTrialStart", "Time", 0);
    NoNowIn("TimeTrialStart");
  }

  /** With no `start_time` or `stop_time` column of its own, no two output
      columns share a name after the rename. */
  lemma RenameHolds(t: Table, trials: Table)
    requires Wf(t) && "start_time" !in trials.cols && "stop_time" !in trials.cols
    requires forall n :: n in t.cols ==> n in trials.cols || n == "condition type"
    ensures RenameClean(t.names)
  {
    assert "start_time" !in t.names by { assert "start_time"[0] != "condition type"[0]; }
    assert "stop_time" !in t.names by { assert "stop_time"[1] != "condition type"[1]; }
    RenameCleanIff(t.names);
  }

  lemma NoNowIn(s: string)
    requires forall j :: 0 <= j < |s| ==> s[j] != 'N'
    ensures !Contains(s, "Now")
  {
    forall j: nat ensures !OccursAt(s, "Now", j) {
      if j + 3 <= |s| {
        assert s[j..j + 3][0] == s[j];
      }
    }
  }
}
