/** Start-up reconciliation of the local coordinate table with the bundled
    baseline: merge the baseline into the local table, drop duplicates,
    and rewrite the local file only when the length changed; copy the
    baseline when the local file is missing or does not parse. */
module Bootstrap {
  import opened Outcomes
  import opened Seqs
  import opened Facts
  import opened LabelSort
  import opened CoorTable

  /** What reading the local table file gives. */
  datatype LocalFile = Missing | Unparsable | Parsed(facts: Table)

  /** Why reconciliation stopped: the file is absent, it is not JSON, or
      the merge called `remove` too often. */
  datatype BootError = FileNotFound | JsonDecodeError | RemoveFailed

  /** The file after a step, and whether the step wrote it. */
  datatype Boot = Boot(file: LocalFile, outcome: Result<bool, BootError>)

  /** `merge_and_deduplicate_coor_table`: both tables are sorted by label,
      the baseline is merged into the local table, duplicates are
      dropped, and the file is rewritten iff the length differs from the
      local table's. */
  ghost function MergeAndDeduplicateSpec(file: LocalFile, baseline: Table): Boot {
    match file
    case Missing => Boot(file, Err(FileNotFound))
    case Unparsable => Boot(file, Err(JsonDecodeError))
    case Parsed(local) =>
      var l := SortByLabel(local);
      match Merge(SortByLabel(baseline), l)
      case Err(_) => Boot(file, Err(RemoveFailed))
      case Ok(m) =>
        var d := Dedup(m);
        if |d| != |l| then Boot(Parsed(d), Ok(true)) else Boot(file, Ok(false))
  }

  /** `init`, coordinate-table part: a missing file, or one that does not
      parse, is replaced by a copy of the baseline; otherwise the file is
      reconciled, and a failed merge is not caught. */
  ghost function InitSpec(file: LocalFile, baseline: Table): Boot {
    if file.Missing? then Boot(Parsed(baseline), Ok(true))
    else
      var b := MergeAndDeduplicateSpec(file, baseline);
      if b.outcome == Err(JsonDecodeError) then Boot(Parsed(baseline), Ok(true)) else b
  }

  /** The local coordinate table file. */
  class CoorTableStore {
    var file: LocalFile

    constructor (file: LocalFile)
      ensures this.file == file
    {
      this.file := file;
    }

    method MergeAndDeduplicate(baseline: Table) returns (r: Result<bool, BootError>)
      modifies this
      ensures Boot(file, r) == MergeAndDeduplicateSpec(old(file), baseline)
    {
      match file
      case Missing => return Err(FileNotFound);
      case Unparsable => return Err(JsonDecodeError);
      case Parsed(local) =>
        var l := SortByLabel(local);
        var remote := SortByLabel(baseline);
        var merged := MergeCoorTable(remote, l);
        match merged
        case Err(_) => return Err(RemoveFailed);
        case Ok(m) =>
          var d := DeduplicateCoorTable(m);
          if |d| != |l| {
            file := Parsed(d);
            return Ok(true);
          }
          return Ok(false);
    }

    method Init(baseline: Table) returns (r: Result<bool, BootError>)
      modifies this
      ensures Boot(file, r) == InitSpec(old(file), baseline)
    {
      if file.Missing? {
        file := Parsed(baseline);
        return Ok(true);
      }
      r := MergeAndDeduplicate(baseline);
      if r == Err(JsonDecodeError) {
        file := Parsed(baseline);
        r := Ok(true);
      }
    }
  }

  // ---------------------------------------------------------------------
  // What start-up does to the table

  /** A missing or unparsable local file ends up as a copy of the
      baseline; a parsed one is reconciled and never replaced wholesale. */
  lemma InitReplacesOnlyBroken(file: LocalFile, baseline: Table)
    ensures !file.Parsed? ==> InitSpec(file, baseline) == Boot(Parsed(baseline), Ok(true))
    ensures file.Parsed? ==> InitSpec(file, baseline) == MergeAndDeduplicateSpec(file, baseline)
    ensures file.Parsed? && Distinct(file.facts) ==> InitSpec(file, baseline).outcome.Ok?
  {
    if file.Parsed? {
      if Distinct(file.facts) {
        DistinctLocalSucceeds(file.facts, baseline);
      }
      var l := SortByLabel(file.facts);
      match Merge(SortByLabel(baseline), l)
      case Err(_) =>
      case Ok(m) =>
    }
  }

  /** Reconciliation fails exactly when some baseline fact occurs two or
      more times in the local table. */
  lemma ReconcileFailsIff(local: Table, baseline: Table)
    ensures MergeAndDeduplicateSpec(Parsed(local), baseline).outcome == Err(RemoveFailed)
            <==> exists f :: f in baseline && multiset(local)[f] >= 2
  {
    var l, b := SortByLabel(local), SortByLabel(baseline);
    assert MergeAndDeduplicateSpec(Parsed(local), baseline).outcome == Err(RemoveFailed)
           <==> OverMatched(b, l);
    OverMatchedSorted(local, baseline);
  }

  lemma OverMatchedSorted(local: Table, baseline: Table)
    ensures OverMatched(SortByLabel(baseline), SortByLabel(local))
            <==> exists f :: f in baseline && multiset(local)[f] >= 2
  {
    var l, b := SortByLabel(local), SortByLabel(baseline);
    if exists f :: f in baseline && multiset(local)[f] >= 2 {
      var f :| f in baseline && multiset(local)[f] >= 2;
      assert f in multiset(baseline);
      assert f in b;
      var i :| 0 <= i < |b| && b[i] == f;
      assert multiset(l)[b[i]] >= 2;
    }
    if OverMatched(b, l) {
      var i :| 0 <= i < |b| && multiset(l)[b[i]] >= 2;
      assert b[i] in multiset(b);
      assert b[i] in baseline;
    }
  }

  /** A duplicate-free local table always reconciles. */
  lemma DistinctLocalSucceeds(local: Table, baseline: Table)
    requires Distinct(local)
    ensures MergeAndDeduplicateSpec(Parsed(local), baseline).outcome.Ok?
  {
    ReconcileFailsIff(local, baseline);
    DistinctCounts(local);
  }

  /** The facts of a successful merge of the sorted tables: the local
      ones and the baseline ones. */
  lemma MergedFacts(local: Table, baseline: Table)
    requires Merge(SortByLabel(baseline), SortByLabel(local)).Ok?
    ensures forall f :: f in Merge(SortByLabel(baseline), SortByLabel(local)).value
                        <==> f in local || f in baseline
  {
    var l, b := SortByLabel(local), SortByLabel(baseline);
    MergeContents(b, l);
    UnmatchedCounts(b, l);
    var m := Merge(b, l).value;
    forall f ensures f in m <==> f in local || f in baseline {
      var cm, cl, cb := multiset(m)[f], multiset(local)[f], multiset(baseline)[f];
      assert cm == cl + (if f in l then 0 else cb);
      assert f in l <==> cl > 0;
      assert f in m <==> cm > 0;
      assert f in local <==> cl > 0;
      assert f in baseline <==> cb > 0;
    }
  }

  /** For a duplicate-free local table, the file is rewritten exactly
      when the baseline has a fact the local table lacks. */
  lemma RewriteIff(local: Table, baseline: Table)
    requires Distinct(local)
    ensures MergeAndDeduplicateSpec(Parsed(local), baseline).outcome == Ok(true)
            <==> exists f :: f in baseline && f !in local
    ensures MergeAndDeduplicateSpec(Parsed(local), baseline).outcome == Ok(false)
            <==> forall f :: f in baseline ==> f in local
  {
    DistinctLocalSucceeds(local, baseline);
    var l, b := SortByLabel(local), SortByLabel(baseline);
    var m := Merge(b, l).value;
    var d := Dedup(m);
    MergedFacts(local, baseline);
    DedupDistinctElems(m);
    DistinctCard(local);
    assert |l| == |multiset(l)| == |multiset(local)| == |local|;
    var extra := Elems(baseline) - Elems(local);
    assert Elems(m) == Elems(local) + extra by {
      forall f ensures f in Elems(m) <==> f in Elems(local) + extra {
        assert f in Elems(m) <==> f in m;
        assert f in Elems(local) <==> f in local;
        assert f in Elems(baseline) <==> f in baseline;
      }
    }
    assert Elems(local) !! extra;
    assert |d| == |l| + |extra|;
    assert MergeAndDeduplicateSpec(Parsed(local), baseline).outcome
           == if |d| != |l| then Ok(true) else Ok(false);
    if exists f :: f in baseline && f !in local {
      var f :| f in baseline && f !in local;
      assert f in extra;
    } else {
      assert forall f :: f in extra ==> f in baseline && f !in local;
      assert extra == {};
    }
  }

  /** Keeping an order-preserving selection of a table sorted by label
      keeps it sorted. */
  lemma {:induction false} SubsequenceSorted(a: Table, b: Table)
    requires IsSubsequence(a, b) && SortedByLabel(b)
    ensures SortedByLabel(a)
    decreases |b|
  {
    if a != [] && b != [] {
      assert SortedByLabel(b[1..]);
      if a[0] == b[0] {
        SubsequenceSorted(a[1..], b[1..]);
        SubsequenceElems(a[1..], b[1..]);
        forall i, j | 0 <= i < j < |a| ensures LabelLe(a[i].ch, a[j].ch) {
          if i == 0 {
            assert a[j] == a[1..][j - 1];
            assert a[j] in a[1..];
            var k :| 0 <= k < |b[1..]| && b[1..][k] == a[j];
            assert b[k + 1] == a[j];
          } else {
            assert a[i] == a[1..][i - 1] && a[j] == a[1..][j - 1];
          }
        }
      } else {
        SubsequenceSorted(a, b[1..]);
      }
    }
  }

  /** A rewritten table is duplicate-free, sorted by label, and holds
      exactly the facts of the local table and of the baseline. */
  lemma RewrittenTable(local: Table, baseline: Table)
    requires MergeAndDeduplicateSpec(Parsed(local), baseline).outcome == Ok(true)
    ensures var written := MergeAndDeduplicateSpec(Parsed(local), baseline).file;
            written.Parsed? && Distinct(written.facts) && SortedByLabel(written.facts)
            && forall f :: f in written.facts <==> f in local || f in baseline
  {
    var l, b := SortByLabel(local), SortByLabel(baseline);
    var m := Merge(b, l).value;
    MergedFacts(local, baseline);
    DedupDistinctElems(m);
    MergeOrder(b, l, "");
    DedupSubsequence(m);
    SubsequenceSorted(Dedup(m), m);
  }

  /** A local table holding one fact twice, together with a baseline
      holding that fact, makes start-up fail instead of repairing the
      table. */
  lemma DuplicateLocalFactFailsInit(f: Fact)
    ensures InitSpec(Parsed([f, f]), [f]).outcome == Err(RemoveFailed)
  {
    ReconcileFailsIff([f, f], [f]);
    assert f in [f] && multiset([f, f])[f] == 2;
  }
}
