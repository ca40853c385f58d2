/** The coordinate-table maintenance routines: exact outline comparison,
    merging a baseline table into a local one, and exact-duplicate removal. */
module CoorTable {
  import opened Outcomes
  import opened Seqs
  import opened Facts
  import opened LabelSort

  // ---------------------------------------------------------------------
  // Exact outline comparison

  /** Two outlines match only if they have the same length and every
      corresponding point has the same x and the same y: exactly outline
      equality. */
  method IsCoorMatch(x: Outline, y: Outline) returns (m: bool)
    ensures m <==> x == y
  {
    if |x| == |y| {
      m := true;
      var i := 0;
      while i < |x|
        invariant 0 <= i <= |x|
        invariant x[..i] == y[..i]
      {
        if x[i].x != y[i].x || x[i].y != y[i].y {
          m := false;
          break;
        }
        assert x[..i + 1] == x[..i] + [x[i]] && y[..i + 1] == y[..i] + [y[i]];
        i := i + 1;
      }
      assert m ==> x == x[..|x|] == y[..|y|] == y;
    } else {
      m := false;
    }
  }

  // ---------------------------------------------------------------------
  // Merge

  /** `list.remove(f)` failed: the value was no longer in the list. */
  datatype MergeError = RemovedTooOften

  /** `list.remove(f)`: drop the first element equal to `f`, which takes
      away one occurrence of `f` and nothing else. */
  function RemoveFirst(s: Table, f: Fact): (r: Table)
    requires f in s
    ensures multiset(r) == multiset(s) - multiset{f}
  {
    assert s == [s[0]] + s[1..];
    if s[0] == f then s[1..]
    else [s[0]] + RemoveFirst(s[1..], f)
  }

  lemma RemoveFirstCons(x: Fact, t: Table, f: Fact)
    requires x != f && f in t
    ensures RemoveFirst([x] + t, f) == [x] + RemoveFirst(t, f)
  {
    assert ([x] + t)[1..] == t;
  }

  lemma {:induction false} RemoveFirstAfter(a: Table, f: Fact, b: Table)
    requires f !in a
    ensures RemoveFirst(a + [f] + b, f) == a + b
  {
    if a == [] {
      assert a + [f] + b == [f] + b;
      assert ([f] + b)[1..] == b;
    } else {
      var t := a[1..] + [f] + b;
      assert a + [f] + b == [a[0]] + t;
      assert a[0] in a;
      RemoveFirstCons(a[0], t, f);
      RemoveFirstAfter(a[1..], f, b);
      assert a == [a[0]] + a[1..];
      SeqAssoc([a[0]], a[1..], b);
    }
  }

  /** The source facts that equal no target fact, in source order. */
  function Unmatched(source: Table, target: Table): Table {
    if source == [] then []
    else (if source[0] in target then [] else [source[0]]) + Unmatched(source[1..], target)
  }

  /** Some source fact equals two or more target facts, so the merge
      calls `remove` on it more often than it occurs. */
  ghost predicate OverMatched(source: Table, target: Table) {
    exists i :: 0 <= i < |source| && multiset(target)[source[i]] >= 2
  }

  /** The result of `merge_coor_table(source, target)`. */
  ghost function Merge(source: Table, target: Table): Result<Table, MergeError> {
    if OverMatched(source, target) then Err(RemovedTooOften)
    else Ok(SortByLabel(target + Unmatched(source, target)))
  }

  /** Every source fact of the prefix equals at most one target fact. */
  ghost predicate NotOverMatched(prefix: Table, target: Table) {
    forall k :: 0 <= k < |prefix| ==> multiset(target)[prefix[k]] <= 1
  }

  lemma {:induction false} UnmatchedAppend(a: Table, b: Table, target: Table)
    ensures Unmatched(a + b, target) == Unmatched(a, target) + Unmatched(b, target)
  {
    if a != [] {
      assert (a + b)[1..] == a[1..] + b;
      UnmatchedAppend(a[1..], b, target);
    } else {
      assert a + b == b;
    }
  }

  lemma {:induction false} UnmatchedMembership(source: Table, target: Table)
    ensures forall f :: f in Unmatched(source, target) <==> f in source && f !in target
  {
    if source != [] {
      UnmatchedMembership(source[1..], target);
      assert source == [source[0]] + source[1..];
    }
  }

  lemma {:induction false} UnmatchedCounts(source: Table, target: Table)
    ensures forall f :: multiset(Unmatched(source, target))[f] == if f in target then 0 else multiset(source)[f]
  {
    if source != [] {
      UnmatchedCounts(source[1..], target);
      assert source == [source[0]] + source[1..];
      assert multiset(source) == multiset{source[0]} + multiset(source[1..]);
    }
  }

  lemma {:induction false} UnmatchedSubsequence(source: Table, target: Table)
    ensures IsSubsequence(Unmatched(source, target), source)
  {
    if source != [] {
      UnmatchedSubsequence(source[1..], target);
      var rest := Unmatched(source[1..], target);
      if source[0] !in target {
        assert ([source[0]] + rest)[1..] == rest;
      } else if rest != [] {
        assert Unmatched(source, target) == rest;
        UnmatchedMembership(source[1..], target);
        assert rest[0] in rest;
        assert rest[0] != source[0];
      }
    }
  }

  /** How many removals of `v` the merge has made after processing
      `prefix`: one per matching target fact, per occurrence of `v`. */
  ghost function Removals(prefix: Table, target: Table, v: Fact): nat {
    if prefix == [] then 0
    else Removals(prefix[..|prefix| - 1], target, v)
         + (if prefix[|prefix| - 1] == v then multiset(target)[v] else 0)
  }

  lemma {:induction false} RemovalsCount(prefix: Table, target: Table, v: Fact)
    ensures Removals(prefix, target, v) == multiset(prefix)[v] * multiset(target)[v]
  {
    if prefix != [] {
      var front := prefix[..|prefix| - 1];
      RemovalsCount(front, target, v);
      assert prefix == front + [prefix[|prefix| - 1]];
      var c, m := multiset(front)[v], multiset(target)[v];
      if prefix[|prefix| - 1] == v {
        assert multiset(prefix)[v] == c + 1;
        MulSucc(c, m);
      } else {
        assert multiset(prefix)[v] == c;
      }
    }
  }

  lemma MulSucc(c: nat, m: nat)
    ensures (c + 1) * m == c * m + m
  {
  }

  /** The removal count so far: every source fact has lost from the copy
      one occurrence per pair (earlier occurrence of it, matching target
      fact), plus the matches of the current fact seen so far. */
  ghost predicate Balanced(copy: Table, source: Table, i: nat, target: Table, t: nat)
    requires i <= |source| && t <= |target|
  {
    forall v :: multiset(copy)[v] + Removals(source[..i], target, v)
                + (if i < |source| && v == source[i] then multiset(target[..t])[v] else 0)
                == multiset(source)[v]
  }

  lemma ArithOverMatch(c: int, m: int, t: int, s: int)
    requires 0 <= c && 0 <= t && c * m + t == s && t + 1 <= m && c + 1 <= s
    ensures m >= 2
  {
  }

  lemma BalancedNoMatch(copy: Table, source: Table, i: nat, target: Table, t: nat)
    requires i < |source| && t < |target| && Balanced(copy, source, i, target, t)
    requires target[t] != source[i]
    ensures Balanced(copy, source, i, target, t + 1)
  {
    assert target[..t + 1] == target[..t] + [target[t]];
    forall v ensures multiset(target[..t + 1])[v] == multiset(target[..t])[v] + (if v == target[t] then 1 else 0) {
    }
  }

  lemma BalancedRemove(copy: Table, source: Table, i: nat, target: Table, t: nat)
    requires i < |source| && t < |target| && Balanced(copy, source, i, target, t)
    requires target[t] == source[i] && source[i] in copy
    ensures Balanced(RemoveFirst(copy, source[i]), source, i, target, t + 1)
  {
    var j := source[i];
    assert target[..t + 1] == target[..t] + [j];
    var copy' := RemoveFirst(copy, j);
    forall v ensures multiset(copy')[v] + (if v == j then multiset(target[..t + 1])[v] else 0)
                     == multiset(copy)[v] + (if v == j then multiset(target[..t])[v] else 0)
    {
    }
  }

  lemma BalancedOverMatch(copy: Table, source: Table, i: nat, target: Table, t: nat)
    requires i < |source| && t < |target| && Balanced(copy, source, i, target, t)
    requires target[t] == source[i] && source[i] !in copy
    ensures OverMatched(source, target)
  {
    var j := source[i];
    assert target[..t + 1] == target[..t] + [j];
    assert multiset(target[..t + 1]) <= multiset(target) by {
      assert target == target[..t + 1] + target[t + 1..];
    }
    assert source == source[..i] + [j] + source[i + 1..];
    assert multiset(source)[j] >= multiset(source[..i])[j] + 1;
    assert multiset(copy)[j] == 0;
    RemovalsCount(source[..i], target, j);
    assert Removals(source[..i], target, j) + multiset(target[..t])[j] == multiset(source)[j];
    ArithOverMatch(multiset(source[..i])[j], multiset(target)[j], multiset(target[..t])[j], multiset(source)[j]);
    assert multiset(target)[source[i]] >= 2;
  }

  lemma BalancedNext(copy: Table, source: Table, i: nat, target: Table)
    requires i < |source| && Balanced(copy, source, i, target, |target|)
    ensures Balanced(copy, source, i + 1, target, 0)
  {
    var j := source[i];
    assert source[..i + 1] == source[..i] + [j];
    assert target[..|target|] == target;
    assert (source[..i + 1])[..i] == source[..i];
    assert target[..0] == [];
  }

  lemma BalancedEnd(copy: Table, source: Table, target: Table)
    requires Balanced(copy, source, |source|, target, 0)
    ensures NotOverMatched(source, target) && !OverMatched(source, target)
  {
    assert source[..|source|] == source;
    forall k | 0 <= k < |source| ensures multiset(target)[source[k]] <= 1 {
      var v := source[k];
      assert v in multiset(source);
      RemovalsCount(source, target, v);
      var c, m := multiset(source)[v], multiset(target)[v];
      assert c * m <= c;
      MulAtLeastDouble(c, m);
    }
  }

  lemma MulAtLeastDouble(c: nat, m: nat)
    ensures m >= 2 ==> c * m >= 2 * c
  {
    if m >= 2 {
      assert c * m == c * 2 + c * (m - 2);
    }
  }

  /** While no processed source fact is over-matched, the copy is the
      unmatched part of the processed prefix followed by the rest. */
  ghost predicate Shaped(copy: Table, source: Table, i: nat, target: Table, t: nat)
    requires i < |source| && t <= |target|
  {
    NotOverMatched(source[..i], target) ==>
      (multiset(target[..t])[source[i]] == 0 ==> copy == Unmatched(source[..i], target) + source[i..]) &&
      (multiset(target[..t])[source[i]] == 1 ==> copy == Unmatched(source[..i], target) + source[i + 1..])
  }

  /** One comparison of the inner loop keeps both invariants, or shows
      the merge removes a fact too often. */
  lemma MatchStep(copy: Table, source: Table, i: nat, target: Table, t: nat)
    requires i < |source| && t < |target|
    requires Balanced(copy, source, i, target, t) && Shaped(copy, source, i, target, t)
    ensures target[t] != source[i] ==>
              Balanced(copy, source, i, target, t + 1) && Shaped(copy, source, i, target, t + 1)
    ensures target[t] == source[i] && source[i] !in copy ==> OverMatched(source, target)
    ensures target[t] == source[i] && source[i] in copy ==>
              Balanced(RemoveFirst(copy, source[i]), source, i, target, t + 1) &&
              Shaped(RemoveFirst(copy, source[i]), source, i, target, t + 1)
  {
    ShapedStep(copy, source, i, target, t);
    if target[t] != source[i] {
      BalancedNoMatch(copy, source, i, target, t);
    } else if source[i] !in copy {
      BalancedOverMatch(copy, source, i, target, t);
    } else {
      BalancedRemove(copy, source, i, target, t);
    }
  }

  /** After the last target fact, both invariants carry over to the next
      source fact. */
  lemma MatchEnd(copy: Table, source: Table, i: nat, target: Table)
    requires i < |source|
    requires Balanced(copy, source, i, target, |target|) && Shaped(copy, source, i, target, |target|)
    ensures Balanced(copy, source, i + 1, target, 0)
    ensures NotOverMatched(source[..i + 1], target) ==> copy == Unmatched(source[..i + 1], target) + source[i + 1..]
  {
    BalancedNext(copy, source, i, target);
    ShapedNext(copy, source, i, target);
  }

  /** Before any target fact is compared, the copy has the shape the
      outer loop keeps. */
  lemma ShapedStart(copy: Table, source: Table, i: nat, target: Table)
    requires i < |source|
    requires NotOverMatched(source[..i], target) ==> copy == Unmatched(source[..i], target) + source[i..]
    ensures Shaped(copy, source, i, target, 0)
  {
    assert target[..0] == [];
  }

  lemma ShapedStep(copy: Table, source: Table, i: nat, target: Table, t: nat)
    requires i < |source| && t < |target| && Shaped(copy, source, i, target, t)
    ensures target[t] != source[i] ==> Shaped(copy, source, i, target, t + 1)
    ensures target[t] == source[i] && source[i] in copy ==>
              Shaped(RemoveFirst(copy, source[i]), source, i, target, t + 1)
  {
    var j := source[i];
    assert target[..t + 1] == target[..t] + [target[t]];
    if target[t] == j && NotOverMatched(source[..i], target) && multiset(target[..t])[j] == 0 {
      assert multiset(target[..t + 1])[j] == 1;
      ShapedRemove(copy, source, i, target, t);
    }
  }

  /** The first match of the current fact removes it from the front of
      the unprocessed rest. */
  lemma ShapedRemove(copy: Table, source: Table, i: nat, target: Table, t: nat)
    requires i < |source| && t < |target| && target[t] == source[i]
    requires copy == Unmatched(source[..i], target) + source[i..]
    ensures RemoveFirst(copy, source[i]) == Unmatched(source[..i], target) + source[i + 1..]
  {
    var j := source[i];
    UnmatchedMembership(source[..i], target);
    assert target[t] in target;
    SuffixSplit(source, i);
    assert copy == Unmatched(source[..i], target) + [j] + source[i + 1..];
    RemoveFirstAfter(Unmatched(source[..i], target), j, source[i + 1..]);
  }

  lemma ShapedNext(copy: Table, source: Table, i: nat, target: Table)
    requires i < |source| && Shaped(copy, source, i, target, |target|)
    ensures NotOverMatched(source[..i + 1], target) ==>
              copy == Unmatched(source[..i + 1], target) + source[i + 1..]
  {
    var j := source[i];
    if NotOverMatched(source[..i + 1], target) {
      assert multiset(target)[j] <= 1 by {
        assert source[..i + 1][i] == j;
      }
      NotOverMatchedPrefix(source, i, target);
      ShapedFull(copy, source, i, target);
      UnmatchedSnoc(source, i, target);
      var u := Unmatched(source[..i], target);
      if multiset(target)[j] == 0 {
        assert j !in target;
      } else {
        assert j in target;
        assert u + [] == u;
      }
    }
  }

  lemma ShapedFull(copy: Table, source: Table, i: nat, target: Table)
    requires i < |source| && Shaped(copy, source, i, target, |target|)
    requires NotOverMatched(source[..i], target) && multiset(target)[source[i]] <= 1
    ensures multiset(target)[source[i]] == 0 ==> copy == Unmatched(source[..i], target) + [source[i]] + source[i + 1..]
    ensures multiset(target)[source[i]] == 1 ==> copy == Unmatched(source[..i], target) + source[i + 1..]
  {
    assert target[..|target|] == target;
    SuffixSplit(source, i);
  }

  lemma NotOverMatchedPrefix(source: Table, i: nat, target: Table)
    requires i < |source| && NotOverMatched(source[..i + 1], target)
    ensures NotOverMatched(source[..i], target)
  {
    forall k | 0 <= k < i ensures multiset(target)[source[..i][k]] <= 1 {
      assert source[..i][k] == source[..i + 1][k];
    }
  }

  lemma UnmatchedSnoc(source: Table, i: nat, target: Table)
    requires i < |source|
    ensures Unmatched(source[..i + 1], target)
            == Unmatched(source[..i], target) + (if source[i] in target then [] else [source[i]])
  {
    assert source[..i + 1] == source[..i] + [source[i]];
    UnmatchedAppend(source[..i], [source[i]], target);
    assert [source[i]][1..] == [];
  }

  lemma MergeEnd(copy: Table, source: Table, target: Table)
    requires Balanced(copy, source, |source|, target, 0)
    requires NotOverMatched(source[..|source|], target) ==>
               copy == Unmatched(source[..|source|], target) + source[|source|..]
    ensures !OverMatched(source, target) && copy == Unmatched(source, target)
  {
    BalancedEnd(copy, source, target);
    assert source[..|source|] == source;
    assert source[|source|..] == [];
    assert Unmatched(source, target) + [] == Unmatched(source, target);
  }

  /** The inner loop of the merge: compares source fact `source[i]` with
      every target fact in turn and removes its first occurrence from the
      copy at each exact match; removing a fact no longer in the copy is
      the error. */
  method RemoveMatches(copy: Table, source: Table, i: nat, target: Table) returns (r: Result<Table, MergeError>)
    requires i < |source| && Balanced(copy, source, i, target, 0)
    requires NotOverMatched(source[..i], target) ==> copy == Unmatched(source[..i], target) + source[i..]
    ensures r.Err? ==> r.error == RemovedTooOften && OverMatched(source, target)
    ensures r.Ok? ==> Balanced(r.value, source, i + 1, target, 0)
    ensures r.Ok? ==> NotOverMatched(source[..i + 1], target) ==>
                        r.value == Unmatched(source[..i + 1], target) + source[i + 1..]
  {
    var sourceCopy := copy;
    var j := source[i];
    ShapedStart(sourceCopy, source, i, target);
    for t := 0 to |target|
      invariant Balanced(sourceCopy, source, i, target, t)
      invariant Shaped(sourceCopy, source, i, target, t)
    {
      var k := target[t];
      MatchStep(sourceCopy, source, i, target, t);
      var same := false;
      if j.ch == k.ch {
        same := IsCoorMatch(j.outline, k.outline);
      }
      assert same <==> k == j;
      if same {
        if j !in sourceCopy {
          return Err(RemovedTooOften);
        }
        sourceCopy := RemoveFirst(sourceCopy, j);
      }
    }
    MatchEnd(sourceCopy, source, i, target);
    r := Ok(sourceCopy);
  }

  /** Copies `source`, removes (first occurrence, once per matching target
      fact) every source fact that exactly matches a target fact, and sorts
      target followed by what is left by label. */
  method MergeCoorTable(source: Table, target: Table) returns (r: Result<Table, MergeError>)
    ensures r == Merge(source, target)
  {
    var sourceCopy := source;
    for i := 0 to |source|
      invariant Balanced(sourceCopy, source, i, target, 0)
      invariant NotOverMatched(source[..i], target) ==> sourceCopy == Unmatched(source[..i], target) + source[i..]
    {
      var step := RemoveMatches(sourceCopy, source, i, target);
      if step.Err? {
        return Err(step.error);
      }
      sourceCopy := step.value;
    }
    MergeEnd(sourceCopy, source, target);
    r := Ok(SortByLabel(target + sourceCopy));
  }

  // ---------------------------------------------------------------------
  // Merge: what the result holds

  /** The merge fails exactly when some source fact exactly matches two or
      more target facts; otherwise its result holds every target fact and
      every unmatched source fact, with their multiplicities. */
  lemma MergeContents(source: Table, target: Table)
    ensures Merge(source, target).Err? <==> OverMatched(source, target)
    ensures Merge(source, target).Ok? ==>
              multiset(Merge(source, target).value)
              == multiset(target) + multiset(Unmatched(source, target))
    ensures Merge(source, target).Ok? ==>
              |Merge(source, target).value| == |target| + |Unmatched(source, target)| >= |target|
  {
    if !OverMatched(source, target) {
      var all := target + Unmatched(source, target);
      assert |SortByLabel(all)| == |multiset(SortByLabel(all))| == |multiset(all)| == |all|;
    }
  }

  /** A successful merge is sorted by label, and among facts of one label
      the target facts come first, in target order, then the unmatched
      source facts in source order. */
  lemma MergeOrder(source: Table, target: Table, c: string)
    requires Merge(source, target).Ok?
    ensures SortedByLabel(Merge(source, target).value)
    ensures WithLabel(Merge(source, target).value, c)
            == WithLabel(target, c) + WithLabel(Unmatched(source, target), c)
  {
    var u := Unmatched(source, target);
    SortByLabelStable(target + u, c);
    WithLabelAppend(target, u, c);
  }

  /** Merging a duplicate-free table into a sub-collection of itself gives
      back exactly its facts: removed facts are restored and nothing is
      doubled. */
  lemma MergeRestores(full: Table, part: Table)
    requires Distinct(full) && multiset(part) <= multiset(full)
    ensures Merge(full, part).Ok?
    ensures multiset(Merge(full, part).value) == multiset(full)
    ensures |Merge(full, part).value| == |full|
  {
    DistinctCounts(full);
    assert !OverMatched(full, part) by {
      forall i | 0 <= i < |full| ensures multiset(part)[full[i]] <= 1 {
        assert multiset(part)[full[i]] <= multiset(full)[full[i]];
      }
    }
    MergeContents(full, part);
    UnmatchedCounts(full, part);
    var r := Merge(full, part).value;
    forall v ensures multiset(r)[v] == multiset(full)[v] {
      if v in part {
        assert multiset(part)[v] <= multiset(full)[v];
      }
    }
    assert multiset(r) == multiset(full);
    assert |r| == |multiset(r)| == |multiset(full)| == |full|;
  }

  /** Merging two duplicate-free tables always succeeds and gives a
      duplicate-free table. */
  lemma MergeDistinct(source: Table, target: Table)
    requires Distinct(source) && Distinct(target)
    ensures Merge(source, target).Ok? && Distinct(Merge(source, target).value)
  {
    DistinctCounts(source);
    DistinctCounts(target);
    assert !OverMatched(source, target) by {
      forall i | 0 <= i < |source| ensures multiset(target)[source[i]] <= 1 {
      }
    }
    MergeContents(source, target);
    UnmatchedCounts(source, target);
    var r := Merge(source, target).value;
    forall v ensures multiset(r)[v] <= 1 {
    }
    DistinctCounts(r);
  }

  // ---------------------------------------------------------------------
  // Deduplication

  /** The table with every fact dropped that exactly matches a later fact:
      of each group of equal facts the last survives, in table order. */
  function Dedup(s: Table): Table {
    if s == [] then []
    else (if s[0] in s[1..] then [] else [s[0]]) + Dedup(s[1..])
  }

  /** The inner loop of `deduplicate_coor_table`: marks every earlier
      index whose fact exactly matches the fact at `j`. */
  method MarkMatchesOf(source: Table, j: nat, rmList: seq<nat>) returns (marked: seq<nat>)
    requires j < |source|
    ensures forall x: nat :: x in marked <==> x in rmList || (x < j && source[x] == source[j])
  {
    marked := rmList;
    for k := 0 to |source|
      invariant forall x: nat :: x in marked <==> x in rmList || (x < k && x < j && source[x] == source[j])
    {
      if j > k && source[j].ch == source[k].ch {
        var m := IsCoorMatch(source[j].outline, source[k].outline);
        if m && k !in marked {
          marked := marked + [k];
        }
      }
    }
  }

  /** The first phase of `deduplicate_coor_table`: the indices whose
      fact exactly matches a fact at a later index. */
  method MarkDuplicates(source: Table) returns (rmList: seq<nat>)
    ensures forall x: nat :: x in rmList ==> x < |source|
    ensures forall x: nat :: x < |source| ==> (x in rmList <==> source[x] in source[x + 1..])
  {
    rmList := [];
    var n := |source|;
    for j := 0 to n
      invariant forall x: nat :: x in rmList ==> x < n
      invariant forall x: nat :: x < n ==> (x in rmList <==> x < j && source[x] in source[x + 1..j])
    {
      var marked := MarkMatchesOf(source, j, rmList);
      forall x: nat | x < n
        ensures x in marked <==> x < j + 1 && source[x] in source[x + 1..j + 1]
      {
        if x < j {
          assert source[x + 1..j + 1] == source[x + 1..j] + [source[j]];
        }
      }
      rmList := marked;
    }
    forall x: nat | x < n ensures x in rmList <==> source[x] in source[x + 1..] {
      assert source[x + 1..n] == source[x + 1..];
    }
  }

  /** Marks every index that has an exact match at a later index, then
      keeps the unmarked facts in order. */
  method DeduplicateCoorTable(source: Table) returns (target: Table)
    ensures target == Dedup(source)
  {
    var rmList := MarkDuplicates(source);
    var n := |source|;
    target := [];
    for index := 0 to n
      invariant target + Dedup(source[index..]) == Dedup(source)
    {
      ghost var rest := source[index + 1..];
      assert source[index..] == [source[index]] + rest;
      DedupCons(source[index], rest);
      assert index in rmList <==> source[index] in rest;
      if index !in rmList {
        assert Dedup(source[index..]) == [source[index]] + Dedup(rest);
        SeqAssoc(target, [source[index]], Dedup(rest));
        target := target + [source[index]];
      } else {
        assert Dedup(source[index..]) == Dedup(rest);
      }
    }
  }

  /** Every fact of the table survives exactly once. */
  lemma {:induction false} DedupCounts(s: Table)
    ensures forall v :: multiset(Dedup(s))[v] == if v in s then 1 else 0
  {
    if s != [] {
      DedupCounts(s[1..]);
      assert s == [s[0]] + s[1..];
    }
  }

  /** The result is duplicate-free and holds exactly the table's facts. */
  lemma DedupDistinctElems(s: Table)
    ensures Distinct(Dedup(s))
    ensures forall v :: v in Dedup(s) <==> v in s
    ensures |Dedup(s)| == |Elems(s)|
  {
    DedupCounts(s);
    DistinctCounts(Dedup(s));
    DistinctCard(Dedup(s));
    assert Elems(Dedup(s)) == Elems(s);
  }

  /** A duplicate-free table is left unchanged. */
  lemma {:induction false} DedupOfDistinct(s: Table)
    requires Distinct(s)
    ensures Dedup(s) == s
  {
    if s != [] {
      assert Distinct(s[1..]);
      DedupOfDistinct(s[1..]);
      assert s[0] !in s[1..];
      assert s == [s[0]] + s[1..];
    }
  }

  /** Deduplicating twice is the same as deduplicating once. */
  lemma DedupIdempotent(s: Table)
    ensures Dedup(Dedup(s)) == Dedup(s)
  {
    DedupDistinctElems(s);
    DedupOfDistinct(Dedup(s));
  }

  /** The survivors keep their relative table order. */
  lemma {:induction false} DedupSubsequence(s: Table)
    ensures IsSubsequence(Dedup(s), s)
  {
    if s != [] {
      DedupSubsequence(s[1..]);
      var d := Dedup(s[1..]);
      assert s == [s[0]] + s[1..];
      if s[0] in s[1..] {
        assert Dedup(s) == d;
        SubsequenceCons(d, s[1..], s[0]);
      } else {
        assert ([s[0]] + d)[1..] == d;
      }
    }
  }

  /** The last occurrence wins: deduplicating `a + b` keeps the facts of
      `a` that do not occur in `b`, deduplicated, followed by `b`
      deduplicated. */
  lemma {:induction false} DedupLastWins(a: Table, b: Table)
    ensures Dedup(a + b) == Dedup(Unmatched(a, b)) + Dedup(b)
  {
    if a == [] {
      assert a + b == b;
    } else {
      var x, rest := a[0], a[1..];
      var u := Unmatched(rest, b);
      assert a + b == [x] + (rest + b);
      DedupCons(x, rest + b);
      DedupLastWins(rest, b);
      UnmatchedMembership(rest, b);
      if x !in b {
        assert Unmatched(a, b) == [x] + u;
        DedupCons(x, u);
        assert x in rest + b <==> x in u;
        var head := if x in u then [] else [x];
        calc {
          Dedup(a + b);
          head + Dedup(rest + b);
          head + (Dedup(u) + Dedup(b));
          { SeqAssoc(head, Dedup(u), Dedup(b)); }
          (head + Dedup(u)) + Dedup(b);
          Dedup(Unmatched(a, b)) + Dedup(b);
        }
      } else {
        assert Unmatched(a, b) == u;
        assert x in rest + b;
      }
    }
  }

  lemma SeqAssoc(p: Table, q: Table, r: Table)
    ensures p + (q + r) == (p + q) + r
  {
  }

  lemma DedupCons(x: Fact, t: Table)
    ensures Dedup([x] + t) == (if x in t then [] else [x]) + Dedup(t)
  {
    assert ([x] + t)[1..] == t;
  }

  /** The final fact of a non-empty table is never dropped. */
  lemma {:induction false} DedupKeepsLast(s: Table)
    requires s != []
    ensures Dedup(s) != [] && Dedup(s)[|Dedup(s)| - 1] == s[|s| - 1]
  {
    if |s| > 1 {
      DedupKeepsLast(s[1..]);
    } else {
      assert s[1..] == [];
    }
  }

  /** Appending facts that are already in a duplicate-free table and then
      deduplicating gives a table of the original length. */
  lemma DedupAppendKnown(table: Table, extra: Table)
    requires Distinct(table) && forall f :: f in extra ==> f in table
    ensures |Dedup(table + extra)| == |table|
  {
    DedupDistinctElems(table + extra);
    assert Elems(table + extra) == Elems(table);
    DistinctCard(table);
  }
}
