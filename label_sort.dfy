/** Python's `sorted(table, key=lambda x: x[0])`: a stable sort of facts
    by their label, with labels compared as Python compares `str` values. */
module LabelSort {
  import opened Facts

  /** Lexicographic order on strings: `a` is a prefix of `b`, or at the
      first position where they differ `a` has the smaller code point. */
  ghost predicate Lexicographic(a: string, b: string) {
    a <= b
    || exists k :: 0 <= k < |a| && k < |b| && a[..k] == b[..k] && a[k] < b[k]
  }

  /** Python's `<=` on strings, computed character by character. */
  predicate LabelLe(a: string, b: string): (le: bool)
    ensures le <==> Lexicographic(a, b)
    decreases |a|
  {
    if a == [] then true
    else if b == [] then false
    else
      LexicographicStep(a, b);
      if a[0] != b[0] then a[0] < b[0]
      else LabelLe(a[1..], b[1..])
  }

  /** Two non-empty strings compare by their first characters, and by the
      rest when those are equal. */
  lemma LexicographicStep(a: string, b: string)
    requires a != [] && b != []
    ensures Lexicographic(a, b) <==>
              a[0] < b[0] || (a[0] == b[0] && Lexicographic(a[1..], b[1..]))
  {
    if a[0] == b[0] {
      if Lexicographic(a, b) {
        LexicographicTail(a, b);
      }
      if Lexicographic(a[1..], b[1..]) {
        LexicographicCons(a, b);
      }
    } else if a[0] < b[0] {
      assert a[..0] == b[..0];
    } else {
      LexicographicHeadGreater(a, b);
    }
  }

  lemma LexicographicTail(a: string, b: string)
    requires a != [] && b != [] && a[0] == b[0] && Lexicographic(a, b)
    ensures Lexicographic(a[1..], b[1..])
  {
    if !(a <= b) {
      var k :| 0 <= k < |a| && k < |b| && a[..k] == b[..k] && a[k] < b[k];
      assert k != 0;
      assert a[1..][..k - 1] == a[..k][1..];
      assert b[1..][..k - 1] == b[..k][1..];
      assert a[1..][k - 1] == a[k] && b[1..][k - 1] == b[k];
    }
  }

  lemma LexicographicCons(a: string, b: string)
    requires a != [] && b != [] && a[0] == b[0] && Lexicographic(a[1..], b[1..])
    ensures Lexicographic(a, b)
  {
    if a[1..] <= b[1..] {
      assert a == [a[0]] + a[1..];
      assert b == [b[0]] + b[1..];
    } else {
      var k :| 0 <= k < |a| - 1 && k < |b| - 1 && a[1..][..k] == b[1..][..k]
               && a[1..][k] < b[1..][k];
      assert a[..k + 1] == [a[0]] + a[1..][..k];
      assert b[..k + 1] == [b[0]] + b[1..][..k];
      assert a[k + 1] == a[1..][k] && b[k + 1] == b[1..][k];
    }
  }

  lemma LexicographicHeadGreater(a: string, b: string)
    requires a != [] && b != [] && a[0] > b[0]
    ensures !Lexicographic(a, b)
  {
    assert !(a <= b);
    forall k | 0 < k <= |a| && k <= |b|
      ensures a[..k] != b[..k]
    {
      assert a[..k][0] == a[0] && b[..k][0] == b[0];
    }
  }

  lemma {:induction false} LabelLeReflexive(a: string)
    ensures LabelLe(a, a)
    decreases |a|
  {
    if a != [] {
      LabelLeReflexive(a[1..]);
    }
  }

  lemma {:induction false} LabelLeTotal(a: string, b: string)
    ensures LabelLe(a, b) || LabelLe(b, a)
    decreases |a|
  {
    if a != [] && b != [] && a[0] == b[0] {
      LabelLeTotal(a[1..], b[1..]);
    }
  }

  lemma {:induction false} LabelLeAntisymmetric(a: string, b: string)
    requires LabelLe(a, b) && LabelLe(b, a)
    ensures a == b
    decreases |a|
  {
    if a != [] && b != [] {
      LabelLeAntisymmetric(a[1..], b[1..]);
      assert a == [a[0]] + a[1..] && b == [b[0]] + b[1..];
    }
  }

  lemma {:induction false} LabelLeTransitive(a: string, b: string, c: string)
    requires LabelLe(a, b) && LabelLe(b, c)
    ensures LabelLe(a, c)
    decreases |a|
  {
    if a != [] && b != [] && c != [] && a[0] == b[0] && b[0] == c[0] {
      LabelLeTransitive(a[1..], b[1..], c[1..]);
    }
  }

  /** Every earlier fact has a label at most that of every later fact. */
  ghost predicate SortedByLabel(t: Table) {
    forall i, j :: 0 <= i < j < |t| ==> LabelLe(t[i].ch, t[j].ch)
  }

  /** The facts of `t` labelled `c`, in their order in `t`. */
  function WithLabel(t: Table, c: string): Table {
    if t == [] then []
    else WithLabel(t[..|t| - 1], c) + (if t[|t| - 1].ch == c then [t[|t| - 1]] else [])
  }

  /** Insertion of one fact after every fact whose label is not larger. */
  function Insert(t: Table, f: Fact): Table
    decreases |t|
  {
    if t == [] || LabelLe(t[|t| - 1].ch, f.ch) then t + [f]
    else Insert(t[..|t| - 1], f) + [t[|t| - 1]]
  }

  /** The stable sort by label: it only reorders the facts, and the
      result is ordered by label. */
  function SortByLabel(t: Table): (sorted: Table)
    ensures multiset(sorted) == multiset(t)
    ensures SortedByLabel(sorted)
    decreases |t|
  {
    if t == [] then []
    else
      var s := SortByLabel(t[..|t| - 1]);
      InsertLast(t, s);
      Insert(s, t[|t| - 1])
  }

  /** Inserting the last fact into a sorted permutation of the others
      gives a sorted permutation of the whole table. */
  lemma InsertLast(t: Table, s: Table)
    requires t != [] && multiset(s) == multiset(t[..|t| - 1]) && SortedByLabel(s)
    ensures multiset(Insert(s, t[|t| - 1])) == multiset(t)
    ensures SortedByLabel(Insert(s, t[|t| - 1]))
  {
    InsertPermutes(s, t[|t| - 1]);
    InsertSorted(s, t[|t| - 1]);
    assert t == t[..|t| - 1] + [t[|t| - 1]];
  }

  lemma {:induction false} WithLabelAppend(a: Table, b: Table, c: string)
    ensures WithLabel(a + b, c) == WithLabel(a, c) + WithLabel(b, c)
    decreases |b|
  {
    if b != [] {
      assert (a + b)[..|a + b| - 1] == a + b[..|b| - 1];
      WithLabelAppend(a, b[..|b| - 1], c);
    } else {
      assert a + b == a;
    }
  }

  lemma {:induction false} InsertPermutes(t: Table, f: Fact)
    ensures multiset(Insert(t, f)) == multiset(t) + multiset{f}
    decreases |t|
  {
    if !(t == [] || LabelLe(t[|t| - 1].ch, f.ch)) {
      InsertPermutes(t[..|t| - 1], f);
      assert t == t[..|t| - 1] + [t[|t| - 1]];
    }
  }

  lemma {:induction false} InsertSorted(t: Table, f: Fact)
    requires SortedByLabel(t)
    ensures SortedByLabel(Insert(t, f))
    decreases |t|
  {
    var r := Insert(t, f);
    if t == [] {
    } else if LabelLe(t[|t| - 1].ch, f.ch) {
      forall i, j | 0 <= i < j < |r| ensures LabelLe(r[i].ch, r[j].ch) {
        if j == |t| && i < |t| - 1 {
          LabelLeTransitive(t[i].ch, t[|t| - 1].ch, f.ch);
        }
      }
    } else {
      var front, last := t[..|t| - 1], t[|t| - 1];
      InsertSorted(front, f);
      InsertPermutes(front, f);
      var r' := Insert(front, f);
      LabelLeTotal(last.ch, f.ch);
      forall i, j | 0 <= i < j < |r| ensures LabelLe(r[i].ch, r[j].ch) {
        if j == |r| - 1 {
          assert r[i] == r'[i];
          assert r'[i] in multiset(r');
          if r'[i] != f {
            assert r'[i] in multiset(front);
            var k :| 0 <= k < |front| && front[k] == r'[i];
            assert t[k] == front[k];
          }
        } else {
          assert r[i] == r'[i] && r[j] == r'[j];
        }
      }
    }
  }

  lemma WithLabelSingle(x: Fact, c: string)
    ensures WithLabel([x], c) == if x.ch == c then [x] else []
  {
    assert [x][..0] == [];
  }

  lemma SwapDisjoint(a: Table, x: Table, y: Table)
    requires x == [] || y == []
    ensures (a + x) + y == (a + y) + x
  {
    if x == [] {
      assert a + x == a && (a + y) + x == a + y;
    } else {
      assert a + y == a && (a + x) + y == a + x;
    }
  }

  lemma {:induction false} InsertStable(t: Table, f: Fact, c: string)
    ensures WithLabel(Insert(t, f), c) == WithLabel(t, c) + WithLabel([f], c)
    decreases |t|
  {
    if t == [] || LabelLe(t[|t| - 1].ch, f.ch) {
      WithLabelAppend(t, [f], c);
    } else {
      var front, last := t[..|t| - 1], t[|t| - 1];
      assert last.ch != f.ch by {
        LabelLeReflexive(f.ch);
      }
      InsertStable(front, f, c);
      StableStep(Insert(front, f), front, last, f, c);
      assert Insert(t, f) == Insert(front, f) + [last];
      assert t == front + [last];
    }
  }

  /** Appending a fact whose label differs from `f`'s on both sides keeps
      the facts labelled `c` in the same order. */
  lemma StableStep(ins: Table, front: Table, last: Fact, f: Fact, c: string)
    requires last.ch != f.ch
    requires WithLabel(ins, c) == WithLabel(front, c) + WithLabel([f], c)
    ensures WithLabel(ins + [last], c) == WithLabel(front + [last], c) + WithLabel([f], c)
  {
    WithLabelAppend(ins, [last], c);
    WithLabelAppend(front, [last], c);
    var wf, wl, wfront := WithLabel([f], c), WithLabel([last], c), WithLabel(front, c);
    WithLabelSingle(f, c);
    WithLabelSingle(last, c);
    SwapDisjoint(wfront, wf, wl);
  }

  /** The sort is stable: facts with the same label keep their order. */
  lemma {:induction false} SortByLabelStable(t: Table, c: string)
    ensures WithLabel(SortByLabel(t), c) == WithLabel(t, c)
    decreases |t|
  {
    if t != [] {
      var front, last := t[..|t| - 1], t[|t| - 1];
      SortByLabelStable(front, c);
      InsertStable(SortByLabel(front), last, c);
      assert WithLabel([last], c) == (if last.ch == c then [last] else []) by {
        assert [last][..0] == [];
      }
    }
  }

  lemma {:induction false} WithLabelHas(t: Table, f: Fact)
    requires f in t
    ensures WithLabel(t, f.ch) != []
    decreases |t|
  {
    if t[|t| - 1] != f {
      assert t == t[..|t| - 1] + [t[|t| - 1]];
      WithLabelHas(t[..|t| - 1], f);
    }
  }

  lemma {:induction false} WithLabelElems(t: Table, c: string)
    ensures forall g :: g in WithLabel(t, c) ==> g in t && g.ch == c
    decreases |t|
  {
    if t != [] {
      WithLabelElems(t[..|t| - 1], c);
      assert t == t[..|t| - 1] + [t[|t| - 1]];
    }
  }

  /** Dropping the first fact of a table drops the first of its label. */
  lemma {:induction false} WithLabelTail(t: Table, c: string)
    requires t != []
    ensures WithLabel(t, c) == (if t[0].ch == c then [t[0]] else []) + WithLabel(t[1..], c)
  {
    assert t == [t[0]] + t[1..];
    WithLabelAppend([t[0]], t[1..], c);
    assert [t[0]][..0] == [];
  }

  lemma FirstIsLeast(t: Table, f: Fact)
    requires SortedByLabel(t) && f in t
    ensures LabelLe(t[0].ch, f.ch)
  {
    var k :| 0 <= k < |t| && t[k] == f;
    if k == 0 {
      LabelLeReflexive(f.ch);
    }
  }

  lemma SortedTail(t: Table)
    requires SortedByLabel(t) && t != []
    ensures SortedByLabel(t[1..])
  {
    forall i, j | 0 <= i < j < |t| - 1 ensures LabelLe(t[1..][i].ch, t[1..][j].ch) {
      assert t[1..][i] == t[i + 1] && t[1..][j] == t[j + 1];
    }
  }

  /** Two sorted tables with the same facts per label start alike. */
  lemma {:induction false} SameHead(a: Table, b: Table)
    requires SortedByLabel(a) && SortedByLabel(b) && a != [] && b != []
    requires forall c :: WithLabel(a, c) == WithLabel(b, c)
    ensures a[0] == b[0]
  {
    var ca, cb := a[0].ch, b[0].ch;
    WithLabelHas(a, a[0]);
    WithLabelHas(b, b[0]);
    WithLabelElems(b, ca);
    WithLabelElems(a, cb);
    var ga := WithLabel(b, ca)[0];
    assert ga in WithLabel(a, ca);
    FirstIsLeast(b, ga);
    var gb := WithLabel(a, cb)[0];
    assert gb in WithLabel(b, cb);
    FirstIsLeast(a, gb);
    LabelLeAntisymmetric(ca, cb);
    WithLabelTail(a, ca);
    WithLabelTail(b, ca);
  }

  /** A sorted table is determined by the order of each label's facts, so
      every stable sort by label, Python's included, returns `SortByLabel`. */
  lemma {:induction false} StableSortUnique(a: Table, b: Table)
    requires SortedByLabel(a) && SortedByLabel(b)
    requires forall c :: WithLabel(a, c) == WithLabel(b, c)
    ensures a == b
    decreases |a|
  {
    if a == [] {
      if b != [] {
        WithLabelHas(b, b[0]);
      }
    } else if b == [] {
      WithLabelHas(a, a[0]);
    } else {
      SameHead(a, b);
      forall c ensures WithLabel(a[1..], c) == WithLabel(b[1..], c) {
        WithLabelTail(a, c);
        WithLabelTail(b, c);
        var head := if a[0].ch == c then [a[0]] else [];
        assert WithLabel(a, c) == WithLabel(b, c);
        assert WithLabel(a[1..], c) == WithLabel(a, c)[|head|..];
        assert WithLabel(b[1..], c) == WithLabel(b, c)[|head|..];
      }
      SortedTail(a);
      SortedTail(b);
      StableSortUnique(a[1..], b[1..]);
      assert a == [a[0]] + a[1..] && b == [b[0]] + b[1..];
    }
  }

  /** `SortByLabel` is the one stable sort by label: any sorted table that
      keeps every label's facts in input order equals it. */
  lemma SortByLabelIsTheStableSort(t: Table, r: Table)
    requires SortedByLabel(r)
    requires forall c :: WithLabel(r, c) == WithLabel(t, c)
    ensures r == SortByLabel(t)
  {
    forall c ensures WithLabel(SortByLabel(t), c) == WithLabel(r, c) {
      SortByLabelStable(t, c);
    }
    StableSortUnique(r, SortByLabel(t));
  }
}
