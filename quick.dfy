/** The quick matcher: every reference fact is compared, within a
    tolerance, against the outlines of the downloaded font's glyphs, and
    the first similar glyph is assigned the fact's label. */
module Quick {
  import opened Outcomes
  import opened Seqs
  import opened Facts

  /** A glyph of the downloaded font: its character code and outline. */
  datatype Glyph = Glyph(code: char, outline: Outline)

  /** The tolerance the matcher uses, in font units. */
  const Fuzz: int := 20

  function Abs(n: int): nat {
    if n < 0 then -n else n
  }

  /** Same number of points, and every pair of corresponding points is
      within `fuzz` in both coordinates (bounds inclusive). */
  ghost predicate Similar(a: Outline, b: Outline, fuzz: int) {
    |a| == |b| &&
    forall i :: 0 <= i < |a| ==> Abs(a[i].x - b[i].x) <= fuzz && Abs(a[i].y - b[i].y) <= fuzz
  }

  /** `is_glpyh_similar`: stops at the first point pair out of tolerance. */
  method IsGlyphSimilar(a: Outline, b: Outline, fuzz: int) returns (found: bool)
    ensures found <==> Similar(a, b, fuzz)
  {
    if |a| != |b| {
      return false;
    }
    found := true;
    for i := 0 to |a|
      invariant forall k :: 0 <= k < i ==> Abs(a[k].x - b[k].x) <= fuzz && Abs(a[k].y - b[k].y) <= fuzz
    {
      if Abs(a[i].x - b[i].x) > fuzz || Abs(a[i].y - b[i].y) > fuzz {
        found := false;
        break;
      }
    }
  }

  /** The glyphs that take part in matching: all but the placeholder. */
  function Pool(glyphs: seq<Glyph>): (pool: seq<Glyph>)
    ensures forall g :: g in pool <==> g in glyphs && g.code != PlaceholderCode
  {
    if glyphs == [] then []
    else (if glyphs[0].code != PlaceholderCode then [glyphs[0]] else []) + Pool(glyphs[1..])
  }

  /** The character codes of `glyphs`, in order. */
  function Codes(glyphs: seq<Glyph>): (codes: seq<char>)
    ensures |codes| == |glyphs| && forall i :: 0 <= i < |glyphs| ==> codes[i] == glyphs[i].code
  {
    if glyphs == [] then [] else [glyphs[0].code] + Codes(glyphs[1..])
  }

  /** The code of the first glyph in `pool` similar to `outline`, if any. */
  ghost function Target(pool: seq<Glyph>, outline: Outline): (r: Option<char>)
    ensures r.None? <==> forall k :: 0 <= k < |pool| ==> !Similar(outline, pool[k].outline, Fuzz)
    ensures r.Some? ==> r.value in Codes(pool)
  {
    if pool == [] then None
    else if Similar(outline, pool[0].outline, Fuzz) then Some(pool[0].code)
    else
      var r := Target(pool[1..], outline);
      assert forall k :: 1 <= k < |pool| ==> pool[k] == pool[1..][k - 1];
      assert r.Some? ==> r.value in Codes(pool[1..]) && Codes(pool) == [pool[0].code] + Codes(pool[1..]);
      r
  }

  /** What the scan assigns after processing `table` in order: each fact
      labels the first similar glyph, overwriting an earlier label. */
  ghost function QuickAssign(table: Table, pool: seq<Glyph>): map<char, string> {
    if table == [] then map[]
    else
      var out := QuickAssign(table[..|table| - 1], pool);
      var f := table[|table| - 1];
      match Target(pool, f.outline)
      case None => out
      case Some(c) => out[c := f.ch]
  }

  /** The second half of the quick matcher's answer. */
  datatype QuickStatus = Complete | Unresolved(codes: seq<char>)

  /** The first glyph (in pool order) found similar to `outline`: the
      inner loop of the scan, with its `break`. */
  method FirstSimilar(pool: seq<Glyph>, outline: Outline) returns (r: Option<char>)
    ensures r == Target(pool, outline)
  {
    for g := 0 to |pool|
      invariant forall k :: 0 <= k < g ==> !Similar(outline, pool[k].outline, Fuzz)
    {
      var sim := IsGlyphSimilar(outline, pool[g].outline, Fuzz);
      if sim {
        TargetIsFirst(pool, outline, g);
        return Some(pool[g].code);
      }
    }
    return None;
  }

  lemma {:induction false} TargetIsFirst(pool: seq<Glyph>, outline: Outline, g: nat)
    requires g < |pool| && Similar(outline, pool[g].outline, Fuzz)
    requires forall k :: 0 <= k < g ==> !Similar(outline, pool[k].outline, Fuzz)
    ensures Target(pool, outline) == Some(pool[g].code)
  {
    if g > 0 {
      TargetIsFirst(pool[1..], outline, g - 1);
    }
  }

  /** `match_jjwxc_font` of the quick matcher, given the loaded reference
      table and the font's glyphs (distinct codes, as the keys of a dict).
      The placeholder is dropped; every reference fact labels the first
      similar remaining glyph; the status is complete iff every remaining
      glyph got a label, and otherwise lists all remaining codes. */
  method MatchJjwxcFont(table: Table, glyphs: seq<Glyph>) returns (out: map<char, string>, status: QuickStatus)
    requires Distinct(Codes(glyphs))
    ensures out == QuickAssign(table, Pool(glyphs))
    ensures status == Complete <==> forall g :: g in Pool(glyphs) ==> g.code in out
    ensures status != Complete ==> status == Unresolved(Codes(Pool(glyphs)))
  {
    var pool := Pool(glyphs);
    out := map[];
    for t := 0 to |table|
      invariant out == QuickAssign(table[..t], pool)
    {
      var item := table[t];
      var c := FirstSimilar(pool, item.outline);
      assert table[..t + 1][..t] == table[..t];
      if c.Some? {
        out := out[c.value := item.ch];
      }
    }
    assert table[..|table|] == table;
    PoolDistinct(glyphs);
    CompleteIffAllAssigned(table, pool);
    if |pool| == |out| {
      status := Complete;
    } else {
      status := Unresolved(Codes(pool));
    }
  }

  /** The pool keeps the codes distinct. */
  lemma {:induction false} PoolDistinct(glyphs: seq<Glyph>)
    requires Distinct(Codes(glyphs))
    ensures Distinct(Codes(Pool(glyphs)))
  {
    if glyphs != [] {
      var g, tail := glyphs[0], glyphs[1..];
      assert Codes(glyphs) == [g.code] + Codes(tail);
      DistinctCons(g.code, Codes(tail));
      PoolDistinct(tail);
      var p := Pool(tail);
      if g.code != PlaceholderCode {
        assert Pool(glyphs) == [g] + p;
        assert ([g] + p)[1..] == p;
        assert Codes(Pool(glyphs)) == [g.code] + Codes(p);
        forall k | 0 <= k < |p| ensures Codes(p)[k] != g.code {
          assert p[k] in p;
          CodeIn(tail, p[k]);
        }
        DistinctCons(g.code, Codes(p));
      } else {
        assert Pool(glyphs) == p;
      }
    }
  }

  /** A glyph's code occurs among the codes of any sequence holding it. */
  lemma CodeIn(glyphs: seq<Glyph>, g: Glyph)
    requires g in glyphs
    ensures g.code in Codes(glyphs)
  {
    var k :| 0 <= k < |glyphs| && glyphs[k] == g;
    assert Codes(glyphs)[k] == g.code;
  }

  /** Every assigned code belongs to a pool glyph, and every assigned
      label is the label of some reference fact. */
  lemma {:induction false} QuickAssignRange(table: Table, pool: seq<Glyph>)
    ensures forall c :: c in QuickAssign(table, pool) ==> c in Codes(pool)
    ensures forall c :: c in QuickAssign(table, pool) ==>
              exists i :: 0 <= i < |table| && table[i].ch == QuickAssign(table, pool)[c]
  {
    if table != [] {
      var n := |table| - 1;
      var front := table[..n];
      QuickAssignRange(front, pool);
      var prev := QuickAssign(front, pool);
      var last := Target(pool, table[n].outline);
      var out := QuickAssign(table, pool);
      assert out == if last.Some? then prev[last.value := table[n].ch] else prev;
      forall c | c in out
        ensures c in Codes(pool)
        ensures exists i :: 0 <= i < |table| && table[i].ch == out[c]
      {
        if last == Some(c) {
          assert table[n].ch == out[c];
        } else {
          assert c in prev && out[c] == prev[c];
          var i :| 0 <= i < |front| && front[i].ch == prev[c];
          assert table[i] == front[i];
        }
      }
    }
  }

  /** The placeholder code is never assigned. */
  lemma PlaceholderNeverAssigned(table: Table, glyphs: seq<Glyph>)
    ensures PlaceholderCode !in QuickAssign(table, Pool(glyphs))
  {
    var p := Pool(glyphs);
    QuickAssignRange(table, p);
    forall k | 0 <= k < |p| ensures Codes(p)[k] != PlaceholderCode {
      assert p[k] in p;
    }
  }

  /** One step of the scan: the last fact labels its first similar glyph. */
  lemma QuickAssignStep(table: Table, pool: seq<Glyph>)
    requires table != []
    ensures var last := Target(pool, table[|table| - 1].outline);
            var prev := QuickAssign(table[..|table| - 1], pool);
            QuickAssign(table, pool) == if last.Some? then prev[last.value := table[|table| - 1].ch] else prev
  {
  }

  /** A code is assigned exactly when some fact's first similar glyph has
      it. */
  lemma {:induction false} AssignedIff(table: Table, pool: seq<Glyph>, c: char)
    ensures c in QuickAssign(table, pool) <==>
              exists i :: 0 <= i < |table| && Target(pool, table[i].outline) == Some(c)
  {
    if table != [] {
      var n := |table| - 1;
      var front := table[..n];
      AssignedIff(front, pool, c);
      var last := Target(pool, table[n].outline);
      assert c in QuickAssign(table, pool) <==> c in QuickAssign(front, pool) || last == Some(c);
      if c in QuickAssign(table, pool) {
        if last != Some(c) {
          var i :| 0 <= i < |front| && Target(pool, front[i].outline) == Some(c);
          assert table[i] == front[i];
        }
      } else {
        forall i | 0 <= i < |table| ensures Target(pool, table[i].outline) != Some(c) {
          if i < n {
            assert table[i] == front[i];
          }
        }
      }
    }
  }

  /** An assigned code carries the label of the last fact whose first
      similar glyph has it: assigned glyphs are not retired, later facts
      overwrite. */
  lemma {:induction false} LastWriterWins(table: Table, pool: seq<Glyph>, c: char, i: nat)
    requires i < |table| && Target(pool, table[i].outline) == Some(c)
    requires forall j :: i < j < |table| ==> Target(pool, table[j].outline) != Some(c)
    ensures c in QuickAssign(table, pool) && QuickAssign(table, pool)[c] == table[i].ch
  {
    var n := |table| - 1;
    var front := table[..n];
    QuickAssignStep(table, pool);
    if i < n {
      assert front[i] == table[i];
      forall j | i < j < |front| ensures Target(pool, front[j].outline) != Some(c) {
        assert front[j] == table[j];
      }
      LastWriterWins(front, pool, c, i);
      assert Target(pool, table[n].outline) != Some(c);
    }
  }

  /** With distinct pool codes, equal sizes of the assignment and the
      pool mean every pool glyph is assigned. */
  lemma CompleteIffAllAssigned(table: Table, pool: seq<Glyph>)
    requires Distinct(Codes(pool))
    ensures |pool| == |QuickAssign(table, pool)| <==> forall g :: g in pool ==> g.code in QuickAssign(table, pool)
  {
    var out := QuickAssign(table, pool);
    QuickAssignRange(table, pool);
    DistinctCard(Codes(pool));
    var codes := Elems(Codes(pool));
    assert out.Keys <= codes;
    if forall g :: g in pool ==> g.code in out {
      forall c | c in codes ensures c in out.Keys {
        var k :| 0 <= k < |pool| && Codes(pool)[k] == c;
        assert pool[k] in pool;
      }
      assert out.Keys == codes;
    }
    if |pool| == |out| {
      assert |out.Keys| == |codes|;
      SubsetSameSize(out.Keys, codes);
      forall g | g in pool ensures g.code in out {
        var k :| 0 <= k < |pool| && pool[k] == g;
        assert Codes(pool)[k] in codes;
      }
    }
  }

  lemma SubsetSameSize<T>(a: set<T>, b: set<T>)
    requires a <= b && |a| == |b|
    ensures a == b
  {
    assert b * a == a;
    assert |b - a| == 0;
    assert b - a == {};
    assert b <= a;
  }

  // ---------------------------------------------------------------------
  // The tolerance

  /** Similarity is symmetric, reflexive for a non-negative tolerance, and
      implied by exact equality. */
  lemma SimilarIsTolerance(a: Outline, b: Outline, fuzz: int)
    ensures Similar(a, b, fuzz) <==> Similar(b, a, fuzz)
    ensures fuzz >= 0 ==> Similar(a, a, fuzz)
    ensures fuzz >= 0 && a == b ==> Similar(a, b, fuzz)
  {
    if Similar(a, b, fuzz) {
      forall i | 0 <= i < |b| ensures Abs(b[i].x - a[i].x) <= fuzz && Abs(b[i].y - a[i].y) <= fuzz {
        assert Abs(a[i].x - b[i].x) <= fuzz && Abs(a[i].y - b[i].y) <= fuzz;
      }
    }
    if Similar(b, a, fuzz) {
      forall i | 0 <= i < |a| ensures Abs(a[i].x - b[i].x) <= fuzz && Abs(a[i].y - b[i].y) <= fuzz {
        assert Abs(b[i].x - a[i].x) <= fuzz && Abs(b[i].y - a[i].y) <= fuzz;
      }
    }
    if fuzz >= 0 {
      assert Abs(0) == 0;
    }
  }

  /** The bound is inclusive: a difference of exactly the tolerance
      passes, one more fails. */
  lemma ToleranceBoundary(x: int, y: int)
    ensures Similar([Point(x, y)], [Point(x + Fuzz, y - Fuzz)], Fuzz)
    ensures !Similar([Point(x, y)], [Point(x + Fuzz + 1, y)], Fuzz)
    ensures !Similar([Point(x, y)], [Point(x, y), Point(x, y)], Fuzz)
  {
    var a, b, c := [Point(x, y)], [Point(x + Fuzz, y - Fuzz)], [Point(x + Fuzz + 1, y)];
    assert Abs(a[0].x - b[0].x) == Fuzz && Abs(a[0].y - b[0].y) == Fuzz;
    assert Abs(a[0].x - c[0].x) == Fuzz + 1;
  }

  /** Glyphs are not retired: when two facts with different labels are
      both similar to the only glyph, the later label is the one kept. */
  lemma LaterFactOverwrites(code: char, o: Outline, first: string, second: string)
    requires code != PlaceholderCode
    ensures QuickAssign([Fact(first, o), Fact(second, o)], Pool([Glyph(code, o)])) == map[code := second]
  {
    SimilarIsTolerance(o, o, Fuzz);
    var pool := Pool([Glyph(code, o)]);
    var g := [Glyph(code, o)];
    assert g[1..] == [];
    assert Pool(g[1..]) == [];
    assert pool == [Glyph(code, o)] + [];
    TargetIsFirst(pool, o, 0);
    var t := [Fact(first, o), Fact(second, o)];
    assert t[..1] == [Fact(first, o)];
    assert [Fact(first, o)][..0] == [];
    assert QuickAssign(t[..1], pool) == map[code := first];
    assert QuickAssign(t, pool) == map[code := first][code := second];
  }
}
