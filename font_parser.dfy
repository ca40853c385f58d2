/** The font service: font-name validation, the HTTP-like status of a
    lookup, the quick-then-slow resolution of a downloaded font that
    teaches the local coordinate table what it learns, the store of
    resolved fonts, and the start-up check of the reference-image caches.
    Downloading, the database and rendering are parameters. */
module FontParser {
  import opened Outcomes
  import opened Seqs
  import opened Facts
  import opened LabelSort
  import opened CoorTable
  import opened Quick
  import opened Slow

  // ---------------------------------------------------------------------
  // Font names

  /** The prefix every served font name carries. */
  const FontPrefix := "jjwxcfont_"

  /** A character matched by the regular expression class `\w`, restricted
      to ASCII: a letter, a digit or the underscore. */
  predicate IsWordChar(ch: char) {
    'a' <= ch <= 'z' || 'A' <= ch <= 'Z' || '0' <= ch <= '9' || ch == '_'
  }

  /** `re.match(r'^\w{5}$', t)`: five word characters, where `$` also
      accepts one trailing newline. */
  predicate MatchesFiveWordChars(t: string) {
    (|t| == 5 || (|t| == 6 && t[5] == '\n'))
    && forall i :: 0 <= i < 5 ==> IsWordChar(t[i])
  }

  /** `validator`: fifteen characters, the prefix, and five word
      characters once every occurrence of the prefix is removed. A name is
      valid exactly when it is the prefix followed by five word characters;
      the trailing-newline case of `$` cannot arise. */
  predicate Validator(name: string): (valid: bool)
    ensures valid <==>
              |name| == 15 && name[..10] == FontPrefix
              && forall i :: 10 <= i < 15 ==> IsWordChar(name[i])
  {
    StripPrefix(name);
    |name| == 15
    && name[..|FontPrefix|] == FontPrefix
    && MatchesFiveWordChars(ReplaceAll(name, FontPrefix, ""))
  }

  /** Removing the prefix from a fifteen-character name that starts with it
      leaves its last five characters, which no other occurrence overlaps. */
  lemma StripPrefix(name: string)
    ensures |name| == 15 && name[..10] == FontPrefix ==>
              ReplaceAll(name, FontPrefix, "") == name[10..]
              && (MatchesFiveWordChars(ReplaceAll(name, FontPrefix, "")) <==>
                  forall i :: 10 <= i < 15 ==> IsWordChar(name[i]))
  {
    if |name| == 15 && name[..10] == FontPrefix {
      var rest := name[10..];
      assert ReplaceAll(rest, FontPrefix, "") == rest;
      assert ReplaceAll(name, FontPrefix, "") == rest;
      assert forall i :: 10 <= i < 15 ==> name[i] == rest[i - 10];
    }
  }

  /** Every character of a valid name is an ASCII letter, a digit or the
      underscore, so no quote, backslash or path separator gets through. */
  lemma ValidNamesAreWords(name: string)
    requires Validator(name)
    ensures forall i :: 0 <= i < |name| ==> IsWordChar(name[i])
    ensures '\'' !in name && '"' !in name && '\\' !in name && '/' !in name
  {
    forall i | 0 <= i < 10 ensures IsWordChar(name[i]) {
      assert name[i] == FontPrefix[i];
    }
  }

  /** The names the service accepts and refuses in its own examples. */
  lemma ExampleNames()
    ensures Validator("jjwxcfont_2o8eo") && Validator("jjwxcfont_2odzt")
    ensures Validator("jjwxcfont_3o8eo")
    ensures !Validator("jjwxcfont_3o8ddeo") && !Validator("jjwxcfont_3o8ddedsafo")
    ensures !Validator("jjwxcfont_2o\\8eo") && !Validator("jjwxlcfont_2o8eo")
    ensures !Validator("jjwxcfon_3o8eo") && !Validator("jjwxcfont__3odzt")
    ensures !Validator("2o8eo_kf") && !Validator("jjwxcfont_2o'8eo")
    ensures !Validator("jjwxcfont_2o\"\\dzt")
    ensures !Validator("jjwxcfont_3o8eo_") && !Validator("jjwxcfon__3odzt")
  {
    assert "jjwxcfon__3odzt"[..10][8] == '_';
  }

  // ---------------------------------------------------------------------
  // Resolving a downloaded font

  /** What the download gives: its status text, the glyph outlines of the
      font file, and the font's rendering of a character. */
  datatype Download = Download(status: string, glyphs: seq<Glyph>, render: char -> Image)

  /** The answer to a request: the character table of a font, a refusal
      with a status code, or a comparison error the service does not
      catch. */
  datatype Reply = Served(table: map<char, string>) | Status(code: nat) | Failed(error: ImageMatchError)

  /** The outline of the glyph with code `c`. */
  function OutlineOf(glyphs: seq<Glyph>, c: char): (o: Outline)
    requires c in Codes(glyphs)
    ensures exists g :: g in glyphs && g.code == c && g.outline == o
  {
    if glyphs[0].code == c then glyphs[0].outline
    else
      assert forall k :: 1 <= k < |glyphs| ==> Codes(glyphs)[k] == Codes(glyphs[1..])[k - 1];
      OutlineOf(glyphs[1..], c)
  }

  /** Codes of the matching pool are codes of the font. */
  lemma PoolCodes(glyphs: seq<Glyph>)
    ensures forall c :: c in Codes(Pool(glyphs)) ==> c in Codes(glyphs)
  {
    forall c | c in Codes(Pool(glyphs)) ensures c in Codes(glyphs) {
      var pool := Pool(glyphs);
      var i :| 0 <= i < |pool| && Codes(pool)[i] == c;
      assert pool[i] in glyphs;
      var j :| 0 <= j < |glyphs| && glyphs[j] == pool[i];
      assert Codes(glyphs)[j] == c;
    }
  }

  /** The slow matcher's label for one character: the best candidate of
      the current table's candidates, or the comparison error. */
  ghost function SlowLabel(d: Download, x: char, stdRender: string -> Image, coor: Table)
    : Result<string, ImageMatchError>
  {
    match ScanGuests(d.render(x), stdRender, GuestRange(SortByLabel(coor)))
    case Err(e) => Err(e)
    case Ok(s) => Ok(s.best)
  }

  /** The local table file, the character table, and the error that
      stopped learning, if any. */
  datatype Learning = Learning(coor: Table, table: map<char, string>, failure: Option<ImageMatchError>)

  /** The learning loop over the unresolved codes in order: a code
      without a label is matched by the slow matcher against the current
      table's candidates; the label goes into the character table, and
      the fact (label, outline of the glyph) is appended to the sorted
      table, which is deduplicated and written back. An error stops the
      loop with what has been written so far. */
  ghost function Learn(coor: Table, table: map<char, string>, codes: seq<char>, d: Download,
                       stdRender: string -> Image): Learning
    requires forall x :: x in codes ==> x in Codes(d.glyphs)
    decreases |codes|
  {
    if codes == [] then Learning(coor, table, None)
    else
      var x := codes[0];
      if x in table then Learn(coor, table, codes[1..], d, stdRender)
      else match SlowLabel(d, x, stdRender, coor)
        case Err(e) => Learning(coor, table, Some(e))
        case Ok(best) => Learn(LearnNext(coor, x, best, d), table[x := best], codes[1..], d, stdRender)
  }

  /** The table written after learning that glyph `x` shows `best`: the
      sorted table with the new fact appended, deduplicated. */
  function LearnNext(coor: Table, x: char, best: string, d: Download): Table
    requires x in Codes(d.glyphs)
  {
    Dedup(SortByLabel(coor) + [Fact(best, OutlineOf(d.glyphs, x))])
  }

  /** The written table is duplicate-free, keeps every old fact and holds
      the new one, and nothing else. */
  lemma LearnNextFacts(coor: Table, x: char, best: string, d: Download)
    requires x in Codes(d.glyphs)
    ensures var next := LearnNext(coor, x, best, d);
            Distinct(next)
            && forall f :: f in next <==> f in coor || f == Fact(best, OutlineOf(d.glyphs, x))
  {
    var extended := SortByLabel(coor) + [Fact(best, OutlineOf(d.glyphs, x))];
    DedupDistinctElems(extended);
    assert forall f :: f in coor <==> f in multiset(SortByLabel(coor));
  }

  /** `_match_jjwxc_font` after the download: the local table file and
      the reply. A complete quick match answers at once; otherwise every
      pool code the quick matcher missed is learned. */
  ghost function ResolveSpec(coor: Table, d: Download, stdRender: string -> Image): (Table, Reply) {
    if d.status == "OK" then
      var pool := Pool(d.glyphs);
      var quick := QuickAssign(SortByLabel(coor), pool);
      if forall g :: g in pool ==> g.code in quick then (coor, Served(quick))
      else
        PoolCodes(d.glyphs);
        var l := Learn(coor, quick, Codes(pool), d, stdRender);
        (l.coor, if l.failure.Some? then Failed(l.failure.value) else Served(l.table))
    else if d.status == "404" then (coor, Status(404))
    else (coor, Status(503))
  }

  /** One step of the learning loop: a code that already has a label is
      skipped; otherwise the slow matcher's error stops the loop, and its
      label is recorded before the rest of the codes. */
  lemma LearnStep(coor: Table, table: map<char, string>, codes: seq<char>, d: Download,
                  stdRender: string -> Image)
    requires codes != [] && forall x :: x in codes ==> x in Codes(d.glyphs)
    ensures codes[0] in table ==>
              Learn(coor, table, codes, d, stdRender) == Learn(coor, table, codes[1..], d, stdRender)
    ensures codes[0] !in table && SlowLabel(d, codes[0], stdRender, coor).Err? ==>
              Learn(coor, table, codes, d, stdRender)
              == Learning(coor, table, Some(SlowLabel(d, codes[0], stdRender, coor).error))
    ensures codes[0] !in table && SlowLabel(d, codes[0], stdRender, coor).Ok? ==>
              var best := SlowLabel(d, codes[0], stdRender, coor).value;
              Learn(coor, table, codes, d, stdRender)
              == Learn(LearnNext(coor, codes[0], best, d), table[codes[0] := best], codes[1..], d, stdRender)
  {
  }

  /** The service's persistent state: the local coordinate table file and
      the database of resolved fonts (name to character table). */
  class FontService {
    var coorTable: Table
    var fonts: map<string, map<char, string>>

    constructor (coorTable: Table, fonts: map<string, map<char, string>>)
      ensures this.coorTable == coorTable && this.fonts == fonts
    {
      this.coorTable := coorTable;
      this.fonts := fonts;
    }

    /** The loop of `_match_jjwxc_font` over the codes the quick matcher
        left unresolved. */
    method LearnCodes(codes: seq<char>, table0: map<char, string>, d: Download, stdRender: string -> Image)
      returns (table: map<char, string>, failure: Option<ImageMatchError>)
      requires forall x :: x in codes ==> x in Codes(d.glyphs)
      modifies this
      ensures Learning(coorTable, table, failure) == Learn(old(coorTable), table0, codes, d, stdRender)
      ensures fonts == old(fonts)
    {
      table := table0;
      for i := 0 to |codes|
        invariant fonts == old(fonts)
        invariant Learn(coorTable, table, codes[i..], d, stdRender)
                  == Learn(old(coorTable), table0, codes, d, stdRender)
      {
        var x := codes[i];
        LearnStep(coorTable, table, codes[i..], d, stdRender);
        assert codes[i..][1..] == codes[i + 1..];
        if x !in table {
          var slowTable := MatchOneCharacter(d.render, x, stdRender, [], SortByLabel(coorTable));
          OneCharacterResult(d.render, x, stdRender, GuestRange(SortByLabel(coorTable)));
          if slowTable.Err? {
            return table, Some(slowTable.error);
          }
          var best := slowTable.value[x];
          table := table[x := best];
          var local := SortByLabel(coorTable);
          var extended := local + [Fact(best, OutlineOf(d.glyphs, x))];
          coorTable := DeduplicateCoorTable(extended);
        }
      }
      return table, None;
    }

    /** `_match_jjwxc_font`, given the download's result. */
    method ResolveDownload(d: Download, stdRender: string -> Image) returns (reply: Reply)
      requires Distinct(Codes(d.glyphs))
      modifies this
      ensures (coorTable, reply) == ResolveSpec(old(coorTable), d, stdRender)
      ensures fonts == old(fonts)
    {
      if d.status == "OK" {
        var table, status := Quick.MatchJjwxcFont(SortByLabel(coorTable), d.glyphs);
        if status != Complete {
          PoolCodes(d.glyphs);
          var failure;
          table, failure := LearnCodes(status.codes, table, d, stdRender);
          if failure.Some? {
            return Failed(failure.value);
          }
        }
        return Served(table);
      } else if d.status == "404" {
        return Status(404);
      } else {
        return Status(503);
      }
    }

    /** `match_jjwxc_font`: an invalid name is refused with 403 before
        anything is looked up; a stored font is served from the database;
        otherwise the downloaded font is resolved, and a resolved font is
        stored under its name and served from there. */
    method MatchJjwxcFont(name: string, d: Download, stdRender: string -> Image) returns (reply: Reply)
      requires Distinct(Codes(d.glyphs))
      modifies this
      ensures !Validator(name) ==>
                reply == Status(403) && coorTable == old(coorTable) && fonts == old(fonts)
      ensures Validator(name) && name in old(fonts) ==>
                reply == Served(old(fonts)[name]) && coorTable == old(coorTable) && fonts == old(fonts)
      ensures Validator(name) && name !in old(fonts) ==>
                var (coor, r) := ResolveSpec(old(coorTable), d, stdRender);
                coorTable == coor && reply == r
                && fonts == if r.Served? then old(fonts)[name := r.table] else old(fonts)
    {
      if !Validator(name) {
        return Status(403);
      }
      if name in fonts {
        return Served(fonts[name]);
      }
      reply := ResolveDownload(d, stdRender);
      if reply.Served? {
        fonts := fonts[name := reply.table];
        reply := Served(fonts[name]);
      }
    }
  }

  // ---------------------------------------------------------------------
  // What resolution promises

  /** Labels already in the character table are never changed, and every
      key of the result was either there before or one of the codes. */
  lemma {:induction false} LearnKeepsTable(coor: Table, table: map<char, string>, codes: seq<char>,
                                           d: Download, stdRender: string -> Image)
    requires forall x :: x in codes ==> x in Codes(d.glyphs)
    ensures var l := Learn(coor, table, codes, d, stdRender);
            (forall c :: c in table ==> c in l.table && l.table[c] == table[c])
            && (forall c :: c in l.table ==> c in table || c in codes)
    decreases |codes|
  {
    if codes != [] {
      var x, rest := codes[0], codes[1..];
      assert forall y :: y in rest ==> y in codes;
      LearnStep(coor, table, codes, d, stdRender);
      var r := SlowLabel(d, x, stdRender, coor);
      if x in table {
        LearnKeepsTable(coor, table, rest, d, stdRender);
      } else if r.Ok? {
        LearnKeepsTable(LearnNext(coor, x, r.value, d), table[x := r.value], rest, d, stdRender);
      }
    }
  }

  /** When learning finishes without an error, every code has a label. */
  lemma {:induction false} LearnCovers(coor: Table, table: map<char, string>, codes: seq<char>,
                                       d: Download, stdRender: string -> Image)
    requires forall x :: x in codes ==> x in Codes(d.glyphs)
    requires Learn(coor, table, codes, d, stdRender).failure.None?
    ensures forall x :: x in codes ==> x in Learn(coor, table, codes, d, stdRender).table
    decreases |codes|
  {
    if codes != [] {
      var x, rest := codes[0], codes[1..];
      assert forall y :: y in codes ==> y == x || y in rest;
      LearnStep(coor, table, codes, d, stdRender);
      var r := SlowLabel(d, x, stdRender, coor);
      if x in table {
        LearnCovers(coor, table, rest, d, stdRender);
        LearnKeepsTable(coor, table, rest, d, stdRender);
      } else {
        assert r.Ok?;
        var next := LearnNext(coor, x, r.value, d);
        LearnCovers(next, table[x := r.value], rest, d, stdRender);
        LearnKeepsTable(next, table[x := r.value], rest, d, stdRender);
      }
    }
  }

  /** No fact of the local table is ever lost: appending and
      deduplicating keeps every fact once. */
  lemma {:induction false} LearnKeepsFacts(coor: Table, table: map<char, string>, codes: seq<char>,
                                           d: Download, stdRender: string -> Image)
    requires forall x :: x in codes ==> x in Codes(d.glyphs)
    ensures forall f :: f in coor ==> f in Learn(coor, table, codes, d, stdRender).coor
    decreases |codes|
  {
    if codes != [] {
      var x, rest := codes[0], codes[1..];
      assert forall y :: y in rest ==> y in codes;
      LearnStep(coor, table, codes, d, stdRender);
      var r := SlowLabel(d, x, stdRender, coor);
      if x in table {
        LearnKeepsFacts(coor, table, rest, d, stdRender);
      } else if r.Ok? {
        LearnNextFacts(coor, x, r.value, d);
        LearnKeepsFacts(LearnNext(coor, x, r.value, d), table[x := r.value], rest, d, stdRender);
      }
    }
  }

  /** Every learned label is written to the local table together with
      the outline of the glyph it names. */
  lemma {:induction false} LearnRecords(coor: Table, table: map<char, string>, codes: seq<char>,
                                        d: Download, stdRender: string -> Image)
    requires forall x :: x in codes ==> x in Codes(d.glyphs)
    ensures var l := Learn(coor, table, codes, d, stdRender);
            forall x :: x in codes && x in l.table && x !in table ==> Fact(l.table[x], OutlineOf(d.glyphs, x)) in l.coor
    decreases |codes|
  {
    if codes != [] {
      var x, rest := codes[0], codes[1..];
      assert forall y :: y in rest ==> y in codes;
      assert forall y :: y in codes ==> y == x || y in rest;
      LearnStep(coor, table, codes, d, stdRender);
      var r := SlowLabel(d, x, stdRender, coor);
      if x in table {
        LearnRecords(coor, table, rest, d, stdRender);
      } else if r.Ok? {
        var next, table' := LearnNext(coor, x, r.value, d), table[x := r.value];
        var l := Learn(next, table', rest, d, stdRender);
        LearnNextFacts(coor, x, r.value, d);
        LearnRecords(next, table', rest, d, stdRender);
        LearnKeepsFacts(next, table', rest, d, stdRender);
        LearnKeepsTable(next, table', rest, d, stdRender);
        forall y | y in codes && y in l.table && y !in table
          ensures Fact(l.table[y], OutlineOf(d.glyphs, y)) in l.coor
        {
          if y == x {
            assert l.table[x] == r.value;
            assert Fact(r.value, OutlineOf(d.glyphs, x)) in next;
          } else {
            assert y in rest && y !in table';
          }
        }
      }
    }
  }

  /** The table is either left as it was or written back duplicate-free. */
  lemma {:induction false} LearnWritesDistinct(coor: Table, table: map<char, string>, codes: seq<char>,
                                               d: Download, stdRender: string -> Image)
    requires forall x :: x in codes ==> x in Codes(d.glyphs)
    ensures var l := Learn(coor, table, codes, d, stdRender);
            l.coor == coor || Distinct(l.coor)
    decreases |codes|
  {
    if codes != [] {
      var x, rest := codes[0], codes[1..];
      assert forall y :: y in rest ==> y in codes;
      LearnStep(coor, table, codes, d, stdRender);
      var r := SlowLabel(d, x, stdRender, coor);
      if x in table {
        LearnWritesDistinct(coor, table, rest, d, stdRender);
      } else if r.Ok? {
        LearnNextFacts(coor, x, r.value, d);
        LearnWritesDistinct(LearnNext(coor, x, r.value, d), table[x := r.value], rest, d, stdRender);
      }
    }
  }

  /** The status of the reply follows the download's status, and only a
      successful download can change the local table. */
  lemma ResolveStatus(coor: Table, d: Download, stdRender: string -> Image)
    ensures ResolveSpec(coor, d, stdRender).1 == Status(404) <==> d.status == "404"
    ensures ResolveSpec(coor, d, stdRender).1 == Status(503) <==> d.status != "OK" && d.status != "404"
    ensures ResolveSpec(coor, d, stdRender).1.Status? <==> d.status != "OK"
    ensures d.status != "OK" ==> ResolveSpec(coor, d, stdRender).0 == coor
  {
  }

  /** A complete quick match is served as it is, and the local table is
      not written. */
  lemma ResolveComplete(coor: Table, d: Download, stdRender: string -> Image)
    requires d.status == "OK"
    requires forall g :: g in Pool(d.glyphs) ==> g.code in QuickAssign(SortByLabel(coor), Pool(d.glyphs))
    ensures ResolveSpec(coor, d, stdRender) == (coor, Served(QuickAssign(SortByLabel(coor), Pool(d.glyphs))))
  {
  }

  /** A served font labels every glyph but the placeholder, keeps every
      label of the quick matcher, and the local table keeps all its facts,
      gains the learned ones, and is left as it was or written back
      duplicate-free. */
  lemma ResolveServed(coor: Table, d: Download, stdRender: string -> Image)
    requires d.status == "OK" && ResolveSpec(coor, d, stdRender).1.Served?
    ensures var (written, reply) := ResolveSpec(coor, d, stdRender);
            var quick := QuickAssign(SortByLabel(coor), Pool(d.glyphs));
            (forall g :: g in Pool(d.glyphs) ==> g.code in reply.table)
            && (forall c :: c in quick ==> c in reply.table && reply.table[c] == quick[c])
            && (forall c :: c in Codes(d.glyphs) && c in reply.table && c !in quick ==>
                  Fact(reply.table[c], OutlineOf(d.glyphs, c)) in written)
            && (forall f :: f in coor ==> f in written)
            && (written == coor || Distinct(written))
  {
    var pool := Pool(d.glyphs);
    var quick := QuickAssign(SortByLabel(coor), pool);
    if !(forall g :: g in pool ==> g.code in quick) {
      PoolCodes(d.glyphs);
      var codes := Codes(pool);
      LearnCovers(coor, quick, codes, d, stdRender);
      LearnKeepsTable(coor, quick, codes, d, stdRender);
      LearnRecords(coor, quick, codes, d, stdRender);
      LearnKeepsFacts(coor, quick, codes, d, stdRender);
      LearnWritesDistinct(coor, quick, codes, d, stdRender);
      forall g | g in pool ensures g.code in codes {
        var i :| 0 <= i < |pool| && pool[i] == g;
        assert codes[i] == g.code;
      }
    }
  }

  // ---------------------------------------------------------------------
  // Reference-image caches at start-up

  /** The two reference fonts whose renderings are cached. */
  const ReferenceFonts := ["Source Han Sans SC Normal", "Source Han Sans SC Regular"]

  /** The loaded caches of one reference font: rendered images and ink
      rates, by candidate text. */
  datatype StdCache = StdCache(images: map<string, Image>, rates: map<string, real>)

  /** The two cache files of a reference font: whether each path exists,
      and what loading them gives (`None` when loading raises). */
  datatype CacheFiles = CacheFiles(npzExists: bool, jsonExists: bool, loaded: Option<StdCache>)

  /** The cache is usable: both files exist, load, and hold an image and a
      rate for every candidate. */
  predicate CacheValid(guest: seq<string>, cache: CacheFiles) {
    cache.npzExists && cache.jsonExists && cache.loaded.Some?
    && forall k :: k in guest ==> k in cache.loaded.value.images && k in cache.loaded.value.rates
  }

  /** The candidates `check` requires: those of the coordinate table and
      the commonly used characters, in any order. */
  ghost predicate IsCheckRange(guest: seq<string>, coor: Table, common: seq<string>) {
    forall k :: k in guest <==> k in GuestRange(SortByLabel(coor)) || k in common
  }

  /** `check`: false at the first missing file, failed load or missing
      candidate. */
  method Check(guest: seq<string>, cache: CacheFiles) returns (ok: bool)
    ensures ok <==> CacheValid(guest, cache)
  {
    if !cache.npzExists || !cache.jsonExists {
      return false;
    }
    if cache.loaded.None? {
      return false;
    }
    var images, rates := cache.loaded.value.images, cache.loaded.value.rates;
    for i := 0 to |guest|
      invariant forall j :: 0 <= j < i ==> guest[j] in images && guest[j] in rates
    {
      if guest[i] !in images {
        return false;
      }
      if guest[i] !in rates {
        return false;
      }
    }
    return true;
  }

  /** The verdict does not depend on the order in which the candidate set
      is listed. */
  lemma CheckIgnoresOrder(g1: seq<string>, g2: seq<string>, coor: Table, common: seq<string>,
                          cache: CacheFiles)
    requires IsCheckRange(g1, coor, common) && IsCheckRange(g2, coor, common)
    ensures CacheValid(g1, cache) <==> CacheValid(g2, cache)
  {
    assert forall k :: k in g1 <==> k in g2;
  }

  /** The fonts among `fonts` whose cache fails the check, in order. */
  function StaleFonts(fonts: seq<string>, guest: seq<string>, caches: string -> CacheFiles)
    : (stale: seq<string>)
    ensures forall f :: f in stale <==> f in fonts && !CacheValid(guest, caches(f))
    ensures IsSubsequence(stale, fonts)
  {
    if fonts == [] then []
    else
      var rest := StaleFonts(fonts[1..], guest, caches);
      assert forall f :: f in fonts <==> f == fonts[0] || f in fonts[1..];
      if CacheValid(guest, caches(fonts[0])) then
        SubsequenceCons(rest, fonts[1..], fonts[0]);
        assert [fonts[0]] + fonts[1..] == fonts;
        rest
      else
        assert ([fonts[0]] + rest)[1..] == rest;
        [fonts[0]] + rest
  }

  /** `init_app`: the reference fonts whose caches are rebuilt, in the
      order they are visited. */
  method InitApp(guest: seq<string>, caches: string -> CacheFiles) returns (updated: seq<string>)
    ensures updated == StaleFonts(ReferenceFonts, guest, caches)
  {
    updated := [];
    for i := 0 to |ReferenceFonts|
      invariant updated + StaleFonts(ReferenceFonts[i..], guest, caches)
                == StaleFonts(ReferenceFonts, guest, caches)
    {
      var name := ReferenceFonts[i];
      assert ReferenceFonts[i..][1..] == ReferenceFonts[i + 1..];
      var ok := Check(guest, caches(name));
      if !ok {
        updated := updated + [name];
      }
    }
  }
}
