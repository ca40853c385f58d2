/** The slow matcher: a test glyph rendered to a monochrome bitmap is
    compared pixel by pixel with the rendering of every candidate
    character, and the candidate with the largest overlap rate wins.
    Rendering itself is a parameter: a function from text to bitmap. */
module Slow {
  import opened Outcomes
  import opened Seqs
  import opened Facts

  /** The point size characters are rendered at. */
  const FontSize: nat := 96
  /** `ceil(FONT_SIZE * 1.2)`, a line height of 1.2 times the font size:
      both sides of every rendered image. */
  const ImageSide: nat := (FontSize * 6 + 4) / 5

  /** The image side is the least whole number of pixels that holds a
      line of 1.2 times the font size. */
  lemma ImageSideIsLineHeight()
    ensures (ImageSide - 1) * 5 < FontSize * 6 <= ImageSide * 5
    ensures ImageSide == 116
  {
  }

  /** A rendered image: its PIL mode, its size, and its pixels indexed
      `[x][y]`; `true` is a black pixel (value 0). */
  datatype Bitmap = Bitmap(mode: string, width: nat, height: nat, black: seq<seq<bool>>)

  predicate WellFormed(b: Bitmap) {
    |b.black| == b.width && forall x :: 0 <= x < b.width ==> |b.black[x]| == b.height
  }

  /** Every bitmap has as many columns and rows as its size says. */
  type Image = b: Bitmap | WellFormed(b) witness Bitmap("1", 0, 0, [])

  /** What `draw` produces: a mode-`1` image of the standard size. */
  predicate Standard(b: Image) {
    b.mode == "1" && b.width == ImageSide && b.height == ImageSide
  }

  /** `ImageMatchError` for a size or mode mismatch, and the division by
      a zero pixel count. */
  datatype ImageMatchError = SizeMismatch | NotBinary | ZeroDivision

  /** Rows `y < h` black in both columns. */
  function ColumnOverlap(ca: seq<bool>, cb: seq<bool>, h: nat): nat
    requires h <= |ca| && h <= |cb|
  {
    if h == 0 then 0
    else ColumnOverlap(ca, cb, h - 1) + (if ca[h - 1] && cb[h - 1] then 1 else 0)
  }

  /** Pixels in columns `x < w`, rows `y < h`, black in both images. */
  function Overlap(a: Image, b: Image, w: nat, h: nat): nat
    requires w <= a.width && w <= b.width && h <= a.height && h <= b.height
  {
    if w == 0 then 0
    else Overlap(a, b, w - 1, h) + ColumnOverlap(a.black[w - 1], b.black[w - 1], h)
  }

  /** Rows `y < h` black in the column. */
  function ColumnInk(c: seq<bool>, h: nat): nat
    requires h <= |c|
  {
    if h == 0 then 0 else ColumnInk(c, h - 1) + (if c[h - 1] then 1 else 0)
  }

  /** Black pixels in columns `x < w`, rows `y < h`. */
  function Ink(a: Image, w: nat, h: nat): nat
    requires w <= a.width && h <= a.height
  {
    if w == 0 then 0 else Ink(a, w - 1, h) + ColumnInk(a.black[w - 1], h)
  }

  /** `compare_im`: the size check, then the mode check, then the number
      of pixels black in both images divided by the pixel count. */
  ghost function Compare(a: Image, b: Image): Result<real, ImageMatchError> {
    if a.width != b.width || a.height != b.height then Err(SizeMismatch)
    else if a.mode != "1" || b.mode != "1" then Err(NotBinary)
    else if a.width * a.height == 0 then Err(ZeroDivision)
    else Ok(Overlap(a, b, a.width, a.height) as real / (a.width * a.height) as real)
  }

  method CompareIm(a: Image, b: Image) returns (r: Result<real, ImageMatchError>)
    ensures r == Compare(a, b)
  {
    if a.width != b.width || a.height != b.height {
      return Err(SizeMismatch);
    }
    if a.mode != "1" || b.mode != "1" {
      return Err(NotBinary);
    }
    var w, h := a.width, a.height;
    var totalPixel := w * h;
    var matchPixel := 0;
    for x := 0 to w
      invariant matchPixel == Overlap(a, b, x, h)
    {
      for y := 0 to h
        invariant matchPixel == Overlap(a, b, x, h) + ColumnOverlap(a.black[x], b.black[x], y)
      {
        if a.black[x][y] && a.black[x][y] == b.black[x][y] {
          matchPixel := matchPixel + 1;
        }
      }
    }
    if totalPixel == 0 {
      return Err(ZeroDivision);
    }
    return Ok(matchPixel as real / totalPixel as real);
  }

  // ---------------------------------------------------------------------
  // The overlap rate

  lemma {:induction false} ColumnOverlapBounds(ca: seq<bool>, cb: seq<bool>, h: nat)
    requires h <= |ca| && h <= |cb|
    ensures ColumnOverlap(ca, cb, h) == ColumnOverlap(cb, ca, h)
    ensures ColumnOverlap(ca, cb, h) <= ColumnInk(ca, h) <= h
    ensures ColumnOverlap(ca, cb, h) <= ColumnInk(cb, h)
    ensures ColumnOverlap(ca, ca, h) == ColumnInk(ca, h)
  {
    if h > 0 {
      ColumnOverlapBounds(ca, cb, h - 1);
    }
  }

  /** The overlap is symmetric, at most either image's ink, at most the
      pixel count, and an image overlaps itself in exactly its ink. */
  lemma {:induction false} OverlapBounds(a: Image, b: Image, w: nat, h: nat)
    requires w <= a.width && w <= b.width && h <= a.height && h <= b.height
    ensures Overlap(a, b, w, h) == Overlap(b, a, w, h)
    ensures Overlap(a, b, w, h) <= Ink(a, w, h) <= w * h
    ensures Overlap(a, b, w, h) <= Ink(b, w, h)
    ensures Overlap(a, a, w, h) == Ink(a, w, h)
  {
    if w > 0 {
      OverlapBounds(a, b, w - 1, h);
      ColumnOverlapBounds(a.black[w - 1], b.black[w - 1], h);
      assert (w - 1) * h + h == w * h;
    }
  }

  /** `compare_im` is symmetric, errors included. */
  lemma CompareSymmetric(a: Image, b: Image)
    ensures Compare(a, b) == Compare(b, a)
  {
    if a.width == b.width && a.height == b.height {
      OverlapBounds(a, b, a.width, a.height);
    }
  }

  /** A successful comparison is a rate in [0, 1] that exceeds neither
      image's fraction of black pixels. */
  lemma CompareRate(a: Image, b: Image)
    requires Compare(a, b).Ok?
    ensures 0.0 <= Compare(a, b).value <= 1.0
    ensures Compare(a, b).value <= Ink(a, a.width, a.height) as real / (a.width * a.height) as real
    ensures Compare(a, b).value <= Ink(b, b.width, b.height) as real / (b.width * b.height) as real
  {
    var w, h := a.width, a.height;
    OverlapBounds(a, b, w, h);
    OverlapBounds(b, a, w, h);
    RateBounds(Overlap(a, b, w, h), Ink(a, w, h), w * h);
    RateBounds(Overlap(a, b, w, h), Ink(b, w, h), w * h);
  }

  lemma RateBounds(o: nat, ink: nat, t: nat)
    requires o <= ink <= t && t > 0
    ensures 0.0 <= o as real / t as real <= ink as real / t as real <= 1.0
  {
    assert t as real / t as real == 1.0;
  }

  /** Comparing an image with itself gives its fraction of black pixels. */
  lemma CompareSelf(a: Image)
    requires a.mode == "1" && a.width * a.height > 0
    ensures Compare(a, a) == Ok(Ink(a, a.width, a.height) as real / (a.width * a.height) as real)
  {
    OverlapBounds(a, a, a.width, a.height);
  }

  /** Standard renderings always compare successfully. */
  lemma StandardCompares(a: Image, b: Image)
    requires Standard(a) && Standard(b)
    ensures Compare(a, b).Ok?
  {
  }

  // ---------------------------------------------------------------------
  // Best candidate

  /** The state of the candidate scan: the best candidate so far, its
      rate, and the rate recorded for every candidate seen. */
  datatype Scan = Scan(best: string, rate: real, rates: map<string, real>)

  /** `match_test_im` over `guest`: every candidate is rendered and
      compared with the test image; a candidate replaces the best only
      with a strictly larger rate, starting from `''` at rate 0. */
  ghost function ScanGuests(test: Image, render: string -> Image, guest: seq<string>): Result<Scan, ImageMatchError> {
    if guest == [] then Ok(Scan("", 0.0, map[]))
    else match ScanGuests(test, render, guest[..|guest| - 1])
      case Err(e) => Err(e)
      case Ok(s) =>
        var text := guest[|guest| - 1];
        match Compare(test, render(text))
        case Err(e) => Err(e)
        case Ok(r) =>
          if r > s.rate then Ok(Scan(text, r, s.rates[text := r]))
          else Ok(Scan(s.best, s.rate, s.rates[text := r]))
  }

  method MatchTestIm(test: Image, render: string -> Image, guest: seq<string>)
    returns (r: Result<Scan, ImageMatchError>)
    ensures r == ScanGuests(test, render, guest)
  {
    var matchResult: map<string, real> := map[];
    var mostMatchRate := 0.0;
    var mostMatch := "";
    for i := 0 to |guest|
      invariant ScanGuests(test, render, guest[..i]) == Ok(Scan(mostMatch, mostMatchRate, matchResult))
    {
      var text := guest[i];
      var stdIm := render(text);
      assert guest[..i + 1][..i] == guest[..i];
      var matchRate := CompareIm(test, stdIm);
      if matchRate.Err? {
        ScanErrorSticks(test, render, guest, i + 1);
        return Err(matchRate.error);
      }
      matchResult := matchResult[text := matchRate.value];
      if matchRate.value > mostMatchRate {
        mostMatch := text;
        mostMatchRate := matchRate.value;
      }
    }
    assert guest[..|guest|] == guest;
    return Ok(Scan(mostMatch, mostMatchRate, matchResult));
  }

  /** Once a comparison fails, the whole scan fails. */
  lemma {:induction false} ScanErrorSticks(test: Image, render: string -> Image, guest: seq<string>, n: nat)
    requires n <= |guest| && ScanGuests(test, render, guest[..n]).Err?
    ensures ScanGuests(test, render, guest) == ScanGuests(test, render, guest[..n])
    decreases |guest| - n
  {
    if n < |guest| {
      assert guest[..n + 1][..n] == guest[..n];
      ScanErrorSticks(test, render, guest, n + 1);
    } else {
      assert guest[..n] == guest;
    }
  }

  /** A rate is recorded for every candidate, and it is that candidate's
      comparison result. */
  lemma {:induction false} ScanRecordsEveryRate(test: Image, render: string -> Image, guest: seq<string>)
    requires ScanGuests(test, render, guest).Ok?
    ensures forall t :: t in ScanGuests(test, render, guest).value.rates <==> t in guest
    ensures forall t :: t in guest ==>
              Compare(test, render(t)).Ok?
              && ScanGuests(test, render, guest).value.rates[t] == Compare(test, render(t)).value
  {
    if guest != [] {
      var front := guest[..|guest| - 1];
      ScanRecordsEveryRate(test, render, front);
      assert guest == front + [guest[|guest| - 1]];
    }
  }

  /** The best rate is at least 0 and at least every recorded rate; it
      is the best candidate's rate, or 0 with the empty answer. */
  lemma {:induction false} ScanBestIsMaximal(test: Image, render: string -> Image, guest: seq<string>)
    requires ScanGuests(test, render, guest).Ok?
    ensures var s := ScanGuests(test, render, guest).value;
            s.rate >= 0.0
            && (forall t :: t in s.rates ==> s.rates[t] <= s.rate)
            && ((s.best == "" && s.rate == 0.0) || (s.best in s.rates && s.rates[s.best] == s.rate && s.rate > 0.0))
  {
    if guest != [] {
      var front := guest[..|guest| - 1];
      ScanBestIsMaximal(test, render, front);
      ScanRecordsEveryRate(test, render, front);
    }
  }

  /** One step of the scan: the last candidate replaces the best only
      with a strictly larger rate. */
  lemma ScanStep(test: Image, render: string -> Image, guest: seq<string>)
    requires guest != [] && ScanGuests(test, render, guest).Ok?
    ensures var front, text := guest[..|guest| - 1], guest[|guest| - 1];
            ScanGuests(test, render, front).Ok? && Compare(test, render(text)).Ok?
            && var s0, r := ScanGuests(test, render, front).value, Compare(test, render(text)).value;
               ScanGuests(test, render, guest).value
               == if r > s0.rate then Scan(text, r, s0.rates[text := r]) else Scan(s0.best, s0.rate, s0.rates[text := r])
  {
  }

  /** Ties go to the earliest candidate: a non-empty answer is the first
      candidate whose rate equals the best rate; earlier candidates all
      rate strictly lower. */
  lemma {:induction false} ScanFirstMaximum(test: Image, render: string -> Image, guest: seq<string>)
    requires ScanGuests(test, render, guest).Ok?
    ensures var s := ScanGuests(test, render, guest).value;
            s.rate > 0.0 ==>
              exists i :: 0 <= i < |guest| && guest[i] == s.best
                          && Compare(test, render(guest[i])) == Ok(s.rate)
                          && forall j :: 0 <= j < i ==> Compare(test, render(guest[j])).Ok?
                                                        && Compare(test, render(guest[j])).value < s.rate
  {
    if guest != [] {
      var n := |guest| - 1;
      var front, text := guest[..n], guest[n];
      ScanStep(test, render, guest);
      var s0 := ScanGuests(test, render, front).value;
      var s := ScanGuests(test, render, guest).value;
      var r := Compare(test, render(text)).value;
      if r > s0.rate {
        ScanRecordsEveryRate(test, render, front);
        ScanBestIsMaximal(test, render, front);
        assert s.best == text && s.rate == r;
        forall j | 0 <= j < n
          ensures Compare(test, render(guest[j])).Ok? && Compare(test, render(guest[j])).value < s.rate
        {
          assert guest[j] == front[j] && front[j] in front;
        }
        assert guest[n] == s.best && Compare(test, render(guest[n])) == Ok(s.rate);
      } else {
        assert s.best == s0.best && s.rate == s0.rate;
        ScanFirstMaximum(test, render, front);
        if s.rate > 0.0 {
          var i :| 0 <= i < |front| && front[i] == s0.best
                   && Compare(test, render(front[i])) == Ok(s0.rate)
                   && forall j :: 0 <= j < i ==> Compare(test, render(front[j])).Ok?
                                                 && Compare(test, render(front[j])).value < s0.rate;
          assert guest[i] == front[i];
          forall j | 0 <= j < i
            ensures Compare(test, render(guest[j])).Ok? && Compare(test, render(guest[j])).value < s.rate
          {
            assert guest[j] == front[j];
          }
        }
      }
    }
  }

  /** The answer is `''` when no candidate overlaps the test image at
      all, in particular when there are no candidates. */
  lemma {:induction false} ScanNothingOverlaps(test: Image, render: string -> Image, guest: seq<string>)
    requires ScanGuests(test, render, guest).Ok?
    ensures (forall t :: t in guest ==> Compare(test, render(t)) == Ok(0.0))
            <==> ScanGuests(test, render, guest).value.rate == 0.0
    ensures ScanGuests(test, render, guest).value.rate == 0.0 ==> ScanGuests(test, render, guest).value.best == ""
  {
    ScanRecordsEveryRate(test, render, guest);
    ScanBestIsMaximal(test, render, guest);
    var s := ScanGuests(test, render, guest).value;
    forall t | t in guest ensures Compare(test, render(t)).value >= 0.0 {
      CompareRate(test, render(t));
    }
  }

  /** With standard renderings the scan never fails. */
  lemma {:induction false} StandardScanSucceeds(test: Image, render: string -> Image, guest: seq<string>)
    requires Standard(test) && forall t :: t in guest ==> Standard(render(t))
    ensures ScanGuests(test, render, guest).Ok?
  {
    if guest != [] {
      StandardScanSucceeds(test, render, guest[..|guest| - 1]);
      assert guest[|guest| - 1] in guest;
    }
  }

  // ---------------------------------------------------------------------
  // Whole fonts

  /** `match_font`: each test character, rendered in the test font, is
      mapped to its best candidate. */
  ghost function FontMatch(testRender: char -> Image, chars: seq<char>, stdRender: string -> Image, guest: seq<string>)
    : Result<map<char, string>, ImageMatchError>
  {
    if chars == [] then Ok(map[])
    else match FontMatch(testRender, chars[..|chars| - 1], stdRender, guest)
      case Err(e) => Err(e)
      case Ok(out) =>
        var c := chars[|chars| - 1];
        match ScanGuests(testRender(c), stdRender, guest)
        case Err(e) => Err(e)
        case Ok(s) => Ok(out[c := s.best])
  }

  method MatchFont(testRender: char -> Image, chars: seq<char>, stdRender: string -> Image, guest: seq<string>)
    returns (r: Result<map<char, string>, ImageMatchError>)
    ensures r == FontMatch(testRender, chars, stdRender, guest)
  {
    var out: map<char, string> := map[];
    for i := 0 to |chars|
      invariant FontMatch(testRender, chars[..i], stdRender, guest) == Ok(out)
    {
      var testChar := chars[i];
      var testIm := testRender(testChar);
      assert chars[..i + 1][..i] == chars[..i];
      var scan := MatchTestIm(testIm, stdRender, guest);
      if scan.Err? {
        FontMatchErrorSticks(testRender, chars, stdRender, guest, i + 1);
        return Err(scan.error);
      }
      out := out[testChar := scan.value.best];
    }
    assert chars[..|chars|] == chars;
    return Ok(out);
  }

  lemma {:induction false} FontMatchErrorSticks(testRender: char -> Image, chars: seq<char>,
                                                stdRender: string -> Image, guest: seq<string>, n: nat)
    requires n <= |chars| && FontMatch(testRender, chars[..n], stdRender, guest).Err?
    ensures FontMatch(testRender, chars, stdRender, guest) == FontMatch(testRender, chars[..n], stdRender, guest)
    decreases |chars| - n
  {
    if n < |chars| {
      assert chars[..n + 1][..n] == chars[..n];
      FontMatchErrorSticks(testRender, chars, stdRender, guest, n + 1);
    } else {
      assert chars[..n] == chars;
    }
  }

  /** Exactly one entry per test character, holding that character's
      best candidate. */
  lemma {:induction false} FontMatchEntries(testRender: char -> Image, chars: seq<char>,
                                            stdRender: string -> Image, guest: seq<string>)
    requires FontMatch(testRender, chars, stdRender, guest).Ok?
    ensures forall c :: c in FontMatch(testRender, chars, stdRender, guest).value <==> c in chars
    ensures forall c :: c in chars ==>
              ScanGuests(testRender(c), stdRender, guest).Ok?
              && FontMatch(testRender, chars, stdRender, guest).value[c]
                 == ScanGuests(testRender(c), stdRender, guest).value.best
  {
    if chars != [] {
      var front := chars[..|chars| - 1];
      FontMatchEntries(testRender, front, stdRender, guest);
      assert chars == front + [chars[|chars| - 1]];
    }
  }

  // ---------------------------------------------------------------------
  // Candidates

  /** `load_jjwxc_std_guest_range`: the distinct labels of the table
      except the placeholder, in order of first occurrence. */
  function GuestRange(table: Table): (guest: seq<string>)
    ensures Distinct(guest)
    ensures forall c :: c in guest <==> c != PlaceholderLabel && exists f :: f in table && f.ch == c
  {
    if table == [] then []
    else
      var g := GuestRange(table[..|table| - 1]);
      var c := table[|table| - 1].ch;
      assert forall f :: f in table <==> f in table[..|table| - 1] || f == table[|table| - 1];
      if c == PlaceholderLabel || c in g then g else g + [c]
  }

  /** The test characters of the slow matcher: the font's characters
      except the placeholder, in order. */
  function TestCharacters(fontChars: seq<char>): (chars: seq<char>)
    ensures forall c :: c in chars <==> c in fontChars && c != PlaceholderCode
  {
    if fontChars == [] then []
    else (if fontChars[0] != PlaceholderCode then [fontChars[0]] else [])
         + TestCharacters(fontChars[1..])
  }

  /** `match_jjwxc_font` of the slow matcher: the placeholder is dropped
      from the test characters, and an empty candidate list means the
      candidates of the coordinate table. */
  method MatchJjwxcFont(testRender: char -> Image, fontChars: seq<char>, stdRender: string -> Image,
                        guest: seq<string>, table: Table)
    returns (r: Result<map<char, string>, ImageMatchError>)
    ensures r == FontMatch(testRender, TestCharacters(fontChars), stdRender,
                           if guest == [] then GuestRange(table) else guest)
    ensures r.Ok? ==> forall c :: c in r.value <==> c in fontChars && c != PlaceholderCode
  {
    var chars := TestCharacters(fontChars);
    var range := if guest == [] then GuestRange(table) else guest;
    r := MatchFont(testRender, chars, stdRender, range);
    if r.Ok? {
      FontMatchEntries(testRender, chars, stdRender, range);
    }
  }

  /** `match_jjwxc_font_one_character`: the whole matcher on one test
      character. */
  method MatchOneCharacter(testRender: char -> Image, c: char, stdRender: string -> Image,
                           guest: seq<string>, table: Table)
    returns (r: Result<map<char, string>, ImageMatchError>)
    ensures r == FontMatch(testRender, [c], stdRender, if guest == [] then GuestRange(table) else guest)
    ensures r.Ok? ==> r.value.Keys == {c}
  {
    var range := if guest == [] then GuestRange(table) else guest;
    r := MatchFont(testRender, [c], stdRender, range);
    OneCharacterResult(testRender, c, stdRender, range);
  }

  /** On one character, the result is a one-entry map holding that
      character's best candidate (or the comparison error). */
  lemma OneCharacterResult(testRender: char -> Image, c: char, stdRender: string -> Image, guest: seq<string>)
    ensures FontMatch(testRender, [c], stdRender, guest).Ok?
            <==> ScanGuests(testRender(c), stdRender, guest).Ok?
    ensures FontMatch(testRender, [c], stdRender, guest).Ok? ==>
              FontMatch(testRender, [c], stdRender, guest).value
              == map[c := ScanGuests(testRender(c), stdRender, guest).value.best]
  {
    assert [c][..0] == [];
  }
}
