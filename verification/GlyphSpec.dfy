/** Runs of non-blank cells, and the glyph rectangles of a bitmap made of them. */
module GlyphSpec {
  import opened Words

  /** The half-open run [lo, hi). */
  datatype Run = Run(lo: nat, hi: nat)

  /** First blank cell at or after `i`, or the end. */
  function RunEnd(blank: seq<bool>, i: nat): (e: nat)
    requires i <= |blank|
    ensures i <= e <= |blank|
    decreases |blank| - i
  {
    if i < |blank| && !blank[i] then RunEnd(blank, i + 1) else i
  }

  /** The runs of non-blank cells from `i` on. */
  function Runs(blank: seq<bool>, i: nat): seq<Run>
    decreases if i < |blank| then |blank| - i else 0
  {
    if i >= |blank| then []
    else if blank[i] then Runs(blank, i + 1)
    else
      var e := RunEnd(blank, i + 1);
      [Run(i, e)] + Runs(blank, e)
  }

  /** A run that cannot be made longer on either side. */
  ghost predicate Maximal(blank: seq<bool>, r: Run) {
    && r.lo < r.hi <= |blank|
    && (forall k :: r.lo <= k < r.hi ==> !blank[k])
    && (r.lo == 0 || blank[r.lo - 1])
    && (r.hi == |blank| || blank[r.hi])
  }

  lemma {:induction false} RunEndIs(blank: seq<bool>, i: nat)
    requires i <= |blank|
    ensures var e := RunEnd(blank, i);
      (forall k :: i <= k < e ==> !blank[k]) && (e == |blank| || blank[e])
    decreases |blank| - i
  {
    if i < |blank| && !blank[i] {
      RunEndIs(blank, i + 1);
    }
  }

  /** Neighbouring runs are in order with a blank cell between them. */
  ghost predicate Spread(rs: seq<Run>) {
    forall a, b :: 0 <= a < b < |rs| ==> rs[a].hi < rs[b].lo
  }

  /** Started where a run may begin, the list holds exactly the maximal runs from there on,
      from left to right with a blank cell between neighbours. */
  lemma {:induction false} RunsMaximal(blank: seq<bool>, i: nat)
    requires i <= |blank| && (i == 0 || i == |blank| || blank[i] || blank[i - 1])
    ensures forall r :: r in Runs(blank, i) <==> Maximal(blank, r) && i <= r.lo
    ensures Spread(Runs(blank, i))
    decreases |blank| - i
  {
    hide Maximal, Spread, Runs;
    RunsUnfold(blank, i);
    if i < |blank| {
      if blank[i] {
        RunsMaximal(blank, i + 1);
        forall r | Maximal(blank, r) ensures r.lo != i { NotBlankAtStart(blank, r); }
      } else {
        var e := RunEnd(blank, i + 1);
        FirstRun(blank, i);
        RunsMaximal(blank, e);
        forall r | Maximal(blank, r) && i <= r.lo
          ensures r == Run(i, e) || e < r.lo
        {
          OneRun(blank, i, e, r);
        }
        forall r | r in Runs(blank, e) ensures e < r.lo {
          OneRun(blank, i, e, r);
        }
        SpreadCons(Run(i, e), Runs(blank, e));
      }
    } else {
      forall r ensures !(Maximal(blank, r) && i <= r.lo) { if Maximal(blank, r) { NotBlankAtStart(blank, r); } }
    }
  }

  lemma RunsUnfold(blank: seq<bool>, i: nat)
    requires i <= |blank|
    ensures Runs(blank, i) == if i == |blank| then [] else if blank[i] then Runs(blank, i + 1)
                              else [Run(i, RunEnd(blank, i + 1))] + Runs(blank, RunEnd(blank, i + 1))
    ensures i == |blank| ==> Spread(Runs(blank, i))
  {}

  lemma NotBlankAtStart(blank: seq<bool>, r: Run)
    requires Maximal(blank, r)
    ensures r.lo < |blank| && !blank[r.lo]
  {}

  lemma FirstRun(blank: seq<bool>, i: nat)
    requires i < |blank| && !blank[i] && (i == 0 || blank[i - 1])
    ensures var e := RunEnd(blank, i + 1);
      Maximal(blank, Run(i, e)) && (e == |blank| || blank[e])
  {
    RunEndIs(blank, i + 1);
  }

  lemma SpreadCons(r: Run, rs: seq<Run>)
    requires Spread(rs) && forall x :: x in rs ==> r.hi < x.lo
    ensures Spread([r] + rs)
  {}

  /** Two maximal runs are the same or apart. */
  lemma OneRun(blank: seq<bool>, lo: nat, hi: nat, r: Run)
    requires Maximal(blank, Run(lo, hi)) && Maximal(blank, r) && lo <= r.lo
    ensures r == Run(lo, hi) || hi < r.lo
  {
    if r.lo <= hi {
      assert r.lo > lo ==> r.lo - 1 < hi;
      assert r.lo == lo;
      assert r.hi >= hi && r.hi <= hi;
    }
  }

  /** Every non-blank cell lies in a run. */
  lemma {:induction false} RunsCover(blank: seq<bool>, i: nat, k: nat) returns (r: Run)
    requires i <= k < |blank| && !blank[k]
    ensures r in Runs(blank, i) && r.lo <= k < r.hi
    decreases |blank| - i
  {
    if blank[i] {
      r := RunsCover(blank, i + 1, k);
    } else {
      var e := RunEnd(blank, i + 1);
      RunEndIs(blank, i + 1);
      if k < e {
        r := Run(i, e);
      } else {
        r := RunsCover(blank, e, k);
      }
    }
  }

  // ---- bitmaps ----

  datatype Bitmap = Bitmap(uWidth: nat, uHeight: nat, pixels: seq<seq<u32>>)

  predicate Valid(s: Bitmap) {
    |s.pixels| == s.uHeight && forall y :: 0 <= y < s.uHeight ==> |s.pixels[y]| == s.uWidth
  }

  type Surface = s: Bitmap | Valid(s) witness Bitmap(0, 0, [])

  /** `pixel & 0xFF000000` */
  predicate Opaque(s: Surface, x: nat, y: nat)
    requires x < s.uWidth && y < s.uHeight
  {
    s.pixels[y][x] / 0x100_0000 != 0
  }

  predicate WhiteRow(s: Surface, uStartX: nat, uEndX: nat, y: nat)
    requires uEndX <= s.uWidth
  {
    y < s.uHeight ==> forall x :: uStartX <= x < uEndX ==> !Opaque(s, x, y)
  }

  predicate WhiteCol(s: Surface, uStartY: nat, uEndY: nat, x: nat)
    requires x < s.uWidth
  {
    forall y :: uStartY <= y < uEndY && y < s.uHeight ==> !Opaque(s, x, y)
  }

  function RowMask(s: Surface): (m: seq<bool>)
    ensures |m| == s.uHeight
  {
    seq(s.uHeight, y requires 0 <= y < s.uHeight => WhiteRow(s, 0, s.uWidth, y))
  }

  function ColMask(s: Surface, y0: nat, y1: nat): (m: seq<bool>)
    ensures |m| == s.uWidth
  {
    seq(s.uWidth, x requires 0 <= x < s.uWidth => WhiteCol(s, y0, y1, x))
  }

  datatype Rect = Rect(x0: nat, y0: nat, x1: nat, y1: nat)

  function RectsOf(cols: seq<Run>, y0: nat, y1: nat): (rs: seq<Rect>)
    ensures |rs| == |cols|
  {
    seq(|cols|, k requires 0 <= k < |cols| => Rect(cols[k].lo, y0, cols[k].hi, y1))
  }

  /** The glyphs of one line of text, from left to right. */
  function LineGlyphs(s: Surface, line: Run): seq<Rect> {
    RectsOf(Runs(ColMask(s, line.lo, line.hi), 0), line.lo, line.hi)
  }

  function LinesGlyphs(s: Surface, lines: seq<Run>): seq<Rect> {
    if lines == [] then [] else LineGlyphs(s, lines[0]) + LinesGlyphs(s, lines[1..])
  }

  /** All glyphs, line by line. */
  function Glyphs(s: Surface): seq<Rect> {
    LinesGlyphs(s, Runs(RowMask(s), 0))
  }

  ghost predicate Inside(r: Rect, x: nat, y: nat) {
    r.x0 <= x < r.x1 && r.y0 <= y < r.y1
  }

  /** Reading order; rectangles in it do not share a pixel. */
  ghost predicate ReadBefore(a: Rect, b: Rect) {
    a.y1 < b.y0 || (a.y0 == b.y0 && a.y1 == b.y1 && a.x1 < b.x0)
  }

  ghost predicate Reading(rs: seq<Rect>) {
    forall a, b :: 0 <= a < b < |rs| ==> ReadBefore(rs[a], rs[b])
  }

  /** A glyph is a maximal run of non-blank columns of a maximal run of non-blank rows. */
  ghost predicate IsGlyph(s: Surface, r: Rect) {
    && Maximal(RowMask(s), Run(r.y0, r.y1))
    && Maximal(ColMask(s, r.y0, r.y1), Run(r.x0, r.x1))
  }

  /** No pixel of a row, or of a part of a column, has alpha. */
  predicate BlankRow(s: Surface, y: nat)
    requires y < s.uHeight
  {
    forall x :: 0 <= x < s.uWidth ==> s.pixels[y][x] / 0x100_0000 == 0
  }

  predicate BlankCol(s: Surface, y0: nat, y1: nat, x: nat)
    requires y1 <= s.uHeight && x < s.uWidth
  {
    forall y :: y0 <= y < y1 ==> s.pixels[y][x] / 0x100_0000 == 0
  }

  /** In pixels: no row of a glyph is blank in the bitmap and the rows above and below it are, and the
      same holds of its columns within those rows. */
  lemma GlyphIs(s: Surface, r: Rect)
    ensures IsGlyph(s, r) <==>
      && r.y0 < r.y1 <= s.uHeight && r.x0 < r.x1 <= s.uWidth
      && (forall y :: r.y0 <= y < r.y1 ==> !BlankRow(s, y))
      && (r.y0 > 0 ==> BlankRow(s, r.y0 - 1)) && (r.y1 < s.uHeight ==> BlankRow(s, r.y1))
      && (forall x :: r.x0 <= x < r.x1 ==> !BlankCol(s, r.y0, r.y1, x))
      && (r.x0 > 0 ==> BlankCol(s, r.y0, r.y1, r.x0 - 1)) && (r.x1 < s.uWidth ==> BlankCol(s, r.y0, r.y1, r.x1))
  {
    hide BlankRow, BlankCol, WhiteRow, WhiteCol;
    forall y | 0 <= y < s.uHeight ensures RowMask(s)[y] == BlankRow(s, y) { RowIs(s, y); }
    if r.y1 <= s.uHeight {
      forall x | 0 <= x < s.uWidth ensures ColMask(s, r.y0, r.y1)[x] == BlankCol(s, r.y0, r.y1, x) {
        ColIs(s, r.y0, r.y1, x);
      }
    }
  }

  /** The two scans in pixels: rows beyond the bitmap count as blank, and so do rows of a column. */
  lemma WhiteIs(s: Surface, from: nat, to: nat, at: nat)
    ensures to <= s.uWidth ==> (WhiteRow(s, from, to, at)
      <==> at >= s.uHeight || forall x :: from <= x < to ==> s.pixels[at][x] / 0x100_0000 == 0)
    ensures at < s.uWidth ==> (WhiteCol(s, from, to, at)
      <==> forall y :: from <= y < to && y < s.uHeight ==> s.pixels[y][at] / 0x100_0000 == 0)
  {
    hide Opaque;
    forall x, y | 0 <= x < s.uWidth && 0 <= y < s.uHeight
      ensures Opaque(s, x, y) <==> s.pixels[y][x] / 0x100_0000 != 0
    {
      OpaqueIs(s, x, y);
    }
  }

  lemma OpaqueIs(s: Surface, x: nat, y: nat)
    requires x < s.uWidth && y < s.uHeight
    ensures Opaque(s, x, y) <==> s.pixels[y][x] / 0x100_0000 != 0
  {}

  lemma RowIs(s: Surface, y: nat)
    requires y < s.uHeight
    ensures WhiteRow(s, 0, s.uWidth, y) <==> BlankRow(s, y)
  {
    assert forall x :: 0 <= x < s.uWidth ==> (Opaque(s, x, y) <==> s.pixels[y][x] / 0x100_0000 != 0);
  }

  lemma ColIs(s: Surface, y0: nat, y1: nat, x: nat)
    requires y1 <= s.uHeight && x < s.uWidth
    ensures WhiteCol(s, y0, y1, x) <==> BlankCol(s, y0, y1, x)
  {
    assert forall y :: y0 <= y < y1 ==> (Opaque(s, x, y) <==> s.pixels[y][x] / 0x100_0000 != 0);
  }

  lemma LineGlyphsAre(s: Surface, line: Run)
    ensures forall r: Rect :: r in LineGlyphs(s, line) <==>
      (r.y0 == line.lo && r.y1 == line.hi && Maximal(ColMask(s, line.lo, line.hi), Run(r.x0, r.x1)))
    ensures Reading(LineGlyphs(s, line))
  {
    hide ColMask, Maximal, Runs;
    var cols := Runs(ColMask(s, line.lo, line.hi), 0);
    RunsMaximal(ColMask(s, line.lo, line.hi), 0);
    forall r: Rect | r.y0 == line.lo && r.y1 == line.hi && Maximal(ColMask(s, line.lo, line.hi), Run(r.x0, r.x1))
      ensures r in LineGlyphs(s, line)
    {
      assert Run(r.x0, r.x1) in cols;
      var k :| 0 <= k < |cols| && cols[k] == Run(r.x0, r.x1);
      assert LineGlyphs(s, line)[k] == r;
    }
    forall r: Rect | r in LineGlyphs(s, line)
      ensures r.y0 == line.lo && r.y1 == line.hi && Maximal(ColMask(s, line.lo, line.hi), Run(r.x0, r.x1))
    {
      var k :| 0 <= k < |cols| && LineGlyphs(s, line)[k] == r;
      assert cols[k] in cols;
    }
  }

  lemma {:induction false} LinesGlyphsAre(s: Surface, lines: seq<Run>)
    requires Spread(lines)
    ensures forall r: Rect :: r in LinesGlyphs(s, lines) <==>
      (Run(r.y0, r.y1) in lines && Maximal(ColMask(s, r.y0, r.y1), Run(r.x0, r.x1)))
    ensures Reading(LinesGlyphs(s, lines))
  {
    hide ColMask, Maximal, LineGlyphs;
    if lines != [] {
      var first, rest := LineGlyphs(s, lines[0]), LinesGlyphs(s, lines[1..]);
      LineGlyphsAre(s, lines[0]);
      LinesGlyphsAre(s, lines[1..]);
      assert forall l :: l in lines <==> l == lines[0] || l in lines[1..];
      forall a, b | 0 <= a < |first| && 0 <= b < |rest|
        ensures ReadBefore(first[a], rest[b])
      {
        assert first[a] in first && rest[b] in rest;
      }
    }
  }

  /** The glyphs are exactly the maximal column runs of maximal row runs, in reading order. */
  lemma GlyphsAre(s: Surface)
    ensures forall r: Rect :: r in Glyphs(s) <==> IsGlyph(s, r)
    ensures Reading(Glyphs(s))
  {
    hide ColMask, Maximal, RowMask, LinesGlyphs;
    RunsMaximal(RowMask(s), 0);
    LinesGlyphsAre(s, Runs(RowMask(s), 0));
  }

  /** Every opaque pixel is covered by a glyph. */
  lemma OpaqueCovered(s: Surface, x: nat, y: nat) returns (k: nat)
    requires x < s.uWidth && y < s.uHeight && Opaque(s, x, y)
    ensures k < |Glyphs(s)| && Inside(Glyphs(s)[k], x, y)
  {
    hide Glyphs, Maximal, Runs;
    GlyphsAre(s);
    var line := RunsCover(RowMask(s), 0, y);
    RunsMaximal(RowMask(s), 0);
    var col := RunsCover(ColMask(s, line.lo, line.hi), 0, x);
    RunsMaximal(ColMask(s, line.lo, line.hi), 0);
    var r := Rect(col.lo, line.lo, col.hi, line.hi);
    assert r in Glyphs(s) by { assert IsGlyph(s, r); }
    k :| 0 <= k < |Glyphs(s)| && Glyphs(s)[k] == r;
  }

  /** Glyphs lie inside the bitmap and no two of them share a pixel, so each opaque pixel is
      covered exactly once. */
  lemma GlyphsPartition(s: Surface)
    ensures forall r :: r in Glyphs(s) ==> r.x0 < r.x1 <= s.uWidth && r.y0 < r.y1 <= s.uHeight
    ensures forall j, k, x, y :: 0 <= j < k < |Glyphs(s)| ==>
      !(Inside(Glyphs(s)[j], x, y) && Inside(Glyphs(s)[k], x, y))
    ensures forall x, y :: 0 <= x < s.uWidth && 0 <= y < s.uHeight && Opaque(s, x, y) ==>
      exists k :: 0 <= k < |Glyphs(s)| && Inside(Glyphs(s)[k], x, y)
  {
    hide Glyphs, ColMask, RowMask, Opaque;
    GlyphsAre(s);
    forall x: nat, y: nat | x < s.uWidth && y < s.uHeight && Opaque(s, x, y)
      ensures exists k :: 0 <= k < |Glyphs(s)| && Inside(Glyphs(s)[k], x, y)
    {
      var k := OpaqueCovered(s, x, y);
    }
    forall j, k, x: nat, y: nat | 0 <= j < k < |Glyphs(s)|
      ensures !(Inside(Glyphs(s)[j], x, y) && Inside(Glyphs(s)[k], x, y))
    {
      assert ReadBefore(Glyphs(s)[j], Glyphs(s)[k]);
    }
  }
}
