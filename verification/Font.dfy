/** The glyph segmentation of font.cpp: nested scans that cut a bitmap into characters. */
module Font {
  import opened Words
  import opened GlyphSpec

  datatype FontCharT = FontCharT(u0: u8, v0: u8, u1: u8, v1: u8)

  const FONT_CHARS := 256

  /** The four Uint8 fields of a character. */
  function CharOf(r: Rect): FontCharT {
    FontCharT(r.x0 % 0x100, r.y0 % 0x100, r.x1 % 0x100, r.y1 % 0x100)
  }

  /** The map after giving successive characters of the list to successive glyphs. */
  function Assign(m: seq<FontCharT>, chars: seq<u8>, glyphs: seq<Rect>): (m': seq<FontCharT>)
    requires |m| == FONT_CHARS && |glyphs| <= |chars|
    ensures |m'| == FONT_CHARS
    decreases |glyphs|
  {
    if glyphs == [] then m else Assign(m[chars[0] := CharOf(glyphs[0])], chars[1..], glyphs[1..])
  }

  lemma {:induction false} AssignAppend(m: seq<FontCharT>, chars: seq<u8>, a: seq<Rect>, b: seq<Rect>)
    requires |m| == FONT_CHARS && |a| + |b| <= |chars|
    ensures Assign(m, chars, a + b) == Assign(Assign(m, chars, a), chars[|a|..], b)
    decreases |a|
  {
    if a == [] {
      assert a + b == b && chars[0..] == chars;
    } else {
      assert (a + b)[1..] == a[1..] + b;
      assert chars[1..][|a[1..]|..] == chars[|a|..];
      AssignAppend(m[chars[0] := CharOf(a[0])], chars[1..], a[1..], b);
    }
  }

  /** The k-th glyph belongs to the k-th character, unless the list names that character again
      for a later glyph; characters without a glyph keep their entry. */
  lemma {:induction false} AssignAt(m: seq<FontCharT>, chars: seq<u8>, glyphs: seq<Rect>)
    requires |m| == FONT_CHARS && |glyphs| <= |chars|
    ensures var m' := Assign(m, chars, glyphs);
      forall k :: 0 <= k < |glyphs| && chars[k] !in chars[k + 1..|glyphs|] ==> m'[chars[k]] == CharOf(glyphs[k])
    ensures var m' := Assign(m, chars, glyphs);
      forall c: u8 :: c !in chars[..|glyphs|] ==> m'[c] == m[c]
    decreases |glyphs|
  {
    if glyphs != [] {
      var n := |glyphs|;
      AssignAt(m[chars[0] := CharOf(glyphs[0])], chars[1..], glyphs[1..]);
      assert chars[..n] == [chars[0]] + chars[1..][..n - 1];
      assert chars[1..n] == chars[1..][..n - 1];
      var m' := Assign(m, chars, glyphs);
      forall k | 0 <= k < n && chars[k] !in chars[k + 1..n]
        ensures m'[chars[k]] == CharOf(glyphs[k])
      {
        if k > 0 {
          assert chars[k + 1..n] == chars[1..][k..n - 1];
          assert chars[1..][k - 1] == chars[k] && glyphs[1..][k - 1] == glyphs[k];
        }
      }
    }
  }

  /** The stored rectangle is the given one if and only if every edge is below 256; of a rectangle
      that ends at 256 the near edges are stored exactly all the same. */
  lemma CharOfExact(r: Rect)
    ensures CharOf(r) == FontCharT(r.x0 % 0x100, r.y0 % 0x100, r.x1 % 0x100, r.y1 % 0x100)
    ensures CharOf(r).u0 == r.x0 && CharOf(r).v0 == r.y0 && CharOf(r).u1 == r.x1 && CharOf(r).v1 == r.y1
      <==> r.x0 < 0x100 && r.y0 < 0x100 && r.x1 < 0x100 && r.y1 < 0x100
    ensures r.x0 < r.x1 <= 0x100 && r.y0 < r.y1 <= 0x100 ==> CharOf(r).u0 == r.x0 && CharOf(r).v0 == r.y0
  {}

  /** The unexamined cell after a run is blank or beyond the end. */
  lemma {:induction false} RunStep(mask: seq<bool>, lo: nat, hi: nat, y0: nat, y1: nat)
    requires lo < |mask| && !mask[lo]
    requires lo <= hi <= |mask| && RunEnd(mask, hi) == RunEnd(mask, lo) && (hi == |mask| || mask[hi])
    ensures lo < hi
    ensures Runs(mask, lo) == [Run(lo, hi)] + Runs(mask, hi + 1)
    ensures RectsOf(Runs(mask, lo), y0, y1) == [Rect(lo, y0, hi, y1)] + RectsOf(Runs(mask, hi + 1), y0, y1)
  {
    assert RunEnd(mask, hi) == hi;
    assert RunEnd(mask, lo) == RunEnd(mask, lo + 1);
    hide Runs, RunEnd, RectsOf;
    RunsUnfold(mask, lo);
    RunsUnfold(mask, hi);
    RunsBeyond(mask, hi + 1);
    RectsCons(Run(lo, hi), Runs(mask, hi + 1), y0, y1);
  }

  lemma RunsBeyond(mask: seq<bool>, i: nat)
    ensures i >= |mask| ==> Runs(mask, i) == []
  {}

  lemma RectsCons(r: Run, rs: seq<Run>, y0: nat, y1: nat)
    ensures RectsOf([r] + rs, y0, y1) == [Rect(r.lo, y0, r.hi, y1)] + RectsOf(rs, y0, y1)
  {}

  lemma AssignNone(m: seq<FontCharT>, chars: seq<u8>)
    requires |m| == FONT_CHARS
    ensures Assign(m, chars, []) == m
  {}

  lemma LinesStep(s: Surface, line: Run, lines: seq<Run>)
    ensures LinesGlyphs(s, [line] + lines) == LineGlyphs(s, line) + LinesGlyphs(s, lines)
  {
    hide LineGlyphs;
    assert ([line] + lines)[1..] == lines;
  }

  lemma AssignOne(m: seq<FontCharT>, chars: seq<u8>, g: Rect, gs: seq<Rect>)
    requires |m| == FONT_CHARS && |gs| < |chars|
    ensures Assign(m, chars, [g] + gs) == Assign(m[chars[0] := CharOf(g)], chars[1..], gs)
  {
    assert ([g] + gs)[1..] == gs;
  }

  class FontT {
    var CharMap: seq<FontCharT>
    var uCharX: nat
    var uCharY: nat

    constructor FontNew()
      ensures |CharMap| == FONT_CHARS
    {
      CharMap := seq(FONT_CHARS, _ => FontCharT(0, 0, 0, 0));
      uCharX, uCharY := 0, 0;
    }

    method ScanHorizWhite(s: Surface, uStartX: nat, uEndX: nat, uY: nat) returns (white: bool)
      requires uEndX <= s.uWidth
      ensures white <==> WhiteRow(s, uStartX, uEndX, uY)
    {
      if uY >= s.uHeight {
        return true;
      }
      var uX := uStartX;
      while uX < uEndX
        invariant uStartX <= uX
        invariant forall x :: uStartX <= x < uX && x < uEndX ==> !Opaque(s, x, uY)
      {
        if s.pixels[uY][uX] / 0x100_0000 != 0 {
          assert Opaque(s, uX, uY);
          return false;
        }
        uX := uX + 1;
      }
      return true;
    }

    method ScanVertWhite(s: Surface, uStartY: nat, uEndY: nat, uX: nat) returns (white: bool)
      requires uX < s.uWidth
      ensures white <==> WhiteCol(s, uStartY, uEndY, uX)
    {
      var uY := uStartY;
      while uY < uEndY
        invariant uStartY <= uY
        invariant forall y :: uStartY <= y < uY && y < uEndY && y < s.uHeight ==> !Opaque(s, uX, y)
      {
        if uY >= s.uHeight {
          return true;
        }
        if s.pixels[uY][uX] / 0x100_0000 != 0 {
          assert Opaque(s, uX, uY);
          return false;
        }
        uY := uY + 1;
      }
      return true;
    }

    method SetCharMap(uChar: u8, u: nat, v: nat, w: nat, h: nat)
      requires |CharMap| == FONT_CHARS
      modifies `CharMap
      ensures CharMap == old(CharMap)[uChar := CharOf(Rect(u, v, u + w, v + h))]
    {
      CharMap := CharMap[uChar := FontCharT(u % 0x100, v % 0x100, (u + w) % 0x100, (v + h) % 0x100)];
    }

    /** Cuts one line of text; the column after a run is skipped without being looked at. The
        result is the part of the list that is left. */
    method ParseLine(s: Surface, pCharList: seq<u8>, uStartY: nat, uEndY: nat) returns (rest: seq<u8>)
      requires |CharMap| == FONT_CHARS && uStartY <= uEndY
      requires |LineGlyphs(s, Run(uStartY, uEndY))| <= |pCharList|
      modifies `CharMap
      ensures |CharMap| == FONT_CHARS
      ensures CharMap == Assign(old(CharMap), pCharList, LineGlyphs(s, Run(uStartY, uEndY)))
      ensures rest == pCharList[|LineGlyphs(s, Run(uStartY, uEndY))|..]
    {
      hide WhiteCol, Assign, CharOf;
      ghost var mask := ColMask(s, uStartY, uEndY);
      ghost var all := LineGlyphs(s, Run(uStartY, uEndY));
      ghost var done: nat := 0;
      rest := pCharList;
      var uX := 0;
      while uX < s.uWidth
        invariant 0 <= uX <= s.uWidth + 1 && |CharMap| == FONT_CHARS
        invariant done + |Runs(mask, uX)| == |all| && rest == pCharList[done..]
        invariant Assign(CharMap, rest, RectsOf(Runs(mask, uX), uStartY, uEndY))
               == Assign(old(CharMap), pCharList, all)
      {
        ghost var from, map0 := uX, CharMap;
        while true
          invariant CharMap == map0
          invariant from <= uX <= s.uWidth
          invariant Runs(mask, uX) == Runs(mask, from)
          decreases s.uWidth - uX
        {
          if uX >= s.uWidth { break; }
          var white := ScanVertWhite(s, uStartY, uEndY, uX);
          if !white { break; }
          uX := uX + 1;
        }
        if uX < s.uWidth {
          var uStartX := uX;
          while true
            invariant CharMap == map0
            invariant uStartX <= uX <= s.uWidth
            invariant RunEnd(mask, uX) == RunEnd(mask, uStartX)
            decreases s.uWidth - uX
          {
            if uX >= s.uWidth { break; }
            var white := ScanVertWhite(s, uStartY, uEndY, uX);
            if white { break; }
            uX := uX + 1;
          }
          var uEndX := uX;
          RunStep(mask, uStartX, uEndX, uStartY, uEndY);
          SetCharMap(rest[0], uStartX, uStartY, uEndX - uStartX, uEndY - uStartY);
          AssignOne(map0, rest, Rect(uStartX, uStartY, uEndX, uEndY), RectsOf(Runs(mask, uX + 1), uStartY, uEndY));
          rest := rest[1..];
          done := done + 1;
          uX := uX + 1;
        }
      }
      AssignNone(CharMap, rest);
    }

    /** Cuts the bitmap into lines and each line into characters. */
    method FontParseChars(s: Surface, pCharList: seq<u8>)
      requires |CharMap| == FONT_CHARS && |Glyphs(s)| <= |pCharList|
      modifies this
      ensures |CharMap| == FONT_CHARS
      ensures CharMap == Assign(old(CharMap), pCharList, Glyphs(s))
      ensures uCharX == 5
      ensures var lines := Runs(RowMask(s), 0);
        uCharY == if lines == [] then 0 else lines[0].hi - lines[0].lo
    {
      hide WhiteRow, Assign, CharOf, LineGlyphs;
      ghost var mask := RowMask(s);
      ghost var lines, all := Runs(mask, 0), Glyphs(s);
      ghost var done: nat := 0;
      var rest := pCharList;
      var uFontHeight: nat := 0;
      var uY := 0;
      while uY < s.uHeight
        invariant 0 <= uY <= s.uHeight + 1 && |CharMap| == FONT_CHARS
        invariant done + |LinesGlyphs(s, Runs(mask, uY))| == |all| && rest == pCharList[done..]
        invariant Assign(CharMap, rest, LinesGlyphs(s, Runs(mask, uY))) == Assign(old(CharMap), pCharList, all)
        invariant uFontHeight == 0 ==> Runs(mask, uY) == lines
        invariant uFontHeight != 0 ==> lines != [] && uFontHeight == lines[0].hi - lines[0].lo
      {
        ghost var from, map0 := uY, CharMap;
        while true
          invariant CharMap == map0
          invariant from <= uY <= s.uHeight
          invariant Runs(mask, uY) == Runs(mask, from)
          decreases s.uHeight - uY
        {
          if uY >= s.uHeight { break; }
          var white := ScanHorizWhite(s, 0, s.uWidth, uY);
          if !white { break; }
          uY := uY + 1;
        }
        if uY < s.uHeight {
          var uStartY := uY;
          while true
            invariant CharMap == map0
            invariant uStartY <= uY <= s.uHeight
            invariant RunEnd(mask, uY) == RunEnd(mask, uStartY)
            decreases s.uHeight - uY
          {
            if uY >= s.uHeight { break; }
            var white := ScanHorizWhite(s, 0, s.uWidth, uY);
            if white { break; }
            uY := uY + 1;
          }
          var uEndY := uY;
          RunStep(mask, uStartY, uEndY, 0, 0);
          LinesStep(s, Run(uStartY, uEndY), Runs(mask, uEndY + 1));
          if uFontHeight == 0 {
            uFontHeight := uEndY - uStartY;
          }
          ghost var line: seq<Rect> := LineGlyphs(s, Run(uStartY, uEndY));
          assert LinesGlyphs(s, Runs(mask, from)) == line + LinesGlyphs(s, Runs(mask, uEndY + 1));
          assert pCharList[done..][|line|..] == pCharList[done + |line|..];
          AssignAppend(CharMap, rest, line, LinesGlyphs(s, Runs(mask, uEndY + 1)));
          rest := ParseLine(s, rest, uStartY, uEndY);
          done := done + |line|;
          uY := uY + 1;
        }
      }
      AssignNone(CharMap, rest);
      uCharX, uCharY := 5, uFontHeight;
    }
  }
}
