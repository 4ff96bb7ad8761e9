/** The primitives of gpprim.c: what each one puts in the stream, and what the GIF makes of it. */
module GpPrim {
  import opened Words
  import opened BitFields
  import opened GsFormat
  import opened GsRegs
  import opened DmaChain
  import opened GifStream
  import opened GsList
  import opened GpFifo

  // ---- specification: register writes and words per primitive ----

  /** Writes to `n` registers, each with an 8-bit address. */
  predicate Registers(ops: seq<GsOp>, n: nat) {
    |ops| == n && forall i :: 0 <= i < n ==> ops[i].RegWrite? && ops[i].reg < 0x100
  }

  lemma RegistersAppend(a: seq<GsOp>, n: nat, b: seq<GsOp>, m: nat)
    requires Registers(a, n) && Registers(b, m)
    ensures Registers(a + b, n + m)
  {}

  function RectOps(x1: u32, y1: u32, c1: u32, x2: u32, y2: u32, z: u32, abe: u32): (ops: seq<GsOp>)
    ensures Registers(ops, 4)
  {
    [RegWrite(GS_REG_PRIM, GsPrim(6, 0, 0, 0, abe, 0, 1, 0, 0)),
     RegWrite(GS_REG_RGBAQ, c1),
     RegWrite(GS_REG_XYZ2, GsXyz(x1 + 0x8000, y1 + 0x8000, z)),
     RegWrite(GS_REG_XYZ2, GsXyz(x2 + 0x8000, y2 + 0x8000, z))]
  }

  function TexRectOps(x1: u32, y1: u32, u1: u32, v1: u32, x2: u32, y2: u32, u2: u32, v2: u32,
                      z: u32, colour: u32, abe: u32): (ops: seq<GsOp>)
    ensures Registers(ops, 6)
  {
    [RegWrite(GS_REG_PRIM, GsPrim(6, 0, 1, 0, abe, 0, 1, 0, 0)),
     RegWrite(GS_REG_RGBAQ, colour),
     RegWrite(GS_REG_UV, GsUv(u1, v1)),
     RegWrite(GS_REG_XYZ2, GsXyz(x1 + 0x8000, y1 + 0x8000, z)),
     RegWrite(GS_REG_UV, GsUv(u2, v2)),
     RegWrite(GS_REG_XYZ2, GsXyz(x2 + 0x8000, y2 + 0x8000, z))]
  }

  function ZTestOps(enable: bool): (ops: seq<GsOp>)
    ensures Registers(ops, 1)
  {
    [RegWrite(GS_REG_TEST_1, if enable then 0x0007_0000 else 0x0003_0000)]
  }

  /** Without filtering it is the second context's TEX1 that is written, as in the source. */
  function SetTexOps(tbp: u32, tbw: u32, tw: u32, th: u32, tpsm: u32, cbp: u32, cpsm: u32, filter: bool)
    : (ops: seq<GsOp>)
    ensures Registers(ops, 8)
  {
    hide GsTexa, GsTex0, GsClamp;
    var first := [
      RegWrite(GS_REG_TEXCLUT, 4),
      RegWrite(GS_REG_TEXFLUSH, 0),
      RegWrite(GS_REG_TEXA, GsTexa(128, 1, 0)),
      if filter then RegWrite(GS_REG_TEX1_1, 0x60) else RegWrite(GS_REG_TEX1_2, 0x40)];
    var second := [
      RegWrite(GS_REG_TEX0_1, GsTex0(tbp, tbw / 64, tpsm, tw, th, 1, 0, cbp, cpsm, 1, 0, 1)),
      RegWrite(GS_REG_CLAMP_1, GsClamp(0, 0, 0, 0, 0, 0)),
      RegWrite(GS_REG_ALPHA_1, 0x7F_0000_0044),
      RegWrite(GS_REG_PABE, 0)];
    RegistersAppend(first, 4, second, 4);
    first + second
  }

  /** Quadwords of `pixels` packed pixels; C's shifts of an int round down. */
  function NumQwords(pxlfmt: i32, pixels: int): int {
    if pxlfmt == 0x00 then (pixels + 0x03) / 4
    else if pxlfmt == 0x02 then (pixels + 0x07) / 8
    else if pxlfmt == 0x13 then (pixels + 0x0F) / 16
    else if pxlfmt == 0x14 then (pixels + 0x1F) / 32
    else 0
  }

  function BitsPerPixel(pxlfmt: i32): nat {
    if pxlfmt == 0x00 then 32 else if pxlfmt == 0x02 then 16 else if pxlfmt == 0x13 then 8
    else if pxlfmt == 0x14 then 4 else 0
  }

  /** The count is the least number of 128-bit quadwords that hold the pixels. */
  lemma NumQwordsIsLeast(pxlfmt: i32, pixels: int)
    ensures var n, bits := NumQwords(pxlfmt, pixels), pixels * BitsPerPixel(pxlfmt);
      bits <= 128 * n && 128 * n < bits + 128
  {
    hide BitsPerPixel;
    assert BitsPerPixel(pxlfmt) == 0 ==> pixels * BitsPerPixel(pxlfmt) == 0;
    KnownFormats(pxlfmt);
  }

  lemma KnownFormats(pxlfmt: i32)
    ensures match BitsPerPixel(pxlfmt)
      case 32 => pxlfmt == 0x00
      case 16 => pxlfmt == 0x02
      case 8 => pxlfmt == 0x13
      case 4 => pxlfmt == 0x14
      case b => b == 0 && pxlfmt !in [0x00, 0x02, 0x13, 0x14]
  {}

  /** Of a quadword-aligned texture, exactly its own words are uploaded. */
  lemma UploadedWords(ext: nat -> u64, tex: u32, numq: nat, i: nat)
    requires tex % 16 == 0 && i < 2 * numq
    ensures RefData(ext, tex, numq)[i] == ext(tex / 8 + i)
  {}

  function TruncDiv(a: int, b: nat): int
    requires b > 0
  {
    if a >= 0 then a / b else -(-a / b)
  }

  function UploadRegs(tbp: i32, tbw: i32, xofs: i32, yofs: i32, pxlfmt: i32, w: i32, h: i32): (ops: seq<GsOp>)
    ensures Registers(ops, 4)
  {
    [RegWrite(GS_REG_BITBLTBUF, GsBitBltBuf(0, TruncDiv(tbw, 64), pxlfmt, tbp, TruncDiv(tbw, 64), pxlfmt)),
     RegWrite(GS_REG_TRXPOS, GsTrxPos(0, 0, xofs, yofs, 0)),
     RegWrite(GS_REG_TRXREG, GsTrxReg(w, h)),
     RegWrite(GS_REG_TRXDIR, GsTrxDir(0))]
  }

  /** The bytes of the packed image at `tex`, rounded up to quadwords, follow the four registers. */
  function UploadOps(ext: nat -> u64, tbp: i32, tbw: i32, xofs: i32, yofs: i32, pxlfmt: i32,
                     tex: u32, w: i32, h: i32): seq<GsOp>
    requires NumQwords(pxlfmt, w * h) >= 0
  {
    UploadRegs(tbp, tbw, xofs, yofs, pxlfmt, w, h) + [Image(RefData(ext, tex, NumQwords(pxlfmt, w * h)))]
  }

  lemma EvenDouble(n: nat)
    ensures Even(2 * n)
  {}

  /** An A+D packet: each register write as a data word and an address word. */
  function AdWords(ops: seq<GsOp>): (words: seq<u64>)
    requires Registers(ops, |ops|)
    ensures Even(|words|)
  {
    hide AdTag;
    EvenDouble(1 + |ops|);
    [AdTag(|ops|), GIF_REG_AD] +
    seq(2 * |ops|, k requires 0 <= k < 2 * |ops| => if k % 2 == 0 then ops[k / 2].data else ops[k / 2].reg)
  }

  /** Their words: the tag with EOP and the count, the descriptor, then data and address in turn. */
  lemma AdWordsAre(ops: seq<GsOp>, i: nat)
    requires Registers(ops, |ops|) && |ops| < 0x8000
    ensures var w := AdWords(ops);
      && |w| == 2 + 2 * |ops| && w[0] == 0x1000_0000_0000_8000 + |ops| && w[1] == 0xE
      && (i < |ops| ==> w[2 + 2 * i] == ops[i].data && w[3 + 2 * i] == ops[i].reg)
  {
    hide AdWords;
    AdTagFirst(ops);
    if i < |ops| {
      AdWordsAt(ops, i);
    }
  }

  lemma AdTagFirst(ops: seq<GsOp>)
    requires Registers(ops, |ops|) && |ops| < 0x8000
    ensures var w := AdWords(ops);
      |w| == 2 + 2 * |ops| && w[0] == 0x1000_0000_0000_8000 + |ops| && w[1] == 0xE
  {
    hide AdTag, Even;
    TagNumbers(|ops|);
  }

  lemma AdWordsAt(ops: seq<GsOp>, i: nat)
    requires Registers(ops, |ops|) && i < |ops|
    ensures var w := AdWords(ops); |w| == 2 + 2 * |ops| && w[2 + 2 * i] == ops[i].data && w[3 + 2 * i] == ops[i].reg
  {
    hide AdTag, Even;
    var pairs := AdWords(ops)[2..];
    assert pairs[2 * i] == ops[i].data && pairs[2 * i + 1] == ops[i].reg;
  }

  lemma RegListWordsAre(regs: u64, ops: seq<GsOp>)
    requires Registers(ops, |ops|) && (|ops| == 4 || |ops| == 6)
    ensures var w := RegListWords(|ops|, regs, ops);
      && |w| == 2 + |ops| && w[0] == 0x400_0000_0000_8001 + |ops| * 0x1000_0000_0000_0000 && w[1] == regs
      && forall i :: 0 <= i < |ops| ==> w[2 + i] == ops[i].data
  {
    hide GifSetTag;
    TagNumbers(0);
  }

  /** A one-loop register list of the data words alone. */
  function RegListWords(nreg: nat, regs: u64, ops: seq<GsOp>): (words: seq<u64>)
    requires Registers(ops, nreg)
    ensures |words| == 2 + nreg
  {
    [GifSetTag(1, 1, 0, 0, 1, nreg), regs] + seq(|ops|, k requires 0 <= k < |ops| => ops[k].data)
  }

  // ---- where the arguments land in the registers ----

  /** A sprite with or without texture and blending, in UV mode. */
  predicate Sprite(w: u64, tme: int, abe: int) {
    Extract(w, 0, 3) == 6 && Extract(w, 4, 1) == tme && Extract(w, 6, 1) == abe && Extract(w, 8, 1) == 1
  }

  predicate Corner(w: u64, x: int, y: int, z: int) {
    Extract(w, 0, 16) == x && Extract(w, 16, 16) == y && Extract(w, 32, 16) == z
  }

  predicate Texel(w: u64, u: int, v: int) {
    Extract(w, 0, 16) == u && Extract(w, 16, 16) == v
  }

  lemma XyzLands(x: int, y: int, z: int)
    ensures Corner(GsXyz(x, y, z), x % W16, y % W16, z % W16)
  {
    hide Pow2, OrFields, Extract;
    Pow2Widths();
    var fs := XyzFields(x, y, z);
    UnpackAll(fs, XYZ_WIDTHS);
    assert fs[0].shift == 0 && fs[1].shift == 16 && fs[2].shift == 32;
  }

  lemma UvLands(u: int, v: int)
    ensures Texel(GsUv(u, v), u % W16, v % W16)
  {
    hide Pow2, OrFields, Extract;
    Pow2Widths();
    var fs := UvFields(u, v);
    UnpackAll(fs, UV_WIDTHS);
    assert fs[0].shift == 0 && fs[1].shift == 16;
  }

  lemma PrimLands(tme: int, abe: int)
    requires 0 <= tme < 2 && 0 <= abe < 2
    ensures Sprite(GsPrim(6, 0, tme, 0, abe, 0, 1, 0, 0), tme, abe)
  {
    hide Pow2, OrFields, Extract;
    Pow2Widths();
    var fs := PrimFields(6, 0, tme, 0, abe, 0, 1, 0, 0);
    UnpackAll(fs, PRIM_WIDTHS);
    assert fs[0].shift == 0 && fs[2].shift == 4 && fs[4].shift == 6 && fs[6].shift == 8;
  }

  /** A rectangle's corners land in the two XYZ2 writes, moved by the origin of the drawing area and
      kept to 16 bits, whatever the arguments; its one-bit blend flag lands in PRIM. */
  lemma RectLands(x1: u32, y1: u32, c1: u32, x2: u32, y2: u32, z: u32, abe: u32)
    ensures var ops := RectOps(x1, y1, c1, x2, y2, z, abe);
      && (abe < 2 ==> Sprite(ops[0].data, 0, abe))
      && Corner(ops[2].data, (x1 + 0x8000) % W16, (y1 + 0x8000) % W16, z % W16)
      && Corner(ops[3].data, (x2 + 0x8000) % W16, (y2 + 0x8000) % W16, z % W16)
  {
    hide GsXyz, GsPrim, Corner, Sprite;
    XyzLands(x1 + 0x8000, y1 + 0x8000, z);
    XyzLands(x2 + 0x8000, y2 + 0x8000, z);
    if abe < 2 {
      PrimLands(0, abe);
    }
  }

  lemma TexRectLands(x1: u32, y1: u32, u1: u32, v1: u32, x2: u32, y2: u32, u2: u32, v2: u32,
                     z: u32, colour: u32, abe: u32)
    ensures var ops := TexRectOps(x1, y1, u1, v1, x2, y2, u2, v2, z, colour, abe);
      && (abe < 2 ==> Sprite(ops[0].data, 1, abe))
      && Texel(ops[2].data, u1 % W16, v1 % W16) && Texel(ops[4].data, u2 % W16, v2 % W16)
      && Corner(ops[3].data, (x1 + 0x8000) % W16, (y1 + 0x8000) % W16, z % W16)
      && Corner(ops[5].data, (x2 + 0x8000) % W16, (y2 + 0x8000) % W16, z % W16)
  {
    hide GsXyz, GsUv, GsPrim, Corner, Texel, Sprite;
    UvLands(u1, v1);
    UvLands(u2, v2);
    XyzLands(x1 + 0x8000, y1 + 0x8000, z);
    XyzLands(x2 + 0x8000, y2 + 0x8000, z);
    if abe < 2 {
      PrimLands(1, abe);
    }
  }

  /** Texture base, buffer width in units of 64, format, logarithmic sizes and palette, in TEX0. */
  predicate Texture(w: u64, tbp: int, tbw: int, psm: int, tw: int, th: int, cbp: int, cpsm: int) {
    && Extract(w, 0, 14) == tbp && Extract(w, 14, 6) == tbw && Extract(w, 20, 6) == psm
    && Extract(w, 26, 4) == tw && Extract(w, 30, 4) == th
    && Extract(w, 37, 14) == cbp && Extract(w, 51, 4) == cpsm
  }

  lemma Tex0Lands(tbp: nat, tbw: nat, psm: nat, tw: nat, th: nat, cbp: nat, cpsm: nat)
    requires tbp < 0x4000 && tbw < 64 && psm < 64 && tw < 16 && th < 16 && cbp < 0x4000 && cpsm < 16
    ensures Texture(GsTex0(tbp, tbw, psm, tw, th, 1, 0, cbp, cpsm, 1, 0, 1), tbp, tbw, psm, tw, th, cbp, cpsm)
  {
    hide Pow2, OrFields, Extract;
    Pow2Widths();
    var fs := Tex0Fields(tbp, tbw, psm, tw, th, 1, 0, cbp, cpsm, 1, 0, 1);
    UnpackAll(fs, TEX0_WIDTHS);
    assert fs[0].shift == 0 && fs[1].shift == 14 && fs[2].shift == 20 && fs[3].shift == 26 && fs[4].shift == 30;
    assert fs[7].shift == 37 && fs[8].shift == 51;
  }

  /** The texture selected, when every argument fits its field. */
  lemma SetTexLands(tbp: u32, tbw: u32, tw: u32, th: u32, tpsm: u32, cbp: u32, cpsm: u32, filter: bool)
    requires tbp < 0x4000 && tbw < 64 * 64 && tpsm < 64 && tw < 16 && th < 16 && cbp < 0x4000 && cpsm < 16
    ensures var ops := SetTexOps(tbp, tbw, tw, th, tpsm, cbp, cpsm, filter);
      ops[4].reg == GS_REG_TEX0_1 && Texture(ops[4].data, tbp, tbw / 64, tpsm, tw, th, cbp, cpsm)
  {
    hide GsTexa, GsTex0, GsClamp, Texture;
    Tex0Lands(tbp, tbw / 64, tpsm, tw, th, cbp, cpsm);
  }

  /** Where an upload goes, in BITBLTBUF, TRXPOS and TRXREG. */
  predicate Destination(ops: seq<GsOp>, dbp: int, dbw: int, psm: int, x: int, y: int, w: int, h: int)
    requires Registers(ops, 4)
  {
    && Extract(ops[0].data, 32, 16) == dbp && Extract(ops[0].data, 48, 8) == dbw && Extract(ops[0].data, 56, 8) == psm
    && Extract(ops[1].data, 32, 16) == x && Extract(ops[1].data, 48, 11) == y
    && Extract(ops[2].data, 0, 32) == w && Extract(ops[2].data, 32, 32) == h
  }

  /** An upload goes to the buffer, place and size given, when each fits its field. */
  lemma UploadLands(tbp: i32, tbw: i32, xofs: i32, yofs: i32, pxlfmt: i32, w: i32, h: i32)
    requires 0 <= tbp < W16 && 0 <= tbw < 64 * 0x100 && 0 <= pxlfmt < 0x100
    requires 0 <= xofs < W16 && 0 <= yofs < 0x800 && 0 <= w && 0 <= h
    ensures Destination(UploadRegs(tbp, tbw, xofs, yofs, pxlfmt, w, h), tbp, tbw / 64, pxlfmt, xofs, yofs, w, h)
  {
    hide Pow2, OrFields, Extract;
    Pow2Widths();
    var b := BitBltFields(0, tbw / 64, pxlfmt, tbp, tbw / 64, pxlfmt);
    var p, r := TrxPosFields(0, 0, xofs, yofs, 0), TrxRegFields(w, h);
    UnpackAll(b, BITBLT_WIDTHS);
    UnpackAll(p, TRXPOS_WIDTHS);
    UnpackAll(r, TRXREG_WIDTHS);
    assert b[3].shift == 32 && b[4].shift == 48 && b[5].shift == 56 && p[2].shift == 32 && p[3].shift == 48;
    assert r[0].shift == 0 && r[1].shift == 32;
  }

  // ---- every register a primitive writes, in numbers ----

  /** Three 16-bit fields as one number. */
  lemma XyzNumber(x: int, y: int, z: int)
    ensures GsXyz(x, y, z) == x % 0x1_0000 + 0x1_0000 * (y % 0x1_0000) + 0x1_0000_0000 * (z % 0x1_0000)
  {
    hide Pow2, OrFields;
    Pow2Values();
    Pow2Widths();
    var fs := XyzFields(x, y, z);
    WidthsFit(fs, XYZ_WIDTHS);
    OrIsSum(fs, 64);
    assert fs[..2][..1] == fs[..1] && fs[..1][..0] == [];
    assert SumFields(fs[..1]) == x % W16;
    assert SumFields(fs[..2]) == SumFields(fs[..1]) + y % W16 * W16;
  }

  lemma UvNumber(u: int, v: int)
    ensures GsUv(u, v) == u % 0x1_0000 + 0x1_0000 * (v % 0x1_0000)
  {
    hide Pow2, OrFields;
    Pow2Values();
    Pow2Widths();
    var fs := UvFields(u, v);
    WidthsFit(fs, UV_WIDTHS);
    OrIsSum(fs, 64);
    assert fs[..1][..0] == [];
    assert SumFields(fs[..1]) == u % W16;
  }

  lemma TexaNumber()
    ensures GsTexa(128, 1, 0) == 0x8080
  {
    hide Pow2, OrFields;
    Pow2Values();
    Pow2Widths();
    var fs := [Field(128, 0), Field(1, 15), Field(0, 32)];
    WidthsFit(fs, [8, 1, 8]);
    OrIsSum(fs, 64);
    assert fs[..2][..1] == fs[..1] && fs[..1][..0] == [];
    assert SumFields(fs[..1]) == 128;
    assert SumFields(fs[..2]) == SumFields(fs[..1]) + 0x8000;
  }

  lemma ClampNumber()
    ensures GsClamp(0, 0, 0, 0, 0, 0) == 0
  {
    hide OrFields;
    ZeroFields([Field(0, 0), Field(0, 2), Field(0, 4), Field(0, 14), Field(0, 24), Field(0, 34)]);
  }

  /** A rectangle: PRIM, the first colour, and the two corners, for any arguments. */
  lemma RectIs(x1: u32, y1: u32, c1: u32, x2: u32, y2: u32, z: u32, abe: u32)
    ensures var ops := RectOps(x1, y1, c1, x2, y2, z, abe);
      && |ops| == 4
      && ops[0].reg == 0x00 && IsOr(ops[0].data, [Field(6, 0), Field(0, 3), Field(0, 4), Field(0, 5), Field(abe, 6),
                                                 Field(0, 7), Field(1, 8), Field(0, 9), Field(0, 10)])
      && ops[1] == RegWrite(0x01, c1)
      && ops[2] == RegWrite(0x05, (x1 + 0x8000) % 0x1_0000 + 0x1_0000 * ((y1 + 0x8000) % 0x1_0000)
                               + 0x1_0000_0000 * (z % 0x1_0000))
      && ops[3] == RegWrite(0x05, (x2 + 0x8000) % 0x1_0000 + 0x1_0000 * ((y2 + 0x8000) % 0x1_0000)
                               + 0x1_0000_0000 * (z % 0x1_0000))
  {
    hide GsXyz, OrFields, IsOr;
    OrFieldsIs(PrimFields(6, 0, 0, 0, abe, 0, 1, 0, 0));
    XyzNumber(x1 + 0x8000, y1 + 0x8000, z);
    XyzNumber(x2 + 0x8000, y2 + 0x8000, z);
  }

  /** A textured rectangle: PRIM with texture, the colour, and a texture coordinate before each corner. */
  lemma TexRectIs(x1: u32, y1: u32, u1: u32, v1: u32, x2: u32, y2: u32, u2: u32, v2: u32,
                  z: u32, colour: u32, abe: u32)
    ensures var ops := TexRectOps(x1, y1, u1, v1, x2, y2, u2, v2, z, colour, abe);
      && |ops| == 6
      && ops[0].reg == 0x00 && IsOr(ops[0].data, [Field(6, 0), Field(0, 3), Field(1, 4), Field(0, 5), Field(abe, 6),
                                                 Field(0, 7), Field(1, 8), Field(0, 9), Field(0, 10)])
      && ops[1] == RegWrite(0x01, colour)
      && ops[2] == RegWrite(0x03, u1 % 0x1_0000 + 0x1_0000 * (v1 % 0x1_0000))
      && ops[3] == RegWrite(0x05, (x1 + 0x8000) % 0x1_0000 + 0x1_0000 * ((y1 + 0x8000) % 0x1_0000)
                               + 0x1_0000_0000 * (z % 0x1_0000))
      && ops[4] == RegWrite(0x03, u2 % 0x1_0000 + 0x1_0000 * (v2 % 0x1_0000))
      && ops[5] == RegWrite(0x05, (x2 + 0x8000) % 0x1_0000 + 0x1_0000 * ((y2 + 0x8000) % 0x1_0000)
                               + 0x1_0000_0000 * (z % 0x1_0000))
  {
    hide GsXyz, GsUv, OrFields, IsOr;
    OrFieldsIs(PrimFields(6, 0, 1, 0, abe, 0, 1, 0, 0));
    UvNumber(u1, v1);
    UvNumber(u2, v2);
    XyzNumber(x1 + 0x8000, y1 + 0x8000, z);
    XyzNumber(x2 + 0x8000, y2 + 0x8000, z);
  }

  /** Depth tests: always passed on disabling, greater or equal on enabling. */
  lemma ZTestIs(enable: bool)
    ensures ZTestOps(enable) == [RegWrite(0x47, if enable then 0x7_0000 else 0x3_0000)]
  {}

  /** The eight registers of a texture, with every field of TEX0. */
  lemma SetTexIs(tbp: u32, tbw: u32, tw: u32, th: u32, tpsm: u32, cbp: u32, cpsm: u32, filter: bool)
    ensures var ops := SetTexOps(tbp, tbw, tw, th, tpsm, cbp, cpsm, filter);
      && |ops| == 8
      && ops[..4] == [RegWrite(0x1C, 4), RegWrite(0x3F, 0), RegWrite(0x3B, 0x8080),
                      if filter then RegWrite(0x14, 0x60) else RegWrite(0x15, 0x40)]
      && ops[4].reg == 0x06
      && IsOr(ops[4].data, [Field(tbp, 0), Field(tbw / 64, 14), Field(tpsm, 20), Field(tw, 26), Field(th, 30),
                            Field(1, 34), Field(0, 35), Field(cbp, 37), Field(cpsm, 51), Field(1, 55),
                            Field(0, 56), Field(1, 61)])
      && ops[5..] == [RegWrite(0x08, 0), RegWrite(0x42, 0x7F_0000_0044), RegWrite(0x49, 0)]
  {
    hide GsTexa, GsClamp, OrFields, IsOr;
    OrFieldsIs(Tex0Fields(tbp, tbw / 64, tpsm, tw, th, 1, 0, cbp, cpsm, 1, 0, 1));
    TexaNumber();
    ClampNumber();
  }

  /** The four registers of an upload, with every field of the first three; the buffer width is divided
      as C divides. */
  lemma UploadIs(tbp: i32, tbw: i32, bw: int, xofs: i32, yofs: i32, pxlfmt: i32, w: i32, h: i32)
    requires bw == if tbw >= 0 then tbw / 64 else -(-(tbw as int) / 64)
    ensures var ops := UploadRegs(tbp, tbw, xofs, yofs, pxlfmt, w, h);
      && |ops| == 4
      && ops[0].reg == 0x50 && IsOr(ops[0].data, [Field(0, 0), Field(bw, 16), Field(pxlfmt, 24),
                                                 Field(tbp, 32), Field(bw, 48), Field(pxlfmt, 56)])
      && ops[1].reg == 0x51 && IsOr(ops[1].data, [Field(0, 0), Field(0, 16), Field(xofs, 32), Field(yofs, 48),
                                                 Field(0, 59)])
      && ops[2].reg == 0x52 && IsOr(ops[2].data, [Field(w, 0), Field(h, 32)])
      && ops[3] == RegWrite(0x53, 0)
  {
    hide OrFields, IsOr;
    OrFieldsIs(BitBltFields(0, bw, pxlfmt, tbp, bw, pxlfmt));
    OrFieldsIs(TrxPosFields(0, 0, xofs, yofs, 0));
    OrFieldsIs(TrxRegFields(w, h));
  }

  /** Behind them one image: the quadwords of memory from the texture's own on. */
  lemma UploadImage(ext: nat -> u64, tbp: i32, tbw: i32, xofs: i32, yofs: i32, pxlfmt: i32, tex: u32, w: i32, h: i32)
    requires NumQwords(pxlfmt, w * h) >= 0
    ensures var ops, n := UploadOps(ext, tbp, tbw, xofs, yofs, pxlfmt, tex, w, h), NumQwords(pxlfmt, w * h);
      && |ops| == 5 && ops[..4] == UploadRegs(tbp, tbw, xofs, yofs, pxlfmt, w, h)
      && ops[4].Image? && |ops[4].words| == 2 * n
      && forall i :: 0 <= i < 2 * n ==> ops[4].words[i] == ext(tex / 16 * 2 + i)
  {
    hide NumQwords, UploadRegs;
  }

  // ---- what the GIF reads ----

  lemma AdWordsParse(ops: seq<GsOp>)
    requires |ops| < 0x8000 && Registers(ops, |ops|)
    ensures Parse(AdWords(ops)) == Some(ops)
  {
    hide Parse, AdTag;
    var n := |ops|;
    var body := seq(2 * n, k requires 0 <= k < 2 * n => if k % 2 == 0 then ops[k / 2].data else ops[k / 2].reg);
    ParseAd(n, body);
    forall i | 0 <= i < n
      ensures PackedOps(body, n)[i] == ops[i]
    {
      assert body[2 * i] == ops[i].data && body[2 * i + 1] == ops[i].reg;
    }
    assert PackedOps(body, n) == ops;
  }

  lemma RegListParse(regs: u64, ops: seq<GsOp>)
    requires 0 < |ops| < 16 && |ops| % 2 == 0
    requires Registers(ops, |ops|) && forall i :: 0 <= i < |ops| ==> ops[i].reg == TagReg(regs, i)
    ensures Parse(RegListWords(|ops|, regs, ops)) == Some(ops)
  {
    hide Parse, GifSetTag, TagReg;
    var n := |ops|;
    var body := seq(n, k requires 0 <= k < n => ops[k].data);
    ParseRegList(n, regs, body);
    forall i | 0 <= i < n
      ensures RegListOps(regs, n, body, n)[i] == ops[i]
    {
      SmallMod(i, n);
    }
    assert RegListOps(regs, n, body, n) == ops;
  }

  /** The descriptor words of the two register lists name the registers in the order written. */
  lemma Descriptors()
    ensures TagReg(0x5510, 0) == GS_REG_PRIM && TagReg(0x5510, 1) == GS_REG_RGBAQ
    ensures TagReg(0x5510, 2) == GS_REG_XYZ2 && TagReg(0x5510, 3) == GS_REG_XYZ2
    ensures TagReg(0xF535310, 0) == GS_REG_PRIM && TagReg(0xF535310, 1) == GS_REG_RGBAQ
    ensures TagReg(0xF535310, 2) == GS_REG_UV && TagReg(0xF535310, 3) == GS_REG_XYZ2
    ensures TagReg(0xF535310, 4) == GS_REG_UV && TagReg(0xF535310, 5) == GS_REG_XYZ2
  {
    hide TagReg, Pow2;
    NibblePowers();
    Nibble(0x5510, 0, 1);
    Nibble(0x5510, 1, 16);
    Nibble(0x5510, 2, 0x100);
    Nibble(0x5510, 3, 0x1000);
    Nibble(0xF535310, 0, 1);
    Nibble(0xF535310, 1, 16);
    Nibble(0xF535310, 2, 0x100);
    Nibble(0xF535310, 3, 0x1000);
    Nibble(0xF535310, 4, 0x1_0000);
    Nibble(0xF535310, 5, 0x10_0000);
  }

  lemma NibblePowers()
    ensures Pow2(0) == 1 && Pow2(4) == 16 && Pow2(8) == 0x100 && Pow2(12) == 0x1000
    ensures Pow2(16) == 0x1_0000 && Pow2(20) == 0x10_0000
  {
    hide Pow2;
    Pow2Values();
    Pow2Sum(8, 4);
    Pow2Sum(16, 4);
  }

  lemma Nibble(regs: u64, k: nat, p: nat)
    requires p == Pow2(4 * k)
    ensures p > 0 && TagReg(regs, k) == regs / p % 16
  {
    assert Pow2(4) == 16 by { Pow2Values(); }
  }

  /** A register list appended word by word. */
  lemma RegList4(s: seq<u64>, regs: u64, ops: seq<GsOp>)
    requires Registers(ops, 4)
    ensures s + [GifSetTag(1, 1, 0, 0, 1, 4), regs] + [ops[0].data] + [ops[1].data] + [ops[2].data] + [ops[3].data]
         == s + RegListWords(4, regs, ops)
  {
    hide GifSetTag;
  }

  lemma RegList6(s: seq<u64>, regs: u64, ops: seq<GsOp>)
    requires Registers(ops, 6)
    ensures s + [GifSetTag(1, 1, 0, 0, 1, 6), regs] + [ops[0].data] + [ops[1].data] + [ops[2].data]
              + [ops[3].data] + [ops[4].data] + [ops[5].data]
         == s + RegListWords(6, regs, ops)
  {
    hide GifSetTag;
  }

  lemma RectParses(x1: u32, y1: u32, c1: u32, x2: u32, y2: u32, z: u32, abe: u32)
    ensures var ops := RectOps(x1, y1, c1, x2, y2, z, abe);
      Parse(RegListWords(4, 0x5510, ops)) == Some(ops) && Even(|RegListWords(4, 0x5510, ops)|)
  {
    hide Parse, TagReg, GsPrim, GsXyz, RegListWords;
    Descriptors();
    RegListParse(0x5510, RectOps(x1, y1, c1, x2, y2, z, abe));
  }

  lemma TexRectParses(x1: u32, y1: u32, u1: u32, v1: u32, x2: u32, y2: u32, u2: u32, v2: u32,
                      z: u32, colour: u32, abe: u32)
    ensures var ops := TexRectOps(x1, y1, u1, v1, x2, y2, u2, v2, z, colour, abe);
      Parse(RegListWords(6, 0xF535310, ops)) == Some(ops) && Even(|RegListWords(6, 0xF535310, ops)|)
  {
    hide Parse, TagReg, GsPrim, GsXyz, GsUv, RegListWords;
    Descriptors();
    RegListParse(0xF535310, TexRectOps(x1, y1, u1, v1, x2, y2, u2, v2, z, colour, abe));
  }

  /** The image tag sits in a CNT segment and its data arrives by REF; they read as one image. */
  lemma UploadParses(ext: nat -> u64, tbp: i32, tbw: i32, xofs: i32, yofs: i32, pxlfmt: i32,
                     tex: u32, w: i32, h: i32)
    requires 0 <= NumQwords(pxlfmt, w * h) < 0x8000
    ensures var n := NumQwords(pxlfmt, w * h);
      Parse(AdWords(UploadRegs(tbp, tbw, xofs, yofs, pxlfmt, w, h)) + ([ImageTag(n), 0] + RefData(ext, tex, n)))
      == Some(UploadOps(ext, tbp, tbw, xofs, yofs, pxlfmt, tex, w, h))
  {
    hide Parse, AdWords, ImageTag, NumQwords, GsBitBltBuf, GsTrxPos, GsTrxReg;
    var n, regs := NumQwords(pxlfmt, w * h), UploadRegs(tbp, tbw, xofs, yofs, pxlfmt, w, h);
    AdWordsParse(regs);
    ParseImage(n, RefData(ext, tex, n));
    ParseAppend(AdWords(regs), [ImageTag(n), 0] + RefData(ext, tex, n));
  }

  /** `words` appended to a stream of complete packets adds `ops` to what it reads as. */
  ghost predicate Appended(before: seq<u64>, after: seq<u64>, words: seq<u64>, ops: seq<GsOp>) {
    && after == before + words
    && (Parse(before).Some? ==> Parse(after) == Some(Parse(before).value + ops))
  }

  lemma EvenAppend(s: seq<u64>, t: seq<u64>)
    requires Even(|s|) && Even(|t|)
    ensures Even(|s + t|)
  {}

  lemma AppendedTo(before: seq<u64>, words: seq<u64>, ops: seq<GsOp>)
    requires Parse(words) == Some(ops)
    ensures Appended(before, before + words, words, ops)
  {
    hide Parse;
    if Parse(before).Some? {
      ParseAppend(before, words);
    }
  }

  lemma AppendedWhenParsed(before: seq<u64>, open: seq<u64>, open': seq<u64>, words: seq<u64>, ops: seq<GsOp>)
    requires open' == open + words && Parse(words) == Some(ops)
    requires Even(|open|) && Even(|words|)
    ensures Appended(before + open, before + open', words, ops) && Even(|open'|)
  {
    hide Parse, Even, Appended;
    EvenAppend(open, words);
    assert before + open' == (before + open) + words;
    AppendedTo(before + open, words, ops);
  }

  // ---- gpprim.c ----

  /** GSGifReg and what the channel does before the next call. */
  method Reg(f: Fifo, data: u64)
    requires f.Building() && f.Owned() && f.spec.phase == InRegList && Room(f.list, f.spec) >= 1
    modifies f, f.mem
    ensures f.Building() && f.Owned() && f.iCurList == old(f.iCurList) && f.waits == old(f.waits)
    ensures f.list == old(f.list).(pGifData := old(f.list.pGifData) + 1)
    ensures f.spec == old(f.spec).(words := old(f.spec.words) + [data])
  {
    hide Fifo.Building, Fifo.Owned, Fifo.ChannelReady, Fifo.FifoOk, SameOutside;
    f.GSGifReg(data);
    f.Channel();
  }

  /** GSGifRegAD and what the channel does before the next call. */
  method RegAD(f: Fifo, addr: u32, data: u64)
    requires f.Building() && f.Owned() && f.spec.phase == InAd && Room(f.list, f.spec) >= 2
    modifies f, f.mem
    ensures f.Building() && f.Owned() && f.iCurList == old(f.iCurList) && f.waits == old(f.waits)
    ensures f.list == old(f.list).(pPtr := old(f.list.pPtr) + 2)
    ensures f.spec == old(f.spec).(words := old(f.spec.words) + [data, addr])
  {
    hide Fifo.Building, Fifo.Owned, Fifo.ChannelReady, Fifo.FifoOk, SameOutside;
    f.GSGifRegAD(addr, data);
    f.Channel();
  }

  method GPPrimRect(f: Fifo, x1: u32, y1: u32, c1: u32, x2: u32, y2: u32, c2: u32, z: u32, abe: u32)
    requires f.Ready() && f.nListQwords >= 257
    modifies f, f.mem
    ensures f.Ready() && f.SentWhole()
    ensures var room := (old(f.list.pEnd) - old(f.list.pPtr)) / 2 >= 256;
      && f.iCurList == (if room then old(f.iCurList) else 1 - old(f.iCurList))
      && f.spec.sent == (if room then old(f.spec.sent) else old(f.Stream()))
      && f.waits == (if room then old(f.waits) else old(f.waits) + 1)
    ensures var ops := RectOps(x1, y1, c1, x2, y2, z, abe);
      Appended(old(f.Stream()), f.Stream(), RegListWords(4, 0x5510, ops), ops)
  {
    hide Parse, Fifo.Building, Fifo.Owned, Fifo.ChannelReady, Fifo.FifoOk, SameOutside, Even, GsPrim, GsXyz,
      GifSetTag, RegListWords, Appended;
    var ok := f.GSListSpace(256);
    f.Channel();
    ghost var words := f.spec.words;
    var x1', y1' := (x1 + 0x8000) % W32, (y1 + 0x8000) % W32;
    var x2', y2' := (x2 + 0x8000) % W32, (y2 + 0x8000) % W32;
    XyzWrap(x1, y1, z);
    XyzWrap(x2, y2, z);
    f.GSGifTagOpen(GifSetTag(1, 1, 0, 0, 1, 4), 0x5510);
    f.Channel();
    Reg(f, GsPrim(6, 0, 0, 0, abe, 0, 1, 0, 0));
    Reg(f, c1);
    Reg(f, GsXyz(x1', y1', z));
    Reg(f, GsXyz(x2', y2', z));
    f.GSGifTagClose();
    f.Channel();
    ghost var ops: seq<GsOp> := RectOps(x1, y1, c1, x2, y2, z, abe);
    RegList4(words, 0x5510, ops);
    RectParses(x1, y1, c1, x2, y2, z, abe);
    AppendedWhenParsed(f.spec.before, words, f.spec.words, RegListWords(4, 0x5510, ops), ops);
  }

  /** Adding the offset in 32 bits does not change the 16 bits that are kept. */
  lemma XyzWrap(x: u32, y: u32, z: u32)
    ensures GsXyz((x + 0x8000) % W32, (y + 0x8000) % W32, z) == GsXyz(x + 0x8000, y + 0x8000, z)
  {
    assert (x + 0x8000) % W32 % W16 == (x + 0x8000) % W16;
    assert (y + 0x8000) % W32 % W16 == (y + 0x8000) % W16;
  }

  /** The six registers of GPPrimTexRect. */
  method TexRectWrites(f: Fifo, prim: u64, rgbaq: u64, uv1: u64, xyz1: u64, uv2: u64, xyz2: u64)
    requires f.Building() && f.Owned() && f.spec.phase == InRegList && Room(f.list, f.spec) >= 6
    modifies f, f.mem
    ensures f.Building() && f.Owned() && f.iCurList == old(f.iCurList) && f.waits == old(f.waits)
    ensures f.list == old(f.list).(pGifData := old(f.list.pGifData) + 6)
    ensures f.spec == old(f.spec).(words := old(f.spec.words) + [prim] + [rgbaq] + [uv1] + [xyz1] + [uv2] + [xyz2])
  {
    hide Fifo.Building, Fifo.Owned, Fifo.ChannelReady, Fifo.FifoOk;
    Reg(f, prim);
    Reg(f, rgbaq);
    Reg(f, uv1);
    Reg(f, xyz1);
    Reg(f, uv2);
    Reg(f, xyz2);
  }

  method GPPrimTexRect(f: Fifo, x1: u32, y1: u32, u1: u32, v1: u32, x2: u32, y2: u32, u2: u32, v2: u32,
                       z: u32, colour: u32, abe: u32)
    requires f.Ready() && f.nListQwords >= 257
    modifies f, f.mem
    ensures f.Ready() && f.SentWhole()
    ensures var room := (old(f.list.pEnd) - old(f.list.pPtr)) / 2 >= 256;
      && f.iCurList == (if room then old(f.iCurList) else 1 - old(f.iCurList))
      && f.spec.sent == (if room then old(f.spec.sent) else old(f.Stream()))
      && f.waits == (if room then old(f.waits) else old(f.waits) + 1)
    ensures var ops := TexRectOps(x1, y1, u1, v1, x2, y2, u2, v2, z, colour, abe);
      Appended(old(f.Stream()), f.Stream(), RegListWords(6, 0xF535310, ops), ops)
  {
    hide Parse, Fifo.Building, Fifo.Owned, Fifo.ChannelReady, Fifo.FifoOk, SameOutside, Even, GsPrim, GsXyz,
      GsUv, GifSetTag, RegListWords, Appended;
    var ok := f.GSListSpace(256);
    f.Channel();
    ghost var words := f.spec.words;
    var x1', y1' := (x1 + 0x8000) % W32, (y1 + 0x8000) % W32;
    var x2', y2' := (x2 + 0x8000) % W32, (y2 + 0x8000) % W32;
    XyzWrap(x1, y1, z);
    XyzWrap(x2, y2, z);
    f.GSGifTagOpen(GifSetTag(1, 1, 0, 0, 1, 6), 0xF535310);
    f.Channel();
    TexRectWrites(f, GsPrim(6, 0, 1, 0, abe, 0, 1, 0, 0), colour, GsUv(u1, v1), GsXyz(x1', y1', z),
                  GsUv(u2, v2), GsXyz(x2', y2', z));
    f.GSGifTagClose();
    f.Channel();
    ghost var ops: seq<GsOp> := TexRectOps(x1, y1, u1, v1, x2, y2, u2, v2, z, colour, abe);
    RegList6(words, 0xF535310, ops);
    TexRectParses(x1, y1, u1, v1, x2, y2, u2, v2, z, colour, abe);
    AppendedWhenParsed(f.spec.before, words, f.spec.words, RegListWords(6, 0xF535310, ops), ops);
  }

  /** An A+D packet appended write by write and then patched. */
  lemma AdList1(s: seq<u64>, ops: seq<GsOp>)
    requires Registers(ops, 1)
    ensures (s + [TagWord(0, 0, TAG1_AD), GIF_REG_AD] + [ops[0].data, ops[0].reg])[|s| := AdTag(1)]
         == s + AdWords(ops)
  {
    hide AdTag, TagWord;
  }

  lemma AdList4(s: seq<u64>, ops: seq<GsOp>)
    requires Registers(ops, 4)
    ensures (s + [TagWord(0, 0, TAG1_AD), GIF_REG_AD] + [ops[0].data, ops[0].reg] + [ops[1].data, ops[1].reg]
               + [ops[2].data, ops[2].reg] + [ops[3].data, ops[3].reg])[|s| := AdTag(4)]
         == s + AdWords(ops)
  {
    hide AdTag, TagWord;
  }

  lemma AdList8(s: seq<u64>, ops: seq<GsOp>)
    requires Registers(ops, 8)
    ensures (s + [TagWord(0, 0, TAG1_AD), GIF_REG_AD] + [ops[0].data, ops[0].reg] + [ops[1].data, ops[1].reg]
               + [ops[2].data, ops[2].reg] + [ops[3].data, ops[3].reg] + [ops[4].data, ops[4].reg]
               + [ops[5].data, ops[5].reg] + [ops[6].data, ops[6].reg] + [ops[7].data, ops[7].reg])[|s| := AdTag(8)]
         == s + AdWords(ops)
  {
    hide AdTag, TagWord;
  }

  lemma SetTexList(s: seq<u64>, tbp: u32, tbw: u32, tw: u32, th: u32, tpsm: u32, cbp: u32, cpsm: u32, filter: bool)
    ensures var tex1 := if filter then [0x60, GS_REG_TEX1_1] else [0x40, GS_REG_TEX1_2];
      var tex0 := GsTex0(tbp, tbw / 64, tpsm, tw, th, 1, 0, cbp, cpsm, 1, 0, 1);
      (s + [TagWord(0, 0, TAG1_AD), GIF_REG_AD] + [4, GS_REG_TEXCLUT] + [0, GS_REG_TEXFLUSH]
         + [GsTexa(128, 1, 0), GS_REG_TEXA] + tex1 + [tex0, GS_REG_TEX0_1]
         + [GsClamp(0, 0, 0, 0, 0, 0), GS_REG_CLAMP_1] + [0x7F_0000_0044, GS_REG_ALPHA_1]
         + [0, GS_REG_PABE])[|s| := AdTag(8)]
      == s + AdWords(SetTexOps(tbp, tbw, tw, th, tpsm, cbp, cpsm, filter))
  {
    hide AdTag, TagWord, AdWords, GsTexa, GsTex0, GsClamp;
    AdList8(s, SetTexOps(tbp, tbw, tw, th, tpsm, cbp, cpsm, filter));
  }

  /** GPPrimEnableZBuf and GPPrimDisableZBuf. */
  method GPPrimZBuf(f: Fifo, enable: bool)
    requires f.Ready() && f.nListQwords >= 129
    modifies f, f.mem
    ensures f.Ready() && f.SentWhole()
    ensures var room := (old(f.list.pEnd) - old(f.list.pPtr)) / 2 >= 128;
      && f.iCurList == (if room then old(f.iCurList) else 1 - old(f.iCurList))
      && f.spec.sent == (if room then old(f.spec.sent) else old(f.Stream()))
      && f.waits == (if room then old(f.waits) else old(f.waits) + 1)
    ensures Appended(old(f.Stream()), f.Stream(), AdWords(ZTestOps(enable)), ZTestOps(enable))
  {
    hide Parse, Fifo.Building, Fifo.Owned, Fifo.ChannelReady, Fifo.FifoOk, SameOutside, Even, TagWord, AdTag,
      AdWords, Appended;
    var ok := f.GSListSpace(128);
    f.Channel();
    ghost var words := f.spec.words;
    f.GSGifTagOpenAD();
    f.Channel();
    RegAD(f, GS_REG_TEST_1, if enable then 0x0007_0000 else 0x0003_0000);
    f.GSGifTagCloseAD(1);
    f.Channel();
    ghost var ops: seq<GsOp> := ZTestOps(enable);
    AdList1(words, ops);
    AdWordsParse(ops);
    AppendedWhenParsed(f.spec.before, words, f.spec.words, AdWords(ops), ops);
  }

  /** The first four registers of GPPrimSetTex. */
  method SetTexFirst(f: Fifo, texa: u64, filter: bool)
    requires f.Building() && f.Owned() && f.spec.phase == InAd && f.list.pPtr + 8 <= f.list.pEnd
    modifies f, f.mem
    ensures f.Building() && f.Owned() && f.list == old(f.list).(pPtr := old(f.list.pPtr) + 8)
    ensures f.iCurList == old(f.iCurList) && f.waits == old(f.waits)
    ensures var tex1 := if filter then [0x60, GS_REG_TEX1_1] else [0x40, GS_REG_TEX1_2];
      f.spec == old(f.spec).(words := old(f.spec.words) + [4, GS_REG_TEXCLUT] + [0, GS_REG_TEXFLUSH]
                                      + [texa, GS_REG_TEXA] + tex1)
  {
    hide Fifo.Building, Fifo.Owned, Fifo.ChannelReady, Fifo.FifoOk, SameOutside;
    RegAD(f, GS_REG_TEXCLUT, 256 / 64);
    RegAD(f, GS_REG_TEXFLUSH, 0);
    RegAD(f, GS_REG_TEXA, texa);
    if filter {
      RegAD(f, GS_REG_TEX1_1, 0x20 + 0x40);
    } else {
      RegAD(f, GS_REG_TEX1_2, 0x40);
    }
  }

  /** The other four. */
  method SetTexSecond(f: Fifo, tex0: u64, clamp: u64)
    requires f.Building() && f.Owned() && f.spec.phase == InAd && f.list.pPtr + 8 <= f.list.pEnd
    modifies f, f.mem
    ensures f.Building() && f.Owned() && f.list == old(f.list).(pPtr := old(f.list.pPtr) + 8)
    ensures f.iCurList == old(f.iCurList) && f.waits == old(f.waits)
    ensures f.spec == old(f.spec).(words := old(f.spec.words) + [tex0, GS_REG_TEX0_1]
              + [clamp, GS_REG_CLAMP_1] + [0x7F_0000_0044, GS_REG_ALPHA_1] + [0, GS_REG_PABE])
  {
    hide Fifo.Building, Fifo.Owned, Fifo.ChannelReady, Fifo.FifoOk, SameOutside;
    RegAD(f, GS_REG_TEX0_1, tex0);
    RegAD(f, GS_REG_CLAMP_1, clamp);
    RegAD(f, GS_REG_ALPHA_1, 0x7F_0000_0044);
    RegAD(f, GS_REG_PABE, 0);
  }

  method GPPrimSetTex(f: Fifo, tbp: u32, tbw: u32, texwidthlog2: u32, texheightlog2: u32, tpsm: u32,
                      cbp: u32, cbw: u32, cpsm: u32, filter: bool)
    requires f.Ready() && f.nListQwords >= 129
    modifies f, f.mem
    ensures f.Ready() && f.SentWhole()
    ensures var room := (old(f.list.pEnd) - old(f.list.pPtr)) / 2 >= 128;
      && f.iCurList == (if room then old(f.iCurList) else 1 - old(f.iCurList))
      && f.spec.sent == (if room then old(f.spec.sent) else old(f.Stream()))
      && f.waits == (if room then old(f.waits) else old(f.waits) + 1)
    ensures var ops := SetTexOps(tbp, tbw, texwidthlog2, texheightlog2, tpsm, cbp, cpsm, filter);
      Appended(old(f.Stream()), f.Stream(), AdWords(ops), ops)
  {
    hide Parse, Fifo.Building, Fifo.Owned, Fifo.ChannelReady, Fifo.FifoOk, SameOutside, Even, TagWord, AdTag,
      AdWords, Appended, SetTexOps, GsTexa, GsTex0, GsClamp;
    var ok := f.GSListSpace(128);
    f.Channel();
    ghost var words := f.spec.words;
    f.GSGifTagOpenAD();
    f.Channel();
    SetTexFirst(f, GsTexa(128, 1, 0), filter);
    SetTexSecond(f, GsTex0(tbp, tbw / 64, tpsm, texwidthlog2, texheightlog2, 1, 0, cbp, cpsm, 1, 0, 1),
                 GsClamp(0, 0, 0, 0, 0, 0));
    f.GSGifTagCloseAD(8);
    f.Channel();
    ghost var ops: seq<GsOp> := SetTexOps(tbp, tbw, texwidthlog2, texheightlog2, tpsm, cbp, cpsm, filter);
    SetTexList(words, tbp, tbw, texwidthlog2, texheightlog2, tpsm, cbp, cpsm, filter);
    AdWordsParse(ops);
    AppendedWhenParsed(f.spec.before, words, f.spec.words, AdWords(ops), ops);
  }

  lemma UploadList(s: seq<u64>, ops: seq<GsOp>, n: nat)
    requires Registers(ops, 4)
    ensures (s + [TagWord(0, 0, TAG1_AD), GIF_REG_AD] + [ops[0].data, ops[0].reg] + [ops[1].data, ops[1].reg]
               + [ops[2].data, ops[2].reg] + [ops[3].data, ops[3].reg])[|s| := AdTag(4)] + [ImageTag(n), 0]
         == s + (AdWords(ops) + [ImageTag(n), 0])
    ensures Even(|s|) ==> Even(|s + (AdWords(ops) + [ImageTag(n), 0])|)
  {
    hide AdTag, TagWord, AdWords, ImageTag;
    AdList4(s, ops);
  }

  lemma Regroup(b: seq<u64>, w: seq<u64>, a: seq<u64>, t: seq<u64>, r: seq<u64>)
    ensures b + (w + (a + t)) + r == b + w + (a + (t + r))
  {}

  /** The last steps of GPPrimUploadTexture: the image data is spliced in between two CNT tags. */
  method SpliceImage(f: Fifo, tex: u32, numq: nat)
    requires f.Sized() && f.Building() && f.Owned() && f.spec.phase == InCnt && Even(|f.spec.words|)
    requires f.list.pPtr + 6 <= f.list.pEnd && numq < W16
    modifies f, f.mem
    ensures f.Ready() && f.spec.sent == old(f.spec.sent) && f.iCurList == old(f.iCurList) && f.waits == old(f.waits)
    ensures f.Stream() == old(f.Stream()) + RefData(f.ext, tex, numq)
  {
    hide Chain, ChannelOk, OpenList, Accounted, RefData, SameOutside, TagWord;
    f.Channel();
    f.GSDmaCntClose();
    f.Channel();
    f.GSDmaRef(tex, numq);
    f.Channel();
    f.GSDmaCntOpen();
    f.Channel();
  }

  /** The four registers of GPPrimUploadTexture. */
  method UploadWrites(f: Fifo, bitblt: u64, trxpos: u64, trxreg: u64, trxdir: u64)
    requires f.Building() && f.Owned() && f.spec.phase == InAd && f.list.pPtr + 8 <= f.list.pEnd
    modifies f, f.mem
    ensures f.Building() && f.Owned() && f.list == old(f.list).(pPtr := old(f.list.pPtr) + 8)
    ensures f.iCurList == old(f.iCurList) && f.waits == old(f.waits)
    ensures f.spec == old(f.spec).(words := old(f.spec.words) + [bitblt, GS_REG_BITBLTBUF] + [trxpos, GS_REG_TRXPOS]
                                             + [trxreg, GS_REG_TRXREG] + [trxdir, GS_REG_TRXDIR])
  {
    hide Fifo.Building, Fifo.Owned, Fifo.ChannelReady, Fifo.FifoOk;
    RegAD(f, GS_REG_BITBLTBUF, bitblt);
    RegAD(f, GS_REG_TRXPOS, trxpos);
    RegAD(f, GS_REG_TRXREG, trxreg);
    RegAD(f, GS_REG_TRXDIR, trxdir);
  }

  /** The image's quadword count must fit NLOOP, which GSGifTagImage asserts. */
  method GPPrimUploadTexture(f: Fifo, TBP: i32, TBW: i32, xofs: i32, yofs: i32, pxlfmt: i32, tex: u32,
                             wpxls: i32, hpxls: i32)
    requires f.Ready() && f.nListQwords >= 129
    requires 0 <= NumQwords(pxlfmt, wpxls * hpxls) < 0x8000
    modifies f, f.mem
    ensures f.Ready() && f.SentWhole()
    ensures var room := (old(f.list.pEnd) - old(f.list.pPtr)) / 2 >= 128;
      && f.iCurList == (if room then old(f.iCurList) else 1 - old(f.iCurList))
      && f.spec.sent == (if room then old(f.spec.sent) else old(f.Stream()))
      && f.waits == (if room then old(f.waits) else old(f.waits) + 1)
    ensures var n := NumQwords(pxlfmt, wpxls * hpxls);
      Appended(old(f.Stream()), f.Stream(),
               AdWords(UploadRegs(TBP, TBW, xofs, yofs, pxlfmt, wpxls, hpxls))
               + ([ImageTag(n), 0] + RefData(f.ext, tex, n)),
               UploadOps(f.ext, TBP, TBW, xofs, yofs, pxlfmt, tex, wpxls, hpxls))
  {
    hide Parse, Fifo.Building, Fifo.Owned, Fifo.ChannelReady, Fifo.FifoOk, SameOutside, Even, TagWord, AdTag,
      ImageTag, AdWords, Appended,
      UploadOps, NumQwords, RefData, GsBitBltBuf, GsTrxPos, GsTrxReg, GsTrxDir, TruncDiv;
    ghost var regs: seq<GsOp> := UploadRegs(TBP, TBW, xofs, yofs, pxlfmt, wpxls, hpxls);
    var numq := NumQwords(pxlfmt, wpxls * hpxls);
    var ok := f.GSListSpace(128);
    f.Channel();
    ghost var before, words := f.spec.before, f.spec.words;
    f.GSGifTagOpenAD();
    f.Channel();
    UploadWrites(f, GsBitBltBuf(0, TruncDiv(TBW, 64), pxlfmt, TBP, TruncDiv(TBW, 64), pxlfmt),
                 GsTrxPos(0, 0, xofs, yofs, 0), GsTrxReg(wpxls, hpxls), GsTrxDir(0));
    f.GSGifTagCloseAD(4);
    f.Channel();
    f.GSGifTagImage(numq);
    f.Channel();
    UploadList(words, regs, numq);
    SpliceImage(f, tex, numq);
    Regroup(before, words, AdWords(regs), [ImageTag(numq), 0], RefData(f.ext, tex, numq));
    UploadParses(f.ext, TBP, TBW, xofs, yofs, pxlfmt, tex, wpxls, hpxls);
    AppendedTo(old(f.Stream()), AdWords(regs) + ([ImageTag(numq), 0] + RefData(f.ext, tex, numq)),
               UploadOps(f.ext, TBP, TBW, xofs, yofs, pxlfmt, tex, wpxls, hpxls));
  }
}
