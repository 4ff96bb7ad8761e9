/** The register packing macros of gs.h that the primitives use, and what the GS reads back. */
module GsRegs {
  import opened Words
  import opened BitFields

  const GS_REG_PRIM := 0x00
  const GS_REG_RGBAQ := 0x01
  const GS_REG_UV := 0x03
  const GS_REG_XYZ2 := 0x05
  const GS_REG_TEX0_1 := 0x06
  const GS_REG_CLAMP_1 := 0x08
  const GS_REG_TEX1_1 := 0x14
  const GS_REG_TEX1_2 := 0x15
  const GS_REG_TEXCLUT := 0x1C
  const GS_REG_TEXA := 0x3B
  const GS_REG_TEXFLUSH := 0x3F
  const GS_REG_ALPHA_1 := 0x42
  const GS_REG_TEST_1 := 0x47
  const GS_REG_PABE := 0x49
  const GS_REG_BITBLTBUF := 0x50
  const GS_REG_TRXPOS := 0x51
  const GS_REG_TRXREG := 0x52
  const GS_REG_TRXDIR := 0x53

  function XyzFields(x: int, y: int, z: int): seq<Field> {
    [Field(x % W16, 0), Field(y % W16, 16), Field(z % W16, 32)]
  }

  function GsXyz(x: int, y: int, z: int): u64 { OrFields(XyzFields(x, y, z)) }

  function UvFields(u: int, v: int): seq<Field> {
    [Field(u % W16, 0), Field(v % W16, 16)]
  }

  function GsUv(u: int, v: int): u64 { OrFields(UvFields(u, v)) }

  function PrimFields(prim: int, iip: int, tme: int, fge: int, abe: int, aa1: int, fst: int, ctxt: int, fix: int)
    : seq<Field>
  {
    [Field(prim, 0), Field(iip, 3), Field(tme, 4), Field(fge, 5), Field(abe, 6),
     Field(aa1, 7), Field(fst, 8), Field(ctxt, 9), Field(fix, 10)]
  }

  function GsPrim(prim: int, iip: int, tme: int, fge: int, abe: int, aa1: int, fst: int, ctxt: int, fix: int): u64 {
    OrFields(PrimFields(prim, iip, tme, fge, abe, aa1, fst, ctxt, fix))
  }

  function Tex0Fields(tbp: int, tbw: int, psm: int, tw: int, th: int, tcc: int, tfx: int,
                      cbp: int, cpsm: int, csm: int, csa: int, cld: int): seq<Field>
  {
    [Field(tbp, 0), Field(tbw, 14), Field(psm, 20), Field(tw, 26), Field(th, 30), Field(tcc, 34),
     Field(tfx, 35), Field(cbp, 37), Field(cpsm, 51), Field(csm, 55), Field(csa, 56), Field(cld, 61)]
  }

  function GsTex0(tbp: int, tbw: int, psm: int, tw: int, th: int, tcc: int, tfx: int,
                  cbp: int, cpsm: int, csm: int, csa: int, cld: int): u64
  {
    OrFields(Tex0Fields(tbp, tbw, psm, tw, th, tcc, tfx, cbp, cpsm, csm, csa, cld))
  }

  function GsTexa(ta0: int, aem: int, ta1: int): u64 {
    OrFields([Field(ta0, 0), Field(aem, 15), Field(ta1, 32)])
  }

  function GsClamp(wms: int, wmt: int, minu: int, maxu: int, minv: int, maxv: int): u64 {
    OrFields([Field(wms, 0), Field(wmt, 2), Field(minu, 4), Field(maxu, 14), Field(minv, 24), Field(maxv, 34)])
  }

  function BitBltFields(sbp: int, sbw: int, spsm: int, dbp: int, dbw: int, dpsm: int): seq<Field> {
    [Field(sbp, 0), Field(sbw, 16), Field(spsm, 24), Field(dbp, 32), Field(dbw, 48), Field(dpsm, 56)]
  }

  function GsBitBltBuf(sbp: int, sbw: int, spsm: int, dbp: int, dbw: int, dpsm: int): u64 {
    OrFields(BitBltFields(sbp, sbw, spsm, dbp, dbw, dpsm))
  }

  function TrxPosFields(ssax: int, ssay: int, dsax: int, dsay: int, dir: int): seq<Field> {
    [Field(ssax, 0), Field(ssay, 16), Field(dsax, 32), Field(dsay, 48), Field(dir, 59)]
  }

  function GsTrxPos(ssax: int, ssay: int, dsax: int, dsay: int, dir: int): u64 {
    OrFields(TrxPosFields(ssax, ssay, dsax, dsay, dir))
  }

  function TrxRegFields(rrw: int, rrh: int): seq<Field> {
    [Field(rrw, 0), Field(rrh, 32)]
  }

  function GsTrxReg(rrw: int, rrh: int): u64 { OrFields(TrxRegFields(rrw, rrh)) }

  function GsTrxDir(xdr: int): u64 { xdr % W64 }

  // ---- the widths of the fields ----

  const XYZ_WIDTHS: seq<nat> := [16, 16, 16]
  const UV_WIDTHS: seq<nat> := [16, 16]
  const PRIM_WIDTHS: seq<nat> := [3, 1, 1, 1, 1, 1, 1, 1, 1]
  const TEX0_WIDTHS: seq<nat> := [14, 6, 6, 4, 4, 1, 2, 14, 4, 1, 5, 3]
  const BITBLT_WIDTHS: seq<nat> := [16, 8, 8, 16, 8, 8]
  const TRXPOS_WIDTHS: seq<nat> := [16, 16, 16, 11, 5]
  const TRXREG_WIDTHS: seq<nat> := [32, 32]
}
