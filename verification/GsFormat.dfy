/** The packing macros of gs.h and the tag words that gslist.c stores field by field. */
module GsFormat {
  import opened Words
  import opened BitFields

  // ---- GIF tags ----

  function GifTagFields(nloop: int, eop: int, pre: int, prim: int, flg: int, nreg: int): seq<Field> {
    [Field(nloop, 0), Field(eop, 15), Field(pre, 46), Field(prim, 47), Field(flg, 58), Field(nreg, 60)]
  }

  /** GIF_SET_TAG */
  function GifSetTag(nloop: int, eop: int, pre: int, prim: int, flg: int, nreg: int): u64 {
    OrFields(GifTagFields(nloop, eop, pre, prim, flg, nreg))
  }

  // What the GIF reads out of the low word of a tag.
  function TagNloop(w: u64): nat { Extract(w, 0, 15) }
  function TagEop(w: u64): nat { Extract(w, 15, 1) }
  function TagPre(w: u64): nat { Extract(w, 46, 1) }
  function TagPrim(w: u64): nat { Extract(w, 47, 11) }
  function TagFlg(w: u64): nat { Extract(w, 58, 2) }
  function TagNreg(w: u64): nat { Extract(w, 60, 4) }

  /** Register descriptor `k` of the high word of a tag. */
  function TagReg(regs: u64, k: nat): nat {
    Extract(regs, 4 * k, 4)
  }

  ghost predicate TagFieldsFit(nloop: int, eop: int, pre: int, prim: int, flg: int, nreg: int) {
    && 0 <= nloop < 0x8000 && 0 <= eop < 2 && 0 <= pre < 2
    && 0 <= prim < 0x800 && 0 <= flg < 4 && 0 <= nreg < 16
  }

  lemma TagFits(nloop: int, eop: int, pre: int, prim: int, flg: int, nreg: int)
    requires TagFieldsFit(nloop, eop, pre, prim, flg, nreg)
    ensures Fits(GifTagFields(nloop, eop, pre, prim, flg, nreg), 64)
  {
    hide Pow2, FitsAt;
    Pow2Values();
    var fs := GifTagFields(nloop, eop, pre, prim, flg, nreg);
    FieldFits(fs, 64, 0, 15);
    FieldFits(fs, 64, 1, 1);
    FieldFits(fs, 64, 2, 1);
    FieldFits(fs, 64, 3, 11);
    FieldFits(fs, 64, 4, 2);
    FieldFits(fs, 64, 5, 4);
  }

  /** Every field written by GIF_SET_TAG is the field the GIF reads. */
  lemma GifTagDecodes(nloop: int, eop: int, pre: int, prim: int, flg: int, nreg: int)
    requires TagFieldsFit(nloop, eop, pre, prim, flg, nreg)
    ensures var w := GifSetTag(nloop, eop, pre, prim, flg, nreg);
      && TagNloop(w) == nloop && TagEop(w) == eop && TagPre(w) == pre
      && TagPrim(w) == prim && TagFlg(w) == flg && TagNreg(w) == nreg
  {
    hide Pow2, Extract, OrFields, Fits, FitsAt;
    Pow2Values();
    TagFits(nloop, eop, pre, prim, flg, nreg);
    var fs := GifTagFields(nloop, eop, pre, prim, flg, nreg);
    UnpackField(fs, 64, 0, 15);
    UnpackField(fs, 64, 1, 1);
    UnpackField(fs, 64, 2, 1);
    UnpackField(fs, 64, 3, 11);
    UnpackField(fs, 64, 4, 2);
    UnpackField(fs, 64, 5, 4);
  }

  // The low word of a GSGifTagT is TagWord(nloop, tag0, tag1).

  const TAG1_AD := 0x1000_0000
  const TAG1_IMAGE := 0x800_0000  // 2 << (58-32)

  /** The tag word GSGifTagCloseAD leaves behind for `n` registers. */
  function AdTag(n: nat): u64 {
    SetLow16(TagWord(0, 0, TAG1_AD), Or(n, 0x8000))
  }

  /** The tag word of GSGifTagImage. */
  function ImageTag(n: nat): u64 {
    TagWord(n, 0, TAG1_IMAGE)
  }

  lemma TagSum(nloop: int, eop: int, pre: int, prim: int, flg: int, nreg: int)
    requires TagFieldsFit(nloop, eop, pre, prim, flg, nreg)
    ensures GifSetTag(nloop, eop, pre, prim, flg, nreg)
         == nloop + eop * 0x8000 + pre * 0x4000_0000_0000 + prim * 0x8000_0000_0000
            + flg * 0x400_0000_0000_0000 + nreg * 0x1000_0000_0000_0000
  {
    hide Pow2, OrFields, Fits, FitsAt;
    Pow2Values();
    TagFits(nloop, eop, pre, prim, flg, nreg);
    var fs := GifTagFields(nloop, eop, pre, prim, flg, nreg);
    OrIsSum(fs, 64);
    assert fs[..5][..4] == fs[..4] && fs[..4][..3] == fs[..3] && fs[..3][..2] == fs[..2] && fs[..2][..1] == fs[..1];
    assert SumFields(fs[..1]) == nloop;
    assert SumFields(fs[..2]) == SumFields(fs[..1]) + eop * 0x8000;
    assert SumFields(fs[..3]) == SumFields(fs[..2]) + pre * 0x4000_0000_0000;
    assert SumFields(fs[..4]) == SumFields(fs[..3]) + prim * 0x8000_0000_0000;
    assert SumFields(fs[..5]) == SumFields(fs[..4]) + flg * 0x400_0000_0000_0000;
  }

  /** The field-by-field A+D tag is the packed tag with EOP, FLG 0 and one descriptor. */
  lemma AdTagIsPacked(n: nat)
    requires n < 0x8000
    ensures AdTag(n) == GifSetTag(n, 1, 0, 0, 0, 1)
  {
    hide Or, Pow2, GifSetTag;
    TagSum(n, 1, 0, 0, 0, 1);
    Pow2Values();
    OrDisjoint(n, 1, 15);
    assert Or(n, 0x8000) == n + 0x8000;
  }

  /** The field-by-field image tag is the packed tag without EOP and with FLG 2. */
  lemma ImageTagIsPacked(n: nat)
    requires n < 0x8000
    ensures ImageTag(n) == GifSetTag(n, 0, 0, 0, 2, 0)
  {
    hide GifSetTag;
    TagSum(n, 0, 0, 0, 2, 0);
  }

  /** The tag words in numbers: an A+D packet and an image of `n`, and the two register lists. */
  lemma TagNumbers(n: nat)
    requires n < 0x8000
    ensures AdTag(n) == 0x1000_0000_0000_8000 + n && ImageTag(n) == 0x0800_0000_0000_0000 + n
    ensures GifSetTag(1, 1, 0, 0, 1, 4) == 0x4400_0000_0000_8001
    ensures GifSetTag(1, 1, 0, 0, 1, 6) == 0x6400_0000_0000_8001
  {
    hide GifSetTag, Or, Pow2;
    AdTagIsPacked(n);
    ImageTagIsPacked(n);
    TagSum(n, 1, 0, 0, 0, 1);
    TagSum(n, 0, 0, 0, 2, 0);
    TagSum(1, 1, 0, 0, 1, 4);
    TagSum(1, 1, 0, 0, 1, 6);
  }
}
