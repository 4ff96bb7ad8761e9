/** The GIF's reading of the word stream a DMA channel feeds it, as register writes and images. */
module GifStream {
  import opened Words
  import opened BitFields
  import opened GsFormat

  datatype GsOp = RegWrite(reg: nat, data: u64) | Image(words: seq<u64>)

  const FLG_PACKED := 0
  const FLG_REGLIST := 1
  const GIF_REG_AD := 0xE

  /** NREG 0 stands for 16 descriptors. */
  function RegCount(w: u64): nat {
    if TagNreg(w) == 0 then 16 else TagNreg(w)
  }

  /** Words of data that follow a tag; a register list is padded to whole quadwords. */
  function BodyLen(w: u64): nat {
    hide Extract;
    if TagFlg(w) == FLG_PACKED then 2 * (TagNloop(w) * RegCount(w))
    else if TagFlg(w) == FLG_REGLIST then
      var n := TagNloop(w) * RegCount(w);
      n + n % 2
    else 2 * TagNloop(w)
  }

  /** Packed data is read only under a lone A+D descriptor, the one packed form the library writes. */
  predicate Readable(w: u64, regs: u64) {
    TagPre(w) == 0 && (TagFlg(w) == FLG_PACKED ==> RegCount(w) == 1 && TagReg(regs, 0) == GIF_REG_AD)
  }

  function PackedOps(body: seq<u64>, n: nat): seq<GsOp>
    requires 2 * n <= |body|
  {
    seq(n, i requires 0 <= i < n => RegWrite(body[2 * i + 1] % 0x100, body[2 * i]))
  }

  function RegListOps(regs: u64, nreg: nat, body: seq<u64>, n: nat): seq<GsOp>
    requires n <= |body| && nreg > 0
  {
    seq(n, i requires 0 <= i < n => RegWrite(TagReg(regs, i % nreg), body[i]))
  }

  function BodyOps(w: u64, regs: u64, body: seq<u64>): seq<GsOp>
    requires |body| == BodyLen(w) && Readable(w, regs)
  {
    hide Extract;
    if TagFlg(w) == FLG_PACKED then PackedOps(body, TagNloop(w))
    else if TagFlg(w) == FLG_REGLIST then
      RegListOps(regs, RegCount(w), body, TagNloop(w) * RegCount(w))
    else [Image(body)]
  }

  function Parse(s: seq<u64>): Option<seq<GsOp>>
    decreases |s|
  {
    if s == [] then Some([])
    else if |s| < 2 || !Readable(s[0], s[1]) || |s| < 2 + BodyLen(s[0]) then None
    else
      var n := 2 + BodyLen(s[0]);
      match Parse(s[n..])
      case None => None
      case Some(rest) => Some(BodyOps(s[0], s[1], s[2..n]) + rest)
  }

  /** One packet in front of a stream that reads as `rest`. */
  lemma ParseCons(w: u64, regs: u64, body: seq<u64>, t: seq<u64>)
    requires Readable(w, regs) && |body| == BodyLen(w) && Parse(t).Some?
    ensures Parse([w, regs] + body + t) == Some(BodyOps(w, regs, body) + Parse(t).value)
  {
    hide BodyOps, BodyLen, Readable;
    var u := [w, regs] + body + t;
    assert u[2 + |body|..] == t;
    assert u[2..2 + |body|] == body;
  }

  /** A readable non-empty stream is a packet and a readable rest. */
  lemma ParseHead(s: seq<u64>) returns (body: seq<u64>, t: seq<u64>)
    requires Parse(s).Some? && s != []
    ensures |s| >= 2 && Readable(s[0], s[1]) && |body| == BodyLen(s[0]) && s == [s[0], s[1]] + body + t
    ensures Parse(t).Some? && Parse(s).value == BodyOps(s[0], s[1], body) + Parse(t).value
  {
    hide BodyOps, BodyLen, Readable;
    var n := 2 + BodyLen(s[0]);
    body, t := s[2..n], s[n..];
  }

  /** Reading distributes over complete packets. */
  lemma {:induction false} ParseAppend(s: seq<u64>, t: seq<u64>)
    requires Parse(s).Some? && Parse(t).Some?
    ensures Parse(s + t) == Some(Parse(s).value + Parse(t).value)
    decreases |s|
  {
    hide Parse, BodyOps, BodyLen, Readable;
    if s == [] {
      assert Parse(s) == Some([]) by { ParseEmpty(); }
      assert s + t == t;
      assert [] + Parse(t).value == Parse(t).value;
    } else {
      var body, r := ParseHead(s);
      ParseAppend(r, t);
      ParseCons(s[0], s[1], body, r + t);
      assert s + t == [s[0], s[1]] + body + (r + t);
      var ops, a, b := BodyOps(s[0], s[1], body), Parse(r).value, Parse(t).value;
      assert ops + (a + b) == (ops + a) + b;
    }
  }

  lemma ParseEmpty()
    ensures Parse([]) == Some([])
  {}

  lemma ParseOne(w: u64, regs: u64, body: seq<u64>)
    requires Readable(w, regs) && |body| == BodyLen(w)
    ensures Parse([w, regs] + body) == Some(BodyOps(w, regs, body))
  {
    hide Parse, BodyOps, BodyLen, Readable;
    ParseEmpty();
    ParseCons(w, regs, body, []);
    assert [w, regs] + body + [] == [w, regs] + body;
    assert BodyOps(w, regs, body) + [] == BodyOps(w, regs, body);
  }

  /** The words of data behind a tag: two per register of a packed loop, one per register of a list,
      padded to a quadword, and two per loop of an image; 0 descriptors stand for 16. */
  lemma BodyIs(nloop: nat, eop: nat, prim: nat, flg: nat, nreg: nat)
    requires TagFieldsFit(nloop, eop, 0, prim, flg, nreg)
    ensures var n := BodyLen(GifSetTag(nloop, eop, 0, prim, flg, nreg));
      var regs := nloop * if nreg == 0 then 16 else nreg;
      n == if flg == 0 then 2 * regs else if flg == 1 then regs + regs % 2 else 2 * nloop
  {
    hide GifSetTag, TagNloop, TagFlg, TagNreg;
    GifTagDecodes(nloop, eop, 0, prim, flg, nreg);
  }

  /** Under A+D a quadword is the data and then the register, in the low byte; a register list takes
      its descriptors in turn. */
  lemma OpsAre(regs: u64, nreg: nat, body: seq<u64>, i: nat)
    ensures 2 * i + 1 < |body| ==>
      PackedOps(body, |body| / 2)[i] == RegWrite(body[2 * i + 1] % 0x100, body[2 * i])
    ensures nreg > 0 && i < |body| ==>
      RegListOps(regs, nreg, body, |body|)[i] == RegWrite(TagReg(regs, i % nreg), body[i])
  {
    hide TagReg;
  }

  lemma AdDescriptor()
    ensures TagReg(GIF_REG_AD, 0) == GIF_REG_AD
  {
    Pow2Values();
  }

  /** An A+D packet of `n` registers reads back as those `n` writes. */
  lemma ParseAd(n: nat, body: seq<u64>)
    requires n < 0x8000 && |body| == 2 * n
    ensures Parse([AdTag(n), 0xE] + body) == Some(PackedOps(body, n))
  {
    hide Parse, AdTag, GifSetTag, TagNloop, TagPre, TagFlg, TagNreg, TagReg;
    AdTagIsPacked(n);
    GifTagDecodes(n, 1, 0, 0, 0, 1);
    AdDescriptor();
    ParseOne(AdTag(n), GIF_REG_AD, body);
  }

  /** A register list of one loop reads back as one write per descriptor. */
  lemma ParseRegList(nreg: nat, regs: u64, body: seq<u64>)
    requires 0 < nreg < 16 && nreg % 2 == 0 && |body| == nreg
    ensures Parse([GifSetTag(1, 1, 0, 0, 1, nreg), regs] + body) == Some(RegListOps(regs, nreg, body, nreg))
  {
    hide Parse, GifSetTag, TagNloop, TagPre, TagFlg, TagNreg, TagReg;
    GifTagDecodes(1, 1, 0, 0, 1, nreg);
    ParseOne(GifSetTag(1, 1, 0, 0, 1, nreg), regs, body);
  }

  /** An image tag followed by its data reads back as that image. */
  lemma ParseImage(n: nat, data: seq<u64>)
    requires n < 0x8000 && |data| == 2 * n
    ensures Parse([ImageTag(n), 0] + data) == Some([Image(data)])
  {
    hide Parse, ImageTag, GifSetTag, TagNloop, TagPre, TagFlg, TagNreg, TagReg;
    ImageTagIsPacked(n);
    GifTagDecodes(n, 0, 0, 0, 2, 0);
    ParseOne(ImageTag(n), 0, data);
  }
}
