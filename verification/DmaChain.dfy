/** The source-chain mode of the DMA controller: a reader of DMA tags in memory. */
module DmaChain {
  import opened Words

  const DMA_TAG_CNT := 0x1000
  const DMA_TAG_REF := 0x3000
  const DMA_TAG_END := 0x7000

  // The low word of a DmaTagT is TagWord(qwc, id, addr); the high word is the padding.

  function TagQwc(w: u64): nat { w % W16 }
  function TagId(w: u64): nat { w / W16 % W16 }
  function TagAddr(w: u64): nat { w / W32 }

  /** What one tag makes the channel transfer. */
  datatype Seg = Cnt(data: seq<u64>) | Ref(addr: nat, qwc: nat) | End(data: seq<u64>)

  /** `qwc` quadwords of main memory; the controller ignores the low four address bits. */
  function RefData(ext: nat -> u64, addr: nat, qwc: nat): (d: seq<u64>)
    ensures |d| == 2 * qwc
  {
    seq(2 * qwc, i requires 0 <= i => ext(addr / 16 * 2 + i))
  }

  function SegData(s: Seg, ext: nat -> u64): seq<u64> {
    match s
    case Cnt(d) => d
    case Ref(a, n) => RefData(ext, a, n)
    case End(d) => d
  }

  lemma EndData(ext: nat -> u64)
    ensures SegData(End([]), ext) == []
  {}

  function Payload(segs: seq<Seg>, ext: nat -> u64): seq<u64> {
    if segs == [] then [] else SegData(segs[0], ext) + Payload(segs[1..], ext)
  }

  lemma {:induction false} PayloadAppend(s: seq<Seg>, t: seq<Seg>, ext: nat -> u64)
    ensures Payload(s + t, ext) == Payload(s, ext) + Payload(t, ext)
  {
    if s == [] {
      assert s + t == t;
    } else {
      assert (s + t)[1..] == s[1..] + t;
      PayloadAppend(s[1..], t, ext);
    }
  }

  lemma PayloadSnoc(s: seq<Seg>, seg: Seg, ext: nat -> u64)
    ensures Payload(s + [seg], ext) == Payload(s, ext) + SegData(seg, ext)
  {
    PayloadAppend(s, [seg], ext);
    assert Payload([seg], ext) == SegData(seg, ext) + Payload([], ext);
  }

  /** Closing a CNT over `d` moves `d` from the open words into the payload. */
  lemma PayloadClose(s: seq<Seg>, d: seq<u64>, ext: nat -> u64)
    ensures Payload(s + [Cnt(d)], ext) == Payload(s, ext) + d
    ensures Payload([], ext) == []
  {
    PayloadAppend(s, [Cnt(d)], ext);
    assert Payload([Cnt(d)], ext) == d + Payload([], ext);
  }

  /** The segment of the tag at word `a` of `m` and the word address of the next tag,
      for the two tags that have a successor. */
  function StepTag(m: seq<u64>, a: nat): Option<(Seg, nat)> {
    if a + 2 > |m| then None
    else if TagId(m[a]) == DMA_TAG_CNT then
      var next := a + 2 + 2 * TagQwc(m[a]);
      if next <= |m| then Some((Cnt(m[a + 2..next]), next)) else None
    else if TagId(m[a]) == DMA_TAG_REF then
      Some((Ref(TagAddr(m[a]), TagQwc(m[a])), a + 2))
    else None
  }

  predicate IsEnd(m: seq<u64>, a: nat) {
    a + 2 <= |m| && TagId(m[a]) == DMA_TAG_END && a + 2 + 2 * TagQwc(m[a]) <= |m|
  }

  function EndSeg(m: seq<u64>, a: nat): Seg
    requires IsEnd(m, a)
  {
    End(m[a + 2..a + 2 + 2 * TagQwc(m[a])])
  }

  /** The whole transfer started at word `a`, or None when it meets a tag the builder never
      writes or runs off the memory. */
  function Walk(m: seq<u64>, a: nat): Option<seq<Seg>>
    decreases |m| - a
  {
    if IsEnd(m, a) then Some([EndSeg(m, a)])
    else match StepTag(m, a)
      case None => None
      case Some((seg, next)) =>
        match Walk(m, next)
        case None => None
        case Some(rest) => Some([seg] + rest)
  }

  /** The tags from word `a` up to but not including word `b`, when some tag starts exactly at `b`. */
  function Chain(m: seq<u64>, a: nat, b: nat): Option<seq<Seg>>
    decreases if a <= b then b - a else 0
  {
    if a == b then Some([])
    else if a > b then None
    else match StepTag(m, a)
      case None => None
      case Some((seg, next)) =>
        if next > b then None
        else match Chain(m, next, b)
          case None => None
          case Some(rest) => Some([seg] + rest)
  }

  /** A chain depends on its own words only. */
  lemma {:induction false} ChainFrame(m: seq<u64>, m': seq<u64>, a: nat, b: nat)
    requires a <= b <= |m| && |m| == |m'|
    requires m[a..b] == m'[a..b]
    requires Chain(m, a, b).Some?
    ensures Chain(m', a, b) == Chain(m, a, b)
    decreases b - a
  {
    if a < b {
      var (seg, next) := StepTag(m, a).value;
      assert next <= b;
      assert forall i :: a <= i < b ==> m[i] == m[a..b][i - a] == m'[a..b][i - a] == m'[i];
      assert m[a + 2..next] == m'[a + 2..next] && m[next..b] == m'[next..b];
      ChainFrame(m, m', next, b);
    }
  }

  /** A tag at the end of a chain extends it by its segment. */
  lemma {:induction false} ChainSnoc(m: seq<u64>, a: nat, b: nat, c: nat)
    requires a <= b <= c <= |m|
    requires Chain(m, a, b).Some?
    requires StepTag(m, b).Some? && StepTag(m, b).value.1 == c
    ensures Chain(m, a, c) == Some(Chain(m, a, b).value + [StepTag(m, b).value.0])
    decreases b - a
  {
    if a == b {
      assert Chain(m, c, c) == Some([]);
      var seg := StepTag(m, b).value.0;
      assert [seg] + [] == [] + [seg];
    } else {
      var (seg, next) := StepTag(m, a).value;
      ChainSnoc(m, next, b, c);
      assert [seg] + (Chain(m, next, b).value + [StepTag(m, b).value.0])
          == ([seg] + Chain(m, next, b).value) + [StepTag(m, b).value.0];
    }
  }

  /** Started at the beginning of a chain that is followed by an END tag, the controller visits
      exactly the tags of the chain, in order, then that END, and stops. */
  lemma {:induction false} WalkIsChain(m: seq<u64>, a: nat, b: nat)
    requires a <= b <= |m|
    requires Chain(m, a, b).Some? && IsEnd(m, b)
    ensures Walk(m, a) == Some(Chain(m, a, b).value + [EndSeg(m, b)])
    decreases b - a
  {
    if a == b {
      assert [EndSeg(m, b)] == [] + [EndSeg(m, b)];
    } else {
      var (seg, next) := StepTag(m, a).value;
      assert !IsEnd(m, a);
      WalkIsChain(m, next, b);
      assert [seg] + (Chain(m, next, b).value + [EndSeg(m, b)])
          == ([seg] + Chain(m, next, b).value) + [EndSeg(m, b)];
    }
  }

  lemma ChainEmpty(m: seq<u64>, a: nat)
    ensures Chain(m, a, a) == Some([])
  {}

  /** A CNT tag whose patched count is below 65536 transfers exactly that many quadwords and
      lands on the word after them. */
  lemma CntStep(m: seq<u64>, a: nat, qwc: nat)
    requires a + 2 + 2 * qwc <= |m| && qwc < W16
    requires m[a] == SetLow16(TagWord(0, DMA_TAG_CNT, 0), qwc)
    ensures StepTag(m, a) == Some((Cnt(m[a + 2..a + 2 + 2 * qwc]), a + 2 + 2 * qwc))
  {
    assert TagQwc(m[a]) == qwc && TagId(m[a]) == DMA_TAG_CNT;
  }

  lemma RefStep(m: seq<u64>, a: nat, addr: u32, qwc: nat)
    requires a + 2 <= |m| && qwc < W16
    requires m[a] == TagWord(qwc, DMA_TAG_REF, addr)
    ensures StepTag(m, a) == Some((Ref(addr, qwc), a + 2))
  {
    DmaTagDecodes(qwc, DMA_TAG_REF, addr);
  }

  lemma EndStep(m: seq<u64>, a: nat)
    requires a + 2 <= |m| && m[a] == TagWord(0, DMA_TAG_END, 0)
    ensures IsEnd(m, a) && EndSeg(m, a) == End([]) && TagId(m[a]) == DMA_TAG_END && TagQwc(m[a]) == 0
  {
    assert TagQwc(m[a]) == 0 && TagId(m[a]) == DMA_TAG_END;
  }

  /** Fields of a tag written by the builder; the 16-bit count holds fewer than 65536 quadwords. */
  lemma DmaTagDecodes(qwc: nat, id: nat, addr: nat)
    requires id < W16 && addr < W32
    ensures var w := TagWord(qwc, id, addr);
      && TagId(w) == id && TagAddr(w) == addr
      && (TagQwc(w) == qwc <==> qwc < W16)
  {
    var q := qwc % W16;
    assert TagWord(qwc, id, addr) == q + W16 * (id + W16 * addr);
    LowPart(q, id + W16 * addr);
    LowPart(id, addr);
    assert (q + W16 * (id + W16 * addr)) / W32 == addr;
  }

  lemma LowPart(a: nat, b: nat)
    requires a < W16
    ensures (a + W16 * b) % W16 == a && (a + W16 * b) / W16 == b
  {}

  /** A transfer in progress inside the words [lo, hi): the channel stands at `tadr`, has the
      segments `segs` before it, and then meets an empty END at `end`. */
  ghost predicate Transfer(m: seq<u64>, lo: nat, hi: nat, tadr: nat, end: nat, segs: seq<Seg>) {
    && lo <= tadr <= end && end + 2 <= hi <= |m|
    && Chain(m, tadr, end) == Some(segs)
    && TagId(m[end]) == DMA_TAG_END && TagQwc(m[end]) == 0
  }

  ghost predicate SameOutside(m: seq<u64>, m': seq<u64>, lo: int, hi: int) {
    |m| == |m'| && forall i :: 0 <= i < |m| && !(lo <= i < hi) ==> m[i] == m'[i]
  }

  lemma ChainOutside(m: seq<u64>, m': seq<u64>, a: nat, b: nat, lo: int, hi: int)
    requires SameOutside(m, m', lo, hi)
    requires a <= b <= |m| && (b <= lo || hi <= a)
    requires Chain(m, a, b).Some?
    ensures Chain(m', a, b) == Chain(m, a, b)
  {
    assert m[a..b] == m'[a..b];
    ChainFrame(m, m', a, b);
  }

  /** Stores outside the list being transferred do not reach the channel. */
  lemma TransferOutside(m: seq<u64>, m': seq<u64>, lo: nat, hi: nat, tadr: nat, end: nat, segs: seq<Seg>,
                        from: int, to: int)
    requires Transfer(m, lo, hi, tadr, end, segs)
    requires SameOutside(m, m', from, to) && (hi <= from || to <= lo)
    ensures Transfer(m', lo, hi, tadr, end, segs)
  {
    ChainOutside(m, m', tadr, end, from, to);
  }

  /** One step of a transfer: the first segment, or the END when none is left. */
  lemma TransferStep(m: seq<u64>, lo: nat, hi: nat, tadr: nat, end: nat, segs: seq<Seg>)
    requires Transfer(m, lo, hi, tadr, end, segs)
    ensures IsEnd(m, tadr) <==> segs == []
    ensures segs == [] ==> EndSeg(m, tadr) == End([])
    ensures segs != [] ==>
      && StepTag(m, tadr).Some? && StepTag(m, tadr).value.0 == segs[0]
      && Transfer(m, lo, hi, StepTag(m, tadr).value.1, end, segs[1..])
  {
    if tadr < end {
      var (seg, next) := StepTag(m, tadr).value;
      assert segs == [seg] + Chain(m, next, end).value;
    } else {
      assert segs == [];
    }
  }

  /** A list whose last segment is still open: closed segments from `begin`, a CNT tag with
      count 0 at `cnt`, then the words written since. */
  ghost predicate OpenList(m: seq<u64>, begin: nat, cnt: nat, closed: seq<Seg>, words: seq<u64>) {
    && begin <= cnt && cnt + 2 + |words| <= |m|
    && Chain(m, begin, cnt) == Some(closed)
    && m[cnt] == TagWord(0, DMA_TAG_CNT, 0)
    && m[cnt + 2..cnt + 2 + |words|] == words
  }

  /** A CNT tag stored at the end of a chain opens it. */
  lemma OpenListBegin(m: seq<u64>, m': seq<u64>, begin: nat, cnt: nat, closed: seq<Seg>)
    requires begin <= cnt && cnt + 2 <= |m| && Chain(m, begin, cnt) == Some(closed)
    requires m' == m[cnt := TagWord(0, DMA_TAG_CNT, 0)][cnt + 1 := 0]
    ensures OpenList(m', begin, cnt, closed, []) && SameOutside(m, m', cnt, cnt + 2)
  {
    hide Chain, TagWord;
    ChainOutside(m, m', begin, cnt, cnt, cnt + 2);
  }

  lemma OpenListStore(m: seq<u64>, begin: nat, cnt: nat, closed: seq<Seg>, words: seq<u64>, w: u64)
    requires OpenList(m, begin, cnt, closed, words) && cnt + 2 + |words| < |m|
    ensures var p := cnt + 2 + |words|;
      OpenList(m[p := w], begin, cnt, closed, words + [w]) && SameOutside(m, m[p := w], p, p + 1)
  {
    hide Chain, TagWord;
    var p := cnt + 2 + |words|;
    ChainOutside(m, m[p := w], begin, cnt, p, p + 1);
  }

  lemma OpenListPatch(m: seq<u64>, begin: nat, cnt: nat, closed: seq<Seg>, words: seq<u64>, k: nat, w: u64)
    requires OpenList(m, begin, cnt, closed, words) && k < |words|
    ensures m[cnt + 2 + k] == words[k]
    ensures var p := cnt + 2 + k;
      OpenList(m[p := w], begin, cnt, closed, words[k := w]) && SameOutside(m, m[p := w], p, p + 1)
  {
    hide Chain, TagWord;
    var p := cnt + 2 + k;
    assert m[p] == m[cnt + 2..cnt + 2 + |words|][k];
    ChainOutside(m, m[p := w], begin, cnt, p, p + 1);
  }

  /** Patching the count turns the open words into a closed segment. */
  lemma OpenListClose(m: seq<u64>, begin: nat, cnt: nat, closed: seq<Seg>, words: seq<u64>, qwc: nat)
    requires OpenList(m, begin, cnt, closed, words) && |words| == 2 * qwc && qwc < W16
    ensures var m' := m[cnt := SetLow16(m[cnt], qwc)];
      && Chain(m', begin, cnt + 2 + |words|) == Some(closed + [Cnt(words)])
      && SameOutside(m, m', cnt, cnt + 1)
  {
    hide Chain, TagWord, StepTag, SetLow16;
    var m' := m[cnt := SetLow16(m[cnt], qwc)];
    ChainOutside(m, m', begin, cnt, cnt, cnt + 1);
    CntStep(m', cnt, qwc);
    ChainSnoc(m', begin, cnt, cnt + 2 + |words|);
  }

  /** A REF tag stored at the end of a chain. */
  lemma ChainRef(m: seq<u64>, m': seq<u64>, begin: nat, at: nat, closed: seq<Seg>, addr: u32, qwc: nat)
    requires begin <= at && at + 2 <= |m| && Chain(m, begin, at) == Some(closed) && qwc < W16
    requires m' == m[at := TagWord(qwc, DMA_TAG_REF, addr)][at + 1 := 0]
    ensures Chain(m', begin, at + 2) == Some(closed + [Ref(addr, qwc)]) && SameOutside(m, m', at, at + 2)
  {
    hide Chain, TagWord, StepTag;
    ChainOutside(m, m', begin, at, at, at + 2);
    RefStep(m', at, addr, qwc);
    ChainSnoc(m', begin, at, at + 2);
  }

  /** An END tag stored at the end of a chain completes a transfer. */
  lemma ChainEnd(m: seq<u64>, m': seq<u64>, begin: nat, at: nat, hi: nat, closed: seq<Seg>)
    requires begin <= at && at + 2 <= hi <= |m| && Chain(m, begin, at) == Some(closed)
    requires m' == m[at := TagWord(0, DMA_TAG_END, 0)][at + 1 := 0]
    ensures Transfer(m', begin, hi, begin, at, closed) && SameOutside(m, m', at, at + 2)
    ensures Walk(m', begin) == Some(closed + [End([])])
  {
    hide Chain, TagWord, Walk, IsEnd, EndSeg, TagId, TagQwc;
    ChainOutside(m, m', begin, at, at, at + 2);
    EndStep(m', at);
    WalkIsChain(m', begin, at);
  }

  /** The reader takes the three ids of these tags and no other. */
  lemma TagsRead(m: seq<u64>, a: nat)
    ensures IsEnd(m, a) ==> a + 2 <= |m| && m[a] / 0x1_0000 % 0x1_0000 == 0x7000
    ensures StepTag(m, a).Some? ==> a + 2 <= |m| && m[a] / 0x1_0000 % 0x1_0000 in {0x1000, 0x3000}
  {}

  /** The tag words in numbers. */
  lemma DmaNumbers(qwc: nat, addr: u32)
    requires qwc < 0x1_0000
    ensures TagWord(0, DMA_TAG_CNT, 0) == 0x1000_0000 && TagWord(0, DMA_TAG_END, 0) == 0x7000_0000
    ensures SetLow16(TagWord(0, DMA_TAG_CNT, 0), qwc) == 0x1000_0000 + qwc
    ensures TagWord(qwc, DMA_TAG_REF, addr) == 0x3000_0000 + qwc + 0x1_0000_0000 * addr
  {}
}
