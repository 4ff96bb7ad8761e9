/** The display list of gslist.c as a value: its structure in memory and what each store does to it. */
module GsList {
  import opened Words
  import opened GsFormat
  import opened DmaChain

  const NULL := -1

  /** Addresses are 32 bits wide. */
  const ADDRESS_SPACE := W32 / 8

  /** GSListT. Pointers are indices of 64-bit words in the FIFO's memory block, so a Uint128*
      advances by two; GPFifoFlush is the only callback ever installed. */
  datatype GSListT = GSListT(pPtr: int, pBegin: int, pEnd: int, pDmaCnt: int, pGifTag: int, pGifData: int,
                             pFlushFunc: bool)

  /** What the builder has open: nothing, a CNT tag, or a GIF tag inside a CNT tag. */
  datatype Phase = NoCnt | InCnt | InAd | InRegList

  /** What the list being built means: everything in lists handed over earlier, everything
      appended before the open CNT, the closed segments of this list, the words since the open
      CNT, and the index of the open GIF tag among them. */
  datatype Spec = Spec(phase: Phase, sent: seq<u64>, before: seq<u64>, closed: seq<Seg>, words: seq<u64>, tagAt: nat)

  /** The list handed to the GIF channel, while it is busy. */
  datatype Xfer = Idle | Busy(lo: nat, hi: nat, end: nat, segs: seq<Seg>)

  predicate Even(i: int) { i % 2 == 0 }

  function Cursor(l: GSListT, s: Spec): int {
    if s.phase == InRegList then l.pGifData else l.pPtr
  }

  /** Words left before the end of the list. */
  function Room(l: GSListT, s: Spec): int {
    l.pEnd - Cursor(l, s)
  }

  function InFlight(x: Xfer): seq<Seg> {
    if x.Busy? then x.segs else []
  }

  ghost predicate ChannelOk(m: seq<u64>, busy: bool, tadr: nat, x: Xfer) {
    && busy == x.Busy?
    && (busy ==> Transfer(m, x.lo, x.hi, tadr, x.end, x.segs))
  }

  ghost predicate PointersOk(l: GSListT, s: Spec, size: nat) {
    && 0 <= l.pBegin <= l.pPtr <= Cursor(l, s) <= l.pEnd <= size <= ADDRESS_SPACE
    && (l.pDmaCnt == NULL <==> s.phase == NoCnt)
    && (l.pGifTag == NULL <==> s.phase == NoCnt || s.phase == InCnt)
    && (l.pGifData == NULL <==> s.phase != InRegList)
    && match s.phase
       case NoCnt => s.words == []
       case InCnt => l.pBegin <= l.pDmaCnt && l.pPtr == l.pDmaCnt + 2 + |s.words|
       case InAd =>
         && l.pBegin <= l.pDmaCnt && l.pPtr == l.pDmaCnt + 2 + |s.words|
         && s.tagAt + 2 <= |s.words| && l.pGifTag == l.pDmaCnt + 2 + s.tagAt
         && s.words[s.tagAt] == TagWord(0, 0, TAG1_AD)
       case InRegList =>
         && l.pBegin <= l.pDmaCnt && l.pGifData == l.pDmaCnt + 2 + |s.words|
         && s.tagAt + 2 <= |s.words| && l.pGifTag == l.pDmaCnt + 2 + s.tagAt
         && l.pPtr == l.pGifTag + 2
  }

  ghost predicate Apart(l: GSListT, x: Xfer) {
    x.Busy? ==> x.hi <= l.pBegin || l.pEnd <= x.lo
  }

  /** The memory holds a list being built, and apart from it the one being transferred. */
  ghost predicate ListOk(m: seq<u64>, l: GSListT, s: Spec, busy: bool, tadr: nat, x: Xfer) {
    && PointersOk(l, s, |m|) && ChannelOk(m, busy, tadr, x) && Apart(l, x)
    && if s.phase == NoCnt then Chain(m, l.pBegin, l.pPtr) == Some(s.closed)
       else OpenList(m, l.pBegin, l.pDmaCnt, s.closed, s.words)
  }

  /** The words received by the GIF and still in transfer are all that was handed over; with the
      closed segments they are all that went before. */
  ghost predicate Accounted(gifIn: seq<u64>, x: Xfer, s: Spec, ext: nat -> u64) {
    && s.sent == gifIn + Payload(InFlight(x), ext)
    && s.before == s.sent + Payload(s.closed, ext)
  }

  function HandedOver(s: Spec): Spec {
    s.(closed := [], sent := s.before)
  }

  /** Handing a completed list to an idle channel moves its segments, and nothing else. */
  lemma AccountedHandover(gifIn: seq<u64>, s: Spec, ext: nat -> u64, lo: nat, hi: nat, end: nat)
    requires Accounted(gifIn, Idle, s, ext)
    ensures Accounted(gifIn, Busy(lo, hi, end, s.closed), HandedOver(s), ext)
  {
    hide Payload;
    PayloadClose([], [], ext);
  }

  /** One step of a busy channel, on the list it reads and on the account of words. */
  lemma ChannelStep(m: seq<u64>, tadr: nat, x: Xfer, gifIn: seq<u64>, s: Spec, ext: nat -> u64)
    requires ChannelOk(m, true, tadr, x) && Accounted(gifIn, x, s, ext)
    ensures IsEnd(m, tadr) <==> x.segs == []
    ensures x.segs == [] ==>
      EndSeg(m, tadr) == End([]) && Accounted(gifIn, Idle, s, ext)
    ensures x.segs != [] ==>
      && StepTag(m, tadr).Some? && StepTag(m, tadr).value.0 == x.segs[0]
      && ChannelOk(m, true, StepTag(m, tadr).value.1, x.(segs := x.segs[1..]))
      && Accounted(gifIn + SegData(x.segs[0], ext), x.(segs := x.segs[1..]), s, ext)
  {
    hide Chain, StepTag, IsEnd, EndSeg, Transfer, SegData;
    TransferStep(m, x.lo, x.hi, tadr, x.end, x.segs);
  }

  lemma ChannelKept(m: seq<u64>, m': seq<u64>, l: GSListT, busy: bool, tadr: nat, x: Xfer, from: int, to: int)
    requires ChannelOk(m, busy, tadr, x) && Apart(l, x)
    requires SameOutside(m, m', from, to) && l.pBegin <= from && to <= l.pEnd
    ensures ChannelOk(m', busy, tadr, x)
  {
    hide Transfer;
    if busy {
      TransferOutside(m, m', x.lo, x.hi, tadr, x.end, x.segs, from, to);
    }
  }

  // ---- the effect of each store on a list ----

  lemma CntOpenOk(m: seq<u64>, m': seq<u64>, l: GSListT, s: Spec, busy: bool, tadr: nat, x: Xfer)
    requires ListOk(m, l, s, busy, tadr, x) && s.phase == NoCnt && Room(l, s) >= 2
    requires m' == m[l.pPtr := TagWord(0, DMA_TAG_CNT, 0)][l.pPtr + 1 := 0]
    ensures ListOk(m', l.(pDmaCnt := l.pPtr, pPtr := l.pPtr + 2), s.(phase := InCnt), busy, tadr, x)
    ensures SameOutside(m, m', l.pPtr, l.pPtr + 2)
  {
    hide Chain, Transfer, TagWord, OpenList, ChannelOk;
    OpenListBegin(m, m', l.pBegin, l.pPtr, s.closed);
    ChannelKept(m, m', l, busy, tadr, x, l.pPtr, l.pPtr + 2);
  }

  lemma CntCloseOk(m: seq<u64>, m': seq<u64>, l: GSListT, s: Spec, busy: bool, tadr: nat, x: Xfer, qwc: nat)
    requires ListOk(m, l, s, busy, tadr, x) && s.phase == InCnt
    requires |s.words| == 2 * qwc && qwc < W16
    requires m' == m[l.pDmaCnt := SetLow16(m[l.pDmaCnt], qwc)]
    ensures ListOk(m', l.(pDmaCnt := NULL), Closed(s), busy, tadr, x)
    ensures SameOutside(m, m', l.pDmaCnt, l.pDmaCnt + 1)
  {
    hide Chain, Transfer, SetLow16, ChannelOk;
    OpenListClose(m, l.pBegin, l.pDmaCnt, s.closed, s.words, qwc);
    ChannelKept(m, m', l, busy, tadr, x, l.pDmaCnt, l.pDmaCnt + 1);
  }

  /** Closing the open CNT moves its words into the closed segments. */
  function Closed(s: Spec): Spec {
    s.(phase := NoCnt, before := s.before + s.words, closed := s.closed + [Cnt(s.words)], words := [])
  }

  lemma RefOk(m: seq<u64>, m': seq<u64>, l: GSListT, s: Spec, busy: bool, tadr: nat, x: Xfer,
              addr: u32, qwc: nat, before: seq<u64>)
    requires ListOk(m, l, s, busy, tadr, x) && s.phase == NoCnt && Room(l, s) >= 2 && qwc < W16
    requires m' == m[l.pPtr := TagWord(qwc, DMA_TAG_REF, addr)][l.pPtr + 1 := 0]
    ensures ListOk(m', l.(pPtr := l.pPtr + 2), s.(closed := s.closed + [Ref(addr, qwc)], before := before),
                   busy, tadr, x)
    ensures SameOutside(m, m', l.pPtr, l.pPtr + 2)
  {
    hide Chain, Transfer, TagWord, OpenList, ChannelOk;
    ChainRef(m, m', l.pBegin, l.pPtr, s.closed, addr, qwc);
    ChannelKept(m, m', l, busy, tadr, x, l.pPtr, l.pPtr + 2);
  }

  lemma EndOk(m: seq<u64>, m': seq<u64>, l: GSListT, s: Spec, busy: bool, tadr: nat, x: Xfer)
    requires ListOk(m, l, s, busy, tadr, x) && s.phase == NoCnt && Room(l, s) >= 2
    requires m' == m[l.pPtr := TagWord(0, DMA_TAG_END, 0)][l.pPtr + 1 := 0]
    ensures ChannelOk(m', busy, tadr, x) && SameOutside(m, m', l.pPtr, l.pPtr + 2)
    ensures Transfer(m', l.pBegin, l.pEnd, l.pBegin, l.pPtr, s.closed)
    ensures Walk(m', l.pBegin) == Some(s.closed + [End([])])
  {
    hide Chain, Transfer, TagWord, OpenList, ChannelOk, Walk;
    ChainEnd(m, m', l.pBegin, l.pPtr, l.pEnd, s.closed);
    ChannelKept(m, m', l, busy, tadr, x, l.pPtr, l.pPtr + 2);
  }

  lemma QwordOk(m: seq<u64>, m': seq<u64>, l: GSListT, s: Spec, busy: bool, tadr: nat, x: Xfer, w0: u64, w1: u64)
    requires ListOk(m, l, s, busy, tadr, x) && (s.phase == InCnt || s.phase == InAd) && Room(l, s) >= 2
    requires m' == m[l.pPtr := w0][l.pPtr + 1 := w1]
    ensures ListOk(m', l.(pPtr := l.pPtr + 2), s.(words := s.words + [w0, w1]), busy, tadr, x)
    ensures SameOutside(m, m', l.pPtr, l.pPtr + 2)
  {
    hide Chain, Transfer, OpenList, ChannelOk, TagWord;
    OpenListStore(m, l.pBegin, l.pDmaCnt, s.closed, s.words, w0);
    OpenListStore(m[l.pPtr := w0], l.pBegin, l.pDmaCnt, s.closed, s.words + [w0], w1);
    assert s.words + [w0] + [w1] == s.words + [w0, w1];
    ChannelKept(m, m', l, busy, tadr, x, l.pPtr, l.pPtr + 2);
  }

  lemma WordOk(m: seq<u64>, m': seq<u64>, l: GSListT, s: Spec, busy: bool, tadr: nat, x: Xfer, w: u64)
    requires ListOk(m, l, s, busy, tadr, x) && s.phase == InRegList && Room(l, s) >= 1
    requires m' == m[l.pGifData := w]
    ensures ListOk(m', l.(pGifData := l.pGifData + 1), s.(words := s.words + [w]), busy, tadr, x)
    ensures SameOutside(m, m', l.pGifData, l.pGifData + 1)
  {
    hide Chain, Transfer, OpenList, ChannelOk;
    OpenListStore(m, l.pBegin, l.pDmaCnt, s.closed, s.words, w);
    ChannelKept(m, m', l, busy, tadr, x, l.pGifData, l.pGifData + 1);
  }

  lemma AdCloseOk(m: seq<u64>, m': seq<u64>, l: GSListT, s: Spec, busy: bool, tadr: nat, x: Xfer, n: nat)
    requires ListOk(m, l, s, busy, tadr, x) && s.phase == InAd
    requires m' == m[l.pGifTag := SetLow16(m[l.pGifTag], Or(n, 0x8000))]
    ensures ListOk(m', l.(pGifTag := NULL), s.(phase := InCnt, words := s.words[s.tagAt := AdTag(n)]), busy, tadr, x)
    ensures SameOutside(m, m', l.pGifTag, l.pGifTag + 1)
  {
    hide Chain, Transfer, OpenList, ChannelOk, TagWord, SetLow16, Or;
    OpenListPatch(m, l.pBegin, l.pDmaCnt, s.closed, s.words, s.tagAt, AdTag(n));
    ChannelKept(m, m', l, busy, tadr, x, l.pGifTag, l.pGifTag + 1);
  }
}
