/** The display-list builder of gslist.c and the double-buffered FIFO of gpfifo.c over it. */
module GpFifo {
  import opened Words
  import opened GsFormat
  import opened DmaChain
  import opened GifStream
  import opened GsList

  /** The static state of both files, the memory block given to GPFifoInit and the GIF channel. */
  class Fifo {
    const mem: array<u64>
    const base: nat          // byte address of mem[0]
    const ext: nat -> u64    // the rest of main memory, by word

    var list: GSListT        // _GSList_List

    const pLists: seq<nat>   // _GPFifo_pLists
    const nListQwords: nat
    var iCurList: nat

    var dmaBusy: bool        // from DmaExecGIFChain until the channel has read an END
    var tadr: nat
    var gifIn: seq<u64>      // every word the GIF has received

    ghost var spec: Spec
    ghost var xfer: Xfer
    ghost var waits: nat     // how often a transfer was waited for

    /** A list is being built and all that was ever appended is accounted for. */
    ghost predicate Building()
      reads this, mem
    {
      ListOk(mem[..], list, spec, dmaBusy, tadr, xfer) && Accounted(gifIn, xfer, spec, ext)
    }

    /** Every word ever appended, in order. */
    ghost function Stream(): seq<u64>
      reads this
    {
      spec.before + spec.words
    }

    /** If a list was handed over since, it ends with the last word appended before. */
    twostate predicate SentWhole()
      reads this
    {
      spec.sent == old(spec.sent) || spec.sent == old(Stream())
    }

    /** The channel stands inside a complete chain, or is idle. */
    ghost predicate ChannelReady()
      reads this, mem
    {
      ChannelOk(mem[..], dmaBusy, tadr, xfer) && Accounted(gifIn, xfer, spec, ext)
    }

    /** Lists that hold a CNT and an END tag and whose count fits the 16 bits of a tag. */
    predicate Sized() {
      2 <= nListQwords <= 65537
    }

    ghost predicate FifoOk()
      reads this
    {
      && iCurList < 2 && base % 16 == 0
      && pLists == [0, 2 * nListQwords] && 4 * nListQwords <= mem.Length <= ADDRESS_SPACE
      && 1 <= nListQwords
      && (xfer.Busy? ==> xfer.lo == pLists[1 - iCurList] && xfer.hi == xfer.lo + 2 * nListQwords)
    }

    /** The list being built is the current one of the two. */
    ghost predicate Owned()
      reads this
    {
      && FifoOk() && list.pFlushFunc
      && list.pBegin == pLists[iCurList] && list.pEnd == list.pBegin + 2 * nListQwords
    }

    /** Between primitives: a CNT is open, no GIF tag is, and the END tag still fits. */
    ghost predicate Ready()
      reads this, mem
    {
      && Sized() && Building() && Owned() && list.pFlushFunc && base % 16 == 0 && spec.phase == InCnt
      && Even(|spec.words|) && list.pPtr + 2 <= list.pEnd
    }

    /** Between GPFifoPause and GPFifoResume: no list is being built. */
    ghost predicate Paused()
      reads this, mem
    {
      && FifoOk() && ChannelReady()
      && list.pPtr == NULL && spec.closed == [] && spec.words == []
    }

    // ---- gslist.c: the list ----

    /** GSListGetSpace, before its conversion to Uint32 in the comparison. */
    function GSListGetSpace(): int
      reads this
    {
      (list.pEnd - list.pPtr) / 2
    }

    method GSListBegin(pMem: nat, nQwords: nat, pFlush: bool)
      requires list.pPtr == NULL && ChannelReady()
      requires spec.closed == []
      requires pMem + 2 * nQwords <= mem.Length <= ADDRESS_SPACE
      requires xfer.Busy? ==> xfer.hi <= pMem || pMem + 2 * nQwords <= xfer.lo
      modifies `list, `spec
      ensures Building()
      ensures list == GSListT(pMem, pMem, pMem + 2 * nQwords, NULL, NULL, NULL, pFlush)
      ensures spec == Spec(NoCnt, old(spec).sent, old(spec).before, [], [], 0)
    {
      hide Chain, ChannelOk;
      list := GSListT(pMem, pMem, pMem + 2 * nQwords, NULL, NULL, NULL, pFlush);
      spec := Spec(NoCnt, spec.sent, spec.before, [], [], 0);
      ChainEmpty(mem[..], pMem);
    }

    /** The returned count is the capacity of the list, whatever was written. */
    method GSListEnd() returns (nQwords: int)
      requires list.pPtr != NULL && list.pDmaCnt == NULL && list.pGifTag == NULL
      modifies `list
      ensures list == old(list).(pPtr := NULL, pBegin := NULL, pEnd := NULL, pFlushFunc := false)
      ensures nQwords == (old(list.pEnd) - old(list.pBegin)) / 2
    {
      nQwords := (list.pEnd - list.pBegin) / 2;
      list := list.(pPtr := NULL, pBegin := NULL, pEnd := NULL, pFlushFunc := false);
    }

    // ---- gslist.c: DMA tags ----

    method GSDmaCntOpen()
      requires Building() && spec.phase == NoCnt && Room(list, spec) >= 2
      modifies mem, `list, `spec
      ensures Building() && (old(Owned()) ==> Owned())
      ensures SameOutside(old(mem[..]), mem[..], list.pBegin, list.pEnd)
      ensures list == old(list).(pDmaCnt := old(list.pPtr), pPtr := old(list.pPtr) + 2)
      ensures spec == old(spec).(phase := InCnt)
    {
      hide ListOk, TagWord;
      InBounds();
      mem[list.pPtr] := TagWord(0, DMA_TAG_CNT, 0);
      mem[list.pPtr + 1] := 0;
      CntOpenOk(old(mem[..]), mem[..], list, spec, dmaBusy, tadr, xfer);
      list := list.(pDmaCnt := list.pPtr, pPtr := list.pPtr + 2);
      spec := spec.(phase := InCnt);
    }

    lemma InBounds()
      requires Building()
      ensures PointersOk(list, spec, mem.Length)
    {}

    /** Patches the count of the open CNT so that it lands on the next tag. */
    method GSDmaCntClose()
      requires Building() && spec.phase == InCnt
      requires Even(|spec.words|) && |spec.words| / 2 < W16
      modifies mem, `list, `spec
      ensures Building() && (old(Owned()) ==> Owned())
      ensures SameOutside(old(mem[..]), mem[..], list.pBegin, list.pEnd)
      ensures list == old(list).(pDmaCnt := NULL) && spec == Closed(old(spec))
    {
      hide ListOk, TagWord, SetLow16, Payload;
      InBounds();
      var nQwords := (list.pPtr - list.pDmaCnt) / 2 - 1;
      mem[list.pDmaCnt] := SetLow16(mem[list.pDmaCnt], nQwords);
      CntCloseOk(old(mem[..]), mem[..], list, spec, dmaBusy, tadr, xfer, nQwords);
      PayloadClose(spec.closed, spec.words, ext);
      list := list.(pDmaCnt := NULL);
      spec := Closed(spec);
    }

    method GSDmaRef(pRefAddr: u32, nQwords: nat)
      requires Building() && spec.phase == NoCnt && Room(list, spec) >= 2 && nQwords < W16
      modifies mem, `list, `spec
      ensures Building() && (old(Owned()) ==> Owned())
      ensures SameOutside(old(mem[..]), mem[..], list.pBegin, list.pEnd)
      ensures list == old(list).(pPtr := old(list.pPtr) + 2)
      ensures spec == old(spec).(closed := old(spec.closed) + [Ref(pRefAddr, nQwords)],
                                 before := old(spec.before) + RefData(ext, pRefAddr, nQwords))
    {
      hide ListOk, TagWord, Payload, RefData;
      InBounds();
      mem[list.pPtr] := TagWord(nQwords, DMA_TAG_REF, pRefAddr);
      mem[list.pPtr + 1] := 0;
      ghost var before := spec.before + RefData(ext, pRefAddr, nQwords);
      RefOk(old(mem[..]), mem[..], list, spec, dmaBusy, tadr, xfer, pRefAddr, nQwords, before);
      PayloadSnoc(spec.closed, Ref(pRefAddr, nQwords), ext);
      list := list.(pPtr := list.pPtr + 2);
      spec := spec.(closed := spec.closed + [Ref(pRefAddr, nQwords)], before := before);
    }

    /** Completes the list: from its start the channel visits the built tags and this END. */
    method GSDmaEnd()
      requires Building() && spec.phase == NoCnt && Room(list, spec) >= 2
      modifies mem, `list
      ensures list == old(list).(pPtr := old(list.pPtr) + 2)
      ensures ChannelReady()
      ensures SameOutside(old(mem[..]), mem[..], list.pBegin, list.pEnd)
      ensures list.pBegin >= 0 && old(list.pPtr) >= 0
      ensures Transfer(mem[..], list.pBegin, list.pEnd, list.pBegin, old(list.pPtr), spec.closed)
      ensures Walk(mem[..], list.pBegin) == Some(spec.closed + [End([])])
    {
      hide ListOk, TagWord, Transfer, Walk, ChannelOk;
      InBounds();
      mem[list.pPtr] := TagWord(0, DMA_TAG_END, 0);
      mem[list.pPtr + 1] := 0;
      EndOk(old(mem[..]), mem[..], list, spec, dmaBusy, tadr, xfer);
      list := list.(pPtr := list.pPtr + 2);
    }

    // ---- gslist.c: GIF tags ----

    /** The idiom `tag = pPtr++` with both words of the quadword stored. */
    method StoreQword(w0: u64, w1: u64)
      requires Building() && (spec.phase == InCnt || spec.phase == InAd) && Room(list, spec) >= 2
      modifies mem, `list, `spec
      ensures Building() && (old(Owned()) ==> Owned())
      ensures SameOutside(old(mem[..]), mem[..], list.pBegin, list.pEnd)
      ensures list == old(list).(pPtr := old(list.pPtr) + 2)
      ensures spec == old(spec).(words := old(spec.words) + [w0, w1])
    {
      hide ListOk;
      InBounds();
      mem[list.pPtr] := w0;
      mem[list.pPtr + 1] := w1;
      QwordOk(old(mem[..]), mem[..], list, spec, dmaBusy, tadr, xfer, w0, w1);
      list := list.(pPtr := list.pPtr + 2);
      spec := spec.(words := spec.words + [w0, w1]);
    }

    method GSGifTagImage(nQwords: nat)
      requires Building() && spec.phase == InCnt && Room(list, spec) >= 2
      requires nQwords < 0x8000
      modifies mem, `list, `spec
      ensures Building() && (old(Owned()) ==> Owned())
      ensures SameOutside(old(mem[..]), mem[..], list.pBegin, list.pEnd)
      ensures list == old(list).(pPtr := old(list.pPtr) + 2)
      ensures spec == old(spec).(words := old(spec.words) + [ImageTag(nQwords), 0])
    {
      StoreQword(TagWord(nQwords, 0, TAG1_IMAGE), 0);
    }

    method GSGifTagOpenAD()
      requires Building() && spec.phase == InCnt && Room(list, spec) >= 2
      modifies mem, `list, `spec
      ensures Building() && (old(Owned()) ==> Owned())
      ensures SameOutside(old(mem[..]), mem[..], list.pBegin, list.pEnd)
      ensures list == old(list).(pPtr := old(list.pPtr) + 2, pGifTag := old(list.pPtr))
      ensures spec == old(spec).(phase := InAd, tagAt := |old(spec.words)|,
                                 words := old(spec.words) + [TagWord(0, 0, TAG1_AD), GIF_REG_AD])
    {
      hide Chain, ChannelOk, OpenList, TagWord;
      StoreQword(TagWord(0, 0, TAG1_AD), GIF_REG_AD);
      list := list.(pGifTag := list.pPtr - 2);
      spec := spec.(phase := InAd, tagAt := |spec.words| - 2);
    }

    method GSGifRegAD(uAddr: u32, uData: u64)
      requires Building() && spec.phase == InAd && Room(list, spec) >= 2
      modifies mem, `list, `spec
      ensures Building() && (old(Owned()) ==> Owned())
      ensures SameOutside(old(mem[..]), mem[..], list.pBegin, list.pEnd)
      ensures list == old(list).(pPtr := old(list.pPtr) + 2)
      ensures spec == old(spec).(words := old(spec.words) + [uData, uAddr])
    {
      StoreQword(uData, uAddr);
    }

    /** Patches the loop count of the open tag with the `n` registers written since. */
    method GSGifTagCloseAD(ghost n: nat)
      requires Building() && spec.phase == InAd
      requires |spec.words| == spec.tagAt + 2 + 2 * n
      modifies mem, `list, `spec
      ensures Building() && (old(Owned()) ==> Owned())
      ensures SameOutside(old(mem[..]), mem[..], list.pBegin, list.pEnd)
      ensures list == old(list).(pGifTag := NULL) && old(spec).tagAt < |old(spec).words|
      ensures spec == old(spec).(phase := InCnt, words := old(spec).words[old(spec).tagAt := AdTag(n)])
    {
      hide ListOk, SetLow16, Or, TagWord;
      InBounds();
      var nLoop := (list.pPtr - list.pGifTag) / 2 - 1;
      mem[list.pGifTag] := SetLow16(mem[list.pGifTag], Or(nLoop, 0x8000));
      AdCloseOk(old(mem[..]), mem[..], list, spec, dmaBusy, tadr, xfer, nLoop);
      list := list.(pGifTag := NULL);
      spec := spec.(phase := InCnt, words := spec.words[spec.tagAt := AdTag(nLoop)]);
    }

    method GSGifTagOpen(GifTag: u64, GifRegs: u64)
      requires Building() && spec.phase == InCnt && Room(list, spec) >= 2
      modifies mem, `list, `spec
      ensures Building() && (old(Owned()) ==> Owned())
      ensures SameOutside(old(mem[..]), mem[..], list.pBegin, list.pEnd)
      ensures list == old(list).(pPtr := old(list.pPtr) + 2, pGifTag := old(list.pPtr),
                                 pGifData := old(list.pPtr) + 2)
      ensures spec == old(spec).(phase := InRegList, tagAt := |old(spec.words)|,
                                 words := old(spec.words) + [GifTag, GifRegs])
    {
      hide Chain, ChannelOk, OpenList, TagWord;
      StoreQword(GifTag, GifRegs);
      list := list.(pGifTag := list.pPtr - 2, pGifData := list.pPtr);
      spec := spec.(phase := InRegList, tagAt := |spec.words| - 2);
    }

    method GSGifReg(uData: u64)
      requires Building() && spec.phase == InRegList && Room(list, spec) >= 1
      modifies mem, `list, `spec
      ensures Building() && (old(Owned()) ==> Owned())
      ensures SameOutside(old(mem[..]), mem[..], list.pBegin, list.pEnd)
      ensures list == old(list).(pGifData := old(list.pGifData) + 1)
      ensures spec == old(spec).(words := old(spec.words) + [uData])
    {
      hide ListOk;
      InBounds();
      mem[list.pGifData] := uData;
      WordOk(old(mem[..]), mem[..], list, spec, dmaBusy, tadr, xfer, uData);
      list := list.(pGifData := list.pGifData + 1);
      spec := spec.(words := spec.words + [uData]);
    }

    /** The test for rounding up to a whole quadword, `(Uint32)pGifData & 0x7`. */
    predicate RoundTest(word: int) {
      (base + 8 * word) % W32 % 8 != 0
    }

    lemma NeverRounds(word: int)
      requires base % 16 == 0
      ensures !RoundTest(word)
      ensures RoundTest(word) <==> (base + 8 * word) % 0x1_0000_0000 % 8 != 0
    {
      var b := base / 16;
      assert (base + 8 * word) % W32 == 8 * ((2 * b + word) % (W32 / 8));
    }

    /** The list pointer becomes the data pointer, on a quadword or not. */
    method GSGifTagClose()
      requires Building() && spec.phase == InRegList && base % 16 == 0
      modifies `list, `spec
      ensures Building() && (old(Owned()) ==> Owned())
      ensures list == old(list).(pPtr := old(list.pGifData), pGifTag := NULL, pGifData := NULL)
      ensures spec == old(spec).(phase := InCnt)
    {
      hide Chain, ChannelOk, OpenList, TagWord, RoundTest;
      NeverRounds(list.pGifData);
      if RoundTest(list.pGifData) {
        assert false;
      }
      list := list.(pPtr := list.pGifData, pGifTag := NULL, pGifData := NULL);
      spec := spec.(phase := InCnt);
    }

    /** The rounding test asks for 8-byte alignment, which every Uint64* has, so it never fires:
        closing leaves the list pointer on a quadword if and only if the number of registers
        written since the tag was even. */
    lemma CloseRoundsNothing(tag: nat, nRegs: nat)
      requires base % 16 == 0 && (base + 8 * tag) % 16 == 0
      ensures !RoundTest(tag + 2 + nRegs)
      ensures (base + 8 * (tag + 2 + nRegs)) % 16 == 0 <==> nRegs % 2 == 0
    {
      hide RoundTest;
      NeverRounds(tag + 2 + nRegs);
      assert base + 8 * (tag + 2 + nRegs) == (base + 8 * tag) + 16 + 8 * nRegs;
      Halves((base + 8 * tag) / 16 + 1, nRegs);
    }

    static lemma Halves(q: int, n: nat)
      ensures (16 * q + 8 * n) % 16 == 0 <==> n % 2 == 0
    {
      assert 16 * q + 8 * n == 16 * (q + n / 2) + 8 * (n % 2);
    }

    // ---- ps2dma.c: the GIF channel ----

    /** The channel reads one tag and transfers its data. */
    method DmaStep()
      requires ChannelReady()
      modifies `dmaBusy, `tadr, `gifIn, `xfer
      ensures ChannelReady()
      ensures InFlight(old(xfer)) == [] ==> xfer == Idle && gifIn == old(gifIn)
      ensures InFlight(old(xfer)) != [] ==>
        && xfer == old(xfer).(segs := old(xfer).segs[1..])
        && gifIn == old(gifIn) + SegData(old(xfer).segs[0], ext)
      ensures (old(Building()) ==> Building()) && (old(Owned()) ==> Owned()) && (old(FifoOk()) ==> FifoOk())
    {
      hide Chain, OpenList, PointersOk, StepTag, IsEnd, EndSeg, Accounted, Transfer, SegData;
      if dmaBusy {
        ChannelStep(mem[..], tadr, xfer, gifIn, spec, ext);
        if IsEnd(mem[..], tadr) {
          EndData(ext);
          assert gifIn + [] == gifIn;
          gifIn := gifIn + SegData(EndSeg(mem[..], tadr), ext);
          dmaBusy := false;
          xfer := Idle;
        } else {
          var (seg, next) := StepTag(mem[..], tadr).value;
          gifIn := gifIn + SegData(seg, ext);
          tadr := next;
          xfer := xfer.(segs := xfer.segs[1..]);
        }
      }
    }

    /** The channel on its own: it reads any number of tags. Callers of the list functions put
        this between every two calls, so that what they promise holds of every interleaving. */
    method Channel()
      requires Building() || ChannelReady()
      modifies `dmaBusy, `tadr, `gifIn, `xfer
      ensures ChannelReady() && old(gifIn) <= gifIn && (dmaBusy ==> old(dmaBusy))
      ensures (old(Building()) ==> Building()) && (old(Owned()) ==> Owned()) && (old(FifoOk()) ==> FifoOk())
    {
      hide Accounted, PointersOk, Chain, OpenList, Transfer;
      var steps: nat := *;
      while steps > 0
        invariant ChannelReady() && old(gifIn) <= gifIn && (dmaBusy ==> old(dmaBusy))
        invariant (old(Building()) ==> Building()) && (old(Owned()) ==> Owned()) && (old(FifoOk()) ==> FifoOk())
      {
        DmaStep();
        steps := steps - 1;
      }
    }

    /** Waits until the transfer has finished. */
    method DmaSyncGIF()
      requires ChannelReady()
      modifies `dmaBusy, `tadr, `gifIn, `xfer, `waits
      ensures xfer == Idle && !dmaBusy && Accounted(gifIn, xfer, spec, ext)
      ensures old(gifIn) <= gifIn && waits == old(waits) + 1
      ensures (old(Building()) ==> Building()) && (old(Owned()) ==> Owned()) && (old(FifoOk()) ==> FifoOk())
    {
      hide Transfer;
      waits := waits + 1;
      while dmaBusy
        invariant ChannelReady()
        invariant old(gifIn) <= gifIn && waits == old(waits) + 1
        invariant (old(Building()) ==> Building()) && (old(Owned()) ==> Owned()) && (old(FifoOk()) ==> FifoOk())
        decreases dmaBusy, |InFlight(xfer)|
      {
        DmaStep();
      }
    }

    /** Hands the chain at word `a` to the idle channel. */
    method DmaExecGIFChain(a: nat, ghost hi: nat, ghost end: nat, ghost segs: seq<Seg>)
      requires !dmaBusy && Transfer(mem[..], a, hi, a, end, segs)
      modifies `dmaBusy, `tadr, `xfer
      ensures ChannelOk(mem[..], dmaBusy, tadr, xfer)
      ensures dmaBusy && tadr == a && xfer == Busy(a, hi, end, segs)
    {
      tadr := a;
      dmaBusy := true;
      xfer := Busy(a, hi, end, segs);
    }

    // ---- gpfifo.c ----

    constructor GPFifoInit(block: array<u64>, addr: nat, nBytes: nat, memory: nat -> u64)
      requires addr % 16 == 0
      requires nBytes <= 8 * block.Length <= W32
      requires 1 <= nBytes / 16 / 2
      modifies block
      ensures mem == block && base == addr && ext == memory
      ensures nListQwords == nBytes / 16 / 2 && !dmaBusy
      ensures Building() && Owned() && list.pBegin == 0 && list.pPtr == 2 && spec == Spec(InCnt, [], [], [], [], 0)
      ensures Ready() <==> 2 <= nListQwords <= 65537
      ensures Stream() == [] && gifIn == [] && waits == 0
    {
      mem, base, ext := block, addr, memory;
      list := GSListT(NULL, NULL, NULL, NULL, NULL, NULL, false);
      nListQwords := nBytes / 16 / 2;
      pLists := [0, 2 * (nBytes / 16 / 2)];
      iCurList := 0;
      dmaBusy, tadr, gifIn := false, 0, [];
      spec, xfer, waits := Spec(NoCnt, [], [], [], [], 0), Idle, 0;
      new;
      GPFifoResume();
      DeliveredIsPrefix();
    }

    method GPFifoFlush()
      requires Ready()
      modifies this, mem
      ensures Ready() && iCurList == 1 - old(iCurList) && waits == old(waits) + 1
      ensures Stream() == spec.sent == old(Stream()) && old(gifIn) <= gifIn
      ensures list.pPtr == list.pBegin + 2 && spec.closed == [] && spec.words == []
    {
      hide Building, Transfer;
      GPFifoPause();
      Channel();
      GPFifoResume();
    }

    /** The first half of GPFifoPause: the current list becomes a complete chain, whose walk
        from its start visits exactly the segments built, in order, and one END. */
    method CompleteList() returns (ghost end: nat)
      requires Ready()
      modifies mem, `list, `spec, `dmaBusy, `tadr, `gifIn, `xfer
      ensures FifoOk() && ChannelReady() && old(gifIn) <= gifIn
      ensures list.pPtr == NULL && spec == Closed(old(spec))
      ensures var lo := pLists[iCurList];
        && Transfer(mem[..], lo, lo + 2 * nListQwords, lo, end, spec.closed)
        && Walk(mem[..], lo) == Some(spec.closed + [End([])])
    {
      hide ListOk, ChannelOk, Transfer, Walk, Accounted;
      InBounds();
      Channel();
      GSDmaCntClose();
      Channel();
      end := list.pPtr;
      GSDmaEnd();
      Channel();
      var nQwords := GSListEnd();
    }

    /** Completes the current list, waits for the previous one and hands this one over. */
    method GPFifoPause()
      requires Ready()
      modifies this, mem
      ensures Paused()
      ensures dmaBusy && iCurList == 1 - old(iCurList) && waits == old(waits) + 1
      ensures tadr == pLists[old(iCurList)]
      ensures Walk(mem[..], tadr) == Some(old(spec.closed) + [Cnt(old(spec.words))] + [End([])])
      ensures Stream() == spec.sent == old(Stream()) && old(gifIn) <= gifIn
    {
      hide ListOk, ChannelOk, Transfer, Walk, Accounted;
      ghost var end := CompleteList();
      DmaSyncGIF();
      AccountedHandover(gifIn, spec, ext, pLists[iCurList], pLists[iCurList] + 2 * nListQwords, end);
      DmaExecGIFChain(pLists[iCurList], pLists[iCurList] + 2 * nListQwords, end, spec.closed);
      spec := HandedOver(spec);
      iCurList := 1 - iCurList;
    }

    method GPFifoResume()
      requires Paused()
      modifies `list, `spec, mem, `dmaBusy, `tadr, `gifIn, `xfer
      ensures Building() && Owned() && (Ready() <==> Sized())
      ensures Stream() == old(Stream()) && spec.sent == old(spec.sent)
      ensures old(gifIn) <= gifIn && (dmaBusy ==> old(dmaBusy))
      ensures list.pPtr == list.pBegin + 2 && spec.phase == InCnt && spec.closed == [] && spec.words == []
      ensures spec.tagAt == 0 && spec.before == old(spec.before)
    {
      hide ListOk, Accounted;
      GSListBegin(pLists[iCurList], nListQwords, true);
      Channel();
      GSDmaCntOpen();
    }

    /** GSListSpace with the callback it calls: with the room there nothing happens, and without it
        the lists are swapped once. It fails exactly when neither the current list nor
        a fresh one, already holding its CNT tag, has the room. */
    method GSListSpace(nMinQwords: u32) returns (ok: bool)
      requires Building() && (list.pFlushFunc ==> Ready())
      modifies this, mem
      ensures old(gifIn) <= gifIn
      ensures !old(list.pFlushFunc) ==> unchanged(this) && unchanged(mem) && (ok <==> GSListGetSpace() >= nMinQwords)
      ensures old(list.pFlushFunc) ==> Ready() && Stream() == old(Stream())
      ensures (old(list.pEnd) - old(list.pPtr)) / 2 >= nMinQwords ==> ok && unchanged(this) && unchanged(mem)
      ensures old(list.pFlushFunc) && (old(list.pEnd) - old(list.pPtr)) / 2 < nMinQwords ==>
        && iCurList == 1 - old(iCurList) && spec.sent == old(Stream()) && waits == old(waits) + 1
        && list.pPtr == list.pBegin + 2 && spec.closed == [] && spec.words == []
      ensures SentWhole()
      ensures old(list.pFlushFunc) ==>
        (ok <==> old(GSListGetSpace()) >= nMinQwords || nListQwords - 1 >= nMinQwords)
      ensures ok ==> list.pPtr + 2 * nMinQwords <= list.pEnd
    {
      hide Chain, ChannelOk, Payload;
      if GSListGetSpace() % W32 < nMinQwords {
        if list.pFlushFunc {
          GPFifoFlush();
        }
        if GSListGetSpace() % W32 < nMinQwords {
          return false;
        }
      }
      return true;
    }

    method GPFifoSync()
      requires ChannelReady()
      modifies `dmaBusy, `tadr, `gifIn, `xfer, `waits
      ensures (old(Ready()) ==> Ready()) && (old(Paused()) ==> Paused()) && !dmaBusy && old(gifIn) <= gifIn
      ensures gifIn == spec.sent && waits == old(waits) + 1
      ensures spec.closed == [] && spec.words == [] ==> gifIn == Stream()
    {
      hide Chain, OpenList, Transfer, PointersOk;
      DmaSyncGIF();
      PayloadClose([], [], ext);
    }

    /** In every state in which a list is being written, inside a primitive too: while a transfer
        runs, the channel stands in the other list, whose memory is disjoint from this one. */
    lemma BusyListIsTheOther()
      requires Building() && Owned() && dmaBusy
      ensures var other := pLists[1 - iCurList];
        && other <= tadr && tadr + 2 <= other + 2 * nListQwords <= mem.Length
        && (other + 2 * nListQwords <= list.pBegin || list.pEnd <= other)
    {}

    /** In every state, building or paused, what the GIF has received is a prefix of what was handed
        over, and that of what was appended. */
    lemma DeliveredIsPrefix()
      requires Building() || ChannelReady()
      ensures gifIn <= spec.sent <= Stream()
    {}
  }
}
