/** Whole runs of the FIFO: any sequence of primitives, flushes, pauses and waits, with the channel
    running whenever it likes. */
module GpRun {
  import opened Words
  import opened DmaChain
  import opened GifStream
  import opened GsList
  import opened GpFifo
  import opened GpPrim

  datatype Command =
    | Rect(x1: u32, y1: u32, c1: u32, x2: u32, y2: u32, c2: u32, z: u32, abe: u32)
    | TexRect(tx1: u32, ty1: u32, u1: u32, v1: u32, tx2: u32, ty2: u32, u2: u32, v2: u32,
              tz: u32, colour: u32, tabe: u32)
    | ZBuf(enable: bool)
    | SetTex(tbp: u32, tbw: u32, tw: u32, th: u32, tpsm: u32, cbp: u32, cbw: u32, cpsm: u32, filter: bool)
    | Upload(dbp: i32, dbw: i32, xofs: i32, yofs: i32, pxlfmt: i32, tex: u32, w: i32, h: i32)
    | Flush
    | Sync
    | Pause
    | Resume

  /** GSGifTagImage asserts that the image's quadword count fits NLOOP. */
  predicate ImageFits(c: Command) {
    c.Upload? ==> 0 <= NumQwords(c.pxlfmt, c.w * c.h) < 0x8000
  }

  /** Between GPFifoPause and GPFifoResume there is no list to write to. */
  predicate Admissible(c: Command, paused: bool) {
    ImageFits(c) && (if paused then c.Resume? || c.Sync? else !c.Resume?)
  }

  predicate PausedAfter(c: Command, paused: bool) {
    c.Pause? || (paused && !c.Resume?)
  }

  /** Whether the FIFO is paused after these commands. */
  predicate PausedAt(cs: seq<Command>) {
    cs != [] && PausedAfter(cs[|cs| - 1], PausedAt(cs[..|cs| - 1]))
  }

  /** The register writes and images a command asks for; the last four ask for none. */
  function Issued(c: Command, ext: nat -> u64): seq<GsOp>
    requires ImageFits(c)
  {
    match c
    case Rect(x1, y1, c1, x2, y2, _, z, abe) => RectOps(x1, y1, c1, x2, y2, z, abe)
    case TexRect(x1, y1, u1, v1, x2, y2, u2, v2, z, colour, abe) =>
      TexRectOps(x1, y1, u1, v1, x2, y2, u2, v2, z, colour, abe)
    case ZBuf(enable) => ZTestOps(enable)
    case SetTex(tbp, tbw, tw, th, tpsm, cbp, _, cpsm, filter) =>
      SetTexOps(tbp, tbw, tw, th, tpsm, cbp, cpsm, filter)
    case Upload(dbp, dbw, xofs, yofs, pxlfmt, tex, w, h) =>
      UploadOps(ext, dbp, dbw, xofs, yofs, pxlfmt, tex, w, h)
    case _ => []
  }

  /** The commands stand for the primitives of the same name, and flushing, waiting, pausing and
      resuming ask for nothing. */
  lemma CommandsAsk(c: Command, ext: nat -> u64, paused: bool)
    ensures c.Rect? ==> Issued(c, ext) == RectOps(c.x1, c.y1, c.c1, c.x2, c.y2, c.z, c.abe)
    ensures c.TexRect? ==>
      Issued(c, ext) == TexRectOps(c.tx1, c.ty1, c.u1, c.v1, c.tx2, c.ty2, c.u2, c.v2, c.tz, c.colour, c.tabe)
    ensures c.ZBuf? ==> Issued(c, ext) == [RegWrite(0x47, if c.enable then 0x7_0000 else 0x3_0000)]
    ensures c.SetTex? ==> Issued(c, ext) == SetTexOps(c.tbp, c.tbw, c.tw, c.th, c.tpsm, c.cbp, c.cpsm, c.filter)
    ensures c.Upload? && ImageFits(c) ==>
      Issued(c, ext) == UploadOps(ext, c.dbp, c.dbw, c.xofs, c.yofs, c.pxlfmt, c.tex, c.w, c.h)
    ensures c.Flush? || c.Sync? || c.Pause? || c.Resume? ==> Issued(c, ext) == []
    ensures !c.Upload? ==> (Admissible(c, paused) <==> if paused then c.Resume? || c.Sync? else !c.Resume?)
    ensures c.Upload? ==> (Admissible(c, paused) <==> !paused && 0 <= NumQwords(c.pxlfmt, c.w * c.h) < 0x8000)
  {
    hide RectOps, TexRectOps, SetTexOps, UploadOps, NumQwords;
  }

  ghost predicate AllAdmissible(cs: seq<Command>) {
    forall i :: 0 <= i < |cs| ==> Admissible(cs[i], PausedAt(cs[..i]))
  }

  lemma AdmissiblePrefix(cs: seq<Command>, k: nat)
    requires AllAdmissible(cs) && k <= |cs|
    ensures AllAdmissible(cs[..k])
  {
    hide Admissible;
    forall i | 0 <= i < k ensures Admissible(cs[..k][i], PausedAt(cs[..k][..i])) {
      assert cs[..k][..i] == cs[..i];
    }
  }

  ghost function IssuedAll(cs: seq<Command>, ext: nat -> u64): seq<GsOp>
    requires AllAdmissible(cs)
  {
    if cs == [] then []
    else
      AdmissiblePrefix(cs, |cs| - 1);
      assert Admissible(cs[|cs| - 1], PausedAt(cs[..|cs| - 1]));
      IssuedAll(cs[..|cs| - 1], ext) + Issued(cs[|cs| - 1], ext)
  }

  ghost predicate Stands(f: Fifo, paused: bool)
    reads f, f.mem
  {
    f.Sized() && if paused then f.Paused() else f.Ready()
  }

  /** One command extends the queue of commands by what it asks for, wherever its words end up;
      a list handed over meanwhile ends with the command before. */
  method Execute(f: Fifo, c: Command, paused: bool)
    requires Stands(f, paused) && f.nListQwords >= 257 && Admissible(c, paused)
    requires Parse(f.Stream()).Some?
    modifies f, f.mem
    ensures Stands(f, PausedAfter(c, paused))
    ensures Parse(f.Stream()) == Some(Parse(old(f.Stream())).value + Issued(c, f.ext))
    ensures if c.Flush? || c.Pause? then f.spec.sent == f.Stream() else f.SentWhole()
  {
    hide Parse, Fifo.Ready, Fifo.Paused, Fifo.Stream, RectOps, TexRectOps, ZTestOps, SetTexOps, UploadOps,
      AdWords, RegListWords, NumQwords;
    assert Parse(f.Stream()).value + [] == Parse(f.Stream()).value;
    match c {
      case Rect(x1, y1, c1, x2, y2, c2, z, abe) =>
        GPPrimRect(f, x1, y1, c1, x2, y2, c2, z, abe);
      case TexRect(x1, y1, u1, v1, x2, y2, u2, v2, z, colour, abe) =>
        GPPrimTexRect(f, x1, y1, u1, v1, x2, y2, u2, v2, z, colour, abe);
      case ZBuf(enable) =>
        GPPrimZBuf(f, enable);
      case SetTex(tbp, tbw, tw, th, tpsm, cbp, cbw, cpsm, filter) =>
        GPPrimSetTex(f, tbp, tbw, tw, th, tpsm, cbp, cbw, cpsm, filter);
      case Upload(dbp, dbw, xofs, yofs, pxlfmt, tex, w, h) =>
        GPPrimUploadTexture(f, dbp, dbw, xofs, yofs, pxlfmt, tex, w, h);
      case Flush =>
        f.GPFifoFlush();
      case Sync =>
        Wait(f, paused);
      case Pause =>
        f.GPFifoPause();
      case Resume =>
        f.GPFifoResume();
    }
  }

  method Wait(f: Fifo, ghost paused: bool)
    requires Stands(f, paused)
    modifies f
    ensures Stands(f, paused) && f.spec == old(f.spec) && f.Stream() == old(f.Stream())
    ensures f.gifIn == f.spec.sent
  {
    f.GPFifoSync();
  }

  method Interleave(f: Fifo, ghost paused: bool)
    requires Stands(f, paused)
    modifies f
    ensures Stands(f, paused) && f.spec == old(f.spec) && f.Stream() == old(f.Stream())
  {
    f.Channel();
  }

  lemma IssuedAllAdd(cs: seq<Command>, k: nat, ext: nat -> u64)
    requires AllAdmissible(cs) && k < |cs|
    ensures AllAdmissible(cs[..k]) && AllAdmissible(cs[..k + 1])
    ensures Admissible(cs[k], PausedAt(cs[..k])) && ImageFits(cs[k])
    ensures PausedAt(cs[..k + 1]) == PausedAfter(cs[k], PausedAt(cs[..k]))
    ensures IssuedAll(cs[..k + 1], ext) == IssuedAll(cs[..k], ext) + Issued(cs[k], ext)
  {
    hide Issued, ImageFits, AllAdmissible;
    AdmissiblePrefix(cs, k);
    AdmissiblePrefix(cs, k + 1);
    assert cs[..k + 1][..k] == cs[..k];
    AdmissibleAt(cs, k);
  }

  lemma AdmissibleAt(cs: seq<Command>, k: nat)
    requires AllAdmissible(cs) && k < |cs|
    ensures Admissible(cs[k], PausedAt(cs[..k]))
  {}

  /** What has been handed over to the channel reads as everything the first `done` commands
      issued, on top of `queue`; or nothing has been handed over yet. */
  ghost predicate SentIs(sent: seq<u64>, sent0: seq<u64>, queue: seq<GsOp>, cs: seq<Command>, done: nat,
                         ext: nat -> u64)
  {
    && done <= |cs| && AllAdmissible(cs[..done])
    && ((done == 0 && sent == sent0) || Parse(sent) == Some(queue + IssuedAll(cs[..done], ext)))
  }

  /** No command from `done` on hands a list over explicitly. */
  ghost predicate LastFlush(cs: seq<Command>, done: nat, n: nat) {
    n <= |cs| && forall i :: done <= i < n ==> !cs[i].Flush? && !cs[i].Pause?
  }

  /** The double-buffered FIFO refines an unbounded command queue: whatever the commands, wherever
      the lists were swapped on the way and however far the channel ran between any two calls,
      received, in-flight and pending words together read as everything issued, in order, nothing
      lost or repeated; and what was handed over reads as whole commands, up to the last flush
      at least. */
  method Run(f: Fifo, cs: seq<Command>) returns (ghost done: nat)
    requires f.Ready() && f.nListQwords >= 257 && AllAdmissible(cs)
    requires Parse(f.Stream()).Some?
    modifies f, f.mem
    ensures Stands(f, PausedAt(cs))
    ensures Parse(f.Stream()) == Some(Parse(old(f.Stream())).value + IssuedAll(cs, f.ext))
    ensures f.gifIn <= f.spec.sent <= f.Stream()
    ensures SentIs(f.spec.sent, old(f.spec.sent), Parse(old(f.Stream())).value, cs, done, f.ext)
    ensures LastFlush(cs, done, |cs|)
  {
    hide Parse, Fifo.Ready, Fifo.Paused, Fifo.Stream, Issued, Admissible, ImageFits, AllAdmissible, IssuedAll, Stands;
    var i, paused := 0, false;
    ghost var queue, sent0 := Parse(f.Stream()).value, f.spec.sent;
    NoneIssued(f, cs, queue);
    done := 0;
    while i < |cs|
      invariant 0 <= i <= |cs| && AllAdmissible(cs[..i])
      invariant Stands(f, paused) && paused == PausedAt(cs[..i])
      invariant Parse(f.Stream()) == Some(queue + IssuedAll(cs[..i], f.ext))
      invariant done <= i && SentIs(f.spec.sent, sent0, queue, cs, done, f.ext) && LastFlush(cs, done, i)
    {
      IssuedAllAdd(cs, i, f.ext);
      Interleave(f, paused);
      ghost var sent, stream := f.spec.sent, f.Stream();
      Execute(f, cs[i], paused);
      assert (queue + IssuedAll(cs[..i], f.ext)) + Issued(cs[i], f.ext)
          == queue + (IssuedAll(cs[..i], f.ext) + Issued(cs[i], f.ext));
      if cs[i].Flush? || cs[i].Pause? {
        done := i + 1;
      } else if f.spec.sent != sent {
        done := i;
      }
      paused := PausedAfter(cs[i], paused);
      i := i + 1;
    }
    assert cs[..i] == cs;
    Interleave(f, paused);
    Delivered(f, paused);
  }

  lemma NoneIssued(f: Fifo, cs: seq<Command>, queue: seq<GsOp>)
    requires f.Ready()
    ensures AllAdmissible(cs[..0]) && !PausedAt(cs[..0]) && Stands(f, false)
    ensures queue + IssuedAll(cs[..0], f.ext) == queue
  {}

  /** What was received is a prefix of what was handed over, and that of what was appended. */
  lemma Delivered(f: Fifo, paused: bool)
    requires Stands(f, paused)
    ensures f.gifIn <= f.spec.sent <= f.Stream()
    ensures paused ==> f.spec.sent == f.Stream()
  {
    hide ListOk, ChannelOk, Payload;
    PayloadClose([], [], f.ext);
  }

  /** After a wait the GIF has received, exactly once and in order, everything the first `done`
      commands issued, and those reach to the last flush at least. */
  method RunAndSync(f: Fifo, cs: seq<Command>) returns (ghost done: nat)
    requires f.Ready() && f.nListQwords >= 257 && AllAdmissible(cs)
    requires f.Stream() == []
    modifies f, f.mem
    ensures Stands(f, PausedAt(cs)) && f.gifIn == f.spec.sent
    ensures Parse(f.Stream()) == Some(IssuedAll(cs, f.ext))
    ensures done <= |cs| && AllAdmissible(cs[..done]) && LastFlush(cs, done, |cs|)
    ensures Parse(f.gifIn) == Some(IssuedAll(cs[..done], f.ext))
  {
    hide Parse, Fifo.Ready, Fifo.Stream, AllAdmissible, IssuedAll, LastFlush;
    ParseEmpty();
    NoneIssued(f, cs, []);
    Delivered(f, false);
    done := Run(f, cs);
    assert [] + IssuedAll(cs, f.ext) == IssuedAll(cs, f.ext);
    assert [] + IssuedAll(cs[..done], f.ext) == IssuedAll(cs[..done], f.ext);
    Wait(f, PausedAt(cs));
  }

  /** After a flush and a wait the GIF has received everything issued, exactly once, in order. */
  method RunAndDrain(f: Fifo, cs: seq<Command>)
    requires f.Ready() && f.nListQwords >= 257 && AllAdmissible(cs)
    requires f.Stream() == []
    modifies f, f.mem
    ensures Stands(f, PausedAt(cs)) && Parse(f.gifIn) == Some(IssuedAll(cs, f.ext))
  {
    hide Parse, Fifo.Ready, Fifo.Paused, Fifo.Stream, AllAdmissible, IssuedAll, LastFlush;
    ghost var done := RunAndSync(f, cs);
    if PausedAt(cs) {
      Delivered(f, true);
    } else {
      f.GPFifoFlush();
      Wait(f, false);
    }
  }
}
