# SNESticle: a verified model of its graphics FIFO, profiler, font cutter, resampler and micro-code

This project models six parts of SNESticle for the PlayStation 2 in Dafny and proves what each of
them is for. `dafny verify dfyconfig.toml` checks everything.

**Graphics FIFO** (`Words`, `BitFields`, `GsFormat`, `GsRegs`, `DmaChain`, `GifStream`, `GsList`,
`GpFifo`, `GpPrim`, `GpRun`). Drawing primitives append GIF packets to a DMA list: a CNT tag is opened,
packets are written behind it, and closing it patches its quadword count so that it lands on the next
tag. A texture upload closes the CNT, splices the texture in with a REF tag and opens another CNT. When
a primitive finds too little room, the list is completed with an END tag and handed to the DMA channel,
and writing goes on in the other of two lists. `Fifo` is one class with the static state of `gslist.c`
and `gpfifo.c` over an array of 64-bit words; pointers are word indices, so that a list pointer that is
not on a quadword can be expressed. Two readers stand on the other side: `DmaChain.Walk` follows DMA
tags, and `GifStream.Parse` reads the words that arrive as register writes and images. The channel is a
second agent: `Channel` lets it read any number of tags, and stands between every two calls that a
primitive, a flush or a pause makes; only `DmaSyncGIF` waits for it. The main result is `GpRun.Run`: for
every sequence of commands and every such interleaving, the words received, in flight and pending read as
exactly the register writes and images issued, in order, and what was handed over to the channel reads as
whole commands, up to the last flush at least.

The source's rounding test in `GSGifTagClose` never fires; `CloseRoundsNothing` says so and shows that
alignment rests on an even number of registers, which both register-list primitives write. `GSListEnd`
returns the capacity, not the number of quadwords written. `GPPrimSetTex` writes TEX1 of the second
context when filtering is off. `GPPrimRect` ignores its second colour. All four are modelled as written.

**Profiler** (`ProfTable`, `ProfTree`, `ProfLog`). One scan of an enter/leave log with a 16-entry stack
and a 64-entry section table, against a recursive call tree. A counter is its non-negative
representative modulo 2^32. Every pair of neighbouring entries is charged exactly once; the "<unknown>"
line and the leaf sections make up the span of the log exactly when no time is spent in sections that are
themselves called "<unknown>", which the scan accepts.

**Glyphs** (`GlyphSpec`, `Font`). Nested scans cut a bitmap into lines and lines into characters.

**Resampler** (`Resample`, `MixConvert`). A 16.16 phase accumulator. As in the source, the interpolated
value is computed but the held sample is stored, the first input sample is fetched twice, and a second
block of output reads the input from its start again. When down-sampling, a step fetches one sample only.

**Rotates** (`Rotate`). The 65816 memory rotate programs with absolute addressing, run over a number of
any length up to a bank. The `SNCPU_*` macros are those of `SNESticle/Source/common/sncpu_c.c`.

**Code generator** (`AsmC`). Operations are given as attribute texts. The lines of an operation are its labels,
the lines of each micro-op in order and the closing line; they account for the declared cycles unless a CYCLE names no number (the closing line then asks for NaN), a PUSH or POP has an unusual
size, or a macro that takes cycles is written by its name. **Movie clips** (`Movie`). Replaying recorded input on a deterministic machine.

`Run`, `RunAndSync`, `RunAndDrain`, `OutputCalls`, `RolChain`, `RorChain`, `RolThenRor`, `Record`, `Replay`
and `Summarise` are not functions of the source: they are callers, written to state what whole runs of its functions do.
`StoreQword`, `CompleteList`, `TexRectWrites`, `SetTexFirst`, `SetTexSecond`, `UploadWrites`, `SpliceImage`,
`ScanEntries`, `CloseSection`, `Rates` and `Address` are pieces of one source function, and `Reg` and `RegAD` are
`GSGifReg` and `GSGifRegAD` with what the channel does before the next call.

## Model

| member | source | states |
|---|---|---|
| BitFields.UnpackField | Gep/Include/ps2/gs.h:106-171 | A word packed by shifting and or-ing fields that fit gives each field back, for every layout |
| BitFields.UnpackAll | Gep/Include/ps2/gs.h:106-171 | Of a register with given field widths every field is read back from its own bits |
| BitFields.OrFieldsIs | Gep/Include/ps2/gs.h:106-171 | Fitting or not: a bit of a packed word is set if and only if one of the values, as a 64-bit word, has it after its shift |
| GsFormat.GifTagDecodes | Gep/Include/ps2/gs.h:35-37 | NLOOP, EOP, PRE, PRIM, FLG and NREG are read back from GIF_SET_TAG |
| GsFormat.AdTagIsPacked | Gep/Source/ps2/gslist.c:223-258 | The tag left by closing an A+D packet of n registers is GIF_SET_TAG with NLOOP n, EOP, packed mode and one descriptor |
| GsFormat.ImageTagIsPacked | Gep/Source/ps2/gslist.c:204-219 | The image tag is GIF_SET_TAG with NLOOP n and image mode, without EOP |
| GsFormat.TagNumbers | Gep/Source/ps2/gpprim.c:20-59 | The four GIF tags the primitives use, as numbers |
| DmaChain.DmaTagDecodes | Gep/Include/ps2/ps2dma.h:10-26 | Id and address of a DMA tag are read back; the count is, if and only if it is below 65536 |
| DmaChain.DmaNumbers | Gep/Include/ps2/ps2dma.h:10-26 | The CNT, REF and END tag words as numbers |
| DmaChain.CntStep | Gep/Source/ps2/gslist.c:149-165 | A CNT with a patched count transfers exactly its words and the next tag is right behind them |
| DmaChain.OpenListClose | Gep/Source/ps2/gslist.c:149-165 | Closing turns the words since the CNT into one segment of the chain and touches one word |
| DmaChain.ChainRef | Gep/Source/ps2/gslist.c:167-182 | A REF tag adds a segment that transfers the referenced quadwords |
| DmaChain.ChainSnoc | Gep/Source/ps2/gslist.c:129-200 | A tag written where a chain stops extends the chain by its segment |
| DmaChain.WalkIsChain | Gep/Source/ps2/gslist.c:185-200 | From the start of a list the channel visits the tags built, in order, then the single END |
| GifStream.ParseAppend | Gep/Source/ps2/gpfifo.c:43-47 | Complete packets read the same wherever the stream is cut between them |
| GifStream.ParseAd | Gep/Source/ps2/gslist.c:223-271 | An A+D packet reads as its register writes |
| GifStream.ParseRegList | Gep/Source/ps2/gslist.c:277-350 | A register list reads as one write per descriptor |
| GifStream.ParseImage | Gep/Source/ps2/gslist.c:204-219 | An image tag and the words after it read as that image |
| GifStream.BodyIs | Gep/Include/ps2/gs.h:35-37 | How many words of data stand behind any tag of GIF_SET_TAG |
| GsList.CntCloseOk | Gep/Source/ps2/gslist.c:149-165 | Patching the count keeps the list and the list in transfer well formed |
| GsList.AdCloseOk | Gep/Source/ps2/gslist.c:242-258 | Patching NLOOP changes one word of the packet and nothing else |
| GsList.ChannelStep | Gep/Source/ps2/gpfifo.c:49-76 | One channel step keeps received, in-flight and pending words together unchanged |
| GsList.AccountedHandover | Gep/Source/ps2/gpfifo.c:72-75 | Handing a completed list over moves its words from pending to in flight |
| GpFifo.Fifo.GSListBegin | Gep/Source/ps2/gslist.c:54-69 | An empty list over the given memory, with nothing open |
| GpFifo.Fifo.GSListEnd | Gep/Source/ps2/gslist.c:71-89 | No list; the result is the capacity |
| GpFifo.Fifo.GSDmaCntOpen | Gep/Source/ps2/gslist.c:129-147 | A CNT is open at the old pointer; only the list is written |
| GpFifo.Fifo.GSDmaCntClose | Gep/Source/ps2/gslist.c:149-165 | The words since the CNT become one segment |
| GpFifo.Fifo.GSDmaRef | Gep/Source/ps2/gslist.c:167-182 | The referenced quadwords follow what was appended so far |
| GpFifo.Fifo.GSDmaEnd | Gep/Source/ps2/gslist.c:185-200 | The list is a complete chain whose walk visits its segments and one END |
| GpFifo.Fifo.GSGifTagImage | Gep/Source/ps2/gslist.c:204-219 | An image tag is appended |
| GpFifo.Fifo.GSGifTagOpenAD | Gep/Source/ps2/gslist.c:223-240 | An A+D tag with count 0 is appended and open |
| GpFifo.Fifo.GSGifRegAD | Gep/Source/ps2/gslist.c:260-271 | Data and address words are appended |
| GpFifo.Fifo.GSGifTagCloseAD | Gep/Source/ps2/gslist.c:242-258 | The open tag alone changes, to the tag for the registers written |
| GpFifo.Fifo.GSGifTagOpen | Gep/Source/ps2/gslist.c:277-293 | A caller's tag is appended and the data pointer starts behind it |
| GpFifo.Fifo.GSGifReg | Gep/Source/ps2/gslist.c:295-303 | One 64-bit word is appended |
| GpFifo.Fifo.GSGifTagClose | Gep/Source/ps2/gslist.c:331-350 | The list pointer becomes the data pointer; no word is added |
| GpFifo.Fifo.CloseRoundsNothing | Gep/Source/ps2/gslist.c:338-345 | The rounding test never fires; the pointer is on a quadword if and only if an even number of registers was written |
| GpFifo.Fifo.GSListSpace | Gep/Source/ps2/gslist.c:29-51 | With the room there it succeeds and nothing at all changes; without it the lists are swapped once, after one wait, and everything appended so far has been handed over; it fails if and only if neither the current nor a fresh list has the room |
| GpFifo.Fifo.GPFifoInit | Gep/Source/ps2/gpfifo.c:111-131 | Two disjoint lists of half the memory, the first one open and empty; ready for use if and only if they hold 2 to 65537 quadwords |
| GpFifo.Fifo.GPFifoFlush | Gep/Source/ps2/gpfifo.c:43-47 | Lists swap after one wait, the stream is unchanged and all of it has been handed over |
| GpFifo.Fifo.GPFifoPause | Gep/Source/ps2/gpfifo.c:49-76 | The channel is given a chain that visits exactly the segments built and one END, and is busy with it; one wait, for the list before; the stream is unchanged |
| GpFifo.Fifo.GPFifoResume | Gep/Source/ps2/gpfifo.c:78-85 | A fresh list with an open CNT; the stream is unchanged |
| GpFifo.Fifo.GPFifoSync | Gep/Source/ps2/gpfifo.c:87-91 | The channel is idle and the GIF has received exactly what was handed over; with nothing pending, everything appended |
| GpFifo.Fifo.Channel | Gep/Source/ps2/ps2dma.c:108-115 | However far the channel runs by itself, the list being written and the account of words stay intact |
| GpFifo.Fifo.DmaSyncGIF | Gep/Source/ps2/ps2dma.c:118-134 | All words in flight are received, in order |
| GpFifo.Fifo.BusyListIsTheOther | Gep/Source/ps2/gpfifo.c:49-85 | In every state in which a list is being written, inside primitives too, the channel stands in the other list and the two are disjoint |
| GpFifo.Fifo.DeliveredIsPrefix | Gep/Source/ps2/gpfifo.c:49-85 | Building or paused, what was received is a prefix of what was handed over, and that of what was appended |
| GpPrim.RectParses | Gep/Source/ps2/gpprim.c:20-27 | The words of a rectangle read as its four register writes |
| GpPrim.TexRectParses | Gep/Source/ps2/gpprim.c:59-68 | The words of a textured rectangle read as its six register writes |
| GpPrim.RectLands | Gep/Source/ps2/gpprim.c:16-26 | The corners land in the two XYZ2 writes, moved by 2048 pixels and kept to 16 bits, for any arguments; the blend flag lands in PRIM |
| GpPrim.TexRectLands | Gep/Source/ps2/gpprim.c:54-67 | The same for corners and texture coordinates of a textured rectangle |
| GpPrim.SetTexLands | Gep/Source/ps2/gpprim.c:97-98 | Base, width, format, sizes and palette land in TEX0 when they fit their fields |
| GpPrim.UploadLands | Gep/Source/ps2/gpprim.c:136-146 | Buffer, place, format and size of an upload land in its registers when they fit their fields |
| GpPrim.UploadParses | Gep/Source/ps2/gpprim.c:136-157 | Registers and image tag in one CNT and data by REF read as four writes and that image |
| GpPrim.NumQwordsIsLeast | Gep/Source/ps2/gpprim.c:124-132 | The quadword count is the least that holds the pixels |
| GpPrim.RectIs | Gep/Source/ps2/gpprim.c:15-25 | The four registers of a rectangle by number, with every field of PRIM, the first colour and both corners, for any arguments |
| GpPrim.TexRectIs | Gep/Source/ps2/gpprim.c:54-66 | The same for the six registers of a textured rectangle |
| GpPrim.SetTexIs | Gep/Source/ps2/gpprim.c:78-107 | The eight registers of a texture by number, with their values and every field of TEX0 |
| GpPrim.UploadIs | Gep/Source/ps2/gpprim.c:136-142 | The four registers of an upload by number, with every field; the direction is 0 and the buffer width is divided towards zero |
| GpPrim.UploadImage | Gep/Source/ps2/gpprim.c:146-153 | Behind them one image, whose words are those of memory from the texture on |
| GpPrim.AdWordsAre | Gep/Source/ps2/gslist.c:223-271 | An A+D packet word by word: the tag as a number, the descriptor, data and address of each write |
| GpPrim.RegListWordsAre | Gep/Source/ps2/gslist.c:277-350 | A register-list packet word by word |
| GpPrim.GPPrimRect | Gep/Source/ps2/gpprim.c:11-30 | With room for 256 quadwords nothing is handed over or waited for, else the lists are swapped once; either way the stream grows by its packet and the command queue by its four register writes |
| GpPrim.GPPrimTexRect | Gep/Source/ps2/gpprim.c:50-69 | The same for a textured rectangle and its six writes |
| GpPrim.GPPrimZBuf | Gep/Source/ps2/gpprim.c:33-48 | The same with room for 128 quadwords and one write of TEST_1, for both depth-test settings |
| GpPrim.GPPrimSetTex | Gep/Source/ps2/gpprim.c:72-110 | The same for the eight texture registers |
| GpPrim.GPPrimUploadTexture | Gep/Source/ps2/gpprim.c:120-158 | The same for four registers and an image of any admissible size |
| GpRun.Execute | Gep/Source/ps2/gpprim.c:11-158 | Any one command extends the queue by exactly what it asks for; a list handed over meanwhile ends with the command before |
| GpRun.Run | Gep/Source/ps2/gpfifo.c:43-131 | After any run with any channel steps between calls, received, in-flight and pending words read as everything issued, in order, once; what was handed over reads as whole commands |
| GpRun.RunAndSync | Gep/Source/ps2/gpfifo.c:87-91 | After a wait the GIF has received exactly what the commands up to the last flush, at least, issued |
| GpRun.RunAndDrain | Gep/Source/ps2/gpfifo.c:43-91 | After a flush and a wait the GIF has received exactly everything issued |
| ProfTable.FindIs | Gep/Source/common/proflog.c:49-57 | The first section of a name is the one found |
| ProfTable.Apply1TableOf | Gep/Source/common/proflog.c:75-92 | One charge keeps names distinct and every kept count and sum exact |
| ProfTable.ApplyTableOf | Gep/Source/common/proflog.c:44-92 | After any charges the table holds the first 64 distinct names with exact counts and sums modulo 2^32 |
| ProfTable.KeptIs | Gep/Source/common/proflog.c:44-72 | The names kept are "<unknown>" first, distinct and at most 64; while they are fewer every charged name is among them |
| ProfTable.KeptGrows | Gep/Source/common/proflog.c:44-72 | More charges only add names at the end, and only names that were charged |
| ProfTree.ScanTree | Gep/Source/common/proflog.c:184-261 | Scanning the log of a call tree charges what a fold over the tree charges |
| ProfTree.Rebuild | Gep/Source/common/proflog.c:184-261 | An accepted remainder of a log is the log of a tree, up to the entry that closes the innermost section |
| ProfTree.AcceptedIffBracketed | Gep/Source/common/proflog.c:184-273 | A log is accepted if and only if it is properly bracketed, with equal names, within 16 levels |
| ProfTree.FaultUnique | Gep/Source/common/proflog.c:209-273 | A log has at most one first fault, and with one it does not end with everything closed |
| ProfTree.ChargedUpTo | Gep/Source/common/proflog.c:184-261 | Rejected or not, a scan has charged what its entries before the first fault are charged, and the "<unknown>" before an overflowing one |
| ProfTree.TreeTotals | Gep/Source/common/proflog.c:191-255 | A section is charged once per completed instance, with its inclusive duration; "<unknown>" besides with every neighbouring pair that is no leaf section |
| ProfTree.EachGapOnce | Gep/Source/common/proflog.c:191-255 | An accepted scan charges every pair of neighbouring entries exactly once, in order |
| ProfTree.GapsOfLog | Gep/Source/common/proflog.c:191-255 | For an accepted non-empty log those charges add up to last counter minus first counter |
| ProfTree.UnknownPlusLeaves | Gep/Source/common/proflog.c:191-255 | "<unknown>" and collapsed leaf sections add up to the span of the log plus the time of sections called "<unknown>" |
| ProfTree.TableOfTree | Gep/Source/common/proflog.c:170-261 | The table of a tree: first 64 names, distinct, each section, "<unknown>" too, with exact count and sums modulo 2^32 |
| ProfTree.SpanIsShared | Gep/Source/common/proflog.c:191-255 | In the table, "<unknown>" plus leaf time is last minus first counter modulo 2^32 if and only if the time spent in sections of that name is 0 modulo 2^32 |
| ProfTree.UnknownTime | Gep/Source/common/proflog.c:207-255 | Without a section of that name there is no such time |
| ProfTree.UnknownSection | Gep/Source/common/proflog.c:207-255 | A log of one section of that name is accepted, and in its table the two parts are not the span |
| ProfLog.Profile.AddSection | Gep/Source/common/proflog.c:44-72 | The named section, added if new and there is room |
| ProfLog.Profile.LogSection | Gep/Source/common/proflog.c:75-92 | The charge of one pair of entries applied to the table |
| ProfLog.Profile.ScanEntries | Gep/Source/common/proflog.c:184-261 | The scan stops at the first fault, with the stack that is open there and exactly the report of that fault |
| ProfLog.Profile.ProfLogPrint | Gep/Source/common/proflog.c:170-279 | The whole list of reports: the first fault of the log if there is one, then an unmatched begin if and only if the entry before opened a section, then a non-empty stack if and only if something is left on it; none if and only if the log is bracketed; the table holds the charges of the scan |
| ProfLog.Profile.Summarise | Gep/Source/common/proflog.c:170-261 | For the log of a tree: no error, every section exact, every gap charged once, and the span shared out |
| GlyphSpec.RunsMaximal | Gep/Source/ps2/font.cpp:361-395 | The scan's runs are exactly the maximal runs, in order, with a blank between neighbours |
| GlyphSpec.GlyphsAre | Gep/Source/ps2/font.cpp:353-446 | Glyphs are exactly the maximal column runs of maximal row runs, in reading order |
| GlyphSpec.GlyphIs | Gep/Source/ps2/font.cpp:316-446 | In pixels: rows and columns of a glyph are not blank, and those around it are |
| GlyphSpec.OpaqueCovered | Gep/Source/ps2/font.cpp:353-446 | Every opaque pixel lies in a glyph |
| GlyphSpec.GlyphsPartition | Gep/Source/ps2/font.cpp:353-446 | Glyphs are in bounds and disjoint and cover every opaque pixel |
| Font.RunStep | Gep/Source/ps2/font.cpp:372-392 | The cell skipped after a run is blank or beyond the end |
| Font.AssignAt | Gep/Source/ps2/font.cpp:387-388 | The k-th glyph belongs to the k-th character unless that is named again later; other characters keep their entry |
| Font.CharOfExact | Gep/Source/ps2/font.cpp:132-138 | The Uint8 fields hold the edges modulo 256, which is the rectangle if and only if all its edges are below 256 |
| Font.FontT.ScanHorizWhite | Gep/Source/ps2/font.cpp:316-332 | True if and only if no pixel of the row part is opaque, or there is no such row |
| Font.FontT.ScanVertWhite | Gep/Source/ps2/font.cpp:334-351 | True if and only if no pixel of the column part is opaque |
| Font.FontT.SetCharMap | Gep/Source/ps2/font.cpp:132-138 | The character's entry holds the rectangle modulo 256 |
| Font.FontT.ParseLine | Gep/Source/ps2/font.cpp:353-398 | The glyphs of the line go to the next characters, which are used up |
| Font.FontT.FontParseChars | Gep/Source/ps2/font.cpp:400-446 | All glyphs go to the characters of the list in order; the font height is that of the first line |
| Resample.CarriesBound | Gep/Source/common/mixconvert.cpp:60-82 | Every fetch consumes at least one whole unit of phase |
| Resample.ConservedIff | Gep/Source/common/mixconvert.cpp:68-76 | Phase is conserved in every run if and only if the increment is at most 65536 |
| Resample.ConservedBelowOne | Gep/Source/common/mixconvert.cpp:68-76 | Up to that increment the number of fetches is the whole part of the total phase |
| Resample.CarriesIs | Gep/Source/common/mixconvert.cpp:68-76 | For every increment the number of fetches is the smaller of the steps and the whole part of the total phase |
| Resample.PhaseIs | Gep/Source/common/mixconvert.cpp:68-76 | For every increment the phase is the total phase modulo 65536 |
| Resample.OutputIs | Gep/Source/common/mixconvert.cpp:60-82 | Every output, up- or down-sampling, is the input two fetches back |
| Resample.StepsFit | Gep/Source/common/mixconvert.cpp:98-101 | Output count times phase increment never exceeds the input, through both floors |
| Resample.FetchesInBounds | Gep/Source/common/mixconvert.cpp:60-113 | Filter never fetches past the samples supplied, for all rates and phases |
| Resample.EnoughInput | Gep/Source/common/mixconvert.cpp:94-113 | Nor when the products overflow 32 bits |
| Resample.OutCount32Iff | Gep/Source/common/mixconvert.cpp:94-98 | The Int32 count is exact if and only if neither product nor quotient overflows; a negative one outputs nothing |
| Resample.RequestedSamples | Gep/Source/common/mixconvert.cpp:34-47 | Asking and then converting yields at most the request, short by less than out/in + 1 |
| Resample.UnitRateDelays | Gep/Source/common/mixconvert.cpp:57-82 | At equal rates the output is the input delayed by one, its first sample repeated |
| Resample.SecondBlockRepeats | Gep/Source/common/mixconvert.cpp:88-120 | At equal rates a second block starts again at the first input sample |
| Resample.SeamlessIff | Gep/Source/common/mixconvert.cpp:88-120 | Output equals that of one uninterrupted filter on every input if and only if there are at most 6400 samples |
| Resample.BlockAt | Gep/Source/common/mixconvert.cpp:88-120 | Output 6400 b + j at any rate: the block starts from the phase of all steps before, reads the input from its start, and until it fetches repeats the output before it |
| Resample.UnitBlocks | Gep/Source/common/mixconvert.cpp:88-120 | At equal rates up to 6400 samples come out as the first and then all but the last; of more, output 6400 is the first again |
| Resample.HeldIs | Gep/Source/common/mixconvert.cpp:53-86 | The sample held after a call is its last output |
| MixConvert.CMixConvert.Filter | Gep/Source/common/mixconvert.cpp:53-86 | Each output is the input two fetches back; final phase and held sample are those of the step count |
| MixConvert.CMixConvert.OutputSamplesStereo | Gep/Source/common/mixconvert.cpp:90-121 | Both channels are converted block by block and appended, overflow of the counts included; phases and held samples are left for the next call |
| MixConvert.CMixConvert.OutputCalls | Gep/Source/common/mixconvert.cpp:90-121 | Successive calls output what the sequence of inputs does, and the phase is that of one run over all samples |
| Resample.CallsUnitRate | Gep/Source/common/mixconvert.cpp:53-121 | At equal rates every call of up to 6400 samples outputs its own input delayed by one, whatever came before; its last sample is never heard |
| MixConvert.CMixConvert.GetOutputSamples | Gep/Source/common/mixconvert.cpp:34-47 | The count asked for is the 32-bit quotient; it is exact if and only if nothing overflows, and then meets the bound on what comes out |
| Rotate.LeftIs | SNESticle/XML/op65816.h:5564-5578 | A left rotation is (2V + C) modulo the length, and the carry is the top bit of V |
| Rotate.RightIs | SNESticle/XML/op65816.h:5708-5739 | A right rotation is (V + C times 256 to the length) halved, and the carry is the low bit of V |
| Rotate.RotationsCancel | SNESticle/XML/op65816.h:5564-5595 | Left and right rotation undo each other on every byte and the carry |
| Rotate.LeftExtend | SNESticle/XML/op65816.h:5564-5595 | Rotating a low part and then the next word with its carry rotates both together |
| Rotate.RightExtend | SNESticle/XML/op65816.h:5708-5739 | The same to the right, from the high end |
| Rotate.Sncpu.Rol16 | SNESticle/XML/op65816.h:5564-5578 | The word is rotated left through the carry, zero and negative flags describe the result, and no other memory changes |
| Rotate.Sncpu.Rol8 | SNESticle/XML/op65816.h:5580-5595 | The same for a byte |
| Rotate.Sncpu.Ror16 | SNESticle/XML/op65816.h:5708-5722 | The word is rotated right through the carry, with the same flags |
| Rotate.Sncpu.Ror8 | SNESticle/XML/op65816.h:5724-5739 | The same for a byte |
| Rotate.Sncpu.RolChain | SNESticle/XML/op65816.h:5564-5595 | Over consecutive bytes or words a number of any length is rotated left |
| Rotate.Sncpu.RorChain | SNESticle/XML/op65816.h:5708-5739 | From the high end down it is rotated right |
| Rotate.Sncpu.RolThenRor | SNESticle/XML/op65816.h:5564-5739 | One chain undoes the other, for both widths |
| AsmC.SlotsAreModes | SNESticle/XML/asm_c.js:94-163 | An operation claims exactly the processor modes its attributes allow |
| AsmC.CycleText | SNESticle/XML/asm_c.js:23-53 | On attribute texts: a CYCLE is a number if and only if its operand is there, starts like a number and reads as one |
| AsmC.MemoryLines | SNESticle/XML/asm_c.js:239-271 | Reads, fetches, writes and stack accesses: the one line with its arguments in order and the bytes counted, or none for an unlisted size |
| AsmC.ArithmeticLines | SNESticle/XML/asm_c.js:277-333 | One macro of that name on destination and source, with an I exactly for an immediate |
| AsmC.RegisterLines | SNESticle/XML/asm_c.js:335-366 | Loads and stores of registers and flags; any other destination of a store stops the generator |
| AsmC.FlagLines | SNESticle/XML/asm_c.js:186-237 | I and D are set or cleared by the immediate, the others are given the source; when the generator stops |
| AsmC.PlainLines | SNESticle/XML/asm_c.js:273-386 | Cycles and unknown micro-ops as they stand, and nothing for MACRO |
| AsmC.OneLine | SNESticle/XML/asm_c.js:184-387 | An accepted micro-op is exactly one line, but for MACRO and reads and writes of unlisted size |
| AsmC.DecimalText | SNESticle/XML/asm_c.js:290-340 | A size or an immediate is written in decimal: the text reads as the number, without a leading zero |
| AsmC.MemoryNames | SNESticle/XML/asm_c.js:239-382 | A kind of access with a number behind it is the name of an access of that many bits |
| AsmC.OpcodesApart | SNESticle/XML/asm_c.js:58-67 | For one-byte opcodes every slot of every opcode has its own table entry |
| AsmC.UopCost | SNESticle/XML/asm_c.js:184-387 | The lines of a micro-op cost what is counted, number or not, up to unusual stack accesses and macros written by name |
| AsmC.CountedIsNumber | SNESticle/XML/asm_c.js:367-369 | The count is a number if and only if every CYCLE names one |
| AsmC.UncountedIff | SNESticle/XML/asm_c.js:295-386 | After every micro-op the lines cost what is counted if and only if every stack size is usual and no unknown micro-op names a macro that takes cycles |
| AsmC.UncountedWhole | SNESticle/XML/asm_c.js:295-386 | Over a whole list nothing cancels unless cycles are given back |
| AsmC.NoNumber | SNESticle/XML/asm_c.js:367-369 | A CYCLE without a number is emitted and the count is lost |
| AsmC.WidePush | SNESticle/XML/asm_c.js:295-309 | Of a PUSH of 32 bits four bytes are not counted |
| AsmC.RawFetch | SNESticle/XML/asm_c.js:385-386 | A fetch written by its macro name is emitted and not counted |
| AsmC.Generator.startop | SNESticle/XML/asm_c.js:58-67 | The slot is marked and its label emitted, under op or-ed with the shifted mode |
| AsmC.Generator.assembleop | SNESticle/XML/asm_c.js:70-421 | Its lines are one label per slot in order, the lines of each micro-op in order and the closing line, or when it stops, those before and the complaint; exact condition for acceptance; the closing line is never negative and is a number exactly when all are; emitted cycles are the declared number plus what is not counted, so equal to it, unless cycles are given back, if and only if every CYCLE is numeric, every stack size usual and no macro that takes cycles is written by name |
| Movie.TraceAppend | Gep/Source/common/emumovie.cpp:77-86 | States after more frames continue those after fewer |
| Movie.MovieClip.RecordBegin | Gep/Source/common/emumovie.cpp:54-68 | The state is saved and the clip is empty |
| Movie.MovieClip.RecordFrame | Gep/Source/common/emumovie.cpp:77-86 | The frame is appended if and only if there is room; a refused frame changes nothing |
| Movie.MovieClip.PlayBegin | Gep/Source/common/emumovie.cpp:90-102 | The saved state is restored and playing starts at the first frame |
| Movie.MovieClip.PlayFrame | Gep/Source/common/emumovie.cpp:110-119 | Recorded frames come out in order; then the input is left alone |
| Movie.MovieClip.Record | Gep/Source/common/emumovie.cpp:54-86 | A session records the frames that fit and leaves the machine in the state after them |
| Movie.MovieClip.Replay | Gep/Source/common/emumovie.cpp:90-119 | From any state, the states after each frame are those of the recording; the clip stays usable |

## Left out

- DmaSyncGIF: does not return before the transfer has finished; the source gives up after ten million polls.
- The channel takes a tag with all its data in one step, between two calls; the stores of one call touch only words it does not read.
- Hardware registers and cache flushing: starting the channel is "chain handed over".
- Texture memory is taken as unchanged from the upload to its transfer.
- GSListGetUncachedPtr, GSGifTagCloseNLoop, GPFifoOpen and GPFifoClose: no caller in these parts of the repository.
- DMA tags other than CNT, REF and END, and packed GIF data other than A+D: never written; the readers answer None.
- GIF tags are written only inside an open CNT tag; the source does not assert this and every primitive does it.
- The primitives' results are for lists of 257 to 65537 quadwords: below, a rectangle's reservation fails (GSListSpace states when); above, a CNT count could be cut to 16 bits (DmaTagDecodes).
- GPFifoInit: not for memory without room for one quadword a list, where the source writes its first tag past the list.
- Console output, list dumping and the summary printing of the profiler; nEntry is unbounded.
- Section names are non-empty with their leading mark, as PROF_ENTER and PROF_LEAVE write them.
- FontParseChars: the character list is as long as there are glyphs, since the source would read past its end.
- Fonts' drawing and colour conversion.
- OutputSamplesStereo: not for phase increments near 2^31, which need an output rate of 1 or 2 and overflow the phase.
- Filter: the interpolated value is unbounded, as it is never stored.
- Direct-page, indexed and accumulator forms of the rotates, memory traps and the wrap at 2^24: the same micro-ops at other addresses.
- parseInt of the script host is a parameter; the attributes code, cycles, e, x and m of an operation are given as numbers.
- MovieClip: files and memory release.
