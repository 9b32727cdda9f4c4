# A scanner's stream, from the wire to the image

A film scanner answers a pass with a stream of bytes that has no header and no
length. What a sample is, and where it goes, follows from arithmetic on one record,
the layout. This project models the code that does that arithmetic, and proves
that its parts agree: the planner's windows, the layout, the lengths of the READs,
the filter that removes the bytes a unit attaches, the decoder, and the image.
Around them it models the state machines that drive a pass: the two threads and
their pool of buffers, the stop and the drain, and the retrying of a command. Three
kernels and the table of frames are modelled beside them.

The main results:

- **The scene comes back.** A scene is encoded as the unit sends it: every reading
  padded with bytes that may be anything, colors repeated, other channels once, and
  stage positions interleaved with CCD rows. For every layout a decoder accepts that
  has pixels, channels and no empty reading, however the stream is cut into chunks
  and whatever follows it, the filter and the decoder leave in each plane, at each
  pixel, the rounded average of that channel's own readings there
  (`ScanPass.SceneComesBack`, on `ScanPass.DecodePass`). Lines attached after the
  image are part of what follows, while the filter's range holds the image's groups;
  where attached lines shift or shorten the range, what comes back is what the groups
  it keeps carry (`ScanPass.PartComesBack`). Every multi-line pass that is planned for a unit whose
  pitches divide its line gap, with no lines attached, comes back whole
  (`Plans.PlannedDecodes`).
- **Placement is a bijection** between wire samples and readings of pixels, in both
  infrared modes (`Placement.EverySampleIsPlaced`, `Placement.EveryReadingHasASample`).
- **Scheduling lands.** The closed form of `take` is its loop; it is the longest
  length that fits and ends on a boundary; a pass lands on its end exactly when its
  end is on a boundary (`Scheduling.EqualLengths`, `TakeIsRight`, `PassLands`).
- **Every interleaving** of reader and decoder conserves the three buffers, decodes
  the chunks in order, never sticks and ends (`ReaderPool.EveryInterleaving`), and
  what the pass comes to follows from what happened in it (`ReaderPool.Outcomes`): one
  in which the unit failed is never taken for one read to its end.
- **Every unit.** A pass stops once, a drain reads what is owed and ends, and a handshake ends within its
  caps, its deadline and its polls, whatever the unit answers (`ImageChunks.Chunks`,
  `Handshake.RunHandshake`).
- **The windows are the frame's.** Every window that is planned begins and ends where
  its frame does, cut to the axes and to whole blocks, and is read as the recipe asks
  (`Geometry.WindowAlongTheBar`, `WindowAlongTheFeed`, `WindowIsReadAs`); the layout
  is what those windows come to (`Plans.PlannedShape`, `PlannedExtent`).

Where the code does not do what its comments or callers take for granted, the
model follows the code and the exact condition is proved:

- Attached lines. `total_bytes` counts the invalid lines on top of the image's own;
  the filter counts them out of the image's own, and with packed rows it counts
  groups of rows against that range of lines. A pass is complete exactly when the
  range keeps as many groups as the image has (`ScanPass.CompleteWithGroups`). READs
  of whole lines round the wire up to whole groups (`Scheduling.ReadsRoundUp`), and
  then, with `p` rows packed, that is when `first * (p - 1) < last + p` and
  `first + last + lines / p <= lines` (`ScanPass.CompleteWithInvalidLines`); were they
  to stop at the last whole group, `first * (p - 1) <= last` would be the first of
  the two (`ScanPass.CompleteWithoutRounding`). Without packed rows it is when there
  are no invalid lines (`ScanPass.CompleteWithoutInvalidLines`). What a pass then
  holds is what the groups after the `first` ones carry (`ScanPass.PartComesBack`): the
  image itself where `first` is zero or rows are not packed, and otherwise one that
  begins `first * (p - 1)` lines into it.
- Empty readings. The filter and the granules count a reading as a byte at least. A
  layout of infrared alone, read more than once but sent the first time only, has
  empty readings (`WireToImage.WhichReadingsAreEmpty`, `WireToImage.InfraredAlone`),
  and both are then out of step with the unit. They are in step exactly when no
  reading is empty (`Padding.LayoutInStep`, `Scheduling.UnevenLine`). It takes a
  layout built by hand: every set of windows has one color or three
  (`Plans.EverySetHasColors`), and no reading with a color is empty
  (`Plans.ColorsArePayload`).
- Granules of one color's line. A unit that names the line bit alone is read by lines
  of one color. Where `c` bytes are attached to each reading, such a pass lands on its
  end exactly when its lines times `c` times the readouts past one a reading are a
  whole number of granules (`Scheduling.ColorPassLands`), so always where nothing is.
  Packed rows are not counted, and a READ may end between them
  (`Scheduling.ColorReadsSplitRows`).
- Empty blocks. A layout without pixels or channels is accepted, and its blocks have
  no bytes (`WireToImage.BlocksHaveBytes`); a window narrower than its pitch plans one
  (`Plans.NarrowPlan`).
- Ragged plans. A unit whose pitches need not divide its line gap is planned frames
  that its decoder refuses (`Plans.RaggedPlan`). Every frame length decodes
  exactly when the pitch divides the gap (`Plans.EveryFrameTiles`). At the coarse
  divisor of 1200 a pitch that divides it is not enough (`Plans.CoarsePlan`): every
  frame length then decodes exactly when the optical resolution is a multiple of
  1200 (`Plans.EveryCoarseFrameTiles`).
- Trimming by one block. A window stays on the Y axis exactly when what was asked is
  at most one block past the blocks that fit (`Plans.PlannedStaysOnAxis`); a frame
  asked for further than that is planned past the axis (`Plans.PlanPastTheAxis`).
- Infrared on a one-color unit. `Recipe::windows` plans it and `validate_set` then
  refuses it (`Plans.OneColorPlan`, `Plans.PlannedHasALayout`).
- Above the last point of a curve. The comment says such samples are left alone;
  the code extends the last segment (`Curves.AboveTheCurve`). One is left alone
  exactly when that segment passes within its own step (`Curves.LeftAloneAt`), and
  all are exactly when the first and the last two are (`Curves.LeftAloneAbove`). The
  table of strictly rising curves keeps order exactly when the first point maps no
  more than one below itself (`Curves.TableMonotone`).
- A decoder that ends ends the reader's next send (`ReaderPool.DecoderEndsReader`).
  It ends its next receive exactly when no buffer is left in the pool or the empty
  queue (`ReaderPool.NextReceive`), which need not be so
  (`ReaderPool.ReceiveGoesOn`); either way that receive is the last
  (`ReaderPool.OneDrawLeft`).
- Polarity. The fit of a strip is said not to depend on the polarity of the film. Of
  how the gaps disagree that holds exactly for an odd number of gaps and for two
  (`Ranks.PolarityMatters`).
- Two infrared channels share one buffer, and it ends up with the last of them
  (`WireToImage.ChannelOfBuffer`).

## Model

| member | source | states |
|---|---|---|
| Layouts.LineOfReadings | src/protocol/image.rs:434-487 | a line is its first reading and then the second reading repeated; with even readings, the first repeated |
| Truncation.StripTruncation | src/session/scan.rs:61-121 | the in-place filter over one chunk leaves at the front of the buffer exactly the bytes the byte-by-byte machine keeps, and the state that machine is left in |
| Truncation.StripOnce | src/session/scan.rs:71-118 | one turn moves at least one byte of the read cursor, keeps the write cursor at or behind it, and adds what that run of the reading keeps |
| Truncation.TruncationState.Advance | src/session/scan.rs:104-116 | going on to the end of a reading goes to the next reading, and past the last reading to the next group of rows |
| Truncation.StripSplit | src/session/scan.rs:61-121 | a stream may be cut anywhere: what is kept of two pieces in turn is what is kept of them joined |
| Truncation.StripRun | src/session/scan.rs:84-102 | a run of bytes within one reading is kept as the one slice that overlaps the reading's valid bytes |
| Padding.StripAnyChunking | src/session/scan.rs:61-121 | on any chunking the pieces kept, joined, are what is kept of the whole stream |
| Padding.StripWire | src/session/scan.rs:61-121 | of a whole padded wire, exactly the valid bytes of the lines in range are kept, whatever the invalid bytes read, and the filter ends at the line after the last |
| Padding.LayoutInStep | src/session/scan.rs:77-83 | the filter's lengths are those of the readings the unit sends if and only if no reading is empty |
| Padding.ReadingIsAsSent | src/protocol/image.rs:434-451 | the bytes counted for a reading are what the unit sends in it: the first reading every channel, a later one the colors unless infrared comes with each; and attached to it, the count of its own where the first reading of several has a channel the others do not, and the line's everywhere else |
| Slots.Every | src/protocol/decode.rs:244-292 | the loop over the channels numbers every slot as the rank of its channel among its kind does |
| Slots.ReaderHasReadout | src/protocol/decode.rs:217-292 | every channel and reading has a readout below the count, and that readout belongs to it |
| Slots.ReadoutHasReader | src/protocol/image.rs:501-512 | every readout below the count is some channel's reading, at the readout that channel and reading name |
| Slots.RankOfRanked | src/protocol/decode.rs:255-291 | the channel with a given number of its kind before it has that number before it |
| Slots.RankedOfRank | src/protocol/decode.rs:255-291 | and the other way round, so plane numbers and channels of a kind are one to one |
| Slots.ReadingsInTurn | src/protocol/decode.rs:217-292 | the readouts of a stage position come reading by reading, each reading's own together |
| Slots.ColorsComeFirst | src/protocol/decode.rs:255-291 | within a reading the colors come before the other channels, and each kind in the order of the channel list |
| Averaging.StoresNearestMean | src/protocol/decode.rs:345-351 | what is stored for readings that add up to a sum is the nearest integer to mean times output over input scale, ties up, and is never over the output scale |
| Averaging.StoresNearestOrTop | src/protocol/decode.rs:345-351 | readings past the scale store the nearest integer too, or the top of the range where that is past it |
| Averaging.NearestUnique | src/protocol/decode.rs:345-351 | only one integer is nearest with ties up |
| Averaging.StoresMonotone | src/protocol/decode.rs:345-351 | more in any reading never stores less |
| Averaging.OneReadingIsIdentity | src/protocol/image.rs:419-424 | a pass of one reading stores its samples as they are |
| Averaging.EqualReadingsAreFullScale | src/protocol/decode.rs:72-91 | equal readings, however many, store what the full-scale table gives that one sample |
| Averaging.FullScaleEnds | src/protocol/decode.rs:72-91 | the full-scale table begins at zero and is full from the ceiling on, and is the identity for 16 bits |
| Curves.SegmentResumes | src/protocol/curves.rs:90-113 | searching on from where a smaller sample stopped finds the segment a fresh search finds, on curves that never decrease |
| Curves.Table | src/protocol/curves.rs:83-116 | the single forward cursor fills in, for all 65536 samples, what a fresh search for each one gives |
| Curves.ReferenceIsIdentity | src/protocol/curves.rs:39-63 | a row that measures as the reference does is left alone, sample for sample |
| Curves.PointsMapToPoints | src/protocol/curves.rs:90-113 | on strictly rising curves each measured point maps to its own reference point |
| Curves.BetweenPoints | src/protocol/curves.rs:83-116 | for any two curves, a sample in a segment that rises maps as far up the reference's rise as it is along its own, with the fraction of one dropped toward the point it starts at, and clamped to the range; below the first point, or in a segment that does not rise, it is left alone |
| Curves.TableMonotone | src/protocol/curves.rs:83-116 | on strictly rising curves the whole table keeps order, extension and clamping included, if and only if the first point maps no more than one below itself |
| Curves.LeftAloneAt | src/protocol/curves.rs:80-113 | for any two curves, a sample above every point is left alone if and only if the last segment, run on, passes within the step that is that sample, the clamp at the top and a falling or flat segment included |
| Curves.LeftAloneAbove | src/protocol/curves.rs:80-113 | every sample above every point is left alone if and only if that holds of the first of them and of the last two of the range |
| Curves.AboveTheCurve | src/protocol/curves.rs:80-113 | a curve that leaves alone no sample above its last point short of the top of the range |
| Curves.Parse | src/protocol/curves.rs:39-63 | a reply of the measured shape gives every row the table of its own curve onto the reference row's, and any other is refused |
| Curves.CurveOfReply | src/protocol/curves.rs:50-58 | of a reply written as rows of types of points, with anything after it, the curve taken for a row and a type is the one written there |
| Placement.LocateWireIndex | src/protocol/decode.rs:317-344 | a place of a block has a wire index in the block, and the index leads back to the place |
| Placement.WireIndexLocate | src/protocol/decode.rs:317-344 | and every wire index of a block is that of the place it leads to |
| Placement.WireIsInTurn | src/protocol/decode.rs:317-344 | of a block written as stage positions of readouts of bar pixels of CCD rows, the sample at a place's wire index is the one written at that place |
| Placement.OriginOfPixel | src/protocol/decode.rs:317-359 | a place lands in the image, and the pixel it lands on comes from that block and place alone |
| Placement.PixelOfOrigin | src/protocol/decode.rs:317-359 | every pixel of the image is filled, from a place of a block |
| Placement.EverySampleIsPlaced | src/protocol/decode.rs:317-359 | every wire sample goes to one channel, pixel and reading, and is the one sample that goes there |
| Placement.EveryReadingHasASample | src/protocol/decode.rs:317-359 | every reading of every pixel of every channel is one wire sample |
| Emission.Average | src/protocol/decode.rs:335-351 | the loop over a slot's readings stores the rounded average of the corrected samples at that place |
| Emission.EmitPixel | src/protocol/decode.rs:330-357 | at one pixel every color slot writes its own plane, and the buffer of the rest ends up with the last |
| Emission.EmitColumn | src/protocol/decode.rs:326-358 | a column's pixels are written bottom up, and no pixel of another column |
| Emission.Emit | src/protocol/decode.rs:317-359 | a block changes exactly the pixels of its own columns, each to the value of its own place, and no others |
| Emission.PixelDone | src/protocol/decode.rs:326-357 | writing one more pixel leaves what painting that much more of the block does |
| Decoding.AcceptedIsWellFormed | src/protocol/decode.rs:400-470 | an accepted layout's slots all fit its stage positions if and only if its raw reading count is not zero, or does not enter the readouts |
| Decoding.WhatIsAccepted | src/protocol/decode.rs:400-447 | a layout is accepted if and only if its samples are one byte or two and its lines come one row at a time, or are whole blocks of the rows read at once with some gap between them |
| Decoding.WhatIsLacking | src/protocol/decode.rs:520-544 | an output lacks nothing if and only if it has a plane for each color, and room in every plane for the image and in the infrared for each other channel |
| Decoding.Samples.ResizeFor | src/protocol/decode.rs:39-55 | the buffers fit the decoder, blank, and share no storage |
| Decoding.Samples.ToFullScale | src/protocol/decode.rs:60-91 | every sample of every plane is stretched to 16 bits, and nothing else changes |
| Decoding.Decoder.Push | src/protocol/decode.rs:520-550 | outputs too small are refused with nothing written; otherwise the image is what painting the blocks the chunk completed gives |
| Decoding.Decoder.PushInto | src/protocol/decode.rs:554-583 | after a chunk the carry is the stream's remainder after whole blocks, the count of blocks is the whole blocks of the stream up to the last promised, and exactly those are painted |
| Decoding.Decoder.Progress | src/protocol/decode.rs:507-592 | blocks done are the bytes pushed over the block width, at most the blocks of the image, and the carry is the rest, however the bytes came |
| Decoding.Decoder.Take | src/protocol/decode.rs:586-592 | a block past the last promised changes nothing |
| Decoding.PaintedJoin | src/protocol/decode.rs:554-592 | painting blocks in two goes is painting them in one |
| Decoding.PaintedPrefix | src/protocol/decode.rs:554-592 | bytes that follow the painted blocks do not change them |
| WireToImage.SingleLineIsScannable | src/protocol/image.rs:172-194 | a bare stream of any pixels, lines and channels is one whose scene comes back |
| WireToImage.WhichReadingsAreEmpty | src/protocol/image.rs:434-451 | of the layouts a decoder accepts, exactly those of infrared alone, sent with the first of several readings and with nothing attached to the others, have an empty reading |
| WireToImage.InfraredAlone | src/protocol/image.rs:434-451 | one layout a decoder accepts that has an empty reading |
| WireToImage.BlocksHaveBytes | src/protocol/decode.rs:298-305 | of the layouts accepted with a reading, the blocks have bytes if and only if there are pixels and channels |
| WireToImage.NoReadings | src/protocol/image.rs:501-512 | a layout accepted with a reading count of zero, whose slots overrun |
| WireToImage.BytesConserved | src/protocol/image.rs:434-512 | the valid bytes of the lines are the blocks of an accepted layout, for uneven readings, packed rows and both infrared modes |
| WireToImage.GroupsConserved | src/session/scan.rs:77-116 | the groups of packed rows carry the same bytes |
| WireToImage.LinePayload | src/protocol/image.rs:434-512 | a line's valid bytes, reading by reading, are its readouts times the bar |
| WireToImage.ReadingsOnTheWire | src/protocol/image.rs:434-443 | a reading carries exactly the readouts from its first to the next one's first |
| WireToImage.RawIsScene | src/protocol/decode.rs:330-344 | at each place of each block the decoder reads the sample the scene has for that channel, reading, stage position, bar pixel and CCD row |
| WireToImage.ValueIsExpected | src/protocol/decode.rs:317-351 | what a block stores at one of its pixels is the rounded average of the scene's readings of that channel there, at the unit's depth where the pass reads its lines once and at 16 bits where more often |
| WireToImage.AlikeReadingsAreShown | src/protocol/image.rs:414-424 | a channel whose readings at a pixel are all one value shows that value where the pass reads its lines once, and otherwise its full-scale entry, whether the channel is read each time or once |
| WireToImage.BlocksHoldScene | src/protocol/decode.rs:554-592 | after each number of blocks, the pixels of those blocks hold the scene and the others are as they were |
| WireToImage.ChannelOfBuffer | src/protocol/decode.rs:352-357 | plane `c` is the color with `c` colors before it, and the other buffer is the last channel that is no color |
| WireToImage.PayloadDecodes | src/protocol/decode.rs:520-592 | the whole payload, with anything after it, decodes to the scene in every plane, and past the image nothing changes |
| WireToImage.WireStrips | src/session/scan.rs:61-121 | the filter takes the padded wire of a scene back to its payload, where its range of lines begins with the image and holds its groups |
| ScanPass.DecodePass | src/session/scan.rs:176-297 | the loop over the chunks ends complete or not, and with the image, that one decoding of the whole filtered stream gives |
| ScanPass.SceneComesBack | src/session/scan.rs:61-121 | end to end: any chunking of a scene's padded wire, and anything after it, ends complete with every plane holding the scene, for any number of invalid lines after the image that leaves the range its groups |
| ScanPass.StillSceneComesBack | src/protocol/image.rs:414-424 | end to end, a scene that reads the same every time comes back pixel by pixel: as it is where lines are read once, and stretched to 16 bits where they are read more often, infrared sent once included |
| ScanPass.EveryScene | src/session/scan.rs:61-121 | every scene, padding, tail and chunking of such a layout comes back |
| ScanPass.PartComesBack | src/session/scan.rs:61-121 | however many groups arrive and whatever lines are attached, the blocks that the kept groups fill hold, in every plane, the scene that the groups after those skipped carry, and every other pixel is blank |
| ScanPass.CompleteWithInvalidLines | src/session/scan.rs:67-116 | a pass read in whole groups, rounded up, is complete if and only if the lines after the image, so rounded, make up for the groups skipped before it and the range of lines holds as many groups as the image has |
| ScanPass.CompleteWithGroups | src/session/scan.rs:67-116 | however many whole groups arrive, the pass is complete if and only if the range keeps as many as the image has |
| ScanPass.CompleteWithoutRounding | src/session/scan.rs:67-116 | where only the whole groups of the wire arrive, the lines after the image have to make up for the groups skipped by themselves |
| ScanPass.CompleteWithoutInvalidLines | src/session/scan.rs:67-69 | with one row a line, a pass of the lines and the invalid ones is complete if and only if there are no invalid ones |
| Scheduling.EqualLengths | src/protocol/image.rs:138-164 | the closed form for equal readings is the reading-by-reading loop |
| Scheduling.Take | src/protocol/image.rs:138-164 | the loop and the closed form between them take the greedy length |
| Scheduling.TakeIsRight | src/protocol/image.rs:121-164 | that length is in the budget, ends on a boundary, is something where something is owed, and one more granule would not fit or the end is passed by less than one |
| Scheduling.EveryReadEndsOnBoundary | src/session/image.rs:246-303 | every READ of a pass is nonempty, no more than a chunk, and ends on a reading |
| Scheduling.PassLands | src/session/image.rs:246-303 | the READs of a pass cover what is owed with less than one granule over, and land on it if and only if it ends on a boundary |
| Scheduling.WholePassLands | src/protocol/image.rs:461-496 | a whole pass, by lines or by readings, lands on its total where packed rows divide its lines |
| Scheduling.EqualGranulesLand | src/session/image.rs:246-303 | a pass in equal granules brings its bytes rounded up to whole ones, so lands if and only if they are |
| Scheduling.ReadsRoundUp | src/protocol/image.rs:125-164 | READs of whole lines bring whole groups of packed rows, rounded up |
| Scheduling.ColorPassLands | src/protocol/image.rs:265-291 | a pass by lines of one color lands if and only if its bytes are whole granules; with so many bytes attached to each reading, if and only if what the other readouts are short of is; with nothing attached, always |
| Scheduling.ColorReadsSplitRows | src/protocol/image.rs:251-291 | where a group of packed rows is longer than such a granule, a READ ends inside it |
| Scheduling.UnevenLine | src/protocol/image.rs:461-474 | a line of uneven readings is its first granule and the rest repeated if and only if no reading is empty |
| Scheduling.LineIsWhole | src/protocol/image.rs:461-487 | the granules of readings tile the granule of a line |
| ImageChunks.ChunkSize | src/session/image.rs:125-145 | what is chosen is at least a granule, and at most what the transport and the unit carry |
| ImageChunks.RefusedOnlyWhenNothingFits | src/session/image.rs:125-190 | a unit with no line bit is refused if and only if neither a line nor a reading fits one READ |
| ImageChunks.ChunkCarries | src/session/image.rs:125-189 | a line is chosen wherever one READ can carry it, and readings only where none can and the unit names no line bit; a chunk is what is preferred, but for a granule at least and a transfer at most |
| ImageChunks.WantFits | src/session/image.rs:334-346 | a READ is something, no more than a chunk, and less than a granule more than what is owed, wherever the stream has got |
| ImageChunks.WantIsLongest | src/protocol/image.rs:121-164 | from a boundary a READ ends on one, and covers what is owed, or is the most whole granules a chunk carries, as it is everywhere past the end |
| ImageChunks.Chunks.Fill | src/session/image.rs:246-303 | spent, nothing is sent; where anything is owed, one READ of the length that comes by what was given before, and what is handed out is its answer; otherwise a drain of the seams, where there may be any |
| ImageChunks.Chunks.Drain | src/session/image.rs:323-398 | what is sent and given is a whole drain from where the pass has got: each READ of the length that comes, until nothing is left to ask for or the unit gives up |
| ImageChunks.Chunks.DrainOnce | src/session/image.rs:334-397 | a turn sends the one READ that comes, or nothing where nothing is owed and there are no seams, and makes way for another exactly where the answer is full and the limit is not reached |
| ImageChunks.DrainSends | src/session/image.rs:346-350 | a drain sends something if and only if something is owed, or seams may lie past the end |
| ImageChunks.DrainIsProper | src/session/image.rs:323-398 | whatever the unit answers, every READ of a drain is the one that comes by what those before it gave, and it ends within as many commands and bytes as are owed and may be read past them, and one more READ |
| ImageChunks.DrainGoesToItsEnd | src/session/image.rs:323-398 | a drain is over because nothing is owed and there are no seams, because it has read as far past the end as the pass or a chunk is long, whichever is more, or because the unit failed, gave nothing or gave less than was asked; and before its last READ none of that is so |
| ImageChunks.Chunks.Stop | src/session/image.rs:306-317 | one ABORT, and a whole drain where the unit has none |
| ImageChunks.StopIsProper | src/session/image.rs:306-317 | a stop is one ABORT and such READs |
| ImageChunks.StopGoesToItsEnd | src/session/image.rs:306-317 | nothing follows an ABORT that is taken or fails; where the unit has none, a drain follows that goes to its end |
| ImageChunks.FillGoesToItsEnd | src/session/image.rs:246-303 | a fill of a pass that is owed something is one READ, and of one that is not a drain that goes to its end, or nothing where there are no seams |
| ImageChunks.Chunks.Drop | src/session/image.rs:424-452 | a pass that is not over is stopped so, once, and a closed one sends nothing |
| ImageChunks.Chunks.Run | src/session/image.rs:215-452 | over any fills and drops, one stop at most, none after the pass is closed; every READ is the one that comes by what those before it gave, past the end only for seams; and no more bytes than are owed, a drain may read past them, and two chunks |
| ImageChunks.Chunks.ReadOut | src/session/image.rs:246-303 | a unit that answers in full is asked for the scheduled lengths to the end, and for others only where there are seams to read |
| ReaderPool.EveryInterleaving | src/session/scan.rs:223-253 | in every interleaving the buffers, the order of the chunks and the end are kept, a pass in which the unit failed never ends as read, a thread can go on unless both have ended, and the steps are bounded |
| ReaderPool.Outcomes | src/session/scan.rs:223-253 | in every interleaving, a decoder that has ended was refused if and only if a chunk would not decode; otherwise cancelled if and only if the caller said so; otherwise broken if and only if the unit refused the pass or failed a READ; and has read to the end in every other run and in no other |
| ReaderPool.ChunksCounted | src/session/scan.rs:223-253 | the chunks read and decoded are those that steps read and decoded, no more and no less |
| ReaderPool.StepKeeps | src/session/scan.rs:385-443 | every step of either thread keeps all of that |
| ReaderPool.SomeStep | src/session/scan.rs:385-443 | no state that keeps it is stuck |
| ReaderPool.DecoderEndsReader | src/session/scan.rs:223-253 | once the decoder has ended it decodes nothing more, and the reader's next send is the last step |
| ReaderPool.NextReceive | src/session/scan.rs:402-443 | in any run after the decoder has ended, a reader about to receive does so next and never again; that receive ends it, and the run, if and only if no buffer is left, and else it reads one more chunk at most |
| ReaderPool.OneDrawLeft | src/session/scan.rs:385-443 | once the decoder has ended the reader draws once more at most, and not at all with a buffer in hand |
| ReaderPool.ReceiveGoesOn | src/session/scan.rs:385-443 | a run to a state with the decoder ended, the pool used up and a buffer in the empty queue, from which the reader goes on |
| Handshake.RunCooperative | src/session/mod.rs:547-610 | one call issues nothing at or past the deadline, polls no more than the budget over the interval, and has 16 unit attentions at most; it comes to what the last answer says, or to giving up where no answer says anything |
| Handshake.RunHandshake | src/session/mod.rs:488-536 | for every unit: at most 17 rounds, each of at most 16 attentions; success if and only if the command was the last thing issued and ran, each failure of the unit or the link if and only if that was the last thing it did; every record read is of the job the answer just before asked for, and every job asked for is read so; at most 16 records, in order, no two adjacent jobs and records equal; a repeat ends it at once |
| Handshake.OnePollMore | src/session/mod.rs:561-590 | each poll costs an interval, and the one begun before the deadline is within the budget over the interval, rounded up |
| Handshake.IssuedInTime | src/session/mod.rs:561-571 | the time the log says every command was issued before is met by every one of them |
| Handshake.ServedInTurn | src/session/mod.rs:508-531 | what the tally says of the jobs is so of the log: records are read directly after answers that ask for their job, and after every one |
| Handshake.HowItEnds | src/session/mod.rs:488-610 | each way a handshake ends is that of one kind of last event, both ways |
| Handshake.TallyCounts | src/session/mod.rs:488-610 | the polls, attentions, rounds and jobs of a tally are how many of each the log has, and the jobs are its own in order |
| Geometry.LargestDivisor | src/protocol/caps/address.rs:138-143 | the pitch found divides the gap, and none between it and the one asked does |
| Geometry.Snap | src/protocol/caps/address.rs:134-146 | the pitch is on the rule's ladder and no coarser than asked |
| Geometry.WholeBlocks | src/scan/window.rs:31-43 | the extent grows to whole blocks, by less than one |
| Geometry.ReachableBlocks | src/scan/window.rs:49-66 | an extent whose whole blocks fit the boundary comes back as them; another as whole blocks inside the boundary, the most that fit |
| Geometry.StaysOnAxis | src/scan/window.rs:265-280 | the extent is whole blocks, and fits the room if and only if at most one block more than fits was asked |
| Geometry.WholeFrameIsKept | src/scan/window.rs:259-280 | a frame already of whole blocks keeps its length if and only if it fits the room |
| Geometry.Windows | src/scan/window.rs:287-362 | the descriptors filled in one by one are the planned set, or the first refusal in order |
| Geometry.WhatIsPlanned | src/scan/window.rs:189-252 | a plan has windows if and only if the resolution is on the ladder, the readings are 1 to 16 and one where the unit has no more, one interleaving is asked for that is offered, rows read at once come out apart, some of the axis is left, and the unit has a depth |
| Geometry.WhyNotPlanned | src/scan/window.rs:189-252 | a refusal to plan names something that is so of the recipe and the unit |
| Geometry.WindowAlongTheBar | src/scan/window.rs:296-304 | every window begins where the frame does, as near as the axis allows, and ends where the frame does, cut to the boundary, and empty where the frame ends before it begins |
| Geometry.WindowAlongTheFeed | src/scan/window.rs:265-304 | every window of one row at a time begins and ends so on the feed; one of several rows is the fewest whole blocks that hold what is left of the frame where they fit, and one less where they do not |
| Geometry.WindowIsReadAs | src/scan/window.rs:306-356 | every window of a plan reads its lines as often as asked, at the unit's greatest depth, averages unless several rows are read below the bar's resolution, and is at high speed exactly where it does not average and the unit offers that |
| Geometry.WindowsAreTheChannels | src/scan/window.rs:287-294 | one window for each channel, infrared before the colors |
| Plans.PlannedStaysOnAxis | src/scan/window.rs:287-305 | every window of a multi-line plan ends on the Y axis if and only if the frame asks no more than one block past what fits |
| Plans.PlanPastTheAxis | src/scan/window.rs:265-305 | a frame planned 4968 long with 1000 of the axis left |
| Plans.PlannedHasALayout | src/protocol/image.rs:299-330 | a plan has a layout if and only if resolutions are not zero and infrared is not asked of a one-color unit |
| Plans.PlannedShape | src/protocol/image.rs:313-391 | that layout has the channels, depth, readings and interleaving of the plan, and packs the CCD rows where they are read at once and the unit raises no multi-line mode |
| Plans.PlannedExtent | src/protocol/image.rs:313-325 | its pixels and lines are the window's by the pitches the unit scans at, at either divisor, and its gap is the line gap in output lines |
| Plans.PlannedIsAttached | src/protocol/image.rs:336-357 | the bytes attached to a reading are those of a color and of the line, or of the infrared reading where that is counted by itself; the lines attached are the frame's |
| Plans.WhatHasALayout | src/protocol/window.rs:276-366 | a set of windows has a layout if and only if its windows agree, the default color is alone, the order is left open or all named apart, the colors are those of the composition, and the resolutions and the depth can be scanned |
| Plans.PlannedGranules | src/protocol/image.rs:265-291 | the lengths its READs end on are those of the layout that carries them: readings where the unit names that bit, lines where it names neither or bytes are attached across the colors, and otherwise one color's line |
| Plans.ReadingLengths | src/protocol/image.rs:461-474 | the lengths of readings are the bytes of the first reading and of another, in groups of packed rows |
| Plans.EverySetHasColors | src/protocol/window.rs:276-366 | any set of windows that has a layout has one color channel or three |
| Plans.DividingPitchTiles | src/protocol/decode.rs:432-447 | where the pitch divides the gap, every number of window blocks is whole blocks of output lines |
| Plans.RaggedCount | src/protocol/decode.rs:442-447 | where it does not, some number of blocks up to the pitch is not |
| Plans.EveryFrameTiles | src/protocol/decode.rs:432-447 | every frame length decodes if and only if the pitch divides the gap |
| Plans.EveryCoarseFrameTiles | src/protocol/image.rs:313-325 | at the coarse divisor every frame length decodes if and only if one block is whole blocks of output lines with nothing over; with a pitch that divides the gap, if and only if a window unit is a whole number of sensor steps |
| Plans.CoarsePlan | src/protocol/image.rs:313-325 | a plan at that divisor, with a pitch that divides the gap, which the decoder refuses |
| Plans.PlannedIsAccepted | src/protocol/decode.rs:400-447 | a decoder accepts a multi-line plan if and only if its blocks tile, at either divisor, and always on a unit whose pitches divide its gap at its own divisor; a one-row plan if and only if it reads one row at a time |
| Plans.PlannedIsScannable | src/protocol/image.rs:295-391 | a plan that is accepted, a pixel wide at least, is a stream a decoder can be fed: packed rows divide its lines and no reading is empty; and its scene comes back where the range of lines holds its groups |
| Plans.PlannedDecodes | src/scan/window.rs:287-362 | on a unit whose pitches divide its gap, with no invalid lines attached and by window units of whole sensor steps, every multi-line plan is accepted and its every scene comes back |
| Plans.PlannedReads | src/session/image.rs:125-145 | whatever the transport carries, the lengths chosen for a plan are ones a pass can be read by, and by lines or readings, with no lines attached, the READs of an accepted one bring exactly its bytes |
| Plans.ColorsArePayload | src/protocol/image.rs:434-451 | a layout with a color has no empty reading |
| Plans.RaggedPlan | src/scan/window.rs:229-252 | a plan that is supported and has a layout, which the decoder refuses |
| Plans.NarrowPlan | src/scan/window.rs:300-306 | a plan that is accepted and has no pixels, so that its blocks have no bytes |
| Plans.OneColorPlan | src/scan/window.rs:287-294 | a plan with infrared for a one-color unit, which its own set's rules refuse |
| DustMask.TwoPassesAreABar | src/dust.rs:476-492 | taps one apart and then three apart are the AND of all nine samples about a place, clamped, on a line of any length |
| DustMask.And3Cols | src/dust.rs:476-492 | the inside and the two edges of every row are the clamped taps along the row |
| DustMask.And3Rows | src/dust.rs:495-506 | every row is the clamped taps along the columns |
| DustMask.PassesSeeTheMask | src/dust.rs:509-535 | a row of the mask by what the passes left is the row of pixels with no dark bar four away on any side |
| DustMask.Decide | src/dust.rs:509-535 | a pixel is flagged if and only if it is considered and none of the four bars about it is all dark |
| Ranks.SortedIsKth | src/scan/strip.rs:201-204 | the entry at a place of the sorted sequence is in it, with no more than that many below and more than that many up to it |
| Ranks.KthUnique | src/scan/strip.rs:282-287 | only one value has that rank |
| Ranks.SpreadIsZero | src/scan/strip.rs:282-293 | gaps do not disagree at all if and only if more than half of them read the same, whatever the others read |
| Ranks.PolarityMatters | src/scan/strip.rs:282-293 | how any gaps of a given number disagree is the same either way up if and only if the number is odd, or two |
| StripFit.Measure | src/scan/strip.rs:156-178 | running totals are the sums, and each flattest column is the first of the flattest in reach |
| StripFit.Mean | src/scan/strip.rs:181-187 | the average over a stretch off two running totals is that of its columns, and 0 where there are none |
| StripFit.PictureLevelIs | src/scan/strip.rs:203-206 | a column is picture from 15 hundredths of the way up from the tenth percentile to the ninetieth |
| StripFit.FindRuns | src/scan/strip.rs:208-225 | runs begin and end on picture, have no flat stretch over the limit inside, one over it between, and cover all the picture |
| StripFit.HullHoldsTheFilm | src/scan/strip.rs:227-235 | the film begins and ends on picture and spans every run long enough; none if and only if there is no such run |
| StripFit.LeftOutIsShort | src/scan/strip.rs:227-235 | picture the film leaves out is in a run too short for a frame |
| StripFit.FlatPassHasNoFilm | src/scan/strip.rs:227-235 | a pass that reads the same end to end has no film |
| StripFit.ScoreOf | src/scan/strip.rs:259-293 | the loops over gaps and pictures, off running totals, score what the averages and the disagreement of the gaps do |
| StripFit.EvenScore | src/scan/strip.rs:259-273 | pictures that all come to one detail and gaps that all come to another score the difference, less twice how much the gaps disagree |
| StripFit.ScoreMoves | src/scan/strip.rs:259-273 | detail in every picture raises a score by as much, detail in every gap lowers it by as much, and a disagreement of the gaps by twice as much, for any number of frames |
| StripFit.BetterScoresNoLower | src/scan/strip.rs:252-273 | busier pictures, flatter gaps and gaps that agree better never lower a score |
| StripFit.Find | src/scan/strip.rs:298-344 | the strip found is the first of the best over every pitch and first gap that fit the film and the pass; none if and only if none fit |
| StripFit.WhatIsAdmitted | src/scan/strip.rs:304-330 | the fits tried are all those of a pitch from nine tenths of the format to a half over it, a twentieth more at most, with the nearest number of frames, whose gaps pass the film by a pitch at most and are on the pass |
| StripFit.FramesOfAFit | src/scan/strip.rs:246-249 | the frames of any fit are equal, 8 columns wide at least, a pitch apart, disjoint, in the pass, and fill the film to half a pitch; the pitch is from nine tenths of the format to a half over it, a twentieth more at most |
| StripFit.GapsAreBetweenFrames | src/scan/strip.rs:240-249 | the column each gap is read at is outside every frame |
| Records.RectsComeBack | src/protocol/data.rs:391-444 | a table of 1 to 255 rectangles encodes, and decodes to itself whatever follows it |
| Records.RectRecord | src/protocol/data.rs:413-444 | a record of rectangles has its own whole length in its first two bytes, then the count and a zero, and every edge high byte first |
| Records.PositionsComeBack | src/protocol/data.rs:556-642 | a table of 1 to 255 positions encodes, and decodes to itself whatever follows it |
| Records.PositionRecord | src/protocol/data.rs:595-642 | a record of positions has its length less two in its first two bytes, then the count and a zero, and every entry high byte first |
| Records.PositionBytesAreTheTable | src/protocol/data.rs:556-642 | a record that decodes to some frames is what encoding them gives, but for the reserved byte and what follows |
| Records.WhatIsATable | src/protocol/data.rs:391-410 | bytes read as rectangles if and only if there are as many as their count says, and as positions if and only if the length field agrees with the count besides |
| Records.EntryKeepsTheReading | src/protocol/data.rs:348-356 | an entry carries the unit's perforation reading byte for byte |
| FrameTable.Table.Register | src/protocol/data.rs:544-554 | the whole table after registering, for empty and nonempty tables |
| FrameTable.RegisteredIsSelected | src/protocol/data.rs:535-554 | a top no entry has then selects the new entry and no other, every other entry stays, and order is kept |
| FrameTable.RegisteredMovesOneSlot | src/protocol/data.rs:535-554 | a window selects what it did before unless it is between the entry replaced and the new one |
| FrameTable.EntryIsAtTheTop | src/scan/boundary/perforation/mod.rs:112-117 | an entry is made at the top asked for and carries the last reading at or before it, or there is no such reading |
| FrameTable.Session.Register | src/scan/framing.rs:225-260 | a table is written only where the top is missing, and then it is the known table with the entry of the last reading at or before the top; each way that fails is what was exchanged; the session goes on knowing the measured table |
| FrameTable.Session.AtFrame | src/scan/frame.rs:174-202 | the answer is the action's; a registered rectangle's action runs on the table with its entry, and after it, failed or not, the measured table is sent once, and is what the unit holds if that was delivered; an unregistered one's does not run |
| FrameTable.ActsAtItsOwnEntry | src/scan/frame.rs:174-202 | where the unit held what the session knew, the action runs with a window at the top selecting an entry at that top, and in order if the table was |

## Left out

- Integers are unbounded: the widths of `u32`, `u64` and `usize`, and overflow past them, are not modelled. Bytes, samples, table entries and the saturating operations are at their own widths.
- WireToImage.RawIsScene: for layouts of at least one pixel, one channel and one reading. A zero raw reading count overruns its slots (`WireToImage.NoReadings`); without pixels or channels a block has no bytes (`WireToImage.BlocksHaveBytes`), and pushing divides by nothing.
- ScanPass.DecodePass: the chunks arrive as one sequence; that the two threads hand them over in order and whole is `ReaderPool.EveryInterleaving`.
- Scheduling.ColorPassLands: where the first reading has bytes of its own attached, the condition is that the whole pass is whole granules, and no shorter one.
- StripFit.Find: detail and level are given, and are real numbers, as are the quantiles' shares. The `f32` rounding, and how the signals are drawn from the thumbnail, are not modelled.
- StripFit.Disagreement: on a sequence rather than in the caller's buffer; selecting a median in place may reorder it.
- DustMask.Decide: which samples are dark and which weights are full are given as booleans. Density, calibration, confidence, the pyramids, dither and reconstruction are floating point and left out. Rows are done in turn where the source does them at the same time.
- Geometry.Windows: the fields of a descriptor that a plan leaves at zero are not in it, but for the exposure. Descriptors are checked as a set, not each against the unit's pages.
- Handshake.RunHandshake: the clock is any that never runs back. Reading a record and refreshing are commands of their own, on budgets of their own, that succeed or fail and take any time.
- FrameTable.Session.AtFrame: an action may leave the unit with any table, and does not itself change what the session knows.
- Of the records, only the two frame tables: not the record of perforation readings, the SETUP record or the operation codes.
- The unit, its transports, device enumeration and the sense codes are an oracle that answers anything.
- The browser build, its unread passes and its single thread.
- `filled_columns`, partial images, progress, cancellation's own wording, timing and logging.
- Reading the capability pages, the CDB builders, mode pages, and the choice of models, films and framings.
- Metering, the boundary finders for holders and perforations, the frames of an address-only unit, ICC profiles, TIFF files, and the command line.
