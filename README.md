# facecrop, modelled in Dafny

facecrop turns a landscape video into a 9:16 portrait one that follows the
speaker's face. `index.js` does three things:

1. It has ffmpeg decode every F-th frame into a stream of PNG images. An
   `ExtractFrames` stream transform cuts that byte stream into single
   images on the PNG signature.
2. It runs face detection on each image and records one crop window per
   sample in a `crops` list. The window is centred on the face, or repeats
   the previous crop, or falls back to the left edge.
3. It turns the crops' x offsets into an ffmpeg expression. The expression
   has one `if(guard,st(0,value));` clause per crop, followed by `ld(0)`.
   It is either piecewise constant or linearly interpolated between
   samples. The expression is wrapped into a `crop=W:H:'…':0` filter
   argument.

The model covers those three pieces:

- `frame_splitter.dfy` (module `FrameSplitter`):
  - The class `ExtractFrames`, whose `buffer` field its `Transform` loop
    reassigns, as `_transform` does.
  - `Split`, the pure function that loop is proved to compute.
  - Its invariants: frame shape, the exit state, conservation of bytes,
    frame count, and independence from chunk boundaries.
- `crop_timeline.dfy` (module `CropTimeline`):
  - The target size.
  - The per-sample crop choice as functions.
  - The `crops` list as the field of a `CropRecorder` class, which the
    `data` handler appends to.
  - A reference characterisation: each crop is centred on the latest face
    found so far.
- `crop_expression.dfy` (module `CropExpression`):
  - The guard/value datatype of the clauses.
  - An exact evaluator of ffmpeg's semantics. Slot 0 persists from frame to
    frame and starts at 0.
  - The two clause builders as functions, and the two `for` loops as a
    method proved equal to them.
  - The offsets each mode shows at every frame `n`.
- `filter_script.dfy` (module `FilterScript`):
  - Rendering of the clauses and of the whole filter argument to text.
  - A parser for each rendered form, with round-trip proofs. The text
    therefore determines the crop size and every clause.
- `wrappers.dfy`: `Option` and `Result`.
- `seq_facts.dfy` (module `SeqFacts`): concatenation identities that the
  proofs of the other modules share.

The delimiter is the byte sequence itself (`PngSignature`). Face detection
is an input: one `Option<Box>` per sample, with the coordinates already
floored.

## Model

| member | source | states |
|---|---|---|
| FrameSplitter.IndexOf | index.js:23 | `buf.indexOf(d, from)`: a result is an occurrence of the delimiter at or after `from` |
| FrameSplitter.IndexOfFirst | index.js:23-25 | the occurrence found is the first one at or after `from`, and "not found" means there is none |
| FrameSplitter.NextFrame | index.js:23-26 | the two searches of one loop pass: the second delimiter lies at least one delimiter length after the first, and inside the buffer |
| FrameSplitter.Split | index.js:21-30 | one run of the `while (true)` loop: the buffer it leaves is never longer than the one it started with, and it emits a frame exactly when it changes the buffer |
| FrameSplitter.EmittedFrameWellFormed | index.js:23-27 | an emitted frame starts with the delimiter and holds no other occurrence at any offset from the delimiter length on |
| FrameSplitter.SplitFramesWellFormed | index.js:22-30 | every frame the loop emits is well formed |
| FrameSplitter.SplitLeavesStuck | index.js:22-26 | on exit the buffer holds no delimiter, or none after the first one's end |
| FrameSplitter.SplitConserves | index.js:21-29 | buffer = discarded prefix before the first delimiter ++ frames ++ residual; after an emission the residual starts with the delimiter |
| FrameSplitter.SplitAppend | index.js:19-30 | splitting `b ++ c` = splitting `b`, then splitting its residual ++ `c` |
| FrameSplitter.FirstFrameSurvivesAppend | index.js:21-27 | a frame already complete in the buffer is emitted the same whatever bytes arrive after it |
| FrameSplitter.FeedAll | index.js:19-32 | successive `_transform` calls, one per chunk, each starting from the buffer the previous call left (its partner is `FeedAllIsSplit`) |
| FrameSplitter.FeedAllIsSplit | index.js:19-32 | feeding chunks one call at a time from a residual equals one split of residual ++ all chunks |
| FrameSplitter.ChunkBoundaryIndependence | index.js:19-32 | a fresh splitter fed chunks c1..ck emits the frames and keeps the residual of one call on c1 ++ … ++ ck |
| FrameSplitter.SplitCount | index.js:22-30 | the number of frames is one less than the number of delimiters found by a scan that skips each found delimiter (0 when there are none) |
| FrameSplitter.OverlapExcluded | index.js:23-25 | for a delimiter that cannot overlap itself, no occurrence starts strictly inside another one |
| FrameSplitter.CountIsOccurrences | index.js:22-26 | for such a delimiter the loop's search meets every occurrence: its count is the plain count of offsets where the delimiter occurs |
| FrameSplitter.SplitCountOccurrences | index.js:22-30 | for such a delimiter, k occurrences in the buffer give k − 1 frames, and none when k = 0 |
| FrameSplitter.PngSignatureNoSelfOverlap | index.js:156 | the PNG signature `89504E470D0A1A0A` cannot overlap itself |
| FrameSplitter.PngFrameCount | index.js:150-157 | on the decoder's output, k PNG signatures give k − 1 images, and none when k = 0 |
| FrameSplitter.OverlapSkipped | index.js:23-25 | a delimiter that overlaps itself: `[1, 1]` occurs twice in `[1, 1, 1]`, the search meets it once, and no frame is cut |
| FrameSplitter.ExtractFrames.constructor | index.js:13-17 | the splitter starts with the given delimiter and an empty buffer |
| FrameSplitter.ExtractFrames.Transform | index.js:19-32 | `_transform`: the frames pushed and the new buffer are those of `Split(delimiter, old buffer ++ data)`; the loop terminates |
| FrameSplitter.SplitStream | index.js:150-157 | the decoder's output piped through a fresh splitter yields `Split` of the whole stream |
| CropTimeline.TargetSize | index.js:116-119 | width = ⌊9h/16⌋ (16·w ≤ 9h < 16·w + 16), height = h |
| CropTimeline.TargetSizeIsPortrait | index.js:116-119 | for h ≥ 0 the target is no wider than it is tall |
| CropTimeline.DefaultCrop | index.js:143-148 | the default crop is at (0, 0) with the target size |
| CropTimeline.CentreX | index.js:174 | `x + Math.floor(width / 2)`: 2(c − x) ≤ width < 2(c − x) + 2, so for a box of width ≥ 0 the centre lies in [x, x + width] |
| CropTimeline.CropFor | index.js:164-182 | a face's crop has y = 0 and the target size, and its x plus ⌊tw/2⌋ is the face's centre x + ⌊w/2⌋ |
| CropTimeline.FaceCentreInside | index.js:174-178 | for tw ≥ 1 the face centre lies inside the crop window |
| CropTimeline.ChooseCrop | index.js:161-183 | with a face: its crop; without one: the last crop, or the default crop when there is none |
| CropTimeline.ChooseCropWellSized | index.js:161-185 | appending the chosen crop keeps every crop at the target size |
| CropTimeline.CropsFor | index.js:157-185 | one crop per sample |
| CropTimeline.CropsForPrefix | index.js:185 | a later sample never changes the crops recorded for earlier ones |
| CropTimeline.CropsForWellSized | index.js:161-185 | every recorded crop has width tw and height th |
| CropTimeline.LatestDetection | index.js:161-162 | the latest sample at or before i with a face, or None when every sample up to i has none |
| CropTimeline.CropsForLatest | index.js:161-185 | crop i is centred on the latest face found at or before sample i, or is the default crop if there is none yet |
| CropTimeline.NoFaceMeansDefault | index.js:143-162 | with no face in any sample every crop is the default crop |
| CropTimeline.CropRecorder.constructor | index.js:116-142 | the recorder starts with the target size of the height and no crops |
| CropTimeline.CropRecorder.OnSample | index.js:157-185 | one `data` event appends exactly the chosen crop and keeps all crops at the target size |
| CropTimeline.CaptureCrops | index.js:142-191 | handling the samples in order builds `CropsFor` of the detections |
| CropExpression.Fraction | index.js:207 | `(mod(n-1,F)+1)/F` lies in (0, 1] |
| CropExpression.Interpolate | index.js:207 | `lerp(a,b,t)` lies between a and b for t in [0, 1], is a at t = 0 and b at t = 1 |
| CropExpression.Eval | index.js:222-223 | the clauses run in order: when the final clause's guard holds, `ld(0)` yields its value (the general rule is `EvalLastHolding`) |
| CropExpression.EvalLastHolding | index.js:222-223 | when clause k's guard holds and no later guard does, `ld(0)` yields clause k's value, whatever slot 0 held and whatever earlier clauses stored |
| CropExpression.OffsetAt | index.js:222-223 | the offset at frame n: the clauses evaluated with slot 0 as frame n − 1 left it, and 0 before frame 0 (its properties are `PiecewiseEval` and `LerpEval`) |
| CropExpression.EvalNoGuard | index.js:222-223 | a clause list none of whose guards holds leaves slot 0 unchanged |
| CropExpression.EvalOneGuard | index.js:222-223 | when exactly one guard holds the expression yields that clause's value, whatever slot 0 held |
| CropExpression.PiecewiseClause | index.js:211-216 | clause i stores crops[i].x, and its guard holds exactly for iF ≤ n, with n < (i + 1)F unless i is the last crop |
| CropExpression.PiecewiseClauses | index.js:210-217 | one clause per crop, clause i built for crop i, in order |
| CropExpression.PiecewiseGuards | index.js:211-217 | piecewise guard i holds at n exactly when i = min(n div F, last): the guards partition n ≥ 0 |
| CropExpression.PiecewiseEval | index.js:211-223 | piecewise mode shows crops[min(n div F, last)].x at every frame n |
| CropExpression.PiecewiseEmpty | index.js:211-223 | with no crops the expression is just `ld(0)` and every offset is 0 |
| CropExpression.LerpClause | index.js:201-208 | clause 0 stores crops[0].x at n = 0 only; clause i ≥ 1 interpolates from crops[i − 1].x to crops[i].x and holds exactly for (i − 1)F < n, with n ≤ iF unless i is the last crop |
| CropExpression.LerpClauses | index.js:200-209 | one clause per crop, clause i built for crop i, in order |
| CropExpression.LerpGuards | index.js:200-209 | with ≥ 2 crops, interpolating guard i holds at n exactly when i is the owner of n (0 for n = 0, else min((n-1) div F + 1, last)) |
| CropExpression.LerpEval | index.js:200-209 | frame 0 shows crops[0].x; frame n ≥ 1 shows lerp(crops[i-1].x, crops[i].x, ((n-1) mod F + 1)/F) for its owner i |
| CropExpression.FractionAtSample | index.js:207 | the fraction is exactly 1 at every sample frame iF |
| CropExpression.SampleOwner | index.js:204-207 | frame iF belongs to clause i |
| CropExpression.LerpHitsSamples | index.js:200-209 | frame iF shows crops[i].x exactly |
| CropExpression.LerpStaysBetween | index.js:200-209 | every frame's offset lies between the offsets of the two crops around it |
| CropExpression.LerpSingleCrop | index.js:200-223 | with one crop only `eq(n,0)` is emitted, and since slot 0 persists every frame shows crops[0].x |
| CropExpression.TailPeriod | index.js:204-207 | past the last sample, frames F apart have the same clause and the same fraction |
| CropExpression.LerpTailRepeats | index.js:204-207 | past the last sample the offset repeats with period F |
| CropExpression.LerpTailFallsBack | index.js:204-207 | crops [0, 10] sampled every 2 frames: frame 2 shows 10, but frame 3 shows 5 |
| CropExpression.LerpTailLeavesLast | index.js:204-207 | with F ≥ 2 and the last two offsets different, the frame right after the last sample does not show the last crop |
| CropExpression.InterpolateShort | index.js:207 | a fraction below 1 stops short of the second offset when the two offsets differ |
| CropExpression.LerpTailUnitInterval | index.js:204-207 | with F = 1 every frame from the last sample on shows the last crop |
| CropExpression.LerpTailEqualEnds | index.js:204-207 | when the last two offsets are equal, every frame past the last sample shows the last crop |
| CropExpression.HeldLerpClauses | index.js:200-209 | definition of the corrected clause list (one clause more than there are crops); its properties are in `HeldGuards` and `HeldLerpEval` |
| CropExpression.HeldGuards | index.js:200-209 | the corrected guards partition n ≥ 0 |
| CropExpression.HeldLerpEval | index.js:200-209 | the corrected clauses agree with the written ones up to the last sample and show the last crop from it on |
| CropExpression.FrameValues | index.js:198-218 | interpolating mode fails exactly on an empty timeline (`crops[0]`); otherwise there is one clause per crop |
| CropExpression.BuildFrameValues | index.js:198-218 | the two `for` loops build exactly `FrameValues` |
| FilterScript.IntRoundTrip | index.js:203-221 | an integer, printed as a template literal prints one of magnitude below 10^21, is read back unchanged |
| FilterScript.IntToStringInjective | index.js:203-221 | distinct integers print differently |
| FilterScript.RenderGuard | index.js:206-214 | a rendered guard holds no `s` and no newline |
| FilterScript.GuardRoundTrip | index.js:206-214 | `eq(n,k)`, `between(n,lo,hi)` and `gte(n,k)` are read back as the guard they render |
| FilterScript.PeriodRoundTrip | index.js:207 | `(mod(n-1,F)+1)/F` is read back as F |
| FilterScript.RenderValue | index.js:207-215 | a value's text holds no newline; otherwise a definition, whose properties are in `ValueRoundTrip` |
| FilterScript.ValueRoundTrip | index.js:207-215 | a constant offset or a `lerp(a,b,…)` value is read back as the value it renders |
| FilterScript.RenderClause | index.js:222 | a clause line is non-empty and holds no newline |
| FilterScript.ClauseRoundTrip | index.js:222 | `if(guard,st(0,value));` is read back as its clause |
| FilterScript.Join | index.js:222 | `join("\n")`: the lines separated by newlines (its partner is `LinesOfJoin`) |
| FilterScript.ClauseLines | index.js:222 | `frameValues.map(…)`: one single line per clause, line i the rendering of clause i |
| FilterScript.LinesOfJoin | index.js:222 | `join("\n")` of single lines splits back into those lines (one empty line for an empty list) |
| FilterScript.Header | index.js:221 | the header line `crop=W:H:'` holds no newline (its partner is `HeaderRoundTrip`) |
| FilterScript.RenderScript | index.js:220-224 | the template literal: header, joined clause lines, `ld(0)` and `':0`, each on its own line (its partners are `ScriptLines` and `ScriptRoundTrip`) |
| FilterScript.ScriptLines | index.js:220-224 | the filter argument's lines: the `crop=W:H:'` header, one line per clause in order (one empty line if none), `ld(0)`, `':0` |
| FilterScript.HeaderRoundTrip | index.js:221 | the header is read back as the target size |
| FilterScript.ClausesRoundTrip | index.js:222 | the clause lines are read back as the clause list |
| FilterScript.ScriptRoundTrip | index.js:220-224 | the filter argument is read back as its target size and its exact clause list |
| FilterScript.Offsets | index.js:201-215 | `crops[i].x` for every i: one offset per crop, in order |
| FilterScript.Script | index.js:198-224 | the argument built from the crops fails only for an empty timeline in interpolating mode, and reads back as the size and the clauses `FrameValues` makes of the crops' x offsets |

## Left out

- Command-line parsing and the usage text (index.js:35-96) are library wrappers with no logic.
- The ffprobe and ffmpeg processes are left out. This covers the frame rate and its rounding, the interval default `round(fps/2)`, the resolution and codec queries, deleting the output file, and running the final encode (index.js:100-130, 226-239). The model takes the interval F ≥ 1 and the height as inputs. A zero interval (a frame rate below 1) is not modelled.
- PNG decoding and face detection (index.js:136, 158-159) are foreign machine-learning calls. Each sample's detection is an input, with its box already floored (index.js:165-168).
- The `y` centre of the box (index.js:175) is computed but never used, so it is not modelled.
- Stream plumbing is left out: Node's `Transform` base class, `push`, `cb`, `pipe` and the `end` event (index.js:10-17, 150-157, 192-194).
  - The `data` handler is `async`. Its crops are pushed as each detection finishes, and `converter.run()` does not wait for pending handlers. The model handles the samples strictly in order and builds the script once all of them are done.
- Logging is left out: the "Discarded bytes" message, the option echo and the progress dots (index.js:29, 109-113, 120-121, 188-190, 196).
- Hex parsing of the delimiter (index.js:15) is a library call. The model takes bytes (`PngSignature`).
- FrameSplitter.ExtractFrames.Transform: requires a non-empty delimiter. With an empty one, index.js:23-28 never leaves its loop.
- ffmpeg's floating point is not modelled. `lerp` and the fraction are exact `real`s.
  - ffmpeg also converts the x expression to a whole pixel offset and clamps it to the frame. The model stops at the exact value the expression denotes.
  - Negative crop offsets, for a face near the left edge, are kept as computed.
- `TargetSize` uses exact integer division. JavaScript's `h / 16 * 9` is exact in double precision for every realistic height, because dividing by 16 only shifts the exponent.
- How ffmpeg chooses when to re-evaluate the x expression is not modelled. The model evaluates it once per frame number `n`, in order, with slot 0 kept from one frame to the next (`OffsetAt`).
- `FrameValues` and `Script` return `Err(EmptyTimeline)` for an empty `crops` list only in interpolating mode, where index.js:201 reads `crops[0]`. In piecewise mode the loop of index.js:211-217 pushes nothing and the expression reduces to `ld(0)`, which is 0 (`PiecewiseEmpty`).
- FrameSplitter.SplitCount: the frame count is one less than the delimiters a left-to-right scan finds, and that scan skips any occurrence overlapping one it has found (`OverlapSkipped`). "k occurrences give k − 1 frames" holds only for a delimiter that cannot overlap itself (`SplitCountOccurrences`), which the PNG signature is (`PngFrameCount`).
- Past the last sample, when F ≥ 2 and the last two offsets differ, the last interpolation clause wraps back towards the previous crop every F frames. It does not hold the last offset (`LerpTailLeavesLast`; see Findings). With F = 1, or with equal last two offsets, the tail holds the last offset (`LerpTailUnitInterval`, `LerpTailEqualEnds`).

## Findings

| source | as written | input that shows it | evidently intended | confidence | as-written member | corrected member |
|---|---|---|---|---|---|---|
| index.js:204-207 | the last interpolation clause is `gte(n,(last-1)F+1)` with fraction `(mod(n-1,F)+1)/F`. Past the last sample frame `last·F` the fraction starts over, so for F ≥ 2 and different last two offsets the offset jumps back towards the previous crop and sweeps forward again every F frames (`LerpTailLeavesLast`). With F = 1 the fraction is always 1, and with equal last two offsets (the last analysed sample found no face) the tail is constant (`LerpTailUnitInterval`, `LerpTailEqualEnds`). `ExtractFrames` has no `_flush`, so the last image the decoder writes stays in the buffer and is never analysed: k signatures give k − 1 images (`PngFrameCount`, and `SplitStream` returns that image as its residual). The last recorded crop therefore belongs to the second-to-last sampled frame, at least F frames follow `last·F`, and the wrap shows at the end of every interpolated video with F ≥ 2 whose last two crops differ. | crops x = [0, 10], F = 2, frames 0..3: frame 2 shows 10, frame 3 shows 5; in general F ≥ 2 and different last two offsets | the offset stays at the last crop from the last sample on | not executed | CropExpression.LerpTailFallsBack, CropExpression.LerpTailLeavesLast, CropExpression.LerpTailRepeats | CropExpression.HeldLerpClauses, proved by CropExpression.HeldLerpEval |

`FrameValues` and `Script` model the code as written. The corrected clause
list is rendered and read back by the same `FilterScript` functions, since
`ScriptRoundTrip` holds for every clause list.
