# ConvertGif frame timing and write loop, in Dafny

This project models the part of ConvertGif's `Converter` class
(`ConvertGif/ConverterImageFile.swift`) that turns an animated GIF's frames into
a list of timed video samples. It covers Euclid's GCD on Swift's truncating
remainder, both the two-argument form and the fold over an array. It covers the
rule that picks each frame's delay in centiseconds, and the `convertGifFile`
loop that collects images, delays and the total duration. It covers
`frameArray`, which repeats image `i` `delays[i] / g` times in a row, for `g`
the GCD of all delays. Finally it covers the `createMP4file` loop. That loop
stamps the image at position `k` with `3 * k` ticks at timescale 30, which is
0.1 s per emitted image. It gives each image up to 30 attempts to be appended
and advances `frameCount` once per image.

Modules, one per concern, all in the Swift file's own terms:

- `Options` (`Options.dfy`): Swift optionals.
- `Gcd` (`Gcd.dfy`): `gcd(_:_:)` as the method `Gcd.Gcd` and `gcd(values:)` as
  `Gcd.GcdValues`. Each is proved against a function (`GcdOf`, `GcdOfValues`),
  and the divisor properties are proved about those functions.
- `FrameTiming` (`FrameTiming.dfy`): delay resolution (`DelayCentiseconds`),
  the collection loop of `convertGifFile` (`CollectFrames`) and `frameArray`
  (`FrameArray`, specified by `Expand` and `RepeatCounts`).
- `Mp4Writer` (`Mp4Writer.dfy`): the retry loop (`AppendWithRetry`) and the
  loop over the images (`WriteFrames`). They are specified by `FrameAttempts`
  and `Samples`.
- `Converter` (`Converter.dfy`): `convertGifFile` followed by
  `createMP4file` (`ConvertGifFile`), and lemmas on how the constant 0.1 s
  stamping relates to the GIF's own timing.

Things the code cannot see are parameters. Opening the GIF gives
`Option<seq<SourceFrame<T>>>`: per frame index, the decoded image or nothing,
and the two delay fields or nothing. `render: (nat, T) -> Option<B>` is the
pixel buffer `pixelBuffer(from:)` builds, or fails to build, for the image
emitted at position `k`. The code builds it afresh for every emitted frame
(line 77), repeats of one image included, so it can fail on one repeat and
not on another. `animatedImageMade` says
whether `UIImage.animatedImage` returned an image. `ready(k, j)` and
`accepts(k, j)` are the writer's readiness flag and `append`'s result on
attempt `j` of image `k`. The loop is deterministic, so indexing the writer's
answers by `(k, j)` covers every behaviour the writer can have.

What the code does at three points worth spelling out:

- Every emitted frame is stamped 0.1 s after the previous one, whatever `g` is
  (lines 72-85). So the stamps are the GIF's timing scaled by `10 / g`
  (`Converter.PlayedStartScaled`). With two or more images, the first emitted
  frame of every image is stamped when the image starts in the GIF exactly
  when `g` is 10 centiseconds (`Converter.PlayedTimingMatchesIff`). That stamp
  is where the image's run starts in the video only when that frame's append
  is accepted (`Converter.AcceptedFirstFrameStamp`). When it is dropped, the
  run starts at a later slot, or the image does not appear at all. The code
  stamps only frame starts and never sets an end time for the session
  (lines 66, 106-109), so the model compares start times only.
- A rejected append is retried at once, without the sleep a not-ready poll
  takes (line 96), and uses up one of the 30 attempts (lines 86-98).
- At the first frame `i` that fails to decode, `delays` holds exactly `i`
  entries, so `delays[i]` at line 28 traps. The model returns
  `DelayReadOutOfBounds(i)`.

## Model

| member | source | states |
|---|---|---|
| `Gcd.Rem` | ConvertGif/ConverterImageFile.swift:203 | Swift's `%`: smaller than the divisor in magnitude, takes the dividend's sign, and differs from the dividend by a multiple of the divisor |
| `Gcd.RemKeepsCommonDivisors` | ConvertGif/ConverterImageFile.swift:203-208 | replacing `(a, b)` by `(b, a % b)` keeps exactly the same common divisors |
| `Gcd.GcdOf` | ConvertGif/ConverterImageFile.swift:199-210 | the value `gcd(a, b)` returns, for any `b != 0`, is never zero |
| `Gcd.GcdOfIsGcd` | ConvertGif/ConverterImageFile.swift:199-210 | the result divides both arguments, and every common divisor divides it |
| `Gcd.GcdOfIsGreatest` | ConvertGif/ConverterImageFile.swift:199-210 | no common divisor is larger in magnitude than the result |
| `Gcd.GcdOfPositive` | ConvertGif/ConverterImageFile.swift:199-210 | for `a >= 0` and `b > 0` the result is positive |
| `Gcd.GcdOfSelf` | ConvertGif/ConverterImageFile.swift:203-205 | `gcd(v, v)` returns `v` for every nonzero `v` |
| `Gcd.Gcd` | ConvertGif/ConverterImageFile.swift:199-210 | the `while true` loop terminates for every `b != 0` and returns a nonzero common divisor that every common divisor divides; it is positive for positive inputs |
| `Gcd.GcdPrefix` | ConvertGif/ConverterImageFile.swift:190-194 | the value of `currentGCD` after the loop has folded the first `n` entries into it, starting from `values[0]`; never zero, so it is always a valid divisor |
| `Gcd.GcdPrefixIsGcd` | ConvertGif/ConverterImageFile.swift:190-194 | after folding `n >= 1` entries, `currentGCD` divides those entries and every common divisor of them divides it |
| `Gcd.GcdOfValues` | ConvertGif/ConverterImageFile.swift:185-197 | the value `gcd(values:)` returns: 1 for an empty array, otherwise the fold over every entry; never zero, so `delays[i] / g` at line 177 cannot divide by zero |
| `Gcd.GcdOfValuesIsGcd` | ConvertGif/ConverterImageFile.swift:185-197 | on a non-empty array the result divides every element, and every common divisor of all elements divides it |
| `Gcd.GcdOfValuesSingle` | ConvertGif/ConverterImageFile.swift:190-196 | for `[v]` the loop starts at index 0 and returns `gcd(v, v) == v` |
| `Gcd.GcdOfValuesPositive` | ConvertGif/ConverterImageFile.swift:185-197 | on an all-positive array (including the empty one) the result is positive |
| `Gcd.GcdValues` | ConvertGif/ConverterImageFile.swift:185-197 | returns 1 for an empty array and a greatest common divisor of all elements otherwise; positive for positive elements; needs every element nonzero |
| `FrameTiming.DelayCentiseconds` | ConvertGif/ConverterImageFile.swift:146-167 | the result is at least 1; missing properties give 1; a positive unclamped delay is used; a negative unclamped delay gives 1, with no fallback; an unclamped delay of exactly 0 falls back to the clamped one, or to 1 if that is not positive |
| `FrameTiming.DelayFallbackExamples` | ConvertGif/ConverterImageFile.swift:155-165 | unclamped 0 with clamped 5 gives 5; both 0 gives 1; no properties gives 1 |
| `FrameTiming.Sum` | ConvertGif/ConverterImageFile.swift:22-28 | `totalDuration`, adding the delays in order; `n` delays of at least 1 centisecond sum to at least `n` |
| `FrameTiming.DecodedImages` | ConvertGif/ConverterImageFile.swift:20-25 | the `images` array once every frame has decoded: one image per frame index, in frame order |
| `FrameTiming.ResolvedDelays` | ConvertGif/ConverterImageFile.swift:21-26 | the `delays` array once every frame has decoded: one resolved delay per frame, in frame order, each at least 1 centisecond |
| `FrameTiming.CollectFrames` | ConvertGif/ConverterImageFile.swift:19-29 | traps exactly when some frame fails to decode, and then at the first such index; otherwise returns all images and their resolved delays in order, with `totalDuration` equal to the sum of the delays |
| `FrameTiming.Repeat` | ConvertGif/ConverterImageFile.swift:177-179 | the inner loop appends exactly `n` copies of the frame |
| `FrameTiming.Expand` | ConvertGif/ConverterImageFile.swift:169-183 | the list `frameArray` returns: each image repeated its count of times, block after block in input order; as long as the sum of the counts |
| `FrameTiming.Offset` | ConvertGif/ConverterImageFile.swift:175-180 | where image `n`'s block starts in `frames`: the number of frames appended for the images before it, at least `n` when every earlier image is emitted at least once |
| `FrameTiming.ExpandBlock` | ConvertGif/ConverterImageFile.swift:175-180 | image `i` fills the `counts[i]` consecutive slots starting at the sum of the earlier counts, so the blocks keep the input order |
| `FrameTiming.OffsetMonotone` | ConvertGif/ConverterImageFile.swift:175-180 | later blocks start no earlier than earlier ones |
| `FrameTiming.RepeatCounts` | ConvertGif/ConverterImageFile.swift:170-177 | image `i` is repeated `delays[i] / g` times, for `g` the result of `gcd(values: delays)` |
| `FrameTiming.CountTimesGcd` | ConvertGif/ConverterImageFile.swift:170-177 | the division `delays[i] / delayGCD` is exact: image `i`'s count times `g` is its delay |
| `FrameTiming.RepeatCountsPositive` | ConvertGif/ConverterImageFile.swift:170-177 | every image is emitted at least once, because `g` divides each delay |
| `FrameTiming.OffsetTimesGcd` | ConvertGif/ConverterImageFile.swift:170-180 | the first `n` blocks, multiplied by `g`, last exactly as long as the first `n` delays |
| `FrameTiming.FrameCount` | ConvertGif/ConverterImageFile.swift:169-183 | the number of emitted frames is the sum of `delays[i] / g`, which equals `sum(delays) / g` |
| `FrameTiming.FrameArray` | ConvertGif/ConverterImageFile.swift:169-183 | the nested loops build exactly the block expansion; its length is the sum of the counts, and `sum(delays) / g` when there are as many delays as images |
| `Mp4Writer.PresentationTicks` | ConvertGif/ConverterImageFile.swift:72-85 | the presentation value of image `k` is `3 * k` ticks at timescale 30, which is `k` tenths of a second |
| `Mp4Writer.AttemptOutcome` | ConvertGif/ConverterImageFile.swift:82-97 | one pass of the retry loop: not ready exactly when the readiness flag is down; `append` is called exactly when the input is ready and a buffer exists, always at `3 * k` ticks; the pass succeeds exactly when ready, with a buffer, and `append` accepts |
| `Mp4Writer.Outcomes` | ConvertGif/ConverterImageFile.swift:79-97 | the outcome each of the 30 passes `j = 0 ..< 30` on image `k` has if the loop reaches it: exactly 30 of them, pass `j` polling readiness at `(k, j)` |
| `Mp4Writer.TakeThroughAccepted` | ConvertGif/ConverterImageFile.swift:79-99 | the loop's stopping rule `while !append_ok`: the outcomes up to and including the first accepted append; never longer than the outcomes, and at least one when there is any |
| `Mp4Writer.FrameAttempts` | ConvertGif/ConverterImageFile.swift:79-99 | the attempts the loop makes on image `k` under the bound `j < 30`: between 1 and 30 of them |
| `Mp4Writer.TakeThroughAcceptedShape` | ConvertGif/ConverterImageFile.swift:81-99 | the attempts made are a prefix of the poll outcomes; the only accepted append is the last one; the loop either ends on an accepted append or uses every attempt |
| `Mp4Writer.RetryStep` | ConvertGif/ConverterImageFile.swift:81-98 | one pass of the loop either ends it on an accepted append or leaves the remaining attempts to the next value of `j` |
| `Mp4Writer.RetryBudget` | ConvertGif/ConverterImageFile.swift:79-101 | when no append was accepted the loop ran all 30 attempts (`j == 30` on exit) |
| `Mp4Writer.AttemptsFollowPolls` | ConvertGif/ConverterImageFile.swift:82-97 | a not-ready poll never calls `append`; `append` is called exactly when the input is ready and a buffer exists; every call for image `k` carries `3 * k` ticks, the same on every retry |
| `Mp4Writer.AtMostOneAccepted` | ConvertGif/ConverterImageFile.swift:81-99 | the loop stops right after the first accepted append; a failed attempt, a rejected append included, is followed by another while the budget lasts |
| `Mp4Writer.AppendedIff` | ConvertGif/ConverterImageFile.swift:79-99 | an image is appended if and only if, within 30 attempts, one poll finds the input ready with a buffer present and `append` accepts; without a buffer it never succeeds |
| `Mp4Writer.ReadyOnLastPoll` | ConvertGif/ConverterImageFile.swift:81-98 | not ready for 29 polls and ready on the 30th still appends the image, using all 30 attempts |
| `Mp4Writer.NeverReadyDropsFrame` | ConvertGif/ConverterImageFile.swift:81-101 | never ready within 30 polls: the image is dropped after 30 not-ready attempts, and `append` is never called |
| `Mp4Writer.Samples` | ConvertGif/ConverterImageFile.swift:72-104 | the samples the writer accepts among the first `n` images, in image order, each with the buffer built at its position and its timestamp; never more samples than images |
| `Mp4Writer.SamplesWellFormed` | ConvertGif/ConverterImageFile.swift:76-104 | every accepted sample belongs to an image whose attempts ended in an accepted append, carries the buffer built at its position, and is stamped `3 * frame` ticks |
| `Mp4Writer.SamplesIncreasing` | ConvertGif/ConverterImageFile.swift:72-104 | accepted samples come in strictly increasing image order, so their timestamps strictly increase; dropped images leave gaps |
| `Mp4Writer.SamplesComplete` | ConvertGif/ConverterImageFile.swift:76-104 | every image with a buffer whose append was accepted appears among the samples |
| `Mp4Writer.AppendWithRetry` | ConvertGif/ConverterImageFile.swift:79-102 | the retry loop makes exactly the attempts `FrameAttempts` describes; `append_ok` is true exactly when the last attempt was accepted, and only with a buffer; 1 to 30 attempts, 30 on failure |
| `Mp4Writer.WriteFrames` | ConvertGif/ConverterImageFile.swift:72-104 | every image gets a freshly built buffer and its own retry loop at its own timestamp; `frameCount` ends at the number of images; the accepted samples are exactly `Samples` |
| `Converter.EmittedFrames` | ConvertGif/ConverterImageFile.swift:16-42 | the `images` handed to `createMP4file`: the output of `frameArray` on the decoded images and their resolved delays, `sum(delays) / g` frames in all |
| `Converter.ConvertGifFile` | ConvertGif/ConverterImageFile.swift:16-39 | no image source means nothing happens; a decode failure traps at the first frame that fails to decode, every earlier frame having decoded; no animated image means nothing is written; otherwise `sum(delays) / g` images are emitted, each written by the retry loop |
| `Converter.PlayedSlot` | ConvertGif/ConverterImageFile.swift:72-85 | emitted slot `m` starts at `10 * m` centiseconds |
| `Converter.PlayedStart` | ConvertGif/ConverterImageFile.swift:72-85 | the presentation time stamped on image `i`'s first emitted frame: 10 centiseconds for each frame emitted before it; it is where the image's run starts in the video only when that frame's append is accepted |
| `Converter.PlayedStartScaled` | ConvertGif/ConverterImageFile.swift:72-85 | the stamp on image `i`'s first emitted frame, times `g`, equals ten times where the image starts in the GIF |
| `Converter.AcceptedFirstFrameStamp` | ConvertGif/ConverterImageFile.swift:72-104 | an accepted sample that is image `i`'s first emitted frame is written with exactly the stamp `PlayedStart` gives image `i` |
| `Converter.PlayedTimingMatchesIff` | ConvertGif/ConverterImageFile.swift:72-85 | with at least two images, every image's first frame is stamped when the image starts in the GIF if and only if the GCD of the delays is 10 centiseconds |
| `Converter.OneImageAlwaysStartsOnTime` | ConvertGif/ConverterImageFile.swift:72-85 | for every single positive delay `d`, the GCD is `d` and the only first-frame stamp, 0, matches the GIF, so the equivalence needs two images |
| `Converter.HalfTenthDelaysPlayedSlow` | ConvertGif/ConverterImageFile.swift:72-85 | for two frames of 5 centiseconds, the second frame is stamped at 0.1 s where the GIF shows it at 0.05 s |

## Left out

- AVFoundation setup and teardown (lines 52-66, 106-109) is not modelled: `AVAssetWriter` creation, `canAdd`, `add`, `startWriting`, `startSession`, `markAsFinished` and the asynchronous `finishWriting`. These are foreign library calls whose behaviour is not visible. Only the readiness flag and `append`'s result enter the model, as the oracles `ready` and `accepts`.
- `pixelBuffer(from:)` (lines 112-144) is not modelled: CoreVideo allocation and CoreGraphics drawing are library work. Its result for each emitted position, a buffer or nil, is the parameter `render`.
- `Thread.sleep` (line 96) is not modelled, because it is blocking time. A not-ready poll is recorded as a `NotReady` attempt.
- Printing is not modelled: the `print` calls, and the `assetWriter.error` description printed after a failed append (lines 59, 89-95, 100-102). It is logging only.
- File path construction and removal (lines 46-48) are not modelled. They are file system work.
- `FrameTiming.DelayCentiseconds`: takes both delay fields as integer centiseconds. It does not model the `Double` seconds or the `lrint(number.doubleValue * 100)` rounding (line 164). In the code, a positive delay of at most 0.005 s rounds to 0 centiseconds (`0.005 * 100` is exactly 0.5, and `lrint` rounds ties to even), and that 0 later traps `gcd(values:)` with a division by zero. The model cannot produce that 0.
- `FrameTiming.DelayCentiseconds`: assumes the GIF dictionary and both delay keys are present whenever the properties are. In the code, a missing key goes through `unsafeBitCast` of nil (lines 152-159), which is a runtime crash of bridging code.
- `FrameTiming.FrameArray`: requires every delay to be positive, which is what the delay resolver always produces. The Swift code also runs on some lists with non-positive entries (an all-negative list, for one). It does not take the unused `totalDuration` argument, and it treats the `UIImage(cgImage:scale:orientation:)` wrapper (line 176) as the image itself.
- The `Double` duration handed to `UIImage.animatedImage` (line 32) and the doubled `imageSize` (line 34) are not modelled: they are floating point and UIKit work. Whether `animatedImage` returns an image is the parameter `animatedImageMade`, and its `images` (line 42) are taken to be the emitted frames.
- Fixed-width integers: Swift's `Int` is 64 bits and traps on overflow, for example in `totalDuration += delays[i]` (line 28), in `frameCount += 1` (line 103), or in `Int.min % -1` (line 203). The `Int64(value)` conversion at line 85 traps when the `Double` product at line 84 is out of range. The model uses unbounded integers, so it does not model these traps. They need inputs far beyond any GIF.
- `Double(frameCount) * frameDuration` is taken as the exact integer `3 * frameCount`. `30 * 0.1` rounds to exactly 3.0, and the product stays exact for every realistic `frameCount`.
