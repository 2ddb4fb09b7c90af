/** `Converter.convertGifFile` followed by `createMP4file`: collect the frames
    and their delays, expand them by the GCD of the delays, and hand the
    expanded list to the write loop, which stamps emitted frame `m` at `3 * m`
    ticks (0.1 s per emitted frame). */
module Converter {
  import opened Options
  import opened Gcd
  import opened FrameTiming
  import opened Mp4Writer

  /** How a conversion ends. */
  datatype Conversion<B> =
    | NoImageSource                      // the GIF or its image source could not be opened: nothing is done
    | DelayReadOutOfBounds(index: nat)   // `delays[i]` read past the end: the program traps
    | NoAnimatedImage                    // `UIImage.animatedImage` gave nothing: no file is written
    | Written(reports: seq<seq<Attempt>>, samples: seq<Sample<B>>, frameCount: nat)

  /** The images `frameArray` emits for a source that decodes completely. */
  function EmittedFrames<T>(source: seq<SourceFrame<T>>): (frames: seq<T>)
    requires AllDecoded(source)
    ensures |frames| == Sum(ResolvedDelays(source)) / GcdOfValues(ResolvedDelays(source))
  {
    FrameCount(DecodedImages(source), ResolvedDelays(source));
    Expand(DecodedImages(source), RepeatCounts(ResolvedDelays(source)))
  }

  /** The whole conversion. `imageSource` is what opening the bundled GIF gives,
      `animatedImageMade` whether `UIImage.animatedImage` returns an image (whose
      `images` are then the emitted frames), `render(k, image)` the pixel buffer
      built for the image emitted at position `k` (built afresh for every
      repeat, so it may fail on one repeat and not another), and `ready` /
      `accepts` the writer's answers. */
  method ConvertGifFile<T, B>(imageSource: Option<seq<SourceFrame<T>>>, animatedImageMade: bool,
                              render: (nat, T) -> Option<B>,
                              ready: (nat, nat) -> bool, accepts: (nat, nat) -> bool)
    returns (c: Conversion<B>)
    ensures c.NoImageSource? <==> imageSource.None?
    ensures imageSource.Some? ==> (c.DelayReadOutOfBounds? <==> !AllDecoded(imageSource.value))
    ensures c.DelayReadOutOfBounds? ==>
              imageSource.Some? && c.index < |imageSource.value| && imageSource.value[c.index].image.None? &&
              forall i :: 0 <= i < c.index ==> imageSource.value[i].image.Some?
    ensures c.NoAnimatedImage? <==> imageSource.Some? && AllDecoded(imageSource.value) && !animatedImageMade
    ensures c.Written? ==>
              imageSource.Some? && AllDecoded(imageSource.value) &&
              var frames := EmittedFrames(imageSource.value);
              var delays := ResolvedDelays(imageSource.value);
              c.frameCount == |frames| == Sum(delays) / GcdOfValues(delays) &&
              |c.reports| == |frames| &&
              (forall k :: 0 <= k < |frames| ==>
                 c.reports[k] == FrameAttempts(k, render(k, frames[k]).Some?, ready, accepts)) &&
              c.samples == Samples(frames, render, ready, accepts, |frames|)
  {
    if imageSource.None? {
      return NoImageSource;
    }
    var collected := CollectFrames(imageSource.value);
    if collected.DelayIndexOutOfRange? {
      return DelayReadOutOfBounds(collected.index);
    }
    var frames := FrameArray(collected.images, collected.delays);
    if !animatedImageMade {
      return NoAnimatedImage;
    }
    var reports, samples, frameCount := WriteFrames(frames, render, ready, accepts);
    return Written(reports, samples, frameCount);
  }

  /** A presentation time at timescale `Fps`, in centiseconds. */
  function TicksToCentiseconds(ticks: int): int
  {
    ticks * 100 / Fps
  }

  /** The presentation time, in centiseconds, stamped on the first emitted frame
      of image `i`: its first slot, at 0.1 s per slot. It is where the image's
      run starts in the written video only when that frame's append is
      accepted (`AcceptedFirstFrameStamp`); when it is dropped, the run starts
      at a later slot, or the image does not appear at all. */
  function PlayedStart(delays: seq<int>, i: nat): (start: int)
    requires AllPositive(delays) && i <= |delays|
    ensures start == 10 * Offset(RepeatCounts(delays), i)
  {
    PlayedSlot(Offset(RepeatCounts(delays), i));
    TicksToCentiseconds(PresentationTicks(Offset(RepeatCounts(delays), i)))
  }

  /** Slot `m` starts at `10 * m` centiseconds. */
  lemma PlayedSlot(m: nat)
    ensures TicksToCentiseconds(PresentationTicks(m)) == 10 * m
  {
    assert PresentationTicks(m) * 100 == Fps * (10 * m);
    DivOfMultiple(Fps, 10 * m);
  }

  /** As written, every emitted frame is stamped 0.1 s after the previous one
      whatever the GCD `g`, so the stamps are the GIF's timing scaled by
      `10 / g`: the first frame of image `i` is stamped at `10 / g` times the
      sum of the delays before it. */
  lemma PlayedStartScaled(delays: seq<int>, i: nat)
    requires AllPositive(delays) && i <= |delays|
    ensures PlayedStart(delays, i) * GcdOfValues(delays) == 10 * Sum(delays[..i])
  {
    OffsetTimesGcd(delays, i);
    ScaleByTen(Offset(RepeatCounts(delays), i), GcdOfValues(delays), Sum(delays[..i]));
  }

  /** `o * g == s` gives `(10 * o) * g == 10 * s`. */
  lemma ScaleByTen(o: int, g: int, s: int)
    requires o * g == s
    ensures (10 * o) * g == 10 * s
  {
    assert (10 * o) * g == 10 * (o * g);
  }

  /** A positive factor cancels: `total * g == total * 10` forces `g == 10`. */
  lemma CancelPositive(total: int, g: int)
    requires total > 0 && total * g == total * 10
    ensures g == 10
  {
    if g > 10 {
      assert total * (g - 10) == total * g - total * 10;
      ProductAtLeastFactor(total, g - 10);
    } else if g < 10 {
      assert total * (10 - g) == total * 10 - total * g;
      ProductAtLeastFactor(total, 10 - g);
    }
  }

  /** The code stamps only the start of each emitted frame (it never sets an
      end time for the session), so the stamps can be compared with the GIF's
      timing only at the start of each image. Once there are two images, the
      first frame of every image is stamped when the image starts in the GIF
      exactly when the GCD of the delays is 10 centiseconds. */
  lemma PlayedTimingMatchesIff(delays: seq<int>)
    requires AllPositive(delays) && |delays| >= 2
    ensures (forall i :: 0 <= i < |delays| ==> PlayedStart(delays, i) == Sum(delays[..i])) <==>
              GcdOfValues(delays) == 10
  {
    var g := GcdOfValues(delays);
    var n := |delays|;
    if g == 10 {
      forall i | 0 <= i < n
        ensures PlayedStart(delays, i) == Sum(delays[..i])
      {
        PlayedStartScaled(delays, i);
      }
    } else if PlayedStart(delays, n - 1) == Sum(delays[..n - 1]) {
      PlayedStartScaled(delays, n - 1);
      assert AllPositive(delays[..n - 1]);
      CancelPositive(Sum(delays[..n - 1]), g);
    }
  }

  /** With a single image the only first-frame stamp is 0, which matches the
      GIF whatever the delay, so the equivalence above needs two images: `[d]`
      has GCD `d` (5, say, not 10) and is still stamped on time. */
  lemma OneImageAlwaysStartsOnTime(d: int)
    requires d > 0
    ensures GcdOfValues([d]) == d
    ensures PlayedStart([d], 0) == Sum([d][..0]) == 0
  {
    GcdOfValuesSingle(d);
  }

  /** Ties the stamps to what is written: an accepted sample that is the first
      emitted frame of image `i` carries exactly the stamp `PlayedStart` gives
      image `i`. */
  lemma AcceptedFirstFrameStamp<T, B>(source: seq<SourceFrame<T>>, render: (nat, T) -> Option<B>,
                                      ready: (nat, nat) -> bool, accepts: (nat, nat) -> bool, i: nat, m: nat)
    requires AllDecoded(source) && i < |source|
    requires m < |Samples(EmittedFrames(source), render, ready, accepts, |EmittedFrames(source)|)|
    requires Samples(EmittedFrames(source), render, ready, accepts, |EmittedFrames(source)|)[m].frame ==
               Offset(RepeatCounts(ResolvedDelays(source)), i)
    ensures TicksToCentiseconds(Samples(EmittedFrames(source), render, ready, accepts, |EmittedFrames(source)|)[m].ticks) ==
              PlayedStart(ResolvedDelays(source), i)
  {
    var frames := EmittedFrames(source);
    SamplesWellFormed(frames, render, ready, accepts, |frames|);
    var s := Samples(frames, render, ready, accepts, |frames|)[m];
    assert s.ticks == PresentationTicks(s.frame);
    PlayedSlot(s.frame);
  }

  /** Two frames of 5 centiseconds: the GIF shows the second at 0.05 s, the
      video stamps it at 0.1 s. */
  lemma HalfTenthDelaysPlayedSlow()
    ensures GcdOfValues([5, 5]) == 5
    ensures RepeatCounts([5, 5]) == [1, 1]
    ensures PlayedStart([5, 5], 1) == 10 && Sum([5, 5][..1]) == 5
  {
    var delays := [5, 5];
    assert GcdPrefix(delays, 0) == 5;
    GcdOfSelf(5);
    assert GcdPrefix(delays, 1) == 5;
    assert GcdPrefix(delays, 2) == 5;
    assert RepeatCounts(delays)[0] == 1 && RepeatCounts(delays)[1] == 1;
    PlayedStartScaled(delays, 1);
    assert delays[..1] == [5];
  }
}
