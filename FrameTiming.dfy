/** The GIF frame-timing path of `Converter`: per-frame delay resolution, the
    collection loop of `convertGifFile` and the GCD frame expansion of
    `frameArray`. Delays are integer centiseconds. */
module FrameTiming {
  import opened Options
  import opened Gcd

  /** The two delay fields of a frame's GIF property dictionary, in centiseconds. */
  datatype GifDelays = GifDelays(unclamped: int, clamped: int)

  /** What the image source yields for one frame index: the decoded image (or
      nothing when decoding fails) and its property dictionary (or nothing). */
  datatype SourceFrame<T> = SourceFrame(image: Option<T>, properties: Option<GifDelays>)

  /** `delayCentisecondsForImageAtIndex`: the unclamped delay unless it is exactly
      zero, in which case the clamped one; a chosen value that is not positive,
      or missing properties, give the default of 1 centisecond. */
  function DelayCentiseconds(properties: Option<GifDelays>): (d: int)
    ensures d >= 1
    ensures properties.None? ==> d == 1
    ensures properties.Some? && properties.value.unclamped > 0 ==> d == properties.value.unclamped
    ensures properties.Some? && properties.value.unclamped < 0 ==> d == 1
    ensures properties.Some? && properties.value.unclamped == 0 && properties.value.clamped > 0 ==>
              d == properties.value.clamped
    ensures properties.Some? && properties.value.unclamped == 0 && properties.value.clamped <= 0 ==> d == 1
  {
    match properties
    case None => 1
    case Some(gif) =>
      var number := if gif.unclamped == 0 then gif.clamped else gif.unclamped;
      if number > 0 then number else 1
  }

  /** Unclamped 0 with clamped 5 resolves to 5; both zero resolves to 1. */
  lemma DelayFallbackExamples()
    ensures DelayCentiseconds(Some(GifDelays(0, 5))) == 5
    ensures DelayCentiseconds(Some(GifDelays(0, 0))) == 1
    ensures DelayCentiseconds(None) == 1
  {
  }

  /** Sum of a sequence, adding entries in order as the accumulation loop does.
      A list of `n` delays of at least one centisecond lasts at least `n`
      centiseconds. */
  function Sum(s: seq<int>): (total: int)
    ensures AllPositive(s) ==> total >= |s|
  {
    if |s| == 0 then 0 else Sum(s[..|s| - 1]) + s[|s| - 1]
  }

  lemma SumAppend(s: seq<int>, x: int)
    ensures Sum(s + [x]) == Sum(s) + x
  {
    assert (s + [x])[..|s|] == s;
  }

  /** What the collection loop of `convertGifFile` ends with: the decoded
      images, their delays and the total duration, or the index `i` at which
      `delays[i]` was read out of bounds (the first frame that did not decode). */
  datatype Collected<T> =
    | Collected(images: seq<T>, delays: seq<int>, totalDuration: int)
    | DelayIndexOutOfRange(index: nat)

  predicate AllDecoded<T>(source: seq<SourceFrame<T>>)
  {
    forall i :: 0 <= i < |source| ==> source[i].image.Some?
  }

  /** The images of a source that decodes completely, in order. */
  function DecodedImages<T>(source: seq<SourceFrame<T>>): (images: seq<T>)
    requires AllDecoded(source)
    ensures |images| == |source|
    ensures forall i :: 0 <= i < |source| ==> images[i] == source[i].image.value
  {
    seq(|source|, i requires 0 <= i < |source| => source[i].image.value)
  }

  /** The resolved delay of every frame, in order. */
  function ResolvedDelays<T>(source: seq<SourceFrame<T>>): (delays: seq<int>)
    ensures |delays| == |source| && AllPositive(delays)
    ensures forall i :: 0 <= i < |source| ==> delays[i] == DelayCentiseconds(source[i].properties)
  {
    seq(|source|, i requires 0 <= i < |source| => DelayCentiseconds(source[i].properties))
  }

  /** The loop of `convertGifFile` over the frame indices: a decoded image and
      its delay are appended together, then `delays[i]` is added to
      `totalDuration`. At the first frame that does not decode `delays` holds
      exactly `i` entries, so that read is out of bounds and traps. */
  method CollectFrames<T>(source: seq<SourceFrame<T>>) returns (c: Collected<T>)
    ensures c.DelayIndexOutOfRange? <==> !AllDecoded(source)
    ensures c.DelayIndexOutOfRange? ==>
              c.index < |source| && source[c.index].image.None? &&
              forall i :: 0 <= i < c.index ==> source[i].image.Some?
    ensures c.Collected? ==>
              c.images == DecodedImages(source) && c.delays == ResolvedDelays(source) &&
              c.totalDuration == Sum(c.delays) && c.totalDuration >= |source|
  {
    var images: seq<T> := [];
    var delays: seq<int> := [];
    var totalDuration := 0;
    for i := 0 to |source|
      invariant |images| == |delays| == i
      invariant forall k :: 0 <= k < i ==> source[k].image.Some?
      invariant forall k :: 0 <= k < i ==> images[k] == source[k].image.value
      invariant delays == ResolvedDelays(source[..i])
      invariant totalDuration == Sum(delays)
    {
      if source[i].image.Some? {
        images := images + [source[i].image.value];
        SumAppend(delays, DelayCentiseconds(source[i].properties));
        delays := delays + [DelayCentiseconds(source[i].properties)];
        assert source[..i + 1][..i] == source[..i];
      }
      if i >= |delays| {
        return DelayIndexOutOfRange(i);
      }
      totalDuration := totalDuration + delays[i];
    }
    assert source[..|source|] == source;
    return Collected(images, delays, totalDuration);
  }

  /** `n` copies of `x`. */
  function Repeat<T>(x: T, n: nat): (r: seq<T>)
    ensures |r| == n
    ensures forall j :: 0 <= j < n ==> r[j] == x
  {
    if n == 0 then [] else Repeat(x, n - 1) + [x]
  }

  /** Image `i` repeated `counts[i]` times, block after block in input order;
      the expansion is as long as all its blocks together. */
  function Expand<T>(images: seq<T>, counts: seq<nat>): (frames: seq<T>)
    requires |images| <= |counts|
    ensures |frames| == Offset(counts, |images|)
  {
    if |images| == 0 then []
    else Expand(images[..|images| - 1], counts) + Repeat(images[|images| - 1], counts[|images| - 1])
  }

  /** Sum of the first `n` repeat counts: where block `n` starts. When every
      earlier block has at least one slot, block `n` starts at slot `n` or later. */
  function Offset(counts: seq<nat>, n: nat): (start: nat)
    requires n <= |counts|
    ensures (forall i :: 0 <= i < n ==> counts[i] >= 1) ==> start >= n
  {
    if n == 0 then 0 else Offset(counts, n - 1) + counts[n - 1]
  }

  /** Position `Offset(counts, i) + j` holds image `i` for every `j < counts[i]`:
      image `i` fills one run of `counts[i]` consecutive slots, and the runs
      follow the input order. */
  lemma {:induction false} ExpandBlock<T>(images: seq<T>, counts: seq<nat>, i: nat, j: nat)
    requires |images| <= |counts| && i < |images| && j < counts[i]
    ensures Offset(counts, i) + j < |Expand(images, counts)|
    ensures Expand(images, counts)[Offset(counts, i) + j] == images[i]
  {
    var n := |images| - 1;
    if i < n {
      ExpandBlock(images[..n], counts, i, j);
      OffsetMonotone(counts, i + 1, n);
    }
  }

  lemma {:induction false} OffsetMonotone(counts: seq<nat>, m: nat, n: nat)
    requires m <= n <= |counts|
    ensures Offset(counts, m) <= Offset(counts, n)
    decreases n - m
  {
    if m < n {
      OffsetMonotone(counts, m, n - 1);
    }
  }

  /** The repeat count of every image: its delay divided by the GCD of all delays. */
  function RepeatCounts(delays: seq<int>): (counts: seq<nat>)
    requires AllPositive(delays)
    ensures |counts| == |delays|
    ensures forall i :: 0 <= i < |delays| ==> counts[i] == delays[i] / GcdOfValues(delays)
  {
    GcdOfValuesPositive(delays);
    Quotients(delays, GcdOfValues(delays))
  }

  /** Each delay divided by `g`. */
  function Quotients(delays: seq<int>, g: int): (q: seq<nat>)
    requires AllPositive(delays) && g > 0
    ensures |q| == |delays|
    ensures forall i :: 0 <= i < |delays| ==> q[i] == delays[i] / g
  {
    seq(|delays|, i requires 0 <= i < |delays| => delays[i] / g)
  }

  /** Every image gets at least one slot, since the GCD divides each delay. */
  lemma RepeatCountsPositive(delays: seq<int>, i: nat)
    requires AllPositive(delays) && i < |delays|
    ensures RepeatCounts(delays)[i] >= 1
  {
    GcdOfValuesPositive(delays);
    GcdOfValuesIsGcd(delays);
    var g := GcdOfValues(delays);
    assert Divides(g, delays[i]);
    DividesBound(g, delays[i]);
  }

  /** Dividing a multiple of a positive `g` by `g` is exact. */
  lemma DivOfMultiple(g: int, k: int)
    requires g > 0
    ensures (g * k) / g == k
  {
    var q := (g * k) / g;
    var r := (g * k) % g;
    assert g * k == g * q + r;
    assert g * (k - q) == r;
    if k - q >= 1 {
      ProductAtLeastFactor(g, k - q);
    } else if k - q <= -1 {
      ProductAtLeastFactor(g, q - k);
    }
  }

  /** When `g` divides `x`, `x / g * g == x`. */
  lemma ExactQuotient(x: int, g: int)
    requires g > 0 && Divides(g, x)
    ensures x / g * g == x
  {
    var k :| x == g * k;
    DivOfMultiple(g, k);
  }

  /** Block `i` is `delays[i]` centiseconds long: `counts[i]` slots of `g` each. */
  lemma CountTimesGcd(delays: seq<int>, i: nat)
    requires AllPositive(delays) && i < |delays|
    ensures RepeatCounts(delays)[i] * GcdOfValues(delays) == delays[i]
  {
    GcdOfValuesPositive(delays);
    GcdOfValuesIsGcd(delays);
    ExactQuotient(delays[i], GcdOfValues(delays));
  }

  lemma MulDistributes(a: int, b: int, g: int)
    ensures (a + b) * g == a * g + b * g
  {
  }

  /** Blocks of `counts[i]` slots of `g` each, with `counts[i] * g == ds[i]`,
      together last as long as the first `n` entries of `ds`. */
  lemma {:induction false} OffsetTimesFactor(counts: seq<nat>, ds: seq<int>, g: int, n: nat)
    requires |counts| == |ds| && n <= |ds|
    requires forall i :: 0 <= i < |ds| ==> counts[i] * g == ds[i]
    ensures Offset(counts, n) * g == Sum(ds[..n])
  {
    if n > 0 {
      OffsetTimesFactor(counts, ds, g, n - 1);
      assert ds[..n][..n - 1] == ds[..n - 1];
      assert Sum(ds[..n]) == Sum(ds[..n - 1]) + ds[n - 1];
      MulDistributes(Offset(counts, n - 1), counts[n - 1], g);
    }
  }

  /** The blocks together last as long as the delays. */
  lemma OffsetTimesGcd(delays: seq<int>, n: nat)
    requires AllPositive(delays) && n <= |delays|
    ensures Offset(RepeatCounts(delays), n) * GcdOfValues(delays) == Sum(delays[..n])
  {
    forall i | 0 <= i < |delays|
      ensures RepeatCounts(delays)[i] * GcdOfValues(delays) == delays[i]
    {
      CountTimesGcd(delays, i);
    }
    OffsetTimesFactor(RepeatCounts(delays), delays, GcdOfValues(delays), n);
  }

  /** The number of frames `frameArray` emits: the sum of `delays[i] / g`, which
      is `Sum(delays) / g` for `g` the GCD of the delays. */
  lemma FrameCount<T>(images: seq<T>, delays: seq<int>)
    requires |images| == |delays| && AllPositive(delays)
    ensures |Expand(images, RepeatCounts(delays))| == Offset(RepeatCounts(delays), |delays|)
    ensures |Expand(images, RepeatCounts(delays))| == Sum(delays) / GcdOfValues(delays)
  {
    var g := GcdOfValues(delays);
    GcdOfValuesPositive(delays);
    OffsetTimesGcd(delays, |delays|);
    assert delays[..|delays|] == delays;
    var n := Offset(RepeatCounts(delays), |delays|);
    assert Sum(delays) == g * n;
    DivOfMultiple(g, n);
  }

  /** `frameArray`: each image `i` is appended `delays[i] / g` times in a row,
      for `g` the GCD of all delays. The index `delays[i]` requires at least as
      many delays as images; `gcd(values:)` requires nonzero delays, and the
      range `0 ..< delays[i]/g` a non-negative bound. */
  method FrameArray<T>(images: seq<T>, delays: seq<int>) returns (frames: seq<T>)
    requires |images| <= |delays| && AllPositive(delays)
    ensures frames == Expand(images, RepeatCounts(delays))
    ensures |frames| == Offset(RepeatCounts(delays), |images|)
    ensures |images| == |delays| ==> |frames| == Sum(delays) / GcdOfValues(delays)
  {
    var counts := RepeatCounts(delays);
    var delayGCD := GcdValues(delays);
    frames := [];
    for i := 0 to |images|
      invariant frames == Expand(images[..i], counts)
    {
      var frame := images[i];
      for r := 0 to delays[i] / delayGCD
        invariant frames == Expand(images[..i], counts) + Repeat(frame, r)
      {
        frames := frames + [frame];
      }
      assert images[..i + 1][..i] == images[..i];
    }
    assert images[..|images|] == images;
    if |images| == |delays| {
      FrameCount(images, delays);
    }
  }
}
