/** The write loop of `Converter.createMP4file`: every image gets a fixed
    presentation time and up to 30 attempts to be appended. The writer's
    readiness flag and the result of `append` are oracles, indexed by the
    image position `k` and the attempt number `j`; since the loop itself is
    deterministic, any behaviour of the writer can be written this way. */
module Mp4Writer {
  import opened Options

  /** `fps`: the timescale of every presentation time, in ticks per second. */
  const Fps: int := 30

  /** `frameDuration = Double(fps) * 0.1` evaluates to exactly 3.0, so every
      image advances the presentation time by 3 ticks (0.1 s). */
  const FrameDurationTicks: int := 3

  /** The bound of the retry loop `while !append_ok && j < 30`. */
  const MaxAttempts: nat := 30

  /** What one pass of the retry loop did: the input was not ready (the loop
      sleeps); it was ready but there was no pixel buffer; or `append` was
      called with presentation time `ticks` and returned `ok`. */
  datatype Attempt = NotReady | ReadyWithoutBuffer | Appended(ticks: int, ok: bool)

  /** An image the writer accepted: its position, its pixel buffer and its
      presentation time in ticks at timescale `Fps`. */
  datatype Sample<B> = Sample(frame: nat, buffer: B, ticks: int)

  predicate Succeeded(a: Attempt)
  {
    a.Appended? && a.ok
  }

  /** The attempts of one image ended with an accepted append. */
  predicate FrameAppended(attempts: seq<Attempt>)
  {
    |attempts| > 0 && Succeeded(attempts[|attempts| - 1])
  }

  /** `CMTimeMake(value: Int64(Double(frameCount) * frameDuration), timescale: fps)`. */
  function PresentationTicks(frameCount: nat): (ticks: int)
    ensures ticks == 3 * frameCount && ticks * 10 == frameCount * Fps
  {
    frameCount * FrameDurationTicks
  }

  /** Attempt `j` on image `k`: poll readiness, and only when ready and a buffer
      exists call `append`. */
  function AttemptOutcome(k: nat, j: nat, hasBuffer: bool,
                          ready: (nat, nat) -> bool, accepts: (nat, nat) -> bool): (a: Attempt)
    ensures a.NotReady? <==> !ready(k, j)
    ensures a.Appended? <==> ready(k, j) && hasBuffer
    ensures a.Appended? ==> a.ticks == 3 * k
    ensures Succeeded(a) <==> ready(k, j) && hasBuffer && accepts(k, j)
  {
    if !ready(k, j) then NotReady
    else if !hasBuffer then ReadyWithoutBuffer
    else Appended(PresentationTicks(k), accepts(k, j))
  }

  /** The outcome each of the 30 attempts on image `k` has when it is made. */
  function Outcomes(k: nat, hasBuffer: bool,
                    ready: (nat, nat) -> bool, accepts: (nat, nat) -> bool): (s: seq<Attempt>)
    ensures |s| == MaxAttempts
    ensures forall j :: 0 <= j < MaxAttempts ==> s[j] == AttemptOutcome(k, j, hasBuffer, ready, accepts)
  {
    seq(MaxAttempts, j requires 0 <= j < MaxAttempts => AttemptOutcome(k, j, hasBuffer, ready, accepts))
  }

  /** The attempts of `s` up to and including the first accepted append. */
  function TakeThroughAccepted(s: seq<Attempt>): (kept: seq<Attempt>)
    ensures |kept| <= |s|
    ensures |s| > 0 ==> |kept| >= 1
  {
    if |s| == 0 then []
    else if Succeeded(s[0]) then [s[0]]
    else [s[0]] + TakeThroughAccepted(s[1..])
  }

  /** All attempts the retry loop makes on image `k`: it stops after the first
      accepted append or when the budget of 30 is spent. */
  function FrameAttempts(k: nat, hasBuffer: bool,
                         ready: (nat, nat) -> bool, accepts: (nat, nat) -> bool): (attempts: seq<Attempt>)
    ensures 1 <= |attempts| <= MaxAttempts
  {
    TakeThroughAccepted(Outcomes(k, hasBuffer, ready, accepts))
  }

  /** The attempts kept from `s` are a prefix of `s`, with no accepted append before the last, and they end with an accepted
      append or are all of `s`. */
  lemma {:induction false} TakeThroughAcceptedShape(s: seq<Attempt>)
    ensures TakeThroughAccepted(s) == s[..|TakeThroughAccepted(s)|]
    ensures forall t :: 0 <= t < |TakeThroughAccepted(s)| - 1 ==> !Succeeded(TakeThroughAccepted(s)[t])
    ensures FrameAppended(TakeThroughAccepted(s)) || TakeThroughAccepted(s) == s
  {
    if |s| > 0 && !Succeeded(s[0]) {
      TakeThroughAcceptedShape(s[1..]);
      var rest := TakeThroughAccepted(s[1..]);
      assert TakeThroughAccepted(s) == [s[0]] + rest;
      assert s[..1 + |rest|] == [s[0]] + s[1..][..|rest|];
      forall t | 0 <= t < |rest|
        ensures !Succeeded(([s[0]] + rest)[t])
      {
        if t > 0 {
          assert ([s[0]] + rest)[t] == rest[t - 1];
        }
      }
    }
  }

  /** One step of the retry loop: with the first `j` attempts made and none of
      them accepted, making attempt `j` either ends the loop with all attempts
      made (when it is accepted) or leaves the rest to attempts `j + 1` on. */
  lemma RetryStep(s: seq<Attempt>, attempts: seq<Attempt>, j: nat)
    requires j < |s| && |attempts| == j
    requires attempts + TakeThroughAccepted(s[j..]) == TakeThroughAccepted(s)
    ensures FrameAppended(attempts + [s[j]]) == Succeeded(s[j])
    ensures Succeeded(s[j]) ==> attempts + [s[j]] == TakeThroughAccepted(s)
    ensures !Succeeded(s[j]) ==> (attempts + [s[j]]) + TakeThroughAccepted(s[j + 1..]) == TakeThroughAccepted(s)
  {
    assert s[j..][0] == s[j];
    assert s[j..][1..] == s[j + 1..];
    if !Succeeded(s[j]) {
      assert TakeThroughAccepted(s[j..]) == [s[j]] + TakeThroughAccepted(s[j + 1..]);
      assert (attempts + [s[j]]) + TakeThroughAccepted(s[j + 1..]) == attempts + ([s[j]] + TakeThroughAccepted(s[j + 1..]));
    }
  }

  /** When no append was accepted the retry loop ran all 30 attempts (`j == 30`
      on exit); that it runs 1 to 30 times is `FrameAttempts`' own contract. */
  lemma RetryBudget(k: nat, hasBuffer: bool, ready: (nat, nat) -> bool, accepts: (nat, nat) -> bool)
    ensures !FrameAppended(FrameAttempts(k, hasBuffer, ready, accepts)) ==>
              |FrameAttempts(k, hasBuffer, ready, accepts)| == MaxAttempts
  {
    TakeThroughAcceptedShape(Outcomes(k, hasBuffer, ready, accepts));
  }

  /** Attempt `t` polls readiness once: a not-ready poll never calls `append`,
      with no buffer `append` is never called, and every call carries the same
      presentation time `3 * k`, on every retry. */
  lemma AttemptsFollowPolls(k: nat, hasBuffer: bool, ready: (nat, nat) -> bool, accepts: (nat, nat) -> bool, t: nat)
    requires t < |FrameAttempts(k, hasBuffer, ready, accepts)|
    ensures FrameAttempts(k, hasBuffer, ready, accepts)[t].NotReady? <==> !ready(k, t)
    ensures FrameAttempts(k, hasBuffer, ready, accepts)[t].Appended? <==> ready(k, t) && hasBuffer
    ensures FrameAttempts(k, hasBuffer, ready, accepts)[t].Appended? ==>
              FrameAttempts(k, hasBuffer, ready, accepts)[t] == Appended(3 * k, accepts(k, t))
  {
    TakeThroughAcceptedShape(Outcomes(k, hasBuffer, ready, accepts));
  }

  /** The loop stops right after the first accepted append, so at most one
      append per image is accepted; a rejected append is retried at once, without
      the sleep a not-ready poll takes, while budget remains. */
  lemma AtMostOneAccepted(k: nat, hasBuffer: bool, ready: (nat, nat) -> bool, accepts: (nat, nat) -> bool, t: nat)
    requires t < |FrameAttempts(k, hasBuffer, ready, accepts)|
    ensures Succeeded(FrameAttempts(k, hasBuffer, ready, accepts)[t]) ==>
              t == |FrameAttempts(k, hasBuffer, ready, accepts)| - 1
    ensures !Succeeded(FrameAttempts(k, hasBuffer, ready, accepts)[t]) && t < MaxAttempts - 1 ==>
              t + 1 < |FrameAttempts(k, hasBuffer, ready, accepts)|
  {
    TakeThroughAcceptedShape(Outcomes(k, hasBuffer, ready, accepts));
  }

  /** An image is appended exactly when, within the 30 attempts, one poll finds
      the input ready with a buffer present and `append` accepts it. In
      particular an image without a pixel buffer is never appended. */
  lemma AppendedIff(k: nat, hasBuffer: bool, ready: (nat, nat) -> bool, accepts: (nat, nat) -> bool)
    ensures FrameAppended(FrameAttempts(k, hasBuffer, ready, accepts)) <==>
              exists t :: 0 <= t < MaxAttempts && hasBuffer && ready(k, t) && accepts(k, t)
  {
    var attempts := FrameAttempts(k, hasBuffer, ready, accepts);
    TakeThroughAcceptedShape(Outcomes(k, hasBuffer, ready, accepts));
    if FrameAppended(attempts) {
      var t := |attempts| - 1;
      assert attempts[t] == AttemptOutcome(k, t, hasBuffer, ready, accepts);
    } else {
      forall t | 0 <= t < MaxAttempts
        ensures !(hasBuffer && ready(k, t) && accepts(k, t))
      {
        assert attempts[t] == AttemptOutcome(k, t, hasBuffer, ready, accepts);
      }
    }
  }

  /** Backpressure: an input that is not ready for the first 29 polls and ready
      on the 30th still gets the image appended, within the budget. */
  lemma ReadyOnLastPoll(k: nat, hasBuffer: bool, ready: (nat, nat) -> bool, accepts: (nat, nat) -> bool)
    requires hasBuffer
    requires forall t :: 0 <= t < MaxAttempts - 1 ==> !ready(k, t)
    requires ready(k, MaxAttempts - 1) && accepts(k, MaxAttempts - 1)
    ensures FrameAppended(FrameAttempts(k, hasBuffer, ready, accepts))
    ensures |FrameAttempts(k, hasBuffer, ready, accepts)| == MaxAttempts
  {
    AppendedIff(k, hasBuffer, ready, accepts);
    RetryBudget(k, hasBuffer, ready, accepts);
    var attempts := FrameAttempts(k, hasBuffer, ready, accepts);
    TakeThroughAcceptedShape(Outcomes(k, hasBuffer, ready, accepts));
    var t := |attempts| - 1;
    assert attempts[t] == AttemptOutcome(k, t, hasBuffer, ready, accepts);
  }

  /** An input that is never ready within the 30 polls drops the image: all 30
      attempts are spent sleeping and `append` is never called. */
  lemma NeverReadyDropsFrame(k: nat, hasBuffer: bool, ready: (nat, nat) -> bool, accepts: (nat, nat) -> bool)
    requires forall t :: 0 <= t < MaxAttempts ==> !ready(k, t)
    ensures !FrameAppended(FrameAttempts(k, hasBuffer, ready, accepts))
    ensures FrameAttempts(k, hasBuffer, ready, accepts) == Outcomes(k, hasBuffer, ready, accepts)
    ensures forall t :: 0 <= t < MaxAttempts ==> FrameAttempts(k, hasBuffer, ready, accepts)[t] == NotReady
  {
    AppendedIff(k, hasBuffer, ready, accepts);
    TakeThroughAcceptedShape(Outcomes(k, hasBuffer, ready, accepts));
  }

  /** The images the writer accepts among the first `n`, in order, each with the
      pixel buffer built for it at its position and its presentation time;
      there are never more samples than images. */
  function Samples<T, B>(images: seq<T>, render: (nat, T) -> Option<B>,
                         ready: (nat, nat) -> bool, accepts: (nat, nat) -> bool, n: nat): (samples: seq<Sample<B>>)
    requires n <= |images|
    ensures |samples| <= n
  {
    if n == 0 then []
    else
      var k := n - 1;
      var rest := Samples(images, render, ready, accepts, k);
      var buffer := render(k, images[k]);
      if buffer.Some? && FrameAppended(FrameAttempts(k, buffer.Some?, ready, accepts))
      then rest + [Sample(k, buffer.value, PresentationTicks(k))]
      else rest
  }

  /** Every accepted sample comes from an image among the first `n` whose attempts
      ended with an accepted append, carries the buffer built at its position, and is stamped
      `3 * frame` ticks: a dropped image leaves a gap of 3 ticks. */
  lemma {:induction false} SamplesWellFormed<T, B>(images: seq<T>, render: (nat, T) -> Option<B>,
                                                  ready: (nat, nat) -> bool, accepts: (nat, nat) -> bool, n: nat)
    requires n <= |images|
    ensures forall m :: 0 <= m < |Samples(images, render, ready, accepts, n)| ==>
              var s := Samples(images, render, ready, accepts, n)[m];
              s.frame < n && s.ticks == 3 * s.frame && render(s.frame, images[s.frame]) == Some(s.buffer) &&
              FrameAppended(FrameAttempts(s.frame, render(s.frame, images[s.frame]).Some?, ready, accepts))
  {
    if n > 0 {
      SamplesWellFormed(images, render, ready, accepts, n - 1);
    }
  }

  /** Accepted samples are in strictly increasing image order, so their
      presentation times strictly increase. */
  lemma {:induction false} SamplesIncreasing<T, B>(images: seq<T>, render: (nat, T) -> Option<B>,
                                                  ready: (nat, nat) -> bool, accepts: (nat, nat) -> bool, n: nat)
    requires n <= |images|
    ensures forall m1, m2 :: 0 <= m1 < m2 < |Samples(images, render, ready, accepts, n)| ==>
              Samples(images, render, ready, accepts, n)[m1].frame < Samples(images, render, ready, accepts, n)[m2].frame &&
              Samples(images, render, ready, accepts, n)[m1].ticks < Samples(images, render, ready, accepts, n)[m2].ticks
  {
    if n > 0 {
      SamplesIncreasing(images, render, ready, accepts, n - 1);
      SamplesWellFormed(images, render, ready, accepts, n - 1);
    }
  }

  /** Conversely, every image among the first `n` that has a pixel buffer and
      whose attempts ended with an accepted append appears among the samples. */
  lemma {:induction false} SamplesComplete<T, B>(images: seq<T>, render: (nat, T) -> Option<B>,
                                                ready: (nat, nat) -> bool, accepts: (nat, nat) -> bool, n: nat, k: nat)
    requires k < n <= |images|
    requires render(k, images[k]).Some? && FrameAppended(FrameAttempts(k, render(k, images[k]).Some?, ready, accepts))
    ensures exists m :: 0 <= m < |Samples(images, render, ready, accepts, n)| &&
              Samples(images, render, ready, accepts, n)[m].frame == k
  {
    var rest := Samples(images, render, ready, accepts, n - 1);
    var all := Samples(images, render, ready, accepts, n);
    if k == n - 1 {
      assert all == rest + [Sample(k, render(k, images[k]).value, PresentationTicks(k))];
      assert all[|rest|].frame == k;
    } else {
      SamplesComplete(images, render, ready, accepts, n - 1, k);
      var m :| 0 <= m < |rest| && rest[m].frame == k;
      assert all[..|rest|] == rest;
      assert all[m] == rest[m];
    }
  }

  /** The retry loop `while !append_ok && j < 30` for the image at position
      `frameCount`: poll readiness; when ready compute the presentation time
      and, when there is a buffer, call `append`; a not-ready poll sleeps
      instead. Every pass, including a rejected append, uses up one attempt. */
  method AppendWithRetry<B>(frameCount: nat, buffer: Option<B>,
                            ready: (nat, nat) -> bool, accepts: (nat, nat) -> bool)
    returns (appendOk: bool, attempts: seq<Attempt>)
    ensures attempts == FrameAttempts(frameCount, buffer.Some?, ready, accepts)
    ensures appendOk == FrameAppended(attempts)
    ensures appendOk ==> buffer.Some?
    ensures 1 <= |attempts| <= MaxAttempts
    ensures !appendOk ==> |attempts| == MaxAttempts
  {
    ghost var outcomes := Outcomes(frameCount, buffer.Some?, ready, accepts);
    ghost var expected := TakeThroughAccepted(outcomes);
    RetryBudget(frameCount, buffer.Some?, ready, accepts);
    appendOk := false;
    var j: nat := 0;
    attempts := [];
    while !appendOk && j < MaxAttempts
      invariant j <= MaxAttempts && |attempts| == j
      invariant appendOk == FrameAppended(attempts)
      invariant appendOk ==> attempts == expected && buffer.Some?
      invariant !appendOk ==> attempts + TakeThroughAccepted(outcomes[j..]) == expected
    {
      var attempt: Attempt;
      if ready(frameCount, j) {
        var frameTime := PresentationTicks(frameCount);
        if buffer.Some? {
          appendOk := accepts(frameCount, j);
          attempt := Appended(frameTime, appendOk);
        } else {
          attempt := ReadyWithoutBuffer;
        }
      } else {
        attempt := NotReady;
      }
      assert attempt == outcomes[j];
      RetryStep(outcomes, attempts, j);
      attempts := attempts + [attempt];
      j := j + 1;
    }
    assert !appendOk ==> outcomes[j..] == [];
  }

  /** The loop of `createMP4file` over the images: build the pixel buffer, run
      the retry loop under one presentation time, then advance `frameCount`
      whether or not the append was accepted. Returns the attempts made on each
      image, the samples the writer accepted and the final `frameCount`. */
  method WriteFrames<T, B>(images: seq<T>, render: (nat, T) -> Option<B>,
                           ready: (nat, nat) -> bool, accepts: (nat, nat) -> bool)
    returns (reports: seq<seq<Attempt>>, samples: seq<Sample<B>>, frameCount: nat)
    ensures frameCount == |images| && |reports| == |images|
    ensures forall k :: 0 <= k < |images| ==>
              reports[k] == FrameAttempts(k, render(k, images[k]).Some?, ready, accepts)
    ensures samples == Samples(images, render, ready, accepts, |images|)
  {
    frameCount := 0;
    reports := [];
    samples := [];
    for k := 0 to |images|
      invariant frameCount == k && |reports| == k
      invariant forall m :: 0 <= m < k ==> reports[m] == FrameAttempts(m, render(m, images[m]).Some?, ready, accepts)
      invariant samples == Samples(images, render, ready, accepts, k)
    {
      var buffer := render(k, images[k]);
      var appendOk, attempts := AppendWithRetry(frameCount, buffer, ready, accepts);
      if appendOk {
        samples := samples + [Sample(k, buffer.value, PresentationTicks(frameCount))];
      }
      reports := reports + [attempts];
      frameCount := frameCount + 1;
    }
  }
}
