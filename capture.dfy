/** The frame loop of `capture_screenshots`.

    The emulator is foreign. It appears here only through the calls made to it,
    logged in order, and through an oracle `done` that gives the terminal-state
    flag `step` returns on each 1-based tick. Saving an image appends a
    record to the manifest. */
module Capture {
  import opened Optional
  import opened Naming
  import opened Schedule
  import opened Report

  /** A call made to the emulation environment. */
  datatype EnvCall = Open | Reset | Step | Close

  /** The calls made by ticks 1..n: one step each, followed by a reset whenever
      that step reported a terminal state. */
  function Ticks(done: nat -> bool, n: nat): seq<EnvCall>
  {
    if n == 0 then [] else Ticks(done, n - 1) + TickCalls(done(n))
  }

  /** The calls made by one tick whose step reported `isDone`. */
  function TickCalls(isDone: bool): seq<EnvCall>
  {
    if isDone then [Step, Reset] else [Step]
  }

  /** `frames_to_capture=None` selects the default targets. */
  function Targets(given: Option<seq<int>>): seq<int>
  {
    match given
    case None => DefaultTargets
    case Some(t) => t
  }

  /** `capture_screenshots` for the given targets and budget, against an
      emulator whose step on tick k reports done(k), with `stale` the `*.png`
      names already in the output directory. Returns the final counters, the
      manifest, the calls made to the emulator and the status. */
  method CaptureScreenshots(framesToCapture: Option<seq<int>>, maxFrames: int,
                            done: nat -> bool, stale: set<string>)
    returns (frameCount: nat, screenshotIndex: nat, manifest: seq<Screenshot>,
             calls: seq<EnvCall>, status: int)
    ensures frameCount == FinalFrame(Targets(framesToCapture), maxFrames)
    ensures screenshotIndex == |manifest| == Captured(Targets(framesToCapture), maxFrames)
    ensures manifest == ExpectedManifest(Targets(framesToCapture), maxFrames)
    ensures calls == [Open, Reset] + Ticks(done, frameCount) + [Close]
    ensures status == 0 || status == 1
    ensures status == 0 <==> stale != {} || manifest != []
  {
    var targets := Targets(framesToCapture);
    calls := [Open, Reset];
    var ticks;
    frameCount, screenshotIndex, manifest, ticks := RunFrames(targets, maxFrames, done);
    calls := calls + ticks + [Close];
    StatusOfListing(stale, manifest);
    status := ExitStatus(Listing(stale, manifest));
  }

  /** The frame loop: ticks until the budget is spent or every target is
      taken, saving a screenshot on each tick that reaches the next target.
      Returns the counters, the manifest and the emulator calls of the ticks. */
  method RunFrames(targets: seq<int>, maxFrames: int, done: nat -> bool)
    returns (frameCount: nat, screenshotIndex: nat, manifest: seq<Screenshot>,
             ticks: seq<EnvCall>)
    ensures frameCount == FinalFrame(targets, maxFrames)
    ensures screenshotIndex == |manifest| == Captured(targets, maxFrames)
    ensures manifest == ExpectedManifest(targets, maxFrames)
    ensures ticks == Ticks(done, frameCount)
  {
    screenshotIndex := 0;
    frameCount := 0;
    manifest := [];
    ticks := [];
    while frameCount < maxFrames && screenshotIndex < |targets|
      invariant screenshotIndex <= |targets|
      invariant frameCount <= maxFrames || frameCount == 0
      invariant |targets| == 0 ==> frameCount == 0
      invariant screenshotIndex > 0 ==> CaptureFrame(targets, screenshotIndex - 1) <= frameCount
      invariant screenshotIndex < |targets| ==> frameCount < CaptureFrame(targets, screenshotIndex)
      invariant screenshotIndex == |targets| > 0 ==>
        frameCount == CaptureFrame(targets, screenshotIndex - 1)
      invariant manifest == ShotsUpTo(targets, screenshotIndex)
      invariant ticks == Ticks(done, frameCount)
      decreases maxFrames - frameCount
    {
      var isDone := done(frameCount + 1);
      ticks := ticks + TickCalls(isDone);
      frameCount := frameCount + 1;
      assert ticks == Ticks(done, frameCount);
      if screenshotIndex < |targets| && frameCount >= targets[screenshotIndex] {
        CaptureHits(targets, screenshotIndex, frameCount);
        var filename := ScreenshotName(screenshotIndex + 1, frameCount);
        manifest := manifest + [Screenshot(screenshotIndex + 1, frameCount, filename)];
        screenshotIndex := screenshotIndex + 1;
      }
    }
    LoopExit(targets, maxFrames, frameCount, screenshotIndex);
  }

  /** A capture on tick f for target i happens exactly on its capture frame and
      extends the manifest by that target's record. */
  lemma CaptureHits(t: seq<int>, i: nat, f: nat)
    requires i < |t| && f >= t[i] && f >= 1
    requires f - 1 < CaptureFrame(t, i)
    requires i > 0 ==> CaptureFrame(t, i - 1) <= f - 1
    ensures CaptureFrame(t, i) == f
    ensures ShotsUpTo(t, i + 1) == ShotsUpTo(t, i) + [Screenshot(i + 1, f, ScreenshotName(i + 1, f))]
  {
  }

  /** When the loop condition fails, the counters are those of the closed form. */
  lemma LoopExit(t: seq<int>, b: int, f: nat, i: nat)
    requires i <= |t|
    requires f <= b || f == 0
    requires |t| == 0 ==> f == 0
    requires i > 0 ==> CaptureFrame(t, i - 1) <= f
    requires i < |t| ==> f < CaptureFrame(t, i)
    requires i == |t| > 0 ==> f == CaptureFrame(t, i - 1)
    requires !(f < b && i < |t|)
    ensures i == Captured(t, b) && f == FinalFrame(t, b)
  {
    var c := CaptureFrames(t);
    forall j | 0 <= j < i ensures c[j] <= b {
      if j < i - 1 {
        CaptureFramesIncrease(t, j, i - 1);
      }
    }
    assert i < |c| ==> c[i] > b;
  }

  // ---------------------------------------------------------------------------
  // The emulator's lifecycle

  function Occurrences(s: seq<EnvCall>, x: EnvCall): nat
  {
    multiset(s)[x]
  }

  /** Each tick steps the emulator once and never opens or closes it. */
  lemma {:induction false} TicksShape(done: nat -> bool, n: nat)
    ensures Occurrences(Ticks(done, n), Step) == n
    ensures Occurrences(Ticks(done, n), Open) == 0
    ensures Occurrences(Ticks(done, n), Close) == 0
  {
    if n > 0 {
      TicksShape(done, n - 1);
      var prev, last := Ticks(done, n - 1), TickCalls(done(n));
      assert multiset(Ticks(done, n)) == multiset(prev) + multiset(last);
      assert multiset(last)[Step] == 1 && multiset(last)[Open] == 0 && multiset(last)[Close] == 0;
    }
  }

  /** The emulator is opened and reset before anything else, stepped exactly
      once per counted frame, and closed exactly once, last. */
  lemma Lifecycle(done: nat -> bool, frameCount: nat)
    ensures var calls := [Open, Reset] + Ticks(done, frameCount) + [Close];
      calls[0] == Open && calls[1] == Reset && calls[|calls| - 1] == Close &&
      Occurrences(calls, Open) == 1 && Occurrences(calls, Close) == 1 &&
      Occurrences(calls, Step) == frameCount
  {
    TicksShape(done, frameCount);
    var ticks := Ticks(done, frameCount);
    assert multiset([Open, Reset] + ticks + [Close]) ==
      multiset([Open, Reset]) + multiset(ticks) + multiset([Close]);
  }
}
