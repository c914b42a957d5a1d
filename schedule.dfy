/** The capture schedule that the frame loop of `capture_screenshots` realises,
    written as a closed form over the target list and the frame budget.

    A capture fires on the first tick whose 1-based frame count reaches the
    target under the pointer; the pointer then moves on, so the next target
    can fire no earlier than the following tick. */
module Schedule {
  import opened Naming

  /** The record kept for one saved image. */
  datatype Screenshot = Screenshot(index: nat, frame: nat, filename: string)

  /** Default targets: 1s, 3s, 6s, 10s, 15s, 20s, 25s and 30s at 60 frames per second. */
  const DefaultTargets: seq<int> := [60, 180, 360, 600, 900, 1200, 1500, 1800]

  /** Default frame budget of the command line. */
  const DefaultMaxFrames: int := 1800

  predicate StrictlyIncreasing(t: seq<int>)
  {
    forall k :: 0 < k < |t| ==> t[k - 1] < t[k]
  }

  predicate Positive(t: seq<int>)
  {
    forall k :: 0 <= k < |t| ==> t[k] >= 1
  }

  /** The frame count at which target k is captured when the budget is unlimited:
      the first tick after the previous capture that reaches t[k]. */
  function CaptureFrame(t: seq<int>, k: nat): (r: nat)
    requires k < |t|
    ensures r >= t[k] && r >= k + 1
    decreases k
  {
    Max(if k == 0 then 1 else CaptureFrame(t, k - 1) + 1, t[k])
  }

  function CaptureFrames(t: seq<int>): (c: seq<int>)
    ensures |c| == |t| && forall k :: 0 <= k < |t| ==> c[k] == CaptureFrame(t, k)
  {
    seq(|t|, k requires 0 <= k < |t| => CaptureFrame(t, k))
  }

  /** Length of the longest prefix of c whose entries are all at most b. */
  function PrefixWithin(c: seq<int>, b: int): (r: nat)
    ensures r <= |c|
    ensures forall j :: 0 <= j < r ==> c[j] <= b
    ensures r < |c| ==> c[r] > b
  {
    if c == [] || c[0] > b then 0 else 1 + PrefixWithin(c[1..], b)
  }

  /** Number of targets captured within a budget of b frames. */
  function Captured(t: seq<int>, b: int): (r: nat)
    ensures r <= |t|
  {
    PrefixWithin(CaptureFrames(t), b)
  }

  /** The frame counter when the loop stops. */
  function FinalFrame(t: seq<int>, b: int): nat
  {
    var k := Captured(t, b);
    if k == |t| then (if k == 0 then 0 else CaptureFrame(t, k - 1))
    else Max(b, 0)
  }

  /** The record of the capture of target j. */
  function Shot(t: seq<int>, j: nat): Screenshot
    requires j < |t|
  {
    Screenshot(j + 1, CaptureFrame(t, j), ScreenshotName(j + 1, CaptureFrame(t, j)))
  }

  /** The records of the captures of the first k targets, in capture order. */
  function ShotsUpTo(t: seq<int>, k: nat): seq<Screenshot>
    requires k <= |t|
  {
    seq(k, j requires 0 <= j < k => Shot(t, j))
  }

  /** The manifest of a run with targets t and budget b. */
  function ExpectedManifest(t: seq<int>, b: int): seq<Screenshot>
  {
    ShotsUpTo(t, Captured(t, b))
  }

  /** Number of targets that are at most b. */
  function CountAtMost(t: seq<int>, b: int): (r: nat)
  {
    if t == [] then 0 else (if t[0] <= b then 1 else 0) + CountAtMost(t[1..], b)
  }

  // ---------------------------------------------------------------------------
  // The capture rule

  /** Target k fires on a tick after the previous capture, at or beyond t[k],
      and the tick before it was either the previous capture or below t[k]. */
  lemma CaptureRule(t: seq<int>, k: nat)
    requires k < |t|
    ensures var prev := if k == 0 then 0 else CaptureFrame(t, k - 1);
      prev < CaptureFrame(t, k) && t[k] <= CaptureFrame(t, k) &&
      (CaptureFrame(t, k) - 1 == prev || CaptureFrame(t, k) - 1 < t[k])
  {
  }

  /** Capture frames strictly increase: at most one capture per tick. */
  lemma {:induction false} CaptureFramesIncrease(t: seq<int>, j: nat, k: nat)
    requires j < k < |t|
    ensures CaptureFrame(t, j) < CaptureFrame(t, k)
    decreases k
  {
    if j < k - 1 {
      CaptureFramesIncrease(t, j, k - 1);
    }
  }

  /** With strictly increasing positive targets every target is captured exactly
      on its own frame. */
  lemma {:induction false} ExactFrames(t: seq<int>, k: nat)
    requires StrictlyIncreasing(t) && Positive(t)
    requires k < |t|
    ensures CaptureFrame(t, k) == t[k]
    decreases k
  {
    if k > 0 {
      ExactFrames(t, k - 1);
    }
  }

  lemma ExactFrameSequence(t: seq<int>)
    requires StrictlyIncreasing(t) && Positive(t)
    ensures CaptureFrames(t) == t
  {
    forall k | 0 <= k < |t| ensures CaptureFrames(t)[k] == t[k] {
      ExactFrames(t, k);
    }
  }

  lemma {:induction false} NoneAtMost(t: seq<int>, b: int)
    requires forall j :: 0 <= j < |t| ==> t[j] > b
    ensures CountAtMost(t, b) == 0
    decreases |t|
  {
    if t != [] {
      NoneAtMost(t[1..], b);
    }
  }

  /** On a strictly increasing sequence the prefix within b is all entries within b. */
  lemma {:induction false} SortedPrefixIsCount(c: seq<int>, b: int)
    requires StrictlyIncreasing(c)
    ensures PrefixWithin(c, b) == CountAtMost(c, b)
    decreases |c|
  {
    if c != [] {
      if c[0] > b {
        forall j | 0 <= j < |c| ensures c[j] > b {
          SortedAbove(c, 0, j);
        }
        NoneAtMost(c, b);
      } else {
        SortedPrefixIsCount(c[1..], b);
      }
    }
  }

  lemma {:induction false} SortedAbove(c: seq<int>, i: nat, j: nat)
    requires StrictlyIncreasing(c) && i <= j < |c|
    ensures c[i] <= c[j]
    decreases j - i
  {
    if i < j {
      SortedAbove(c, i, j - 1);
    }
  }

  /** For strictly increasing positive targets the number of captures is the
      number of targets within the budget. */
  lemma CapturedIsCount(t: seq<int>, b: int)
    requires StrictlyIncreasing(t) && Positive(t)
    ensures Captured(t, b) == CountAtMost(t, b)
  {
    ExactFrameSequence(t);
    SortedPrefixIsCount(t, b);
  }

  // ---------------------------------------------------------------------------
  // Bounds on the run

  /** The loop stops with the budget spent or every target taken, never goes
      past a non-negative budget, and captures no more than it ticks. */
  lemma RunBounds(t: seq<int>, b: int)
    ensures FinalFrame(t, b) <= Max(b, 0)
    ensures FinalFrame(t, b) == Max(b, 0) || Captured(t, b) == |t|
    ensures Captured(t, b) <= |t| && Captured(t, b) <= FinalFrame(t, b)
  {
    var k := Captured(t, b);
    if k > 0 {
      assert CaptureFrames(t)[k - 1] <= b;
    }
  }

  /** An empty target list means no tick and no capture. */
  lemma EmptyTargets(b: int)
    ensures FinalFrame([], b) == 0 && ExpectedManifest([], b) == []
  {
  }

  /** Two distinct targets are captured on different frames, in index order,
      under different names. */
  lemma ShotsDiffer(t: seq<int>, i: nat, j: nat)
    requires i < j < |t|
    ensures Shot(t, i).frame < Shot(t, j).frame
    ensures Shot(t, i).filename != Shot(t, j).filename
  {
    CaptureFramesIncrease(t, i, j);
    if Shot(t, i).filename == Shot(t, j).filename {
      NameInjective(i + 1, Shot(t, i).frame, j + 1, Shot(t, j).frame);
    }
  }

  /** The manifest lists sequence indices 1, 2, ..., k in order, each on a frame
      within the budget and under the name formatted from its index and frame. */
  lemma ManifestEntries(t: seq<int>, b: int)
    ensures var m := ExpectedManifest(t, b);
      |m| == Captured(t, b) &&
      forall j :: 0 <= j < |m| ==>
        m[j].index == j + 1 && m[j].frame <= Max(b, 0) &&
        m[j].filename == ScreenshotName(j + 1, m[j].frame)
  {
    var m := ExpectedManifest(t, b);
    forall j | 0 <= j < |m| ensures m[j].frame <= Max(b, 0) {
      assert CaptureFrames(t)[j] <= b;
    }
  }

  /** Manifest frames strictly increase and no two entries share a name. */
  lemma ManifestOrdered(t: seq<int>, b: int)
    ensures var m := ExpectedManifest(t, b);
      forall i, j :: 0 <= i < j < |m| ==> m[i].frame < m[j].frame && m[i].filename != m[j].filename
  {
    var m := ExpectedManifest(t, b);
    forall i, j | 0 <= i < j < |m|
      ensures m[i].frame < m[j].frame && m[i].filename != m[j].filename
    {
      assert m[i] == Shot(t, i) && m[j] == Shot(t, j);
      ShotsDiffer(t, i, j);
    }
  }

  /** A capture frame depends only on the targets up to its own: later targets
      never change an earlier capture. */
  lemma {:induction false} PrefixFrames(t: seq<int>, u: seq<int>, k: nat)
    requires k < |t| && k < |u| && t[..k + 1] == u[..k + 1]
    ensures CaptureFrame(t, k) == CaptureFrame(u, k)
    decreases k
  {
    assert t[k] == t[..k + 1][k] == u[..k + 1][k] == u[k];
    if k > 0 {
      assert t[..k] == t[..k + 1][..k] == u[..k + 1][..k] == u[..k];
      PrefixFrames(t, u, k - 1);
    }
  }

  /** Two target lists that agree on their first k entries record the same first
      k screenshots. */
  lemma PrefixShots(t: seq<int>, u: seq<int>, k: nat)
    requires k <= |t| && k <= |u| && t[..k] == u[..k]
    ensures ShotsUpTo(t, k) == ShotsUpTo(u, k)
  {
    forall j | 0 <= j < k ensures Shot(t, j) == Shot(u, j) {
      assert t[..j + 1] == t[..k][..j + 1] == u[..k][..j + 1] == u[..j + 1];
      PrefixFrames(t, u, j);
    }
  }

  /** Full coverage: strictly increasing positive targets within the budget are
      all captured, each on its own frame. */
  lemma Coverage(t: seq<int>, b: int)
    requires StrictlyIncreasing(t) && Positive(t)
    requires t != [] ==> t[|t| - 1] <= b
    ensures |ExpectedManifest(t, b)| == |t|
    ensures forall j :: 0 <= j < |t| ==>
      ExpectedManifest(t, b)[j] == Screenshot(j + 1, t[j], ScreenshotName(j + 1, t[j]))
  {
    ExactFrameSequence(t);
    forall j | 0 <= j < |t| ensures t[j] <= b {
      SortedAbove(t, j, |t| - 1);
    }
    assert Captured(t, b) == |t|;
    var m := ExpectedManifest(t, b);
    assert m == ShotsUpTo(t, |t|);
    forall j | 0 <= j < |t|
      ensures m[j] == Screenshot(j + 1, t[j], ScreenshotName(j + 1, t[j]))
    {
      assert m[j] == Shot(t, j);
      ExactFrames(t, j);
    }
  }

  /** The default targets are strictly increasing and positive, and the last one
      is the default budget. */
  lemma DefaultTargetsWellFormed()
    ensures StrictlyIncreasing(DefaultTargets) && Positive(DefaultTargets)
    ensures DefaultTargets[|DefaultTargets| - 1] == DefaultMaxFrames
  {
  }

  /** A default run captures all eight targets, each on its own frame, and stops
      at frame 1800. */
  lemma DefaultRun()
    ensures |ExpectedManifest(DefaultTargets, DefaultMaxFrames)| == 8
    ensures FinalFrame(DefaultTargets, DefaultMaxFrames) == 1800
    ensures forall j :: 0 <= j < 8 ==>
      ExpectedManifest(DefaultTargets, DefaultMaxFrames)[j].frame == DefaultTargets[j]
  {
    DefaultTargetsWellFormed();
    Coverage(DefaultTargets, DefaultMaxFrames);
    ExactFrames(DefaultTargets, 7);
  }
}
