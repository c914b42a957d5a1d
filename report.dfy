/** The final report of `capture_screenshots`: the `*.png` files found in the
    output directory after the run decide the returned status. */
module Report {
  import opened Naming
  import opened Schedule

  /** File names the manifest wrote. */
  function Names(m: seq<Screenshot>): set<string>
  {
    if m == [] then {} else Names(m[..|m| - 1]) + {m[|m| - 1].filename}
  }

  /** The `*.png` names present after the run: those left by earlier runs and
      those this run saved (a save to an existing name overwrites it). */
  function Listing(stale: set<string>, m: seq<Screenshot>): (r: set<string>)
    ensures stale <= r
    ensures forall j :: 0 <= j < |m| ==> m[j].filename in r
    ensures forall x :: x in r ==> x in stale || exists j :: 0 <= j < |m| && m[j].filename == x
  {
    NamesExactly(m);
    stale + Names(m)
  }

  /** 1 when the listing is empty (the warning case), 0 otherwise. */
  function ExitStatus(listing: set<string>): int
  {
    if listing == {} then 1 else 0
  }

  predicate DistinctNames(m: seq<Screenshot>)
  {
    forall i, j :: 0 <= i < j < |m| ==> m[i].filename != m[j].filename
  }

  lemma {:induction false} NamesMember(m: seq<Screenshot>, j: nat)
    requires j < |m|
    ensures m[j].filename in Names(m)
    decreases |m|
  {
    if j < |m| - 1 {
      NamesMember(m[..|m| - 1], j);
    }
  }

  /** A manifest with pairwise distinct names leaves one file per record. */
  lemma {:induction false} NamesCount(m: seq<Screenshot>)
    requires DistinctNames(m)
    ensures |Names(m)| == |m|
    decreases |m|
  {
    if m != [] {
      var init := m[..|m| - 1];
      NamesCount(init);
      if m[|m| - 1].filename in Names(init) {
        NamesOrigin(init, m[|m| - 1].filename);
      }
    }
  }

  lemma {:induction false} NamesOrigin(m: seq<Screenshot>, name: string)
    requires name in Names(m)
    ensures exists j :: 0 <= j < |m| && m[j].filename == name
    decreases |m|
  {
    if m[|m| - 1].filename != name {
      NamesOrigin(m[..|m| - 1], name);
    }
  }

  /** Names(m) holds the manifest's file names and nothing else. */
  lemma NamesExactly(m: seq<Screenshot>)
    ensures forall j :: 0 <= j < |m| ==> m[j].filename in Names(m)
    ensures forall x :: x in Names(m) ==> exists j :: 0 <= j < |m| && m[j].filename == x
  {
    forall j | 0 <= j < |m| ensures m[j].filename in Names(m) {
      NamesMember(m, j);
    }
    forall x | x in Names(m) ensures exists j :: 0 <= j < |m| && m[j].filename == x {
      NamesOrigin(m, x);
    }
  }

  /** The status is 0 exactly when some file is listed, and is always 0 or 1. */
  lemma StatusOfListing(stale: set<string>, m: seq<Screenshot>)
    ensures ExitStatus(Listing(stale, m)) == 0 || ExitStatus(Listing(stale, m)) == 1
    ensures ExitStatus(Listing(stale, m)) == 0 <==> stale != {} || m != []
  {
  }

  /** On an empty output directory the listing is exactly the run's manifest. */
  lemma CleanListing(t: seq<int>, b: int)
    ensures |Listing({}, ExpectedManifest(t, b))| == Captured(t, b)
  {
    ManifestOrdered(t, b);
    ManifestEntries(t, b);
    NamesCount(ExpectedManifest(t, b));
  }

  /** On an empty output directory, with strictly increasing positive targets,
      the run fails exactly when no target lies within the budget. */
  lemma CleanRunStatus(t: seq<int>, b: int)
    requires StrictlyIncreasing(t) && Positive(t)
    ensures ExitStatus(Listing({}, ExpectedManifest(t, b))) == 0 <==> CountAtMost(t, b) > 0
  {
    CleanListing(t, b);
    CapturedIsCount(t, b);
  }

  /** Targets [60, 180] with budget 200: two files, status 0. */
  lemma ScenarioTwoTargets()
    ensures ExpectedManifest([60, 180], 200) ==
      [Screenshot(1, 60, ScreenshotName(1, 60)), Screenshot(2, 180, ScreenshotName(2, 180))]
    ensures ScreenshotName(1, 60) == "gameplay_01_frame_0060.png"
    ensures ScreenshotName(2, 180) == "gameplay_02_frame_0180.png"
    ensures ExitStatus(Listing({}, ExpectedManifest([60, 180], 200))) == 0
  {
    Coverage([60, 180], 200);
    FirstDefaultName();
    SecondDefaultName();
    StatusOfListing({}, ExpectedManifest([60, 180], 200));
  }

  /** With budget 200 both [60, 180, 5000] and [60, 180] capture two targets. */
  lemma TruncatedCaptures()
    ensures Captured([60, 180, 5000], 200) == 2 && Captured([60, 180], 200) == 2
  {
    var t := [60, 180, 5000];
    CapturedIsCount(t, 200);
    assert t[1..] == [180, 5000] && t[1..][1..] == [5000] && t[1..][1..][1..] == [];
    Coverage([60, 180], 200);
  }

  /** Targets [60, 180, 5000] with budget 200: the same two files as targets
      [60, 180], no third, and status 0. */
  lemma ScenarioTruncated()
    ensures |ExpectedManifest([60, 180, 5000], 200)| == 2
    ensures ExpectedManifest([60, 180, 5000], 200) == ExpectedManifest([60, 180], 200)
    ensures FinalFrame([60, 180, 5000], 200) == 200
    ensures |Listing({}, ExpectedManifest([60, 180, 5000], 200))| == 2
    ensures ExitStatus(Listing({}, ExpectedManifest([60, 180, 5000], 200))) == 0
  {
    var t, u := [60, 180, 5000], [60, 180];
    TruncatedCaptures();
    assert t[..2] == u[..2];
    PrefixShots(t, u, 2);
    CleanListing(t, 200);
    StatusOfListing({}, ExpectedManifest(t, 200));
  }

  /** An empty target list: no file, status 1 (the warning case). */
  lemma ScenarioNoTargets(b: int)
    ensures ExpectedManifest([], b) == []
    ensures ExitStatus(Listing({}, ExpectedManifest([], b))) == 1
  {
    EmptyTargets(b);
  }
}
