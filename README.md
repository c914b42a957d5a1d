# Screenshot capture harness: frame scheduling and artifact bookkeeping

This project models the core of `capture_screenshots` in
`scripts/capture-screenshots.py`. The function drives an NES emulator for a
bounded number of frames and saves a still image whenever the frame counter
reaches the next target frame. The model covers:

- the frame loop with its two counters, `frame_count` and `screenshot_index`;
- the threshold capture rule (`frame_count >= target`, at most one capture per tick);
- the reset on the emulator's terminal-state flag, which never touches the counters;
- the file-name formatter `gameplay_{i:02d}_frame_{F:04d}.png`;
- the default target list and budget;
- the exit status decided from the `*.png` listing after the run.

Modules:

- `Optional` (`optional.dfy`): an `Option` datatype.
- `Naming` (`naming.dfy`): decimal formatting, zero padding (`Pad0`), `ScreenshotName`,
  and its inverse `ParseName`. The inverse is used to prove that names read back and
  never collide.
- `Schedule` (`schedule.dfy`): a closed-form reference definition of the run.
  `CaptureFrame(t, k)` is the tick on which target `k` fires when the budget is
  unlimited: `max(previous capture + 1, t[k])`, with the "previous capture" of target 0
  taken as 0. `Captured`, `FinalFrame` and `ExpectedManifest` give the number of
  captures, the final frame counter and the manifest for a budget `b`. The lemmas here
  prove the scheduling properties of this definition.
- `Report` (`report.dfy`): the listing of `*.png` files after the run, the exit status,
  and three example runs on an empty output directory, each proved as a lemma: targets [60, 180] with budget 200,
  targets [60, 180, 5000] with budget 200, and the empty target list.
- `Capture` (`capture.dfy`): the loop itself as the imperative method `RunFrames`.
  `CaptureScreenshots` wraps it with the default-target choice, the emulator's
  creation, reset and close, and the final status. Both are proved equal to the
  closed form. The emulator appears only
  as two things:
  - an oracle `done: nat -> bool`, which gives the terminal flag returned by `step` on
    each 1-based tick;
  - a log of the calls made to it (`Open`, `Reset`, `Step`, `Close`).

  Saving an image appends a `Screenshot(index, frame, filename)` record to the manifest.
  The method's postconditions give the counters and the manifest without mentioning
  `done`. That is how the model states that a terminal state resets the emulator but
  not the counters.

The targets are arbitrary integers and the budget is an arbitrary integer, as in the
source. The code does not check that targets are strictly increasing or positive. On
other lists the threshold rule still fires at most one target per tick, and
`CaptureFrame` says on which tick each target fires. Properties that need increasing
positive targets (`ExactFrames`, `CapturedIsCount`, `Coverage`, `CleanRunStatus`) say
so in their `requires`.

Two points about what the code keeps and lists:

- The status is decided by `glob("*.png")` over the output directory. That listing
  counts any `.png` file already there, not only this run's `gameplay_` files. The
  model takes those earlier names as a parameter `stale`.
- The code keeps no in-memory record of its captures, only the counter. The manifest
  of `(index, frame, filename)` records is the model's account of the saves, in order.
  It carries no file size: sizes are read from the file system after the run and are
  only printed.

## Model

| member | source | states |
|---|---|---|
| `Capture.CaptureScreenshots` | scripts/capture-screenshots.py:27-90 | With `None` resolved to the default targets, the final `frame_count`, `screenshot_index` and manifest equal the closed form (`FinalFrame`, `Captured`, `ExpectedManifest`) for every `done` oracle. The emulator calls are: open, reset, one step per counted frame (each followed by a reset exactly when it reported done), then one close. The status is 0 or 1, and 0 exactly when the listing (stale files or this run's saves) is non-empty. |
| `Capture.RunFrames` | scripts/capture-screenshots.py:46-70 | The loop ends with the frame counter, the pointer and the manifest equal to the closed form for the budget, whatever the terminal flags were. The calls it makes are one step per tick, each followed by a reset exactly when that step reported done. |
| `Capture.Targets` | scripts/capture-screenshots.py:27-29 | `None` selects the default list; any given list, including `[]`, is used as is. It appears in `CaptureScreenshots`'s contract. |
| `Capture.Ticks` | scripts/capture-screenshots.py:50-70 | The emulator calls of ticks 1..n, each tick's calls given by `TickCalls`. `TicksShape` states that there is one step per tick and no open or close. |
| `Capture.TickCalls` | scripts/capture-screenshots.py:52-70 | One tick calls `step` once, then `reset` exactly when that step reported done. |
| `Capture.CaptureHits` | scripts/capture-screenshots.py:53-66 | A tick that passes the threshold test for the pointed-to target is exactly that target's capture frame, and the saved record extends the manifest by that target's entry. |
| `Capture.LoopExit` | scripts/capture-screenshots.py:50 | When the loop condition fails, the pointer equals the number of targets captured within the budget, and the frame counter equals the closed-form final frame. |
| `Capture.TicksShape` | scripts/capture-screenshots.py:50-70 | Each tick steps the emulator exactly once and never opens or closes it, so the number of steps equals the number of ticks. |
| `Capture.Lifecycle` | scripts/capture-screenshots.py:43-73 | The emulator is created and reset before the loop, stepped exactly `frame_count` times, and closed exactly once, as the last call. |
| `Schedule.CaptureFrame` | scripts/capture-screenshots.py:56 | Target k is never captured before its frame offset, nor before tick k+1, because there is at most one capture per tick. |
| `Schedule.Captured` | scripts/capture-screenshots.py:50-66 | The number of captures within budget b: the length of the longest prefix of capture frames that are all <= b, never more than the number of targets. `CapturedIsCount` ties it to the count of targets <= b. |
| `Schedule.FinalFrame` | scripts/capture-screenshots.py:50-53 | The frame counter at loop exit: the last capture frame when every target is taken, otherwise the budget (0 for a non-positive budget). `RunBounds` states its bounds. |
| `Schedule.ExpectedManifest` | scripts/capture-screenshots.py:56-66 | The records of the first `Captured(t, b)` targets, in order. `ManifestEntries` and `ManifestOrdered` state their indices, frames and names. |
| `Schedule.DefaultTargets` | scripts/capture-screenshots.py:29 | The default list `[60, 180, 360, 600, 900, 1200, 1500, 1800]`. `DefaultTargetsWellFormed` and `DefaultRun` state its properties. |
| `Schedule.CaptureRule` | scripts/capture-screenshots.py:56-66 | Target k fires after the previous capture and at or beyond its offset. The tick before it was either the previous capture or still below the offset, so it fires on the first tick that qualifies. |
| `Schedule.CaptureFramesIncrease` | scripts/capture-screenshots.py:56-66 | Capture frames strictly increase with the sequence index, so no tick records two captures. |
| `Schedule.ExactFrames` | scripts/capture-screenshots.py:50-56 | For strictly increasing positive targets, target k is captured exactly at `frame_count == t[k]`. |
| `Schedule.CapturedIsCount` | scripts/capture-screenshots.py:50-66 | For strictly increasing positive targets, the number of captures within budget b equals the number of targets `<= b`. |
| `Schedule.RunBounds` | scripts/capture-screenshots.py:50 | The final frame count never exceeds `max(b, 0)`. The loop stops with the budget spent or every target taken. Captures are at most the number of targets and at most the number of ticks. |
| `Schedule.EmptyTargets` | scripts/capture-screenshots.py:50 | An empty target list gives zero ticks and an empty manifest. |
| `Schedule.ManifestEntries` | scripts/capture-screenshots.py:56-66 | Manifest entry j has sequence index j+1, a frame within the budget, and the name `ScreenshotName(j+1, frame)`, so the indices are 1, 2, ..., k in order, each once. |
| `Schedule.ManifestOrdered` | scripts/capture-screenshots.py:56-66 | Manifest frames strictly increase and no two entries share a file name. |
| `Schedule.PrefixFrames` | scripts/capture-screenshots.py:56-66 | The frame on which target k is captured depends only on targets 0..k: later targets never change an earlier capture. |
| `Schedule.PrefixShots` | scripts/capture-screenshots.py:56-66 | Two target lists that agree on their first k entries record the same first k screenshots. |
| `Schedule.Coverage` | scripts/capture-screenshots.py:50-66 | If strictly increasing positive targets all lie within the budget, every one is captured, in order, on its own frame, under its formatted name. |
| `Schedule.DefaultTargetsWellFormed` | scripts/capture-screenshots.py:29 | The default list is strictly increasing and positive, and its last element is the default budget 1800. |
| `Schedule.DefaultRun` | scripts/capture-screenshots.py:27-29 | A default run with budget 1800 captures all eight default targets on their own frames and stops at frame 1800. |
| `Naming.ScreenshotName` | scripts/capture-screenshots.py:61 | Computes `"gameplay_" + Pad0(i, 2) + "_frame_" + Pad0(F, 4) + ".png"`. The contract says the name is never shorter than the fixed text plus the two padded widths, and is exactly 26 characters long whenever i < 100 and F < 10000. `NameFields` states where each field sits, and `NameRoundTrip` and `NameInjective` state that it can be parsed back and never collides. |
| `Naming.Pad0` | scripts/capture-screenshots.py:61 | Computes `{n:0Wd}`. Its length is `max(width, digits)`, so exactly `width` when n has at most `width` digits (`DecimalWidth` gives this for n < 10^width). It is all digits. `PadShape` states that it never truncates, and `PadValue` that it still denotes n. |
| `Naming.PadShape` | scripts/capture-screenshots.py:61 | The padded string is zeros followed by the full decimal form of n, so padding never drops a digit. |
| `Naming.Decimal` | scripts/capture-screenshots.py:61 | The decimal digits of n: non-empty, all digits, with no leading zero unless n is 0. `ValueOfDecimal` states that it denotes n. |
| `Naming.DecimalWidth` | scripts/capture-screenshots.py:61 | A number below 10^w has at most w digits, which is why `{i:02d}` and `{F:04d}` are exactly 2 and 4 wide for small values. |
| `Naming.PadValue` | scripts/capture-screenshots.py:61 | The padded string is all digits and still denotes the number it was made from. |
| `Naming.NameRoundTrip` | scripts/capture-screenshots.py:61 | Parsing `gameplay_{i:02d}_frame_{F:04d}.png` gives back `(i, F)`. |
| `Naming.NameInjective` | scripts/capture-screenshots.py:61 | Two screenshots share a file name only if they have the same index and frame. |
| `Naming.NameFields` | scripts/capture-screenshots.py:61 | For i < 100 and F < 10000 the name is 26 characters: `gameplay_` at 0..9, the two-wide index at 9..11, `_frame_` at 11..18, the four-wide frame at 18..22 and `.png` at 22..26. |
| `Naming.FirstDefaultName` | scripts/capture-screenshots.py:61 | Index 1 at frame 60 is named `gameplay_01_frame_0060.png`. |
| `Naming.SecondDefaultName` | scripts/capture-screenshots.py:61 | Index 2 at frame 180 is named `gameplay_02_frame_0180.png`. |
| `Report.Listing` | scripts/capture-screenshots.py:80 | The `*.png` names after the run: it contains every earlier name and every manifest file name, and nothing else. |
| `Report.ExitStatus` | scripts/capture-screenshots.py:81-90 | Returns 1 for an empty listing and 0 otherwise. `StatusOfListing` states this in terms of the earlier files and the manifest. |
| `Report.StatusOfListing` | scripts/capture-screenshots.py:80-90 | The status is 1 exactly when the `*.png` listing is empty, otherwise 0. With earlier files `stale`, it is 0 exactly when `stale` or the manifest is non-empty. |
| `Report.CleanListing` | scripts/capture-screenshots.py:61-80 | In an empty output directory the listing holds exactly one file per capture. |
| `Report.CleanRunStatus` | scripts/capture-screenshots.py:50-90 | In an empty output directory, with strictly increasing positive targets, the run returns 0 exactly when some target is within the budget. |
| `Report.ScenarioTwoTargets` | scripts/capture-screenshots.py:50-90 | Targets [60, 180] with budget 200 give `gameplay_01_frame_0060.png` and `gameplay_02_frame_0180.png`, and status 0. |
| `Report.ScenarioTruncated` | scripts/capture-screenshots.py:50-90 | Targets [60, 180, 5000] with budget 200 give exactly the manifest of targets [60, 180] (so the two files `ScenarioTwoTargets` names), a listing of two files, stop at frame 200, and return status 0. |
| `Report.ScenarioNoTargets` | scripts/capture-screenshots.py:50-90 | An empty target list gives no file and status 1. |

## Left out

- Emulator construction, `reset`, `step` and `close`: these are a foreign library. They appear only as entries in the call log, with the terminal flag given by the `done` oracle. Pixel data is not modelled.
- Image conversion and saving (`Image.fromarray`, `img.save`): foreign I/O. A save is a manifest append.
- Creating the output directory (`mkdir`) and the file-system listing: both are file-system work. The listing is modelled as the set `stale` plus the names saved. Its sort order only affects printing.
- The per-file size (`stat().st_size / 1024`, `:.1f`): floating point, used only in printed output.
- All console output, the progress lines and the traceback.
- `main`: argument parsing, `int()` conversion, the ROM-existence check and `sys.exit`. This is command-line plumbing. The default budget 1800 appears as the constant `DefaultMaxFrames`; the default directory name `"screenshots"` is not modelled, since the model has no paths.
- Exceptions: an error raised by the emulator or by a save, and the `finally` that closes the emulator on that path, are not modelled. Only the normal path's single close is.
