# x11spice: a verified model

x11spice mirrors an X display to Spice clients. It keeps a shadow copy of the
screen, finds out which parts have changed, and sends those parts. This project
models the parts of x11spice and of its dummy video driver where that can go
wrong, and proves what they guarantee.

`dafny verify dfyconfig.toml` checks everything.

## How it is organised

| modules | what they are about |
|---|---|
| `Arithmetic`, `Sequences`, `Geometry` | products and quotients; removal from a sequence; pixels, rectangles, pixel regions |
| `Tiles`, `Reports` | growing the set of changed tiles; run encoding; tile rectangles |
| `Display` | the tile differs and the shadow copy, over flat pixel memory |
| `Pending` | the queue and the pending region as a protocol of two threads |
| `Scanner` | the scanner object: both scans, the pushes, the scanner loop |
| `Coverage`, `TileMeaning`, `ScanLoop`, `ScanMeaning`, `Convergence` | from pixels to rectangles; what each kind of iteration does; whole runs |
| `FrameClock`, `Vblank`, `VblankCalls`, `Timers`, `Present` | the frame counter, the vblank queue as a state machine, what each call does, its timers, its linked lists |
| `SegmentCache`, `Ownership` | the shared-memory cache, and who owns each segment |
| `Listen`, `Resize`, `Buttons`, `Damage` | the address parser, the resize handshake, mouse buttons, damage events |

Code that changes arrays, fields or lists in place is modelled by methods and
classes (`Display.Display`, `Scanner.Scanner`, `Present.Crtc`,
`SegmentCache.ShmCache`, `Buttons.Pointer`, `Damage.DamageHandler`). Each method
is proved to do what a function on values says, and the properties are proved
about those functions. Code that two threads run at once (`Pending`, `Resize`) and
the ownership of segments are state machines whose actions are the source's
atomic steps.

A screen image is a sequence of rows of 32-bit pixels. A pixman region is a set
of pixels. The answers of the X server (lines, areas and whole screens that are
read), allocation failures, and the time are parameters.

## What the proofs found

* **Which widths converge.** The differ cuts a line at `i * floor(W/32)`, the
  reports at `floor(i*W/32)`. The two agree exactly when `W mod 32` is 0 or 1, so
  the scanner makes the shadow equal an unchanging screen for every start
  exactly for those widths, and for every height (`Convergence.ConvergesIff`).
  For any other width a pixel at the left edge of the last tile stays wrong for
  ever. Whole-screen coverage needs, in addition, that 32 divides the height or
  that the screen is lower than 32 lines (`Coverage.WholeCoverageIff`); for every
  screen, `TileMeaning.OnePixelReportedIff` says exactly which single changed pixels
  a whole-screen scan reports.
* **The discard test.** `scanner_push` tests the three-valued result of pixman
  for non-zero, so a partial overlap with the pending region is discarded too.
  Pending reports are therefore pairwise disjoint, but the part of a notice
  outside the region can be lost (`Pending.PartialOverlapLosesPixels`).
  `Pending.NoticeKeptIff` says exactly when a notice survives, and
  `Pending.PixelReadIff` exactly which notified pixels are read in any run. With the
  containment test that the comment at src/scan.c:516-517 describes no notice is
  lost.
* **The order of remove and read** is what the guarantee rests on:
  `Pending.ReadFirstLosesNotice` is a run that loses a notice in the other order.
* **Vblank timers.** An abort that empties the queue leaves its timer armed, and the
  next event starts another one: `Timers.TwoTimersArmed` is such a run. More than
  one timer is armed at some time of a run exactly when a queue step succeeds with
  the queue empty and a timer still armed (`Timers.OneTimerIff`); without aborts
  one timer is armed exactly while events wait (`Timers.OneTimerRun`).
* **Image sizes** are computed in 32 bits: the segment asked for holds the pixels
  exactly when their bytes are fewer than 2^32.
* **Lost segments.** A segment is lost exactly when mapping or attaching it fails
  after it was allocated, or when a draw command gets no release record.
  `display_close` empties the cache before it destroys the screen images, so the
  segments of any that are left end in the cache; it ends empty exactly when there
  was none (`Ownership.ClosingRefillsCache`). In a full shutdown `session_end` has
  destroyed them before, but the draws that were never delivered are freed after
  the cache: it then holds the largest of their segments, and every segment is
  destroyed exactly when all draws had been delivered
  (`Ownership.ShutdownDestroysAllIff`).
* **Listen addresses.** `:5900` makes `:` the address, `a5900` is accepted as
  address `a` with port 5900 while `ab5900` is refused, and ports with a leading
  zero are octal: `host:010` is port 8 (`Listen.OctalPort`).
* **Resizing.** When the new primary surface cannot be made the lock is released
  without one. A command is outstanding without a primary surface only after
  such a failure (`Resize.OutstandingNeedsFailure`), and right after one it can
  come to that exactly when the session is still running or the worker has
  already found it running (`Resize.FailureExposesIff`).
  `Resize.CommandWithoutPrimary` is a whole run, and `Resize.StoppedStillPops` one
  in which the session stops between the worker's test and its pop.
* **The wheel.** A second wheel motion in the same direction, with no other call
  between, does not press the wheel's button (`Buttons.SecondMotionUnseen`), and if
  the buttons are the same too it emits nothing (`Buttons.SecondMotionSilent`). A
  motion is seen exactly when the stored state does not hold the wheel's button
  down (`Buttons.WheelSeenIff`).

## Model

| member | source | states |
|---|---|---|
| `Geometry.Union` | src/display.c:129-151 | a pixel is in the union exactly when one of the rectangles contains it |
| `Tiles.GrowIsClosure` | src/scan.c:212-235 | growing gives the least row above the original that the fill rule cannot extend; it is monotone and idempotent, so one pass reaches the fixpoint |
| `Tiles.GrownCountShape` | src/scan.c:204-240 | a grown counter is 0, 1 to 16, or 32; 0 only if it was 0; exact up to the threshold if it was exact, an upper bound if it was one |
| `Tiles.GrowInPlace` | src/scan.c:212-229 | in the left-to-right pass a tile filled earlier never causes the next one to fill, so filling in place decides as the original row does |
| `Tiles.GrowRow` | src/scan.c:212-235 | the in-place pass leaves the simultaneous growth of the original row, adds the number of filled tiles to the counter, and touches no other row |
| `Tiles.GrowChangedTiles` | src/scan.c:197-242 | every row and counter is grown, skipped or promoted to a full row as its counter says |
| `Reports.OpenStartExact` | src/scan.c:247-263 | the start the loop remembers is that of the run reaching the previous position, or none |
| `Reports.RunsExact` | src/scan.c:269-290 | the runs met by the loop and after it are exactly the maximal runs of set positions, left to right, with a gap between any two |
| `Reports.TileSpansExact` | src/scan.c:244-302 | the blocks reported are exactly the maximal runs of full rows and, in each partial row, the maximal runs of set tiles; any two are apart |
| `Reports.CoveredExactlyOnce` | src/scan.c:244-302 | a tile is covered by a reported block exactly when it is selected, and then by exactly one |
| `Reports.UnselectedRowsIgnored` | src/scan.c:339-353 | the tiles of rows with a zero or full counter never influence a report, so rows that were never written do no harm |
| `Reports.ColumnBounds` | src/scan.c:178-189 | the columns of a block stay on screen, reach the next share of the width with at most one pixel to spare, end at W with the last tile, and are never cut by the clamp |
| `Reports.TileRectBounds` | src/scan.c:175-192 | the same for the whole rectangle: it lies on the screen, starts and ends where its tiles do, is as wide as its share of W rounded up, and ends at the bottom with the last row |
| `Display.DiffExact` | src/display.c:570-578 | a tile is marked exactly when some pixel in its piece of the line differs |
| `Display.PieceOfHolds` | src/display.c:570-573 | every pixel of a line lies in the piece computed for it |
| `Display.DiffAtPixel` | src/display.c:570-578 | a pixel that differs marks the tile of its piece |
| `Display.FirstLineStep` | src/display.c:638-640 | the line ranges of the whole-screen differ are in order and on the screen |
| `Display.LinesMarkedStep` | src/display.c:640-657 | the tiles marked by a range of lines are those marked by the lines before, or by the last line |
| `Display.LinesCountBound` | src/display.c:652-655 | the whole-screen counter, which counts lines times tiles, is at least the number of marked tiles |
| `Display.RowFits` | src/display.c:565 | the memory of a line lies within the image |
| `Display.MarkChangedTiles` | src/display.c:570-578 | the pointer loop marks and counts exactly the tiles that differ and touches no other row of tiles |
| `Display.PieceDiffers` | src/display.c:572-574 | comparing memory at the moving pointers compares the pieces of the two lines, with the last piece taking the remainder |
| `Display.CompareLine` | src/display.c:565-579 | comparing a line of the shadow with a line read counts and marks exactly what differs, with the shortcut for equal lines |
| `Display.ScanLines` | src/display.c:640-657 | a range of lines of the whole screen leaves the union of the marked tiles and the sum of the counts |
| `Display.ScanTileRows` | src/display.c:634-657 | every row of tiles is marked and counted from its own range of lines |
| `Display.WriteLine` | src/display.c:605 | writing pixels at the pointer changes exactly that part of that line |
| `Display.CopyRows` | src/display.c:593-608 | the copy loop pastes the image at its place and leaves every other pixel |
| `Display.PastedElsewhere` | src/display.c:604-608 | pixels outside the rectangle are left alone |
| `Display.PastedCrop` | src/display.c:591-609 | pasting what was read of a screen makes the rectangle show that screen (with src/scan.c:142-145) |
| `Display.Display.FindChangedTiles` | src/display.c:556-589 | -1 if the line cannot be read; else the count and the tiles that differ from the shadow, every tile of the row written |
| `Display.Display.ScanWholeScreen` | src/display.c:611-683 | negative if the read fails, nothing marked if there is no image of the same size, else the tiles and counts of every row |
| `Display.Display.CopyImageIntoFullscreen` | src/display.c:591-609 | the shadow becomes the paste of the image, or stays as it is if the image no longer fits |
| `Pending.Areas` | src/scan.c:509-523 | a pixel is in the union of the reports exactly when one of them covers it |
| `Pending.SoundStep` | src/scan.c:305-315 | every step keeps the region within the reports that are queued or popped and not removed (with src/scan.c:436-441) |
| `Pending.ExactStep` | src/scan.c:509-523 | with the test as written every step keeps pending reports disjoint and the region equal to their union |
| `Pending.RegionInvariant` | src/scan.c:305-315 | both, in every reachable state of every interleaving (with src/scan.c:482-531) |
| `Pending.OwedUntilRead` | src/scan.c:436-441 | a pixel promised by a queued or popped report stays promised until it is read |
| `Pending.NoLostNotice` | src/scan.c:509-523 | in every interleaving that ends idle, each pixel of an accepted notice, and each pixel of a discarded one that lay in the pending region, is read after the notice; with the containment test this is every pixel of every notice (with src/scan.c:436-441) |
| `Pending.ReadFirstLosesNotice` | src/scan.c:438-440 | if the read came before the removal there is a run that ends idle and never reads a notified pixel |
| `Pending.DrainReadsOwed` | src/scan.c:409-442 | without further notices the scanner thread reads exactly the promised pixels |
| `Pending.NoticeKeptIff` | src/scan.c:516-523 | with the test as written a notice is read in full by the drain that follows exactly when it does not overlap the region, or lies within the region and the report in hand |
| `Pending.OwedExactly` | src/scan.c:436-441 | over any stretch of any run, a pixel is promised at its end or read during it exactly when it was promised at its start or a notice of it is accepted during it (with src/scan.c:509-523) |
| `Pending.PixelReadIff` | src/scan.c:516-523 | in a run that ends idle, with any notices before and after, a notified pixel is read afterwards exactly when its notice is accepted, or it lies in the region or in the report in hand, or a later notice of it is accepted (with src/scan.c:436-441) |
| `Pending.PartialOverlapLosesPixels` | src/scan.c:518-519 | two overlapping notices, and a pixel of the second that is never read |
| `Pending.AcceptsIff` | src/scan.c:509-526 | a report without an area is always queued, one with an area exactly when no pixel of it is pending; with the containment test, exactly when some pixel of it is not, or it has none |
| `Pending.FirstInFirstOut` | src/scan.c:518-525 | in every run reports are popped in the order in which their notices came, and none is skipped |
| `Pending.ScannerTurn` | src/scan.c:436-441 | with an area report first the scanner thread can only pop it, then only take it out of the region, then only read it |
| `Scanner.AllRunsPushedIsPushSpans` | src/scan.c:251-266 | pushing runs as the loop meets them pushes the blocks of all maximal runs, in order |
| `Scanner.PartialPushedIsPushSpans` | src/scan.c:299-301 | the same for all partial rows |
| `Scanner.Scanner.PushReport` | src/scan.c:482-531 | the new queue and region are those of a push with the test as written |
| `Scanner.Scanner.PushTilesReport` | src/scan.c:172-195 | pushes the rectangle of the block of tiles |
| `Scanner.Scanner.PushChangesAcrossRows` | src/scan.c:244-267 | pushes the maximal runs of full rows as its loop meets them |
| `Scanner.Scanner.PushChangesInOneRow` | src/scan.c:269-290 | pushes the maximal runs of one row |
| `Scanner.Scanner.PushChangedTiles` | src/scan.c:292-302 | pushes exactly the blocks of the run encoding, in order |
| `Scanner.Scanner.CompareLines` | src/scan.c:339-351 | succeeds exactly when every examined line on the screen is read; then each counter is the number of tiles in which its line differs, and the tiles of rows with a non-zero counter are those |
| `Scanner.Scanner.GrowAndPush` | src/scan.c:352-353 | growing and pushing depends only on the tiles of rows with a non-zero counter |
| `Scanner.Scanner.Periodic` | src/scan.c:317-360 | one periodic scan: the pattern advances, and unless a read fails the grown and encoded differences of the examined lines are pushed |
| `Scanner.Scanner.ScanFullScreen` | src/scan.c:362-385 | one whole-screen scan: the same for all lines, and nothing if the read fails or the size does not match |
| `Scanner.Scanner.HandleScanReport` | src/scan.c:132-163 | the area read is pasted into the shadow |
| `Scanner.Scanner.RunOnce` | src/scan.c:412-442 | one iteration of the scanner loop is the step of the loop on values, or at a fixed rate and idle the refresh of the whole screen; it ends exactly at an exit report |
| `Scanner.NothingToPush` | src/display.c:623-631 | with all counters zero nothing is reported, whatever the tiles hold (with src/scan.c:382-383) |
| `Coverage.MarkedIsReported` | src/scan.c:197-302 | every marked tile lies in a reported block, even if the counters are only upper bounds |
| `Coverage.SpansOnGrid` | src/scan.c:244-302 | every reported block lies on the grid of tiles, and any two are apart |
| `Coverage.SingleTileReport` | src/scan.c:212-302 | a single marked tile is reported alone, or with the edge tile if it is next to it |
| `Coverage.ShareIsCut` | src/display.c:570-573 | differ and reports cut every column at the same place if the width leaves a remainder of at most one (with src/scan.c:178) |
| `Coverage.LastShareIsLate` | src/display.c:570-573 | otherwise the last tile is reported from too far right, and some pixel of it is left out (with src/scan.c:178) |
| `Coverage.CoveredPixel` | src/scan.c:175-192 | for such a width the rectangle of a block contains every pixel of the tiles it covers |
| `Coverage.PeriodicCoverage` | src/scan.c:339-353 | for such a width and every height, each pixel of an examined line that differs lies in a reported rectangle (with src/display.c:570-578) |
| `Coverage.FirstLineIsRow` | src/display.c:638-639 | the whole-screen differ and the reports cut rows alike if 32 divides the height or there is one row (with src/scan.c:185) |
| `Coverage.LastFirstLineIsEarly` | src/display.c:638-639 | otherwise the last row is compared from a line that its report does not reach (with src/scan.c:185) |
| `Coverage.WholeBounds` | src/display.c:652-655 | the whole-screen counters are upper bounds |
| `Coverage.WholeCoverage` | src/display.c:634-657 | for sizes that meet both conditions each pixel that differs lies in a reported rectangle (with src/scan.c:382-383) |
| `Coverage.OnePixelWhole` | src/display.c:634-657 | if one pixel changed, only the tile the differ put it in is reported, with the edge tile if that is next to it (with src/scan.c:197-302) |
| `Coverage.WholeCoverageIff` | src/display.c:634-657 | whole-screen coverage holds for all screen contents exactly for those sizes (with src/scan.c:172-195) |
| `Coverage.MissedPixel` | src/display.c:570-573 | for every other size there are a shadow and a screen with a pixel that is missed (with src/display.c:638-639) |
| `TileMeaning.PixelAt` | src/display.c:565-566 | pixel (x, y) of an image lies at y * w + x in its memory |
| `TileMeaning.PastedAt` | src/display.c:593-608 | a pasted image shows its pixels inside the rectangle and leaves every other pixel |
| `TileMeaning.ComparedIff` | src/display.c:638-640 | line y of a screen of height h with nv rows is compared in row v exactly when v*h < (y+1)*nv <= (v+1)*h |
| `TileMeaning.ComparedOnce` | src/display.c:634-640 | every line is compared in one row, and in one only |
| `TileMeaning.WholeRowMarks` | src/display.c:638-657 | a row marks a tile exactly when some line that is compared in it differs in the tile's piece |
| `TileMeaning.WholeCountIs` | src/display.c:652-655 | the counter of a row is the number of pairs of a line compared in it and a tile in which it differs |
| `TileMeaning.ReportedTiles` | src/scan.c:197-302 | growth, promotion and run encoding together: a tile is reported exactly when it is in the closure of its row, or the counter with the tiles the closure adds is above 16 |
| `TileMeaning.OnePixelReportedIff` | src/display.c:634-657 | for every size, a single changed pixel is reported by a whole-screen scan exactly when the report of its tile does not start to the right of it and its line is compared in the row of tiles it lies in (with src/scan.c:175-192) |
| `ScanLoop.TickIsRunStep` | src/scan.c:412-442 | an iteration against an unchanging screen is the scanner's own iteration on the answers the X server then gives |
| `ScanLoop.TickKeepsSame` | src/scan.c:412-442 | a pixel that shows the screen keeps showing it, whatever is queued |
| `ScanLoop.RectsDisjoint` | src/scan.c:178-192 | two blocks that are apart have disjoint rectangles, although widths are rounded up, if the screen is at least 32 pixels wide or both blocks end in the last column |
| `ScanLoop.NarrowScan` | src/display.c:570-573 | on a narrower screen every block of a periodic scan ends in the last column |
| `ScanLoop.ScreenPushed` | src/scan.c:397-407 | at a fixed rate an idle iteration that succeeds makes the shadow equal the screen, for every size |
| `ScanLoop.AllAccepted` | src/scan.c:509-523 | disjoint reports pushed to an empty queue are all accepted |
| `ScanLoop.PeriodicDisjoint` | src/scan.c:317-360 | the reports of one periodic scan are disjoint, for every size |
| `ScanLoop.TickProgress` | src/scan.c:409-445 | an iteration spoils no correct pixel; one that finds an area report takes it off and refreshes its rectangle; one that finds nothing pending queues every difference of the next line of the pattern, if the width leaves a remainder of at most one (exit and full-screen reports are in `TickIsRunStep` only) |
| `ScanLoop.NeverReported` | src/display.c:570-573 | for other widths, a pixel that differs alone at the left edge of the last tile is never in a pushed rectangle (with src/scan.c:178) |
| `ScanLoop.StuckTick` | src/scan.c:409-445 | so no iteration repairs it |
| `ScanMeaning.IdleIteration` | src/scan.c:317-360 | an idle iteration in which every examined line is read advances the pattern, keeps the shadow and pushes blocks that lie on the grid and are apart |
| `ScanMeaning.IdleFailure` | src/scan.c:345-348 | if a line cannot be read only the pattern advances |
| `ScanMeaning.PeriodicSpansAre` | src/scan.c:339-353 | those blocks cover exactly the tiles in the closure of the tiles in which the examined line differs, pixel by pixel, and all tiles of a row whose closure has more than 16 |
| `ScanMeaning.RequestIteration` | src/scan.c:362-385 | a full-screen request comes off, shadow and pattern stay, and blocks are pushed if the screen could be used, none if not |
| `ScanMeaning.WholeSpansAre` | src/display.c:634-657 | those blocks cover exactly the tiles in the closure of the tiles that differ in a line compared in their row, and all tiles of a row where the differing (line, tile) pairs with the tiles the closure adds are more than 16 (with src/scan.c:382-383) |
| `ScanMeaning.RequestAlone` | src/scan.c:370-383 | with nothing else pending the new reports are pairwise disjoint, on the screen and the region; there are none exactly when the screen cannot be used or equals the shadow |
| `ScanMeaning.RequestCovers` | src/scan.c:370-383 | for the sizes with coverage every differing pixel lies in one of them |
| `ScanMeaning.AreaIteration` | src/scan.c:436-441 | an area report comes off and out of the region; where its area was read and still lies on the screen the shadow shows it, pixel by pixel, and nowhere else does it change |
| `ScanMeaning.ExitIteration` | src/scan.c:431-434 | an exit report comes off and nothing else happens |
| `ScanMeaning.PatternIsSpread` | src/scan.c:54-59 | the pattern is spread evenly at every scale: its first half, quarter and so on are the multiples of 2, 4, 8 and 16 |
| `Convergence.PatternVisitsAll` | src/scan.c:54-59 | the scan pattern visits every one of the 32 offsets |
| `Convergence.Drain` | src/scan.c:436-441 | after one iteration per queued report the queue and the region are empty and every rectangle that was queued shows the screen |
| `Convergence.Round` | src/scan.c:317-360 | one scan and its drain make every line at that offset show the screen and spoil nothing (with src/scan.c:409-445) |
| `Convergence.Rounds` | src/scan.c:332-333 | after k rounds every offset visited shows the screen |
| `Convergence.Converges` | src/scan.c:54-59 | from any shadow, any place in the pattern and any pending areas, draining the queue and exactly 32 periodic scans, each drained, make the shadow equal the screen, and it stays equal (with src/scan.c:317-360, src/scan.c:409-445) |
| `Convergence.ConvergesIff` | src/scan.c:178 | every shadow comes to equal every screen of a size exactly when the width leaves a remainder of at most one modulo 32 (with src/scan.c:317-360, src/display.c:570-573) |
| `Convergence.NeverSame` | src/scan.c:178 | for every other width there are a shadow and a screen that never become equal (with src/display.c:570-573) |
| `FrameClock.FrameIntervalRounds` | spice-video-dummy/src/display.c:73-74 | the interval is the frame time rounded to the nearest microsecond |
| `FrameClock.MscIs` | spice-video-dummy/src/dummy.h:108-111 | in range nothing wraps: the counter is the base plus the whole intervals gone by |
| `FrameClock.FrameBrackets` | spice-video-dummy/src/dummy.h:100-112 | every instant lies at or after the start of the frame shown and before the start of the next (with spice-video-dummy/src/present.c:56-66) |
| `FrameClock.MscMonotone` | spice-video-dummy/src/dummy.h:100-112 | a later reading shows no smaller counter |
| `FrameClock.SetModeKeepsCount` | spice-video-dummy/src/display.c:68-74 | the counter does not move at the instant of a mode set |
| `FrameClock.FrameAfter` | spice-video-dummy/src/present.c:56-66 | once a frame's start has come the counter shows at least that frame |
| `FrameClock.CounterNeverDecreases` | spice-video-dummy/src/dummy.h:100-112 | over any run of readings and mode sets on a monotone clock the counter never decreases (with spice-video-dummy/src/display.c:68-74) |
| `FrameClock.ReadingsMonotone` | spice-video-dummy/src/dummy.h:100-112 | everything shown later is at least what the clock shows now |
| `FrameClock.WrapIs` | spice-video-dummy/src/dummy.h:109-111 | 64-bit arithmetic keeps the value modulo 2^64 |
| `FrameClock.StoppedClock` | spice-video-dummy/src/dummy.h:109-111 | without an interval the counter stands still |
| `FrameClock.FrameTimeIs` | spice-video-dummy/src/display.c:73-74 | a mode has one frame time, rounded to the nearest microsecond, and that is what the driver computes |
| `FrameClock.ModeSetInstalls` | spice-video-dummy/src/display.c:68-74 | after a mode set in range the counter goes on by exactly the whole frames of the new mode |
| `FrameClock.CounterFollowsMode` | spice-video-dummy/src/display.c:68-74 | over any run of readings and mode sets, between a mode set and an event before the next the counter shown goes on by exactly the whole frames of that mode |
| `Vblank.FirstWith` | spice-video-dummy/src/present.c:147-153 | the first event with the id, none before it having it |
| `Vblank.KeepDue` | spice-video-dummy/src/present.c:81-88 | a fire splits the queue: the events kept are exactly those whose frame has not come, the others are due, and none is lost or doubled |
| `Vblank.KeepRising` | spice-video-dummy/src/present.c:81-88 | the events that stay keep their order |
| `Vblank.LiveStep` | spice-video-dummy/src/present.c:90-93 | every step keeps: while events wait the driver's timer is armed (with spice-video-dummy/src/present.c:123-132) |
| `Vblank.EventsConserved` | spice-video-dummy/src/present.c:68-154 | over every run each accepted event is waiting, notified or aborted, was notified only when its frame had come, and those waiting stand in the order they were accepted, with a timer armed |
| `Vblank.InOnePlace` | spice-video-dummy/src/present.c:81-88 | an accepted event is in exactly one place, once: never notified twice, never after an abort (with spice-video-dummy/src/present.c:147-153) |
| `Timers.QueueArms` | spice-video-dummy/src/present.c:123-132 | a queue step arms one more timer exactly if it succeeds and finds the queue empty |
| `Timers.SecondTimerIff` | spice-video-dummy/src/present.c:90-93 | with at most one timer armed, a step of any kind leaves more than one exactly when it queues an event to an empty queue with a timer armed (with spice-video-dummy/src/present.c:123-132) |
| `Timers.OneTimerIff` | spice-video-dummy/src/present.c:68-154 | over every run, more than one timer is armed at some time exactly when there is such a step |
| `Timers.AbortLeavesTimer` | spice-video-dummy/src/present.c:147-153 | an event queued first and then aborted leaves its timer armed |
| `Timers.TwoTimersArmed` | spice-video-dummy/src/present.c:123-153 | a run of queue, abort and queue that ends with two timers armed |
| `Timers.OneTimerRun` | spice-video-dummy/src/present.c:68-135 | in every run without aborts exactly the driver's timer is armed while events wait, and none otherwise |
| `Vblank.FirstDeadlineAhead` | spice-video-dummy/src/present.c:110-112 | the first deadline lies beyond the start of the next frame, whether or not the target has passed (with spice-video-dummy/src/present.c:128) |
| `Vblank.AheadStep` | spice-video-dummy/src/present.c:80-134 | every step keeps the timer set beyond the start of the frame after the one seen when it was set |
| `Vblank.OwnFireAdvances` | spice-video-dummy/src/present.c:80-93 | at every fire of the driver's timer the counter has advanced, despite the rounding to milliseconds |
| `Vblank.NotifiedInTime` | spice-video-dummy/src/present.c:80-93 | without mode sets an event is gone from the queue once the driver's timer has fired as often as frames were missing, whatever else is queued, aborted or fired (with spice-video-dummy/src/present.c:110-134) |
| `Vblank.FireRestoresAhead` | spice-video-dummy/src/present.c:80-93 | any fire, of whichever timer, sets the driver's timer ahead again, whatever mode sets did before |
| `Vblank.NotifiedAfterFire` | spice-video-dummy/src/present.c:80-93 | from any live state, in particular after mode sets with events waiting, an event is gone after the first fire and then as many fires of the driver's timer as frames were missing at that fire (with spice-video-dummy/src/present.c:110-134) |
| `VblankCalls.QueueFailsIff` | spice-video-dummy/src/present.c:114-134 | a queue call fails exactly when no node is to be had, or the queue is empty and no timer is to be had; then no event is lost or added and no timer touched, and without a timer the handle is empty |
| `VblankCalls.QueueAppends` | spice-video-dummy/src/present.c:121-134 | one that succeeds appends exactly this event; if others wait the timers stay as they are, else a new one is armed |
| `VblankCalls.FirstDeadlineExact` | spice-video-dummy/src/present.c:110-112 | that timer is set to the first millisecond after the start of the event's frame, or of the next frame if its own has started (with spice-video-dummy/src/present.c:128) |
| `VblankCalls.AbortRemovesFirst` | spice-video-dummy/src/present.c:147-153 | an abort removes the first event with the id, if there is one, and nothing else changes |
| `VblankCalls.FireNotifiesDue` | spice-video-dummy/src/present.c:80-88 | a fire notifies exactly the events whose frame has come, in order and with the counter, and keeps the others in order |
| `VblankCalls.FireAllowedIff` | spice-video-dummy/src/present.c:93 | a timer may fire exactly when it is armed and the clock has reached its millisecond |
| `VblankCalls.FireSetsTimer` | spice-video-dummy/src/present.c:90-93 | a fire disarms its timer and sets the driver's exactly when events remain, to the first millisecond after the start of the next frame; other timers stay |
| `VblankCalls.ModeSetKeepsEvents` | spice-video-dummy/src/display.c:68-74 | a mode set touches neither events nor timers, and the counter follows the new mode |
| `Present.WalkKeepsNodes` | spice-video-dummy/src/present.c:81-88 | the walk over the queue loses and doubles no list node |
| `Present.WalkSplits` | spice-video-dummy/src/present.c:81-88 | walking and unlinking in place keeps exactly the events not yet due and notifies the others in order |
| `Present.Crtc.DoTimer` | spice-video-dummy/src/present.c:68-96 | notifies and re-arms as the state machine says; no node is on two lists |
| `Present.Crtc.QueueVblank` | spice-video-dummy/src/present.c:98-135 | queues as the state machine says, with a reused or a new node, and reports both kinds of failure |
| `Present.Crtc.AbortVblank` | spice-video-dummy/src/present.c:137-154 | removes the first event with the id and only that |
| `Present.Crtc.SetModeMajor` | spice-video-dummy/src/display.c:68-74 | rebases the counter as the state machine says and leaves the lists alone |
| `Present.Crtc.FreeVblanks` | spice-video-dummy/src/present.c:207-222 | every node of both lists is freed once, in order, and both lists end empty |
| `SegmentCache.GetIsLeast` | src/display.c:263-306 | a hit is a held segment of the least size that is big enough; a miss means that none is |
| `SegmentCache.AddEvictsLeast` | src/display.c:320-352 | the segment that makes way is a smallest one and smaller than the new one; a refused one is no bigger than any held |
| `SegmentCache.TakenConserves` | src/display.c:290-292 | a hit takes exactly that segment out of the cache |
| `SegmentCache.PutConserves` | src/display.c:320-352 | what was held and the new segment are what is held after, what was evicted, and the new one if refused |
| `SegmentCache.AddCounts` | src/display.c:320-352 | one add keeps, for every size, as many segments of at least that size as there is room for |
| `SegmentCache.LargestKept` | src/display.c:312-356 | over any run of adds the cached sizes are the largest among the initial contents and everything offered, as many as there are slots |
| `SegmentCache.ShmCache.Get` | src/display.c:248-310 | the search with early exit finds the best fit, hands it out and empties its slot |
| `SegmentCache.ShmCache.Add` | src/display.c:312-356 | fills the first empty slot, or replaces a smallest smaller segment and destroys it, or refuses |
| `SegmentCache.ShmCache.Destroy` | src/display.c:358-369 | every held segment is destroyed once, and all slots are empty (with src/display.c:231-245) |
| `Ownership.SizeHoldsPixelsIff` | src/display.c:504-505 | the size asked for holds the pixels exactly when their bytes can be counted in 32 bits |
| `Ownership.DestroyConserves` | src/display.c:686-695 | a destroyed image's segment goes to the cache or is destroyed, and only what had to make way is destroyed with it |
| `Ownership.StepConserves` | src/display.c:490-535 | every step keeps: each segment ever allocated has one owner or was destroyed or lost, and each image's segment is big enough (with src/display.c:686-695, src/spice.c:697-713) |
| `Ownership.RunConserves` | src/display.c:231-369 | the same after every run of create, destroy, dispatch, release and cache destruction (with src/display.c:490-535, src/scan.c:132-163, src/spice.c:685-713) |
| `Ownership.OneOwner` | src/display.c:231-245 | the owners of a segment, the times it was destroyed and the times it was lost add up to one (with src/display.c:686-695) |
| `Ownership.LostExactly` | src/display.c:512-532 | as many segments are lost as allocations failed after the segment existed or draws had no release record (with src/spice.c:685-695) |
| `Ownership.ImagesHoldPixels` | src/display.c:504-508 | in every run an image's segment holds its pixels if they can be counted in 32 bits |
| `Ownership.RoomKeeps` | src/display.c:320-352 | with room in the cache a segment that is given back is kept and nothing is destroyed |
| `Ownership.ClosingRefillsCache` | src/display.c:756-763 | closing destroys exactly what was cached; with no more images than slots the segments of all images are in the cache afterwards, so it ends empty exactly when there was no image (with src/display.c:725-741) |
| `Ownership.ReleasesAdd` | src/session.c:66-70 | freeing a queue of draws is a run of adds to the cache (with src/spice.c:697-713) |
| `Ownership.ShutdownRemains` | src/main.c:142-158 | after the whole shutdown no image or record is left, the accounting still holds, and the cached sizes are the largest of the undelivered draws (with src/session.c:242-254, src/session.c:311-318) |
| `Ownership.ShutdownDestroysAllIff` | src/main.c:142-158 | every segment ever allocated is then destroyed or lost exactly when all draws had been delivered |
| `Ownership.UnsignedIs` | src/display.c:504-505 | sizes are taken modulo 2^32 |
| `Ownership.CreateTakesLeast` | src/display.c:504-509 | if a held segment is big enough an image takes one of the least such size and nothing is allocated |
| `Ownership.CreateAllocates` | src/display.c:511-534 | else exactly the size asked for is allocated, and the image exists if all went well |
| `Ownership.DispatchMoves` | src/scan.c:148-155 | a dispatched image belongs to its release record and to nothing else (with src/spice.c:685-695) |
| `Ownership.DestroyMoves` | src/display.c:686-695 | destroying an image takes exactly that image away; its segment is in the cache or destroyed |
| `Ownership.ReleaseMoves` | src/spice.c:697-713 | freeing a record does the same for its image |
| `Ownership.DestroyCacheEmpties` | src/display.c:358-369 | destroying the cache destroys all it holds and nothing else |
| `Listen.ReadPortStops` | src/listen.c:90-104 | a number is read the same whatever follows it, if that is not a digit |
| `Listen.ScanSpec` | src/listen.c:74-125 | the backward scan parses exactly as the forward description: trim, digits and hyphens, colon, address |
| `Listen.ListenParse` | src/listen.c:50-126 | the same with the URI prefixes |
| `Listen.ScanEnds` | src/listen.c:76-98 | the scan stops where the maximal tail of digits and hyphens starts, having found its only hyphen |
| `Listen.TwoHyphens` | src/listen.c:85-87 | a second hyphen makes the whole specification an error |
| `Listen.RangeRoundTrip` | src/listen.c:74-125 | `addr:start-end` gives exactly these three, for every non-empty address without a prefix |
| `Listen.PortRoundTrip` | src/listen.c:74-125 | `addr:port` gives the address, -1 and the port |
| `Listen.CanonicalRange` | src/listen.c:50-126 | the round trip of a range with decimal ports in int range; blanks behind and `spice://` in front change nothing |
| `Listen.CanonicalPort` | src/listen.c:50-126 | the same for a single port |
| `Listen.PortRefusedIff` | src/listen.c:110-124 | a port is refused exactly when more than one character stands before it and the last is not a colon |
| `Listen.RangeRefusedIff` | src/listen.c:110-124 | the same for a range |
| `Listen.OctalPort` | src/listen.c:103-104 | `host:010` is address `host` and port 8 |
| `Listen.OneCharacterAddress` | src/listen.c:112-124 | a single character before a port is taken as the address |
| `Listen.EmptyHostKeepsColon` | src/listen.c:116-123 | with no host before the colon the colon becomes the address |
| `Listen.BlanksIgnored` | src/listen.c:77-79 | blanks at the end do not matter for any specification but a Unix path |
| `Listen.UriPrefixIgnored` | src/listen.c:70-72 | `spice://` in front of a specification without a prefix changes nothing |
| `Listen.ReadAsDecimalIff` | src/listen.c:90-104 | a number is read as the decimal it looks like exactly when it fits in an int and has no leading zero or is below 8 |
| `Listen.OctalRead` | src/listen.c:90-104 | after a leading zero octal digits are read as octal |
| `Listen.DecimalWraps` | src/listen.c:90-104 | a decimal that does not fit in an int wraps around, and one that does not fit in a long is read as -1 |
| `Listen.UnixPath` | src/listen.c:62-68 | a Unix socket path is taken as it stands |
| `Listen.BlankSpecification` | src/listen.c:74-123 | nothing but blanks is no address and no port |
| `Listen.AddressAlone` | src/listen.c:74-123 | a text that ends in neither a blank, a port character nor a colon is an address without ports; a colon behind it is dropped |
| `Listen.PortsAlone` | src/listen.c:74-123 | a port or a range alone has no address |
| `Listen.HyphenNeedsNumbers` | src/listen.c:106-108 | a hyphen needs a number on both sides |
| `Listen.IsSpaceIs` | src/listen.c:78 | the blanks skipped at the end are the six of the C locale |
| `Resize.ConsistentRun` | src/session.c:72-92 | in every interleaving the lock, the in-progress flag and both threads agree (with src/session.c:230-240) |
| `Resize.ResizeSafety` | src/session.c:72-92 | past `flush_and_lock` the lock is held and no popped command is outstanding; a command is outstanding without a primary surface only if making the last one failed (with src/session.c:230-240, src/session.c:340-356) |
| `Resize.NothingPopped` | src/session.c:340-354 | from the return of `flush_and_lock` until the lock is released nothing is popped, whatever the threads do |
| `Resize.OutstandingNeedsFailure` | src/session.c:340-355 | in every run, a command is outstanding without a primary surface only if the last attempt to make one failed |
| `Resize.FailureExposesIff` | src/session.c:348-354 | right after a failed attempt the run can go on to a command outstanding without a primary surface exactly when the session is still running or the worker has already found it running (with src/session.c:79-90) |
| `Resize.CommandWithoutPrimary` | src/session.c:344-354 | a run from the start that ends in that state |
| `Resize.StoppedStillPops` | src/session.c:79-90 | a run from the start that ends in that state although the session has stopped, between the worker's test and its pop (with src/session.c:242-245) |
| `Resize.DrawsInOrder` | src/session.c:87 | in every run commands are popped in the order in which they were pushed, and none is skipped |
| `Resize.CallPops` | src/session.c:84-91 | with the lock free a call pops the oldest command, marks it in progress and executes it; with none waiting it clears the mark |
| `Resize.CallGivesUp` | src/session.c:84-85 | with the lock held a call changes nothing |
| `Resize.StoppedCallClears` | src/session.c:79-82 | a call that finds the session stopped clears the mark |
| `Resize.RunsUntilStopped` | src/session.c:79 | in every run the session is running exactly when it was and no stop has come |
| `Resize.FinishReturns` | src/session.c:86-91 | a finished command leaves the worker idle and everything else, the mark included, as it was |
| `Resize.OtherHoldersWait` | src/session.c:84-85 | while another thread holds the lock neither worker nor resizer gets it, and its release restores the state |
| `Resize.FlushDecides` | src/session.c:230-240 | with the lock the flush goes on exactly when no command is in progress; else the lock is given up and taken again |
| `Resize.RecreateReleases` | src/session.c:344-354 | after the flush the surface is destroyed and made anew, or not, and the lock is free again in either case; in between there is no surface |
| `Buttons.ConvertTwice` | src/session.c:169-180 | without the wheel the conversion is its own inverse on all 32-bit states |
| `Buttons.ConvertedBits` | src/session.c:171-179 | what happens to each of the five buttons |
| `Buttons.Pointer.HandleButtonChange` | src/session.c:153-167 | emits one event for each of the five buttons that changed, in order, and stores the state; nothing without control |
| `Buttons.StreamTracksState` | src/session.c:153-194 | over every run of calls each button's events strictly alternate, beginning with a press, and the pressed buttons are the low five bits of the stored state |
| `Buttons.SecondMotionUnseen` | src/session.c:159-188 | a second wheel motion in the same direction, with no other call between, does not press the wheel's button, whatever the button states |
| `Buttons.SecondMotionSilent` | src/session.c:159-188 | with the same buttons it changes neither events nor stored state |
| `Buttons.ChangesHas` | src/session.c:159-165 | an event of a button is emitted exactly when its bit changes, and it shows the new bit |
| `Buttons.ChangesRise` | src/session.c:159-165 | the events of one change come in the order of the buttons |
| `Buttons.WheelSeenIff` | src/session.c:159-188 | a wheel motion presses its button exactly when the stored state does not hold that button down, for every stored state, motion and button state |
| `Buttons.WheelClicks` | src/session.c:178-193 | a wheel motion and then a button call press and release exactly the wheel's button |
| `Buttons.NoControl` | src/session.c:156-157 | without control nothing is emitted and nothing stored, whatever the calls |
| `Buttons.DownAfterCall` | src/session.c:153-194 | after any run that ends with a call exactly the buttons of that call are down, the second and third exchanged, and the wheel's button |
| `Buttons.WheelSeenInRun` | src/session.c:159-188 | after any run a wheel motion presses its button exactly when that is not down |
| `Buttons.SecondMotionInRun` | src/session.c:159-188 | after any run the second of two motions in the same direction does not press the wheel's button, and with the same buttons emits nothing |
| `Buttons.WheelClicksInRun` | src/session.c:169-194 | after any run that ends with a button call, a motion and that call again press and release exactly the wheel's button |
| `Damage.DamageHandler.HandleNotify` | src/display.c:112-157 | the state and the pushed reports are those of one step, for whatever rectangles the region is kept as |
| `Damage.RegionIsDamage` | src/display.c:118-124 | the region is exactly what was damaged since the last flush (with src/display.c:156) |
| `Damage.FlushIsUnion` | src/display.c:118-157 | at each event without MORE a full-screen scan is requested, or a pixel is reported exactly when this event or one since the last flush damaged it |
| `Damage.DistrustIff` | src/display.c:134-138 | in auto mode distrust holds exactly when the number of full-screen flushes in a row, counted in 32 bits, is three or more (with src/display.c:767-774) |
| `Damage.LastThreeFull` | src/display.c:134-138 | short of a wrap-around that is exactly when the last three flushes were full-screen (with src/display.c:767-774) |
| `Damage.FlushByOption` | src/display.c:148-154 | each flush by the option: never trusted, always trusted, or trusted unless three or more flushes in a row were full-screen (with src/display.c:767-774) |
| `Damage.MoreIs` | src/display.c:121-124 | the MORE flag is the top bit of the level |
| `Damage.FullIgnoresPlace` | src/display.c:134-138 | damage is full-screen exactly when it has the size of the screen, wherever it lies |

## Left out

- Pixman regions are sets of pixels; the 16-bit coordinates of pixman boxes are taken to be large enough.
- Xlib, XCB, shared-memory calls, GLib queues and mutexes, the Spice server and the X server are parameters, sequences, locks and timers; their own correctness is not modelled.
- The result of reading the screen is a parameter, so a screen that changes while a scan runs is covered by the single-iteration results; convergence is about a screen that has stopped changing, with the scanner as the only producer and no full-screen request or exit pending.
- Convergence.Converges: assumes that reads of areas on the screen succeed.
- Scanner.Scanner.PushReport: a failed allocation and a queue that is being torn down are not modelled.
- Scanner.Scanner.HandleScanReport: an area of zero width or height, for which the source reads the whole display, is not modelled; tile reports are never empty (`Reports.TileRectBounds`), nor are the rectangles of a pixman region. Making and queueing the draw command is in `Ownership`.
- Scanner.Scanner.Periodic: the locks are not modelled; the interleaving of threads is in `Pending`.
- Display.Display.FindChangedTiles: the line image and the shadow are taken to have the same width, as between two resizes.
- The tuning of scan rates and timeouts is clamped arithmetic on a delay and does not influence what is scanned.
- Ownership.ShutdownRemains: how many of the draws the Spice server frees before the display is closed is a parameter; `session_destroy` then uses a cache mutex that has been cleared, which is not modelled.
- Vblank.NotifiedInTime: requires targets no earlier than the rebased counter and times below 2^64; whether timers fire on time is not claimed, since a later event with an earlier target does not move the timer.
- The 32-bit millisecond argument of X timers is not truncated in the model.
- Present.Crtc.FreeVblanks: the timer that may still be armed is not cancelled in the source either, and what it would then find is not modelled.
- Ownership.RunConserves: a segment's number stands for the segment itself; the reuse of System V identifiers after removal is not modelled, nor is the allocation of the image record itself.
- Listen.ListenParse: the values left in the out-parameters after an error are not modelled, nor are characters that are blank in other locales; strings hold no NUL.
- Port probing and socket set-up (`try_port`, `listen_find_open_port`) are plumbing around system calls.
- Resize.ResizeSafety: that `flush_and_lock` returns at all depends on the worker coming back for its next command and is not claimed; the destruction of a session after it has ended is not modelled.
- Buttons.StreamTracksState: a client that changes the control option between calls is not modelled, since the option is fixed at start.
- `output_create_mode` only fills in mode timings; `FrameClock` takes any timings.
- Option and key files, the agent's descriptors and read buffer, the GUI, audit records, key LEDs, cursor images, direct rendering and the driver entry points hand data to libraries and keep no state that the modelled parts depend on.
