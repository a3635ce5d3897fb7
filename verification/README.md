# noshare-cover: a verified model

noshare-cover replaces windows that must not be shared by covers in every screen capture,
while the screen itself keeps showing them. This project models the parts of it where being
right depends on algorithms and on state, and proves what they are for, in Dafny.

| file | what it models |
|---|---|
| `Regions.dfy`, `Stacking.dfy`, `Painter.dfy`, `PainterProofs.dfy`, `FrameProofs.dfy` | the cover painter: the finished image is patched in place, and must equal recomposing the window stack with covers, and must never depend on what is hidden |
| `Rules.dfy`, `Overrides.dfy` | the override slots edited while one frame is drawn (reveal, hold, suppress, scene swap), and their exact undoing |
| `Closing.dfy`, `ClosingRuns.dfy`, `Holding.dfy` | covers of surfaces that are gone or no longer hidden: close events, frames and pump ticks in any order; the hold of a surface that stops being hidden |
| `Clock.dfy`, `Gif.dfy` | the playback clock and the incremental GIF canvas, against the pictures the disposal rules of the GIF89a specification (section 23) define |
| `Registry.dfy`, `Textures.dfy` | the cover registry with its loader threads, and the texture cache keyed by cover id and generation |
| `Pipeline.dfy`, `VideoWorker.dfy` | looped playback over a stateful demuxer and decoder; the publish/poll protocol of the worker thread |
| `Bitstream.dfy`, `CodecConfig.dfy`, `AnnexBStream.dfy` | length-prefixed samples to Annex B, the avcC and hvcC records, splitting at start codes, the SPS level clamp |
| `Yuv.dfy` | YUV to BGRA: plane checks, fixed-point coefficients, rows, bands, threads |
| `Wrappers.dfy`, `Arith.dfy` | shared values and arithmetic |

`dafny verify dfyconfig.toml` checks the whole project.

Objects whose methods change their fields are classes here too, and their methods are proved
against functions on values; what the program promises is then proved about those functions.
Where other code decides (threads, the renderer, decoders, clients, the world's clock) the
model takes the outcome as a parameter, so every result holds for every outcome.

## What the proofs found

* The painter draws covers in list order, not in stacking order. Where two hidden windows
  overlap and the upper one is translucent and earlier in the list, the lower one's cover
  lands on top; `CrossedWindows` is the smallest such frame. `PatchFaithfulExactly` says that
  this is the only way in which rectangular windows differ from the recomposition, pixel by
  pixel; `ListDecides` gives, for every such geometry, contents that show the difference. No
  hidden content is involved: `HiddenContentsNeverShow` holds regardless of the order.
* Covers of hidden layers go over whatever is there, and only the shown layers of the two high
  levels are drawn again, only over covers of windows and of what is closing. So a shown
  overlay over a hidden layer disappears under its cover where no window is covered
  (`CoveredOverlay`). `FrameFaithfulExactly` has the exact condition for the whole frame, with
  hidden layers and closing covers, at every pixel.
* The texture cache remembers an unusable texture with the generation it was made for. The
  lookup that made it returns nothing, and the next lookup of the same frame returns it
  (`FailedUploadIsReused`); a lookup hands out an unusable texture exactly if it hits one
  (`HandsOutUnusableExactly`). Over whole runs of registry and cache, a draw shows an unusable
  texture if and only if an earlier upload of that very picture failed (`Textures.Run`): ids
  are not reused, generations grow and living covers are not pruned, so nothing that happens
  in between can make the cache forget it. The content is right in every case.
* A video frame is timed once. `GoesOutExactly`: it is dropped if it is more than 80 ms late
  then, and otherwise goes out whenever the worker wakes up, unless it quits, however late that is
  (`LateFrame`).

## Model

| member | source | states |
|---|---|---|
| Regions.Region.SubtractRounded | shim/paint.cpp:293-297 | A pixel goes exactly if it is in the box and not in a corner square; the side of those is the rounding, at least 0 and at most half the shorter side |
| Regions.CoreInNumbers | shim/paint.cpp:293-297 | The core is the box without its corner squares, in plain numbers: their side is the rounding, at least 0 and at most half the shorter side |
| Stacking.StableSortIsStacking | shim/paint.cpp:473-477 | A permutation is a stable sort by layer if and only if everything later in it is above everything earlier in the sense of isAbove |
| Stacking.StackingIsUnique | shim/paint.cpp:473-477 | There is only one bottom-to-top listing, so sort and isAbove cannot disagree |
| Stacking.StableSortByLayer | shim/paint.cpp:536-538 | The sort returns that listing: layers ascend, and equal ones keep their order |
| Painter.Canvas.SubtractBlockers | shim/paint.cpp:483-485 | What is left of a region is what no opaque, shown window above surely fills |
| Painter.Canvas.VisibleRegion | shim/paint.cpp:478-487 | The region is exactly the box pixels that no such window blocks |
| Painter.Canvas.PaintWindowCovers | shim/paint.cpp:488-530 | Every pixel becomes what the last covered window in the list reaching it draws; the painted area is exactly the covered pixels; the remembered clips are the nonempty visible regions |
| Painter.Canvas.RedrawRegion | shim/paint.cpp:545-559 | A translucent window is drawn again exactly on its pixels over a cover below it, not blocked, and not under a cover above it |
| Painter.Canvas.RedrawTranslucent | shim/paint.cpp:535-563 | Windows in the given order are drawn over each other exactly there |
| Painter.Canvas.PaintHiddenLayers | shim/paint.cpp:568-593 | Hidden layers that are in the image are covered over their whole box; nothing outside the painted area changes |
| Painter.Canvas.PaintClosing | shim/closing.cpp:225-263 | Closing covers go over the image in order, and the returned area is the union of their boxes |
| Painter.Canvas.PaintTopLayers | shim/paint.cpp:606-625 | Shown layers of level 2, then 3, are drawn again exactly where a window or closing cover was drawn |
| Painter.Canvas.PaintCovers | shim/paint.cpp:429-633 | The whole frame is the composition of the passes, in stacking order, and no pixel outside the painted area changes |
| PainterProofs.AboveTop | shim/paint.cpp:535-563 | Above the topmost cover at a pixel nothing opaque or covered reaches it, and exactly the translucent windows there are drawn again |
| PainterProofs.PatchIsRecomposition | shim/paint.cpp:473-563 | At every pixel where the topmost cover is the last in the list, the patched stack equals the bottom-up recomposition with every hidden window replaced by its cover |
| PainterProofs.FrameIsRecomposition | shim/paint.cpp:473-625 | The same for the whole frame with its layers: where no hidden layer and nothing closing reaches the pixel, the painted image is wallpaper, low layers, windows with covers, and top layers composed bottom up |
| PainterProofs.PaintFrame | shim/paint.cpp:429-633 | The painter, started on the finished image, ends with that picture, whichever way its sort lists the windows |
| PainterProofs.OpaqueOrLastAgrees | shim/paint.cpp:473-563 | That condition holds wherever the topmost hidden window is opaque or is last in the list among the hidden ones |
| PainterProofs.ListDecides | shim/paint.cpp:488-530 | Where the condition fails, there are contents of the same geometry for which the patch shows a different cover than the recomposition |
| PainterProofs.CrossedWindows | shim/paint.cpp:488-530 | Two hidden translucent windows on one pixel, the upper one first in the list: a valid rectangular frame in which the painter shows the lower one's cover and the recomposition the upper one's |
| PainterProofs.RoundedWindowExists | shim/paint.cpp:293-297 | A rounded opaque window that lacks a corner pixel of its box is a window of these frames, so the results on rounded shapes are not about rectangles only |
| PainterProofs.PatchFaithfulExactly | shim/paint.cpp:473-563 | Given a geometry, the patch equals the recomposition at a pixel for all contents if and only if the topmost cover there is the last one in the list |
| PainterProofs.CoveredOrSame | shim/paint.cpp:478-530 | At every pixel either a cover is drawn or the finished window stack shows nothing hidden, for rounded shapes between core and box and any stacking |
| PainterProofs.HiddenContentsNeverShow | shim/paint.cpp:429-625 | Two frames that differ only in the contents of hidden windows and layers are painted the same at every pixel |
| PainterProofs.LeftOutNeverShows | shim/paint.cpp:488-625 | Windows and layers with transparent covers leave no trace in a frame without them: neither they nor covers of theirs are in the picture, and they block nothing |
| PainterProofs.HiddenWindowIsCovered | shim/paint.cpp:488-530 | Every other hidden window shows as its cover where nothing else is |
| PainterProofs.HiddenLayerIsCovered | shim/paint.cpp:568-593 | Every other hidden layer, if it is the last hidden one in the list there, becomes its cover |
| FrameProofs.AgreeingSuffices | shim/paint.cpp:473-625 | Wherever the frame's shapes agree (windows by list order; a hidden layer last in the list, on top of the hidden ones, under exactly what is drawn again; no hidden high layer where something closes), the painted image is everything recomposed, with a cover in place of all that is hidden |
| FrameProofs.DisagreeingDiffers | shim/paint.cpp:473-625 | Wherever they don't, there are contents of the same shapes for which the two differ |
| FrameProofs.CoveredOverlay | shim/paint.cpp:568-625 | A hidden layer under a shown overlay and nothing else: the painter shows the cover, the recomposition the overlay |
| FrameProofs.FrameFaithfulExactly | shim/paint.cpp:473-625 | Given the shapes of a whole frame, painting over the finished image equals recomposing everything at a pixel for all contents if and only if the shapes agree there |
| Rules.HoldFor | shim/config.cpp:170-178 | The surface's own hold if it has one, else the setting; below 0 it is 0, above 60000 ms it is 60000 |
| Overrides.HiddenByHighest | shim/capture.cpp:333-341 | A surface is hidden exactly if a slot says so that no slot of a higher priority overrides |
| Overrides.PutBackUndoes | shim/capture.cpp:333-341 | Setting the highest slot and putting it back leaves the priority map as it was; while set, it alone decides |
| Overrides.RestoreNoScreenShare | shim/capture.cpp:351-358 | Undoing the edits turns every surface's slots back into what they were |
| Overrides.SuppressNoScreenShare | shim/capture.cpp:331-349 | Afterwards exactly the hidden surfaces in keep are hidden, and the edits undo it |
| Overrides.RevealFor | shim/capture.cpp:156-177 | Afterwards exactly the hidden surfaces the client doesn't see are hidden; the keys are those of the revealed ones |
| Overrides.Capture.HoldUnhidden | shim/capture.cpp:184-210 | Held are exactly the surfaces on screen, not hidden, not revealed, last covered less than their hold ago, with remembered rules that the client does not see |
| Overrides.Capture.TransparentOn | shim/scene.cpp:58-67 | The keys are those of the hidden surfaces in this capture whose effective rules are transparent |
| Overrides.Capture.SwapScene | shim/scene.cpp:76-143 | During the scene redraw exactly the hidden surfaces in left are hidden; slots are restored, the mirror's texture is swapped and the old one kept |
| Overrides.Capture.RenderOriginal | shim/capture.cpp:227-245 | Nothing is hidden while the compositor renders; slots and mirror texture are restored |
| Overrides.Capture.RenderMonitorWithCovers | shim/capture.cpp:213-249 | Over a whole frame: nothing hidden in the compositor's render; covered are exactly the hidden surfaces the client does not see, and those on screen last covered less than their hold ago with remembered rules it does not see; in the scene redraw exactly those whose rules, own or remembered, are transparent are hidden; every slot, the held marks and the mirror texture end as they began |
| Closing.FindFadeIsNearest | shim/closing.cpp:35-54 | A fade-out is found if and only if one is free that runs, fits in kind and monitor, and whose middle is no further away than the longer side of the box; it is the nearest of those, the last of equally near ones |
| Closing.Covers.FindFadeFor | shim/closing.cpp:35-54 | The search loop finds that one |
| Closing.Covers.StartClosing | shim/closing.cpp:60-75 | On a captured monitor a close event forgets the remembered cover and appends one searching closing cover; otherwise nothing changes |
| Closing.TrackedStarts | shim/closing.cpp:148-191 | Old closing covers stay; each new one belongs to a different entry of this monitor that is neither in the frame nor on screen, lies where that was and searches for 150 ms: without a fade-out if it was covered less than a second ago, else with one that suits |
| Closing.TrackedMisses | shim/closing.cpp:168-188 | Such an entry gets no closing cover only if it was covered a second ago or longer and no fade-out is free for it |
| Closing.RemainingExactly | shim/closing.cpp:148-160 | Remembered covers that stay are exactly those of other live monitors and those of this monitor seen in the frame, unchanged |
| Closing.Covers.TrackClosed | shim/closing.cpp:148-191 | The loop does exactly that, for any order of the hash map, and binds no live fade-out twice |
| Closing.TrackedKeepsDistinct | shim/closing.cpp:178-186 | Tracking keeps live fade-outs bound to at most one closing cover |
| Closing.PaintedKeepsDistinct | shim/closing.cpp:228-246 | So does a frame's pass over the closing covers |
| Closing.Covers.PaintClosing | shim/closing.cpp:225-263 | Every entry of the monitor is updated in its turn, the drawn ones are the live ones this client doesn't see and that weren't left out |
| Closing.RecordedExactly | shim/paint.cpp:503-515 | Covered surfaces are remembered with this frame's time and rules, held ones keep what they had |
| Closing.RememberedExactly | shim/paint.cpp:503-515 | After a whole frame covered surfaces are remembered with its covers, held ones as they were; others stay if they are revealed or of another monitor that exists |
| Closing.Covers.TakeShot | shim/paint.cpp:595-630 | A whole frame: closing covers tracked, then updated, in some order of the hash map; the drawn ones; the pump armed exactly if something is left to repaint; each remembered entry is what the cover, a hold or the absence of both makes it; new closing covers belong to surfaces neither covered nor on screen |
| Closing.TickDamages | shim/closing.cpp:106-115 | A tick damages the box of every closing cover on a captured monitor, also of those it drops; if it damages nothing, nothing survives |
| Closing.TickExactly | shim/closing.cpp:94-125 | A tick damages exactly the boxes of what is animated, while something animates, and of all closing covers, on captured monitors; exactly the closing covers on those whose hold is not over stay; with no damage it goes idle and forgets the boxes |
| Closing.SurvivingDistinct | shim/closing.cpp:115-115 | Dropping entries keeps fade-outs bound once |
| Closing.Covers.PumpTick | shim/closing.cpp:94-125 | The whole state after a tick: survivors, damage in order, and going idle with empty lists exactly when nothing was damaged |
| Closing.NextMovesForward | shim/closing.cpp:231-248 | One frame or tick moves an entry only forward. A frame binds it to a fade-out that suits, before the end of its search only; while that runs the entry lies exactly where it is; seen done, it starts the hold at once, and without one the hold counts from the end of the search; nothing else changes it. A tick drops it exactly if its hold is over |
| Closing.FrameIsMoment | shim/closing.cpp:228-246 | What a frame does to an entry in the list is one such moment, for the nearest fade-out that is left in its turn; other monitors' entries are left alone |
| ClosingRuns.EntryMoves | shim/closing.cpp:94-125 | One frame, close event or tick moves an entry of the list forward as above, wherever in the list it is, box included; a searching one binds the nearest fade-out that no other has by the end of the frame; what drops it also damages its box |
| ClosingRuns.HoldIsRight | shim/closing.cpp:231-246 | In any run a hold was started by one frame of the entry's monitor: if the entry followed a fade-out just before, a frame that saw it done, and the hold counts from that frame; if not, a frame after the bind deadline, and it counts from the deadline; plus the hold of the rules it closed with |
| ClosingRuns.DrawnUntilHoldEnds | shim/closing.cpp:228-260 | In every frame of its monitor in any run the entry is drawn if and only if its hold, if one has started, is not over, the client does not see it and it is not left out; while it follows its fade-out, that runs, and the entry lies where it is in this frame |
| ClosingRuns.BoxIsRight | shim/closing.cpp:237-238 | In any run an entry lies where its fade-out was in the last frame it followed it in, and where the surface closed if there is none |
| ClosingRuns.EntryLife | shim/closing.cpp:94-125 | Over any run an entry goes forward only, from searching to following to holding to dropped, and keeps the hold it got; a tick at or after the end of its hold drops it, and damages its box |
| ClosingRuns.Run | shim/closing.cpp:94-263 | The code's run of frames, close events and ticks is one that follows them state by state: what is remembered, the closing covers, what they were started for, the boxes to repaint, the pump, everything drawn and every box damaged, from where it starts to where it ends |
| ClosingRuns.OneCoverPerClose | shim/closing.cpp:63-72 | In any run a close event leads to one closing cover, whatever frames, ticks and other events follow |
| ClosingRuns.FadesStayDistinct | shim/closing.cpp:45-46 | At any point of any run, with fade-outs starting and ending in between, no existing fade-out is bound to two closing covers |
| Holding.RememberedDecides | shim/capture.cpp:184-210 | What is remembered decides like the last frame the surface was really hidden in, with the rules it had then |
| Holding.TakenEntry | shim/paint.cpp:503-515 | A frame that covers a surface leaves it remembered as it is now, or as it was if it is only held; one that doesn't forgets it |
| Holding.RunHold | shim/capture.cpp:184-210 | Over any run of frames the code's own decision, on what the frames before left remembered, covers a surface exactly when it is hidden or less than its hold after it was last really hidden: the hold never renews itself |
| Clock.PlaybackClock.Position | src/clock.rs:28-41 | The first call starts the clock at position 0. The position is the scaled time since then; at or after the end of a clip its last moment, or, with looping, that time less whole clips |
| Clock.PositionInNumbers | src/clock.rs:28-41 | The same of the specification function, for every start, time and length |
| Clock.PositionInside | src/clock.rs:31-40 | A known clip is never left |
| Clock.PositionMonotone | src/clock.rs:36-36 | Without looping the position never goes back |
| Clock.PositionPeriodic | src/clock.rs:33-34 | With looping, a whole number of clip lengths later the position is the same |
| Gif.Open | src/media/gif.rs:56-85 | A GIF opens if and only if it has a size and a frame; size, background, areas, pixels and disposals are the file's; a delay under two hundredths of a second becomes a tenth, others stay |
| Gif.OverPixel | src/media/gif.rs:139-161 | Each pixel of a composed canvas is the frame's, blue first and solid, where the frame has one that is not transparent, and the canvas' elsewhere |
| Gif.Clip.DisposalInNumbers | src/media/gif.rs:164-189 | Byte by byte what a frame is drawn over: the background in the beginning; then the last picture, with the background or the picture before it in the last frame's area if that asks for it |
| Gif.Clip.RestoreArea | src/media/gif.rs:176-180 | A frame draws nowhere but in its area, so restoring the whole canvas is restoring that area |
| Gif.Clip.FrameAtExact | src/media/gif.rs:116-125 | Inside the clip the visible frame is k if and only if the position lies in k's interval of the prefix sums |
| Gif.Clip.FrameAtMonotone | src/media/gif.rs:116-125 | A later position never shows an earlier frame |
| Gif.FrameInNumbers | src/media/gif.rs:116-125 | The frame at a time of a clock: without looping the one whose interval holds the scaled time, the last one after the end; with looping the same after whole clips |
| Gif.GifSource.ClearCanvas | src/media/gif.rs:104-113 | The canvas is the background everywhere, nothing shown, no backup |
| Gif.GifSource.FillRect | src/media/gif.rs:127-137 | Exactly the pixels of the rectangle inside the canvas get the colour |
| Gif.GifSource.Blit | src/media/gif.rs:139-161 | The canvas becomes itself with the frame's opaque pixels over it, red and blue swapped, clipped |
| Gif.GifSource.Step | src/media/gif.rs:164-189 | From the reference picture of a frame to that of the next one, under its disposal; the backup of a Previous frame is the picture before it |
| Gif.GifSource.Show | src/media/gif.rs:191-205 | From any reachable state the canvas becomes the from-scratch picture of the target, within the bound on steps |
| Gif.GifSource.FrameAt | src/media/gif.rs:116-125 | The loop finds the frame at a position |
| Gif.GifSource.Poll | src/media/gif.rs:223-237 | After every poll the last frame handed out is the reference picture of the frame whose interval holds the scaled time since the start, less whole clips if it loops, the last frame after the end if not; a frame comes exactly when it changed, with the next generation |
| Gif.Play | src/media/gif.rs:219-237 | In any run of polls and restarts the screen shows the reference picture the clock asks for after every poll; at the end it shows the last frame handed out |
| Gif.NeverStepsBack | src/media/gif.rs:116-125 | Without looping, between restarts, a later poll never shows an earlier frame |
| Registry.FailedForGood | src/registry.rs:250-321 | Over any run of resolves a failed cover stays failed and shows nothing |
| Registry.FailedExactly | src/registry.rs:235-322 | Over any run of resolves a cover has failed exactly if it had at the start, or in one of them its loader had not started or could not open the file, or its source, ready or just delivered and not yet polled in that frame, gave an error; and then it shows nothing |
| Registry.ResolvesBecome | src/registry.rs:247-321 | Every resolve of a run: a source that is delivered makes the cover ready and is polled once in the frame, its frame becomes the picture; an error leaves no picture; a missing file waits a second from the look that missed it, and is opened again if a later look finds it |
| Registry.ResolveInNumbers | src/registry.rs:235-352 | A resolve of the registry does exactly this to the one cover, a new one under the next id if there is none, and returns its picture; others, settings, epoch and frame stay |
| Registry.DeliveredIsShown | src/registry.rs:263-315 | The first resolve after delivery shows the first frame or a newer one |
| Registry.LooksAreApart | src/registry.rs:250-298 | Over any run of resolves, whatever opens and goes missing in between, a missing file is looked for at most once a second |
| Registry.PolledOncePerFrame | src/registry.rs:301-315 | Resolving a ready cover again in the same frame changes nothing |
| Registry.ConservedWithout | src/registry.rs:177-185 | Removing a cover and parking or joining its loader keeps every loader owned exactly once |
| Registry.ConservedSpawn | src/registry.rs:335-352 | A new loader is owned by the cover it opens and by nothing else |
| Registry.PicturesUpdate | src/registry.rs:247-315 | Changing one cover under its own id leaves everything known under other ids |
| Registry.DeliveredKnown | src/registry.rs:263-299 | A delivered source is the first that becomes ready under its id, and its picture the first known |
| Registry.PolledKnown | src/registry.rs:301-315 | A polled picture is newer than all known under its id |
| Registry.Registry.UndeliveredIsOwned | src/registry.rs:141-154 | In every reachable state a loader that has not delivered is not joined and is owned by exactly one opening cover or parked once |
| Registry.Registry.Retire | src/registry.rs:177-185 | A removed cover's loader that has not finished is cancelled and parked, not joined; a finished one is joined; others do not change |
| Registry.Registry.SetSettings | src/registry.rs:200-215 | Equal settings change nothing; others raise the epoch, retire everything and open only the default cover, if there is one, under a new id; no join waits |
| Registry.Registry.Warm | src/registry.rs:327-333 | Opens a cover once; an existing one or an empty path is left alone |
| Registry.Registry.BeginFrame | src/registry.rs:228-232 | Exactly the finished parked loaders are joined, without waiting |
| Registry.Registry.EndFrame | src/registry.rs:355-370 | Exactly the covers unused for 30 s go, except the default one; no join waits |
| Registry.Registry.Receive | src/registry.rs:263-299 | A result is taken and the loader joined only if it has delivered |
| Registry.Registry.Resolve | src/registry.rs:235-322 | The cover of the requested play becomes what the source's steps make of it, others don't change, and the returned picture is the one known under its id and generation |
| Registry.EvictionKeepsAnimating | src/registry.rs:354-388 | Ending a frame never changes whether the registry is animating, then or later |
| Registry.ResolvedAnimates | src/registry.rs:372-388 | A resolve that leaves its cover opening or animated keeps the registry animating for 30 s, and no longer if it is the only cover and is not resolved again |
| Registry.Registry.Drop | src/registry.rs:90-97 | When the registry goes away every thread ever started has been joined, the unfinished ones cancelled first |
| Textures.TextureCache.TextureFor | shim/paint.cpp:25-65 | A reset core empties the cache first; a hit hands out the entry; a miss updates a usable texture of that size made from pixels in place, else makes a new one, and hands out only a usable one; the entry is this frame's afterwards and no other changes |
| Textures.LookShowsFrame | shim/paint.cpp:25-65 | A lookup of a known picture hands out that picture, whatever the upload comes to, and the cache stays coherent with all pictures known |
| Textures.TextureCache.Prune | shim/paint.cpp:257-262 | Every 120th frame exactly the textures of covers that are gone are dropped |
| Textures.ToldPruned | shim/paint.cpp:257-262 | Pruning forgets no failed upload of a living cover and keeps the cache coherent |
| Textures.FailedUploadIsReused | shim/paint.cpp:31-64 | After any lookup whose upload gave an unusable texture, the next lookup of that frame returns it |
| Textures.HandsOutUnusableExactly | shim/paint.cpp:31-64 | A lookup hands out an unusable texture if and only if it hits one; its own upload leaves one if and only if it misses, can't update in place, and the renderer gives a bad texture |
| Textures.UnusableIsLogged | shim/paint.cpp:25-65 | A draw of a living cover's newest picture hands out an unusable texture if and only if an upload of that picture has failed |
| Textures.ToldLooked | shim/paint.cpp:25-65 | Every draw keeps the log of draws and the cache in agreement |
| Textures.UsableStaysUsable | shim/paint.cpp:31-64 | With usable textures and successful uploads every lookup returns a usable texture of the frame |
| Textures.Run | src/registry.rs:200-370 | Over every run of settings changes, evictions, retries, polls, thread steps, pruning and draws, with any upload outcomes: each drawn texture shows the picture current for its cover, there is one whenever the upload is good and a picture is current, and it is unusable if and only if an earlier upload of that picture failed |
| Pipeline.Pipeline.NextFrame | src/media/video/pipeline.rs:96-122 | The loop returns what the turn function gives for the duration the file states, nothing being zero, including the guard |
| Pipeline.LoopReturns | src/media/video/pipeline.rs:96-122 | With frames to come, a call returns the next one if and only if the silent turns before it fit under the guard, else the error |
| Pipeline.LoopEnds | src/media/video/pipeline.rs:103-106 | Without looping, after the last frame a call reports the end and stays there |
| Pipeline.StartsPlaying | src/media/video/pipeline.rs:77-86 | A pipeline that was just opened has all frames of its first pass to come |
| Pipeline.Play | src/media/video/pipeline.rs:96-122 | The code's run of calls goes from position to position as the turn function says, from where it starts to where it ends |
| Pipeline.PlayLooped | src/media/video/pipeline.rs:96-122 | In any run of looped calls from the start, call n returns frame n mod the length, its pts moved by n div the length durations, however the decoder groups its output in each pass |
| Pipeline.PlayOnce | src/media/video/pipeline.rs:96-122 | In any run of calls without looping, call n returns frame n, and after the last one the end |
| Pipeline.TimelineIncreases | src/media/video/pipeline.rs:107-107 | The pts of the endless timeline strictly increase if those of one pass do and lie within the duration |
| Pipeline.PlayFile | src/media/video/pipeline.rs:77-122 | A file opened and played in a loop: call i returns frame i mod the length with its pts moved by i div the length times the duration the demuxer states; so if it states one and the pts of a pass increase below it, they increase for ever |
| VideoWorker.VideoSource.Poll | src/media/video/mod.rs:111-128 | Afterwards nothing is waiting; a frame is returned exactly if one was published since the last poll, and it is the newest |
| VideoWorker.VideoSource.CheckWatched | src/media/video/mod.rs:154-171 | Quit, sleep if nobody polled for 400 ms, or go on; only a sleep forgets the clock's origin |
| VideoWorker.VideoSource.Time | src/media/video/mod.rs:192-216 | A frame is due at the origin plus the scaled pts difference to it; it is waited for until then, dropped when more than 80 ms late, else published |
| VideoWorker.VideoSource.Wake | src/media/video/mod.rs:196-213 | Waiting ends at quit or when the frame is due, not before; the instant it was timed at is kept |
| VideoWorker.VideoSource.PublishFrame | src/media/video/mod.rs:218-226 | The next generation is published and becomes the latest, with the invariant that latest is present exactly when the poller is behind |
| VideoWorker.SentIsLastPoll | src/media/video/mod.rs:111-128 | In every interleaving the poller's counter is the number of frames published at its last answered poll |
| VideoWorker.PollsGetTheNewest | src/media/video/mod.rs:111-128 | An answered poll hands out a frame if and only if more is published than at the last one, and it is the newest |
| VideoWorker.GoesOutExactly | src/media/video/mod.rs:192-226 | A timed frame goes out at a later moment if and only if it is due by then and was not more than 80 ms late when timed; so it goes out later than that exactly if it was not yet that late when timed |
| VideoWorker.LateFrame | src/media/video/mod.rs:196-226 | A frame due at 10 and timed at 0 that goes out at 1000, at normal and at double speed |
| VideoWorker.Run | src/media/video/mod.rs:106-228 | The code follows the two parties' steps in every interleaving; every poll is refused exactly on an error with nothing published, else hands out a frame exactly if one is new, the newest, with increasing generations; nothing is published before it is due, nor if it was more than 80 ms late when timed |
| Bitstream.SpellBigEndian | src/media/video/bitstream.rs:110-112 | Reading a number written in big-endian bytes gives it back |
| Bitstream.BigEndianSpell | src/media/video/bitstream.rs:110-112 | Writing the number some bytes spell gives them back |
| Bitstream.BigEndianJoins | src/media/video/bitstream.rs:110-112 | In every split of some bytes the first part is the more significant one |
| Bitstream.FourBytes | src/media/video/bitstream.rs:110-112 | Four bytes spell a 32-bit number, the most significant first |
| Bitstream.AnnexBJoins | src/media/video/bitstream.rs:9-9 | A stream is the four bytes 0 0 0 1 and the unit, for each unit in order |
| Bitstream.NonEmptyOne | src/media/video/bitstream.rs:113-115 | An empty NAL leaves nothing, another one itself |
| Bitstream.NonEmptyJoins | src/media/video/bitstream.rs:107-118 | What NALs leave stays in their order |
| Bitstream.NalsOfEncoded | src/media/video/bitstream.rs:107-118 | Decoding the encoding of a NAL list gives the list |
| Bitstream.EncodedFromNals | src/media/video/bitstream.rs:107-118 | A sample that decodes is the encoding of what it decodes to |
| Bitstream.SampleIsEncoding | src/media/video/bitstream.rs:97-98 | A sample decodes if and only if some NAL list encodes to it |
| Bitstream.Reader.Take | src/media/video/bitstream.rs:37-41 | The next n bytes, or None without moving if they run past the end |
| Bitstream.ToAnnexB | src/media/video/bitstream.rs:99-120 | None exactly if the sample encodes no NAL list; else the parameter sets on keyframes and the non-empty NALs, each behind a start code |
| CodecConfig.ReadWrittenAvcC | src/media/video/bitstream.rs:48-70 | Reading a written record gives it back |
| CodecConfig.WrittenParts | src/media/video/bitstream.rs:48-65 | Where the version, the profile, the length size, the counts and the sets of both kinds stand in an avcC record |
| CodecConfig.SetsOne | src/media/video/bitstream.rs:57-60 | A set stands behind its length in two bytes, the more significant first |
| CodecConfig.SetsJoins | src/media/video/bitstream.rs:57-60 | Sets stand one after the other |
| CodecConfig.AvcCExactly | src/media/video/bitstream.rs:48-70 | The configuration read is that of the record that was written, and nothing else is accepted; length size 3 is refused |
| CodecConfig.ParseAvcC | src/media/video/bitstream.rs:48-70 | The cursor parser returns exactly that configuration |
| CodecConfig.ReadWrittenHvcC | src/media/video/bitstream.rs:73-95 | Reading a written record gives it back |
| CodecConfig.WrittenHvcCParts | src/media/video/bitstream.rs:73-83 | The same for the fixed part of an hvcC record |
| CodecConfig.AllNalsJoins | src/media/video/bitstream.rs:82-90 | The NALs of all arrays follow each other in the order the arrays stand in |
| CodecConfig.HvcCExactly | src/media/video/bitstream.rs:73-95 | The same for hvcC, with the NALs of all arrays in order |
| CodecConfig.ParseHvcC | src/media/video/bitstream.rs:73-95 | The cursor parser returns exactly that configuration |
| AnnexBStream.SplitAnnexB | src/media/video/bitstream.rs:99-120 | Splitting a stream of clean units at its start codes gives the units back |
| AnnexBStream.AnnexBRoundTrip | src/media/video/bitstream.rs:99-120 | For every encodable NAL list of clean non-empty NALs the rewrite succeeds and splitting gives the parameter sets (on keyframes) and the non-empty NALs |
| AnnexBStream.ClampSpsLevel | src/media/video/decode/h264.rs:355-372 | The skipping scan changes exactly the SPS levels above 52, and returns None exactly if there is none |
| AnnexBStream.ClampKeepsStructure | src/media/video/decode/h264.rs:359-366 | Start codes stay where they are, none comes to be, and no NAL header changes |
| AnnexBStream.ClampTwice | src/media/video/decode/h264.rs:355-372 | The clamp gives the lowered data if there is anything to lower, and on its own output None |
| AnnexBStream.ClampOfAnnexB | src/media/video/decode/h264.rs:355-372 | On a rewritten sample the clamp is the clamp of each SPS unit on its own |
| AnnexBStream.SplitOfClamped | src/media/video/decode/h264.rs:355-372 | Splitting afterwards gives the same units, only SPS levels lowered |
| Yuv.PxIsNearExact | src/media/video/yuv.rs:110-143 | For every matrix, range and 8-bit Y, U, V each channel is within 0.52 of the exact conversion clamped to 0..255 |
| Yuv.ExactInvertsForward | src/media/video/yuv.rs:29-36 | The exact conversion solves the forward equations of luma and chroma, with the published weights of red and blue of each matrix, in limited and full range |
| Yuv.GreyIsGrey | src/media/video/yuv.rs:133-143 | With U and V at 128 the pixel is grey; Y = 16 and 235 are black and white in limited range, and in full range Y is kept |
| Yuv.PxFits32 | src/media/video/yuv.rs:133-143 | No intermediate of that conversion leaves 32 bits |
| Yuv.SampleInside | src/media/video/yuv.rs:157-159 | Every sample of an accepted plane lies inside its data |
| Yuv.PlaneOkExactly | src/media/video/yuv.rs:157-159 | A plane is accepted exactly if its rows do not overlap and every sample lies inside its data |
| Yuv.SamplesOf | src/media/video/yuv.rs:145-155 | The luma of a pixel and the chroma of its block are the bytes at their places, or above 8 bits two bytes with the less significant first shifted down, for separate and for interleaved planes |
| Yuv.StoredNumber | src/media/video/yuv.rs:145-155 | A number of up to bitDepth bits comes down to its 8 most significant ones |
| Yuv.HalfInside | src/media/video/yuv.rs:169-170 | The chroma sample of every pixel exists, for odd sizes too |
| Yuv.PixelNear | src/media/video/yuv.rs:146-234 | Every pixel of every accepted image, in any layout and depth, is within 0.52 of the exact conversion of its samples |
| Yuv.ConvertRow | src/media/video/yuv.rs:213-234 | The general path converts exactly the bytes of its row |
| Yuv.ConvertRowFast | src/media/video/yuv.rs:200-212 | The fast path writes the same bytes as the general path |
| Yuv.ByteOf | src/media/video/yuv.rs:193-212 | The output is row by row, pixel by pixel, four bytes each |
| Yuv.BandsPartition | src/media/video/yuv.rs:245-251 | For any number of threads every row lies in exactly one band |
| Yuv.ConvertBands | src/media/video/yuv.rs:244-252 | Bands finishing in any order convert the whole picture |
| Yuv.ToBgra | src/media/video/yuv.rs:162-255 | None exactly for sizes, depths or planes that don't fit; else every byte is that of its pixel, for any number of threads |

## Left out

- Hyprland, OpenGL, Wayland and plugin glue (hooks, framebuffers, render passes, the software cursor, `shim/main.cpp`): foreign calls.
- Blur and pixelate covers, antialiased edges and the blur of redrawn windows: they read neighbouring pixels through the GPU. Covers are content-independent here, and a surface's look at a pixel depends on the colour below that pixel only.
- Zoom, monitor scale and fractional positions: boxes are integers already in capture pixels.
- Popup boxes and extra rectangles: each is one opaque box drawn with no occlusion logic.
- Views without a rule applicator, null list entries and monitors that went away during the frame: skipped by the source, not present in the model.
- Painter.Canvas.PaintWindowCovers: draws window covers only; what the same loop remembers of them is `Closing.Covers.RecordCovered`, popups and the list of boxes to repaint are left out.
- Painter.Canvas.PaintHiddenLayers: draws layer covers only, with the same omissions.
- Painter.Canvas.PaintCovers: popups, extra rectangles, blur and pixelate are not drawn.
- Painter.Canvas.PaintClosing: gets the entries that are drawn; which ones those are is `Closing.Covers.PaintClosing`.
- PainterProofs.PatchIsRecomposition: states rectangular windows; rounded corners are part of the non-interference result only.
- PainterProofs.FrameIsRecomposition: excludes pixels that a hidden layer or a closing cover reaches; `FrameProofs.FrameFaithfulExactly` has them.
- FrameProofs.FrameFaithfulExactly: rectangular windows and closing covers, layers of levels 0 to 3; what is closing belongs right over the windows, as nothing records where it was.
- PainterProofs.HiddenContentsNeverShow: covers are media or black; fade-outs of closing surfaces are not part of the finished image that is compared.
- The `show_to` / `hide_from` matching of a client: `sees` is any predicate on rules.
- Overrides.Capture.TransparentOn: whether something with a transparent cover is closing, and whether the scene can be drawn, are parameters of the frame.
- Overrides.Capture.SwapScene: called only when the scene can be drawn; locked sessions, missing framebuffers and other monitors' mirrors are the parameter `canDraw`.
- Overrides.RestoreNoScreenShare: a surface that appears or goes away while the frame is drawn is not modelled.
- Closing.Covers.FindFadeFor: distances are compared squared, between middles of integer boxes.
- ClosingRuns.EntryLife: assumes the monitor stays captured and that a bound fade-out outlives the frame that sees it done.
- Holding.RunHold: one monitor that the surface stays on; frames of clients that see the surface in between are not modelled.
- When the pump's timer fires and what asks for the repaint: a tick is an event that can happen at any moment.
- Which boxes are kept for repainting animated covers while a frame is drawn: `PumpTick` takes whatever list there is.
- Clock.PlaybackClock.Position: playback speed is any scaling of elapsed time that keeps order and zero; the rounding of `mul_f64` is not modelled.
- Clock.PositionInNumbers: says nothing in numbers about looped clips over 2^64 ns long, whose position the source cuts to 64 bits.
- Reading and decoding GIF files, and pixel offsets over 32 bits: frames arrive decoded, with width x height x 4 bytes each.
- Registry.Registry.Receive: the first look restarts a delivered source's timeline; what that does to a GIF is `Gif.GifSource.Shown`.
- Registry.Registry.Resolve: notifications about missing and broken files are left out; opening, file existence and polling are outcomes the world chooses.
- The loader's wait for a first frame, and panics in a decoder: a loader delivers any result at any moment.
- Cover ids, generations, epochs and frame numbers are unbounded; 64-bit counters do not wrap in practice.
- Textures.Run: starts with an empty cache; what the renderer draws with an unusable texture is not modelled.
- Effect buffers of the painter: no bookkeeping besides their age.
- Pipeline.Pipeline.NextFrame: errors of the demuxer, the decoder or the rewind are not modelled, and silent gaps must stay under the 4096-turn guard (`LoopReturns` has both sides of the guard).
- VideoWorker.Run: condition-variable wake-ups are the moments at which a step may happen; `div_f64` is any function of the pts difference.
- FFI decoders (NVDEC, VA-API, libvpx, rav1d, openh264), the demuxer crates, `dlopen`: unseen libraries. H.264's decoder counters and texts only report.
- Yuv.PxIsNearExact: coefficients are rounded from exact rationals, not from f64 values.
- Yuv.PixelNear: samples above 8 bits are compared after their shift to 8 bits.
- `src/extra.rs`, `src/config.rs`, `src/notify.rs`, `src/media/still.rs`, `src/gpu.rs`: list matching, parsing and I/O with easy facts.
