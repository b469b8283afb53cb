# Verified model of the Palma 2 Pro port

This Dafny project models the parts of the repository where a mistake leaves the screen stale or
the device unbootable, and proves what those parts promise.

* **The damage protocol and the refresh policy.** SurfaceFlinger publishes up to eight dirty
  rectangles through a lock-free sequence lock in shared memory (`Seqlock`, `DamageWriter`).
  The composer shim reads them word by word while the writer goes on, and decides on every commit
  whether and how to drive the e-ink panel (`EpdcShim`, refining the pure decision in
  `RefreshPolicy`). `EpdcRuns` and `RefreshRuns` follow whole runs: which pixels are ever stale, how
  refreshes are spaced, cleaned and numbered. `EpdcSystem` runs the writer, the shim object and the
  kernel together, from the first commit on, and ties them to those runs: what the kernel repaints is
  what the shim put into the request.
* **The dynamic-partition tools.** liblp metadata as bytes (`Bytes`, `LpMetadata`, and its structs
  written out in `LpFormat`), the extent allocator (`LpAllocator`), the table rebuild with its two
  checksums (`LpResize`, and the loops that compute it in `LpPatchSlot`), the whole image over any
  number of runs (`LpSuper`, `LpSuperRuns`), the unpacker (`LpUnpack`), the dump and its two readers
  (`LpDump`), the full and the delta flasher (`EdlLayout`, `EdlFlash`, `EdlDelta`, `EdlAgree`), and the
  tools combined (`LpStack`).
* **The boot and recovery image patchers.** newc archives (`Cpio`, `CpioFilter`, `RecoveryCpio`),
  property files (`Props`), and the image arithmetic (`BootImage`, `BootOverlay`, `RecoveryAdb`).
* **The transaction-code walks** of `scripts/aidl-txn-codes.py` (`AidlCodes`).

Code that works step by step is modelled as methods and classes with loops; each is proved against
a specification function or predicate, and the properties are proved about that specification.
Beside the properties that span operations, each operation's outcome is stated once more without its
specification function, as an if-and-only-if on what goes in.
`Common` and `Bytes` hold what several modules use. `dafny verify dfyconfig.toml` checks everything.

## What is assumed

* Memory is sequentially consistent: the shared mapping is the log of the writer's word stores, and
  a load returns the newest store to that word among those made so far. Load times are arbitrary, so
  every interleaving of one writer and one reader is covered, within one writer lifetime.
* The sequence word is 32 bits wide and wraps. Results that compare two of its values say so: they
  hold as long as fewer than 2^31 publications fall between the two loads.
* SHA-256 is any function to 32 bytes. gzip is a pair of functions where decompressing
  `compress(x)` followed by zeros gives `x`.
* Decoding UTF-8 with replacement undoes encoding, for every text. Files' texts are split into lines
  as `str.splitlines` does.
* `int(field, 16)` is any function that inverts `%08X`; `Cpio.FromHexReads` shows one.
* `edl ws` overwrites the device at a sector with exactly the bytes of the file, or fails if they do
  not fit on the device.
* Where definitions are large they are passed as function values (`Patching`, `Parser`, `Rounding`,
  `Filling`, `Repacking`) with a predicate that says what the value computes.

## Where the code does not do what it or its comments say

Each of these is a lemma with the exact condition, and where the condition is met by some inputs only,
a second lemma has one that fails.

* The initialiser asks for one full pass because the panel's contents are unknown. The first commit
  of an enabled shim repaints all of the panel exactly when it comes before the first publication, or
  finds the mapping contended, or cleans, or the newest frame asks for everything itself
  (`EpdcRuns.InitialFullPassReplaced`; `EpdcRuns.OnePixelFirst` has a frame after which it does not).
  The initialiser and the first publication are one call, so a commit between them is unlikely. The
  no-stale-pixels theorem therefore starts from a panel that matches the framebuffer.
* `read_damage` takes the sequence number before the throttle test, so a frame that arrives inside
  the interval is lost, not delayed (`EpdcRuns.ThrottledFrameLost`; `EpdcRuns.SecondFrameLost` has two
  frames 50 ms apart). On an attached, enabled shim, when each frame is followed by a real commit with an
  EPDC plane before the next one comes, with any validation passes and idle commits around, no pixel is ever stale exactly when no visible frame is
  throttled (`EpdcRuns.ServedIffNotThrottled`, `EpdcRuns.NeverStaleIffServed`). For any other run of an
  attached shim `EpdcRuns.ServedExactly` has the condition.
* Frames published between two commits are not accumulated: they are all served exactly when the
  newest one asks for every visible pixel of the others, a rectangle of it clamps to the panel, or the
  commit cleans (`EpdcRuns.CoalescedFrames`; `EpdcRuns.TwoPixelFrames` has two frames of which the
  first stays stale).
* A plane is driven only if it is among the first 32 distinct objects of the request, and among the
  first 32 objects ever enumerated (`EpdcShim.FetchedExactly`, `EpdcShim.Shim.DeliveredExactly`; the
  33rd of a request gets nothing in `EpdcShim.Shim.ThirtyThirdTracked`, the 33rd enumerated in
  `EpdcShim.Shim.ThirtyThirdFetched`).
* A validation pass forgets the tracked objects, so a request that is validated and then committed as it
  is, without its properties being added again, never reaches the panel (`EpdcSystem.CommitValidated`).
* The delta flasher asks for a device sector only at the start of each run. It agrees with the full
  flasher exactly when no run crosses a boundary between extents that are not adjacent on the device
  (`EdlAgree.DeltaRefinesFlash`; `EdlAgree.SwappedExtentsCross` has a layout in which one does).
* The two readers of a dump agree on a name exactly when no partition behind the first one of that
  name shows an extent (`LpDump.ReadersAgree`; `LpDump.SameNameDisagrees` has two on which they
  disagree). Extents that are not LINEAR silently vanish from a dump (`LpDump.DumpRoundTrip`,
  `LpDump.ZeroVanishes`).
* `strip_trailer` looks for the last `TRAILER!!!` and then for the last magic number in front of it.
  For a trailer in which the word does not occur again, it cuts in the wrong place exactly when the
  magic number occurs a second time inside the trailer's own header (`RecoveryCpio.StripExact`); an
  inode number of 0x70701 is enough (`RecoveryCpio.MagicInodeStays`).
* The second walk of `aidl-txn-codes.py` can never find a mismatch (`AidlCodes.NothingLeft`), and an
  insertion behind the last shared method is not reported (`AidlCodes.ReportedExactly`,
  `AidlCodes.LastInsertionMissed`).
* Rebuilding a boot image writes zeros between the end of a section and the end of its page. The image
  around the ramdisk is untouched exactly when there were zeros before (`BootOverlay.RestKeptIffZero`;
  `BootOverlay.StrayByteErased` has an image with a stray byte behind its kernel); the sections, the
  header page and the tail are kept whatever was there.
* `lp-resize-partition.py` says it updates every slot; it updates the two copies of the slot named
  (`LpSuperRuns.SlotIsolated`).

## Model

| member | source | states |
|---|---|---|
| Seqlock.PhaseInvariant | src/epdc_damage.h:28-37 | at every point between two word stores the sequence word is the phase mod 2^32, and whenever it is even the data words are exactly the publication it numbers |
| Seqlock.PhaseMonotone | src/epdc_damage.h:28-37 | the unbounded sequence number never goes back |
| Seqlock.PhaseAtRest | patches/main/0002-frameworks-native-surfaceflinger-publish-epd-damage.patch:135-142 | after all stores of a publication the sequence number is even and numbers it |
| Seqlock.AtomicWindow | src/epdcshim.c:333-354 | equal even sequence words at two times mean no publication in between, and every load in the window sees exactly that one publication |
| Seqlock.AttachedAfterInit | src/epdcshim.c:315-321 | a reader that sees the magic number sees a fully initialised mapping from then on |
| Seqlock.MagicKept | patches/main/0002-frameworks-native-surfaceflinger-publish-epd-damage.patch:56-65 | from the end of the initialiser on, magic number and version read as initialised |
| Seqlock.ChangeDetection | src/epdcshim.c:350-351 | two publications have the same sequence word exactly when a multiple of 2^31 publications lies between them |
| DamageWriter.DamageWriter.constructor | patches/main/0002-frameworks-native-surfaceflinger-publish-epd-damage.patch:56-65 | the initialiser's five stores, magic last |
| DamageWriter.DamageWriter.Merge | patches/main/0002-frameworks-native-surfaceflinger-publish-epd-damage.patch:111-133 | up to eight rectangles as they are, the bounding box for more, none for a forced pass |
| DamageWriter.DamageWriter.Announce | patches/main/0002-frameworks-native-surfaceflinger-publish-epd-damage.patch:135-142 | the stores of a publication in order, odd sequence number first and even one last |
| DamageWriter.DamageWriter.Publish | patches/main/0002-frameworks-native-surfaceflinger-publish-epd-damage.patch:96-143 | publishing appends exactly one merged publication to the log: the rectangles or the bounding box with full 0, or a full pass when forced or empty |
| DamageWriter.MergedCoverage | patches/main/0002-frameworks-native-surfaceflinger-publish-epd-damage.patch:114-138 | no dirty pixel is dropped by merging, and a region of one to eight rectangles asks for its own pixels only |
| DamageWriter.MergedExactly | patches/main/0002-frameworks-native-surfaceflinger-publish-epd-damage.patch:111-138 | a publication asks for everything exactly when forced or empty, for the region's own pixels with up to eight rectangles, and for exactly the bounding box, with full 0, with more |
| RefreshPolicy.ClampExact | src/epdcshim.c:455-463 | clamping keeps exactly the panel pixels of a rectangle that meets the panel |
| RefreshPolicy.SubmittedCovers | src/epdcshim.c:450-477 | the submitted rectangles are one to eight, non-empty, inside 1648x824, and cover exactly the asked pixels, or all when one clamps to the panel |
| RefreshPolicy.CoversAsWidthHeight | src/epdcshim.c:95-96 | coverage survives reading the rectangles as x/y/width/height |
| EpdcShim.DamageMap.Read | src/epdcshim.c:334-347 | one word load after any progress of the writer |
| EpdcShim.Shim.constructor | src/epdcshim.c:106-182 | the static state at load time |
| EpdcShim.Shim.RefreshTunables | src/epdcshim.c:396-413 | tunables are re-read on every thirtieth commit and otherwise stay |
| EpdcShim.Shim.AttachDamage | src/epdcshim.c:303-323 | tries every thirtieth time until attached, attaches only to an initialised mapping, and does attach at a due try that can open one; at most two word loads |
| EpdcShim.Shim.ReadDamage | src/epdcshim.c:327-356 | at most four attempts, and fewer only if a reading is accepted, of at most 36 word loads each; an accepted reading is one whole publication, the one then remembered as accepted, and reports `changed` exactly when the publications since the one accepted before are not a multiple of 2^31; a writer standing still between publications is always read; otherwise nothing is touched |
| EpdcShim.Shim.Attempt | src/epdcshim.c:333-354 | one attempt accepts exactly an even sequence word that did not change, and always succeeds when the writer stands still |
| EpdcShim.Shim.Accept | src/epdcshim.c:350-351 | the sequence word taken over numbers the accepted publication, and a change is reported exactly when the publications since then are not a multiple of 2^31 |
| EpdcShim.Shim.ReadOnce | src/epdcshim.c:334-348 | one attempt: sequence word, data words, sequence word, each at its own time |
| EpdcShim.Shim.ReadCounts | src/epdcshim.c:337-339 | the count is clamped to eight even when torn, and exact when the writer did not move |
| EpdcShim.Shim.InitParms | src/epdcshim.c:434-478 | the update array holds the submitted rectangles, all with the same marker and flag; update mode 1 and the quality waveform on a cleaning pass, otherwise the configured mode, and the fast waveform soon after the last refresh |
| EpdcShim.Shim.Lookup | src/epdcshim.c:482-521 | an object is enumerated at most once, never beyond 32 objects, and its entry equals a fresh enumeration |
| EpdcShim.FetchCount | src/epdcshim.c:484-492 | enumeration keeps what is cached, adds tracked objects only, and fills the cache up to 32 entries |
| EpdcShim.FetchedExactly | src/epdcshim.c:484-492 | a tracked object is in the cache after a driving commit exactly when it was there or the unknown objects tracked before it leave room for it |
| EpdcShim.Shim.Learn | src/epdcshim.c:502-513 | the last property of each wanted name wins |
| EpdcShim.Shim.ScanExactly | src/epdcshim.c:502-513 | an object's entry holds the last property of either name, and FB_ID is the last of that name |
| EpdcShim.Shim.AddProperty | src/epdcshim.c:525-542 | the tracked objects are the first 32 distinct ids of the request, each with the low 32 bits of the buffer last set on it, and the property is passed on unchanged |
| EpdcShim.TrackedAppend | src/epdcshim.c:530-537 | tracking one more property set adds its object exactly when it is new and there is room |
| EpdcShim.RememberStep | src/epdcshim.c:530-540 | one more property leads from the tracked objects and buffers of a request to those of the longer one |
| EpdcShim.BufferIsLast | src/epdcshim.c:539-540 | the buffer remembered for an object is the low 32 bits of the FB_ID set last, or 0 |
| EpdcShim.Shim.PendSignature | src/epdcshim.c:568-570 | the 32-bit signature of the tracked objects and buffers |
| EpdcShim.SignatureIsSum | src/epdcshim.c:568-570 | the signature is the sum of 131 times each id plus its buffer, weighted by powers of 31, modulo 2^32 |
| EpdcShim.OneBufferNoticed | src/epdcshim.c:568-571 | a new buffer on any one tracked object always changes the signature |
| EpdcShim.Shim.InjectOne | src/epdcshim.c:593-597 | looks the object up, and adds the update array and count exactly if it then is a known EPDC plane |
| EpdcShim.Shim.Inject | src/epdcshim.c:592-598 | every tracked object is looked up in order, so the known objects are exactly those FetchedExactly speaks of, and the request is extended by the injections of the known ones |
| EpdcShim.Shim.InjectionOnlyTracked | src/epdcshim.c:592-598 | properties are injected only on tracked EPDC planes, with the learned ids and the rectangle count |
| EpdcShim.Shim.DeliveredExactly | src/epdcshim.c:592-600 | a plane ends up with the update array and a count exactly when it is tracked, known and an EPDC plane, and the count is the number of rectangles; what the composer set before does not override it |
| EpdcShim.Shim.ThirtyThirdTracked | src/epdcshim.c:533-537 | the 33rd object of a request gets no update array |
| EpdcShim.Shim.ThirtyThirdFetched | src/epdcshim.c:484-492 | nor does the 33rd object enumerated |
| EpdcShim.Shim.PaintsExactly | src/epdcshim.c:592-602 | the kernel repaints a pixel exactly when the commit drives, its rectangles cover the pixel and some tracked EPDC plane is known |
| EpdcShim.Shim.Notices | src/epdcshim.c:557-576 | whether there is anything new: sequence number if attached, buffer signature otherwise |
| EpdcShim.Shim.Drive | src/epdcshim.c:578-598 | the throttle test and the update, with every tracked object looked up |
| EpdcShim.Shim.Commit | src/epdcshim.c:544-602 | a commit computes RefreshPolicy.Step on an atomic reading, reads if and only if attached, accepts if the writer stands still, hands the kernel the matching update array, with modes and waveforms by counter and clock, on exactly the known tracked planes, and forgets the tracked objects on every path |
| EpdcRuns.QuietReadingIsNewest | src/epdcshim.c:333-354 | an accepted reading of a commit not overlapped by a publication is the newest one |
| EpdcRuns.CommitIsRound | src/epdcshim.c:544-602 | a commit not overlapped by a publication is a step of the round model: what Commit guarantees about its input is enough |
| EpdcRuns.AnyRound | src/epdcshim.c:544-602 | what any commit of an attached shim decides: it drives exactly when it is real, enabled, not throttled, and contended or after publications not a multiple of 2^31, and remembers the newest one accepted |
| EpdcRuns.DrivenRects | src/epdcshim.c:434-478 | a driving commit hands over one to eight valid rectangles that cover exactly what the newest due frame asks for, or everything |
| EpdcRuns.DrivenRefreshes | src/epdcshim.c:434-478 | a commit that is not contended and does not clean repaints exactly what the newest frame has, its bounding box if it has more than eight rectangles, and all if one of its rectangles misses the panel |
| EpdcRuns.RoundServes | src/epdcshim.c:544-602 | a commit serves all frames since the last real one exactly when none is visible or it drives a plane and refreshes everything or the newest asks for what the others dirtied |
| EpdcRuns.ServedExactly | src/epdcshim.c:544-602 | for every run of an attached shim, any frames and any commits: all frames are served if and only if every real commit reaches what is due |
| EpdcRuns.NoStalePixels | src/epdcshim.c:434-478 | with interval 0 and each frame followed by a real commit before the next, validation passes and idle commits anywhere, the panel equals the framebuffer after every real commit of every run |
| EpdcRuns.ServedIffNotThrottled | src/epdcshim.c:581-584 | such a run, at any interval, serves every dirty pixel exactly when no visible frame is throttled |
| EpdcRuns.NeverStaleIffServed | src/epdcshim.c:544-602 | for every run at all: no contents can leave a stale pixel after a real commit if and only if every real commit repaints what was dirtied since the one before |
| EpdcRuns.NewestFrameDecides | src/epdcshim.c:350-353 | a driving commit repaints exactly what the newest frame asks for, or everything |
| EpdcRuns.CoalescedFrames | src/epdcshim.c:350-353 | several frames before one commit are served exactly when the newest asks for all their visible pixels |
| EpdcRuns.TwoPixelFrames | src/epdcshim.c:350-353 | of two one-pixel frames before a commit only the second is refreshed |
| EpdcRuns.InitialFullPassReplaced | patches/main/0002-frameworks-native-surfaceflinger-publish-epd-damage.patch:57-60 | for any frames before the first commit, it repaints the whole panel exactly when there are none, it is contended, it cleans, or the newest frame asks for everything |
| EpdcRuns.OnePixelFirst | patches/main/0002-frameworks-native-surfaceflinger-publish-epd-damage.patch:57-60 | after a first frame of one pixel the first commit leaves every other pixel as it was |
| EpdcRuns.ThrottledFrameLost | src/epdcshim.c:578-584 | a frame inside the interval is never refreshed by the next commit |
| EpdcRuns.SecondFrameLost | src/epdcshim.c:578-584 | of two frames 50 ms apart at an interval of 100 ms the second is never refreshed |
| EpdcSystem.CommitTurn | src/epdcshim.c:544-602 | a commit of the shim object is a round of the model whenever it is a validation pass or no publication overlaps it; the kernel repaints what its action covers exactly when an EPDC plane was reached; and it attaches at a due attempt that finds the mapping initialised |
| EpdcSystem.TakeTurn | src/epdcshim.c:525-602 | the same for a frame, the properties of a request and its commit |
| EpdcSystem.CommitValidated | src/epdcshim.c:552-553 | a request committed again as it was validated makes the kernel repaint nothing |
| EpdcSystem.RunTurns | src/epdcshim.c:525-602 | any turns over a shim object, if their real commits are quiet, are a run of the round model |
| EpdcSystem.NeverStaleIffServed | src/epdcshim.c:544-602 | the panel as the kernel paints it from the requests always shows the framebuffer if and only if the run of the model is served |
| EpdcSystem.RunExactly | src/epdcshim.c:525-602 | for any quiet run of an attached shim object, any frames and commits: the panel always shows the framebuffer if and only if every real commit reaches what is due |
| EpdcSystem.PlaneDriven | src/epdcshim.c:484-602 | a plane known or in reach is reached by every driving commit that has a frame due |
| EpdcSystem.Run | src/epdcshim.c:525-602 | so with the shim ready and each frame followed by a real commit before the next, validation passes and idle commits anywhere, the panel shows the framebuffer after every real commit, whatever the frames draw inside their damage |
| EpdcSystem.StartUp | src/epdcshim.c:301-323 | the first commit of a new shim to an initialised mapping attaches it and makes it ready; before the first frame it repaints the whole panel |
| EpdcSystem.StartAndRun | src/epdcshim.c:301-602 | a new shim, its first commit and then any paced run: never stale |
| RefreshRuns.RefreshSpacing | src/epdcshim.c:578-585 | any two refreshes i < j of a run are at least j - i intervals apart |
| RefreshRuns.CleaningTurns | src/epdcshim.c:443-448 | a refresh cleans exactly when the counter comes round |
| RefreshRuns.OneCleaningPerWindow | src/epdcshim.c:443-448 | every window of `fullevery` consecutive refreshes has exactly one cleaning pass |
| RefreshRuns.MarkersCountUp | src/epdcshim.c:587-588 | markers go up by one per refresh until the 32-bit limit |
| RefreshRuns.SubmittedModes | src/epdcshim.c:434-448 | in a steady run a refresh has update mode 1 and the quality waveform exactly at the counter's turn; at the others it has the configured mode, and the fast waveform exactly if there is one and the last refresh was less than `fastms` ago |
| RefreshRuns.ThrottledExactly | src/epdcshim.c:578-585 | a commit with something new is throttled exactly if it comes less than the interval after the last refresh |
| RefreshRuns.SameFrameExactly | src/epdcshim.c:566-576 | without a damage map and with `skipsame`, a commit passes as the same frame exactly if its signature is that of the last signed commit |
| RefreshRuns.TunablesEvery30 | src/epdcshim.c:396-413 | the properties are read again at every thirtieth commit and at no other |
| RefreshRuns.AttachesAt30 | src/epdcshim.c:303-308 | the thirtieth attempt attaches and none before does |
| Bytes.LeToLe | scripts/lp-resize-partition.py:76-77 | little-endian fields below their width read back |
| Bytes.TableReadBack | scripts/lp-resize-partition.py:95-98 | a table of equal-sized entries reads back where it was written |
| Bytes.TableConcat | scripts/lp-resize-partition.py:95-98 | a table inside the image is the concatenation of its entries |
| LpFormat.GeometryReads | scripts/lpdump-from-super.py:48-53 | from a geometry written out field by field the region size and the slot count are read, and slots lie that far apart from 12288 on |
| LpFormat.HeaderReadsBack | scripts/lpunpack.py:70-87 | a header written out field by field is read as it is, checksums and tables size included |
| LpFormat.PartitionReads | scripts/lp-resize-partition.py:182-184 | a partition entry written out field by field is read as it is |
| LpFormat.ExtentReads | scripts/lp-resize-partition.py:107-109 | so is an extent, and type 0 is LINEAR |
| LpFormat.GroupReads | scripts/lp-resize-partition.py:178-181 | so is a group, its maximum 64 bits wide behind name and flags |
| LpFormat.DeviceReads | scripts/lp-resize-partition.py:116-121 | so is a block device, its alignment 32 bits wide |
| LpMetadata.LoadSized | scripts/lp-resize-partition.py:80-98 | well-formed tables have full-sized entries |
| LpMetadata.LoadLocal | scripts/lp-resize-partition.py:80-98 | metadata depends on its own bytes only |
| LpAllocator.NewExtentIsFree | scripts/lp-resize-partition.py:160-173 | a new extent lies past every LINEAR extent, on the device, at or above the first logical sector, with both ends on 4096-byte boundaries |
| LpAllocator.GrowthKeepsSafe | scripts/lp-resize-partition.py:140-213 | one resize keeps all extents on the device and disjoint |
| LpAllocator.AnyResizesKeepSafe | scripts/lp-resize-partition.py:140-213 | so does any sequence of resizes of any partitions, refused ones included |
| LpAllocator.ResizeBounds | scripts/lp-resize-partition.py:152-201 | the new size reaches the request by less than 4096 bytes more, and a group with a maximum stays within it |
| LpAllocator.OutcomeExactly | scripts/lp-resize-partition.py:152-203 | on the layout alone: satisfied exactly if the last partition of that name holds the bytes, no room exactly if the blocks needed do not fit behind all data on the device, over the group exactly if they fit there but not below its maximum; otherwise the fewest blocks at the first place |
| LpAllocator.RefusedExactly | scripts/lp-resize-partition.py:112-150 | no devices, a bad device size and an unknown partition are refused exactly when that is so |
| LpAllocator.HeldIsGroup | scripts/lp-resize-partition.py:189-198 | what a group holds is the extents of all its partitions |
| LpAllocator.ResizeAgainIsNoOp | scripts/lp-resize-partition.py:152-157 | asking again for the same size or less is satisfied |
| LpAllocator.OtherGroupsUntouched | scripts/lp-resize-partition.py:189-198 | no other group's holdings change |
| LpResize.HeaderReads | scripts/lp-resize-partition.py:226-236 | the four descriptors read back from a rewritten header |
| LpResize.PlanReadBack | scripts/lp-resize-partition.py:215-220 | the index runs tile the extents table and read back as the plan |
| LpResize.RepackKeepsEntries | scripts/lp-resize-partition.py:217-220 | a partition entry changes in its two index fields only |
| LpResize.TablesTile | scripts/lp-resize-partition.py:222-236 | the four tables lie end to end and fill the tables exactly; groups and devices are byte-identical |
| LpResize.RebuiltLoads | scripts/lp-resize-partition.py:215-241 | parsing the rebuilt block gives the tables that were written |
| LpResize.RebuiltMeaning | scripts/lp-resize-partition.py:203-241 | the rebuilt block means the old layout with one extent appended to one partition and nothing else changed |
| LpResize.SealedVerifies | scripts/lp-resize-partition.py:236-239 | the tables hash to their field, and the header with its own hash field zeroed hashes to that field |
| LpResize.PatchedBlock | scripts/lp-resize-partition.py:125-241 | every successful patch is well formed with its runs inside the extents table, verifies, means the grown layout, and its descriptors end exactly at its last byte |
| LpPatchSlot.ReadPlan | scripts/lp-resize-partition.py:140-147 | the runs of all partitions and the last partition of the wanted name |
| LpPatchSlot.FindTail | scripts/lp-resize-partition.py:160-166 | the loop finds the highest sector of any LINEAR extent |
| LpPatchSlot.OverMaximum | scripts/lp-resize-partition.py:185-198 | the group test adds up the group's partitions and compares with a non-zero maximum |
| LpPatchSlot.Allocate | scripts/lp-resize-partition.py:152-213 | the loops decide what LpAllocator.Grow decides |
| LpPatchSlot.RebuildTables | scripts/lp-resize-partition.py:215-220 | the cursor loop computes the repointed partitions and the flattened runs |
| LpPatchSlot.SealHeader | scripts/lp-resize-partition.py:226-239 | the field-by-field writes compute the sealed header |
| LpPatchSlot.PatchSlot | scripts/lp-resize-partition.py:125-241 | the whole function computes LpResize.Patch, with runs outside the extents table cut short as Python slices them |
| LpSuper.RegionsApart | scripts/lp-resize-partition.py:264-283 | no two metadata regions overlap and none reaches into the geometry |
| LpSuper.StoreCopy | scripts/lp-resize-partition.py:295-296 | the block and the zeros behind it fill the region exactly |
| LpSuper.PatchLocal | scripts/lp-resize-partition.py:290-290 | patching depends on its own region only |
| LpSuper.ResizeSlot | scripts/lp-resize-partition.py:259-304 | the in-place program computes the two renewed copies, or stops for the reason given; only the two copies of the slot named need be usable |
| LpSuperRuns.SlotIsolated | scripts/lp-resize-partition.py:279-298 | a run changes its slot's two regions only: length, geometry, other slots and everything behind stay |
| LpSuperRuns.CopiesStayEqual | scripts/lp-resize-partition.py:285-298 | copies that were equal are equal afterwards |
| LpSuperRuns.CopyMeaning | scripts/lp-resize-partition.py:285-298 | each copy means its old layout grown by the allocator, and verifies if it was rewritten |
| LpSuperRuns.CopySkipped | scripts/lp-resize-partition.py:286-288 | a copy without a header is left alone |
| LpSuperRuns.CopyOutcome | scripts/lp-resize-partition.py:285-298 | a copy is left alone exactly if the allocator finds enough, refused exactly if it refuses, and rewritten unless its tables reach 4 GiB or its block is longer than the region |
| LpSuperRuns.RestZeroed | scripts/lp-resize-partition.py:295-296 | a rewritten copy is the new block and then nothing but zeros |
| LpSuperRuns.NothingExactly | scripts/lp-resize-partition.py:285-301 | there is nothing to patch exactly if each copy of the slot has no header or holds the bytes asked for |
| LpSuperRuns.HaltsExactly | scripts/lp-resize-partition.py:259-277 | no geometry, too short and no such slot are reported exactly when that is so |
| LpSuperRuns.SecondRunIsNoOp | scripts/lp-resize-partition.py:300-301 | a second run at the same size or less finds nothing to patch |
| LpSuperRuns.AnyRunsKeepSafe | scripts/lp-resize-partition.py:244-304 | after any sequence of runs on any slots every copy is sound metadata, with extents on the device and disjoint |
| LpUnpack.ParsePartitions | scripts/lpunpack.py:91-110 | the rows are the fields of the partition entries |
| LpUnpack.ParseExtents | scripts/lpunpack.py:113-130 | the rows are the fields of the extent entries |
| LpUnpack.RowsMean | scripts/lpunpack.py:91-130 | the extents a row points at are its partition's, in order |
| LpUnpack.PartitionSize | scripts/lpunpack.py:133-137 | the size of a partition is its extents' sectors times 512 |
| LpUnpack.Extract | scripts/lpunpack.py:140-172 | the chunk loops give the bytes of all extents in order, zeros for ZERO and the image's for LINEAR, or the first extent that is unsupported or truncated, and by how much |
| LpUnpack.Unpack | scripts/lpunpack.py:192-225 | reading the tables and extracting gives, byte by byte, the partition the metadata means |
| LpUnpack.ExtractedExactly | scripts/lpunpack.py:140-172 | byte o of extent i is 0 if it is ZERO and byte 512 * data + o of the image if it is LINEAR; or which extent fails first and how |
| LpUnpack.ExtractedWhole | scripts/lpunpack.py:140-172 | extraction succeeds exactly when all extents are ZERO, or LINEAR and inside the image, and gives the partition's size |
| LpUnpack.ExtractedElsewhere | scripts/lpunpack.py:160-171 | bytes outside the extents do not matter |
| LpUnpack.ExtractedIsGathered | scripts/lpunpack.py:140-172 | extracting from the device's super partition is gathering its extents from the device |
| LpDump.Dump | scripts/lpdump-from-super.py:74-89 | the loops print the sections of all partitions in order |
| LpDump.LinesAre | scripts/lpdump-from-super.py:79-88 | a LINEAR extent is printed with the sectors of the partition it covers and its place |
| LpDump.FlashExtents | scripts/flash-logical-via-edl.py:31-45 | the full flasher's reader, stopping at the end of the section |
| LpDump.DeltaExtents | scripts/edl-delta-flash.py:43-57 | the delta flasher's reader, following the last name seen |
| LpDump.FlashReadsFirst | scripts/flash-logical-via-edl.py:31-45 | from a printed dump it reads the first partition of that name |
| LpDump.DeltaReadsAll | scripts/edl-delta-flash.py:43-57 | from a printed dump it reads all partitions of that name |
| LpDump.DumpRoundTrip | scripts/lpdump-from-super.py:74-89 | for a unique name both readers agree, and give exactly the partition's extents if and only if all are LINEAR and the first is not empty |
| LpDump.ReadersAgree | scripts/edl-delta-flash.py:46-52 | for all partitions and names the two readers agree if and only if no partition behind the first of that name shows an extent |
| LpDump.SameNameDisagrees | scripts/edl-delta-flash.py:46-52 | two partitions of one name on which they do not agree |
| LpDump.ZeroVanishes | scripts/lpdump-from-super.py:83-87 | a partition of one ZERO extent reads back as nothing |
| EdlLayout.WhereInjective | scripts/flash-logical-via-edl.py:10-13 | with disjoint extents no two bytes of a partition share a device address |
| EdlLayout.GatherScatter | scripts/flash-logical-via-edl.py:84-111 | what is scattered over disjoint extents is gathered again |
| EdlLayout.CarriesIsScatter | scripts/flash-logical-via-edl.py:84-111 | contents and surroundings determine the device |
| EdlLayout.ScatterUpdate | scripts/edl-delta-flash.py:147-156 | one write of a contiguous range changes that range of the contents and nothing else |
| EdlFlash.MakePlan | scripts/flash-logical-via-edl.py:67-78 | there is a plan exactly when every extent starts and ends on device sectors, and it gives each extent its part of the image |
| EdlFlash.PlanTakesAll | scripts/flash-logical-via-edl.py:67-78 | the takes add up to the image size |
| EdlFlash.CutPiece | scripts/flash-logical-via-edl.py:88-101 | the chunked copy is the image's piece, padded to whole sectors |
| EdlFlash.Flash | scripts/flash-logical-via-edl.py:48-112 | on any extents: each refusal exactly when its test fails, and otherwise the writes one after the other up to the first that does not fit on the device |
| EdlFlash.FlashIsScatter | scripts/flash-logical-via-edl.py:84-111 | on disjoint extents inside the device all writes succeed and spread image, padding and old rest over the extents |
| EdlFlash.FlashRoundTrip | scripts/flash-logical-via-edl.py:67-111 | the partition then reads as the image, zeros to the next sector, the old contents; no byte outside its extents changes |
| EdlDelta.FindDevSector | scripts/edl-delta-flash.py:91-98 | the walk gives the device sector of an image offset |
| EdlDelta.SuperStart | scripts/edl-delta-flash.py:36-40 | sector 0 of `super` is device sector 45576, and eight of its sectors are one of the device's |
| EdlDelta.Diff | scripts/edl-delta-flash.py:103-113 | exactly the sectors in which the images differ, in order |
| EdlDelta.ChangedExactly | scripts/edl-delta-flash.py:103-113 | a sector is changed exactly if one of its bytes differs, a short last one included |
| EdlDelta.Coalesce | scripts/edl-delta-flash.py:126-133 | the fewest runs with exactly the changed sectors |
| EdlDelta.WriteRuns | scripts/edl-delta-flash.py:145-160 | each run is written at the device sector of its start |
| EdlDelta.Delta | scripts/edl-delta-flash.py:60-162 | each refusal exactly when its test fails, the changed sectors, the runs and the writes |
| EdlAgree.ContiguousIffNoGap | scripts/edl-delta-flash.py:91-98 | a range is contiguous on the device exactly when it crosses no boundary between extents that are not adjacent |
| EdlAgree.DeltaIsFlash | scripts/edl-delta-flash.py:145-160 | with well placed runs the delta write leaves the device as a full flash of the new image |
| EdlAgree.CrossingFails | scripts/edl-delta-flash.py:152-152 | for a run that crosses a gap there are images and a device on which it does not |
| EdlAgree.DeltaRefinesFlash | scripts/edl-delta-flash.py:91-159 | for all devices and images with given changed sectors the two flashers agree if and only if no run crosses a gap |
| EdlAgree.SwappedExtentsCross | scripts/edl-delta-flash.py:152-152 | two extents in the opposite order on the device are such a case |
| LpStack.ResizedStillFlashes | scripts/flash-logical-via-edl.py:69-73 | a partition that passes the alignment check still does after a resize |
| LpStack.OtherKept | scripts/flash-logical-via-edl.py:84-111 | writing one partition of a safe layout leaves every other one's contents |
| LpStack.FlashThenExtract | scripts/lpunpack.py:140-172 | dump, flash, extract gives image, padding and old rest; all other partitions extract as before |
| LpStack.ResizeKeepsData | scripts/lp-resize-partition.py:279-298 | from the rewritten image every other partition extracts exactly as before, and the grown one starts with what it was |
| Cpio.HexRoundTrip | scripts/patch-boot-overlayrc.py:57-66 | hex fields below 2^32 read back |
| Cpio.EntryParses | scripts/patch-boot-overlayrc.py:53-72 | an entry below 4 GiB parses to its name and data and takes exactly its bytes |
| Cpio.EntryHeader | scripts/patch-boot-overlayrc.py:53-67 | the thirteen fields of an entry in their order |
| Cpio.EntryPadding | scripts/patch-boot-overlayrc.py:68-72 | between name and data and behind the data there are only zeros |
| Cpio.WalkBlocks | scripts/patch-boot-overlayrc.py:110-126 | appending to whole members appends to what an archive lists |
| CpioFilter.NextMember | scripts/patch-boot-overlayrc.py:111-119 | absolute padding at a multiple of four equals padding from the member's own start |
| CpioFilter.KeepMembers | scripts/patch-boot-overlayrc.py:107-126 | the loop keeps the bytes of the members not dropped, up to the trailer |
| CpioFilter.KeptIffListed | scripts/patch-boot-overlayrc.py:107-126 | filtering succeeds exactly when the archive can be listed |
| CpioFilter.KeptReads | scripts/patch-boot-overlayrc.py:107-126 | what is kept is whole members and lists the archive without the dropped names |
| CpioFilter.RebuildIsFilter | scripts/patch-boot-overlayrc.py:107-132 | the rebuilt archive lists the old members in order without the dropped ones, then the new one |
| BootImage.Rounder | scripts/patch-boot-overlayrc.py:152-152 | rounding up to pages never goes down, keeps order |
| BootOverlay.Reassemble | scripts/patch-boot-overlayrc.py:156-205 | the section loop and the three refusals |
| BootOverlay.PatchBoot | scripts/patch-boot-overlayrc.py:83-209 | the whole program: written exactly if magic and header can be read, the ramdisk unpacks and can be listed, the four bytes at 1632 are zero, the new ramdisk rounds up to no more pages than the old, below 4 GiB, and the image reaches the end of its last section; and which refusal comes otherwise |
| BootImage.SamePages | scripts/patch-boot-overlayrc.py:162-174 | the declared ramdisk size rounds up to the old page span |
| BootOverlay.RebuildKeepsPlaces | scripts/patch-boot-overlayrc.py:178-205 | kernel, second stage, device tree, tail and the header page but for bytes 16 to 19 lie where they did, and the new ramdisk where the old one did |
| BootOverlay.RebuildKeepsLayout | scripts/patch-boot-overlayrc.py:178-205 | and the header sizes of the written image lead to the same places |
| BootOverlay.RestKeptIffZero | scripts/patch-boot-overlayrc.py:178-205 | outside bytes 16 to 19 and the ramdisk pages nothing changes if and only if the bytes between the sections were zero |
| BootOverlay.StrayByteErased | scripts/patch-boot-overlayrc.py:178-205 | an image with one stray byte behind its kernel is written without it, for any ramdisk that fits |
| BootOverlay.OverlayPreserves | scripts/patch-boot-overlayrc.py:83-209 | and its ramdisk unpacks to the filtered archive |
| RecoveryCpio.FindMember | scripts/patch-recovery-adb.py:65-82 | the lookup loop |
| RecoveryCpio.FirstOfWalk | scripts/patch-recovery-adb.py:65-82 | it finds the first member of that name, and nothing exactly when there is none |
| RecoveryCpio.StripWhere | scripts/patch-recovery-adb.py:56-62 | any archive is cut at the last magic number in front of the last TRAILER!!!, or not at all |
| RecoveryCpio.StripExact | scripts/patch-recovery-adb.py:56-62 | for a trailer record after which TRAILER!!! does not occur, it is cut off exactly if and only if the magic number does not recur in its header |
| RecoveryCpio.StripBuilt | scripts/patch-recovery-adb.py:56-62 | the trailer cpio_entry writes is always cut off exactly, padded or not |
| RecoveryCpio.MagicInodeStays | scripts/patch-recovery-adb.py:56-62 | the written trailer with inode number 0x70701 is not cut off, whatever precedes it |
| RecoveryCpio.PatchedReads | scripts/patch-recovery-adb.py:121-135 | the patched archive lists the old members and then the overrides |
| RecoveryCpio.OverridesWin | scripts/patch-recovery-adb.py:12-15 | when later members win, exactly the overridden names change |
| Props.FixProps | scripts/patch-recovery-adb.py:85-97 | the nested loops compute the fixed lines |
| Props.FixedProps | scripts/patch-recovery-adb.py:85-97 | both essential properties are set, none of the three keeps another value, all other lines stay |
| Props.FixIsIdempotent | scripts/patch-recovery-adb.py:85-97 | fixing twice is fixing once |
| Props.SplitJoin | scripts/patch-recovery-adb.py:97-97 | lines without breaks that are joined split into themselves |
| Props.JoinedEnds | scripts/patch-recovery-adb.py:97-97 | every line is followed by a newline, the last one too |
| Props.FixedText | scripts/patch-recovery-adb.py:85-97 | the text of any file, once fixed, splits into the fixed lines, opens adb, and stays as it is when fixed again |
| RecoveryAdb.BuildAdd | scripts/patch-recovery-adb.py:121-134 | the appended members: an override by the fixed text for each properties file found, the key if given, a trailer |
| RecoveryAdb.PatchRecovery | scripts/patch-recovery-adb.py:100-183 | the whole program, refusals included |
| RecoveryAdb.SavedExactly | scripts/patch-recovery-adb.py:100-183 | an image with a readable header is saved exactly if its ramdisk unpacks and can be searched and the new one rounds up to no more pages than the old, below 4 GiB; and which failure comes otherwise |
| RecoveryAdb.RecoveryInPlace | scripts/patch-recovery-adb.py:156-182 | only the ramdisk's pages and the size field change; the length is kept exactly when those pages lie inside the old image |
| RecoveryAdb.RamdiskThere | scripts/patch-recovery-adb.py:171-179 | the new ramdisk lies where the old one did, with the declared size |
| RecoveryAdb.SpanZeroed | scripts/patch-recovery-adb.py:156-171 | behind the declared ramdisk there are zeros up to the end of its pages |
| RecoveryAdb.RecoveryOverrides | scripts/patch-recovery-adb.py:100-183 | the saved ramdisk lists the old members and then overrides of default.prop, prop.default and adb_keys at most |
| RecoveryAdb.AdbOpened | scripts/patch-recovery-adb.py:100-135 | once the new archive is unpacked, later members winning, each of the two properties files is absent, as it was, or has ro.adb.secure 0, ro.debuggable 1 and no other setting of them or of ro.secure than 0 |
| RecoveryAdb.KeyInstalled | scripts/patch-recovery-adb.py:130-135 | adb_keys holds the key given once the archive is unpacked, and otherwise what it held before |
| AidlCodes.FirstWalk | scripts/aidl-txn-codes.py:127-132 | the first loop computes the reported codes |
| AidlCodes.SecondWalk | scripts/aidl-txn-codes.py:138-145 | the second loop computes what differs once those codes are skipped |
| AidlCodes.NothingLeft | scripts/aidl-txn-codes.py:138-145 | for every pair of maps that is nothing |
| AidlCodes.AlignedWhen | scripts/aidl-txn-codes.py:150-152 | nothing is reported exactly when every shared code maps to the same method |
| AidlCodes.Diff | scripts/aidl-txn-codes.py:127-153 | both walks together |
| AidlCodes.ReportedExactly | scripts/aidl-txn-codes.py:127-132 | with foreign methods inserted into B's list, a code is reported exactly when its method is foreign and some method of B comes later |
| AidlCodes.LastInsertionMissed | scripts/aidl-txn-codes.py:127-132 | a method inserted behind the only shared one is not reported |

## Left out

- Weak memory: the plain data accesses of the sequence lock are not fully ordered on ARM64; the proof is under sequential consistency.
- Writer restart: the initialiser sets the sequence word back to 2 without an odd phase, so numbers repeat across writer lifetimes; one lifetime is modelled.
- DamageWriter.Region: a region is given as its rectangles and bounding box in output space; AOSP's region arithmetic, the output transform and the logging are not modelled.
- EpdcSystem.Run: the kernel is taken to repaint what the update array of a plane covers; a request is the properties of one commit (CommitValidated says what follows for a request used twice), and the composer adds plain values only.
- EpdcShim.Shim: the three parallel arrays of the property cache are one array of records; logging, symbol lookup, property parsing, the file descriptor and the settle thread are not modelled. Reads of the clock, the system properties and the kernel's property enumeration are parameters.
- EpdcShim.Shim.PendSignature: two frames that change the buffers of several objects can share a 32-bit signature, so nothing is claimed about the panel when no damage map is attached.
- RefreshRuns.MarkersCountUp: markers of the settle thread come from a counter of their own and are not part of this model.
- LpPatchSlot.PatchSlot: metadata whose tables do not fit their region, or whose entries are smaller than liblp's structs, is excluded; Python would slice such tables short or raise. Names are compared as bytes, not as decoded text.
- LpSuper.ResizeSlot: slots are natural numbers; the program only compares the slot with the slot count, so a negative one would address bytes before the metadata. Argument parsing and file handling are not modelled.
- LpUnpack.Unpack: geometry, partition selection, listing and output files are left out; a failed extraction's partial output is not described.
- LpDump.Dump: lines are tokens and names single words; the regular expressions and number formatting are not modelled beyond the minus sign of an empty first extent.
- EdlFlash.Flash: temporary files and the success message of the flashing program are not modelled; a write fails only if it does not fit on the device.
- EdlDelta.Delta: the percentage is compared as an exact fraction. Agreement with the full flasher is stated for images of whole 4096-byte sectors, since the tool does not pad a short last sector.
- Cpio.Parse: a hex field that reads as a negative number counts as unreadable.
- CpioFilter.RebuildIsFilter: an archive that ends inside a member is excluded; the loop would keep the cut member and the appended entries would be read as its data.
- BootOverlay.RebuildKeepsLayout: states a page size of at least 1652 bytes, so that the header fields it reads back lie in the header page, and RebuildKeepsPlaces one of at least 20, so that the size field does; real pages are 2048 or 4096.
- Props.FixProps: takes the lines of the text; decoding and encoding are a pair of parameters of RecoveryAdb.
- AidlCodes.Diff: the maps are given; symbol tables, disassembly and demangling are not modelled. The highest code is any bound on both maps.
- The `ebc*` tools, property listing, shell scripts, makefiles, init files, `patch-boot-cmdline.py`, `rawelf.py`, `check-device-xml.py` and `extract-builtin-fw.py`: device probing, single-field edits or heuristics that would add only easy members.
