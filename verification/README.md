# Verified model of the video pipeline's core

Dafny 4.11 models of four parts of the repository, with their main guarantees proved:

* **The frame queue.** `CircleBuffer` is a lock-free bounded queue. `CircleBuffer.dfy` is a step machine:
  one event is one atomic load, store or compare-and-swap of one thread, any number of threads interleave,
  and a compare-and-swap may fail spuriously. `RingSafety.dfy` proves exclusive nodes, conservation of
  tickets, and refinement of a bounded FIFO queue in which every call takes effect once and within itself.
  `RingFailures.dfy` proves what a `false` result means, and exactly when it can be trusted.
  `RingProgress.dfy` bounds retries and steps by the progress of other threads. `Rounding.dfy` is the
  constructor's rounding to a power of two on 64-bit words. `FrameReader.dfy` is the queue's one client, the
  decoding loop with its consumer; `FrameLoss.dfy` proves when it can lose a frame and `ReaderProgress.dfy` when
  it can finish.
* **The tracker.** `Tracking.dfy` gives the state of the multi-object tracker as a value and the effect of
  each operation; `Tracker.dfy` is the object that implements them in place; `Rejoining.dfy` holds the two
  loops that walk two tracks in frame order; `TrackingRuns.dfy` proves what every run keeps, `FrameOrder.dfy` when
  tracks stay in frame order and `Placement.dfy` where each detection ends up; `TrackDecisions.dfy` says in
  coordinates what the distance, border and filter tests decide, `TrackHistory.dfy` what a track remembers, and
  `Lifetime.dfy` follows one detection from first sight to the end of its track; `TrackerApi.dfy` is the entry
  point, with clamping and the alignment of results to inputs; `Assignment.dfy` is the greedy matching.
* **Detection post-processing.** `Suppression.dfy` (non-maximum suppression and score filtering),
  `Association.dfy` (minimum-cost association by blanking rows and columns) and `Fusion.dfy` (bodies, heads
  and faces become persons). `Greedy.dfy` is the selection that suppression and assignment share.
* **Base64 and the polygon test.** `Base64.dfy` and `Polygon.dfy`.

`Wrappers.dfy`, `Arithmetic.dfy` and `Sequences.dfy` hold what several of them share.

## What turned out to need a condition

* The decoding loop ignores the result of `push`. No run drops a frame exactly when `max_` is not a power of
  two (`FrameLoss.NeverDropsIff`); of the buffer sizes it can be given, 1, 2, 4, 8 and 16 are the ones that
  lose frames. Every state that a run without stop reaches has a continuation that delivers every frame exactly
  when `max_` is neither 0 nor a power of two (`ReaderProgress.AlwaysFinishesIff`, `ReaderProgress.SafeBufferSizes`).
* A failing `pop` means that the queue is empty, or its next value is still being pushed, in all runs exactly
  when at most one thread pops (`RingFailures.PopCheckTrustedIff`). That it was so at some moment of the call
  holds exactly when at most one thread pops or the capacity is 1 (`RingFailures.PopTrustedIff`). The same
  holds for `push`, fullness and pushing threads (`PushCheckTrustedIff`, `PushTrustedIff`). `GetParseDate`
  has one consumer, so past its size test it fails only while the next frame is being published
  (`FrameReader.GetParseDateFailsIff`).
* The rounded capacity is right exactly for requests from 1 to 2^63; otherwise it wraps to 0
  (`Rounding.RoundUp`) and no ticket names a node (`Rounding.TicketsHaveNodesIff`). With a buffer size of 0
  the reader never touches that queue and delivers nothing; with any other size some run delivers a frame
  (`ReaderProgress.SafeBufferSizes`).
* The merging loop of any two tracks ends exactly when the zero test of `GetClosestLocation` lets them
  through, which for tracks in frame order means that they share no frame (`Rejoining.MergeLoopEndsIff`);
  every merge the tracker makes is of that kind (`Tracking.PlanMerges`), whatever the frame indices are.
* Tracks stay in frame order in all runs exactly when the frame indices of the calls strictly increase, or a
  track may hold one object only (`FrameOrder.KeepsOrderIff`). The timestamp assertion of `Process`
  (`thirdparty/tracker/TrackerLib.cpp:551`) skips every timestamp 0, so frame indices 7 then 0 pass it as well as
  0 then 0, and both reach a track out of order (`FrameOrder.BackToZero`); under the assertion nothing else does
  (`FrameOrder.AssertedKeepsOrderIff`). What every call keeps nevertheless is `Tracking.StepKeepsBase`.
* `thirdparty/tracker/TrackerLib.h:169` announces the Kuhn-Munkres algorithm. The code sorts and scans, so the
  model follows the code. Its choice has the largest total for all non-negative scores exactly when no listed
  pair shares its track with one pair and its detection with another (`Assignment.AlwaysBestIff`). In general
  the guarantee is stability and half of the optimum (`Assignment.HalfOptimal`), and half is attained
  (`Assignment.HalfAttained`).
* A matched detection removes its track as noise exactly when it lies farther from the last one than its own
  shorter side and the track has fewer objects than half of the minimal duration
  (`TrackDecisions.MatchedRemovedIff`); with a minimal duration of at most 2 none is (`TrackDecisions.NoiseMeans`).
* Trimming a predicted rectangle to the frame moves one that starts before the border and does not cut it; the
  result lies in the frame exactly when it starts inside or is no larger than the frame
  (`TrackDecisions.TrimMeans`). In calls with detections an unmatched track is trimmed twice, so one predicted to
  start at the last column or row is erased at once (`Lifetime.UnmatchedKeptIff`).
* Without any head, the first association returns early with no orphans and every body is lost
  (`Fusion.OnePersonPerBodyIff`).
* The base64 decoder accepts more than the encoder produces. Exactly the canonical strings (full blocks of one
  alphabet, its own pads at the end only, no stray bits) are encoded back to themselves
  (`Base64.ComesBackIff`).
* The line-broken base64 forms decode without newline removal exactly when they have one line
  (`Base64.StrictDecodeIff`).

## Model

| member | source | states |
|---|---|---|
| CircleBuffer.InitInv | src/utils/circlebuffer.h:16-23 | the constructor's stamps establish the queue invariant for every capacity and number of threads |
| CircleBuffer.StepKeepsInv | src/utils/circlebuffer.h:40-69 | one atomic step of any thread, including a spurious compare-and-swap failure, keeps the invariant that ties stamps, owners and histories together |
| CircleBuffer.RunKeepsInv | src/utils/circlebuffer.h:40-69 | every interleaving keeps the invariant |
| CircleBuffer.ClaimPopKeepsInv | src/utils/circlebuffer.h:60-63 | a successful pop claim never overtakes the pushers and keeps the invariant |
| CircleBuffer.StampIs | src/utils/circlebuffer.h:44-48 | when the tail counter still equals the checked ticket, the node is empty and carries that ticket |
| CircleBuffer.StoredIs | src/utils/circlebuffer.h:59-63 | when the head counter still equals the checked ticket, the node holds the value pushed under it |
| CircleBuffer.SoloPop | src/utils/circlebuffer.h:55-69 | an undisturbed pop of a stored value frees its node for the next lap, in eight atomic steps |
| CircleBuffer.SoloPush | src/utils/circlebuffer.h:40-53 | an undisturbed push into a free node stores the value, in seven atomic steps |
| RingSafety.ExclusiveNodes | src/utils/circlebuffer.h:45-67 | in every reachable state two threads own different nodes, whichever tickets they hold |
| RingSafety.TicketsMatch | src/utils/circlebuffer.h:50-67 | data is constructed only in an empty node, and read and destroyed only by the pop of the same ticket, which returns exactly the value pushed under it |
| RingSafety.StampCases | src/utils/circlebuffer.h:44-67 | how the stamp of a ticket's node tells the stage the ticket is in |
| RingSafety.Conservation | src/utils/circlebuffer.h:40-69 | every ticket handed out is in exactly one place: with its pusher, in its node, with its popper, or delivered unchanged |
| RingSafety.StepRefines | src/utils/circlebuffer.h:46-63 | every step is either invisible or one legal operation of a sequential queue of the given capacity |
| RingSafety.Linearizable | src/utils/circlebuffer.h:40-69 | every interleaving replays as a legal history of the sequential bounded queue and ends with its contents |
| RingSafety.ThreadHistory | src/utils/circlebuffer.h:40-69 | a thread's operations in that history are, in its program order, exactly those whose results its calls returned, up to the one in flight; each takes effect within its own call |
| RingSafety.BoundedContents | src/utils/circlebuffer.h:35-48 | the queue never holds more than its capacity, and less when the next push would pass its check |
| RingSafety.TicketOrder | src/utils/circlebuffer.h:40-69 | ticket k is the k-th value enqueued and the k-th dequeued, so values leave in the order in which they came |
| RingProgress.Progress | src/utils/circlebuffer.h:43-64 | from any reachable state, a thread's retries are bounded by the operations of other threads it missed, and its steps by its calls and failed compare-and-swaps |
| RingProgress.LockFree | src/utils/circlebuffer.h:40-69 | in every run a thread retries at most once per operation of another thread, and takes at most seven steps per call and two per such operation or spurious failure |
| RingFailures.PublishedIff | src/utils/circlebuffer.h:51-60 | a node's two stamps tell exactly whether the push of a ticket has completed |
| RingFailures.VacatedIff | src/utils/circlebuffer.h:45-67 | a node's tail stamp tells exactly whether the pop of a ticket has completed |
| RingFailures.PopCheckFailsIff | src/utils/circlebuffer.h:59-60 | the check of a pop fails exactly when its ticket is not published or the next lap's ticket already is |
| RingFailures.PushCheckFailsIff | src/utils/circlebuffer.h:44-45 | the check of a push fails exactly when the previous lap's ticket is not vacated or its own already is |
| RingFailures.FreshPopFailsIff | src/utils/circlebuffer.h:57-60 | with an up-to-date ticket, a failing pop check means empty or a push still in flight |
| RingFailures.FreshPushFailsIff | src/utils/circlebuffer.h:42-45 | with an up-to-date ticket, a failing push check means full or a pop still in flight |
| RingFailures.RunSolePopper | src/utils/circlebuffer.h:57-63 | in every run in which one thread pops, its ticket is up to date whenever it looks at a node |
| RingFailures.SolePopFailsIff | src/utils/circlebuffer.h:55-60 | in every run in which one thread pops, its check fails exactly when the queue is empty or its next value is still being pushed |
| RingFailures.SolePushFailsIff | src/utils/circlebuffer.h:40-45 | in every run in which one thread pushes, its check fails exactly when the queue is full or the node is still being emptied |
| RingFailures.FailedPopOnceEmpty | src/utils/circlebuffer.h:55-63 | with one popper or one node, a pop that fails saw the queue empty, or its next value in flight, at some moment of the call |
| RingFailures.FailedPushOnceFull | src/utils/circlebuffer.h:40-48 | with one pusher or one node, a push that fails saw the queue full, or the node being emptied, at some moment of the call |
| RingFailures.StalePopFails | src/utils/circlebuffer.h:57-60 | for every capacity and any two threads, a pop that fails although, with at least two nodes, the queue is not empty at any moment of the call |
| RingFailures.StalePushFails | src/utils/circlebuffer.h:42-45 | for every capacity and any two threads, a push that fails although, with at least two nodes, the queue is not full at any moment of the call |
| RingFailures.PopCheckTrustedIff | src/utils/circlebuffer.h:55-60 | over all runs, a failing pop check means empty or in flight if and only if at most one thread pops |
| RingFailures.PopTrustedIff | src/utils/circlebuffer.h:55-69 | over all runs, every false pop is justified by a moment of its call if and only if at most one thread pops or there is one node |
| RingFailures.PushCheckTrustedIff | src/utils/circlebuffer.h:40-45 | over all runs, a failing push check means full or being emptied if and only if at most one thread pushes |
| RingFailures.PushTrustedIff | src/utils/circlebuffer.h:40-53 | over all runs, every false push is justified by a moment of its call if and only if at most one thread pushes or there is one node |
| Rounding.RoundUp | src/utils/circlebuffer.h:10-14 | the smearing loop yields the least power of two at least the request for 1 to 2^63 and 0 otherwise |
| Rounding.Smear | src/utils/circlebuffer.h:12-13 | or-ing a word with itself shifted by the run length doubles the run of ones below the top bit |
| Rounding.MaskIsRemainder | src/utils/circlebuffer.h:44-59 | masking a ticket with capacity - 1 is the remainder by the capacity |
| Rounding.TicketsHaveNodesIff | src/utils/circlebuffer.h:10-16 | masking names a node for every ticket if and only if the request was from 1 to 2^63 |
| FrameReader.TurnKeepsInv | src/parse/parse_video.cc:56-72 | one atomic step of the producer loop or the consumer keeps the invariant that no frame was dropped |
| FrameReader.RoomForPush | src/parse/parse_video.cc:64-68 | after the size test, the next node is free even while a pop has claimed but not released its own |
| FrameReader.FramesInOrder | src/parse/parse_video.cc:56-72 | with max_ below the capacity no frame is dropped and the consumer always has a prefix of the decoded frames |
| FrameReader.AllDelivered | src/parse/parse_video.cc:185-191 | once the producer is through and the queue is drained, the consumer has every frame in order |
| FrameLoss.LossyRun | src/parse/parse_video.cc:64-68 | with max_ equal to the capacity there is a run that drops a frame, for every capacity |
| FrameLoss.NeverDropsIff | src/parse/parse_video.cc:48-68 | with the rounded capacity, no run ever drops a frame if and only if max_ is not a power of two |
| FrameReader.GetParseDateFailsIff | src/parse/parse_video.cc:185-191 | in every run, past its size test GetParseDate fails exactly when the producer has claimed but not yet published the next frame |
| ReaderProgress.ChooseAdvances | src/parse/parse_video.cc:56-72 | with max_ positive and below the capacity, letting the producer finish a push, then the consumer empty the queue, then the producer go on always comes closer to delivering everything |
| ReaderProgress.CanFinish | src/parse/parse_video.cc:56-72 | from every such state that has lost no frame and was not stopped, some turns without stop deliver every frame |
| ReaderProgress.NeverFinishes | src/parse/parse_video.cc:64-68 | after a run that dropped a frame, no continuation delivers every frame |
| ReaderProgress.AlwaysFinishesIff | src/parse/parse_video.cc:48-72 | with the rounded capacity, every state reached without stop can still deliver every frame if and only if max_ is neither 0 nor a power of two |
| ReaderProgress.SafeBufferSizes | src/parse/parse_video.cc:28-31 | after the clamp to 20: exactly 1, 2, 4, 8 and 16 can lose frames, exactly these and 0 can make finishing impossible, and exactly 0 never delivers any |
| Greedy.ScanIsPick | src/pipeline/decorator_stage/yolo_decorator_stage.cc:384-421 | a scan that skips what clashes with the kept elements computes "keep the head, delete what it clashes with, recurse" |
| Greedy.PickUnique | src/pipeline/decorator_stage/yolo_decorator_stage.cc:384-421 | without ties, the selection is the only list in order whose elements do not clash and cover every other one |
| Greedy.SortDescending | thirdparty/tracker/TrackerLib.cpp:1263-1268 | a permutation in descending order of the key, with ties in any order |
| Assignment.SolveAssignmentProblem | thirdparty/tracker/TrackerLib.cpp:1271-1315 | the sort and scan return a best-first choice and exactly the tracks and detections it leaves over |
| Assignment.PickIsBestFirst | thirdparty/tracker/TrackerLib.cpp:1288-1313 | scanning any descending order repeatedly takes a best remaining candidate |
| Assignment.BestFirstUnique | thirdparty/tracker/TrackerLib.cpp:1288-1313 | without equal scores there is only one such choice |
| Assignment.MatchesStable | thirdparty/tracker/TrackerLib.cpp:1304-1313 | matches are candidates, share no end, and every candidate shares an end with a match of at least its score |
| Assignment.MatchedPartition | thirdparty/tracker/TrackerLib.cpp:1296-1313 | matched and unmatched ids partition the tracks and the detections |
| Assignment.HalfOptimal | thirdparty/tracker/TrackerLib.cpp:1263-1313 | with non-negative scores, any matching over the same candidates has at most twice the total score and twice the size |
| Assignment.HalfAttained | thirdparty/tracker/TrackerLib.cpp:1263-1313 | the factor 2 is attained by three candidates of equal score |
| Assignment.BestWhenNoneBetween | thirdparty/tracker/TrackerLib.cpp:1288-1313 | when no candidate shares its track with one and its detection with another candidate, a best-first choice has the largest total and the largest size of any matching, whatever the non-negative scores |
| Assignment.AlwaysBestIff | thirdparty/tracker/TrackerLib.cpp:1288-1313 | over all non-negative scores of a set of listed pairs and all orders of ties, the choice has the largest total of any matching if and only if no pair shares its track with one listed pair and its detection with another |
| Assignment.HalfOptimalAbove | thirdparty/tracker/TrackerLib.cpp:1263-1313 | the same guarantee for scores of any sign, counted from a common floor |
| Tracking.EachMore | thirdparty/tracker/TrackerLib.cpp:544-548 | operations on different tracks can be carried out one after the other, in any order of the id set |
| Tracking.InterleaveOk | thirdparty/tracker/TrackerLib.cpp:706-739 | the merge of two strictly increasing tracks is as long as both and strictly increasing |
| Tracking.InterleaveIds | thirdparty/tracker/TrackerLib.cpp:706-739 | the merge of any two tracks it terminates on is as long as both and under one id |
| Tracking.NeverMeetIff | thirdparty/tracker/TrackerLib.cpp:63-79 | walking two tracks in frame order stands on equal frames exactly when they have a common frame |
| Tracking.AppendKeepsOrderIff | thirdparty/tracker/TrackerLib.cpp:982-999 | appending keeps a track strictly increasing if and only if the new frame is later than the last, or one object is kept |
| Tracking.InterleaveContents | thirdparty/tracker/TrackerLib.cpp:706-739 | the merge holds exactly the objects of the first track and the relabelled objects of the second |
| Tracking.MergedOk | thirdparty/tracker/TrackerLib.cpp:690-743 | a merged track satisfies the track invariant under the surviving id |
| Tracking.MergedInOrder | thirdparty/tracker/TrackerLib.cpp:690-743 | merging two tracks in frame order gives one in frame order |
| Tracking.MergeAllKeepsInv | thirdparty/tracker/TrackerLib.cpp:675-685 | any list of merges keeps the tracker invariant |
| Tracking.PlanMerges | thirdparty/tracker/TrackerLib.cpp:671-685 | since each lost and each new id is used once and they are disjoint, every planned merge still finds two tracks it terminates on |
| Tracking.PlanCarriedOut | thirdparty/tracker/TrackerLib.cpp:672-743 | a plan removes exactly its new ids, leaves the merge of the two original tracks at each lost id, and touches nothing else |
| Tracking.PlanStart | thirdparty/tracker/TrackerLib.cpp:618-684 | the greedy choice among the listed pairs is such a plan |
| Tracking.DropsNothing | thirdparty/tracker/TrackerLib.cpp:746-757 | dropping forgotten tracks never removes anything, because ageing has already erased them |
| Tracking.StepKeepsBase | thirdparty/tracker/TrackerLib.cpp:550-616 | one call, whatever its frame index, keeps: active ids are the keys, keys are below the counter, tracks are non-empty, labelled with their key, within their length and object limit, and not forgotten |
| Tracking.StepKeepsInv | thirdparty/tracker/TrackerLib.cpp:550-616 | one call with a later frame index keeps, besides, every track strictly increasing and not beyond that frame |
| Rejoining.GetClosestLocation | thirdparty/tracker/TrackerLib.cpp:57-81 | the first nearest pair on the walk over any two tracks and its frame gap, capped at 10000; 0 exactly when the walk stands on equal frames; on strictly increasing tracks the least gap of all pairs |
| Rejoining.StuckForever | thirdparty/tracker/TrackerLib.cpp:706-714 | where the walk stands on equal frames, the merging loop stays within both tracks for ever |
| Rejoining.MergeLoopEndsIff | thirdparty/tracker/TrackerLib.cpp:706-720 | for any two tracks the merging loop ends if and only if the walk never stands on equal frames; on strictly increasing tracks, if and only if they share no frame |
| Rejoining.DropOldest | thirdparty/tracker/TrackerLib.cpp:995-999 | erasing from the front leaves the last max_num_objects_in_track objects, or all when the limit is not positive |
| Rejoining.TrimEarly | thirdparty/tracker/TrackerLib.cpp:715-719 | trimming after every object leaves what trimming once at the end would leave |
| Rejoining.MergeBoth | thirdparty/tracker/TrackerLib.cpp:706-720 | the loop over both tracks yields the merge so far, trimmed, and stops at the end of one of them |
| Rejoining.MergeObjects | thirdparty/tracker/TrackerLib.cpp:703-740 | the three loops leave exactly the last objects of the full frame-ordered merge |
| Tracker.TrackerLib.constructor | thirdparty/tracker/TrackerLib.cpp:188-195 | a new tracker has no tracks and counts from 1 |
| Tracker.TrackerLib.AddNewTrack | thirdparty/tracker/TrackerLib.cpp:931-951 | the new state: one more track of one object under the counter, which advances |
| Tracker.TrackerLib.AddAllNewTracks | thirdparty/tracker/TrackerLib.cpp:913-919 | a track for every detection, in order |
| Tracker.TrackerLib.AddNewTracks | thirdparty/tracker/TrackerLib.cpp:921-929 | a track for every listed detection, in ascending order |
| Tracker.TrackerLib.AppendToTrack | thirdparty/tracker/TrackerLib.cpp:953-1002 | appends and trims, or removes a short track whose detection jumped; the track must not be forgotten |
| Tracker.TrackerLib.EraseTrackIfBBoxIsOutOfFrame | thirdparty/tracker/TrackerLib.cpp:454-508 | trims the predicted rectangle and erases the track when it is empty, or out of frame and lost for long |
| Tracker.TrackerLib.EraseTrackIfItWasLostTooManyFramesAgo | thirdparty/tracker/TrackerLib.cpp:510-529 | erases exactly the tracks lost beyond the delay, or beyond a third of it when short |
| Tracker.TrackerLib.UpdateLostTrackAndEraseIfItsNeeded | thirdparty/tracker/TrackerLib.cpp:531-542 | ages one track: lost, predicted rectangle, frame check, delay check |
| Tracker.TrackerLib.UpdateLostTracks | thirdparty/tracker/TrackerLib.cpp:544-548 | ages exactly the given tracks |
| Tracker.TrackerLib.EraseTracksOutOfFrame | thirdparty/tracker/TrackerLib.cpp:600-602 | the frame check of exactly the given tracks |
| Tracker.TrackerLib.DropForgottenTracks | thirdparty/tracker/TrackerLib.cpp:746-757 | removes exactly the forgotten tracks |
| Tracker.TrackerLib.MergeTrack | thirdparty/tracker/TrackerLib.cpp:690-743 | terminates where the zero test let the tracks through and leaves their trimmed merge, with the summed length and the earlier first object, under the first id |
| Tracker.TrackerLib.FindNewAndLost | thirdparty/tracker/TrackerLib.cpp:620-635 | the tracks just old enough to rejoin and the valid lost tracks |
| Tracker.TrackerLib.RejoinCandidates | thirdparty/tracker/TrackerLib.cpp:636-671 | lists exactly the pairs the walk gets through that pass the location test on their nearest objects and the appearance test, with their affinity |
| Tracker.TrackerLib.MergeGreedily | thirdparty/tracker/TrackerLib.cpp:671-685 | carries out a best-first choice of the listed pairs, every merge of which terminates |
| Tracker.TrackerLib.Rectify | thirdparty/tracker/TrackerLib.cpp:618-688 | the merges are a greedy choice among all pairs that may rejoin, and the new state is the result of all of them |
| Tracker.TrackerLib.PreProcess | thirdparty/tracker/TrackerLib.cpp:242-263 | keeps, in order, exactly the detections within the confidence, aspect and height ranges |
| Tracker.TrackerLib.ComputeSimilarityMatrix | thirdparty/tracker/TrackerLib.cpp:831-910 | lists exactly the pairs of an active track and a detection that reach the threshold |
| Tracker.TrackerLib.AppendMatches | thirdparty/tracker/TrackerLib.cpp:584-595 | every matched track gets its detection; the assertion in AppendToTrack always holds |
| Tracker.TrackerLib.TrackMatched | thirdparty/tracker/TrackerLib.cpp:568-602 | the branch with tracks and detections, against the value specification |
| Tracker.TrackerLib.Process | thirdparty/tracker/TrackerLib.cpp:550-616 | one call, for any frame index, terminates and is one step of the state machine, with a matching and merges the specification allows |
| Tracker.TrackerLib.TrackedDetections | thirdparty/tracker/TrackerLib.cpp:1103-1112 | the last objects of exactly the valid tracks seen in this frame, in ascending order of id |
| TrackingRuns.StepSettles | thirdparty/tracker/TrackerLib.cpp:550-616 | after a call, lost is zero exactly for the tracks seen in it, and the exact distance when no frame is skipped; merges keep this |
| TrackingRuns.RunKeepsInv | thirdparty/tracker/TrackerLib.cpp:550-616 | every run with increasing frame indices keeps the invariant |
| TrackingRuns.RunKeepsBase | thirdparty/tracker/TrackerLib.cpp:550-616 | every run, whatever its frame indices, keeps what StepKeepsBase says |
| FrameOrder.OutOfOrderRun | thirdparty/tracker/TrackerLib.cpp:550-616 | for two successive frame indices that do not increase and any detection of positive size, the run in which it is seen in just these two frames is valid and ends with a track out of order |
| FrameOrder.KeepsOrderIff | thirdparty/tracker/TrackerLib.cpp:550-616 | over all runs with given frame indices, every track stays in frame order if and only if the indices strictly increase or tracks hold one object only |
| FrameOrder.AssertedKeepsOrderIff | thirdparty/tracker/TrackerLib.cpp:551-553 | among frame indices that pass the timestamp assertion, order is kept if and only if no call after the first has index 0 (or tracks hold one object only) |
| FrameOrder.BackToZero | thirdparty/tracker/TrackerLib.cpp:551-553 | indices 0, 0 and 7, 0 both pass the assertion and both reach a track out of order |
| TrackingRuns.EveryRun | thirdparty/tracker/TrackerLib.cpp:454-616 | from a new tracker with consecutive frames, lost is the distance to the last object, at most the delay, and at most a third of it for short tracks |
| TrackingRuns.RunRevivesNothing | thirdparty/tracker/TrackerLib.cpp:931-951 | an id whose track is gone never comes back in any run |
| TrackingRuns.MatchedSurvives | thirdparty/tracker/TrackerLib.cpp:584-602 | a matched track with a non-empty detection survives the call with that detection last, unless it was removed as noise |
| TrackDecisions.AppendRemovesIff | thirdparty/tracker/TrackerLib.cpp:971-979 | appending removes the track if and only if it has fewer objects than half the minimal duration and, in rounded half pixels, the centres are farther apart than a side of the detection |
| TrackDecisions.FarFromEven | thirdparty/tracker/TrackerLib.cpp:50-54 | between rectangles of even sizes that is the plain distance of the centres against the shorter side |
| TrackDecisions.FarFromBounds | thirdparty/tracker/TrackerLib.cpp:12-54 | in general the rounding of the centres shifts the limit by two half pixels per axis at most |
| TrackDecisions.MatchedRemovedIff | thirdparty/tracker/TrackerLib.cpp:588-603 | a matched track is gone before rejoining if and only if it is that young and was last seen that far away; otherwise it ends in its detection |
| TrackDecisions.NoiseMeans | thirdparty/tracker/TrackerLib.cpp:971-979 | a detection is noise if and only if it is matched to such a track, and never with a minimal duration of at most 2 |
| TrackDecisions.MovedIff | thirdparty/tracker/TrackerLib.cpp:638-650 | along one axis a pair passes if and only if the rounded distance of the centres is within half the rounded mean side times the gap, three frames at most |
| TrackDecisions.NearOnBounds | thirdparty/tracker/TrackerLib.cpp:638-650 | exactly the unrounded comparison for sides of even sum, and within a pixel and a half of it otherwise |
| TrackDecisions.NearOnSame | thirdparty/tracker/TrackerLib.cpp:638-650 | the same place always passes |
| TrackDecisions.NearOnLater | thirdparty/tracker/TrackerLib.cpp:638-650 | what passes at one gap passes at every larger one |
| TrackDecisions.NearestIsFirst | thirdparty/tracker/TrackerLib.cpp:57-81 | on tracks in frame order the pair found is the first, in both tracks, of those with the least frame gap |
| TrackDecisions.ListedIff | thirdparty/tracker/TrackerLib.cpp:632-667 | of a lost and a new track that look alike and share no frame on the walk, Rectify lists exactly those whose nearest objects have centres that near, or that are 10000 frames apart |
| TrackDecisions.SamePlaceListed | thirdparty/tracker/TrackerLib.cpp:632-667 | a person who comes back to the same place is always listed |
| TrackDecisions.TrimMeans | thirdparty/tracker/TrackerLib.cpp:470-493 | what trimming does along each axis, that it changes exactly what crosses the border, and when the result is in the frame |
| TrackDecisions.PassesIff | thirdparty/tracker/TrackerLib.cpp:245-250 | a detection passes the filter if and only if its height lies between the multiples of its width and in the height range and its confidence is high enough |
| TrackDecisions.FilteredAt | thirdparty/tracker/TrackerLib.cpp:242-263 | the filter keeps exactly the passing detections, in order and as often as they come |
| TrackHistory.LastNIs | thirdparty/tracker/TrackerLib.cpp:995-999 | of a list the newest objects are kept, as many as the limit allows |
| TrackHistory.RunComplete | thirdparty/tracker/TrackerLib.cpp:550-616 | in every run a track keeps all objects it was ever given, or as many as the limit allows; merging adds the numbers |
| TrackHistory.RunFirst | thirdparty/tracker/TrackerLib.cpp:690-700 | in every run with increasing frames the first object of a track is no later than any it keeps, also through merges |
| TrackHistory.AddTracksAt | thirdparty/tracker/TrackerLib.cpp:597-606 | new tracks are numbered in the order of their detections, and the tracks there stay as they are |
| TrackHistory.ReportedAt | thirdparty/tracker/TrackerLib.cpp:1047-1062 | exactly the valid tracks seen in the last call are reported with their last object, by ascending id |
| Lifetime.AgeKeepsIff | thirdparty/tracker/TrackerLib.cpp:394-527 | ageing keeps a track if and only if its predicted rectangle has a size and it is lost for at most the delay, a third of it for short tracks and at the border |
| Lifetime.UnmatchedKeptIff | thirdparty/tracker/TrackerLib.cpp:597-606 | the same for an unmatched track in a whole call, where with detections the rectangle must also start before the last column and row |
| Lifetime.LifeOfTrack | thirdparty/tracker/TrackerLib.cpp:550-616 | a detection seen in n calls and hidden in k: its track lives exactly as long as the delay for its length and place allows, counts n detections, and is reported exactly while it is seen after more than the minimal number |
| Lifetime.ComesBack | thirdparty/tracker/TrackerLib.cpp:618-688 | unmatched but back in its place it starts a second track, which is joined to the first at once if and only if Rectify waits for length 1 and the first was long enough to be reported |
| Placement.AppendPlaces | thirdparty/tracker/TrackerLib.cpp:584-595 | after the matches are carried out, every matched detection is the last object of its own track, unless that track was removed as noise |
| Placement.AddPlaces | thirdparty/tracker/TrackerLib.cpp:913-929 | every unmatched detection becomes a track of its own, and the places of the others stay |
| Placement.InterleaveEnd | thirdparty/tracker/TrackerLib.cpp:706-739 | the later of the two last objects is the last object of the merge |
| Placement.MergeAllPlaces | thirdparty/tracker/TrackerLib.cpp:671-743 | merging moves the place of a detection to the surviving id and loses none |
| Placement.StepPlaces | thirdparty/tracker/TrackerLib.cpp:550-616 | after a call the detections that passed the filter and were not noise are, one to one, the last objects of exactly the tracks seen in this call |
| TrackerApi.ClampInside | thirdparty/tracker/TrackerLib_api.cpp:92-101 | a clamped rectangle is never empty, is inside the frame exactly when the frame is at least 2 by 2, and a rectangle already inside is unchanged |
| TrackerApi.ClampCuts | thirdparty/tracker/TrackerLib_api.cpp:90-99 | along each axis exactly the pixels inside the frame remain of a rectangle that meets it, and any other becomes the frame's pixel nearest to where it starts |
| TrackerApi.CutOnUnique | thirdparty/tracker/TrackerLib_api.cpp:90-99 | this determines the clamped rectangle |
| TrackerApi.TrackerLibApi.Run | thirdparty/tracker/TrackerLib_api.cpp:81-129 | one output per input, in order, with its own rectangle and confidence; the tracker makes one step on the clamped detections |
| TrackerApi.TrackerLibApi.ClampInputs | thirdparty/tracker/TrackerLib_api.cpp:90-103 | every input is cut to the frame in this sense, in order, and keeps its confidence |
| TrackerApi.TrackerLibApi.AlignOutputs | thirdparty/tracker/TrackerLib_api.cpp:110-129 | each output takes the id of the first result with its clamped rectangle and confidence, or keeps its own |
| TrackerApi.IdOf | thirdparty/tracker/TrackerLib_api.cpp:115-125 | an id of a result with the same key if there is one, the given id if there is none |
| TrackerApi.IdIsLiveTrack | thirdparty/tracker/TrackerLib_api.cpp:110-129 | a track id given to a detection is the key of a live track whose last object is that very detection, also after merges |
| TrackerApi.SameIdIff | thirdparty/tracker/TrackerLib_api.cpp:110-129 | two detections given track ids get the same one if and only if they agree in clamped rectangle and confidence |
| TrackerApi.ClampedNotEmpty | thirdparty/tracker/TrackerLib_api.cpp:92-107 | no detection that reaches the tracker has an empty rectangle |
| TrackerApi.OwnTrackId | thirdparty/tracker/TrackerLib_api.cpp:110-129 | with distinct keys, a detection is given the id of its own track if that is reported, and keeps its id otherwise |
| TrackerApi.RunIds | thirdparty/tracker/TrackerLib_api.cpp:81-129 | one call end to end: a track of its own for every detection that passed the filter and was not noise, and the id of that track in the output |
| TrackerApi.MatchedTracksSurvive | thirdparty/tracker/TrackerLib_api.cpp:92-107 | because of the clamping, a track matched in this call is gone before rejoining exactly when it was removed as noise |
| Suppression.UnionPositive | src/pipeline/decorator_stage/yolo_decorator_stage.cc:393-416 | for boxes the right way round, the overlap denominator is at least 1 |
| Suppression.OverlapsSymmetric | src/pipeline/decorator_stage/yolo_decorator_stage.cc:405-419 | the suppression test does not depend on the order of the boxes |
| Suppression.OverlapsIff | src/pipeline/decorator_stage/yolo_decorator_stage.cc:396-419 | well-formed boxes overlap if and only if three times their common area exceeds the sum of their areas |
| Suppression.OverlapsAtEnds | src/pipeline/decorator_stage/yolo_decorator_stage.cc:396-419 | boxes in the same place overlap, boxes without a common pixel do not |
| Suppression.NMSProcess | src/pipeline/decorator_stage/yolo_decorator_stage.cc:372-422 | the output, appended to what was there, is the recursive selection from some descending order, and for well-formed boxes separates them as Suppression.SuppressedSeparates says |
| Suppression.SelectUnmasked | src/pipeline/decorator_stage/yolo_decorator_stage.cc:379-421 | the loop with mask and cursor computes the recursive selection |
| Suppression.MaskOverlapping | src/pipeline/decorator_stage/yolo_decorator_stage.cc:400-420 | from the cursor on, exactly the boxes overlapping a kept one are masked |
| Suppression.SuppressionResult | src/pipeline/decorator_stage/yolo_decorator_stage.cc:372-422 | kept boxes are in descending confidence, pairwise below the threshold and each listed among the inputs, every input is kept or overlaps a kept box of at least its confidence, and a most confident box is kept |
| Suppression.SuppressedSeparates | src/pipeline/decorator_stage/yolo_decorator_stage.cc:372-422 | in coordinates: no two kept boxes share most of their area or are in the same place, every other box does with a kept one of at least its confidence, and a box that meets no other is kept |
| Suppression.SuppressedIff | src/pipeline/decorator_stage/yolo_decorator_stage.cc:372-422 | without equal confidences a list has these properties if and only if it is the output |
| Suppression.InputOrderIrrelevant | src/pipeline/decorator_stage/yolo_decorator_stage.cc:372-422 | without equal confidences the output does not depend on the order of the input |
| Suppression.Idempotent | src/pipeline/decorator_stage/yolo_decorator_stage.cc:372-422 | suppressing the output again keeps it whole, however ties are sorted |
| Suppression.FilterBoxByScore | src/pipeline/decorator_stage/yolo_decorator_stage.cc:550-563 | every class keeps exactly its boxes at or above the threshold, in order |
| Suppression.EraseLowScores | src/pipeline/decorator_stage/yolo_decorator_stage.cc:554-561 | erasing at the iterator leaves the filtered list |
| Suppression.KeepScoredAt | src/pipeline/decorator_stage/yolo_decorator_stage.cc:554-561 | exactly the boxes that score at least 0.3 are kept, in order |
| Suppression.FilterCommutes | src/pipeline/decorator_stage/yolo_decorator_stage.cc:634-635 | filtering after suppression gives the sequence that filtering before it would give |
| Association.FindAssociationPairs | src/pipeline/decorator_stage/yolo_decorator_stage.cc:564-614 | terminates while overwriting its matrix; the pairs are a best-first choice among the original entries within the gate, one per turn of the loop and at most min(rows, columns), the orphans the sorted complements, and an empty matrix returns false with everything empty |
| Association.MinCoeff | src/pipeline/decorator_stage/yolo_decorator_stage.cc:583 | a position of a smallest coefficient |
| Association.BlankRowAndColumn | src/pipeline/decorator_stage/yolo_decorator_stage.cc:589-590 | overwrites exactly the matched row and column |
| Association.Orphans | src/pipeline/decorator_stage/yolo_decorator_stage.cc:595-612 | the ascending list of exactly the unused indices |
| Association.MatchesWithinGate | src/pipeline/decorator_stage/yolo_decorator_stage.cc:583-593 | every match has an original cost within the gate, and no column is matched twice |
| Association.NoAdmissibleOrphans | src/pipeline/decorator_stage/yolo_decorator_stage.cc:583-612 | an orphan row and an orphan column have an original cost above the gate |
| Association.FewMatches | src/pipeline/decorator_stage/yolo_decorator_stage.cc:583-593 | a best-first choice of the entries has at most min(rows, columns) of them; the loop makes one per turn |
| Association.GateTooLarge | src/pipeline/decorator_stage/yolo_decorator_stage.cc:583-593 | on a non-empty matrix of finite floats, a gate at or above the largest float keeps the loop running after any number of turns |
| Association.BlankingIsScanning | src/pipeline/decorator_stage/yolo_decorator_stage.cc:583-593 | for distinct admissible costs, repeated minimum with blanking chooses what sort and scan chooses |
| Fusion.CostMatrix | src/pipeline/decorator_stage/yolo_decorator_stage.cc:434-443 | entry (i, j) is one minus the overlap of the i-th and the j-th box |
| Fusion.IouMeans | src/pipeline/decorator_stage/yolo_decorator_stage.cc:96-111 | the ratio is between 0 and 1, 0 without a common interior point, 1 for a box with itself, symmetric, and at least 0.2 if and only if six times the common area is at least the sum of the areas; 0 where both together cover next to nothing |
| Fusion.FittedShares | src/pipeline/decorator_stage/yolo_decorator_stage.cc:434-447 | matched pairs have that much in common and share interior points, and no two boxes left over do, in particular none that coincide |
| Fusion.Associate | src/pipeline/decorator_stage/yolo_decorator_stage.cc:434-447 | a best-first choice by cost of the admissible pairs, which is one-to-one, within the gate, and not extensible; and the unmatched rows |
| Fusion.ChosenUnique | src/pipeline/decorator_stage/yolo_decorator_stage.cc:434-447 | for pairwise distinct admissible costs there is only one such matching |
| Fusion.ChosenHalfOptimal | src/pipeline/decorator_stage/yolo_decorator_stage.cc:434-447 | it has at least half the size and half the total margin below the gate of any one-to-one set of admissible pairs |
| Fusion.FuseBodies | src/pipeline/decorator_stage/yolo_decorator_stage.cc:449-486 | with heads, one person per body carrying its matched or guessed head; without heads, none |
| Fusion.MarkFaces | src/pipeline/decorator_stage/yolo_decorator_stage.cc:502-508 | exactly the matched persons get their face, whatever the order |
| Fusion.ComputeAssociate | src/pipeline/decorator_stage/yolo_decorator_stage.cc:424-508 | the persons are the fusion of bodies, heads and faces under two such matchings |
| Fusion.OnePersonPerBodyIff | src/pipeline/decorator_stage/yolo_decorator_stage.cc:444-486 | there are as many persons as bodies if and only if there is a head or no body; each stands for a different body |
| Fusion.HeadsAndFacesOnce | src/pipeline/decorator_stage/yolo_decorator_stage.cc:449-508 | no two persons share a matched head or a face, and a person gets at most one face |
| Fusion.PlacesAgree | src/pipeline/decorator_stage/yolo_decorator_stage.cc:449-508 | a matched head lies where it was detected and meets the box in which its body expects a head, bodies and heads left over do not, and a face meets the head of its person |
| Fusion.GuessedHeadMeans | src/pipeline/decorator_stage/yolo_decorator_stage.cc:468-490 | a guessed head is the related box, or the upper third of the body when that box is less than two pixels wide or high |
| Base64.MasksAreDivisions | thirdparty/base64encoding/base64.cpp:134-205 | the masks and shifts of the codec, on all bytes, as divisions and remainders |
| Base64.PosOfCharIff | thirdparty/base64encoding/base64.cpp:55-71 | a character has position i exactly when it is the i-th of either alphabet; any other is an error |
| Base64.CharRoundTrip | thirdparty/base64encoding/base64.cpp:44-71 | the position of a character of either alphabet is its index, and no character is a pad or newline |
| Base64.Base64Encode | thirdparty/base64encoding/base64.cpp:111-160 | the loop yields the groupwise encoding |
| Base64.EncodedLength | thirdparty/base64encoding/base64.cpp:111-160 | the encoding of n bytes has 4 * ceil(n / 3) characters (section 4 of RFC 4648) |
| Base64.Alphabets | thirdparty/base64encoding/base64.cpp:44-53 | the two alphabets, spelled out |
| Base64.EncodedChars | thirdparty/base64encoding/base64.cpp:111-160 | an encoding consists of the chosen alphabet and its own pad, which stands in the last two places only and as often as the last group is short of bytes |
| Base64.TestVectors | thirdparty/base64encoding/base64.cpp:111-160 | vectors of section 10 of RFC 4648, and the last two characters of both alphabets |
| Base64.DecodeLoop | thirdparty/base64encoding/base64.cpp:180-213 | the loop yields the blockwise decoding or its exception |
| Base64.Base64Decode | thirdparty/base64encoding/base64.cpp:163-213 | decoding, after removal of newlines when asked |
| Base64.DecodeAcceptsIff | thirdparty/base64encoding/base64.cpp:193-210 | decoding succeeds if and only if every block of four is well formed |
| Base64.RoundTrip | thirdparty/base64encoding/base64.cpp:111-213 | decoding undoes encoding for every byte string and both alphabets (sections 4 and 5 of RFC 4648) |
| Base64.ComesBackIff | thirdparty/base64encoding/base64.cpp:111-213 | encoding undoes decoding exactly on the canonical strings: whole blocks of one alphabet, its own pads in the last block only, and no bit set that stands for nothing (sections 3.5 and 4 of RFC 4648) |
| Base64.InsertLinebreaks | thirdparty/base64encoding/base64.cpp:73-89 | inserting into the growing string terminates and yields the broken lines |
| Base64.BrokenLines | thirdparty/base64encoding/base64.cpp:73-89 | breaks stand exactly after every full line, and the last line is not empty |
| Base64.StripBroken | thirdparty/base64encoding/base64.cpp:73-178 | removing the newlines undoes the breaking |
| Base64.BrokenRoundTrip | thirdparty/base64encoding/base64.cpp:91-104 | the 64- and 76-column forms decode back after newline removal (section 4.3.2.4 of RFC 1421, section 6.8 of RFC 2045) |
| Base64.StrictDecodeIff | thirdparty/base64encoding/base64.cpp:91-213 | without newline removal they decode if and only if they have a single line |
| Polygon.PointInPolygon | src/pipeline/decorator_stage/upload_decorator_stage.cc:24-38 | the loop with two indices computes the crossing parity of the closed path |
| Polygon.RotationInvariant | src/pipeline/decorator_stage/upload_decorator_stage.cc:24-38 | the answer does not depend on the first vertex |
| Polygon.ReversalInvariant | src/pipeline/decorator_stage/upload_decorator_stage.cc:24-38 | nor on the direction of the vertex list |
| Polygon.LeftParity | src/pipeline/decorator_stage/upload_decorator_stage.cc:29-36 | left of every vertex, the crossing parity is that of the end points' sides, so a closed path crosses an even number of times |
| Polygon.InsideBox | src/pipeline/decorator_stage/upload_decorator_stage.cc:24-38 | an inside point satisfies minX < x <= maxX and minY < y <= maxY |
| Polygon.RectangleIff | src/pipeline/decorator_stage/upload_decorator_stage.cc:24-38 | a point is inside an upright rectangle if and only if minX < x <= maxX and minY < y <= maxY |
| Polygon.CrossesIff | src/pipeline/decorator_stage/upload_decorator_stage.cc:29-33 | an edge is crossed if and only if it straddles the point's height and a cross product puts the point not right of it |
| Polygon.RightTriangleIff | src/pipeline/decorator_stage/upload_decorator_stage.cc:24-38 | a point is inside a right triangle if and only if it is right of and above the legs and not beyond the slanted side |

## Left out

- CircleBuffer.StepKeepsInv: does not model the weak memory orders, only sequentially consistent interleavings; the counters do not wrap at the word size, and neither the destructor nor cache-line padding is modelled.
- CircleBuffer.InitInv: is about queues with nodes; a request for capacity 0 leaves none and any push would then read outside the array (Rounding.TicketsHaveNodesIff).
- FrameReader.TurnKeepsInv: the decoded frames are a given list of values, so "in order" is about the queued image headers (the source pushes headers of one variable, whose copies share pixel data); the sleep, the `be_ready_` flag and video decoding are not modelled.
- Tracker.TrackerLib.AddNewTrack: does not model the wrap of `tracks_counter_` at INT_MAX, where ids would be reused.
- Tracker.TrackerLib.ComputeSimilarityMatrix: affinities are given numbers, because image descriptors and floating-point affinities are not modelled.
- Tracker.TrackerLib.RejoinCandidates: the appearance test and the affinity of a pair are given data for the same reason; the location test is modelled.
- Tracker.TrackerLib.UpdateLostTrackAndEraseIfItsNeeded: the rectangle predicted for a track of several objects is given data.
- Tracker.TrackerLib.Process: tracks are values in a map field, so sharing of track and object pointers is not captured, except that merging relabels the first object of a track when it is still among its objects, recognised by its value; the assertion on timestamps is no precondition here (`FrameOrder.Asserted` states it) and the one on the frame size is not modelled; image buffers, descriptors, scores and features of a track are not modelled.
- Greedy.SortDescending: std::sort leaves the order of equal keys open; every result holds for every sorted order. The order of unordered maps and sets is likewise arbitrary.
- Suppression.NMSProcess: coordinates and confidences are reals, so rounding, infinities other than the zero denominator, and NaN are not modelled; the same holds for the matrices of Association, for Fusion and for Polygon.
- Association.FindAssociationPairs: the gate is below the largest float, which the loop writes over used rows and columns; with a larger one it would not end on a non-empty matrix (Association.GateTooLarge; the callers pass 0.8).
- Fusion.ComputeAssociate: hand packages, a plain nearest-person loop with a fixed array, and attributes are left out.
- Base64.Base64Encode: the unsigned position counter does not wrap at 2^32.
- `TrackerLib::all_tracks`, which renumbers objects through shared pointers, `GetLostPrediction`, `GetActiveTracks`, `Count` and the display part of `run` are outside the path of `Process`.
- `Solve_speed`, `PredictRect2`, `PredictRectSmoothed`, `DropForgottenTrack` and `ComputeDistancesWithOthers` are not called by `Process`.
- `DecodingOutput`, `MakeGridNp`, `sigmoid` and `softmax` are fixed tensor layout and transcendental functions.
- The `Pipeline` classes, factories and context copying would only add easy members.
- Configuration, JSON, video decoding, upload, drawing, the C interface, the inference engines and generated protocol code are input and output, user interface or foreign calls.
