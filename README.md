# Live-feed plant tracker: a Dafny model

The live-feed page of this field-inspection app sends a frame to a detector every
two seconds. The detector answers with boxes and class codes. The page turns each
answer into persistent plant identities with a greedy IoU (Intersection over
Union) tracker, and shows cumulative figures: plants ever seen, plants ever
infested, and the percentage infested. This project models that tracker and
proves what one update cycle guarantees.

- `geometry.dfy` (`Geometry`): boxes in centre/width/height form, and `Iou` with
  its clamped intersection and its guard against a zero union.
- `detections.dfy` (`Detections`): a detector reply becomes a batch of detections,
  one per box. A class code may be absent, and only code 0 means infested.
- `tracking.dfy` (`Tracking`): one cycle as pure functions (`ScanBest`,
  `BestMatch`, `MatchStep`, `MatchPass`, `Carry`, `Step`). The lemmas about them
  cover the greedy choice, id freshness, "claimed at most once", eviction and the
  ever-infested set. `Valid` is the tracker invariant.
- `tracker.dfy` (`Tracker`): the mutable state as a class `TrackerState` with
  fields `tracks`, `nextId` and `infested`. Its `Update` method runs the two loops
  of the source: the matching pass, whose inner scan is `FindBestMatch`, and then
  the eviction pass `AppendRecent`. It is proved to leave the state equal to
  `Tracking.Step` of the old state.
- `counts.dfy` (`Counts`): the figures derived from the counter and the set.
- `scenario.dfy` (`Scenario`): three cycles on one stationary plant.
- `options.dfy` (`Options`): the `Option` type.

Clock and I/O: `Date.now()` becomes the `now` parameter, in milliseconds. It is
read when a reply is handled (`src/pages/Home.js:159`), not when the 2 s timer
fires. The detector call, frame capture and JSON parsing are not modelled.

What a failed request does depends on how it fails:
- A fetch that rejects, or a reply that is not JSON, throws before the update
  (`src/pages/Home.js:110-115`). That cycle is "no `Update` call".
- An error reply from the server has the shape `{"error": ...}` and status 400
  or 500 (`.history/server_20250502011647.py:127`, `130`, `145`, `212`). The
  detection handler (`src/pages/Home.js:107-127`) never checks `response.ok`;
  only the reachability probe at line 32 does. So `result.boxes` is undefined,
  and the handler runs the update with an empty batch. The update therefore still evicts the stale
  tracks. The model does the same: `FromResponse(Response(None, None))` is `[]`,
  and `Tracking.StepEmptyBatch` says what that cycle does.

The code does not do the following, and the model follows the code:
- Detections with NaN or infinite coordinates are not rejected. Reals have no
  such values here.
- Box and class lists of different lengths are not rejected. Boxes without a
  class get `Missing`, which is not infested.
- There is no session-reset operation.
- The staleness window is 1000 ms, although a comment in the source says 10 s.
- Matching ignores timestamps. Only unmatched tracks are checked for staleness.
  Replies can arrive less than 1000 ms apart, because the timer does not wait
  for the previous fetch. An unmatched track last seen less than 1000 ms ago is
  then carried into the next list.

## Model

| member | source | states |
|---|---|---|
| Geometry.Iou | src/pages/Home.js:135-155 | The result is never negative, and it is 0 whenever the union area is not positive (no division by zero). |
| Geometry.Max | src/pages/Home.js:144-149 | `Math.max` on two reals: the result is at least both arguments and equals one of them. |
| Geometry.Min | src/pages/Home.js:146-147 | `Math.min` on two reals: the result is at most both arguments and equals one of them. |
| Geometry.Left | src/pages/Home.js:139-142 | No contract of its own: the left edge cx - w/2 of the corner conversion. Geometry.Area and Geometry.IouDisjoint characterise the corners. |
| Geometry.Right | src/pages/Home.js:139-142 | No contract of its own: the right edge cx + w/2. Geometry.Area and Geometry.IouDisjoint characterise the corners. |
| Geometry.Top | src/pages/Home.js:139-142 | No contract of its own: the top edge cy - h/2. Geometry.Area and Geometry.IouDisjoint characterise the corners. |
| Geometry.Bottom | src/pages/Home.js:139-142 | No contract of its own: the bottom edge cy + h/2. Geometry.Area and Geometry.IouDisjoint characterise the corners. |
| Geometry.InterArea | src/pages/Home.js:149 | The intersection area is never negative, because both overlap sides are clamped at 0. |
| Geometry.OverlapWidth | src/pages/Home.js:144-149 | The clamped overlap width is non-negative and at most the width of either box of non-negative width. |
| Geometry.OverlapHeight | src/pages/Home.js:144-149 | The clamped overlap height is non-negative and at most the height of either box of non-negative height. |
| Geometry.Area | src/pages/Home.js:150-151 | The area computed from the corners equals width times height. |
| Geometry.UnionArea | src/pages/Home.js:153 | No contract of its own. Its guard in Iou is stated by Geometry.Iou. For boxes of non-negative size it is at least the intersection, which is shown inside Geometry.IouInUnitInterval. |
| Geometry.IouSymmetric | src/pages/Home.js:135-155 | iou(a, b) == iou(b, a). |
| Geometry.IouInUnitInterval | src/pages/Home.js:135-155 | For boxes with non-negative width and height, IoU lies in [0, 1]. |
| Geometry.IouSelf | src/pages/Home.js:135-155 | Two identical boxes with positive width and height have IoU 1. |
| Geometry.IouDisjoint | src/pages/Home.js:144-154 | Boxes separated on either axis have intersection 0 and IoU 0. |
| Detections.OrEmpty | src/pages/Home.js:116-117 | No contract of its own: the empty-list default that lines 116 and 118 apply to an absent list. Detections.FromResponse characterises it. |
| Detections.ClassAt | src/pages/Home.js:118 | No contract of its own: the class at a box's index, Missing past the end of the list. Detections.Pair and Detections.FromResponse characterise it. |
| Detections.IsInfested | src/pages/Home.js:186 | No contract of its own: the `=== 0` class test (also at 199). Detections.FromResponse, Tracking.MatchPassInfested and Tracking.StepInfestedCovers characterise it. |
| Detections.Pair | src/pages/Home.js:116-119 | One detection per box, in order; detection i has box i and the class code at index i, or Missing past the end of the class list. |
| Detections.FromResponse | src/pages/Home.js:116-119 | A missing box list gives an empty batch. Detection i is infested exactly when the reply has code 0 at index i. A box without a code is never infested. |
| Tracking.Init | src/pages/Home.js:16-18 | No contract of its own: the refs' initial values (empty list, counter 1, empty set). Tracking.InitValid and Tracker.TrackerState.constructor characterise it. |
| Tracking.InitValid | src/pages/Home.js:16-18 | The session start (no tracks, counter 1, empty set) satisfies the tracker invariant. |
| Tracking.ScanBest | src/pages/Home.js:165-176 | The scan keeps an unmatched index with IoU strictly above 0.4 that no unmatched track beats, and that every earlier unmatched track scores strictly below. It keeps nothing when no unmatched track clears 0.4. |
| Tracking.BestMatch | src/pages/Home.js:165-176 | A chosen index is the greedy best (unmatched, above 0.4, maximal, first among equals). No choice means no unmatched track clears 0.4. |
| Tracking.BestMatchCharacterized | src/pages/Home.js:165-176 | The chosen track is i if and only if i is the greedy best: unmatched, above 0.4, maximal, first among equals. There is no choice if and only if no unmatched track clears 0.4. |
| Tracking.MatchStep | src/pages/Home.js:164-202 | One detection appends exactly one entry and keeps the earlier ones. The entry has the detection's box and class and timestamp now. The infested set gains that entry's id exactly when its class is 0. The counter rises by 0 or 1. |
| Tracking.MatchStepChoice | src/pages/Home.js:178-197 | If the counter rose, nothing was claimed, the entry took the old counter value as its id, and no unmatched track cleared 0.4. If it did not rise, the entry claimed the greedy best track i, took prev[i]'s id, and i joined the claimed set. |
| Tracking.LayoutStep | src/pages/Home.js:178-197 | One detection keeps the entries already produced and appends one with that detection's box, class and timestamp now. |
| Tracking.CounterStep | src/pages/Home.js:178-197 | One detection either raises the counter by one or adds exactly one index to the claimed set. |
| Tracking.MatchPass | src/pages/Home.js:164-203 | After k detections there are k new entries, the counter has not decreased, and only previous tracks are marked as claimed. |
| Tracking.MatchPassLayout | src/pages/Home.js:178-197 | Entry i has detection i's box and class and timestamp now. This holds both for a claimed track and for a new one. |
| Tracking.MatchPassCounter | src/pages/Home.js:178-197 | (Ids issued) + (tracks claimed) == detections handled. Each detection takes one fresh id or claims one previous track. |
| Tracking.MatchPassOrigins | src/pages/Home.js:171-197 | Each entry's id is either freshly issued in [old counter, counter), or the id of a claimed previous track whose IoU with that detection is strictly above 0.4. |
| Tracking.MatchPassInfested | src/pages/Home.js:186-201 | The ever-infested set grows by exactly the ids of the new entries whose class is 0. |
| Tracking.MatchPassDistinct | src/pages/Home.js:161-203 | From a valid state the new entries have pairwise distinct ids. No previous track is claimed twice, and fresh ids collide with nothing. |
| Tracking.InfestedIdsMembers | src/pages/Home.js:186-201 | An id is among the infested ids of a list exactly when some entry with class 0 carries it. |
| Tracking.Recent | src/pages/Home.js:208 | No contract of its own: now - timestamp < 1000. Tracking.CarryMembers and Tracking.StepEmptyBatch characterise it. |
| Tracking.Kept | src/pages/Home.js:208 | No contract of its own: the whole guard, unclaimed and now - timestamp < 1000. Tracking.CarryMembers and Tracker.AppendRecent characterise it. |
| Tracking.Carry | src/pages/Home.js:205-211 | Among the first n previous tracks, the carried list has at most n entries, and every one is recent. Its exact membership is Tracking.CarryMembers. |
| Tracking.CarryMembers | src/pages/Home.js:206-211 | A track is carried forward exactly when it is an unclaimed previous track with now - timestamp < 1000. |
| Tracking.CarryDistinct | src/pages/Home.js:206-211 | Carried-forward tracks keep pairwise distinct ids. |
| Tracking.Step | src/pages/Home.js:158-215 | The new list has at least one entry per detection, and the counter never decreases. |
| Tracking.StepShape | src/pages/Home.js:164-214 | The new list holds one entry per detection, in detection order, then exactly the unclaimed recent previous tracks in original order. The counter rises by the number of unmatched detections. The infested set grows by exactly the infested new entries. |
| Tracking.StepGrows | src/pages/Home.js:186-201 | Across a cycle the id counter and the ever-infested set never shrink. |
| Tracking.StepIds | src/pages/Home.js:171-197 | Every entry for a detection has either a fresh id or the id of a previous track whose IoU with the detection is strictly above 0.4. |
| Tracking.StepIdsDistinct | src/pages/Home.js:158-215 | From a valid state the new live ids are distinct and all lie in [1, counter). Ids are never reused. |
| Tracking.StepInfestedCovers | src/pages/Home.js:186-211 | From a valid state every live track with class 0 has its id in the ever-infested set. |
| Tracking.StepInfestedIssued | src/pages/Home.js:186-201 | From a valid state the ever-infested set stays a subset of the issued ids [1, counter). |
| Tracking.StepPreservesValid | src/pages/Home.js:158-215 | A cycle preserves the whole tracker invariant. |
| Tracking.StepEmptyBatch | src/pages/Home.js:164-211 | An empty batch runs only eviction. Exactly the tracks with now - timestamp < 1000 remain, in order, and the counter and the set are unchanged. |
| Tracker.FindBestMatch | src/pages/Home.js:165-176 | The inner loop returns BestMatch. The choice is the greedy best when there is one, and there is none when no unmatched track clears 0.4. |
| Tracker.AppendRecent | src/pages/Home.js:205-211 | The second loop appends Carry to the list. The appended tracks are exactly the unclaimed previous tracks with now - timestamp < 1000. |
| Tracker.TrackerState.constructor | src/pages/Home.js:16-18 | A new tracker has no tracks, counter 1 and an empty infested set, and satisfies the invariant. |
| Tracker.TrackerState.MatchOne | src/pages/Home.js:164-203 | Handling one detection updates the list, the claimed set, the counter and the infested set as MatchStep says. |
| Tracker.TrackerState.Update | src/pages/Home.js:158-215 | The new state equals Step of the old state, and the invariant is preserved. The counter and the infested set never shrink. |
| Counts.Summarize | src/pages/Home.js:261-274 | total is nextId - 1 and infested is the set size. With a positive total, percentage × total == infested × 100; otherwise the percentage is 0. |
| Counts.NotInfested | src/pages/Home.js:294 | No contract of its own: total - infested. Counts.SummaryConsistent proves it is never negative from a valid state. |
| Counts.SubsetCard | src/pages/Home.js:263 | A subset has at most as many members as its superset. This is used for the monotone infested count. |
| Counts.IssuedIdsBound | src/pages/Home.js:262-263 | A set of ids in [1, n) has at most n - 1 members, so infested <= total. |
| Counts.SummaryConsistent | src/pages/Home.js:261-274 | total == nextId - 1 and infested == set size. 0 <= infested <= total, so the not-infested card's total - infested (line 294) is never negative. The percentage lies in [0, 100]. It is 0 exactly when nothing was infested, and 0 when the total is 0. It is 100 exactly when every plant was infested. |
| Counts.SummaryMonotone | src/pages/Home.js:262-263 | Across a cycle neither the total nor the infested count decreases. |
| Scenario.FirstSighting | src/pages/Home.js:158-274 | One infested box on a fresh tracker creates id 1. The figures are total 1, infested 1, 100 percent. |
| Scenario.SecondSighting | src/pages/Home.js:158-274 | The same box, now healthy, claims id 1 again (IoU 1). The infested count stays 1. |
| Scenario.PlantLeavesView | src/pages/Home.js:158-274 | With no sighting 2 s later the track is evicted. The figures stay total 1, infested 1. |

## Left out

- Browser plumbing in `src/pages/Home.js` is not modelled: server polling (24-41), screen capture (43-65), the draw loop (67-94), the capture/fetch/JSON loop (96-132, reduced to "Update is called or not"), `drawBoxes` (218-258) and the JSX (277-349). All of it is I/O or rendering.
- Concurrency between the render loop and the detection timer is left out. Each `Update` is one atomic step.
- IEEE floating point is left out. Boxes and IoU are reals, and there is no NaN or infinity, the rounding of `0.4`, or float percentage formatting (`toFixed(2)`).
- JavaScript values in a reply that are not numbers or arrays are left out.
  - A `classes` value that is a number, boolean, null or string, or a class entry that is null or a string, does not throw: that box becomes a detection that is not infested. `ClassCode.Missing` covers it. A `classes` object with numeric keys, such as `{"0": 0}`, is indexed like a list, and a 0 there does make its box infested. The model's `seq<int>` stands for that case.
  - A string box does not throw. Its characters become the four coordinates through JavaScript's type coercion, and a non-numeric one gets IoU 0 from the guard at line 154. The model has no counterpart for it.
  - A box that is not iterable (a number, boolean, null or plain object) throws, but only inside `iou` (`src/pages/Home.js:136-137`), and only once an unmatched previous track is scanned for it. If that happens at detection k > 0, detections 0..k-1 have already raised the counter (192) and added to the infested set (187, 200), but the track list is not replaced (214 never runs). The model has no such partial cycle: every `Update` completes.
- The `index` field that `{ ...obj, index }` copies into a claimed track is left out. Nothing reads it after the cycle.
- React state setters are left out. `updateCounts` is modelled as `Counts.Summarize`, a function of the counter and the set, which is also how the page derives its figures.
- `src/pages/UploadAndDetect.js`, `src/components/DroneFeed.js` (all commented out) and `src/pages/Team.js` are not part of this model. They hold upload/network UI, no live code, and a static list.
- Tracker.TrackerState.Update: the matching pass of one detection is a separate method, `MatchOne`, and the two scans are `FindBestMatch` and `AppendRecent`. In the source they are inline in one function, and the behaviour is the same.
