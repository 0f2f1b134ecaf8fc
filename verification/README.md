# Transit map animation core: timeline playback and station tracks

This project models the sequential core of an animated transit-map engine in
Dafny. The engine plays a diagram instant by instant, and the model covers two
of its components.

**Network timeline** (`src/Network.ts`):
- Every timed drawable is registered in a sparse two-level index,
  epoch → second → elements. It goes in at its `from` instant, and also at its
  `to` instant unless `to` is the origin sentinel `BIG_BANG`.
- `nextInstant` walks that index in (epoch, second) order.
- `drawTimedDrawablesAt` plays one instant:
  - each element of the instant's bucket is drawn or retired;
  - same-named retirements that follow each other are batched in an erase
    buffer, which is erased last-in-first-out;
  - animate and reverse flags come from the instants' flags;
  - the delay each step consumes is added up, starting from the zoom duration.

**Station track registry** (`src/Station.ts`):
- Per axis (`x`, `y`), the lines through a station and their signed track
  numbers.
- Lines are added at the end of a list. Removal goes by line identity; lookup
  goes by line name.
- The `[left, right]` boundaries of the occupied tracks, with `[1, -1]` for an
  empty axis and 0 always inside a non-empty one.
- Outward track assignment.
- The integer part of the station's size along an axis.

Modules:
- `Instants` holds the instant type.
- `Timeline` holds the index and the successor search.
- `Scheduler` holds the playback of one instant and its reference definition.
- `Scenarios` holds worked examples.
- `Stations` holds the track registry.
- `Wrappers` holds `Option`.

The scheduler returns a `Frame`:
- the epoch label it shows;
- the draws and erases in order, each with the running delay it started at and
  the delay it consumed;
- the lines handed to the layout relaxer;
- the delay before and after the relaxer's pass;
- the network with its erase buffer emptied.

The scheduler's order of acts has a second, independent definition, `Plan`:
- elements that are not retired are drawn one by one;
- each maximal run of retired elements sharing a name is erased as one batch,
  in reverse order.

The lemmas prove that the buffer-driven fold produces exactly `Plan`.

Four facts come from files that are not part of this model, and are assumed:
- `BIG_BANG` is the instant (0, 0) with the plain flag.
- `Instant.equals` compares epoch and second only.
- The flags are plain, `noanim` and `reverse`.
- A track preference is an explicit number, "positive" or "negative".

Four behaviours of the code are easy to miss, and the model follows the code in
each:
- **Double registration.** An element with `from == to` and `to` not the
  sentinel is pushed twice into the same bucket
  (src/Network.ts:138-141). It is therefore drawn twice at that instant,
  although an element that never changes is meant to be indexed once. See
  `Timeline.AddToIndexGrowsOwnBuckets` and `Scenarios.ThreeElementTimeline`.
- **Boundaries include 0.** The boundaries of a non-empty axis always contain 0,
  because the scan starts both sides at 0 (src/Station.ts:118-119). The
  boundaries are meant to be the plain minimum and maximum of the tracks.
- **Size of an empty axis.** On an empty axis the station size is 4 for a
  positive direction and -4 for a negative one. These follow from the `[1, -1]`
  convention.
- **Negative seconds.** `nextInstant` looks for the next epoch's first second
  above -1 (src/Network.ts:159). An epoch whose seconds are all negative
  therefore ends playback even when later keys exist
  (`Timeline.NegativeSecondEndsPlayback`). The same threshold also skips the
  negative seconds of an epoch that holds non-negative ones as well, whenever
  playback enters that epoch from an earlier one: on the index {1: {-3, 4}},
  playback from the origin goes to (1, 4) and ends, never showing (1, -3)
  (`Timeline.NegativeSecondSkippedOnEntry`). The proof that playback visits
  every instant assumes all seconds are non-negative.

## Model

| member | source | states |
|---|---|---|
| Timeline.SetSlideIndexElement | src/Network.ts:144-150 | the bucket of the given instant gains the element at its end, creating the epoch and second when absent; every other bucket and key is unchanged |
| Timeline.AddToIndex | src/Network.ts:138-142 | every bucket becomes its old contents followed by the copies registration puts there: one at `from`, one at `to` unless `to` is the sentinel; a key exists afterwards iff it existed or the element is registered there |
| Timeline.AddToIndexGrowsOwnBuckets | src/Network.ts:138-141 | the element's own buckets grow by one copy each, and by two copies in the single bucket when `from` and `to` coincide and `to` is not the sentinel |
| Timeline.AddToIndexPreservesShape | src/Network.ts:144-150 | registration never leaves an epoch without seconds or a second without elements, and every stored element stays at one of its own instants |
| Timeline.IndexAll | src/svg/SvgNetwork.ts:43-48 | the backend's registration loop over the document's elements: the index is well formed, each bucket holds exactly the copies registration of the listed elements puts there, in list order, and each element is found at every instant it is registered at |
| Timeline.IsEpochExisting | src/Network.ts:134-136 | on a well-formed index, an epoch exists iff some bucket of it exists |
| Timeline.TimedDrawablesAt | src/Network.ts:68-72 | empty when the epoch is not indexed, exactly the stored bucket otherwise, and, in an index filled only by registration, every element returned is registered at that instant |
| Timeline.RegisteredElementIsFound | src/Network.ts:138-142 | after registration the element is among the elements of its `from` instant and, unless `to` is the sentinel, of its `to` instant |
| Timeline.ScanIsLeast | src/Network.ts:169-175 | the scan as written, over keys in any enumeration order, ends with nothing kept iff it started with nothing and no key lies above the threshold; otherwise with a key above the threshold (or its starting value) not above any key above the threshold nor the starting value |
| Timeline.ScanFindsSmallestAbove | src/Network.ts:166-176 | for every enumeration of a dictionary's keys, the scan started with nothing kept returns exactly the least key above the threshold that `FindSmallestAbove` specifies |
| Timeline.FindSmallestAbove | src/Network.ts:166-176 | absent when the dictionary is absent or has no key above the threshold; otherwise a key above the threshold that is not above any other such key |
| Timeline.NextInstant | src/Network.ts:152-164 | a result is an indexed key strictly after `now` with the plain flag; it stays in `now`'s epoch, at its least later second, when there is one; otherwise it is in the least later epoch, at that epoch's least non-negative second; absence means neither step found a key |
| Timeline.NextInstantIsLeastKeyAbove | src/Network.ts:152-176 | with non-negative seconds the result is absent iff no key lies after `now`, and otherwise no key lies strictly between `now` and the result |
| Timeline.PlaybackVisitsEveryInstantOnce | src/Network.ts:152-176 | following the successor from `now` until it is absent visits exactly the keys after `now`, in strictly increasing order, so each once |
| Timeline.NegativeSecondEndsPlayback | src/Network.ts:156-161 | an index whose next epoch holds only a negative second ends playback although that key exists |
| Timeline.NegativeSecondSkippedOnEntry | src/Network.ts:156-161 | on the index {1: {-3, 4}}, the successor of the origin is (1, 4) and (1, 4) has none, although (1, -3) lies after the origin |
| Scheduler.ShouldAnimate | src/Network.ts:126-132 | animation happens iff the caller asks for it and the instant's flag is not `noanim` |
| Scheduler.ActFor | src/Network.ts:100-113 | an element is erased iff `now` is its `to` and it is not permanent; a draw animates per the `from` flag, an erase per the `to` flag and reverses iff that flag is `reverse` |
| Scheduler.EraseElement | src/Network.ts:122-124 | one erase event is appended, started at the running delay, animated per the `to` flag and reversed iff that flag is `reverse`, costing what the element reports; the delay grows by that cost and buffer and edges stay; `Scheduler.EraseElementKeepsAccounts` proves it keeps the delay chain |
| Scheduler.DrawElement | src/Network.ts:115-120 | one draw event is appended, started at the running delay, animated per the `from` flag, costing what the element reports; the delay grows by that cost and a line, and only a line, is added as an edge; `Scheduler.DrawElementKeepsAccounts` proves it keeps the delay chain and the edge accounting |
| Scheduler.FlushEraseBuffer | src/Network.ts:89-98 | the buffered elements are erased from the last pushed to the first, the buffer ends empty and no edge is added |
| Scheduler.DrawOrEraseElement | src/Network.ts:100-113 | earlier events are kept as a prefix; a retired element ends up last in the buffer; any other element leaves the buffer empty and its draw is the last event; `Scheduler.DrawOrEraseElementActs` gives the acts of each branch |
| Scheduler.DrawOrEraseElementActs | src/Network.ts:100-113 | a retirement continuing the buffer's name is only pushed; a retirement of another name first erases the buffer; any other element first erases the buffer and is then drawn |
| Scheduler.DrawTimedDrawablesAt | src/Network.ts:74-87 | the frame shows the epoch unless `now` is the sentinel, empties the erase buffer, leaves the index alone, and reports the relaxer's result on the accumulated delay |
| Scheduler.DrawOrEraseAll | src/Network.ts:79-81 | the loop over the bucket only appends events; `Scheduler.DrawOrEraseAllFollowsPlan` proves that, followed by the final flush, it performs exactly the reference batching |
| Scheduler.DrawOrEraseAllLeavesLast | src/Network.ts:79-81 | after the loop the buffer is empty when the bucket's last element was drawn, and ends with that element when it was retired |
| Scheduler.DrawOrEraseAllFollowsPlan | src/Network.ts:79-82 | the loop over the bucket followed by the final flush performs exactly the acts still owed by the buffer and the reference batching of the rest |
| Scheduler.DrawTimedDrawablesAtFollowsPlan | src/Network.ts:74-113 | starting from an empty buffer, the acts of one instant are exactly the reference batching of its bucket: draws one by one, each maximal same-named run of retirements erased in reverse |
| Scheduler.PlanPermutesActs | src/Network.ts:100-113 | batching only reorders: the reference acts are a permutation of each element's own act |
| Scheduler.EveryElementActedOnOnce | src/Network.ts:74-98 | every element of the bucket is drawn or erased exactly once (as a multiset, the acts are one per element) |
| Scheduler.PlanDrawsInBucketOrder | src/Network.ts:79-81 | the drawn elements are exactly the bucket's non-retired elements, in bucket order |
| Scheduler.EraseElementKeepsAccounts | src/Network.ts:122-124 | an erase starts at the running delay, reports its cost, and moves the running delay on by that cost |
| Scheduler.DrawElementKeepsAccounts | src/Network.ts:115-120 | a draw starts at the running delay and moves it on by its cost, and a line is handed to the layout relaxer |
| Scheduler.FlushKeepsAccounts | src/Network.ts:89-98 | flushing keeps the delay chained through every erase it performs |
| Scheduler.TimedDelayIsStartPlusCosts | src/Network.ts:78-82 | a chain of acts run back to back ends at its start plus the sum of their costs |
| Scheduler.DrawTimedDrawablesAtAccountsDelay | src/Network.ts:74-87 | the delay before the relaxer is the zoom duration plus the sum of the consumed costs, hence never below the zoom duration when costs are non-negative; the edges are exactly the drawn lines in order |
| Scenarios.EraseBatchIsLastInFirstOut | src/Network.ts:100-107 | retirements named A, A, B erase the second A, then the first A, then B |
| Scenarios.ThreeElementIndex | src/Network.ts:138-150 | registering a line at (0,0), a label from (0,0) to (1,5) and a label at (1,5) gives buckets [line, first label] at (0,0) and [first label, second label, second label] at (1,5), and no other keys |
| Scenarios.NextAfterFirstInstant | src/Network.ts:152-164 | with keys (0,0) and (1,5) only, the instant after (0,0) is (1,5) |
| Scenarios.TwoDrawsFrame | src/Network.ts:108-120 | a bucket of a line and a label that are not retired draws both in order, hands the line over as an edge and chains the two costs after the zoom duration |
| Scenarios.EraseThenDoubleDrawFrame | src/Network.ts:100-113 | at a retirement instant the retiring label is erased before the doubly registered label is drawn twice |
| Scenarios.ThreeElementTimeline | src/Network.ts:74-113 | the three-element timeline plays (0,0) as two draws with one edge, steps to (1,5), and plays it as one erase and two draws |
| Stations.AddLine | src/Station.ts:42-44 | the entry is appended at the end of its axis's list, the earlier entries remain as a prefix and the other axis is unchanged |
| Stations.RemoveLineAtAxis | src/Station.ts:51-60 | no entry of the removed line remains, every entry of another line remains, and nothing new appears |
| Stations.SpliceLineAtAxis | src/Station.ts:51-60 | the in-place splice loop produces exactly the order-preserving filter |
| Stations.RemoveLineAtAxisDistributes | src/Station.ts:51-60 | removal commutes with concatenation, so kept entries keep their relative order |
| Stations.RemoveLine | src/Station.ts:46-49 | on both axes, no entry of the line remains and every other entry does |
| Stations.RemoveLineIsIdempotent | src/Station.ts:46-60 | removing the same line twice is the same as removing it once |
| Stations.RemoveUndoesAdd | src/Station.ts:42-60 | adding a line absent from the station and then removing it gives back the original station |
| Stations.TrackForLineAtAxis | src/Station.ts:76-85 | absent iff no entry has the name; otherwise the first entry with that name |
| Stations.AxisAndTrackForExistingLine | src/Station.ts:62-74 | the first entry with the name on x, tagged x; failing that the first on y, tagged y; absent iff neither axis has the name |
| Stations.LookupFindsAddedLine | src/Station.ts:42-85 | a line added under an unused name is what a lookup of that name reports, with its axis and track |
| Stations.RemovalKeepsNamesakes | src/Station.ts:46-85 | removal by identity leaves a different line of the same name findable by name |
| Stations.Extent | src/Station.ts:118-128 | the scan ends with left and right covering every track, each either its start value or some track |
| Stations.PositionBoundariesForAxis | src/Station.ts:114-129 | [1, -1] on an empty axis; otherwise left <= 0 <= right, every track between them, and each bound either 0 or a track |
| Stations.PositionBoundaries | src/Station.ts:107-112 | each axis's boundaries are computed from that axis's list alone |
| Stations.BoundariesOfAppended | src/Station.ts:114-129 | appending an entry widens the boundaries exactly to cover its track (from [0, 0] on an empty axis) |
| Stations.AddLineWidensOnlyItsAxis | src/Station.ts:107-112 | adding a line leaves the other axis's boundaries unchanged and widens its own axis's only to its track |
| Stations.AssignTrack | src/Station.ts:87-93 | an explicit preference is returned verbatim; a positive one is above every track, one past the boundary (0 on an empty axis); a negative one symmetrically below |
| Stations.AssignedTrackBecomesBoundary | src/Station.ts:87-93 | a line put on its assigned outward track becomes the new boundary on the preferred side |
| Stations.StationSizeForAxis | src/Station.ts:136-141 | 0 for a zero direction; 4 or -4 on an empty axis; otherwise the outermost track on the direction's side (or 0) times 6, plus or minus 10, covering every track |
| Stations.LocalTrackOffset | src/Station.ts:97-101 | a track is laid along x when the incoming direction is a multiple of 180 degrees and along y otherwise, at six units per track |
| Stations.FiveTrackExample | src/Station.ts:87-93 | tracks -2, -1, 0, 1, 3 give boundaries [-2, 3], outward tracks 4 and -3, track 0 on the empty axis, and sizes 28 and -22 |

## Left out

- Timeline.TimedDrawablesAt: requires that a present epoch also holds the requested second. On an absent second the source returns `undefined` and its caller fails on it, so that case has no behaviour to model.
- Scheduler.DrawTimedDrawablesAt: carries the same requirement, for the same reason.
- Scheduler.DrawTimedDrawablesAtFollowsPlan: assumes the erase buffer is empty on entry. Every call of the scheduler leaves it empty, so this holds between instants.
- Stations.StationSizeForAxis: the direction is an integer and is compared with 0 exactly. The source takes a floating-point number and uses a tolerance.
- Stations.LocalTrackOffset: models only which local axis the offset lies along. The rotation and translation by the station's own rotation and base coordinates use floating-point trigonometry.
- Scheduler.DrawTimedDrawablesAtAccountsDelay: delays and costs are exact reals. The source accumulates floating-point numbers, so the identity "delay before the relaxer = zoom duration + sum of costs" holds there only up to rounding.
- Scheduler.DrawElement: the layout relaxer's state across instants is not modelled. In the source the relaxer is a field of the network whose edges pile up from one instant to the next through `addEdge`; here a frame reports only its own edges and the relaxer's pass is one fixed function of the delay.
- Viewport framing (`Zoomer`): the calls that feed bounding boxes to it and the final `zoomTo` are not modelled. Its fixed zoom duration is a parameter.
- Element drawing and erasing and the layout relaxer (`Gravitator`): their geometry is not modelled. Draw and erase costs, and the relaxer's map from running delay to final delay, are function parameters. The lines handed to the relaxer are recorded as edges.
- The rendering backend, the epoch label output, `console.log`, and the `Station.draw` callback are left out. They are side effects on an adapter; the epoch label is returned as a value instead.
- The station and line-group caches and `createVirtualStop` (src/Network.ts:40-60) are left out. They are memoisation over the adapter.
- Reading elements out of the document (`mirrorElement` in src/svg/SvgNetwork.ts) is not modelled. `Timeline.IndexAll` takes the list of elements it would produce and models only the loop that registers them.
- Strings are compared as sequences of characters. Keys in the source are strings parsed back to integers; the model keys the index by integers directly.
