# citrus-stare contour and cover geometry, in Dafny

The face-window effect clips the live camera picture into eye- and mouth-shaped
windows. Three small pure functions in `src/main.js` carry its geometry, and this
project models them:

- **`buildLoop`**: turns the detector library's unordered list of landmark-index
  connections for one region into one ordered contour. It builds a symmetric
  adjacency map in JavaScript `Map`/`Set` insertion order (module `Adjacency`,
  file `adjacency.dfy`). Then it walks the map greedily from the first inserted
  node, always preferring a neighbour other than the node it just left. It stops
  when the walk comes back to the start, meets a node already on the contour,
  reaches a node without neighbours, or trips a length guard (module
  `LoopBuilder`, file `loop_builder.dfy`).
- **`getCoverTransform`**: computes the uniform scale and the centring offsets
  that make the video fill the display. Overflow is cropped and the picture is
  never letterboxed. Module `Cover`, file `cover.dfy`, also models the mapping
  from a normalised landmark to display pixels.
- **`getLoopPoints`**: maps a contour's indices through one face's landmarks and
  the cover transform into a display polygon, or into `null` (module
  `LoopPoints`, file `loop_points.dfy`).

`options.dfy` holds the `Option` type that stands for the source's `null`.
`sequences.dfy` holds the counting facts about duplicate-free sequences that
bound the walk.

How the source's values are represented:

- Connection entries are `Record(start, end)` objects, `Tuple` arrays of any
  length, or `Other` for null, undefined or any other value. Lines 76-79 read
  an endpoint from the object field first, fall back to the array element only
  for an array, and otherwise take null. A missing endpoint is `None`, and so
  is the endpoint of an array too short to hold it.
- An absent or non-iterable `connections` argument is `None`.
- Landmark indices are `nat`.
- DOM sizes (`clientWidth`, `videoWidth`) are `nat`, because the DOM reports
  them as non-negative integers. The arithmetic on them is done over `real`.
- The four sizes that `getCoverTransform` reads from the page are parameters.

What is proved, in outline:

- The built map's edges are exactly the accepted connections, in both
  directions. Its nodes are exactly their endpoints. It is empty exactly when no
  entry has both endpoints. Its first key is the `start` of the first accepted
  entry. Each node's neighbours are listed in the order of the first entry
  that connects each of them to it.
- The walk takes the greedy step at every position and stops exactly where the
  source stops. Together with the contour being duplicate-free, these two facts
  pin the contour down completely: two such walks from the same node are
  equal (`WalkDeterminate`).
- The contour never holds a node twice, and every consecutive pair is a
  connection. So the contour is no longer than the number of nodes, and the
  guard on line 102, which stops the walk once the contour is more than two
  nodes longer than the node count, can never fire.
- When the connections form one simple cycle, the contour visits every node
  exactly once and has at least three nodes. Its last node is connected to its
  first.
- The cover scale is the least uniform scale that covers the display on both
  axes, and it is flush on at least one axis. The crop is split equally on both
  sides. The video's corners land on or outside the display's corners, and the
  video's centre lands on the display's centre.
- `getLoopPoints` is `null` exactly when the contour is shorter than three or
  one of its indices has no landmark. Otherwise it gives one point per index, in
  order.

Two facts about the code are worth stating on their own:

- The walk always starts at the first key inserted into the `Map`. That key is
  the `start` endpoint of the first accepted connection, and the model proves
  it.
- The guard on line 102 can never fire, as proved above. The break on line 95
  can never fire on a map `buildLoop` builds either, because every node of that
  map has a neighbour (`KeysHaveNeighbours`). The walk always stops on line 97
  or 98.

## Model

| member | source | states |
|---|---|---|
| Adjacency.StartOf | src/main.js:76-77 | An object entry's `start` is taken as is; an array entry's is its first element, which is present exactly when that element is; anything else has none |
| Adjacency.EndOf | src/main.js:78-79 | An object entry's `end` is taken as is; an array entry's is its second element, which is present exactly when that element is; anything else has none |
| Adjacency.Endpoints | src/main.js:80 | An entry contributes a pair exactly when both its start and its end are present, and the pair is (start, end) |
| Adjacency.AddKey | src/main.js:81-82 | Adding a key keeps the map well formed and keeps every edge; the node set grows by exactly that key, which is in the map afterwards; the first key is unchanged, or is the new key in an empty map |
| Adjacency.AddNeighbour | src/main.js:83-84 | Adding a neighbour keeps the map well formed and the key order; the edge set grows by exactly that one directed edge. A new neighbour is appended at the end of the list, a repeat leaves the map unchanged as in a `Set`, and every other key's list is unchanged |
| Adjacency.GrowsByAddNeighbour | src/main.js:83-84 | Adding a neighbour drops no key and keeps every list's old entries in front; anything appended to any list is the other endpoint of the pair `a`-`b` (the exact append is `AddNeighbour`'s contract) |
| Adjacency.Insert | src/main.js:81-84 | Inserting an accepted pair keeps the map well formed, adds exactly the edges `a`-`b` and `b`-`a`, and adds exactly the nodes `a` and `b` |
| Adjacency.InsertGrows | src/main.js:81-84 | Inserting a pair drops no key and keeps every neighbour list's old entries in front; anything appended after them is the other endpoint of the pair |
| Adjacency.EdgeSnoc | src/main.js:75-85 | Reading one more connection adds exactly the edges that connection joins, in either direction, and no others |
| Adjacency.AdjacencyOf | src/main.js:74-85 | The map built from any connection list is well formed: the key list is duplicate-free and lists exactly the keys, neighbour lists are duplicate-free, and every neighbour is a key |
| Adjacency.FirstJoin | src/main.js:75-85 | The index of the first entry that connects two nodes: that entry connects them and no earlier one does, and the list's length stands for none |
| Adjacency.InsertKeepsJoinOrder | src/main.js:80-84 | Adding one accepted entry keeps every node's neighbour list ordered by the first entry that connects each neighbour to the node |
| Adjacency.AdjacencyNeighbourOrder | src/main.js:74-85 | Every neighbour of a node in the built map is connected to it by some entry, and neighbour `x` is listed before neighbour `y` exactly when the first entry joining the node to `x` comes before the first joining it to `y` |
| Adjacency.AdjacencyEdges | src/main.js:75-85 | `b` is a neighbour of `a` in the built map if and only if some accepted entry connects `a` and `b` in one direction or the other |
| Adjacency.AdjacencySymmetric | src/main.js:81-84 | The built map is symmetric: if `b` is a neighbour of `a` then `a` is a neighbour of `b` |
| Adjacency.AdjacencyNodes | src/main.js:75-85 | A node is a key of the built map if and only if it is an endpoint of some accepted entry |
| Adjacency.KeysHaveNeighbours | src/main.js:81-84 | Every node of the built map has at least one neighbour, so the empty-neighbour break on line 95 never fires on it |
| Adjacency.NeighboursOf | src/main.js:94 | A node that is not a key of the map has no neighbours |
| Adjacency.NeighboursAreEdges | src/main.js:94 | The list the walk reads for a node holds exactly the nodes it has an edge to |
| Adjacency.AdjacencyEmpty | src/main.js:80-86 | The map is empty exactly when no entry has both endpoints, which is when `buildLoop` returns `[]` at line 86 |
| Adjacency.AdjacencyFirstKey | src/main.js:75-88 | The map is non-empty, and its first key, where the walk starts, is the start endpoint of the first accepted entry |
| LoopBuilder.FindOther | src/main.js:96 | `find` returns the first index whose neighbour differs from `previous`, and returns nothing only when every neighbour equals `previous` |
| LoopBuilder.NextNode | src/main.js:94-96 | The chosen node is a neighbour. It is the first neighbour other than `previous` when one exists, and it equals `previous` only if every neighbour does. With a null `previous` it is the first neighbour |
| LoopBuilder.GreedyIsPath | src/main.js:94-99 | Every consecutive pair of a greedy walk is an edge of the map |
| LoopBuilder.GreedyExtend | src/main.js:96-101 | Appending the greedy choice keeps every step of the walk greedy |
| LoopBuilder.WalkStep | src/main.js:98-102 | Appending an unvisited greedy choice keeps the walk duplicate-free, inside the map and no longer than the number of nodes |
| LoopBuilder.RevisitMeansNoCycle | src/main.js:96-98 | If the walk stops because it meets a visited node other than the start, the map is not a single simple cycle |
| LoopBuilder.CycleClosesAfterThree | src/main.js:96-97 | On a simple cycle, the walk cannot come back to its start before it holds three nodes |
| LoopBuilder.ClosedWalkCovers | src/main.js:93-103 | A duplicate-free path of at least three nodes whose last node is adjacent to its first covers every node of a connected simple cycle |
| LoopBuilder.CycleWalkComplete | src/main.js:96-97 | A walk on a simple cycle that closes at its start holds every node exactly once and has at least three nodes; its last node is adjacent to its first |
| LoopBuilder.GreedyAgree | src/main.js:94-101 | Two greedy walks from the same node agree on every position both reach |
| LoopBuilder.StepAfterStop | src/main.js:96-98 | A greedy walk that continues past a point where the source stops would step onto a node it already holds |
| LoopBuilder.WalkDeterminate | src/main.js:88-105 | Two duplicate-free greedy walks from the same node that both stop where the source stops are equal, so the contour `Trace` returns is the only one its contract allows |
| LoopBuilder.Trace | src/main.js:88-105 | The walk begins at the first key and is duplicate-free, inside the map and no longer than the number of nodes. Every step is greedy, and it stops where the source stops. On a simple cycle it visits every node and ends next to its start |
| LoopBuilder.PathIsLinked | src/main.js:81-99 | A path in the built map steps only along connections of the input list |
| LoopBuilder.BuildLoop | src/main.js:72-106 | Gives `[]` for an absent argument, and otherwise exactly when no entry has both endpoints. The contour is duplicate-free, starts at the first accepted start endpoint and steps only along connections. It is no longer than the node count, is greedy and stops where the source stops. On one simple cycle it holds every node, at least three, with last and first connected |
| Cover.Max | src/main.js:65 | `Math.max` is one of its arguments and is at least both of them |
| Cover.CoverTransform | src/main.js:58-70 | `null` exactly when a size is zero. Otherwise the scaled video covers the display on both axes and is flush on at least one, the offsets are non-positive, the crop is equal on both sides of each axis, and the video size is carried through |
| Cover.MapPoint | src/main.js:115-116 | A normalised point (x, y) goes to (x · videoWidth · scale + offsetX, y · videoHeight · scale + offsetY); its properties are stated by the two lemmas below |
| Cover.MapPointEdges | src/main.js:115-116 | The frame's corner (0, 0) lands at the offsets and the corner (1, 1) one on-screen video size further on each axis |
| Cover.MapPointInverse | src/main.js:115-116 | The mapping can be undone: subtracting the offset from a mapped point and dividing by the on-screen video size gives back the normalised coordinate |
| Cover.CoverScaleIsLeast | src/main.js:65 | Every uniform scale that makes the video at least as large as the display on both axes is at least the cover scale |
| Cover.VideoCornersCoverDisplay | src/main.js:65-67 | The video's top-left corner lands at or beyond the display's top-left, and its bottom-right at or beyond the display's bottom-right |
| Cover.VideoCentreIsDisplayCentre | src/main.js:66-67 | The centre of the video maps to the centre of the display |
| Cover.CoverExample | src/main.js:63-69 | An 800 x 600 display showing a 1280 x 720 video gives scale 5/6, offsetX -400/3 and offsetY 0 |
| LoopPoints.HasLandmark | src/main.js:112-113 | An index has a landmark exactly when it lies inside the landmark list |
| LoopPoints.GetLoopPoints | src/main.js:108-120 | `null` exactly when the contour has fewer than three indices or an index has no landmark. Otherwise one point per index in contour order, each the cover mapping of that landmark |
| LoopPoints.LandmarkInsideScaledVideo | src/main.js:114-117 | A landmark with coordinates in [0, 1] lands inside the on-screen rectangle of the scaled video |

## Left out

- DOM construction and element lookups (lines 4-22) and `setMessage` (lines 38-41) are page plumbing with no geometry.
- `resizeCanvas` (lines 43-56) only sizes the canvas for the device pixel ratio and sets its 2D state. That is renderer state, and the ratio and `Math.round` come from the host.
- `drawEyeWindow` (lines 122-159) and the clear and fill calls in `predict` are 2D canvas path, clip and draw calls: the external renderer.
- `startCamera` and `setupFaceLandmarker` (lines 161-181, 209-220) are asynchronous camera and detector-library I/O.
- `describeCameraError` and `describeInitError` (lines 183-207) only map error names to status text.
- `init` and `predict` (lines 222-276) are the animation-frame scheduling loop and the call into the opaque landmark detector.
- Floating point: the cover transform and the landmark mapping are over exact reals. IEEE rounding and NaN are not modelled. `Math.max` never sees NaN here, because all four sizes are positive integers when it runs.
- Node values: JavaScript allows any value as a `Map` key. The model uses non-negative integers, which is what the detector library's connection lists hold. Equality on them is the `===`/SameValueZero the source relies on.
- LoopPoints.GetLoopPoints: the `!loop` test on line 109 is not modelled, because every contour passed in is an array returned by `buildLoop`. A present but falsy landmark (line 113) is not modelled either, because landmark lists are dense arrays of objects. A missing landmark is an index past the end of the list.
- LoopBuilder.Trace: requires a map of the shape `AdjacencyOf` produces (duplicate-free keys and neighbour lists, every neighbour a key). This is the only kind of map the walk on lines 88-105 ever receives.
- The three module-level calls `buildLoop(FaceLandmarker.FACE_LANDMARKS_…)` (lines 31-36) depend on the detector library's topology tables, which are not part of this model. Because a missing table falls back to an empty list, each call reduces to `BuildLoop` on a list.
