# Tile streaming of the point-cloud viewer, in Dafny

The viewer draws a LiDAR point cloud that is cut into square tiles. Each tile
is a binary file of 32-bit floats. A `TileManager` decides which tiles the
camera needs, fetches them, turns each into a `THREE.Points` drawable and
adds it to the scene. There are two versions of the manager:

- the TypeScript one in `src/tile.ts`. It has one tier of 100-unit cells and
  clips the key squares to the survey's bounding box. Its
  `discardUnloadedKeys` does nothing.
- the older JavaScript one in `src/tile.js`. It has five fixed tiers, from
  8100-unit cells down to 100-unit cells, and does not clip. Its
  `discardUnloadedKeys` removes and disposes every drawable that is no
  longer desired.

The project models both versions.

- `wrappers.dfy`: the `Option` type. It stands for `null` and for a parse
  that fails.
- `lodash.dfy` (module `Lodash`): the lodash functions the key computation
  is written with.
  - `_.range` with lodash's default step, including its downward step when
    the start exceeds the end.
  - A stable `_.sortBy`, proved sorted, a permutation and stable. Any stable
    sort gives the same result (`StableSortUnique`).
  - `_.compact`.
- `tile_key.dfy` (module `TileKeys`): the key string `${tx}_${ty}_${tile}`.
  Integers are printed in decimal, and a decoder reads the string back. The
  round trip shows that two different cells never share a key.
- `neighbourhood.dfy` (module `Neighbourhood`): the geometry both versions
  of `tileSquareKeys` share.
  - The cell that holds the camera.
  - The `(2·length−1)²` square of offsets, built with `range`/`flatMap`.
  - The nearest-first order of the offsets.
  - The key of the cell at each offset.
- `tile_state.dfy` (module `TileState`): the manager's state as a value, and
  every change the manager makes to it as a function.
  - `loadTile` is `async` and suspends twice: once for the response and once
    for the body. It is cut into the steps that run between those
    suspensions. A ghost map `pending` records which calls are suspended,
    and at which `await`.
  - An invariant `Inv` is proved for every step.
  - Any interleaving of steps, new desired lists and evictions is a run.
    Lemmas about runs give three guarantees: stale tiles are never shown,
    broken tiles stay broken, and the invariant holds throughout.
- `tile_ts.dfy` (module `TileTs`) and `tile_js.dfy` (module `TileJs`): each
  version's `tileSquareKeys`, its desired list, and its `TileManager` class.
  - Each class has the source's fields.
  - Each method changes those fields in place. Its `ensures` equates the new
    `State()` with the matching step function applied to the old one.

Neither a failed nor a successful load removes its `loadingTiles` entry
(`src/tile.ts:88-93`, `src/tile.js:100-105`). So a broken key stays in `loadingTiles` forever, and
a visible key stays there until it is evicted. `Inv` states this: the
visible keys and the broken keys are both subsets of the loading keys.

A response with an error status is not an error in the code. `fetch`
resolves, and its body is decoded like any other. So, despite the comment on
`brokenTiles` at `src/tile.ts:41`, a 404 whose body length is a multiple of 4
(an empty one included) is shown as a drawable and is never marked broken.
Only a rejected fetch or body read, or a body that `Float32Array` refuses,
marks a key broken (`TileState.DecodableBodyNotBroken`).

## Model

| member | source | states |
|---|---|---|
| Lodash.Range | src/tile.ts:12-13 | `_.range(start, end)` has as many elements as the distance from `start` to `end`. The i-th element is `start + i`, or `start − i` when the range runs downwards. |
| Lodash.RangeMembership | src/tile.ts:12-13 | A value is in the range iff it lies in the half-open interval from `start` towards `end`. No value repeats. |
| Lodash.SortBy | src/tile.ts:15 | `_.sortBy` returns a permutation of its input (same multiset). |
| Lodash.SortBySorted | src/tile.ts:15 | The result of `_.sortBy` is in non-decreasing key order. |
| Lodash.SortByStable | src/tile.ts:15 | For every key value, the elements with that key come out in their input order: the sort is stable. |
| Lodash.StableSortUnique | src/tile.ts:15 | Two sequences that are sorted, permutations of each other and equal on every key's sub-sequence are equal. So every stable sort agrees with `SortBy`. |
| Lodash.SortByNoDuplicates | src/tile.ts:15 | Sorting a sequence without repeats gives a sequence without repeats. |
| Lodash.Compact | src/tile.ts:24 | `_.compact` never lengthens its input. |
| TileKeys.IntString | src/tile.ts:22 | Computes the decimal text of an integer as a template literal prints it: a `-` sign for negatives, then the digits with no leading zero. |
| TileKeys.Encode | src/tile.ts:22 | Computes the key string: the corner `tx`, `_`, the corner `ty`, `_`, and the edge length `tile`. |
| TileKeys.NatString | src/tile.ts:22 | A natural number prints as a non-empty string of digits with no leading zero. |
| TileKeys.IntStringRoundTrip | src/tile.ts:22 | Parsing a printed integer gives the integer back. The printed form never contains `_`. |
| TileKeys.EncodeDecode | src/tile.ts:22 | Decoding the key `tx_ty_tile` of a cell gives back that cell. |
| TileKeys.EncodeInjective | src/tile.ts:22 | Two cells have the same key string iff they are the same cell, including the tier. |
| Neighbourhood.Manhattan | src/tile.ts:15 | Computes the sort key `Math.abs(dx) + Math.abs(dy)` of an offset. |
| Neighbourhood.Square | src/tile.ts:12-14 | Computes the offsets `[dx, dy]` for `dx`, then `dy`, each ranging over `_.range(-length + 1, length)`. |
| Neighbourhood.SortedSquare | src/tile.ts:15 | Computes `_.sortBy` of the square by `Manhattan`. |
| Neighbourhood.Row | src/tile.ts:13 | Computes the inner `.map((dy) => [dx, dy])`: the offsets `(dx, dy)` for each `dy` of the range, in order (also `src/tile.js:42`). |
| Neighbourhood.Pairs | src/tile.ts:12-14 | The `flatMap` of two ranges has the product of their lengths as its number of offsets. |
| Neighbourhood.PairsMembership | src/tile.ts:12-14 | An offset is generated iff its `dx` is in the first range and its `dy` is in the second. |
| Neighbourhood.PairsNoDuplicates | src/tile.ts:12-14 | Ranges without repeats generate each offset once. |
| Neighbourhood.SquareMembership | src/tile.ts:12-14 | For `length ≥ 1` the square holds exactly the offsets whose `dx` and `dy` both lie in `[1−length, length−1]`. For `length ≤ 0` it holds the downward range `(length, 1−length]` in both coordinates. |
| Neighbourhood.SquareOfZero | src/tile.ts:12-14 | An illustration of the `length ≤ 0` case of `SquareMembership`: `length = 0` gives the single offset `(1, 1)`, because lodash steps downwards. |
| Neighbourhood.SquareSize | src/tile.ts:12-14 | The square has exactly `(2·length−1)²` offsets for every `length`, none repeated. |
| Neighbourhood.SortedSquareFacts | src/tile.ts:12-15 | The sorted square has the same offsets, the same count and no repeats. It is ordered by Manhattan distance, and offsets at equal distance keep their generation order. |
| Neighbourhood.ContainingCell | src/tile.ts:10-11 | `cx = floor((x−XMIN)/tile)`: `cx·tile ≤ x−XMIN < (cx+1)·tile`, and likewise for `cy`. |
| Neighbourhood.CellAt | src/tile.ts:17-18 | Computes the cell `((cx+dx)·tile+XMIN, (cy+dy)·tile+YMIN, tile)` at an offset from the containing cell. |
| Neighbourhood.KeysAt | src/tile.js:45-49 | Computes the key string of the cell at each offset, in the offsets' order. |
| Neighbourhood.OffsetFromCellAt | src/tile.ts:17-18 | The cell corner `((cx+dx)·tile+XMIN, (cy+dy)·tile+YMIN)` gives back the offset `(dx, dy)`. So different offsets name different cells. |
| Neighbourhood.KeysAtMembership | src/tile.ts:16-22 | A key is in the mapped list iff it is the key of the cell at one of the offsets. |
| Neighbourhood.KeysAtNoDuplicates | src/tile.ts:16-22 | Distinct offsets give distinct key strings. |
| Neighbourhood.KeyDistanceAt | src/tile.ts:15-18 | Decoding the key at offset `o` gives back the Manhattan distance of `o`. |
| Neighbourhood.KeysAtNearestFirst | src/tile.ts:15-22 | When the offsets are sorted by distance, the keys' cell distances from the camera's cell never decrease. |
| Neighbourhood.Concat | src/tile.ts:103-113 | Computes the per-tier lists joined in tier order, as the tier loop pushes them one list after another (also `src/tile.js:130-140`). |
| Neighbourhood.ConcatMembership | src/tile.ts:103-113 | A key is in the joined per-tier lists iff it is in one of them. |
| Neighbourhood.ConcatNoDuplicates | src/tile.ts:103-113 | Joining lists that have no repeats and share no key gives a list with no repeats. |
| Neighbourhood.PushAll | src/tile.ts:109-112 | Pushing the keys one by one appends the whole list, in order. |
| TileState.Init | src/tile.ts:36-42 | The fields' initial values: every map empty, `loadedKeys` empty, no suspended call, an empty scene (also `src/tile.js:55-58`). |
| TileState.Decodes | src/tile.ts:73 | Whether `new Float32Array(buffer)` accepts a body: exactly when its byte length is a multiple of 4; otherwise it throws and the `catch` runs (also `src/tile.js:85`). |
| TileState.Inv | src/tile.ts:35-42 | The invariant of the manager's fields. A suspended call's key has a loading entry and is neither visible nor broken. Visible and broken keys have loading entries, and no key is both. The scene holds exactly the visible drawables, one per key, and none of them has been disposed. |
| TileState.Begin | src/tile.ts:49-56 | Computes the synchronous prefix of `loadTile`. A key that is loading or broken, or is not desired, leaves the state as it is. Any other key is stamped in `loadingTiles` and its call suspends awaiting the response. |
| TileState.Abort | src/tile.ts:60-65 | Computes the stale branch: the loading entry is deleted and the call ends. |
| TileState.AfterResponse | src/tile.ts:59-66 | Computes the first re-check: `Abort` if the key is no longer desired, otherwise the call now awaits the body. |
| TileState.MarkBroken | src/tile.ts:91-93 | Computes the `catch` block: the key joins the broken set and the call ends. |
| TileState.Commit | src/tile.ts:88-90 | Computes the success path: the drawable joins the scene and `visibleTiles` maps the key to it, and the call ends. |
| TileState.AfterBody | src/tile.ts:67-93 | Computes the second re-check and the decode: `Abort` if the key is no longer desired, `MarkBroken` if the body length is not a multiple of 4, otherwise `Commit`. |
| TileState.Install | src/tile.ts:114 | Computes the assignment of a new list to `loadedKeys`. |
| TileState.BeginAll | src/tile.ts:115 | Computes `Begin` of each key of the list in turn, in list order. |
| TileState.Step | src/tile.ts:49-117 | The environment's moves: a new desired list, a `loadTile` call, a response, a body of some length with a drawable, a rejection, or (JavaScript) a discard. Each is the matching step function. |
| TileState.Enabled | src/tile.ts:58-93 | What the environment is assumed to do: a response resumes only a call awaiting its response, a body only a call awaiting its body, and a rejection only a suspended call. The drawable a body produces is new, in neither the scene nor the disposed set. Every other move is always possible. |
| TileState.EvictKeys | src/tile.js:109-110 | Computes the visible keys that are not in `loadedKeys`. |
| TileState.Discard | src/tile.js:111-118 | Computes the removal of the given keys from `visibleTiles` and `loadingTiles`, with their drawables leaving the scene and being disposed. |
| TileState.Evict | src/tile.js:108-119 | Computes `Discard` of `EvictKeys`: the whole `discardUnloadedKeys`. |
| TileState.InitInv | src/tile.ts:35-42 | The empty starting state satisfies the invariant. |
| TileState.BeginInv | src/tile.ts:49-56 | The synchronous start of `loadTile` keeps the invariant. |
| TileState.AbortInv | src/tile.ts:60-65 | A stale call dropping its loading mark keeps the invariant. |
| TileState.AfterResponseInv | src/tile.ts:59-66 | The first staleness re-check keeps the invariant. |
| TileState.MarkBrokenInv | src/tile.ts:91-93 | The `catch` block keeps the invariant. |
| TileState.CommitInv | src/tile.ts:88-90 | Adding a new drawable to the scene and to `visibleTiles` keeps the invariant: the scene is exactly the visible drawables, one per key. |
| TileState.AfterBodyInv | src/tile.ts:67-93 | The second staleness re-check, followed by decoding, keeps the invariant. |
| TileState.BeginAllInv | src/tile.ts:115 | Starting `loadTile` on every desired key keeps the invariant. |
| TileState.InstallInv | src/tile.ts:114 | Replacing `loadedKeys` keeps the invariant. |
| TileState.EvictInv | src/tile.js:108-119 | Eviction keeps the invariant. |
| TileState.DiscardOneMore | src/tile.js:111-118 | Discarding one more key removes and disposes exactly its drawable, and deletes its `visibleTiles` and `loadingTiles` entries. |
| TileState.LoadTileGuards | src/tile.ts:50-56 | `loadTile` leaves the state unchanged iff the key is loading, broken or not desired. Otherwise it stamps `loadingTiles[key]` and suspends awaiting the response. |
| TileState.NoDuplicateRequest | src/tile.ts:50-52 | While a call for a key is suspended, another `loadTile` of that key does nothing. |
| TileState.StaleLoadDiscarded | src/tile.ts:59-72 | A key that is no longer desired at either re-check loses its loading entry and its suspended call. The visible tiles, the scene and the broken set do not change. |
| TileState.FreshLoadShown | src/tile.ts:73-90 | A desired key whose body decodes maps to the new drawable, and the drawable joins the scene. The loading entry stays, and the call ends. |
| TileState.DecodableBodyNotBroken | src/tile.ts:41 | Whatever the response status, a desired key whose body length is a multiple of 4 (an empty body included) is committed and shown with the new drawable, and the broken set does not change. |
| TileState.FailedLoadBroken | src/tile.ts:91-93 | A failure marks the key broken and shows nothing. The loading entry stays. A later `loadTile` of the key is a no-op. |
| TileState.EvictKeepsDesired | src/tile.js:108-119 | After eviction the visible keys are the previously visible keys that are still desired, each with the same drawable. Evicted keys lose their loading entries. Everything else is untouched. |
| TileState.EvictIdempotent | src/tile.js:108-119 | Evicting twice is the same as evicting once. |
| TileState.EvictSceneExact | src/tile.js:111-115 | After eviction the scene is exactly the drawables of the desired visible keys. No drawable is disposed twice. |
| TileState.StepInv | src/tile.ts:49-117 | Every enabled step keeps the invariant. |
| TileState.RunInv | src/tile.ts:49-117 | Every state a valid run reaches satisfies the invariant. |
| TileState.BrokenIsPermanent | src/tile.ts:50-52 | In any valid run, a broken key stays broken and is never fetched or shown again. |
| TileState.UndesiredNeverShown | src/tile.ts:53-72 | A key that is neither visible nor desired, and that no later desired list contains, is never shown, however suspended calls interleave. |
| TileState.BeginAllKeepsDesired | src/tile.ts:115 | Starting the loads does not change the desired list. |
| TileState.RunKeepsDesired | src/tile.ts:100-117 | Only installing a new list changes the desired list. |
| TileState.UpdateThenDiscard | src/tile.js:141-143 | The new list is installed before any load starts. If no other list is installed, then after any interleaving of load steps the closing discard leaves only keys of the new list visible. |
| TileTs.XMIN | src/constants.ts:1 | The lower x bound of the survey box, 389400. |
| TileTs.XMAX | src/constants.ts:1 | The upper x bound of the survey box, 408600. |
| TileTs.YMIN | src/constants.ts:2 | The lower y bound of the survey box, 124200. |
| TileTs.YMAX | src/constants.ts:2 | The upper y bound of the survey box, 148200. |
| TileTs.InBounds | src/tile.ts:19-21 | Whether a cell's corner lies in `[XMIN, XMAX)×[YMIN, YMAX)`: the negation of the test that makes a candidate `null`. |
| TileTs.Candidate | src/tile.ts:16-23 | Computes `null` for a cell outside `[XMIN, XMAX)×[YMIN, YMAX)`, and the cell's key string otherwise. |
| TileTs.Candidates | src/tile.ts:16-23 | Computes the `sortedDists.map(...)` list that `_.compact` receives: the candidate of each sorted offset, in order. |
| TileTs.TileSquareKeys | src/tile.ts:9-25 | Computes `_.compact` of the candidates of the sorted square around the containing cell. |
| TileTs.CompactCandidates | src/tile.ts:16-24 | Compacting the `null`-or-key list gives exactly the keys of the in-box offsets, in order. |
| TileTs.KeptMembership | src/tile.ts:19-24 | An offset survives the box filter iff it is in the list and its cell lies in the box. The filter never lengthens the list. |
| TileTs.KeptNoDuplicates | src/tile.ts:19-24 | Filtering a list without repeats gives a list without repeats. |
| TileTs.KeptSorted | src/tile.ts:15-24 | Filtering a distance-sorted list keeps it sorted by distance. |
| TileTs.TileSquareKeysKept | src/tile.ts:9-25 | `tileSquareKeys` returns the keys of the in-box cells of the sorted square. |
| TileTs.TileSquareKeysMembership | src/tile.ts:9-25 | A key is returned iff it is the key of an in-box cell at some offset of the square. |
| TileTs.TileSquareKeysDistinct | src/tile.ts:12-24 | No key is returned twice, and at most `(2·length−1)²` keys are returned. |
| TileTs.TileSquareKeysNearestFirst | src/tile.ts:15-24 | The returned keys are in non-decreasing cell distance from the camera's cell. |
| TileTs.TileSquareKeysInBounds | src/tile.ts:19-22 | Every returned key names a cell of edge length `tile` with `XMIN ≤ tx < XMAX` and `YMIN ≤ ty < YMAX`. Out-of-box cells are dropped, not clamped. |
| TileTs.Contribution | src/tile.ts:104-112 | Computes one tier's share of the desired list: nothing when `position.z > maxHeight`, otherwise the tier's `tileSquareKeys`. |
| TileTs.Contributions | src/tile.ts:103-112 | Computes the list each tier pushes, one per tier in tier order. |
| TileTs.DesiredKeys | src/tile.ts:103-113 | Computes the contributions of all tiers joined in tier order. |
| TileTs.DefaultTiers | src/tile.ts:32-34 | The single configured tier: edge length 100, radius 8, maximum height 100000000. |
| TileTs.DesiredKeysMembership | src/tile.ts:103-113 | A key is desired iff some tier with `z ≤ maxHeight` returns it. |
| TileTs.DesiredKeysInBounds | src/tile.ts:103-113 | Every desired key names an in-box cell of one of the tiers. |
| TileTs.DesiredKeysDistinct | src/tile.ts:103-113 | Tiers with distinct edge lengths never put the same key in the list twice. |
| TileTs.BuildDesiredKeys | src/tile.ts:101-113 | The loops over the tiers build exactly the concatenation of the tiers' keys, skipping the tiers the camera is above. |
| TileTs.TileManager.constructor | src/tile.ts:32-47 | A new manager has the single 100-unit tier and the empty state. |
| TileTs.TileManager.LoadTile | src/tile.ts:49-56 | The fields after the call are `Begin` of the fields before it, and the invariant is kept. |
| TileTs.TileManager.GiveUp | src/tile.ts:60-65 | The stale branch, taken only for a suspended call whose key is no longer in `loadedKeys`, deletes the loading mark and ends the call (`Abort`). |
| TileTs.TileManager.LoadTileResponse | src/tile.ts:59-66 | The fields after resumption are `AfterResponse` of the fields before it. |
| TileTs.TileManager.LoadTileBody | src/tile.ts:66-93 | A mesh is returned iff the key is still desired and the body decodes. A returned mesh is fresh, and the state is `AfterBody`. Otherwise the state is `Abort` (stale key) or `MarkBroken` (decode failure). |
| TileTs.TileManager.LoadTileRejected | src/tile.ts:91-93 | A rejected fetch or body read marks the key broken (`MarkBroken`). |
| TileTs.TileManager.DiscardUnloadedKeys | src/tile.ts:96-98 | The state is unchanged. |
| TileTs.TileManager.LoadAll | src/tile.ts:115 | Starting `loadTile` on each key in turn leaves the fields equal to `BeginAll` of the fields before it. The invariant and the tiers are kept. |
| TileTs.TileManager.UpdatePosition | src/tile.ts:100-115 | `loadedKeys` becomes the desired list of the configured tiers. The state is that list installed, followed by `Begin` of every key in order. The invariant is kept. |
| TileJs.XMIN | src/tile.js:5 | The x origin of the cell grid, 389400. |
| TileJs.YMIN | src/tile.js:5 | The y origin of the cell grid, 124200. |
| TileJs.TileSquareKeys | src/tile.js:38-50 | Computes the keys of the cells of the sorted square around the containing cell, without a bounds filter. |
| TileJs.JsTiers | src/tile.js:123-129 | The five fixed tiers: edge lengths 8100, 2700, 900, 300 and 100, each with radius 5, and maximum heights 100000000, 20000, 5000, 2000 and 700. |
| TileJs.Contribution | src/tile.js:132-139 | Computes one tier's share of the desired list: nothing when `position.z > maxHeight`, otherwise the tier's `tileSquareKeys`. |
| TileJs.Contributions | src/tile.js:123-139 | Computes the list each tier pushes, one per tier in tier order. |
| TileJs.DesiredKeys | src/tile.js:130-140 | Computes the contributions of all tiers joined in tier order. |
| TileJs.TileSquareKeysFacts | src/tile.js:38-50 | Exactly `(2·length−1)²` keys, all distinct. Each names a cell of edge length `tile`, and they come in non-decreasing distance from the camera's cell. |
| TileJs.TileSquareKeysMembership | src/tile.js:38-50 | A key is returned iff it is the key of the cell at some offset of the square. |
| TileJs.DesiredKeysCount | src/tile.js:123-140 | The list has `(2·radius−1)²` keys for each tier the camera is not above, and none for the others. |
| TileJs.DesiredKeysTiles | src/tile.js:123-140 | Every desired key decodes to a cell whose edge length is that of a tier the camera is not above. |
| TileJs.DesiredKeysDistinct | src/tile.js:123-140 | Tiers with distinct edge lengths never put the same key in the list twice. |
| TileJs.JsRequestedCells | src/tile.js:123-135 | With the five shipped tiers the number of requested cells is 0 above height 100000000, then 81, 162, 243 and 324 as the camera passes below 100000000, 20000, 5000 and 2000, and 405 at or below 700. |
| TileJs.JsDesiredKeys | src/tile.js:123-140 | With the five shipped tiers, no key repeats. The count is 81 per tier the camera is not above: 405 at or below height 700, 0 above 100000000. |
| TileJs.BuildDesiredKeys | src/tile.js:130-140 | The loops over the tiers build exactly the desired list. |
| TileJs.TileManager.constructor | src/tile.js:53-59 | A new manager starts in the empty state. |
| TileJs.TileManager.LoadTile | src/tile.js:61-68 | The fields after the call are `Begin` of the fields before it. |
| TileJs.TileManager.GiveUp | src/tile.js:72-77 | The stale branch, taken only for a suspended call whose key is no longer in `loadedKeys`, deletes the loading mark and ends the call (`Abort`). |
| TileJs.TileManager.LoadTileResponse | src/tile.js:71-77 | The fields after resumption are `AfterResponse` of the fields before it. |
| TileJs.TileManager.LoadTileBody | src/tile.js:78-105 | The same case split as the TypeScript version: `Abort`, `MarkBroken`, or `AfterBody` with a fresh mesh. |
| TileJs.TileManager.LoadTileRejected | src/tile.js:103-105 | A rejected fetch or body read marks the key broken. |
| TileJs.TileManager.DiscardUnloadedKeys | src/tile.js:108-119 | The loop over the evicted keys leaves the fields equal to `Evict` of the fields before it, and the invariant is kept. |
| TileJs.TileManager.LoadAll | src/tile.js:142 | Starting `loadTile` on each key in turn leaves the fields equal to `BeginAll` of the fields before it, and the invariant is kept. |
| TileJs.TileManager.UpdateForTiers | src/tile.js:130-142 | For any tier table with positive edge lengths, `loadedKeys` becomes that table's desired list. The state is that list installed, followed by `Begin` of every key in order. The invariant is kept. |
| TileJs.TileManager.UpdatePosition | src/tile.js:121-142 | `loadedKeys` becomes the desired list of the five tiers. The state is that list installed, followed by `Begin` of every key in order. The invariant is kept. |

## Left out

- `fetch`, `response.arrayBuffer()`, the `THREE` geometry, material and
  `Points` construction, `scene.add`/`scene.remove` and `dispose` are foreign
  calls. A drawable is an opaque `Points` object. The scene and the disposed
  drawables are sets. A body decodes exactly when its byte length is a
  multiple of 4, which is when `new Float32Array` does not throw.
- The outcome of a fetch is a choice of the caller: which continuation runs,
  and with what body length.
- `Date.now()` is a parameter. One value is used for every `loadTile` started
  by one `updatePosition`.
- The GLSL shaders, the `zMin`/`zMax` float uniforms, the `size` parameter,
  the height and ceiling textures, and the `pointsLoaded` counter.
- `BASE_URL` and the tile URL.
- Real concurrency and `Promise.all`. The steps of a suspended call are
  methods that the caller invokes in any order the ghost `pending` map
  allows.
- TileJs.TileManager.UpdatePosition: stops at its `await`. The closing
  `discardUnloadedKeys` is the separate `DiscardUnloadedKeys` step, and
  `TileState.UpdateThenDiscard` states what the two do together.
- TileTs.TileManager.UpdatePosition: stops at its `await`, like the
  JavaScript version. The closing `discardUnloadedKeys` is a no-op.
- TileTs.TileManager.UpdatePosition: requires every configured edge length
  to be positive. Camera coordinates are integers. The source's behaviour for
  fractional coordinates, and for a zero or negative edge length (which makes
  the keys `NaN` or `Infinity`), is not modelled.
- `tileConfigurations` is an object keyed by edge-length strings and read
  back with `parseInt`. It is modelled as a sequence of tiers in the order in
  which `for ... in` visits integer keys (ascending). Nothing in the model
  reassigns it.
- JavaScript prints integers of magnitude 10²¹ or more in exponent notation.
  The key encoding uses plain decimal for every integer.
- Coordinates, cell indices and cell corners are exact integers. JavaScript
  computes `Math.floor((x − XMIN)/tile)` and `(cx + dx)*tile + XMIN` in
  doubles, which round once values pass 2^53. Near |x| ≈ 1.2·10^18 the spacing
  between doubles is 256, so neighbouring corners 100 apart can round to the
  same value and the source then returns repeated keys. That double rounding
  is not modelled.
- Neighbourhood.KeysAtNoDuplicates, TileJs.TileSquareKeysFacts and
  TileTs.TileSquareKeysDistinct: the absence of repeated keys holds for exact
  integer arithmetic. It holds for the source only while every coordinate and
  corner stays below 2^53 in magnitude.
- The JavaScript `discardUnloadedKeys` walks its evicted keys in array order;
  the model takes them in any order. The resulting state is the same.
- `src/controls/DragControls.ts`, `src/index.ts`, `src/index.js` and
  `vite.config.js` are not part of this model.
