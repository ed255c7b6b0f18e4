# Video globe: a Dafny model

This project models the logic of the video globe of the Cosmic Video Platform
(`src/components/Earth/`). The rendering is left out. The model covers three parts:

- **The `Earth` component** (`index.js`). This is the class `Earth.Earth`. Its fields are the
  component's refs and state:
  - a `Map` of video handles, cached by least-recent use and evicted *after* an insert;
  - the table of six segments with five slots each, filled from a Fisher–Yates shuffle of the
    30 positions;
  - the segment pressed by the pointer;
  - the "user is interacting" flag, its 10 s return timer, and the ambient rotation gated by
    that flag.

  The pointer handlers are methods that take the texture coordinate of the hit (`None` when the
  ray misses). Their decisions are the functions `PressedSegment`, `ReleaseNavigation` and
  `MoveActionOf`, built on the hit test of module `Segments`.
- **The `VideoCache` class** (`utils/videoCache.js`). This is the class
  `VideoCaching.VideoCache`. It is a bounded `Map` that evicts *before* it inserts. Its `add`
  is specified by `AddSpec`.
- **`createFragmentShader`** (`shaders/globeShader.js`). This is module `GlobeShader`. It gives
  the GLSL text character for character. Parsers read the generated lines back. `ShaderSample`
  is what the emitted `if`/`else` chain and `switch` compute, and it is proved to agree with
  the pointer hit test. The round trips of the declarations are proved about the whole text;
  those of the `case` lines are proved about each segment's switch, which appears in the text
  through `Block`. `ShaderSample` is read by hand from the block text (its condition
  `vUv.y > minY && vUv.y <= maxY`, its switch on `int(floor(vUv.x / subsectionWidth))`, and
  the default `vec4(0.0)`); no lemma ties it to the characters of `Block`.

Shared pieces:

- `Lru` models a JavaScript `Map` as its insertion order plus a finite map. It also holds the
  `reduce` that both caches use to pick the entry to evict: the first entry with the smallest
  `lastUsed`.
- `Shuffle` is the in-place shuffle of an array copy. `Math.random()` is replaced by an oracle
  sequence `picks`, with `picks[i] <= i`.
- `Segments` holds the segment table and the hit test. Texture coordinates are exact reals.

`Date.now()` becomes an explicit argument `now`. The `oncanplay` and `onerror` callbacks become
load events. `setTimeout` becomes a map of pending timers (handle to due time), and a method
fires a due timer. A video element and its texture are one handle number, and an entry's
`playing` flag says whether the element plays. Pausing and disposing an evicted entry is
recorded by appending its id to `released`.

Where the code differs from an idealised globe (one that coalesces concurrent loads, clamps the
hit test and matches press and release by cell), the model follows the code:

- There is no table of pending loads. Two loads of the same id each complete and overwrite the
  entry.
- A segment's band is open at the bottom and closed at the top: `minY < y <= maxY`.
- The slot index `floor(5x)` is not clamped. Outside `0..4` it finds no slot.
- Press and release compare segment ids, not cells.
- An empty slot is the truthy object `{textureIndex: -1}`. Releasing on it navigates with an
  undefined id (`Some(None)` in the model).
- Hovering never refreshes `lastUsed`.
- One failed load rejects the whole `Promise.all`, so no table is installed.
- The interaction flag starts false, so the globe turns from mount.

## Model

| member | source | states |
|---|---|---|
| Lru.Set | src/components/Earth/index.js:95 | `map.set`: the key maps to the new entry, a new key is visited last, and an existing key keeps its place in iteration order |
| Lru.Reduce | src/components/Earth/index.js:51-54 | the `reduce` with strict `<` over the first `n` stamps yields the earliest position among those with the minimal stamp |
| Lru.OldestIndex | src/components/Earth/utils/videoCache.js:47-50 | the evicted position has the minimal `lastUsed`; every earlier entry is strictly newer; it is the only position with both properties |
| Lru.EvictOldest | src/components/Earth/index.js:56-59 | removing the oldest entry deletes exactly that key and drops it from the iteration order; the Map stays well formed and shrinks by one |
| Lru.FindOldest | src/components/Earth/index.js:51-54 | the scan, as a loop, returns `OldestIndex`: minimal stamp, ties to the earliest inserted |
| Lru.NewestNotEvicted | src/components/Earth/index.js:52-54 | an entry set last with the newest stamp is never picked while another entry exists |
| Lru.AppendNewestKeepsOldest | src/components/Earth/index.js:52-54 | appending a key with the newest stamp does not change which entry is oldest |
| Lru.RemoveKeepsValid | src/components/Earth/index.js:59 | `map.delete` of a present key keeps the order duplicate-free and equal in keys to the map |
| Lru.PlayOnly | src/components/Earth/index.js:206-209 | exactly the hovered key plays; keys, handles and `lastUsed` are unchanged |
| Lru.PauseAll | src/components/Earth/index.js:221 | every element is paused; keys, handles and `lastUsed` are unchanged |
| Lru.PauseEach | src/components/Earth/utils/videoCache.js:64-66 | the `forEach` loop computes `PauseAll` |
| Lru.PlayOnlyEach | src/components/Earth/index.js:206-209 | the `play` plus `forEach` loop computes `PlayOnly` |
| VideoCaching.AddSpec | src/components/Earth/utils/videoCache.js:45-58 | `add` throws exactly when the cache is at or over `maxSize` and empty; otherwise the key maps to the new data, and something is evicted exactly when `size >= maxSize` |
| VideoCaching.AddKeepsBound | src/components/Earth/utils/videoCache.js:45-58 | for `maxSize >= 1`, `add` succeeds and keeps `size <= maxSize` |
| VideoCaching.AddBelowCapacity | src/components/Earth/utils/videoCache.js:46-57 | below capacity nothing is evicted, the keys grow by `videoId` only, every other entry is kept, and the old order is a prefix of the new one |
| VideoCaching.AddAtCapacity | src/components/Earth/utils/videoCache.js:46-57 | at capacity exactly the oldest entry (earliest on ties) is evicted before the set; every other entry except `videoId` is kept |
| VideoCaching.ReAddWhenFull | src/components/Earth/utils/videoCache.js:45-57 | re-adding a present key to a full cache still evicts; unless the key itself was oldest, the size drops to `maxSize - 1` |
| VideoCaching.VideoCache.constructor | src/components/Earth/utils/videoCache.js:3-6 | a new cache is empty with the given `maxSize` (default 25) |
| VideoCaching.VideoCache.Add | src/components/Earth/utils/videoCache.js:45-58 | the new Map, the released ids and the outcome are those of `AddSpec` |
| VideoCaching.VideoCache.Get | src/components/Earth/utils/videoCache.js:60-62 | the lookup finds exactly the present keys, returns their data and changes nothing |
| VideoCaching.VideoCache.CreateVideoTexture | src/components/Earth/utils/videoCache.js:8-13 | a hit returns the entry with `lastUsed` refreshed and changes nothing else; a miss changes nothing |
| VideoCaching.VideoCache.OnCanPlay | src/components/Earth/utils/videoCache.js:25-39 | a completed load adds a paused entry stamped `now` through `add` |
| VideoCaching.VideoCache.PauseAll | src/components/Earth/utils/videoCache.js:64-66 | every element is paused; membership, order and `lastUsed` are unchanged |
| Shuffle.Swap | src/components/Earth/index.js:306 | a swap keeps the length and the multiset of elements |
| Shuffle.SwapsDown | src/components/Earth/index.js:304-307 | the swap steps keep the length and the multiset |
| Shuffle.ShuffleArray | src/components/Earth/index.js:302-309 | the result is a fresh array holding the oracle's swaps applied to the argument, hence a permutation of it; the argument is not modified |
| Shuffle.SwapKeepsDistinct | src/components/Earth/index.js:306 | a swap keeps elements distinct |
| Shuffle.SwapsDownKeepsDistinct | src/components/Earth/index.js:304-307 | the whole loop keeps elements distinct |
| Shuffle.Positions | src/components/Earth/index.js:234 | position `i` holds `i` |
| Shuffle.ShuffledPositions | src/components/Earth/index.js:234-235 | shuffling `0..n-1` yields each position exactly once |
| Segments.TextureIndex | src/components/Earth/index.js:248 | the texture index is non-negative exactly for a placed video |
| Segments.SlotId | src/components/Earth/index.js:258 | a slot has an id exactly when a video was placed in it |
| Segments.PlacedCount | src/components/Earth/index.js:253 | `slice(0, K)` of 30 positions places `min(K, 30)` videos |
| Segments.BuildSegments | src/components/Earth/index.js:243-262 | the construction loop yields `Layout`: six segments with ids `i + 1` and bands `(0.1 + 0.13i, 0.23 + 0.13i]`, each slot holding the last video placed at its position |
| Segments.CellOrigin | src/components/Earth/index.js:253-261 | a slot holds a video only if that video's position is the slot's; a slot is empty exactly when no placed position maps to it |
| Segments.PlacedInItsCell | src/components/Earth/index.js:253-261 | with distinct positions, video `k` sits in the cell of its position with `textureIndex == k` |
| Segments.LayoutPlacement | src/components/Earth/index.js:234-262 | on a permutation of the 30 positions: 6 segments with ids 1..6 and 5 slots each; video `k < min(K,30)` is at `(p/5, p%5)`; every video found in a cell was placed there |
| Segments.NoVideoTwice | src/components/Earth/index.js:253-261 | no placed video occupies two cells |
| Segments.FindSegment | src/components/Earth/index.js:138-139 | `find` returns the first segment whose band holds `y`, or none when no band does |
| Segments.SubsectionIndex | src/components/Earth/index.js:162 | the slot index is the floor of `5x`, with no clamping |
| Segments.SlotAt | src/components/Earth/index.js:162-163 | a slot is found exactly when the index is within the segment's slots |
| Segments.LayoutHasStandardBands | src/components/Earth/index.js:243-246 | the built table has the six standard bands |
| Segments.BandsDisjoint | src/components/Earth/index.js:245-246 | each band ends at or below the start of every later band, adjacent bands meet exactly (`MaxY(i) == MinY(i + 1)`), and no `y` lies in two bands |
| Segments.BandLookup | src/components/Earth/index.js:139 | on the standard bands, segment `i` is found exactly for `y` in `(0.1 + 0.13i, 0.23 + 0.13i]`; none is found exactly for `y <= 0.1` or `y > 0.88` |
| Earth.Refreshed | src/components/Earth/index.js:46-48 | the refresh gives only `newVideoId`, when present, `lastUsed := now`; keys, order and every other entry stay |
| Earth.ManageCacheSpec | src/components/Earth/index.js:43-62 | eviction happens exactly when the Map holds 25 or more entries; the evicted key is the oldest of the refreshed Map (minimal `lastUsed`, earliest inserted on ties), it alone is deleted from the entries and the order, and the size drops by one; otherwise the Map is the refreshed one |
| Earth.LoadedSpec | src/components/Earth/index.js:95-96 | a completed load leaves a well-formed Map |
| Earth.LoadKeepsBound | src/components/Earth/index.js:95-96 | a Map of at most 24 entries still has at most 24 after a load completes |
| Earth.LoadedStaysCached | src/components/Earth/index.js:43-96 | with a clock that never runs backwards, the loaded id stays cached with its new handle. An entry is evicted exactly when a new key fills the Map to 25, and it is the oldest of the earlier entries. Every other entry is kept |
| Earth.PressedSegment | src/components/Earth/index.js:138-141 | the pressed value is the id of the segment found under the pointer, and null when none is found |
| Earth.ReleaseNavigation | src/components/Earth/index.js:157-165 | a release navigates exactly when the segment found has the pressed id and the slot index is in range, to the id of the slot under the release |
| Earth.ReleaseOnLayout | src/components/Earth/index.js:139-165 | on the built table, a press and release navigate exactly when both lie in the same band and `0 <= x < 1` at release |
| Earth.MoveActionOf | src/components/Earth/index.js:184-196 | a move resets exactly on a miss, before the table exists, or outside every band; otherwise it hovers the slot under the pointer |
| Earth.HoverEntries | src/components/Earth/index.js:199-210 | a hover over a cached id plays that element alone; otherwise nothing changes; keys, handles and `lastUsed` are never changed |
| Earth.Earth.constructor | src/components/Earth/index.js:23-33 | the component starts with an empty cache, no table, no textures, nothing pressed, not interacting, and no timers |
| Earth.Earth.ManageCache | src/components/Earth/index.js:43-62 | the new Map and released ids are those of `ManageCacheSpec`, and the Map is back under 25 |
| Earth.Earth.CreateVideoTexture | src/components/Earth/index.js:64-71 | a hit returns the entry with `lastUsed` refreshed and starts no load; a miss changes nothing |
| Earth.Earth.OnLoad | src/components/Earth/index.js:83-103 | `onerror` rejects and leaves the cache alone; `oncanplay` resolves with a paused entry stamped `now`, and the Map and released ids are those of `LoadedSpec` |
| Earth.Earth.Initialize | src/components/Earth/index.js:234-270 | the table and textures are installed only when every load resolved and the component is mounted; the table is `Layout` of the shuffled positions and the textures are the loads in order |
| Earth.Earth.MouseDown | src/components/Earth/index.js:125-143 | a hit records `PressedSegment`; a miss changes nothing; a hit before the table exists throws |
| Earth.Earth.MouseUp | src/components/Earth/index.js:145-169 | with nothing pressed nothing happens; otherwise the navigation is `ReleaseNavigation` (none on a miss) and the pressed segment is cleared |
| Earth.Earth.HandleVideoHover | src/components/Earth/index.js:199-210 | the elements become `HoverEntries`; membership and order are unchanged |
| Earth.Earth.ResetTooltip | src/components/Earth/index.js:218-222 | every cached element is paused; membership and order are unchanged |
| Earth.Earth.MouseMove | src/components/Earth/index.js:171-197 | the elements follow the hover or reset decided by `MoveActionOf`; membership and order are unchanged |
| Earth.Earth.InteractionStart | src/components/Earth/index.js:109-112 | the flag is set, and only the timer whose handle is stored is cancelled |
| Earth.Earth.InteractionEnd | src/components/Earth/index.js:114-118 | a new timer due 10000 ms later is started, and its handle replaces the stored one |
| Earth.Earth.TimerFires | src/components/Earth/index.js:115-117 | a pending, due timer fires and clears the flag; otherwise nothing changes |
| Earth.Earth.Frame | src/components/Earth/index.js:311-313 | the globe turns one step exactly when the user is not interacting |
| Earth.Earth.VideoMaterial | src/components/Earth/index.js:319-335 | the material is gray exactly when the table or the textures are missing; otherwise it is the generated fragment shader |
| Earth.StaleTimerStillFires | src/components/Earth/index.js:108-119 | after `end`, `end`, `start`, the first timer was not cancelled; it still clears the flag, and the globe turns while the user interacts |
| GlobeShader.NatToString | src/components/Earth/shaders/globeShader.js:12 | the decimal text of an integer is a non-empty string of digits |
| GlobeShader.ParseNatToString | src/components/Earth/shaders/globeShader.js:12 | the decimal text reads back as the number |
| GlobeShader.SplitJoin | src/components/Earth/shaders/globeShader.js:12-32 | lines joined by `"\n"` are recovered by cutting at newlines when no line contains one |
| GlobeShader.JoinSnoc | src/components/Earth/shaders/globeShader.js:35 | `join` puts one separator between consecutive parts, in order |
| GlobeShader.UniformLineRoundTrip | src/components/Earth/shaders/globeShader.js:12 | a declaration line reads back as its texture index |
| GlobeShader.DeclarationsRoundTrip | src/components/Earth/shaders/globeShader.js:12 | the declarations are exactly one line per texture, line `idx` declaring `videoTexture<idx>` |
| GlobeShader.DependsOnTextureCountOnly | src/components/Earth/shaders/globeShader.js:12 | the shader depends on the texture list only through its length |
| GlobeShader.BlocksInSegmentOrder | src/components/Earth/shaders/globeShader.js:18-35 | each further segment appends `" else "` and its own block after the earlier ones |
| GlobeShader.CaseTailRoundTrip | src/components/Earth/shaders/globeShader.js:29-31 | a slot with `textureIndex >= 0` samples `videoTexture<textureIndex>`; an empty slot writes `vec4(0.0)` |
| GlobeShader.CaseHeadRoundTrip | src/components/Earth/shaders/globeShader.js:30-31 | a `case` line reads back as its slot index and action |
| GlobeShader.CaseLineRoundTrip | src/components/Earth/shaders/globeShader.js:28-31 | the case line of slot `i` reads back as `i` and the slot's texture index |
| GlobeShader.CasesRoundTrip | src/components/Earth/shaders/globeShader.js:27-32 | a switch holds exactly one case per slot, case `i` for slot `i`, each with the slot's action |
| GlobeShader.FloatLiteralRoundTrip | src/components/Earth/shaders/globeShader.js:16-24 | the slot count is written as a numeral with a `.0` suffix that a parser of such literals reads back as the count |
| GlobeShader.ShaderAgreesWithHitTest | src/components/Earth/shaders/globeShader.js:18-32 | with 5 slots, the shader samples exactly the texture of the slot that the pointer hit test finds (`vUv.y > minY && vUv.y <= maxY`, then `floor(x * 5)`), and nothing where it finds none |
| GlobeShader.CreateFragmentShader | src/components/Earth/shaders/globeShader.js:10-39 | no contract of its own: the header, the declarations, a blank line and `main`, written out; `ShaderDeclaresTextures`, `DependsOnTextureCountOnly` and `BlocksInSegmentOrder` state what the text holds |
| GlobeShader.MainFunction | src/components/Earth/shaders/globeShader.js:14-38 | no contract of its own: the text of `main`; its blocks are described by `BlocksInSegmentOrder` and `CasesRoundTrip` |
| GlobeShader.Join | src/components/Earth/shaders/globeShader.js:35 | no contract of its own: `Array.prototype.join`; `SplitJoin` and `JoinSnoc` state its meaning |
| GlobeShader.Declarations | src/components/Earth/shaders/globeShader.js:12 | no contract of its own: the declaration lines joined by newlines; `DeclarationsRoundTrip` and `ShaderDeclaresTextures` state its meaning |
| GlobeShader.UniformLine | src/components/Earth/shaders/globeShader.js:12 | no contract of its own: one declaration; `UniformLineRoundTrip` states its meaning |
| GlobeShader.FloatLiteral | src/components/Earth/shaders/globeShader.js:16 | no contract of its own: `${n}.0`; `FloatLiteralRoundTrip` states its meaning |
| GlobeShader.Block | src/components/Earth/shaders/globeShader.js:18-35 | no contract of its own: one segment's conditional block, written out; `CasesRoundTrip` states what its switch holds |
| GlobeShader.Blocks | src/components/Earth/shaders/globeShader.js:18 | no contract of its own: one block per segment, in order; `BlocksInSegmentOrder` states how they are joined |
| GlobeShader.CaseLine | src/components/Earth/shaders/globeShader.js:28-31 | no contract of its own: `case i:` and its action; `CaseLineRoundTrip` states its meaning |
| GlobeShader.CaseTail | src/components/Earth/shaders/globeShader.js:29-31 | no contract of its own: the action of a case; `CaseTailRoundTrip` states its meaning |
| GlobeShader.CaseLines | src/components/Earth/shaders/globeShader.js:28-32 | no contract of its own: one case line per slot; `CasesRoundTrip` states its meaning |
| GlobeShader.ShaderDeclaresTextures | src/components/Earth/shaders/globeShader.js:10-12 | read from the start of the whole shader text, the lines before the first blank line declare exactly `videoTexture0` .. `videoTexture<n-1>` for the `n` textures, in order |
| GlobeShader.ShaderSample | src/components/Earth/shaders/globeShader.js:18-32 | no contract of its own: what the emitted `if`/`else` chain and `switch` compute, read by hand from `Block`; `ShaderAgreesWithHitTest` states its meaning |
| Segments.CellAfter | src/components/Earth/index.js:253-261 | no contract of its own: the slot at a position after the first `n` placements; `CellOrigin` and `PlacedInItsCell` state its meaning |
| Segments.LayoutAfter | src/components/Earth/index.js:243-261 | no contract of its own: the table after `n` placements; `LayoutPlacement` states its meaning |
| Segments.Layout | src/components/Earth/index.js:243-262 | no contract of its own: the finished table; `BuildSegments`, `LayoutPlacement`, `NoVideoTwice` and `LayoutHasStandardBands` state its meaning |
| Shuffle.Shuffled | src/components/Earth/index.js:302-309 | no contract of its own: all swap steps; `SwapsDown`, `ShuffleArray` and `ShuffledPositions` state its meaning |

## Left out

- Rendering is left out: the scene graph, lights, stars, orbit controls, the sphere geometry and
  the `quality` switch driven by the frame time. So are the vertex shader and the shader
  material's `uniforms` object.
- The raycast and the conversion from client coordinates to normalized device coordinates are
  left out. Each handler receives the texture coordinate of the first hit, or `None`.
- DOM work is left out: tooltip text and position, cursor style, and building the `<video>`
  element with its URL. The `move` handler is modelled with the tooltip element present.
- The `fetch` of the video list and its failure are left out. `Initialize` receives the list
  and the settled outcome of each load.
- Asynchronous interleaving is left out. Loads complete as discrete events in one
  single-threaded trace.
- `Math.random()` is replaced by the oracle `picks`. `Date.now()` is replaced by the argument
  `now`.
- Earth.Earth.Frame: the rotation angle is counted in steps of 0.0005 rad, not summed as a
  floating-point value.
- Earth.LoadedStaysCached: it assumes a clock that never runs backwards. `Date.now()` does not
  promise that.
- Earth.Earth.Initialize: it does not model the cache hits and loads that `createVideoTexture`
  performs inside `Promise.all`. Those are `CreateVideoTexture` and `OnLoad`.
- GlobeShader.CreateFragmentShader: JavaScript's conversion of the band bounds to text is the
  parameter `format`. Integers are printed in plain decimal, as JavaScript prints integers
  below 10^21.
- GlobeShader.ShaderSample: it uses exact real arithmetic, not GLSL float arithmetic.
  `floor(x / (1.0 / 5.0))` is therefore exactly `floor(5x)`.
- VideoCaching.VideoCache.CreateVideoTexture: it does not model the texture construction,
  which refers to `THREE` without importing it. `index.js` imports the class but never uses it.
- Earth.Earth.MouseDown: before the table exists, a hit makes `find` on `null` throw. The
  model reports `Threw` and changes nothing.
