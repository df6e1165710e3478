# Geodesic sphere game state, in Dafny

This project models the geometry pipeline of the game's one playing screen, the
`GameState` of `src/game-states/game.state.ts`:

- it builds a regular icosahedron;
- it subdivides it `detail` times, sharing edge midpoints through a per-pass cache;
- it colours each face land or sea by how close its centroid is to a few land centres;
- on every frame it turns the mesh about the y axis;
- it paints the faces back to front by mean depth (the painter's algorithm);
- when the overlay is on, it strokes every undirected edge exactly once.

Modules, one per concern:

- `Geometry` (`geometry.dfy`): points, faces, and the order-independent edge key.
- `Edges` (`edges.dfy`): the distinct undirected edges of a face list, in the order a walk over the faces first meets them. The wireframe and the midpoint cache use this same walk.
- `Subdivision` (`subdivision.dfy`):
  - `GetMid`, `SubdividePass` and `Subdivide` are the imperative algorithm, over a vertex sequence and a `map` cache;
  - `Pass` and `Subdivided` are the specification functions those methods are proved against;
  - the lemmas state counting, layout and index validity.
- `Icosahedron` (`icosahedron.dfy`): the base tables, and the counts 12 / 20 / 30 / 42 / 80.
- `Biomes` (`biomes.dfy`): the land and sea rule, as a pure map.
- `Render` (`render.dfy`): the rotation, the depth sort, an in-place insertion sort on an `array`, and the wireframe loop with its set of drawn keys.
- `Game` (`game.dfy`): the `GameState` class. Its fields are those of the source. `OnEnter`, `SetupMesh`, `AssignLandSeaColors` and `OnUpdate` update them in place.

Coordinates are exact reals. Some values are parameters rather than computed:

- the projection onto the sphere, `normalize`, which needs a square root;
- the golden ratio `t`;
- `sin` and `cos`;
- the land centres, which the source draws with `Math.random`.

Every property below holds for every choice of these parameters.

## Model

| member | source | states |
|---|---|---|
| Geometry.Key | src/game-states/game.state.ts:51-53 | the key is (i, j) or (j, i), whichever has the smaller index first; the `EdgeKey` type admits only such ordered pairs |
| Geometry.KeyCharacterization | src/game-states/game.state.ts:51-53 | two index pairs get the same key exactly when they are the same pair in either order (the key is order-independent and injective) |
| Geometry.KeySymmetric | src/game-states/game.state.ts:51-53 | key(a, b) = key(b, a) |
| Geometry.Average | src/game-states/game.state.ts:34-39 | the averaged point is equidistant, per coordinate, from both ends |
| Geometry.Midpoint | src/game-states/game.state.ts:34-39 | definition: `normalize` applied to the componentwise mean of the two ends |
| Geometry.FaceEdges | src/game-states/game.state.ts:64-66 | the three directed edges of face (a, b, c), in the order ab, bc, ca that the midpoint lookups and the wireframe walk (lines 203-207) both use |
| Subdivision.GetMid | src/game-states/game.state.ts:54-62 | a cached edge returns its vertex and changes nothing. A new edge appends exactly one vertex, its projected midpoint, and caches it under the edge's key at index length-1. Afterwards both directions (a, b) and (b, a) map to the returned index. Vertices are only appended. |
| Subdivision.SubdividePass | src/game-states/game.state.ts:49-69 | one pass with a fresh cache equals `Pass`. It makes exactly 4·\|fs\| faces and appends exactly one vertex per distinct undirected edge of its input. The old vertices are unchanged and every output index is valid. |
| Subdivision.Children | src/game-states/game.state.ts:67 | definition: the four faces [a,ab,ca], [b,bc,ab], [c,ca,bc], [ab,bc,ca] of face (a, b, c), with ab, bc, ca the cached midpoint indices |
| Subdivision.PassFaces | src/game-states/game.state.ts:63-67 | definition: the children of every face, in face order |
| Subdivision.MidCache | src/game-states/game.state.ts:50-59 | definition: starting empty, the k-th distinct edge met is mapped from its key to old length + k |
| Subdivision.Pass | src/game-states/game.state.ts:49-69 | definition, the reference for `SubdividePass`: the old vertices followed by the midpoint of each distinct edge in first-met order, and the children of every face under the resulting cache |
| Subdivision.Subdivide | src/game-states/game.state.ts:48-71 | `detail` passes equal `Subdivided`, with \|fs\|·4^detail faces. Old vertices are kept and output faces are valid. `detail` = 0 returns the input unchanged. |
| Subdivision.Subdivided | src/game-states/game.state.ts:48-71 | the specification of repeated passes: the face count is \|fs\|·4^detail, the vertex prefix is kept and the faces are valid |
| Subdivision.MidVertices | src/game-states/game.state.ts:57-58 | the k-th appended vertex of a pass is the projected midpoint of the k-th distinct edge met |
| Subdivision.PassShape | src/game-states/game.state.ts:48-69 | a pass multiplies the faces by four, grows the vertices by exactly \|FaceKeys(fs)\|, keeps every old vertex and yields valid indices |
| Subdivision.PassGrowth | src/game-states/game.state.ts:56-59 | vertex growth of a pass is the number of distinct undirected edges; the old vertices are a prefix of the new |
| Subdivision.PassFacesShape | src/game-states/game.state.ts:63-67 | the pass's faces number 4·\|fs\| and index only old vertices or the new midpoints |
| Subdivision.PassMidpoints | src/game-states/game.state.ts:54-62 | each undirected edge (p, q) of the input has a cached midpoint index. The index is at or beyond the old vertex count and within the new one. The vertex there is the midpoint of p and q in either direction. |
| Subdivision.PassMidpointsDistinct | src/game-states/game.state.ts:56-59 | different undirected edges get different midpoint vertices (the cache is injective) |
| Subdivision.PassLayout | src/game-states/game.state.ts:63-67 | input face i = (a, b, c) becomes output faces 4i..4i+3 = [a,ab,ca], [b,bc,ab], [c,ca,bc], [ab,bc,ca] |
| Subdivision.PassFacesLayout | src/game-states/game.state.ts:67 | the children of face i sit at positions 4i..4i+3 |
| Subdivision.PassFacesValid | src/game-states/game.state.ts:67 | faces built from valid faces and a cache of valid indices are valid |
| Subdivision.MidCacheFacts | src/game-states/game.state.ts:56-59 | the cache maps the k-th distinct edge met to old length + k. Its keys are exactly the edges met and all its values are new indices. |
| Subdivision.MidCacheKeys | src/game-states/game.state.ts:56-59 | the cache's keys are exactly the keys of the edges met |
| Subdivision.GetMidStep | src/game-states/game.state.ts:54-62 | one GetMid call advances the pass state by exactly one edge visit: the vertices, cache and edge list move together |
| Subdivision.GetMidCached | src/game-states/game.state.ts:55 | when the edge's key is already cached, the edge has been met before, so the walk does not grow |
| Subdivision.GetMidFresh | src/game-states/game.state.ts:56-61 | a new edge extends the pass state by one: the walk meets the edge, its midpoint is appended, and the cache maps its key to the old vertex count |
| Subdivision.CacheAppend | src/game-states/game.state.ts:59 | meeting one more edge adds its key to the cache, mapped to the next free vertex index |
| Subdivision.MidVerticesAppend | src/game-states/game.state.ts:57-58 | meeting one more edge appends exactly its projected midpoint |
| Subdivision.PassWellFormed | src/game-states/game.state.ts:50-67 | on valid faces every edge met names existing vertices, and the cache holds all three edges of every face |
| Subdivision.UniqueEdgesEndpoints | src/game-states/game.state.ts:63-66 | on valid faces every edge met has both ends among the vertices |
| Subdivision.PassExtends | src/game-states/game.state.ts:48-71 | one more pass keeps the faces valid, multiplies their count by four and keeps the original vertices as a prefix |
| Subdivision.PassOnSphere | src/game-states/game.state.ts:57-58 | if every old vertex is on the sphere and the projection lands on it, every vertex after the pass is on it |
| Subdivision.VisitAllThree | src/game-states/game.state.ts:63-66 | a face's edges are met in the order ab, bc, ca |
| Subdivision.PassFacesAgree | src/game-states/game.state.ts:50 | the faces already produced do not change when the cache later grows |
| Subdivision.MidpointSymmetric | src/game-states/game.state.ts:34-39 | the midpoint of an edge does not depend on its direction |
| Subdivision.SubdividedZero | src/game-states/game.state.ts:48 | zero passes leave the mesh unchanged |
| Subdivision.SubdividedOnSphere | src/game-states/game.state.ts:28-39 | if the projection lands on the sphere of radius r and the start vertices are on it, every vertex after any number of passes is on it |
| Subdivision.Pow4 | src/game-states/game.state.ts:48 | 4^d is at least 1 |
| Edges.Visit | src/game-states/game.state.ts:208-210 | definition: an edge whose key was already seen is skipped, otherwise it is appended |
| Edges.VisitAll | src/game-states/game.state.ts:203-210 | definition: `Visit` applied to the edges in order |
| Edges.UniqueEdges | src/game-states/game.state.ts:202-210 | definition, the reference for `WireframeEdges` and for the midpoint cache's walk: the edges ab, bc, ca of every face, in face order, each kept only when its undirected edge is new |
| Edges.UniqueEdgesKeys | src/game-states/game.state.ts:202-210 | the emitted edges have pairwise distinct keys, and their keys are exactly the undirected edges of the faces |
| Edges.UniqueEdgesCount | src/game-states/game.state.ts:202-210 | the number of emitted edges is the number of distinct undirected edges |
| Edges.UniqueEdgesFromFaces | src/game-states/game.state.ts:203-207 | every emitted edge is, with its direction, one of ab, bc, ca of some face |
| Edges.UniqueEdgesPrefix | src/game-states/game.state.ts:202-210 | the edges met in a prefix of the faces come first, unchanged (first-occurrence order) |
| Edges.UniqueEdgesSnoc | src/game-states/game.state.ts:202-207 | one more face extends the walk by visiting its edges ab, bc, ca |
| Edges.VisitAllFacts | src/game-states/game.state.ts:209-210 | skip-if-seen visiting keeps keys distinct, only appends, and adds exactly the visited keys |
| Edges.VisitFacts | src/game-states/game.state.ts:209-210 | one visit keeps keys distinct, only appends, and adds exactly the visited edge's key |
| Edges.VisitAllSource | src/game-states/game.state.ts:209-210 | visiting emits only edges already held or visited |
| Edges.DistinctKeysCard | src/game-states/game.state.ts:200 | a list with distinct keys has as many keys as entries |
| Edges.FaceEdgeKeys | src/game-states/game.state.ts:203-207 | the keys of a face's edges are key(a,b), key(b,c), key(c,a) |
| Edges.KeysOfAppend | src/game-states/game.state.ts:210 | appending an edge adds exactly its key |
| Edges.FaceKeysAppend | src/game-states/game.state.ts:202 | the keys of one more face are added to the keys of the faces |
| Icosahedron.BaseCorners | src/game-states/game.state.ts:79-92 | the twelve unprojected corners (-1, t, 0), (1, t, 0), …, (-t, 0, 1), in the source's order |
| Icosahedron.BASE_FACES | src/game-states/game.state.ts:93-114 | definition: the twenty faces of the icosahedron, in the source's order and winding |
| Icosahedron.BaseVertices | src/game-states/game.state.ts:79-92 | twelve base vertices, each the projection of its corner (±1, ±t, 0) up to cyclic permutation |
| Icosahedron.BaseMeshValid | src/game-states/game.state.ts:93-114 | twenty base faces, all indices below 12 |
| Icosahedron.BaseEdgesAre | src/game-states/game.state.ts:93-114 | the base faces' undirected edges are exactly the thirty listed keys |
| Icosahedron.BaseEdgesWithin | src/game-states/game.state.ts:93-114 | every edge of every base face is one of the thirty listed keys |
| Icosahedron.BaseEdgesAll | src/game-states/game.state.ts:93-114 | every one of the thirty listed keys is an edge of some base face |
| Icosahedron.IncreasingKeysCard | src/game-states/game.state.ts:93-114 | a strictly increasing key list has as many distinct keys as entries |
| Icosahedron.BaseEdgeCount | src/game-states/game.state.ts:93-114 | the icosahedron has exactly thirty distinct edges, and the edge walk emits thirty |
| Icosahedron.OnePassCounts | src/game-states/game.state.ts:79-120 | one pass over the icosahedron gives 42 vertices and 80 faces |
| Icosahedron.FaceCount | src/game-states/game.state.ts:116-120 | after `detail` passes the sphere has 20·4^detail faces |
| Biomes.Color | src/game-states/game.state.ts:147-149 | definition: land is filled "#27ae60" and sea "#3498db" |
| Biomes.Centroid | src/game-states/game.state.ts:140-144 | definition: the componentwise mean of the face's three vertices, not projected onto the sphere |
| Biomes.Classify | src/game-states/game.state.ts:145-149 | a point is land exactly when some centre is strictly within the land radius (first match wins, otherwise sea) |
| Biomes.FaceColors | src/game-states/game.state.ts:138-150 | one biome per face. Face i is land iff some land centre is strictly closer than 0.55·r to its centroid, and sea otherwise. |
| Biomes.StrictlyWithin | src/game-states/game.state.ts:146-147 | definition: the radius is positive and the squared distance is below its square; equivalent to `dist < landRadius` by the next row |
| Biomes.StrictlyWithinIsDistanceTest | src/game-states/game.state.ts:146-147 | the squared comparison is equivalent to the source's `sqrt(d²) < landRadius`, in both directions |
| Biomes.NoCentersAllSea | src/game-states/game.state.ts:145-149 | with no land centres every face is sea |
| Biomes.CentroidAtCenterIsLand | src/game-states/game.state.ts:146-147 | a centroid coinciding with a land centre is land when r > 0 |
| Biomes.CentroidAtThresholdIsSea | src/game-states/game.state.ts:146-147 | a centroid at distance exactly 0.55·r from its only centre is sea (the test is strict) |
| Biomes.SquaredDistance | src/game-states/game.state.ts:146 | squared distances are non-negative |
| Render.Rotate | src/game-states/game.state.ts:163-167 | rotation about the y axis keeps the y coordinate |
| Render.RotateIdentity | src/game-states/game.state.ts:163-167 | the zero angle leaves a point where it is |
| Render.RotateKeepsNorm | src/game-states/game.state.ts:163-167 | when sin² + cos² = 1 the rotation keeps the distance from the origin |
| Render.RotateAllOnSphere | src/game-states/game.state.ts:163-167 | a mesh on the sphere stays on it after rotation |
| Render.RotateAll | src/game-states/game.state.ts:163-167 | one rotated vertex per vertex, in order |
| Render.Depth | src/game-states/game.state.ts:171-174 | definition: the mean z of the face's three rotated vertices |
| Render.FaceDepths | src/game-states/game.state.ts:170-175 | one key per face, with index i and the mean z of face i's rotated corners |
| Render.DrawnBefore | src/game-states/game.state.ts:176 | definition: the comparator `f2.z - f1.z` of a stable sort, so x comes before y when it is deeper (larger z), or equally deep and earlier in face order |
| Render.Indices | src/game-states/game.state.ts:180 | the face indices of the sort keys, one per key and in order, as the drawing loop reads them |
| Render.SortByDepth | src/game-states/game.state.ts:176 | for keys in face order (key p has index p, as `faces.map` builds them at line 170), the array ends sorted farthest first with equally deep keys in index order. This is the stable result of the source's comparator. It is a permutation of its input. |
| Render.Insert | src/game-states/game.state.ts:176 | inserting key i extends the sorted prefix by one, as a permutation, without touching later keys |
| Render.InsertingStep | src/game-states/game.state.ts:176 | swapping a key that is strictly deeper than its left neighbour moves it one place left and keeps the rest of the prefix sorted |
| Render.InsertingDone | src/game-states/game.state.ts:176 | once the inserted key meets a neighbour at least as deep, the prefix up to i is sorted farthest first, with ties in index order |
| Render.DrawOrder | src/game-states/game.state.ts:170-180 | the draw order is a permutation of 0..\|faces\|-1 (as multisets). Depths are non-increasing along it, and equal depths keep face order. |
| Render.RangeCounts | src/game-states/game.state.ts:180 | in 0..n-1 every index below n occurs exactly once, and no other index occurs |
| Render.IndicesPermutation | src/game-states/game.state.ts:176 | permuting the sort keys permutes their face indices the same way |
| Render.IndicesRemoveAt | src/game-states/game.state.ts:176 | removing a key removes one occurrence of its index |
| Render.WireframeEdges | src/game-states/game.state.ts:197-220 | the overlay loop emits exactly `UniqueEdges(faces)`: each undirected edge once, in first-occurrence order, keys distinct and equal to the faces' edges |
| Render.WireframeCovers | src/game-states/game.state.ts:202-210 | every edge ab, bc, ca of every face is covered by an emitted edge, in one direction or the other |
| Game.Fills | src/game-states/game.state.ts:139-150 | one fill colour per face, the colour of its biome |
| Game.ColorsDiffer | src/game-states/game.state.ts:147-149 | the land and sea fills differ |
| Game.GameState.constructor | src/game-states/game.state.ts:9-20 | the initial settings: radius 180, rotation 0, detail 3, speed 0.001, seven land centres, no overlay, no mesh |
| Game.GameState.OnEnter | src/game-states/game.state.ts:22-25 | rotation is reset to 0 and the mesh is built as by `SetupMesh` |
| Game.GameState.SetupMesh | src/game-states/game.state.ts:74-124 | the mesh is the icosahedron after `detail` passes, with 20·4^detail faces, coloured by the given centres. It is valid, and the settings are unchanged. |
| Game.GameState.AssignLandSeaColors | src/game-states/game.state.ts:126-151 | the centres are recorded and every face gets the fill of its biome. The mesh and settings are unchanged. |
| Game.GameState.OnUpdate | src/game-states/game.state.ts:153-221 | rotation advances by speed·delta. Every face is painted once, farthest first, in its stored colour. With the overlay on, the overlay is exactly the unique edges, and with it off nothing is stroked. The mesh is unchanged. |
| Game.MeshOnSphere | src/game-states/game.state.ts:28-31 | if the projection lands on the sphere, every vertex of the built mesh is on it, at any detail |

## Left out

- The square root in `normalize` (lines 28-31) is a parameter `normalize: Point -> Point` standing for `v => normalize(v, icosahedronRadius)`. Its one property used, landing on the sphere, is a hypothesis of the lemmas that need it. That hypothesis (`forall p :: OnSphere(normalize(p), r)`, in Subdivision.PassOnSphere, Subdivision.SubdividedOnSphere and Game.MeshOnSphere) also covers the zero vector. There the game's `normalize` divides by a length of 0 and yields NaN coordinates, not a point on the sphere. The lemmas need the hypothesis only at the averages of the edges a pass meets, but they state it for every point.
- The golden ratio `(1 + sqrt 5) / 2` (line 77) is a parameter `t`. The counts and index properties do not depend on its value.
- `Math.sin` and `Math.cos` (lines 164-165) are parameters `sin` and `cos`. Norm preservation is proved under the hypothesis sin² + cos² = 1.
- Floating point: every coordinate, depth, distance and the factor 0.55 is an exact real. There is no rounding, NaN or infinity.
- Render.DrawOrder: depths are compared exactly, where the source's comparator subtracts two floats.
- `Math.random` generation of the land centres (lines 129-137) is left out. The centres are an input of the length the source draws (`numLandCenters`).
- The perspective divide `fov / (fov + z)` and the screen coordinates (lines 156-159, 182-186, 211-216) are left out. A frame records which face is painted in which colour and in which order, and which edges are stroked. It does not record where on the canvas they go.
- All canvas calls (`save`, `beginPath`, `moveTo`, `lineTo`, `fill`, `stroke`, `restore`, stroke style and width) are external drawing plumbing and are left out.
- The escape check and the screen transition (`controls.isEscape`, `gameStateMachine.setState`, lines 223-225) belong to external collaborators and are left out.
- The unused field `lastFaceCount` and the unused imports `renderWebGl` and `clamp` are left out.
- The string edge key `${min}_${max}` is modelled as the pair (min, max). For non-negative integer indices both are injective in the unordered pair, so the cache and the drawn set behave the same.
- Render.SortByDepth: the library's sort algorithm is not modelled. An insertion sort with the same comparator stands in for it. The language's sort is stable, so its result is the unique stable descending order, and insertion sort produces the same order.
- Subdivision.Subdivide: it requires valid input faces. The source calls `subdivide` only on the icosahedron tables, which are proved valid, and `SetupMesh` discharges this itself.
- Render.DrawOrder, Biomes.FaceColors: they require every face index to be a valid vertex index, which the `GameState` invariant `Valid()` guarantees. With an invalid index the source indexes into `undefined` (`rotatedVerts[a][2]` at line 171, `this.vertices[a][0]` at line 141) and throws a TypeError; the model excludes that path with `requires`.
- The array of vertices is a local value in `setupMesh` and `subdivide`. It is modelled as a `seq` threaded through the methods, so aliasing of the pushed-to array is not modelled. Nothing else references it during a pass.
