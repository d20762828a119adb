# Connected collision regions of a tile map

Two browser scripts show a tile map whose collision layer is a flat, row-major
array of tile codes: `collisions[y * W + x]`, with `W` and `H` the map's size in
tiles. The code `1025` marks a collision tile.

A click (and, in one script, hovering) on a collision tile runs a recursive
4-directional flood fill, `checkConnectedBlocks`. It counts the tiles of the
clicked tile's connected collision region, marking flat indices in a `visited`
object that all recursive calls share. When the count is at least 4, the
treasure modal is shown. The first script, `appt2.js`, also lists the region's
tiles in `highlightedBlocks` and chunks the flat array into rows of 70. The
second script, `app-invisivel.js`, lists every collision index as a pixel
position.

The project has four modules:

- `TileGrid` (`grid.dfy`) is the collision layer: the `Grid` value, the flat
  index, adjacency, walks, and the 4-connected region `Component` of a seed.
- `FloodFill` (`flood.dfy`) holds the traversal the two scripts share:
  - `Flood` is its pure reference definition. It returns the new visited set
    and the tiles in the order they are entered.
  - The lemmas prove what `Flood` computes.
  - `CheckConnectedBlocks` is the imperative recursion over a shared
    `VisitedSet` object. It is proved equal to `Flood`.
  - `ConnectedCount` is the call with the default, empty `visited`.
  - `checkConnectedBlocks` is identical in the two scripts
    (`tests_historic/appt2.js:121-138`, `tests_historic/app-invisivel.js:86-103`),
    so it is modelled once.
- `Appt2` (`appt2.dfy`) holds:
  - the row chunking of `collisionsMap`;
  - a `Viewer` class that owns `highlightedBlocks`;
  - `addCollisionBlock`, `highlightCollisionBlocks`, and the click and hover
    handlers.
- `AppInvisivel` (`app_invisivel.dfy`) holds `highlightCollisions` on a
  `Viewer` class that owns `collisionsHighlighted`, and the click handler.

The four moves out of a tile are guarded by `x > 0`, `x < W - 1`, `y > 0` and
`y < H - 1`; nothing tests `x >= 0`, `x <= W - 1`, `y >= 0` or `y <= H - 1`.
These guards keep every move out of an on-map tile on the map. A move out of
an off-map tile can reach further off-map tiles, and each is read through the
aliased index `y * W + x`. For example, from the seed (-2, 1) on a 3×2 map the
Right guard holds and the traversal reads (-1, 1) at index 2. The model
computes every index exactly as the scripts do. So a seed column of `W` reads
the first tile of the next row, and an index outside the array reads as
"not 1025" (a JavaScript read past the end yields `undefined`). The region
theorems are stated for seeds on the map.

Inputs the scripts take from the page become parameters: the collision
array, `W` and `H` (`mapImage.width / tileSize`, `mapImage.height / tileSize`),
`mapWidth`, and the tile under the mouse.

## Model

| member | source | states |
|---|---|---|
| `TileGrid.ComponentOfSeed` | tests_historic/appt2.js:124-126 | the region of a seed is non-empty exactly when the seed is an on-map collision tile, and then it contains the seed |
| `TileGrid.ComponentReseed` | tests_historic/appt2.js:132-135 | any tile of a seed's region is the seed of that same region, since the four moves make adjacency symmetric |
| `TileGrid.IndexInjective` | tests_historic/appt2.js:122 | two on-map tiles with the same row-major index are the same tile |
| `TileGrid.GridNeighbour` | tests_historic/appt2.js:132-135 | every on-map neighbour of an on-map tile is reached by one of the four bounds-guarded moves |
| `FloodFill.Flood` | tests_historic/appt2.js:121-138 | the traversal only ever adds indices to the visited set |
| `FloodFill.UnvisitedDrop` | tests_historic/appt2.js:128 | marking an unvisited in-array index strictly decreases the number of unvisited indices, which is why the recursion terminates |
| `FloodFill.FloodStops` | tests_historic/app-invisivel.js:89-91 | a seed that is not a collision tile, or whose index is already visited, yields a count of 0 and leaves the visited set unchanged |
| `FloodFill.FloodCovers` | tests_historic/appt2.js:128 | a traversal from a collision tile leaves that tile's index visited |
| `FloodFill.FloodExtends` | tests_historic/appt2.js:124-137 | the visited set grows by exactly the indices of the entered tiles; each of those holds 1025, was not visited before, and appears once |
| `FloodFill.FloodCountsNew` | tests_historic/app-invisivel.js:93-102 | the count equals the number of indices newly added to `visited`, and every added index holds 1025 |
| `FloodFill.FloodBound` | tests_historic/appt2.js:128-135 | the count is at most the length of the collision array, and at most W·H when the array is W·H long |
| `FloodFill.FloodEnteredMarked` | tests_historic/appt2.js:151-156 | every entered tile holds 1025 and was not visited before the call |
| `FloodFill.FloodDistinct` | tests_historic/appt2.js:155-156 | no tile is entered twice |
| `FloodFill.FloodOnMap` | tests_historic/app-invisivel.js:97-100 | from an on-map seed, every entered tile lies inside 0..W-1 × 0..H-1 |
| `FloodFill.FloodClosed` | tests_historic/appt2.js:132-135 | from an on-map seed, every on-map collision neighbour of an entered tile has its index visited |
| `FloodFill.FloodFindsComponent` | tests_historic/appt2.js:121-138 | with an empty `visited` and an on-map seed, the entered tiles are exactly the seed's 4-connected 1025 region, and the count is its size |
| `FloodFill.FloodSameRegion` | tests_historic/appt2.js:84-91 | a fresh traversal from any on-map tile of a seed's region enters the same set of tiles, as many of them, as one from the seed, so a click anywhere in a region gives the same count and highlighted tiles |
| `FloodFill.FloodUnroll` | tests_historic/appt2.js:128-135 | a traversal of a new collision tile marks it, enters it, then makes the left, right, up and down moves in that order, each continuing from the visited set the previous one left |
| `FloodFill.CheckConnectedBlocks` | tests_historic/appt2.js:121-138 | the recursion over the shared `visited` object leaves exactly the visited set of `Flood` and returns its count; a non-collision or already visited seed returns 0 and leaves `visited` unchanged |
| `FloodFill.ConnectedCount` | tests_historic/app-invisivel.js:76 | with the default empty `visited`, the count is 0 for a non-collision seed, at most the array length, and the size of the seed's region for an on-map seed |
| `Appt2.FlattenAppend` | tests_historic/appt2.js:27 | pushing a row appends it to the concatenation of the rows |
| `Appt2.BuildCollisionsMap` | tests_historic/appt2.js:25-28 | there are ceil(n/70) rows; row k is the slice from 70k, cut at the end of the array; every row but the last has 70 entries and the last has 1 to 70; the rows concatenate back to the array |
| `Appt2.Viewer.AddCollisionBlock` | tests_historic/appt2.js:148-162 | leaves exactly the visited set of `Flood` and appends the tiles `Flood` enters to `highlightedBlocks`, in entry order |
| `Appt2.Viewer.HighlightCollisionBlocks` | tests_historic/appt2.js:141-145 | the list is cleared first and then holds exactly the tiles of a fresh traversal, so its length is the count `checkConnectedBlocks` returns; it has no duplicates, every tile holds 1025, and for an on-map seed it lists exactly the seed's region |
| `Appt2.Viewer.OnClick` | tests_historic/appt2.js:81-92 | the modal shows exactly when the clicked tile holds 1025 and its count is at least 4 (for an on-map tile: when its region has at least 4 tiles); the list then holds the region, and otherwise it is untouched |
| `Appt2.Viewer.OnMouseMove` | tests_historic/appt2.js:101-115 | the list is cleared, then holds the hovered region when the hovered tile holds 1025 and its count is at least 4, and is empty otherwise |
| `AppInvisivel.CollisionIndicesExact` | tests_historic/app-invisivel.js:45-46 | an index is listed exactly when it holds 1025, and the listed indices strictly increase |
| `AppInvisivel.PixelsOfAt` | tests_historic/app-invisivel.js:47-49 | entry k of the listing is the position of the k-th listed index |
| `AppInvisivel.PixelOfInverts` | tests_historic/app-invisivel.js:47-48 | a position is a pair of non-negative multiples of the tile size, its column lies inside the map, and the index is recovered from it |
| `AppInvisivel.CollisionPixelsExact` | tests_historic/app-invisivel.js:43-52 | the listing has one entry per index holding 1025, in increasing index order, each the position of its index; every such index's position is listed |
| `AppInvisivel.Viewer.HighlightCollisions` | tests_historic/app-invisivel.js:43-52 | the list is reset and then holds exactly `CollisionPixels` of the inputs; the result does not depend on the previous list, so a second call leaves the same list |
| `AppInvisivel.OnClick` | tests_historic/app-invisivel.js:72-82 | the modal shows exactly when the clicked tile holds 1025 and its count is at least 4; for an on-map tile, exactly when its region has at least 4 tiles |

## Left out

- Canvas drawing is not modelled: `drawMap`, `drawCollisionBlocks`, `fillRect`, `drawImage` and `globalAlpha` are rendering side effects.
- The handlers' pixel-to-tile conversion and `mouseOverCollision` are not modelled. They use a floating-point `scale` and `Math.floor`. The handlers here take the tile under the mouse as a parameter.
- `limitMapMovement`, the wheel zoom clamp, drag state and the drag `mousemove` listener are not modelled. They are floating-point offset and scale arithmetic.
- Event wiring, image loading and the modal's DOM access are not modelled. Showing the modal is the boolean `showModal`, and closing it is not modelled.
- `W` and `H` are naturals. In the scripts they are `mapImage.width / tileSize`, which can be fractional, and a fractional `W` or `H` is not represented. With a fractional `W`, the scripts still read row 0 and every row whose `tileY * W` is whole, and the guard `tileX < W - 1` then lets a traversal reach column `floor(W)`; other rows read `undefined` and stop.
- `AppInvisivel.Viewer.HighlightCollisions`: requires `mapWidth > 0`. `mapWidth` is a global defined outside these scripts, and a zero width would produce `NaN` positions, which the model does not represent.
- FloodFill.FloodFindsComponent: holds for seeds on the map only, and so do the region clauses of the handlers. From a seed off the map, the traversal follows the aliased index.
- `FloodFill.CheckConnectedBlocks` and `Appt2.Viewer.AddCollisionBlock`: the recursion has no depth bound here. In the scripts each tile on the current path holds one nested call, so a long enough region, such as a snake-shaped one, exceeds the engine's call stack. The handler then throws a `RangeError` and shows neither the modal nor the highlight. The model promises the full count and list in that case too.
