# bevy-hexagons: territory borders and tile highlighting, in Dafny

This project models the two pieces of logic in bevy-hexagons, a hex-grid strategy game built on Bevy.

**Territory borders** (`src/board/systems.rs`):
- `build_board` lays out a disc of hex tiles of radius `HEX_RADIUS = 5`. Every tile starts as neutral land.
- `tile_border` finds the outline of a team's territory. For each tile of the team, it takes the midpoint of every edge that leads off the board or to another team's tile. Next to each other, equal points are collapsed (`Vec::dedup`). The rest are stitched greedily into closed chains: each step goes to the nearest remaining point, and a step of `HEX_SIZE = 40` pixels or more starts a new chain.
- `draw_borders` spawns one border segment per pair of consecutive chain points, for the ally border and then for the enemy border.

**Tile highlighting** (`src/tile_highlighting/systems.rs`):
- Systems that reset, strengthen or weaken each tile's colour material: under the cursor, and around the selected unit's move and attack hexes.
- Systems that spawn, tint and despawn the purpose overlays: a move or attack marker on a hex.

How the model represents things:
- Coordinates are axial integers (`HexGrid.Hex`).
- The layout is linear with a zero origin, so the pixel midpoint of two hexes is the image of their coordinate half-sum. A border point is therefore held exactly as the doubled axial coordinate `a + b` (`BorderScan.BorderPoint`), with no floats.
- The pixel distance between two points is an abstract parameter `dist`. `Stitching.StepDistance` saturates it at `i32::MAX`, as Rust's `as i32` does.
- Tiles are a sequence, because query iteration order decides point order.

Modules, one per file:
- `Wrappers`: `Option`.
- `HexGrid`: coordinates, disc membership, the six neighbours, constants.
- `Board`: tiles and `build_board`.
- `BorderScan`: point generation.
- `Deduplication`: `Vec::dedup`.
- `Stitching`: the functional specification of the stitching and its properties.
- `Borders`: imperative `tile_border` and `draw_borders`, plus the full-board lemmas.
- `TileHighlighting`: the six highlighting systems.

Where the code and the intended design differ, the model follows the code:
- Only consecutive duplicates are removed.
- `tile_border` returns `None` when no border points exist, not when the team owns no tiles. `Borders.FullBoardBorder` proves the two agree on a board as `build_board` makes it.
- When exactly one border point remains, `tile_border` returns `Some([])`, and `draw_borders` would panic on `point_group[0]`. This is modelled as the outcome `Borders.IndexPanic`, which `Borders.FullBoardNeverPanics` proves unreachable on a full board.

## Model

Some functions are reference definitions: their own contracts are small or absent, and the lemmas named with them state what they mean.
- `Borders.Draw` and `Borders.DrawTeams` (src/board/systems.rs:98-141) are the teams loop of `draw_borders`; see `DrawTeamsPanics`, `DrawPanics`, `DrawTeamsPanicSticks` and `DrawnBothTeams`.
- `Borders.ChainSegments` and `Borders.GroupSegments` (src/board/systems.rs:118-139) are the segments spawned for a chain and for a team; see `ChainSegmentsExact` and `GroupSegmentsExact`.
- `TileHighlighting.Placement` (src/tile_highlighting/systems.rs:112-128 and 146-162) is the offset of an overlay; see `PlacementRule`.
- `Stitching.Close` (src/board/systems.rs:221) closes a chain with its head; see `ChainsClosed`.

| member | source | states |
|---|---|---|
| HexGrid.Neighbours | src/board/systems.rs:151 | the six neighbours of a hex are exactly the hexes at axial distance one |
| Board.BuildBoard | src/board/systems.rs:52-67 | spawns exactly one tile per coordinate of the radius-5 disc (91 tiles), each Land, Neutral, with capture progress 0 |
| Board.TileAtCoordinate | src/board/systems.rs:52-66 | on the built board every tile lies on the disc and is the only tile at its coordinate |
| BorderScan.OffBoardPoints | src/board/systems.rs:154-164 | at most one point per neighbour coordinate |
| BorderScan.OffBoardPointsSpec | src/board/systems.rs:154-162 | the off-board part yields exactly the midpoints towards neighbours outside the disc |
| BorderScan.ForeignPoints | src/board/systems.rs:165-179 | at most one point per tile of the query |
| BorderScan.ForeignPointsSpec | src/board/systems.rs:164-179 | the second part yields exactly the midpoints towards neighbouring tiles of another team |
| BorderScan.TilePoints | src/board/systems.rs:150-182 | one tile emits at most six off-board points plus one per tile of the query |
| BorderScan.PointsFrom | src/board/systems.rs:147-183 | only tiles of the team emit points: a team without tiles generates none |
| BorderScan.PointsFromSpec | src/board/systems.rs:147-183 | the flat-map over the tiles yields exactly the points of the team's tiles |
| BorderScan.BorderPoints | src/board/systems.rs:147-183 | the raw points before dedup are empty when the team owns no tile; which points they are is `BorderPointsExact` |
| BorderScan.BorderPointSound | src/board/systems.rs:147-183 | every generated point is the midpoint of a team tile and a neighbour that is off the board or held by another team |
| BorderScan.BorderEdgeComplete | src/board/systems.rs:147-183 | every such edge yields its midpoint |
| BorderScan.BorderPointsExact | src/board/systems.rs:147-183 | a point is generated if and only if it is the midpoint of a border edge of the team |
| BorderScan.MidpointDeterminesEdge | src/board/systems.rs:157-161 | two edges with the same midpoint are the same edge, so the doubled coordinate identifies the edge |
| BorderScan.SameTeamEdgeSilent | src/board/systems.rs:167-177 | on the built board, an edge between two tiles of the same team contributes no point |
| Deduplication.Dedup | src/board/systems.rs:184 | after dedup no two consecutive points are equal; empty only for empty input; the first point is kept |
| Deduplication.DedupSameElements | src/board/systems.rs:184 | dedup keeps exactly the same set of points |
| Deduplication.DedupSubsequence | src/board/systems.rs:184 | the remaining points keep their original relative order |
| Deduplication.DedupKeepsSeparatedDuplicates | src/board/systems.rs:184 | a list with no adjacent duplicates is unchanged, and dedup is idempotent |
| Deduplication.DedupLength | src/board/systems.rs:184 | dedup removes exactly one element per position whose successor is equal to it, so one element survives per maximal run and equal elements in different runs all survive |
| Deduplication.DedupTwoValues | src/board/systems.rs:184 | two distinct points in the input leave at least two points after dedup |
| Stitching.StepDistance | src/board/systems.rs:202 | the measured distance never exceeds `i32::MAX` |
| Stitching.Nearest | src/board/systems.rs:198-207 | the chosen index is a nearest remaining point, and the first such one on ties |
| Stitching.NearestUnique | src/board/systems.rs:203-206 | the first-index nearest point is unique, so the scan's choice is determined |
| Stitching.RemoveAtMultiset | src/board/systems.rs:210 | removing an index loses exactly that one point |
| Stitching.Chains | src/board/systems.rs:194-222 | the stitching from a point yields at least one chain and never more chains than points remaining |
| Stitching.Stitch | src/board/systems.rs:186-226 | `None` exactly when there are no points, and fewer chains than points otherwise |
| Stitching.Tour | src/board/systems.rs:197-218 | the greedy visiting order has one entry per point and starts at the current point |
| Stitching.ChainsClosed | src/board/systems.rs:194-222 | the chains are non-empty, each has length at least 2 and ends with a copy of its head, and the first extends the points already gathered |
| Stitching.ChainsFollowTour | src/board/systems.rs:194-222 | without their closing copies, the chains concatenate to the greedy tour of the points |
| Stitching.TourPermutation | src/board/systems.rs:209-210 | the greedy tour places every point exactly once and starts at the current point |
| Stitching.TourFirstStep | src/board/systems.rs:198-210 | the tour's first step goes to a point nearest the start |
| Stitching.TourGreedy | src/board/systems.rs:198-210 | every step of the tour goes to a point nearest it among all later points |
| Stitching.ChainsBreakAtLongSteps | src/board/systems.rs:212-218 | a chain ends only at a step of at least `HEX_SIZE`, the far point opening the next chain, or when no points remain, when the last point joins the current chain even if it is far, so the last chain never holds that point alone |
| Stitching.StitchShape | src/board/systems.rs:186-226 | `None` exactly when no points remain; `Some([])` for a single point; otherwise closed chains of length at least 2, the first starting at the first point |
| Stitching.StitchPermutation | src/board/systems.rs:190-226 | without closing copies, the chains are a permutation of the deduplicated points |
| Stitching.StitchGreedy | src/board/systems.rs:197-218 | every stitched step goes to a nearest remaining point, and the chains break exactly at long steps, except that the final point always joins the last chain |
| Borders.BorderOf | src/board/systems.rs:144-227 | a team has no border exactly when no raw border points exist, and fewer chains than raw points otherwise |
| Borders.NearestRemaining | src/board/systems.rs:198-207 | the scan over the remaining points returns the first-index nearest point and its saturated distance |
| Borders.TileBorder | src/board/systems.rs:144-227 | the imperative procedure returns exactly the stitching of the deduplicated border points; the `?` on `points.first()` cannot fire |
| Borders.Windows | src/board/systems.rs:119 | `windows(2)` yields each pair of consecutive points once, in order |
| Borders.SpawnChainSegments | src/board/systems.rs:118-139 | the spawning loops produce one segment per window of every chain, in order |
| Borders.TeamDrawing | src/board/systems.rs:98-104 | a team without a border draws nothing, and a team's drawing goes ahead only when its border has a first chain of at least two points |
| Borders.DrawTeamsPanics | src/board/systems.rs:98-104 | the drawing over several teams panics exactly when one team's drawing panics |
| Borders.DrawPanics | src/board/systems.rs:98-104 | `draw_borders` panics exactly when the ally or the enemy border has no chain or a first chain of fewer than two points |
| Borders.DrawBorders | src/board/systems.rs:87-142 | the system is proved equal to `Draw`: the ally border, then the enemy border, skipping a team with no border, and a panic when a border has no chain or its first chain has fewer than two points |
| Borders.DrawTeamsPanicSticks | src/board/systems.rs:98-104 | once one team's border panics, the whole system panics |
| Borders.ChainSegmentsExact | src/board/systems.rs:119-138 | a chain's segments are exactly its consecutive pairs |
| Borders.GroupSegmentsExact | src/board/systems.rs:118-139 | the segments of a team are exactly the consecutive pairs of its chains |
| Borders.DrawnBothTeams | src/board/systems.rs:98-141 | the drawing is the ally segments followed by the enemy segments |
| Borders.DrawnSegmentsExact | src/board/systems.rs:98-139 | every drawn segment joins consecutive points of an ally or enemy chain, in that team's colour, and every such pair is drawn; nothing is drawn for Neutral |
| Borders.EastEdgeOnBorder | src/board/systems.rs:154-179 | the edges of that tile towards (q+1, r) and (q+1, r-1) are border edges |
| Borders.OwnedTilesGiveTwoPoints | src/board/systems.rs:147-184 | on the built board, a team owning a tile has at least two distinct points after dedup |
| Borders.FullBoardBorder | src/board/systems.rs:186-226 | on the built board, a team has a border if and only if it owns a tile, and then the first chain has at least two points |
| Borders.FullBoardNeverPanics | src/board/systems.rs:103-104 | on the built board, `point_group[0][1]` is always in bounds |
| TileHighlighting.SelectedUnit | src/tile_highlighting/systems.rs:50-56 | a unit is acted on exactly when an entity is selected and still resolves to a unit |
| TileHighlighting.RemoveTileHighlights | src/tile_highlighting/systems.rs:19-26 | every tile gets its base colour |
| TileHighlighting.FindTile | src/tile_highlighting/systems.rs:37 | returns the first tile at the hovered coordinate, or none exactly when no tile is there |
| TileHighlighting.FirstAtUnique | src/tile_highlighting/systems.rs:37 | with one tile per coordinate, the first tile at a hex is the only one there |
| TileHighlighting.HighlightHoveredHex | src/tile_highlighting/systems.rs:28-42 | with no hovered hex nothing changes; otherwise only the tile found at the hovered hex gets its strong highlight, and every other tile is unchanged |
| TileHighlighting.HighlightLists | src/tile_highlighting/systems.rs:58-71 | a hex is in the strong list if and only if it is an attack hex while Attack remains or a move hex while Move remains, and in the weak list if and only if it belongs to an action already used |
| TileHighlighting.UnitHighlight | src/tile_highlighting/systems.rs:73-83 | a tile changes only when it is a strong or weak target, a strong target always ends strong, and a weak highlight is never given to a strong target |
| TileHighlighting.HighlightUnitHex | src/tile_highlighting/systems.rs:44-84 | with no resolvable unit nothing changes; otherwise strong beats weak, and a tile in neither list keeps its colour |
| TileHighlighting.Retain | src/tile_highlighting/systems.rs:102-103 | `both` holds exactly the move hexes that are also attack hexes |
| TileHighlighting.Overlays | src/tile_highlighting/systems.rs:105-171 | at most one overlay per entry of the hex list |
| TileHighlighting.OverlaysFollowList | src/tile_highlighting/systems.rs:105-137 | one overlay per on-board entry of the list, in order, each for the list's action with the default colour |
| TileHighlighting.OverlaysExact | src/tile_highlighting/systems.rs:105-171 | an overlay exists if and only if its hex is in the list and on the board, at the offset the placement rule gives |
| TileHighlighting.PlacementRule | src/tile_highlighting/systems.rs:112-128 | a hex in both lists has its Move overlay shifted right and its Attack overlay shifted left; a hex in only one list is centred |
| TileHighlighting.PurposeOverlays | src/tile_highlighting/systems.rs:100-171 | at most one overlay per entry of the move and attack lists |
| TileHighlighting.PurposeOverlaysCount | src/tile_highlighting/systems.rs:100-171 | the overlays number the on-board move entries plus the on-board attack entries, so out-of-range entries produce none |
| TileHighlighting.PaletteOf | src/tile_highlighting/systems.rs:197-207 | the enemy palette is used exactly for enemy units; Neutral falls back to the ally colours |
| TileHighlighting.TintFor | src/tile_highlighting/systems.rs:209-215 | an overlay gets the unused-action colour if and only if its action is still available, in the unit's palette |
| TileHighlighting.PurposeSpriteLayer.Spawn | src/tile_highlighting/systems.rs:86-172 | with no resolvable unit nothing is spawned; otherwise the move overlays, then the attack overlays, are appended |
| TileHighlighting.PurposeSpriteLayer.SpawnFor | src/tile_highlighting/systems.rs:105-171 | each of the two spawning loops appends exactly the overlays of its hex list and action |
| TileHighlighting.PurposeSpriteLayer.Despawn | src/tile_highlighting/systems.rs:174-181 | every overlay is removed |
| TileHighlighting.PurposeSpriteLayer.Color | src/tile_highlighting/systems.rs:183-216 | with no resolvable unit nothing changes; otherwise every overlay keeps its action, hex and offset and takes the tint its action's availability and the unit's team call for |

## Left out

- Floating-point geometry is not modelled: pixel positions, the Euclidean distance, rectangle length and rotation, the background hex scale and the sprite scales. Border points are doubled axial coordinates, and the distance is the abstract parameter `dist`.
- `load_colors` is not modelled. Colours are buckets: the three tile handles (base, weak, strong) and the unused and used action colours of a palette.
- The hexx library is not part of this model. `range` becomes `HexGrid.InRange` (max of |q|, |r| and |q+r| at most the radius). `all_neighbors` becomes six fixed axial offsets, in the order (1,0), (1,-1), (0,-1), (-1,0), (-1,1), (0,1). `build_board` takes `range` to list coordinates with q outermost and r innermost. Both orders are assumptions, and they only affect the order of points and tiles.
- `cursor_to_hex` is not part of this model; the hovered hex is an input.
- `Unit::relative_move_hexes` and `relative_attack_hexes` are not part of this model; the unit's hex lists are inputs.
- `HexTile::base_color`, `weak_highlight` and `strong_highlight` are not part of this model; a material records which of the three the tile carries.
- The ECS plumbing is not modelled: `Commands`, queries, resources, asset loading and scheduling. Spawned entities are sequence entries, and the despawn of old borders at the start of `draw_borders` is implicit in returning a fresh drawing. The relative order of the hover and unit highlighting systems is not claimed.
- `src/player/mod.rs` (plugin registration) and the plugin wiring in `src/board/mod.rs` are not modelled; only the constants are used.
- Borders.DrawBorders: the border material chosen per team is not modelled beyond the segment's team. The Neutral arm of that match is never reached, because only Ally and Enemy are drawn.
