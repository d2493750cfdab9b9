/**
 * The tile set: one `HexTile` per coordinate of the disc, created once by
 * `build_board` (src/board/systems.rs) and afterwards only read by the
 * border and highlight code.
 */
module Board {
  import opened HexGrid

  datatype Team = Neutral | Ally | Enemy

  /** Terrain category; `build_board` only ever creates `Land`. */
  datatype TileVariant = Land

  /** A `HexTile` component. */
  datatype Tile = Tile(coordinate: Hex, variant: TileVariant, captureProgress: int, team: Team)

  /** The coordinates of `tiles`, in the same (query) order. */
  function Coordinates(tiles: seq<Tile>): seq<Hex>
  {
    seq(|tiles|, i requires 0 <= i < |tiles| => tiles[i].coordinate)
  }

  /** At most one tile per coordinate. */
  ghost predicate UniqueCoordinates(tiles: seq<Tile>)
  {
    forall i, j :: 0 <= i < j < |tiles| ==> tiles[i].coordinate != tiles[j].coordinate
  }

  /**
   * The board as `build_board` leaves it, up to the teams and capture
   * progress that gameplay changes later: exactly the disc's coordinates,
   * each carried by one tile.
   */
  ghost predicate FullBoard(tiles: seq<Tile>)
  {
    && UniqueCoordinates(tiles)
    && forall h :: h in Coordinates(tiles) <==> InRange(h, HEX_RADIUS)
  }

  /** On a full board a tile is on the disc and is the only tile at its coordinate. */
  lemma TileAtCoordinate(tiles: seq<Tile>, t: Tile)
    requires FullBoard(tiles) && t in tiles
    ensures InRange(t.coordinate, HEX_RADIUS)
    ensures forall u :: u in tiles && u.coordinate == t.coordinate ==> u == t
  {
    var j :| 0 <= j < |tiles| && tiles[j] == t;
    assert Coordinates(tiles)[j] == t.coordinate;
  }

  /** First and last `r` of row `q` of the disc of radius `HEX_RADIUS`. */
  function RowStart(q: int): int
  {
    if -q - HEX_RADIUS > -(HEX_RADIUS as int) then -q - HEX_RADIUS else -(HEX_RADIUS as int)
  }

  function RowEnd(q: int): int
  {
    if HEX_RADIUS - q < HEX_RADIUS then HEX_RADIUS - q else HEX_RADIUS
  }

  /** Number of disc coordinates in the rows before row `q`. */
  ghost function RowsBefore(q: int): int
    decreases q + HEX_RADIUS
  {
    if q <= -(HEX_RADIUS as int) then 0
    else RowsBefore(q - 1) + (RowEnd(q - 1) - RowStart(q - 1) + 1)
  }

  /**
   * `build_board`: spawns one neutral, unconquered `Land` tile for every
   * coordinate of `Hex::ZERO.range(HEX_RADIUS)`, row by row.
   */
  method BuildBoard() returns (tiles: seq<Tile>)
    ensures forall t :: t in tiles ==> t.variant == Land && t.team == Neutral && t.captureProgress == 0
    ensures FullBoard(tiles)
    ensures |tiles| == 3 * HEX_RADIUS * HEX_RADIUS + 3 * HEX_RADIUS + 1
  {
    tiles := [];
    for q := -(HEX_RADIUS as int) to HEX_RADIUS + 1
      invariant forall t :: t in tiles ==> t.variant == Land && t.team == Neutral && t.captureProgress == 0
      invariant forall i :: 0 <= i < |tiles| ==> tiles[i].coordinate.q < q
      invariant UniqueCoordinates(tiles)
      invariant forall h :: h in Coordinates(tiles) <==> InRange(h, HEX_RADIUS) && h.q < q
      invariant |tiles| == RowsBefore(q)
    {
      for r := RowStart(q) to RowEnd(q) + 1
        invariant forall t :: t in tiles ==> t.variant == Land && t.team == Neutral && t.captureProgress == 0
        invariant forall i :: 0 <= i < |tiles| ==>
          tiles[i].coordinate.q < q || (tiles[i].coordinate.q == q && tiles[i].coordinate.r < r)
        invariant UniqueCoordinates(tiles)
        invariant forall h :: h in Coordinates(tiles) <==>
          InRange(h, HEX_RADIUS) && (h.q < q || (h.q == q && h.r < r))
        invariant |tiles| == RowsBefore(q) + (r - RowStart(q))
      {
        var t := Tile(Hex(q, r), Land, 0, Neutral);
        assert Coordinates(tiles + [t]) == Coordinates(tiles) + [t.coordinate];
        tiles := tiles + [t];
      }
    }
    assert RowsBefore(HEX_RADIUS + 1) == 91;
  }
}
