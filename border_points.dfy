/**
 * The point-generation half of `tile_border` (src/board/systems.rs): for
 * every tile of the requested team, the midpoints of the edges it shares
 * with an off-board neighbour or with a tile of another team.
 *
 * `HEX_LAYOUT` is linear with a zero origin, so the pixel midpoint of two
 * hexes is the layout image of half their coordinate sum; since the layout
 * is injective, a midpoint is represented exactly by the doubled axial
 * coordinate `a + b`.
 */
module BorderScan {
  import opened HexGrid
  import opened Board

  /** A border point: the doubled axial coordinate of an edge midpoint. */
  datatype BorderPoint = BorderPoint(q2: int, r2: int)

  function Midpoint(a: Hex, b: Hex): BorderPoint
  {
    BorderPoint(a.q + b.q, a.r + b.r)
  }

  /** Midpoints towards the neighbours in `ns` that lie outside the board. */
  function OffBoardPoints(h: Hex, ns: seq<Hex>): (r: seq<BorderPoint>)
    ensures |r| <= |ns|
  {
    if ns == [] then []
    else (if !InRange(ns[0], HEX_RADIUS) then [Midpoint(ns[0], h)] else [])
         + OffBoardPoints(h, ns[1..])
  }

  /** Midpoints towards the tiles of `all` (query order) that neighbour `h` and belong to another team. */
  function ForeignPoints(h: Hex, team: Team, all: seq<Tile>): (r: seq<BorderPoint>)
    ensures |r| <= |all|
  {
    if all == [] then []
    else (if all[0].coordinate in Neighbours(h) && all[0].team != team
          then [Midpoint(all[0].coordinate, h)] else [])
         + ForeignPoints(h, team, all[1..])
  }

  /** The points one tile of the team contributes: off-board neighbours first, then foreign tiles. */
  function TilePoints(t: Tile, team: Team, all: seq<Tile>): (r: seq<BorderPoint>)
    ensures |r| <= 6 + |all|
  {
    OffBoardPoints(t.coordinate, Neighbours(t.coordinate)) + ForeignPoints(t.coordinate, team, all)
  }

  /** The points the tiles of `todo` emit, in order; only tiles of `team` emit any. */
  function PointsFrom(todo: seq<Tile>, team: Team, all: seq<Tile>): (r: seq<BorderPoint>)
    ensures (forall t :: t in todo ==> t.team != team) ==> r == []
  {
    if todo == [] then []
    else (if todo[0].team == team then TilePoints(todo[0], team, all) else [])
         + PointsFrom(todo[1..], team, all)
  }

  /** `unsorted_points` before `dedup`: every tile of `team`, in query order, emits its points. */
  function BorderPoints(tiles: seq<Tile>, team: Team): (r: seq<BorderPoint>)
    ensures (forall t :: t in tiles ==> t.team != team) ==> r == []
  {
    PointsFrom(tiles, team, tiles)
  }

  /**
   * The edge from tile `t` to coordinate `n` separates `team` from the
   * outside: `t` is a tile of `team`, `n` neighbours it, and `n` is either
   * off the board or carries a tile of another team.
   */
  ghost predicate BorderEdge(tiles: seq<Tile>, team: Team, t: Tile, n: Hex)
  {
    && t in tiles && t.team == team && n in Neighbours(t.coordinate)
    && (!InRange(n, HEX_RADIUS) || exists u :: u in tiles && u.coordinate == n && u.team != team)
  }

  lemma {:induction false} OffBoardPointsSpec(h: Hex, ns: seq<Hex>, p: BorderPoint)
    ensures p in OffBoardPoints(h, ns) <==> exists n :: n in ns && !InRange(n, HEX_RADIUS) && p == Midpoint(n, h)
  {
    if ns != [] {
      OffBoardPointsSpec(h, ns[1..], p);
      assert forall n :: n in ns <==> n == ns[0] || n in ns[1..];
    }
  }

  lemma {:induction false} ForeignPointsSpec(h: Hex, team: Team, all: seq<Tile>, p: BorderPoint)
    ensures p in ForeignPoints(h, team, all) <==>
      exists u :: u in all && u.coordinate in Neighbours(h) && u.team != team && p == Midpoint(u.coordinate, h)
  {
    if all != [] {
      ForeignPointsSpec(h, team, all[1..], p);
      assert forall u :: u in all <==> u == all[0] || u in all[1..];
    }
  }

  lemma {:induction false} PointsFromSpec(todo: seq<Tile>, team: Team, all: seq<Tile>, p: BorderPoint)
    ensures p in PointsFrom(todo, team, all) <==>
      exists t :: t in todo && t.team == team && p in TilePoints(t, team, all)
  {
    if todo != [] {
      PointsFromSpec(todo[1..], team, all, p);
      assert forall t :: t in todo <==> t == todo[0] || t in todo[1..];
    }
  }

  /** Every generated point is the midpoint of a border edge of `team`. */
  lemma BorderPointSound(tiles: seq<Tile>, team: Team, p: BorderPoint)
    requires p in BorderPoints(tiles, team)
    ensures exists t, n :: BorderEdge(tiles, team, t, n) && p == Midpoint(t.coordinate, n)
  {
    PointsFromSpec(tiles, team, tiles, p);
    var t :| t in tiles && t.team == team && p in TilePoints(t, team, tiles);
    var h := t.coordinate;
    OffBoardPointsSpec(h, Neighbours(h), p);
    ForeignPointsSpec(h, team, tiles, p);
    if p in OffBoardPoints(h, Neighbours(h)) {
      var n :| n in Neighbours(h) && !InRange(n, HEX_RADIUS) && p == Midpoint(n, h);
      assert BorderEdge(tiles, team, t, n);
    } else {
      var u :| u in tiles && u.coordinate in Neighbours(h) && u.team != team && p == Midpoint(u.coordinate, h);
      assert BorderEdge(tiles, team, t, u.coordinate);
    }
  }

  /** Every border edge of `team` yields its midpoint. */
  lemma BorderEdgeComplete(tiles: seq<Tile>, team: Team, t: Tile, n: Hex)
    requires BorderEdge(tiles, team, t, n)
    ensures Midpoint(t.coordinate, n) in BorderPoints(tiles, team)
  {
    var p := Midpoint(t.coordinate, n);
    var h := t.coordinate;
    PointsFromSpec(tiles, team, tiles, p);
    OffBoardPointsSpec(h, Neighbours(h), p);
    ForeignPointsSpec(h, team, tiles, p);
    if InRange(n, HEX_RADIUS) {
      var u :| u in tiles && u.coordinate == n && u.team != team;
      assert p == Midpoint(u.coordinate, h);
    } else {
      assert p == Midpoint(n, h);
    }
  }

  /**
   * The generated points are exactly the midpoints of the border edges of
   * `team`; an edge between two tiles of the team is never the reason for
   * a point.
   */
  lemma BorderPointsExact(tiles: seq<Tile>, team: Team, p: BorderPoint)
    ensures p in BorderPoints(tiles, team) <==>
      exists t, n :: BorderEdge(tiles, team, t, n) && p == Midpoint(t.coordinate, n)
  {
    if p in BorderPoints(tiles, team) {
      BorderPointSound(tiles, team, p);
    }
    if exists t, n :: BorderEdge(tiles, team, t, n) && p == Midpoint(t.coordinate, n) {
      var t, n :| BorderEdge(tiles, team, t, n) && p == Midpoint(t.coordinate, n);
      BorderEdgeComplete(tiles, team, t, n);
    }
  }

  /** An edge midpoint determines the edge: adjacent pairs with equal coordinate sums are the same pair. */
  lemma MidpointDeterminesEdge(a: Hex, b: Hex, c: Hex, d: Hex)
    requires Adjacent(a, b) && Adjacent(c, d)
    requires Midpoint(a, b) == Midpoint(c, d)
    ensures (a == c && b == d) || (a == d && b == c)
  {
  }

  /**
   * On a full board, the edge between two adjacent tiles of the same team
   * contributes no point.
   */
  lemma SameTeamEdgeSilent(tiles: seq<Tile>, team: Team, t: Tile, u: Tile)
    requires FullBoard(tiles)
    requires t in tiles && u in tiles && t.team == team && u.team == team
    requires Adjacent(t.coordinate, u.coordinate)
    ensures Midpoint(t.coordinate, u.coordinate) !in BorderPoints(tiles, team)
  {
    var p := Midpoint(t.coordinate, u.coordinate);
    if p in BorderPoints(tiles, team) {
      BorderPointSound(tiles, team, p);
      var t', n :| BorderEdge(tiles, team, t', n) && p == Midpoint(t'.coordinate, n);
      MidpointDeterminesEdge(t.coordinate, u.coordinate, t'.coordinate, n);
      // the far side `n` is a board coordinate held by a same-team tile
      var same := if n == u.coordinate then u else t;
      assert same.coordinate == n && same.team == team;
      TileAtCoordinate(tiles, same);
      assert false;
    }
  }
}
