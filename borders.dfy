/**
 * `tile_border` as the imperative procedure it is, and `draw_borders`,
 * which turns each team's chains into border segments
 * (src/board/systems.rs). Both are proved against the functions of
 * modules `BorderScan`, `Deduplication` and `Stitching`.
 */
module Borders {
  import opened Wrappers
  import opened HexGrid
  import opened Board
  import opened BorderScan
  import opened Deduplication
  import opened Stitching

  /** The result `tile_border` computes for `team`. */
  function BorderOf(tiles: seq<Tile>, team: Team, dist: (BorderPoint, BorderPoint) -> nat): (r: Option<seq<seq<BorderPoint>>>)
    ensures r.None? <==> BorderPoints(tiles, team) == []
    ensures r.Some? ==> |r.value| < |BorderPoints(tiles, team)|
  {
    Stitch(dist, Dedup(BorderPoints(tiles, team)))
  }

  /**
   * The scan over `unsorted_points` for the point nearest to `current`,
   * keeping the first one on ties, and the distance it found.
   */
  method NearestRemaining<P>(dist: (P, P) -> nat, current: P, unsorted: seq<P>) returns (index: nat, distance: int)
    requires unsorted != []
    ensures index == Nearest(dist, current, unsorted)
    ensures distance == StepDistance(dist, current, unsorted[index])
  {
    distance := I32_MAX;
    index := 0;
    for i := 0 to |unsorted|
      invariant index < |unsorted| && (i > 0 ==> index < i)
      invariant distance == if i == 0 then I32_MAX else StepDistance(dist, current, unsorted[index])
      invariant forall j :: 0 <= j < i ==> distance <= StepDistance(dist, current, unsorted[j])
      invariant forall j :: 0 <= j < index ==> distance < StepDistance(dist, current, unsorted[j])
    {
      var d := StepDistance(dist, current, unsorted[i]);
      if d < distance {
        index := i;
        distance := d;
      }
    }
    NearestUnique(dist, current, unsorted, index);
  }

  /** The chains still to be built from `current` through `unsorted`. */
  ghost function Pending<P>(dist: (P, P) -> nat, current: P, unsorted: seq<P>): seq<seq<P>>
  {
    if unsorted == [] then [] else Chains(dist, current, [], unsorted)
  }

  /**
   * One turn of the inner loop of `tile_border`: the point nearest to
   * `cur` is taken out of `rest`; the chain ends when `rest` runs out
   * (the last point is kept) or when the step was long.
   */
  lemma ChainsStep<P>(dist: (P, P) -> nat, cur: P, acc: seq<P>, rest: seq<P>, k: nat)
    requires rest != [] && k == Nearest(dist, cur, rest)
    ensures var rest' := RemoveAt(rest, k);
            var acc' := if rest' == [] then acc + [cur] + [rest[k]] else acc + [cur];
            if rest' == [] || StepDistance(dist, cur, rest[k]) >= HEX_SIZE
            then Chains(dist, cur, acc, rest) == [Close(acc')] + Pending(dist, rest[k], rest')
            else Chains(dist, cur, acc, rest) == Chains(dist, rest[k], acc', rest')
  {
    assert acc + [cur, rest[k]] == acc + [cur] + [rest[k]];
  }

  lemma AppendAfterSeed<T>(groups: seq<T>, g: T, tail: seq<T>)
    requires groups != []
    ensures (groups + [g])[1..] + tail == groups[1..] + ([g] + tail)
  {
    assert (groups + [g])[1..] == groups[1..] + [g];
  }

  /**
   * `tile_border`: collect and deduplicate the border points of `team`,
   * then stitch them into closed chains, nearest point first.
   */
  method TileBorder(tiles: seq<Tile>, team: Team, dist: (BorderPoint, BorderPoint) -> nat)
    returns (border: Option<seq<seq<BorderPoint>>>)
    ensures border == BorderOf(tiles, team, dist)
  {
    var unsorted := Dedup(BorderPoints(tiles, team));
    if unsorted == [] {
      return None;
    }
    ghost var pts := unsorted;
    ghost var expected := Stitch(dist, pts).value;
    assert expected == Pending(dist, pts[0], pts[1..]);
    var first := unsorted[0];
    unsorted := RemoveAt(unsorted, 0);
    assert unsorted == pts[1..];
    var groups := [[first]];
    var current := first;
    assert groups[1..] == [];
    while unsorted != []
      invariant groups != []
      invariant groups[1..] + Pending(dist, current, unsorted) == expected
      decreases |unsorted|
    {
      var points := [];
      while true
        invariant unsorted != []
        invariant groups[1..] + Chains(dist, current, points, unsorted) == expected
        decreases |unsorted|
      {
        var index, distance := NearestRemaining(dist, current, unsorted);
        ChainsStep(dist, current, points, unsorted, index);
        points := points + [current];
        current := unsorted[index];
        unsorted := RemoveAt(unsorted, index);
        if unsorted == [] {
          points := points + [current];
        }
        if distance >= HEX_SIZE || unsorted == [] {
          assert groups[1..] + ([Close(points)] + Pending(dist, current, unsorted)) == expected;
          break;
        }
      }
      // the `?` on `points.first()` cannot fire: the chain holds at least one point
      ghost var closed := Close(points);
      points := points + [points[0]];
      assert points == closed;
      AppendAfterSeed(groups, points, Pending(dist, current, unsorted));
      groups := groups + [points];
    }
    assert groups[1..] == expected;
    assert BorderOf(tiles, team, dist) == Stitch(dist, pts);
    border := Some(groups[1..]);
  }

  /** A border rectangle: the segment between consecutive chain points, in a team's colour. */
  datatype Segment = Segment(team: Team, from: BorderPoint, to: BorderPoint)

  /** What `draw_borders` leaves behind: the border entities, or the panic of `point_group[0][1]`. */
  datatype Drawing = Drawn(segments: seq<Segment>) | IndexPanic

  /** `points.windows(2)`: every pair of consecutive points. */
  function Windows<P>(c: seq<P>): (ws: seq<(P, P)>)
    ensures |ws| == if |c| < 2 then 0 else |c| - 1
    ensures forall j :: 0 <= j < |ws| ==> ws[j] == (c[j], c[j + 1])
  {
    if |c| < 2 then [] else seq(|c| - 1, j requires 0 <= j < |c| - 1 => (c[j], c[j + 1]))
  }

  /** One segment per window of a chain, in the chain's order. */
  function ChainSegments(team: Team, c: seq<BorderPoint>): (segs: seq<Segment>)
    ensures |segs| == |Windows(c)|
  {
    var ws := Windows(c);
    seq(|ws|, j requires 0 <= j < |ws| => Segment(team, ws[j].0, ws[j].1))
  }

  function GroupSegments(team: Team, cs: seq<seq<BorderPoint>>): seq<Segment>
  {
    if cs == [] then [] else GroupSegments(team, cs[..|cs| - 1]) + ChainSegments(team, cs[|cs| - 1])
  }

  /** The segments drawn for one team's border: none when the team has no border. */
  function TeamSegments(team: Team, border: Option<seq<seq<BorderPoint>>>): seq<Segment>
  {
    match border
    case None => []
    case Some(cs) => GroupSegments(team, cs)
  }

  /**
   * The drawing for one team, given its border: a team without a border
   * is skipped, and a drawing only goes ahead when `point_group[0][1]`
   * exists.
   */
  function TeamDrawing(team: Team, border: Option<seq<seq<BorderPoint>>>): (d: Drawing)
    ensures border.None? ==> d == Drawn([])
    ensures d.Drawn? && border.Some? ==> border.value != [] && |border.value[0]| >= 2
  {
    if border.Some? && (border.value == [] || |border.value[0]| < 2) then IndexPanic
    else Drawn(TeamSegments(team, border))
  }

  /** The drawing for the teams `ts`, in order, given each team's border. */
  function DrawTeams(border: Team -> Option<seq<seq<BorderPoint>>>, ts: seq<Team>): Drawing
  {
    if ts == [] then Drawn([])
    else
      var prev := DrawTeams(border, ts[..|ts| - 1]);
      var last := TeamDrawing(ts[|ts| - 1], border(ts[|ts| - 1]));
      if prev.IndexPanic? || last.IndexPanic? then IndexPanic else Drawn(prev.segments + last.segments)
  }

  /** Every team's border as `tile_border` computes it on `tiles`. */
  function BorderTable(tiles: seq<Tile>, dist: (BorderPoint, BorderPoint) -> nat): Team -> Option<seq<seq<BorderPoint>>>
  {
    team => BorderOf(tiles, team, dist)
  }

  const BorderTeams: seq<Team> := [Ally, Enemy]

  /** What `draw_borders` draws on `tiles`: the ally border, then the enemy border. */
  function Draw(tiles: seq<Tile>, dist: (BorderPoint, BorderPoint) -> nat): Drawing
  {
    DrawTeams(BorderTable(tiles, dist), BorderTeams)
  }

  lemma GroupSegmentsSnoc(team: Team, cs: seq<seq<BorderPoint>>, g: nat)
    requires g < |cs|
    ensures GroupSegments(team, cs[..g + 1]) == GroupSegments(team, cs[..g]) + ChainSegments(team, cs[g])
  {
    assert cs[..g + 1][..g] == cs[..g];
  }

  lemma DrawTeamsSnoc(border: Team -> Option<seq<seq<BorderPoint>>>, ts: seq<Team>, t: nat)
    requires t < |ts|
    ensures var prev := DrawTeams(border, ts[..t]);
            var last := TeamDrawing(ts[t], border(ts[t]));
            DrawTeams(border, ts[..t + 1]) == if prev.IndexPanic? || last.IndexPanic? then IndexPanic else Drawn(prev.segments + last.segments)
  {
    assert ts[..t + 1][..t] == ts[..t];
  }

  /** The drawing for several teams panics exactly when one of theirs does. */
  lemma {:induction false} DrawTeamsPanics(border: Team -> Option<seq<seq<BorderPoint>>>, ts: seq<Team>)
    ensures DrawTeams(border, ts).IndexPanic? <==> exists t :: t in ts && TeamDrawing(t, border(t)).IndexPanic?
    decreases |ts|
  {
    if ts != [] {
      var init := ts[..|ts| - 1];
      DrawTeamsPanics(border, init);
      assert ts == init + [ts[|ts| - 1]];
    }
  }

  /**
   * `draw_borders` panics exactly when the ally or the enemy border has
   * no chain or a first chain of fewer than two points.
   */
  lemma DrawPanics(tiles: seq<Tile>, dist: (BorderPoint, BorderPoint) -> nat)
    ensures Draw(tiles, dist).IndexPanic? <==>
      TeamDrawing(Ally, BorderOf(tiles, Ally, dist)).IndexPanic? || TeamDrawing(Enemy, BorderOf(tiles, Enemy, dist)).IndexPanic?
  {
    var table := BorderTable(tiles, dist);
    AllyOrEnemyPanics(table);
    assert table(Ally) == BorderOf(tiles, Ally, dist) && table(Enemy) == BorderOf(tiles, Enemy, dist);
  }

  lemma AllyOrEnemyPanics(border: Team -> Option<seq<seq<BorderPoint>>>)
    ensures DrawTeams(border, BorderTeams).IndexPanic? <==>
      TeamDrawing(Ally, border(Ally)).IndexPanic? || TeamDrawing(Enemy, border(Enemy)).IndexPanic?
  {
    DrawTeamsPanics(border, BorderTeams);
    assert forall t :: t in BorderTeams <==> t == Ally || t == Enemy;
  }

  /** Once one team's drawing panics, so does the whole drawing. */
  lemma {:induction false} DrawTeamsPanicSticks(border: Team -> Option<seq<seq<BorderPoint>>>, ts: seq<Team>, n: nat)
    requires n <= |ts| && DrawTeams(border, ts[..n]).IndexPanic?
    ensures DrawTeams(border, ts).IndexPanic?
    decreases |ts| - n
  {
    if n < |ts| {
      DrawTeamsSnoc(border, ts, n);
      DrawTeamsPanicSticks(border, ts, n + 1);
    } else {
      assert ts[..n] == ts;
    }
  }

  lemma ChainSegmentsPrefix(team: Team, c: seq<BorderPoint>, w: nat)
    requires w <= |Windows(c)|
    ensures w == |Windows(c)| ==> ChainSegments(team, c)[..w] == ChainSegments(team, c)
    ensures w < |Windows(c)| ==>
      ChainSegments(team, c)[..w + 1] == ChainSegments(team, c)[..w] + [Segment(team, Windows(c)[w].0, Windows(c)[w].1)]
  {
    var segs := ChainSegments(team, c);
    if w < |Windows(c)| {
      assert segs[..w + 1] == segs[..w] + [segs[w]];
    }
  }

  /** The spawning loops of `draw_borders` for one team: a segment per window of every chain. */
  method SpawnChainSegments(team: Team, groups: seq<seq<BorderPoint>>) returns (segments: seq<Segment>)
    ensures segments == GroupSegments(team, groups)
  {
    segments := [];
    for g := 0 to |groups|
      invariant segments == GroupSegments(team, groups[..g])
    {
      var points := groups[g];
      GroupSegmentsSnoc(team, groups, g);
      ghost var mid := segments;
      var windows := Windows(points);
      for w := 0 to |windows|
        invariant segments == mid + ChainSegments(team, points)[..w]
      {
        ChainSegmentsPrefix(team, points, w);
        segments := segments + [Segment(team, windows[w].0, windows[w].1)];
      }
      ChainSegmentsPrefix(team, points, |windows|);
    }
    assert groups[..|groups|] == groups;
  }

  /**
   * `draw_borders`: the previous border entities are despawned and one
   * segment is spawned per pair of consecutive points of every chain of
   * the ally border, then of the enemy border.
   */
  method DrawBorders(tiles: seq<Tile>, dist: (BorderPoint, BorderPoint) -> nat) returns (drawing: Drawing)
    ensures drawing == Draw(tiles, dist)
  {
    ghost var table := BorderTable(tiles, dist);
    var segments := [];
    for t := 0 to |BorderTeams|
      invariant DrawTeams(table, BorderTeams[..t]) == Drawn(segments)
    {
      var team := BorderTeams[t];
      DrawTeamsSnoc(table, BorderTeams, t);
      var border := TileBorder(tiles, team, dist);
      assert border == table(team);
      if border.None? {
        continue;
      }
      var groups := border.value;
      if groups == [] || |groups[0]| < 2 {
        DrawTeamsPanicSticks(table, BorderTeams, t + 1);
        return IndexPanic;
      }
      var spawned := SpawnChainSegments(team, groups);
      segments := segments + spawned;
    }
    assert BorderTeams[..|BorderTeams|] == BorderTeams;
    drawing := Drawn(segments);
  }

  /** `seg` joins two consecutive points of chain `c`, in the colour of `team`. */
  ghost predicate Consecutive(team: Team, c: seq<BorderPoint>, seg: Segment)
  {
    exists j :: 0 <= j < |c| - 1 && seg == Segment(team, c[j], c[j + 1])
  }

  ghost predicate OnChains(team: Team, cs: seq<seq<BorderPoint>>, seg: Segment)
  {
    exists i :: 0 <= i < |cs| && Consecutive(team, cs[i], seg)
  }

  lemma ChainSegmentsExact(team: Team, c: seq<BorderPoint>, seg: Segment)
    ensures seg in ChainSegments(team, c) <==> Consecutive(team, c, seg)
  {
    if Consecutive(team, c, seg) {
      var j :| 0 <= j < |c| - 1 && seg == Segment(team, c[j], c[j + 1]);
      assert ChainSegments(team, c)[j] == seg;
    }
  }

  lemma OnChainsSnoc(team: Team, cs: seq<seq<BorderPoint>>, seg: Segment)
    requires cs != []
    ensures OnChains(team, cs, seg) <==> OnChains(team, cs[..|cs| - 1], seg) || Consecutive(team, cs[|cs| - 1], seg)
  {
    var init := cs[..|cs| - 1];
    if OnChains(team, cs, seg) {
      var i :| 0 <= i < |cs| && Consecutive(team, cs[i], seg);
      if i < |init| {
        assert init[i] == cs[i];
      }
    }
    if OnChains(team, init, seg) {
      var i :| 0 <= i < |init| && Consecutive(team, init[i], seg);
      assert cs[i] == init[i];
    }
  }

  /** The segments of a group of chains are exactly the consecutive pairs of its chains. */
  lemma {:induction false} GroupSegmentsExact(team: Team, cs: seq<seq<BorderPoint>>, seg: Segment)
    ensures seg in GroupSegments(team, cs) <==> OnChains(team, cs, seg)
    decreases |cs|
  {
    if cs != [] {
      var init := cs[..|cs| - 1];
      var last := cs[|cs| - 1];
      assert GroupSegments(team, cs) == GroupSegments(team, init) + ChainSegments(team, last);
      GroupSegmentsExact(team, init, seg);
      ChainSegmentsExact(team, last, seg);
      OnChainsSnoc(team, cs, seg);
    }
  }

  /** The drawing of the ally border followed by the enemy border. */
  lemma DrawnBothTeams(border: Team -> Option<seq<seq<BorderPoint>>>)
    requires DrawTeams(border, BorderTeams).Drawn?
    ensures DrawTeams(border, BorderTeams).segments ==
      TeamSegments(Ally, border(Ally)) + TeamSegments(Enemy, border(Enemy))
  {
    var ts := BorderTeams;
    assert ts[..0] == [] && ts[..2] == ts;
    DrawTeamsSnoc(border, ts, 0);
    var first := DrawTeams(border, ts[..1]);
    DrawTeamsSnoc(border, ts, 1);
    assert first.Drawn?;
    assert first.segments == TeamSegments(Ally, border(Ally));
  }

  /**
   * A drawing that does not panic holds exactly the segments between
   * consecutive points of the ally and enemy chains, each in the colour
   * of the team whose border it is; no neutral border is drawn.
   */
  lemma DrawnSegmentsExact(tiles: seq<Tile>, dist: (BorderPoint, BorderPoint) -> nat, seg: Segment)
    requires Draw(tiles, dist).Drawn?
    ensures seg in Draw(tiles, dist).segments <==>
      && (seg.team == Ally || seg.team == Enemy)
      && BorderOf(tiles, seg.team, dist).Some?
      && OnChains(seg.team, BorderOf(tiles, seg.team, dist).value, seg)
  {
    var table := BorderTable(tiles, dist);
    DrawnBothTeams(table);
    var ally := table(Ally);
    var enemy := table(Enemy);
    if ally.Some? {
      GroupSegmentsExact(Ally, ally.value, seg);
    }
    if enemy.Some? {
      GroupSegmentsExact(Enemy, enemy.value, seg);
    }
  }

  /** The team's tile furthest along the q axis. */
  lemma {:induction false} EasternmostTile(tiles: seq<Tile>, team: Team) returns (t: Tile)
    requires exists u :: u in tiles && u.team == team
    ensures t in tiles && t.team == team
    ensures forall u :: u in tiles && u.team == team ==> u.coordinate.q <= t.coordinate.q
    decreases |tiles|
  {
    var init := tiles[..|tiles| - 1];
    var last := tiles[|tiles| - 1];
    assert tiles == init + [last];
    if exists u :: u in init && u.team == team {
      var best := EasternmostTile(init, team);
      if last.team == team && last.coordinate.q > best.coordinate.q {
        t := last;
      } else {
        t := best;
      }
    } else {
      t := last;
    }
  }

  /** The edge from `t` towards a neighbour east of every tile of its team is a border edge. */
  lemma EastEdgeOnBorder(tiles: seq<Tile>, team: Team, t: Tile, n: Hex)
    requires FullBoard(tiles) && t in tiles && t.team == team
    requires forall u :: u in tiles && u.team == team ==> u.coordinate.q <= t.coordinate.q
    requires n in Neighbours(t.coordinate) && n.q == t.coordinate.q + 1
    ensures Midpoint(t.coordinate, n) in BorderPoints(tiles, team)
  {
    if InRange(n, HEX_RADIUS) {
      assert n in Coordinates(tiles);
      var i :| 0 <= i < |tiles| && Coordinates(tiles)[i] == n;
      assert tiles[i] in tiles && tiles[i].coordinate == n && tiles[i].team != team;
    }
    BorderEdgeComplete(tiles, team, t, n);
  }

  /** On a full board, a team that owns a tile has at least two distinct border points. */
  lemma OwnedTilesGiveTwoPoints(tiles: seq<Tile>, team: Team)
    requires FullBoard(tiles)
    requires exists t :: t in tiles && t.team == team
    ensures |Dedup(BorderPoints(tiles, team))| >= 2
  {
    var t := EasternmostTile(tiles, team);
    var h := t.coordinate;
    EastEdgeOnBorder(tiles, team, t, Hex(h.q + 1, h.r));
    EastEdgeOnBorder(tiles, team, t, Hex(h.q + 1, h.r - 1));
    DedupTwoValues(BorderPoints(tiles, team), Midpoint(h, Hex(h.q + 1, h.r)), Midpoint(h, Hex(h.q + 1, h.r - 1)));
  }

  /**
   * On a board as `build_board` makes it, a team has a border exactly
   * when it owns a tile, and then its first chain has at least two
   * points, so `point_group[0][1]` in `draw_borders` is in bounds.
   */
  lemma FullBoardBorder(tiles: seq<Tile>, team: Team, dist: (BorderPoint, BorderPoint) -> nat)
    requires FullBoard(tiles)
    ensures BorderOf(tiles, team, dist).None? <==> forall t :: t in tiles ==> t.team != team
    ensures BorderOf(tiles, team, dist).Some? ==>
      var cs := BorderOf(tiles, team, dist).value;
      cs != [] && |cs[0]| >= 2
  {
    var pts := Dedup(BorderPoints(tiles, team));
    StitchShape(dist, pts);
    if !forall t :: t in tiles ==> t.team != team {
      OwnedTilesGiveTwoPoints(tiles, team);
      var cs := Stitch(dist, pts).value;
      assert |cs[0]| >= 2;
    }
  }

  /** On a board as `build_board` makes it, `draw_borders` never indexes out of bounds. */
  lemma FullBoardNeverPanics(tiles: seq<Tile>, dist: (BorderPoint, BorderPoint) -> nat)
    requires FullBoard(tiles)
    ensures Draw(tiles, dist).Drawn?
  {
    FullBoardBorder(tiles, Ally, dist);
    FullBoardBorder(tiles, Enemy, dist);
    var table := BorderTable(tiles, dist);
    DrawTeamsSnoc(table, BorderTeams, 0);
    DrawTeamsSnoc(table, BorderTeams, 1);
    assert BorderTeams[..2] == BorderTeams;
  }
}
