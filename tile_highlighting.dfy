/**
 * The tile highlighting systems (src/tile_highlighting/systems.rs): the
 * colour material of each hex tile is reset, strengthened under the
 * cursor, or strengthened / weakened around the selected unit; purpose
 * overlays (a move or attack marker on a hex) are spawned, tinted and
 * despawned.
 *
 * A tile's material is one of the three handles the tile itself hands
 * out (`base_color`, `weak_highlight`, `strong_highlight`); which colour
 * each handle holds is not modelled, only which of the three a tile
 * carries. Colours of overlays are buckets: the unused-action or the
 * used-action colour of a palette.
 */
module TileHighlighting {
  import opened Wrappers
  import opened HexGrid
  import opened Board

  datatype Action = Move | Attack

  /**
   * The selected unit as the systems see it: its team, the actions it
   * still has this turn, and the hexes `relative_move_hexes` and
   * `relative_attack_hexes` report (taken as given).
   */
  datatype Unit = Unit(team: Team, actions: seq<Action>, moveHexes: seq<Hex>, attackHexes: seq<Hex>)

  type Entity = nat

  /** The `SelectedUnit` resource and the units the `Query<&Unit>` can resolve. */
  datatype Selection = Selection(selected: Option<Entity>, units: map<Entity, Unit>)

  /** The unit the systems act on: none when nothing is selected or the entity has no unit any more. */
  function SelectedUnit(sel: Selection): (u: Option<Unit>)
    ensures u.Some? <==> sel.selected.Some? && sel.selected.value in sel.units
    ensures u.Some? ==> u.value == sel.units[sel.selected.value]
  {
    match sel.selected
    case None => None
    case Some(e) => if e in sel.units then Some(sel.units[e]) else None
  }

  datatype Shade = BaseShade | WeakShade | StrongShade

  /** The colour handle a tile carries: one of the three its tile hands out. */
  datatype Material = Material(shade: Shade, tile: Tile)

  /** `remove_tile_highlights`: every tile goes back to its base colour. */
  method RemoveTileHighlights(tiles: seq<Tile>, materials: array<Material>)
    requires materials.Length == |tiles|
    modifies materials
    ensures forall i :: 0 <= i < |tiles| ==> materials[i] == Material(BaseShade, tiles[i])
  {
    for i := 0 to |tiles|
      invariant forall j :: 0 <= j < i ==> materials[j] == Material(BaseShade, tiles[j])
    {
      materials[i] := Material(BaseShade, tiles[i]);
    }
  }

  /** Tile `i` is the first tile at coordinate `h`. */
  ghost predicate FirstAt(tiles: seq<Tile>, h: Hex, i: int)
  {
    && 0 <= i < |tiles| && tiles[i].coordinate == h
    && forall j :: 0 <= j < i ==> tiles[j].coordinate != h
  }

  /** The `find` over the tile query: the first tile at coordinate `h`, if any. */
  method FindTile(tiles: seq<Tile>, h: Hex) returns (found: Option<nat>)
    ensures found.Some? ==> FirstAt(tiles, h, found.value)
    ensures found.None? <==> forall j :: 0 <= j < |tiles| ==> tiles[j].coordinate != h
  {
    for i := 0 to |tiles|
      invariant forall j :: 0 <= j < i ==> tiles[j].coordinate != h
    {
      if tiles[i].coordinate == h {
        return Some(i);
      }
    }
    return None;
  }

  /** With one tile per coordinate, the first tile at `h` is the only tile at `h`. */
  lemma FirstAtUnique(tiles: seq<Tile>, h: Hex, i: int)
    requires UniqueCoordinates(tiles) && 0 <= i < |tiles|
    ensures FirstAt(tiles, h, i) <==> tiles[i].coordinate == h
  {
    if tiles[i].coordinate == h {
      forall j | 0 <= j < i
        ensures tiles[j].coordinate != h
      {
        assert tiles[j].coordinate != tiles[i].coordinate;
      }
    }
  }

  /**
   * `highlight_hovered_hex`: the tile under the cursor, if there is one,
   * gets its strong highlight; no other tile changes. The hovered hex is
   * what `cursor_to_hex` reports, taken as given.
   */
  method HighlightHoveredHex(tiles: seq<Tile>, materials: array<Material>, hovered: Option<Hex>)
    requires materials.Length == |tiles|
    modifies materials
    ensures hovered.None? ==> materials[..] == old(materials[..])
    ensures hovered.Some? ==> forall i :: 0 <= i < |tiles| ==>
      materials[i] == if FirstAt(tiles, hovered.value, i) then Material(StrongShade, tiles[i]) else old(materials[i])
  {
    if hovered.None? {
      return;
    }
    var found := FindTile(tiles, hovered.value);
    if found.Some? {
      materials[found.value] := Material(StrongShade, tiles[found.value]);
    }
  }

  /** `h` is a hex of an action the unit still has. */
  ghost predicate StrongTarget(unit: Unit, h: Hex)
  {
    (Attack in unit.actions && h in unit.attackHexes) || (Move in unit.actions && h in unit.moveHexes)
  }

  /** `h` is a hex of an action the unit has already used. */
  ghost predicate WeakTarget(unit: Unit, h: Hex)
  {
    (Attack !in unit.actions && h in unit.attackHexes) || (Move !in unit.actions && h in unit.moveHexes)
  }

  /**
   * The strong and weak highlight lists of `highlight_unit_hex`: the
   * attack hexes, then the move hexes, each appended to the strong list
   * when the unit still has that action and to the weak list otherwise.
   */
  method HighlightLists(unit: Unit) returns (strong: seq<Hex>, weak: seq<Hex>)
    ensures forall h :: h in strong <==> StrongTarget(unit, h)
    ensures forall h :: h in weak <==> WeakTarget(unit, h)
    ensures |strong| + |weak| == |unit.attackHexes| + |unit.moveHexes|
  {
    strong := [];
    weak := [];
    if Attack in unit.actions {
      strong := strong + unit.attackHexes;
    } else {
      weak := weak + unit.attackHexes;
    }
    if Move in unit.actions {
      strong := strong + unit.moveHexes;
    } else {
      weak := weak + unit.moveHexes;
    }
  }

  /** The material `highlight_unit_hex` leaves on `tile`: strong wins over weak, otherwise untouched. */
  ghost function UnitHighlight(unit: Unit, tile: Tile, m: Material): (r: Material)
    ensures r != m ==> r.tile == tile && (StrongTarget(unit, tile.coordinate) || WeakTarget(unit, tile.coordinate))
    ensures StrongTarget(unit, tile.coordinate) ==> r.shade == StrongShade
    ensures r != m && r.shade == WeakShade ==> !StrongTarget(unit, tile.coordinate)
  {
    if StrongTarget(unit, tile.coordinate) then Material(StrongShade, tile)
    else if WeakTarget(unit, tile.coordinate) then Material(WeakShade, tile)
    else m
  }

  /**
   * `highlight_unit_hex`: around the selected unit, tiles it can still
   * reach with an action get their strong highlight and tiles of used
   * actions their weak one; without a resolvable selected unit nothing
   * changes.
   */
  method HighlightUnitHex(sel: Selection, tiles: seq<Tile>, materials: array<Material>)
    requires materials.Length == |tiles|
    modifies materials
    ensures SelectedUnit(sel).None? ==> materials[..] == old(materials[..])
    ensures SelectedUnit(sel).Some? ==> forall i :: 0 <= i < |tiles| ==>
      materials[i] == UnitHighlight(SelectedUnit(sel).value, tiles[i], old(materials[i]))
  {
    var selected := SelectedUnit(sel);
    if selected.None? {
      return;
    }
    var unit := selected.value;
    var strong, weak := HighlightLists(unit);
    for i := 0 to |tiles|
      invariant forall j :: 0 <= j < i ==> materials[j] == UnitHighlight(unit, tiles[j], old(materials[j]))
      invariant forall j :: i <= j < |tiles| ==> materials[j] == old(materials[j])
    {
      if tiles[i].coordinate in strong {
        materials[i] := Material(StrongShade, tiles[i]);
        continue;
      }
      if tiles[i].coordinate in weak {
        materials[i] := Material(WeakShade, tiles[i]);
        continue;
      }
    }
  }

  /** Where an overlay sits on its hex: shifted by a third of `HEX_SIZE` to the left or right, or centred. */
  datatype Offset = Left | Centre | Right

  datatype Palette = AllyPalette | EnemyPalette

  /** An overlay's colour: the sprite default until tinted, then an unused- or used-action colour. */
  datatype Tint = DefaultTint | UnusedTint(palette: Palette) | UsedTint(palette: Palette)

  /** A `TilePurposeSprite` entity: the action it marks, its hex, its placement and its colour. */
  datatype Overlay = Overlay(purpose: Action, hex: Hex, offset: Offset, tint: Tint)

  /** `retain`: the entries of `s` that occur in `keep`, in order. */
  function Retain(s: seq<Hex>, keep: seq<Hex>): (r: seq<Hex>)
    ensures |r| <= |s|
    ensures forall h :: h in r <==> h in s && h in keep
  {
    if s == [] then []
    else (if s[0] in keep then [s[0]] else []) + Retain(s[1..], keep)
  }

  /** The hexes the unit can both move to and attack. */
  function Both(unit: Unit): seq<Hex>
  {
    Retain(unit.moveHexes, unit.attackHexes)
  }

  /** A hex in both lists has its move marker on the right and its attack marker on the left. */
  function Placement(purpose: Action, inBoth: bool): Offset
  {
    if !inBoth then Centre else if purpose == Move then Right else Left
  }

  /** The overlays spawned for the hexes `hs` of one action, skipping hexes off the board. */
  function Overlays(purpose: Action, hs: seq<Hex>, both: seq<Hex>): (r: seq<Overlay>)
    ensures |r| <= |hs|
  {
    if hs == [] then []
    else
      var h := hs[|hs| - 1];
      Overlays(purpose, hs[..|hs| - 1], both)
      + (if InRange(h, HEX_RADIUS) then [Overlay(purpose, h, Placement(purpose, h in both), DefaultTint)] else [])
  }

  /** One more entry of the list: its overlay, if any, comes last. */
  lemma OverlaysSnoc(purpose: Action, hs: seq<Hex>, both: seq<Hex>, i: nat)
    requires i < |hs|
    ensures Overlays(purpose, hs[..i + 1], both) == Overlays(purpose, hs[..i], both)
      + (if InRange(hs[i], HEX_RADIUS) then [Overlay(purpose, hs[i], Placement(purpose, hs[i] in both), DefaultTint)] else [])
  {
    assert hs[..i + 1][..i] == hs[..i];
  }

  /** Everything `spawn_tile_purpose_sprites` spawns for `unit`: move overlays, then attack overlays. */
  function PurposeOverlays(unit: Unit): (r: seq<Overlay>)
    ensures |r| <= |unit.moveHexes| + |unit.attackHexes|
  {
    Overlays(Move, unit.moveHexes, Both(unit)) + Overlays(Attack, unit.attackHexes, Both(unit))
  }

  /** The entries of `hs` on the board, in order. */
  function OnBoard(hs: seq<Hex>): seq<Hex>
  {
    if hs == [] then []
    else OnBoard(hs[..|hs| - 1]) + (if InRange(hs[|hs| - 1], HEX_RADIUS) then [hs[|hs| - 1]] else [])
  }

  function HexesOf(os: seq<Overlay>): seq<Hex>
  {
    seq(|os|, i requires 0 <= i < |os| => os[i].hex)
  }

  /**
   * One overlay per on-board entry of the list, in the list's order
   * (repeated entries give repeated overlays), each marking the list's
   * action with the default colour.
   */
  lemma {:induction false} OverlaysFollowList(purpose: Action, hs: seq<Hex>, both: seq<Hex>)
    ensures HexesOf(Overlays(purpose, hs, both)) == OnBoard(hs)
    ensures forall o :: o in Overlays(purpose, hs, both) ==> o.purpose == purpose && o.tint == DefaultTint
    decreases |hs|
  {
    if hs != [] {
      var init := hs[..|hs| - 1];
      OverlaysFollowList(purpose, init, both);
      var prev := Overlays(purpose, init, both);
      var h := hs[|hs| - 1];
      var tail := if InRange(h, HEX_RADIUS) then [Overlay(purpose, h, Placement(purpose, h in both), DefaultTint)] else [];
      assert HexesOf(prev + tail) == HexesOf(prev) + HexesOf(tail);
    }
  }

  /**
   * An overlay is spawned for a hex exactly when the hex is on the board
   * and in the list, and it sits where `Placement` puts it.
   */
  lemma {:induction false} OverlaysExact(purpose: Action, hs: seq<Hex>, both: seq<Hex>, o: Overlay)
    ensures o in Overlays(purpose, hs, both) <==>
      && o.purpose == purpose && o.hex in hs && InRange(o.hex, HEX_RADIUS)
      && o.offset == Placement(purpose, o.hex in both) && o.tint == DefaultTint
    decreases |hs|
  {
    if hs != [] {
      var init := hs[..|hs| - 1];
      OverlaysExact(purpose, init, both, o);
      assert hs == init + [hs[|hs| - 1]];
    }
  }

  /**
   * The move overlay of a hex in both lists is shifted right and its
   * attack overlay left; a hex in only one list is centred.
   */
  lemma PlacementRule(unit: Unit, o: Overlay)
    requires o in PurposeOverlays(unit)
    ensures o.offset == Right <==> o.purpose == Move && o.hex in unit.attackHexes
    ensures o.offset == Left <==> o.purpose == Attack && o.hex in unit.moveHexes
    ensures o.offset == Centre <==> !(o.hex in unit.moveHexes && o.hex in unit.attackHexes)
  {
    OverlaysExact(Move, unit.moveHexes, Both(unit), o);
    OverlaysExact(Attack, unit.attackHexes, Both(unit), o);
  }

  /** Exactly one overlay per on-board entry of the move list and of the attack list. */
  lemma PurposeOverlaysCount(unit: Unit)
    ensures |PurposeOverlays(unit)| == |OnBoard(unit.moveHexes)| + |OnBoard(unit.attackHexes)|
  {
    OverlaysFollowList(Move, unit.moveHexes, Both(unit));
    OverlaysFollowList(Attack, unit.attackHexes, Both(unit));
  }

  /** The palette of a team's overlays; a neutral unit falls back to the ally colours. */
  function PaletteOf(team: Team): (p: Palette)
    ensures p == EnemyPalette <==> team == Enemy
  {
    match team
    case Ally => AllyPalette
    case Enemy => EnemyPalette
    case _ => AllyPalette
  }

  /** The colour `color_tile_purpose_sprites` gives an overlay marking `purpose`. */
  function TintFor(unit: Unit, purpose: Action): (t: Tint)
    ensures t.UnusedTint? <==> purpose in unit.actions
    ensures t != DefaultTint && t.palette == PaletteOf(unit.team)
  {
    if purpose in unit.actions then UnusedTint(PaletteOf(unit.team)) else UsedTint(PaletteOf(unit.team))
  }

  /** The purpose overlays alive in the world. */
  class PurposeSpriteLayer {
    var sprites: seq<Overlay>

    constructor ()
      ensures sprites == []
    {
      sprites := [];
    }

    /**
     * `spawn_tile_purpose_sprites`: for the selected unit, a centred or
     * shifted marker on every on-board move hex, then on every on-board
     * attack hex; without a resolvable selected unit nothing is spawned.
     */
    method Spawn(sel: Selection)
      modifies this
      ensures SelectedUnit(sel).None? ==> sprites == old(sprites)
      ensures SelectedUnit(sel).Some? ==> sprites == old(sprites) + PurposeOverlays(SelectedUnit(sel).value)
    {
      var selected := SelectedUnit(sel);
      if selected.None? {
        return;
      }
      var unit := selected.value;
      var both := Both(unit);
      SpawnFor(Move, unit.moveHexes, both);
      SpawnFor(Attack, unit.attackHexes, both);
    }

    /**
     * One of the two loops of `spawn_tile_purpose_sprites`: a marker for
     * `purpose` on every on-board hex of `hs`, shifted when the hex is in
     * `both` (right for a move, left for an attack).
     */
    method SpawnFor(purpose: Action, hs: seq<Hex>, both: seq<Hex>)
      modifies this
      ensures sprites == old(sprites) + Overlays(purpose, hs, both)
    {
      for i := 0 to |hs|
        invariant sprites == old(sprites) + Overlays(purpose, hs[..i], both)
      {
        OverlaysSnoc(purpose, hs, both, i);
        var hex := hs[i];
        if !InRange(hex, HEX_RADIUS) {
          continue;
        }
        var offset := if hex !in both then Centre else if purpose == Move then Right else Left;
        sprites := sprites + [Overlay(purpose, hex, offset, DefaultTint)];
      }
      assert hs[..|hs|] == hs;
    }

    /** `despawn_tile_purpose_sprites`: every overlay is removed. */
    method Despawn()
      modifies this
      ensures sprites == []
    {
      sprites := [];
    }

    /**
     * `color_tile_purpose_sprites`: every overlay takes the unused-action
     * colour of the unit's palette when its action is still available,
     * the used-action colour otherwise; nothing else about an overlay
     * changes, and without a resolvable selected unit nothing changes.
     */
    method Color(sel: Selection)
      modifies this
      ensures SelectedUnit(sel).None? ==> sprites == old(sprites)
      ensures |sprites| == |old(sprites)|
      ensures SelectedUnit(sel).Some? ==> forall i :: 0 <= i < |sprites| ==>
        sprites[i] == old(sprites)[i].(tint := TintFor(SelectedUnit(sel).value, old(sprites)[i].purpose))
    {
      var selected := SelectedUnit(sel);
      if selected.None? {
        return;
      }
      var unit := selected.value;
      var unused := UnusedTint(PaletteOf(unit.team));
      var used := UsedTint(PaletteOf(unit.team));
      for i := 0 to |sprites|
        invariant |sprites| == |old(sprites)|
        invariant forall j :: 0 <= j < i ==> sprites[j] == old(sprites)[j].(tint := TintFor(unit, old(sprites)[j].purpose))
        invariant forall j :: i <= j < |sprites| ==> sprites[j] == old(sprites)[j]
      {
        if sprites[i].purpose in unit.actions {
          sprites := sprites[i := sprites[i].(tint := unused)];
        } else {
          sprites := sprites[i := sprites[i].(tint := used)];
        }
      }
    }
  }
}
