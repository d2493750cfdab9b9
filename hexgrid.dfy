/**
 * Axial hex coordinates and the bounded board they live on.
 *
 * The hexx library's `Hex` is a pair of axial integers; its `range`,
 * `all_neighbors` and layout are foreign code, so this module states what
 * the board code relies on: `Hex::ZERO.range(R)` is the disc of hex radius
 * `R` around the origin, and a hex has six neighbours at fixed axial offsets.
 */
module HexGrid {

  /** An axial coordinate `(q, r)`; the third cube axis is `-q - r`. */
  datatype Hex = Hex(q: int, r: int)

  /** Edge length of a drawn hexagon, in pixels (`HEX_SIZE`, an `f32` 40). */
  const HEX_SIZE: int := 40

  /** Radius of the playable disc (`HEX_RADIUS`). */
  const HEX_RADIUS: nat := 5

  function Abs(x: int): nat
  {
    if x < 0 then -x else x
  }

  /** Membership in `Hex::ZERO.range(radius)`: all three cube axes within `radius`. */
  predicate InRange(h: Hex, radius: nat)
  {
    Abs(h.q) <= radius && Abs(h.r) <= radius && Abs(h.q + h.r) <= radius
  }

  /** Two coordinates one grid step apart (hex distance 1). */
  predicate Adjacent(a: Hex, b: Hex)
  {
    Abs(b.q - a.q) + Abs(b.r - a.r) + Abs(b.q - a.q + b.r - a.r) == 2
  }

  /** The six neighbours, in a fixed counter-clockwise order starting east. */
  function Neighbours(h: Hex): (ns: seq<Hex>)
    ensures |ns| == 6
    ensures forall n :: n in ns <==> Adjacent(h, n)
  {
    [Hex(h.q + 1, h.r), Hex(h.q + 1, h.r - 1), Hex(h.q, h.r - 1),
     Hex(h.q - 1, h.r), Hex(h.q - 1, h.r + 1), Hex(h.q, h.r + 1)]
  }
}
