/** Integer triples shared by the lattice, the neighbourhood table and the
    pattern catalogue. */
module Coords {

  /** A lattice coordinate: the `{ x, y, z }` objects of the source. Pattern
      entries use the same shape, relative to the centre of the lattice. */
  datatype Cell = Cell(x: int, y: int, z: int)

  /** A displacement: the `[dx, dy, dz]` arrays of the neighbourhood table. */
  datatype Offset = Offset(dx: int, dy: int, dz: int)

  function Translate(c: Cell, o: Offset): Cell
  {
    Cell(c.x + o.dx, c.y + o.dy, c.z + o.dz)
  }

  function Negate(o: Offset): Offset
  {
    Offset(-o.dx, -o.dy, -o.dz)
  }
}
