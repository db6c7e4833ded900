/** The catalogue of starting shapes, each a list of cells relative to the
    centre of the lattice, and its two accessors. */
module Patterns {
  import opened Coords
  import opened Wrappers
  import opened JsObject
  import opened Seqs
  import opened Grid3D

  const CubeCells: seq<Cell> := [
    Cell(0, 0, 0), Cell(1, 0, 0), Cell(0, 1, 0), Cell(1, 1, 0),
    Cell(0, 0, 1), Cell(1, 0, 1), Cell(0, 1, 1), Cell(1, 1, 1)]
  const CrossCells: seq<Cell> := [
    Cell(0, 0, 0), Cell(1, 0, 0), Cell(-1, 0, 0), Cell(0, 1, 0),
    Cell(0, -1, 0), Cell(0, 0, 1), Cell(0, 0, -1)]
  const Line3Cells: seq<Cell> := [Cell(-1, 0, 0), Cell(0, 0, 0), Cell(1, 0, 0)]
  const Line5Cells: seq<Cell> := [Cell(-2, 0, 0), Cell(-1, 0, 0), Cell(0, 0, 0), Cell(1, 0, 0), Cell(2, 0, 0)]
  const LShapeCells: seq<Cell> := [Cell(0, 0, 0), Cell(1, 0, 0), Cell(2, 0, 0), Cell(0, 1, 0), Cell(0, 0, 1)]
  const DiagonalCells: seq<Cell> := [Cell(-2, -2, -2), Cell(-1, -1, -1), Cell(0, 0, 0), Cell(1, 1, 1), Cell(2, 2, 2)]
  const ClusterCells: seq<Cell> := [
    Cell(0, 0, 0), Cell(1, 0, 0), Cell(0, 1, 0), Cell(1, 1, 0),
    Cell(0, 0, 1), Cell(1, 1, 1)]
  const RingCells: seq<Cell> := [
    Cell(0, -2, 0), Cell(1, -1, 0), Cell(2, 0, 0), Cell(1, 1, 0),
    Cell(0, 2, 0), Cell(-1, 1, 0), Cell(-2, 0, 0), Cell(-1, -1, 0)]
  const GliderSeedCells: seq<Cell> := [
    Cell(0, 0, 0), Cell(1, 0, 0), Cell(2, 0, 0), Cell(2, 1, 0),
    Cell(1, 2, 0), Cell(0, 0, 1), Cell(1, 0, 1)]
  const HollowCubeCells: seq<Cell> := [
    Cell(0, 0, 0), Cell(1, 0, 0), Cell(2, 0, 0),
    Cell(0, 1, 0), Cell(2, 1, 0),
    Cell(0, 2, 0), Cell(1, 2, 0), Cell(2, 2, 0),
    Cell(0, 0, 1), Cell(2, 0, 1),
    Cell(0, 2, 1), Cell(2, 2, 1),
    Cell(0, 0, 2), Cell(1, 0, 2), Cell(2, 0, 2),
    Cell(0, 1, 2), Cell(2, 1, 2),
    Cell(0, 2, 2), Cell(1, 2, 2), Cell(2, 2, 2)]

  /** `PATTERN_PRESETS`: each shape under its name, in declaration order. */
  const PatternPresets: seq<(string, seq<Cell>)> := [
    ("Cube 2x2x2", CubeCells), ("Cross", CrossCells), ("Line 3", Line3Cells),
    ("Line 5", Line5Cells), ("L Shape", LShapeCells), ("Diagonal", DiagonalCells),
    ("Cluster", ClusterCells), ("Ring", RingCells), ("Glider Seed", GliderSeedCells),
    ("Hollow Cube", HollowCubeCells)
  ]

  const PatternNames: seq<string> := [
    "Cube 2x2x2", "Cross", "Line 3", "Line 5", "L Shape",
    "Diagonal", "Cluster", "Ring", "Glider Seed", "Hollow Cube"
  ]

  /** `getPatternNames()`: the names in declaration order. */
  function GetPatternNames(): (names: seq<string>)
    ensures names == PatternNames
    ensures forall name :: name in names <==> Get(PatternPresets, name).Some?
  {
    PresetKeys();
    Keys(PatternPresets)
  }

  /** `getPattern(name)` with only the catalogue's own entries looked up: a
      catalogue name gives its cells, any other name the empty pattern. */
  function GetPattern(name: string): (pattern: seq<Cell>)
    ensures name in PatternNames ==> (name, pattern) in PatternPresets
    ensures name !in PatternNames ==> pattern == []
  {
    PresetKeys();
    match Get(PatternPresets, name)
    case Some(cells) => cells
    case None => []
  }

  /** What `PATTERN_PRESETS[name] || []` yields as the language defines it: a
      name inherited from `Object.prototype` gives a function or an object
      that is not a list of cells, and loading it fails. */
  datatype Fetched = Pattern(cells: seq<Cell>) | NotIterable

  function GetPatternAsWritten(name: string): Fetched {
    match GetProperty(PatternPresets, name)
    case Own(cells) => Pattern(cells)
    case Inherited => NotIterable
    case Absent => Pattern([])
  }

  /** The two readings agree except on the inherited names. */
  lemma GetPatternAgrees(name: string)
    requires name !in ObjectPrototypeNames
    ensures GetPatternAsWritten(name) == Pattern(GetPattern(name))
  {
  }

  /** As written, asking for "constructor" yields the `Object` function, which
      `loadPattern` cannot iterate. */
  lemma GetPatternAsWrittenInherited()
    ensures "constructor" !in GetPatternNames()
    ensures GetPatternAsWritten("constructor") == NotIterable
    ensures GetPattern("constructor") == []
  {
    assert "constructor" !in PatternNames;
    var names := GetPatternNames();
    assert "constructor" == ObjectPrototypeNames[0];
    var p := GetProperty(PatternPresets, "constructor");
    assert !p.Own? && !p.Absent?;
  }

  lemma PatternNamesDistinct()
    ensures DistinctKeys(PatternPresets)
  {
  }

  /** Every catalogue entry is found under its own name. */
  lemma GetPatternPreset(i: int)
    requires 0 <= i < |PatternPresets|
    ensures GetPattern(PatternPresets[i].0) == PatternPresets[i].1
  {
    PatternNamesDistinct();
    GetOwnProperty(PatternPresets, i);
  }

  lemma PresetKeys()
    ensures Keys(PatternPresets) == PatternNames
  {
    var keys := Keys(PatternPresets);
    assert |keys| == 10;
    assert keys[0] == PatternNames[0] && keys[1] == PatternNames[1] && keys[2] == PatternNames[2];
    assert keys[3] == PatternNames[3] && keys[4] == PatternNames[4] && keys[5] == PatternNames[5];
    assert keys[6] == PatternNames[6] && keys[7] == PatternNames[7] && keys[8] == PatternNames[8];
    assert keys[9] == PatternNames[9];
  }

  /** A loadable shape: non-empty, no repeated cell, and within two steps of
      the centre on every axis. */
  predicate WellShaped(cells: seq<Cell>) {
    |cells| > 0 && Distinct(cells) && WithinReach(cells, 2)
  }

  /** Every catalogue shape is well shaped. */
  lemma PatternShape(i: int)
    requires 0 <= i < |PatternPresets|
    ensures |PatternPresets[i].1| > 0
    ensures Distinct(PatternPresets[i].1)
    ensures WithinReach(PatternPresets[i].1, 2)
  {
    var cells := PatternPresets[i].1;
    if i == 0 { assert cells == CubeCells; CubeWellShaped(); }
    else if i == 1 { assert cells == CrossCells; CrossWellShaped(); }
    else if i == 2 { assert cells == Line3Cells; LinesWellShaped(); }
    else if i == 3 { assert cells == Line5Cells; LinesWellShaped(); }
    else if i == 4 { assert cells == LShapeCells; LShapeWellShaped(); }
    else if i == 5 { assert cells == DiagonalCells; DiagonalWellShaped(); }
    else if i == 6 { assert cells == ClusterCells; ClusterWellShaped(); }
    else if i == 7 { assert cells == RingCells; RingWellShaped(); }
    else if i == 8 { assert cells == GliderSeedCells; GliderSeedWellShaped(); }
    else { assert cells == HollowCubeCells; HollowCubeWellShaped(); }
  }

  lemma CubeWellShaped() ensures WellShaped(CubeCells) {
    IncreasingDistinct(CubeCells, Code);
    WithinReachByIndex(CubeCells, 2);
  }

  lemma CrossWellShaped() ensures WellShaped(CrossCells) {
    assert Distinct(CrossCells);
    WithinReachByIndex(CrossCells, 2);
  }

  lemma LinesWellShaped() ensures WellShaped(Line3Cells) && WellShaped(Line5Cells) {
    IncreasingDistinct(Line3Cells, Code);
    IncreasingDistinct(Line5Cells, Code);
    WithinReachByIndex(Line3Cells, 2);
    WithinReachByIndex(Line5Cells, 2);
  }

  lemma LShapeWellShaped() ensures WellShaped(LShapeCells) {
    assert Distinct(LShapeCells);
    WithinReachByIndex(LShapeCells, 2);
  }

  lemma DiagonalWellShaped() ensures WellShaped(DiagonalCells) {
    IncreasingDistinct(DiagonalCells, Code);
    WithinReachByIndex(DiagonalCells, 2);
  }

  lemma ClusterWellShaped() ensures WellShaped(ClusterCells) {
    IncreasingDistinct(ClusterCells, Code);
    WithinReachByIndex(ClusterCells, 2);
  }

  lemma RingWellShaped() ensures WellShaped(RingCells) {
    assert Distinct(RingCells);
    WithinReachByIndex(RingCells, 2);
  }

  lemma GliderSeedWellShaped() ensures WellShaped(GliderSeedCells) {
    assert Distinct(GliderSeedCells);
    WithinReachByIndex(GliderSeedCells, 2);
  }

  lemma HollowCubeWellShaped() ensures WellShaped(HollowCubeCells) {
    HollowCubeDistinct();
    HollowCubeWithin();
  }

  lemma HollowCubeDistinct() ensures Distinct(HollowCubeCells) {
    HollowCubeCodes();
    IncreasingDistinct(HollowCubeCells, Code);
  }

  lemma HollowCubeWithin() ensures WithinReach(HollowCubeCells, 2) {
    WithinReachByIndex(HollowCubeCells, 2);
  }

  lemma WithinReachByIndex(cells: seq<Cell>, reach: int)
    requires forall i :: 0 <= i < |cells| ==>
      -reach <= cells[i].x <= reach && -reach <= cells[i].y <= reach && -reach <= cells[i].z <= reach
    ensures WithinReach(cells, reach)
  {
  }

  lemma HollowCubeCodes()
    ensures forall i :: 0 <= i < |HollowCubeCells| - 1 ==> Code(HollowCubeCells[i]) < Code(HollowCubeCells[i + 1])
  {
  }

  /** A number for each cell near the centre; different numbers mean
      different cells. */
  function Code(c: Cell): int {
    25 * c.z + 5 * c.y + c.x
  }

  /** Loading a catalogue shape onto a lattice of edge 5 or more lights
      exactly one cell per entry (no two entries meet after wrapping). */
  lemma PatternPopulation(i: int, size: int)
    requires 0 <= i < |PatternPresets| && size >= 5
    ensures |Centred(PatternPresets[i].1, size)| == |PatternPresets[i].1|
  {
    PatternShape(i);
    CentredCardinality(PatternPresets[i].1, size, 2);
  }

  /** The sizes of the shapes in catalogue order: the solid cube has 8
      cells, the hollow one 20. */
  lemma PatternSizes(i: int)
    requires 0 <= i < |PatternPresets|
    ensures |GetPattern(PatternPresets[i].0)| == [8, 7, 3, 5, 5, 5, 6, 8, 7, 20][i]
  {
    GetPatternPreset(i);
    ShapeSizes(i);
  }

  lemma ShapeSizes(i: int)
    requires 0 <= i < |PatternPresets|
    ensures |PatternPresets[i].1| == [8, 7, 3, 5, 5, 5, 6, 8, 7, 20][i]
  {
  }
}
