/** The fixed configuration of the simulation: the lattice edge length, the
    26-cell Moore neighbourhood, the catalogue of birth/survival rules and the
    speed bounds. */
module Constants {
  import opened Coords
  import opened Wrappers
  import opened JsObject
  import opened Seqs

  /** Edge length of the lattice built by default. */
  const GridSize: int := 32

  /** Generations per second: the default and the bounds the speed control uses. */
  const DefaultSpeed: int := 4
  const MinSpeed: int := 1
  const MaxSpeed: int := 30

  /** The value the construction loop builds: every displacement in
      {-1, 0, 1}^3 except (0, 0, 0), in the loop's order. */
  const NeighborOffsets: seq<Offset> := [
    Offset(-1, -1, -1), Offset(-1, -1, 0), Offset(-1, -1, 1),
    Offset(-1, 0, -1), Offset(-1, 0, 0), Offset(-1, 0, 1),
    Offset(-1, 1, -1), Offset(-1, 1, 0), Offset(-1, 1, 1),
    Offset(0, -1, -1), Offset(0, -1, 0), Offset(0, -1, 1),
    Offset(0, 0, -1), Offset(0, 0, 1), Offset(0, 1, -1),
    Offset(0, 1, 0), Offset(0, 1, 1), Offset(1, -1, -1),
    Offset(1, -1, 0), Offset(1, -1, 1), Offset(1, 0, -1),
    Offset(1, 0, 0), Offset(1, 0, 1), Offset(1, 1, -1),
    Offset(1, 1, 0), Offset(1, 1, 1)
  ]

  predicate IsUnit(o: Offset) {
    -1 <= o.dx <= 1 && -1 <= o.dy <= 1 && -1 <= o.dz <= 1
  }

  predicate IsZero(o: Offset) {
    o.dx == 0 && o.dy == 0 && o.dz == 0
  }

  /** How many offsets the construction loop has pushed when it reaches
      (dx, dy, dz); a coordinate of 2 stands for the end of that loop. */
  function Emitted(dx: int, dy: int, dz: int): int {
    var p := 9 * (dx + 1) + 3 * (dy + 1) + (dz + 1);
    if p > 13 then p - 1 else p
  }

  /** Position Emitted(dx, dy, dz) of the table holds (dx, dy, dz). */
  lemma TableAtEmitted(o: Offset)
    requires IsUnit(o) && !IsZero(o)
    ensures 0 <= Emitted(o.dx, o.dy, o.dz) < |NeighborOffsets|
    ensures NeighborOffsets[Emitted(o.dx, o.dy, o.dz)] == o
  {
  }

  lemma EmittedEntry(dx: int, dy: int, dz: int)
    requires IsUnit(Offset(dx, dy, dz)) && !IsZero(Offset(dx, dy, dz))
    ensures 0 <= Emitted(dx, dy, dz) < |NeighborOffsets|
    ensures NeighborOffsets[..Emitted(dx, dy, dz)] + [Offset(dx, dy, dz)]
         == NeighborOffsets[..Emitted(dx, dy, dz) + 1]
  {
    TableAtEmitted(Offset(dx, dy, dz));
    var k := Emitted(dx, dy, dz);
    assert NeighborOffsets[..k + 1] == NeighborOffsets[..k] + [NeighborOffsets[k]];
  }

  /** The construction loop of the table: three nested loops over -1..1 that
      push every triple but (0, 0, 0). */
  method BuildNeighborOffsets() returns (offsets: seq<Offset>)
    ensures offsets == NeighborOffsets
  {
    offsets := [];
    var dx := -1;
    while dx <= 1
      invariant -1 <= dx <= 2
      invariant offsets == NeighborOffsets[..Emitted(dx, -1, -1)]
    {
      var dy := -1;
      while dy <= 1
        invariant -1 <= dy <= 2
        invariant offsets == NeighborOffsets[..Emitted(dx, dy, -1)]
      {
        var dz := -1;
        while dz <= 1
          invariant -1 <= dz <= 2
          invariant offsets == NeighborOffsets[..Emitted(dx, dy, dz)]
        {
          if dx != 0 || dy != 0 || dz != 0 {
            EmittedEntry(dx, dy, dz);
            offsets := offsets + [Offset(dx, dy, dz)];
          }
          dz := dz + 1;
        }
        dy := dy + 1;
      }
      dx := dx + 1;
    }
    assert |NeighborOffsets| == 26;
  }

  /** The table has 26 entries, each a unit displacement other than zero. */
  lemma NeighborOffsetsShape()
    ensures |NeighborOffsets| == 26
    ensures forall k :: 0 <= k < |NeighborOffsets| ==>
              IsUnit(NeighborOffsets[k]) && !IsZero(NeighborOffsets[k])
  {
  }

  /** The table lists the displacements in increasing order of their
      base-3 reading. */
  function OffsetCode(o: Offset): int {
    9 * o.dx + 3 * o.dy + o.dz
  }

  /** No displacement occurs twice. */
  lemma NeighborOffsetsDistinct()
    ensures forall i, j :: 0 <= i < j < |NeighborOffsets| ==> NeighborOffsets[i] != NeighborOffsets[j]
  {
    assert forall k :: 0 <= k < |NeighborOffsets| - 1 ==>
      OffsetCode(NeighborOffsets[k]) < OffsetCode(NeighborOffsets[k + 1]);
    IncreasingDistinct(NeighborOffsets, OffsetCode);
  }

  /** Every non-zero unit displacement occurs. */
  lemma NeighborOffsetsComplete(o: Offset)
    requires IsUnit(o) && !IsZero(o)
    ensures o in NeighborOffsets
  {
    TableAtEmitted(o);
  }

  /** The neighbourhood is symmetric: the opposite of an offset is an offset. */
  lemma NeighborOffsetsSymmetric(o: Offset)
    requires o in NeighborOffsets
    ensures Negate(o) in NeighborOffsets
  {
    NeighborOffsetsShape();
    NeighborOffsetsComplete(Negate(o));
  }

  /** A named rule: the neighbour counts of birth and of survival, as listed. */
  datatype RulePreset = RulePreset(birth: seq<int>, survival: seq<int>)

  const RulePresets: seq<(string, RulePreset)> := [
    ("4-5/5 Pyroclastic", RulePreset([4, 5], [5])),
    ("5-7/5-8 445", RulePreset([5, 6, 7], [5, 6, 7, 8])),
    ("6-7/5-7 Builder", RulePreset([6, 7], [5, 6, 7])),
    ("4-6/4-6 Symmetry", RulePreset([4, 5, 6], [4, 5, 6])),
    ("5-6/4-7 Amoeba", RulePreset([5, 6], [4, 5, 6, 7])),
    ("4/5-8 Crystal", RulePreset([4], [5, 6, 7, 8])),
    ("6-9/4-9 Sponge", RulePreset([6, 7, 8, 9], [4, 5, 6, 7, 8, 9]))
  ]

  const DefaultRule: string := "5-6/4-7 Amoeba"

  /** The default rule is in the catalogue, as birth {5, 6}, survival {4..7}. */
  lemma DefaultRuleIsPreset()
    ensures DefaultRule in Keys(RulePresets)
    ensures Get(RulePresets, DefaultRule) == Some(RulePreset([5, 6], [4, 5, 6, 7]))
  {
    assert RulePresets[4].0 == DefaultRule;
    assert Keys(RulePresets)[4] == DefaultRule;
  }

  lemma RulePresetNamesDistinct()
    ensures DistinctKeys(RulePresets)
  {
  }

  /** Every listed count is a possible neighbour count (0..26), and no rule
      gives birth on 0 neighbours. */
  lemma RulePresetCountsInRange()
    ensures forall i, n :: 0 <= i < |RulePresets| && n in RulePresets[i].1.birth ==> 1 <= n <= 26
    ensures forall i, n :: 0 <= i < |RulePresets| && n in RulePresets[i].1.survival ==> 0 <= n <= 26
    ensures forall i :: 0 <= i < |RulePresets| ==> 0 !in RulePresets[i].1.birth
  {
  }

  lemma SpeedBounds()
    ensures 0 < MinSpeed <= DefaultSpeed <= MaxSpeed
  {
  }
}
