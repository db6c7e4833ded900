/** The lattice: a sparse set of live cells on a cubic torus of edge `size`.
    Coordinates are wrapped onto [0, size) whenever a cell is written, so the
    stored cells are always canonical and membership is exact. */
module Grid3D {
  import opened Coords
  import opened Wrappers
  import opened JsText
  import opened Constants
  import opened Seqs

  // ---------------------------------------------------------------- arithmetic

  lemma MulAtLeast(k: int, n: int)
    requires k >= 1 && n > 0
    ensures k * n >= n
  {
  }

  /** Quotient and remainder are determined by the division identity. */
  lemma ModUnique(a: int, n: int, q: int, r: int)
    requires n > 0 && a == q * n + r && 0 <= r < n
    ensures a / n == q && a % n == r
  {
    var q0, r0 := a / n, a % n;
    assert (q - q0) * n == r0 - r;
    if q > q0 {
      MulAtLeast(q - q0, n);
    } else if q < q0 {
      MulAtLeast(q0 - q, n);
    }
  }

  lemma ModAddMultiple(a: int, k: int, n: int)
    requires n > 0
    ensures (a + k * n) % n == a % n
  {
    ModUnique(a + k * n, n, a / n + k, a % n);
  }

  /** JavaScript's `a % n` for a positive divisor: the remainder truncated
      toward zero, which takes the sign of `a`. */
  function JsRem(a: int, n: int): (r: int)
    requires n > 0
    ensures -n < r < n
    ensures a >= 0 ==> r >= 0
    ensures a <= 0 ==> r <= 0
    ensures (a - r) % n == 0
  {
    if a >= 0 then
      ModUnique(a - a % n, n, a / n, 0);
      a % n
    else
      ModUnique(a + (-a) % n, n, -((-a) / n), 0);
      -((-a) % n)
  }

  /** `wrap(coord)` as the source writes it: `((coord % size) + size) % size`
      with JavaScript's `%`. */
  function JsWrap(coord: int, size: int): (w: int)
    requires size >= 1
    ensures 0 <= w < size
  {
    JsRem(JsRem(coord, size) + size, size)
  }

  /** Wrapping onto the torus: the floored (Euclidean) remainder, in [0, size).
      The lattice uses this form; JsWrapIsWrap shows the source's expression
      computes it for every integer. */
  function Wrap(coord: int, size: int): (r: int)
    requires size >= 1
    ensures 0 <= r < size
  {
    coord % size
  }

  /** The source's expression equals the floored remainder for every integer,
      negative ones included. */
  lemma JsWrapIsWrap(coord: int, size: int)
    requires size >= 1
    ensures JsWrap(coord, size) == Wrap(coord, size)
  {
    var j := JsRem(coord, size);
    var k := (coord - j) / size;
    assert coord - j == k * size;
    ModAddMultiple(coord, 1 - k, size);
    assert j + size == coord + (1 - k) * size;
  }

  /** Wrapping is periodic: it ignores whole turns around the torus. */
  lemma WrapPeriodic(coord: int, k: int, size: int)
    requires size >= 1
    ensures Wrap(coord + k * size, size) == Wrap(coord, size)
  {
    ModAddMultiple(coord, k, size);
  }

  /** Wrapping leaves a coordinate already in [0, size) alone. */
  lemma WrapFixesCanonical(coord: int, size: int)
    requires size >= 1
    ensures 0 <= coord < size ==> Wrap(coord, size) == coord
  {
    if 0 <= coord < size {
      ModUnique(coord, size, 0, coord);
    }
  }

  /** Stepping by d and back by d from a canonical coordinate returns to it. */
  lemma WrapStepBack(coord: int, d: int, size: int)
    requires size >= 1 && 0 <= coord < size
    ensures Wrap(Wrap(coord + d, size) - d, size) == coord
  {
    var w := Wrap(coord + d, size);
    var q := (coord + d) / size;
    assert w - d == -q * size + coord;
    ModUnique(w - d, size, -q, coord);
  }

  /** Two integers less than `n` apart with the same remainder are equal. */
  lemma SameRemainderClose(u: int, v: int, n: int)
    requires n > 0 && u % n == v % n && -n < u - v < n
    ensures u == v
  {
    var qu, qv := u / n, v / n;
    assert (qu - qv) * n == u - v;
    if qu > qv {
      MulAtLeast(qu - qv, n);
    } else if qu < qv {
      MulAtLeast(qv - qu, n);
    }
  }

  /** On a lattice of edge 3 or more, stepping by different unit amounts
      reaches different coordinates. */
  lemma WrapUnitStepsDiffer(coord: int, a: int, b: int, size: int)
    requires size >= 3 && -1 <= a <= 1 && -1 <= b <= 1
    requires Wrap(coord + a, size) == Wrap(coord + b, size)
    ensures a == b
  {
    SameRemainderClose(coord + a, coord + b, size);
  }

  // ------------------------------------------------------------------- cells

  predicate InRange(c: Cell, size: int) {
    0 <= c.x < size && 0 <= c.y < size && 0 <= c.z < size
  }

  /** Every cell lies in [0, size)^3: the form in which cells are stored. */
  predicate Canonical(cells: set<Cell>, size: int) {
    forall c :: c in cells ==> InRange(c, size)
  }

  /** The cell `c` wraps onto, coordinate by coordinate. */
  function WrapCell(c: Cell, size: int): (w: Cell)
    requires size >= 1
    ensures InRange(w, size)
    ensures InRange(c, size) ==> w == c
  {
    WrapFixesCanonical(c.x, size);
    WrapFixesCanonical(c.y, size);
    WrapFixesCanonical(c.z, size);
    Cell(Wrap(c.x, size), Wrap(c.y, size), Wrap(c.z, size))
  }

  /** Going from a canonical cell to a neighbour and back by the opposite
      offset returns to the cell. */
  lemma WrapCellStepBack(c: Cell, o: Offset, size: int)
    requires size >= 1 && InRange(c, size)
    ensures WrapCell(Translate(WrapCell(Translate(c, o), size), Negate(o)), size) == c
  {
    WrapStepBack(c.x, o.dx, size);
    WrapStepBack(c.y, o.dy, size);
    WrapStepBack(c.z, o.dz, size);
  }

  // -------------------------------------------------------------------- keys

  /** `getKey(x, y, z)`: the text "x,y,z". Numbers hold no comma, so the key
      splits at its commas into exactly the three coordinates' texts. */
  function Key(c: Cell): (key: string)
    ensures Split(key, ',') == [IntToString(c.x), IntToString(c.y), IntToString(c.z)]
  {
    var a, b, d := IntToString(c.x), IntToString(c.y), IntToString(c.z);
    SplitAtSeparator(a, b + [','] + d, ',');
    SplitAtSeparator(b, d, ',');
    SplitWithoutSeparator(d, ',');
    a + [','] + (b + [','] + d)
  }

  /** `parseKey(key)`: split at the commas and read the first three pieces as
      numbers. `None` stands for a key with a missing or non-numeric piece
      (where the source yields NaN coordinates). Parsing the key of any cell
      gives back exactly that cell. */
  function ParseKey(key: string): (cell: Option<Cell>)
    ensures forall c :: Key(c) == key ==> cell == Some(c)
  {
    var parts := Split(key, ',');
    if |parts| < 3 then None
    else
      match (ParseNumber(parts[0]), ParseNumber(parts[1]), ParseNumber(parts[2]))
      case (Some(x), Some(y), Some(z)) => Some(Cell(x, y, z))
      case _ => None
  }

  /** Distinct cells have distinct keys, so a map keyed by `getKey` holds the
      same information as a set of cells. */
  lemma KeyInjective(a: Cell, b: Cell)
    requires Key(a) == Key(b)
    ensures a == b
  {
    assert ParseKey(Key(a)) == Some(a);
  }

  function KeysOf(cells: set<Cell>): set<string> {
    set c | c in cells :: Key(c)
  }

  /** A cell's key is among the keys of a set exactly when the cell is in it. */
  lemma KeyInKeysOf(cells: set<Cell>, c: Cell)
    ensures Key(c) in KeysOf(cells) <==> c in cells
  {
    if Key(c) in KeysOf(cells) {
      var d :| d in cells && Key(d) == Key(c);
      KeyInjective(d, c);
    }
  }

  /** A set of cells and the set of their keys have the same size. */
  lemma {:induction false} KeysOfSize(cells: set<Cell>)
    ensures |KeysOf(cells)| == |cells|
    decreases |cells|
  {
    if cells != {} {
      var c :| c in cells;
      var rest := cells - {c};
      KeysOfSize(rest);
      assert cells == rest + {c};
      assert KeysOf(rest + {c}) == KeysOf(rest) + {Key(c)};
      KeyInKeysOf(rest, c);
    }
  }

  // ------------------------------------------------------- the abstract state

  /** `isAlive(x, y, z)` on a cell set: membership of the wrapped cell. */
  predicate AliveAt(cells: set<Cell>, size: int, c: Cell)
    requires size >= 1
  {
    WrapCell(c, size) in cells
  }

  /** Liveness repeats with period `size` along every axis. */
  lemma AlivePeriodic(cells: set<Cell>, size: int, c: Cell, k: int)
    requires size >= 1
    ensures AliveAt(cells, size, Cell(c.x + k * size, c.y, c.z)) == AliveAt(cells, size, c)
    ensures AliveAt(cells, size, Cell(c.x, c.y + k * size, c.z)) == AliveAt(cells, size, c)
    ensures AliveAt(cells, size, Cell(c.x, c.y, c.z + k * size)) == AliveAt(cells, size, c)
  {
    WrapPeriodic(c.x, k, size);
    WrapPeriodic(c.y, k, size);
    WrapPeriodic(c.z, k, size);
  }

  /** The cell set after writing `alive` at the canonical cell `c`. */
  function Assign(cells: set<Cell>, c: Cell, alive: bool): set<Cell> {
    if alive then cells + {c} else cells - {c}
  }

  /** After `setCell(p, alive)`, `isAlive(p) == alive` and every cell that
      does not wrap onto the same place reads as before. */
  lemma SetCellEffect(cells: set<Cell>, size: int, p: Cell, alive: bool, q: Cell)
    requires size >= 1
    ensures AliveAt(Assign(cells, WrapCell(p, size), alive), size, p) == alive
    ensures WrapCell(q, size) != WrapCell(p, size) ==>
              AliveAt(Assign(cells, WrapCell(p, size), alive), size, q) == AliveAt(cells, size, q)
  {
  }

  /** Writing is idempotent. */
  lemma AssignIdempotent(cells: set<Cell>, c: Cell, alive: bool)
    ensures Assign(Assign(cells, c, alive), c, alive) == Assign(cells, c, alive)
  {
  }

  /** Toggling twice restores exactly the original cell set. */
  lemma ToggleTwiceRestores(cells: set<Cell>, c: Cell)
    ensures Assign(Assign(cells, c, c !in cells), c, c !in Assign(cells, c, c !in cells)) == cells
  {
  }

  /** How many of the first `n` offsets of the table lead from `c` to a live
      cell (each offset wrapped on its own). */
  function LiveAmongFirst(cells: set<Cell>, size: int, c: Cell, n: nat): (count: nat)
    requires size >= 1 && n <= |NeighborOffsets|
    ensures count <= n
  {
    if n == 0 then 0
    else
      LiveAmongFirst(cells, size, c, n - 1)
        + (if AliveAt(cells, size, Translate(c, NeighborOffsets[n - 1])) then 1 else 0)
  }

  /** `getNeighborCount(x, y, z)`: the number of table entries whose wrapped
      cell is live. */
  function NeighborCount(cells: set<Cell>, size: int, c: Cell): (count: nat)
    requires size >= 1
    ensures count <= 26
  {
    LiveAmongFirst(cells, size, c, |NeighborOffsets|)
  }

  /** The cells the 26 offsets reach from `c`. */
  function NeighbourCells(size: int, c: Cell): set<Cell>
    requires size >= 1
  {
    set o | o in NeighborOffsets :: WrapCell(Translate(c, o), size)
  }

  function ReachedByFirst(size: int, c: Cell, n: nat): set<Cell>
    requires size >= 1 && n <= |NeighborOffsets|
  {
    set k | 0 <= k < n :: Reached(size, c, k)
  }

  /** The cell table entry `k` leads to from `c`. */
  function Reached(size: int, c: Cell, k: int): Cell
    requires size >= 1 && 0 <= k < |NeighborOffsets|
  {
    WrapCell(Translate(c, NeighborOffsets[k]), size)
  }

  /** On a lattice of edge 3 or more, different table entries lead from a
      cell to different cells. */
  lemma ReachedCellsDiffer(size: int, c: Cell, k: int, m: int)
    requires size >= 3 && 0 <= k < m < |NeighborOffsets|
    ensures Reached(size, c, k) != Reached(size, c, m)
  {
    var a, b := NeighborOffsets[k], NeighborOffsets[m];
    assert a != b by {
      NeighborOffsetsDistinct();
    }
    assert IsUnit(a) && IsUnit(b) by {
      NeighborOffsetsShape();
    }
    UnitStepsDiffer(c, a, b, size);
  }

  /** Different unit displacements from one cell wrap onto different cells. */
  lemma UnitStepsDiffer(c: Cell, a: Offset, b: Offset, size: int)
    requires size >= 3 && IsUnit(a) && IsUnit(b) && a != b
    ensures WrapCell(Translate(c, a), size) != WrapCell(Translate(c, b), size)
  {
    if WrapCell(Translate(c, a), size) == WrapCell(Translate(c, b), size) {
      WrapUnitStepsDiffer(c.x, a.dx, b.dx, size);
      WrapUnitStepsDiffer(c.y, a.dy, b.dy, size);
      WrapUnitStepsDiffer(c.z, a.dz, b.dz, size);
      assert false;
    }
  }

  lemma CardinalityStep(after: set<Cell>, before: set<Cell>, w: Cell, cells: set<Cell>)
    requires w !in before && after == before + {w}
    ensures |after| == |before| + 1
    ensures |after * cells| == |before * cells| + (if w in cells then 1 else 0)
  {
    if w in cells {
      assert after * cells == (before * cells) + {w};
    } else {
      assert after * cells == before * cells;
    }
  }

  lemma {:induction false} LiveAmongFirstCountsCells(cells: set<Cell>, size: int, c: Cell, n: nat)
    requires size >= 3 && n <= |NeighborOffsets|
    ensures LiveAmongFirst(cells, size, c, n) == |ReachedByFirst(size, c, n) * cells|
    ensures |ReachedByFirst(size, c, n)| == n
  {
    if n == 0 {
      assert ReachedByFirst(size, c, 0) == {};
    } else {
      LiveAmongFirstCountsCells(cells, size, c, n - 1);
      LiveAmongFirstStep(cells, size, c, n);
      ReachedByFirstStep(size, c, n);
      ReachedFresh(size, c, n - 1);
      CardinalityStep(ReachedByFirst(size, c, n), ReachedByFirst(size, c, n - 1), Reached(size, c, n - 1), cells);
    }
  }

  lemma LiveAmongFirstStep(cells: set<Cell>, size: int, c: Cell, n: nat)
    requires size >= 1 && 0 < n <= |NeighborOffsets|
    ensures LiveAmongFirst(cells, size, c, n)
         == LiveAmongFirst(cells, size, c, n - 1) + (if Reached(size, c, n - 1) in cells then 1 else 0)
  {
  }

  lemma ReachedByFirstStep(size: int, c: Cell, n: nat)
    requires size >= 1 && 0 < n <= |NeighborOffsets|
    ensures ReachedByFirst(size, c, n) == ReachedByFirst(size, c, n - 1) + {Reached(size, c, n - 1)}
  {
    var before, w := ReachedByFirst(size, c, n - 1), Reached(size, c, n - 1);
    forall v | v in ReachedByFirst(size, c, n) ensures v in before + {w} {
      var k :| 0 <= k < n && Reached(size, c, k) == v;
      if k < n - 1 {
        assert v in before;
      }
    }
  }

  /** Entry `m` reaches a cell none of the entries before it reaches. */
  lemma ReachedFresh(size: int, c: Cell, m: nat)
    requires size >= 3 && m < |NeighborOffsets|
    ensures Reached(size, c, m) !in ReachedByFirst(size, c, m)
  {
    forall k | 0 <= k < m
      ensures Reached(size, c, k) != Reached(size, c, m)
    {
      ReachedCellsDiffer(size, c, k, m);
    }
  }

  /** All 26 table entries reach exactly the neighbour cells. */
  lemma ReachedByAll(size: int, c: Cell)
    requires size >= 1
    ensures ReachedByFirst(size, c, |NeighborOffsets|) == NeighbourCells(size, c)
  {
    forall w | w in NeighbourCells(size, c)
      ensures w in ReachedByFirst(size, c, |NeighborOffsets|)
    {
      var o :| o in NeighborOffsets && WrapCell(Translate(c, o), size) == w;
      var k :| 0 <= k < |NeighborOffsets| && NeighborOffsets[k] == o;
      assert Reached(size, c, k) == w;
    }
    forall w | w in ReachedByFirst(size, c, |NeighborOffsets|)
      ensures w in NeighbourCells(size, c)
    {
      var k :| 0 <= k < |NeighborOffsets| && Reached(size, c, k) == w;
      assert NeighborOffsets[k] in NeighborOffsets;
    }
  }

  lemma {:induction false} ReachedByFirstBound(size: int, c: Cell, n: nat)
    requires size >= 1 && n <= |NeighborOffsets|
    ensures |ReachedByFirst(size, c, n)| <= n
  {
    if n > 0 {
      ReachedByFirstBound(size, c, n - 1);
      var before := ReachedByFirst(size, c, n - 1);
      assert ReachedByFirst(size, c, n) <= before + {Reached(size, c, n - 1)};
      assert |before + {Reached(size, c, n - 1)}| <= |before| + 1;
      SubsetCardinality(ReachedByFirst(size, c, n), before + {Reached(size, c, n - 1)});
    }
  }

  lemma SubsetCardinality(a: set<Cell>, b: set<Cell>)
    requires a <= b
    ensures |a| <= |b|
  {
    assert b == a + (b - a);
  }

  /** On a lattice of edge 3 or more the 26 neighbours are 26 different
      cells, and the count is the number of live ones among them. */
  lemma NeighborCountDistinctCells(cells: set<Cell>, size: int, c: Cell)
    requires size >= 3
    ensures |NeighbourCells(size, c)| == 26
    ensures NeighborCount(cells, size, c) == |NeighbourCells(size, c) * cells|
  {
    LiveAmongFirstCountsCells(cells, size, c, |NeighborOffsets|);
    ReachedByAll(size, c);
  }

  lemma {:induction false} LiveAmongFirstAllLive(cells: set<Cell>, size: int, c: Cell, n: nat)
    requires size >= 1 && n <= |NeighborOffsets|
    requires forall k :: 0 <= k < n ==> AliveAt(cells, size, Translate(c, NeighborOffsets[k]))
    ensures LiveAmongFirst(cells, size, c, n) == n
  {
    if n > 0 {
      LiveAmongFirstAllLive(cells, size, c, n - 1);
    }
  }

  /** On a lattice of edge 1 every offset wraps back onto the cell itself, so
      a lone live cell counts itself 26 times. */
  lemma NeighborCountAliasesOnTinyLattice()
    ensures NeighborCount({Cell(0, 0, 0)}, 1, Cell(0, 0, 0)) == 26
  {
    LiveAmongFirstAllLive({Cell(0, 0, 0)}, 1, Cell(0, 0, 0), |NeighborOffsets|);
  }

  /** The cells `randomFill` makes live, when `chance(c)` is the value
      `Math.random()` returns as the loop visits `c`. */
  function RandomCells(size: int, chance: Cell -> real, density: real): set<Cell> {
    set x, y, z | 0 <= x < size && 0 <= y < size && 0 <= z < size && chance(Cell(x, y, z)) < density
      :: Cell(x, y, z)
  }

  predicate Drawn(c: Cell, size: int, chance: Cell -> real, density: real) {
    InRange(c, size) && chance(c) < density
  }

  /** With draws from [0, 1), density 0 or below fills nothing and density 1
      or above fills the whole lattice. */
  lemma RandomCellsExtremes(size: int, chance: Cell -> real, density: real)
    requires forall c :: 0.0 <= chance(c) < 1.0
    ensures Canonical(RandomCells(size, chance, density), size)
    ensures density <= 0.0 ==> RandomCells(size, chance, density) == {}
    ensures density >= 1.0 ==> forall c :: InRange(c, size) ==> c in RandomCells(size, chance, density)
  {
    if density >= 1.0 {
      forall c | InRange(c, size) ensures c in RandomCells(size, chance, density) {
        assert chance(Cell(c.x, c.y, c.z)) < density;
      }
    }
  }

  /** The cells `loadPattern(pattern)` makes live: every pattern entry moved
      by floor(size / 2) on each axis, then wrapped. */
  function Centred(pattern: seq<Cell>, size: int): set<Cell>
    requires size >= 1
  {
    set p | p in pattern :: CentreOf(p, size)
  }

  /** Where one pattern entry lands. */
  function CentreOf(p: Cell, size: int): Cell
    requires size >= 1
  {
    WrapCell(Cell(p.x + size / 2, p.y + size / 2, p.z + size / 2), size)
  }

  lemma CentredSnoc(pattern: seq<Cell>, p: Cell, size: int)
    requires size >= 1
    ensures Centred(pattern + [p], size) == Centred(pattern, size) + {CentreOf(p, size)}
  {
    var lhs, rhs := Centred(pattern + [p], size), Centred(pattern, size) + {CentreOf(p, size)};
    forall w | w in lhs ensures w in rhs {
      var q :| q in pattern + [p] && CentreOf(q, size) == w;
      if q != p {
        assert q in pattern;
      }
    }
    forall w | w in rhs ensures w in lhs {
      if w == CentreOf(p, size) {
        assert p in pattern + [p];
      } else {
        var q :| q in pattern && CentreOf(q, size) == w;
        assert q in pattern + [p];
      }
    }
  }

  /** Every coordinate of every entry lies within `reach` of the origin. */
  predicate WithinReach(pattern: seq<Cell>, reach: int) {
    forall p :: p in pattern ==>
      -reach <= p.x <= reach && -reach <= p.y <= reach && -reach <= p.z <= reach
  }

  /** Where the lattice has room for `reach` on both sides of its centre,
      no entry wraps, so distinct entries land on distinct cells. */
  lemma CentreOfInjective(p: Cell, q: Cell, size: int, reach: int)
    requires size >= 1 && 0 <= reach <= size / 2 && size / 2 + reach < size
    requires WithinReach([p, q], reach)
    requires CentreOf(p, size) == CentreOf(q, size)
    ensures p == q
  {
    assert p in [p, q] && q in [p, q];
  }

  /** Loading a pattern of distinct entries that fits lights one cell per
      entry. */
  lemma {:induction false} CentredCardinality(pattern: seq<Cell>, size: int, reach: int)
    requires size >= 1 && 0 <= reach <= size / 2 && size / 2 + reach < size
    requires Distinct(pattern) && WithinReach(pattern, reach)
    ensures |Centred(pattern, size)| == |pattern|
    decreases |pattern|
  {
    if pattern == [] {
      assert Centred(pattern, size) == {};
    } else {
      var front, last := pattern[..|pattern| - 1], pattern[|pattern| - 1];
      assert pattern == front + [last];
      assert Distinct(front) && WithinReach(front, reach);
      CentredCardinality(front, size, reach);
      CentredSnoc(front, last, size);
      if CentreOf(last, size) in Centred(front, size) {
        var q :| q in front && CentreOf(q, size) == CentreOf(last, size);
        CentreOfInjective(q, last, size, reach);
        assert false;
      }
    }
  }

  /** Loading the one-cell pattern at the origin lights exactly the centre;
      loading the empty pattern clears the lattice. */
  lemma CentredExamples(size: int)
    requires size >= 1
    ensures Centred([Cell(0, 0, 0)], size) == {Cell(size / 2, size / 2, size / 2)}
    ensures Centred([], size) == {}
  {
    var centre := Cell(size / 2, size / 2, size / 2);
    assert InRange(centre, size);
    assert CentreOf(Cell(0, 0, 0), size) == WrapCell(centre, size) == centre;
    assert Centred([Cell(0, 0, 0)], size) == {centre} by {
      forall w | w in Centred([Cell(0, 0, 0)], size) ensures w == centre {
        var q :| q in [Cell(0, 0, 0)] && CentreOf(q, size) == w;
      }
      assert Cell(0, 0, 0) in [Cell(0, 0, 0)];
    }
  }

  // ------------------------------------------------------------------- class

  class Grid3D {
    const size: int
    var cells: set<Cell>

    ghost predicate Valid()
      reads this
    {
      size >= 1 && Canonical(cells, size)
    }

    constructor (size: int)
      requires size >= 1
      ensures Valid() && this.size == size && cells == {}
    {
      this.size := size;
      cells := {};
    }

    /** `isAlive(x, y, z)`: the source looks up the key of the wrapped cell
        among its stored keys, which is membership of the wrapped cell. */
    predicate IsAlive(x: int, y: int, z: int)
      requires Valid()
      reads this
      ensures IsAlive(x, y, z) <==> Key(WrapCell(Cell(x, y, z), size)) in KeysOf(cells)
    {
      KeyInKeysOf(cells, WrapCell(Cell(x, y, z), size));
      AliveAt(cells, size, Cell(x, y, z))
    }

    method SetCell(x: int, y: int, z: int, alive: bool)
      requires Valid()
      modifies this
      ensures Valid()
      ensures cells == Assign(old(cells), WrapCell(Cell(x, y, z), size), alive)
    {
      var key := WrapCell(Cell(x, y, z), size);
      if alive {
        cells := cells + {key};
      } else {
        cells := cells - {key};
      }
    }

    method ToggleCell(x: int, y: int, z: int) returns (alive: bool)
      requires Valid()
      modifies this
      ensures Valid()
      ensures alive == !old(IsAlive(x, y, z))
      ensures cells == Assign(old(cells), WrapCell(Cell(x, y, z), size), alive)
    {
      var wasAlive := IsAlive(x, y, z);
      SetCell(x, y, z, !wasAlive);
      alive := !wasAlive;
    }

    method GetNeighborCount(x: int, y: int, z: int) returns (count: nat)
      requires Valid()
      ensures count == NeighborCount(cells, size, Cell(x, y, z))
    {
      count := 0;
      var i := 0;
      while i < |NeighborOffsets|
        invariant 0 <= i <= |NeighborOffsets|
        invariant count == LiveAmongFirst(cells, size, Cell(x, y, z), i)
      {
        var o := NeighborOffsets[i];
        assert Cell(x + o.dx, y + o.dy, z + o.dz) == Translate(Cell(x, y, z), o);
        if IsAlive(x + o.dx, y + o.dy, z + o.dz) {
          count := count + 1;
        }
        i := i + 1;
      }
    }

    /** `getLiveCells()`: every live cell exactly once (the source parses each
        stored key back, which gives the cell by ParseKey). */
    method GetLiveCells() returns (live: seq<Cell>)
      requires Valid()
      ensures |live| == |cells|
      ensures forall c :: c in live <==> c in cells
      ensures forall i, j :: 0 <= i < j < |live| ==> live[i] != live[j]
    {
      live := [];
      var rest := cells;
      while rest != {}
        invariant rest <= cells
        invariant forall c :: c in live <==> c in cells && c !in rest
        invariant forall i, j :: 0 <= i < j < |live| ==> live[i] != live[j]
        invariant |live| + |rest| == |cells|
        decreases |rest|
      {
        var c :| c in rest;
        live := live + [c];
        rest := rest - {c};
      }
    }

    /** `getPopulation()`: the number of stored keys, one per live cell. */
    function GetPopulation(): (n: nat)
      reads this
      ensures n == |KeysOf(cells)|
    {
      KeysOfSize(cells);
      |cells|
    }

    method Clear()
      requires Valid()
      modifies this
      ensures Valid() && cells == {}
    {
      cells := {};
    }

    method Clone() returns (copy: Grid3D)
      requires Valid()
      ensures fresh(copy) && copy.Valid()
      ensures copy.size == size && copy.cells == cells
    {
      copy := new Grid3D(size);
      var rest := cells;
      while rest != {}
        invariant rest <= cells
        invariant copy.size == size && copy.cells <= cells
        invariant copy.cells + rest == cells
        decreases |rest|
      {
        var c :| c in rest;
        copy.cells := copy.cells + {c};
        rest := rest - {c};
      }
    }

    /** `randomFill(density)` with the random source passed in: `chance(c)`
        is the number drawn when the loop reaches `c`. */
    method RandomFill(density: real, chance: Cell -> real)
      requires Valid()
      modifies this
      ensures Valid() && cells == RandomCells(size, chance, density)
    {
      Clear();
      var x := 0;
      while x < size
        invariant 0 <= x <= size && Valid()
        invariant forall c :: c in cells <==> Drawn(c, size, chance, density) && c.x < x
      {
        var y := 0;
        while y < size
          invariant 0 <= y <= size && Valid()
          invariant forall c :: c in cells <==>
                      Drawn(c, size, chance, density) && (c.x < x || (c.x == x && c.y < y))
        {
          var z := 0;
          while z < size
            invariant 0 <= z <= size && Valid()
            invariant forall c :: c in cells <==>
                        Drawn(c, size, chance, density)
                        && (c.x < x || (c.x == x && (c.y < y || (c.y == y && c.z < z))))
          {
            if chance(Cell(x, y, z)) < density {
              SetCell(x, y, z, true);
            }
            z := z + 1;
          }
          y := y + 1;
        }
        x := x + 1;
      }
      assert forall c :: c in cells <==> c in RandomCells(size, chance, density) by {
        forall c ensures c in cells <==> c in RandomCells(size, chance, density) {
          if c in RandomCells(size, chance, density) {
            assert Drawn(c, size, chance, density);
          }
        }
      }
    }

    /** `loadPattern(pattern)`: clear, then light every entry moved to the
        centre. */
    method LoadPattern(pattern: seq<Cell>)
      requires Valid()
      modifies this
      ensures Valid() && cells == Centred(pattern, size)
    {
      Clear();
      var offset := size / 2;
      var i := 0;
      while i < |pattern|
        invariant 0 <= i <= |pattern| && Valid()
        invariant cells == Centred(pattern[..i], size)
      {
        var p := pattern[i];
        SetCell(p.x + offset, p.y + offset, p.z + offset, true);
        assert pattern[..i + 1] == pattern[..i] + [p];
        CentredSnoc(pattern[..i], p, size);
        i := i + 1;
      }
      assert pattern[..|pattern|] == pattern;
    }
  }

  /** A clone shares no state with its original: toggling a cell in the copy
      leaves the original as it was. */
  method ToggleInClone(g: Grid3D, x: int, y: int, z: int) returns (copy: Grid3D)
    requires g.Valid()
    ensures fresh(copy) && copy.Valid() && copy.size == g.size
    ensures g.cells == old(g.cells)
    ensures copy.cells == Assign(g.cells, WrapCell(Cell(x, y, z), g.size), !g.IsAlive(x, y, z))
  {
    copy := g.Clone();
    var _ := copy.ToggleCell(x, y, z);
  }

  /** Nor does the original share state with its clone: toggling a cell in
      the original leaves the copy with the cells cloned. */
  method ToggleAfterClone(g: Grid3D, x: int, y: int, z: int) returns (copy: Grid3D)
    requires g.Valid()
    modifies g
    ensures fresh(copy) && copy.Valid() && copy.size == g.size
    ensures copy.cells == old(g.cells)
    ensures g.cells == Assign(old(g.cells), WrapCell(Cell(x, y, z), g.size), !old(g.IsAlive(x, y, z)))
  {
    copy := g.Clone();
    var _ := g.ToggleCell(x, y, z);
  }
}
