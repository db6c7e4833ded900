/** The stepping engine: one lattice, one rule, a generation counter, and the
    play/pause state of the repeating timer that drives it. */
module Simulation {
  import opened Coords
  import opened Wrappers
  import opened JsText
  import opened Constants
  import opened Grid3D
  import opened Rules

  // ---------------------------------------------------------------- one step

  /** The next generation as `step()` computes it: every cell of the active
      region to which the rule gives life. */
  function NextGeneration(cells: set<Cell>, size: int, birth: seq<int>, survival: seq<int>): (next: set<Cell>)
    requires size >= 1
    ensures Canonical(cells, size) ==> Canonical(next, size)
  {
    set c | c in ActiveRegion(cells, size)
            && NextState(birth, survival, AliveAt(cells, size, c), NeighborCount(cells, size, c))
  }

  /** Every cell of the lattice. */
  function Lattice(size: int): set<Cell>
    requires size >= 1
  {
    set x, y, z | 0 <= x < size && 0 <= y < size && 0 <= z < size :: Cell(x, y, z)
  }

  /** The rule applied to every cell of the lattice: the reference a step is
      measured against. */
  function FullStep(cells: set<Cell>, size: int, birth: seq<int>, survival: seq<int>): set<Cell>
    requires size >= 1
  {
    set c | c in Lattice(size)
            && NextState(birth, survival, AliveAt(cells, size, c), NeighborCount(cells, size, c))
  }

  lemma InLattice(c: Cell, size: int)
    requires size >= 1
    ensures c in Lattice(size) <==> InRange(c, size)
  {
    if InRange(c, size) {
      assert c == Cell(c.x, c.y, c.z);
    }
  }

  lemma InNextGeneration(cells: set<Cell>, size: int, birth: seq<int>, survival: seq<int>, c: Cell)
    requires size >= 1 && c in ActiveRegion(cells, size)
    ensures c in NextGeneration(cells, size, birth, survival)
            <==> NextState(birth, survival, AliveAt(cells, size, c), NeighborCount(cells, size, c))
  {
  }

  /** A key names one cell only. */
  lemma KeyOwner(key: string, p: Cell)
    requires Key(p) == key
    ensures forall c :: Key(c) == key ==> c == p
  {
    forall c | Key(c) == key ensures c == p {
      KeyInjective(c, p);
    }
  }

  /** A step keeps the live cells on the lattice and adds at most 27 cells per
      live cell. */
  lemma NextGenerationBounds(cells: set<Cell>, size: int, birth: seq<int>, survival: seq<int>)
    requires size >= 1 && Canonical(cells, size)
    ensures Canonical(NextGeneration(cells, size, birth, survival), size)
    ensures |NextGeneration(cells, size, birth, survival)| <= 27 * |cells|
  {
    ActiveRegionCanonical(cells, size);
    ActiveRegionBound(cells, size);
    var next := NextGeneration(cells, size, birth, survival);
    assert next <= ActiveRegion(cells, size);
    SubsetCardinality(next, ActiveRegion(cells, size));
  }

  /** Looking only at the active region loses nothing as long as no dead
      cell is born with zero live neighbours. */
  lemma ActiveRegionSufficient(cells: set<Cell>, size: int, birth: seq<int>, survival: seq<int>)
    requires size >= 1 && Canonical(cells, size) && 0 !in birth
    ensures NextGeneration(cells, size, birth, survival) == FullStep(cells, size, birth, survival)
  {
    var next, full := NextGeneration(cells, size, birth, survival), FullStep(cells, size, birth, survival);
    ActiveRegionCanonical(cells, size);
    forall c | c in next ensures c in full {
      InLattice(c, size);
    }
    forall c | c in full ensures c in next {
      InLattice(c, size);
      if c !in ActiveRegion(cells, size) {
        OutsideRegionQuiet(cells, size, c);
      }
    }
  }

  /** With 0 among the birth counts the active region is too small: on an
      empty lattice of any size every cell should be born, but none is
      checked. */
  lemma BirthOnZeroOutsideRegion(size: int, birth: seq<int>, survival: seq<int>, c: Cell)
    requires size >= 1 && 0 in birth && InRange(c, size)
    ensures NextGeneration({}, size, birth, survival) == {}
    ensures c in FullStep({}, size, birth, survival)
  {
    assert ActiveRegion({}, size) == {};
    assert LiveAmongFirst({}, size, c, |NeighborOffsets|) == 0 by {
      NoneLive(size, c, |NeighborOffsets|);
    }
    InLattice(c, size);
  }

  lemma {:induction false} NoneLive(size: int, c: Cell, n: nat)
    requires size >= 1 && n <= |NeighborOffsets|
    ensures LiveAmongFirst({}, size, c, n) == 0
  {
    if n > 0 {
      NoneLive(size, c, n - 1);
    }
  }

  /** A lone live cell sees no live neighbour and each of its neighbours sees
      one, so on a lattice of edge 3 or more it dies out under any rule whose
      counts are all at least 2. */
  lemma IsolatedCellDies(c: Cell, size: int, birth: seq<int>, survival: seq<int>)
    requires size >= 3 && InRange(c, size)
    requires forall n :: n in birth ==> n >= 2
    requires forall n :: n in survival ==> n >= 2
    ensures NextGeneration({c}, size, birth, survival) == {}
  {
    forall w | w in NextGeneration({c}, size, birth, survival) ensures false {
      NeighborCountDistinctCells({c}, size, w);
      SubsetCardinality(NeighbourCells(size, w) * {c}, {c});
    }
  }

  /** Every rule of the catalogue lets a lone cell die. */
  lemma IsolatedCellDiesUnderPresets(c: Cell, size: int, i: int)
    requires size >= 3 && InRange(c, size) && 0 <= i < |RulePresets|
    ensures NextGeneration({c}, size, RulePresets[i].1.birth, RulePresets[i].1.survival) == {}
  {
    assert forall n :: n in RulePresets[i].1.birth ==> n >= 2;
    assert forall n :: n in RulePresets[i].1.survival ==> n >= 2;
    IsolatedCellDies(c, size, RulePresets[i].1.birth, RulePresets[i].1.survival);
  }

  /** The rules of the catalogue never need more than the active region. */
  lemma PresetStepsExact(cells: set<Cell>, size: int, i: int)
    requires size >= 1 && Canonical(cells, size) && 0 <= i < |RulePresets|
    ensures NextGeneration(cells, size, RulePresets[i].1.birth, RulePresets[i].1.survival)
            == FullStep(cells, size, RulePresets[i].1.birth, RulePresets[i].1.survival)
  {
    RulePresetCountsInRange();
    ActiveRegionSufficient(cells, size, RulePresets[i].1.birth, RulePresets[i].1.survival);
  }

  // ------------------------------------------------------------------ status

  /** The handle of a scheduled repeating timer and the rate it runs at, in
      steps per second. */
  datatype Timer = Timer(id: nat, speed: int)

  /** `getStats()`. */
  datatype Stats = Stats(generation: nat, population: nat, rule: string, isRunning: bool, speed: int)

  /** The loop of `step()`: every key is parsed back into its cell, the cell
      is judged against the current lattice, and the cells the rule keeps or
      brings to life are set on a fresh lattice of the same size. */
  method Evolve(grid: Grid3D, rules: Rules, cellsToCheck: set<string>) returns (newGrid: Grid3D)
    requires grid.Valid() && rules.Valid()
    requires cellsToCheck == KeysOf(ActiveRegion(grid.cells, grid.size))
    ensures fresh(newGrid) && newGrid.Valid() && newGrid.size == grid.size
    ensures newGrid.cells == NextGeneration(grid.cells, grid.size, rules.birth, rules.survival)
  {
    ghost var next := NextGeneration(grid.cells, grid.size, rules.birth, rules.survival);
    ActiveRegionCanonical(grid.cells, grid.size);
    newGrid := new Grid3D(grid.size);
    var remaining := cellsToCheck;
    while remaining != {}
      invariant remaining <= cellsToCheck
      invariant fresh(newGrid) && newGrid.Valid() && newGrid.size == grid.size
      invariant forall c :: c in newGrid.cells <==> c in next && Key(c) !in remaining
      decreases |remaining|
    {
      var key :| key in remaining;
      var p, nextState := Judge(grid, rules, key);
      ghost var target := if nextState then newGrid.cells + {p} else newGrid.cells;
      EvolveStep(newGrid.cells, target, next, remaining, key, p, nextState);
      if nextState {
        newGrid.SetCell(p.x, p.y, p.z, true);
      }
      assert newGrid.cells == target;
      remaining := remaining - {key};
    }
  }

  /** The body of the loop of `step()` for one key: the key is parsed back
      into its cell, which is judged against the current lattice. */
  method Judge(grid: Grid3D, rules: Rules, key: string) returns (p: Cell, nextState: bool)
    requires grid.Valid() && rules.Valid()
    requires key in KeysOf(ActiveRegion(grid.cells, grid.size))
    ensures Key(p) == key && InRange(p, grid.size) && Cell(p.x, p.y, p.z) == p
    ensures nextState <==> p in NextGeneration(grid.cells, grid.size, rules.birth, rules.survival)
  {
    ghost var region := ActiveRegion(grid.cells, grid.size);
    ActiveRegionCanonical(grid.cells, grid.size);
    ghost var cell := KeyedCell(region, key);
    p := ParseKey(key).value;
    assert p == cell;
    var isAlive := grid.IsAlive(p.x, p.y, p.z);
    var neighborCount := grid.GetNeighborCount(p.x, p.y, p.z);
    nextState := rules.GetNextState(isAlive, neighborCount);
    InNextGeneration(grid.cells, grid.size, rules.birth, rules.survival, p);
  }

  /** One turn of the loop of `step()`: deciding the cell behind `key` keeps
      the new lattice equal to the next generation on the decided keys. */
  lemma EvolveStep(before: set<Cell>, after: set<Cell>, next: set<Cell>, remaining: set<string>,
                   key: string, p: Cell, alive: bool)
    requires forall c :: c in before <==> c in next && Key(c) !in remaining
    requires Key(p) == key && key in remaining && (p in next <==> alive)
    requires after == if alive then before + {p} else before
    ensures forall c :: c in after <==> c in next && Key(c) !in remaining - {key}
  {
    KeyOwner(key, p);
  }

  /** The cell a key of the region names. */
  ghost function KeyedCell(region: set<Cell>, key: string): (c: Cell)
    requires key in KeysOf(region)
    ensures c in region && Key(c) == key
  {
    var c :| c in region && Key(c) == key; c
  }

  // ------------------------------------------------------------------- class

  class Simulation {
    var grid: Grid3D
    var rules: Rules
    var generation: nat
    var isRunning: bool
    var speed: int
    var intervalId: Option<Timer>
    /** Whether an `onUpdate` callback is installed. */
    var hasUpdateHook: bool
    /** Timers handed out so far; the next one gets the next number. */
    var timersIssued: nat
    /** Timers scheduled and not yet cancelled. */
    ghost var liveTimers: set<nat>
    /** How often the `onUpdate` callback has run. */
    ghost var notifications: nat

    ghost predicate Valid()
      reads this, grid, rules
    {
      grid.Valid() && rules.Valid()
      && (isRunning <==> intervalId.Some?)
      && (match intervalId
          case Some(t) => liveTimers == {t.id} && t.speed == speed && 1 <= t.id <= timersIssued
          case None => liveTimers == {})
    }

    constructor ()
      ensures Valid() && fresh(grid) && fresh(rules)
      ensures grid.size == GridSize && grid.cells == {}
      ensures rules.birth == [5, 6] && rules.survival == [4, 5, 6, 7] && rules.currentPreset == DefaultRule
      ensures generation == 0 && !isRunning && speed == DefaultSpeed && intervalId == None
      ensures !hasUpdateHook && timersIssued == 0 && notifications == 0
      ensures GetStats() == Stats(0, 0, "B56/S4567", false, 4)
    {
      grid := new Grid3D(GridSize);
      var r := new Rules();
      rules := r;
      generation := 0;
      isRunning := false;
      speed := DefaultSpeed;
      intervalId := None;
      hasUpdateHook := false;
      timersIssued := 0;
      liveTimers := {};
      notifications := 0;
      RuleStringDefault(r.birth, r.survival);
    }

    /** Installing or removing the `onUpdate` callback. */
    method SetUpdateHook(present: bool)
      requires Valid()
      modifies this
      ensures Valid() && hasUpdateHook == present
      ensures grid == old(grid) && rules == old(rules) && generation == old(generation)
      ensures isRunning == old(isRunning) && speed == old(speed) && intervalId == old(intervalId)
      ensures timersIssued == old(timersIssued) && notifications == old(notifications)
    {
      hasUpdateHook := present;
    }

    /** `step()`: the keys of the active region are parsed back into cells,
        each is judged against the current lattice, and the survivors form a
        new lattice that replaces the old one. */
    method Step()
      requires Valid()
      modifies this
      ensures Valid() && fresh(grid) && rules == old(rules)
      ensures grid.size == old(grid.size)
      ensures grid.cells == NextGeneration(old(grid.cells), old(grid.size), rules.birth, rules.survival)
      ensures unchanged(old(grid))
      ensures generation == old(generation) + 1
      ensures isRunning == old(isRunning) && speed == old(speed) && intervalId == old(intervalId)
      ensures hasUpdateHook == old(hasUpdateHook) && timersIssued == old(timersIssued)
      ensures notifications == old(notifications) + (if hasUpdateHook then 1 else 0)
    {
      var cellsToCheck := rules.GetCellsToCheck(grid);
      var newGrid := Evolve(grid, rules, cellsToCheck);
      grid := newGrid;
      generation := generation + 1;
      if hasUpdateHook {
        notifications := notifications + 1;
      }
    }

    /** `play()`: when idle, schedule one repeating timer at the current
        speed; when already running, nothing changes. */
    method Play()
      requires Valid()
      modifies this
      ensures Valid() && isRunning
      ensures grid == old(grid) && rules == old(rules) && generation == old(generation)
      ensures speed == old(speed) && hasUpdateHook == old(hasUpdateHook)
      ensures notifications == old(notifications)
      ensures old(isRunning) ==> intervalId == old(intervalId) && timersIssued == old(timersIssued)
                                 && liveTimers == old(liveTimers)
      ensures !old(isRunning) ==> timersIssued == old(timersIssued) + 1
                                  && intervalId == Some(Timer(timersIssued, speed))
    {
      if isRunning {
        return;
      }
      isRunning := true;
      timersIssued := timersIssued + 1;
      intervalId := Some(Timer(timersIssued, speed));
      liveTimers := liveTimers + {timersIssued};
    }

    /** `pause()`: when running, cancel the one outstanding timer; when idle,
        nothing changes. */
    method Pause()
      requires Valid()
      modifies this
      ensures Valid() && !isRunning && intervalId == None && liveTimers == {}
      ensures grid == old(grid) && rules == old(rules) && generation == old(generation)
      ensures speed == old(speed) && hasUpdateHook == old(hasUpdateHook)
      ensures timersIssued == old(timersIssued) && notifications == old(notifications)
    {
      if !isRunning {
        return;
      }
      isRunning := false;
      if intervalId.Some? {
        liveTimers := liveTimers - {intervalId.value.id};
        intervalId := None;
      }
    }

    /** `toggle()`: pause when running, play when idle. */
    method Toggle()
      requires Valid()
      modifies this
      ensures Valid() && isRunning == !old(isRunning)
      ensures grid == old(grid) && rules == old(rules) && generation == old(generation)
      ensures speed == old(speed) && hasUpdateHook == old(hasUpdateHook)
      ensures notifications == old(notifications)
    {
      if isRunning {
        Pause();
      } else {
        Play();
      }
    }

    /** `setSpeed(speed)`: while running, the timer is replaced by one at the
        new rate; the generation and the running state stay as they were. */
    method SetSpeed(newSpeed: int)
      requires Valid()
      modifies this
      ensures Valid() && speed == newSpeed && isRunning == old(isRunning)
      ensures grid == old(grid) && rules == old(rules) && generation == old(generation)
      ensures hasUpdateHook == old(hasUpdateHook) && notifications == old(notifications)
      ensures !old(isRunning) ==> intervalId == None && timersIssued == old(timersIssued)
      ensures old(isRunning) ==> timersIssued == old(timersIssued) + 1
                                 && intervalId == Some(Timer(timersIssued, newSpeed))
                                 && old(intervalId).value.id !in liveTimers
    {
      if isRunning {
        Pause();
        speed := newSpeed;
        Play();
      } else {
        speed := newSpeed;
      }
    }

    /** `reset()`: stop, empty the lattice and return to generation 0. */
    method Reset()
      requires Valid()
      modifies this, grid
      ensures Valid() && !isRunning && intervalId == None
      ensures grid == old(grid) && grid.size == old(grid.size) && grid.cells == {}
      ensures rules == old(rules) && generation == 0 && speed == old(speed)
      ensures hasUpdateHook == old(hasUpdateHook) && timersIssued == old(timersIssued)
      ensures notifications == old(notifications) + (if hasUpdateHook then 1 else 0)
    {
      Pause();
      grid.Clear();
      generation := 0;
      if hasUpdateHook {
        notifications := notifications + 1;
      }
    }

    /** `setRule(presetName)`: handed to the rule; the generation, the timer
        and the callback are untouched. */
    method SetRule(presetName: string)
      requires Valid()
      modifies rules
      ensures Valid()
      ensures match Chosen(presetName)
        case Some(choice) =>
          rules.birth == choice.birth && rules.survival == choice.survival
          && rules.currentPreset == choice.name
        case None =>
          rules.birth == old(rules.birth) && rules.survival == old(rules.survival)
          && rules.currentPreset == old(rules.currentPreset)
    {
      rules.SetRule(presetName);
    }

    method SetCustomRule(birth: seq<int>, survival: seq<int>)
      requires Valid()
      modifies rules
      ensures Valid()
      ensures rules.birth == Dedup(birth) && rules.survival == Dedup(survival)
      ensures rules.currentPreset == "Custom"
    {
      rules.SetCustomRule(birth, survival);
    }

    /** `loadPattern(pattern)`: stop, place the pattern at the centre and
        return to generation 0. */
    method LoadPattern(pattern: seq<Cell>)
      requires Valid()
      modifies this, grid
      ensures Valid() && !isRunning && intervalId == None
      ensures grid == old(grid) && grid.cells == Centred(pattern, grid.size)
      ensures rules == old(rules) && generation == 0 && speed == old(speed)
      ensures hasUpdateHook == old(hasUpdateHook) && timersIssued == old(timersIssued)
      ensures notifications == old(notifications) + (if hasUpdateHook then 1 else 0)
    {
      Pause();
      grid.LoadPattern(pattern);
      generation := 0;
      if hasUpdateHook {
        notifications := notifications + 1;
      }
    }

    /** `randomFill(density)`, with the random draws passed in. */
    method RandomFill(density: real, chance: Cell -> real)
      requires Valid()
      modifies this, grid
      ensures Valid() && !isRunning && intervalId == None
      ensures grid == old(grid) && grid.cells == RandomCells(grid.size, chance, density)
      ensures rules == old(rules) && generation == 0 && speed == old(speed)
      ensures hasUpdateHook == old(hasUpdateHook) && timersIssued == old(timersIssued)
      ensures notifications == old(notifications) + (if hasUpdateHook then 1 else 0)
    {
      Pause();
      grid.RandomFill(density, chance);
      generation := 0;
      if hasUpdateHook {
        notifications := notifications + 1;
      }
    }

    /** `getStats()`: the generation counter, the number of stored keys, the
        rule's label (which splits at its slash into the birth and survival
        parts), the running flag and the speed. */
    function GetStats(): (stats: Stats)
      reads this, grid, rules
      ensures stats.generation == generation && stats.isRunning == isRunning && stats.speed == speed
      ensures stats.population == |KeysOf(grid.cells)|
      ensures Split(stats.rule, '/') == ["B" + CountsLabel(rules.birth), "S" + CountsLabel(rules.survival)]
    {
      Stats(generation, grid.GetPopulation(), rules.GetRuleString(), isRunning, speed)
    }
  }
}
