/** The life rule: which neighbour counts give birth to a dead cell and which
    keep a live one alive, the region of the lattice one generation can
    change, and the compact `B…/S…` label. */
module Rules {
  import opened Coords
  import opened Wrappers
  import opened JsText
  import opened JsObject
  import opened Constants
  import opened Grid3D
  import opened Seqs

  // ------------------------------------------------------------ Set of counts

  /** `new Set(values)`, enumerated: each value once, in order of its first
      occurrence. */
  function Dedup(values: seq<int>): (r: seq<int>)
    ensures Distinct(r)
    ensures forall v :: v in r <==> v in values
    decreases |values|
  {
    if values == [] then []
    else
      var front := values[..|values| - 1];
      var last := values[|values| - 1];
      assert values == front + [last];
      var d := Dedup(front);
      if last in d then d else d + [last]
  }

  /** Values that are already distinct pass through unchanged, in order. */
  lemma {:induction false} DedupDistinct(values: seq<int>)
    requires Distinct(values)
    ensures Dedup(values) == values
    decreases |values|
  {
    if values != [] {
      var front := values[..|values| - 1];
      assert Distinct(front);
      DedupDistinct(front);
      assert values[|values| - 1] !in front;
      assert values == front + [values[|values| - 1]];
    }
  }

  /** Repeats are dropped: `new Set([5, 5, 6])` holds 5 and 6. */
  lemma DedupExample()
    ensures Dedup([5, 5, 6]) == [5, 6]
  {
    assert [5, 5, 6][..2] == [5, 5];
    assert [5, 5][..1] == [5];
    assert [5][..0] == [];
  }

  // --------------------------------------------------------------- next state

  /** `getNextState(isAlive, neighborCount)`. */
  predicate NextState(birth: seq<int>, survival: seq<int>, isAlive: bool, neighborCount: int) {
    if isAlive then neighborCount in survival else neighborCount in birth
  }

  /** A rule installed from arrays (through `new Set`) judges a cell by the
      arrays themselves: a live cell survives exactly when its count is among
      the survival values given, a dead one is born exactly when its count is
      among the birth values given, repeats and order notwithstanding. */
  lemma NextStateOfArrays(birth: seq<int>, survival: seq<int>, isAlive: bool, n: int)
    ensures NextState(Dedup(birth), Dedup(survival), isAlive, n) == (if isAlive then n in survival else n in birth)
  {
  }

  /** The default Amoeba rule on a few counts. */
  lemma NextStateAmoeba()
    ensures var p := RulePreset([5, 6], [4, 5, 6, 7]);
      NextState(p.birth, p.survival, false, 5) && !NextState(p.birth, p.survival, false, 4)
      && NextState(p.birth, p.survival, true, 4) && !NextState(p.birth, p.survival, true, 8)
  {
  }

  // ------------------------------------------------------------ active region

  /** A cell and the 26 cells around it. */
  function Neighbourhood(c: Cell, size: int): set<Cell>
    requires size >= 1
  {
    {c} + NeighbourCells(size, c)
  }

  /** The cells whose state can change in one generation: the live cells and
      every cell one offset away from a live cell. */
  function ActiveRegion(cells: set<Cell>, size: int): set<Cell>
    requires size >= 1
  {
    set c, w | c in cells && w in Neighbourhood(c, size) :: w
  }

  lemma ActiveRegionMembers(cells: set<Cell>, size: int, c: Cell, o: Offset)
    requires size >= 1 && c in cells && o in NeighborOffsets
    ensures c in ActiveRegion(cells, size)
    ensures WrapCell(Translate(c, o), size) in ActiveRegion(cells, size)
  {
    assert c in Neighbourhood(c, size);
    assert WrapCell(Translate(c, o), size) in Neighbourhood(c, size);
  }

  lemma LiveInRegion(cells: set<Cell>, size: int, c: Cell)
    requires size >= 1
    ensures c in cells ==> c in ActiveRegion(cells, size)
  {
    if c in cells {
      assert c in Neighbourhood(c, size);
    }
  }

  /** The region lies on the lattice when the live cells do. */
  lemma ActiveRegionCanonical(cells: set<Cell>, size: int)
    requires size >= 1 && Canonical(cells, size)
    ensures Canonical(ActiveRegion(cells, size), size)
  {
  }

  lemma ActiveRegionRemove(cells: set<Cell>, size: int, c: Cell)
    requires size >= 1 && c in cells
    ensures ActiveRegion(cells, size) == ActiveRegion(cells - {c}, size) + Neighbourhood(c, size)
  {
  }

  /** Each live cell adds at most 27 cells to check. */
  lemma NeighbourhoodBound(c: Cell, size: int)
    requires size >= 1
    ensures |Neighbourhood(c, size)| <= 27
  {
    ReachedByAll(size, c);
    ReachedByFirstBound(size, c, |NeighborOffsets|);
  }

  lemma {:induction false} ActiveRegionBound(cells: set<Cell>, size: int)
    requires size >= 1
    ensures |ActiveRegion(cells, size)| <= 27 * |cells|
    decreases |cells|
  {
    if cells == {} {
      assert ActiveRegion(cells, size) == {};
    } else {
      var c :| c in cells;
      ActiveRegionRemove(cells, size, c);
      ActiveRegionBound(cells - {c}, size);
      NeighbourhoodBound(c, size);
      UnionBound(ActiveRegion(cells - {c}, size), Neighbourhood(c, size));
    }
  }

  lemma UnionBound(a: set<Cell>, b: set<Cell>)
    ensures |a + b| <= |a| + |b|
  {
    assert a + b == a + (b - a);
  }

  /** A lattice cell outside the region is dead and has no live neighbour,
      so no rule without 0 among its birth counts can bring it to life. */
  lemma OutsideRegionQuiet(cells: set<Cell>, size: int, c: Cell)
    requires size >= 1 && Canonical(cells, size) && InRange(c, size)
    requires c !in ActiveRegion(cells, size)
    ensures !AliveAt(cells, size, c)
    ensures NeighborCount(cells, size, c) == 0
  {
    LiveInRegion(cells, size, c);
    NoLiveAmongFirst(cells, size, c, |NeighborOffsets|);
  }

  lemma {:induction false} NoLiveAmongFirst(cells: set<Cell>, size: int, c: Cell, n: nat)
    requires size >= 1 && Canonical(cells, size) && InRange(c, size)
    requires n <= |NeighborOffsets|
    requires c !in ActiveRegion(cells, size)
    ensures LiveAmongFirst(cells, size, c, n) == 0
  {
    if n > 0 {
      NoLiveAmongFirst(cells, size, c, n - 1);
      var o := NeighborOffsets[n - 1];
      var w := WrapCell(Translate(c, o), size);
      if w in cells {
        // the opposite offset leads from the live cell `w` back to `c`
        NeighborOffsetsSymmetric(o);
        WrapCellStepBack(c, o, size);
        assert WrapCell(Translate(w, Negate(o)), size) == c;
        ActiveRegionMembers(cells, size, w, Negate(o));
        assert false;
      }
    }
  }

  /** The region of the first `i` cells of a listing of the live cells. */
  function RegionOfFirst(live: seq<Cell>, i: int, size: int): set<Cell>
    requires size >= 1 && 0 <= i <= |live|
  {
    set k, w | 0 <= k < i && w in Neighbourhood(live[k], size) :: w
  }

  lemma RegionOfFirstStep(live: seq<Cell>, i: int, size: int)
    requires size >= 1 && 0 <= i < |live|
    ensures RegionOfFirst(live, i + 1, size) == RegionOfFirst(live, i, size) + Neighbourhood(live[i], size)
  {
    forall w | w in Neighbourhood(live[i], size) ensures w in RegionOfFirst(live, i + 1, size) {
      assert 0 <= i < i + 1;
    }
  }

  /** Any listing of the live cells yields the same region. */
  lemma RegionOfListing(live: seq<Cell>, cells: set<Cell>, size: int)
    requires size >= 1
    requires forall c :: c in live <==> c in cells
    ensures RegionOfFirst(live, |live|, size) == ActiveRegion(cells, size)
  {
    forall w | w in ActiveRegion(cells, size) ensures w in RegionOfFirst(live, |live|, size) {
      var c :| c in cells && w in Neighbourhood(c, size);
      var k :| 0 <= k < |live| && live[k] == c;
    }
  }

  lemma NeighbourhoodStep(live: seq<Cell>, i: int, size: int, base: set<Cell>, region: set<Cell>)
    requires size >= 1 && 0 <= i < |live|
    requires base == RegionOfFirst(live, i, size) + {live[i]}
    requires region == base + ReachedByFirst(size, live[i], |NeighborOffsets|)
    ensures region == RegionOfFirst(live, i + 1, size)
  {
    ReachedByAll(size, live[i]);
    RegionOfFirstStep(live, i, size);
  }

  lemma ReachedStep(base: set<Cell>, region: set<Cell>, size: int, c: Cell, j: int)
    requires size >= 1 && 0 <= j < |NeighborOffsets|
    requires region == base + ReachedByFirst(size, c, j)
    ensures region + {Reached(size, c, j)} == base + ReachedByFirst(size, c, j + 1)
  {
    ReachedByFirstStep(size, c, j + 1);
  }

  lemma KeysOfAdd(cells: set<Cell>, w: Cell)
    ensures KeysOf(cells + {w}) == KeysOf(cells) + {Key(w)}
  {
  }

  // ------------------------------------------------------------------- label

  /** `${n}` of every count, in order. */
  function Texts(counts: seq<int>): (texts: seq<string>)
    ensures |texts| == |counts|
    ensures forall i :: 0 <= i < |counts| ==> texts[i] == IntToString(counts[i])
    decreases |counts|
  {
    if counts == [] then [] else [IntToString(counts[0])] + Texts(counts[1..])
  }

  /** `[...counts].sort().join('')`: the decimal texts in string order, run
      together. */
  function CountsLabel(counts: seq<int>): (text: string)
    ensures forall ch :: ch in text ==> NumeralChar(ch)
  {
    SortedTextsNumerals(counts);
    ConcatNumerals(Sort(Texts(counts)));
    Concat(Sort(Texts(counts)))
  }

  /** Every character of the sorted texts belongs to some count's text. */
  lemma SortedTextsNumerals(counts: seq<int>)
    ensures forall p, ch :: p in Sort(Texts(counts)) && ch in p ==> NumeralChar(ch)
  {
    forall p, ch | p in Sort(Texts(counts)) && ch in p ensures NumeralChar(ch) {
      assert p in multiset(Sort(Texts(counts)));
      var i :| 0 <= i < |Texts(counts)| && Texts(counts)[i] == p;
    }
  }

  /** `getRuleString()`: "B", the birth label, "/S", the survival label. The
      labels hold no slash, so the text splits at its one slash back into
      the birth part and the survival part. */
  function RuleString(birth: seq<int>, survival: seq<int>): (text: string)
    ensures Split(text, '/') == ["B" + CountsLabel(birth), "S" + CountsLabel(survival)]
  {
    var b, s := "B" + CountsLabel(birth), "S" + CountsLabel(survival);
    assert '/' !in CountsLabel(birth) && '/' !in CountsLabel(survival);
    SplitPair(b, s, '/');
    b + ['/'] + s
  }

  lemma IntToStringInjective(a: int, b: int)
    requires IntToString(a) == IntToString(b)
    ensures a == b
  {
    assert ParseNumber(IntToString(a)) == Some(a);
  }

  lemma TextsDistinct(counts: seq<int>)
    requires Distinct(counts)
    ensures Distinct(Texts(counts))
  {
    forall i, j | 0 <= i < j < |counts| ensures Texts(counts)[i] != Texts(counts)[j] {
      if Texts(counts)[i] == Texts(counts)[j] {
        IntToStringInjective(counts[i], counts[j]);
      }
    }
  }

  lemma TextsSameElements(a: seq<int>, b: seq<int>)
    requires forall v :: v in a <==> v in b
    ensures forall t :: t in Texts(a) <==> t in Texts(b)
  {
    forall t | t in Texts(a) ensures t in Texts(b) {
      var i :| 0 <= i < |a| && Texts(a)[i] == t;
      assert a[i] in a;
      var j :| 0 <= j < |b| && b[j] == a[i];
      assert Texts(b)[j] == t;
    }
    forall t | t in Texts(b) ensures t in Texts(a) {
      var j :| 0 <= j < |b| && Texts(b)[j] == t;
      assert b[j] in b;
      var i :| 0 <= i < |a| && a[i] == b[j];
      assert Texts(a)[i] == t;
    }
  }

  /** The label depends only on which counts the sets hold, not on the order
      they were inserted in. */
  lemma CountsLabelOrderFree(a: seq<int>, b: seq<int>)
    requires Distinct(a) && Distinct(b)
    requires forall v :: v in a <==> v in b
    ensures CountsLabel(a) == CountsLabel(b)
  {
    TextsDistinct(a);
    TextsDistinct(b);
    TextsSameElements(a, b);
    DistinctSameElements(Texts(a), Texts(b));
    SortedUnique(Sort(Texts(a)), Sort(Texts(b)));
  }

  lemma RuleStringOrderFree(b1: seq<int>, s1: seq<int>, b2: seq<int>, s2: seq<int>)
    requires Distinct(b1) && Distinct(s1) && Distinct(b2) && Distinct(s2)
    requires forall v :: v in b1 <==> v in b2
    requires forall v :: v in s1 <==> v in s2
    ensures RuleString(b1, s1) == RuleString(b2, s2)
  {
    CountsLabelOrderFree(b1, b2);
    CountsLabelOrderFree(s1, s2);
  }

  /** Counts that are single digits in increasing order are labelled by
      those digits in the same order. */
  lemma DigitsLabel(counts: seq<int>, text: string)
    requires |text| == |counts|
    requires forall i :: 0 <= i < |counts| ==> 0 <= counts[i] < 10 && text[i] == DigitChar(counts[i])
    requires forall i, j :: 0 <= i < j < |counts| ==> counts[i] < counts[j]
    ensures CountsLabel(counts) == text
  {
    var texts := Texts(counts);
    forall i | 0 <= i < |texts| ensures texts[i] == [text[i]] {
      assert NatToString(counts[i]) == [DigitChar(counts[i])];
    }
    forall i, j | 0 <= i < j < |texts| ensures LexLe(texts[i], texts[j]) {
      assert texts[i][0] < texts[j][0];
    }
    SortSorted(texts);
    ConcatSingles(texts, text);
  }

  /** The default rule reads `B56/S4567`. */
  lemma RuleStringDefault(birth: seq<int>, survival: seq<int>)
    requires birth == [5, 6] && survival == [4, 5, 6, 7]
    ensures RuleString(birth, survival) == "B56/S4567"
  {
    LabelOfFiveSix(birth);
    LabelOfFourToSeven(survival);
    assert ("B" + "56") + ['/'] + ("S" + "4567") == "B56/S4567";
  }

  lemma LabelOfFiveSix(counts: seq<int>)
    requires counts == [5, 6]
    ensures CountsLabel(counts) == "56"
  {
    DigitsLabel(counts, "56");
  }

  lemma LabelOfFourToSeven(counts: seq<int>)
    requires counts == [4, 5, 6, 7]
    ensures CountsLabel(counts) == "4567"
  {
    DigitsLabel(counts, "4567");
  }

  /** Counts are ordered by their text, so birth on 10 and 4 reads `B104/S`:
      "10" comes before "4". */
  lemma RuleStringTextOrder(birth: seq<int>, survival: seq<int>)
    requires birth == [10, 4] && survival == []
    ensures RuleString(birth, survival) == "B104/S"
  {
    LabelOfTenFour(birth);
    DigitsLabel(survival, "");
    assert ("B" + "104") + ['/'] + ("S" + "") == "B104/S";
  }

  lemma LabelOfTenFour(counts: seq<int>)
    requires counts == [10, 4]
    ensures CountsLabel(counts) == "104"
  {
    var texts := Texts(counts);
    assert texts[0] == "10" by {
      assert NatToString(1) == "1";
      assert NatToString(10) == NatToString(1) + [DigitChar(0)];
    }
    assert texts[1] == "4" by {
      assert NatToString(4) == [DigitChar(4)];
    }
    assert LexLe(texts[0], texts[1]);
    SortSorted(texts);
    assert Concat(texts[1..]) == "4" by {
      assert texts[1..][0] == "4" && texts[1..][1..] == [];
    }
    assert Concat(texts) == "10" + "4";
  }

  // ------------------------------------------------------------ preset choice

  /** The outcome of choosing a rule by name. */
  datatype Choice = Choice(birth: seq<int>, survival: seq<int>, name: string)

  /** What choosing `name` installs when only the catalogue's own entries
      are looked up; `None` leaves the rule as it was. */
  function Chosen(name: string): (r: Option<Choice>)
    ensures r.Some? <==> name in Keys(RulePresets)
    ensures r.Some? ==> r.value.name == name && Distinct(r.value.birth) && Distinct(r.value.survival)
  {
    match Get(RulePresets, name)
    case Some(p) => Some(Choice(Dedup(p.birth), Dedup(p.survival), name))
    case None => None
  }

  /** `this.presets[presetName]` read as the language defines it: a name
      inherited from `Object.prototype` is found too, and `new Set` of its
      missing `birth` and `survival` is empty. */
  function ChosenAsWritten(name: string): Option<Choice> {
    match GetProperty(RulePresets, name)
    case Own(p) => Some(Choice(Dedup(p.birth), Dedup(p.survival), name))
    case Inherited => Some(Choice([], [], name))
    case Absent => None
  }

  /** Choosing a catalogue entry installs its counts exactly. */
  lemma ChosenPreset(i: int)
    requires 0 <= i < |RulePresets|
    ensures Chosen(RulePresets[i].0)
            == Some(Choice(RulePresets[i].1.birth, RulePresets[i].1.survival, RulePresets[i].0))
  {
    RulePresetNamesDistinct();
    GetOwnProperty(RulePresets, i);
    RulePresetCountsDistinct(i);
    DedupDistinct(RulePresets[i].1.birth);
    DedupDistinct(RulePresets[i].1.survival);
  }

  lemma ChosenDefault()
    ensures Chosen(DefaultRule) == Some(Choice([5, 6], [4, 5, 6, 7], DefaultRule))
  {
    assert RulePresets[4].0 == DefaultRule;
    ChosenPreset(4);
  }

  lemma RulePresetCountsDistinct(i: int)
    requires 0 <= i < |RulePresets|
    ensures Distinct(RulePresets[i].1.birth) && Distinct(RulePresets[i].1.survival)
  {
  }

  /** The two readings agree on every name except those inherited from
      `Object.prototype`. */
  lemma ChosenAgrees(name: string)
    requires name !in ObjectPrototypeNames
    ensures ChosenAsWritten(name) == Chosen(name)
  {
  }

  /** As written, choosing "toString" installs a rule under which nothing is
      ever born or survives, labelled `B/S`. */
  lemma ChosenAsWrittenInherited()
    ensures "toString" !in Keys(RulePresets)
    ensures ChosenAsWritten("toString") == Some(Choice([], [], "toString"))
    ensures Chosen("toString") == None
    ensures RuleString([], []) == "B/S"
  {
    assert "toString" == ObjectPrototypeNames[8];
    RulePresetKeys();
    assert "toString" !in PresetNames;
    assert GetProperty(RulePresets, "toString").Inherited?;
  }

  lemma RulePresetKeys()
    ensures Keys(RulePresets) == PresetNames
  {
    var keys := Keys(RulePresets);
    forall i | 0 <= i < |keys| ensures keys[i] == PresetNames[i] {
    }
  }

  const PresetNames: seq<string> := [
    "4-5/5 Pyroclastic", "5-7/5-8 445", "6-7/5-7 Builder", "4-6/4-6 Symmetry",
    "5-6/4-7 Amoeba", "4/5-8 Crystal", "6-9/4-9 Sponge"
  ]

  // ------------------------------------------------------------------- class

  class Rules {
    var birth: seq<int>
    var survival: seq<int>
    var currentPreset: string

    ghost predicate Valid()
      reads this
    {
      Distinct(birth) && Distinct(survival)
    }

    /** A new rule object holds the default preset. */
    constructor ()
      ensures Valid()
      ensures birth == [5, 6] && survival == [4, 5, 6, 7] && currentPreset == DefaultRule
    {
      birth, survival, currentPreset := [], [], "";
      new;
      SetRule(DefaultRule);
      ChosenDefault();
    }

    /** `setRule(presetName)`: a catalogue name installs that preset, any other
        name changes nothing. */
    method SetRule(presetName: string)
      requires Valid()
      modifies this
      ensures Valid()
      ensures match Chosen(presetName)
        case Some(choice) =>
          birth == choice.birth && survival == choice.survival && currentPreset == choice.name
        case None =>
          birth == old(birth) && survival == old(survival) && currentPreset == old(currentPreset)
    {
      var preset := Get(RulePresets, presetName);
      if preset.Some? {
        birth := Dedup(preset.value.birth);
        survival := Dedup(preset.value.survival);
        currentPreset := presetName;
      }
    }

    /** `setCustomRule(birthCounts, survivalCounts)`. */
    method SetCustomRule(birthCounts: seq<int>, survivalCounts: seq<int>)
      modifies this
      ensures Valid()
      ensures birth == Dedup(birthCounts) && survival == Dedup(survivalCounts)
      ensures currentPreset == "Custom"
    {
      birth := Dedup(birthCounts);
      survival := Dedup(survivalCounts);
      currentPreset := "Custom";
    }

    predicate GetNextState(isAlive: bool, neighborCount: int)
      reads this
    {
      NextState(birth, survival, isAlive, neighborCount)
    }

    /** `getCellsToCheck(grid)`: the keys of every live cell and of every cell
        one offset away from one. */
    method GetCellsToCheck(grid: Grid3D) returns (toCheck: set<string>)
      requires grid.Valid()
      ensures toCheck == KeysOf(ActiveRegion(grid.cells, grid.size))
    {
      var size := grid.size;
      var live := grid.GetLiveCells();
      toCheck := {};
      ghost var region: set<Cell> := {};
      assert RegionOfFirst(live, 0, size) == {};
      var i := 0;
      while i < |live|
        invariant 0 <= i <= |live|
        invariant region == RegionOfFirst(live, i, size)
        invariant toCheck == KeysOf(region)
      {
        var c := live[i];
        toCheck := toCheck + {Key(c)};
        KeysOfAdd(region, c);
        region := region + {c};
        ghost var base := region;
        assert ReachedByFirst(size, c, 0) == {};
        var j := 0;
        while j < |NeighborOffsets|
          invariant 0 <= j <= |NeighborOffsets|
          invariant region == base + ReachedByFirst(size, c, j)
          invariant toCheck == KeysOf(region)
        {
          var w := WrapCell(Translate(c, NeighborOffsets[j]), size);
          toCheck := toCheck + {Key(w)};
          KeysOfAdd(region, w);
          ReachedStep(base, region, size, c, j);
          region := region + {w};
          j := j + 1;
        }
        NeighbourhoodStep(live, i, size, base, region);
        i := i + 1;
      }
      RegionOfListing(live, grid.cells, size);
    }

    function GetRuleString(): string
      reads this
    {
      RuleString(birth, survival)
    }

    /** `getPresetNames()`: the catalogue's names in declaration order. */
    function GetPresetNames(): (names: seq<string>)
      ensures names == PresetNames
      ensures forall name :: name in names <==> Chosen(name).Some?
    {
      RulePresetKeys();
      Keys(RulePresets)
    }
  }
}
