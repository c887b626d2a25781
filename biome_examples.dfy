/** The rule table of the terrain-maker program, and scenarios showing how the
    classifier orders, matches and falls back, stated against the model of the
    classifier. */
module BiomeExamples {
  import opened Noise
  import opened Biome

  /** The ten rules the program passes to Map, in declaration order. */
  function MainTable(): seq<BiomeDefinition>
  {
    [ BiomeDefinition(0, "Deep Sea", 0.40, 1.0, NRGBA(0x02, 0x2F, 0x8e, 255)),
      BiomeDefinition(1, "Coastal Water", 0.5, 1.0, NRGBA(0x1c, 0x70, 0xc8, 255)),
      BiomeDefinition(2, "Beach", 0.52, 1.0, NRGBA(0xc2, 0xb2, 0x80, 255)),
      BiomeDefinition(3, "Desert", 0.75, 0.15, NRGBA(0xfa, 0xd5, 0xa5, 255)),
      BiomeDefinition(4, "Grassland", 0.75, 0.4, NRGBA(0x3f, 0x9b, 0x0b, 255)),
      BiomeDefinition(5, "Forest", 0.75, 1.0, NRGBA(0x2e, 0x6f, 0x40, 255)),
      BiomeDefinition(6, "Tundra", 0.85, 0.5, NRGBA(0x8c, 0x9c, 0x5c, 255)),
      BiomeDefinition(7, "Highlands", 0.85, 1.0, NRGBA(0x7a, 0x94, 0x61, 255)),
      BiomeDefinition(8, "Mountains", 1.0, 0.6, NRGBA(64, 64, 64, 255)),
      BiomeDefinition(8, "Snow", 1.0, 1.0, NRGBA(0xff, 0xfa, 0xfa, 255)) ]
  }

  /** The program's table is already in sort order and no two of its rules
      share a key. */
  lemma MainTableSortedWithDistinctKeys()
    ensures Sorted(MainTable())
    ensures KeysDistinct(MainTable())
  {
    ChainIsSortedWithDistinctKeys(MainTable());
  }

  /** Hence sorting the program's table, stable or not, yields the table
      itself, and the scan order is the declaration order. */
  lemma MainTableSortsToItself(s: seq<BiomeDefinition>)
    requires SortedPermutation(s, MainTable())
    ensures s == MainTable()
  {
    MainTableSortedWithDistinctKeys();
    SortedPermutationUnique(MainTable(), s);
  }

  /** A dry lowland cell of the program's table is Desert, the first of the
      three rules tied at elevation 0.75. */
  lemma MainTablePicksDesert()
    ensures Pick(0.6, 0.1, MainTable()).name == "Desert"
  {
    PickIsFirstMatch(0.6, 0.1, MainTable(), 3);
  }

  /** A wetter lowland cell skips Desert for Grassland. */
  lemma MainTablePicksGrassland()
    ensures Pick(0.6, 0.3, MainTable()).name == "Grassland"
  {
    PickIsFirstMatch(0.6, 0.3, MainTable(), 4);
  }

  /** A dry peak is Mountains, although Snow covers it too. */
  lemma MainTablePicksMountains()
    ensures Pick(0.95, 0.5, MainTable()).name == "Mountains"
    ensures Covers(MainTable()[9], 0.95, 0.5)
  {
    PickIsFirstMatch(0.95, 0.5, MainTable(), 8);
  }

  /** A cell above every elevation threshold falls back to the last rule. */
  lemma MainTableFallback(moisture: real)
    ensures Pick(1.5, moisture, MainTable()).name == "Snow"
  {
    PickFallback(1.5, moisture, MainTable());
  }

  /** Mountains and Snow carry the same id, so the id buffer cannot tell them
      apart while the colour buffer can. */
  lemma MountainsAndSnowShareAnId()
    ensures MainTable()[8].id == MainTable()[9].id
    ensures MainTable()[8].color != MainTable()[9].color
  {
  }

  /** Two rules tied on elevation are ordered by moisture: the cell
      (0.4, 0.2) matches the drier rule B in every sorted arrangement, although
      the declaration order would have matched A. */
  lemma OrderingSensitivity(s: seq<BiomeDefinition>)
    requires SortedPermutation(s, [RuleA(), RuleB()])
    ensures Pick(0.4, 0.2, [RuleA(), RuleB()]) == RuleA()
    ensures 0 < |s| && Pick(0.4, 0.2, s) == RuleB()
  {
    var rules := [RuleA(), RuleB()];
    assert KeysDistinct(rules);
    assert SortedPermutation([RuleB(), RuleA()], rules);
    PickIndependentOfSortWhenKeysDistinct(0.4, 0.2, rules, s, [RuleB(), RuleA()]);
  }

  function RuleA(): BiomeDefinition
  {
    BiomeDefinition(1, "A", 0.5, 1.0, NRGBA(0, 0, 0, 255))
  }

  function RuleB(): BiomeDefinition
  {
    BiomeDefinition(2, "B", 0.5, 0.3, NRGBA(255, 255, 255, 255))
  }

  /** Rules with equal keys: both orders are sorted arrangements of the table,
      and they classify the same cell differently, so only the multiset of a
      tie is determined by the sort. */
  lemma KeyTieLeavesPickOpen()
    ensures SortedPermutation([TieA(), TieB()], [TieA(), TieB()])
    ensures SortedPermutation([TieB(), TieA()], [TieA(), TieB()])
    ensures Pick(0.1, 0.1, [TieA(), TieB()]).id != Pick(0.1, 0.1, [TieB(), TieA()]).id
  {
    assert multiset([TieB(), TieA()]) == multiset([TieA(), TieB()]);
  }

  function TieA(): BiomeDefinition
  {
    BiomeDefinition(1, "first", 0.5, 0.5, NRGBA(0, 0, 0, 255))
  }

  function TieB(): BiomeDefinition
  {
    BiomeDefinition(2, "second", 0.5, 0.5, NRGBA(255, 255, 255, 255))
  }

  /** A 4-by-4 grid of elevation 0.3 on the range [0, 1] and moisture 0.1,
      with the single rule (1.0, 1.0): every cell gets that rule's id and
      colour. */
  method SingleRuleScenario() returns (ids: seq<uint8>, colors: seq<NRGBA>)
    ensures |ids| == 16 && |colors| == 16
    ensures forall offset :: 0 <= offset < 16 ==> ids[offset] == 7 && colors[offset] == NRGBA(10, 20, 30, 255)
  {
    var rule := BiomeDefinition(7, "Everything", 1.0, 1.0, NRGBA(10, 20, 30, 255));
    var elevation := NoiseData(seq(16, _ => 0.3), 4, 4, 0.0, 1.0);
    var moisture := NoiseData(seq(16, _ => 0.1), 4, 4, 0.0, 1.0);
    var rules := new BiomeDefinition[1];
    rules[0] := rule;
    var biomeMap, colorMap := Map(elevation, moisture, rules);
    assert rules[..] == [rule];
    ghost var sorted :| SortedPermutation(sorted, [rule]) &&
      (forall offset :: 0 <= offset < biomeMap.Length ==>
        0 < |sorted| &&
        biomeMap[offset] == Classify(elevation, moisture, sorted, offset).id &&
        colorMap[offset] == Classify(elevation, moisture, sorted, offset).color);
    SingletonSort(sorted, rule);
    ids, colors := biomeMap[..], colorMap[..];
    forall offset | 0 <= offset < 16
      ensures ids[offset] == 7 && colors[offset] == NRGBA(10, 20, 30, 255)
    {
      assert Classify(elevation, moisture, [rule], offset) == rule;
    }
  }

  /** The only arrangement of a single rule is the rule itself. */
  lemma SingletonSort(s: seq<BiomeDefinition>, rule: BiomeDefinition)
    requires multiset(s) == multiset([rule])
    ensures s == [rule]
  {
    assert |s| == |multiset(s)| == 1;
    assert s[0] in multiset(s);
  }
}
