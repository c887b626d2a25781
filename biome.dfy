/** The biome classifier: sorts the caller's biome rules by their thresholds
    and gives every grid cell the id and colour of the first rule that covers
    the cell's rescaled elevation and its moisture. */
module Biome {
  import opened Noise
  import opened Grid

  newtype uint8 = x: int | 0 <= x < 256

  /** A colour with non-premultiplied alpha, one byte per channel. */
  datatype NRGBA = NRGBA(r: uint8, g: uint8, b: uint8, a: uint8)

  /** One classification rule: a cell belongs to this biome when its elevation
      and its moisture are both at most the rule's thresholds. */
  datatype BiomeDefinition = BiomeDefinition(
    id: uint8,
    name: string,
    maxElevation: real,
    maxMoisture: real,
    color: NRGBA)

  // ---------------------------------------------------------------------------
  // The sort order
  // ---------------------------------------------------------------------------

  /** The comparator of the rule table: elevation threshold first, moisture
      threshold on a tie. */
  predicate Less(a: BiomeDefinition, b: BiomeDefinition)
  {
    if a.maxElevation < b.maxElevation then
      true
    else if a.maxElevation == b.maxElevation then
      a.maxMoisture < b.maxMoisture
    else
      false
  }

  /** Two rules the comparator cannot tell apart. */
  predicate SameKey(a: BiomeDefinition, b: BiomeDefinition)
  {
    a.maxElevation == b.maxElevation && a.maxMoisture == b.maxMoisture
  }

  lemma LessIsLexicographic(a: BiomeDefinition, b: BiomeDefinition)
    ensures Less(a, b) <==>
      a.maxElevation < b.maxElevation ||
      (a.maxElevation == b.maxElevation && a.maxMoisture < b.maxMoisture)
  {
  }

  lemma LessIsStrictOrder(a: BiomeDefinition, b: BiomeDefinition, c: BiomeDefinition)
    ensures !Less(a, a)
    ensures Less(a, b) ==> !Less(b, a)
    ensures Less(a, b) && Less(b, c) ==> Less(a, c)
  {
  }

  /** The comparator is total up to equal keys: of two rules, exactly one is
      less, or the two have the same key. */
  lemma LessTrichotomy(a: BiomeDefinition, b: BiomeDefinition)
    ensures Less(a, b) || Less(b, a) || SameKey(a, b)
    ensures SameKey(a, b) ==> !Less(a, b) && !Less(b, a)
  {
  }

  /** Non-decreasing in the (maxElevation, maxMoisture) key. */
  predicate Sorted(rules: seq<BiomeDefinition>)
  {
    forall i, j :: 0 <= i < j < |rules| ==> !Less(rules[j], rules[i])
  }

  /** `sorted` is the rule table `rules` after some sort by Less; rules with
      equal keys may come out in either order. */
  predicate SortedPermutation(sorted: seq<BiomeDefinition>, rules: seq<BiomeDefinition>)
  {
    Sorted(sorted) && multiset(sorted) == multiset(rules)
  }

  /** No two different rules of the table share a key. */
  predicate KeysDistinct(rules: seq<BiomeDefinition>)
  {
    forall a, b :: a in rules && b in rules && SameKey(a, b) ==> a == b
  }

  /** A table in which each rule is strictly Less than the next is sorted and
      has distinct keys. */
  lemma ChainIsSortedWithDistinctKeys(rules: seq<BiomeDefinition>)
    requires forall i :: 0 <= i < |rules| - 1 ==> Less(rules[i], rules[i + 1])
    ensures Sorted(rules)
    ensures KeysDistinct(rules)
  {
    forall i, j | 0 <= i < j < |rules|
      ensures Less(rules[i], rules[j]) && !Less(rules[j], rules[i])
    {
      ChainIsIncreasing(rules, i, j);
      LessIsStrictOrder(rules[i], rules[j], rules[i]);
    }
    forall a, b | a in rules && b in rules && SameKey(a, b)
      ensures a == b
    {
      var i :| 0 <= i < |rules| && rules[i] == a;
      var j :| 0 <= j < |rules| && rules[j] == b;
      LessTrichotomy(a, b);
    }
  }

  lemma {:induction false} ChainIsIncreasing(rules: seq<BiomeDefinition>, i: int, j: int)
    requires forall k :: 0 <= k < |rules| - 1 ==> Less(rules[k], rules[k + 1])
    requires 0 <= i < j < |rules|
    ensures Less(rules[i], rules[j])
    decreases j - i
  {
    if i + 1 < j {
      ChainIsIncreasing(rules, i, j - 1);
      LessIsStrictOrder(rules[i], rules[j - 1], rules[j]);
    }
  }

  /** The Swap of the sort interface. */
  method Swap(a: array<BiomeDefinition>, i: int, j: int)
    requires 0 <= i < a.Length && 0 <= j < a.Length
    modifies a
    ensures a[..] == old(a[..])[i := old(a[j])][j := old(a[i])]
    ensures multiset(a[..]) == old(multiset(a[..]))
  {
    a[i], a[j] := a[j], a[i];
  }

  /** Sorts the rule table in place with Less and Swap. Go's sort.Sort (Go 1.19
      and later) runs this insertion sort on tables of at most twelve rules; on
      larger ones it runs a pattern-defeating quicksort. Either way only the sorted order and
      the permutation are promised, not the order of rules with equal keys. */
  method SortBiomes(a: array<BiomeDefinition>)
    modifies a
    ensures SortedPermutation(a[..], old(a[..]))
  {
    var i := 1;
    while i < a.Length
      invariant 1 <= i
      invariant a.Length == 0 || i <= a.Length
      invariant Sorted(a[..if i <= a.Length then i else a.Length])
      invariant multiset(a[..]) == old(multiset(a[..]))
    {
      var j := i;
      while j > 0 && Less(a[j], a[j - 1])
        invariant 0 <= j <= i
        invariant forall k, l :: 0 <= k < l <= i && k != j && l != j ==> !Less(a[l], a[k])
        invariant forall l :: j < l <= i ==> Less(a[j], a[l])
        invariant multiset(a[..]) == old(multiset(a[..]))
      {
        Swap(a, j, j - 1);
        j := j - 1;
      }
      SortedStep(a[..], i, j);
      i := i + 1;
    }
  }

  /** When the inner loop of SortBiomes stops, the prefix a[..i + 1] is sorted. */
  lemma SortedStep(s: seq<BiomeDefinition>, i: int, j: int)
    requires 0 <= j <= i < |s|
    requires forall k, l :: 0 <= k < l <= i && k != j && l != j ==> !Less(s[l], s[k])
    requires forall l :: j < l <= i ==> Less(s[j], s[l])
    requires j == 0 || !Less(s[j], s[j - 1])
    ensures Sorted(s[..i + 1])
  {
    forall k, l | 0 <= k < l <= i
      ensures !Less(s[l], s[k])
    {
      if l == j {
        if k < j - 1 {
          LessIsStrictOrder(s[k], s[j - 1], s[j]);
          LessTrichotomy(s[j], s[j - 1]);
          LessTrichotomy(s[k], s[j - 1]);
        }
      } else if k == j {
        LessIsStrictOrder(s[j], s[l], s[j]);
      }
    }
  }

  /** A fresh copy of the caller's rule table, sorted; the caller's table is
      left as it was. */
  method SortedCopy(biomes: array<BiomeDefinition>) returns (sortedBiomes: array<BiomeDefinition>)
    ensures fresh(sortedBiomes)
    ensures SortedPermutation(sortedBiomes[..], biomes[..])
    ensures sortedBiomes.Length == biomes.Length
  {
    sortedBiomes := new BiomeDefinition[biomes.Length];
    forall i | 0 <= i < biomes.Length {
      sortedBiomes[i] := biomes[i];
    }
    assert sortedBiomes[..] == biomes[..];
    SortBiomes(sortedBiomes);
    assert |sortedBiomes[..]| == |multiset(sortedBiomes[..])| == |multiset(biomes[..])| == biomes.Length;
  }

  // ---------------------------------------------------------------------------
  // Picking a rule
  // ---------------------------------------------------------------------------

  /** The rule's thresholds both cover the cell. */
  predicate Covers(rule: BiomeDefinition, elevation: real, moisture: real)
  {
    elevation <= rule.maxElevation && moisture <= rule.maxMoisture
  }

  /** The scan of pickBiomeByElevationAndMoisture from position i on: the first
      covering rule at or after i, or the last rule of the whole table when
      none covers. */
  function PickFrom(elevation: real, moisture: real, defs: seq<BiomeDefinition>, i: nat): (r: BiomeDefinition)
    requires 0 < |defs| && i <= |defs|
    ensures r in defs
    ensures (exists k :: i <= k < |defs| && Covers(defs[k], elevation, moisture)) ==>
      Covers(r, elevation, moisture) &&
      exists k :: i <= k < |defs| && defs[k] == r &&
        forall j :: i <= j < k ==> !Covers(defs[j], elevation, moisture)
    ensures (forall k :: i <= k < |defs| ==> !Covers(defs[k], elevation, moisture)) ==>
      r == defs[|defs| - 1]
    decreases |defs| - i
  {
    if i == |defs| then
      defs[|defs| - 1]
    else if Covers(defs[i], elevation, moisture) then
      defs[i]
    else
      PickFrom(elevation, moisture, defs, i + 1)
  }

  /** pickBiomeByElevationAndMoisture: the first rule in list order that covers
      the cell, or the last rule when none does. */
  function Pick(elevation: real, moisture: real, defs: seq<BiomeDefinition>): BiomeDefinition
    requires 0 < |defs|
  {
    PickFrom(elevation, moisture, defs, 0)
  }

  /** When rule k is the first rule of the list that covers the cell, the
      pick is rule k. */
  lemma PickIsFirstMatch(elevation: real, moisture: real, defs: seq<BiomeDefinition>, k: int)
    requires 0 < |defs| && 0 <= k < |defs|
    requires Covers(defs[k], elevation, moisture)
    requires forall j :: 0 <= j < k ==> !Covers(defs[j], elevation, moisture)
    ensures Pick(elevation, moisture, defs) == defs[k]
  {
    var r := Pick(elevation, moisture, defs);
    var k' :| 0 <= k' < |defs| && defs[k'] == r &&
      forall j :: 0 <= j < k' ==> !Covers(defs[j], elevation, moisture);
    if k' < k {
      assert false;
    } else if k < k' {
      assert false;
    }
  }

  lemma PickFallback(elevation: real, moisture: real, defs: seq<BiomeDefinition>)
    requires 0 < |defs|
    requires forall j :: 0 <= j < |defs| ==> !Covers(defs[j], elevation, moisture)
    ensures Pick(elevation, moisture, defs) == defs[|defs| - 1]
  {
  }

  /** On a sorted table the picked rule is a least covering rule: no covering
      rule of the table is strictly Less than it. */
  lemma {:induction false} PickIsLeastMatch(elevation: real, moisture: real, defs: seq<BiomeDefinition>)
    requires 0 < |defs| && Sorted(defs)
    ensures Pick(elevation, moisture, defs) in defs
    ensures forall d :: d in defs && Covers(d, elevation, moisture) ==>
      Covers(Pick(elevation, moisture, defs), elevation, moisture) &&
      !Less(d, Pick(elevation, moisture, defs))
  {
    var r := Pick(elevation, moisture, defs);
    forall d | d in defs && Covers(d, elevation, moisture)
      ensures Covers(r, elevation, moisture) && !Less(d, r)
    {
      var j :| 0 <= j < |defs| && defs[j] == d;
      assert Covers(r, elevation, moisture);
      var k :| 0 <= k < |defs| && defs[k] == r &&
        forall i :: 0 <= i < k ==> !Covers(defs[i], elevation, moisture);
      if j == k {
        LessIsStrictOrder(d, r, r);
      }
    }
  }

  // ---------------------------------------------------------------------------
  // Uniqueness of the sorted table
  // ---------------------------------------------------------------------------

  /** Two sorted arrangements of the same rules are equal when no two different
      rules share a key; so the unstable sort only matters for key ties. */
  lemma {:induction false} SortedPermutationUnique(s: seq<BiomeDefinition>, t: seq<BiomeDefinition>)
    requires Sorted(s) && Sorted(t)
    requires multiset(s) == multiset(t)
    requires KeysDistinct(s)
    ensures s == t
  {
    assert |s| == |multiset(s)| == |multiset(t)| == |t|;
    if |s| > 0 {
      SortedHeadsAgree(s, t);
      SortedTailsArePermutations(s, t);
      SortedPermutationUnique(s[1..], t[1..]);
      assert s == [s[0]] + s[1..];
      assert t == [t[0]] + t[1..];
    }
  }

  /** The first rules of two sorted arrangements of the same rules agree when
      keys are distinct: each is a least element of the other. */
  lemma SortedHeadsAgree(s: seq<BiomeDefinition>, t: seq<BiomeDefinition>)
    requires Sorted(s) && Sorted(t) && 0 < |s| && 0 < |t|
    requires multiset(s) == multiset(t)
    requires KeysDistinct(s)
    ensures s[0] == t[0]
  {
    assert s[0] in multiset(t);
    var j :| 0 <= j < |t| && t[j] == s[0];
    assert t[0] in multiset(s);
    var i :| 0 <= i < |s| && s[i] == t[0];
    assert !Less(t[j], t[0]) by {
      if j != 0 {
        assert 0 < j;
      } else {
        LessIsStrictOrder(t[0], t[0], t[0]);
      }
    }
    assert !Less(s[i], s[0]) by {
      if i != 0 {
        assert 0 < i;
      } else {
        LessIsStrictOrder(s[0], s[0], s[0]);
      }
    }
    LessTrichotomy(s[0], t[0]);
  }

  /** Dropping equal first rules keeps the arrangements permutations of each
      other, sorted, with distinct keys. */
  lemma SortedTailsArePermutations(s: seq<BiomeDefinition>, t: seq<BiomeDefinition>)
    requires Sorted(s) && Sorted(t) && 0 < |s| && 0 < |t| && s[0] == t[0]
    requires multiset(s) == multiset(t)
    requires KeysDistinct(s)
    ensures Sorted(s[1..]) && Sorted(t[1..])
    ensures multiset(s[1..]) == multiset(t[1..])
    ensures KeysDistinct(s[1..])
  {
    assert s == [s[0]] + s[1..];
    assert t == [t[0]] + t[1..];
    assert multiset(s) == multiset{s[0]} + multiset(s[1..]);
    assert multiset(t) == multiset{t[0]} + multiset(t[1..]);
    assert multiset(s[1..]) == multiset(s) - multiset{s[0]};
    assert multiset(t[1..]) == multiset(t) - multiset{t[0]};
    forall a, b | a in s[1..] && b in s[1..] && SameKey(a, b)
      ensures a == b
    {
      assert a in s && b in s;
    }
  }

  /** With distinct keys, every sorted arrangement of the table picks the same
      rule for every cell. */
  lemma PickIndependentOfSortWhenKeysDistinct(
    elevation: real, moisture: real,
    rules: seq<BiomeDefinition>, s: seq<BiomeDefinition>, t: seq<BiomeDefinition>)
    requires 0 < |rules| && KeysDistinct(rules)
    requires SortedPermutation(s, rules) && SortedPermutation(t, rules)
    ensures 0 < |s| && 0 < |t|
    ensures Pick(elevation, moisture, s) == Pick(elevation, moisture, t)
  {
    assert |s| == |multiset(s)| == |multiset(rules)| == |rules|;
    forall a, b | a in s && b in s && SameKey(a, b)
      ensures a == b
    {
      assert a in multiset(s) && b in multiset(s);
      assert a in rules && b in rules;
    }
    SortedPermutationUnique(s, t);
  }

  // ---------------------------------------------------------------------------
  // The map
  // ---------------------------------------------------------------------------

  /** The elevation rescale of Map, kept as the source writes it: the raw sample
      is multiplied by the reciprocal of the range, and only then is the
      minimum subtracted. */
  function Rescale(raw: real, minValue: real, maxValue: real): real
    requires maxValue != minValue
  {
    raw * (1.0 / (maxValue - minValue)) - minValue
  }

  /** The rescale agrees with min-max normalisation on every sample exactly
      when the minimum is 0 or the range is 1. */
  lemma RescaleIsNormalisationIff(minValue: real, maxValue: real)
    requires maxValue != minValue
    ensures (forall raw :: Rescale(raw, minValue, maxValue) == (raw - minValue) / (maxValue - minValue))
      <==> (minValue == 0.0 || maxValue - minValue == 1.0)
  {
    var scale := 1.0 / (maxValue - minValue);
    if minValue != 0.0 && maxValue - minValue != 1.0 {
      assert scale != 1.0;
      assert Rescale(0.0, minValue, maxValue) == -minValue;
      assert (0.0 - minValue) / (maxValue - minValue) == -minValue * scale;
      assert -minValue != -minValue * scale;
    } else {
      forall raw
        ensures Rescale(raw, minValue, maxValue) == (raw - minValue) / (maxValue - minValue)
      {
        assert (raw - minValue) / (maxValue - minValue) == raw * scale - minValue * scale;
      }
    }
  }

  /** What Map stores for the cell at `offset` when it scans the rules in the
      order `sorted`. */
  function Classify(elevationData: NoiseData, moistureData: NoiseData, sorted: seq<BiomeDefinition>, offset: int): BiomeDefinition
    requires elevationData.maxValue != elevationData.minValue
    requires 0 <= offset < |elevationData.data| && offset < |moistureData.data|
    requires 0 < |sorted|
  {
    Pick(Rescale(elevationData.data[offset], elevationData.minValue, elevationData.maxValue),
         moistureData.data[offset], sorted)
  }

  /** A cell's classification depends on the grids only through the cell's own
      two samples and the recorded elevation bounds. */
  lemma ClassifyIsLocal(
    e1: NoiseData, m1: NoiseData, e2: NoiseData, m2: NoiseData,
    sorted: seq<BiomeDefinition>, offset: int)
    requires e1.maxValue != e1.minValue && 0 < |sorted|
    requires 0 <= offset < |e1.data| && offset < |m1.data| && offset < |e2.data| && offset < |m2.data|
    requires e2.minValue == e1.minValue && e2.maxValue == e1.maxValue
    ensures e1.data[offset] == e2.data[offset] && m1.data[offset] == m2.data[offset] ==>
      Classify(e1, m1, sorted, offset) == Classify(e2, m2, sorted, offset)
  {
  }

  /** The first `done` cells of the two output buffers hold the id and the
      colour of the rule classified for them. */
  ghost predicate ClassifiedPrefix(
    ids: seq<uint8>, colors: seq<NRGBA>,
    elevationData: NoiseData, moistureData: NoiseData, sorted: seq<BiomeDefinition>, done: int)
  {
    && 0 <= done <= |ids| && done <= |colors|
    && done <= |elevationData.data| && done <= |moistureData.data|
    && elevationData.maxValue != elevationData.minValue
    && (0 < done ==> 0 < |sorted|)
    && forall offset :: 0 <= offset < done ==>
      ids[offset] == Classify(elevationData, moistureData, sorted, offset).id &&
      colors[offset] == Classify(elevationData, moistureData, sorted, offset).color
  }

  lemma ClassifiedPrefixStep(
    ids: seq<uint8>, colors: seq<NRGBA>,
    elevationData: NoiseData, moistureData: NoiseData, sorted: seq<BiomeDefinition>, done: int,
    biome: BiomeDefinition)
    requires ClassifiedPrefix(ids, colors, elevationData, moistureData, sorted, done)
    requires done < |ids| && done < |colors| && done < |elevationData.data| && done < |moistureData.data|
    requires 0 < |sorted| && biome == Classify(elevationData, moistureData, sorted, done)
    ensures ClassifiedPrefix(ids[done := biome.id], colors[done := biome.color],
      elevationData, moistureData, sorted, done + 1)
  {
  }

  /** Classifies every cell of the elevation grid. Returns the biome ids and the
      colours, row-major; at every offset both come from the same rule, the one
      Pick chooses from some sorted arrangement of the caller's rules, which
      the method leaves as they were. */
  method Map(elevationData: NoiseData, moistureData: NoiseData, biomes: array<BiomeDefinition>)
    returns (biomeMap: array<uint8>, colorMap: array<NRGBA>)
    requires 0 <= elevationData.width && 0 <= elevationData.height
    requires elevationData.width * elevationData.height <= |elevationData.data|
    requires elevationData.width * elevationData.height <= |moistureData.data|
    requires elevationData.maxValue != elevationData.minValue
    requires 0 < elevationData.width * elevationData.height ==> 0 < biomes.Length
    ensures fresh(biomeMap) && fresh(colorMap)
    ensures biomeMap.Length == colorMap.Length == elevationData.width * elevationData.height
    ensures biomes[..] == old(biomes[..])
    ensures exists sorted ::
      SortedPermutation(sorted, biomes[..]) &&
      (forall offset :: 0 <= offset < biomeMap.Length ==>
        0 < |sorted| &&
        biomeMap[offset] == Classify(elevationData, moistureData, sorted, offset).id &&
        colorMap[offset] == Classify(elevationData, moistureData, sorted, offset).color)
  {
    var width, height := elevationData.width, elevationData.height;
    biomeMap := new uint8[width * height];
    colorMap := new NRGBA[width * height];

    var scale := 1.0 / (elevationData.maxValue - elevationData.minValue);

    var sortedBiomes := SortedCopy(biomes);
    ghost var sorted := sortedBiomes[..];

    var y := 0;
    while y < height
      modifies biomeMap, colorMap
      invariant 0 <= y <= height
      invariant Offset(0, y, width) <= width * height
      invariant ClassifiedPrefix(biomeMap[..], colorMap[..], elevationData, moistureData, sorted, Offset(0, y, width))
    {
      var x := 0;
      while x < width
        modifies biomeMap, colorMap
        invariant 0 <= x <= width
        invariant Offset(x, y, width) <= width * height
        invariant ClassifiedPrefix(biomeMap[..], colorMap[..], elevationData, moistureData, sorted, Offset(x, y, width))
      {
        var offset := y * width + x;
        OffsetInBounds(x, y, width, height);
        var elevation := elevationData.data[offset] * scale - elevationData.minValue;
        var moisture := moistureData.data[offset];
        assert elevation == Rescale(elevationData.data[offset], elevationData.minValue, elevationData.maxValue);
        assert sortedBiomes[..] == sorted;
        var biome := Pick(elevation, moisture, sortedBiomes[..]);
        ClassifiedPrefixStep(biomeMap[..], colorMap[..], elevationData, moistureData, sorted, offset, biome);
        biomeMap[offset] := biome.id;
        colorMap[offset] := biome.color;
        x := x + 1;
      }
      NextRow(y, width);
      y := y + 1;
    }
    assert Offset(0, height, width) == width * height;
    assert biomes[..] == old(biomes[..]);
    assert SortedPermutation(sorted, biomes[..]);
    forall offset | 0 <= offset < biomeMap.Length
      ensures 0 < |sorted|
      ensures biomeMap[offset] == Classify(elevationData, moistureData, sorted, offset).id
      ensures colorMap[offset] == Classify(elevationData, moistureData, sorted, offset).color
    {
      assert biomeMap[offset] == biomeMap[..][offset] && colorMap[offset] == colorMap[..][offset];
    }
  }
}
