# terrain-maker: biome classifier and island reshaper in Dafny

terrain-maker builds a biome map for a square of terrain. It runs in three steps:

1. It synthesises an elevation field and a moisture field, using fractal noise.
2. It reshapes the elevation field into an island. A square-bump distance mask
   raises the centre of the grid and sinks its border.
3. It classifies every cell with a table of biome rules.

The classification step, `biome.Map`:
- copies the caller's rules and sorts the copy by maximum elevation, then by
  maximum moisture;
- rescales each cell's elevation sample;
- gives the cell the id and the colour of the first rule whose two thresholds
  cover it, or of the last rule when none does.

This project models the classifier (`biome/mapper.go`) and the reshaper
(`reshape/island.go`) and proves what they promise. Floating-point numbers are
modelled as `real`.

Modules:

- `Noise` (`noise.dfy`): `NoiseData`, a row-major grid of samples together
  with the minimum and maximum its producer recorded.
- `Grid` (`grid.dfy`): row-major offsets. Every cell of a width-by-height grid
  has an offset inside the buffer, and the walk `y`, then `x`, visits the
  offsets 0, 1, 2, … in order. An offset decodes back to its cell.
- `Biome` (`biome.dfy`): the sort interface and the sort, the rule scan, the
  literal elevation rescale, and `Map` as a method on arrays.
  - `SortBiomes` is the insertion sort that Go's `sort.Sort` (Go 1.19 and
    later) runs on a table of at most twelve rules. It calls `Less` and `Swap`,
    and it is proved to return a sorted permutation of its input.
  - `Map` is proved to produce, at every offset, the id and the colour of the
    rule that `Pick` chooses from some sorted arrangement of the caller's rules.
    The caller's rules are left unchanged.
- `BiomeExamples` (`biome_examples.dfy`): the program's own ten-rule table, and
  the ordering, fallback, tie and single-rule scenarios of the classifier.
- `Reshape` (`island.go` → `island.dfy`): the square-bump mask, the per-cell
  blend and `ReshapeIsland` with its running bounds. The blend function `lerp`
  is a parameter.

The program's design notes state some intentions that the code does not carry
out. The model follows the code:

- The design notes call for a stable sort. `Map` uses `sort.Sort`, which is not
  stable, so the model promises only a sorted permutation.
  `KeyTieLeavesPickOpen` shows that two rules with the same key can classify a
  cell differently depending on their order.
  `PickIndependentOfSortWhenKeysDistinct` shows that the order of ties is the
  only freedom the sort leaves.
- The design notes promise `minValue == min(data)` and `maxValue == max(data)`
  for the reshaped field. The code starts its running maximum at 0 and its
  running minimum at 1, so the recorded bounds are `max(0, largest)` and
  `min(1, smallest)` (`RecordsBounds`, `RecordedBoundsAreClampedExtremes`). An
  empty grid records minimum 1 and maximum 0.
- The design notes say the elevation rescale `raw*scale - MinValue` agrees with
  min-max normalisation only when the minimum is 0. It also agrees when
  `MaxValue - MinValue == 1` (`RescaleIsNormalisationIff`). The model keeps the
  rescale exactly as written.

## Model

| member | source | states |
|---|---|---|
| Biome.LessIsLexicographic | cmd/terrain-maker/internal/biome/mapper.go:21-29 | Less(a, b) holds exactly when a's elevation threshold is smaller, or the elevation thresholds are equal and a's moisture threshold is smaller |
| Biome.LessIsStrictOrder | cmd/terrain-maker/internal/biome/mapper.go:21-29 | the comparator is irreflexive, asymmetric and transitive |
| Biome.LessTrichotomy | cmd/terrain-maker/internal/biome/mapper.go:21-29 | of two rules one is Less than the other or they share both thresholds, and rules that share both thresholds are unordered |
| Biome.ChainIsIncreasing | cmd/terrain-maker/internal/biome/mapper.go:21-29 | in a table where each rule is Less than the next, every rule is Less than every later rule |
| Biome.ChainIsSortedWithDistinctKeys | cmd/terrain-maker/internal/biome/mapper.go:21-29 | a table where each rule is Less than the next is sorted and no two of its rules share a key |
| Biome.Swap | cmd/terrain-maker/internal/biome/mapper.go:30 | exchanges the rules at i and j and changes nothing else, so the multiset of rules is kept |
| Biome.SortBiomes | cmd/terrain-maker/internal/biome/mapper.go:48 | the table ends up non-decreasing in (maxElevation, maxMoisture) and is a permutation of the table it started as |
| Biome.SortedStep | cmd/terrain-maker/internal/biome/mapper.go:48 | once the inserted rule stops moving down, the whole processed prefix s[..i + 1] is sorted, including the rules after the insertion point |
| Biome.SortedCopy | cmd/terrain-maker/internal/biome/mapper.go:46-48 | returns a fresh array of the same length holding a sorted permutation of the caller's rules |
| Biome.PickFrom | cmd/terrain-maker/internal/biome/mapper.go:64-73 | the scan from position i returns a rule of the list. If some rule at or after i covers the cell, the result covers it and no rule between i and it does. Otherwise the result is the last rule |
| Biome.PickIsFirstMatch | cmd/terrain-maker/internal/biome/mapper.go:65-69 | if rule k covers the cell and no earlier rule does, the pick is rule k |
| Biome.PickFallback | cmd/terrain-maker/internal/biome/mapper.go:71-72 | if no rule covers the cell, the pick is the last rule |
| Biome.PickIsLeastMatch | cmd/terrain-maker/internal/biome/mapper.go:64-69 | on a sorted table the pick is in the table. When some rule covers the cell, the pick covers it and no covering rule is strictly Less than the pick |
| Biome.SortedPermutationUnique | cmd/terrain-maker/internal/biome/mapper.go:46-48 | two sorted arrangements of the same rules are equal when no two different rules share a key |
| Biome.SortedHeadsAgree | cmd/terrain-maker/internal/biome/mapper.go:46-48 | two such arrangements start with the same rule |
| Biome.SortedTailsArePermutations | cmd/terrain-maker/internal/biome/mapper.go:46-48 | after that first rule, the rest of the two arrangements are again sorted permutations of each other with distinct keys |
| Biome.PickIndependentOfSortWhenKeysDistinct | cmd/terrain-maker/internal/biome/mapper.go:46-55 | with distinct keys every sorted arrangement of the rules picks the same rule for every cell |
| Biome.RescaleIsNormalisationIff | cmd/terrain-maker/internal/biome/mapper.go:41-53 | raw*scale - MinValue equals (raw - MinValue)/(MaxValue - MinValue) for every raw sample exactly when MinValue is 0 or MaxValue - MinValue is 1 |
| Biome.ClassifyIsLocal | cmd/terrain-maker/internal/biome/mapper.go:52-55 | a cell's rule depends only on that cell's elevation and moisture samples and on the recorded elevation bounds |
| Biome.ClassifiedPrefixStep | cmd/terrain-maker/internal/biome/mapper.go:50-57 | writing the picked rule's id and colour at the next offset extends the classified prefix of both buffers by one cell |
| Biome.Map | cmd/terrain-maker/internal/biome/mapper.go:32-62 | both buffers have Width*Height cells. The caller's rules are unchanged. Some sorted permutation of them gives, at every offset, the id and the colour of the same picked rule for that cell's rescaled elevation and its moisture |
| BiomeExamples.MainTableSortedWithDistinctKeys | cmd/terrain-maker/main.go:31-102 | the program's table is already sorted and no two of its rules share a key |
| BiomeExamples.MainTableSortsToItself | cmd/terrain-maker/main.go:31-102 | every sorted arrangement of the program's table is the table itself |
| BiomeExamples.MainTablePicksDesert | cmd/terrain-maker/main.go:53-58 | the cell (0.6, 0.1) is Desert |
| BiomeExamples.MainTablePicksGrassland | cmd/terrain-maker/main.go:60-65 | the cell (0.6, 0.3) is Grassland |
| BiomeExamples.MainTablePicksMountains | cmd/terrain-maker/main.go:88-101 | the cell (0.95, 0.5) is Mountains, though Snow covers it too |
| BiomeExamples.MainTableFallback | cmd/terrain-maker/main.go:95-101 | a cell above every elevation threshold falls back to Snow, the last rule |
| BiomeExamples.MountainsAndSnowShareAnId | cmd/terrain-maker/main.go:88-101 | Mountains and Snow have the same id and different colours |
| BiomeExamples.OrderingSensitivity | cmd/terrain-maker/internal/biome/mapper.go:43-48 | with A = (0.5, 1.0) declared before B = (0.5, 0.3), the cell (0.4, 0.2) matches A in declaration order but B in every sorted arrangement |
| BiomeExamples.KeyTieLeavesPickOpen | cmd/terrain-maker/internal/biome/mapper.go:48 | two rules with the same key are sorted in either order, and the two orders classify a cell differently |
| BiomeExamples.SingletonSort | cmd/terrain-maker/internal/biome/mapper.go:46-48 | the only arrangement of one rule is that rule |
| BiomeExamples.SingleRuleScenario | cmd/terrain-maker/internal/biome/mapper.go:32-62 | Map of a 4-by-4 grid of elevation 0.3 on [0, 1] and moisture 0.1, with the single rule (1.0, 1.0), gives every cell that rule's id and colour |
| Grid.OffsetInBounds | cmd/terrain-maker/internal/biome/mapper.go:50-52 | the offset y*Width + x of every cell lies in [0, Width*Height) |
| Grid.NextRow | cmd/terrain-maker/internal/reshape/island.go:17-19 | the offset just past the end of a row is the first offset of the next row, so the walk is row-major and gap-free |
| Grid.OffsetCoordinates | cmd/terrain-maker/internal/reshape/island.go:19 | an offset decodes to its column (remainder) and its row (quotient) |
| Grid.OffsetBijection | cmd/terrain-maker/internal/reshape/island.go:17-19 | distinct cells have distinct offsets, and every offset below Width*Height is the offset of a cell |
| Reshape.CentredInRange | cmd/terrain-maker/internal/reshape/island.go:21-22 | nx = 2x/Width - 1 and ny = 2y/Height - 1 lie in [-1, 1) |
| Reshape.SquareBumpAtCentre | cmd/terrain-maker/internal/reshape/island.go:42-44 | the distance is 0 at (0, 0) |
| Reshape.SquareBumpOnBorder | cmd/terrain-maker/internal/reshape/island.go:42-44 | the distance is 1 whenever nx or ny is 1 or -1 |
| Reshape.SquareBumpSymmetric | cmd/terrain-maker/internal/reshape/island.go:42-44 | the distance is unchanged by flipping the sign of nx or ny and by swapping them |
| Reshape.SquareBumpInUnitRange | cmd/terrain-maker/internal/reshape/island.go:42-44 | inside [-1, 1] x [-1, 1] the distance d and the mask 1 - d lie in [0, 1] |
| Reshape.IslandCellIsLocal | cmd/terrain-maker/internal/reshape/island.go:19-24 | a cell's blended value depends only on its own input sample and the grid's shape |
| Reshape.IslandIdentityAtZeroMix | cmd/terrain-maker/internal/reshape/island.go:24 | if lerp(a, b, 0) = a, mix 0 leaves every cell as it was |
| Reshape.IslandMaskAtFullMix | cmd/terrain-maker/internal/reshape/island.go:21-24 | if lerp(a, b, 1) = b, mix 1 replaces every cell by the mask 1 - d, which lies in [0, 1] |
| Reshape.BlendStep | cmd/terrain-maker/internal/reshape/island.go:19-32 | writing a cell's blended value at its offset, the first one not yet written, extends the written prefix by one and keeps the running bounds recorded |
| Reshape.RecordsBoundsStep | cmd/terrain-maker/internal/reshape/island.go:26-32 | updating max and min when the new value passes them keeps them the recorded bounds of the longer sequence |
| Reshape.RecordedBoundsUnique | cmd/terrain-maker/internal/reshape/island.go:14-37 | the recorded bounds are determined by the data |
| Reshape.RecordedBoundsOfEmpty | cmd/terrain-maker/internal/reshape/island.go:14-15 | an empty grid records MinValue 1 and MaxValue 0 |
| Reshape.RecordedBoundsAreClampedExtremes | cmd/terrain-maker/internal/reshape/island.go:14-37 | on a non-empty grid, the bounds are recorded exactly when MaxValue = max(0, largest cell) and MinValue = min(1, smallest cell) |
| Reshape.RecordedBoundsAreExtremesInUnitRange | cmd/terrain-maker/internal/reshape/island.go:26-37 | when every cell lies in [0, 1], the recorded bounds are cells of the grid, and they are its smallest and largest values |
| Reshape.RecordedMinimumNotAValue | cmd/terrain-maker/internal/reshape/island.go:14-37 | when every cell is above 1, the recorded minimum is 1, which is not a cell of the grid |
| Reshape.ReshapeIsland | cmd/terrain-maker/internal/reshape/island.go:7-40 | the result has the input's Width and Height and Width*Height cells. Each cell (x, y) is lerp(input at (x, y), 1 - d(nx, ny), mix) for its own coordinates. MinValue and MaxValue are the running bounds started at 1 and 0 |
| Reshape.ReshapeRow | cmd/terrain-maker/internal/reshape/island.go:18-33 | after row y the buffer holds the blended value of every cell up to the end of row y, and the running bounds are recorded for that prefix |

## Left out

- IEEE floating point: rounding, NaN and infinities. When MaxValue equals MinValue, Go's `scale` becomes +Inf. `Map` instead requires the two to differ.
- The body of `lerp`: it is not part of this model. `ReshapeIsland` takes the blend as a function parameter, and `IslandIdentityAtZeroMix` and `IslandMaskAtFullMix` state their results under hypotheses about it.
- `cmd/terrain-maker/internal/noise/generator.go`: its substance is a foreign OpenSimplex noise call, `math.Pow` and a random seed, so it is not part of this model. Its running min/max pattern is the one modelled for the reshaper.
- `main` and `exportImage` in `cmd/terrain-maker/main.go`: PNG encoding and file I/O. Its rule table is used as a concrete instance in `BiomeExamples`.
- `Len` of the sort interface: it is the array's `Length`.
- Biome.SortBiomes: this is the insertion sort that `sort.Sort` (Go 1.19 and later) uses on tables of at most twelve rules. Earlier Go versions ran a gap-6 Shell pass before the insertion sort on 7 to 12 rules. Go switches to pattern-defeating quicksort on larger tables, and that algorithm is not modelled. Both promise only a sorted permutation, and that is all `Map` relies on.
- Biome.Map: the panics of the Go code are preconditions: at least Width*Height elevation and moisture samples, and a non-empty rule table when the grid is non-empty (`defs[len(defs)-1]` would panic).
- Biome.Map: also requires Width >= 0 and Height >= 0. Go's `make` panics only when Width*Height < 0. When one dimension is negative and the product is non-negative (Width = Height = -1, or Width = 0 and Height = -3), Go runs no loop iteration and returns zero-filled buffers of length Width*Height. The model does not cover those grids. The program itself passes 1024 by 1024.
- Reshape.ReshapeIsland: Go's `NoiseData.Data` is a slice that callers could share. Here it is a value (`seq<real>`), so aliasing of the input and output buffers is not modelled. The input is only read and the output buffer is freshly allocated, so nothing is lost.
- Reshape.ReshapeRow: the inner `x` loop of `ReshapeIsland` is a method of its own, to keep the proof small. Its contract does not state that cells after row y are untouched; `ReshapeIsland` does not need it, because every cell is written in row-major order.
- Reshape.ReshapeIsland: the precondition `Width*Height <= len(Data)` stands for Go's index panic.
- Reshape.ReshapeIsland: also requires Width >= 0 and Height >= 0. Go's `make` panics only when Width*Height < 0. When one dimension is negative and the product is non-negative, Go runs no loop iteration and returns a zero-filled buffer of length Width*Height with MinValue 1 and MaxValue 0. The model does not cover those grids. The program itself passes 1024 by 1024.
