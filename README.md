# Ruin generation by evolving voxel blueprints

This project models the core of a Unity editor tool that "grows" ruined
buildings. A **blueprint** is a three-dimensional grid of block ids
(`int[,,]`). It also tracks:

- the next free sub-design id;
- the set of registered ids;
- the set of **attachment points**, the cells where a new design may be
  stamped: the floor cells at first, then the empty cells above a stamped
  block and the cells a deletion opens. Stamping and deletion keep them
  empty; blocks added one by one with AddBlock (the notebook designs) leave
  them as they are.

A notebook of three designs (beams of one, two and three blocks) is stamped
onto blueprints. Each design is first rotated a random number of quarter
turns about a random axis, and is stamped at a collision-free attachment
point. A mutation stamps such a design or deletes a registered id. A
mutation is accepted only when a physics check calls the result stable.

The generator evolves a population of blueprints:

1. Every blueprint is randomised by ten mutations.
2. Each round ranks the population by its score, the **covered volume**:
   empty cells with a block somewhere above them in the same column.
3. It builds the score cdf.
4. It copies the `numElite` best blueprints.
5. It copies `numSurvivors` parents drawn through the cdf.
6. It fills the rest with mutants of drawn parents.
7. After the last round the best blueprint is returned.

The model has four modules:

- `Voxels` (Voxels.dfy) is the value-level meaning of a blueprint. `Grid`
  holds dimensions, cells, next id, registered ids and attachment points.
  The file defines what every operation does to a grid: adding a block,
  rotation, stamping a design, deleting an id, the outcomes of one
  mutation, and mutation and randomisation as relations.
- `Blueprints` (Blueprint.dfy) is the class `Blueprint` over an `array3<int>`.
  Its fields are the source's fields. Each method changes the arrays and
  fields in place, with the source's triple loops. It is proved against
  the `Voxels` function of its old `Model()`.
- `Utils` (Utils.dfy) holds the score cdf (`CalcCDF`) and the binary search
  that draws an index from it (`WeightedRandomIndex`).
- `Ruins` (RuinGenerator.dfy) holds the covered volume, score and
  comparison, and the ranking of a population (a permutation ordered by
  non-increasing score). It also holds the three selection loops of a
  round, the class `RuinGenerator` and `GenerateRuin`.

Three places where the code does something other than what its names and
comments suggest are modelled as written and stated as lemmas:

- `CalcCDF` adds each entry to the running total *after* the entry
  already includes the earlier total, so entries grow faster than a cdf.
  For scores `[1, 3, 1, 5]` it yields `[0.1, 0.4, 0.6, 1.6]`
  (`Utils.CdfExample`), and the last entry is at least 1 rather than
  exactly 1 (`Utils.CdfEndsAtLeastOne`).
- `WeightedRandomIndex` answers `high`, and its search never moves `high`
  to 0 once the cdf has three or more entries. So the best-ranked blueprint
  is never drawn as a survivor or as a parent of a mutant
  (`Utils.BracketSkipsFirst`; the `1 <= parents[i]` conjuncts of
  `Ruins.NextGeneration`).
- `ApplyDesign` never registers the ids it writes, and randomisation starts
  from an empty blueprint. So every randomised or mutated blueprint has no
  registered ids, and the "delete an id" branch of a mutation is never
  taken for them (`Voxels.NoIdsNoDeletion`, `Voxels.MutantKeepsNoIds`,
  `Voxels.RandomKeepsInvariants`).

Randomness is modelled as nondeterminism: the random choices of the methods
are arbitrary choices (`:|`). The physics stability check is a parameter
`stable: Grid -> bool`.

## Model

| member | source | states |
|---|---|---|
| Voxels.EmptyGrid | BuildingGeneration/Assets/Editor/Blueprint.cs:57-68 | a fresh blueprint has every cell 0, next id 0, no registered ids, and exactly the floor cells (y = 0) as attachment points |
| Voxels.FloorMembers | BuildingGeneration/Assets/Editor/Blueprint.cs:61-67 | the floor layer built by the constructor's loops holds exactly the in-box cells with y = 0 |
| Voxels.WithBlock | BuildingGeneration/Assets/Editor/Blueprint.cs:145-156 | adding a block writes the id at one cell and nowhere else, registers the id, and raises next id above it only when it is not already above |
| Voxels.WithBlockKeepsIdsBelowNext | BuildingGeneration/Assets/Editor/Blueprint.cs:145-156 | after AddBlock every non-zero cell is still below next id |
| Voxels.RotatedCoord | BuildingGeneration/Assets/Editor/Blueprint.cs:514-535 | the coordinate map of a quarter turn about each axis sends the box into the rotated box |
| Voxels.SourceCoord | BuildingGeneration/Assets/Editor/Blueprint.cs:514-535 | the inverse coordinate map sends the rotated box back into the box |
| Voxels.RotationBijective | BuildingGeneration/Assets/Editor/Blueprint.cs:514-535 | a quarter turn is a bijection between the box and the rotated box, so no cell of the new array is left unwritten or written twice |
| Voxels.RotateOnce | BuildingGeneration/Assets/Editor/Blueprint.cs:494-535 | a quarter turn swaps the dimensions as _Rotate does and keeps next id, registered ids and attachment points |
| Voxels.RotateOnceMoves | BuildingGeneration/Assets/Editor/Blueprint.cs:494-510 | each cell's value moves to its rotated coordinate |
| Voxels.RotateOnceCell | BuildingGeneration/Assets/Editor/Blueprint.cs:494-510 | each cell of the rotated grid holds the value of its source cell |
| Voxels.RotateTurns | BuildingGeneration/Assets/Editor/Blueprint.cs:133-143 | repeated quarter turns keep next id, registered ids and attachment points |
| Voxels.CsRemainder | BuildingGeneration/Assets/Editor/Blueprint.cs:138 | C#'s `%` truncates toward zero: the remainder has the sign of the dividend and magnitude below the divisor |
| Voxels.TurnCount | BuildingGeneration/Assets/Editor/Blueprint.cs:138 | Rotate turns `magnitude % 4` times: never for a non-positive magnitude, and `magnitude mod 4` times otherwise |
| Voxels.Rotated | BuildingGeneration/Assets/Editor/Blueprint.cs:133-143 | the grid Rotate returns is well formed |
| Voxels.RotateTurnsAdd | BuildingGeneration/Assets/Editor/Blueprint.cs:133-143 | m turns followed by n turns equal m + n turns |
| Voxels.RotateTurnsStep | BuildingGeneration/Assets/Editor/Blueprint.cs:138-141 | n + 1 turns are one more quarter turn after n turns |
| Voxels.TurnSeq | BuildingGeneration/Assets/Editor/Blueprint.cs:138-141 | the grids after 0, 1, …, n turns, each a quarter turn of the previous one |
| Voxels.TurnSeqLast | BuildingGeneration/Assets/Editor/Blueprint.cs:138-141 | the last of them is the grid after n turns |
| Voxels.FourTurnsSource | BuildingGeneration/Assets/Editor/Blueprint.cs:514-535 | composing the inverse map four times returns every coordinate to itself |
| Voxels.FourTurnsIdentity | BuildingGeneration/Assets/Editor/Blueprint.cs:133-143 | four quarter turns about one axis give back the original grid |
| Voxels.OneThenThreeRestores | BuildingGeneration/Assets/Editor/Blueprint.cs:133-143 | rotating by 1 and then by 3 about the same axis restores the grid |
| Voxels.NegativeMagnitudeIsIdentity | BuildingGeneration/Assets/Editor/Blueprint.cs:138 | Rotate with a negative magnitude returns an unrotated copy |
| Voxels.RotateOnceKeepsCount | BuildingGeneration/Assets/Editor/Blueprint.cs:494-510 | a quarter turn keeps the number of cells holding each id and the number of occupied cells |
| Voxels.RotateTurnsKeepsCount | BuildingGeneration/Assets/Editor/Blueprint.cs:133-143 | any number of turns keeps those counts |
| Voxels.RotatedKeepsValueCounts | BuildingGeneration/Assets/Editor/Blueprint.cs:133-143 | Rotate keeps the number of blocks of every id and the number of occupied cells |
| Voxels.RotateOnceKeepsIdsBelowNext | BuildingGeneration/Assets/Editor/Blueprint.cs:494-510 | a quarter turn keeps every id below next id |
| Voxels.RotateTurnsKeepsIdsBelowNext | BuildingGeneration/Assets/Editor/Blueprint.cs:133-143 | so does any number of turns |
| Voxels.WithDesign | BuildingGeneration/Assets/Editor/Blueprint.cs:456-492 | stamping writes next id + the design's value exactly at the positive design cells inside the clipped overlap, advances next id by the design's next id, leaves the registered ids alone, removes stamped cells from the attachment points and adds the empty cells above them |
| Voxels.NoCollisionKeepsBlocks | BuildingGeneration/Assets/Editor/Blueprint.cs:405-492 | a stamp at a non-colliding offset leaves every existing block unchanged |
| Voxels.StampIdsAreFresh | BuildingGeneration/Assets/Editor/Blueprint.cs:456-492 | stamped ids differ from every id already present, and stamping keeps every id below next id |
| Voxels.StampKeepsAttachmentsInBox | BuildingGeneration/Assets/Editor/Blueprint.cs:456-492 | stamping keeps every attachment point inside the box |
| Voxels.StampKeepsAttachmentsEmpty | BuildingGeneration/Assets/Editor/Blueprint.cs:473-487 | stamping keeps every attachment point an empty cell |
| Voxels.WithoutId | BuildingGeneration/Assets/Editor/Blueprint.cs:430-451 | deleting an id zeroes exactly its cells, adds as attachment points those of its cells on the floor or on a block of another id, unregisters the id and keeps next id |
| Voxels.DeleteOnlyIdClears | BuildingGeneration/Assets/Editor/Blueprint.cs:430-451 | deleting the only id present leaves an empty grid |
| Voxels.DeleteKeepsInvariants | BuildingGeneration/Assets/Editor/Blueprint.cs:430-451 | deletion keeps attachment points in the box and ids below next id, and removes the id from every cell |
| Voxels.DeleteKeepsAttachmentsEmpty | BuildingGeneration/Assets/Editor/Blueprint.cs:432-449 | deletion keeps every attachment point an empty cell |
| Voxels.Stamp | BuildingGeneration/Assets/Editor/Blueprint.cs:347-354 | the rotated notebook design a try stamps keeps that design's next id |
| Voxels.Mutated | BuildingGeneration/Assets/Editor/Blueprint.cs:334-382 | the grid left by one admissible mutation outcome keeps the dimensions |
| Voxels.NoIdsNoDeletion | BuildingGeneration/Assets/Editor/Blueprint.cs:339-381 | with no registered id the delete branch is not taken and no id becomes registered |
| Voxels.MutantKeepsNoIds | BuildingGeneration/Assets/Editor/Blueprint.cs:232-251 | a mutant of a grid without registered ids has none either |
| Voxels.MutatedKeepsInvariants | BuildingGeneration/Assets/Editor/Blueprint.cs:334-382 | one outcome keeps dimensions, attachment points empty cells in the box and ids below next id, and never lowers next id |
| Voxels.MutantKeepsInvariants | BuildingGeneration/Assets/Editor/Blueprint.cs:232-251 | so does a whole Mutate |
| Voxels.RejectOutcome | BuildingGeneration/Assets/Editor/Blueprint.cs:239-249 | an outcome the oracle calls unstable extends the list of rejected attempts |
| Voxels.StableMutant | BuildingGeneration/Assets/Editor/Blueprint.cs:239-249 | the first stable outcome within MaxMutationAttempts is a mutant |
| Voxels.NoStableMutant | BuildingGeneration/Assets/Editor/Blueprint.cs:242-245 | after MaxMutationAttempts unstable outcomes the unchanged grid is the mutant |
| Voxels.ExtendChain | BuildingGeneration/Assets/Editor/Blueprint.cs:225-228 | a mutant of the last grid extends a chain of mutations from the empty grid |
| Voxels.ChainKeepsInvariants | BuildingGeneration/Assets/Editor/Blueprint.cs:219-230 | every grid of such a chain keeps the dimensions, has no registered id, and keeps its attachment points empty cells in the box and ids below next id |
| Voxels.RandomKeepsInvariants | BuildingGeneration/Assets/Editor/Blueprint.cs:219-230 | a randomised grid has the dimensions asked for, no registered id, attachment points that are empty cells in the box, and ids below next id |
| Voxels.Notebook | BuildingGeneration/Assets/Editor/Blueprint.cs:265-288 | the notebook holds three designs |
| Voxels.NotebookBeams | BuildingGeneration/Assets/Editor/Blueprint.cs:265-288 | design i is a full beam of i + 1 blocks of id 1 along x, with next id 2 and id 1 registered |
| Blueprints.StampAll | BuildingGeneration/Assets/Editor/Blueprint.cs:467-491 | the triple loop of ApplyDesign writes exactly the cells of WithDesign and leaves exactly its attachment points |
| Blueprints.StampPlane | BuildingGeneration/Assets/Editor/Blueprint.cs:467-491 | one x-plane of that loop extends the stamped prefix by one plane |
| Blueprints.StampRow | BuildingGeneration/Assets/Editor/Blueprint.cs:469-490 | one row extends it by one row |
| Blueprints.StampCell | BuildingGeneration/Assets/Editor/Blueprint.cs:473-478 | one cell writes its stamped value |
| Blueprints.AttachCell | BuildingGeneration/Assets/Editor/Blueprint.cs:479-487 | one cell updates the attachment points as the stamp does so far |
| Blueprints.StampedStep | BuildingGeneration/Assets/Editor/Blueprint.cs:473-478 | the stamped value of a cell after one more step of the loop |
| Blueprints.AttachedStep | BuildingGeneration/Assets/Editor/Blueprint.cs:479-487 | the attachment points after one more step of the loop |
| Blueprints.FullProgress | BuildingGeneration/Assets/Editor/Blueprint.cs:467-491 | the loop run to the end gives WithDesign's cells and attachment points |
| Blueprints.ClearAll | BuildingGeneration/Assets/Editor/Blueprint.cs:432-449 | the triple loop of DeleteID writes exactly the cells of WithoutId and leaves exactly its attachment points |
| Blueprints.ClearPlane | BuildingGeneration/Assets/Editor/Blueprint.cs:432-449 | one x-plane of that loop extends the cleared prefix by one plane |
| Blueprints.ClearRow | BuildingGeneration/Assets/Editor/Blueprint.cs:434-448 | one row extends it by one row |
| Blueprints.ClearCell | BuildingGeneration/Assets/Editor/Blueprint.cs:438-446 | one cell is cleared when it holds the id, and reopened when it is on the floor or on a block of another id |
| Blueprints.ScanStep | BuildingGeneration/Assets/Editor/Blueprint.cs:389-396 | one attachment point checked keeps the found offsets exactly the non-colliding points checked so far |
| Blueprints.ScanDone | BuildingGeneration/Assets/Editor/Blueprint.cs:397-401 | after the scan, no offset was found if and only if the design collides at every attachment point |
| Blueprints.Blueprint.Model | BuildingGeneration/Assets/Editor/Blueprint.cs:49-54 | the grid a blueprint denotes has its dimensions, its cells, next id, registered ids and attachment points |
| Blueprints.Blueprint.constructor | BuildingGeneration/Assets/Editor/Blueprint.cs:57-68 | a new blueprint denotes the empty grid of the given dimensions |
| Blueprints.Blueprint.GetBlocks | BuildingGeneration/Assets/Editor/Blueprint.cs:72-75 | a fresh copy of the block array with the model's cells |
| Blueprints.Blueprint.GetDims | BuildingGeneration/Assets/Editor/Blueprint.cs:99-102 | the model's dimensions |
| Blueprints.Blueprint.AddBlock | BuildingGeneration/Assets/Editor/Blueprint.cs:145-156 | the blueprint now denotes WithBlock of its old grid |
| Blueprints.Blueprint.CopyInto | BuildingGeneration/Assets/Editor/Blueprint.cs:109-126 | the target now denotes the source's grid, and the source is unchanged |
| Blueprints.Blueprint.ApplyTransformation | BuildingGeneration/Assets/Editor/Blueprint.cs:494-510 | a fresh block array of the new dimensions whose every cell holds the old cell it came from, other fields kept |
| Blueprints.Blueprint.TurnOnce | BuildingGeneration/Assets/Editor/Blueprint.cs:514-535 | the blueprint now denotes one quarter turn of its old grid |
| Blueprints.Blueprint.TurnTimes | BuildingGeneration/Assets/Editor/Blueprint.cs:138-141 | the blueprint now denotes n quarter turns of its old grid, none when n is not positive |
| Blueprints.Blueprint.Rotate | BuildingGeneration/Assets/Editor/Blueprint.cs:133-143 | a fresh blueprint denoting Rotated of this grid |
| Blueprints.Blueprint.OverlapsOnArrays | BuildingGeneration/Assets/Editor/Blueprint.cs:405-428 | the array test of the collision loop agrees with the model's overlap |
| Blueprints.Blueprint.DesignCollides | BuildingGeneration/Assets/Editor/Blueprint.cs:405-428 | true if and only if some positive design cell inside the clipped overlap meets a positive cell |
| Blueprints.Blueprint.ApplyDesign | BuildingGeneration/Assets/Editor/Blueprint.cs:456-492 | the blueprint now denotes WithDesign of its old grid |
| Blueprints.Blueprint.DeleteID | BuildingGeneration/Assets/Editor/Blueprint.cs:430-451 | the blueprint now denotes WithoutId of its old grid |
| Blueprints.Blueprint.FindValidOffsetFor | BuildingGeneration/Assets/Editor/Blueprint.cs:385-402 | None if and only if the design collides at every attachment point; otherwise a non-colliding attachment point |
| Blueprints.Blueprint.TryPlace | BuildingGeneration/Assets/Editor/Blueprint.cs:347-363 | one try rotates the design and either stamps it at a non-colliding attachment point or, when it collides everywhere, changes nothing |
| Blueprints.Blueprint.PlaceDesign | BuildingGeneration/Assets/Editor/Blueprint.cs:339-370 | the add branch gives a Placed or NoPlacement outcome that is admissible, and the blueprint denotes its result |
| Blueprints.Blueprint.UnstableMutate | BuildingGeneration/Assets/Editor/Blueprint.cs:334-382 | the blueprint now denotes Mutated of its old grid for an admissible outcome |
| Blueprints.Blueprint.MutateOnce | BuildingGeneration/Assets/Editor/Blueprint.cs:241-247 | one attempt: the mutant is reset to a copy of this grid and then denotes an admissible outcome applied to it |
| Blueprints.Blueprint.Mutate | BuildingGeneration/Assets/Editor/Blueprint.cs:232-251 | a fresh blueprint of the same dimensions denoting a mutant of this grid |
| Blueprints.Blueprint.MutateInto | BuildingGeneration/Assets/Editor/Blueprint.cs:253-256 | the target now denotes a mutant of this grid |
| Blueprints.Blueprint.Randomize | BuildingGeneration/Assets/Editor/Blueprint.cs:219-230 | a fresh blueprint of the same dimensions whose grid ends a chain of NumInitMutations mutants from the empty grid, with no registered id |
| Blueprints.Blueprint.RandomizeInto | BuildingGeneration/Assets/Editor/Blueprint.cs:258-261 | the target now denotes such a randomised grid |
| Blueprints.Blueprint.SingleBlock | BuildingGeneration/Assets/Editor/Blueprint.cs:270-272 | a fresh blueprint denoting the notebook's first design |
| Blueprints.Blueprint.Brick2 | BuildingGeneration/Assets/Editor/Blueprint.cs:275-278 | a fresh blueprint denoting the notebook's second design |
| Blueprints.Blueprint.Brick3 | BuildingGeneration/Assets/Editor/Blueprint.cs:281-285 | a fresh blueprint denoting the notebook's third design |
| Blueprints.Blueprint.InitDesignNotebook | BuildingGeneration/Assets/Editor/Blueprint.cs:265-288 | three fresh blueprints denoting the notebook's designs in order |
| Utils.Uniform | BuildingGeneration/Assets/Editor/Utils.cs:45-52 | the uniform cdf has one entry per value |
| Utils.UniformIncreasing | BuildingGeneration/Assets/Editor/Utils.cs:45-52 | the uniform cdf is strictly increasing and ends at 1 |
| Utils.Accumulated | BuildingGeneration/Assets/Editor/Utils.cs:55-60 | the accumulated cdf has one entry per value |
| Utils.AccumulatedAt | BuildingGeneration/Assets/Editor/Utils.cs:57-58 | entry i is value i's share plus the sum of all earlier entries |
| Utils.Cdf | BuildingGeneration/Assets/Editor/Utils.cs:35-63 | CalcCDF's result has one entry per value |
| Utils.CdfExample | BuildingGeneration/Assets/Editor/Utils.cs:55-60 | scores 1, 3, 1, 5 give 0.1, 0.4, 0.6, 1.6: each entry adds the sum of the earlier entries, not the earlier total |
| Utils.CdfNonDecreasing | BuildingGeneration/Assets/Editor/Utils.cs:35-63 | for non-negative scores the cdf is non-decreasing |
| Utils.CdfEndsAtLeastOne | BuildingGeneration/Assets/Editor/Utils.cs:35-63 | for non-negative scores the last entry is at least 1 |
| Utils.AccumulatedAboveShares | BuildingGeneration/Assets/Editor/Utils.cs:55-60 | every entry is at least its own share, which is non-negative |
| Utils.AccumulatedAbovePrefixShares | BuildingGeneration/Assets/Editor/Utils.cs:55-60 | entry i is at least the share of the first i + 1 values together |
| Utils.AccumulatedStep | BuildingGeneration/Assets/Editor/Utils.cs:55-60 | each entry is at least the one before it |
| Utils.CalcCDF | BuildingGeneration/Assets/Editor/Utils.cs:35-63 | a fresh array holding Cdf of the scores |
| Utils.SumValues | BuildingGeneration/Assets/Editor/Utils.cs:40-43 | the total of the scores |
| Utils.FillUniform | BuildingGeneration/Assets/Editor/Utils.cs:45-52 | the array now holds the uniform cdf |
| Utils.FillAccumulated | BuildingGeneration/Assets/Editor/Utils.cs:55-60 | the array now holds the accumulated cdf |
| Utils.AccumulateAt | BuildingGeneration/Assets/Editor/Utils.cs:57-58 | one step writes the next accumulated entry and keeps the running sum equal to the sum of the entries so far |
| Utils.Bracket | BuildingGeneration/Assets/Editor/Utils.cs:10-33 | on a non-decreasing cdf of three or more entries, the first index from 1 on whose entry reaches the value, else the last index |
| Utils.BracketFrom | BuildingGeneration/Assets/Editor/Utils.cs:10-33 | the same search started from index k |
| Utils.WeightedRandomIndex | BuildingGeneration/Assets/Editor/Utils.cs:10-33 | -1 on an empty cdf, 0 on one entry, otherwise an index whose entry reaches the value or the last; with two entries 0 exactly when the value is at most the first entry, with three or more never 0, and on a non-decreasing cdf exactly Bracket |
| Utils.BracketUnique | BuildingGeneration/Assets/Editor/Utils.cs:10-33 | on a non-decreasing cdf any index with Bracket's two properties is Bracket's answer |
| Utils.BracketSkipsFirst | BuildingGeneration/Assets/Editor/Utils.cs:10-33 | a value below the first entry still draws index 1, not 0 |
| Ruins.CoverAboveStep | BuildingGeneration/Assets/Editor/RuinGenerator.cs:59-68 | walking down a column, has_cover becomes true exactly when some higher cell is positive |
| Ruins.CoveredVolumeBound | BuildingGeneration/Assets/Editor/RuinGenerator.cs:51-74 | the covered volume is at most x · (y − 1) · z |
| Ruins.CoveredFromBound | BuildingGeneration/Assets/Editor/RuinGenerator.cs:60-69 | a column's covered cells from height y are at most the cells above y |
| Ruins.CoveredInSliceBound | BuildingGeneration/Assets/Editor/RuinGenerator.cs:57-70 | n columns cover at most n · (y − 1) cells |
| Ruins.CoveredUpToBound | BuildingGeneration/Assets/Editor/RuinGenerator.cs:55-72 | n slices cover at most n · z · (y − 1) cells |
| Ruins.EmptyGridScoresZero | BuildingGeneration/Assets/Editor/RuinGenerator.cs:51-74 | an empty blueprint covers nothing |
| Ruins.EmptyCoversNothing | BuildingGeneration/Assets/Editor/RuinGenerator.cs:55-72 | the slices of an empty grid cover nothing |
| Ruins.EmptySliceCoversNothing | BuildingGeneration/Assets/Editor/RuinGenerator.cs:57-70 | the columns of an empty slice cover nothing |
| Ruins.EmptyColumnCoversNothing | BuildingGeneration/Assets/Editor/RuinGenerator.cs:60-69 | an empty column covers nothing |
| Ruins.SameCellsSameScore | BuildingGeneration/Assets/Editor/RuinGenerator.cs:51-74 | the covered volume depends only on the cells |
| Ruins.SameCellsSameUpTo | BuildingGeneration/Assets/Editor/RuinGenerator.cs:55-72 | so do the covered cells of the first n slices |
| Ruins.SameCellsSameSlice | BuildingGeneration/Assets/Editor/RuinGenerator.cs:57-70 | so do those of a slice |
| Ruins.SameCellsSameColumn | BuildingGeneration/Assets/Editor/RuinGenerator.cs:60-69 | so do those of a column |
| Ruins.ScanColumn | BuildingGeneration/Assets/Editor/RuinGenerator.cs:59-69 | the downward column loop adds the column's covered cells |
| Ruins.ScanSlice | BuildingGeneration/Assets/Editor/RuinGenerator.cs:57-70 | the z loop adds the slice's covered cells |
| Ruins.ScanGrid | BuildingGeneration/Assets/Editor/RuinGenerator.cs:53-73 | the x loop totals the grid's covered volume |
| Ruins.CalcCoveredVolume | BuildingGeneration/Assets/Editor/RuinGenerator.cs:51-74 | the covered volume of the blueprint's grid |
| Ruins.CalculateScore | BuildingGeneration/Assets/Editor/RuinGenerator.cs:76-83 | the score is the covered volume, between 0 and x · (y − 1) · z |
| Ruins.CompareBlueprints | BuildingGeneration/Assets/Editor/RuinGenerator.cs:35-38 | negative, zero or positive exactly as the first score is below, equal to or above the second |
| Ruins.Range | BuildingGeneration/Assets/Editor/RuinGenerator.cs:117-120 | the identity order 0 … n − 1 that the elite loop copies |
| Ruins.InsertDown | BuildingGeneration/Assets/Editor/RuinGenerator.cs:101 | inserting an index into an order by non-increasing score keeps it ordered and adds exactly that index |
| Ruins.InsertBehind | BuildingGeneration/Assets/Editor/RuinGenerator.cs:101 | inserting behind a higher-scoring head keeps the order and the multiset |
| Ruins.RanksDownTail | BuildingGeneration/Assets/Editor/RuinGenerator.cs:101 | the tail of an order by non-increasing score is one too |
| Ruins.ConsRanksDown | BuildingGeneration/Assets/Editor/RuinGenerator.cs:101 | a head scoring at least as much as the next entry extends such an order |
| Ruins.SortDown | BuildingGeneration/Assets/Editor/RuinGenerator.cs:101 | a permutation of 0 … n − 1 ordered by non-increasing score |
| Ruins.RangeGrows | BuildingGeneration/Assets/Editor/RuinGenerator.cs:101 | the indexes 0 … n − 1 are those up to n − 2 plus n − 1 |
| Ruins.PlaceOf | BuildingGeneration/Assets/Editor/RuinGenerator.cs:101 | every index has a place in a permutation |
| Ruins.ScoreAll | BuildingGeneration/Assets/Editor/RuinGenerator.cs:103-109 | a fresh array with each blueprint's covered volume at its position |
| Ruins.SortByScore | BuildingGeneration/Assets/Editor/RuinGenerator.cs:101 | the population rearranged by a permutation so that scores do not increase |
| Ruins.Reordered | BuildingGeneration/Assets/Editor/RuinGenerator.cs:101 | the grids in the order of a permutation |
| Ruins.FirstIsBest | BuildingGeneration/Assets/Editor/RuinGenerator.cs:139-140 | after sorting, no blueprint scores above the first |
| Ruins.HoldsAppend | BuildingGeneration/Assets/Editor/RuinGenerator.cs:27-31 | adding a fresh blueprint to a population keeps the blueprints and their arrays distinct |
| Ruins.RandomizeAt | BuildingGeneration/Assets/Editor/RuinGenerator.cs:95 | RandomizeInto on one blueprint replaces only its grid, by a randomised grid with no registered id |
| Ruins.RandomizePopulation | BuildingGeneration/Assets/Editor/RuinGenerator.cs:89-96 | every blueprint of the population now denotes a randomised grid of the given dimensions |
| Ruins.CopyAt | BuildingGeneration/Assets/Editor/RuinGenerator.cs:119 | one copy replaces only slot i's grid, by the source's grid |
| Ruins.MutateAt | BuildingGeneration/Assets/Editor/RuinGenerator.cs:131 | MutateInto replaces only slot i's grid, by a mutant of the source's grid |
| Ruins.CopyElites | BuildingGeneration/Assets/Editor/RuinGenerator.cs:117-120 | the first e slots now denote the e best-ranked grids and the rest are unchanged |
| Ruins.CopiedAll | BuildingGeneration/Assets/Editor/RuinGenerator.cs:117-120 | the elite loop run to e copies exactly the first e ranks |
| Ruins.ExtendCopied | BuildingGeneration/Assets/Editor/RuinGenerator.cs:119 | one elite copy extends the copied prefix |
| Ruins.DrawParent | BuildingGeneration/Assets/Editor/RuinGenerator.cs:125 | a drawn parent is a valid index, never 0 with three or more individuals |
| Ruins.CopySurvivors | BuildingGeneration/Assets/Editor/RuinGenerator.cs:122-126 | slots lo up to hi now denote the grids of drawn parents and the rest are unchanged |
| Ruins.ExtendDrawn | BuildingGeneration/Assets/Editor/RuinGenerator.cs:125 | one survivor copy extends the drawn prefix |
| Ruins.ExtendBred | BuildingGeneration/Assets/Editor/RuinGenerator.cs:131 | one mutant extends the bred prefix |
| Ruins.MutateStep | BuildingGeneration/Assets/Editor/RuinGenerator.cs:131 | one pass of the mutant loop keeps the bred prefix growing |
| Ruins.MutateRest | BuildingGeneration/Assets/Editor/RuinGenerator.cs:128-132 | every slot from lo on now denotes a mutant of a drawn parent and the slots below lo are unchanged |
| Ruins.Empties | BuildingGeneration/Assets/Editor/RuinGenerator.cs:25-33 | n empty grids of the given dimensions |
| Ruins.Layout | BuildingGeneration/Assets/Editor/RuinGenerator.cs:114-132 | writing the three parts into the fresh population lays them end to end |
| Ruins.Assemble | BuildingGeneration/Assets/Editor/RuinGenerator.cs:114-133 | elites, survivors and mutants together form a next generation |
| Ruins.ElitesLaid | BuildingGeneration/Assets/Editor/RuinGenerator.cs:117-120 | the elite part copies the same ranks |
| Ruins.SurvivorsLaid | BuildingGeneration/Assets/Editor/RuinGenerator.cs:122-126 | the survivor part copies drawn parents |
| Ruins.MutantsLaid | BuildingGeneration/Assets/Editor/RuinGenerator.cs:128-132 | the mutant part holds mutants of drawn parents |
| Ruins.Breed | BuildingGeneration/Assets/Editor/RuinGenerator.cs:114-133 | the fresh population now denotes a next generation of the ranked grids, all of the given dimensions |
| Ruins.SplicedDims | BuildingGeneration/Assets/Editor/RuinGenerator.cs:114-126 | every slot has the population's dimensions after the elite and survivor loops |
| Ruins.EliteKeepsBest | BuildingGeneration/Assets/Editor/RuinGenerator.cs:117-120 | with at least one elite, the first blueprint of the next generation scores at least as much as any of the current one |
| Ruins.HighestKey | BuildingGeneration/Assets/Editor/RuinGenerator.cs:137 | some index holds the highest score |
| Ruins.CreateEmptyPopulation | BuildingGeneration/Assets/Editor/RuinGenerator.cs:25-33 | n fresh, distinct blueprints each denoting the empty grid of the given dimensions |
| Ruins.AppendEmpty | BuildingGeneration/Assets/Editor/RuinGenerator.cs:30 | one fresh empty blueprint, distinct from the population built so far |
| Ruins.Round | BuildingGeneration/Assets/Editor/RuinGenerator.cs:98-138 | one round: a ranking of the population by non-increasing score and a next generation of it, of the same size and dimensions |
| Ruins.SortForBest | BuildingGeneration/Assets/Editor/RuinGenerator.cs:139-140 | the final sort returns a reordering of the population that puts a best-scoring blueprint first |
| Ruins.InitialPopulation | BuildingGeneration/Assets/Editor/RuinGenerator.cs:87-96 | n randomised blueprints of the given dimensions, one of which scores highest |
| Ruins.LineageExtend | BuildingGeneration/Assets/Editor/RuinGenerator.cs:98-138 | a lineage of generations, each a next generation of the previous one ranked by score, grows by one more round |
| Ruins.ElitistLineage | BuildingGeneration/Assets/Editor/RuinGenerator.cs:117-120 | with at least one elite, the best of the last generation scores at least as much as every blueprint of every earlier generation |
| Ruins.Evolve | BuildingGeneration/Assets/Editor/RuinGenerator.cs:98-138 | the final population is the last of exactly max(rounds, 0) + 1 generations starting at the initial one, each a next generation of the previous ranked by score; the rounds keep size and dimensions; with at least one elite (or no round) the best initial score is never lost |
| Ruins.RuinGenerator.constructor | BuildingGeneration/Assets/Editor/RuinGenerator.cs:10-20 | the defaults: 100 rounds, no elite, 100 individuals, no survivors, 10 × 10 × 10 |
| Ruins.RuinGenerator.GenerateRuin | BuildingGeneration/Assets/Editor/RuinGenerator.cs:85-141 | the population has popSize blueprints of the configured dimensions and is a ranking of the last of numRounds generations bred from the randomised initial one, the result is its first and scores at least as much as every other, the initial grids were randomised, and with at least one elite (or no round) the result scores at least as much as every initial blueprint |

## Left out

- Instantiate, IsStable and SimulatePhysics build Unity game objects and
  run the physics engine. IsStable is the parameter `stable: Grid -> bool`.
  Instantiate and SimulatePhysics are not part of this model.
- Random draws are arbitrary choices inside the methods:
  - the notebook index, the axis and the magnitude in `[0, 3)`;
  - the roll against DeleteChance and the id to delete;
  - the attachment point picked among the valid ones;
  - the value in `[0, 1)` that WeightedRandomIndex searches for.
    `Utils.WeightedRandomIndex` takes this value as a parameter.

  Nothing about their distribution is modelled.
- The status callback `on_status_update` and the `Debug.Log` messages are
  not modelled.
- The design notebook is a static list in the source. Here it is a
  parameter (`notebook` with its grids `designs`). AddDesignToNotebook,
  which appends to it, is not modelled.
- C# arrays of blueprints are modelled as `seq<Blueprint>`; the blueprints
  themselves stay objects. `population = next_generation` replaces the
  sequence. Blueprint arrays are not aliased anywhere in the source.
- Integers are unbounded. Block ids, next id and scores could overflow
  32 bits in the source only after about a billion stamps.
- `double` is modelled as `real`, so rounding is not modelled.
  `Utils.CdfExample` is exact arithmetic.
- Ruins.SortDown: `System.Array.Sort` is not stable and its order among
  equal scores is unspecified. The model fixes one order (an insertion
  sort), and `Ruins.SortByScore` states only what any order satisfies: a
  permutation with non-increasing scores.
- Preconditions stand where the source would throw or misbehave:
  - dimensions must be non-negative, where C# throws on a negative array
    size;
  - AddBlock's coordinate must be in the box (index out of range);
  - CopyInto's dimensions must be equal. The source only logs a mismatch
    and then copies the raw array;
  - ApplyDesign's and DesignCollides' offsets must be non-negative. All
    attachment points are;
  - `popSize >= 1` and `numElite + numSurvivors <= popSize`. Otherwise
    the source indexes outside the population or draws from an empty
    cdf.
- Ruins.RuinGenerator.GenerateRuin: the result is at least as good as the
  initial population only when `numElite >= 1` (or there are no rounds).
  With the defaults (`num_elite = 0`) the source does not keep the best
  blueprint, and the model promises nothing more.
- Clear, with its `blocks[z, y, z]` index, is not part of this model. So
  are:
  - GetDimsArr and GetDimsString (dimension formatting);
  - the Discrete3DCoord equality and hash code, which are `Coord`'s
    structural equality here;
  - CountBlocks, which is commented out of the score;
  - the editor window GenerateRuinWizard.
