# Dungeon generator core, modelled in Dafny

This project models the dungeon-structure pipeline of
`src/utils/dungeonGenerator.js` and proves properties of the model:

- the seeded random source `SeededRandom`: string hash, linear
  congruential step, `nextInt`, `choice`, `shuffle`;
- room placement (`generateRooms`, `getRoomType`);
- stamping the rooms onto the all-wall grid and recording their centres
  (inside `generateDungeon`);
- the spanning tree (`createMinimumSpanningTree`), corridor carving
  (`createCorridor`) and the corridor stage (`generateCorridors`);
- door placement (`placeDoors`, `isRoomCorridorBoundary`);
- encounters (`generateEncounters`, `generateEncounterDescription`);
- the whole pipeline (`generateDungeon`).

The JavaScript mutates one grid and one generator object in place. The model
is functional:

- the grid is a `seq<seq<Cell>>` value passed from stage to stage;
- the generator state is a natural number threaded through pure functions;
- every draw returns `Drawn(value, rng)`, the value and the state after it.

`Advance(s, k)` is the state after `k` calls of `next()`.

Modules, one file each, in pipeline order:

| file | module | what |
|---|---|---|
| options.dfy | `Options` | `Option` |
| random.dfy | `SeededRandom` | hash, `next`, `nextInt`, `choice`, `shuffle` |
| grid.dfy | `Grids` | cells, grids, open walks and connectivity |
| rooms.dfy | `Rooms` | room placement |
| stamping.dfy | `Stamping` | rooms onto the grid, centres recorded |
| spanning.dfy | `SpanningTree` | the connection tree |
| corridors.dfy | `Corridors` | corridor carving and the corridor stage |
| doors.dfy | `Doors` | door placement |
| encounters.dfy | `Encounters` | encounters and their descriptions |
| dungeon.dfy | `Dungeon` | the pipeline and its end-to-end properties |

The main end-to-end results:

- `Dungeon.RoomsConnected`: on a grid of at least 10 x 10 with corridors at
  least one cell wide, every two room centres of the finished dungeon are
  joined by a walk of orthogonal steps through open cells.
- `Dungeon.FinalCells`: room-centre cells are exactly the room centres, and
  every door lies on interior room floor next to corridor floor.
- `Dungeon.DungeonEncounters`: each encounter fits the room it belongs to.

The draw thresholds are exact. `next() < 0.7` holds exactly when the new
state is below 163296. `next() < 0.6` holds exactly when it is below 139968.

Behaviours of the code the model keeps:

- Ties: when the horizontal and vertical distances are equal, `createCorridor`
  carves vertically first. It carves horizontally first only when `deltaX`
  is strictly greater than `deltaY`.
- Extra loop corridors: they are carved into the grid but are not added to
  the returned corridor list.
- Number of extra rounds: the smaller of 2 and a third of the placed rooms,
  rounded down.
- `choice` on an empty array returns `undefined`, which is `None` here, and
  still consumes a draw.

## Model

| member | source | states |
|---|---|---|
| SeededRandom.ToInt32 | src/utils/dungeonGenerator.js:12 | the 32-bit conversion yields a signed 32-bit value that differs from its input by a multiple of 2^32 |
| SeededRandom.ToInt32Unique | src/utils/dungeonGenerator.js:12 | that value is the only signed 32-bit one congruent to the input modulo 2^32 |
| SeededRandom.HashStepIsTimes31 | src/utils/dungeonGenerator.js:11-12 | `((hash << 5) - hash) + char` wrapped to 32 bits is `31 * hash + char` modulo 2^32 |
| SeededRandom.HashIsWrappedPolynomial | src/utils/dungeonGenerator.js:7-13 | the hash loop equals the polynomial hash (code units weighted by powers of 31) reduced to signed 32 bits |
| SeededRandom.HashString | src/utils/dungeonGenerator.js:7-15 | the initial state is a non-negative number of at most 2^31 |
| SeededRandom.Next | src/utils/dungeonGenerator.js:17-20 | each step leaves the state in [0, 233280) |
| SeededRandom.AdvanceAdd | src/utils/dungeonGenerator.js:17-20 | j steps followed by k steps are j + k steps |
| SeededRandom.NextInt | src/utils/dungeonGenerator.js:22-24 | `nextInt(min, max)` consumes exactly one step and, for min <= max, lies in [min, max] |
| SeededRandom.Choice | src/utils/dungeonGenerator.js:26-28 | one step; an element of the array exactly when the array is non-empty, nothing otherwise |
| SeededRandom.Swap | src/utils/dungeonGenerator.js:34 | exchanges positions i and j, keeps all other elements, and is a permutation |
| SeededRandom.Shuffle | src/utils/dungeonGenerator.js:30-37 | the result is a permutation (same length, same multiset) and the state advanced once per index from the last down to 1 |
| Rooms.OverlapsIffPaddedBoxesMeet | src/utils/dungeonGenerator.js:120-125 | the overlap test holds exactly when the two boxes, each grown by two cells on its far sides, share a cell |
| Rooms.ApartRoomsAreDisjoint | src/utils/dungeonGenerator.js:119-129 | two accepted rooms share no cell |
| Rooms.Candidate | src/utils/dungeonGenerator.js:105-117 | a candidate has the next id, sides 4 to 8, no centre, keeps a one-cell border on grids of at least 10 x 10, and costs five draws |
| Rooms.AcceptKeepsWellPlaced | src/utils/dungeonGenerator.js:119-129 | accepting a candidate that overlaps no accepted room keeps ids, sizes, border and padding invariant |
| Rooms.Attempt | src/utils/dungeonGenerator.js:104-130 | one attempt keeps the rooms well placed, extends the list by at most one room and costs five draws |
| Rooms.PlaceRooms | src/utils/dungeonGenerator.js:104-130 | the loop keeps the rooms well placed, only extends the list, stops at roomCount, and uses every attempt when it falls short |
| Rooms.GenerateRooms | src/utils/dungeonGenerator.js:100-133 | at most roomCount rooms, ids equal to positions, sides 4 to 8, inside the border on grids of at least 10 x 10, padded boxes disjoint; fewer rooms only after all roomCount * 10 attempts |
| Grids.Set | src/utils/dungeonGenerator.js:64 | writing a cell changes exactly that cell |
| Grids.Blank | src/utils/dungeonGenerator.js:54 | the initial grid is height rows of width walls |
| Stamping.StampRoom | src/utils/dungeonGenerator.js:60-76 | one room: its centre becomes a room centre, its other cells floor, and every other cell is unchanged |
| Stamping.WithCentre | src/utils/dungeonGenerator.js:70-76 | the centre is recorded exactly when it is inside the grid, and nothing else about the room changes |
| Stamping.StampedCells | src/utils/dungeonGenerator.js:59-77 | after stamping rooms that keep their padding, a cell is a room centre exactly at a room's centre, floor on the rest of every room, and unchanged elsewhere |
| SpanningTree.ScanRow | src/utils/dungeonGenerator.js:214-225 | the inner scan returns the old best or a pair from this room, no farther than the old best or than any defined pair it sees |
| SpanningTree.Scan | src/utils/dungeonGenerator.js:213-226 | the nested scan returns a pair no farther than any (connected, unconnected) pair with a defined distance |
| SpanningTree.Closest | src/utils/dungeonGenerator.js:209-226 | the scan finds a closest cut pair at its true distance, and finds nothing only when no pair has a defined distance; ties go to the first pair scanned, since every pair met before the chosen one is undefined or strictly farther |
| SpanningTree.ScanRowFirst | src/utils/dungeonGenerator.js:214-225 | a row scan that replaces its best pair ends on the row's first closest pair, which is strictly closer than that best |
| SpanningTree.ScanFirst | src/utils/dungeonGenerator.js:213-226 | a scan that replaces its best pair ends on the first closest pair in scan order (connected rooms outside, unconnected rooms inside) |
| SpanningTree.FirstAtPick | src/utils/dungeonGenerator.js:205-226 | since connected rooms are distinct and unconnected rooms are scanned by increasing index, the scan's first pair is one the first-found tie-break picks |
| SpanningTree.Without | src/utils/dungeonGenerator.js:231 | removal keeps exactly the other members |
| SpanningTree.WithoutOnce | src/utils/dungeonGenerator.js:231 | on a list without duplicates, removing a member shortens it by exactly one and leaves no duplicates |
| SpanningTree.ExtendLoopState | src/utils/dungeonGenerator.js:228-239 | adding a closest cut pair that the tie-break allows keeps the loop invariant: connected (in insertion order) and unconnected (by increasing index) partition the rooms, tree order, greediness and first-found picks |
| SpanningTree.WithoutIncreasing | src/utils/dungeonGenerator.js:231 | deleting from the unconnected rooms keeps them in increasing order |
| SpanningTree.ExtendFirstFound | src/utils/dungeonGenerator.js:228-231 | appending a first-found pick for the current step keeps every earlier step's pick first-found |
| SpanningTree.Pick | src/utils/dungeonGenerator.js:228-238 | the added connection is the scan's pair when it finds one, with no draw; otherwise the first unconnected room joined to a connected room at a drawn position, with one draw |
| SpanningTree.Grow | src/utils/dungeonGenerator.js:208-240 | the loop ends with n - 1 connections in tree order, each a closest cut pair and the first such pair its pass scans, reaching every room |
| SpanningTree.MinimumSpanningTree | src/utils/dungeonGenerator.js:203-243 | with n >= 1 rooms, n - 1 connections; each leaves a reached room for an unreached one, is a closest cut pair and the first one its pass scans (connected rooms in the order they were joined, unconnected rooms by increasing index), and together they reach every room |
| SpanningTree.WalkFromRoot | src/utils/dungeonGenerator.js:228-238 | every room the first k connections reach is joined to room 0 by a walk along connections |
| SpanningTree.EveryRoomReachable | src/utils/dungeonGenerator.js:203-243 | every room is reachable from room 0 through the connections |
| Corridors.ColumnBand | src/utils/dungeonGenerator.js:260-261 | one step of a horizontal leg visits exactly the cw rows offset by -floor(cw / 2) |
| Corridors.RowBand | src/utils/dungeonGenerator.js:276-277 | one step of a vertical leg visits exactly the cw columns offset by -floor(cw / 2) |
| Corridors.HorizontalLeg | src/utils/dungeonGenerator.js:256-269 | a horizontal leg visits exactly the band between its two x ends |
| Corridors.VerticalLeg | src/utils/dungeonGenerator.js:272-285 | a vertical leg visits exactly the band between its two y ends |
| Corridors.CorridorCellsAreLShape | src/utils/dungeonGenerator.js:250-318 | the cells visited are exactly the two legs of the L shape chosen by the orientation |
| Corridors.Carve | src/utils/dungeonGenerator.js:259-268 | visited walls inside the grid become floor, all else is kept, and the path lists exactly the converted cells, once each |
| Corridors.CreateCorridor | src/utils/dungeonGenerator.js:245-327 | only walls change, each to floor, and the record holds the two ends, the width and the orientation |
| Corridors.CreateCorridorPath | src/utils/dungeonGenerator.js:245-318 | a cell changes exactly when it is in the path; the path has no repeats and is exactly the walls of the grid inside the L shape |
| Corridors.CorridorEnd | src/utils/dungeonGenerator.js:157-160 | the corridor endpoint is the room's computed centre whenever the recorded centre is that centre or unset |
| Corridors.CentreLine | src/utils/dungeonGenerator.js:250-318 | the corridor's centre line is a walk of orthogonal steps from its start to its end |
| Corridors.CorridorOpensCentreLine | src/utils/dungeonGenerator.js:245-318 | a corridor at least one cell wide between two in-grid points leaves its centre line open |
| Corridors.CarveTree | src/utils/dungeonGenerator.js:152-170 | one corridor per connection, from the first room's centre to the second's, changing only walls to floor |
| Corridors.CarveTreePaths | src/utils/dungeonGenerator.js:152-170 | every path cell was a wall before and is floor after, and no cell is in two paths |
| Corridors.CarveTreeOpensLines | src/utils/dungeonGenerator.js:152-170 | after the tree corridors, the centre line of every connection is open |
| Corridors.ExtraRound | src/utils/dungeonGenerator.js:174-198 | one extra round consumes two draws and changes only walls to floor |
| Corridors.ExtraLoopsCarve | src/utils/dungeonGenerator.js:173-198 | the extra rounds change only walls to floor |
| Corridors.ExtraLoopsDraws | src/utils/dungeonGenerator.js:173-198 | the extra rounds consume exactly two draws each |
| Corridors.GenerateCorridors | src/utils/dungeonGenerator.js:143-201 | fewer than two rooms leave grid, state and corridors untouched; otherwise rooms - 1 corridors; only walls become floor |
| Corridors.CorridorPaths | src/utils/dungeonGenerator.js:143-201 | the returned corridors are the tree's, in order, with disjoint paths of cells that were walls before the stage and are floor after it |
| Corridors.TreeCorridorsStayOpen | src/utils/dungeonGenerator.js:143-201 | after the extra loops too, every tree connection's centre line is open |
| Doors.CandidatesFromMembers | src/utils/dungeonGenerator.js:331-335 | the scan's candidates are exactly the interior boundary floor cells from the scan position on |
| Doors.DoorKeepsCandidates | src/utils/dungeonGenerator.js:346-375 | a door inside a room changes no other cell's candidacy, because the neighbour test only looks at corridor floor |
| Doors.DoorKeepsLaterCandidates | src/utils/dungeonGenerator.js:329-344 | placing a door leaves the candidates later in the scan unchanged |
| Doors.PlaceDoorsFromSpec | src/utils/dungeonGenerator.js:329-344 | the scan from any position draws once per candidate, the k-th candidate is decided by the k-th draw, and other cells are kept |
| Doors.PlaceDoors | src/utils/dungeonGenerator.js:329-344 | door placement keeps the grid's shape |
| Doors.PlaceDoorsSpec | src/utils/dungeonGenerator.js:329-375 | one draw per candidate (interior floor in a room next to corridor floor), each a door exactly when its draw is below 0.7, all other cells kept |
| Doors.DoorsOnlyOnBoundaries | src/utils/dungeonGenerator.js:329-375 | every changed cell was interior boundary floor and is now a door |
| Doors.DoorsKeepOpen | src/utils/dungeonGenerator.js:329-344 | door placement closes no open cell |
| Encounters.DoubledMultiplier | src/utils/dungeonGenerator.js:379-384 | `floor(baseCR * 2)` is 1 to 4 for the four difficulties |
| Encounters.Creatures | src/utils/dungeonGenerator.js:386-395 | each biome, and the fallback, has five creature names |
| Encounters.DrawCreatures | src/utils/dungeonGenerator.js:404-409 | n entries, names from the vocabulary, counts from 1 to the difficulty's maximum, two draws each |
| Encounters.ChallengeRatingBounds | src/utils/dungeonGenerator.js:416 | the rating is at least 1 and at most max(1, floor(1.5 * floor(2 * baseCR))) |
| Encounters.Lower | src/utils/dungeonGenerator.js:440 | lower-casing keeps the length, turns each capital into its lower-case letter (32 code points up) and keeps every other character; no capital is left, and the text is unchanged exactly when it had none |
| Encounters.JoinNamesPrefix | src/utils/dungeonGenerator.js:440 | the joined names hold each lowered name in order, separated by ", " |
| Encounters.SentenceArticle | src/utils/dungeonGenerator.js:442 | the description opens with the room text, then "A" for one entry and "Several" otherwise |
| Encounters.SentenceVerb | src/utils/dungeonGenerator.js:442 | the description ends in " this area.", after a space and the word "guards" for one entry and "guard" otherwise |
| Encounters.RoomDraft | src/utils/dungeonGenerator.js:398-419 | a room gets an encounter exactly when its draw is below 0.6; a miss costs one draw; a hit fits the room |
| Encounters.RenderFits | src/utils/dungeonGenerator.js:411-418 | the encounter object of a fitting draft has the room type's name and description |
| Encounters.DraftsUpTo | src/utils/dungeonGenerator.js:398-420 | the first n rooms give at most n encounters |
| Encounters.GenerateEncounters | src/utils/dungeonGenerator.js:377-423 | no more encounters than rooms (one per room, in room order: see Encounters.EncountersByRoomId) |
| Encounters.OriginsShape | src/utils/dungeonGenerator.js:398-420 | each encounter comes from a distinct earlier room, in increasing room order |
| Encounters.DraftFitsOrigin | src/utils/dungeonGenerator.js:398-420 | the k-th encounter has id k and fits the room it came from |
| Encounters.EncountersFitTheirRooms | src/utils/dungeonGenerator.js:377-423 | each encounter fits the room it came from, and those rooms are in increasing order |
| Encounters.EncountersByRoomId | src/utils/dungeonGenerator.js:377-423 | ids are 0..k-1; each encounter fits the room its roomId names; roomIds increase strictly |
| Stamping.WithCentres | src/utils/dungeonGenerator.js:69-76 | one room per placed room with only the centre field changed: a centre inside the grid is recorded as the floored centre, any other room is left as it was |
| Dungeon.CentredRooms | src/utils/dungeonGenerator.js:69-76 | recording centres changes only the centre field, and records exactly the centres inside the grid |
| Dungeon.CentredRoomsPlaced | src/utils/dungeonGenerator.js:57-76 | the placed rooms with recorded centres keep every placement guarantee |
| Dungeon.StampedPlaced | src/utils/dungeonGenerator.js:54-77 | stamping onto the blank grid gives room centres at the centres, floor in rooms, walls elsewhere |
| Dungeon.Run | src/utils/dungeonGenerator.js:51-86 | the rooms the later stages see have ids equal to positions and recorded centres equal to the computed ones |
| Dungeon.GenerateDungeon | src/utils/dungeonGenerator.js:40-98 | a width x height grid, at most roomCount rooms, one corridor fewer than rooms, no more encounters than rooms (one per room: see Dungeon.DungeonEncounters) |
| Dungeon.DungeonRooms | src/utils/dungeonGenerator.js:56-77 | the returned rooms are well placed and have their centres recorded when inside the grid |
| Dungeon.StampedGrid | src/utils/dungeonGenerator.js:53-77 | after stamping, room centres, room floor and walls are exactly where the rooms say |
| Dungeon.CorridorCells | src/utils/dungeonGenerator.js:79-80 | the corridor stage keeps open cells open, keeps room centres exactly at the centres and adds no door |
| Dungeon.CorridorGrid | src/utils/dungeonGenerator.js:79-80 | the same, for the pipeline's own corridor stage |
| Dungeon.DoorCells | src/utils/dungeonGenerator.js:82-83 | door placement keeps open cells open and room centres in place, and doors go only on interior boundary floor |
| Dungeon.FinalCells | src/utils/dungeonGenerator.js:79-97 | in the returned grid, room centres are exactly at the room centres and doors only on interior boundary floor |
| Dungeon.DungeonEncounters | src/utils/dungeonGenerator.js:85-94 | each returned encounter fits the room its roomId names, in increasing room order |
| Dungeon.StagesConnected | src/utils/dungeonGenerator.js:79-83 | after corridors and doors, every two room centres are connected through open cells |
| Dungeon.PipelineConnected | src/utils/dungeonGenerator.js:54-83 | from the placed rooms on, every two room centres end up connected |
| Dungeon.RoomsConnected | src/utils/dungeonGenerator.js:40-98 | on a grid of at least 10 x 10 with corridors at least one cell wide, every two room centres of the dungeon are connected through open cells |

## Left out

- Rooms.GenerateRooms: the one-cell border is promised only on grids of at
  least 10 x 10. The code itself does not keep it on smaller grids: with
  width 9 and room width 8, x can only be 1, and x + 8 = 9 exceeds width - 1.
- src/components/Hero/Hero.js is not part of this model. It is a user
  interface component with timers and rendering and no generation logic.
- SeededRandom.NextInt: computes `floor(state * n / 233280)` on exact
  rationals, with n = max - min + 1, where the code floors the double
  product of `state / 233280` and n. The two differ only when the exact
  value is a whole number and the double product falls just below it; the
  code then returns one less than the model. Among the range sizes the
  generator uses on the documented inputs (n at most 45), this happens
  only for n = 45, at the new states 67392 and 134784: the exact values are
  13 and 26, and the double products are 12.999999999999998 and
  25.999999999999996. n = 45 is reachable: a room 4 cells wide on a grid
  50 cells wide draws its column from 1 to 45
  (src/utils/dungeonGenerator.js:107), and the same holds for rows. At
  those two states the code puts the room at column (or row) 13 or 26,
  where the model puts it at 14 or 27.
- Encounters.ChallengeRatingBounds: rounds `baseCR * next() * 3` on exact
  rationals (half up, as `Math.round` does). It does not model
  floating-point rounding of the product.
- Unknown difficulty: an unknown difficulty name gives `NaN` multipliers in
  the source. `Difficulty` has only the four known cases.
- Biome lookup by arbitrary string: any unknown biome maps to the dungeon
  list. The model does not cover names that hit built-in object properties.
- Encounters.Lower: only ASCII capitals are lower-cased. The creature
  names are ASCII.
- Description fallback: the source falls back to the Chamber text for an
  unknown room type. Room types are drawn from the fixed list, so the
  fallback cannot be reached and is not modelled.
- Grid sizes: width and height are natural numbers. A negative size makes
  the source's `Array(height)` throw, and that error is not modelled.
- Dungeon.RoomsConnected: needs a grid of at least 10 x 10 and a corridor
  width of at least 1. The documented input ranges (sides 10 to 50,
  corridor width 1 to 3) meet both. With corridor width 0 nothing is carved,
  and on smaller grids rooms may leave the grid.
- Extra loop corridors: the source discards their records. The model keeps
  only their effect on the grid and on the draws.
- Determinism: it holds by construction, because every stage is a pure
  function of its inputs.
- Encounter texts: names and descriptions are attached after all draws
  (`Render`). They draw nothing, so the order does not matter.
- Shuffle leaving its input untouched: sequences are values, so this holds
  by construction.
- Mutation of room objects: the source mutates `room.centerX`/`centerY` in
  place. The model returns new rooms (`WithCentres`) to the later stages.
