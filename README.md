# Python course projects, modelled in Dafny

This project models three programs from a Python course and proves properties of them.

- **Project — an extended Game of Life** (`Project/gol.py`, `Project/code_base.py`). The world is a dictionary. It maps each `(y, x)` position to a cell object, or to `None` for a rim position. A cell object holds:
  - a state: alive `X`, dead `-`, elder `E` or prime elder `P`;
  - the cell's neighbour list;
  - an age.

  The model covers:
  - the seed patterns: gliders, pulsar and penta-decathlon;
  - building a world, either from a pattern or from a random draw;
  - the neighbour and rim geometry;
  - counting live neighbours;
  - the transition rule with ageing and promotion (alive → elder past age 5, elder → prime elder past age 10);
  - one tick of the world;
  - the counting loop of the simulation decorator;
  - parsing `WxH` command arguments;
  - the validating JSON seed-file loader.
- **Laboratory 2 — spy authentication** (`Laboration_2/assignment.py`):
  - `decrypt_password`: the rotation cipher, with vowels padded by `0`;
  - `format_username`: in-place capitalisation of a list of names, then joining them with `_`;
  - `authenticate_user` against the fixed agent table.
- **Laboratory 3 — Fibonacci** (`Laboration_3/assignment.py`):
  - the recursive `fib`, which serves as the specification;
  - the iterative loop;
  - the memoised recursion over the module-level `memory` dictionary, modelled as a class with a `map` field;
  - the measurement decorator's count-down loop.

Code that builds values by expressions is modelled as functions, with lemmas about them. Code that loops or mutates is modelled as methods, each proved against a function:
- the pulsar loops;
- `populate_world` and `update_world`;
- `count_alive_neighbours`;
- the decorator loops;
- `decrypt_password`;
- `format_username`, which works on an `array`;
- `fibonacci_iterative`;
- `fib_memory`.

Modules:
- `Wrappers`: `Option` and `Result`.
- `CodeBase`: states and patterns.
- `Topology`: grid, rim and neighbours.
- `Rules`: cells, counting and the next state.
- `Worlds`: populating and ticking a world.
- `Simulation`: the decorator loop.
- `SeedLoader`: the JSON seed file.
- `Strings`: split, join, `int()`, case mapping.
- `WorldSizeArg`: the command argument.
- `Spies`: Laboratory 2.
- `Fibonacci`: Laboratory 3.

Where the code and its documentation disagree, the model follows the code:
- The south-east glider's cells on the default 80×40 world include `(38, 76)` but not `(38, 77)`. `CodeBase.GliderFreeOnDefaultWorld` proves this.
- The seed-file loader does not check that every interior position is present. The model therefore makes completeness a precondition of ticking (`Worlds.Tickable`); the loader does not report it as an error.
- The loader's neighbour bound admits one row too many. See "## Findings".

## Model

| member | source | states |
|---|---|---|
| CodeBase.Token | Project/code_base.py:9-10 | every state is written as one of the characters `#`, `-`, `X`, `E`, `P` |
| CodeBase.TokenInjective | Project/code_base.py:9-10 | distinct states have distinct characters, so a state can be read back from its character |
| CodeBase.Half | Project/code_base.py:59-60 | `int(n * .5)` truncates toward zero: for n ≥ 0 the result r has 2r ≤ n ≤ 2r+1, and the mirror bounds hold for negative n |
| CodeBase.Gliders | Project/code_base.py:43-55 | the glider seed has 20 cells (four gliders of five) |
| CodeBase.GlidersStartNorthWest | Project/code_base.py:51 | the first five cells are the north-west glider at fixed coordinates |
| CodeBase.GlidersHoldMirrorImages | Project/code_base.py:48-55 | each north-west glider cell, mirrored in a column, in a row, or in both, is a glider cell |
| CodeBase.GlidersAreMirrorImages | Project/code_base.py:48-55 | every glider cell is a north-west cell or one of its three mirror images |
| CodeBase.GlidersMirrorColumn | Project/code_base.py:48-55 | the glider seed is closed under mirroring about the vertical centre line |
| CodeBase.GlidersMirrorRow | Project/code_base.py:48-55 | the glider seed is closed under mirroring about the horizontal centre line |
| CodeBase.GlidersInsideRim | Project/code_base.py:48-55 | on a world at least 5×5, every glider cell lies strictly inside the rim |
| CodeBase.GlidersOnDefaultWorld | Project/code_base.py:51-54 | on the 80×40 world, (1,3) and (38,76) are glider cells |
| CodeBase.GliderFreeOnDefaultWorld | Project/code_base.py:54 | on the 80×40 world, (38,77) and (20,40) are not glider cells |
| CodeBase.AppendPulsarCells | Project/code_base.py:70-76 | the nested loops over the row table append exactly the four mirrored cells of each (row, col) entry, in order |
| CodeBase.CreatePulsar | Project/code_base.py:57-78 | create_pulsar returns the pulsar cells centred at (int(h/2), int(w/2)) |
| CodeBase.PulsarColsLength | Project/code_base.py:72-76 | one row entry contributes four cells per column |
| CodeBase.PulsarColsMembers | Project/code_base.py:72-76 | a cell comes from one row entry iff its row offset is that row and its column offset is among that row's columns |
| CodeBase.PulsarColsDistinct | Project/code_base.py:72-76 | with positive offsets, one row entry yields no repeated cell |
| CodeBase.PulsarRowsMembers | Project/code_base.py:71-76 | a cell is produced by the loops iff some table entry holds its (row offset, column offset) |
| CodeBase.PulsarRowsDistinct | Project/code_base.py:71-76 | a positive table with distinct rows and columns yields no repeated cell |
| CodeBase.PulsarRowsLength | Project/code_base.py:71-76 | the loops produce four cells per table entry |
| CodeBase.PulsarLength | Project/code_base.py:62-78 | the pulsar has 48 cells |
| CodeBase.PulsarTableShape | Project/code_base.py:62-68 | `mapped_vals` has positive, distinct rows and positive, distinct columns in each row |
| CodeBase.PulsarDistinct | Project/code_base.py:57-78 | the pulsar has no repeated cell |
| CodeBase.PulsarTableOffsets | Project/code_base.py:62-68 | the pulsar offset relation is exactly membership in `mapped_vals` |
| CodeBase.PulsarMembers | Project/code_base.py:57-78 | a cell is in the pulsar iff its distances from the centre form a pulsar offset |
| CodeBase.PulsarSymmetric | Project/code_base.py:70-76 | the pulsar is symmetric about its centre row and its centre column |
| CodeBase.PulsarInsideRim | Project/code_base.py:57-78 | on a world at least 15×15, the pulsar lies strictly inside the rim |
| CodeBase.IncreasingIsDistinct | Project/code_base.py:84-95 | a strictly increasing cell list has no repeats and is ordered at every pair |
| CodeBase.PentaDecathlonIncreasing | Project/code_base.py:84-95 | the penta-decathlon has 22 cells, listed in strictly increasing (row, column) order |
| CodeBase.PentaDecathlonDistinct | Project/code_base.py:84-95 | the penta-decathlon has no repeated cell |
| CodeBase.PentaDecathlonBounds | Project/code_base.py:80-95 | the cells lie within one column of the horizontal centre, and from 5 rows above to 6 rows below the centre `int(h * .5 - 1)` |
| CodeBase.GetPattern | Project/code_base.py:97-102 | a pattern is returned exactly for the names `gliders`, `pulsar` and `penta`; any other name, or none, gives None |
| Topology.IsRimCell | Project/gol.py:314-323 | for a grid position, not being a rim cell means lying in rows 1..h-2 and columns 1..w-2 |
| Topology.CalcNeighbourPositions | Project/gol.py:374-397 | eight distinct neighbours in row-major order, each at king-move distance 1, and every position at distance 1 is listed |
| Topology.NeighbourSymmetric | Project/gol.py:374-397 | b is a neighbour of a iff a is a neighbour of b |
| Topology.InteriorNeighboursInGrid | Project/gol.py:314-323 | every neighbour of an interior cell lies in the grid, so the neighbour lookups never miss |
| Rules.AliveCount | Project/gol.py:485-501 | the number of live entries is at most the length of the neighbour list |
| Rules.AliveCountSpec | Project/gol.py:485-501 | the live count equals the number of list positions whose cell is live, and is at most the list's length |
| Rules.AliveCountExtremes | Project/gol.py:485-501 | the count is 0 iff no listed cell is live, and the full length iff every listed cell is live |
| Rules.CountAliveNeighbours | Project/gol.py:493-501 | the loop skips None entries and counts alive, elder and prime elder cells; the result is the live count |
| Rules.NextState | Project/gol.py:417-459 | a live cell survives iff it has 2 or 3 live neighbours; a dead cell is born iff it has 3; a survivor's age grows by one and its state is promoted by the new age; a newborn is alive; every other outcome is (dead, 0) |
| Rules.Promoted | Project/gol.py:429-454 | a survivor's new state is live, never below its old stage and at most one stage above it |
| Rules.NeverDemoted | Project/gol.py:429-454 | a surviving cell never loses rank and climbs at most one step per generation |
| Rules.SustainedCellAges | Project/gol.py:429-454 | a cell kept at 2 or 3 live neighbours for k generations is k generations older, at the stage its age dictates |
| Worlds.GridPositions | Project/gol.py:368-369 | the positions enumerated are exactly the grid positions |
| Worlds.CellState | Project/gol.py:333-354 | the rim state exactly on the rim; elsewhere alive iff the position is in the pattern, or, with no pattern, the draw is above 16; otherwise dead |
| Worlds.CellObject | Project/gol.py:356-364 | get_cell_object gives None exactly on the rim; otherwise age 0, the calculated neighbours, and a state from the pattern, or from a random draw above 16 when there is no pattern |
| Worlds.StandardWorldTickable | Project/gol.py:326-371 | a world with every grid position, None exactly on the rim and calculated neighbours can be ticked forever |
| Worlds.PopulateWorld | Project/gol.py:326-371 | the loops build a world keyed by exactly the grid positions: None on the rim; age-0 cells with their neighbours, seeded by the pattern or the draw; the world can be ticked |
| Worlds.UpdateWorld | Project/gol.py:461-482 | the loops over every position produce the next generation |
| Worlds.NextCell | Project/gol.py:417-459 | the next entry is None exactly on the rim; otherwise it keeps the neighbour list and is not in the rim state |
| Worlds.NextGeneration | Project/gol.py:468-482 | the next generation is keyed by exactly the grid positions |
| Worlds.NextGenerationShape | Project/gol.py:468-480 | the next generation has the same positions, None on the rim, the same neighbour lists, and (state, age) from the transition rule |
| Worlds.TickPreservesTickable | Project/gol.py:413-482 | a tick keeps a world tickable |
| Worlds.TickAges | Project/gol.py:417-459 | after a tick, no cell is in the rim state, dead cells have age 0, and live cells have age ≥ 1 |
| Worlds.BirthIsAgeOne | Project/gol.py:455-457 | in a world whose dead cells have age 0, a newborn cell is alive at age 1 with the same neighbours |
| Worlds.NoSpontaneousBirth | Project/gol.py:455-459 | a world with no live cell stays without live cells |
| Worlds.AliveCountLocal | Project/gol.py:485-501 | the live count depends only on the listed entries |
| Worlds.NextCellIsLocal | Project/gol.py:417-459 | a cell's next value depends only on itself and its neighbours' entries |
| Simulation.Generation | Project/gol.py:255-278 | from generation 1 on, the world is keyed by exactly the grid positions |
| Simulation.ReportOf | Project/gol.py:259-277 | a report carries its generation index and the ordinary count; elders and prime elders are part of the live total |
| Simulation.GenerationTickable | Project/gol.py:255-278 | every generation the loop reaches can be ticked again |
| Simulation.GenerationStep | Project/gol.py:257-278 | generation i+1 is the tick of generation i |
| Simulation.CountOrdinaryCells | Project/gol.py:250-254 | the first loop counts exactly the non-rim keys of the starting world |
| Simulation.CountStates | Project/gol.py:259-273 | the four counters are the numbers of cells in the alive, dead, elder and prime elder states |
| Simulation.ReportGeneration | Project/gol.py:259-277 | the logged entry for a generation is its index, the ordinary count, the live total (alive + elder + prime), elders, prime elders and dead |
| Simulation.LoggedReports | Project/gol.py:255-278 | a log built so far holds, at each index i, the report of generation i |
| Simulation.LoggedAppend | Project/gol.py:275-278 | appending the report of the next generation keeps the log correct |
| Simulation.Simulate | Project/gol.py:236-280 | one report per generation (none for a negative count); entry i reports generation i before its tick |
| Simulation.TickPartition | Project/gol.py:259-273 | after a tick, the four state counts add up to the number of ordinary cells |
| Simulation.TickKeepsOrdinaryInGrid | Project/gol.py:241-243 | a tick of a world with in-grid keys keeps the set of ordinary positions |
| Simulation.TickKeepsOrdinary | Project/gol.py:241-243 | a tick keeps the set of ordinary (non-rim) positions |
| Simulation.LoggedCountsAddUp | Project/gol.py:275-277 | from generation 1 on, the logged live total plus the dead count equals the logged population |
| Simulation.OrdinaryAcrossGenerations | Project/gol.py:241-243 | the number of ordinary cells is the same in every generation |
| WorldSizeArg.ParseWorldSizeArg | Project/gol.py:287-311 | both dimensions are positive; an arg with exactly one `x` whose two parts `int()` reads as values ≥ 1 gives those two values; any other number of parts gives the default 80×40 |
| WorldSizeArg.ParseWorldSizeArgRoundTrip | Project/gol.py:290-302 | `"WxH"`, written from positive W and H, parses back to (W, H) |
| WorldSizeArg.ParseWorldSizeArgTooManyParts | Project/gol.py:293-294 | an argument with two `x` separators falls back to 80×40 |
| WorldSizeArg.ParseWorldSizeArgNotPositive | Project/gol.py:300-301 | a zero dimension falls back to 80×40 |
| Strings.Join | Laboration_2/assignment.py:55 | `sep.join(parts)` starts with the first part |
| Strings.JoinCons | Laboration_2/assignment.py:55 | joining a list that starts with p is p, or p, the separator and the join of the rest |
| Strings.JoinThree | Laboration_2/assignment.py:55 | joining three parts puts the separator between each pair |
| Strings.Split | Project/gol.py:290 | `str.split(sep)` gives at least one part, no part contains the separator, and joining the parts restores the string |
| Strings.SplitWithoutSeparator | Project/gol.py:290 | a string without the separator splits into itself |
| Strings.SplitAtFirstSeparator | Project/gol.py:290 | splitting `a + sep + t` gives a, then the split of t |
| Strings.SplitJoin | Project/gol.py:290 | split inverts join for parts without the separator |
| Strings.WordLength | Laboration_2/assignment.py:36 | the length of the leading run of non-whitespace characters |
| Strings.Blanked | Laboration_2/assignment.py:36 | every whitespace character becomes a space and every other character is kept |
| Strings.Words | Laboration_2/assignment.py:36 | `str.split()` yields the maximal runs of non-whitespace characters in order: the non-empty pieces between whitespace characters, each a nonempty, whitespace-free word |
| Strings.WordsOfJoin | Laboration_2/assignment.py:36 | `str.split()` of words joined by single spaces gives the words back |
| Strings.LeadingSpaces | Project/gol.py:297-298 | the length of the leading whitespace run |
| Strings.TrailingSpaces | Project/gol.py:297-298 | the length of the trailing whitespace run |
| Strings.Strip | Project/gol.py:297-298 | the stripped string is the slice of s after its leading whitespace, only whitespace follows it, and it neither starts nor ends with whitespace |
| Strings.ParseInt | Project/gol.py:297-298 | `int()` succeeds iff the stripped text is digits, optionally after a sign, with single underscores between digits; the value is the digits' value, negated after `-` |
| Strings.NatToString | Project/gol.py:297-298 | the decimal numeral of a natural number is nonempty and all digits |
| Strings.ParseIntOfNatToString | Project/gol.py:297-298 | `int()` of a decimal numeral gives the number back |
| Strings.LowerChar | Laboration_2/assignment.py:53 | `A`..`Z` map to `a`..`z` by the same offset; every other character is unchanged; the result is never upper-case |
| Strings.UpperChar | Laboration_2/assignment.py:54 | `a`..`z` map to `A`..`Z` by the same offset; every other character is unchanged; the result is never lower-case |
| Strings.CaseMappingsInverse | Laboration_2/assignment.py:53-54 | upper-casing a lower-cased capital gives it back, and the other way round |
| Strings.Lower | Laboration_2/assignment.py:53 | `lower()` maps every character and keeps the length |
| Strings.Capitalize | Laboration_2/assignment.py:54 | `capitalize()` upper-cases the first character, lower-cases the rest, and keeps the length |
| SeedLoader.Lookup | Project/gol.py:56 | a JSON key lookup is None iff no member has the name; otherwise it returns the last member with that name |
| SeedLoader.Member | Project/gol.py:56 | a key is found only in a JSON object; in an object it is missing iff no member has the name, and otherwise it is the last such member's value |
| SeedLoader.Insert | Project/gol.py:175-182 | assigning a dictionary key: a new name is appended, an existing name keeps its place and takes the new value, and names stay distinct |
| SeedLoader.DictItems | Project/gol.py:175-182 | the dictionary `json.load` builds has distinct names and at most one entry per member |
| SeedLoader.DictItemsLookup | Project/gol.py:175-182 | each dictionary entry holds the value of the last member with its name, and every member's name is a key |
| SeedLoader.ReassignedNameKeepsItsPlace | Project/gol.py:179 | members a, b, a give the items a (with the last value), then b |
| SeedLoader.RepeatedNameKeepsLastValue | Project/gol.py:179 | two members with one name give one item with the later value |
| SeedLoader.AsPair | Project/gol.py:56 | a value unpacks to a pair iff it is a list of exactly two integers |
| SeedLoader.ParseWorldSizeFromFile | Project/gol.py:48-71 | success iff `world_size` is a list of two integers, both at least 1; the result is those two integers |
| SeedLoader.ParseCoordinatesFromFile | Project/gol.py:74-91 | success iff the key evaluates to a pair inside the grid (y < height, x < width); the result is that pair |
| SeedLoader.WithinBoundsAsWritten | Project/gol.py:111 | the as-written bound admits every grid position, and beyond the grid only the row `height` |
| SeedLoader.PairError | Project/gol.py:106-114 | an item has no error iff it is a pair within bounds; the malformed error iff it is not a pair |
| SeedLoader.CheckedPairs | Project/gol.py:106-114 | success iff every item is a pair within bounds, and the result is those pairs in order; otherwise the error is the first failing item's |
| SeedLoader.CheckedPairsFirstError | Project/gol.py:106-114 | the reported error is that of the first failing item |
| SeedLoader.ParsedNeighbours | Project/gol.py:94-122 | with the row bound corrected: success iff the value is a list of 8 pairs inside the grid; the result is those pairs |
| SeedLoader.ParseNeighboursAsWritten | Project/gol.py:94-122 | as written: success iff the value is a list of 8 pairs within the as-written bound, which lets row `height` through, one more than the grid has; the result is those pairs |
| SeedLoader.RowBoundAcceptsRowBelowGrid | Project/gol.py:111 | on a 3×3 world, the as-written parser accepts a neighbour list containing (3, 0), which is outside the grid |
| SeedLoader.RowBoundRefusesRowBelowGrid | Project/gol.py:111 | the corrected parser rejects that list with the out-of-bounds error |
| SeedLoader.ParseNeighboursFromFile | Project/gol.py:100-114 | the neighbour loop computes the corrected parse |
| SeedLoader.StateOfToken | Project/gol.py:141-144 | exactly `X`, `-` and `#` are accepted states, and each reads back as its character |
| SeedLoader.ParseCellObjectFromFile | Project/gol.py:125-161 | null gives None; a cell needs an object with a valid state string and neighbours that parse, and gets age 0; when all of its parts are valid the parse succeeds |
| SeedLoader.EntryOf | Project/gol.py:179-181 | a parsed entry has an in-grid key and the parsed cell object as its value |
| SeedLoader.PopulationOf | Project/gol.py:179-182 | the population, walked over the dictionary's items, parses iff every item does |
| SeedLoader.PopulationHasEveryMember | Project/gol.py:179-182 | every item's coordinate is a key of the parsed world |
| SeedLoader.PopulationLastMemberWins | Project/gol.py:181 | each world entry comes from the last item that evaluates to that coordinate |
| SeedLoader.PopulationFirstFailure | Project/gol.py:179-181 | a failure is the error of the first item that fails; every earlier item parsed |
| SeedLoader.PopulationFailureSticks | Project/gol.py:179-181 | once a prefix fails, the whole parse fails with the same error |
| SeedLoader.PopulationPrefixStep | Project/gol.py:179-181 | one more item either propagates the earlier failure, fails with its own error, or adds its coordinate and cell |
| SeedLoader.PopulationInGrid | Project/gol.py:179-181 | a parsed population has in-grid keys, and in-grid neighbours for each cell |
| SeedLoader.ParsedPopulation | Project/gol.py:164-192 | success needs a `population` object, walked over its dictionary items; every key of the result lies in the grid |
| SeedLoader.ParsePopulationFromFile | Project/gol.py:174-182 | the loop over `population.items()` computes the parsed population |
| SeedLoader.LoadedSeed | Project/gol.py:216-221 | a loaded seed is the parsed world size and the population parsed against that size |
| SeedLoader.LoadSeedFromFile | Project/gol.py:195-221 | the loader returns the loaded seed for the file's JSON value |
| SeedLoader.RepeatedKeyReadsLastValue | Project/gol.py:179 | a seed that lists `(1,1)` with a malformed cell and then with null loads, with (1,1) mapped to None |
| SeedLoader.SeedFileName | Project/gol.py:202-211 | the file name ends in `.json`: unchanged if it already does, otherwise suffixed |
| SeedLoader.SeedFileNameIdempotent | Project/gol.py:202-211 | normalising the file name twice is the same as once |
| SeedLoader.CellNeighboursInGrid | Project/gol.py:147 | every neighbour of a parsed cell lies in the grid |
| SeedLoader.LoadedWorldTickable | Project/gol.py:195-221 | a loaded world with every grid position present, and cells at every interior position, has a positive size, only in-grid keys, and can be ticked |
| Spies.RotateAscii | Laboration_2/assignment.py:74-77 | codes up to 127 are unchanged; larger ones are folded by `% 127 + 31` into 31..157 |
| Spies.ShiftedUnicode | Laboration_2/assignment.py:79-82 | even positions shift by 7 and odd ones by 9, then fold; the code lies in 7..157 and stays ASCII for ASCII input |
| Spies.Piece | Laboration_2/assignment.py:85-90 | a vowel becomes three characters `0`, shifted, `0`; any other character becomes the shifted one |
| Spies.Decrypted | Laboration_2/assignment.py:84-91 | the decryption is two characters longer per vowel |
| Spies.DecryptedCodes | Laboration_2/assignment.py:74-91 | every decrypted code lies in 7..157, and in ASCII for ASCII input |
| Spies.DecryptedOfPrefix | Laboration_2/assignment.py:84-90 | the decryption of a prefix is a prefix of the decryption |
| Spies.DecryptedLayout | Laboration_2/assignment.py:84-90 | character i's piece sits at offset i + 2·(vowels before i) |
| Spies.DecryptedStep | Laboration_2/assignment.py:84-90 | one step of the loop appends the piece of the next character |
| Spies.DecryptionChain | Laboration_2/assignment.py:84-91 | any sequence of partial results built by the loop ends in the decryption |
| Spies.DecryptPassword | Laboration_2/assignment.py:58-91 | the loop returns the decryption of the password |
| Spies.ChevyChaseCipher | Laboration_2/assignment.py:23 | `bAnanASplit` decrypts to Chevy Chase's stored password |
| Spies.DanAykroydCipher | Laboration_2/assignment.py:24 | `bEaUtY` decrypts to Dan Aykroyd's stored password |
| Spies.JohnBelushiCipher | Laboration_2/assignment.py:25 | `cAlZonE` decrypts to John Belushi's stored password |
| Spies.FormattedPart | Laboration_2/assignment.py:53-54 | a formatted name keeps its length and letters, starts without a lower-case letter and continues without upper-case |
| Spies.FormattedUsername | Laboration_2/assignment.py:55 | the user name starts with the first formatted part |
| Spies.FormattedName | Laboration_2/assignment.py:55 | names formatting to g and s give the user name g, `_`, s |
| Spies.FormattedParts | Laboration_2/assignment.py:52-54 | the loop formats every list element |
| Spies.FormatUsername | Laboration_2/assignment.py:42-55 | the list is rewritten in place with each name formatted, and the result is their `_`-join |
| Spies.FormattedPartIdempotent | Laboration_2/assignment.py:53-54 | formatting twice is the same as once |
| Spies.FormattedUsernameSplits | Laboration_2/assignment.py:55 | splitting the user name at `_` recovers the formatted parts |
| Spies.AuthenticateUser | Laboration_2/assignment.py:36-38 | there is no verdict exactly when the credentials hold fewer than three words |
| Spies.AuthenticateThreeWords | Laboration_2/assignment.py:20-39 | for three words, the verdict is whether (formatted user name, decrypted third word) is an agent entry |
| Spies.ThreeWords | Laboration_2/assignment.py:36 | three words joined by spaces split back into those three |
| Spies.FormattedPartOf | Laboration_2/assignment.py:53-54 | a string with a capitalised first letter and a lower-case rest is the formatting of its source |
| Spies.FormattedTwoParts | Laboration_2/assignment.py:55 | a two-name user name is the formatted given name, `_`, and the formatted surname |
| Spies.VowelCountAtMostLength | Laboration_2/assignment.py:86 | no more vowels than characters |
| Spies.AgentAuthenticates | Laboration_2/assignment.py:36-39 | for a known agent, the verdict is whether the decrypted cipher equals the stored password |
| Spies.CipherWords | Laboration_2/assignment.py:23-25 | the three ciphers, and `split`, are single words |
| Spies.PartChevy | Laboration_2/assignment.py:53-54 | `chevy` formats to `Chevy` |
| Spies.PartChase | Laboration_2/assignment.py:53-54 | `chase` formats to `Chase` |
| Spies.PartDan | Laboration_2/assignment.py:53-54 | `Dan` formats to `Dan` |
| Spies.PartAykroyd | Laboration_2/assignment.py:53-54 | `AYKROYD` formats to `Aykroyd` |
| Spies.PartJohn | Laboration_2/assignment.py:53-54 | `john` formats to `John` |
| Spies.PartBelushi | Laboration_2/assignment.py:53-54 | `Belushi` formats to `Belushi` |
| Spies.ChevyChaseName | Laboration_2/assignment.py:22-23 | `chevy chase` formats to the key `Chevy_Chase` |
| Spies.ChevyChaseAuthenticates | Laboration_2/assignment.py:20-39 | `chevy chase bAnanASplit` authenticates |
| Spies.DanAykroydName | Laboration_2/assignment.py:22-24 | `Dan AYKROYD` formats to the key `Dan_Aykroyd` |
| Spies.DanAykroydAuthenticates | Laboration_2/assignment.py:20-39 | `Dan AYKROYD bEaUtY` authenticates |
| Spies.JohnBelushiName | Laboration_2/assignment.py:22-25 | `john Belushi` formats to the key `John_Belushi` |
| Spies.JohnBelushiAuthenticates | Laboration_2/assignment.py:20-39 | `john Belushi cAlZonE` authenticates |
| Spies.WrongCipherRefused | Laboration_2/assignment.py:38-39 | a known agent with the wrong cipher is refused |
| Spies.TooFewWords | Laboration_2/assignment.py:36-38 | two words give no verdict, because the third word is missing |
| Fibonacci.Fib | Laboration_3/assignment.py:89-90 | fib is non-negative on non-negative input, and at least 1 from 1 on |
| Fibonacci.FibGrows | Laboration_3/assignment.py:89-90 | fib is non-decreasing from 1 on and strictly increasing from 3 on |
| Fibonacci.FibAtLeast | Laboration_3/assignment.py:89-90 | fib(n) ≥ n - 1 for n ≥ 1 |
| Fibonacci.FibonacciIterative | Laboration_3/assignment.py:72-81 | the loop runs n - 1 times for n ≥ 2 and returns fib(n); a negative n gives 1 |
| Fibonacci.Measure | Laboration_3/assignment.py:52-69 | the wrapper returns f(n), f(n-1), …, f(0), or the empty list for negative n |
| Fibonacci.MeasureIterative | Laboration_3/assignment.py:61-62 | the decorated iterative version returns fib(n), fib(n-1), …, fib(0) |
| Fibonacci.StoreNext | Laboration_3/assignment.py:105 | storing fib(top + 1) keeps the memory exact and the old entries |
| Fibonacci.Memory.constructor | Laboration_3/assignment.py:95 | the memory starts as {0: 0, 1: 1} |
| Fibonacci.Memory.FibMemory | Laboration_3/assignment.py:102-106 | returns fib(n); keeps every stored entry; afterwards holds every key 0..n, each mapped to its Fibonacci number |
| Fibonacci.Memory.MeasureMemory | Laboration_3/assignment.py:98-108 | the decorated memoised version returns fib(n), …, fib(0) with one shared memory, keeping old entries; afterwards the memory's top key is the larger of the old top and n, and every key 0..n is stored |

## Left out

- File reading, `json.load` and `pathlib` are left out. The loader works on a parsed JSON value (`SeedLoader.Json`) with objects as ordered member lists. `SeedLoader.DictItems` turns a member list into the dictionary `json.load` builds: one item per name, with the last value, at the name's first position. Floats and booleans are not modelled as JSON values.
- `literal_eval` of population keys is a parameter `literalEval: string -> Option<Coord>`, because Python expression evaluation is not part of this model.
- The random draw in `populate_world` (`random.randint(0, 20)`) is an oracle parameter `roll: Coord -> int`. It is not constrained to 0..20.
- The following are left out, because they only print, pause or handle the command line:
  - console output: `print`, `progress`, `clear_console` and `get_print_value`;
  - logging: `create_logger`;
  - the pause: `sleep`;
  - the command line: `argparse` and `main`.
- `sys.exit` on a parse error is modelled as a `Failure` with the kind of error. The printed message is not modelled.
- Timing in the measurement decorator, with `duration_format`, `print_statistics` and the result file writing, is left out: it is clock and file I/O. The decorator's `LOGGER.debug` of every fifth value is also left out. The model keeps the result list only.
- `get_state_from_cell_details` and Python's `is not` on strings are modelled as a state field and as equality, respectively. Identity of interned strings is not modelled.
- `str.split()`, `strip`, `lower` and `capitalize` are modelled on ASCII whitespace and ASCII letters only. Unicode case mapping and whitespace classes are not modelled.
- `int()` is modelled on ASCII digits with an optional sign, surrounding whitespace and single underscores between digits. Non-ASCII digits are not modelled.
- The seed-file loader accepts a population that omits interior positions. Ticking such a world fails with a key error in the source. The model does not report this: `Worlds.TickReady` requires complete worlds instead.
- The line that assigns `username` in `authenticate_user` (Laboration_2/assignment.py:37) is syntactically broken. It is modelled as its evident intent, calling `format_username` on the first two words.
- `Fibonacci.Memory.FibMemory`: requires n ≥ 0, because for negative n `fib_memory` recurses without end.
- The memo dictionary is a module-level global. It is modelled as the field of one `Memory` object that callers share.
- `Simulation.Simulate`: the decorator passes `run_simulation` in as `func`. Here the tick is `Worlds.UpdateWorld` directly, and the log is returned as a list of reports instead of being written to a log file.
- ParseCellObjectFromFile: checks neighbours with the corrected row bound of `SeedLoader.ParsedNeighbours`, not the `y > height` of Project/gol.py:111, so a cell listing a neighbour in row `height` fails here but loads in the source.
- EntryOf: inherits the corrected neighbour bound from `ParseCellObjectFromFile`.
- PopulationOf: inherits the corrected neighbour bound from `ParseCellObjectFromFile`.
- ParsedPopulation: inherits the corrected neighbour bound from `ParseCellObjectFromFile`.
- ParsePopulationFromFile: inherits the corrected neighbour bound from `ParseCellObjectFromFile`.
- LoadedSeed: inherits the corrected neighbour bound from `ParseCellObjectFromFile`.
- LoadSeedFromFile: inherits the corrected neighbour bound from `ParseCellObjectFromFile`; the as-written acceptance is shown by `SeedLoader.RowBoundAcceptsRowBelowGrid`.

## Findings

| source | as written | input that shows it | evidently intended | confidence | as-written member | corrected member |
|---|---|---|---|---|---|---|
| Project/gol.py:111 | the row bound is `y > height`, so a neighbour row equal to `height` passes | a 3×3 world whose cell lists the neighbour `[3, 0]`: row 3 does not exist, yet the parse succeeds | `y > height - 1`, as in the coordinate check at Project/gol.py:82 | not executed | SeedLoader.RowBoundAcceptsRowBelowGrid | SeedLoader.RowBoundRefusesRowBelowGrid |
