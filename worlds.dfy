/**
 * Building the first generation and computing the next one
 * (Project/gol.py: populate_world and update_world).
 */
module Worlds {
  import opened Wrappers
  import opened CodeBase
  import opened Topology
  import opened Rules

  /** All positions of a `size.0` x `size.1` world. */
  function GridPositions(size: (int, int)): (g: set<Coord>)
    ensures forall c :: c in g <==> InGrid(c, size)
  {
    set y, x | 0 <= y < size.1 && 0 <= x < size.0 :: (y, x)
  }

  /** get_cell_state, given what get_pattern returned: rim positions are
      '#'; otherwise a known pattern makes exactly its own positions alive,
      and without one the random draw `roll(position)`, an integer from 0 to
      20, makes the cell alive when it exceeds 16. */
  function CellState(pos: Coord, size: (int, int), pattern: Option<seq<Coord>>, roll: Coord -> int): (s: State)
    ensures s == Rim <==> IsRimCell(pos, size)
    ensures s != Rim ==> (s == Alive <==> match pattern
                                        case Some(cells) => pos in cells
                                        case None => roll(pos) > 16)
    ensures s in {Rim, Dead, Alive}
  {
    if IsRimCell(pos, size) then Rim
    else
      match pattern
      case None => if roll(pos) > 16 then Alive else Dead
      case Some(cells) => if pos in cells then Alive else Dead
  }

  /** get_cell_object: None on the rim, otherwise a fresh cell of age 0 with
      its eight computed neighbours, alive or dead as the pattern or the
      draw decides. */
  function CellObject(pos: Coord, size: (int, int), pattern: Option<seq<Coord>>, roll: Coord -> int): (r: Option<Cell>)
    ensures r.None? <==> IsRimCell(pos, size)
    ensures r.Some? ==>
      && r.value.age == 0
      && r.value.neighbours == CalcNeighbourPositions(pos)
      && r.value.state ==
           match pattern
           case Some(cells) => if pos in cells then Alive else Dead
           case None => if roll(pos) > 16 then Alive else Dead
  {
    if IsRimCell(pos, size) then None
    else Some(Cell(CellState(pos, size, pattern, roll), 0, CalcNeighbourPositions(pos)))
  }

  /** What a tick reads: every position inside the grid and off the rim has
      a cell (not None), and all its neighbours are keys of the world. */
  ghost predicate TickReady(cur: World, size: (int, int))
  {
    forall c :: InGrid(c, size) && !IsRimCell(c, size) ==>
      c in cur && cur[c].Some? && AllKeys(cur[c].value.neighbours, cur)
  }

  /** Tick-ready, and every neighbour of such a cell is inside the grid, so
      the next generation, whose keys are the grid, is tick-ready again. */
  ghost predicate Tickable(cur: World, size: (int, int))
  {
    && TickReady(cur, size)
    && forall c :: InGrid(c, size) && !IsRimCell(c, size) ==>
         forall k :: 0 <= k < |cur[c].value.neighbours| ==> InGrid(cur[c].value.neighbours[k], size)
  }

  /** A world over the grid whose cells off the rim list the eight computed
      neighbours is tickable. */
  lemma StandardWorldTickable(world: World, size: (int, int))
    requires forall c :: c in world <==> InGrid(c, size)
    requires forall c :: c in world ==> (world[c].None? <==> IsRimCell(c, size))
    requires forall c :: c in world && world[c].Some? ==> world[c].value.neighbours == CalcNeighbourPositions(c)
    ensures Tickable(world, size)
  {
    forall c | InGrid(c, size) && !IsRimCell(c, size)
      ensures c in world && world[c].Some? && AllKeys(world[c].value.neighbours, world)
      ensures forall k :: 0 <= k < |world[c].value.neighbours| ==> InGrid(world[c].value.neighbours[k], size)
    {
      InteriorNeighboursInGrid(c, size);
    }
  }

  /** populate_world: the world of a `size` grid, column by column. It has a
      key for every grid position and no other; None exactly on the rim;
      everywhere else a cell of age 0 whose neighbours are the eight computed
      ones and whose state is alive exactly at the positions of the named
      pattern (dead elsewhere), or decided by the random draw when the name is
      not a known pattern. The result is tickable. */
  method PopulateWorld(size: (int, int), seedPattern: Option<string>, roll: Coord -> int) returns (world: World)
    ensures forall c :: c in world <==> InGrid(c, size)
    ensures forall c :: c in world ==> (world[c].None? <==> IsRimCell(c, size))
    ensures forall c :: c in world && world[c].Some? ==>
      world[c].value.age == 0 && world[c].value.neighbours == CalcNeighbourPositions(c)
    ensures GetPattern(seedPattern, size).Some? ==>
      forall c :: c in world && world[c].Some? ==>
        world[c].value.state == (if c in GetPattern(seedPattern, size).value then Alive else Dead)
    ensures GetPattern(seedPattern, size).None? ==>
      forall c :: c in world && world[c].Some? ==>
        world[c].value.state == (if roll(c) > 16 then Alive else Dead)
    ensures Tickable(world, size)
  {
    var width, height := size.0, size.1;
    ghost var pattern := GetPattern(seedPattern, size);
    world := map[];
    var x := 0;
    while x < width
      invariant 0 <= x <= if width < 0 then 0 else width
      invariant forall c :: c in world <==> 0 <= c.0 < height && 0 <= c.1 < x
      invariant forall c :: c in world ==> world[c] == CellObject(c, size, pattern, roll)
    {
      var y := 0;
      while y < height
        invariant 0 <= y <= if height < 0 then 0 else height
        invariant forall c :: c in world <==> 0 <= c.0 < height && (0 <= c.1 < x || (c.1 == x && c.0 < y))
        invariant forall c :: c in world ==> world[c] == CellObject(c, size, pattern, roll)
      {
        var cellPattern := GetPattern(seedPattern, size);
        world := world[(y, x) := CellObject((y, x), size, cellPattern, roll)];
        y := y + 1;
      }
      x := x + 1;
    }
    forall c | c in world
      ensures world[c].None? <==> IsRimCell(c, size)
      ensures world[c].Some? ==> world[c].value.age == 0 && world[c].value.neighbours == CalcNeighbourPositions(c)
      ensures world[c].Some? && pattern.Some? ==> world[c].value.state == (if c in pattern.value then Alive else Dead)
      ensures world[c].Some? && pattern.None? ==> world[c].value.state == (if roll(c) > 16 then Alive else Dead)
    {
      assert world[c] == CellObject(c, size, pattern, roll);
    }
    StandardWorldTickable(world, size);
  }

  /** The entry of the next generation at a grid position. It is computed
      from the current generation `cur` only. */
  function NextCell(cur: World, size: (int, int), c: Coord): (r: Option<Cell>)
    requires TickReady(cur, size) && InGrid(c, size)
    ensures r.None? <==> IsRimCell(c, size)
    ensures r.Some? ==> r.value.neighbours == cur[c].value.neighbours && r.value.state != Rim
  {
    if IsRimCell(c, size) then None
    else
      var cell := cur[c].value;
      var next := NextState(cell.state, cell.age, AliveCount(cell.neighbours, cur));
      Some(Cell(next.0, next.1, cell.neighbours))
  }

  /** The next generation as a whole: every grid position at once, from the
      unchanged current generation. */
  function NextGeneration(cur: World, size: (int, int)): (next: World)
    requires TickReady(cur, size)
    ensures forall c :: c in next <==> InGrid(c, size)
  {
    map c | c in GridPositions(size) :: NextCell(cur, size, c)
  }

  /** update_world: row by row, writes into a separate next-generation
      dictionary, reading only the current one. */
  method UpdateWorld(cur: World, size: (int, int)) returns (nextGeneration: World)
    requires TickReady(cur, size)
    ensures nextGeneration == NextGeneration(cur, size)
  {
    var width, height := size.0, size.1;
    nextGeneration := map[];
    var y := 0;
    while y < height
      invariant 0 <= y <= if height < 0 then 0 else height
      invariant forall c :: c in nextGeneration <==> 0 <= c.0 < y && 0 <= c.1 < width
      invariant forall c :: c in nextGeneration ==> InGrid(c, size) && nextGeneration[c] == NextCell(cur, size, c)
    {
      var x := 0;
      while x < width
        invariant 0 <= x <= if width < 0 then 0 else width
        invariant forall c :: c in nextGeneration <==> 0 <= c.1 < width && (0 <= c.0 < y || (c.0 == y && c.1 < x))
        invariant forall c :: c in nextGeneration ==> InGrid(c, size) && nextGeneration[c] == NextCell(cur, size, c)
      {
        var coordinate := (y, x);
        if IsRimCell(coordinate, size) {
          nextGeneration := nextGeneration[coordinate := None];
        } else {
          var cellObject := cur[coordinate].value;
          var neighbours := cellObject.neighbours;
          var liveNeighbour := CountAliveNeighbours(neighbours, cur);
          var next := NextState(cellObject.state, cellObject.age, liveNeighbour);
          nextGeneration := nextGeneration[coordinate := Some(Cell(next.0, next.1, neighbours))];
        }
        x := x + 1;
      }
      y := y + 1;
    }
    assert nextGeneration.Keys == GridPositions(size);
  }

  /** The next generation has exactly the grid as keys and None on the rim;
      off the rim it keeps each cell's neighbour list and takes the state and
      age the rule gives from the current generation alone. */
  lemma NextGenerationShape(cur: World, size: (int, int), c: Coord)
    requires TickReady(cur, size)
    ensures c in NextGeneration(cur, size) <==> InGrid(c, size)
    ensures InGrid(c, size) && IsRimCell(c, size) ==> NextGeneration(cur, size)[c] == None
    ensures InGrid(c, size) && !IsRimCell(c, size) ==>
      && NextGeneration(cur, size)[c].Some?
      && NextGeneration(cur, size)[c].value.neighbours == cur[c].value.neighbours
      && (NextGeneration(cur, size)[c].value.state, NextGeneration(cur, size)[c].value.age)
         == NextState(cur[c].value.state, cur[c].value.age, AliveCount(cur[c].value.neighbours, cur))
  {
  }

  /** A tickable world stays tickable, so the simulation can go on forever. */
  lemma TickPreservesTickable(cur: World, size: (int, int))
    requires Tickable(cur, size)
    ensures Tickable(NextGeneration(cur, size), size)
  {
    var next := NextGeneration(cur, size);
    forall c | InGrid(c, size) && !IsRimCell(c, size)
      ensures c in next && next[c].Some? && AllKeys(next[c].value.neighbours, next)
      ensures forall k :: 0 <= k < |next[c].value.neighbours| ==> InGrid(next[c].value.neighbours[k], size)
    {
      assert next[c].value.neighbours == cur[c].value.neighbours;
    }
  }

  /** After a tick no cell is rim, a dead cell has age 0 and a live one is at
      least one generation old. */
  lemma TickAges(cur: World, size: (int, int), c: Coord)
    requires TickReady(cur, size)
    requires c in NextGeneration(cur, size) && NextGeneration(cur, size)[c].Some?
    ensures NextGeneration(cur, size)[c].value.state != Rim
    ensures NextGeneration(cur, size)[c].value.state == Dead ==> NextGeneration(cur, size)[c].value.age == 0
    ensures IsLive(NextGeneration(cur, size)[c].value.state) ==> NextGeneration(cur, size)[c].value.age >= 1
  {
  }

  /** Dead cells of the world, off the rim, carry age 0. */
  predicate DeadAgeZero(w: World, size: (int, int))
  {
    forall c :: c in w && InGrid(c, size) && !IsRimCell(c, size) && w[c].Some? && w[c].value.state == Dead ==>
      w[c].value.age == 0
  }

  /** When dead cells carry age 0, as in every generated, loaded or computed
      world, a cell that is born has age exactly 1. */
  lemma BirthIsAgeOne(cur: World, size: (int, int), c: Coord)
    requires TickReady(cur, size) && DeadAgeZero(cur, size)
    requires InGrid(c, size) && !IsRimCell(c, size) && cur[c].value.state == Dead
    requires IsLive(NextGeneration(cur, size)[c].value.state)
    ensures NextGeneration(cur, size)[c].value == Cell(Alive, 1, cur[c].value.neighbours)
  {
  }

  /** A world in which no cell is live stays without live cells: there is no
      spontaneous birth. */
  lemma NoSpontaneousBirth(cur: World, size: (int, int))
    requires TickReady(cur, size)
    requires forall c :: c in cur ==> !LiveAt(cur, c)
    ensures forall c :: c in NextGeneration(cur, size) ==> !LiveAt(NextGeneration(cur, size), c)
  {
    forall c | c in NextGeneration(cur, size) && !IsRimCell(c, size)
      ensures !LiveAt(NextGeneration(cur, size), c)
    {
      var ns := cur[c].value.neighbours;
      AliveCountSpec(ns, cur);
    }
  }

  lemma {:induction false} AliveCountLocal(ns: seq<Coord>, w1: World, w2: World)
    requires AllKeys(ns, w1) && AllKeys(ns, w2)
    requires forall k :: 0 <= k < |ns| ==> w1[ns[k]] == w2[ns[k]]
    ensures AliveCount(ns, w1) == AliveCount(ns, w2)
    decreases |ns|
  {
    if ns != [] {
      AliveCountLocal(ns[..|ns| - 1], w1, w2);
    }
  }

  /** Simultaneous update: the next entry at a position depends only on the
      current entries at that position and at its listed neighbours, so no
      cell already computed in the same tick can influence it. */
  lemma NextCellIsLocal(cur1: World, cur2: World, size: (int, int), c: Coord)
    requires TickReady(cur1, size) && TickReady(cur2, size) && InGrid(c, size)
    requires !IsRimCell(c, size) ==> cur1[c] == cur2[c]
    requires !IsRimCell(c, size) ==>
      forall k :: 0 <= k < |cur1[c].value.neighbours| ==>
        cur1[cur1[c].value.neighbours[k]] == cur2[cur1[c].value.neighbours[k]]
    ensures NextGeneration(cur1, size)[c] == NextGeneration(cur2, size)[c]
  {
    if !IsRimCell(c, size) {
      AliveCountLocal(cur1[c].value.neighbours, cur1, cur2);
    }
  }
}
