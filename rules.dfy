/**
 * Cells, worlds and the transition rule of the extended Game of Life
 * (Project/gol.py): counting live neighbours and the state machine over
 * dead, alive, elder and prime elder.
 */
module Rules {
  import opened Wrappers
  import opened CodeBase

  /** A cell object `{state: neighbours, "age": age}`; the state is a field
      here rather than the one dictionary key that is not "age". */
  datatype Cell = Cell(state: State, age: nat, neighbours: seq<Coord>)

  /** A world maps each position to its cell, or to None for a rim position. */
  type World = map<Coord, Option<Cell>>

  /** The states that count as alive: alive, elder and prime elder. */
  predicate IsLive(s: State)
  {
    s == Alive || s == Elder || s == PrimeElder
  }

  /** The entry at `c` is a cell (not None) in a live state. */
  predicate LiveAt(w: World, c: Coord)
    requires c in w
  {
    w[c].Some? && IsLive(w[c].value.state)
  }

  /** Every listed neighbour is a key of the world. */
  predicate AllKeys(ns: seq<Coord>, w: World)
  {
    forall k :: 0 <= k < |ns| ==> ns[k] in w
  }

  /** The number of neighbour entries whose cell is live (repeated entries count again). */
  function AliveCount(ns: seq<Coord>, w: World): (n: nat)
    requires AllKeys(ns, w)
    ensures n <= |ns|
    decreases |ns|
  {
    if ns == [] then 0
    else AliveCount(ns[..|ns| - 1], w) + (if LiveAt(w, ns[|ns| - 1]) then 1 else 0)
  }

  /** The live count is the number of list positions whose cell is live,
      and lies between 0 and the length of the list. */
  lemma {:induction false} AliveCountSpec(ns: seq<Coord>, w: World)
    requires AllKeys(ns, w)
    ensures AliveCount(ns, w) == |set k | 0 <= k < |ns| && LiveAt(w, ns[k])|
    ensures AliveCount(ns, w) <= |ns|
    decreases |ns|
  {
    if ns != [] {
      var init, n := ns[..|ns| - 1], |ns| - 1;
      assert AllKeys(init, w);
      AliveCountSpec(init, w);
      var before := set k | 0 <= k < |init| && LiveAt(w, init[k]);
      var after := set k | 0 <= k < |ns| && LiveAt(w, ns[k]);
      if LiveAt(w, ns[n]) {
        assert after == before + {n};
      } else {
        assert after == before;
      }
    }
  }

  /** The live count is 0 exactly when no listed cell is live, and the full
      length exactly when all are. */
  lemma {:induction false} AliveCountExtremes(ns: seq<Coord>, w: World)
    requires AllKeys(ns, w)
    ensures AliveCount(ns, w) == 0 <==> forall k :: 0 <= k < |ns| ==> !LiveAt(w, ns[k])
    ensures AliveCount(ns, w) == |ns| <==> forall k :: 0 <= k < |ns| ==> LiveAt(w, ns[k])
    decreases |ns|
  {
    if ns != [] {
      var init, n := ns[..|ns| - 1], |ns| - 1;
      assert AllKeys(init, w);
      AliveCountExtremes(init, w);
      AliveCountSpec(init, w);
      assert forall k :: 0 <= k < n ==> ns[k] == init[k];
    }
  }

  /** count_alive_neighbours: walks the neighbour list and counts the
      entries that are not None and hold a live state. */
  method CountAliveNeighbours(neighbours: seq<Coord>, cells: World) returns (liveCell: nat)
    requires AllKeys(neighbours, cells)
    ensures liveCell == AliveCount(neighbours, cells)
  {
    liveCell := 0;
    for i := 0 to |neighbours|
      invariant liveCell == AliveCount(neighbours[..i], cells)
    {
      var cellObject := cells[neighbours[i]];
      if cellObject.Some? {
        var state := cellObject.value.state;
        if state == Alive || state == Elder || state == PrimeElder {
          liveCell := liveCell + 1;
        }
      }
      assert neighbours[..i + 1][..i] == neighbours[..i];
    }
    assert neighbours[..|neighbours|] == neighbours;
  }

  /** The state a surviving live cell takes once it has reached `age`:
      alive turns elder past age 5, elder turns prime elder past age 10. */
  function Promoted(s: State, age: nat): (r: State)
    requires IsLive(s)
    ensures IsLive(r) && Rank(s) <= Rank(r) <= Rank(s) + 1
  {
    match s
    case Alive => if age > 5 then Elder else Alive
    case Elder => if age > 10 then PrimeElder else Elder
    case _ => PrimeElder
  }

  /** Position of a live state in the progression alive, elder, prime elder. */
  function Rank(s: State): nat
  {
    match s
    case Alive => 1
    case Elder => 2
    case PrimeElder => 3
    case _ => 0
  }

  /** get_cell_next_state: the successor (state, age) of a cell with `live`
      live neighbours. A live cell with two or three live neighbours
      survives one generation older, promoted by its new age; a dead cell
      with exactly three is born one generation older; every other cell,
      including a '#' cell read from a seed file, is dead with age 0. */
  function NextState(s: State, age: nat, live: nat): (r: (State, nat))
    ensures IsLive(r.0) <==> (IsLive(s) && (live == 2 || live == 3)) || (s == Dead && live == 3)
    ensures !IsLive(r.0) ==> r == (Dead, 0)
    ensures IsLive(r.0) ==> r.1 == age + 1
    ensures IsLive(s) && IsLive(r.0) ==> r.0 == Promoted(s, r.1)
    ensures s == Dead && IsLive(r.0) ==> r.0 == Alive
  {
    if s == Alive && live == 2 then
      var age' := age + 1;
      if age' > 5 then (Elder, age') else (Alive, age')
    else if s == Alive && live == 3 then
      var age' := age + 1;
      if age' > 5 then (Elder, age') else (Alive, age')
    else if s == Elder && live == 2 then
      var age' := age + 1;
      if age' > 10 then (PrimeElder, age') else (Elder, age')
    else if s == Elder && live == 3 then
      var age' := age + 1;
      if age' > 10 then (PrimeElder, age') else (Elder, age')
    else if s == PrimeElder && live == 2 then
      (PrimeElder, age + 1)
    else if s == PrimeElder && live == 3 then
      (PrimeElder, age + 1)
    else if s == Dead && live == 3 then
      (Alive, age + 1)
    else
      (Dead, 0)
  }

  /** A surviving cell is never demoted and climbs at most one step. */
  lemma NeverDemoted(s: State, age: nat, live: nat)
    requires IsLive(s) && IsLive(NextState(s, age, live).0)
    ensures Rank(s) <= Rank(NextState(s, age, live).0) <= Rank(s) + 1
  {
  }

  /** The live state a cell has after surviving `age` generations in a row. */
  function Stage(age: nat): State
  {
    if age <= 5 then Alive else if age <= 10 then Elder else PrimeElder
  }

  /** `k` generations of the rule with a constant number of live neighbours. */
  function Sustain(s: State, age: nat, live: nat, k: nat): (State, nat)
    decreases k
  {
    if k == 0 then (s, age)
    else
      var next := NextState(s, age, live);
      Sustain(next.0, next.1, live, k - 1)
  }

  /** A cell born alive at age 0 and kept at two or three live neighbours is,
      after `k` generations, `k` old; it is alive up to age 5, elder from age
      6 to 10 and prime elder from age 11 on. */
  lemma {:induction false} SustainedCellAges(age: nat, live: nat, k: nat)
    requires live == 2 || live == 3
    ensures Sustain(Stage(age), age, live, k) == (Stage(age + k), age + k)
    decreases k
  {
    if k > 0 {
      assert NextState(Stage(age), age, live) == (Stage(age + 1), age + 1);
      SustainedCellAges(age + 1, live, k - 1);
    }
  }
}
