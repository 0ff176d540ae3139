/**
 * The simulation driver (Project/gol.py: the wrapper of simulation_decorator
 * around run_simulation): repeated ticks, and the per-generation counts it
 * sends to the log.
 */
module Simulation {
  import opened Wrappers
  import opened CodeBase
  import opened Topology
  import opened Rules
  import opened Worlds

  /** One log entry: the generation index, the number of ordinary (non-rim)
      cells, the live cells (alive, elder and prime elder together), the
      elders, the prime elders and the dead cells. */
  datatype Report = Report(generation: nat, population: nat, alive: nat, elders: nat, primeElders: nat, dead: nat)

  /** Keys of the world that are not rim positions. */
  function OrdinaryPositions(w: World, size: (int, int)): set<Coord>
  {
    set c | c in w && !IsRimCell(c, size)
  }

  /** Keys of the world whose entry is a cell in state `s`. */
  function StatePositions(w: World, s: State): set<Coord>
  {
    set c | c in w && w[c].Some? && w[c].value.state == s
  }

  /** The entry the log gets for generation `i`, whose world is `g`. */
  function ReportOf(i: nat, ordinary: nat, g: World): (r: Report)
    ensures r.generation == i && r.population == ordinary
    ensures r.elders + r.primeElders <= r.alive
  {
    var alive, elders, primes := |StatePositions(g, Alive)|, |StatePositions(g, Elder)|, |StatePositions(g, PrimeElder)|;
    Report(i, ordinary, alive + elders + primes, elders, primes, |StatePositions(g, Dead)|)
  }

  /** The generation reached after `i` ticks from `p`; after the first tick
      its keys are exactly the grid positions. */
  function Generation(p: World, size: (int, int), i: nat): (g: World)
    requires Tickable(p, size)
    ensures i > 0 ==> g.Keys == GridPositions(size)
    decreases i, 1
  {
    if i == 0 then p
    else
      var prev := Generation(p, size, i - 1);
      GenerationTickable(p, size, i - 1);
      NextGeneration(prev, size)
  }

  /** Every generation is tickable again. */
  lemma GenerationTickable(p: World, size: (int, int), i: nat)
    requires Tickable(p, size)
    ensures Tickable(Generation(p, size, i), size)
    decreases i, 2
  {
    if i > 0 {
      GenerationTickable(p, size, i - 1);
      TickPreservesTickable(Generation(p, size, i - 1), size);
    }
  }

  /** The first loop of the wrapper: counts the keys that are not rim positions. */
  method CountOrdinaryCells(population: World, size: (int, int)) returns (ordinaryCells: nat)
    ensures ordinaryCells == |OrdinaryPositions(population, size)|
  {
    ordinaryCells := 0;
    var todo := population.Keys;
    while todo != {}
      invariant todo <= population.Keys
      invariant ordinaryCells == |OrdinaryPositions(population, size) - todo|
      decreases todo
    {
      var c :| c in todo;
      if !IsRimCell(c, size) {
        assert OrdinaryPositions(population, size) - (todo - {c})
            == (OrdinaryPositions(population, size) - todo) + {c};
        ordinaryCells := ordinaryCells + 1;
      } else {
        assert OrdinaryPositions(population, size) - (todo - {c})
            == OrdinaryPositions(population, size) - todo;
      }
      todo := todo - {c};
    }
  }

  /** Removing `c` from the positions still to visit adds it to the counted
      positions of state `s` exactly when it holds a cell in that state. */
  lemma StateStep(w: World, s: State, todo: set<Coord>, c: Coord)
    requires c in todo
    ensures |StatePositions(w, s) - (todo - {c})|
      == |StatePositions(w, s) - todo| + if c in w && w[c].Some? && w[c].value.state == s then 1 else 0
  {
    if c in w && w[c].Some? && w[c].value.state == s {
      assert StatePositions(w, s) - (todo - {c}) == (StatePositions(w, s) - todo) + {c};
    } else {
      assert StatePositions(w, s) - (todo - {c}) == StatePositions(w, s) - todo;
    }
  }

  /** The counting loop of one generation: alive, dead, elder and prime
      elder cells among the entries that are not None. */
  method CountStates(population: World) returns (liveCount: nat, deadCount: nat, elderCount: nat, primeElderCount: nat)
    ensures liveCount == |StatePositions(population, Alive)|
    ensures deadCount == |StatePositions(population, Dead)|
    ensures elderCount == |StatePositions(population, Elder)|
    ensures primeElderCount == |StatePositions(population, PrimeElder)|
  {
    liveCount, deadCount, elderCount, primeElderCount := 0, 0, 0, 0;
    var todo := population.Keys;
    while todo != {}
      invariant todo <= population.Keys
      invariant liveCount == |StatePositions(population, Alive) - todo|
      invariant deadCount == |StatePositions(population, Dead) - todo|
      invariant elderCount == |StatePositions(population, Elder) - todo|
      invariant primeElderCount == |StatePositions(population, PrimeElder) - todo|
      decreases todo
    {
      var c :| c in todo;
      StateStep(population, Alive, todo, c);
      StateStep(population, Dead, todo, c);
      StateStep(population, Elder, todo, c);
      StateStep(population, PrimeElder, todo, c);
      var value := population[c];
      if value.Some? {
        var state := value.value.state;
        if state == Alive {
          liveCount := liveCount + 1;
        }
        if state == Dead {
          deadCount := deadCount + 1;
        }
        if state == Elder {
          elderCount := elderCount + 1;
        }
        if state == PrimeElder {
          primeElderCount := primeElderCount + 1;
        }
      }
      todo := todo - {c};
    }
  }

  lemma GenerationStep(p: World, size: (int, int), i: nat)
    requires Tickable(p, size)
    ensures TickReady(Generation(p, size, i), size)
    ensures Generation(p, size, i + 1) == NextGeneration(Generation(p, size, i), size)
  {
    GenerationTickable(p, size, i);
  }

  /** The log entry of one generation, from the counts of its states. */
  method ReportGeneration(val: nat, ordinaryCells: nat, currentPopulation: World) returns (entry: Report)
    ensures entry == ReportOf(val, ordinaryCells, currentPopulation)
  {
    var liveCount, deadCount, elderCount, primeElderCount := CountStates(currentPopulation);
    entry := Report(val, ordinaryCells, liveCount + elderCount + primeElderCount,
                    elderCount, primeElderCount, deadCount);
  }

  /** Every entry of the log is the report of its generation. */
  ghost predicate Logged(log: seq<Report>, ordinary: nat, p: World, size: (int, int))
  {
    Tickable(p, size) && forall i :: 0 <= i < |log| ==> log[i] == ReportOf(i, ordinary, Generation(p, size, i))
  }

  lemma LoggedReports(log: seq<Report>, ordinary: nat, p: World, size: (int, int))
    requires Logged(log, ordinary, p, size)
    ensures forall i :: 0 <= i < |log| ==> log[i] == ReportOf(i, ordinary, Generation(p, size, i))
  {
  }

  lemma LoggedAppend(log: seq<Report>, entry: Report, ordinary: nat, p: World, size: (int, int))
    requires Logged(log, ordinary, p, size)
    requires entry == ReportOf(|log|, ordinary, Generation(p, size, |log|))
    ensures Logged(log + [entry], ordinary, p, size)
  {
    var log' := log + [entry];
    forall i | 0 <= i < |log'|
      ensures log'[i] == ReportOf(i, ordinary, Generation(p, size, i))
    {
      if i < |log| {
        assert log'[i] == log[i];
      }
    }
  }

  /** The wrapper: counts the ordinary cells once, then for every generation
      computes the next world, logs the counts of the current one and moves
      on. The log has one entry per generation, entry `i` describing the
      world after `i` ticks. */
  method Simulate(generations: int, population: World, size: (int, int)) returns (log: seq<Report>)
    requires Tickable(population, size)
    ensures |log| == if generations < 0 then 0 else generations
    ensures forall i :: 0 <= i < |log| ==>
      log[i] == ReportOf(i, |OrdinaryPositions(population, size)|, Generation(population, size, i))
  {
    var currentPopulation := population;
    var ordinaryCells := CountOrdinaryCells(population, size);
    log := [];
    var val := 0;
    while val < generations
      invariant 0 <= val <= if generations < 0 then 0 else generations
      invariant currentPopulation == Generation(population, size, val)
      invariant |log| == val
      invariant Logged(log, ordinaryCells, population, size)
    {
      GenerationStep(population, size, val);
      var newPopulation := UpdateWorld(currentPopulation, size);
      var entry := ReportGeneration(val, ordinaryCells, currentPopulation);
      LoggedAppend(log, entry, ordinaryCells, population, size);
      log := log + [entry];
      currentPopulation := newPopulation;
      val := val + 1;
    }
    LoggedReports(log, ordinaryCells, population, size);
  }

  /** After a tick the ordinary cells split exactly into alive, elder, prime
      elder and dead ones. */
  lemma TickPartition(cur: World, size: (int, int))
    requires TickReady(cur, size)
    ensures var next := NextGeneration(cur, size);
      |StatePositions(next, Alive)| + |StatePositions(next, Elder)| + |StatePositions(next, PrimeElder)|
        + |StatePositions(next, Dead)| == |OrdinaryPositions(next, size)|
  {
    var next := NextGeneration(cur, size);
    var a, e, p, d := StatePositions(next, Alive), StatePositions(next, Elder),
                      StatePositions(next, PrimeElder), StatePositions(next, Dead);
    forall c | c in OrdinaryPositions(next, size)
      ensures c in a + e + p + d
    {
      NextGenerationShape(cur, size, c);
      TickAges(cur, size, c);
    }
    forall c | c in a + e + p + d
      ensures c in OrdinaryPositions(next, size)
    {
      NextGenerationShape(cur, size, c);
    }
    assert OrdinaryPositions(next, size) == a + e + p + d;
    assert a * e == {};
    assert (a + e) * p == {};
    assert (a + e + p) * d == {};
  }

  /** A tick over a world whose keys lie in the grid keeps the number of
      ordinary cells. */
  lemma TickKeepsOrdinary(cur: World, size: (int, int))
    requires TickReady(cur, size)
    requires forall c :: c in cur ==> InGrid(c, size)
    ensures OrdinaryPositions(NextGeneration(cur, size), size) == OrdinaryPositions(cur, size)
  {
  }

  /** In every logged generation after the first, the live count plus the
      dead count is the number of ordinary cells, provided the initial
      world's keys lie in the grid (as they do for generated and loaded
      worlds). */
  lemma {:induction false} LoggedCountsAddUp(population: World, size: (int, int), i: nat)
    requires Tickable(population, size)
    requires forall c :: c in population ==> InGrid(c, size)
    requires i >= 1
    ensures var r := ReportOf(i, |OrdinaryPositions(population, size)|, Generation(population, size, i));
      r.alive + r.dead == r.population
  {
    var prev := Generation(population, size, i - 1);
    GenerationTickable(population, size, i - 1);
    TickPartition(prev, size);
    OrdinaryAcrossGenerations(population, size, i - 1);
    TickKeepsOrdinary(prev, size);
  }

  lemma {:induction false} OrdinaryAcrossGenerations(population: World, size: (int, int), i: nat)
    requires Tickable(population, size)
    requires forall c :: c in population ==> InGrid(c, size)
    ensures forall c :: c in Generation(population, size, i) ==> InGrid(c, size)
    ensures OrdinaryPositions(Generation(population, size, i), size) == OrdinaryPositions(population, size)
    decreases i
  {
    if i > 0 {
      var prev := Generation(population, size, i - 1);
      OrdinaryAcrossGenerations(population, size, i - 1);
      GenerationStep(population, size, i - 1);
      TickKeepsOrdinaryInGrid(prev, Generation(population, size, i), size);
    }
  }

  /** A tick from a world whose keys lie in the grid keeps them there and
      keeps its ordinary cells. */
  lemma TickKeepsOrdinaryInGrid(prev: World, next: World, size: (int, int))
    requires TickReady(prev, size) && next == NextGeneration(prev, size)
    requires forall c :: c in prev ==> InGrid(c, size)
    ensures forall c :: c in next ==> InGrid(c, size)
    ensures OrdinaryPositions(next, size) == OrdinaryPositions(prev, size)
  {
    TickKeepsOrdinary(prev, size);
  }
}
