/**
 * The grid topology of the game (Project/gol.py): which positions form the
 * rim, and the eight neighbours of a position.
 */
module Topology {
  import opened CodeBase

  /** The world is `size.0` columns wide and `size.1` rows high. */
  predicate InGrid(c: Coord, size: (int, int))
  {
    0 <= c.0 < size.1 && 0 <= c.1 < size.0
  }

  /** is_rim_cell: the position is in the first or last row or column.
      Inside the grid, the positions that are not rim are exactly those in
      rows 1 .. height-2 and columns 1 .. width-2. */
  predicate IsRimCell(c: Coord, size: (int, int))
    ensures InGrid(c, size) ==> (!IsRimCell(c, size) <==> 1 <= c.0 <= size.1 - 2 && 1 <= c.1 <= size.0 - 2)
  {
    c.1 == 0 || c.0 == 0 || c.1 == size.0 - 1 || c.0 == size.1 - 1
  }

  /** Chebyshev distance between two positions. */
  function Distance(a: Coord, b: Coord): nat
  {
    var dy := if a.0 < b.0 then b.0 - a.0 else a.0 - b.0;
    var dx := if a.1 < b.1 then b.1 - a.1 else a.1 - b.1;
    if dy < dx then dx else dy
  }

  /** calc_neighbour_positions: NW, N, NE, W, E, SW, S, SE. The list holds
      exactly the eight positions at distance 1, each once, and listing them
      in increasing (row, column) order gives exactly that direction order;
      nothing is clipped at the border. */
  function CalcNeighbourPositions(c: Coord): (r: seq<Coord>)
    ensures |r| == 8
    ensures Increasing(r) && Distinct(r)
    ensures forall k :: 0 <= k < |r| ==> Distance(c, r[k]) == 1
    ensures forall q :: Distance(c, q) == 1 ==> q in r
  {
    var (row, column) := c;
    var r := [ (row - 1, column - 1), (row - 1, column), (row - 1, column + 1),
               (row, column - 1), (row, column + 1),
               (row + 1, column - 1), (row + 1, column), (row + 1, column + 1) ];
    IncreasingIsDistinct(r);
    forall q | Distance(c, q) == 1
      ensures q in r
    {
      var dy, dx := q.0 - row, q.1 - column;
      assert -1 <= dy <= 1 && -1 <= dx <= 1 && (dy, dx) != (0, 0);
      var k := (dy + 1) * 3 + (dx + 1);
      var k' := if k < 4 then k else k - 1;
      assert r[k'] == q;
    }
    r
  }

  /** Neighbourhood is symmetric. */
  lemma NeighbourSymmetric(a: Coord, b: Coord)
    ensures b in CalcNeighbourPositions(a) <==> a in CalcNeighbourPositions(b)
  {
    var ra, rb := CalcNeighbourPositions(a), CalcNeighbourPositions(b);
    if b in ra {
      var k :| 0 <= k < |ra| && ra[k] == b;
      assert Distance(b, a) == 1;
    }
    if a in rb {
      var k :| 0 <= k < |rb| && rb[k] == a;
      assert Distance(a, b) == 1;
    }
  }

  /** The neighbours of a position that is inside the grid and not rim are
      all inside the grid, so they are keys of a fully populated world. */
  lemma InteriorNeighboursInGrid(c: Coord, size: (int, int))
    requires InGrid(c, size) && !IsRimCell(c, size)
    ensures forall q :: q in CalcNeighbourPositions(c) ==> InGrid(q, size)
  {
    var r := CalcNeighbourPositions(c);
    forall q | q in r
      ensures InGrid(q, size)
    {
      var k :| 0 <= k < |r| && r[k] == q;
      assert Distance(c, q) == 1;
    }
  }
}
