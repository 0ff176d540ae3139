/**
 * Cell states and the seed-pattern catalogue of the Game of Life project
 * (Project/code_base.py): gliders in the four corners, a pulsar and a
 * penta-decathlon, each placed relative to the world size.
 */
module CodeBase {
  import opened Wrappers

  /** The five cell states; `Token` gives the character the game uses for each. */
  datatype State = Rim | Dead | Alive | Elder | PrimeElder

  /** A grid position, written (row, column), that is (y, x), as in the whole game. */
  type Coord = (int, int)

  /** The state constants: rim '#', dead '-', alive 'X', elder 'E', prime elder 'P'. */
  function Token(s: State): (c: char)
    ensures c in "#-XEP"
  {
    match s
    case Rim => '#'
    case Dead => '-'
    case Alive => 'X'
    case Elder => 'E'
    case PrimeElder => 'P'
  }

  /** Different states are written with different characters. */
  lemma TokenInjective(s: State, t: State)
    ensures Token(s) == Token(t) ==> s == t
  {
  }

  /** `int(n * .5)`: half of `n`, truncated toward zero. */
  function Half(n: int): (r: int)
    ensures 0 <= n ==> 0 <= 2 * r <= n <= 2 * r + 1
    ensures n < 0 ==> 2 * r - 1 <= n <= 2 * r <= 0
  {
    if n >= 0 then n / 2 else -((-n) / 2)
  }

  function Abs(n: int): nat
  {
    if n < 0 then -n else n
  }

  predicate Distinct<T(==)>(s: seq<T>)
  {
    forall i, j :: 0 <= i < j < |s| ==> s[i] != s[j]
  }

  lemma DistinctConcat<T>(a: seq<T>, b: seq<T>)
    requires Distinct(a) && Distinct(b)
    requires forall x :: x in a ==> x !in b
    ensures Distinct(a + b)
  {
    forall i, j | 0 <= i < j < |a + b|
      ensures (a + b)[i] != (a + b)[j]
    {
      if j >= |a| && i < |a| {
        assert (a + b)[i] in a;
        assert (a + b)[j] == b[j - |a|];
      }
    }
  }

  // ---------------------------------------------------------------------
  // Gliders
  // ---------------------------------------------------------------------

  /** The glider placed in the north-west corner. */
  const NorthWestGlider: seq<Coord> := [(1, 3), (2, 3), (3, 3), (2, 1), (3, 2)]

  /** create_gliders: one glider in each corner, NW, NE, SW, SE, offset from
      the last row and column `_h = height - 1`, `_w = width - 1`. */
  function Gliders(size: (int, int)): (r: seq<Coord>)
    ensures |r| == 20
  {
    var w, h := size.0 - 1, size.1 - 1;
    [ (1, 3), (2, 3), (3, 3), (2, 1), (3, 2),
      (1, w - 3), (2, w - 3), (3, w - 3), (2, w - 1), (3, w - 2),
      (h - 1, 3), (h - 2, 3), (h - 3, 3), (h - 3, 2), (h - 2, 1),
      (h - 1, w - 3), (h - 2, w - 3), (h - 3, w - 3), (h - 3, w - 2), (h - 2, w - 1) ]
  }

  /** Reflection of a position across the horizontal middle of the world. */
  function MirrorRow(c: Coord, size: (int, int)): Coord
  {
    (size.1 - 1 - c.0, c.1)
  }

  /** Reflection of a position across the vertical middle of the world. */
  function MirrorColumn(c: Coord, size: (int, int)): Coord
  {
    (c.0, size.0 - 1 - c.1)
  }

  /** The glider list starts with the north-west glider. */
  lemma GlidersStartNorthWest(size: (int, int))
    ensures Gliders(size)[..5] == NorthWestGlider
  {
  }

  /** Every mirror image of the north-west glider is among the gliders. */
  lemma GlidersHoldMirrorImages(size: (int, int))
    ensures forall g :: g in NorthWestGlider ==>
      && MirrorColumn(g, size) in Gliders(size)
      && MirrorRow(g, size) in Gliders(size)
      && MirrorRow(MirrorColumn(g, size), size) in Gliders(size)
  {
  }

  /** Every glider cell is a cell of the north-west glider or a mirror image of one. */
  lemma GlidersAreMirrorImages(size: (int, int))
    ensures forall c :: c in Gliders(size) ==>
      || c in NorthWestGlider
      || MirrorColumn(c, size) in NorthWestGlider
      || MirrorRow(c, size) in NorthWestGlider
      || MirrorRow(MirrorColumn(c, size), size) in NorthWestGlider
  {
  }

  /** The gliders are closed under the reflection across the vertical middle
      of the world: the west gliders mirror the east ones. */
  lemma GlidersMirrorColumn(size: (int, int), c: Coord)
    requires c in Gliders(size)
    ensures MirrorColumn(c, size) in Gliders(size)
  {
  }

  /** The gliders are closed under the reflection across the horizontal
      middle of the world: the north gliders mirror the south ones. */
  lemma GlidersMirrorRow(size: (int, int), c: Coord)
    requires c in Gliders(size)
    ensures MirrorRow(c, size) in Gliders(size)
  {
  }

  /** With at least five rows and columns every glider cell lies strictly
      inside the rim: rows 1 .. height-2 and columns 1 .. width-2. */
  lemma GlidersInsideRim(size: (int, int))
    requires size.0 >= 5 && size.1 >= 5
    ensures forall c :: c in Gliders(size) ==> 1 <= c.0 <= size.1 - 2 && 1 <= c.1 <= size.0 - 2
  {
  }

  /** On the default 80x40 world the north-west glider starts at (1, 3) and
      the south-east glider occupies (38, 76). */
  lemma GlidersOnDefaultWorld()
    ensures (1, 3) in Gliders((80, 40))
    ensures (38, 76) in Gliders((80, 40))
  {
    var g := Gliders((80, 40));
    assert g[0] == (1, 3) && g[15] == (38, 76);
  }

  /** On the default 80x40 world (38, 77) and the centre (20, 40) hold no
      glider cell. */
  lemma GliderFreeOnDefaultWorld()
    ensures (38, 77) !in Gliders((80, 40))
    ensures (20, 40) !in Gliders((80, 40))
  {
  }

  // ---------------------------------------------------------------------
  // Pulsar
  // ---------------------------------------------------------------------

  /** The row offsets of the pulsar, each mapped to its column offsets. */
  const PulsarTable: seq<(int, seq<int>)> :=
    [(1, [2, 3, 4]), (2, [1, 6]), (3, [1, 6]), (4, [1, 6]), (6, [2, 3, 4])]

  /** The four cells a (row, column) offset gives from the centre (vc, hc):
      top-left, top-right, bottom-left, bottom-right. */
  function PulsarQuad(vc: int, hc: int, row: int, col: int): seq<Coord>
  {
    [(vc - row, hc - col), (vc - row, hc + col), (vc + row, hc - col), (vc + row, hc + col)]
  }

  /** The cells of one table row, in the order the inner loop appends them. */
  function PulsarCols(vc: int, hc: int, row: int, cols: seq<int>): seq<Coord>
    decreases |cols|
  {
    if cols == [] then []
    else PulsarCols(vc, hc, row, cols[..|cols| - 1]) + PulsarQuad(vc, hc, row, cols[|cols| - 1])
  }

  /** The cells of a table, in the order the outer loop visits its rows. */
  function PulsarRows(vc: int, hc: int, table: seq<(int, seq<int>)>): seq<Coord>
    decreases |table|
  {
    if table == [] then []
    else
      var last := table[|table| - 1];
      PulsarRows(vc, hc, table[..|table| - 1]) + PulsarCols(vc, hc, last.0, last.1)
  }

  /** The pulsar around the centre (height/2, width/2). */
  function Pulsar(size: (int, int)): seq<Coord>
  {
    PulsarRows(Half(size.1), Half(size.0), PulsarTable)
  }

  lemma PulsarColsStep(vc: int, hc: int, row: int, cols: seq<int>, j: nat)
    requires j < |cols|
    ensures PulsarCols(vc, hc, row, cols[..j + 1]) == PulsarCols(vc, hc, row, cols[..j]) + PulsarQuad(vc, hc, row, cols[j])
  {
    assert cols[..j + 1][..j] == cols[..j];
  }

  lemma PulsarRowsStep(vc: int, hc: int, table: seq<(int, seq<int>)>, i: nat)
    requires i < |table|
    ensures PulsarRows(vc, hc, table[..i + 1]) == PulsarRows(vc, hc, table[..i]) + PulsarCols(vc, hc, table[i].0, table[i].1)
  {
    assert table[..i + 1][..i] == table[..i];
  }

  /** The loops of create_pulsar over a row-to-columns table: four cells
      per (row, column) offset, row by row. */
  method AppendPulsarCells(vc: int, hc: int, mappedVals: seq<(int, seq<int>)>) returns (pulsar: seq<Coord>)
    ensures pulsar == PulsarRows(vc, hc, mappedVals)
  {
    pulsar := [];
    var i := 0;
    while i < |mappedVals|
      invariant 0 <= i <= |mappedVals|
      invariant pulsar == PulsarRows(vc, hc, mappedVals[..i])
    {
      var row, cols := mappedVals[i].0, mappedVals[i].1;
      var j := 0;
      while j < |cols|
        invariant 0 <= j <= |cols|
        invariant pulsar == PulsarRows(vc, hc, mappedVals[..i]) + PulsarCols(vc, hc, row, cols[..j])
      {
        var col := cols[j];
        pulsar := pulsar + [(vc - row, hc - col)];
        pulsar := pulsar + [(vc - row, hc + col)];
        pulsar := pulsar + [(vc + row, hc - col)];
        pulsar := pulsar + [(vc + row, hc + col)];
        PulsarColsStep(vc, hc, row, cols, j);
        j := j + 1;
      }
      assert cols[..j] == cols;
      PulsarRowsStep(vc, hc, mappedVals, i);
      i := i + 1;
    }
    assert mappedVals[..i] == mappedVals;
  }

  /** create_pulsar: the centre is (height/2, width/2), the table is the
      pulsar's. */
  method CreatePulsar(size: (int, int)) returns (pulsar: seq<Coord>)
    ensures pulsar == Pulsar(size)
  {
    var vc := Half(size.1);
    var hc := Half(size.0);
    pulsar := AppendPulsarCells(vc, hc, PulsarTable);
  }

  predicate AllPositive(xs: seq<int>)
  {
    forall k :: 0 <= k < |xs| ==> xs[k] > 0
  }

  /** Every table row offset is positive, and so is every column offset. */
  predicate PositiveTable(table: seq<(int, seq<int>)>)
  {
    forall k :: 0 <= k < |table| ==> table[k].0 > 0 && AllPositive(table[k].1)
  }

  lemma {:induction false} PulsarColsLength(vc: int, hc: int, row: int, cols: seq<int>)
    ensures |PulsarCols(vc, hc, row, cols)| == 4 * |cols|
    decreases |cols|
  {
    if cols != [] {
      PulsarColsLength(vc, hc, row, cols[..|cols| - 1]);
    }
  }

  /** A cell belongs to a table row exactly when its distance from the centre
      is that row offset and one of its column offsets. */
  lemma {:induction false} PulsarColsMembers(vc: int, hc: int, row: int, cols: seq<int>, c: Coord)
    requires row > 0 && AllPositive(cols)
    ensures c in PulsarCols(vc, hc, row, cols) <==> Abs(c.0 - vc) == row && Abs(c.1 - hc) in cols
    decreases |cols|
  {
    if cols != [] {
      var init := cols[..|cols| - 1];
      assert cols == init + [cols[|cols| - 1]];
      PulsarColsMembers(vc, hc, row, init, c);
    }
  }

  lemma {:induction false} PulsarColsDistinct(vc: int, hc: int, row: int, cols: seq<int>)
    requires row > 0 && AllPositive(cols) && Distinct(cols)
    ensures Distinct(PulsarCols(vc, hc, row, cols))
    decreases |cols|
  {
    if cols != [] {
      var init, col := cols[..|cols| - 1], cols[|cols| - 1];
      assert col !in init;
      PulsarColsDistinct(vc, hc, row, init);
      forall x | x in PulsarCols(vc, hc, row, init)
        ensures x !in PulsarQuad(vc, hc, row, col)
      {
        PulsarColsMembers(vc, hc, row, init, x);
      }
      DistinctConcat(PulsarCols(vc, hc, row, init), PulsarQuad(vc, hc, row, col));
    }
  }

  /** A cell belongs to the pattern of a table exactly when its row distance
      from the centre is a row offset of the table and its column distance
      one of that row's column offsets. */
  lemma {:induction false} PulsarRowsMembers(vc: int, hc: int, table: seq<(int, seq<int>)>, c: Coord)
    requires PositiveTable(table)
    ensures c in PulsarRows(vc, hc, table) <==>
      exists k :: 0 <= k < |table| && table[k].0 == Abs(c.0 - vc) && Abs(c.1 - hc) in table[k].1
    decreases |table|
  {
    if table != [] {
      var init, last := table[..|table| - 1], table[|table| - 1];
      assert PulsarRows(vc, hc, table) == PulsarRows(vc, hc, init) + PulsarCols(vc, hc, last.0, last.1);
      PulsarRowsMembers(vc, hc, init, c);
      PulsarColsMembers(vc, hc, last.0, last.1, c);
      if exists k :: 0 <= k < |table| && table[k].0 == Abs(c.0 - vc) && Abs(c.1 - hc) in table[k].1 {
        var k :| 0 <= k < |table| && table[k].0 == Abs(c.0 - vc) && Abs(c.1 - hc) in table[k].1;
        if k < |init| {
          assert init[k] == table[k];
        }
      }
      if exists k :: 0 <= k < |init| && init[k].0 == Abs(c.0 - vc) && Abs(c.1 - hc) in init[k].1 {
        var k :| 0 <= k < |init| && init[k].0 == Abs(c.0 - vc) && Abs(c.1 - hc) in init[k].1;
        assert table[k] == init[k];
      }
    }
  }

  /** Row offsets of a table are pairwise different and column lists have no repeats. */
  predicate DistinctTable(table: seq<(int, seq<int>)>)
  {
    && (forall i, j :: 0 <= i < j < |table| ==> table[i].0 != table[j].0)
    && (forall k :: 0 <= k < |table| ==> Distinct(table[k].1))
  }

  lemma {:induction false} PulsarRowsDistinct(vc: int, hc: int, table: seq<(int, seq<int>)>)
    requires PositiveTable(table) && DistinctTable(table)
    ensures Distinct(PulsarRows(vc, hc, table))
    decreases |table|
  {
    if table != [] {
      var init, last := table[..|table| - 1], table[|table| - 1];
      PulsarRowsDistinct(vc, hc, init);
      PulsarColsDistinct(vc, hc, last.0, last.1);
      forall x | x in PulsarRows(vc, hc, init)
        ensures x !in PulsarCols(vc, hc, last.0, last.1)
      {
        PulsarRowsMembers(vc, hc, init, x);
        PulsarColsMembers(vc, hc, last.0, last.1, x);
        var k :| 0 <= k < |init| && init[k].0 == Abs(x.0 - vc) && Abs(x.1 - hc) in init[k].1;
        assert table[k] == init[k];
      }
      DistinctConcat(PulsarRows(vc, hc, init), PulsarCols(vc, hc, last.0, last.1));
    }
  }

  /** The offsets (distance in rows, distance in columns) of the pulsar's cells. */
  predicate PulsarOffset(dr: int, dc: int)
  {
    || ((dr == 1 || dr == 6) && 2 <= dc <= 4)
    || (2 <= dr <= 4 && (dc == 1 || dc == 6))
  }

  /** Sum of the column-list lengths of a table. */
  function TableCells(table: seq<(int, seq<int>)>): nat
    decreases |table|
  {
    if table == [] then 0 else TableCells(table[..|table| - 1]) + |table[|table| - 1].1|
  }

  lemma {:induction false} PulsarRowsLength(vc: int, hc: int, table: seq<(int, seq<int>)>)
    ensures |PulsarRows(vc, hc, table)| == 4 * TableCells(table)
    decreases |table|
  {
    if table != [] {
      var last := table[|table| - 1];
      PulsarRowsLength(vc, hc, table[..|table| - 1]);
      PulsarColsLength(vc, hc, last.0, last.1);
    }
  }

  /** The pulsar has 48 cells. */
  lemma PulsarLength(size: (int, int))
    ensures |Pulsar(size)| == 48
  {
    var t := PulsarTable;
    PulsarRowsLength(Half(size.1), Half(size.0), t);
    assert t[..1][..0] == [] && t[..2][..1] == t[..1] && t[..3][..2] == t[..2];
    assert t[..4][..3] == t[..3] && t[..5][..4] == t[..4] && t[..5] == t;
    assert TableCells(t[..1]) == 3;
    assert TableCells(t[..2]) == 5;
    assert TableCells(t[..3]) == 7;
    assert TableCells(t[..4]) == 9;
    assert TableCells(t[..5]) == 12;
  }

  /** The pulsar table's offsets are positive, its rows are different and
      no row repeats a column. */
  lemma PulsarTableShape()
    ensures PositiveTable(PulsarTable)
    ensures DistinctTable(PulsarTable)
  {
    var t := PulsarTable;
    assert forall i, j :: 0 <= i < j < |t| ==> t[i].0 < t[j].0;
    assert Distinct([2, 3, 4]) && Distinct([1, 6]);
  }

  /** The 48 cells of the pulsar are pairwise different. */
  lemma PulsarDistinct(size: (int, int))
    ensures Distinct(Pulsar(size))
  {
    PulsarTableShape();
    PulsarRowsDistinct(Half(size.1), Half(size.0), PulsarTable);
  }

  /** The table lists exactly the pulsar offsets. */
  lemma PulsarTableOffsets(dr: int, dc: int)
    ensures PulsarOffset(dr, dc) <==>
      exists k :: 0 <= k < |PulsarTable| && PulsarTable[k].0 == dr && dc in PulsarTable[k].1
  {
    var t := PulsarTable;
    if PulsarOffset(dr, dc) {
      var k := if dr == 1 then 0 else if dr == 2 then 1 else if dr == 3 then 2 else if dr == 4 then 3 else 4;
      assert t[k].0 == dr && dc in t[k].1;
    } else {
      forall k | 0 <= k < |t| ensures !(t[k].0 == dr && dc in t[k].1) {
      }
    }
  }

  /** A cell belongs to the pulsar exactly when its distances from the centre
      (height/2, width/2) form one of the table's offsets. */
  lemma PulsarMembers(size: (int, int), c: Coord)
    ensures c in Pulsar(size) <==> PulsarOffset(Abs(c.0 - Half(size.1)), Abs(c.1 - Half(size.0)))
  {
    var vc, hc := Half(size.1), Half(size.0);
    PulsarTableShape();
    PulsarRowsMembers(vc, hc, PulsarTable, c);
    PulsarTableOffsets(Abs(c.0 - vc), Abs(c.1 - hc));
  }

  /** The pulsar is symmetric about its centre row and its centre column. */
  lemma PulsarSymmetric(size: (int, int), c: Coord)
    requires c in Pulsar(size)
    ensures (2 * Half(size.1) - c.0, c.1) in Pulsar(size)
    ensures (c.0, 2 * Half(size.0) - c.1) in Pulsar(size)
  {
    PulsarMembers(size, c);
    PulsarMembers(size, (2 * Half(size.1) - c.0, c.1));
    PulsarMembers(size, (c.0, 2 * Half(size.0) - c.1));
  }

  /** With at least fifteen rows and columns the pulsar lies strictly inside the rim. */
  lemma PulsarInsideRim(size: (int, int))
    requires size.0 >= 15 && size.1 >= 15
    ensures forall c :: c in Pulsar(size) ==> 1 <= c.0 <= size.1 - 2 && 1 <= c.1 <= size.0 - 2
  {
    forall c | c in Pulsar(size)
      ensures 1 <= c.0 <= size.1 - 2 && 1 <= c.1 <= size.0 - 2
    {
      PulsarMembers(size, c);
    }
  }

  // ---------------------------------------------------------------------
  // Penta-decathlon
  // ---------------------------------------------------------------------

  /** create_penta_decathlon: 22 cells around the vertical centre
      `int(height * .5 - 1)` and the horizontal centre `int(width * .5)`. */
  function PentaDecathlon(size: (int, int)): seq<Coord>
  {
    var vc, hc := Half(size.1 - 2), Half(size.0);
    [ (vc - 5, hc - 1), (vc - 5, hc), (vc - 5, hc + 1),
      (vc - 4, hc), (vc - 3, hc),
      (vc - 2, hc - 1), (vc - 2, hc), (vc - 2, hc + 1),
      (vc, hc - 1), (vc, hc), (vc, hc + 1),
      (vc + 1, hc - 1), (vc + 1, hc), (vc + 1, hc + 1),
      (vc + 3, hc - 1), (vc + 3, hc), (vc + 3, hc + 1),
      (vc + 4, hc), (vc + 5, hc),
      (vc + 6, hc - 1), (vc + 6, hc), (vc + 6, hc + 1) ]
  }

  /** Lexicographic order on positions: by row, then by column. */
  predicate Before(a: Coord, b: Coord)
  {
    a.0 < b.0 || (a.0 == b.0 && a.1 < b.1)
  }

  /** Each element comes strictly before the next one. */
  predicate Increasing(s: seq<Coord>)
  {
    forall i :: 0 <= i < |s| - 1 ==> Before(s[i], s[i + 1])
  }

  lemma {:induction false} IncreasingIsDistinct(s: seq<Coord>)
    requires Increasing(s)
    ensures Distinct(s)
    ensures forall i, j :: 0 <= i < j < |s| ==> Before(s[i], s[j])
    decreases |s|
  {
    if |s| > 1 {
      var t := s[1..];
      assert Increasing(t) by {
        forall i | 0 <= i < |t| - 1 ensures Before(t[i], t[i + 1]) {
          assert t[i] == s[i + 1] && t[i + 1] == s[i + 2];
        }
      }
      IncreasingIsDistinct(t);
      forall i, j | 0 <= i < j < |s| ensures Before(s[i], s[j]) {
        if i > 0 {
          assert s[i] == t[i - 1] && s[j] == t[j - 1];
        } else if j > 1 {
          assert Before(s[0], s[1]);
          assert s[1] == t[0] && s[j] == t[j - 1];
        }
      }
    }
  }

  /** The penta-decathlon has 22 cells, listed row by row from the top and,
      within a row, from left to right. */
  lemma PentaDecathlonIncreasing(size: (int, int))
    ensures |PentaDecathlon(size)| == 22
    ensures Increasing(PentaDecathlon(size))
  {
  }

  /** The 22 cells are pairwise different. */
  lemma PentaDecathlonDistinct(size: (int, int))
    ensures Distinct(PentaDecathlon(size))
  {
    PentaDecathlonIncreasing(size);
    IncreasingIsDistinct(PentaDecathlon(size));
  }

  /** All cells lie in the three columns hc-1 .. hc+1 and the twelve rows
      vc-5 .. vc+6, where vc = height/2 - 1 once the height is at least 2. */
  lemma PentaDecathlonBounds(size: (int, int))
    ensures forall c :: c in PentaDecathlon(size) ==>
      && Half(size.0) - 1 <= c.1 <= Half(size.0) + 1
      && Half(size.1 - 2) - 5 <= c.0 <= Half(size.1 - 2) + 6
    ensures size.1 >= 2 ==> Half(size.1 - 2) == size.1 / 2 - 1
  {
    var p, vc, hc := PentaDecathlon(size), Half(size.1 - 2), Half(size.0);
    PentaDecathlonIncreasing(size);
    IncreasingIsDistinct(p);
    assert p[0].0 == vc - 5 && p[21].0 == vc + 6;
    forall c | c in p
      ensures hc - 1 <= c.1 <= hc + 1 && vc - 5 <= c.0 <= vc + 6
    {
      var i :| 0 <= i < |p| && p[i] == c;
      assert i == 0 || Before(p[0], p[i]);
      assert i == 21 || Before(p[i], p[21]);
    }
  }

  // ---------------------------------------------------------------------
  // The catalogue
  // ---------------------------------------------------------------------

  /** get_pattern: the cells of a named pattern, or None for any other name
      (and for no name at all). */
  function GetPattern(name: Option<string>, size: (int, int)): (r: Option<seq<Coord>>)
    ensures r.Some? <==> name == Some("gliders") || name == Some("pulsar") || name == Some("penta")
  {
    match name
    case Some("gliders") => Some(Gliders(size))
    case Some("pulsar") => Some(Pulsar(size))
    case Some("penta") => Some(PentaDecathlon(size))
    case _ => None
  }
}
