/**
 * Loading a seed from a JSON file (Project/gol.py: the parse_*_from_file
 * functions and load_seed_from_file). Reading the file and decoding the
 * JSON text are outside the model: the loader receives the decoded value.
 * `ast.literal_eval`, which turns a population key such as "(3, 7)" into
 * a pair, is a parameter (`literalEval`) that yields the pair of integers
 * the key evaluates to, or None when it evaluates to anything else or
 * raises.
 */
module SeedLoader {
  import opened Wrappers
  import opened CodeBase
  import opened Topology
  import opened Rules
  import opened Worlds

  /** A decoded JSON value: null, an integer, a string, a list, or an object
      as the list of its members in file order. */
  datatype Json =
    | JNull
    | JInt(n: int)
    | JStr(s: string)
    | JArray(items: seq<Json>)
    | JObject(members: seq<(string, Json)>)

  /** Why loading stops; every one of them ends the program in the source. */
  datatype LoadError =
    | WorldSizeMissing
    | WorldSizeMalformed
    | WorldSizeNotPositive
    | CoordinateMalformed
    | CoordinateOutOfBounds
    | CellMalformed
    | StateMalformed
    | StateUnknown
    | NeighboursMalformed
    | NeighbourOutOfBounds
    | PopulationMissing
    | PopulationMalformed

  /** Member i is (name, value) and no later member is called name. */
  ghost predicate NamedLast(members: seq<(string, Json)>, name: string, value: Json, i: int)
  {
    && 0 <= i < |members| && members[i] == (name, value)
    && forall j :: i < j < |members| ==> members[j].0 != name
  }

  /** A member that is the last of its name stays so when a member of
      another name follows. */
  lemma NamedLastExtend(members: seq<(string, Json)>, init: seq<(string, Json)>, name: string, value: Json)
    requires |members| > 0 && init == members[..|members| - 1] && members[|members| - 1].0 != name
    requires exists i :: NamedLast(init, name, value, i)
    ensures exists i :: NamedLast(members, name, value, i)
  {
    var i :| NamedLast(init, name, value, i);
    assert forall j :: 0 <= j < |init| ==> init[j] == members[j];
    assert NamedLast(members, name, value, i);
  }

  /** The value of member `name`: like the dictionary `json.load` builds,
      the last member of that name wins. */
  function Lookup(members: seq<(string, Json)>, name: string): (r: Option<Json>)
    ensures r.None? <==> forall i :: 0 <= i < |members| ==> members[i].0 != name
    ensures r.Some? ==> exists i :: NamedLast(members, name, r.value, i)
    decreases |members|
  {
    if |members| == 0 then None
    else if members[|members| - 1].0 == name then
      assert NamedLast(members, name, members[|members| - 1].1, |members| - 1);
      Some(members[|members| - 1].1)
    else
      var init := members[..|members| - 1];
      assert forall i :: 0 <= i < |init| ==> init[i] == members[i];
      var r := Lookup(init, name);
      if r.Some? then
        NamedLastExtend(members, init, name, r.value);
        r
      else r
  }

  /** No name occurs twice, as in a Python dictionary. */
  predicate DistinctNames(d: seq<(string, Json)>)
  {
    forall i, j :: 0 <= i < j < |d| ==> d[i].0 != d[j].0
  }

  /** `d[name] = value` on a dictionary kept as its items in insertion
      order: a name already present keeps its place and takes the new
      value; a new name is added at the end. */
  function Insert(d: seq<(string, Json)>, name: string, value: Json): (r: seq<(string, Json)>)
    ensures |d| <= |r| <= |d| + 1
    ensures |r| == |d| + 1 <==> forall i :: 0 <= i < |d| ==> d[i].0 != name
    ensures |r| == |d| + 1 ==> r == d + [(name, value)]
    ensures DistinctNames(d) ==>
      && DistinctNames(r)
      && forall i :: 0 <= i < |d| ==> r[i] == if d[i].0 == name then (name, value) else d[i]
    decreases |d|
  {
    if |d| == 0 then [(name, value)]
    else if d[0].0 == name then [(name, value)] + d[1..]
    else [d[0]] + Insert(d[1..], name, value)
  }

  /** The items of the dictionary `json.load` builds from an object's
      members: one entry per name, in the order the names first appear,
      each holding the value of the last member with that name. */
  function DictItems(members: seq<(string, Json)>): (d: seq<(string, Json)>)
    ensures DistinctNames(d) && |d| <= |members|
    decreases |members|
  {
    if |members| == 0 then []
    else
      var n := |members| - 1;
      Insert(DictItems(members[..n]), members[n].0, members[n].1)
  }

  /** Each item holds the value of the last member of its name, and every
      member's name is an item. */
  lemma {:induction false} DictItemsLookup(members: seq<(string, Json)>)
    ensures forall i :: 0 <= i < |DictItems(members)| ==>
      Lookup(members, DictItems(members)[i].0) == Some(DictItems(members)[i].1)
    ensures forall i :: 0 <= i < |members| ==> HasName(DictItems(members), members[i].0)
    decreases |members|
  {
    if |members| > 0 {
      var n := |members| - 1;
      var init := members[..n];
      DictItemsLookup(init);
      var prev := DictItems(init);
      var d := DictItems(members);
      assert d == Insert(prev, members[n].0, members[n].1);
      DictItemsStepValues(members, init, prev, d);
      DictItemsStepNames(members, init, prev, d);
    }
  }

  /** One step of DictItems: storing the last member into the items of the
      members before it keeps every item's value the member lookup's. */
  lemma DictItemsStepValues(members: seq<(string, Json)>, init: seq<(string, Json)>,
                            prev: seq<(string, Json)>, d: seq<(string, Json)>)
    requires |members| > 0 && init == members[..|members| - 1]
    requires DistinctNames(prev)
    requires forall i :: 0 <= i < |prev| ==> Lookup(init, prev[i].0) == Some(prev[i].1)
    requires d == Insert(prev, members[|members| - 1].0, members[|members| - 1].1)
    ensures forall i :: 0 <= i < |d| ==> Lookup(members, d[i].0) == Some(d[i].1)
  {
    var m := members[|members| - 1];
    assert Lookup(members, m.0) == Some(m.1);
    forall i | 0 <= i < |d|
      ensures Lookup(members, d[i].0) == Some(d[i].1)
    {
      if i < |prev| && prev[i].0 != m.0 {
        assert d[i] == prev[i];
        assert Lookup(members, prev[i].0) == Lookup(init, prev[i].0);
      }
    }
  }

  /** Some item is called `name`. */
  predicate HasName(d: seq<(string, Json)>, name: string)
  {
    exists k :: 0 <= k < |d| && d[k].0 == name
  }

  /** The inserted name is an item afterwards. */
  lemma InsertHasName(d: seq<(string, Json)>, name: string, value: Json)
    requires DistinctNames(d)
    ensures HasName(Insert(d, name, value), name)
  {
    var r := Insert(d, name, value);
    if |r| == |d| {
      var k :| 0 <= k < |d| && d[k].0 == name;
      assert r[k].0 == name;
    } else {
      assert r[|d|].0 == name;
    }
  }

  /** An item of another name stays an item. */
  lemma InsertKeepsName(d: seq<(string, Json)>, name: string, value: Json, other: string)
    requires DistinctNames(d) && HasName(d, other) && other != name
    ensures HasName(Insert(d, name, value), other)
  {
    var k :| 0 <= k < |d| && d[k].0 == other;
    assert Insert(d, name, value)[k] == d[k];
  }

  /** The same step keeps every member's name among the items. */
  lemma DictItemsStepNames(members: seq<(string, Json)>, init: seq<(string, Json)>,
                           prev: seq<(string, Json)>, d: seq<(string, Json)>)
    requires |members| > 0 && init == members[..|members| - 1]
    requires DistinctNames(prev)
    requires forall i :: 0 <= i < |init| ==> HasName(prev, init[i].0)
    requires d == Insert(prev, members[|members| - 1].0, members[|members| - 1].1)
    ensures forall i :: 0 <= i < |members| ==> HasName(d, members[i].0)
  {
    var m := members[|members| - 1];
    InsertHasName(prev, m.0, m.1);
    forall i | 0 <= i < |members|
      ensures HasName(d, members[i].0)
    {
      if i < |init| && members[i].0 != m.0 {
        assert members[i] == init[i];
        InsertKeepsName(prev, m.0, m.1, members[i].0);
      }
    }
  }

  /** A last member of another name does not change a lookup. */
  lemma LookupPastOther(members: seq<(string, Json)>, name: string)
    requires |members| > 0 && members[|members| - 1].0 != name
    ensures Lookup(members, name) == Lookup(members[..|members| - 1], name)
  {
  }

  /** A reassigned name keeps the place of its first appearance and takes
      the last value. */
  lemma ReassignedNameKeepsItsPlace(a: string, b: string, v1: Json, v2: Json, v3: Json)
    requires a != b
    ensures DictItems([(a, v1), (b, v2), (a, v3)]) == [(a, v3), (b, v2)]
  {
    var ms := [(a, v1), (b, v2), (a, v3)];
    assert [(a, v1)][..0] == [];
    assert DictItems([(a, v1)]) == [(a, v1)];
    assert ms[..2] == [(a, v1), (b, v2)] && [(a, v1), (b, v2)][..1] == [(a, v1)];
    assert Insert([(a, v1)], b, v2) == [(a, v1), (b, v2)];
    assert DictItems(ms[..2]) == [(a, v1), (b, v2)];
    assert Insert([(a, v1), (b, v2)], a, v3) == [(a, v3), (b, v2)];
  }

  /** A name given twice leaves one item, holding the second value. */
  lemma RepeatedNameKeepsLastValue(a: string, v1: Json, v2: Json)
    ensures DictItems([(a, v1), (a, v2)]) == [(a, v2)]
  {
    var ms := [(a, v1), (a, v2)];
    assert ms[..1] == [(a, v1)];
    assert [(a, v1)][..0] == [];
  }

  /** `data[name]`: None when `data` is not an object or has no such member. */
  function Member(data: Json, name: string): (r: Option<Json>)
    ensures r.Some? ==> data.JObject? && exists i :: NamedLast(data.members, name, r.value, i)
    ensures data.JObject? ==> (r.None? <==> forall i :: 0 <= i < |data.members| ==> data.members[i].0 != name)
  {
    if data.JObject? then Lookup(data.members, name) else None
  }

  /** A value that unpacks as `[a, b]` and whose parts compare with
      integers: a two-element list of integers. */
  function AsPair(j: Json): (r: Option<(int, int)>)
    ensures r.Some? <==> j.JArray? && |j.items| == 2 && j.items[0].JInt? && j.items[1].JInt?
    ensures r.Some? ==> j == JArray([JInt(r.value.0), JInt(r.value.1)])
  {
    if j.JArray? && |j.items| == 2 && j.items[0].JInt? && j.items[1].JInt? then
      assert j.items == [JInt(j.items[0].n), JInt(j.items[1].n)];
      Some((j.items[0].n, j.items[1].n))
    else None
  }

  /** parse_world_size_form_file: the member "world_size" must be a list of
      two integers, both at least 1; the result is (width, height). */
  function ParseWorldSizeFromFile(data: Json): (r: Result<(int, int), LoadError>)
    ensures r.Success? <==>
      Member(data, "world_size").Some? && AsPair(Member(data, "world_size").value).Some?
      && AsPair(Member(data, "world_size").value).value.0 >= 1
      && AsPair(Member(data, "world_size").value).value.1 >= 1
    ensures r.Success? ==> Member(data, "world_size") == Some(JArray([JInt(r.value.0), JInt(r.value.1)]))
  {
    var field := Member(data, "world_size");
    if field.None? then Failure(WorldSizeMissing)
    else
      match AsPair(field.value)
      case None => Failure(WorldSizeMalformed)
      case Some((width, height)) =>
        if width < 1 || height < 1 then Failure(WorldSizeNotPositive) else Success((width, height))
  }

  /** parse_coordinates_from_file: the key must evaluate to a pair (y, x)
      that lies in the grid. */
  function ParseCoordinatesFromFile(key: string, size: (int, int), literalEval: string -> Option<Coord>)
    : (r: Result<Coord, LoadError>)
    ensures r.Success? <==> literalEval(key).Some? && InGrid(literalEval(key).value, size)
    ensures r.Success? ==> r.value == literalEval(key).value
  {
    var (width, height) := size;
    match literalEval(key)
    case None => Failure(CoordinateMalformed)
    case Some((y, x)) =>
      if y < 0 || x < 0 || x > width - 1 || y > height - 1 then Failure(CoordinateOutOfBounds)
      else Success((y, x))
  }

  /** The neighbour bound as the source writes it: the row may equal the
      height, one past the last row. */
  predicate WithinBoundsAsWritten(c: Coord, size: (int, int))
    ensures InGrid(c, size) ==> WithinBoundsAsWritten(c, size)
    ensures WithinBoundsAsWritten(c, size) && !InGrid(c, size) ==> c.0 == size.1 && 0 <= c.1 < size.0
  {
    var (width, height) := size;
    !(c.0 < 0 || c.1 < 0 || c.1 > width - 1 || c.0 > height)
  }

  /** The loop of parse_neighbours_from_file over the listed coordinates,
      with the bound check `inBounds`: the first entry that is not a pair,
      or is out of bounds, stops it. */
  function CheckedPairs(items: seq<Json>, inBounds: Coord -> bool): (r: Result<seq<Coord>, LoadError>)
    ensures r.Success? <==> forall k :: 0 <= k < |items| ==> AsPair(items[k]).Some? && inBounds(AsPair(items[k]).value)
    ensures r.Success? ==> |r.value| == |items| && forall k :: 0 <= k < |items| ==> AsPair(items[k]) == Some(r.value[k])
    ensures r.Failure? ==> exists k ::
      && 0 <= k < |items| && PairError(items[k], inBounds) == Some(r.error)
      && forall j :: 0 <= j < k ==> PairError(items[j], inBounds).None?
    decreases |items|
  {
    if |items| == 0 then Success([])
    else
      var head := AsPair(items[0]);
      if head.None? then Failure(NeighboursMalformed)
      else if !inBounds(head.value) then Failure(NeighbourOutOfBounds)
      else
        var rest := CheckedPairs(items[1..], inBounds);
        if rest.Failure? then
          var k :| 0 <= k < |items[1..]| && PairError(items[1..][k], inBounds) == Some(rest.error)
            && forall j :: 0 <= j < k ==> PairError(items[1..][j], inBounds).None?;
          assert PairError(items[k + 1], inBounds) == Some(rest.error);
          assert forall j :: 0 <= j < k + 1 ==> PairError(items[j], inBounds).None? by {
            forall j | 0 <= j < k + 1
              ensures PairError(items[j], inBounds).None?
            {
              if j > 0 {
                assert items[j] == items[1..][j - 1];
              }
            }
          }
          rest
        else
          assert forall k :: 0 < k < |items| ==> items[k] == items[1..][k - 1];
          Success([head.value] + rest.value)
  }

  /** The error one listed neighbour raises, if any. */
  function PairError(item: Json, inBounds: Coord -> bool): (r: Option<LoadError>)
    ensures r.None? <==> AsPair(item).Some? && inBounds(AsPair(item).value)
    ensures r == Some(NeighboursMalformed) <==> AsPair(item).None?
  {
    match AsPair(item)
    case None => Some(NeighboursMalformed)
    case Some(c) => if inBounds(c) then None else Some(NeighbourOutOfBounds)
  }

  /** parse_neighbours_from_file with the row bound the rest of the program
      needs (a row at most height - 1): a list of exactly eight pairs inside
      the grid, kept in file order. */
  function ParsedNeighbours(neighbours: Json, size: (int, int)): (r: Result<seq<Coord>, LoadError>)
    ensures r.Success? <==>
      && neighbours.JArray? && |neighbours.items| == 8
      && forall k :: 0 <= k < 8 ==> AsPair(neighbours.items[k]).Some? && InGrid(AsPair(neighbours.items[k]).value, size)
    ensures r.Success? ==> |r.value| == 8 && forall k :: 0 <= k < 8 ==> AsPair(neighbours.items[k]) == Some(r.value[k])
  {
    if !neighbours.JArray? || |neighbours.items| != 8 then Failure(NeighboursMalformed)
    else CheckedPairs(neighbours.items, c => InGrid(c, size))
  }

  /** parse_neighbours_from_file as written. */
  function ParseNeighboursAsWritten(neighbours: Json, size: (int, int)): (r: Result<seq<Coord>, LoadError>)
    ensures r.Success? <==>
      && neighbours.JArray? && |neighbours.items| == 8
      && forall k :: 0 <= k < 8 ==>
           AsPair(neighbours.items[k]).Some? && WithinBoundsAsWritten(AsPair(neighbours.items[k]).value, size)
    ensures r.Success? ==>
      && |r.value| == 8
      && forall k :: 0 <= k < 8 ==> 0 <= r.value[k].0 <= size.1 && 0 <= r.value[k].1 < size.0
    ensures r.Success? ==> forall k :: 0 <= k < 8 ==> AsPair(neighbours.items[k]) == Some(r.value[k])
  {
    if !neighbours.JArray? || |neighbours.items| != 8 then Failure(NeighboursMalformed)
    else CheckedPairs(neighbours.items, c => WithinBoundsAsWritten(c, size))
  }

  /** The neighbour list, as JSON, of a cell in the left column of the
      bottom row of a 3 x 3 world whose file names row 3 (below the grid)
      among them. */
  const BelowGridNeighbours: Json :=
    JArray([JArray([JInt(1), JInt(0)]), JArray([JInt(1), JInt(1)]), JArray([JInt(1), JInt(2)]),
            JArray([JInt(2), JInt(1)]), JArray([JInt(2), JInt(2)]), JArray([JInt(3), JInt(0)]),
            JArray([JInt(3), JInt(1)]), JArray([JInt(3), JInt(2)])])

  /** As written, the loader accepts a neighbour in row 3 of a world of
      height 3; that key is in no world whose keys lie in the grid, so the
      first tick over such a world fails its lookup. */
  lemma RowBoundAcceptsRowBelowGrid()
    ensures ParseNeighboursAsWritten(BelowGridNeighbours, (3, 3)).Success?
    ensures (3, 0) in ParseNeighboursAsWritten(BelowGridNeighbours, (3, 3)).value
    ensures !InGrid((3, 0), (3, 3))
  {
    var items := BelowGridNeighbours.items;
    assert forall k :: 0 <= k < 8 ==> AsPair(items[k]).Some? && WithinBoundsAsWritten(AsPair(items[k]).value, (3, 3));
    var r := ParseNeighboursAsWritten(BelowGridNeighbours, (3, 3));
    assert AsPair(items[5]) == Some(r.value[5]);
  }

  /** With the row bound height - 1 the same list is refused at its sixth
      entry. */
  lemma RowBoundRefusesRowBelowGrid()
    ensures ParsedNeighbours(BelowGridNeighbours, (3, 3)) == Failure(NeighbourOutOfBounds)
  {
    var items := BelowGridNeighbours.items;
    var inBounds := c => InGrid(c, (3, 3));
    assert forall j :: 0 <= j < 5 ==> PairError(items[j], inBounds).None?;
    assert PairError(items[5], inBounds) == Some(NeighbourOutOfBounds);
    CheckedPairsFirstError(items, inBounds, 5);
  }

  /** When every entry before `i` is a pair in bounds and entry `i` is not,
      the check fails with the error of entry `i`. */
  lemma CheckedPairsFirstError(items: seq<Json>, inBounds: Coord -> bool, i: nat)
    requires i < |items|
    requires forall j :: 0 <= j < i ==> PairError(items[j], inBounds).None?
    requires PairError(items[i], inBounds).Some?
    ensures CheckedPairs(items, inBounds) == Failure(PairError(items[i], inBounds).value)
  {
    var r := CheckedPairs(items, inBounds);
    assert !(AsPair(items[i]).Some? && inBounds(AsPair(items[i]).value));
    var k :| 0 <= k < |items| && PairError(items[k], inBounds) == Some(r.error)
      && forall j :: 0 <= j < k ==> PairError(items[j], inBounds).None?;
    assert k == i;
  }

  /** The imperative loop of parse_neighbours_from_file, with the row bound
      height - 1. */
  method ParseNeighboursFromFile(neighbours: Json, size: (int, int)) returns (r: Result<seq<Coord>, LoadError>)
    ensures r == ParsedNeighbours(neighbours, size)
  {
    var (width, height) := size;
    if !neighbours.JArray? || |neighbours.items| != 8 {
      return Failure(NeighboursMalformed);
    }
    var items := neighbours.items;
    ghost var inBounds := c => InGrid(c, size);
    var newList: seq<Coord> := [];
    for i := 0 to |items|
      invariant |newList| == i
      invariant forall k :: 0 <= k < i ==> AsPair(items[k]) == Some(newList[k]) && InGrid(newList[k], size)
    {
      var coordinate := AsPair(items[i]);
      if coordinate.None? {
        CheckedPairsFirstError(items, inBounds, i);
        return Failure(NeighboursMalformed);
      }
      var (y, x) := coordinate.value;
      if y < 0 || x < 0 || x > width - 1 || y > height - 1 {
        CheckedPairsFirstError(items, inBounds, i);
        return Failure(NeighbourOutOfBounds);
      }
      newList := newList + [(y, x)];
    }
    ghost var r' := CheckedPairs(items, inBounds);
    assert r'.Success?;
    assert r'.value == newList;
    return Success(newList);
  }

  /** The state a file may give a cell: "X", "-" or "#". */
  function StateOfToken(s: string): (r: Option<State>)
    ensures r.Some? <==> s == "X" || s == "-" || s == "#"
    ensures r.Some? ==> s == [Token(r.value)]
  {
    if s == "X" then Some(Alive)
    else if s == "-" then Some(Dead)
    else if s == "#" then Some(Rim)
    else None
  }

  /** parse_cell_object_from_file: null stands for a rim cell; otherwise an
      object with a known state string and a valid neighbour list, giving a
      cell of age 0. */
  function ParseCellObjectFromFile(cellObject: Json, size: (int, int)): (r: Result<Option<Cell>, LoadError>)
    ensures cellObject.JNull? ==> r == Success(None)
    ensures r.Success? && r.value.None? ==> cellObject.JNull?
    ensures r.Success? && r.value.Some? ==>
      && cellObject.JObject?
      && Member(cellObject, "state") == Some(JStr([Token(r.value.value.state)]))
      && r.value.value.state in {Alive, Dead, Rim}
      && r.value.value.age == 0
      && Member(cellObject, "neighbours").Some?
      && ParsedNeighbours(Member(cellObject, "neighbours").value, size) == Success(r.value.value.neighbours)
    ensures (&& cellObject.JObject?
             && Member(cellObject, "state").Some? && Member(cellObject, "state").value.JStr?
             && StateOfToken(Member(cellObject, "state").value.s).Some?
             && Member(cellObject, "neighbours").Some?
             && ParsedNeighbours(Member(cellObject, "neighbours").value, size).Success?) ==> r.Success?
  {
    if !cellObject.JObject? && !cellObject.JNull? then Failure(CellMalformed)
    else if cellObject.JNull? then Success(None)
    else
      var state := Member(cellObject, "state");
      var neighbours := Member(cellObject, "neighbours");
      if state.None? || neighbours.None? then Failure(CellMalformed)
      else if !state.value.JStr? then Failure(StateMalformed)
      else
        match StateOfToken(state.value.s)
        case None => Failure(StateUnknown)
        case Some(s) =>
          if !neighbours.value.JArray? then Failure(NeighboursMalformed)
          else
            match ParsedNeighbours(neighbours.value, size)
            case Failure(e) => Failure(e)
            case Success(ns) => Success(Some(Cell(s, 0, ns)))
  }

  /** One population member: its key parsed as a coordinate, then its value
      as a cell object. */
  function EntryOf(m: (string, Json), size: (int, int), literalEval: string -> Option<Coord>)
    : (r: Result<(Coord, Option<Cell>), LoadError>)
    ensures r.Success? ==> InGrid(r.value.0, size) && ParseCellObjectFromFile(m.1, size) == Success(r.value.1)
  {
    match ParseCoordinatesFromFile(m.0, size, literalEval)
    case Failure(e) => Failure(e)
    case Success(c) =>
      match ParseCellObjectFromFile(m.1, size)
      case Failure(e) => Failure(e)
      case Success(cell) => Success((c, cell))
  }

  /** The loop of parse_population_from_file over the dictionary's items
      in order: the first item that fails stops it, and a later item whose
      key names the same coordinate replaces an earlier one. */
  function PopulationOf(members: seq<(string, Json)>, size: (int, int), literalEval: string -> Option<Coord>)
    : (r: Result<World, LoadError>)
    ensures r.Success? <==> forall i :: 0 <= i < |members| ==> EntryOf(members[i], size, literalEval).Success?
    decreases |members|
  {
    if |members| == 0 then Success(map[])
    else
      var n := |members| - 1;
      var init := members[..n];
      assert forall i :: 0 <= i < n ==> init[i] == members[i];
      match PopulationOf(init, size, literalEval)
      case Failure(e) => Failure(e)
      case Success(w) =>
        match EntryOf(members[n], size, literalEval)
        case Failure(e) => Failure(e)
        case Success(entry) => Success(w[entry.0 := entry.1])
  }

  /** Every member's coordinate is a key of the parsed population. */
  lemma {:induction false} PopulationHasEveryMember(members: seq<(string, Json)>, size: (int, int),
                                                    literalEval: string -> Option<Coord>)
    requires PopulationOf(members, size, literalEval).Success?
    ensures forall i :: 0 <= i < |members| ==>
      EntryOf(members[i], size, literalEval).value.0 in PopulationOf(members, size, literalEval).value
    decreases |members|
  {
    if |members| > 0 {
      var n := |members| - 1;
      var init := members[..n];
      assert forall i :: 0 <= i < n ==> init[i] == members[i];
      PopulationHasEveryMember(init, size, literalEval);
    }
  }

  /** Member i parses to (c, cell), and no later member parses to the
      coordinate c. */
  ghost predicate WonBy(members: seq<(string, Json)>, size: (int, int), literalEval: string -> Option<Coord>,
                        c: Coord, cell: Option<Cell>, i: int)
  {
    && 0 <= i < |members|
    && EntryOf(members[i], size, literalEval) == Success((c, cell))
    && forall j :: i < j < |members| ==>
         EntryOf(members[j], size, literalEval).Success? && EntryOf(members[j], size, literalEval).value.0 != c
  }

  /** The cell stored under c is the one of the last member with that
      coordinate. */
  ghost predicate LastMemberWins(members: seq<(string, Json)>, size: (int, int),
                                 literalEval: string -> Option<Coord>, c: Coord, cell: Option<Cell>)
  {
    exists i :: WonBy(members, size, literalEval, c, cell, i)
  }

  /** A member that wins among the first n still wins when a member with
      another coordinate follows. */
  lemma WonByExtend(members: seq<(string, Json)>, size: (int, int), literalEval: string -> Option<Coord>,
                    c: Coord, cell: Option<Cell>, i: int)
    requires |members| > 0
    requires WonBy(members[..|members| - 1], size, literalEval, c, cell, i)
    requires EntryOf(members[|members| - 1], size, literalEval).Success?
    requires EntryOf(members[|members| - 1], size, literalEval).value.0 != c
    ensures WonBy(members, size, literalEval, c, cell, i)
  {
    var init := members[..|members| - 1];
    assert forall j :: 0 <= j < |init| ==> init[j] == members[j];
  }

  /** Every key of the parsed population comes from a member, and its cell
      is the one of the last member with that coordinate. */
  lemma {:induction false} PopulationLastMemberWins(members: seq<(string, Json)>, size: (int, int),
                                                    literalEval: string -> Option<Coord>)
    requires PopulationOf(members, size, literalEval).Success?
    ensures var w := PopulationOf(members, size, literalEval).value;
      forall c :: c in w ==> LastMemberWins(members, size, literalEval, c, w[c])
    decreases |members|
  {
    if |members| > 0 {
      var n := |members| - 1;
      var init := members[..n];
      assert forall i :: 0 <= i < n ==> init[i] == members[i];
      PopulationLastMemberWins(init, size, literalEval);
      var w := PopulationOf(members, size, literalEval).value;
      var prev := PopulationOf(init, size, literalEval).value;
      var entry := EntryOf(members[n], size, literalEval).value;
      assert w == prev[entry.0 := entry.1];
      forall c | c in w
        ensures LastMemberWins(members, size, literalEval, c, w[c])
      {
        if c == entry.0 {
          assert WonBy(members, size, literalEval, c, w[c], n);
        } else {
          assert LastMemberWins(init, size, literalEval, c, prev[c]);
          var i :| WonBy(init, size, literalEval, c, prev[c], i);
          WonByExtend(members, size, literalEval, c, prev[c], i);
        }
      }
    }
  }

  /** A failing population fails with the error of its first failing member. */
  lemma {:induction false} PopulationFirstFailure(members: seq<(string, Json)>, size: (int, int),
                                                  literalEval: string -> Option<Coord>)
    requires PopulationOf(members, size, literalEval).Failure?
    ensures exists i ::
      && 0 <= i < |members|
      && EntryOf(members[i], size, literalEval) == Failure(PopulationOf(members, size, literalEval).error)
      && forall j :: 0 <= j < i ==> EntryOf(members[j], size, literalEval).Success?
    decreases |members|
  {
    var n := |members| - 1;
    var init := members[..n];
    assert forall i :: 0 <= i < n ==> init[i] == members[i];
    if PopulationOf(init, size, literalEval).Failure? {
      PopulationFirstFailure(init, size, literalEval);
      var i :| 0 <= i < n
        && EntryOf(init[i], size, literalEval) == Failure(PopulationOf(init, size, literalEval).error)
        && forall j :: 0 <= j < i ==> EntryOf(init[j], size, literalEval).Success?;
      assert EntryOf(members[i], size, literalEval) == Failure(PopulationOf(members, size, literalEval).error);
    } else {
      assert EntryOf(members[n], size, literalEval) == Failure(PopulationOf(members, size, literalEval).error);
    }
  }

  /** Once a prefix of the members fails, the whole population fails with
      the same error. */
  lemma {:induction false} PopulationFailureSticks(members: seq<(string, Json)>, i: nat, size: (int, int),
                                                   literalEval: string -> Option<Coord>)
    requires i <= |members|
    requires PopulationOf(members[..i], size, literalEval).Failure?
    ensures PopulationOf(members, size, literalEval) == PopulationOf(members[..i], size, literalEval)
    decreases |members| - i
  {
    if i < |members| {
      var n := |members| - 1;
      assert members[..n][..i] == members[..i];
      PopulationFailureSticks(members[..n], i, size, literalEval);
    } else {
      assert members[..i] == members;
    }
  }

  /** The walk over the first i + 1 items is the walk over the first i,
      then item i. */
  lemma PopulationPrefixStep(members: seq<(string, Json)>, i: nat, size: (int, int),
                             literalEval: string -> Option<Coord>)
    requires i < |members|
    ensures PopulationOf(members[..i + 1], size, literalEval) ==
      match PopulationOf(members[..i], size, literalEval)
      case Failure(e) => Failure(e)
      case Success(w) =>
        match EntryOf(members[i], size, literalEval)
        case Failure(e) => Failure(e)
        case Success(entry) => Success(w[entry.0 := entry.1])
  {
    assert members[..i + 1][..i] == members[..i];
    assert members[..i + 1][i] == members[i];
  }

  /** parse_population_from_file, as a specification: the member
      "population" must be an object, whose dictionary items are walked. */
  function ParsedPopulation(fileData: Json, size: (int, int), literalEval: string -> Option<Coord>)
    : (r: Result<World, LoadError>)
    ensures r.Success? ==> Member(fileData, "population").Some? && Member(fileData, "population").value.JObject?
    ensures r.Success? ==> forall c :: c in r.value ==> InGrid(c, size)
  {
    var population := Member(fileData, "population");
    if population.None? then Failure(PopulationMissing)
    else if !population.value.JObject? then Failure(PopulationMalformed)
    else
      var items := DictItems(population.value.members);
      var r := PopulationOf(items, size, literalEval);
      if r.Success? then
        PopulationLastMemberWins(items, size, literalEval);
        r
      else r
  }

  /** The loop of parse_population_from_file. */
  method ParsePopulationFromFile(fileData: Json, size: (int, int), literalEval: string -> Option<Coord>)
    returns (r: Result<World, LoadError>)
    ensures r == ParsedPopulation(fileData, size, literalEval)
  {
    var population := Member(fileData, "population");
    if population.None? {
      return Failure(PopulationMissing);
    }
    if !population.value.JObject? {
      return Failure(PopulationMalformed);
    }
    var members := DictItems(population.value.members);
    var parsedPopulation: World := map[];
    for i := 0 to |members|
      invariant PopulationOf(members[..i], size, literalEval) == Success(parsedPopulation)
    {
      PopulationPrefixStep(members, i, size, literalEval);
      var coordinate := ParseCoordinatesFromFile(members[i].0, size, literalEval);
      if coordinate.Failure? {
        PopulationFailureSticks(members, i + 1, size, literalEval);
        return Failure(coordinate.error);
      }
      var cell := ParseCellObjectFromFile(members[i].1, size);
      if cell.Failure? {
        PopulationFailureSticks(members, i + 1, size, literalEval);
        return Failure(cell.error);
      }
      assert EntryOf(members[i], size, literalEval) == Success((coordinate.value, cell.value));
      parsedPopulation := parsedPopulation[coordinate.value := cell.value];
    }
    assert members[..|members|] == members;
    return Success(parsedPopulation);
  }

  /** load_seed_from_file after the file is read: the world size, then the
      population parsed against it. */
  function LoadedSeed(data: Json, literalEval: string -> Option<Coord>): (r: Result<(World, (int, int)), LoadError>)
    ensures r.Success? ==> ParseWorldSizeFromFile(data) == Success(r.value.1)
    ensures r.Success? ==> ParsedPopulation(data, r.value.1, literalEval) == Success(r.value.0)
  {
    match ParseWorldSizeFromFile(data)
    case Failure(e) => Failure(e)
    case Success(size) =>
      match ParsedPopulation(data, size, literalEval)
      case Failure(e) => Failure(e)
      case Success(world) => Success((world, size))
  }

  method LoadSeedFromFile(data: Json, literalEval: string -> Option<Coord>) returns (r: Result<(World, (int, int)), LoadError>)
    ensures r == LoadedSeed(data, literalEval)
  {
    var size := ParseWorldSizeFromFile(data);
    if size.Failure? {
      return Failure(size.error);
    }
    var world := ParsePopulationFromFile(data, size.value, literalEval);
    if world.Failure? {
      return Failure(world.error);
    }
    return Success((world.value, size.value));
  }

  /** A coordinate given twice is read from its last value only: an
      earlier value that would fail to parse does not stop the load. */
  lemma RepeatedKeyReadsLastValue(literalEval: string -> Option<Coord>)
    requires literalEval("(1,1)") == Some((1, 1))
    ensures var data := JObject([("world_size", JArray([JInt(3), JInt(3)])),
                                 ("population", JObject([("(1,1)", JInt(7)), ("(1,1)", JNull)]))]);
      LoadedSeed(data, literalEval) == Success((map[(1, 1) := None], (3, 3)))
  {
    var population := JObject([("(1,1)", JInt(7)), ("(1,1)", JNull)]);
    var data := JObject([("world_size", JArray([JInt(3), JInt(3)])), ("population", population)]);
    assert data.members[..1] == [("world_size", JArray([JInt(3), JInt(3)]))];
    assert Member(data, "population") == Some(population);
    assert "population"[0] != "world_size"[0];
    LookupPastOther(data.members, "world_size");
    assert Member(data, "world_size") == Some(JArray([JInt(3), JInt(3)]));
    RepeatedNameKeepsLastValue("(1,1)", JInt(7), JNull);
    var items := [("(1,1)", JNull)];
    assert EntryOf(items[0], (3, 3), literalEval) == Success(((1, 1), None));
    assert items[..0] == [];
    assert PopulationOf(items, (3, 3), literalEval) == Success(map[(1, 1) := None]);
  }

  /** The file name load_seed_from_file opens: ".json" is appended unless
      the name already ends with it. */
  function SeedFileName(name: string): (r: string)
    ensures |r| >= 5 && r[|r| - 5..] == ".json"
    ensures |name| >= 5 && name[|name| - 5..] == ".json" ==> r == name
    ensures !(|name| >= 5 && name[|name| - 5..] == ".json") ==> r == name + ".json"
  {
    if |name| < 5 then name + ".json"
    else if name[|name| - 5..] == ".json" then name
    else name + ".json"
  }

  lemma SeedFileNameIdempotent(name: string)
    ensures SeedFileName(SeedFileName(name)) == SeedFileName(name)
  {
  }

  /** The neighbours of a cell read from a file lie inside the grid. */
  lemma CellNeighboursInGrid(cellObject: Json, size: (int, int))
    requires ParseCellObjectFromFile(cellObject, size).Success?
    requires ParseCellObjectFromFile(cellObject, size).value.Some?
    ensures var ns := ParseCellObjectFromFile(cellObject, size).value.value.neighbours;
      forall k :: 0 <= k < |ns| ==> InGrid(ns[k], size)
  {
    var ns := ParseCellObjectFromFile(cellObject, size).value.value.neighbours;
    var items := Member(cellObject, "neighbours").value.items;
    forall k | 0 <= k < |ns|
      ensures InGrid(ns[k], size)
    {
      assert AsPair(items[k]) == Some(ns[k]);
    }
  }

  /** A loaded seed whose population gives every grid position an entry,
      and a cell to every position off the rim, can be simulated: its size
      is positive, its keys lie in the grid and it is tickable. */
  lemma LoadedWorldTickable(data: Json, literalEval: string -> Option<Coord>, world: World, size: (int, int))
    requires LoadedSeed(data, literalEval) == Success((world, size))
    requires forall c :: InGrid(c, size) ==> c in world
    requires forall c :: InGrid(c, size) && !IsRimCell(c, size) ==> world[c].Some?
    ensures size.0 >= 1 && size.1 >= 1
    ensures forall c :: c in world ==> InGrid(c, size)
    ensures Tickable(world, size)
  {
    var items := DictItems(Member(data, "population").value.members);
    assert PopulationOf(items, size, literalEval) == Success(world);
    PopulationInGrid(items, size, literalEval, world);
  }

  /** The keys of a parsed population, and the neighbours of its cells,
      lie in the grid. */
  lemma PopulationInGrid(members: seq<(string, Json)>, size: (int, int), literalEval: string -> Option<Coord>,
                         world: World)
    requires PopulationOf(members, size, literalEval) == Success(world)
    ensures forall c :: c in world ==> InGrid(c, size)
    ensures forall c :: c in world && world[c].Some? ==>
      forall k :: 0 <= k < |world[c].value.neighbours| ==> InGrid(world[c].value.neighbours[k], size)
  {
    PopulationLastMemberWins(members, size, literalEval);
    forall c | c in world
      ensures InGrid(c, size)
      ensures world[c].Some? ==>
        forall k :: 0 <= k < |world[c].value.neighbours| ==> InGrid(world[c].value.neighbours[k], size)
    {
      assert LastMemberWins(members, size, literalEval, c, world[c]);
      var i :| WonBy(members, size, literalEval, c, world[c], i);
      if world[c].Some? {
        CellNeighboursInGrid(members[i].1, size);
      }
    }
  }
}
