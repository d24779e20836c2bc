/** Cells, colonies and the space record of colony.py, with the row loader
    that builds a colony from strings of '0' and '1' before it starts to age. */
module Colonies {

  datatype Option<T> = None | Some(value: T)

  /** Number of neighbour flags a cell carries: N, NE, E, SE, S, SW, W, NW. */
  const NeighbourSlots: nat := 8

  /** Eight cleared neighbour flags, as every freshly made cell carries. */
  const NoNeighbours: seq<bool> := [false, false, false, false, false, false, false, false]

  /** A cell: its age (0 means empty) and its neighbour flags. */
  datatype Cell = Cell(age: nat, neighbours: seq<bool>)

  const EmptyCell: Cell := Cell(0, NoNeighbours)

  /** A colony: its header `[age, x, y, w, h]` and its rows of cells. */
  datatype Colony = Colony(age: nat, x: int, y: int, w: nat, h: nat, rows: seq<seq<Cell>>)

  /** A space: its name, its age in days and its colonies in insertion order. */
  datatype Space = Space(name: string, age: nat, colonies: seq<Colony>)

  /** The grid agrees with the header: `h` rows of exactly `w` cells each. */
  predicate Rectangular(c: Colony)
  {
    && |c.rows| == c.h
    && forall i :: 0 <= i < |c.rows| ==> |c.rows[i]| == c.w
  }

  /** A cell whose neighbour flags have never been computed. */
  predicate Unscanned(cell: Cell)
  {
    && |cell.neighbours| == NeighbourSlots
    && forall k :: 0 <= k < |cell.neighbours| ==> !cell.neighbours[k]
  }

  function Max(a: int, b: int): int
  {
    if a < b then b else a
  }

  // ---------------------------------------------------------------------------
  // Space functions
  // ---------------------------------------------------------------------------

  /** A new space; an empty name is a configuration error (the program exits). */
  function NewSpace(name: string): (r: Option<Space>)
    ensures r.None? <==> name == ""
    ensures r.Some? ==> r.value.name == name && r.value.age == 0
    ensures r.Some? ==> |r.value.colonies| == 0
  {
    if name == "" then None else Some(Space(name, 0, []))
  }

  /** Appends an empty, unaged colony whose origin is given by the caller. */
  function AddColony(s: Space, x: int, y: int): (r: Space)
    ensures r.name == s.name && r.age == s.age
    ensures |r.colonies| == |s.colonies| + 1
    ensures forall i :: 0 <= i < |s.colonies| ==> r.colonies[i] == s.colonies[i]
    ensures r.colonies[|s.colonies|].age == 0
    ensures r.colonies[|s.colonies|].x == x && r.colonies[|s.colonies|].y == y
    ensures r.colonies[|s.colonies|].w == 0 && r.colonies[|s.colonies|].h == 0
    ensures r.colonies[|s.colonies|].rows == [] && Rectangular(r.colonies[|s.colonies|])
  {
    s.(colonies := s.colonies + [Colony(0, x, y, 0, 0, [])])
  }

  // ---------------------------------------------------------------------------
  // Row loading
  // ---------------------------------------------------------------------------

  /** The row string holds nothing but '0' and '1' (its character set minus
      {'0', '1'} is empty). */
  predicate OnlyBinary(row: string)
  {
    (set ch | ch in row) - {'0', '1'} == {}
  }

  /** The set test holds exactly when every character is '0' or '1'. */
  lemma OnlyBinaryChars(row: string)
    ensures OnlyBinary(row) <==> forall k :: 0 <= k < |row| ==> row[k] == '0' || row[k] == '1'
  {
    var extra := (set ch | ch in row) - {'0', '1'};
    if extra != {} {
      var ch :| ch in extra;
      var k :| 0 <= k < |row| && row[k] == ch;
    } else {
      forall k | 0 <= k < |row| ensures row[k] == '0' || row[k] == '1' {
        assert row[k] in (set ch | ch in row);
        assert row[k] !in extra;
      }
    }
  }

  /** The three checks the loader makes before touching anything. */
  predicate Accepts(c: Colony, row: string)
  {
    c.age == 0 && |row| > 0 && OnlyBinary(row)
  }

  /** `n` empty cells, used to widen rows. */
  function Padding(n: nat): (r: seq<Cell>)
    ensures |r| == n
    ensures forall k :: 0 <= k < n ==> r[k] == EmptyCell
  {
    seq(n, _ => EmptyCell)
  }

  /** The cells of a row string: '0' is an empty cell, anything else is a
      cell of age 1. */
  function ParseRow(row: string): (r: seq<Cell>)
    ensures |r| == |row|
    ensures forall k :: 0 <= k < |row| ==> Unscanned(r[k])
    ensures forall k :: 0 <= k < |row| ==> r[k].age == (if row[k] == '0' then 0 else 1)
  {
    seq(|row|, k requires 0 <= k < |row| => Cell(if row[k] == '0' then 0 else 1, NoNeighbours))
  }

  /** Every existing row widened by `n` empty cells. */
  function WidenRows(rows: seq<seq<Cell>>, n: nat): (r: seq<seq<Cell>>)
    ensures |r| == |rows|
    ensures forall i :: 0 <= i < |rows| ==> r[i] == rows[i] + Padding(n)
  {
    seq(|rows|, i requires 0 <= i < |rows| => rows[i] + Padding(n))
  }

  /** Loads one row into a colony. A colony that has aged, an empty row or a
      row with a character other than '0' and '1' is rejected and the colony
      comes back unchanged. Otherwise the colony is widened to the longer of
      its width and the row, and the row (padded to that width) is appended. */
  function LoadRow(c: Colony, row: string): (r: Colony)
    // the three rejections
    ensures c.age > 0 ==> r == c
    ensures |row| == 0 ==> r == c
    ensures !OnlyBinary(row) ==> r == c
    // the header on success
    ensures Accepts(c, row) ==> r.age == c.age && r.x == c.x && r.y == c.y
    ensures Accepts(c, row) ==> r.h == c.h + 1 && |r.rows| == |c.rows| + 1
    ensures Accepts(c, row) ==> r.w == Max(c.w, |row|)
    // the grid stays rectangular
    ensures Rectangular(c) ==> Rectangular(r)
    // the new row is last, holds the row string's cells and then padding
    ensures Accepts(c, row) ==> |r.rows[|c.rows|]| == r.w
    ensures Accepts(c, row) ==>
      forall k :: 0 <= k < |row| ==> (r.rows[|c.rows|][k].age == 1 <==> row[k] == '1')
    ensures Accepts(c, row) ==>
      forall k :: 0 <= k < |row| ==> (r.rows[|c.rows|][k].age == 0 <==> row[k] == '0')
    ensures Accepts(c, row) ==>
      forall k :: |row| <= k < r.w ==> r.rows[|c.rows|][k] == EmptyCell
    ensures Accepts(c, row) ==> forall k :: 0 <= k < r.w ==> Unscanned(r.rows[|c.rows|][k])
    // older rows keep their cells in place and gain only empty cells
    ensures Accepts(c, row) ==>
      forall i :: 0 <= i < |c.rows| ==> |r.rows[i]| == |c.rows[i]| + (r.w - c.w)
    ensures Accepts(c, row) ==>
      forall i, j :: 0 <= i < |c.rows| && 0 <= j < |c.rows[i]| ==> r.rows[i][j] == c.rows[i][j]
    ensures Accepts(c, row) ==>
      forall i, j :: 0 <= i < |c.rows| && |c.rows[i]| <= j < |r.rows[i]| ==> r.rows[i][j] == EmptyCell
  {
    if c.age > 0 then c
    else if |row| == 0 then c
    else if !OnlyBinary(row) then c
    else
      OnlyBinaryChars(row);
      var grow := if |row| > c.w then |row| - c.w else 0;
      var w := c.w + grow;
      var nrow := ParseRow(row) + Padding(w - |row|);
      c.(w := w, h := c.h + 1, rows := WidenRows(c.rows, grow) + [nrow])
  }

  /** Loads rows one after another, as the start-up code does. */
  function LoadRows(c: Colony, rows: seq<string>): Colony
    decreases |rows|
  {
    if |rows| == 0 then c else LoadRows(LoadRow(c, rows[0]), rows[1..])
  }

  /** The row strings a loader accepts, in order (an unaged colony stays
      unaged, so only the row itself decides). */
  function AcceptedRows(rows: seq<string>): (r: seq<string>)
    ensures forall k :: 0 <= k < |r| ==> |r[k]| > 0 && OnlyBinary(r[k])
    ensures |r| <= |rows|
    decreases |rows|
  {
    if |rows| == 0 then []
    else if |rows[0]| > 0 && OnlyBinary(rows[0]) then [rows[0]] + AcceptedRows(rows[1..])
    else AcceptedRows(rows[1..])
  }

  function MaxLen(rows: seq<string>): nat
    decreases |rows|
  {
    if |rows| == 0 then 0 else Max(|rows[0]|, MaxLen(rows[1..]))
  }

  // ---------------------------------------------------------------------------
  // Reading a colony back
  // ---------------------------------------------------------------------------

  /** The '0'/'1' string of a row of cells: the inverse of the row parser. */
  function Encode(cells: seq<Cell>): (r: string)
    ensures |r| == |cells|
    ensures forall k :: 0 <= k < |cells| ==> (r[k] == '0' <==> cells[k].age == 0)
    ensures OnlyBinary(r)
  {
    var r := seq(|cells|, k requires 0 <= k < |cells| => if cells[k].age == 0 then '0' else '1');
    OnlyBinaryChars(r);
    r
  }

  function Zeros(n: nat): (r: string)
    ensures |r| == n
  {
    seq(n, _ => '0')
  }

  /** The colony holds exactly the given row strings, each padded with '0' to
      the colony's width. */
  predicate Holds(c: Colony, strs: seq<string>)
  {
    && |c.rows| == |strs|
    && forall i :: 0 <= i < |strs| ==>
         |strs[i]| <= c.w && Encode(c.rows[i]) == strs[i] + Zeros(c.w - |strs[i]|)
  }

  lemma EncodePadded(cells: seq<Cell>, n: nat)
    ensures Encode(cells + Padding(n)) == Encode(cells) + Zeros(n)
  {
  }

  lemma EncodeParsed(row: string, n: nat)
    requires OnlyBinary(row)
    ensures Encode(ParseRow(row) + Padding(n)) == row + Zeros(n)
  {
    OnlyBinaryChars(row);
    EncodePadded(ParseRow(row), n);
  }

  /** Loading an accepted row extends what the colony holds by that row, and
      rejecting one leaves it as it was. */
  lemma LoadRowHolds(c: Colony, strs: seq<string>, row: string)
    requires Holds(c, strs)
    ensures Accepts(c, row) ==> Holds(LoadRow(c, row), strs + [row])
    ensures !Accepts(c, row) ==> Holds(LoadRow(c, row), strs)
  {
  }

  /** Loading a list of rows into an unaged colony appends exactly the
      accepted rows, in order, each padded with '0' to the final width. */
  lemma {:induction false} LoadRowsHolds(c: Colony, strs: seq<string>, more: seq<string>)
    requires c.age == 0 && Holds(c, strs)
    ensures Holds(LoadRows(c, more), strs + AcceptedRows(more))
    decreases |more|
  {
    if |more| == 0 {
      assert strs + AcceptedRows(more) == strs;
    } else {
      var c1 := LoadRow(c, more[0]);
      LoadRowHolds(c, strs, more[0]);
      assert c1.age == 0;
      if Accepts(c, more[0]) {
        LoadRowsHolds(c1, strs + [more[0]], more[1..]);
        assert AcceptedRows(more) == [more[0]] + AcceptedRows(more[1..]);
        assert strs + [more[0]] + AcceptedRows(more[1..]) == strs + AcceptedRows(more);
      } else {
        LoadRowsHolds(c1, strs, more[1..]);
        assert AcceptedRows(more) == AcceptedRows(more[1..]);
      }
    }
  }

  /** Loading a list of rows keeps an unaged colony unaged, in place and
      rectangular; it becomes as wide as the widest accepted row (if wider)
      and one row taller per accepted row. */
  lemma {:induction false} LoadRowsShape(c: Colony, more: seq<string>)
    requires c.age == 0 && Rectangular(c)
    ensures var r := LoadRows(c, more);
      && Rectangular(r)
      && r.age == 0 && r.x == c.x && r.y == c.y
      && r.w == Max(c.w, MaxLen(AcceptedRows(more)))
      && r.h == c.h + |AcceptedRows(more)|
    decreases |more|
  {
    if |more| > 0 {
      var c1 := LoadRow(c, more[0]);
      assert Rectangular(c1) && c1.age == 0 && c1.x == c.x && c1.y == c.y;
      LoadRowsShape(c1, more[1..]);
      if Accepts(c, more[0]) {
        assert c1.w == Max(c.w, |more[0]|) && c1.h == c.h + 1;
        assert AcceptedRows(more) == [more[0]] + AcceptedRows(more[1..]);
        assert MaxLen(AcceptedRows(more)) == Max(|more[0]|, MaxLen(AcceptedRows(more[1..])));
      } else {
        assert c1 == c;
        assert AcceptedRows(more) == AcceptedRows(more[1..]);
      }
    }
  }

  /** The start-up sequence: a new space, a colony added to it, then rows of
      different lengths loaded into that colony one by one. The colony ends up
      unaged and in place, as wide as the longest accepted row, one row per
      accepted string, and every row reads back as its string padded with '0'. */
  lemma LoadIntoNewColony(name: string, x: int, y: int, more: seq<string>)
    requires name != ""
    ensures var c := AddColony(NewSpace(name).value, x, y).colonies[0];
      var r := LoadRows(c, more);
      && Rectangular(r)
      && r.age == 0 && r.x == x && r.y == y
      && r.w == MaxLen(AcceptedRows(more))
      && r.h == |AcceptedRows(more)|
      && Holds(r, AcceptedRows(more))
  {
    var c := AddColony(NewSpace(name).value, x, y).colonies[0];
    assert c == Colony(0, x, y, 0, 0, []);
    LoadRowsShape(c, more);
    LoadRowsHolds(c, [], more);
    assert [] + AcceptedRows(more) == AcceptedRows(more);
  }

  // ---------------------------------------------------------------------------
  // Text display
  // ---------------------------------------------------------------------------

  /** The character a cell is shown as: blank when empty, its age as a digit
      up to 9, and '0' from age 10 on. */
  function DisplayChar(age: nat): (ch: char)
    ensures ch == ' ' <==> age == 0
    ensures 0 < age < 10 ==> ch as int - '0' as int == age
    ensures age >= 10 ==> ch == '0'
  {
    if age == 0 then ' '
    else if age < 10 then ('0' as int + age) as char
    else '0'
  }

  /** One printed line of the colony map: one character per cell, blank
      exactly where the cell is empty and a digit wherever it is alive. */
  function DisplayRow(row: seq<Cell>): (r: string)
    ensures |r| == |row|
    ensures forall k :: 0 <= k < |row| ==> (r[k] == ' ' <==> row[k].age == 0)
    ensures forall k :: 0 <= k < |row| && row[k].age > 0 ==> '0' <= r[k] <= '9'
    ensures forall k :: 0 <= k < |row| && 0 < row[k].age < 10 ==> r[k] as int - '0' as int == row[k].age
    ensures forall k :: 0 <= k < |row| && row[k].age >= 10 ==> r[k] == '0'
  {
    seq(|row|, k requires 0 <= k < |row| => DisplayChar(row[k].age))
  }

  /** A freshly loaded row prints as its row string with every '0' blanked. */
  lemma DisplayLoadedRow(c: Colony, row: string)
    requires Accepts(c, row)
    ensures var line := DisplayRow(LoadRow(c, row).rows[|c.rows|]);
      forall k :: 0 <= k < |line| ==>
        line[k] == (if k < |row| && row[k] == '1' then '1' else ' ')
  {
  }
}
