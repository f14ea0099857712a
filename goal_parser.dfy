/**
 * The goal-map parser of challenge2_goal_parser.py: a grid of labels becomes
 * the list of object records to create, in row-major scan order.
 */
module GoalParser {
  import opened Wrappers

  /**
   * One parsed object: the dictionary {row, column, type, color?, direction?}.
   * A line of the creation log holds the same dictionary.
   */
  datatype Record = Record(row: int, column: int, kind: string, color: Option<string>, direction: Option<string>)

  /** A cell of the goal grid: a text, or JSON null. */
  type Cell = Option<string>

  /** The rows of the goal grid; rows need not have the same length. */
  type Grid = seq<seq<Cell>>

  /** The goal-map dictionary; `goal` is None when the key is missing. */
  datatype GoalMap = GoalMap(goal: Option<Grid>)

  const Colors: seq<string> := ["blue", "red", "purple", "white"]
  const Directions: seq<string> := ["up", "down", "left", "right"]

  /** `goal_map.get("goal", [])`. */
  function Rows(goalMap: GoalMap): Grid
  {
    match goalMap.goal
    case Some(grid) => grid
    case None => []
  }

  /** Python's `s.endswith(suffix)`. */
  predicate EndsWith(s: string, suffix: string)
  {
    |suffix| <= |s| && s[|s| - |suffix|..] == suffix
  }

  /** `s.endswith(suffix)` holds exactly when `s` is some string followed by `suffix`. */
  lemma EndsWithSplit(s: string, suffix: string)
    ensures EndsWith(s, suffix) <==> exists p :: s == p + suffix
  {
    if EndsWith(s, suffix) {
      assert s == s[..|s| - |suffix|] + suffix;
    }
    if exists p :: s == p + suffix {
      var p :| s == p + suffix;
      assert s[|s| - |suffix|..] == suffix;
    }
  }

  function LowerChar(ch: char): char
  {
    if 'A' <= ch <= 'Z' then (ch as int - 'A' as int + 'a' as int) as char else ch
  }

  /**
   * Python's `s.lower()`, on ASCII letters: the length is kept, each capital
   * becomes the letter 32 code points higher, every other character is kept,
   * and no capital remains.
   */
  function Lower(s: string): (r: string)
    ensures |r| == |s|
    ensures forall i :: 0 <= i < |s| && 'A' <= s[i] <= 'Z' ==> r[i] as int == s[i] as int + 32
    ensures forall i :: 0 <= i < |s| && !('A' <= s[i] <= 'Z') ==> r[i] == s[i]
    ensures forall i :: 0 <= i < |r| ==> !('A' <= r[i] <= 'Z')
  {
    seq(|s|, i requires 0 <= i < |s| => LowerChar(s[i]))
  }

  /** Lower-casing twice is lower-casing once. */
  lemma LowerIdempotent(s: string)
    ensures Lower(Lower(s)) == Lower(s)
  {
  }

  /** `s.split("_")[0]`: the longest prefix of `s` without an underscore. */
  function FirstSegment(s: string): (p: string)
    ensures p <= s && '_' !in p
    ensures |p| < |s| ==> s[|p|] == '_'
  {
    if s == [] || s[0] == '_' then [] else [s[0]] + FirstSegment(s[1..])
  }

  /** The first segment is the only underscore-free prefix that an underscore follows. */
  lemma FirstSegmentUnique(s: string, p: string)
    requires p + "_" <= s && '_' !in p
    ensures FirstSegment(s) == p
  {
    var q := FirstSegment(s);
    assert forall i :: 0 <= i < |p| ==> s[i] == p[i];
    assert s[|p|] == '_';
    assert |q| == |p|;
    assert q == s[..|q|] && p == s[..|p|];
  }

  /** A record whose fields match its type, as the parser produces them. */
  predicate WellFormed(r: Record)
  {
    || (r.kind == "POLYANET" && r.color.None? && r.direction.None?)
    || (r.kind == "SOLOON" && r.color.Some? && r.color.value in Colors && r.direction.None?)
    || (r.kind == "COMETH" && r.direction.Some? && r.direction.value in Directions && r.color.None?)
  }

  /** What one cell contributes to the result: the body of the inner loop. */
  function ParseCell(row: int, column: int, cell: Cell): Option<Record>
  {
    match cell
    case None => None
    case Some(text) =>
      if text == "SPACE" then None
      else if text == "POLYANET" then Some(Record(row, column, "POLYANET", None, None))
      else if EndsWith(text, "_SOLOON") then
        var color := Lower(FirstSegment(text));
        if color in Colors then Some(Record(row, column, "SOLOON", Some(color), None)) else None
      else if EndsWith(text, "_COMETH") then
        var direction := Lower(FirstSegment(text));
        if direction in Directions then Some(Record(row, column, "COMETH", None, Some(direction))) else None
      else None
  }

  function OptionToSeq(o: Option<Record>): seq<Record>
  {
    match o
    case Some(r) => [r]
    case None => []
  }

  /** The records of row `row`, for its cells in column order. */
  function ParseRow(row: int, cells: seq<Cell>): seq<Record>
  {
    if cells == [] then []
    else ParseRow(row, cells[..|cells| - 1]) + OptionToSeq(ParseCell(row, |cells| - 1, cells[|cells| - 1]))
  }

  /** The records of a grid, row after row. */
  function ParseRows(grid: Grid): seq<Record>
  {
    if grid == [] then []
    else ParseRows(grid[..|grid| - 1]) + ParseRow(|grid| - 1, grid[|grid| - 1])
  }

  /** The result `parse_goal_map` promises for a goal map. */
  function ParseGoal(goalMap: GoalMap): seq<Record>
  {
    ParseRows(Rows(goalMap))
  }

  /** `parse_goal_map`: the nested scan of the grid, row by row. */
  method ParseGoalMap(goalMap: GoalMap) returns (objects: seq<Record>)
    ensures objects == ParseGoal(goalMap)
  {
    var grid := Rows(goalMap);
    objects := [];
    var rowIdx := 0;
    while rowIdx < |grid|
      invariant 0 <= rowIdx <= |grid|
      invariant objects == ParseRows(grid[..rowIdx])
    {
      assert grid[..rowIdx + 1][..rowIdx] == grid[..rowIdx];
      var rowObjects := ParseRowCells(rowIdx, grid[rowIdx]);
      objects := objects + rowObjects;
      rowIdx := rowIdx + 1;
    }
    assert grid[..rowIdx] == grid;
  }

  /** The inner loop of `parse_goal_map`: the records of one row, cell by cell. */
  method ParseRowCells(rowIdx: int, row: seq<Cell>) returns (objects: seq<Record>)
    ensures objects == ParseRow(rowIdx, row)
  {
    objects := [];
    var colIdx := 0;
    while colIdx < |row|
      invariant 0 <= colIdx <= |row|
      invariant objects == ParseRow(rowIdx, row[..colIdx])
    {
      objects := AppendCell(rowIdx, colIdx, row[colIdx], objects);
      ParseRowSnoc(rowIdx, row, colIdx);
      colIdx := colIdx + 1;
    }
    assert row[..colIdx] == row;
  }

  /** The body of the inner loop: append the record that the cell at (`rowIdx`, `colIdx`) describes, if any. */
  method AppendCell(rowIdx: int, colIdx: int, cell: Cell, objects0: seq<Record>) returns (objects: seq<Record>)
    ensures objects == objects0 + OptionToSeq(ParseCell(rowIdx, colIdx, cell))
  {
    objects := objects0;
    if cell.Some? && cell.value != "SPACE" {
      var text := cell.value;
      if text == "POLYANET" {
        objects := objects + [Record(rowIdx, colIdx, "POLYANET", None, None)];
      } else if EndsWith(text, "_SOLOON") {
        var color := Lower(FirstSegment(text));
        if color in Colors {
          objects := objects + [Record(rowIdx, colIdx, "SOLOON", Some(color), None)];
        }
      } else if EndsWith(text, "_COMETH") {
        var direction := Lower(FirstSegment(text));
        if direction in Directions {
          objects := objects + [Record(rowIdx, colIdx, "COMETH", None, Some(direction))];
        }
      }
    }
  }

  /** The records of the first `j + 1` cells are those of the first `j` and then cell `j`'s. */
  lemma ParseRowSnoc(row: int, cells: seq<Cell>, j: nat)
    requires j < |cells|
    ensures ParseRow(row, cells[..j + 1]) == ParseRow(row, cells[..j]) + OptionToSeq(ParseCell(row, j, cells[j]))
  {
    assert cells[..j + 1][..j] == cells[..j];
    assert cells[..j + 1][j] == cells[j];
  }

  // ----- Labels -----

  /**
   * Null and SPACE cells yield nothing; a record that a cell yields carries the
   * cell's row and column and fields that match its type.
   */
  lemma ParseCellShape(row: int, column: int, cell: Cell)
    ensures cell.None? || cell == Some("SPACE") ==> ParseCell(row, column, cell).None?
    ensures ParseCell(row, column, cell).Some? ==>
      var r := ParseCell(row, column, cell).value;
      r.row == row && r.column == column && WellFormed(r)
  {
  }

  /**
   * A cell yields a basic POLYANET record, with neither color nor direction,
   * exactly when its text is POLYANET.
   */
  lemma PolyanetLabel(row: int, column: int, cell: Cell)
    ensures ParseCell(row, column, cell) == Some(Record(row, column, "POLYANET", None, None)) <==> cell == Some("POLYANET")
  {
  }

  /** A text that is neither POLYANET nor ends in `_SOLOON` or `_COMETH` is dropped. */
  lemma OtherLabelDropped(row: int, column: int, text: string)
    requires text != "POLYANET" && !EndsWith(text, "_SOLOON") && !EndsWith(text, "_COMETH")
    ensures ParseCell(row, column, Some(text)) == None
  {
  }

  /**
   * A text yields a SOLOON of color `color` exactly when it ends in `_SOLOON`,
   * `color` is one of the four colors, and its first `_`-separated segment
   * lower-cases to `color`.
   */
  lemma SoloonLabel(row: int, column: int, text: string, color: string)
    ensures ParseCell(row, column, Some(text)) == Some(Record(row, column, "SOLOON", Some(color), None))
      <==> EndsWith(text, "_SOLOON") && color in Colors
           && exists p :: p + "_" <= text && '_' !in p && Lower(p) == color
  {
    if EndsWith(text, "_SOLOON") {
      assert text != "SPACE" && text != "POLYANET";
      var p := FirstSegment(text);
      UnderscoreIsFollowed(text, "_SOLOON");
      assert p + "_" <= text;
      if exists p' :: p' + "_" <= text && '_' !in p' && Lower(p') == color {
        var p' :| p' + "_" <= text && '_' !in p' && Lower(p') == color;
        FirstSegmentUnique(text, p');
      }
    }
  }

  /**
   * A text yields a COMETH of direction `direction` exactly when it ends in
   * `_COMETH`, `direction` is one of the four directions, and its first
   * `_`-separated segment lower-cases to `direction`.
   */
  lemma ComethLabel(row: int, column: int, text: string, direction: string)
    ensures ParseCell(row, column, Some(text)) == Some(Record(row, column, "COMETH", None, Some(direction)))
      <==> EndsWith(text, "_COMETH") && direction in Directions
           && exists p :: p + "_" <= text && '_' !in p && Lower(p) == direction
  {
    if EndsWith(text, "_COMETH") {
      assert text != "SPACE" && text != "POLYANET";
      assert !EndsWith(text, "_SOLOON");
      var p := FirstSegment(text);
      UnderscoreIsFollowed(text, "_COMETH");
      assert p + "_" <= text;
      if exists p' :: p' + "_" <= text && '_' !in p' && Lower(p') == direction {
        var p' :| p' + "_" <= text && '_' !in p' && Lower(p') == direction;
        FirstSegmentUnique(text, p');
      }
    }
  }

  /** A text ending in a suffix that starts with `_` has an underscore after its first segment. */
  lemma UnderscoreIsFollowed(text: string, suffix: string)
    requires EndsWith(text, suffix) && |suffix| > 0 && suffix[0] == '_'
    ensures FirstSegment(text) + "_" <= text
  {
    assert text[|text| - |suffix|] == suffix[0];
    assert '_' in text;
  }

  // ----- The whole grid -----

  predicate Before(a: Record, b: Record)
  {
    a.row < b.row || (a.row == b.row && a.column < b.column)
  }

  /** Every record of a row is in that row and came from the cell at its column. */
  lemma {:induction false} ParseRowSound(row: int, cells: seq<Cell>)
    ensures forall k :: 0 <= k < |ParseRow(row, cells)| ==>
      ParseRow(row, cells)[k].row == row && 0 <= ParseRow(row, cells)[k].column < |cells|
      && ParseCell(row, ParseRow(row, cells)[k].column, cells[ParseRow(row, cells)[k].column]) == Some(ParseRow(row, cells)[k])
    decreases |cells|
  {
    if cells != [] {
      var n := |cells| - 1;
      var init := cells[..n];
      ParseRowSound(row, init);
      var a, b := ParseRow(row, init), OptionToSeq(ParseCell(row, n, cells[n]));
      var out: seq<Record> := a + b;
      assert ParseRow(row, cells) == out;
      forall k | 0 <= k < |out|
        ensures out[k].row == row && 0 <= out[k].column < |cells|
          && ParseCell(row, out[k].column, cells[out[k].column]) == Some(out[k])
      {
        if k < |a| {
          assert out[k] == a[k];
          assert init[a[k].column] == cells[a[k].column];
        } else {
          assert out[k] == b[0] == ParseCell(row, n, cells[n]).value;
        }
      }
    }
  }

  /** The records of a row come out in strictly increasing column order. */
  lemma {:induction false} ParseRowOrdered(row: int, cells: seq<Cell>)
    ensures forall k1, k2 :: 0 <= k1 < k2 < |ParseRow(row, cells)| ==>
      ParseRow(row, cells)[k1].column < ParseRow(row, cells)[k2].column
    decreases |cells|
  {
    if cells != [] {
      var n := |cells| - 1;
      var init := cells[..n];
      ParseRowOrdered(row, init);
      ParseRowSound(row, init);
      var a, b := ParseRow(row, init), OptionToSeq(ParseCell(row, n, cells[n]));
      var out: seq<Record> := a + b;
      assert ParseRow(row, cells) == out;
      forall k1, k2 | 0 <= k1 < k2 < |out|
        ensures out[k1].column < out[k2].column
      {
        assert out[k1] == a[k1];
        if k2 < |a| {
          assert out[k2] == a[k2];
        } else {
          assert out[k2] == b[0] == ParseCell(row, n, cells[n]).value;
        }
      }
    }
  }

  /** Every cell of a row that denotes an object contributes its record. */
  lemma {:induction false} ParseRowComplete(row: int, cells: seq<Cell>)
    ensures forall j :: 0 <= j < |cells| && ParseCell(row, j, cells[j]).Some? ==>
      ParseCell(row, j, cells[j]).value in ParseRow(row, cells)
    decreases |cells|
  {
    if cells != [] {
      var n := |cells| - 1;
      var init := cells[..n];
      ParseRowComplete(row, init);
      var a, b := ParseRow(row, init), OptionToSeq(ParseCell(row, n, cells[n]));
      assert ParseRow(row, cells) == a + b;
      forall j | 0 <= j < |cells| && ParseCell(row, j, cells[j]).Some?
        ensures ParseCell(row, j, cells[j]).value in a + b
      {
        if j < n {
          assert cells[j] == init[j];
          assert ParseCell(row, j, init[j]).value in a;
        } else {
          assert ParseCell(row, j, cells[j]).value in b;
        }
      }
    }
  }

  /** Every record came from the cell at its own row and column. */
  lemma {:induction false} ParseFromCell(grid: Grid)
    ensures forall k :: 0 <= k < |ParseRows(grid)| ==>
      var r := ParseRows(grid)[k];
      0 <= r.row < |grid| && 0 <= r.column < |grid[r.row]|
      && ParseCell(r.row, r.column, grid[r.row][r.column]) == Some(r)
    decreases |grid|
  {
    if grid != [] {
      var n := |grid| - 1;
      ParseFromCell(grid[..n]);
      ParseRowSound(n, grid[n]);
      var a, b := ParseRows(grid[..n]), ParseRow(n, grid[n]);
      var out: seq<Record> := a + b;
      assert ParseRows(grid) == out;
      forall k | 0 <= k < |out|
        ensures 0 <= out[k].row < |grid| && 0 <= out[k].column < |grid[out[k].row]|
          && ParseCell(out[k].row, out[k].column, grid[out[k].row][out[k].column]) == Some(out[k])
      {
        if k < |a| {
          assert out[k] == a[k];
          assert grid[..n][a[k].row] == grid[a[k].row];
        } else {
          assert out[k] == b[k - |a|];
        }
      }
    }
  }

  /** Records come out in row-major scan order (so no cell yields two records). */
  lemma {:induction false} ParseRowMajor(grid: Grid)
    ensures forall k1, k2 :: 0 <= k1 < k2 < |ParseRows(grid)| ==> Before(ParseRows(grid)[k1], ParseRows(grid)[k2])
    decreases |grid|
  {
    if grid != [] {
      var n := |grid| - 1;
      ParseRowMajor(grid[..n]);
      ParseFromCell(grid[..n]);
      ParseRowSound(n, grid[n]);
      ParseRowOrdered(n, grid[n]);
      var a, b := ParseRows(grid[..n]), ParseRow(n, grid[n]);
      var out: seq<Record> := a + b;
      assert ParseRows(grid) == out;
      forall k1, k2 | 0 <= k1 < k2 < |out|
        ensures Before(out[k1], out[k2])
      {
        if k2 < |a| {
          assert out[k1] == a[k1] && out[k2] == a[k2];
        } else if k1 < |a| {
          assert a[k1].row < n && b[k2 - |a|].row == n;
        } else {
          assert out[k1] == b[k1 - |a|] && out[k2] == b[k2 - |a|];
        }
      }
    }
  }

  /** Every cell that denotes an object contributes its record to the result. */
  lemma {:induction false} ParseComplete(grid: Grid)
    ensures forall i, j :: 0 <= i < |grid| && 0 <= j < |grid[i]| && ParseCell(i, j, grid[i][j]).Some? ==>
      ParseCell(i, j, grid[i][j]).value in ParseRows(grid)
    decreases |grid|
  {
    if grid != [] {
      var n := |grid| - 1;
      ParseComplete(grid[..n]);
      ParseRowComplete(n, grid[n]);
      var a, b := ParseRows(grid[..n]), ParseRow(n, grid[n]);
      assert ParseRows(grid) == a + b;
      forall i, j | 0 <= i < |grid| && 0 <= j < |grid[i]| && ParseCell(i, j, grid[i][j]).Some?
        ensures ParseCell(i, j, grid[i][j]).value in a + b
      {
        if i < n {
          assert grid[..n][i] == grid[i];
          assert ParseCell(i, j, grid[i][j]).value in a;
        } else {
          assert ParseCell(i, j, grid[i][j]).value in b;
        }
      }
    }
  }

  /** No record comes from a null cell or a SPACE cell, and every record is well formed. */
  lemma ParseSkipsBlankCells(grid: Grid)
    ensures forall k :: 0 <= k < |ParseRows(grid)| ==>
      var r := ParseRows(grid)[k];
      0 <= r.row < |grid| && 0 <= r.column < |grid[r.row]|
      && grid[r.row][r.column].Some? && grid[r.row][r.column] != Some("SPACE") && WellFormed(r)
  {
    ParseFromCell(grid);
    forall k | 0 <= k < |ParseRows(grid)|
      ensures var r := ParseRows(grid)[k];
        grid[r.row][r.column].Some? && grid[r.row][r.column] != Some("SPACE") && WellFormed(r)
    {
      var r := ParseRows(grid)[k];
      ParseCellShape(r.row, r.column, grid[r.row][r.column]);
    }
  }

  /** The number of cells that are neither null nor SPACE. */
  function LabelledCells(grid: Grid): nat
  {
    if grid == [] then 0 else LabelledCells(grid[..|grid| - 1]) + LabelledInRow(grid[|grid| - 1])
  }

  function LabelledInRow(cells: seq<Cell>): nat
  {
    if cells == [] then 0
    else
      var last := if cells[|cells| - 1].Some? && cells[|cells| - 1] != Some("SPACE") then 1 else 0;
      LabelledInRow(cells[..|cells| - 1]) + last
  }

  function CellCount(grid: Grid): nat
  {
    if grid == [] then 0 else CellCount(grid[..|grid| - 1]) + |grid[|grid| - 1]|
  }

  /** The result is never longer than the number of labelled cells, nor than the number of cells. */
  lemma {:induction false} ParseLengthBound(grid: Grid)
    ensures |ParseRows(grid)| <= LabelledCells(grid) <= CellCount(grid)
    decreases |grid|
  {
    if grid != [] {
      var n := |grid| - 1;
      ParseLengthBound(grid[..n]);
      RowLengthBound(n, grid[n]);
    }
  }

  lemma {:induction false} RowLengthBound(row: int, cells: seq<Cell>)
    ensures |ParseRow(row, cells)| <= LabelledInRow(cells) <= |cells|
    decreases |cells|
  {
    if cells != [] {
      RowLengthBound(row, cells[..|cells| - 1]);
    }
  }

  /** A goal map with an empty grid, or without a `goal` key, yields no records. */
  lemma EmptyGoal()
    ensures ParseGoal(GoalMap(Some([]))) == []
    ensures ParseGoal(GoalMap(None)) == []
  {
  }

  // ----- The sample grids of the test suite -----

  /** A row of three cells, cell by cell. */
  lemma ParseRowOfThree(row: int, a: Cell, b: Cell, c: Cell)
    ensures ParseRow(row, [a, b, c])
         == OptionToSeq(ParseCell(row, 0, a)) + OptionToSeq(ParseCell(row, 1, b)) + OptionToSeq(ParseCell(row, 2, c))
  {
    var cells := [a, b, c];
    ParseRowSnoc(row, cells, 0);
    ParseRowSnoc(row, cells, 1);
    ParseRowSnoc(row, cells, 2);
    assert cells[..0] == [] && cells[..3] == cells;
  }

  /** A grid of three rows, row by row. */
  lemma ParseRowsOfThree(r0: seq<Cell>, r1: seq<Cell>, r2: seq<Cell>)
    ensures ParseRows([r0, r1, r2]) == ParseRow(0, r0) + ParseRow(1, r1) + ParseRow(2, r2)
  {
    assert [r0, r1, r2][..2] == [r0, r1];
    assert [r0, r1][..1] == [r0];
    assert [r0][..0] == [];
    assert ParseRows([r0]) == ParseRow(0, r0);
    assert ParseRows([r0, r1]) == ParseRow(0, r0) + ParseRow(1, r1);
  }

  /** A label `p + suffix` whose `p` has no underscore ends in `suffix`, has first segment `p`, and is neither SPACE nor POLYANET. */
  lemma SuffixedLabel(p: string, suffix: string)
    requires '_' !in p && |suffix| > 0 && suffix[0] == '_'
    ensures EndsWith(p + suffix, suffix) && FirstSegment(p + suffix) == p
    ensures p + suffix != "SPACE" && p + suffix != "POLYANET"
  {
    var text := p + suffix;
    assert text[|p|..] == suffix;
    FirstSegmentUnique(text, p);
    assert text[|p|] == '_';
    assert '_' !in "SPACE" && '_' !in "POLYANET";
  }

  /** `<p>_SOLOON` yields a SOLOON of color `p.lower()` when that is one of the colors, and nothing otherwise. */
  lemma SoloonCell(row: int, column: int, p: string)
    requires '_' !in p
    ensures ParseCell(row, column, Some(p + "_SOLOON"))
      == if Lower(p) in Colors then Some(Record(row, column, "SOLOON", Some(Lower(p)), None)) else None
  {
    SuffixedLabel(p, "_SOLOON");
  }

  /** `<p>_COMETH` yields a COMETH of direction `p.lower()` when that is one of the directions, and nothing otherwise. */
  lemma ComethCell(row: int, column: int, p: string)
    requires '_' !in p
    ensures ParseCell(row, column, Some(p + "_COMETH"))
      == if Lower(p) in Directions then Some(Record(row, column, "COMETH", None, Some(Lower(p)))) else None
  {
    SuffixedLabel(p, "_COMETH");
    var text := p + "_COMETH";
    assert text[|text| - 7..] == "_COMETH";
    assert !EndsWith(text, "_SOLOON");
  }

  /** `Lower(s) == t` when each character of `s` lower-cases to the one of `t` at its index. */
  lemma LowerLetters(s: string, t: string)
    requires |s| == |t| && forall i :: 0 <= i < |s| ==> LowerChar(s[i]) == t[i]
    ensures Lower(s) == t
  {
  }

  // The labels of the sample grids, split into prefix and suffix, one fact per lemma.

  lemma RedLabel()
    ensures "RED_SOLOON" == "RED" + "_SOLOON" && '_' !in "RED"
  {
  }

  lemma RedColor()
    ensures Lower("RED") == "red" && "red" in Colors
  {
    LowerLetters("RED", "red");
    assert Colors[1] == "red";
  }

  lemma UpLabel()
    ensures "UP_COMETH" == "UP" + "_COMETH" && '_' !in "UP"
  {
  }

  lemma UpDirection()
    ensures Lower("UP") == "up" && "up" in Directions
  {
    LowerLetters("UP", "up");
    assert Directions[0] == "up";
  }

  lemma UnknownLabel()
    ensures "UNKNOWN_SOLOON" == "UNKNOWN" + "_SOLOON" && '_' !in "UNKNOWN"
  {
  }

  lemma UnknownColor()
    ensures Lower("UNKNOWN") == "unknown" && "unknown" !in Colors
  {
    LowerLetters("UNKNOWN", "unknown");
  }

  lemma WrongLabel()
    ensures "WRONG_COMETH" == "WRONG" + "_COMETH" && '_' !in "WRONG"
  {
  }

  lemma WrongDirection()
    ensures Lower("WRONG") == "wrong" && "wrong" !in Directions
  {
    LowerLetters("WRONG", "wrong");
    assert "wrong"[0] != "right"[0];
  }

  lemma RedSoloonCell()
    ensures ParseCell(1, 0, Some("RED_SOLOON")) == Some(Record(1, 0, "SOLOON", Some("red"), None))
  {
    RedLabel();
    RedColor();
    SoloonCell(1, 0, "RED");
  }

  lemma UpComethCell()
    ensures ParseCell(1, 2, Some("UP_COMETH")) == Some(Record(1, 2, "COMETH", None, Some("up")))
  {
    UpLabel();
    UpDirection();
    ComethCell(1, 2, "UP");
  }

  lemma UnknownSoloonCell()
    ensures ParseCell(1, 0, Some("UNKNOWN_SOLOON")) == None
  {
    UnknownLabel();
    UnknownColor();
    SoloonCell(1, 0, "UNKNOWN");
  }

  lemma WrongComethCell()
    ensures ParseCell(1, 2, Some("WRONG_COMETH")) == None
  {
    WrongLabel();
    WrongDirection();
    ComethCell(1, 2, "WRONG");
  }

  lemma InvalidObjectEnding()
    ensures !EndsWith("INVALID_OBJECT", "_SOLOON") && !EndsWith("INVALID_OBJECT", "_COMETH")
  {
    assert "INVALID_OBJECT"[8] != "_SOLOON"[1] && "INVALID_OBJECT"[8] != "_COMETH"[1];
  }

  lemma InvalidObjectCell()
    ensures ParseCell(0, 1, Some("INVALID_OBJECT")) == None
  {
    InvalidObjectEnding();
  }

  lemma SampleRow0()
    ensures ParseRow(0, [None, Some("POLYANET"), None]) == [Record(0, 1, "POLYANET", None, None)]
  {
    ParseRowOfThree(0, None, Some("POLYANET"), None);
    PolyanetLabel(0, 1, Some("POLYANET"));
  }

  lemma SampleRow1()
    ensures ParseRow(1, [Some("RED_SOLOON"), None, Some("UP_COMETH")])
         == [Record(1, 0, "SOLOON", Some("red"), None), Record(1, 2, "COMETH", None, Some("up"))]
  {
    ParseRowOfThree(1, Some("RED_SOLOON"), None, Some("UP_COMETH"));
    RedSoloonCell();
    UpComethCell();
  }

  lemma SampleRow2()
    ensures ParseRow(2, [None, None, None]) == []
  {
    ParseRowOfThree(2, None, None, None);
  }

  /** The 3x3 sample: POLYANET at (0,1), a red SOLOON at (1,0) and an up COMETH at (1,2), in that order. */
  lemma SampleGoal()
    ensures ParseGoal(GoalMap(Some([
              [None, Some("POLYANET"), None],
              [Some("RED_SOLOON"), None, Some("UP_COMETH")],
              [None, None, None]])))
         == [Record(0, 1, "POLYANET", None, None),
             Record(1, 0, "SOLOON", Some("red"), None),
             Record(1, 2, "COMETH", None, Some("up"))]
  {
    ParseRowsOfThree([None, Some("POLYANET"), None], [Some("RED_SOLOON"), None, Some("UP_COMETH")], [None, None, None]);
    SampleRow0();
    SampleRow1();
    SampleRow2();
  }

  lemma InvalidRow0()
    ensures ParseRow(0, [Some("SPACE"), Some("INVALID_OBJECT"), Some("SPACE")]) == []
  {
    ParseRowOfThree(0, Some("SPACE"), Some("INVALID_OBJECT"), Some("SPACE"));
    InvalidObjectCell();
  }

  lemma InvalidRow1()
    ensures ParseRow(1, [Some("UNKNOWN_SOLOON"), Some("SPACE"), Some("WRONG_COMETH")]) == []
  {
    ParseRowOfThree(1, Some("UNKNOWN_SOLOON"), Some("SPACE"), Some("WRONG_COMETH"));
    UnknownSoloonCell();
    WrongComethCell();
  }

  lemma InvalidRow2()
    ensures ParseRow(2, [Some("SPACE"), Some("SPACE"), Some("SPACE")]) == []
  {
    ParseRowOfThree(2, Some("SPACE"), Some("SPACE"), Some("SPACE"));
  }

  /** Unrecognised labels and labels with an unknown color or direction yield nothing. */
  lemma InvalidLabels()
    ensures ParseGoal(GoalMap(Some([
              [Some("SPACE"), Some("INVALID_OBJECT"), Some("SPACE")],
              [Some("UNKNOWN_SOLOON"), Some("SPACE"), Some("WRONG_COMETH")],
              [Some("SPACE"), Some("SPACE"), Some("SPACE")]]))) == []
  {
    ParseRowsOfThree([Some("SPACE"), Some("INVALID_OBJECT"), Some("SPACE")],
                     [Some("UNKNOWN_SOLOON"), Some("SPACE"), Some("WRONG_COMETH")],
                     [Some("SPACE"), Some("SPACE"), Some("SPACE")]);
    InvalidRow0();
    InvalidRow1();
    InvalidRow2();
  }
}
