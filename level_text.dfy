/**
 * The pure half of level loading: the level file is cut into lines at every
 * newline, the lines are read bottom-up so that the last line is row 0, and
 * every character becomes either nothing (a space), a placement of its tile
 * kind at the centre of its 64 x 64 cell, or a fatal unknown-letter error.
 */
module LevelText {
  import opened Wrappers
  import opened NodeTypes

  const CellWidth: int := 64
  const CellHeight: int := 64

  datatype Point = Point(x: int, y: int)

  /** One character of the grid with its row (counted from the bottom) and column. */
  datatype Cell = Cell(row: nat, column: nat, letter: char)

  /** A tile the level asks for: its kind and the world position of its centre. */
  datatype Placement = Placement(kind: NodeType, position: Point)

  // ---------------------------------------------------------------------------
  // Cutting the text into lines
  // ---------------------------------------------------------------------------

  /** Cuts `s` at every newline, keeping empty pieces (so "" gives one empty line). */
  function Split(s: string): (lines: seq<string>)
    ensures |lines| >= 1
    ensures forall i :: 0 <= i < |lines| ==> '\n' !in lines[i]
  {
    if |s| == 0 then [""]
    else
      var rest := Split(s[1..]);
      if s[0] == '\n' then [""] + rest
      else [[s[0]] + rest[0]] + rest[1..]
  }

  /** Glues lines back together with a newline between neighbours. */
  function Join(lines: seq<string>): (s: string)
    requires |lines| >= 1
  {
    if |lines| == 1 then lines[0] else lines[0] + "\n" + Join(lines[1..])
  }

  /** Splitting loses nothing: the lines joined again give back the text. */
  lemma {:induction false} JoinSplit(s: string)
    ensures Join(Split(s)) == s
  {
    if |s| > 0 {
      var rest := Split(s[1..]);
      JoinSplit(s[1..]);
      if s[0] == '\n' {
        assert Split(s) == [""] + rest;
        assert (([""] + rest)[1..]) == rest;
      } else {
        var lines := Split(s);
        assert lines[0] == [s[0]] + rest[0];
        if |rest| == 1 {
          assert |lines| == 1;
        } else {
          assert lines[1..] == rest[1..];
          assert Join(rest) == rest[0] + "\n" + Join(rest[1..]);
          assert Join(lines) == ([s[0]] + rest[0]) + "\n" + Join(rest[1..]);
          assert s == [s[0]] + s[1..];
        }
      }
    }
  }

  /** A newline-free prefix stays glued to the first line of whatever follows it. */
  lemma {:induction false} SplitPrefix(a: string, rest: string)
    requires '\n' !in a
    ensures Split(a + rest) == [a + Split(rest)[0]] + Split(rest)[1..]
  {
    if |a| > 0 {
      SplitPrefix(a[1..], rest);
      var lines := Split(rest);
      var r := Split(a[1..] + rest);
      assert (a + rest)[0] == a[0] && a[0] != '\n';
      assert (a + rest)[1..] == a[1..] + rest;
      assert Split(a + rest) == [[a[0]] + r[0]] + r[1..];
      assert r[0] == a[1..] + lines[0] && r[1..] == lines[1..];
      assert [a[0]] + (a[1..] + lines[0]) == a + lines[0];
    } else {
      var lines := Split(rest);
      assert a + rest == rest;
      assert a + lines[0] == lines[0];
      assert lines == [lines[0]] + lines[1..];
    }
  }

  /** Joining newline-free lines and cutting again gives back the same lines. */
  lemma {:induction false} SplitJoin(lines: seq<string>)
    requires |lines| >= 1
    requires forall i :: 0 <= i < |lines| ==> '\n' !in lines[i]
    ensures Split(Join(lines)) == lines
  {
    if |lines| == 1 {
      SplitPrefix(lines[0], "");
      assert lines[0] + "" == lines[0];
    } else {
      var tail := Join(lines[1..]);
      SplitJoin(lines[1..]);
      SplitPrefix(lines[0], "\n" + tail);
      assert ("\n" + tail)[1..] == tail;
      assert Split("\n" + tail) == [""] + Split(tail);
      assert Split("\n" + tail)[0] == "" && Split("\n" + tail)[1..] == lines[1..];
      assert lines[0] + "" == lines[0];
      assert lines[0] + "\n" + tail == lines[0] + ("\n" + tail);
      assert lines == [lines[0]] + lines[1..];
    }
  }

  /** A trailing newline adds exactly one empty last line and changes no other line. */
  lemma {:induction false} SplitTrailingNewline(s: string)
    ensures Split(s + "\n") == Split(s) + [""]
  {
    if |s| == 0 {
      assert s + "\n" == "\n";
      assert Split("\n") == [""] + Split("");
    } else {
      SplitTrailingNewline(s[1..]);
      assert (s + "\n")[1..] == s[1..] + "\n";
      var rest := Split(s[1..]);
      if s[0] != '\n' {
        assert (rest + [""])[0] == rest[0];
        assert (rest + [""])[1..] == rest[1..] + [""];
      }
    }
  }

  /** A character on one of the lines comes from the text. */
  lemma {:induction false} LineLetterInText(s: string, i: int, ch: char)
    ensures 0 <= i < |Split(s)| && ch in Split(s)[i] ==> ch in s
  {
    if |s| > 0 {
      var lines, rest := Split(s), Split(s[1..]);
      if s[0] == '\n' {
        assert lines == [""] + rest;
        LineLetterInText(s[1..], i - 1, ch);
      } else {
        assert lines == [[s[0]] + rest[0]] + rest[1..];
        LineLetterInText(s[1..], i, ch);
        if 0 < i < |lines| {
          assert lines[i] == rest[i];
        }
      }
      assert s == [s[0]] + s[1..];
    }
  }

  /** A character of the text other than a newline lands on one of the lines. */
  lemma {:induction false} TextLetterOnLine(s: string, ch: char)
    ensures ch in s && ch != '\n' ==> exists i :: 0 <= i < |Split(s)| && ch in Split(s)[i]
  {
    if |s| > 0 && ch in s && ch != '\n' {
      var lines, rest := Split(s), Split(s[1..]);
      if ch == s[0] {
        assert lines[0] == [s[0]] + rest[0];
        assert ch in lines[0];
      } else {
        assert ch in s[1..];
        TextLetterOnLine(s[1..], ch);
        var j :| 0 <= j < |rest| && ch in rest[j];
        if s[0] == '\n' {
          assert lines == [""] + rest;
          assert ch in lines[j + 1];
        } else {
          assert lines == [[s[0]] + rest[0]] + rest[1..];
          if j == 0 {
            assert ch in lines[0];
          } else {
            assert lines[j] == rest[j];
            assert ch in lines[j];
          }
        }
      }
    }
  }

  /** The letters on the lines are exactly the text's letters other than the newline. */
  lemma SplitLetters(s: string, ch: char)
    ensures (exists i :: 0 <= i < |Split(s)| && ch in Split(s)[i]) <==> ch in s && ch != '\n'
  {
    var lines := Split(s);
    if exists i :: 0 <= i < |lines| && ch in lines[i] {
      var i :| 0 <= i < |lines| && ch in lines[i];
      LineLetterInText(s, i, ch);
      assert '\n' !in lines[i];
    }
    TextLetterOnLine(s, ch);
  }

  // ---------------------------------------------------------------------------
  // Grid geometry
  // ---------------------------------------------------------------------------

  /** Lines in reverse order: the last line of the file becomes row 0. */
  function Reverse<T>(s: seq<T>): seq<T> {
    seq(|s|, i requires 0 <= i < |s| => s[|s| - 1 - i])
  }

  /** The rows of a level, bottom row first. */
  function Rows(text: string): (rows: seq<string>)
    ensures |rows| == |Split(text)|
  {
    Reverse(Split(text))
  }

  /** The world position of cell (row, column): the centre of its 64 x 64 square. */
  function CellPosition(row: nat, column: nat): Point {
    Point(CellWidth * column + CellWidth / 2, CellHeight * row + CellHeight / 2)
  }

  /** The point lies in cell (row, column), exactly at its centre: the cell can be read back from it. */
  lemma CellPositionCentre(row: nat, column: nat)
    ensures CellPosition(row, column).x / CellWidth == column
    ensures CellPosition(row, column).x % CellWidth == CellWidth / 2
    ensures CellPosition(row, column).y / CellHeight == row
    ensures CellPosition(row, column).y % CellHeight == CellHeight / 2
  {
  }

  /** Different cells have different centres. */
  lemma CellPositionInjective(r1: nat, c1: nat, r2: nat, c2: nat)
    requires CellPosition(r1, c1) == CellPosition(r2, c2)
    ensures r1 == r2 && c1 == c2
  {
    CellPositionCentre(r1, c1);
    CellPositionCentre(r2, c2);
  }

  /** The cells of one row, left to right. */
  function RowCells(row: nat, line: string): seq<Cell> {
    seq(|line|, c requires 0 <= c < |line| => Cell(row, c, line[c]))
  }

  /** All cells of the grid in scan order: row 0 first, each row left to right. */
  function GridCells(rows: seq<string>): seq<Cell> {
    if rows == [] then []
    else GridCells(rows[..|rows| - 1]) + RowCells(|rows| - 1, rows[|rows| - 1])
  }

  /** A cell is scanned exactly when it names a position of the grid and carries that position's letter. */
  lemma {:induction false} GridCellsMembers(rows: seq<string>, cell: Cell)
    ensures cell in GridCells(rows) <==>
      cell.row < |rows| && cell.column < |rows[cell.row]| && cell.letter == rows[cell.row][cell.column]
  {
    if rows != [] {
      var n := |rows| - 1;
      GridCellsMembers(rows[..n], cell);
      var last := RowCells(n, rows[n]);
      assert cell in GridCells(rows) <==> cell in GridCells(rows[..n]) || cell in last;
      if cell in last {
        var c :| 0 <= c < |last| && last[c] == cell;
      }
      if cell.row == n && cell.column < |rows[n]| && cell.letter == rows[n][cell.column] {
        assert last[cell.column] == cell;
      }
    }
  }

  /** The cells of a level file in scan order. */
  function LevelCells(text: string): seq<Cell> {
    GridCells(Rows(text))
  }

  /** Column c of line i (counting lines from the top of the file) is scanned as cell (|lines|-1-i, c). */
  lemma LineCellScanned(text: string, i: nat, c: nat)
    requires i < |Split(text)| && c < |Split(text)[i]|
    ensures Cell(|Split(text)| - 1 - i, c, Split(text)[i][c]) in LevelCells(text)
  {
    var lines, rows := Split(text), Rows(text);
    var row := |lines| - 1 - i;
    assert rows[row] == lines[i];
    GridCellsMembers(rows, Cell(row, c, lines[i][c]));
  }

  /** Every scanned cell is a character of the file's lines, row r coming from line |lines|-1-r. */
  lemma ScannedCellOrigin(text: string, cell: Cell)
    requires cell in LevelCells(text)
    ensures cell.row < |Split(text)|
    ensures cell.column < |Split(text)[|Split(text)| - 1 - cell.row]|
    ensures cell.letter == Split(text)[|Split(text)| - 1 - cell.row][cell.column]
  {
    GridCellsMembers(Rows(text), cell);
    assert Rows(text)[cell.row] == Split(text)[|Split(text)| - 1 - cell.row];
  }

  // ---------------------------------------------------------------------------
  // Classifying the cells
  // ---------------------------------------------------------------------------

  /** Number of cells that are not spaces. */
  function SolidCells(cells: seq<Cell>): nat {
    if cells == [] then 0
    else SolidCells(cells[..|cells| - 1]) + (if cells[|cells| - 1].letter == ' ' then 0 else 1)
  }

  /** What one known cell contributes: nothing for a space, else its placement. */
  function PlaceCell(kind: NodeType, cell: Cell): seq<Placement> {
    if kind == Space then [] else [Placement(kind, CellPosition(cell.row, cell.column))]
  }

  /**
   * Classifies the cells in scan order. The first unknown letter aborts the
   * whole level (there is no partial result); spaces place nothing.
   */
  function Place(cells: seq<Cell>): Result<seq<Placement>, char> {
    if cells == [] then Ok([])
    else
      var n := |cells| - 1;
      match Place(cells[..n])
      case Err(e) => Err(e)
      case Ok(ps) =>
        match FromChar(cells[n].letter)
        case None => Err(cells[n].letter)
        case Some(k) => Ok(ps + PlaceCell(k, cells[n]))
  }

  /**
   * The scan succeeds exactly when every letter is a tile symbol; a failure
   * names a letter of the scan that is not one; a success places one tile per
   * non-space cell and never places a space.
   */
  lemma {:induction false} PlaceOutcome(cells: seq<Cell>)
    ensures Place(cells).Ok? <==> forall i :: 0 <= i < |cells| ==> IsTileSymbol(cells[i].letter)
    ensures Place(cells).Err? ==>
      !IsTileSymbol(Place(cells).error) && exists i :: 0 <= i < |cells| && cells[i].letter == Place(cells).error
    ensures Place(cells).Ok? ==> |Place(cells).value| == SolidCells(cells)
    ensures Place(cells).Ok? ==> forall j :: 0 <= j < |Place(cells).value| ==> Place(cells).value[j].kind != Space
  {
    if cells != [] {
      var n := |cells| - 1;
      PlaceOutcome(cells[..n]);
      assert forall i :: 0 <= i < n ==> cells[..n][i] == cells[i];
      if Place(cells[..n]).Err? {
        var i :| 0 <= i < n && cells[..n][i].letter == Place(cells[..n]).error;
        assert cells[i].letter == Place(cells).error;
      }
    }
  }

  /** Every placement comes from a non-space cell of its kind, and every non-space cell yields one. */
  lemma {:induction false} PlaceMembers(cells: seq<Cell>, p: Placement)
    requires Place(cells).Ok?
    ensures p in Place(cells).value <==>
      exists i :: 0 <= i < |cells| && cells[i].letter != ' ' && FromChar(cells[i].letter).Some?
        && p == Placement(FromChar(cells[i].letter).value, CellPosition(cells[i].row, cells[i].column))
  {
    PlaceOutcome(cells);
    if cells != [] {
      var n := |cells| - 1;
      PlaceMembers(cells[..n], p);
      var ps := Place(cells[..n]).value;
      var k := FromChar(cells[n].letter).value;
      assert Place(cells).value == ps + PlaceCell(k, cells[n]);
      if p in ps {
        var i :| 0 <= i < n && cells[..n][i].letter != ' '
          && p == Placement(FromChar(cells[..n][i].letter).value, CellPosition(cells[..n][i].row, cells[..n][i].column));
        assert cells[i] == cells[..n][i];
      }
      if exists i :: 0 <= i < |cells| && cells[i].letter != ' '
          && p == Placement(FromChar(cells[i].letter).value, CellPosition(cells[i].row, cells[i].column)) {
        var i :| 0 <= i < |cells| && cells[i].letter != ' '
          && p == Placement(FromChar(cells[i].letter).value, CellPosition(cells[i].row, cells[i].column));
        if i < n {
          assert cells[..n][i] == cells[i];
        }
      }
    }
  }

  /** The placements of a level file, or the first unknown letter met in scan order. */
  function LevelPlacements(text: string): Result<seq<Placement>, char> {
    Place(LevelCells(text))
  }

  // ---------------------------------------------------------------------------
  // Properties of a whole level file
  // ---------------------------------------------------------------------------

  /** A level fails to load exactly when some character other than a newline is not a tile symbol; the error names such a character. */
  lemma LevelFailsIffForeignLetter(text: string)
    ensures LevelPlacements(text).Err? <==>
      exists k :: 0 <= k < |text| && text[k] != '\n' && !IsTileSymbol(text[k])
    ensures LevelPlacements(text).Err? ==>
      LevelPlacements(text).error in text && LevelPlacements(text).error != '\n'
  {
    var lines := Split(text);
    var cells := LevelCells(text);
    PlaceOutcome(cells);
    if k :| 0 <= k < |text| && text[k] != '\n' && !IsTileSymbol(text[k]) {
      var ch := text[k];
      SplitLetters(text, ch);
      var i :| 0 <= i < |lines| && ch in lines[i];
      var c :| 0 <= c < |lines[i]| && lines[i][c] == ch;
      var cell := Cell(|lines| - 1 - i, c, ch);
      LineCellScanned(text, i, c);
      var j :| 0 <= j < |cells| && cells[j] == cell;
      assert !IsTileSymbol(cells[j].letter);
    }
    if LevelPlacements(text).Err? {
      var e := LevelPlacements(text).error;
      var j :| 0 <= j < |cells| && cells[j].letter == e;
      ScannedCellOrigin(text, cells[j]);
      var i := |lines| - 1 - cells[j].row;
      assert e in lines[i];
      SplitLetters(text, e);
    }
  }

  /** Number of characters that are neither spaces nor newlines: the tiles a file asks for. */
  function Tiles(s: string): nat {
    if s == [] then 0 else (if s[0] == ' ' || s[0] == '\n' then 0 else 1) + Tiles(s[1..])
  }

  /** Tiles of each line, summed. */
  function TilesOfLines(lines: seq<string>): nat {
    if lines == [] then 0 else Tiles(lines[0]) + TilesOfLines(lines[1..])
  }

  lemma {:induction false} TilesAppend(a: string, b: string)
    ensures Tiles(a + b) == Tiles(a) + Tiles(b)
  {
    if a != [] {
      TilesAppend(a[1..], b);
      assert (a + b)[1..] == a[1..] + b;
    } else {
      assert a + b == b;
    }
  }

  lemma {:induction false} TilesOfLinesAppend(a: seq<string>, b: seq<string>)
    ensures TilesOfLines(a + b) == TilesOfLines(a) + TilesOfLines(b)
  {
    if a != [] {
      TilesOfLinesAppend(a[1..], b);
      assert (a + b)[1..] == a[1..] + b;
    } else {
      assert a + b == b;
    }
  }

  lemma {:induction false} TilesOfReverse(lines: seq<string>)
    ensures TilesOfLines(Reverse(lines)) == TilesOfLines(lines)
  {
    if lines != [] {
      TilesOfReverse(lines[1..]);
      assert Reverse(lines) == Reverse(lines[1..]) + [lines[0]];
      TilesOfLinesAppend(Reverse(lines[1..]), [lines[0]]);
    }
  }

  lemma {:induction false} TilesOfJoin(lines: seq<string>)
    requires |lines| >= 1
    ensures Tiles(Join(lines)) == TilesOfLines(lines)
  {
    if |lines| > 1 {
      TilesOfJoin(lines[1..]);
      TilesAppend(lines[0], "\n" + Join(lines[1..]));
      assert lines[0] + "\n" + Join(lines[1..]) == lines[0] + ("\n" + Join(lines[1..]));
      assert ("\n" + Join(lines[1..]))[1..] == Join(lines[1..]);
    } else {
      assert lines[1..] == [];
    }
  }

  lemma {:induction false} SolidCellsAppend(a: seq<Cell>, b: seq<Cell>)
    ensures SolidCells(a + b) == SolidCells(a) + SolidCells(b)
  {
    if b != [] {
      var n := |b| - 1;
      SolidCellsAppend(a, b[..n]);
      assert (a + b)[..|a + b| - 1] == a + b[..n];
    } else {
      assert a + b == a;
    }
  }

  lemma {:induction false} SolidRowCells(row: nat, line: string)
    requires '\n' !in line
    ensures SolidCells(RowCells(row, line)) == Tiles(line)
  {
    if line != [] {
      var n := |line| - 1;
      SolidRowCells(row, line[..n]);
      assert RowCells(row, line)[..n] == RowCells(row, line[..n]);
      TilesAppend(line[..n], [line[n]]);
      assert line[..n] + [line[n]] == line;
    }
  }

  lemma {:induction false} SolidGridCells(rows: seq<string>)
    requires forall i :: 0 <= i < |rows| ==> '\n' !in rows[i]
    ensures SolidCells(GridCells(rows)) == TilesOfLines(rows)
  {
    if rows != [] {
      var n := |rows| - 1;
      SolidGridCells(rows[..n]);
      SolidCellsAppend(GridCells(rows[..n]), RowCells(n, rows[n]));
      SolidRowCells(n, rows[n]);
      TilesOfLinesAppend(rows[..n], [rows[n]]);
      assert rows[..n] + [rows[n]] == rows;
    }
  }

  /** A level that loads places one node per character that is neither a space nor a newline. */
  lemma LevelNodeCount(text: string)
    requires LevelPlacements(text).Ok?
    ensures |LevelPlacements(text).value| == Tiles(text)
  {
    var lines := Split(text);
    PlaceOutcome(LevelCells(text));
    SolidGridCells(Rows(text));
    TilesOfReverse(lines);
    TilesOfJoin(lines);
    JoinSplit(text);
  }

  /** Every non-space cell of a successful scan yields the tile its letter names, at the cell's centre. */
  lemma CellPlaced(cells: seq<Cell>, cell: Cell)
    requires Place(cells).Ok? && cell in cells && cell.letter != ' '
    ensures FromChar(cell.letter).Some?
    ensures Placement(FromChar(cell.letter).value, CellPosition(cell.row, cell.column)) in Place(cells).value
  {
    var j :| 0 <= j < |cells| && cells[j] == cell;
    PlaceOutcome(cells);
    assert IsTileSymbol(cells[j].letter);
    PlaceMembers(cells, Placement(FromChar(cell.letter).value, CellPosition(cell.row, cell.column)));
  }

  lemma LevelCellPlaced(text: string, row: nat, column: nat, letter: char)
    requires LevelPlacements(text).Ok? && Cell(row, column, letter) in LevelCells(text) && letter != ' '
    ensures FromChar(letter).Some?
    ensures Placement(FromChar(letter).value, CellPosition(row, column)) in LevelPlacements(text).value
  {
    CellPlaced(LevelCells(text), Cell(row, column, letter));
  }

  /**
   * The character at column c of line i (counting lines from the top of the
   * file) is placed, unless it is a space, at the centre of cell
   * (|lines| - 1 - i, c).
   */
  lemma LetterPlacement(text: string, i: nat, c: nat)
    requires LevelPlacements(text).Ok?
    requires i < |Split(text)| && c < |Split(text)[i]| && Split(text)[i][c] != ' '
    ensures FromChar(Split(text)[i][c]).Some?
    ensures Placement(FromChar(Split(text)[i][c]).value, CellPosition(|Split(text)| - 1 - i, c))
      in LevelPlacements(text).value
  {
    LineCellScanned(text, i, c);
    LevelCellPlaced(text, |Split(text)| - 1 - i, c, Split(text)[i][c]);
  }

  /** Conversely, every placement is that of some non-space character of the file. */
  lemma PlacementOrigin(text: string, p: Placement)
    requires LevelPlacements(text).Ok? && p in LevelPlacements(text).value
    ensures var lines := Split(text);
      exists i, c :: 0 <= i < |lines| && 0 <= c < |lines[i]| && lines[i][c] != ' '
        && FromChar(lines[i][c]).Some? && p == Placement(FromChar(lines[i][c]).value, CellPosition(|lines| - 1 - i, c))
  {
    var lines := Split(text);
    var cells := LevelCells(text);
    PlaceMembers(cells, p);
    var j :| 0 <= j < |cells| && cells[j].letter != ' ' && FromChar(cells[j].letter).Some?
      && p == Placement(FromChar(cells[j].letter).value, CellPosition(cells[j].row, cells[j].column));
    var cell := cells[j];
    ScannedCellOrigin(text, cell);
    var i, c := |lines| - 1 - cell.row, cell.column;
    assert cell.row == |lines| - 1 - i;
    assert lines[i][c] == cell.letter;
  }

  // ---------------------------------------------------------------------------
  // A trailing newline
  // ---------------------------------------------------------------------------

  function RaiseCells(cells: seq<Cell>): seq<Cell> {
    seq(|cells|, i requires 0 <= i < |cells| => cells[i].(row := cells[i].row + 1))
  }

  /** The same outcome with every placement one cell higher. */
  function Raised(r: Result<seq<Placement>, char>): Result<seq<Placement>, char> {
    match r
    case Err(e) => Err(e)
    case Ok(ps) =>
      Ok(seq(|ps|, i requires 0 <= i < |ps| =>
        ps[i].(position := Point(ps[i].position.x, ps[i].position.y + CellHeight))))
  }

  lemma {:induction false} GridCellsBelowEmptyRow(rows: seq<string>)
    ensures GridCells([""] + rows) == RaiseCells(GridCells(rows))
  {
    if rows == [] {
      assert GridCells([""]) == GridCells([]) + RowCells(0, "");
    } else {
      var n := |rows| - 1;
      GridCellsBelowEmptyRow(rows[..n]);
      var up := [""] + rows;
      assert up[..|up| - 1] == [""] + rows[..n];
      assert up[|up| - 1] == rows[n];
      var below := GridCells(rows[..n]);
      var last := RowCells(n, rows[n]);
      assert RaiseCells(below + last) == RaiseCells(below) + RowCells(n + 1, rows[n]);
    }
  }

  lemma {:induction false} PlaceRaised(cells: seq<Cell>)
    ensures Place(RaiseCells(cells)) == Raised(Place(cells))
  {
    if cells != [] {
      var n := |cells| - 1;
      PlaceRaised(cells[..n]);
      var up := RaiseCells(cells);
      assert up[..n] == RaiseCells(cells[..n]);
      assert up[n] == cells[n].(row := cells[n].row + 1);
      var k := FromChar(cells[n].letter);
      if Place(cells[..n]).Ok? && k.Some? {
        var ps := Place(cells[..n]).value;
        var q := PlaceCell(k.value, cells[n]);
        assert Place(cells) == Ok(ps + q);
        assert Place(up) == Ok(Raised(Ok(ps)).value + PlaceCell(k.value, up[n]));
        assert PlaceCell(k.value, up[n]) == Raised(Ok(q)).value;
        assert Raised(Ok(ps + q)).value == Raised(Ok(ps)).value + Raised(Ok(q)).value;
      }
    } else {
      assert RaiseCells(cells) == [];
      assert Raised(Place(cells)).value == [];
    }
  }

  /**
   * No line is dropped: a trailing newline makes an empty bottom row, so the
   * same level loads with every tile one cell (64 units) higher.
   */
  lemma TrailingNewlineRaisesLevel(text: string)
    ensures LevelPlacements(text + "\n") == Raised(LevelPlacements(text))
  {
    SplitTrailingNewline(text);
    assert Rows(text + "\n") == [""] + Rows(text);
    GridCellsBelowEmptyRow(Rows(text));
    PlaceRaised(LevelCells(text));
  }

  // ---------------------------------------------------------------------------
  // Scanning a prefix of the cells
  // ---------------------------------------------------------------------------

  /** Once a prefix of the scan has met an unknown letter, the rest of the scan cannot change the outcome. */
  lemma {:induction false} PlaceErrPersists(p: seq<Cell>, q: seq<Cell>)
    requires p <= q && Place(p).Err?
    ensures Place(q) == Place(p)
    decreases |q|
  {
    if |q| > |p| {
      var n := |q| - 1;
      assert p <= q[..n];
      PlaceErrPersists(p, q[..n]);
    } else {
      assert p == q;
    }
  }

  lemma {:induction false} GridCellsRowsPrefix(rows: seq<string>, m: nat)
    requires m <= |rows|
    ensures GridCells(rows[..m]) <= GridCells(rows)
    decreases |rows| - m
  {
    if m < |rows| {
      GridCellsRowsPrefix(rows, m + 1);
      assert rows[..m + 1][..m] == rows[..m];
    } else {
      assert rows[..m] == rows;
    }
  }

  /** Scanning one more cell: its row cells grow by that cell. */
  lemma RowCellsStep(row: nat, line: string, column: nat)
    requires column < |line|
    ensures RowCells(row, line[..column + 1]) == RowCells(row, line[..column]) + [Cell(row, column, line[column])]
  {
  }

  /** Scanning one more cell after a successful prefix: an unknown letter fails, a known one adds its placement. */
  lemma PlaceStep(scanned: seq<Cell>, cell: Cell)
    requires Place(scanned).Ok?
    ensures FromChar(cell.letter).None? ==> Place(scanned + [cell]) == Err(cell.letter)
    ensures FromChar(cell.letter).Some? ==>
      Place(scanned + [cell]) == Ok(Place(scanned).value + PlaceCell(FromChar(cell.letter).value, cell))
  {
    assert (scanned + [cell])[..|scanned|] == scanned;
  }

  /** Scanning one more, known, letter of a line after a successful prefix of it. */
  lemma PlaceLineStep(row: nat, line: string, column: nat, ps: seq<Placement>, kind: NodeType)
    requires column < |line| && Place(RowCells(row, line[..column])) == Ok(ps)
    requires FromChar(line[column]) == Some(kind)
    ensures Place(RowCells(row, line[..column + 1])) == Ok(ps + PlaceCell(kind, Cell(row, column, line[column])))
  {
    RowCellsStep(row, line, column);
    PlaceStep(RowCells(row, line[..column]), Cell(row, column, line[column]));
  }

  /** An unknown letter after a successful prefix of a line is the line's failure. */
  lemma PlaceLineFails(row: nat, line: string, column: nat, ps: seq<Placement>)
    requires column < |line| && Place(RowCells(row, line[..column])) == Ok(ps)
    requires FromChar(line[column]).None?
    ensures Place(RowCells(row, line)) == Err(line[column])
  {
    RowCellsStep(row, line, column);
    PlaceStep(RowCells(row, line[..column]), Cell(row, column, line[column]));
    assert RowCells(row, line[..column + 1]) <= RowCells(row, line);
    PlaceErrPersists(RowCells(row, line[..column + 1]), RowCells(row, line));
  }

  /** Scanning two stretches of cells: the first failure wins, otherwise the placements are concatenated. */
  lemma {:induction false} PlaceAppend(a: seq<Cell>, b: seq<Cell>)
    ensures Place(a + b) ==
      if Place(a).Err? then Place(a)
      else if Place(b).Err? then Place(b)
      else Ok(Place(a).value + Place(b).value)
  {
    if b == [] {
      assert a + b == a;
      assert Place(a).Ok? ==> Place(a).value + [] == Place(a).value;
    } else {
      var n := |b| - 1;
      PlaceAppend(a, b[..n]);
      assert (a + b)[..|a + b| - 1] == a + b[..n];
      assert (a + b)[|a + b| - 1] == b[n];
      if Place(a).Ok? && Place(b[..n]).Ok? && FromChar(b[n].letter).Some? {
        var k := FromChar(b[n].letter).value;
        assert Place(a).value + Place(b[..n]).value + PlaceCell(k, b[n])
            == Place(a).value + (Place(b[..n]).value + PlaceCell(k, b[n]));
      }
    }
  }

  /** Scanning row `row` after the rows below it: its failure is the level's, its placements follow theirs. */
  lemma RowScanned(rows: seq<string>, row: nat, ps: seq<Placement>)
    requires row < |rows| && Place(GridCells(rows[..row])) == Ok(ps)
    ensures Place(RowCells(row, rows[row])).Err? ==> Place(GridCells(rows)) == Place(RowCells(row, rows[row]))
    ensures Place(RowCells(row, rows[row])).Ok? ==>
      Place(GridCells(rows[..row + 1])) == Ok(ps + Place(RowCells(row, rows[row])).value)
  {
    assert rows[..row + 1][..row] == rows[..row];
    assert GridCells(rows[..row + 1]) == GridCells(rows[..row]) + RowCells(row, rows[row]);
    PlaceAppend(GridCells(rows[..row]), RowCells(row, rows[row]));
    if Place(RowCells(row, rows[row])).Err? {
      GridCellsRowsPrefix(rows, row + 1);
      PlaceErrPersists(GridCells(rows[..row + 1]), GridCells(rows));
    }
  }

  /**
   * A two-line level: the second line "x p" is the bottom row, so its block
   * and its 'p' tile sit at height 32; the first line "f s" is row 1, at
   * height 96.
   */
  lemma TwoLineLevel()
    ensures LevelPlacements("f s\nx p") == Ok([
      Placement(Block, Point(32, 32)), Placement(Player, Point(160, 32)),
      Placement(Finish, Point(32, 96)), Placement(Star, Point(160, 96))])
  {
    TwoLineCells();
    TwoLinePlacements();
  }

  lemma TwoLinePlacements()
    ensures Place(RowCells(0, ['x', ' ', 'p']) + RowCells(1, ['f', ' ', 's'])) == Ok([
      Placement(Block, Point(32, 32)), Placement(Player, Point(160, 32)),
      Placement(Finish, Point(32, 96)), Placement(Star, Point(160, 96))])
  {
    PlaceThreeCells(0, 'x', 'p', Block, Player);
    PlaceThreeCells(1, 'f', 's', Finish, Star);
    PlaceAppend(RowCells(0, ['x', ' ', 'p']), RowCells(1, ['f', ' ', 's']));
    var b0, b2 := Placement(Block, CellPosition(0, 0)), Placement(Player, CellPosition(0, 2));
    var t0, t2 := Placement(Finish, CellPosition(1, 0)), Placement(Star, CellPosition(1, 2));
    assert [b0, b2] + [t0, t2] == [b0, b2, t0, t2];
    assert CellPosition(0, 0) == Point(32, 32) && CellPosition(0, 2) == Point(160, 32);
    assert CellPosition(1, 0) == Point(32, 96) && CellPosition(1, 2) == Point(160, 96);
  }

  lemma TwoLineCells()
    ensures LevelCells("f s\nx p") == RowCells(0, ['x', ' ', 'p']) + RowCells(1, ['f', ' ', 's'])
  {
    TwoLineRows();
    var rows := Rows("f s\nx p");
    assert rows[..1] == ["x p"] && rows[1] == "f s";
    assert ["x p"][..0] == [];
    assert GridCells(["x p"]) == RowCells(0, ['x', ' ', 'p']);
  }

  lemma TwoLineRows()
    ensures Rows("f s\nx p") == ["x p", "f s"]
  {
    var lines := ["f s", "x p"];
    assert Join(lines) == "f s\nx p";
    SplitJoin(lines);
  }

  /** A row "a b": two tiles with a space between them. */
  lemma PlaceThreeCells(row: nat, a: char, b: char, ka: NodeType, kb: NodeType)
    requires FromChar(a) == Some(ka) && FromChar(b) == Some(kb) && ka != Space && kb != Space
    ensures Place(RowCells(row, [a, ' ', b])) ==
      Ok([Placement(ka, CellPosition(row, 0)), Placement(kb, CellPosition(row, 2))])
  {
    var c0, c1, c2 := Cell(row, 0, a), Cell(row, 1, ' '), Cell(row, 2, b);
    var s0: seq<Cell> := [];
    var s1, s2 := s0 + [c0], s0 + [c0] + [c1];
    assert RowCells(row, [a, ' ', b]) == s2 + [c2];
    assert Place(s0) == Ok([]);
    PlaceStep(s0, c0);
    assert FromChar(c0.letter) == Some(ka);
    assert Place(s0).value + PlaceCell(ka, c0) == [Placement(ka, CellPosition(row, 0))];
    assert Place(s1) == Ok([Placement(ka, CellPosition(row, 0))]);
    PlaceStep(s1, c1);
    assert FromChar(c1.letter) == Some(Space);
    assert Place(s1).value + PlaceCell(Space, c1) == Place(s1).value;
    assert Place(s2) == Place(s1);
    PlaceStep(s2, c2);
    assert FromChar(c2.letter) == Some(kb);
    assert Place(s2).value + PlaceCell(kb, c2) ==
      [Placement(ka, CellPosition(row, 0)), Placement(kb, CellPosition(row, 2))];
  }
}
