/**
 * The level loader of the raycaster's `main`: the choice of map path, the
 * `.lvl` extension check, the split of the file text into rows on '\n', the
 * decoding of each character into a `CellState`, and the construction of the
 * application state that owns the decoded map. From the argument read on,
 * every `panic!`/`expect` of `main` becomes a `LoadError`.
 */
module Raycaster {
  import opened Wrappers
  import opened Text

  /** One cell of the level grid. */
  datatype CellState = Wall | Hallway

  /** The decoded level, row by row; rows may differ in length. */
  type Grid = seq<seq<CellState>>

  /** What the loader keeps of the application state: the map it owns. */
  datatype AppState = AppState(levelMap: Grid)

  /** The fatal conditions of the loader, each with what its message shows. */
  datatype LoadError =
    | BadFileEnding(ending: string)   // "Bad file ending. Expected 'lvl', got …"
    | UnreadableMap(path: string)     // "Unable to read map from file: …"
    | InvalidCell(cell: char)         // "Invalid cell: …"
    | StateCreationFailed             // "Failed to create state."

  const DefaultMapPath: string := "./resources/default_map.lvl"

  // ---------------------------------------------------------------------------
  // Map path and extension check
  // ---------------------------------------------------------------------------

  /** The first argument after the program name, or the default map path. */
  function MapPath(args: seq<string>): (path: string)
    ensures |args| >= 2 ==> path == args[1]
    ensures |args| < 2 ==> path == DefaultMapPath
  {
    if |args| >= 2 then args[1] else DefaultMapPath
  }

  /** The last `.`-separated segment of a path (what the error message shows). */
  function FileEnding(path: string): (ending: string)
    ensures '.' !in ending
    ensures |ending| <= |path| && path[|path| - |ending|..] == ending
    ensures if '.' in path then path[|path| - |ending| - 1] == '.' else ending == path
  {
    LastSegmentIsSuffix(path, '.');
    var segments := Split(path, '.');
    segments[|segments| - 1]
  }

  /** The path is accepted when its last `.`-separated segment is exactly "lvl". */
  predicate HasLvlExtension(path: string)
    ensures HasLvlExtension(path) ==> path == "lvl" || (|path| >= 4 && path[|path| - 4..] == ".lvl")
  {
    var ending := FileEnding(path);
    assert ending == "lvl" && '.' in path ==> path[|path| - 4..] == ['.'] + ending;
    ending == "lvl"
  }

  /** A path is accepted exactly when it is "lvl" itself or ends in ".lvl". */
  lemma HasLvlExtensionIff(path: string)
    ensures HasLvlExtension(path) <==> path == "lvl" || (|path| >= 4 && path[|path| - 4..] == ".lvl")
  {
    if path == "lvl" {
      SplitNoSeparator(path, '.');
    } else if |path| >= 4 && path[|path| - 4..] == ".lvl" {
      var p := path[..|path| - 4];
      assert path == p + ['.'] + "lvl";
      SplitLastSegment(p, "lvl", '.');
    }
  }

  /** A path without '.' is rejected unless it is exactly "lvl". */
  lemma NoDotPath(path: string)
    requires '.' !in path
    ensures HasLvlExtension(path) <==> path == "lvl"
  {
    HasLvlExtensionIff(path);
    if |path| >= 4 {
      assert path[|path| - 4..][0] != '.';
    }
  }

  /** Only the last extension counts: "x.lvl.txt" is rejected with ending "txt". */
  lemma LastExtensionDecides()
    ensures !HasLvlExtension("x.lvl.txt")
    ensures FileEnding("x.lvl.txt") == "txt"
  {
    assert "x.lvl.txt" == "x.lvl" + ['.'] + "txt";
    SplitLastSegment("x.lvl", "txt", '.');
  }

  /** Without an argument the default path is used, and it passes the check. */
  lemma DefaultMapPathAccepted(args: seq<string>)
    requires |args| < 2
    ensures MapPath(args) == DefaultMapPath
    ensures HasLvlExtension(MapPath(args))
  {
    HasLvlExtensionIff(DefaultMapPath);
  }

  // ---------------------------------------------------------------------------
  // Cell decoding
  // ---------------------------------------------------------------------------

  /** The characters a level file may use for a cell. */
  predicate IsCellChar(c: char)
  {
    c == '.' || c == '#'
  }

  /** Every character of the row is a cell character. */
  predicate AllCellChars(row: string)
  {
    forall j :: 0 <= j < |row| ==> IsCellChar(row[j])
  }

  /** The match on one character: '.' is a hallway, '#' a wall, anything else fails. */
  function DecodeCell(c: char): (r: Option<CellState>)
    ensures r.Some? <==> IsCellChar(c)
    ensures r.Some? ==> EncodeCell(r.value) == c
  {
    match c
    case '.' => Some(Hallway)
    case '#' => Some(Wall)
    case _ => None
  }

  /** The level-file character of a cell: the reference for decoding. */
  function EncodeCell(cell: CellState): char
  {
    match cell
    case Hallway => '.'
    case Wall => '#'
  }

  /** Decoding one character is the inverse of encoding a cell. */
  lemma CellRoundTrip(c: char, cell: CellState)
    ensures DecodeCell(EncodeCell(cell)) == Some(cell)
    ensures DecodeCell(c) == Some(cell) <==> c == EncodeCell(cell)
    ensures DecodeCell(c).None? <==> !IsCellChar(c)
  {
  }

  /**
   * Decodes one row character by character. It fails on the first character
   * that is not a cell character, and otherwise keeps the row's length and
   * decodes each position on its own.
   */
  function DecodeRow(row: string): (r: Result<seq<CellState>, LoadError>)
    ensures r.Ok? <==> AllCellChars(row)
    ensures r.Ok? ==> |r.value| == |row|
    ensures r.Ok? ==> forall j :: 0 <= j < |row| ==>
      (r.value[j] == Hallway <==> row[j] == '.') && (r.value[j] == Wall <==> row[j] == '#')
    ensures r.Err? ==> exists j :: (0 <= j < |row| && AllCellChars(row[..j]) && !IsCellChar(row[j])
                                    && r.error == InvalidCell(row[j]))
    decreases |row|
  {
    if |row| == 0 then Ok([])
    else
      match DecodeCell(row[0])
      case None =>
        assert AllCellChars(row[..0]);
        Err(InvalidCell(row[0]))
      case Some(cell) =>
        match DecodeRow(row[1..])
        case Err(e) =>
          var j :| 0 <= j < |row| - 1 && AllCellChars(row[1..][..j]) && !IsCellChar(row[1..][j])
            && e == InvalidCell(row[1..][j]);
          assert row[..j + 1] == [row[0]] + row[1..][..j];
          Err(e)
        case Ok(cells) => Ok([cell] + cells)
  }

  /** Every row is made only of cell characters. */
  predicate AllRowsCellChars(rows: seq<string>)
  {
    forall i :: 0 <= i < |rows| ==> AllCellChars(rows[i])
  }

  /**
   * Decodes the rows in order. It fails with the error of the first row that
   * fails, that is, on the first bad character in row-major order, and otherwise
   * keeps the number of rows and the length of every row.
   */
  function DecodeMap(rows: seq<string>): (r: Result<Grid, LoadError>)
    ensures r.Ok? <==> AllRowsCellChars(rows)
    ensures r.Ok? ==> |r.value| == |rows|
    ensures r.Ok? ==> forall i :: 0 <= i < |rows| ==> DecodeRow(rows[i]) == Ok(r.value[i])
    ensures r.Err? ==> FirstFailingRow(rows, r.error)
    decreases |rows|
  {
    if |rows| == 0 then Ok([])
    else
      match DecodeRow(rows[0])
      case Err(e) =>
        assert FirstFailingRow(rows, e) by {
          assert AllRowsCellChars(rows[..0]);
        }
        Err(e)
      case Ok(cells) =>
        match DecodeMap(rows[1..])
        case Err(e) =>
          FailingRowAfterGoodRow(rows, e);
          Err(e)
        case Ok(grid) =>
          assert forall i :: 0 < i < |rows| ==> rows[i] == rows[1..][i - 1];
          Ok([cells] + grid)
  }

  /** Row `i` is the first row that fails to decode, and it fails with `e`. */
  predicate FirstFailingRow(rows: seq<string>, e: LoadError)
  {
    exists i :: 0 <= i < |rows| && AllRowsCellChars(rows[..i])
      && DecodeRow(rows[i]).Err? && e == DecodeRow(rows[i]).error
  }

  /** A row that decodes, followed by rows of which one fails first with `e`. */
  lemma FailingRowAfterGoodRow(rows: seq<string>, e: LoadError)
    requires |rows| > 0 && AllCellChars(rows[0]) && FirstFailingRow(rows[1..], e)
    ensures FirstFailingRow(rows, e)
    ensures !AllRowsCellChars(rows)
  {
    var i :| 0 <= i < |rows| - 1 && AllRowsCellChars(rows[1..][..i])
      && DecodeRow(rows[1..][i]).Err? && e == DecodeRow(rows[1..][i]).error;
    assert rows[..i + 1] == [rows[0]] + rows[1..][..i];
    assert rows[i + 1] == rows[1..][i];
  }

  // ---------------------------------------------------------------------------
  // The level text
  // ---------------------------------------------------------------------------

  /** A character a level file may contain: a cell character or the row separator. */
  predicate IsLevelChar(c: char)
  {
    IsCellChar(c) || c == '\n'
  }

  predicate IsLevelText(text: string)
  {
    forall c :: c in text ==> IsLevelChar(c)
  }

  /**
   * The file text split on '\n' and decoded row by row. A trailing '\n' gives
   * an empty last row, and rows keep their own lengths.
   */
  function ParseLevel(text: string): (r: Result<Grid, LoadError>)
    ensures r.Ok? ==> |r.value| == Count(text, '\n') + 1
    ensures r.Ok? ==> forall i :: 0 <= i < |r.value| ==> |r.value[i]| == |Split(text, '\n')[i]|
  {
    DecodeMap(Split(text, '\n'))
  }

  /** Loading succeeds exactly when every character is '.', '#' or '\n'. */
  lemma ParseLevelSucceedsIff(text: string)
    ensures ParseLevel(text).Ok? <==> IsLevelText(text)
  {
    var rows := Split(text, '\n');
    JoinSplit(text, '\n');
    if AllRowsCellChars(rows) {
      JoinedRowsAreLevelText(rows);
    } else {
      var i, j :| 0 <= i < |rows| && 0 <= j < |rows[i]| && !IsCellChar(rows[i][j]);
      var c := rows[i][j];
      InJoin(rows, '\n', c);
      assert c in text && !IsLevelChar(c);
    }
  }

  /** The join of rows made of cell characters is a level text. */
  lemma JoinedRowsAreLevelText(rows: seq<string>)
    requires AllRowsCellChars(rows)
    ensures IsLevelText(Join(rows, '\n'))
  {
    forall c | c in Join(rows, '\n') && c != '\n' ensures IsCellChar(c) {
      InJoin(rows, '\n', c);
      var i, j :| 0 <= i < |rows| && 0 <= j < |rows[i]| && rows[i][j] == c;
    }
  }

  /**
   * A bad character in the middle part of a three-part text, after a level
   * text and good cells, is the first bad character of the whole.
   */
  lemma FirstBadCharInMiddle(before: string, row: string, after: string, j: nat)
    requires j < |row| && IsLevelText(before) && AllCellChars(row[..j]) && !IsLevelChar(row[j])
    ensures var text, k := before + row + after, |before| + j;
      k < |text| && IsLevelText(text[..k]) && text[k] == row[j]
  {
    var text, k := before + row + after, |before| + j;
    assert text[..k] == before + row[..j];
    forall c | c in row[..j] ensures IsLevelChar(c) {
      var j' :| 0 <= j' < j && row[..j][j'] == c;
    }
  }

  /**
   * A text with a character that is neither a cell character nor '\n' fails
   * to load, and the error names the first such character in file order.
   */
  lemma ParseLevelFirstBadChar(text: string)
    requires !IsLevelText(text)
    ensures exists k :: (0 <= k < |text| && IsLevelText(text[..k]) && !IsLevelChar(text[k])
                         && ParseLevel(text) == Err(InvalidCell(text[k])))
  {
    ParseLevelSucceedsIff(text);
    var rows := Split(text, '\n');
    JoinSplit(text, '\n');
    var i :| 0 <= i < |rows| && AllRowsCellChars(rows[..i])
      && DecodeRow(rows[i]).Err? && ParseLevel(text).error == DecodeRow(rows[i]).error;
    var row := rows[i];
    var j :| 0 <= j < |row| && AllCellChars(row[..j]) && !IsCellChar(row[j])
      && DecodeRow(row).error == InvalidCell(row[j]);
    var before := if i == 0 then [] else Join(rows[..i], '\n') + ['\n'];
    var after := if i + 1 == |rows| then [] else ['\n'] + Join(rows[i + 1..], '\n');
    JoinAround(rows, i, '\n');
    assert IsLevelText(before) by {
      if i > 0 {
        JoinedRowsAreLevelText(rows[..i]);
      }
    }
    FirstBadCharInMiddle(before, row, after, j);
  }

  /** In particular a '\r', as left by a CRLF file, makes the load fail. */
  lemma CarriageReturnRejected(text: string)
    requires '\r' in text
    ensures ParseLevel(text).Err?
    ensures ParseLevel(text).error.InvalidCell?
  {
    assert !IsLevelChar('\r');
    ParseLevelFirstBadChar(text);
  }

  /** A file ending in '\n' gives an empty last row after the rows before it. */
  lemma TrailingNewlineRow(text: string)
    requires ParseLevel(text + ['\n']).Ok?
    ensures var g := ParseLevel(text + ['\n']).value;
      && ParseLevel(text).Ok?
      && g == ParseLevel(text).value + [[]]
  {
    var t := text + ['\n'];
    assert t == text + ['\n'] + [];
    SplitLastSegment(text, [], '\n');
    var rows := Split(text, '\n');
    assert Split(t, '\n') == rows + [[]];
    var g := ParseLevel(t).value;
    assert forall i :: 0 <= i < |rows| ==> (rows + [[]])[i] == rows[i];
    assert AllRowsCellChars(rows);
    var h := ParseLevel(text).value;
    assert |g| == |h| + 1;
    assert DecodeRow([]) == Ok([]);
    forall i | 0 <= i < |g| ensures g[i] == (h + [[]])[i] {
      if i < |h| {
        assert DecodeRow(rows[i]) == Ok(h[i]);
        assert DecodeRow((rows + [[]])[i]) == Ok(g[i]);
      } else {
        assert DecodeRow((rows + [[]])[i]) == Ok(g[i]);
      }
    }
  }

  /** A small level file with a trailing newline. */
  lemma ExampleLevel()
    ensures ParseLevel("#.\n.#\n") == Ok([[Wall, Hallway], [Hallway, Wall], []])
  {
    var grid: Grid := [[Wall, Hallway], [Hallway, Wall], []];
    var rows: seq<string> := ["#.", ".#", []];
    assert EncodeRow(grid[0]) == rows[0];
    assert EncodeRow(grid[1]) == rows[1];
    assert EncodeRow(grid[2]) == rows[2];
    assert EncodeMap(grid) == rows;
    assert rows[1..][1..] == [[]];
    assert Join(rows, '\n') == "#.\n.#\n";
    ParseLevelRoundTrip(grid);
  }

  /** The same kind of file saved with CRLF line endings is rejected at the '\r'. */
  lemma ExampleCrlfLevel()
    ensures ParseLevel("#.\r\n.#") == Err(InvalidCell('\r'))
  {
    assert "#.\r\n.#" == "#.\r" + ['\n'] + ".#";
    SplitNoSeparator(".#", '\n');
    SplitAfterSegment("#.\r", ".#", '\n');
    var rows: seq<string> := ["#.\r", ".#"];
    assert Split("#.\r\n.#", '\n') == rows;
    assert DecodeRow(rows[0]) == Err(InvalidCell('\r'));
  }

  // ---------------------------------------------------------------------------
  // Encoding, the inverse of loading
  // ---------------------------------------------------------------------------

  function EncodeRow(cells: seq<CellState>): string
  {
    seq(|cells|, j requires 0 <= j < |cells| => EncodeCell(cells[j]))
  }

  function EncodeMap(grid: Grid): seq<string>
  {
    seq(|grid|, i requires 0 <= i < |grid| => EncodeRow(grid[i]))
  }

  /** The level-file text of a grid: its encoded rows joined with '\n'. */
  function LevelText(grid: Grid): string
  {
    Join(EncodeMap(grid), '\n')
  }

  /** Decoding an encoded row gives the row back. */
  lemma DecodeEncodeRow(cells: seq<CellState>)
    ensures DecodeRow(EncodeRow(cells)) == Ok(cells)
  {
    var row := EncodeRow(cells);
    assert AllCellChars(row);
    var r := DecodeRow(row).value;
    assert forall j :: 0 <= j < |cells| ==> r[j] == cells[j];
    assert r == cells;
  }

  /** Every grid with at least one row is loaded back from its level text. */
  lemma ParseLevelRoundTrip(grid: Grid)
    requires |grid| >= 1
    ensures ParseLevel(LevelText(grid)) == Ok(grid)
  {
    var rows := EncodeMap(grid);
    forall i | 0 <= i < |rows| ensures '\n' !in rows[i] && DecodeRow(rows[i]) == Ok(grid[i]) {
      DecodeEncodeRow(grid[i]);
      assert forall j :: 0 <= j < |rows[i]| ==> IsCellChar(rows[i][j]);
    }
    SplitJoin(rows, '\n');
    assert AllRowsCellChars(rows);
    var g := DecodeMap(rows).value;
    assert forall i :: 0 <= i < |grid| ==> g[i] == grid[i];
    assert g == grid;
  }

  /** A successfully loaded text is the level text of the grid it loads to. */
  lemma LevelTextRoundTrip(text: string)
    requires ParseLevel(text).Ok?
    ensures LevelText(ParseLevel(text).value) == text
  {
    var rows := Split(text, '\n');
    var grid := ParseLevel(text).value;
    forall i | 0 <= i < |rows| ensures EncodeRow(grid[i]) == rows[i] {
      assert DecodeRow(rows[i]) == Ok(grid[i]);
      assert forall j :: 0 <= j < |rows[i]| ==> EncodeCell(grid[i][j]) == rows[i][j];
    }
    assert EncodeMap(grid) == rows;
    JoinSplit(text, '\n');
  }

  // ---------------------------------------------------------------------------
  // Application state and the whole loader
  // ---------------------------------------------------------------------------

  /** `AppState::new`: takes ownership of the decoded map; never fails. */
  function NewAppState(levelMap: Grid): (r: Option<AppState>)
    ensures r.Some? && r.value.levelMap == levelMap
  {
    Some(AppState(levelMap))
  }

  /**
   * The loader of `main`, from the command-line arguments (program name first)
   * and the readable files (path to contents) to the application state, with
   * its checks in the source's order: the extension, the read, the cells, the
   * state.
   */
  function Load(args: seq<string>, files: map<string, string>): (r: Result<AppState, LoadError>)
    ensures var path := MapPath(args);
      && (r.Ok? <==> HasLvlExtension(path) && path in files && IsLevelText(files[path]))
      && (r.Ok? ==> LevelText(r.value.levelMap) == files[path])
      && (r.Ok? ==> |r.value.levelMap| == Count(files[path], '\n') + 1)
      && (!HasLvlExtension(path) ==> r == Err(BadFileEnding(FileEnding(path))))
      && (HasLvlExtension(path) && path !in files ==> r == Err(UnreadableMap(path)))
      && (r.Err? && r.error.InvalidCell? ==> HasLvlExtension(path) && path in files && !IsLevelText(files[path]))
      && (HasLvlExtension(path) && path in files && !IsLevelText(files[path]) ==>
            exists k :: (0 <= k < |files[path]| && IsLevelText(files[path][..k]) && !IsLevelChar(files[path][k])
                         && r == Err(InvalidCell(files[path][k]))))
      && r != Err(StateCreationFailed)
  {
    var path := MapPath(args);
    if !HasLvlExtension(path) then Err(BadFileEnding(FileEnding(path)))
    else if path !in files then Err(UnreadableMap(path))
    else
      var text := files[path];
      ParseLevelSucceedsIff(text);
      match ParseLevel(text)
      case Err(e) =>
        ParseLevelFirstBadChar(text);
        Err(e)
      case Ok(grid) =>
        LevelTextRoundTrip(text);
        match NewAppState(grid)
        case None => Err(StateCreationFailed)
        case Some(state) => Ok(state)
  }
}
