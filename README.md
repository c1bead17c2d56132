# Raycaster level loader, modelled in Dafny

The raycaster is a small ggez program. Its `main` loads a level before it opens
the window. It picks the map path (the first command-line argument, or
`./resources/default_map.lvl`). It rejects a path whose last `.`-separated
segment is not `lvl`, and reads the file. It splits the text on `'\n'` into
rows of characters and decodes every character into a `CellState`: `.` is a
`Hallway`, `#` is a `Wall`, and any other character panics. The decoded map is
then handed to `AppState::new`, which stores it. This project models that loader
as pure functions and proves what it does.

- `wrappers.dfy`, module `Wrappers`: `Option` and `Result`. From the argument read (raycaster/src/main.rs:57) on, each `panic!`/`expect` of `main` becomes a `Result` error.
- `text.dfy`, module `Text`: `Split` is Rust's `str::split` with a single-character pattern. `Join` is its inverse. Lemmas prove the two form a round trip and describe the last segment and trailing separators.
- `raycaster.dfy`, module `Raycaster`:
  - `CellState`, `AppState` and `LoadError`;
  - the extension check (`FileEnding`, `HasLvlExtension`);
  - cell decoding (`DecodeCell`, `DecodeRow`, `DecodeMap`, `ParseLevel`);
  - `EncodeCell`/`EncodeRow`/`EncodeMap`/`LevelText`: the reference encoding, with which the decoder forms round trips;
  - `NewAppState`, and `Load`, the loader as a whole.

The file system is a parameter of `Load`: a `map` from path to file contents. A
path that is not in the map stands for a file that `fs::read_to_string` cannot
read.

What the code does, and so what the model does:
- The code splits on `'\n'` only, so a CRLF file fails on its first `'\r'` (`CarriageReturnRejected`, `ExampleCrlfLevel`).
- The code reads only `args.get(1)`, computes no width or height, and leaves `update` and `draw` as `todo!()`.

## Model

| member | source | states |
|---|---|---|
| `Text.Split` | raycaster/src/main.rs:70-71 | splitting on one character yields exactly one more segment than the text has separators, and no segment contains the separator |
| `Text.JoinSplit` | raycaster/src/main.rs:70-77 | joining the rows again with the separator reproduces the original text |
| `Text.SplitJoin` | raycaster/src/main.rs:70-77 | a non-empty list of separator-free rows is recovered by splitting its join, so the split is the only such decomposition of a text |
| `Text.SplitLastSegment` | raycaster/src/main.rs:63 | splitting `p + sep + w` with `w` separator-free gives the segments of `p` followed by `w` |
| `Text.LastSegmentIsSuffix` | raycaster/src/main.rs:63-64 | the last segment is the suffix after the last separator, or the whole text when there is none |
| `Text.TrailingSeparator` | raycaster/src/main.rs:70-71 | a text ending in the separator has an empty last segment, after the segments of the text without it |
| `Raycaster.MapPath` | raycaster/src/main.rs:57-61 | the map path is the first argument after the program name when there is one, and `./resources/default_map.lvl` otherwise |
| `Raycaster.FileEnding` | raycaster/src/main.rs:63-64 | the ending shown in the error message contains no `.`, ends the path, and follows a `.` unless the path has no `.` at all |
| `Raycaster.HasLvlExtension` | raycaster/src/main.rs:63 | an accepted path is `lvl` itself or ends in `.lvl` (the converse is `HasLvlExtensionIff`) |
| `Raycaster.HasLvlExtensionIff` | raycaster/src/main.rs:63-65 | a path is accepted if and only if it is exactly `lvl` or ends in `.lvl` |
| `Raycaster.NoDotPath` | raycaster/src/main.rs:63-65 | a path without any `.` is accepted if and only if it is exactly `lvl` |
| `Raycaster.LastExtensionDecides` | raycaster/src/main.rs:63-64 | `x.lvl.txt` is rejected, and the ending it reports is `txt` |
| `Raycaster.DefaultMapPathAccepted` | raycaster/src/main.rs:57-65 | with no argument after the program name the default path is used, and it passes the extension check |
| `Raycaster.DecodeCell` | raycaster/src/main.rs:82-85 | a character decodes if and only if it is `.` or `#`, and then to the cell whose level-file character it is |
| `Raycaster.CellRoundTrip` | raycaster/src/main.rs:82-85 | a character decodes to a cell if and only if it is that cell's character; decoding fails exactly on characters other than `.` and `#` |
| `Raycaster.DecodeRow` | raycaster/src/main.rs:81-87 | a row decodes if and only if all its characters are `.` or `#`; the result has the row's length; cell j is `Hallway` iff char j is `.` and `Wall` iff it is `#`; a failure names the first bad character of the row |
| `Raycaster.DecodeMap` | raycaster/src/main.rs:80-88 | the rows decode if and only if every row does; the grid has as many rows as the input and each row is that row's own decoding (ragged rows kept); a failure is the error of the first failing row |
| `Raycaster.ParseLevel` | raycaster/src/main.rs:70-88 | a decoded level has one row more than the text has `'\n'`, and each row has the length of the corresponding line |
| `Raycaster.ParseLevelSucceedsIff` | raycaster/src/main.rs:70-88 | loading the text succeeds if and only if every character of it is `.`, `#` or `'\n'` |
| `Raycaster.ParseLevelFirstBadChar` | raycaster/src/main.rs:80-88 | a text holding any character other than `.`, `#` and `'\n'` fails to load, and the error names the first such character in file order |
| `Raycaster.CarriageReturnRejected` | raycaster/src/main.rs:70-88 | a text containing `'\r'` (a CRLF file) fails with an invalid-cell error |
| `Raycaster.TrailingNewlineRow` | raycaster/src/main.rs:70-88 | a level with a trailing `'\n'` loads to the grid without it plus one empty row |
| `Raycaster.ExampleLevel` | raycaster/src/main.rs:70-88 | `"#.\n.#\n"` loads to `[[Wall, Hallway], [Hallway, Wall], []]` |
| `Raycaster.ExampleCrlfLevel` | raycaster/src/main.rs:70-88 | `"#.\r\n.#"` fails with `InvalidCell('\r')` |
| `Raycaster.DecodeEncodeRow` | raycaster/src/main.rs:81-87 | decoding the encoding of any row of cells gives the row back |
| `Raycaster.ParseLevelRoundTrip` | raycaster/src/main.rs:70-88 | every grid with at least one row loads back from its level text |
| `Raycaster.LevelTextRoundTrip` | raycaster/src/main.rs:70-88 | a text that loads is exactly the level text of the grid it loads to |
| `Raycaster.NewAppState` | raycaster/src/main.rs:17-23 | the state is always created and stores the given map unchanged |
| `Raycaster.Load` | raycaster/src/main.rs:57-93 | the loader succeeds if and only if the path passes the extension check, the file is readable and contains only `.`, `#` and `'\n'`; the stored map is the decoding of the file (its level text is the file); a bad extension is reported before the file is read, an unreadable file before any cell; an accepted, readable file with a character other than `.`, `#` and `'\n'` fails with `InvalidCell` of the first such character; the state-creation failure never happens |

## Left out

- `update` and `draw` (raycaster/src/main.rs:27-32) are `todo!()`. The code has no movement, wall collision, angle wrap or run modifier, so none is modelled.
- Window and context construction and `event::run` (raycaster/src/main.rs:40-51, 94) are calls into ggez. The source builds the context before it reads the arguments, so a failure there comes first; the model starts at the arguments.
- `fs::read_to_string` (raycaster/src/main.rs:68) is I/O. It is a map from path to contents, and every read failure, invalid UTF-8 included, is a path missing from that map.
- `std::env::args()` (raycaster/src/main.rs:53) panics on an argument that is not valid Unicode. The model takes the arguments as a `seq<string>`, which cannot hold such an argument, so that panic is not modelled.
- `println!` of the decoded map (raycaster/src/main.rs:92) is output only.
- `player_position`, `player_direction` and `CELL_SIZE` (raycaster/src/main.rs:6, 12-13, 19-20) are `f32` values that nothing in the loader uses. `AppState` keeps only the map.
- `SCREEN_SIZE` (raycaster/src/main.rs:5) is used only to size the window (raycaster/src/main.rs:48), and window setup is left out.
- A `panic!` ends the process. The model returns the matching `LoadError` value instead, carrying what the message prints.
