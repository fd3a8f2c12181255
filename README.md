# Conway's Game of Life: a verified model

This project models the `Conway` class of the book's chapter 15 (`ch15/Conway.java`) and proves properties of it. It has two parts.

The first part is one generation of the game:
- `countAlive` sums the grid's tolerant `test` probe over the eight neighbour offsets.
- `updateCell` applies the transition rule to one cell.
- `update` works in two passes. `countNeighbors` first fills a rows x cols table of counts. `updateGrid` then applies the rule cell by cell from that table.
- The default constructor puts two Blinkers on a 5 x 10 grid.

The second part is the two pattern decoders of the `Conway(String)` constructor. They read the pattern file, given here as its sequence of lines:
- The `.cells` decoder records every 'O' in a 100-slot coordinate buffer, sizes the grid and then seeds it from the buffer.
- The `.rle` decoder skips `#` comment lines, reads the header's width and height, and draws the body with a row/column cursor.

Modules:
- `Life` holds the pure game: boards as `seq<seq<bool>>`, the probe, the neighbour count, the rule and `Next`, one whole generation.
- `Grid` is a stand-in for the grid object the game draws on. `GridCanvas` is a class over an `array2<bool>`, abstracted by the ghost `Board()`.
- `Blinkers` holds the built-in start and its period-2 oscillation.
- `Pattern` holds the decoders' result and fault types.
- `PlainText` and `Rle` each hold a decoder. Each has a specification function `Decode`, the lemmas about it, and the imperative decoder proved against it.
- `Game` holds the `Conway` class: the constructors and the four step methods.

Every method is proved against a pure function:
- `Conway.Update` ends with `grid.Board() == Next(old(grid.Board()))`.
- `DecodeCells` and `DecodeRle` end with the decoder function's board, or with the same fault.

The quirks of the decoders are modelled as written and stated as lemmas:
- In `.cells` files, a recorded cell in row 0 or column 0 other than (0, 0) is never seeded.
- In `.rle` files, run counts are ignored.
- In `.rle` files, '!' ends only its own line.

A Java exception that escapes the constructor ends the program. Here it is a `Fault` value, not a precondition:
- an empty `.cells` file;
- an overflowing coordinate buffer;
- a cell to turn on that lies off the grid;
- an empty `.rle` line;
- an unusable header.

`GridCanvas.java` and `Cell.java` are not part of this model. What the model assumes of them:
- `GridCanvas(rows, cols, size)` allocates a rows x cols array of dead cells, and a negative row or column count throws.
- `turnOn`, `turnOff` and `getCell` index that array and throw off the grid.
- `test` answers 0 for any position off the grid.

Behaviour of the code a reader may not expect, kept as written:
- The `.cells` decoder skips only the file's first line. It does not skip every `!` comment line.
- The `.cells` grid's width is the length of the first pattern line, not the longest one.
- A 101st 'O' in a `.cells` file indexes past the buffer and stops the program. The pattern is not silently truncated.
- The `.rle` decoder ignores run counts.
- In the `.rle` decoder, a '!' stops only its own line. Later lines go on drawing.
- An `.rle` file with no header line leaves the game without a grid and raises no error.
- A file of any other kind also leaves the game without a grid and raises no error.
- Turning on a cell off the grid is taken to throw, as an array index would. It is not treated as a dropped cell.

## Model

| member | source | states |
|---|---|---|
| Life.Test | ch15/Conway.java:100-107 | the probe is 0 or 1, is 0 at every position off the board (negative ones included), and is 1 exactly on a live cell |
| Life.CountAlive | ch15/Conway.java:98-109 | the neighbour count lies in [0, 8] |
| Life.CountAliveIsLiveNeighbours | ch15/Conway.java:98-109 | the count equals the number of live on-board cells among the eight neighbours; off-board positions count as dead |
| Life.NextState | ch15/Conway.java:117-133 | a live cell dies on fewer than 2 or more than 3 neighbours and survives on 2 or 3; a dead cell is born exactly on 3 and otherwise stays dead |
| Life.Next | ch15/Conway.java:173-176 | one generation keeps the board's shape and gives every cell the rule applied to its old state and its count on the old board |
| Life.NextKeepsSize | ch15/Conway.java:173-176 | a rows x cols board stays rows x cols |
| Life.AllDeadIsFixed | ch15/Conway.java:126-131 | an all-dead board is a fixed point of a generation |
| Life.SetCellSame | ch15/Conway.java:118-132 | leaving a cell at its state changes no cell of the board |
| Grid.GridCanvas.constructor | ch15/Conway.java:20 | a new grid has the requested size and every cell dead |
| Grid.GridCanvas.NumRows | ch15/Conway.java:141 | the row count is the board's number of rows |
| Grid.GridCanvas.NumCols | ch15/Conway.java:142 | the column count is the length of every row of the board |
| Grid.GridCanvas.Test | ch15/Conway.java:100-107 | the grid's probe is the board's tolerant probe |
| Grid.GridCanvas.GetCell | ch15/Conway.java:164 | reading an on-grid cell gives its state on the board |
| Grid.GridCanvas.TurnOn | ch15/Conway.java:21-26 | turning a cell on sets that cell and keeps every other one |
| Grid.GridCanvas.TurnOff | ch15/Conway.java:124 | turning a cell off clears that cell and keeps every other one |
| Blinkers.Start | ch15/Conway.java:19-27 | the built-in start is a 5 x 10 board; StartFromBlank ties it to the constructor's turnOn calls and BlinkersOscillate gives its period |
| Blinkers.StartFromBlank | ch15/Conway.java:19-27 | the six turnOn calls on a blank 5 x 10 board give a horizontal Blinker at (2, 1..3) and a vertical one at (1..3, 7) |
| Blinkers.StepSwapsPhase | ch15/Conway.java:173-176 | one generation takes the board of either Blinker phase to the board of the other phase |
| Blinkers.BlinkersOscillate | ch15/Conway.java:16-27 | one generation of the start swaps the Blinkers' orientations; a second one restores the start exactly |
| Game.Conway.constructor | ch15/Conway.java:19-27 | the default game's grid is a fresh 5 x 10 grid holding the two Blinkers of the start |
| Game.Parse | ch15/Conway.java:37-61 | the decoder the file's kind selects, as a value; Open is proved against it |
| Game.Conway.Open | ch15/Conway.java:29-89 | a `.cells` or `.rle` file gives the decoder's board or stops on its fault; any other kind gives a game without a grid |
| Game.Conway.CountAlive | ch15/Conway.java:98-109 | the count read through the grid is the board's neighbour count |
| Game.Conway.UpdateCell | ch15/Conway.java:117-133 | the cell gets the rule's new state and no other cell changes |
| Game.Conway.CountNeighbors | ch15/Conway.java:140-151 | a fresh rows x cols table holds every cell's neighbour count; no cell changes |
| Game.Conway.UpdateGrid | ch15/Conway.java:158-168 | every cell gets the rule applied to its old state and its own table entry; the shape is kept |
| Game.Conway.Update | ch15/Conway.java:173-176 | the new board is one generation of the old board, a function of the old board alone |
| PlainText.Decode | ch15/Conway.java:37-59 | the `.cells` decoder as a value; characterised by FirstLineIgnored, DecodeSize, InteriorSeeded, OriginSeeded, EdgeNeverSeeded and DecodeFails; DecodeCells is proved equal to it |
| PlainText.MarksAre | ch15/Conway.java:41-47 | a pair is recorded exactly when its pattern line has an 'O' at its column |
| PlainText.FirstLineIgnored | ch15/Conway.java:38 | the first line of the file never changes the outcome |
| PlainText.DecodeSize | ch15/Conway.java:38-52 | the grid has one row per line after the first and as many columns as the second line is long |
| PlainText.InteriorSeeded | ch15/Conway.java:53-55 | a cell off row 0 and column 0 is on exactly when its pattern line has an 'O' there |
| PlainText.OriginSeeded | ch15/Conway.java:43 | (0, 0) is on exactly when the first pattern line starts with 'O' |
| PlainText.EdgeNeverSeeded | ch15/Conway.java:54-58 | any other cell of row 0 or column 0 is never on, whatever the pattern says |
| PlainText.DecodeFails | ch15/Conway.java:32-59 | decoding fails exactly on an empty file, more than 100 'O's, or a seeded 'O' at or past the width |
| PlainText.ScanRow | ch15/Conway.java:41-49 | one pattern line appends its marks to the buffer, or reports the mark that overflows it; zeros stay after the fill level |
| PlainText.ScanCells | ch15/Conway.java:38-51 | the scan reports overflow exactly when there are more than 100 'O's; otherwise the buffer holds the marks in reading order, then zeros, and the size and (0, 0) flag are right |
| PlainText.SeedAllIsSeeded | ch15/Conway.java:53-59 | walking the whole buffer over a blank grid gives the seeded board |
| PlainText.SeedCells | ch15/Conway.java:53-59 | seeding hits the grid's edge exactly when a seeded mark is at or past the width; otherwise the grid holds the seeded board |
| PlainText.DecodeCells | ch15/Conway.java:37-60 | the decoder gives a fresh grid holding the specified board, or stops on the specified fault |
| Rle.Replace | ch15/Conway.java:66 | `replace(',', ' ')` keeps the length; characterised by ReplaceAt, ReplaceAppend and ReplaceKeeps |
| Rle.ReplaceAt | ch15/Conway.java:66 | each character of the result is the input's character with a comma turned into a space |
| Rle.Split | ch15/Conway.java:66 | `split("[ ]")`; characterised by SplitIsPieces and SplitJoin |
| Rle.JoinPieces | ch15/Conway.java:66 | splitting at every space and joining with single spaces gives the text back |
| Rle.PiecesJoin | ch15/Conway.java:66 | joining space-free pieces and splitting at every space gives the pieces back |
| Rle.SplitJoin | ch15/Conway.java:66 | with trailing empty pieces dropped, space-free pieces ending in a non-empty one are split back out of their join |
| Rle.SplitIsPieces | ch15/Conway.java:66 | the split is the pieces up to the last non-empty one, or the text itself when it has no space; no token holds a space |
| Rle.ParseInt | ch15/Conway.java:67 | `Integer.parseInt` gives a 32-bit value or none; characterised by ParseIntAccepts, ParseShow and ParseNegativeShow |
| Rle.ParseIntAccepts | ch15/Conway.java:67 | a number is read only from digits after an optional sign; unsigned digits give their value |
| Rle.ParseDigits | ch15/Conway.java:67 | any non-empty run of ASCII digits, leading zeros included, bare or after '+', gives its value when that is at most 2^31 - 1; after '-' it gives minus its value when that is at most 2^31 |
| Rle.ParseShow | ch15/Conway.java:67 | every 32-bit non-negative number is read back from its decimal digits |
| Rle.ParseNegativeShow | ch15/Conway.java:67 | every 32-bit negative number is read back from '-' and its digits |
| Rle.Header | ch15/Conway.java:66-67 | the header's size (rows from token 6, columns from token 2 of the line with commas as spaces), or none; characterised by HeaderRoundTrip, HeaderWithFields, GliderHeader and CompactHeaderRejected |
| Rle.HeaderRoundTrip | ch15/Conway.java:66-67 | the header "x = cols, y = rows" reads back as rows x cols |
| Rle.HeaderWithFields | ch15/Conway.java:66-67 | "x = cols, y = rows, " followed by any further fields reads back as rows x cols, whatever those fields say |
| Rle.GliderHeader | ch15/Conway.java:66-67 | the header "x = 3, y = 3, rule = B3/S23" of the glider file opened by `main` (line 205) gives a 3 x 3 grid |
| Rle.CompactHeaderRejected | ch15/Conway.java:66-67 | the header is read by token position: "x=3,y=3" has too few tokens and gives no size |
| Rle.BodyLine | ch15/Conway.java:69-79 | one body line drawn from a cursor keeps the board's shape; characterised by RowDrawn, RowBreak, OnlyCommandsMatter, RunCountIgnored, BangEndsLine, LinesJoin, BodyOnlyTurnsOn and GliderBodyDrawsThree |
| Rle.RowBreak | ch15/Conway.java:72-75 | after text without '!', a '$' moves the cursor to column 0 of the next row, and what follows is drawn from there on the board the text left |
| Rle.GliderBodyDrawsThree | ch15/Conway.java:69-79 | the body `bob$2bo$3o!` of the glider file opened by `main` (line 205), drawn on a blank 3 x 3 grid, turns on only (0, 1), (1, 1) and (2, 0), because its run counts are skipped |
| Rle.RowDrawn | ch15/Conway.java:76-77 | a run of 'o' and 'b' that fits on the row turns on exactly its 'o' cells and moves the cursor past it |
| Rle.OnlyCommandsMatter | ch15/Conway.java:69-79 | a body line draws what its '$', 'o', 'b' and '!' characters alone draw |
| Rle.RunCountIgnored | ch15/Conway.java:70-71 | a run count in front of a command changes nothing |
| Rle.BangEndsLine | ch15/Conway.java:78 | nothing after a '!' on its line is read |
| Rle.BangEndsOnlyLine | ch15/Conway.java:62-83 | in a file, a body line with a '!' reads as the line cut just after the '!', and the lines after it are still read from the cursor it leaves |
| Rle.LinesJoin | ch15/Conway.java:62-79 | the cursor carries over line breaks: two lines read as their concatenation, provided the first has no '!' |
| Rle.BodyOnlyTurnsOn | ch15/Conway.java:76 | the body never turns a live cell off |
| Rle.RleFrom | ch15/Conway.java:62-83 | the decoder over the remaining lines from before or after the header; characterised by CommentSkipped, DecodeSize and AbsentIffAllComments |
| Rle.Decode | ch15/Conway.java:61-84 | the `.rle` decoder as a value: RleFrom from before the header; DecodeRle is proved equal to it |
| Rle.CommentSkipped | ch15/Conway.java:64 | a comment line anywhere in the file changes nothing |
| Rle.DecodeSize | ch15/Conway.java:65-67 | after leading comments, the header fixes the grid's size for the rest of the file |
| Rle.AbsentIffAllComments | ch15/Conway.java:62-67 | the game gets no grid exactly when every line is a comment |
| Rle.DrawLine | ch15/Conway.java:69-79 | the loop over one body line draws what the body-line function draws, cursor included, or stops where it stops |
| Rle.DecodeRle | ch15/Conway.java:61-84 | the decoder gives a fresh grid holding the specified board, no grid, or the specified fault |

## Left out

- File, `Scanner` and the `FileNotFoundException` handler with `System.exit`: this is I/O. A decoder reads the file's lines as a `seq<string>`.
- The extension dispatch through `path.split("[.]")` is reduced to the `Format` value passed to `Conway.Open`. The source compares the second '.'-separated piece of the path, which is the extension only when the path holds exactly one '.'. A path without a '.' makes `fileType[1]` throw. A path with more than one '.', such as `./glider.rle`, compares `/glider`, so neither decoder runs and the game gets no grid. Neither case is modelled.
- `mainloop`, `main`, `repaint`, `Thread.sleep` and the JFrame: timing and rendering.
- The cell-size argument `20` of `GridCanvas`: rendering only.
- `Cell` objects are flattened to the `bool` at their grid position; `getCell` returns that state. Aliasing between `Cell` objects is not modelled.
- `test`, `numRows`, `numCols`, `turnOn` and `turnOff` are the grid stand-in's operations. The real `GridCanvas` is not part of this model.
- Game.Conway.CountNeighbors, Game.Conway.UpdateGrid, Game.Conway.Update: require a grid. A game whose pattern file gave no grid throws on its first update in the source.
- The 32-bit wrap-around of the `row`, `col`, `index` and `line` counters: a file would need over 2^31 lines or characters to reach it.
- Rle.ParseInt: reads ASCII digits only; `Integer.parseInt` also accepts other Unicode decimal digits.
- Running out of memory on a huge header size.
- `numCols` on a grid of zero rows: the real grid object may throw there. The stand-in answers the declared width (a header "x = 5, y = 0" gives a 0 x 5 grid whose column count is 5), and CountNeighbors and Update run on such a grid without throwing.
- PlainText.RowMarks, PlainText.Width: Java's `charAt` and `length()` count UTF-16 code units, while a Dafny string is a sequence of Unicode scalar values. A character outside the Basic Multilingual Plane before an 'O' in a `.cells` line puts that 'O' one column further in the source than in the model, and adds one to that line's length. The `.rle` decoder is not affected: its cursor counts only the `$`, `o` and `b` commands, and its header splits only at commas and spaces.
