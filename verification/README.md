# Sudoku game engine — a Dafny model

This project models the game engine of a single-page Sudoku game. The game
shows a 9x9 board seeded from a fixed pool of puzzles, takes the player's
input, and checks the board against the rules of Sudoku and against the
puzzle's solution. The model covers the parts of `src/App.js` that hold
logic rather than markup:

- **Placement rule** (`Validation.IsValidPlacement`). A non-zero value
  conflicts when it repeats on another cell of the same row, column or 3x3
  box. The value 0 (empty) never conflicts.
- **Two-pass check** (`Validation.CheckBoard`, `Validation.ScanCheck`). The
  check gives one of four outcomes, in this order of precedence:
  1. rule conflict, flagging the offending player cells;
  2. incomplete board;
  3. incorrect against the solution, flagging the differing cells;
  4. solved.
- **Highlights** (`Highlight.HighlightedCells`, `Highlight.SameValueCells`).
  The peers of the selected cell, and every other cell that shows the
  selected value.
- **Controller** (`Game`). One state value holds:
  - the three boards: the puzzle as given, the player's board and the solution;
  - the selection and the flagged cells;
  - the message, the solved flag, the difficulty and the loading flag.

  Each player action is a pure function from one state to the next:
  select, type, key press, palette digit, erase, check, new game and
  change difficulty. `Game.Run` folds a sequence of actions.

Boards are immutable `seq<seq<int>>` values of a 9x9 subset type
(`Board.Grid`). Flagged cells are a `set<Coord>`. The game keeps them in an
array, but it only ever asks whether a cell is in it. The random choice of a
puzzle is a parameter: a real number in [0, 1), standing for the result of
`Math.random()`. The puzzle pool is a parameter too: a map from difficulty
names to sequences of entries.

Two invariants are proved over every run of actions:
- `Game.Consistent` needs no assumption about the puzzle data. The given
  cells are never overwritten, only player cells are flagged, and a solved
  game has no selection and no flags.
- `Game.Sound` holds when every pool entry is well formed. A game is only
  ever declared solved when the board equals the solution.

The check is a pure function of the three boards, so running it twice on
the same boards gives the same outcome. `Game.CheckIsIdempotent` states
this for the whole game state.

Details of the code's behaviour that the model keeps:
- The Backspace and Delete keys only act on a filled player cell. On an
  empty cell they change nothing: the flags and the message stay. The erase
  button instead always goes through the edit, which clears the cell's flag
  and the message.
- Changing the difficulty records the new name even when no puzzle can be
  loaded for it.
- A name that is a key of the pool is used even when its list is empty. So
  an empty pool for a known difficulty reports an error for that
  difficulty; it does not fall back to the default.
- A newly loaded puzzle gives the puzzle board and the player's board one
  shared copy. The copy is never changed in place, since every edit copies
  the board first. With immutable values the two boards are simply equal
  at load time.

## Model

| member | source | states |
|---|---|---|
| `Board.Update` | src/App.js:528 | setting one cell changes that cell to the new value and no other cell |
| `Validation.RowClear` | src/App.js:17-19 | the row scan passes exactly when no other column of the row holds the value |
| `Validation.ColClear` | src/App.js:21-23 | the column scan passes exactly when no other row of the column holds the value |
| `Validation.BoxRowClear` | src/App.js:28-30 | one row of the box scan passes exactly when no cell of it other than the placed one holds the value |
| `Validation.BoxClear` | src/App.js:25-31 | the box scan, starting at the box corner `floor(r/3)*3`, passes exactly when no other cell of the box holds the value |
| `Validation.SameBoxIsBoxRange` | src/App.js:25-27 | sharing a box (equal `row/3` and `col/3`) is the same as lying in the three rows and columns from the box corner |
| `Validation.PlacementMeansNoClash` | src/App.js:16-31 | the three scans together pass exactly when no peer of the cell holds the value |
| `Validation.IsValidPlacement` | src/App.js:13-33 | 0 is always valid; a non-zero value is invalid exactly when some other cell in the same row, column or box holds it; the cell itself is never counted |
| `Validation.ConflictCells` | src/App.js:547 | the cells a conflict outcome flags are exactly the non-given, non-empty cells that break the placement rule |
| `Validation.MismatchCells` | src/App.js:550 | the cells an incorrect outcome flags are exactly the non-given cells that differ from the solution |
| `Validation.CheckBoard` | src/App.js:546-551 | a rule conflict takes precedence even on an incomplete board; otherwise an empty cell means incomplete; otherwise solved exactly when no player cell differs from the solution; each outcome flags exactly its own cells and never a given |
| `Validation.ScanRulesRow` | src/App.js:547 | one row of the first pass collects exactly that row's conflicting player cells and reports whether the row has an empty cell |
| `Validation.ScanRules` | src/App.js:546-547 | the first pass collects exactly the conflicting player cells and reports completeness of the whole board |
| `Validation.ScanSolutionRow` | src/App.js:550 | one row of the second pass collects exactly that row's player cells that differ from the solution |
| `Validation.ScanSolution` | src/App.js:549-550 | the second pass collects exactly the player cells that differ from the solution |
| `Validation.ScanCheck` | src/App.js:546-551 | the two passes with their early returns give the same outcome as the set-level check on every input |
| `Validation.SolvedExactlyAtSolution` | src/App.js:548-551 | for a well-formed puzzle whose givens are still on the board, the check reports solved exactly when the board equals the solution |
| `Validation.RepeatedValueIsFlagged` | src/App.js:547-548 | a player cell repeating a value held by one of its peers is flagged and the outcome is a rule conflict, whether or not the board is full |
| `Highlight.HighlightedCells` | src/App.js:501-509 | nothing is highlighted without a selection; otherwise the highlighted set is exactly the cells sharing the selected cell's row, column or box, minus the cell itself, and it has 20 members |
| `Highlight.PeersAreRowColumnBox` | src/App.js:503-507 | the row, column and box cells minus the selected one are exactly its peers: 8 in the row, 8 in the column and 4 more in the box |
| `Highlight.SameValueCells` | src/App.js:510-516 | empty without a selection, without a board, or when the selected cell is empty; otherwise exactly the other cells anywhere on the board holding the selected value, in row-major order without repeats |
| `Input.KeepDigits` | src/App.js:526 | the filtered input holds only '1'..'9', has the same digit characters as the input (as a set), is no longer than it, is empty exactly when the input has none, and starts with the input's first such digit |
| `Input.ParseCell` | src/App.js:526-527 | a raw input becomes the value of its first character in '1'..'9', or 0 when it has none |
| `Input.PaletteDigitRoundTrip` | src/App.js:539 | a palette digit sent as its one-character string reads back as that digit, and the empty string reads as 0 |
| `Puzzles.ResolveDifficulty` | src/App.js:457 | a difficulty that is a key of the pool is kept, whatever its list holds; any other falls back to "medium" |
| `Puzzles.PickIndex` | src/App.js:470 | the index `floor(rand * n)` drawn by a random number in [0, 1) is always inside the pool |
| `Puzzles.EveryIndexCanBeDrawn` | src/App.js:470 | every entry of a non-empty pool is drawn by some random number in [0, 1) |
| `Game.Verdict` | src/App.js:548-551 | the message has the success style exactly for the solved outcome |
| `Game.Select` | src/App.js:519-523 | once solved, selecting changes nothing; otherwise the selection is set and the flags and message are cleared, with the boards and the loading flag untouched |
| `Game.Edit` | src/App.js:524-530 | no change when solved, before a puzzle is loaded, or on a given; otherwise the cell becomes the first digit of the input (or 0), no other cell changes, only that cell's flag is removed and the message is cleared; the selection, difficulty and loading flag stay |
| `Game.NumberInput` | src/App.js:538-540 | with no selection nothing happens; otherwise the palette digit goes through the guarded edit, and when the board changes the selected cell holds that digit |
| `Game.Erase` | src/App.js:541-543 | with no selection nothing happens; otherwise the erase goes through the guarded edit, and when the board changes the selected cell is empty |
| `Game.Move` | src/App.js:534-535 | an arrow moves the selection one cell in its direction exactly when the result stays in rows and columns 0..8; other keys never move |
| `Game.KeyDown` | src/App.js:531-537 | nothing happens when solved or before a puzzle is loaded; Backspace and Delete empty a filled player cell through the guarded edit; an arrow that stays on the board selects the neighbour; anything else changes nothing |
| `Game.Check` | src/App.js:544-552 | no change when solved or before a puzzle is loaded; otherwise the flags and message are those of the outcome, and the game becomes solved, dropping the selection, exactly when the outcome is solved; boards, difficulty and loading flag stay |
| `Game.Load` | src/App.js:455-484 | when the resolved difficulty has no entries, only an error message naming it is set; otherwise some entry of that pool becomes the puzzle, the player's board and the solution, and selection, flags, message and solved flag are reset |
| `Game.Mount` | src/App.js:487-490 | the game starts on "medium" and has a board exactly when the pool has "medium" puzzles; that board is one "medium" entry (puzzle, player's board = puzzle, solution) with a cleared message, and otherwise the message names "medium"; loading has ended |
| `Game.NewGame` | src/App.js:553 | the active difficulty is kept; when its resolved pool has entries one entry of that pool becomes the puzzle, the player's board and the solution, and selection, flags, message and solved flag reset; otherwise only the error message naming the resolved difficulty is set |
| `Game.ChangeDifficulty` | src/App.js:493-498 | choosing the active difficulty changes nothing; another one becomes active and a puzzle is loaded for it |
| `Game.StartIsSound` | src/App.js:443-452 | the game starts with no boards, no selection, no flags, an empty message, unsolved, on "medium" and loading, and that state is sound |
| `Game.StepKeepsConsistent` | src/App.js:525 | every action keeps the givens on the board, flags only player cells, and keeps a solved game without selection or flags |
| `Game.RunKeepsConsistent` | src/App.js:524-543 | the same holds after any sequence of actions, whatever the puzzle data |
| `Game.CheckSolvesOnlyAtSolution` | src/App.js:548-551 | for a well-formed puzzle, checking declares the game solved exactly when the board equals the solution |
| `Game.StepKeepsSound` | src/App.js:544-551 | with well-formed puzzle data every action keeps a solved game showing the solution |
| `Game.RunKeepsSound` | src/App.js:455-552 | with well-formed puzzle data no sequence of actions reaches a solved game whose board differs from the solution |
| `Game.GivensNeverChange` | src/App.js:524-543 | without loading a new puzzle, no sequence of actions changes the puzzle, the solution or any given cell |
| `Game.SolvedGameIsLocked` | src/App.js:519-552 | a solved game is left unchanged by every sequence of actions that loads no new puzzle |
| `Game.OnlyLoadingUnlocks` | src/App.js:482 | only new game or change of difficulty can leave the solved state, and only by loading a puzzle with no selection and no flags |
| `Game.CheckIsIdempotent` | src/App.js:544-552 | checking twice in a row gives the same game as checking once |

## Left out

- `src/index.js`: it only mounts the page component and holds no logic.
- The puzzle data (src/App.js:37-321) is not transcribed. Several entries
  have solution cells of 0 or repeated digits. `Puzzles.WellFormedEntry`
  states what an entry is meant to be. Invariants that depend on it take it
  as a hypothesis; `Game.Consistent` holds without it.
- `deepCopyBoard` (src/App.js:10) has no member of its own. Boards are
  immutable values, so a copy is the value itself, and the freedom from
  aliasing it provides holds by construction.
- Rendering, styling, and the order in which cell styles take precedence.
  These are presentation only.
- Input focus, caret placement, `preventDefault`, and the document-level
  click-outside listener. These are browser I/O. A click outside the board
  is the action `SelectCell(None)`.
- The cell component forwards key presses and typing only for non-given
  cells (src/App.js:334-335). The handlers are modelled as written, and they
  guard givens themselves.
- `Math.random()`: the random number is a parameter in [0, 1). The model
  uses exact reals, not floating point.
- `console.error` on a missing pool (src/App.js:461): a log line, not state.
  The message the player sees is modelled.
- The `setIsLoading(true)` before a puzzle is drawn (src/App.js:468): within
  one atomic load it is overwritten by `setIsLoading(false)` at the end, so
  no state ever shows it. The model keeps only the final value.
- `highlightedCells` is an ordered array (src/App.js:503-508), but the page
  only asks whether a cell is in it (src/App.js:375). The model gives the
  set of its cells.
- React's batching of state updates and hook dependency lists: each
  handler is one atomic transition on one state value.
- Handlers called with a row or column outside 0..8, or called while the
  boards have another shape: the page never does this. The model's
  coordinates and boards are typed so that it cannot happen.
- `Puzzles.ResolveDifficulty`: it does not model JavaScript property
  lookup of inherited names such as "toString" on the pool object. Only the
  pool's own keys count.
- Typing into a cell that already shows a digit: the page's one-character
  input limit is browser behaviour. The edit models whatever string the
  input delivers.
