/** The game controller: one state value and the transitions the player's
    actions cause. Each handler is one atomic step from a state to the next. */
module Game {
  import opened Board
  import opened Validation
  import opened Input
  import opened Puzzles

  datatype Tone = Info | Failure | Success

  /** The line of text shown under the board, with its styling class. */
  datatype Message = Message(text: string, tone: Tone)

  const Cleared: Message := Message("", Info)

  function NoPuzzles(key: string): Message {
    Message("Error: No " + key + " puzzles available.", Failure)
  }

  /** The message a check reports for each outcome. */
  function Verdict(o: Outcome): (m: Message)
    ensures m.tone == Success <==> o.Solved?
  {
    match o
    case RulesConflict(_) => Message("Some numbers conflict.", Failure)
    case Incomplete => Message("Board not complete.", Failure)
    case Incorrect(_) => Message("Almost! Some numbers incorrect.", Failure)
    case Solved => Message("Congratulations! Solved!", Success)
  }

  /** The puzzle as given, the board the player edits, and the target. */
  datatype Boards = Boards(initial: Grid, current: Grid, solution: Grid)

  /** Everything the game tracks. `boards` is `None` until a puzzle has been
      loaded. */
  datatype Game = Game(
    boards: Option<Boards>,
    selected: Option<Cell>,
    errors: set<Coord>,
    message: Message,
    solved: bool,
    difficulty: string,
    loading: bool)

  /** The state before the first puzzle is loaded. */
  const Start: Game := Game(None, None, {}, Cleared, false, DefaultDifficulty, true)

  predicate IsGiven(g: Game, q: Cell) {
    g.boards.Some? && At(g.boards.value.initial, q) != 0
  }

  // ---------------------------------------------------------------------
  // Selection
  // ---------------------------------------------------------------------

  /** Selecting a cell (or nothing) clears the flagged cells and the message;
      once solved the game ignores it. */
  function Select(g: Game, sel: Option<Cell>): (g': Game)
    ensures g.solved ==> g' == g
    ensures !g.solved ==> g'.selected == sel && g'.errors == {} && g'.message == Cleared
    ensures g'.boards == g.boards && g'.solved == g.solved && g'.difficulty == g.difficulty
    ensures g'.loading == g.loading
  {
    if g.solved then g else g.(selected := sel, errors := {}, message := Cleared)
  }

  // ---------------------------------------------------------------------
  // Editing
  // ---------------------------------------------------------------------

  /** Typing `input` into cell `at`. Ignored when solved, before a puzzle is
      loaded, and on a given. Otherwise the cell takes the first digit 1..9
      of the input (0 when there is none), that cell alone loses its flag,
      and the message is cleared. */
  function Edit(g: Game, at: Cell, input: string): (g': Game)
    ensures g.solved || g.boards.None? || IsGiven(g, at) ==> g' == g
    ensures !(g.solved || g.boards.None? || IsGiven(g, at)) ==>
              && g'.boards.Some?
              && g'.boards.value.initial == g.boards.value.initial
              && g'.boards.value.solution == g.boards.value.solution
              && At(g'.boards.value.current, at) == ParseCell(input)
              && (forall q: Cell :: q != at ==> At(g'.boards.value.current, q) == At(g.boards.value.current, q))
              && g'.errors == g.errors - {at}
              && g'.message == Cleared
              && g'.selected == g.selected && g'.solved == g.solved && g'.difficulty == g.difficulty
              && g'.loading == g.loading
  {
    if g.solved || g.boards.None? || IsGiven(g, at) then
      g
    else
      var b := g.boards.value;
      g.(boards := Some(b.(current := Update(b.current, at, ParseCell(input)))),
         errors := g.errors - {at},
         message := Cleared)
  }

  /** A palette button: enters `num` into the selected cell when there is
      one and it is not a given. */
  function NumberInput(g: Game, num: int): (g': Game)
    requires 1 <= num <= 9
    ensures g.selected.None? ==> g' == g
    ensures g.selected.Some? ==> g' == Edit(g, g.selected.value, [DigitChar(num)])
    ensures g.selected.Some? && g'.boards != g.boards ==> At(g'.boards.value.current, g.selected.value) == num
  {
    PaletteDigitRoundTrip(num);
    if g.selected.Some? && !g.solved && g.boards.Some? && !IsGiven(g, g.selected.value) then
      Edit(g, g.selected.value, [DigitChar(num)])
    else
      g
  }

  /** The erase button: empties the selected cell when there is one and it
      is not a given. */
  function Erase(g: Game): (g': Game)
    ensures g.selected.None? ==> g' == g
    ensures g.selected.Some? ==> g' == Edit(g, g.selected.value, "")
    ensures g.selected.Some? && g'.boards != g.boards ==> At(g'.boards.value.current, g.selected.value) == 0
  {
    if g.selected.Some? && !g.solved && g.boards.Some? && !IsGiven(g, g.selected.value) then
      Edit(g, g.selected.value, "")
    else
      g
  }

  // ---------------------------------------------------------------------
  // Keyboard
  // ---------------------------------------------------------------------

  datatype Key = Backspace | Delete | ArrowUp | ArrowDown | ArrowLeft | ArrowRight | OtherKey

  /** The cell an arrow key moves to from `at`, when it stays on the board. */
  function Move(at: Cell, key: Key): (next: Option<Cell>)
    ensures key == ArrowUp ==> (next.Some? <==> at.row > 0)
    ensures key == ArrowDown ==> (next.Some? <==> at.row < GridSize - 1)
    ensures key == ArrowLeft ==> (next.Some? <==> at.col > 0)
    ensures key == ArrowRight ==> (next.Some? <==> at.col < GridSize - 1)
    ensures key in {Backspace, Delete, OtherKey} ==> next.None?
    ensures next.Some? ==>
              var d := next.value;
              match key
              case ArrowUp => d.row == at.row - 1 && d.col == at.col
              case ArrowDown => d.row == at.row + 1 && d.col == at.col
              case ArrowLeft => d.row == at.row && d.col == at.col - 1
              case ArrowRight => d.row == at.row && d.col == at.col + 1
              case _ => false
  {
    var (dr, dc) :=
      match key
      case ArrowUp => (-1, 0)
      case ArrowDown => (1, 0)
      case ArrowLeft => (0, -1)
      case ArrowRight => (0, 1)
      case _ => (0, 0);
    var target := Coord(at.row + dr, at.col + dc);
    if (dr, dc) != (0, 0) && InGrid(target) then Some(target) else None
  }

  /** A key pressed in cell `at`. Backspace and Delete empty a filled
      player cell; an arrow selects the neighbouring cell when there is one;
      nothing happens when solved or before a puzzle is loaded. */
  function KeyDown(g: Game, key: Key, at: Cell): (g': Game)
    ensures g.solved || g.boards.None? ==> g' == g
    ensures !g.solved && g.boards.Some? && key in {Backspace, Delete} ==>
              g' == (if !IsGiven(g, at) && At(g.boards.value.current, at) != 0 then Edit(g, at, "") else g)
    ensures !g.solved && g.boards.Some? && Move(at, key).Some? ==> g' == Select(g, Move(at, key))
    ensures key !in {Backspace, Delete} && Move(at, key).None? ==> g' == g
  {
    if g.solved || g.boards.None? then
      g
    else if key == Backspace || key == Delete then
      if !IsGiven(g, at) && At(g.boards.value.current, at) != 0 then Edit(g, at, "") else g
    else
      match Move(at, key)
      case Some(next) => Select(g, Some(next))
      case None => g
  }

  // ---------------------------------------------------------------------
  // Checking
  // ---------------------------------------------------------------------

  /** The check button: flags the outcome's cells and shows its message; a
      solved board locks the game and drops the selection. */
  function Check(g: Game): (g': Game)
    ensures g.solved || g.boards.None? ==> g' == g
    ensures !g.solved && g.boards.Some? ==>
              var b := g.boards.value;
              var o := CheckBoard(b.initial, b.current, b.solution);
              && g'.errors == o.Errors()
              && g'.message == Verdict(o)
              && (g'.solved <==> o.Solved?)
              && (g'.selected == if o.Solved? then None else g.selected)
              && g'.boards == g.boards && g'.difficulty == g.difficulty && g'.loading == g.loading
  {
    if g.solved || g.boards.None? then
      g
    else
      var b := g.boards.value;
      var o := CheckBoard(b.initial, b.current, b.solution);
      var checked := g.(errors := o.Errors(), message := Verdict(o));
      if o.Solved? then checked.(solved := true, selected := None) else checked
  }

  // ---------------------------------------------------------------------
  // Loading and difficulty
  // ---------------------------------------------------------------------

  /** Loading a puzzle of difficulty `d` with the random number `rand`. An
      unknown difficulty falls back to the default; a pool with no entries
      only sets an error message. Otherwise one entry of the pool becomes
      the new puzzle and everything else is reset. */
  function Load(pool: Pool, g: Game, d: string, rand: real): (g': Game)
    requires 0.0 <= rand < 1.0
    ensures var key := ResolveDifficulty(pool, d);
            key !in pool || pool[key] == [] ==>
              && g'.message == NoPuzzles(key)
              && g'.boards == g.boards && g'.selected == g.selected && g'.errors == g.errors
              && g'.solved == g.solved
    ensures var key := ResolveDifficulty(pool, d);
            key in pool && pool[key] != [] ==>
              && (exists i :: 0 <= i < |pool[key]|
                    && g'.boards == Some(Boards(pool[key][i].puzzle, pool[key][i].puzzle, pool[key][i].solution)))
              && g'.selected.None? && g'.errors == {} && g'.message == Cleared && !g'.solved
    ensures g'.difficulty == g.difficulty && !g'.loading
  {
    var key := ResolveDifficulty(pool, d);
    if key !in pool || |pool[key]| == 0 then
      g.(message := NoPuzzles(key), loading := false)
    else
      var entry := pool[key][PickIndex(rand, |pool[key]|)];
      g.(boards := Some(Boards(entry.puzzle, entry.puzzle, entry.solution)),
         selected := None,
         errors := {},
         message := Cleared,
         solved := false,
         loading := false)
  }

  /** The first load, when the game starts. */
  function Mount(pool: Pool, rand: real): (g': Game)
    requires 0.0 <= rand < 1.0
    ensures g'.difficulty == DefaultDifficulty && !g'.solved && g'.selected.None? && g'.errors == {}
    ensures !g'.loading
    ensures g'.boards.Some? <==> DefaultDifficulty in pool && pool[DefaultDifficulty] != []
    ensures DefaultDifficulty in pool && pool[DefaultDifficulty] != [] ==>
              && (exists i :: 0 <= i < |pool[DefaultDifficulty]|
                    && g'.boards == Some(Boards(pool[DefaultDifficulty][i].puzzle,
                                                pool[DefaultDifficulty][i].puzzle,
                                                pool[DefaultDifficulty][i].solution)))
              && g'.message == Cleared
    ensures !(DefaultDifficulty in pool && pool[DefaultDifficulty] != []) ==>
              g'.message == NoPuzzles(DefaultDifficulty)
  {
    Load(pool, Start, Start.difficulty, rand)
  }

  /** The new-game button: a fresh puzzle of the current difficulty, which
      stays active whether or not a puzzle can be loaded for it. */
  function NewGame(pool: Pool, g: Game, rand: real): (g': Game)
    requires 0.0 <= rand < 1.0
    ensures g'.difficulty == g.difficulty && !g'.loading
    ensures var key := ResolveDifficulty(pool, g.difficulty);
            key in pool && pool[key] != [] ==>
              && (exists i :: 0 <= i < |pool[key]|
                    && g'.boards == Some(Boards(pool[key][i].puzzle, pool[key][i].puzzle, pool[key][i].solution)))
              && g'.selected.None? && g'.errors == {} && g'.message == Cleared && !g'.solved
    ensures var key := ResolveDifficulty(pool, g.difficulty);
            key !in pool || pool[key] == [] ==>
              g' == g.(message := NoPuzzles(key), loading := false)
  {
    Load(pool, g, g.difficulty, rand)
  }

  /** Choosing a difficulty: nothing happens when it is already the active
      one; otherwise it becomes active and a puzzle of it is loaded. */
  function ChangeDifficulty(pool: Pool, g: Game, d: string, rand: real): (g': Game)
    requires 0.0 <= rand < 1.0
    ensures d == g.difficulty ==> g' == g
    ensures d != g.difficulty ==> g'.difficulty == d && g' == NewGame(pool, g.(difficulty := d), rand)
  {
    if d == g.difficulty then g else Load(pool, g.(difficulty := d), d, rand)
  }

  // ---------------------------------------------------------------------
  // Runs of player actions
  // ---------------------------------------------------------------------

  /** Everything the player (or the page) can do to the game. */
  datatype Command =
    | SelectCell(sel: Option<Cell>)
    | TypeInto(at: Cell, input: string)
    | PressKey(key: Key, at: Cell)
    | PressNumber(num: int)
    | PressErase
    | PressCheck
    | PressNewGame(rand: real)
    | PickDifficulty(d: string, rand: real)

  /** The palette only offers 1..9 and a random draw lies in [0, 1). */
  predicate Admissible(c: Command) {
    match c
    case PressNumber(n) => 1 <= n <= 9
    case PressNewGame(rand) => 0.0 <= rand < 1.0
    case PickDifficulty(_, rand) => 0.0 <= rand < 1.0
    case _ => true
  }

  predicate AllAdmissible(cs: seq<Command>) {
    forall i :: 0 <= i < |cs| ==> Admissible(cs[i])
  }

  /** The two actions that may load a new puzzle. */
  predicate Loads(c: Command) {
    c.PressNewGame? || c.PickDifficulty?
  }

  predicate NoLoads(cs: seq<Command>) {
    forall i :: 0 <= i < |cs| ==> !Loads(cs[i])
  }

  function Step(pool: Pool, g: Game, c: Command): Game
    requires Admissible(c)
  {
    match c
    case SelectCell(sel) => Select(g, sel)
    case TypeInto(at, input) => Edit(g, at, input)
    case PressKey(key, at) => KeyDown(g, key, at)
    case PressNumber(n) => NumberInput(g, n)
    case PressErase => Erase(g)
    case PressCheck => Check(g)
    case PressNewGame(rand) => NewGame(pool, g, rand)
    case PickDifficulty(d, rand) => ChangeDifficulty(pool, g, d, rand)
  }

  function Run(pool: Pool, g: Game, cs: seq<Command>): Game
    requires AllAdmissible(cs)
    decreases |cs|
  {
    if cs == [] then g else Run(pool, Step(pool, g, cs[0]), cs[1..])
  }

  /** What every reachable state satisfies, whatever the puzzle data: the
      board still shows every given, only player cells are flagged, and a
      solved game has a board, no selection and no flags. */
  ghost predicate Consistent(g: Game) {
    && (g.boards.Some? ==> GivensKept(g.boards.value.initial, g.boards.value.current))
    && (forall q :: q in g.errors ==> InGrid(q) && g.boards.Some? && At(g.boards.value.initial, q) == 0)
    && (g.solved ==> g.boards.Some? && g.selected.None? && g.errors == {})
  }

  /** With well-formed puzzle data, additionally: the loaded puzzle is a
      well-formed entry, and a solved game shows exactly the solution. */
  ghost predicate Sound(g: Game) {
    && Consistent(g)
    && (g.boards.Some? ==> WellFormedEntry(Entry(g.boards.value.initial, g.boards.value.solution)))
    && (g.solved ==> g.boards.value.current == g.boards.value.solution)
  }

  /** The game starts with no puzzle, no selection, no flags, an empty
      message, unsolved, on the default difficulty and loading; that state
      is sound. */
  lemma StartIsSound()
    ensures Start.boards.None? && Start.selected.None? && Start.errors == {}
    ensures Start.message == Cleared && !Start.solved && Start.loading
    ensures Start.difficulty == DefaultDifficulty
    ensures Sound(Start)
  {
  }

  lemma EditKeepsConsistent(g: Game, at: Cell, input: string)
    requires Consistent(g)
    ensures Consistent(Edit(g, at, input))
  {
  }

  lemma CheckKeepsConsistent(g: Game)
    requires Consistent(g)
    ensures Consistent(Check(g))
  {
  }

  lemma LoadKeepsConsistent(pool: Pool, g: Game, d: string, rand: real)
    requires 0.0 <= rand < 1.0
    requires Consistent(g)
    ensures Consistent(Load(pool, g, d, rand))
  {
  }

  /** Every action keeps a consistent game consistent. In particular a given
      is never overwritten: typing, the palette, erase, Backspace and Delete
      all go through the guarded edit. */
  lemma StepKeepsConsistent(pool: Pool, g: Game, c: Command)
    requires Admissible(c)
    requires Consistent(g)
    ensures Consistent(Step(pool, g, c))
  {
    match c
    case TypeInto(at, input) => EditKeepsConsistent(g, at, input);
    case PressCheck => CheckKeepsConsistent(g);
    case PressNewGame(rand) => LoadKeepsConsistent(pool, g, g.difficulty, rand);
    case PickDifficulty(d, rand) =>
      if d != g.difficulty {
        LoadKeepsConsistent(pool, g.(difficulty := d), d, rand);
      }
    case _ =>
  }

  lemma {:induction false} RunKeepsConsistent(pool: Pool, g: Game, cs: seq<Command>)
    requires AllAdmissible(cs)
    requires Consistent(g)
    ensures Consistent(Run(pool, g, cs))
    decreases |cs|
  {
    if cs != [] {
      StepKeepsConsistent(pool, g, cs[0]);
      RunKeepsConsistent(pool, Step(pool, g, cs[0]), cs[1..]);
    }
  }

  /** Checking a consistent game of a well-formed puzzle declares it solved
      exactly when the board is the solution. */
  lemma CheckSolvesOnlyAtSolution(g: Game)
    requires Sound(g)
    requires !g.solved && g.boards.Some?
    ensures Check(g).solved <==> g.boards.value.current == g.boards.value.solution
  {
    var b := g.boards.value;
    SolvedExactlyAtSolution(b.initial, b.current, b.solution);
  }

  lemma StepKeepsSound(pool: Pool, g: Game, c: Command)
    requires WellFormedPool(pool)
    requires Admissible(c)
    requires Sound(g)
    ensures Sound(Step(pool, g, c))
  {
    StepKeepsConsistent(pool, g, c);
    if c.PressCheck? && !g.solved && g.boards.Some? {
      CheckSolvesOnlyAtSolution(g);
    }
  }

  /** From the start, and with well-formed puzzle data, no run of actions can
      reach a game that is solved without showing the solution. */
  lemma {:induction false} RunKeepsSound(pool: Pool, g: Game, cs: seq<Command>)
    requires WellFormedPool(pool)
    requires AllAdmissible(cs)
    requires Sound(g)
    ensures Sound(Run(pool, g, cs))
    ensures Run(pool, g, cs).solved ==> Run(pool, g, cs).boards.value.current == Run(pool, g, cs).boards.value.solution
    decreases |cs|
  {
    if cs != [] {
      StepKeepsSound(pool, g, cs[0]);
      RunKeepsSound(pool, Step(pool, g, cs[0]), cs[1..]);
    }
  }

  /** Without a new puzzle, no run of actions changes the puzzle, the
      solution, or any given cell of the board. */
  lemma {:induction false} GivensNeverChange(pool: Pool, g: Game, cs: seq<Command>)
    requires AllAdmissible(cs)
    requires NoLoads(cs)
    requires g.boards.Some?
    ensures Run(pool, g, cs).boards.Some?
    ensures Run(pool, g, cs).boards.value.initial == g.boards.value.initial
    ensures Run(pool, g, cs).boards.value.solution == g.boards.value.solution
    ensures forall q: Cell :: IsGiven(g, q) ==>
              At(Run(pool, g, cs).boards.value.current, q) == At(g.boards.value.current, q)
    decreases |cs|
  {
    if cs != [] {
      var g1 := Step(pool, g, cs[0]);
      assert g1.boards.Some? && g1.boards.value.initial == g.boards.value.initial;
      assert g1.boards.value.solution == g.boards.value.solution;
      assert forall q: Cell :: IsGiven(g, q) ==> At(g1.boards.value.current, q) == At(g.boards.value.current, q);
      GivensNeverChange(pool, g1, cs[1..]);
    }
  }

  /** A solved game ignores every action except loading a new puzzle. */
  lemma {:induction false} SolvedGameIsLocked(pool: Pool, g: Game, cs: seq<Command>)
    requires AllAdmissible(cs)
    requires NoLoads(cs)
    requires g.solved
    ensures Run(pool, g, cs) == g
    decreases |cs|
  {
    if cs != [] {
      assert Step(pool, g, cs[0]) == g;
      SolvedGameIsLocked(pool, g, cs[1..]);
    }
  }

  /** Only the two loading actions can take a game out of the solved state,
      and only by actually loading a puzzle. */
  lemma OnlyLoadingUnlocks(pool: Pool, g: Game, c: Command)
    requires Admissible(c)
    requires g.solved && !Step(pool, g, c).solved
    ensures Loads(c)
    ensures Step(pool, g, c).boards.Some? && Step(pool, g, c).selected.None? && Step(pool, g, c).errors == {}
  {
  }

  /** Checking twice in a row leaves the game as checking once does: the
      same outcome, flags and message. */
  lemma CheckIsIdempotent(g: Game)
    ensures Check(Check(g)) == Check(g)
  {
  }
}
