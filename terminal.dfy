/** The terminal front-end's game logic: what one move (row, column,
    action) does to the board, and the colour code a revealed count is
    printed in. Reading the move and printing the board are left to the
    caller. */
module Terminal {
  import opened Cells
  import opened Geometry
  import opened Worlds

  /** Which branch of the move dispatch was taken; each stands for the
      message the front-end prints, or for printing nothing. */
  datatype Outcome =
    | InvalidCoordinates  // "Invalid coordinates, try again."
    | HitMine             // "Boom! You hit a mine. Game over."
    | Cleared             // "Congratulations! You cleared the board."
    | Revealed            // a safe reveal that does not win; nothing printed
    | FlagToggled         // nothing printed
    | UnknownAction       // "Unknown action, use 'r' to reveal or 'f' to flag."

  /** The board and the game-over flag after a move, and the branch taken. */
  datatype State = State(grid: seq<Cell>, over: bool, outcome: Outcome)

  /** `action.equalsIgnoreCase("r")`. */
  predicate IsReveal(action: string) {
    action == "r" || action == "R"
  }

  /** `action.equalsIgnoreCase("f")`. */
  predicate IsFlag(action: string) {
    action == "f" || action == "F"
  }

  /** The square (row, col) is on a `rows` by `cols` board. */
  predicate OnBoard(rows: nat, cols: nat, row: int, col: int) {
    0 <= row < rows && 0 <= col < cols
  }

  /** The effect of one move on a game that is not over yet. */
  ghost function Step(rows: nat, cols: nat, g: seq<Cell>, row: int, col: int, action: string): (s: State)
    requires |g| == rows * cols && Linked(g)
  {
    if !OnBoard(rows, cols, row, col) then State(g, false, InvalidCoordinates)
    else
      var k := Index(rows, cols, row, col);
      if IsReveal(action) then
        if g[k].hasMine then State(g[k := g[k].(isRevealed := true)], true, HitMine)
        else
          var g' := RevealSpec(g, k);
          if AllSafeRevealed(g') then State(g', true, Cleared) else State(g', false, Revealed)
      else if IsFlag(action) then State(g[k := g[k].(isFlagged := !g[k].isFlagged)], false, FlagToggled)
      else State(g, false, UnknownAction)
  }

  /** One turn of the game loop after the move has been read: the loop runs
      only while the game is not over. */
  method Move(w: World, row: int, col: int, action: string) returns (o: Outcome)
    requires w.Valid() && !w.gameOver
    modifies w`gameOver, w.grid
    ensures w.Valid()
    ensures State(w.grid[..], w.gameOver, o) == Step(w.rows, w.cols, old(w.grid[..]), row, col, action)
  {
    if row < 0 || row >= w.rows || col < 0 || col >= w.cols {
      return InvalidCoordinates;
    }
    var k := Index(w.rows, w.cols, row, col);
    if IsReveal(action) {
      if w.grid[k].hasMine {
        ghost var g := w.grid[..];
        w.grid[k] := w.grid[k].(isRevealed := true);
        w.gameOver := true;
        SameLayoutLinked(g, w.grid[..]);
        o := HitMine;
      } else {
        Reveal(w.grid, k);
        RevealSpecFacts(old(w.grid[..]), k);
        SameLayoutLinked(old(w.grid[..]), w.grid[..]);
        w.CheckWin();
        o := if w.gameOver then Cleared else Revealed;
      }
    } else if IsFlag(action) {
      ghost var g := w.grid[..];
      w.grid[k] := w.grid[k].(isFlagged := !w.grid[k].isFlagged);
      SameLayoutLinked(g, w.grid[..]);
      o := FlagToggled;
    } else {
      o := UnknownAction;
    }
  }

  /** A move off the board changes nothing and keeps the game going. */
  lemma OffBoardIsNoop(rows: nat, cols: nat, g: seq<Cell>, row: int, col: int, action: string)
    requires |g| == rows * cols && Linked(g)
    requires !OnBoard(rows, cols, row, col)
    ensures Step(rows, cols, g, row, col, action) == State(g, false, InvalidCoordinates)
  {
  }

  /** A move ends the game exactly when it hits a mine or clears the board. */
  lemma StepEndsGame(rows: nat, cols: nat, g: seq<Cell>, row: int, col: int, action: string)
    requires |g| == rows * cols && Linked(g)
    ensures var s := Step(rows, cols, g, row, col, action);
            s.over <==> s.outcome == HitMine || s.outcome == Cleared
  {
  }

  /** The mine is hit exactly when a mined square on the board is revealed;
      then only that square is uncovered, with no cascade. */
  lemma HitMineExactly(rows: nat, cols: nat, g: seq<Cell>, row: int, col: int, action: string)
    requires |g| == rows * cols && Linked(g)
    ensures var s := Step(rows, cols, g, row, col, action);
            s.outcome == HitMine <==>
              OnBoard(rows, cols, row, col) && IsReveal(action) && g[Index(rows, cols, row, col)].hasMine
    ensures var s := Step(rows, cols, g, row, col, action);
            s.outcome == HitMine ==>
              var k := Index(rows, cols, row, col);
              s.grid == g[k := g[k].(isRevealed := true)]
  {
  }

  /** The board is cleared exactly when a safe reveal leaves no unmined
      square hidden. */
  lemma ClearedExactly(rows: nat, cols: nat, g: seq<Cell>, row: int, col: int, action: string)
    requires |g| == rows * cols && Linked(g)
    ensures var s := Step(rows, cols, g, row, col, action);
            s.outcome == Cleared <==> s.over && AllSafeRevealed(s.grid) && s.outcome != HitMine
  {
  }

  /** A safe reveal has the effect of `reveal` on the square followed by
      `checkWin`: exactly the reachable squares are uncovered, and the game
      ends if and only if every unmined square is then revealed. */
  lemma SafeRevealStep(rows: nat, cols: nat, g: seq<Cell>, row: int, col: int, action: string)
    requires |g| == rows * cols && Linked(g)
    requires OnBoard(rows, cols, row, col) && IsReveal(action)
    requires !g[Index(rows, cols, row, col)].hasMine
    ensures var s := Step(rows, cols, g, row, col, action);
            var k := Index(rows, cols, row, col);
            && (forall j :: 0 <= j < |g| ==>
                  s.grid[j] == if Reachable(g, k, j) then g[j].(isRevealed := true) else g[j])
            && (s.over <==> AllSafeRevealed(s.grid))
  {
  }

  /** Flagging flips the flag of that one square and changes nothing else. */
  lemma FlagFlipsOnly(rows: nat, cols: nat, g: seq<Cell>, row: int, col: int, action: string)
    requires |g| == rows * cols && Linked(g)
    requires OnBoard(rows, cols, row, col) && IsFlag(action)
    ensures var s := Step(rows, cols, g, row, col, action);
            var k := Index(rows, cols, row, col);
            && !s.over
            && s.grid[k].isFlagged == !g[k].isFlagged
            && s.grid[k] == g[k].(isFlagged := s.grid[k].isFlagged)
            && forall j :: 0 <= j < |g| && j != k ==> s.grid[j] == g[j]
  {
  }

  /** Flagging the same square twice restores the board. */
  lemma FlagTwiceRestores(rows: nat, cols: nat, g: seq<Cell>, row: int, col: int, action: string)
    requires |g| == rows * cols && Linked(g)
    requires IsFlag(action)
    ensures var s := Step(rows, cols, g, row, col, action);
            |s.grid| == rows * cols && Linked(s.grid) &&
            Step(rows, cols, s.grid, row, col, action).grid == g
  {
  }

  /** An action other than reveal or flag changes nothing. */
  lemma UnknownActionIsNoop(rows: nat, cols: nat, g: seq<Cell>, row: int, col: int, action: string)
    requires |g| == rows * cols && Linked(g)
    requires !IsReveal(action) && !IsFlag(action)
    ensures var s := Step(rows, cols, g, row, col, action);
            s.grid == g && !s.over
    ensures OnBoard(rows, cols, row, col) ==> Step(rows, cols, g, row, col, action).outcome == UnknownAction
  {
  }

  /** A move changes only the revealed and flagged marks, and never hides a
      square again. */
  lemma StepKeepsLayout(rows: nat, cols: nat, g: seq<Cell>, row: int, col: int, action: string)
    requires |g| == rows * cols && Linked(g)
    ensures var s := Step(rows, cols, g, row, col, action);
            SameLayout(g, s.grid) && forall j :: 0 <= j < |g| && g[j].isRevealed ==> s.grid[j].isRevealed
  {
  }

  /** Play keeps the board that `reset` laid out: the neighbour lists and
      the counts stay correct after every move. */
  lemma StepKeepsLaid(rows: nat, cols: nat, g: seq<Cell>, row: int, col: int, action: string)
    requires Laid(rows, cols, g)
    ensures Laid(rows, cols, Step(rows, cols, g, row, col, action).grid)
  {
    StepKeepsLayout(rows, cols, g, row, col, action);
    LaidKept(rows, cols, g, Step(rows, cols, g, row, col, action).grid);
  }

  /** No mined square is uncovered. */
  ghost predicate NoMineShown(g: seq<Cell>) {
    forall j :: 0 <= j < |g| && g[j].hasMine ==> !g[j].isRevealed
  }

  /** On a correctly counted board the only move that uncovers a mine is the
      one that hits it: a safe reveal's cascade stops at the numbered border
      and never opens a mined square. */
  lemma OnlyHitShowsMine(rows: nat, cols: nat, g: seq<Cell>, row: int, col: int, action: string)
    requires Laid(rows, cols, g) && NoMineShown(g)
    ensures var s := Step(rows, cols, g, row, col, action);
            NoMineShown(s.grid) <==> s.outcome != HitMine
  {
    var s := Step(rows, cols, g, row, col, action);
    if OnBoard(rows, cols, row, col) {
      var k := Index(rows, cols, row, col);
      if IsReveal(action) && !g[k].hasMine {
        SafeRevealFindsNoMine(g, k);
        RevealSpecFacts(g, k);
      } else if IsReveal(action) {
        assert s.grid[k].hasMine && s.grid[k].isRevealed;
      }
    }
  }

  /** `colorForNumber(n)`: the ANSI colour escape a revealed count is printed in. */
  function ColorForNumber(n: int): (code: string)
    ensures |code| >= 4 && code[..2] == "\U{1B}[" && code[|code| - 1] == 'm'
    ensures code == "\U{1B}[0m" <==> !(0 <= n <= 8)
  {
    match n
    case 0 => "\U{1B}[30m"  // black
    case 1 => "\U{1B}[32m"  // green
    case 2 => "\U{1B}[34m"  // blue
    case 3 => "\U{1B}[36m"  // cyan
    case 4 => "\U{1B}[33m"  // yellow
    case 5 => "\U{1B}[31m"  // red
    case 6 => "\U{1B}[35m"  // purple
    case 7 => "\U{1B}[37m"  // white
    case 8 => "\U{1B}[37m"  // white
    case _ => "\U{1B}[0m"   // reset
  }

  /** The counts 0 to 8 get distinct colours, except that 7 and 8 are both white. */
  lemma ColorsDistinct(a: int, b: int)
    requires 0 <= a < b <= 8
    ensures ColorForNumber(a) == ColorForNumber(b) <==> a == 7 && b == 8
  {
  }
}
