/** The play and editor sessions around a typed grid: a small sequential
    state machine.  Pointer and keyboard events arrive already translated
    into a button and a cell, or into a direction; a tick of the real-time
    clock arrives as a call to Tick. */
module LifeGame {
  import opened LifeRules
  import opened LifeGrid

  /** The arrow keys. */
  datatype Direction = Up | Down | Left | Right

  /** How a key moves the view, as (x, y) in units of the scroll step. */
  function Shift(d: Direction): (int, int) {
    match d
    case Up => (0, -1)
    case Down => (0, 1)
    case Left => (-1, 0)
    case Right => (1, 0)
  }

  /** Pixels the view moves per key press. */
  const ScrollStep := 10

  const LeftButton := 1
  const RightButton := 3

  datatype MouseAction = ButtonDown | ButtonUp

  /** The cell size and view size a session gets unless told otherwise. */
  const DefaultCellSize := 20
  const DefaultViewWidth := 600
  const DefaultViewHeight := 600

  function Min(a: int, b: int): int { if a <= b then a else b }
  function Max(a: int, b: int): int { if a >= b then a else b }

  /** min(max(lo, v), hi): never above hi; within [lo, hi] when that range
      is non-empty; v itself when v already lies in it. */
  function Clamp(v: int, lo: int, hi: int): (r: int)
    ensures r <= hi
    ensures lo <= hi ==> lo <= r
    ensures lo <= v <= hi ==> r == v
    ensures r == v || r == lo || r == hi
  {
    Min(Max(lo, v), hi)
  }

  /** A click in play: a left press turns a dead cell into a player cell,
      a right press turns a player cell back into a dead one; nothing else
      changes a cell. */
  function PlayEdit(v: int, action: MouseAction, button: int): (r: int)
    ensures r != v <==>
      action == ButtonDown && ((button == LeftButton && v == 0) || (button == RightButton && v == 1))
    ensures r != v ==> r == 1 - v
  {
    var afterLeft := if action == ButtonDown && button == LeftButton && v == 0 then 1 else v;
    if action == ButtonDown && button == RightButton && afterLeft == 1 then 0 else afterLeft
  }

  /** A click in the editor: a left press raises a cell below 4 by one, a
      right press lowers a cell above 0 by one, so a value in 0..4 stays
      in 0..4. */
  function EditorEdit(v: int, action: MouseAction, button: int): (r: int)
    ensures r != v <==>
      action == ButtonDown && ((button == LeftButton && v < 4) || (button == RightButton && v > 0))
    ensures r != v ==> r == if button == LeftButton then v + 1 else v - 1
    ensures 0 <= v <= 4 ==> 0 <= r <= 4
  {
    var afterLeft := if action == ButtonDown && button == LeftButton && v < 4 then v + 1 else v;
    if action == ButtonDown && button == RightButton && afterLeft > 0 then afterLeft - 1 else afterLeft
  }

  /** A left press followed by a right press on the same cell restores it:
      in play whenever the left press changed it, in the editor for every
      kind from 0 to 3. */
  lemma RightClickUndoesLeftClick(v: int)
    ensures PlayEdit(v, ButtonDown, LeftButton) != v ==>
      PlayEdit(PlayEdit(v, ButtonDown, LeftButton), ButtonDown, RightButton) == v
    ensures 0 <= v < 4 ==>
      EditorEdit(EditorEdit(v, ButtonDown, LeftButton), ButtonDown, RightButton) == v
  {
  }

  /** A play session. */
  class Game {
    const grid: ColouredGrid
    var timeOn: bool
    /** Pixel coordinates of the top-left corner of the view. */
    var viewX: int
    var viewY: int
    const cellSize: int
    /** Pixel width and height of the on-screen grid area. */
    const viewWidth: int
    const viewHeight: int

    constructor (a: array2<int>, cellSize: int, viewWidth: int, viewHeight: int)
      ensures fresh(grid) && grid.Valid() && grid.cells == a
      ensures forall i, j :: 0 <= i < a.Length0 && 0 <= j < a.Length1 ==>
        (grid.bases[i][j] <==> a[i, j] == 4)
      ensures !timeOn && viewX == 2 * cellSize && viewY == 2 * cellSize
      ensures this.cellSize == cellSize && this.viewWidth == viewWidth && this.viewHeight == viewHeight
    {
      grid := new ColouredGrid(a);
      this.cellSize := cellSize;
      this.viewWidth := viewWidth;
      this.viewHeight := viewHeight;
      timeOn := false;
      viewX, viewY := 2 * cellSize, 2 * cellSize;
    }

    /** The largest x and y the view may take: two cells short of the far
        edge of the grid, less the width or height of the view. */
    function MaxViewX(): int
      reads this, grid
    {
      (grid.cells.Length1 - 2) * cellSize - viewWidth
    }

    function MaxViewY(): int
      reads this, grid
    {
      (grid.cells.Length0 - 2) * cellSize - viewHeight
    }

    /** Moves the view by the scroll step along the key's axis, then clamps
        each coordinate between two cells from the near edge and MaxViewX /
        MaxViewY; neither coordinate ends above its upper bound. */
    method HandleDirectionKey(d: Direction)
      modifies this`viewX, this`viewY
      ensures viewX == Clamp(old(viewX) + Shift(d).0 * ScrollStep, 2 * cellSize, MaxViewX())
      ensures viewY == Clamp(old(viewY) + Shift(d).1 * ScrollStep, 2 * cellSize, MaxViewY())
      ensures viewX <= MaxViewX() && viewY <= MaxViewY()
      ensures 2 * cellSize <= MaxViewX() ==> 2 * cellSize <= viewX
      ensures 2 * cellSize <= MaxViewY() ==> 2 * cellSize <= viewY
    {
      var (dx, dy) := Shift(d);
      var x := viewX + dx * ScrollStep;
      var y := viewY + dy * ScrollStep;
      viewX := Clamp(x, 2 * cellSize, MaxViewX());
      viewY := Clamp(y, 2 * cellSize, MaxViewY());
    }

    /** Space starts and stops time. */
    method HandleSpace()
      modifies this`timeOn
      ensures timeOn == !old(timeOn)
    {
      timeOn := !timeOn;
    }

    /** A click on cell (row, col) edits that one cell, and only while time
        is stopped. */
    method HandleGridClick(action: MouseAction, button: int, row: int, col: int)
      requires 0 <= row < grid.cells.Length0 && 0 <= col < grid.cells.Length1
      modifies grid.cells
      ensures forall i, j :: 0 <= i < grid.cells.Length0 && 0 <= j < grid.cells.Length1 ==>
        grid.cells[i, j] ==
          if i == row && j == col && !timeOn then PlayEdit(old(grid.cells[i, j]), action, button)
          else old(grid.cells[i, j])
    {
      if !timeOn {
        if action == ButtonDown && button == LeftButton && grid.cells[row, col] == 0 {
          grid.cells[row, col] := 1;
        }
        if action == ButtonDown && button == RightButton && grid.cells[row, col] == 1 {
          grid.cells[row, col] := 0;
        }
      }
    }

    /** A tick of the clock advances the grid one generation when time is
        on, and does nothing otherwise. */
    method Tick()
      requires grid.Valid()
      requires timeOn ==> grid.cells.Length0 >= 2 && grid.cells.Length1 >= 2
      modifies grid
      ensures grid.Valid()
      ensures grid.cells.Length0 == old(grid.cells.Length0) && grid.cells.Length1 == old(grid.cells.Length1)
      ensures !timeOn ==> grid.cells == old(grid.cells) && grid.damagedBase == old(grid.damagedBase)
      ensures timeOn ==>
        fresh(grid.cells) && IsBoard(old(Snapshot(grid.cells))) &&
        Snapshot(grid.cells) == TypedStep(old(Snapshot(grid.cells)))
      ensures timeOn ==>
        fresh(grid.damagedBase) &&
        grid.damagedBase.Length0 == grid.cells.Length0 && grid.damagedBase.Length1 == grid.cells.Length1 &&
        forall r, c :: 0 <= r < grid.cells.Length0 && 0 <= c < grid.cells.Length1 ==>
          grid.damagedBase[r, c] == BaseDamaged(grid.bases[r][c], NextKind(old(Snapshot(grid.cells)), r, c))
    {
      if timeOn {
        grid.Update();
      }
    }
  }

  /** An editor session: play-session behaviour, except that starting time
      keeps a copy of the grid and stopping time puts that copy back, and
      that clicks step a cell's kind up and down. */
  class LevelEditor {
    const game: Game
    /** The grid as it was when time was last started. */
    var placeholder: array2<int>

    ghost predicate Valid()
      reads this, game, game.grid
    {
      game.grid.Valid() &&
      (game.timeOn ==>
        placeholder != game.grid.cells &&
        placeholder.Length0 == game.grid.cells.Length0 &&
        placeholder.Length1 == game.grid.cells.Length1)
    }

    /** An editor session always uses the default cell and view sizes. */
    constructor (a: array2<int>)
      ensures Valid() && fresh(game) && fresh(game.grid)
      ensures game.grid.cells == a && !game.timeOn
      ensures game.cellSize == DefaultCellSize
      ensures game.viewWidth == DefaultViewWidth && game.viewHeight == DefaultViewHeight
    {
      game := new Game(a, DefaultCellSize, DefaultViewWidth, DefaultViewHeight);
      placeholder := a;
    }

    /** Starting time stores a copy of the grid; stopping time reinstates
        that copy as the grid. */
    method HandleSpace()
      requires Valid()
      modifies this, game`timeOn, game.grid`cells
      ensures Valid()
      ensures game.timeOn == !old(game.timeOn)
      ensures !old(game.timeOn) ==>
        fresh(placeholder) && game.grid.cells == old(game.grid.cells)
        && Snapshot(placeholder) == old(Snapshot(game.grid.cells))
      ensures old(game.timeOn) ==> placeholder == old(placeholder) && game.grid.cells == old(placeholder)
    {
      if !game.timeOn {
        var h, w := game.grid.cells.Length0, game.grid.cells.Length1;
        var g := Snapshot(game.grid.cells);
        placeholder := Tabulate(h, w, (i: nat, j: nat) requires i < h && j < w => g[i][j]);
        SnapshotEquals(placeholder, g);
      } else {
        game.grid.cells := placeholder;
      }
      game.timeOn := !game.timeOn;
    }

    /** A click on cell (row, col) steps that one cell's value, and only
        while time is stopped. */
    method HandleGridClick(action: MouseAction, button: int, row: int, col: int)
      requires 0 <= row < game.grid.cells.Length0 && 0 <= col < game.grid.cells.Length1
      modifies game.grid.cells
      ensures forall i, j :: 0 <= i < game.grid.cells.Length0 && 0 <= j < game.grid.cells.Length1 ==>
        game.grid.cells[i, j] ==
          if i == row && j == col && !game.timeOn then EditorEdit(old(game.grid.cells[i, j]), action, button)
          else old(game.grid.cells[i, j])
    {
      if !game.timeOn {
        var cells := game.grid.cells;
        if action == ButtonDown && button == LeftButton && cells[row, col] < 4 {
          cells[row, col] := cells[row, col] + 1;
        }
        if action == ButtonDown && button == RightButton && cells[row, col] > 0 {
          cells[row, col] := cells[row, col] - 1;
        }
      }
    }

    /** A tick, as in a play session; the stored copy is left alone. */
    method Tick()
      requires Valid()
      requires game.timeOn ==> game.grid.cells.Length0 >= 2 && game.grid.cells.Length1 >= 2
      modifies game.grid
      ensures Valid()
      ensures game.grid.cells.Length0 == old(game.grid.cells.Length0)
      ensures game.grid.cells.Length1 == old(game.grid.cells.Length1)
      ensures !game.timeOn ==>
        game.grid.cells == old(game.grid.cells) && game.grid.damagedBase == old(game.grid.damagedBase)
      ensures game.timeOn ==>
        IsBoard(old(Snapshot(game.grid.cells))) &&
        Snapshot(game.grid.cells) == TypedStep(old(Snapshot(game.grid.cells)))
      ensures game.timeOn ==>
        fresh(game.grid.damagedBase) &&
        game.grid.damagedBase.Length0 == game.grid.cells.Length0 &&
        game.grid.damagedBase.Length1 == game.grid.cells.Length1 &&
        forall r, c :: 0 <= r < game.grid.cells.Length0 && 0 <= c < game.grid.cells.Length1 ==>
          game.grid.damagedBase[r, c] ==
            BaseDamaged(game.grid.bases[r][c], NextKind(old(Snapshot(game.grid.cells)), r, c))
    {
      game.Tick();
    }

    /** Starting time, letting any number of ticks pass, and stopping time
        again leaves the grid exactly as it was before time was started. */
    method PlayAndRewind(ticks: nat)
      requires Valid() && !game.timeOn
      requires game.grid.cells.Length0 >= 2 && game.grid.cells.Length1 >= 2
      modifies this, game`timeOn, game.grid
      ensures Valid() && !game.timeOn
      ensures Snapshot(game.grid.cells) == old(Snapshot(game.grid.cells))
    {
      HandleSpace();
      var start := Snapshot(placeholder);
      for k := 0 to ticks
        invariant Valid() && game.timeOn
        invariant game.grid.cells.Length0 >= 2 && game.grid.cells.Length1 >= 2
        invariant Snapshot(placeholder) == start
      {
        Tick();
      }
      HandleSpace();
    }
  }
}
