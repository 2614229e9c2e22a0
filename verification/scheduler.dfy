/** The simulation session: the playing flag, the tick interval and the current-grid
    slot of the application, and the handlers that read and replace them.

    A tick is one run of `runGameOfLife`. The timer is abstract: a tick returns the
    delay after which it asks to run again (`Some(ms)`), or `None` when it ends the
    chain of ticks. */
module Scheduler {
  import opened GridModel
  import opened Rules
  import Editor

  datatype Option<T> = None | Some(value: T)

  /** The initial tick interval in milliseconds (`useState(100)`). */
  const INITIAL_SPEED: nat := 100

  class Session {
    const rows: nat
    const cols: nat
    /** `isPlaying`, as read through `playingRef`. */
    var playing: bool
    /** `speed`, as read through `speedRef`: the delay before the next tick. */
    var speed: nat
    /** The `grid` state: the one slot every tick and every edit replaces. */
    var grid: Grid

    /** The session invariant: a positive interval and a ROWS x COLS grid of 0/1 cells. */
    ghost predicate Valid()
      reads this
    {
      0 < rows && 0 < cols && 0 < speed && IsGrid(grid, rows, cols) && IsBinary(grid)
    }

    /** The initial state: paused, 100 ms, an empty grid. */
    constructor (rows: nat, cols: nat)
      requires 0 < rows && 0 < cols
      ensures Valid() && this.rows == rows && this.cols == cols
      ensures !playing && speed == INITIAL_SPEED && grid == EmptyGrid(rows, cols)
    {
      this.rows, this.cols := rows, cols;
      playing, speed := false, INITIAL_SPEED;
      grid := EmptyGrid(rows, cols);
    }

    /** `runGameOfLife`: when paused, do nothing and schedule nothing; when playing,
        replace the grid by its next generation and schedule the next tick after
        the current interval. */
    method Tick() returns (next: Option<nat>)
      requires Valid()
      modifies this
      ensures Valid()
      ensures playing == old(playing) && speed == old(speed)
      ensures !old(playing) ==> grid == old(grid) && next == None
      ensures old(playing) ==> grid == Generation(old(grid), rows, cols) && next == Some(speed)
    {
      if !playing {
        return None;
      }
      grid := Step(grid, rows, cols);
      next := Some(speed);
    }

    /** The play/pause button: when paused, start playing and tick at once; when
        playing, stop, so that the next scheduled tick finds the session paused. */
    method PressPlayPause() returns (next: Option<nat>)
      requires Valid()
      modifies this
      ensures Valid()
      ensures speed == old(speed) && playing == !old(playing)
      ensures old(playing) ==> grid == old(grid) && next == None
      ensures !old(playing) ==> grid == Generation(old(grid), rows, cols) && next == Some(speed)
    {
      if playing {
        playing := false;
        next := None;
      } else {
        playing := true;
        next := Tick();
      }
    }

    /** The speed selector: later ticks are scheduled with the new interval; the
        session keeps playing or stays paused. */
    method SetSpeed(ms: nat)
      requires Valid() && 0 < ms
      modifies this
      ensures Valid()
      ensures speed == ms && playing == old(playing) && grid == old(grid)
    {
      speed := ms;
    }

    /** A click on cell (r, c): the grid slot takes the toggled copy. */
    method ToggleCell(r: int, c: int)
      requires Valid()
      modifies this
      ensures Valid()
      ensures grid == Editor.Toggle(old(grid), r, c)
      ensures playing == old(playing) && speed == old(speed)
    {
      grid := Editor.Toggle(grid, r, c);
    }

    /** The Randomize button: the grid slot takes a fresh random grid; the previous
        grid plays no part. */
    method Randomize(draws: seq<seq<real>>)
      requires Valid()
      requires |draws| == rows && forall i :: 0 <= i < |draws| ==> |draws[i]| == cols
      modifies this
      ensures Valid()
      ensures forall i, j :: 0 <= i < rows && 0 <= j < cols ==> (grid[i][j] == 1 <==> draws[i][j] > Editor.LIVE_THRESHOLD)
      ensures playing == old(playing) && speed == old(speed)
    {
      grid := Editor.Randomize(rows, cols, draws);
    }

    /** The Clear button: an empty grid, and playback stops. */
    method Clear()
      requires Valid()
      modifies this
      ensures Valid()
      ensures grid == EmptyGrid(rows, cols) && !playing && speed == old(speed)
    {
      grid := EmptyGrid(rows, cols);
      playing := false;
    }
  }
}
