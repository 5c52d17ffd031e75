/**
 * The feed list screen of the program's main function: a pad holding
 * one labelled row per feed, the highlighted row, the scroll offset, and
 * the loop that reads keys, moves the highlight and redraws the pad.
 * The terminal is reduced to its line and column counts, the pad's
 * contents, and the conditions under which curses raises.
 */
module FeedScreen {
  import opened Viewport
  import Labels

  /** The number of feed rows; fixed in the program. */
  const FeedCount := 100

  /** The text of the one-line title window. */
  const Title := "Newspaperss v0.1"

  /**
   * Whether writing `text` from the start of row `row` of a window `rows`
   * rows by `width` columns succeeds. Curses wraps long text onto the
   * following rows and fails once the text reaches the window's last cell,
   * past which the cursor cannot move.
   */
  predicate WriteFits(text: string, row: int, rows: int, width: int)
    ensures row + 1 == rows ==> (WriteFits(text, row, rows, width) <==> |text| < width)
    ensures WriteFits(text, row, rows, width) && 0 <= row < rows ==> 1 <= width
  {
    |text| < (rows - row) * width
  }

  /** Whether the title and every row label can be written at a terminal width of `cols`. */
  predicate TextFits(rowCount: nat, cols: int) {
    WriteFits(Title, 0, 1, cols) &&
    forall x :: 0 <= x < rowCount ==> WriteFits(Labels.Label(x), x, rowCount, cols)
  }

  /**
   * Whether setting up the screen raises: writing the title or a label
   * fails, the pad has no rows, or the first pad refresh is left with no
   * screen line.
   */
  predicate StartupFails(rowCount: nat, lines: int, cols: int)
    ensures !StartupFails(rowCount, lines, cols) ==> Inv(Initial, rowCount, lines - 1) && |Title| < cols
  {
    !TextFits(rowCount, cols) || rowCount == 0 || !RefreshSucceeds(Initial, rowCount, lines - 1)
  }

  /**
   * With the program's 100 feeds, setting up succeeds exactly when the
   * terminal is wider than the title and has a line below it.
   */
  lemma FeedCountStartup(lines: int, cols: int)
    ensures !StartupFails(FeedCount, lines, cols) <==> |Title| < cols && 2 <= lines
  {
    InitialRefresh(FeedCount, lines - 1);
    if |Title| < cols {
      forall x | 0 <= x < FeedCount
        ensures WriteFits(Labels.Label(x), x, FeedCount, cols)
      {
        Labels.LabelWidth(x);
        assert (FeedCount - x) * cols == cols + (FeedCount - x - 1) * cols;
        assert (FeedCount - x - 1) * cols >= 0;
      }
    }
  }

  class FeedWindow {
    /** Number of rows in the list. */
    const rowCount: nat
    /** Screen lines available to the pad: the terminal's lines minus the title line. */
    const height: int
    /** The pad, one entry per feed row. */
    const pad: array<PadRow>
    /** Whether setting up the screen raised, so that the key loop never runs. */
    const raised: bool
    var selected: int
    var offset: int

    function Position(): Cursor
      reads this
    {
      Cursor(selected, offset)
    }

    /** The display invariant of the current position. */
    predicate Valid()
      reads this
    {
      Inv(Position(), rowCount, height)
    }

    /** The pad shows the labels with the current row, and only it, reversed. */
    predicate Rendered()
      reads this, pad
    {
      pad[..] == PadOf(Position(), rowCount)
    }

    /**
     * Sets up the screen for a terminal `lines` lines by `cols` columns:
     * a pad of `rowCount` labelled rows with the first row highlighted,
     * shown from its top, unless one of the setup steps raises.
     */
    constructor (rowCount: nat, lines: int, cols: int)
      ensures this.rowCount == rowCount && height == lines - 1
      ensures Position() == Initial && fresh(pad) && pad.Length == rowCount
      ensures raised <==> StartupFails(rowCount, lines, cols)
      ensures !raised ==> Valid() && Rendered()
    {
      this.rowCount := rowCount;
      height := lines - 1;
      pad := new PadRow[rowCount](_ => PadRow("", false));
      selected, offset := 0, 0;
      raised := StartupFails(rowCount, lines, cols);
      new;
      if !raised {
        Render();
      }
    }

    /**
     * Erases the pad, writes every row's label and reverses the selected
     * row. The writes are those of setup, so once setup has succeeded they
     * succeed again.
     */
    method Render()
      requires pad.Length == rowCount
      modifies pad
      ensures Rendered()
    {
      for x := 0 to pad.Length
        invariant forall y :: 0 <= y < x ==> pad[y] == PadRow(Labels.Label(y), false)
      {
        pad[x] := PadRow(Labels.Label(x), false);
      }
      if 0 <= selected < pad.Length {
        pad[selected] := pad[selected].(reverse := true);
      }
    }

    /** Key `k`. */
    method MoveUp()
      modifies this
      ensures Position() == StepUp(old(Position()))
      ensures old(Valid()) ==> Valid()
    {
      ghost var before := Position();
      if selected > 0 {
        selected := selected - 1;
        if offset > 0 {
          offset := offset - 1;
        }
      }
      if Inv(before, rowCount, height) {
        StepPreservesInv(before, Up, rowCount, height);
      }
    }

    /** Key `j`. */
    method MoveDown()
      modifies this
      ensures Position() == StepDown(old(Position()), rowCount, height)
      ensures old(Valid()) ==> Valid()
    {
      ghost var before := Position();
      if selected < rowCount - 1 {
        selected := selected + 1;
        if selected >= height + offset {
          offset := offset + 1;
        }
      }
      if Inv(before, rowCount, height) {
        StepPreservesInv(before, Down, rowCount, height);
      }
    }

    /** One key of the loop; `quit` tells the loop to stop. */
    method HandleKey(k: Key) returns (quit: bool)
      modifies this
      ensures quit <==> k == Quit
      ensures Position() == Step(old(Position()), k, rowCount, height)
      ensures old(Valid()) ==> Valid()
    {
      quit := k == Quit;
      match k
      case Up => MoveUp();
      case Down => MoveDown();
      case Quit =>
      case Other =>
    }

    /** The pad rows the terminal shows. */
    function Screen(): (screen: seq<PadRow>)
      reads this, pad
      requires Valid() && Rendered()
      ensures screen == ScreenOf(Position(), rowCount, height)
    {
      var (first, end) := VisibleWindow(Position(), rowCount, height);
      pad[first..end]
    }

    /**
     * The key loop: reads keys until a `q` or the end of the input,
     * moving the highlight and redrawing the pad after every other key.
     */
    method Run(keys: seq<Key>) returns (read: nat, quit: bool)
      requires !raised && Rendered()
      modifies this, pad
      ensures StopsAt(keys, read, quit)
      ensures Position() == Apply(old(Position()), keys, rowCount, height)
      ensures Rendered()
      ensures old(Valid()) ==> Valid()
    {
      read, quit := 0, false;
      while read < |keys| && !quit
        invariant read <= |keys|
        invariant forall i :: 0 <= i < read ==> keys[i] != Quit
        invariant quit ==> read < |keys| && keys[read] == Quit
        invariant Apply(Position(), keys[read..], rowCount, height)
          == Apply(old(Position()), keys, rowCount, height)
        invariant Rendered()
        invariant old(Valid()) ==> Valid()
        decreases |keys| - read, if quit then 0 else 1
      {
        ghost var before := Position();
        quit := HandleKey(keys[read]);
        if !quit {
          assert Apply(before, keys[read..], rowCount, height)
            == Apply(Position(), keys[read + 1..], rowCount, height);
          Render();
          read := read + 1;
        }
      }
    }
  }

  /**
   * The whole program on a terminal `lines` lines by `cols` columns, fed
   * the keys `keys`: whether setting up raised, and otherwise where the
   * highlight ends, what the pad holds, and how many keys were read
   * before the loop stopped.
   */
  method Session(lines: int, cols: int, keys: seq<Key>)
    returns (raised: bool, final: Cursor, pad: seq<PadRow>, read: nat, quit: bool)
    ensures raised <==> cols <= |Title| || lines < 2
    ensures raised ==> read == 0 && !quit && final == Initial && pad == []
    ensures !raised ==> StopsAt(keys, read, quit)
    ensures !raised ==> final == Apply(Initial, keys, FeedCount, lines - 1)
    ensures !raised ==> pad == PadOf(final, FeedCount) && Inv(final, FeedCount, lines - 1)
  {
    var w := new FeedWindow(FeedCount, lines, cols);
    FeedCountStartup(lines, cols);
    raised := w.raised;
    if raised {
      final, pad, read, quit := Initial, [], 0, false;
      return;
    }
    read, quit := w.Run(keys);
    final := w.Position();
    pad := w.pad[..];
  }
}
