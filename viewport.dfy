/**
 * The selection and scroll state of the feed list, as values.
 *
 * A cursor holds the highlighted row (`selected`) and the first pad row
 * shown on screen (`offset`). The list has `rows` rows and the screen
 * shows `height` of them (the terminal's line count minus the title
 * line). Each key moves the cursor by the rules of the key loop; these
 * functions are the specification the FeedWindow class is proved against.
 */
module Viewport {
  import Labels

  /** A key read from the terminal: `k`, `j`, `q`, or anything else. */
  datatype Key = Up | Down | Quit | Other

  datatype Cursor = Cursor(selected: int, offset: int)

  /** One row of the pad: its text and whether it is drawn in reverse video. */
  datatype PadRow = PadRow(text: string, reverse: bool)

  const Initial := Cursor(0, 0)

  function Max(a: int, b: int): int {
    if a < b then b else a
  }

  function Min(a: int, b: int): int {
    if a < b then a else b
  }

  /**
   * The display invariant: the highlight is a row of the list, it is on
   * screen, and the screen never scrolls past the end of the list.
   */
  predicate Inv(c: Cursor, rows: int, height: int) {
    1 <= rows && 1 <= height &&
    0 <= c.offset <= c.selected <= c.offset + height - 1 &&
    c.selected < rows &&
    c.offset <= Max(0, rows - height)
  }

  /** Key `k`: select the row above; the screen scrolls up whenever it can. */
  function StepUp(c: Cursor): (r: Cursor)
    ensures c.selected - 1 <= r.selected <= c.selected && c.offset - 1 <= r.offset <= c.offset
    ensures r == c <==> c.selected <= 0
    ensures 0 <= c.offset ==> 0 <= r.offset
  {
    if c.selected > 0 then
      Cursor(c.selected - 1, if c.offset > 0 then c.offset - 1 else c.offset)
    else
      c
  }

  /** Key `j`: select the row below; scroll down once it passes the last screen line. */
  function StepDown(c: Cursor, rows: int, height: int): (r: Cursor)
    ensures c.selected <= r.selected <= c.selected + 1 && c.offset <= r.offset <= c.offset + 1
    ensures r == c <==> rows - 1 <= c.selected
    ensures Inv(c, rows, height) && r.offset != c.offset ==> r.selected == r.offset + height - 1
  {
    if c.selected < rows - 1 then
      var s := c.selected + 1;
      Cursor(s, if s >= height + c.offset then c.offset + 1 else c.offset)
    else
      c
  }

  function Step(c: Cursor, k: Key, rows: int, height: int): (r: Cursor)
    ensures k == Quit || k == Other ==> r == c
    ensures k == Up ==> r.selected <= c.selected && r.offset <= c.offset
    ensures k == Down ==> c.selected <= r.selected && c.offset <= r.offset
    ensures -1 <= r.selected - c.selected <= 1 && -1 <= r.offset - c.offset <= 1
  {
    match k
    case Up => StepUp(c)
    case Down => StepDown(c, rows, height)
    case Quit => c
    case Other => c
  }

  /** The cursor after the key loop reads `keys`; it stops at the first `q`. */
  function Apply(c: Cursor, keys: seq<Key>, rows: int, height: int): (r: Cursor)
    ensures -|keys| <= r.selected - c.selected <= |keys|
    ensures -|keys| <= r.offset - c.offset <= |keys|
    decreases |keys|
  {
    if keys == [] || keys[0] == Quit then c
    else Apply(Step(c, keys[0], rows, height), keys[1..], rows, height)
  }

  /**
   * The loop read `read` keys before stopping: either it met a `q` at
   * index `read` (`quit`), or it used up the input.
   */
  predicate StopsAt(keys: seq<Key>, read: nat, quit: bool) {
    read <= |keys| &&
    (forall i :: 0 <= i < read ==> keys[i] != Quit) &&
    (if quit then read < |keys| && keys[read] == Quit else read == |keys|)
  }

  /** The half-open range of pad rows shown on screen. */
  function VisibleWindow(c: Cursor, rows: int, height: int): (w: (int, int))
    ensures w.0 == c.offset && w.1 <= rows && w.1 - w.0 <= height
    ensures c.offset + height <= rows ==> w.1 - w.0 == height
  {
    (c.offset, Min(c.offset + height, rows))
  }

  /**
   * The last screen line that refreshing the pad from row `offset` onto
   * screen lines 1 .. height draws. Curses first trims the region so that
   * it ends at the pad's last row; the refresh fails when that leaves no
   * line, that is when the bottom comes before line 1.
   */
  function RefreshBottom(c: Cursor, rows: int, height: int): (bottom: int)
    ensures bottom <= height
    ensures bottom == height <==> c.offset + height <= rows
  {
    var padBottom := c.offset + height - 1;
    if padBottom > rows - 1 then height - (padBottom - (rows - 1)) else height
  }

  predicate RefreshSucceeds(c: Cursor, rows: int, height: int)
    ensures RefreshSucceeds(c, rows, height) <==> c.offset < rows && 1 <= height
  {
    1 <= RefreshBottom(c, rows, height)
  }

  /** The pad as the loop draws it: every row labelled, only the selected one reversed. */
  function PadOf(c: Cursor, rows: nat): (pad: seq<PadRow>)
    ensures |pad| == rows
    ensures forall x, y :: 0 <= x < y < rows ==> !(pad[x].reverse && pad[y].reverse)
    ensures (exists x :: 0 <= x < rows && pad[x].reverse) <==> 0 <= c.selected < rows
  {
    var pad := seq(rows, x requires 0 <= x < rows => PadRow(Labels.Label(x), x == c.selected));
    assert 0 <= c.selected < rows ==> pad[c.selected].reverse;
    pad
  }

  /** What the terminal shows below the title line. */
  function ScreenOf(c: Cursor, rows: nat, height: int): (screen: seq<PadRow>)
    requires Inv(c, rows, height)
    ensures |screen| == Min(c.offset + height, rows) - c.offset
    ensures 1 <= |screen| <= height && c.selected - c.offset < |screen|
    ensures screen[c.selected - c.offset] == PadRow(Labels.Label(c.selected), true)
    ensures forall i :: 0 <= i < |screen| ==> screen[i].text == Labels.Label(c.offset + i)
    ensures forall i :: 0 <= i < |screen| ==> (screen[i].reverse <==> i == c.selected - c.offset)
  {
    var (first, end) := VisibleWindow(c, rows, height);
    PadOf(c, rows)[first..end]
  }

  lemma InitialInv(rows: int, height: int)
    ensures Inv(Initial, rows, height) <==> 1 <= rows && 1 <= height
  {
  }

  /**
   * The first refresh, from the start state, fails exactly when the list
   * is empty or the screen has no line below the title.
   */
  lemma InitialRefresh(rows: int, height: int)
    ensures RefreshSucceeds(Initial, rows, height) <==> 1 <= rows && 1 <= height
  {
  }

  /**
   * While the display invariant holds, the refresh in the loop succeeds
   * and draws exactly the rows of the visible window, one per screen line.
   */
  lemma RefreshShowsWindow(c: Cursor, rows: int, height: int)
    requires Inv(c, rows, height)
    ensures RefreshSucceeds(c, rows, height)
    ensures RefreshBottom(c, rows, height) == VisibleWindow(c, rows, height).1 - VisibleWindow(c, rows, height).0
  {
  }

  /** Every key keeps the display invariant. */
  lemma StepPreservesInv(c: Cursor, k: Key, rows: int, height: int)
    requires Inv(c, rows, height)
    ensures Inv(Step(c, k, rows, height), rows, height)
  {
  }

  /** Any run of keys keeps the display invariant. */
  lemma {:induction false} ApplyPreservesInv(c: Cursor, keys: seq<Key>, rows: int, height: int)
    requires Inv(c, rows, height)
    ensures Inv(Apply(c, keys, rows, height), rows, height)
    decreases |keys|
  {
    if keys != [] && keys[0] != Quit {
      StepPreservesInv(c, keys[0], rows, height);
      ApplyPreservesInv(Step(c, keys[0], rows, height), keys[1..], rows, height);
    }
  }

  /** `k` on the first row and `j` on the last row change nothing. */
  lemma MovesStopAtEnds(c: Cursor, rows: int, height: int)
    ensures c.selected == 0 ==> Step(c, Up, rows, height) == c
    ensures c.selected == rows - 1 ==> Step(c, Down, rows, height) == c
  {
  }

  /**
   * `j` below the last row selects the next row and scrolls by one
   * exactly when that row would fall just below the screen.
   */
  lemma DownMovesOne(c: Cursor, rows: int, height: int)
    requires Inv(c, rows, height) && c.selected < rows - 1
    ensures Step(c, Down, rows, height).selected == c.selected + 1
    ensures Step(c, Down, rows, height).offset ==
      if c.selected + 1 == c.offset + height then c.offset + 1 else c.offset
  {
  }

  /**
   * `k` below the first row selects the previous row and scrolls up by
   * one iff the screen is scrolled at all, so a scrolled screen keeps the
   * highlight on the same screen line.
   */
  lemma UpMovesOne(c: Cursor, rows: int, height: int)
    requires Inv(c, rows, height) && c.selected > 0
    ensures Step(c, Up, rows, height).selected == c.selected - 1
    ensures Step(c, Up, rows, height).offset == c.offset - 1 <==> c.offset > 0
    ensures Step(c, Up, rows, height).offset == c.offset <==> c.offset == 0
    ensures c.offset > 0 ==>
      Step(c, Up, rows, height).selected - Step(c, Up, rows, height).offset == c.selected - c.offset
  {
  }

  /**
   * The up move scrolls even when the row it selects is already on
   * screen: with five rows and three screen lines, `k` from the bottom
   * row scrolls although row 3 lies in the window [2, 5).
   */
  lemma UpScrollsWhileStillVisible()
    ensures var c := Cursor(4, 2);
      Inv(c, 5, 3) && c.offset <= 3 < c.offset + 3 && Step(c, Up, 5, 3) == Cursor(3, 1)
  {
  }

  /** Keys other than `j` and `k` change nothing, and `q` stops the loop where it is. */
  lemma OtherKeysKeepCursor(c: Cursor, keys: seq<Key>, rows: int, height: int)
    ensures Step(c, Other, rows, height) == c && Step(c, Quit, rows, height) == c
    ensures Apply(c, [Quit] + keys, rows, height) == c
    ensures Apply(c, [Other] + keys, rows, height) == Apply(c, keys, rows, height)
  {
    assert ([Quit] + keys)[0] == Quit;
    assert ([Other] + keys)[1..] == keys;
  }

  /** Five rows, three screen lines: six `j` reach the last row, a seventh does nothing. */
  lemma SixDownsOnFiveRows()
    ensures Apply(Initial, seq(6, _ => Down), 5, 3) == Cursor(4, 2)
    ensures Step(Cursor(4, 2), Down, 5, 3) == Cursor(4, 2)
  {
    var keys := seq(6, _ => Down);
    calc {
      Apply(Initial, keys, 5, 3);
    == { assert keys[1..] == seq(5, _ => Down); }
      Apply(Cursor(1, 0), seq(5, _ => Down), 5, 3);
    == { assert seq(5, _ => Down)[1..] == seq(4, _ => Down); }
      Apply(Cursor(2, 0), seq(4, _ => Down), 5, 3);
    == { assert seq(4, _ => Down)[1..] == seq(3, _ => Down); }
      Apply(Cursor(3, 1), seq(3, _ => Down), 5, 3);
    == { assert seq(3, _ => Down)[1..] == seq(2, _ => Down); }
      Apply(Cursor(4, 2), seq(2, _ => Down), 5, 3);
    == { assert seq(2, _ => Down)[1..] == seq(1, _ => Down); }
      Apply(Cursor(4, 2), seq(1, _ => Down), 5, 3);
    == { assert seq(1, _ => Down)[1..] == []; }
      Apply(Cursor(4, 2), [], 5, 3);
    }
  }

  /**
   * The highlighted row lies in the visible window; the window is full
   * whenever the list is at least a screen long, and otherwise shows the
   * whole list.
   */
  lemma WindowShowsSelection(c: Cursor, rows: int, height: int)
    requires Inv(c, rows, height)
    ensures var (first, end) := VisibleWindow(c, rows, height);
      0 <= first <= c.selected < end <= rows && end - first <= height &&
      (rows >= height ==> end - first == height) &&
      (rows <= height ==> first == 0 && end == rows)
  {
  }
}
