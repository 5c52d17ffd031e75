# newspaperss feed list: selection and scrolling

newspaperss is a curses terminal program. Its `main` function draws a title
line, a pad of 100 rows labelled `Feed 1` … `Feed 100`, and one highlighted
(reverse-video) row. It then reads keys until `q`. `k` moves the highlight
up and `j` moves it down. The pad scrolls so that the highlight stays inside
the screen area below the title, which is `H = lines - 1` rows tall.

This project models that key loop and proves its display invariant:

- the highlight is always a row of the list;
- it is always on screen;
- the screen never scrolls past the end of the list.

It also models what is drawn: the row labels, the single reversed row and
the visible window of the pad.

Files:

- `labels.dfy` (module `Labels`): the decimal numeral Python's f-string writes
  for a non-negative int, the row label `Feed <x+1>`, and a parser for both
  with round-trip lemmas.
- `viewport.dfy` (module `Viewport`): the state as values. It holds a `Cursor`
  (selected row, scroll offset), the key datatype (`Up` for `k`, `Down` for
  `j`, `Quit` for `q`, `Other`), one function per key, `Apply` for a run of
  keys, the visible window, and the drawn pad and screen. The lemmas state
  the properties.
- `feed_screen.dfy` (module `FeedScreen`): the class `FeedWindow`. Its fields
  `selected` and `offset` are updated in place, and `pad` is an array of
  rows. Its methods are `MoveUp`, `MoveDown`, `HandleKey`, `Render` and `Run`
  (the `while` loop over a key sequence). Each one is proved against the
  functions of `Viewport`. `Session` is the whole of `main`, with the row
  count fixed at 100 and the terminal's line and column counts as parameters.

The row count is a parameter of `FeedWindow` so that small lists can be
stated (five rows on a three-line screen). The program itself always uses
100, as `Session` does.

Two points of behaviour the model keeps as the code has them:

- The up move scrolls whenever the offset is positive (src/main.py:36-37),
  even when the row it selects is already on screen. `StepUp` does the
  same, and `UpScrollsWhileStillVisible` gives a case. The invariant holds
  all the same.
- The code always has 100 rows, so the invariant assumes at least one row.

Setting up the screen raises `curses.error` on a terminal that is too small,
and the program then ends before it reads a key. The model states when that
happens. Curses fails to write text that reaches the last cell of a window.
So the 16-character title (src/main.py:15) needs more than 16 columns, and
each label (src/main.py:20) must end before the pad's last cell. A pad
refresh is first trimmed to end at the pad's last row, and it fails when no
screen line is left. So the first refresh (src/main.py:24) needs a line
below the title. `FeedWindow` records the outcome in `raised`, and the loop
runs only when it is false. With 100 feeds this comes to: setup succeeds
exactly when the terminal has more than 16 columns and at least 2 lines.
Once setup succeeds, the redraw in the loop cannot fail. Its writes are
the same as at setup, and `RefreshShowsWindow` shows that its refresh always
has a screen line.

## Model

| member | source | states |
|---|---|---|
| `Labels.Decimal` | src/main.py:20 | the numeral of a non-negative int is a non-empty string of digits with no leading zero |
| `Labels.DecimalRoundTrip` | src/main.py:20 | reading back the numeral of n gives n |
| `Labels.LabelRoundTrip` | src/main.py:19-20 | the label of row x (`Feed ` then x + 1) parses back to x |
| `Labels.DecimalWidth` | src/main.py:20 | numerals of numbers below 10, 100 and 1000 have at most 1, 2 and 3 digits |
| `Labels.LabelWidth` | src/main.py:19-20 | the labels of the first 999 rows are at most 8 characters wide |
| `Labels.Label` | src/main.py:19-20 | the label of a row is `Feed ` followed by a digit string with no leading zero; its value is pinned by `LabelRoundTrip` |
| `Labels.LabelInjective` | src/main.py:47-48 | two rows have the same label exactly when they are the same row |
| `Viewport.StepUp` | src/main.py:32-37 | `k` never moves the highlight or the screen down, and moves each by at most one row. It changes nothing exactly when the highlight is on row 0. It never makes the offset negative. The exact move is stated by `UpMovesOne` |
| `Viewport.StepDown` | src/main.py:39-44 | `j` never moves the highlight or the screen up, and moves each by at most one row. It changes nothing exactly when the highlight is on the last row. Under the display invariant, it scrolls only to put the highlight on the bottom screen line. The exact move is stated by `DownMovesOne` |
| `Viewport.Step` | src/main.py:29-44 | dispatch on one key: `q` and other keys leave the cursor as it is, `k` moves it only up, `j` only down, each by at most one row |
| `Viewport.Apply` | src/main.py:26-44 | after a run of keys, the highlight and the offset have each moved by at most one row per key read |
| `Viewport.VisibleWindow` | src/main.py:51-57 | the shown rows start at the offset, never go past the last row, and never take more than H screen lines. They take exactly H lines when the list reaches that far |
| `Viewport.PadOf` | src/main.py:46-49 | the drawn pad has one row per feed, and at most one row is reversed. A row is reversed exactly when the selection is a row of the list |
| `Viewport.RefreshBottom` | src/main.py:51-58 | curses' trimming of the refresh region only shrinks it, and leaves it whole exactly when offset + H reaches no further than the list |
| `Viewport.RefreshSucceeds` | src/main.py:24 | a pad refresh succeeds exactly when its first pad row is a row of the list and H ≥ 1 |
| `Viewport.InitialInv` | src/main.py:21-22 | the start state, selected 0 and offset 0, satisfies the display invariant exactly when there is at least one row and at least one screen line |
| `Viewport.InitialRefresh` | src/main.py:24 | the first pad refresh, from offset 0, succeeds exactly when there is at least one row and H ≥ 1 |
| `Viewport.RefreshShowsWindow` | src/main.py:51-58 | under the display invariant, the refresh in the loop succeeds, and after trimming it draws exactly the rows of the visible window, one per screen line |
| `Viewport.StepPreservesInv` | src/main.py:32-44 | every key keeps 0 ≤ offset ≤ selected ≤ offset + H - 1, selected < rows and offset ≤ max(0, rows - H) |
| `Viewport.ApplyPreservesInv` | src/main.py:26-44 | any run of keys, up to the first `q`, keeps the display invariant |
| `Viewport.MovesStopAtEnds` | src/main.py:32-40 | `k` on row 0 and `j` on the last row leave the state unchanged |
| `Viewport.DownMovesOne` | src/main.py:39-44 | `j` above the last row selects the next row; the offset grows by 1 exactly when the new row equals offset + H, and is otherwise unchanged |
| `Viewport.UpMovesOne` | src/main.py:32-37 | `k` below row 0 selects the previous row; the offset drops by 1 iff it was positive, so a scrolled screen keeps the highlight on the same screen line |
| `Viewport.UpScrollsWhileStillVisible` | src/main.py:36-37 | with 5 rows and H = 3, `k` at selected 4, offset 2 scrolls to offset 1 although row 3 was already on screen |
| `Viewport.OtherKeysKeepCursor` | src/main.py:29-44 | keys other than `j` and `k` change nothing; a `q` ends the run with the state as it was |
| `Viewport.SixDownsOnFiveRows` | src/main.py:39-44 | with 5 rows and H = 3, six `j` from the start give selected 4, offset 2, and a seventh `j` changes nothing |
| `Viewport.WindowShowsSelection` | src/main.py:51-57 | the shown pad rows [offset, min(offset + H, rows)) contain the selected row; they fill the screen when rows ≥ H and are the whole list when rows ≤ H |
| `Viewport.ScreenOf` | src/main.py:46-57 | the screen shows exactly min(offset + H, rows) - offset rows (between 1 and H), each labelled with its pad row; exactly one is reversed, the selected row, at screen line selected - offset |
| `FeedScreen.WriteFits` | src/main.py:15 | a write into the last row of a window succeeds exactly when the text is shorter than the window's width, and no write succeeds in a window with no columns |
| `FeedScreen.StartupFails` | src/main.py:11-24 | when setup does not raise, the start state satisfies the display invariant and the terminal is wider than the title |
| `FeedScreen.FeedCountStartup` | src/main.py:11-24 | with 100 feeds, setup raises exactly when the terminal has at most 16 columns or fewer than 2 lines |
| `FeedScreen.FeedWindow.constructor` | src/main.py:11-24 | setup raises exactly when the title or a label cannot be written, the pad has no rows, or the first refresh has no screen line. Otherwise the pad has one labelled row per feed, row 0 highlighted, offset 0, H equal to the terminal's lines minus one, and the invariant holds |
| `FeedScreen.FeedWindow.Render` | src/main.py:46-49 | after redrawing, pad row x holds the label of x and is reversed iff x is the selected row |
| `FeedScreen.FeedWindow.MoveUp` | src/main.py:32-37 | the `k` branch updates the fields as `StepUp` and keeps the invariant |
| `FeedScreen.FeedWindow.MoveDown` | src/main.py:39-44 | the `j` branch updates the fields as `StepDown` and keeps the invariant |
| `FeedScreen.FeedWindow.HandleKey` | src/main.py:27-44 | one key: it reports quit exactly for `q` and moves the cursor as `Step` does |
| `FeedScreen.FeedWindow.Screen` | src/main.py:51-57 | the part of the pad array the terminal shows equals the screen `ScreenOf` describes for the current cursor |
| `FeedScreen.FeedWindow.Run` | src/main.py:26-58 | the loop runs only after setup succeeded; it stops at the first `q` or at the end of the input, ends in the state `Apply` gives, leaves the pad drawn for that state, and keeps the invariant |
| `FeedScreen.Session` | src/main.py:4-58 | for 100 feeds on a terminal of given lines and columns: it raises before reading any key exactly when there are at most 16 columns or fewer than 2 lines. Otherwise it reports the key count read, the final cursor as `Apply` from the start state, the pad drawn for it, and the invariant |

## Left out

- Curses calls (`initscr`, `curs_set`, `newwin`, `newpad`, `addstr`, `chgat`, `refresh`, `getch`, `wrapper`) are terminal I/O. The pad is an array of rows (text, reverse flag), and the screen is the slice of it that a pad refresh shows.
- The title window (src/main.py:14-16) is static text. Its contents on screen are not modelled, only whether writing it fails.
- Curses itself is not part of this model. Its two failure rules used here are stated as predicates: `WriteFits` for text written into a window, and `RefreshSucceeds` for the trimmed pad refresh. Any other error curses might raise is not modelled.
- Key codes are reduced to the four key kinds. `getch` blocks for input forever, while the model reads a finite key sequence. Running out of keys means the program is still waiting, with the state and the pad that `Run` reports.
- Terminal resize is not modelled: the program reads the geometry once and never again.
- Feed fetching, timestamp parsing, the JSON cache and the two-level navigation are not modelled. src/main.py contains none of them.
