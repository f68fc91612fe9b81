# Minesweeper game engine in Dafny

This project models the game-state engine of a small Tk minesweeper
(`minesweeper.py`). In the original, the engine is spread over the
`Application` window class and its `MinefieldButton` widgets. The model keeps only
the game decisions, as values and pure transitions:

- **Grid** (`grid.dfy`): positions `(row, col)`, Chebyshev adjacency, the
  row-major index, and the eight neighbour offsets in the order the game visits them.
- **Field** (`field.dfy`): the per-button state `Cell` (mine, flagged, revealed,
  neighbour count) and the field as a map from positions to cells. A position that
  is missing from the map is outside the field, which is what the game's
  `dict.get(...)` returning `None` means. This module also holds the bomb order
  before and after shuffling, how the field is dealt row by row, the list of bomb
  positions, and the neighbour counts, checked against a reference set of
  mines at Chebyshev distance one.
- **FloodFill** (`floodfill.dfy`): `clear_zeros`, run as a loop over an explicit
  stack of pending positions. The loop ends because each step either reveals one
  more hidden cell or pops one position.
- **Session** (`session.dfy`): the session record. It covers construction with its
  configuration guard, `set_start_point`/`create_field`/`reset`,
  `toggle_flagging`, and `clicked_button` with its guard order: dead, revealed,
  flagging mode, flagged, mine, else flood fill. `Valid` is the state invariant:
  consistent counts, an exact bomb list, the flag budget, no revealed mine, and
  every revealed zero having all its neighbours revealed. Construction establishes
  it, and reset, flag toggling and clicks preserve it. `Click` also returns the
  cells it revealed, in order. The game returns nothing; the list lets the contract
  say exactly which cells a click reveals.

The button-level state changes `Cell.SetFlagged`, `Cell.SetUnflagged` and
`Cell.Reset` (minesweeper.py:32-45) are plain record updates. What they do is
stated by the contracts of `FlagClick` and `Reset`, which use them.

Where a player might expect otherwise, the model follows the code:
- Clicking a mine sets `dead` but does not reveal the mine (minesweeper.py:227-232).
- Flood fill does not skip flagged cells. It reveals them, leaves their flag bit
  set, and does not give the flag back (minesweeper.py:280-286).
- There is no win detection.
- Clicks come only from buttons, so there is no out-of-range error. `Click`
  requires a position on the field. It also requires that no zero-count cell has a
  mine next to it, which every valid session satisfies.
- Construction does not reject a negative bomb count (see Findings).

## Model

| member | source | states |
|---|---|---|
| Grid.Around | minesweeper.py:245-253 | the eight probed offsets are distinct, and a position is among them exactly when it is at Chebyshev distance one |
| Grid.Index | minesweeper.py:175-198 | the row-major position `i*n + j` of an in-grid cell lies inside an order of length `n*n` |
| Field.Unshuffled | minesweeper.py:70-73 | the unshuffled order has `num_bombs` true entries (none when negative) and `n*n - num_bombs` false entries |
| Field.BombOrderComposition | minesweeper.py:70-75 | any shuffle of the order has length `n*n` (for a non-negative count), exactly `num_bombs` true entries and `n*n - num_bombs` false ones |
| Field.BombList | minesweeper.py:175-198 | the bomb list built in layout order is duplicate-free, contains a position exactly when its order entry is true, and has as many entries as the order has true entries |
| Field.CountMines | minesweeper.py:245-258 | the offset loop counts at most one per probed position |
| Field.CountMinesIsSetSize | minesweeper.py:245-258 | over distinct probes, the loop total is the number of distinct in-field mine positions probed |
| Field.BombNeighboursCorrect | minesweeper.py:245-258 | the offset loop over the eight neighbours counts exactly the in-field mines at Chebyshev distance one, which are at most 8 |
| Field.CalculateBombNeighbours | minesweeper.py:241-258 | `calculate_bomb_neighbours` equals the number of in-field mines at Chebyshev distance one, which is at most 8 |
| Field.CalculateAllBombNeighbours | minesweeper.py:137-141 | every cell gets the reference count of its mine neighbours and keeps all its other bits |
| Field.CalculatedCountsConsistent | minesweeper.py:137-141 | after recalculation every count agrees with the mines of the field and lies in 0..8 |
| Field.CountsOverwriteStale | minesweeper.py:152-165 | counts left over from the previous game do not matter: two fields equal up to counts are identical after recalculation |
| FloodFill.RevealShrinksHidden | minesweeper.py:261-264 | revealing a hidden cell strictly decreases the number of hidden cells, which makes the flood terminate |
| FloodFill.ZeroNeighbourIsSafe | minesweeper.py:267-286 | with consistent counts no zero-count cell has a mine next to it, so expanding only zeros never reveals a mine |
| FloodFill.ClearZeros | minesweeper.py:261-284 | on a field whose zero-count cells have no mine next to them: the clicked cell ends revealed; revealed cells stay revealed; only revealed bits change; the cells revealed are exactly the returned list, each safe and, after the first, next to an earlier zero; every in-field neighbour of a revealed zero ends revealed |
| FloodFill.FloodKeepsZeroClosed | minesweeper.py:261-286 | a flood fill on a field where every revealed zero has its neighbours revealed keeps that so |
| Session.CreateField | minesweeper.py:168-200 | a fresh field deals entry `i*n + j` to cell (i, j), all hidden and unflagged, with `flags == num_bombs`, not dead, not flagging |
| Session.CreateFieldValid | minesweeper.py:144-200 | a freshly dealt valid configuration satisfies the state invariant, including an exact bomb list of `num_bombs` entries and consistent counts |
| Session.NewGame | minesweeper.py:51-64 | construction succeeds exactly for a positive size and `0 <= num_bombs < n*n - 1`, reports which check failed otherwise, and yields a valid start state |
| Session.Reset | minesweeper.py:152-165 | reset leaves every cell hidden and unflagged with mines from the new order, `flags == num_bombs`, not dead, not flagging, the invariant holding, and equals a freshly created field |
| Session.ResetForgetsHistory | minesweeper.py:144-165 | two sessions of the same size reset with the same order become identical, whatever their prior state |
| Session.MineCount | minesweeper.py:155-163 | a valid session has exactly `num_bombs` mine cells |
| Session.CountsInRange | minesweeper.py:137-141 | in a valid session every count lies in 0..8 |
| Session.ToggleFlagging | minesweeper.py:129-133 | toggling flagging mode flips that bit and changes nothing else |
| Session.FlagClick | minesweeper.py:213-222 | a flagged cell is unflagged and its flag returned; an unflagged cell is flagged and the counter decremented only while flags are left, otherwise nothing changes; no other cell or field changes |
| Session.FlagClickKeepsBudget | minesweeper.py:213-222 | flagging keeps flags left plus flags placed equal to `num_bombs`, with the counter within 0..`num_bombs` |
| Session.FlagClickKeepsValid | minesweeper.py:213-222 | flagging preserves the whole state invariant |
| Session.FlagTwiceRestores | minesweeper.py:213-222 | flagging the same cell twice restores the cell and the counter |
| Session.Click | minesweeper.py:207-237 | dead or revealed: no change; flagging mode: the flag toggle; flagged: no change; mine: only `dead` is set; in these cases nothing is revealed. Otherwise a flood fill from the clicked cell: it reveals that cell, changes only revealed bits and reveals no mine; the cells it reveals are exactly the returned list, which starts at the clicked cell and in which every later cell is next to an earlier revealed zero; every neighbour of each zero it reveals ends revealed |
| Session.NonZeroClickRevealsOne | minesweeper.py:235-264 | clicking a hidden, unflagged, safe cell whose count is not zero reveals that cell and changes nothing else |
| Session.ClickKeepsValid | minesweeper.py:207-237 | every outcome a click allows on a valid session is again valid |
| Session.FloodKeepsValid | minesweeper.py:235-237 | a flood fill that changes only the field keeps the state invariant, including the flag budget and no revealed mine |
| Session.NewGameAsWritten | minesweeper.py:58-64 | the guard as written accepts exactly a positive size with `num_bombs < n*n - 1`, and deals the order as a fresh field |
| Session.NegativeBombCountAccepted | minesweeper.py:62-72 | the guard as written accepts `n = 2, num_bombs = -1`, giving a field with no mines and a flag counter of -1; it also accepts `n = 1` |
| Session.SingleCellRejected | minesweeper.py:58-64 | with the corrected guard a 1x1 field is refused for every bomb count |

## Left out

- Tk presentation: widget construction and layout, `text_to_`, colours and fonts, button text, the bomb-counter label, `create_dashboard`, `create_content`, the widget side of `set_flagging`/`set_not_flagging`, and `all_to_bombs` (minesweeper.py:29-30, 77-127, 202-205). They have no game semantics.
- The debug `print` (minesweeper.py:266).
- The `recursion_level` counter and the `sys.getrecursionlimit()` fallback (minesweeper.py:236, 262, 285-289). They work around the host call stack. The model floods fully and uniformly with an explicit stack.
- The randomness of `shuffle` (minesweeper.py:74). The shuffled order is a parameter, and any permutation of the unshuffled order is allowed.
- The stored `bomb_order` (minesweeper.py:146). It is never read after the field is dealt.
- The `row`/`col` fields of a button and their non-negativity asserts (minesweeper.py:15-21). A cell's position is its map key, and every key of the field is in range by construction.
- The initial `bomb_neighbours = None` (minesweeper.py:27). The model uses a placeholder 0, which the count calculation overwrites before anything reads it.
- The `isinstance(..., int)` asserts (minesweeper.py:58, 62). Dafny's types enforce them.
- main.py: reading the YAML configuration and the Tk main loop. This is I/O and event-loop plumbing.
- FloodFill.ClearZeros: reveals in the order of an explicit stack, not in the order of the game's depth-first recursion. The set of cells revealed is characterised exactly; the order of revealing is not modelled.

## Findings

| source | as written | input that shows it | evidently intended | confidence | as-written member | corrected member |
|---|---|---|---|---|---|---|
| minesweeper.py:62-64 | only `num_bombs < square_size**2 - 1` is checked, so a negative bomb count passes; the list repetition then yields no mines while the flag counter starts negative | `square_size = 2, num_bombs = -1` (also `square_size = 1, num_bombs = -1`) | reject negative bomb counts (`0 <= num_bombs`), so the flag counter starts within 0..`num_bombs` and a 1x1 field is refused | medium, not executed | Session.NegativeBombCountAccepted | Session.NewGame |
