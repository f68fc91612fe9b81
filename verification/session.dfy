/** The game session: construction, the single click action, flagging mode and reset.

    In the game all of this lives in the window object alongside its widgets; here the
    state is a value and each action returns the next state. */
module Session {
  import opened Grid
  import opened Field
  import opened FloodFill

  datatype Result<T, E> = Ok(value: T) | Err(error: E)

  /** Why construction refuses a configuration. */
  datatype ConfigError = SizeNotPositive | TooManyBombs | NegativeBombs

  /** The session state: the field size, the number of bombs, the buttons, the bomb
      positions in layout order, the flags left to place, whether clicks place flags,
      and whether a mine has gone off. */
  datatype Game = Game(
    size: nat,
    numBombs: int,
    cells: Board,
    bombs: seq<Pos>,
    flags: int,
    flagging: bool,
    dead: bool)

  // ---------------------------------------------------------------------------
  // Invariants
  // ---------------------------------------------------------------------------

  /** The configurations construction accepts: a non-empty field, a bomb count that
      is not negative, and at least two cells free of mines. */
  predicate ValidConfig(n: int, b: int)
  {
    n > 0 && 0 <= b < n * n - 1
  }

  function Flagged(b: Board): set<Pos>
  {
    set q | q in b && b[q].flagged
  }

  /** Flags left plus flags placed is the bomb count, and the flags left stay within
      0 .. the bomb count. */
  predicate FlagBudget(g: Game)
  {
    g.flags + |Flagged(g.cells)| == g.numBombs && 0 <= g.flags <= g.numBombs
  }

  /** The bomb list holds every mine exactly once and nothing else. */
  ghost predicate BombsExact(g: Game)
  {
    && Distinct(g.bombs)
    && (forall q :: q in g.bombs <==> IsMine(g.cells, q))
    && |g.bombs| == g.numBombs
  }

  predicate NoRevealedMine(b: Board)
  {
    forall q :: q in b && b[q].revealed ==> !b[q].isBomb
  }

  /** The state invariant every reachable session keeps. */
  ghost predicate Valid(g: Game)
  {
    && ValidConfig(g.size, g.numBombs)
    && g.cells.Keys == Cells(g.size)
    && CountsConsistent(g.cells)
    && BombsExact(g)
    && FlagBudget(g)
    && NoRevealedMine(g.cells)
    && ZeroClosed(g.cells)
  }

  /** The state right after the field has been dealt from `order`: every cell hidden
      and unflagged with its mine bit from the order, all flags available, not dead,
      not flagging. */
  predicate IsStart(g: Game, n: nat, b: int, order: seq<bool>)
    requires |order| >= n * n
  {
    && g.size == n && g.numBombs == b
    && g.cells.Keys == Cells(n)
    && (forall p :: p in g.cells ==>
          g.cells[p].isBomb == order[Index(n, p)] && !g.cells[p].revealed && !g.cells[p].flagged)
    && g.flags == b && !g.flagging && !g.dead
  }

  // ---------------------------------------------------------------------------
  // Construction and reset
  // ---------------------------------------------------------------------------

  /** `set_start_point` followed by the layout loop of `create_field` and the count
      calculation. */
  function CreateField(n: nat, b: int, order: seq<bool>): (g: Game)
    requires n > 0 && |order| >= n * n
    ensures IsStart(g, n, b, order)
  {
    Game(n, b, CalculateAllBombNeighbours(Layout(n, order)), BombList(n, order), b, false, false)
  }

  /** A freshly dealt field of a valid configuration satisfies the invariant. */
  lemma CreateFieldValid(n: nat, b: int, order: seq<bool>)
    requires ValidConfig(n, b) && IsBombOrder(n, b, order)
    ensures |order| == n * n
    ensures Valid(CreateField(n, b, order))
  {
    BombOrderComposition(n, b, order);
    var g := CreateField(n, b, order);
    CalculatedCountsConsistent(Layout(n, order));
    assert order[.. n * n] == order;
    assert Flagged(g.cells) == {};
  }

  /** Construction: the size must be positive and the bomb count below `n*n - 1`,
      checked in that order; the shuffled order is dealt row by row. */
  function NewGame(n: int, b: int, order: seq<bool>): (res: Result<Game, ConfigError>)
    requires ValidConfig(n, b) ==> IsBombOrder(n, b, order)
    ensures res.Ok? <==> ValidConfig(n, b)
    ensures res.Err? ==> res.error == (if n <= 0 then SizeNotPositive
                                       else if b >= n * n - 1 then TooManyBombs
                                       else NegativeBombs)
    ensures res.Ok? ==> |order| == n * n && IsStart(res.value, n, b, order) && Valid(res.value)
  {
    if n <= 0 then Err(SizeNotPositive)
    else if b >= n * n - 1 then Err(TooManyBombs)
    else if b < 0 then Err(NegativeBombs)
    else
      CreateFieldValid(n, b, order);
      Ok(CreateField(n, b, order))
  }

  /** `reset`: deal a new order onto the existing buttons, reset each of them, and
      recalculate the counts; the counters go back to their start values. */
  function Reset(g: Game, order: seq<bool>): (g': Game)
    requires ValidConfig(g.size, g.numBombs) && g.cells.Keys == Cells(g.size)
    requires IsBombOrder(g.size, g.numBombs, order)
    ensures |order| == g.size * g.size
    ensures IsStart(g', g.size, g.numBombs, order) && Valid(g')
    ensures g' == CreateField(g.size, g.numBombs, order)
  {
    BombOrderComposition(g.size, g.numBombs, order);
    var cells := ResetCells(g.size, g.cells, order);
    CountsOverwriteStale(cells, Layout(g.size, order));
    CreateFieldValid(g.size, g.numBombs, order);
    g.(cells := CalculateAllBombNeighbours(cells), bombs := BombList(g.size, order),
       flags := g.numBombs, flagging := false, dead := false)
  }

  /** Whatever happened before, two resets with the same order give the same game. */
  lemma ResetForgetsHistory(g1: Game, g2: Game, order: seq<bool>)
    requires ValidConfig(g1.size, g1.numBombs) && g1.cells.Keys == Cells(g1.size)
    requires g2.size == g1.size && g2.numBombs == g1.numBombs && g2.cells.Keys == g1.cells.Keys
    requires IsBombOrder(g1.size, g1.numBombs, order)
    ensures Reset(g1, order) == Reset(g2, order)
  {
  }

  /** A valid session has exactly `numBombs` mines. */
  lemma MineCount(g: Game)
    requires Valid(g)
    ensures |MineSet(g.cells)| == g.numBombs
  {
    DistinctCard(g.bombs);
    assert (set x | x in g.bombs) == MineSet(g.cells);
  }

  /** In a valid session every count lies in 0 .. 8. */
  lemma CountsInRange(g: Game, p: Pos)
    requires Valid(g) && p in g.cells
    ensures 0 <= g.cells[p].bombNeighbours <= 8
  {
    BombNeighboursCorrect(g.cells, p);
  }

  // ---------------------------------------------------------------------------
  // Flagging
  // ---------------------------------------------------------------------------

  /** `toggle_flagging`: switch between placing flags and revealing. */
  function ToggleFlagging(g: Game): (g': Game)
    ensures g'.flagging != g.flagging
    ensures g'.(flagging := g.flagging) == g
    ensures Valid(g) ==> Valid(g')
  {
    g.(flagging := !g.flagging)
  }

  /** `b2` differs from `b1` at most in the flag bits. */
  predicate FlagsOnly(b1: Board, b2: Board)
  {
    b1.Keys == b2.Keys && forall q :: q in b1 ==> b2[q] == b1[q].(flagged := b2[q].flagged)
  }

  /** Changing flag bits keeps every part of the invariant except the flag budget. */
  lemma FlagsOnlyKeepsField(g: Game, g': Game)
    requires Valid(g)
    requires g'.size == g.size && g'.numBombs == g.numBombs && g'.bombs == g.bombs
    requires FlagsOnly(g.cells, g'.cells)
    requires FlagBudget(g')
    ensures Valid(g')
  {
    forall p | p in g'.cells
      ensures g'.cells[p].bombNeighbours == |MineNeighbours(g'.cells, p)|
    {
      SameMinesSameNeighbours(g.cells, g'.cells, p);
    }
  }

  /** The flagging branch of a click on a hidden cell: a flagged cell is unflagged and
      its flag returned; an unflagged cell takes a flag only while flags are left. */
  function FlagClick(g: Game, p: Pos): (g': Game)
    requires p in g.cells
    ensures FlagsOnly(g.cells, g'.cells)
    ensures forall q :: q in g.cells && q != p ==> g'.cells[q] == g.cells[q]
    ensures g'.(cells := g.cells, flags := g.flags) == g
    ensures g.cells[p].flagged ==> !g'.cells[p].flagged && g'.flags == g.flags + 1
    ensures !g.cells[p].flagged && g.flags > 0 ==> g'.cells[p].flagged && g'.flags == g.flags - 1
    ensures !g.cells[p].flagged && g.flags <= 0 ==> g' == g
  {
    var c := g.cells[p];
    if c.flagged then g.(cells := g.cells[p := c.SetUnflagged()], flags := g.flags + 1)
    else if g.flags > 0 then g.(cells := g.cells[p := c.SetFlagged()], flags := g.flags - 1)
    else g
  }

  /** Flagging keeps the invariant; in particular the flags left plus the flags placed
      stay equal to the bomb count and the counter stays within 0 .. the bomb count. */
  lemma FlagClickKeepsValid(g: Game, p: Pos)
    requires Valid(g) && p in g.cells
    ensures Valid(FlagClick(g, p))
  {
    FlagClickKeepsBudget(g, p);
    FlagsOnlyKeepsField(g, FlagClick(g, p));
  }

  lemma FlagClickKeepsBudget(g: Game, p: Pos)
    requires FlagBudget(g) && p in g.cells
    ensures FlagBudget(FlagClick(g, p))
  {
    var g' := FlagClick(g, p);
    if g.cells[p].flagged {
      assert Flagged(g'.cells) == Flagged(g.cells) - {p};
    } else if g.flags > 0 {
      assert Flagged(g'.cells) == Flagged(g.cells) + {p};
    }
  }

  /** Flagging the same cell twice restores both the cell and the flag counter. */
  lemma FlagTwiceRestores(g: Game, p: Pos)
    requires p in g.cells && g.flags >= 0
    ensures FlagClick(FlagClick(g, p), p) == g
  {
    var c := g.cells[p];
    if c.flagged {
      assert c.SetUnflagged().SetFlagged() == c;
      assert g.cells[p := c.SetUnflagged()][p := c] == g.cells;
    } else if g.flags > 0 {
      assert c.SetFlagged().SetUnflagged() == c;
      assert g.cells[p := c.SetFlagged()][p := c] == g.cells;
    }
  }

  // ---------------------------------------------------------------------------
  // The click
  // ---------------------------------------------------------------------------

  /** The outcomes of `clicked_button`, by its guard order: ignored once dead or on a
      revealed cell; in flagging mode the flag toggle; otherwise a flagged cell is
      ignored, a mine ends the game (without revealing the mine), and any other cell
      is flood-filled. `revealed` lists the cells the click revealed: nothing outside
      the flood, and in the flood exactly a chain of cells starting at `p`, each after
      the first next to an earlier revealed zero. */
  ghost predicate ClickOutcome(g: Game, p: Pos, g': Game, revealed: seq<Pos>)
    requires p in g.cells
  {
    if g.dead || g.cells[p].revealed then g' == g && revealed == []
    else if g.flagging then g' == FlagClick(g, p) && revealed == []
    else if g.cells[p].flagged then g' == g && revealed == []
    else if g.cells[p].isBomb then g' == g.(dead := true) && revealed == []
    else
      && g' == g.(cells := g'.cells)
      && Flooded(g.cells, p, g'.cells)
      && |revealed| > 0 && revealed[0] == p
      && Chained(g.cells, revealed)
      && (forall q :: q in revealed <==> NewlyRevealed(g.cells, g'.cells, q))
  }

  /** `clicked_button` on a field where no zero-count cell has a mine next to it
      (every valid session, by `ZeroNeighbourIsSafe`). Also returns the cells it
      revealed, in the order it revealed them. */
  method Click(g: Game, p: Pos) returns (g': Game, revealed: seq<Pos>)
    requires p in g.cells && ZerosSafe(g.cells)
    ensures ClickOutcome(g, p, g', revealed)
  {
    var c := g.cells[p];
    revealed := [];
    if g.dead {
      g' := g;
    } else if c.revealed {
      g' := g;
    } else if g.flagging {
      g' := FlagClick(g, p);
    } else if c.flagged {
      g' := g;
    } else if c.isBomb {
      g' := g.(dead := true);
    } else {
      var cells;
      cells, revealed := ClearZeros(g.cells, p);
      g' := g.(cells := cells);
    }
  }

  /** Every outcome of a click on a valid session is valid. */
  lemma ClickKeepsValid(g: Game, p: Pos, g': Game, revealed: seq<Pos>)
    requires Valid(g) && p in g.cells && ClickOutcome(g, p, g', revealed)
    ensures Valid(g')
  {
    if g.dead || g.cells[p].revealed {
    } else if g.flagging {
      FlagClickKeepsValid(g, p);
    } else if g.cells[p].flagged {
    } else if g.cells[p].isBomb {
    } else {
      FloodKeepsValid(g, p, g');
    }
  }

  /** Clicking a safe cell with a non-zero count reveals that cell and nothing else. */
  lemma NonZeroClickRevealsOne(g: Game, p: Pos, g': Game, revealed: seq<Pos>)
    requires p in g.cells && ClickOutcome(g, p, g', revealed)
    requires !g.dead && !g.flagging
    requires var c := g.cells[p]; !c.revealed && !c.flagged && !c.isBomb && c.bombNeighbours != 0
    ensures revealed == [p]
    ensures g' == g.(cells := g.cells[p := g.cells[p].(revealed := true)])
  {
    ChainHeadIsZero(g.cells, revealed);
    var b, b' := g.cells, g'.cells;
    forall q | q in b
      ensures b'[q] == b[p := b[p].(revealed := true)][q]
    {
      if q != p && !b[q].revealed {
        assert !NewlyRevealed(b, b', q);
      }
    }
  }

  /** A flood fill keeps the invariant: it changes only revealed bits, never reveals a
      mine, and leaves every revealed zero with its neighbours revealed. */
  lemma FloodKeepsValid(g: Game, p: Pos, g': Game)
    requires Valid(g)
    requires g' == g.(cells := g'.cells) && Flooded(g.cells, p, g'.cells)
    ensures Valid(g')
  {
    var b, b' := g.cells, g'.cells;
    forall q | q in b'
      ensures b'[q].bombNeighbours == |MineNeighbours(b', q)|
    {
      SameMinesSameNeighbours(b, b', q);
    }
    assert Flagged(b') == Flagged(b);
    forall q | q in b' && b'[q].revealed
      ensures !b'[q].isBomb
    {
      if !b[q].revealed {
        assert NewlyRevealed(b, b', q);
      }
    }
    FloodKeepsZeroClosed(b, p, b');
  }

  // ---------------------------------------------------------------------------
  // Construction guard as written
  // ---------------------------------------------------------------------------

  /** Construction with the guard the game actually applies: a positive size and a
      bomb count below `n*n - 1`, with no lower bound on the bomb count. */
  function NewGameAsWritten(n: int, b: int, order: seq<bool>): (res: Result<Game, ConfigError>)
    requires n > 0 && b < n * n - 1 ==> IsBombOrder(n, b, order)
    ensures res.Ok? <==> n > 0 && b < n * n - 1
    ensures res.Ok? ==> |order| >= n * n && IsStart(res.value, n, b, order)
  {
    if n <= 0 then Err(SizeNotPositive)
    else if b >= n * n - 1 then Err(TooManyBombs)
    else
      BombOrderComposition(n, b, order);
      Ok(CreateField(n, b, order))
  }

  /** The guard as written lets a negative bomb count through: a 2x2 field with
      count -1 starts with no mines and a flag counter of -1, breaking the flag
      budget, and even a single-cell field is accepted with count -1. */
  lemma NegativeBombCountAccepted()
    ensures var order := Unshuffled(2, -1);
      && IsBombOrder(2, -1, order)
      && NewGameAsWritten(2, -1, order).Ok?
      && NewGameAsWritten(2, -1, order).value.flags == -1
      && MineSet(NewGameAsWritten(2, -1, order).value.cells) == {}
      && !FlagBudget(NewGameAsWritten(2, -1, order).value)
    ensures NewGameAsWritten(1, -1, Unshuffled(1, -1)).Ok?
  {
    var order := Unshuffled(2, -1);
    var g := NewGameAsWritten(2, -1, order).value;
    assert forall k :: 0 <= k < |order| ==> !order[k];
    forall q | q in g.cells
      ensures !g.cells[q].isBomb
    {
      assert !order[Index(2, q)];
    }
  }

  /** With the corrected guard a single-cell field is always refused. */
  lemma SingleCellRejected(b: int, order: seq<bool>)
    requires ValidConfig(1, b) ==> IsBombOrder(1, b, order)
    ensures NewGame(1, b, order).Err?
  {
  }
}
