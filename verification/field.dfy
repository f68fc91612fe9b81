/** The minefield itself: the cells, the shuffled bomb order they are laid out from,
    the list of bomb positions, and the neighbour counts. */
module Field {
  import opened Grid

  /** The game state carried by one minefield button. `bombNeighbours` holds the
      count of adjacent mines once the counts have been calculated. */
  datatype Cell = Cell(isBomb: bool, flagged: bool, revealed: bool, bombNeighbours: int)
  {
    function SetFlagged(): Cell
    {
      this.(flagged := true)
    }

    function SetUnflagged(): Cell
    {
      this.(flagged := false)
    }

    /** Back to a hidden, unflagged button; the mine bit and count are kept. */
    function Reset(): Cell
    {
      this.(revealed := false).SetUnflagged()
    }
  }

  /** The buttons of the field keyed by position. A position missing from the map is
      outside the field. */
  type Board = map<Pos, Cell>

  predicate IsMine(b: Board, q: Pos)
  {
    q in b && b[q].isBomb
  }

  predicate Distinct<T(==)>(s: seq<T>)
  {
    forall i, j :: 0 <= i < j < |s| ==> s[i] != s[j]
  }

  // ---------------------------------------------------------------------------
  // Bomb order
  // ---------------------------------------------------------------------------

  /** List repetition: a non-positive count gives the empty list. */
  function Repeat(x: bool, k: int): (s: seq<bool>)
    ensures |s| == if k < 0 then 0 else k
    ensures multiset(s)[x] == |s| && multiset(s)[!x] == 0
    decreases if k < 0 then 0 else k
  {
    if k <= 0 then [] else [x] + Repeat(x, k - 1)
  }

  /** The bomb order before shuffling: `b` mines, then `n*n - b` empty cells. */
  function Unshuffled(n: int, b: int): (s: seq<bool>)
    ensures multiset(s)[true] == (if b < 0 then 0 else b)
    ensures b <= n * n ==> multiset(s)[false] == n * n - b
    ensures b <= n * n ==> |s| == (if b < 0 then 0 else b) + n * n - b
  {
    Repeat(true, b) + Repeat(false, n * n - b)
  }

  /** The shuffle may return any permutation of the unshuffled order. */
  predicate IsBombOrder(n: int, b: int, order: seq<bool>)
  {
    multiset(order) == multiset(Unshuffled(n, b))
  }

  /** Every shuffled order has the composition of the unshuffled one: exactly `b`
      mines (none when `b` is negative) and `n*n - b` empty cells. */
  lemma BombOrderComposition(n: int, b: int, order: seq<bool>)
    requires IsBombOrder(n, b, order)
    requires b <= n * n
    ensures |order| == (if b < 0 then 0 else b) + n * n - b
    ensures multiset(order)[true] == (if b < 0 then 0 else b)
    ensures multiset(order)[false] == n * n - b
  {
  }

  // ---------------------------------------------------------------------------
  // Laying out the field
  // ---------------------------------------------------------------------------

  /** A fresh field: the cell at (i, j) takes entry `i*n + j` of the order, hidden and
      unflagged. The count is a placeholder until the counts are calculated. */
  function Layout(n: int, order: seq<bool>): (r: Board)
    requires |order| >= n * n
    ensures r.Keys == Cells(n)
  {
    map p | p in Cells(n) :: Cell(order[Index(n, p)], false, false, 0)
  }

  /** Re-dealing an existing field: each button takes its entry of the new order and
      is reset; its stale count is kept until the counts are recalculated. */
  function ResetCells(n: int, b: Board, order: seq<bool>): (r: Board)
    requires b.Keys == Cells(n) && |order| >= n * n
    ensures r.Keys == b.Keys
  {
    map p | p in b :: b[p].(isBomb := order[Index(n, p)]).Reset()
  }

  /** The mine positions of row `i`, whose bits are `bits`, in column order. */
  function RowBombs(i: int, bits: seq<bool>): (s: seq<Pos>)
    ensures forall q :: q in s <==> q.row == i && 0 <= q.col < |bits| && bits[q.col]
    ensures Distinct(s)
    ensures |s| == multiset(bits)[true]
  {
    if bits == [] then []
    else
      var last := |bits| - 1;
      assert bits == bits[..last] + [bits[last]];
      RowBombs(i, bits[..last]) + (if bits[last] then [Pos(i, last)] else [])
  }

  lemma RowBounds(n: int, i: int)
    requires 0 < i <= n
    ensures 0 <= (i - 1) * n && (i - 1) * n + n == i * n <= n * n
  {
    MulMonotone(0, i - 1, n);
    MulMonotone(i, n, n);
  }

  lemma RowSliceMembers(n: int, order: seq<bool>, i: int)
    requires 0 < i <= n && |order| >= n * n
    ensures 0 <= (i - 1) * n && i * n <= n * n
    ensures forall q :: q in RowBombs(i - 1, order[(i - 1) * n .. i * n]) <==>
      q.row == i - 1 && 0 <= q.col < n && order[Index(n, q)]
  {
    RowBounds(n, i);
    var lo := (i - 1) * n;
    var bits := order[lo .. i * n];
    forall q
      ensures q in RowBombs(i - 1, bits) <==> q.row == i - 1 && 0 <= q.col < n && order[Index(n, q)]
    {
      if q.row == i - 1 && 0 <= q.col < n {
        assert Index(n, q) == lo + q.col;
        assert bits[q.col] == order[lo + q.col];
      }
    }
  }

  /** The mine positions in rows `0 .. i-1`, in row-major order. */
  function BombsInRows(n: int, order: seq<bool>, i: int): (s: seq<Pos>)
    requires 0 <= i <= n && |order| >= n * n
    ensures i * n <= n * n
    ensures forall q :: q in s <==> 0 <= q.row < i && 0 <= q.col < n && order[Index(n, q)]
    ensures Distinct(s)
    ensures |s| == multiset(order[.. i * n])[true]
  {
    if i == 0 then []
    else
      RowSliceMembers(n, order, i);
      RowBounds(n, i);
      var lo, hi := (i - 1) * n, i * n;
      var s := BombsInRows(n, order, i - 1);
      var t := RowBombs(i - 1, order[lo .. hi]);
      assert order[.. hi] == order[.. lo] + order[lo .. hi];
      assert forall x, y :: x in s && y in t ==> x != y;
      s + t
  }

  /** The positions of the mines, collected in the order the field is laid out. */
  function BombList(n: nat, order: seq<bool>): (s: seq<Pos>)
    requires |order| >= n * n
    ensures forall q :: q in s <==> InGrid(n, q) && order[Index(n, q)]
    ensures Distinct(s)
    ensures |s| == multiset(order[.. n * n])[true]
  {
    if n <= 0 then [] else BombsInRows(n, order, n)
  }

  /** The set of positions holding a mine. */
  function MineSet(b: Board): set<Pos>
  {
    set q | q in b && IsMine(b, q)
  }

  /** A duplicate-free list has as many distinct elements as entries. */
  lemma {:induction false} DistinctCard<T>(s: seq<T>)
    requires Distinct(s)
    ensures |set x | x in s| == |s|
  {
    if s != [] {
      var t := s[..|s| - 1];
      var x := s[|s| - 1];
      DistinctCard(t);
      assert (set y | y in s) == (set y | y in t) + {x};
      assert x !in (set y | y in t);
    }
  }

  // ---------------------------------------------------------------------------
  // Neighbour counts
  // ---------------------------------------------------------------------------

  /** Reference definition: the mines inside the field at Chebyshev distance one. */
  function MineNeighbours(b: Board, p: Pos): set<Pos>
  {
    set q | q in MineSet(b) && Adjacent(p, q)
  }

  /** How many of the listed positions are in the field and hold a mine. */
  function CountMines(b: Board, ps: seq<Pos>): (k: nat)
    ensures k <= |ps|
  {
    if ps == [] then 0
    else CountMines(b, ps[..|ps| - 1]) + (if IsMine(b, ps[|ps| - 1]) then 1 else 0)
  }


  lemma {:induction false} CountMinesIsSetSize(b: Board, ps: seq<Pos>)
    requires Distinct(ps)
    ensures CountMines(b, ps) == |set q | q in ps && IsMine(b, q)|
  {
    if ps != [] {
      var t := ps[..|ps| - 1];
      var x := ps[|ps| - 1];
      CountMinesIsSetSize(b, t);
      var st := set q | q in t && IsMine(b, q);
      if IsMine(b, x) {
        assert (set q | q in ps && IsMine(b, q)) == st + {x};
        assert x !in st;
      } else {
        assert (set q | q in ps && IsMine(b, q)) == st;
      }
    }
  }

  /** The offset loop counts exactly the mines at Chebyshev distance one, so a count
      never exceeds eight. */
  lemma BombNeighboursCorrect(b: Board, p: Pos)
    ensures CountMines(b, Around(p)) == |MineNeighbours(b, p)|
    ensures |MineNeighbours(b, p)| <= 8
  {
    CountMinesIsSetSize(b, Around(p));
    assert (set q | q in Around(p) && IsMine(b, q)) == MineNeighbours(b, p);
  }

  /** The count of one cell: look up each of the eight offsets, skip the ones outside
      the field, and add one for each mine. */
  function CalculateBombNeighbours(b: Board, p: Pos): (k: nat)
    ensures k == |MineNeighbours(b, p)|
    ensures k <= 8
  {
    BombNeighboursCorrect(b, p);
    CountMines(b, Around(p))
  }

  /** Each cell's count is the number of its mine neighbours. */
  predicate CountsConsistent(b: Board)
  {
    forall p :: p in b ==> b[p].bombNeighbours == |MineNeighbours(b, p)|
  }

  /** Two fields with the same keys and the same mines. */
  predicate SameMines(b1: Board, b2: Board)
  {
    b1.Keys == b2.Keys && forall p :: p in b1 ==> b1[p].isBomb == b2[p].isBomb
  }

  /** The neighbour sets depend on the mines only. */
  lemma SameMinesSameNeighbours(b1: Board, b2: Board, p: Pos)
    requires SameMines(b1, b2)
    ensures MineNeighbours(b1, p) == MineNeighbours(b2, p)
  {
  }

  /** Recalculate every cell's count from the current mines, leaving every other bit
      of every cell alone. */
  function CalculateAllBombNeighbours(b: Board): (r: Board)
    ensures r.Keys == b.Keys
    ensures SameMines(b, r)
    ensures forall p :: p in r ==> r[p] == b[p].(bombNeighbours := |MineNeighbours(b, p)|)
  {
    map p | p in b :: b[p].(bombNeighbours := CalculateBombNeighbours(b, p))
  }

  /** After recalculation every count is consistent with the mines and lies in 0..8. */
  lemma CalculatedCountsConsistent(b: Board)
    ensures CountsConsistent(CalculateAllBombNeighbours(b))
    ensures forall p :: p in b ==> 0 <= CalculateAllBombNeighbours(b)[p].bombNeighbours <= 8
  {
    var r := CalculateAllBombNeighbours(b);
    forall p | p in r
      ensures r[p].bombNeighbours == |MineNeighbours(r, p)| <= 8
    {
      SameMinesSameNeighbours(b, r, p);
    }
  }

  /** Recalculating the counts makes any stale counts irrelevant: two fields that agree
      on everything but the counts end up identical. */
  lemma CountsOverwriteStale(b1: Board, b2: Board)
    requires b1.Keys == b2.Keys
    requires forall p :: p in b1 ==> b1[p].(bombNeighbours := 0) == b2[p].(bombNeighbours := 0)
    ensures CalculateAllBombNeighbours(b1) == CalculateAllBombNeighbours(b2)
  {
    var r1, r2 := CalculateAllBombNeighbours(b1), CalculateAllBombNeighbours(b2);
    forall p | p in r1
      ensures r1[p] == r2[p]
    {
      var c1, c2 := b1[p], b2[p];
      assert c1.(bombNeighbours := 0) == c2.(bombNeighbours := 0);
      assert c1.isBomb == c2.isBomb && c1.flagged == c2.flagged && c1.revealed == c2.revealed;
      SameMinesSameNeighbours(b1, b2, p);
    }
  }
}
