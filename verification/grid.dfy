/** Positions on the square minefield and the Chebyshev neighbourhood of a cell.

    The game keys its buttons by row and column; here a key is a `Pos`. */
module Grid {

  datatype Pos = Pos(row: int, col: int)

  function Abs(x: int): nat
  {
    if x < 0 then -x else x
  }

  /** Chebyshev distance: the larger of the row and column distances. */
  function Chebyshev(p: Pos, q: Pos): nat
  {
    var dr := Abs(q.row - p.row);
    var dc := Abs(q.col - p.col);
    if dr < dc then dc else dr
  }

  /** `q` lies in the 3x3 block centred on `p` and is not `p` itself. */
  predicate Adjacent(p: Pos, q: Pos)
  {
    Chebyshev(p, q) == 1
  }

  predicate InGrid(n: int, p: Pos)
  {
    0 <= p.row < n && 0 <= p.col < n
  }

  /** Every position of an n x n field. */
  function Cells(n: int): (ps: set<Pos>)
    ensures forall p :: p in ps <==> InGrid(n, p)
  {
    set i, j | 0 <= i < n && 0 <= j < n :: Pos(i, j)
  }

  lemma MulMonotone(a: int, b: int, c: nat)
    requires a <= b
    ensures a * c <= b * c
  {
  }

  /** Row-major position of a cell: the order in which the field is laid out. */
  function Index(n: int, p: Pos): (k: nat)
    requires InGrid(n, p)
    ensures k < n * n
  {
    MulMonotone(p.row + 1, n, n);
    p.row * n + p.col
  }

  /** The eight candidate neighbours of `p`, in the order the game visits the offsets
      (row offset outer, column offset inner, -1 to 1, centre skipped). Some may lie
      outside the field; callers look them up and skip the missing ones. */
  function Around(p: Pos): (ps: seq<Pos>)
    ensures |ps| == 8
    ensures forall q :: q in ps <==> Adjacent(p, q)
    ensures forall i, j :: 0 <= i < j < |ps| ==> ps[i] != ps[j]
  {
    var r, c := p.row, p.col;
    [ Pos(r - 1, c - 1), Pos(r - 1, c), Pos(r - 1, c + 1),
      Pos(r, c - 1),                    Pos(r, c + 1),
      Pos(r + 1, c - 1), Pos(r + 1, c), Pos(r + 1, c + 1) ]
  }
}
