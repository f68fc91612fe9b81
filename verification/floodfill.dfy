/** Revealing a safe cell and flooding out from zero counts (`clear_zeros`).

    The game recurses once per revealed cell; here the same traversal runs over an
    explicit stack of pending positions, so its depth is not bounded by a call stack.
    Each step either reveals one more cell or drops one pending position, which is
    what makes the loop terminate. */
module FloodFill {
  import opened Grid
  import opened Field

  /** The cell exists and its count is zero. */
  predicate IsZero(b: Board, q: Pos)
  {
    q in b && b[q].bombNeighbours == 0
  }

  /** `b2` differs from `b1` at most in the revealed bits. */
  predicate RevealsOnly(b1: Board, b2: Board)
  {
    b1.Keys == b2.Keys && forall q :: q in b1 ==> b2[q] == b1[q].(revealed := b2[q].revealed)
  }

  /** Nothing revealed in `b1` is hidden again in `b2`. */
  predicate StaysRevealed(b1: Board, b2: Board)
  {
    forall q :: q in b1 && b1[q].revealed ==> q in b2 && b2[q].revealed
  }

  predicate NewlyRevealed(b1: Board, b2: Board, q: Pos)
  {
    q in b1 && q in b2 && !b1[q].revealed && b2[q].revealed
  }

  /** Every revealed zero has all of its neighbours revealed. */
  predicate ZeroClosed(b: Board)
  {
    forall z, s :: z in b && b[z].revealed && b[z].bombNeighbours == 0 && s in b && Adjacent(z, s) ==> b[s].revealed
  }

  /** The cells still hidden. */
  function Hidden(b: Board): set<Pos>
  {
    set q | q in b && !b[q].revealed
  }

  /** Revealing a hidden cell shrinks the hidden set. */
  lemma RevealShrinksHidden(b: Board, q: Pos)
    requires q in b && !b[q].revealed
    ensures |Hidden(b[q := b[q].(revealed := true)])| < |Hidden(b)|
  {
    var b' := b[q := b[q].(revealed := true)];
    assert Hidden(b') == Hidden(b) - {q};
    assert Hidden(b') < Hidden(b);
  }

  /** No cell with a zero count has a mine next to it. */
  predicate ZerosSafe(b: Board)
  {
    forall z, q :: z in b && IsZero(b, z) && q in b && Adjacent(z, q) ==> !b[q].isBomb
  }

  /** With consistent counts, a neighbour of a zero-count cell is never a mine. */
  lemma ZeroNeighbourIsSafe(b: Board)
    requires CountsConsistent(b)
    ensures ZerosSafe(b)
  {
    forall z, q | IsZero(b, z) && q in b && Adjacent(z, q)
      ensures !b[q].isBomb
    {
      var mines := MineNeighbours(b, z);
      assert |mines| == 0;
      assert q !in mines;
    }
  }

  /** `q` is the clicked cell or sits next to a zero-count cell revealed earlier
      (at an index below `k` of the reveal order). */
  predicate Justified(b: Board, order: seq<Pos>, k: int, p: Pos, q: Pos)
    requires 0 <= k <= |order|
  {
    q == p || FedBy(b, order, k, q)
  }

  /** `q` sits next to a zero-count cell at an index below `k` of `order`. */
  predicate FedBy(b: Board, order: seq<Pos>, k: int, q: Pos)
    requires 0 <= k <= |order|
  {
    exists m :: 0 <= m < k && IsZero(b, order[m]) && Adjacent(order[m], q)
  }

  /** Every cell after the first in `order` sits next to a zero-count cell that
      comes earlier in `order`: the cells form a chain of zeros from the first. */
  predicate Chained(b: Board, order: seq<Pos>)
  {
    forall k :: 0 < k < |order| ==> FedBy(b, order, k, order[k])
  }

  /** A chain longer than one cell starts at a zero-count cell. */
  lemma ChainHeadIsZero(b: Board, order: seq<Pos>)
    requires Chained(b, order)
    ensures |order| > 1 ==> IsZero(b, order[0])
  {
    if |order| > 1 {
      assert FedBy(b, order, 1, order[1]);
    }
  }

  /** The loop invariant of `ClearZeros`: `r` is `b` with the cells of `order`
      revealed, in order, each safe and chained to the clicked cell `p`; every
      position on the stack is justified; and every hidden neighbour of a revealed
      zero is still waiting on the stack. */
  ghost predicate FillInvariant(b: Board, p: Pos, r: Board, order: seq<Pos>, stack: seq<Pos>)
  {
    && RevealsOnly(b, r)
    && StaysRevealed(b, r)
    && (forall q :: q in order <==> NewlyRevealed(b, r, q))
    && Distinct(order)
    && (order == [] ==> stack == [p] && r == b)
    && (order != [] ==> order[0] == p)
    && Chained(b, order)
    && (forall s :: s in stack ==> Justified(b, order, |order|, p, s))
    && (forall q :: q in order ==> q in b && !b[q].isBomb)
    && (forall z, s :: z in order && IsZero(b, z) && s in r && Adjacent(z, s) ==> r[s].revealed || s in stack)
  }

  /** Reveal `p` and flood out from it. Returns the new field and the cells revealed,
      in the order they were revealed. */
  method ClearZeros(b: Board, p: Pos) returns (r: Board, revealedOrder: seq<Pos>)
    requires ZerosSafe(b)
    requires p in b && !b[p].revealed && !b[p].isBomb
    ensures RevealsOnly(b, r)
    ensures StaysRevealed(b, r)
    ensures r[p].revealed
    ensures forall q :: q in revealedOrder <==> NewlyRevealed(b, r, q)
    ensures Distinct(revealedOrder)
    ensures |revealedOrder| > 0 && revealedOrder[0] == p
    ensures Chained(b, revealedOrder)
    ensures forall q :: q in revealedOrder ==> q in b && !b[q].isBomb
    ensures forall z, s :: z in revealedOrder && IsZero(b, z) && s in r && Adjacent(z, s) ==> r[s].revealed
  {
    r := b;
    revealedOrder := [];
    var stack := [p];
    while stack != []
      invariant FillInvariant(b, p, r, revealedOrder, stack)
      decreases |Hidden(r)|, |stack|
    {
      var q := stack[|stack| - 1];
      var rest := stack[..|stack| - 1];
      if q in r && !r[q].revealed {
        var r' := r[q := r[q].(revealed := true)];
        var stack' := if r[q].bombNeighbours == 0 then rest + Around(q) else rest;
        RevealStep(b, r, revealedOrder, stack, p, q);
        RevealPreserves(b, p, r, revealedOrder, stack, q, r', stack');
        RevealShrinksHidden(r, q);
        r, revealedOrder, stack := r', revealedOrder + [q], stack';
      } else {
        SkipPreserves(b, p, r, revealedOrder, stack);
        stack := rest;
      }
    }
    FillDone(b, p, r, revealedOrder);
  }

  /** Dropping an already revealed (or missing) position keeps the invariant. */
  lemma SkipPreserves(b: Board, p: Pos, r: Board, order: seq<Pos>, stack: seq<Pos>)
    requires p in b && !b[p].revealed
    requires FillInvariant(b, p, r, order, stack)
    requires stack != []
    requires var q := stack[|stack| - 1]; !(q in r && !r[q].revealed)
    ensures FillInvariant(b, p, r, order, stack[..|stack| - 1])
  {
    var q := stack[|stack| - 1];
    var rest := stack[..|stack| - 1];
    assert stack == rest + [q];
  }

  /** Revealing the popped position and pushing its neighbours when its count is zero
      keeps the invariant. */
  lemma RevealPreserves(b: Board, p: Pos, r: Board, order: seq<Pos>, stack: seq<Pos>,
                        q: Pos, r': Board, stack': seq<Pos>)
    requires FillInvariant(b, p, r, order, stack)
    requires stack != [] && q == stack[|stack| - 1]
    requires q in r && !r[q].revealed && !b[q].isBomb && q !in order
    requires order != [] ==> exists m :: 0 <= m < |order| && IsZero(b, order[m]) && Adjacent(order[m], q)
    requires r' == r[q := r[q].(revealed := true)]
    requires stack' == if r[q].bombNeighbours == 0 then stack[..|stack| - 1] + Around(q) else stack[..|stack| - 1]
    ensures FillInvariant(b, p, r', order + [q], stack')
  {
    var rest := stack[..|stack| - 1];
    var order' := order + [q];
    RevealBits(b, r, order, q, r');
    RevealChain(b, order, q);
    RevealStack(b, p, r, order, rest, q, stack');
    RevealClosure(b, r, order, stack, q, r', stack');
    assert order'[0] == p by {
      if order == [] {
        assert stack == [p];
      }
    }
    FillIntro(b, p, r', order', stack');
  }

  /** The invariant of `ClearZeros` for a non-empty reveal order, one fact at a time.
      `RevealPreserves` establishes the new invariant through this lemma, so that the
      solver proves each conjunct as a separate goal instead of matching the old and
      new invariants' quantifiers against each other all at once. */
  lemma FillIntro(b: Board, p: Pos, r: Board, order: seq<Pos>, stack: seq<Pos>)
    requires RevealsOnly(b, r) && StaysRevealed(b, r)
    requires forall q :: q in order <==> NewlyRevealed(b, r, q)
    requires Distinct(order)
    requires order != [] && order[0] == p
    requires Chained(b, order)
    requires forall s :: s in stack ==> Justified(b, order, |order|, p, s)
    requires forall q :: q in order ==> q in b && !b[q].isBomb
    requires forall z, s :: z in order && IsZero(b, z) && s in r && Adjacent(z, s) ==> r[s].revealed || s in stack
    ensures FillInvariant(b, p, r, order, stack)
  {
  }

  lemma RevealBits(b: Board, r: Board, order: seq<Pos>, q: Pos, r': Board)
    requires RevealsOnly(b, r) && StaysRevealed(b, r)
    requires forall x :: x in order <==> NewlyRevealed(b, r, x)
    requires Distinct(order)
    requires q in r && !r[q].revealed
    requires r' == r[q := r[q].(revealed := true)]
    ensures RevealsOnly(b, r') && StaysRevealed(b, r')
    ensures forall x :: x in order + [q] <==> NewlyRevealed(b, r', x)
    ensures Distinct(order + [q])
  {
    assert q !in order;
  }

  lemma RevealChain(b: Board, order: seq<Pos>, q: Pos)
    requires Chained(b, order)
    requires order != [] ==> exists m :: 0 <= m < |order| && IsZero(b, order[m]) && Adjacent(order[m], q)
    ensures Chained(b, order + [q])
  {
    var order' := order + [q];
    forall k | 0 < k < |order'|
      ensures FedBy(b, order', k, order'[k])
    {
      if k < |order| {
        assert FedBy(b, order, k, order[k]);
        var m :| 0 <= m < k && IsZero(b, order[m]) && Adjacent(order[m], order[k]);
        assert order'[m] == order[m] && order'[k] == order[k];
      } else {
        var m :| 0 <= m < |order| && IsZero(b, order[m]) && Adjacent(order[m], q);
        assert order'[m] == order[m] && order'[k] == q;
      }
    }
  }

  lemma RevealStack(b: Board, p: Pos, r: Board, order: seq<Pos>, rest: seq<Pos>, q: Pos, stack': seq<Pos>)
    requires RevealsOnly(b, r) && q in r
    requires forall s :: s in rest ==> Justified(b, order, |order|, p, s)
    requires stack' == if r[q].bombNeighbours == 0 then rest + Around(q) else rest
    ensures forall s :: s in stack' ==> Justified(b, order + [q], |order| + 1, p, s)
  {
    var order' := order + [q];
    forall s | s in stack'
      ensures Justified(b, order', |order'|, p, s)
    {
      if s in rest {
        assert Justified(b, order, |order|, p, s);
        if s != p {
          var m :| 0 <= m < |order| && IsZero(b, order[m]) && Adjacent(order[m], s);
          assert order'[m] == order[m];
        }
      } else {
        assert IsZero(b, q) && Adjacent(q, s);
        assert order'[|order|] == q;
      }
    }
  }

  lemma RevealClosure(b: Board, r: Board, order: seq<Pos>, stack: seq<Pos>, q: Pos, r': Board, stack': seq<Pos>)
    requires RevealsOnly(b, r)
    requires stack != [] && q == stack[|stack| - 1]
    requires forall z, s :: z in order && IsZero(b, z) && s in r && Adjacent(z, s) ==> r[s].revealed || s in stack
    requires q in r && r' == r[q := r[q].(revealed := true)]
    requires stack' == if r[q].bombNeighbours == 0 then stack[..|stack| - 1] + Around(q) else stack[..|stack| - 1]
    ensures forall z, s :: z in order + [q] && IsZero(b, z) && s in r' && Adjacent(z, s) ==> r'[s].revealed || s in stack'
  {
    var rest := stack[..|stack| - 1];
    assert stack == rest + [q];
    forall z, s | z in order + [q] && IsZero(b, z) && s in r' && Adjacent(z, s)
      ensures r'[s].revealed || s in stack'
    {
      if s == q {
      } else if z in order {
        assert r[s].revealed || s in stack;
      } else {
        assert z == q && s in Around(q);
      }
    }
  }

  /** With the stack empty the invariant yields the contract of `ClearZeros`. */
  lemma FillDone(b: Board, p: Pos, r: Board, order: seq<Pos>)
    requires FillInvariant(b, p, r, order, [])
    ensures r[p].revealed
    ensures |order| > 0 && order[0] == p
    ensures forall z, s :: z in order && IsZero(b, z) && s in r && Adjacent(z, s) ==> r[s].revealed
  {
    assert order[0] in order;
  }

  /** What a flood fill from `p` does to `b`: `p` ends revealed, only revealed bits
      change, nothing revealed is hidden again, no mine is revealed, and every
      in-field neighbour of a zero it reveals ends revealed. */
  ghost predicate Flooded(b: Board, p: Pos, r: Board)
  {
    && RevealsOnly(b, r)
    && StaysRevealed(b, r)
    && p in r && r[p].revealed
    && (forall q :: NewlyRevealed(b, r, q) ==> !b[q].isBomb)
    && (forall z, s :: NewlyRevealed(b, r, z) && IsZero(b, z) && s in r && Adjacent(z, s) ==> r[s].revealed)
  }

  /** A flood fill leaves every revealed zero of an already closed field closed. */
  lemma FloodKeepsZeroClosed(b: Board, p: Pos, r: Board)
    requires ZeroClosed(b) && Flooded(b, p, r)
    ensures ZeroClosed(r)
  {
    forall z, s | z in r && r[z].revealed && r[z].bombNeighbours == 0 && s in r && Adjacent(z, s)
      ensures r[s].revealed
    {
      if !b[z].revealed {
        assert NewlyRevealed(b, r, z);
      } else {
        assert b[z].bombNeighbours == 0 && b[s].revealed;
      }
    }
  }

  /** The facts about one revealing step that the loop of `ClearZeros` needs: the
      popped cell is safe, and it is justified by a strictly earlier zero unless it
      is the clicked cell revealed first. */
  lemma RevealStep(b: Board, r: Board, order: seq<Pos>, stack: seq<Pos>, p: Pos, q: Pos)
    requires ZerosSafe(b)
    requires p in b && !b[p].isBomb
    requires RevealsOnly(b, r)
    requires forall x :: x in order <==> NewlyRevealed(b, r, x)
    requires order == [] ==> stack == [p] && r == b
    requires order != [] ==> order[0] == p
    requires forall s :: s in stack ==> Justified(b, order, |order|, p, s)
    requires stack != [] && q == stack[|stack| - 1]
    requires q in r && !r[q].revealed
    ensures !b[q].isBomb
    ensures q !in order
    ensures order != [] ==> exists m :: 0 <= m < |order| && IsZero(b, order[m]) && Adjacent(order[m], q)
  {
    assert Justified(b, order, |order|, p, q);
    if order != [] {
      assert order[0] in order;
      assert q != p;
    }
    if q != p {
      var m :| 0 <= m < |order| && IsZero(b, order[m]) && Adjacent(order[m], q);
      assert IsZero(b, order[m]) && q in b && Adjacent(order[m], q);
    }
  }
}
