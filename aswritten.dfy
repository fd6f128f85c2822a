/** The chord's neighbour guards exactly as the board code writes them.

    Both halves of "clear all around" (the flag count and the reveals)
    guard each of the eight neighbours with the same test.  As written,
    the column of the NE and SE neighbours is compared with the height,
    the row of the three southern neighbours with the width, and the east
    neighbour's test compares j + 1 with j, so it never holds.  The board
    in module Minesweeper uses the corrected guard (row below the height,
    column below the width); this module keeps the literal one so that its
    consequences can be stated.
 */
module AsWritten {
  import opened Neighbourhood

  /** The guard of the neighbour at Offsets[k] around p = (i, j), as written. */
  predicate LiteralGuard(height: int, width: int, p: Pos, k: int)
    requires 0 <= k < |Offsets|
  {
    var i, j := p.0, p.1;
    if k == 0 then i - 1 >= 0 && j - 1 >= 0
    else if k == 1 then i - 1 >= 0
    else if k == 2 then i - 1 >= 0 && j + 1 < height
    else if k == 3 then j - 1 >= 0
    else if k == 4 then j + 1 < j
    else if k == 5 then i + 1 < width && j - 1 >= 0
    else if k == 6 then i + 1 < width
    else i + 1 < width && j + 1 < height
  }

  /** The positions the chord as written looks at (and indexes) around p. */
  function LiteralChordTargets(height: int, width: int, p: Pos): (r: set<Pos>)
    ensures forall q :: q in r ==> Adjacent(p, q)
  {
    set k | 0 <= k < |Offsets| && LiteralGuard(height, width, p, k) :: Shift(p, Offsets[k])
  }

  /** The east neighbour is never among the targets. */
  lemma LiteralNeverEast(height: int, width: int, p: Pos)
    ensures (p.0, p.1 + 1) !in LiteralChordTargets(height, width, p)
  {
    forall k | 0 <= k < |Offsets| && LiteralGuard(height, width, p, k)
      ensures Shift(p, Offsets[k]) != (p.0, p.1 + 1)
    {
      assert k != 4;
    }
  }

  /** On a 10 x 19 board the chord on (9, 5), a square of the last row,
      indexes row 10, which is off the board: first (10, 4), the south-west
      neighbour, then (10, 5). */
  lemma LiteralLeavesBoard()
    ensures (10, 4) in LiteralChordTargets(10, 19, (9, 5)) && (10, 5) in LiteralChordTargets(10, 19, (9, 5))
    ensures InBounds(10, 19, (9, 5)) && !InBounds(10, 19, (10, 4)) && !InBounds(10, 19, (10, 5))
  {
    assert LiteralGuard(10, 19, (9, 5), 5);
    assert Shift((9, 5), Offsets[5]) == (10, 4);
    assert LiteralGuard(10, 19, (9, 5), 6);
    assert Shift((9, 5), Offsets[6]) == (10, 5);
  }

  /** On a 10 x 19 board the chord on the corner (0, 0) misses its east
      neighbour (0, 1), which is on the board. */
  lemma LiteralMissesNeighbour()
    ensures (0, 1) in Neighbours(10, 19, (0, 0))
    ensures (0, 1) !in LiteralChordTargets(10, 19, (0, 0))
  {
    NeighboursAreAdjacent(10, 19, (0, 0), (0, 1));
    LiteralNeverEast(10, 19, (0, 0));
  }

  /** On a square board with p on it, the literal guard of every offset
      but the east one is the true bounds test. */
  lemma LiteralGuardOnSquareBoard(n: int, p: Pos, k: int)
    requires InBounds(n, n, p) && 0 <= k < |Offsets|
    ensures LiteralGuard(n, n, p, k) <==> k != 4 && InBounds(n, n, Shift(p, Offsets[k]))
  {
  }

  /** On a square board the swapped bounds are harmless: the chord as
      written sees every in-bounds neighbour except the east one. */
  lemma LiteralOnSquareBoard(n: int, p: Pos)
    requires InBounds(n, n, p)
    ensures LiteralChordTargets(n, n, p) == Neighbours(n, n, p) - {(p.0, p.1 + 1)}
  {
    LiteralNeverEast(n, n, p);
    forall q | q in LiteralChordTargets(n, n, p)
      ensures q in Neighbours(n, n, p)
    {
      var k :| 0 <= k < |Offsets| && LiteralGuard(n, n, p, k) && Shift(p, Offsets[k]) == q;
      LiteralGuardOnSquareBoard(n, p, k);
      NeighboursAreAdjacent(n, n, p, q);
    }
    forall q | q in Neighbours(n, n, p) && q != (p.0, p.1 + 1)
      ensures q in LiteralChordTargets(n, n, p)
    {
      NeighboursAreAdjacent(n, n, p, q);
      AdjacentIff(p, q);
      var k :| 0 <= k < |Offsets| && Offsets[k] == (q.0 - p.0, q.1 - p.1);
      LiteralGuardOnSquareBoard(n, p, k);
      assert Shift(p, Offsets[k]) == q;
    }
  }
}
