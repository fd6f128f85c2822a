/** Positions on a rectangular board and their Moore (8-)neighbourhoods.

    Every neighbour-based computation of the board (adjacent-mine numbers,
    flagged-neighbour counts of a chord, and the squares a chord reveals)
    visits the eight offsets below, in the order the board code lists them,
    and ignores offsets that fall outside [0, height) x [0, width).
 */
module Neighbourhood {

  /** A board position: (row, column). */
  type Pos = (int, int)

  /** The eight Moore offsets in the order the board visits them:
      NW, N, NE, W, E, SW, S, SE. */
  const Offsets: seq<Pos> := [(-1, -1), (-1, 0), (-1, 1), (0, -1), (0, 1), (1, -1), (1, 0), (1, 1)]

  function Shift(p: Pos, d: Pos): Pos {
    (p.0 + d.0, p.1 + d.1)
  }

  /** The row is checked against the height and the column against the width. */
  predicate InBounds(height: int, width: int, p: Pos) {
    0 <= p.0 < height && 0 <= p.1 < width
  }

  /** q is one of the eight Moore neighbours of p: it differs from p by at
      most one in each coordinate and is not p itself. */
  predicate Adjacent(p: Pos, q: Pos) {
    q != p && -1 <= q.0 - p.0 <= 1 && -1 <= q.1 - p.1 <= 1
  }

  /** The Moore neighbours of p are exactly p shifted by one of the offsets. */
  lemma AdjacentIff(p: Pos, q: Pos)
    ensures Adjacent(p, q) <==> (q.0 - p.0, q.1 - p.1) in Offsets
  {
  }

  /** The in-bounds Moore neighbours of p, described arithmetically. */
  function Neighbours(height: int, width: int, p: Pos): set<Pos> {
    set di, dj | -1 <= di <= 1 && -1 <= dj <= 1 && (di != 0 || dj != 0) && InBounds(height, width, Shift(p, (di, dj)))
      :: Shift(p, (di, dj))
  }

  lemma NeighboursAreAdjacent(height: int, width: int, p: Pos, q: Pos)
    ensures q in Neighbours(height, width, p) <==> InBounds(height, width, q) && Adjacent(p, q)
  {
    AdjacentIff(p, q);
    if InBounds(height, width, q) && Adjacent(p, q) {
      var di, dj := q.0 - p.0, q.1 - p.1;
      assert q == Shift(p, (di, dj));
    }
  }

  /** 1 when q is on the board and marked, otherwise 0: one of the eight
      `if (...) count++` tests of the board code. */
  function Hit(height: int, width: int, q: Pos, marked: set<Pos>): nat {
    if InBounds(height, width, q) && q in marked then 1 else 0
  }

  /** The number of marked in-bounds squares p + d for the offsets d in offs. */
  function CountOver(height: int, width: int, p: Pos, marked: set<Pos>, offs: seq<Pos>): (n: nat)
    ensures n <= |offs|
  {
    if offs == [] then 0
    else Hit(height, width, Shift(p, offs[0]), marked) + CountOver(height, width, p, marked, offs[1..])
  }

  /** The number of in-bounds Moore neighbours of p that are marked. */
  function AdjacentCount(height: int, width: int, p: Pos, marked: set<Pos>): nat {
    CountOver(height, width, p, marked, Offsets)
  }

  /** AdjacentCount is the sum of the eight tests of the board code, in its
      order: NW, N, NE, W, E, SW, S, SE. */
  lemma AdjacentCountExpanded(height: int, width: int, p: Pos, marked: set<Pos>)
    ensures AdjacentCount(height, width, p, marked) ==
      Hit(height, width, (p.0 - 1, p.1 - 1), marked) + Hit(height, width, (p.0 - 1, p.1), marked) +
      Hit(height, width, (p.0 - 1, p.1 + 1), marked) + Hit(height, width, (p.0, p.1 - 1), marked) +
      Hit(height, width, (p.0, p.1 + 1), marked) + Hit(height, width, (p.0 + 1, p.1 - 1), marked) +
      Hit(height, width, (p.0 + 1, p.1), marked) + Hit(height, width, (p.0 + 1, p.1 + 1), marked)
  {
    var c := offs => CountOver(height, width, p, marked, offs);
    assert c(Offsets) == Hit(height, width, Shift(p, Offsets[0]), marked) + c(Offsets[1..]);
    assert c(Offsets[1..]) == Hit(height, width, Shift(p, Offsets[1]), marked) + c(Offsets[2..]);
    assert c(Offsets[2..]) == Hit(height, width, Shift(p, Offsets[2]), marked) + c(Offsets[3..]);
    assert c(Offsets[3..]) == Hit(height, width, Shift(p, Offsets[3]), marked) + c(Offsets[4..]);
    assert c(Offsets[4..]) == Hit(height, width, Shift(p, Offsets[4]), marked) + c(Offsets[5..]);
    assert c(Offsets[5..]) == Hit(height, width, Shift(p, Offsets[5]), marked) + c(Offsets[6..]);
    assert c(Offsets[6..]) == Hit(height, width, Shift(p, Offsets[6]), marked) + c(Offsets[7..]);
    assert c(Offsets[7..]) == Hit(height, width, Shift(p, Offsets[7]), marked) + c(Offsets[8..]);
    assert Offsets[8..] == [];
  }

  /** Counting over a prefix of the offsets, one offset at a time. */
  lemma {:induction false} CountOverSnoc(height: int, width: int, p: Pos, marked: set<Pos>, offs: seq<Pos>, d: Pos)
    ensures CountOver(height, width, p, marked, offs + [d]) ==
      CountOver(height, width, p, marked, offs) + Hit(height, width, Shift(p, d), marked)
  {
    if offs != [] {
      assert (offs + [d])[1..] == offs[1..] + [d];
      CountOverSnoc(height, width, p, marked, offs[1..], d);
    }
  }

  /** The in-bounds squares p + d for the offsets d in offs. */
  function NeighboursOver(height: int, width: int, p: Pos, offs: seq<Pos>): set<Pos> {
    if offs == [] then {}
    else
      var rest := NeighboursOver(height, width, p, offs[1..]);
      if InBounds(height, width, Shift(p, offs[0])) then {Shift(p, offs[0])} + rest else rest
  }

  lemma {:induction false} NeighboursOverMembers(height: int, width: int, p: Pos, offs: seq<Pos>, q: Pos)
    ensures q in NeighboursOver(height, width, p, offs) <==> InBounds(height, width, q) && (q.0 - p.0, q.1 - p.1) in offs
  {
    if offs != [] {
      NeighboursOverMembers(height, width, p, offs[1..], q);
      assert offs == [offs[0]] + offs[1..];
    }
  }

  lemma {:induction false} CountOverIsCardinality(height: int, width: int, p: Pos, marked: set<Pos>, offs: seq<Pos>)
    requires forall a, b :: 0 <= a < b < |offs| ==> offs[a] != offs[b]
    ensures CountOver(height, width, p, marked, offs) == |NeighboursOver(height, width, p, offs) * marked|
  {
    if offs != [] {
      var q := Shift(p, offs[0]);
      var rest := NeighboursOver(height, width, p, offs[1..]);
      CountOverIsCardinality(height, width, p, marked, offs[1..]);
      NeighboursOverMembers(height, width, p, offs[1..], q);
      assert (q.0 - p.0, q.1 - p.1) == offs[0];
      assert offs[0] !in offs[1..];
      if InBounds(height, width, q) && q in marked {
        assert NeighboursOver(height, width, p, offs) * marked == {q} + rest * marked;
      } else if InBounds(height, width, q) {
        assert NeighboursOver(height, width, p, offs) * marked == rest * marked;
      }
    }
  }

  lemma OffsetsDistinct()
    ensures forall a, b :: 0 <= a < b < |Offsets| ==> Offsets[a] != Offsets[b]
  {
  }

  /** The adjacent-mine number of a square is the size of the set of its
      in-bounds Moore neighbours that are mines. */
  lemma AdjacentCountIsCardinality(height: int, width: int, p: Pos, marked: set<Pos>)
    ensures AdjacentCount(height, width, p, marked) == |Neighbours(height, width, p) * marked|
  {
    OffsetsDistinct();
    CountOverIsCardinality(height, width, p, marked, Offsets);
    forall q ensures q in NeighboursOver(height, width, p, Offsets) <==> q in Neighbours(height, width, p) {
      NeighboursOverMembers(height, width, p, Offsets, q);
      NeighboursAreAdjacent(height, width, p, q);
    }
    assert NeighboursOver(height, width, p, Offsets) == Neighbours(height, width, p);
  }

  /** A square with no marked neighbour has none: no in-bounds neighbour of
      p is marked when the count around p is 0. */
  lemma NoneMarkedAround(height: int, width: int, p: Pos, marked: set<Pos>, q: Pos)
    requires AdjacentCount(height, width, p, marked) == 0
    requires InBounds(height, width, q) && Adjacent(p, q)
    ensures q !in marked
  {
    AdjacentCountIsCardinality(height, width, p, marked);
    NeighboursAreAdjacent(height, width, p, q);
    assert Neighbours(height, width, p) * marked == {};
    assert q !in Neighbours(height, width, p) * marked;
  }

  /** When every flag is on a mine and p has as many flagged neighbours as
      mined ones, the flags account for every mine around p. */
  lemma FlagsCoverMines(height: int, width: int, p: Pos, mines: set<Pos>, flags: set<Pos>, q: Pos)
    requires flags <= mines
    requires AdjacentCount(height, width, p, flags) == AdjacentCount(height, width, p, mines)
    requires InBounds(height, width, q) && Adjacent(p, q)
    ensures q in mines ==> q in flags
  {
    var n := Neighbours(height, width, p);
    AdjacentCountIsCardinality(height, width, p, flags);
    AdjacentCountIsCardinality(height, width, p, mines);
    NeighboursAreAdjacent(height, width, p, q);
    EqualSizeSubset(n * flags, n * mines);
    assert q in mines ==> q in n * mines;
  }

  /** A subset as large as its superset is the whole superset. */
  lemma EqualSizeSubset<T>(a: set<T>, b: set<T>)
    requires a <= b && |a| == |b|
    ensures a == b
  {
    assert b == a + (b - a);
    assert |b - a| == 0;
  }

  /** The positions of a height x width board. */
  function Cells(height: int, width: int): set<Pos> {
    set i, j | 0 <= i < height && 0 <= j < width :: (i, j)
  }

  function RowCells(row: int, width: int): set<Pos> {
    set j | 0 <= j < width :: (row, j)
  }

  lemma {:induction false} RowCellsSize(row: int, width: nat)
    ensures |RowCells(row, width)| == width
  {
    if width > 0 {
      RowCellsSize(row, width - 1);
      assert RowCells(row, width) == RowCells(row, width - 1) + {(row, width - 1)};
    }
  }

  /** A height x width board has height * width positions. */
  lemma {:induction false} CellsSize(height: nat, width: nat)
    ensures |Cells(height, width)| == height * width
  {
    if height > 0 {
      CellsSize(height - 1, width);
      RowCellsSize(height - 1, width);
      CellsSplit(height, width);
      assert (height - 1) * width + width == height * width;
    }
  }

  /** The last row of a board is disjoint from the rows above it. */
  lemma CellsSplit(height: nat, width: nat)
    requires height > 0
    ensures Cells(height, width) == Cells(height - 1, width) + RowCells(height - 1, width)
    ensures Cells(height - 1, width) !! RowCells(height - 1, width)
  {
    forall p | p in Cells(height, width)
      ensures p in Cells(height - 1, width) + RowCells(height - 1, width)
    {
      if p.0 < height - 1 {
        assert p in Cells(height - 1, width);
      } else {
        assert p in RowCells(height - 1, width);
      }
    }
  }
}
