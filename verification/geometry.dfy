/** Cells, the eight unit directions and straight paths on the 6x6 board. */
module Geometry {

  /** The board is `Size` cells on each side. */
  const Size: int := 6

  /** A board position; the Python code writes it `{'row': r, 'col': c}`. */
  datatype Coord = Coord(row: int, col: int)

  /** A per-letter step `(dr, dc)`. */
  datatype Offset = Offset(dr: int, dc: int)

  /** The direction table, in source order: right, left, down, up, down-right,
      down-left, up-right, up-left. */
  const Directions: seq<Offset> := [
    Offset(0, 1), Offset(0, -1), Offset(1, 0), Offset(-1, 0),
    Offset(1, 1), Offset(1, -1), Offset(-1, 1), Offset(-1, -1)
  ]

  /** A step to one of the eight neighbouring cells. */
  predicate IsUnit(d: Offset)
  {
    -1 <= d.dr <= 1 && -1 <= d.dc <= 1 && d != Offset(0, 0)
  }

  predicate InGrid(p: Coord)
  {
    0 <= p.row < Size && 0 <= p.col < Size
  }

  /** The cell `k` steps from `start` in direction `d`. */
  function Step(start: Coord, d: Offset, k: int): Coord
  {
    Coord(start.row + k * d.dr, start.col + k * d.dc)
  }

  /** The filter that puts `(r, c)` into `valid_starts`: the start and the cell
      `length - 1` steps further on are both on the board. */
  predicate IsValidStart(p: Coord, length: nat, d: Offset)
  {
    InGrid(p) && InGrid(Step(p, d, length - 1))
  }

  /** The cells a word of `length` letters occupies, first letter first. */
  function PathFrom(start: Coord, d: Offset, length: nat): (path: seq<Coord>)
    ensures |path| == length
    ensures length > 0 ==> path[0] == start
  {
    if length == 0 then [] else PathFrom(start, d, length - 1) + [Step(start, d, length - 1)]
  }

  /** The `k`-th cell of a path is `k` steps from its start. */
  lemma {:induction false} PathFromAt(start: Coord, d: Offset, length: nat, k: nat)
    requires k < length
    ensures PathFrom(start, d, length)[k] == Step(start, d, k)
  {
    if k < length - 1 {
      PathFromAt(start, d, length - 1, k);
    }
  }

  /** Consecutive cells of a path differ by exactly the direction's offset. */
  lemma PathAdvancesByOffset(start: Coord, d: Offset, length: nat)
    ensures forall k :: 0 < k < length ==>
              PathFrom(start, d, length)[k].row - PathFrom(start, d, length)[k - 1].row == d.dr &&
              PathFrom(start, d, length)[k].col - PathFrom(start, d, length)[k - 1].col == d.dc
  {
    forall k | 0 < k < length
      ensures PathFrom(start, d, length)[k].row - PathFrom(start, d, length)[k - 1].row == d.dr
      ensures PathFrom(start, d, length)[k].col - PathFrom(start, d, length)[k - 1].col == d.dc
    {
      PathFromAt(start, d, length, k);
      PathFromAt(start, d, length, k - 1);
      StepsAdvanceByOffset(start, d);
    }
  }

  /** Consecutive steps differ by exactly the offset. */
  lemma StepsAdvanceByOffset(start: Coord, d: Offset)
    ensures forall k :: Step(start, d, k + 1).row - Step(start, d, k).row == d.dr
    ensures forall k :: Step(start, d, k + 1).col - Step(start, d, k).col == d.dc
  {
    forall k ensures (k + 1) * d.dr == k * d.dr + d.dr && (k + 1) * d.dc == k * d.dc + d.dc {
    }
  }

  /** `path` is a straight line of `length` cells along one of the eight directions. */
  ghost predicate IsStraightPath(path: seq<Coord>, length: nat)
  {
    exists start: Coord, i: int :: 0 <= i < |Directions| && path == PathFrom(start, Directions[i], length)
  }

  /** The direction table holds exactly the eight unit steps, each once. */
  lemma DirectionsAreTheUnitSteps()
    ensures |Directions| == 8
    ensures forall i :: 0 <= i < |Directions| ==> IsUnit(Directions[i])
    ensures forall i, j :: 0 <= i < j < |Directions| ==> Directions[i] != Directions[j]
    ensures forall d :: IsUnit(d) ==> d in Directions
  {
    forall d | IsUnit(d)
      ensures d in Directions
    {
      if d.dr == 0 {
        assert d == Directions[if d.dc == 1 then 0 else 1];
      } else if d.dc == 0 {
        assert d == Directions[if d.dr == 1 then 2 else 3];
      } else if d.dr == 1 {
        assert d == Directions[if d.dc == 1 then 4 else 5];
      } else {
        assert d == Directions[if d.dc == 1 then 6 else 7];
      }
    }
  }

  /** Multiplying by a unit component negates, keeps or zeroes. */
  lemma Scale(k: int, delta: int)
    requires -1 <= delta <= 1
    ensures k * delta == (if delta == 1 then k else if delta == -1 then -k else 0)
  {
  }

  /** A valid start keeps the whole word on the board, not just its two ends. */
  lemma ValidStartKeepsPathInGrid(p: Coord, length: nat, d: Offset, k: int)
    requires IsUnit(d) && IsValidStart(p, length, d)
    requires 0 <= k < length
    ensures InGrid(Step(p, d, k))
  {
    Scale(k, d.dr);
    Scale(k, d.dc);
    Scale(length - 1, d.dr);
    Scale(length - 1, d.dc);
  }

  /** A corner start that suits direction `d` for a word of `length` letters. */
  function Corner(d: Offset, length: nat): Coord
  {
    if length == 0 then Coord(2, 2)
    else Coord(if d.dr < 0 then Size - 1 else 0, if d.dc < 0 then Size - 1 else 0)
  }

  /** Every direction has a valid start for a word of at most six letters
      (including the empty word, for which the "last" cell is one step back). */
  lemma {:induction false} ShortWordFits(d: Offset, length: nat)
    requires IsUnit(d) && length <= Size
    ensures IsValidStart(Corner(d, length), length, d)
  {
    Scale(length - 1, d.dr);
    Scale(length - 1, d.dc);
  }

  /** No direction has a valid start for a word of seven letters or more. */
  lemma LongWordNeverFits(p: Coord, length: nat, d: Offset)
    requires IsUnit(d) && length > Size
    ensures !IsValidStart(p, length, d)
  {
    Scale(length - 1, d.dr);
    Scale(length - 1, d.dc);
  }

  /** The cells of a path along a unit direction are pairwise distinct. */
  lemma StepsAreDistinct(p: Coord, d: Offset, j: int, k: int)
    requires IsUnit(d) && j != k
    ensures Step(p, d, j) != Step(p, d, k)
  {
    Scale(j, d.dr);
    Scale(k, d.dr);
    Scale(j, d.dc);
    Scale(k, d.dc);
  }

  /** Extending a path by one step adds a cell the path does not yet visit:
      every earlier cell differs from it in its row or its column. */
  lemma PathGrowsByNewCell(start: Coord, d: Offset, k: nat)
    requires IsUnit(d)
    ensures PathFrom(start, d, k + 1) == PathFrom(start, d, k) + [Step(start, d, k)]
    ensures forall j :: 0 <= j < k ==>
              PathFrom(start, d, k)[j].row != Step(start, d, k).row ||
              PathFrom(start, d, k)[j].col != Step(start, d, k).col
  {
    var path := PathFrom(start, d, k);
    forall j | 0 <= j < k
      ensures path[j].row != Step(start, d, k).row || path[j].col != Step(start, d, k).col
    {
      PathFromAt(start, d, k, j);
      StepsAreDistinct(start, d, j, k);
    }
  }

  /** A straight path has one cell per letter, its cells are pairwise distinct
      and every step between consecutive cells is the same unit offset. */
  lemma StraightPathIsSimple(path: seq<Coord>, length: nat)
    requires IsStraightPath(path, length)
    ensures |path| == length
    ensures forall j, k :: 0 <= j < k < |path| ==> path[j] != path[k]
    ensures length > 0 ==> exists d :: IsUnit(d) && path == PathFrom(path[0], d, length)
  {
    var start: Coord, i: int :| 0 <= i < |Directions| && path == PathFrom(start, Directions[i], length);
    var d := Directions[i];
    DirectionsAreTheUnitSteps();
    forall j, k | 0 <= j < k < |path|
      ensures path[j] != path[k]
    {
      PathFromAt(start, d, length, j);
      PathFromAt(start, d, length, k);
      StepsAreDistinct(start, d, j, k);
    }
    if length > 0 {
      assert IsUnit(d) && path == PathFrom(path[0], d, length);
    }
  }
}
