/** The grid generator: search for a placement with a bounded number of
    attempts, write the word along it, then fill every empty cell. */
module GridGen {
  import opened Geometry
  import opened Text
  import opened Letters

  /** The attempt budget of the placement search. */
  const MaxAttempts: nat := 200

  /** The `placement` value: the empty record `{}` when no attempt placed the
      word, otherwise `{'path': path}`. */
  datatype Placement = NoPlacement | Placed(path: seq<Coord>)

  /** A 6x6 board of cells, each a string ("" for a cell not yet written). */
  predicate IsBoard(g: seq<seq<string>>)
  {
    |g| == Size && forall r :: 0 <= r < Size ==> |g[r]| == Size
  }

  /** A cell written by the fill pass: one letter of the weighted alphabet. */
  predicate IsFiller(cell: string)
  {
    |cell| == 1 && InAlphabet(cell[0])
  }

  predicate OnPath(placement: Placement, p: Coord)
  {
    placement.Placed? && p in placement.path
  }

  /** What the generator promises for `word`: a full 6x6 board; a placement
      exactly when the word has at most six letters; the placement is a
      straight in-board line whose k-th cell holds the k-th letter of the
      lower-cased word; every other cell holds one letter of the alphabet. */
  ghost predicate IsPuzzleFor(word: string, grid: seq<seq<string>>, placement: Placement)
  {
    && IsBoard(grid)
    && (forall r, c :: 0 <= r < Size && 0 <= c < Size ==> |grid[r][c]| == 1)
    && (placement.Placed? <==> |word| <= Size)
    && (placement.Placed? ==>
          && IsStraightPath(placement.path, |word|)
          && (forall k :: 0 <= k < |placement.path| ==> InGrid(placement.path[k]))
          && (forall k :: 0 <= k < |word| ==>
                grid[placement.path[k].row][placement.path[k].col] == [Lower(word)[k]]))
    && (forall r, c :: 0 <= r < Size && 0 <= c < Size && !OnPath(placement, Coord(r, c)) ==>
          IsFiller(grid[r][c]))
  }

  /** The nested loops that list every start whose last cell stays on the
      board, in row-major order. */
  method CollectValidStarts(length: nat, d: Offset) returns (starts: seq<Coord>)
    ensures forall p :: p in starts <==> IsValidStart(p, length, d)
    ensures forall i, j :: 0 <= i < j < |starts| ==>
              starts[i].row * Size + starts[i].col < starts[j].row * Size + starts[j].col
  {
    starts := [];
    for r := 0 to Size
      invariant forall p :: p in starts <==> IsValidStart(p, length, d) && p.row < r
      invariant forall i :: 0 <= i < |starts| ==> starts[i].row * Size + starts[i].col < r * Size
      invariant forall i, j :: 0 <= i < j < |starts| ==>
                  starts[i].row * Size + starts[i].col < starts[j].row * Size + starts[j].col
    {
      for c := 0 to Size
        invariant forall p :: p in starts <==>
                    IsValidStart(p, length, d) && (p.row < r || (p.row == r && p.col < c))
        invariant forall i :: 0 <= i < |starts| ==> starts[i].row * Size + starts[i].col < r * Size + c
        invariant forall i, j :: 0 <= i < j < |starts| ==>
                    starts[i].row * Size + starts[i].col < starts[j].row * Size + starts[j].col
      {
        var lastR := r + (length - 1) * d.dr;
        var lastC := c + (length - 1) * d.dc;
        if 0 <= lastR < Size && 0 <= lastC < Size {
          starts := starts + [Coord(r, c)];
        }
      }
    }
  }

  /** Writes `w` letter by letter from `start` along `d` and records the path. */
  method WritePath(grid: array2<string>, w: string, start: Coord, d: Offset) returns (path: seq<Coord>)
    requires grid.Length0 == Size && grid.Length1 == Size
    requires IsUnit(d) && IsValidStart(start, |w|, d)
    modifies grid
    ensures path == PathFrom(start, d, |w|)
    ensures forall k :: 0 <= k < |w| ==> InGrid(path[k]) && grid[path[k].row, path[k].col] == [w[k]]
    ensures forall r, c :: 0 <= r < Size && 0 <= c < Size && Coord(r, c) !in path ==>
              grid[r, c] == old(grid[r, c])
  {
    path := [];
    for k := 0 to |w|
      invariant path == PathFrom(start, d, k)
      invariant forall j :: 0 <= j < k ==> InGrid(path[j]) && grid[path[j].row, path[j].col] == [w[j]]
      invariant forall r, c :: 0 <= r < Size && 0 <= c < Size && Coord(r, c) !in path ==>
                  grid[r, c] == old(grid[r, c])
    {
      var r := start.row + k * d.dr;
      var c := start.col + k * d.dc;
      ValidStartKeepsPathInGrid(start, |w|, d, k);
      PathGrowsByNewCell(start, d, k);
      grid[r, c] := [w[k]];
      path := path + [Coord(r, c)];
    }
  }

  /** The placement search: up to `MaxAttempts` attempts, each with a randomly
      chosen direction and, when that direction has valid starts, a randomly
      chosen one of them. */
  method PlaceWord(grid: array2<string>, w: string) returns (placement: Placement, attempts: nat)
    requires grid.Length0 == Size && grid.Length1 == Size
    requires forall r, c :: 0 <= r < Size && 0 <= c < Size ==> grid[r, c] == ""
    modifies grid
    ensures attempts == if |w| <= Size then 1 else MaxAttempts
    ensures placement.Placed? <==> |w| <= Size
    ensures placement.Placed? ==>
              && IsStraightPath(placement.path, |w|)
              && |placement.path| == |w|
              && (forall k :: 0 <= k < |w| ==>
                    InGrid(placement.path[k]) && grid[placement.path[k].row, placement.path[k].col] == [w[k]])
    ensures forall r, c :: 0 <= r < Size && 0 <= c < Size && !OnPath(placement, Coord(r, c)) ==>
              grid[r, c] == ""
  {
    DirectionsAreTheUnitSteps();
    var placed := false;
    attempts := 0;
    placement := NoPlacement;
    while !placed && attempts < MaxAttempts
      invariant 0 <= attempts <= MaxAttempts
      invariant placed <==> placement.Placed?
      invariant placed ==> |w| <= Size && attempts == 1
      invariant !placed && |w| <= Size ==> attempts == 0
      invariant placed ==>
                  && IsStraightPath(placement.path, |w|)
                  && |placement.path| == |w|
                  && (forall k :: 0 <= k < |w| ==>
                        InGrid(placement.path[k]) && grid[placement.path[k].row, placement.path[k].col] == [w[k]])
      invariant forall r, c :: 0 <= r < Size && 0 <= c < Size && !OnPath(placement, Coord(r, c)) ==>
                  grid[r, c] == ""
      decreases MaxAttempts - attempts
    {
      var i :| 0 <= i < |Directions|;
      var d := Directions[i];
      var starts := CollectValidStarts(|w|, d);
      if |starts| == 0 {
        if |w| <= Size {
          ShortWordFits(d, |w|);
          assert false;
        }
        attempts := attempts + 1;
        continue;
      }
      var j :| 0 <= j < |starts|;
      var start := starts[j];
      if |w| > Size {
        LongWordNeverFits(start, |w|, d);
        assert false;
      }
      var path := WritePath(grid, w, start, d);
      placement := Placed(path);
      placed := true;
      attempts := attempts + 1;
    }
  }

  /** The fill pass: every cell still "" gets one randomly drawn filler letter;
      written cells are left alone. */
  method FillRest(grid: array2<string>)
    requires grid.Length0 == Size && grid.Length1 == Size
    modifies grid
    ensures forall r, c :: 0 <= r < Size && 0 <= c < Size ==>
              if old(grid[r, c]) == "" then IsFiller(grid[r, c]) else grid[r, c] == old(grid[r, c])
  {
    for r := 0 to Size
      invariant forall i, j :: 0 <= i < r && 0 <= j < Size ==>
                  if old(grid[i, j]) == "" then IsFiller(grid[i, j]) else grid[i, j] == old(grid[i, j])
      invariant forall i, j :: r <= i < Size && 0 <= j < Size ==> grid[i, j] == old(grid[i, j])
    {
      for c := 0 to Size
        invariant forall i, j :: 0 <= i < r && 0 <= j < Size ==>
                    if old(grid[i, j]) == "" then IsFiller(grid[i, j]) else grid[i, j] == old(grid[i, j])
        invariant forall j :: 0 <= j < c ==>
                    if old(grid[r, j]) == "" then IsFiller(grid[r, j]) else grid[r, j] == old(grid[r, j])
        invariant forall i, j :: r <= i < Size && 0 <= j < Size && (i > r || j >= c) ==>
                    grid[i, j] == old(grid[i, j])
      {
        if grid[r, c] == "" {
          var ch := GetRandomChar();
          grid[r, c] := [ch];
        }
      }
    }
  }

  /** The board as the list of rows it is returned as. */
  function Rows(a: array2<string>): (g: seq<seq<string>>)
    reads a
    requires a.Length0 == Size && a.Length1 == Size
    ensures IsBoard(g)
    ensures forall r, c :: 0 <= r < Size && 0 <= c < Size ==> g[r][c] == a[r, c]
  {
    seq(Size, r requires 0 <= r < Size reads a =>
      seq(Size, c requires 0 <= c < Size reads a => a[r, c]))
  }

  /** Builds the grid and the placement for one answer word. */
  method GenerateGridForWord(word: string) returns (grid: seq<seq<string>>, placement: Placement)
    ensures IsPuzzleFor(word, grid, placement)
  {
    var board := new string[Size, Size]((_, _) => "");
    var w := Lower(word);
    var attempts;
    placement, attempts := PlaceWord(board, w);
    FillRest(board);
    grid := Rows(board);
  }

  /** A word of at most six letters always gets a placement: a path with one
      distinct on-board cell per letter, spelling the lower-cased word. */
  lemma ShortWordIsPlaced(word: string, grid: seq<seq<string>>, placement: Placement)
    requires IsPuzzleFor(word, grid, placement) && |word| <= Size
    ensures placement.Placed? && |placement.path| == |word|
    ensures forall j, k :: 0 <= j < k < |word| ==> placement.path[j] != placement.path[k]
  {
    StraightPathIsSimple(placement.path, |word|);
  }

  /** A cell off the path holds a character of LETTERS, and that character is
      a lower-case ASCII letter. */
  lemma OffPathCellIsFromLetters(word: string, grid: seq<seq<string>>, placement: Placement, r: int, c: int)
    requires IsPuzzleFor(word, grid, placement)
    requires 0 <= r < Size && 0 <= c < Size && !OnPath(placement, Coord(r, c))
    ensures |grid[r][c]| == 1 && grid[r][c][0] in LETTERS && IsLowerAscii(grid[r][c][0])
  {
    DrawnFromLetters(grid[r][c][0]);
  }

  /** No cell of a generated grid is left empty. */
  lemma PuzzleHasNoEmptyCell(word: string, grid: seq<seq<string>>, placement: Placement)
    requires IsPuzzleFor(word, grid, placement)
    ensures forall r, c :: 0 <= r < Size && 0 <= c < Size ==> grid[r][c] != ""
  {
  }
}
