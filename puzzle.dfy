/**
 * The puzzle grid of puzzle.c: a size x size board of cells numbered row by
 * row, the 8-neighbour rule, and the extension of a path by one cell. Cells
 * and paths are values; the board's cell array is updated in place.
 */
module Puzzles {
  import opened Wrappers
  import LinkedLists
  import Hash

  /**
   * A board cell: its id, its type (0 a single letter, 1 a paired "(xy)" cell
   * whose two letters are both taken, 2 an alternative "/xy" cell whose letters
   * are taken one or the other) and its letters; '\0' marks a letter not set.
   */
  datatype Cell = Cell(id: int, kind: int, c1: char, c2: char)

  /** A path through the board: the cells visited, in order, and the letters read so far. */
  datatype Path = Path(cells: seq<Cell>, word: seq<char>)

  /** The start of every search: pz_create_path, no cells and no letters. */
  const EmptyPath := Path([], [])

  /** The neighbour offsets of pz_get_cell_neighbors, clockwise from the upper left. */
  const NeighborDx: seq<int> := [-1, 0, 1, 1, 1, 0, -1, -1]
  const NeighborDy: seq<int> := [-1, -1, -1, 0, 1, 1, 1, 0]

  /** C integer division, which truncates toward zero. */
  function CDiv(a: int, b: int): int
    requires b > 0
  {
    if a >= 0 then a / b else -((-a) / b)
  }

  /** C remainder, which takes the sign of the dividend. */
  function CRem(a: int, b: int): int
    requires b > 0
  {
    if a >= 0 then a % b else -((-a) % b)
  }

  /** pz_compare_cells: 0 when the two cells have the same id, 1 otherwise. */
  function CompareCells(a: Cell, b: Cell): (r: int)
    ensures r == 0 <==> a.id == b.id
    ensures r == 0 || r == 1
  {
    if a.id != b.id then 1 else 0
  }

  /** pz_path_contains_cell: ll_contains_data over the path's cells with pz_compare_cells. */
  predicate PathContainsCell(path: Path, cell: Cell)
  {
    LinkedLists.ContainsMatching(path.cells, cell, CompareCells)
  }

  /** No two cells of the sequence share an id. */
  predicate DistinctIds(cells: seq<Cell>)
  {
    forall i, j :: 0 <= i < j < |cells| ==> IdsDiffer(cells, i, j)
  }

  /** The cells at positions i and j have different ids. */
  predicate IdsDiffer(cells: seq<Cell>, i: nat, j: nat)
    requires i < |cells| && j < |cells|
  {
    cells[i].id != cells[j].id
  }

  /**
   * pz_add_cell_to_path: nothing when the path already holds a cell with the
   * same id; otherwise one extended path, or two for an alternative cell. Each
   * result appends the cell; the letters appended depend on the cell's type.
   */
  function AddCellToPath(path: Path, cell: Cell): (rs: seq<Path>)
    ensures rs == [] <==> PathContainsCell(path, cell)
    ensures forall r {:trigger r in rs} :: r in rs ==> r.cells == path.cells + [cell]
    ensures !PathContainsCell(path, cell) && cell.kind == 1 ==>
      rs == [Path(path.cells + [cell], path.word + [cell.c1, cell.c2])]
    ensures !PathContainsCell(path, cell) && cell.kind == 2 ==>
      rs == [Path(path.cells + [cell], path.word + [cell.c1]), Path(path.cells + [cell], path.word + [cell.c2])]
    ensures !PathContainsCell(path, cell) && cell.kind != 1 && cell.kind != 2 ==>
      rs == [Path(path.cells + [cell], path.word + [cell.c1])]
  {
    if PathContainsCell(path, cell) then []
    else
      var cells := path.cells + [cell];
      if cell.kind == 1 then [Path(cells, path.word + [cell.c1, cell.c2])]
      else if cell.kind == 2 then [Path(cells, path.word + [cell.c1]), Path(cells, path.word + [cell.c2])]
      else [Path(cells, path.word + [cell.c1])]
  }

  /**
   * Extending a path keeps its cells pairwise distinct, and every extension
   * reads one letter more (two for a paired cell) than the path it extends.
   */
  lemma AddCellToPathKeepsDistinct(path: Path, cell: Cell)
    requires DistinctIds(path.cells)
    ensures forall r :: r in AddCellToPath(path, cell) ==>
      && DistinctIds(r.cells)
      && |r.cells| == |path.cells| + 1
      && |r.word| == |path.word| + (if cell.kind == 1 then 2 else 1)
      && r.word[..|path.word|] == path.word
  {
    var rs := AddCellToPath(path, cell);
    forall r | r in rs
      ensures DistinctIds(r.cells)
    {
      forall i | 0 <= i < |path.cells|
        ensures path.cells[i].id != cell.id
      {
        if path.cells[i].id == cell.id {
          assert CompareCells(cell, path.cells[i]) == 0;
          assert PathContainsCell(path, cell);
          assert false;
        }
      }
      DistinctSnoc(path.cells, cell);
    }
  }

  /** pz_compare_paths_length_desc: 1 exactly when the first path has the shorter word. */
  function CompareLengthDesc(p1: Path, p2: Path): (r: int)
    ensures r == 1 <==> |p1.word| < |p2.word|
    ensures r == 0 || r == 1
  {
    if |p1.word| < |p2.word| then 1 else 0
  }

  /** pz_compare_paths_length_asc: the logical negation of the descending comparison. */
  function CompareLengthAsc(p1: Path, p2: Path): (r: int)
    ensures r == 1 <==> |p1.word| >= |p2.word|
    ensures r == 0 || r == 1
  {
    if CompareLengthDesc(p1, p2) == 0 then 1 else 0
  }

  /** The descending comparison never reports both orders as out of order. */
  lemma CompareLengthDescAsymmetric(p1: Path, p2: Path)
    ensures CompareLengthDesc(p1, p2) > 0 ==> CompareLengthDesc(p2, p1) <= 0
  {
  }

  /**
   * pz_ll_collapse_word: a fresh C string holding the word's letters in order,
   * followed by the terminating '\0'.
   */
  method CollapseWord(word: seq<char>) returns (s: array<char>)
    ensures fresh(s)
    ensures s.Length == |word| + 1
    ensures s[..|word|] == word && s[|word|] == '\0'
  {
    var size := |word| + 1;
    s := new char[size](_ => '\0');
    for idx := 0 to |word|
      invariant forall k :: 0 <= k < idx ==> s[k] == word[k]
      invariant s[size - 1] == '\0'
    {
      s[idx] := word[idx];
    }
    s[size - 1] := '\0';
  }

  /** A PuzzleResults value: the number of paths found and the array holding them. */
  datatype Results = Results(size: int, paths: array<Path>)

  /** pz_build_results_from_list: the list's size and its elements copied into an array. */
  method BuildResultsFromList(list: LinkedLists.LinkedList<Path>) returns (results: Results)
    ensures fresh(results.paths)
    ensures results.size == results.paths.Length == |list.elements|
    ensures results.paths[..] == list.elements
  {
    var size := list.Size();
    var paths := ToPathArray(list);
    results := Results(size, paths);
  }

  /** ll_to_array for a list of paths (a path has no default value, so the array starts filled). */
  method ToPathArray(ll: LinkedLists.LinkedList<Path>) returns (arr: array<Path>)
    ensures fresh(arr) && arr[..] == ll.elements
  {
    var size := ll.Size();
    arr := new Path[size](_ => EmptyPath);
    var node := 0;
    for i := 0 to size
      invariant node == i
      invariant forall k :: 0 <= k < i ==> arr[k] == ll.elements[k]
    {
      arr[i] := ll.elements[node];
      node := node + 1;
    }
  }

  /** The board: size x size cells in an array indexed by cell id. */
  class Puzzle {
    const size: nat
    const cells: array<Cell>

    /** Every slot holds the cell whose id is that slot's index. */
    ghost predicate Valid()
      reads cells
    {
      cells.Length == size * size && forall i :: 0 <= i < cells.Length ==> cells[i].id == i
    }

    /** pz_create and pz_init: size * size cells, cell i with id i, type 0 and no letters. */
    constructor (size: nat)
      ensures this.size == size && fresh(cells) && Valid()
      ensures forall i :: 0 <= i < cells.Length ==> cells[i] == Cell(i, 0, '\0', '\0')
    {
      var a := new Cell[size * size];
      for i := 0 to size * size
        invariant forall k :: 0 <= k < i ==> a[k] == Cell(k, 0, '\0', '\0')
      {
        a[i] := Cell(i, 0, '\0', '\0');
      }
      this.size := size;
      cells := a;
    }

    /** pz_valid_cell_id */
    predicate ValidCellId(id: int)
    {
      0 <= id < size * size
    }

    /** pz_valid_cell_xy */
    predicate ValidCellXy(x: int, y: int)
    {
      0 <= x < size && 0 <= y < size
    }

    /** pz_xy_to_id: the row-major id of an in-range position, -1 for any other. */
    function XyToId(x: int, y: int): (id: int)
      ensures ValidCellXy(x, y) ==> ValidCellId(id)
      ensures !ValidCellXy(x, y) ==> id == -1
    {
      if ValidCellXy(x, y) then
        CoordinatesOfId(size, x, y);
        x + y * size
      else -1
    }

    /** pz_cell_x: the column, as C's `%` computes it. */
    function CellX(cell: Cell): (x: int)
      requires size > 0
      ensures ValidCellId(cell.id) ==> 0 <= x < size
    {
      CRem(cell.id, size)
    }

    /** pz_cell_y: the row, as C's `/` computes it. */
    function CellY(cell: Cell): (y: int)
      requires size > 0
      ensures ValidCellId(cell.id) ==> 0 <= y < size
    {
      DivBelow(cell.id, size);
      CDiv(cell.id, size)
    }

    /** pz_cell_x and pz_cell_y invert pz_xy_to_id on the board, and the other way round. */
    lemma CoordinatesRoundTrip(x: int, y: int, id: int)
      requires size > 0
      ensures ValidCellXy(x, y) ==> var c := Cell(XyToId(x, y), 0, '\0', '\0'); CellX(c) == x && CellY(c) == y
      ensures ValidCellId(id) ==> var c := Cell(id, 0, '\0', '\0'); XyToId(CellX(c), CellY(c)) == id
    {
      if ValidCellXy(x, y) {
        CoordinatesOfId(size, x, y);
      }
      if ValidCellId(id) {
        var q, r := id / size, id % size;
        DivBelow(id, size);
        assert id == r + q * size;
      }
    }

    /** pz_get_cell: the cell with that id, or NULL for an id off the board. */
    function GetCell(id: int): (r: Option<Cell>)
      reads cells
      requires Valid()
      ensures r.Some? <==> ValidCellId(id)
      ensures r.Some? ==> r.value == cells[id] && r.value.id == id
    {
      if ValidCellId(id) then Some(cells[id]) else None
    }

    /** pz_get_cell_xy: the cell at a position, or NULL for a position off the board. */
    function GetCellXy(x: int, y: int): (r: Option<Cell>)
      reads cells
      requires Valid()
      ensures r.Some? <==> ValidCellXy(x, y)
      ensures r.Some? ==> size > 0 && ValidCellId(r.value.id) && r.value == cells[r.value.id]
      ensures r.Some? ==> CellX(r.value) == x && CellY(r.value) == y
    {
      var r := GetCell(XyToId(x, y));
      if r.Some? then
        CoordinatesRoundTrip(x, y, 0);
        r
      else r
    }

    /** pz_add_cell: put the cell into the slot of its id when that id is on the board. */
    method AddCell(cell: Cell)
      requires Valid()
      modifies cells
      ensures Valid()
      ensures ValidCellId(cell.id) ==> cells[..] == old(cells[..])[cell.id := cell]
      ensures !ValidCellId(cell.id) ==> cells[..] == old(cells[..])
    {
      if ValidCellId(cell.id) {
        cells[cell.id] := cell;
      }
    }

    /** The neighbours found from the first k offsets, in offset order. */
    function NeighborsUpTo(cell: Cell, k: nat): (ns: seq<Cell>)
      reads cells
      requires Valid() && size > 0 && k <= 8
      ensures |ns| <= k
    {
      if k == 0 then []
      else
        var found := NeighborAt(cell, k - 1);
        NeighborsUpTo(cell, k - 1) + (if found.Some? then [found.value] else [])
    }

    /** The board cell at offset d from the cell, if that position is on the board. */
    function NeighborAt(cell: Cell, d: nat): (r: Option<Cell>)
      reads cells
      requires Valid() && size > 0 && d < 8
    {
      GetCellXy(CellX(cell) + NeighborDx[d], CellY(cell) + NeighborDy[d])
    }

    /** pz_get_cell_neighbors: the cells at the eight offsets that lie on the board. */
    method GetCellNeighbors(cell: Cell) returns (ns: seq<Cell>)
      requires Valid() && size > 0
      ensures ns == NeighborsUpTo(cell, 8)
    {
      ns := [];
      for i := 0 to 8
        invariant ns == NeighborsUpTo(cell, i)
      {
        var x := CellX(cell) + NeighborDx[i];
        var y := CellY(cell) + NeighborDy[i];
        var found := GetCellXy(x, y);
        assert found == NeighborAt(cell, i);
        if found.Some? {
          ns := ns + [found.value];
        }
      }
    }

    /** Two cells at most one row and one column apart. */
    predicate Adjacent(a: Cell, b: Cell)
      requires size > 0
    {
      -1 <= CellX(a) - CellX(b) <= 1 && -1 <= CellY(a) - CellY(b) <= 1
    }

    /** What the first k offsets contribute: a neighbour is the board cell at one of them. */
    lemma {:induction false} NeighborsUpToMembers(cell: Cell, k: nat)
      requires Valid() && size > 0 && k <= 8
      ensures forall n :: n in NeighborsUpTo(cell, k) <==>
        exists d :: 0 <= d < k && NeighborAt(cell, d) == Some(n)
    {
      if k > 0 {
        NeighborsUpToMembers(cell, k - 1);
      }
    }

    /** The neighbours of a board cell lie on the board, are adjacent to it and differ from it. */
    lemma NeighborsSound(cell: Cell)
      requires Valid() && size > 0 && ValidCellId(cell.id)
      ensures forall n :: n in NeighborsUpTo(cell, 8) ==>
        && ValidCellId(n.id) && n == cells[n.id]
        && n.id != cell.id && Adjacent(n, cell)
    {
      NeighborsUpToMembers(cell, 8);
      forall n | n in NeighborsUpTo(cell, 8)
        ensures ValidCellId(n.id) && n == cells[n.id] && n.id != cell.id && Adjacent(n, cell)
      {
        var d :| 0 <= d < 8 && NeighborAt(cell, d) == Some(n);
        assert NeighborDx[d] != 0 || NeighborDy[d] != 0;
        assert ValidCellId(n.id);
      }
    }

    /** Every board cell adjacent to a board cell, other than the cell itself, is one of its neighbours. */
    lemma NeighborsComplete(cell: Cell, j: int)
      requires Valid() && size > 0 && ValidCellId(cell.id)
      requires ValidCellId(j) && j != cell.id && Adjacent(cells[j], cell)
      ensures cells[j] in NeighborsUpTo(cell, 8)
    {
      NeighborsUpToMembers(cell, 8);
      var c := cells[j];
      CellAtOwnPosition(j);
      SamePositionSameId(c, cell);
      var d := OffsetIndex(CellX(c) - CellX(cell), CellY(c) - CellY(cell));
      NeighborAtPosition(cell, d, CellX(c), CellY(c));
    }

    /** The neighbour at offset d is the cell pz_get_cell_xy finds at the shifted position. */
    lemma NeighborAtPosition(cell: Cell, d: nat, x: int, y: int)
      requires Valid() && size > 0 && d < 8
      requires x == CellX(cell) + NeighborDx[d] && y == CellY(cell) + NeighborDy[d]
      ensures NeighborAt(cell, d) == GetCellXy(x, y)
    {
    }

    /** A board cell is the cell pz_get_cell_xy finds at its own position. */
    lemma CellAtOwnPosition(j: int)
      requires Valid() && size > 0 && ValidCellId(j)
      ensures GetCellXy(CellX(cells[j]), CellY(cells[j])) == Some(cells[j])
    {
      CoordinatesRoundTrip(0, 0, j);
    }

    /** Two board cells at the same position have the same id. */
    lemma SamePositionSameId(a: Cell, b: Cell)
      requires Valid() && size > 0 && ValidCellId(a.id) && ValidCellId(b.id)
      ensures CellX(a) == CellX(b) && CellY(a) == CellY(b) ==> a.id == b.id
    {
      CoordinatesRoundTrip(0, 0, a.id);
      CoordinatesRoundTrip(0, 0, b.id);
    }

    /** Two different offsets lead to positions, hence cells, with different ids. */
    lemma OffsetsDistinct(cell: Cell, d: nat, e: nat)
      requires Valid() && size > 0 && d < e < 8
      requires NeighborAt(cell, d).Some? && NeighborAt(cell, e).Some?
      ensures NeighborAt(cell, d).value.id != NeighborAt(cell, e).value.id
    {
      OffsetIndexInverse(d);
      OffsetIndexInverse(e);
    }

    /** The cell at offset k - 1 is none of the cells found at the offsets before it. */
    lemma NotAmongEarlier(cell: Cell, k: nat, i: nat)
      requires Valid() && size > 0 && 0 < k <= 8 && NeighborAt(cell, k - 1).Some?
      requires i < |NeighborsUpTo(cell, k - 1)|
      ensures NeighborsUpTo(cell, k - 1)[i].id != NeighborAt(cell, k - 1).value.id
    {
      NeighborsUpToMembers(cell, k - 1);
      var prev := NeighborsUpTo(cell, k - 1);
      assert prev[i] in prev;
      var d :| 0 <= d < k - 1 && NeighborAt(cell, d) == Some(prev[i]);
      OffsetsDistinct(cell, d, k - 1);
    }

    /** No cell appears twice among the neighbours. */
    lemma {:induction false} NeighborsDistinct(cell: Cell, k: nat)
      requires Valid() && size > 0 && k <= 8
      ensures DistinctIds(NeighborsUpTo(cell, k))
    {
      if k > 0 {
        NeighborsDistinct(cell, k - 1);
        var found := NeighborAt(cell, k - 1);
        if found.Some? {
          var prev := NeighborsUpTo(cell, k - 1);
          forall i | 0 <= i < |prev|
            ensures prev[i].id != found.value.id
          {
            NotAmongEarlier(cell, k, i);
          }
          DistinctSnoc(prev, found.value);
        } else {
          assert NeighborsUpTo(cell, k) == NeighborsUpTo(cell, k - 1) + [];
          assert NeighborsUpTo(cell, k - 1) + [] == NeighborsUpTo(cell, k - 1);
        }
      }
    }
  }

  /** Appending a cell whose id is new keeps the ids distinct. */
  lemma DistinctSnoc(s: seq<Cell>, c: Cell)
    requires DistinctIds(s) && forall i :: 0 <= i < |s| ==> s[i].id != c.id
    ensures DistinctIds(s + [c])
  {
    forall i, j | 0 <= i < j < |s + [c]|
      ensures IdsDiffer(s + [c], i, j)
    {
      if j < |s| {
        assert IdsDiffer(s, i, j);
      }
    }
  }

  /** Reading the offset tables at d and looking the step up again gives back d. */
  lemma OffsetIndexInverse(d: nat)
    requires d < 8
    ensures OffsetIndex(NeighborDx[d], NeighborDy[d]) == d
  {
  }

  /** The offset index of a step (dx, dy) to one of the eight surrounding positions. */
  function OffsetIndex(dx: int, dy: int): (d: nat)
    requires -1 <= dx <= 1 && -1 <= dy <= 1 && (dx != 0 || dy != 0)
    ensures d < 8 && NeighborDx[d] == dx && NeighborDy[d] == dy
  {
    if dy == -1 then dx + 1
    else if dy == 1 then 5 - dx
    else if dx == 1 then 3 else 7
  }

  /** Row-major ids of the positions on a size x size board are the ids 0 .. size*size-1. */
  lemma CoordinatesOfId(size: nat, x: int, y: int)
    requires 0 <= x < size && 0 <= y < size
    ensures 0 <= x + y * size < size * size
    ensures (x + y * size) % size == x && (x + y * size) / size == y
  {
    assert y * size <= (size - 1) * size by {
      MulMono(y, size - 1, size);
    }
    assert (size - 1) * size == size * size - size;
    DivModPair(x + y * size, size, y, x);
  }

  /** The quotient of a board id by the board's width is a row of the board. */
  lemma DivBelow(id: int, size: nat)
    requires size > 0
    ensures 0 <= id < size * size ==> 0 <= id / size < size && id == id % size + (id / size) * size
  {
    if 0 <= id < size * size {
      var q := id / size;
      assert id == q * size + id % size;
      if q >= size {
        MulMono(size, q, size);
        assert false;
      }
    }
  }

  lemma MulMono(a: int, b: int, c: nat)
    requires a <= b
    ensures a * c <= b * c
  {
    assert b * c - a * c == (b - a) * c;
  }

  /** Division with remainder has one answer. */
  lemma DivModPair(n: int, m: int, q: int, r: int)
    requires m > 0 && 0 <= r < m && n == q * m + r
    ensures n % m == r && n / m == q
  {
    Hash.DivModUnique(n, m, q, r);
    assert (n / m) * m == q * m;
  }
}
