/**
 * The earlier generation of the occupancy grid: a row-major vector of
 * characters written through one bounds-checked `get`, all-or-nothing
 * placement, undo and removal, for the pieces of `LegacyPieces`.
 */
module LegacyBoards {
  import opened Wrappers
  import Pieces
  import Boards
  import opened LegacyPieces

  const EmptyCell: char := ' '

  datatype BoardError =
    | CellOutOfBounds(cell: Cell)
    | CellNotEmpty(piece: Piece, cell: Cell)
    | OccupancyFailed(error: Pieces.PieceError)
    | NothingToUndo

  /** A piece that may be placed: its occupancy succeeds and every cell is in bounds and empty. */
  predicate Placeable(cells: seq<char>, width: nat, height: nat, p: Piece)
    requires |cells| == width * height
  {
    Occupancy(p).Ok? && Boards.Vacant(cells, width, height, Occupancy(p).value)
  }

  /** The grid after a successful place: the piece's letter in each occupied cell. */
  function PlacedCells(cells: seq<char>, width: nat, height: nat, p: Piece): (r: seq<char>)
    requires |cells| == width * height && Placeable(cells, width, height, p)
    ensures |r| == |cells|
  {
    Boards.WriteCells(cells, width, height, Occupancy(p).value, ShapeLetter(p)).cells
  }

  /** Blanking a piece's occupied cells. */
  function ClearedCells(cells: seq<char>, width: nat, height: nat, p: Piece): (r: seq<char>)
    requires |cells| == width * height && Occupancy(p).Ok?
    ensures |r| == |cells|
  {
    Boards.WriteCells(cells, width, height, Occupancy(p).value, EmptyCell).cells
  }

  /**
   * A successful place writes the piece's letter into exactly its own cells,
   * which were empty, and leaves every other position as it was.
   */
  lemma PlacedContents(cells: seq<char>, width: nat, height: nat, p: Piece)
    requires |cells| == width * height && Placeable(cells, width, height, p)
    ensures forall c :: c in Occupancy(p).value ==>
      Boards.HoldsAt(cells, width, c, EmptyCell) && Boards.HoldsAt(PlacedCells(cells, width, height, p), width, c, ShapeLetter(p))
    ensures forall j :: 0 <= j < |cells| && !Boards.Covers(width, Occupancy(p).value, j) ==>
      PlacedCells(cells, width, height, p)[j] == cells[j]
  {
    var occ := Occupancy(p).value;
    forall c | c in occ
      ensures Boards.HoldsAt(cells, width, c, EmptyCell) && Boards.HoldsAt(PlacedCells(cells, width, height, p), width, c, ShapeLetter(p))
    {
      var k :| 0 <= k < |occ| && occ[k] == c;
      assert Boards.Covers(width, occ, Boards.Index(width, c));
    }
  }

  /** After placing a piece, blanking its cells restores the grid exactly. */
  lemma PlaceThenClear(cells: seq<char>, width: nat, height: nat, p: Piece)
    requires |cells| == width * height && Placeable(cells, width, height, p)
    ensures ClearedCells(PlacedCells(cells, width, height, p), width, height, p) == cells
  {
    var occ := Occupancy(p).value;
    forall j | 0 <= j < |cells| && Boards.Covers(width, occ, j) ensures cells[j] == EmptyCell {
      var k :| 0 <= k < |occ| && Boards.Index(width, occ[k]) == j;
      assert Boards.HoldsAt(cells, width, occ[k], EmptyCell);
    }
    Boards.WriteTwiceRestores(cells, width, height, occ, ShapeLetter(p), EmptyCell);
  }

  /** A piece placed at an anchor blocks every later piece with the same anchor. */
  lemma SameAnchorBlocked(cells: seq<char>, width: nat, height: nat, p: Piece, q: Piece)
    requires |cells| == width * height && Placeable(cells, width, height, p)
    requires q.cell == p.cell
    ensures !Placeable(PlacedCells(cells, width, height, p), width, height, q)
  {
    var placed := PlacedCells(cells, width, height, p);
    PlacedContents(cells, width, height, p);
    OccupancyCharacterised(p);
    OccupancyCharacterised(q);
    assert Boards.HoldsAt(placed, width, p.cell, ShapeLetter(p));
    if Occupancy(q).Ok? {
      Boards.FilledNotVacant(placed, width, height, Occupancy(q).value, q.cell);
    }
  }

  /** The cells of an I lying NORTH at (x, 0): from x - 1 to x + 2. */
  lemma HorizontalI(x: nat)
    requires 1 <= x <= 100
    ensures Occupancy(I(Pieces.Cell(x, 0), Pieces.North)) ==
      Ok([Pieces.Cell(x - 1, 0), Pieces.Cell(x, 0), Pieces.Cell(x + 1, 0), Pieces.Cell(x + 2, 0)])
  {
    var p := I(Pieces.Cell(x, 0), Pieces.North);
    var dirs := Dirs(p);
    assert dirs == IShape[0];
    assert dirs[0] == Pieces.Dir(-1, 0) && dirs[1] == Pieces.Dir(0, 0) && dirs[2] == Pieces.Dir(1, 0) && dirs[3] == Pieces.Dir(2, 0);
    assert !Pieces.SomeNegative(p.cell, dirs);
    var cells := Pieces.OffsetCells(p.cell, dirs);
    assert cells[0] == Pieces.Cell(x - 1, 0) && cells[1] == Pieces.Cell(x, 0);
    assert cells[2] == Pieces.Cell(x + 1, 0) && cells[3] == Pieces.Cell(x + 2, 0);
    assert cells == [Pieces.Cell(x - 1, 0), Pieces.Cell(x, 0), Pieces.Cell(x + 1, 0), Pieces.Cell(x + 2, 0)];
  }

  /** The tests of the program on an empty 10 x 20 board: an I NORTH at (1, 0) fits. */
  lemma PlaceOnEmptyBoard()
    ensures Placeable(seq(200, _ => EmptyCell), 10, 20, I(Pieces.Cell(1, 0), Pieces.North))
  {
    HorizontalI(1);
    var occ := Occupancy(I(Pieces.Cell(1, 0), Pieces.North)).value;
    assert occ == [Pieces.Cell(0, 0), Pieces.Cell(1, 0), Pieces.Cell(2, 0), Pieces.Cell(3, 0)];
    Boards.EmptyBoardVacant(10, 20, occ);
  }

  /** An I NORTH at (0, 0) reaches x = -1, so its occupancy fails. */
  lemma PlaceOutOfBoundsLow()
    ensures !Placeable(seq(200, _ => EmptyCell), 10, 20, I(Pieces.Cell(0, 0), Pieces.North))
  {
    OccupancyTests();
  }

  /** An I NORTH at (8, 0) reaches x = 10, outside a board 10 wide. */
  lemma PlaceOutOfBoundsHigh()
    ensures !Placeable(seq(200, _ => EmptyCell), 10, 20, I(Pieces.Cell(8, 0), Pieces.North))
  {
    HorizontalI(8);
    assert !Boards.InBounds(10, 20, Occupancy(I(Pieces.Cell(8, 0), Pieces.North)).value[3]);
  }

  /** Placing the same I twice, or a T over it at the same anchor, fails the second time. */
  lemma PlaceOverlapTests()
    ensures Placeable(seq(200, _ => EmptyCell), 10, 20, I(Pieces.Cell(2, 0), Pieces.North))
    ensures !Placeable(PlacedCells(seq(200, _ => EmptyCell), 10, 20, I(Pieces.Cell(2, 0), Pieces.North)), 10, 20,
                       I(Pieces.Cell(2, 0), Pieces.North))
    ensures !Placeable(PlacedCells(seq(200, _ => EmptyCell), 10, 20, I(Pieces.Cell(2, 0), Pieces.North)), 10, 20,
                       T(Pieces.Cell(2, 0), Pieces.North))
  {
    var empty: seq<char> := seq(200, _ => EmptyCell);
    var p := I(Pieces.Cell(2, 0), Pieces.North);
    HorizontalI(2);
    Boards.EmptyBoardVacant(10, 20, Occupancy(p).value);
    SameAnchorBlocked(empty, 10, 20, p, p);
    SameAnchorBlocked(empty, 10, 20, p, T(Pieces.Cell(2, 0), Pieces.North));
  }

  /** The legacy board: a grid of characters and the pieces placed on it. */
  class Board {
    var cells: seq<char>
    var pieces: seq<Piece>
    const width: nat
    const height: nat

    ghost predicate Valid()
      reads this
    {
      |cells| == width * height
    }

    /** `Board::new`: `w * h` blank cells and no pieces. */
    constructor(w: nat, h: nat)
      ensures Valid() && width == w && height == h
      ensures cells == seq(w * h, _ => EmptyCell) && pieces == []
    {
      width, height := w, h;
      cells := seq(w * h, _ => EmptyCell);
      pieces := [];
    }

    /** `Board::get`: the position of the cell's slot, or an error out of bounds. */
    function Get(c: Cell): (r: Result<nat, BoardError>)
      reads this
      requires Valid()
      ensures r.Err? <==> !Boards.InBounds(width, height, c)
      ensures r.Ok? ==> r.value < |cells| && r.value == Boards.Index(width, c)
    {
      if !(c.x < width && c.y < height) then Err(CellOutOfBounds(c))
      else
        Boards.IndexInRange(width, height, c);
        Ok(c.y * width + c.x)
    }

    /** `Board::place`: every check precedes the writes, so a failure changes nothing. */
    method Place(p: Piece) returns (r: Result<Unit, BoardError>)
      requires Valid()
      modifies this
      ensures Valid()
      ensures r.Ok? <==> old(Placeable(cells, width, height, p))
      ensures r.Ok? ==> cells == PlacedCells(old(cells), width, height, p) && pieces == old(pieces) + [p]
      ensures r.Err? ==> cells == old(cells) && pieces == old(pieces)
      ensures Occupancy(p).Err? ==> r == Err(OccupancyFailed(Occupancy(p).error))
    {
      var toOccupy := GetOccupancy(p);
      if toOccupy.Err? {
        return Err(OccupancyFailed(toOccupy.error));
      }
      var occ := toOccupy.value;
      var vacant := CheckVacant(p, occ);
      if vacant.Err? {
        return Err(vacant.error);
      }
      var written := WriteThrough(occ, ShapeLetter(p));
      pieces := pieces + [p];
      return Ok(Unit);
    }

    /** The checking loop of `Board::place`: the first cell of `occ` out of bounds or already filled is an error. */
    method CheckVacant(p: Piece, occ: seq<Cell>) returns (r: Result<Unit, BoardError>)
      requires Valid()
      ensures r.Ok? <==> Boards.Vacant(cells, width, height, occ)
    {
      for i := 0 to |occ|
        invariant forall k :: 0 <= k < i ==> Boards.InBounds(width, height, occ[k]) && Boards.HoldsAt(cells, width, occ[k], EmptyCell)
      {
        var slot := Get(occ[i]);
        if slot.Err? {
          return Err(slot.error);
        }
        if cells[slot.value] != EmptyCell {
          return Err(CellNotEmpty(p, occ[i]));
        }
      }
      return Ok(Unit);
    }

    /** Writes `v` into each cell of `occ` through `get`, returning early at the first cell out of bounds. */
    method WriteThrough(occ: seq<Cell>, v: char) returns (r: Result<Unit, BoardError>)
      requires Valid()
      modifies this
      ensures Valid() && pieces == old(pieces)
      ensures cells == Boards.WriteCells(old(cells), width, height, occ, v).cells
      ensures r.Ok? <==> Boards.AllInBounds(width, height, occ)
    {
      ghost var before := cells;
      for i := 0 to |occ|
        invariant |cells| == |before| && pieces == old(pieces)
        invariant Boards.WriteCells(before, width, height, occ[..i], v).complete
        invariant cells == Boards.WriteCells(before, width, height, occ[..i], v).cells
      {
        var slot := Get(occ[i]);
        if slot.Err? {
          assert occ[..i + 1][..i] == occ[..i];
          Boards.WriteCellsStops(before, width, height, occ, v, i);
          return Err(slot.error);
        }
        Boards.WriteCellsStep(before, width, height, occ, v, i);
        cells := cells[slot.value := v];
      }
      assert occ[..|occ|] == occ;
      return Ok(Unit);
    }

    /** `Board::undo_last_move`: pops the last piece and blanks its cells. */
    method UndoLastMove() returns (r: Result<Unit, BoardError>)
      requires Valid()
      modifies this
      ensures Valid()
      ensures old(pieces) == [] ==> r == Err(NothingToUndo) && cells == old(cells) && pieces == old(pieces)
      ensures old(pieces) != [] ==> pieces == old(pieces[..|pieces| - 1])
      ensures old(pieces) != [] && Occupancy(old(pieces[|pieces| - 1])).Err? ==> r.Err? && cells == old(cells)
      ensures old(pieces) != [] && Occupancy(old(pieces[|pieces| - 1])).Ok? ==>
        var occ := Occupancy(old(pieces[|pieces| - 1])).value;
        cells == ClearedCells(old(cells), width, height, old(pieces[|pieces| - 1])) &&
        (r.Ok? <==> Boards.AllInBounds(width, height, occ))
    {
      if |pieces| == 0 {
        return Err(NothingToUndo);
      }
      var piece := pieces[|pieces| - 1];
      pieces := pieces[..|pieces| - 1];
      var toClear := GetOccupancy(piece);
      if toClear.Err? {
        return Err(OccupancyFailed(toClear.error));
      }
      r := WriteThrough(toClear.value, EmptyCell);
    }

    /** `Board::remove_piece`: blanks the piece's cells and drops every equal entry from the list. */
    method RemovePiece(p: Piece) returns (r: Result<Unit, BoardError>)
      requires Valid()
      modifies this
      ensures Valid()
      ensures Occupancy(p).Err? ==> r.Err? && cells == old(cells) && pieces == old(pieces)
      ensures Occupancy(p).Ok? ==>
        cells == ClearedCells(old(cells), width, height, p) &&
        (r.Ok? <==> Boards.AllInBounds(width, height, Occupancy(p).value)) &&
        pieces == if r.Ok? then Boards.Without(old(pieces), p) else old(pieces)
    {
      var toClear := GetOccupancy(p);
      if toClear.Err? {
        return Err(OccupancyFailed(toClear.error));
      }
      r := WriteThrough(toClear.value, EmptyCell);
      if r.Ok? {
        pieces := Boards.Without(pieces, p);
      }
    }
  }
}
