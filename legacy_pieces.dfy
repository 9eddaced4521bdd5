/**
 * The earlier generation of the piece geometry: seven tetrominoes in four
 * orientations (no garbage pieces), with their own offset tables, each offset
 * within [-2, 2]. Cells, offsets and orientations are those of `Pieces`.
 */
module LegacyPieces {
  import opened Wrappers
  import Pieces

  type Cell = Pieces.Cell
  type Dir = Pieces.Dir
  type Orientation = Pieces.Orientation

  datatype Piece =
    | I(cell: Cell, orientation: Orientation)
    | O(cell: Cell, orientation: Orientation)
    | T(cell: Cell, orientation: Orientation)
    | L(cell: Cell, orientation: Orientation)
    | J(cell: Cell, orientation: Orientation)
    | S(cell: Cell, orientation: Orientation)
    | Z(cell: Cell, orientation: Orientation)

  // Offset tables: one row per orientation, in the order NORTH, EAST, SOUTH, WEST.

  const IShape: seq<seq<Dir>> := [
    [Pieces.Dir(-1, 0), Pieces.Dir(0, 0), Pieces.Dir(1, 0), Pieces.Dir(2, 0)],
    [Pieces.Dir(0, 1), Pieces.Dir(0, 0), Pieces.Dir(0, -1), Pieces.Dir(0, -2)],
    [Pieces.Dir(1, 0), Pieces.Dir(0, 0), Pieces.Dir(-1, 0), Pieces.Dir(-2, 0)],
    [Pieces.Dir(0, -1), Pieces.Dir(0, 0), Pieces.Dir(0, 1), Pieces.Dir(0, 2)]
  ]

  const OShape: seq<seq<Dir>> := [
    [Pieces.Dir(0, 0), Pieces.Dir(1, 0), Pieces.Dir(0, 1), Pieces.Dir(1, 1)],
    [Pieces.Dir(0, 0), Pieces.Dir(0, 1), Pieces.Dir(1, 0), Pieces.Dir(1, 1)],
    [Pieces.Dir(0, 0), Pieces.Dir(1, 0), Pieces.Dir(0, 1), Pieces.Dir(1, 1)],
    [Pieces.Dir(0, 0), Pieces.Dir(0, 1), Pieces.Dir(1, 0), Pieces.Dir(1, 1)]
  ]

  const TShape: seq<seq<Dir>> := [
    [Pieces.Dir(0, 1), Pieces.Dir(-1, 0), Pieces.Dir(0, 0), Pieces.Dir(1, 0)],
    [Pieces.Dir(1, 0), Pieces.Dir(0, 1), Pieces.Dir(0, 0), Pieces.Dir(0, -1)],
    [Pieces.Dir(0, -1), Pieces.Dir(1, 0), Pieces.Dir(0, 0), Pieces.Dir(-1, 0)],
    [Pieces.Dir(-1, 0), Pieces.Dir(0, -1), Pieces.Dir(0, 0), Pieces.Dir(0, 1)]
  ]

  const LShape: seq<seq<Dir>> := [
    [Pieces.Dir(-1, 0), Pieces.Dir(0, 0), Pieces.Dir(1, 0), Pieces.Dir(-1, 1)],
    [Pieces.Dir(-1, -1), Pieces.Dir(0, 1), Pieces.Dir(0, 0), Pieces.Dir(0, -1)],
    [Pieces.Dir(1, 0), Pieces.Dir(0, 0), Pieces.Dir(-1, 0), Pieces.Dir(1, -1)],
    [Pieces.Dir(1, 1), Pieces.Dir(0, -1), Pieces.Dir(0, 0), Pieces.Dir(0, 1)]
  ]

  const JShape: seq<seq<Dir>> := [
    [Pieces.Dir(-1, 0), Pieces.Dir(0, 0), Pieces.Dir(1, 0), Pieces.Dir(1, 1)],
    [Pieces.Dir(1, -1), Pieces.Dir(0, 1), Pieces.Dir(0, 0), Pieces.Dir(0, -1)],
    [Pieces.Dir(1, 0), Pieces.Dir(0, 0), Pieces.Dir(-1, 0), Pieces.Dir(-1, -1)],
    [Pieces.Dir(-1, 1), Pieces.Dir(0, -1), Pieces.Dir(0, 0), Pieces.Dir(0, 1)]
  ]

  const SShape: seq<seq<Dir>> := [
    [Pieces.Dir(-1, 0), Pieces.Dir(0, 0), Pieces.Dir(0, 1), Pieces.Dir(1, 1)],
    [Pieces.Dir(0, 1), Pieces.Dir(0, 0), Pieces.Dir(1, 0), Pieces.Dir(1, -1)],
    [Pieces.Dir(1, 0), Pieces.Dir(0, 0), Pieces.Dir(0, -1), Pieces.Dir(-1, -1)],
    [Pieces.Dir(0, -1), Pieces.Dir(0, 0), Pieces.Dir(-1, 0), Pieces.Dir(-1, 1)]
  ]

  const ZShape: seq<seq<Dir>> := [
    [Pieces.Dir(1, 0), Pieces.Dir(0, 0), Pieces.Dir(0, 1), Pieces.Dir(-1, 1)],
    [Pieces.Dir(0, -1), Pieces.Dir(0, 0), Pieces.Dir(1, 0), Pieces.Dir(1, 1)],
    [Pieces.Dir(-1, 0), Pieces.Dir(0, 0), Pieces.Dir(0, -1), Pieces.Dir(1, -1)],
    [Pieces.Dir(0, 1), Pieces.Dir(0, 0), Pieces.Dir(-1, 0), Pieces.Dir(-1, -1)]
  ]

  /** `SHAPES`: the tables in the order I, O, T, L, J, S, Z. */
  const Shapes: seq<seq<seq<Dir>>> := [IShape, OShape, TShape, LShape, JShape, SShape, ZShape]

  /** An offset that `print_piece` can draw: shifted by 2 it indexes a 5 x 5 canvas. */
  predicate OnCanvas(d: Dir)
  {
    0 <= d.x + 2 < 5 && 0 <= d.y + 2 < 5
  }

  predicate TableOnCanvas(table: seq<seq<Dir>>)
    requires |table| == 4 && forall o :: 0 <= o < 4 ==> |table[o]| == 4
  {
    forall o, i :: 0 <= o < 4 && 0 <= i < 4 ==> OnCanvas(table[o][i])
  }

  /** A table of four well-formed rows whose offsets all lie in [-2, 2]. */
  predicate TableOk(table: seq<seq<Dir>>)
  {
    Pieces.TableWellFormed(table) && TableOnCanvas(table)
  }

  /**
   * Every table has four rows, each four distinct offsets that include (0, 0),
   * and every offset lies in [-2, 2], where the drawing canvas can hold it.
   */
  lemma ShapesWellFormed()
    ensures |Shapes| == 7 && forall s :: 0 <= s < 7 ==> TableOk(Shapes[s])
  {
    IShapeOk();
    OShapeOk();
    TShapeOk();
    LShapeOk();
    JShapeOk();
    SShapeOk();
    ZShapeOk();
  }

  lemma IShapeOk() ensures TableOk(IShape)
  {
    assert Pieces.RowWellFormed(IShape[0]) && Pieces.RowWellFormed(IShape[1]);
    assert Pieces.RowWellFormed(IShape[2]) && Pieces.RowWellFormed(IShape[3]);
  }

  lemma OShapeOk() ensures TableOk(OShape)
  {
    assert Pieces.RowWellFormed(OShape[0]) && Pieces.RowWellFormed(OShape[1]);
    assert Pieces.RowWellFormed(OShape[2]) && Pieces.RowWellFormed(OShape[3]);
  }

  lemma TShapeOk() ensures TableOk(TShape)
  {
    assert Pieces.RowWellFormed(TShape[0]) && Pieces.RowWellFormed(TShape[1]);
    assert Pieces.RowWellFormed(TShape[2]) && Pieces.RowWellFormed(TShape[3]);
  }

  lemma LShapeOk() ensures TableOk(LShape)
  {
    assert Pieces.RowWellFormed(LShape[0]) && Pieces.RowWellFormed(LShape[1]);
    assert Pieces.RowWellFormed(LShape[2]) && Pieces.RowWellFormed(LShape[3]);
  }

  lemma JShapeOk() ensures TableOk(JShape)
  {
    assert Pieces.RowWellFormed(JShape[0]) && Pieces.RowWellFormed(JShape[1]);
    assert Pieces.RowWellFormed(JShape[2]) && Pieces.RowWellFormed(JShape[3]);
  }

  lemma SShapeOk() ensures TableOk(SShape)
  {
    assert Pieces.RowWellFormed(SShape[0]) && Pieces.RowWellFormed(SShape[1]);
    assert Pieces.RowWellFormed(SShape[2]) && Pieces.RowWellFormed(SShape[3]);
  }

  lemma ZShapeOk() ensures TableOk(ZShape)
  {
    assert Pieces.RowWellFormed(ZShape[0]) && Pieces.RowWellFormed(ZShape[1]);
    assert Pieces.RowWellFormed(ZShape[2]) && Pieces.RowWellFormed(ZShape[3]);
  }

  /** Position of a piece's kind in `SHAPES` and in the declaration of `Piece`. */
  function ShapeIndex(p: Piece): (k: nat)
    ensures k < 7
  {
    match p
    case I(_, _) => 0
    case O(_, _) => 1
    case T(_, _) => 2
    case L(_, _) => 3
    case J(_, _) => 4
    case S(_, _) => 5
    case Z(_, _) => 6
  }

  /** Builds the piece of kind k, in the declaration order I, O, T, L, J, S, Z. */
  function MakePiece(k: nat, c: Cell, o: Orientation): (p: Piece)
    requires k < 7
  {
    if k == 0 then I(c, o) else if k == 1 then O(c, o) else if k == 2 then T(c, o)
    else if k == 3 then L(c, o) else if k == 4 then J(c, o) else if k == 5 then S(c, o) else Z(c, o)
  }

  /** `Piece::get_orientation`. */
  function GetOrientation(p: Piece): Orientation
  {
    match p
    case I(_, o) => o
    case O(_, o) => o
    case T(_, o) => o
    case L(_, o) => o
    case J(_, o) => o
    case S(_, o) => o
    case Z(_, o) => o
  }

  /** `Piece::get_cell`. */
  function GetCell(p: Piece): Cell
  {
    match p
    case I(c, _) => c
    case O(c, _) => c
    case T(c, _) => c
    case L(c, _) => c
    case J(c, _) => c
    case S(c, _) => c
    case Z(c, _) => c
  }

  /** The accessors hand back what the piece was built from, whatever its kind, and the kind is recovered too. */
  lemma AccessorsRoundTrip(k: nat, c: Cell, o: Orientation)
    requires k < 7
    ensures GetCell(MakePiece(k, c, o)) == c && GetOrientation(MakePiece(k, c, o)) == o
    ensures ShapeIndex(MakePiece(k, c, o)) == k
  {
  }

  /** The table `get_occupancy` selects for a piece: its kind's entry of `SHAPES`. */
  function ShapeTable(p: Piece): (t: seq<seq<Dir>>)
    ensures t == Shapes[ShapeIndex(p)] && TableOk(t)
  {
    ShapesWellFormed();
    match p
    case I(_, _) => IShape
    case O(_, _) => OShape
    case T(_, _) => TShape
    case L(_, _) => LShape
    case J(_, _) => JShape
    case S(_, _) => SShape
    case Z(_, _) => ZShape
  }

  /** The row of the piece's orientation. */
  function Dirs(p: Piece): (row: seq<Dir>)
    ensures Pieces.RowWellFormed(row)
    ensures forall i :: 0 <= i < 4 ==> OnCanvas(row[i])
  {
    ShapeTable(p)[Pieces.RowIndex(GetOrientation(p))]
  }

  /** The letter a board shows for a piece: its kind. */
  function ShapeLetter(p: Piece): (ch: char)
    ensures ch != ' ' && ch == "IOTLJSZ"[ShapeIndex(p)]
  {
    "IOTLJSZ"[ShapeIndex(p)]
  }

  /** `usize as i32`: keeps the low 32 bits and reads them as a signed number. */
  function TruncI32(n: nat): (r: int)
    ensures Pieces.I32Min <= r <= Pieces.I32Max
    ensures n <= Pieces.I32Max ==> r == n
  {
    var low := n % 0x1_0000_0000;
    if low > Pieces.I32Max then low - 0x1_0000_0000 else low
  }

  /** True when the program's i32 sums for this offset give a negative coordinate. */
  predicate WrappedNegative(anchor: Cell, d: Dir)
    requires Pieces.OffsetInRange(d)
  {
    Pieces.AddI32(TruncI32(anchor.x), d.x) < 0 || Pieces.AddI32(TruncI32(anchor.y), d.y) < 0
  }

  /** The cell the program builds from the wrapped, non-negative i32 sums. */
  function WrappedCell(anchor: Cell, d: Dir): Cell
    requires Pieces.OffsetInRange(d) && !WrappedNegative(anchor, d)
  {
    Pieces.Cell(Pieces.AddI32(TruncI32(anchor.x), d.x), Pieces.AddI32(TruncI32(anchor.y), d.y))
  }

  /** True when one of the four offsets gives a negative coordinate in the program's i32 sums. */
  predicate SomeWrappedNegative(anchor: Cell, dirs: seq<Dir>)
    requires Pieces.RowWellFormed(dirs)
  {
    WrappedNegative(anchor, dirs[0]) || WrappedNegative(anchor, dirs[1]) ||
    WrappedNegative(anchor, dirs[2]) || WrappedNegative(anchor, dirs[3])
  }

  /**
   * `Piece::get_occupancy` as written: the anchor is cast with `as i32`, so
   * an anchor beyond i32::MAX is silently truncated before the offsets are
   * added.
   */
  function OccupancyAsWritten(p: Piece): (r: Result<seq<Cell>, Pieces.PieceError>)
    ensures r.Ok? ==> |r.value| == 4
  {
    RowOccupancyAsWritten(p.cell, Dirs(p))
  }

  /** The occupancy as written, for an anchor and one row of offsets. */
  function RowOccupancyAsWritten(anchor: Cell, dirs: seq<Dir>): (r: Result<seq<Cell>, Pieces.PieceError>)
    requires Pieces.RowWellFormed(dirs)
    ensures r.Ok? ==> |r.value| == 4
  {
    if SomeWrappedNegative(anchor, dirs) then Err(Pieces.NegativeOccupancy(dirs))
    else Ok([WrappedCell(anchor, dirs[0]), WrappedCell(anchor, dirs[1]), WrappedCell(anchor, dirs[2]), WrappedCell(anchor, dirs[3])])
  }

  /**
   * `get_occupancy` corrected: an anchor that does not fit in an i32 is an
   * error (as `i32::try_from` makes it in the newer geometry); otherwise the
   * anchor plus each offset of the orientation's row, failing when one leaves
   * [0, i32::MAX].
   */
  function Occupancy(p: Piece): (r: Result<seq<Cell>, Pieces.PieceError>)
  {
    Pieces.RowOccupancy(p.cell, Dirs(p))
  }

  /**
   * The corrected occupancy fails exactly when the anchor is too large or an
   * offset takes it outside [0, i32::MAX]; otherwise it is four distinct
   * cells, anchor + offset k for each k, and it includes the anchor.
   */
  lemma OccupancyCharacterised(p: Piece)
    ensures Occupancy(p).Err? <==>
      (p.cell.x > Pieces.I32Max || p.cell.y > Pieces.I32Max ||
       exists i :: 0 <= i < 4 && Pieces.LeavesRange(p.cell, Dirs(p)[i]))
    ensures Occupancy(p).Ok? ==>
      && |Occupancy(p).value| == 4
      && Pieces.Distinct(Occupancy(p).value)
      && p.cell in Occupancy(p).value
      && forall i :: 0 <= i < 4 ==>
           Occupancy(p).value[i] == Pieces.Cell(p.cell.x + Dirs(p)[i].x, p.cell.y + Dirs(p)[i].y)
  {
    Pieces.RowOccupancyCharacterised(p.cell, Dirs(p));
  }

  /** For one offset and an anchor that fits in an i32, the wrapped sum is the exact sum. */
  lemma WrappedAgrees(anchor: Cell, d: Dir)
    requires anchor.x <= Pieces.I32Max && anchor.y <= Pieces.I32Max && Pieces.OffsetInRange(d)
    ensures WrappedNegative(anchor, d) <==> Pieces.LeavesRange(anchor, d)
    ensures !WrappedNegative(anchor, d) ==> WrappedCell(anchor, d) == Pieces.Cell(anchor.x + d.x, anchor.y + d.y)
  {
    Pieces.AddI32Sign(anchor.x, d.x);
    Pieces.AddI32Sign(anchor.y, d.y);
  }

  /** For an anchor that fits in an i32 and any row, the occupancy as written and the corrected one agree. */
  lemma RowAsWrittenAgrees(anchor: Cell, dirs: seq<Dir>)
    requires anchor.x <= Pieces.I32Max && anchor.y <= Pieces.I32Max && Pieces.RowWellFormed(dirs)
    ensures RowOccupancyAsWritten(anchor, dirs) == Pieces.RowOccupancy(anchor, dirs)
  {
    WrappedAgrees(anchor, dirs[0]);
    WrappedAgrees(anchor, dirs[1]);
    WrappedAgrees(anchor, dirs[2]);
    WrappedAgrees(anchor, dirs[3]);
    assert SomeWrappedNegative(anchor, dirs) <==> Pieces.SomeNegative(anchor, dirs);
    if !SomeWrappedNegative(anchor, dirs) {
      var cells := Pieces.OffsetCells(anchor, dirs);
      var w := [WrappedCell(anchor, dirs[0]), WrappedCell(anchor, dirs[1]), WrappedCell(anchor, dirs[2]), WrappedCell(anchor, dirs[3])];
      assert RowOccupancyAsWritten(anchor, dirs) == Ok(w);
      assert w[0] == cells[0] && w[1] == cells[1] && w[2] == cells[2] && w[3] == cells[3];
      assert w == cells;
    }
  }

  /** For an anchor that fits in an i32, the program as written and the corrected occupancy agree. */
  lemma AsWrittenAgreesInRange(p: Piece)
    requires p.cell.x <= Pieces.I32Max && p.cell.y <= Pieces.I32Max
    ensures OccupancyAsWritten(p) == Occupancy(p)
  {
    RowAsWrittenAgrees(p.cell, Dirs(p));
  }

  /**
   * As written, an I lying NORTH at x = 2^32 + 2 is cast to x = 2 and
   * succeeds, occupying (1, 2) to (4, 2): four cells that do not include its
   * anchor. The corrected occupancy rejects it.
   */
  lemma TruncationMovesPiece()
    ensures OccupancyAsWritten(I(Pieces.Cell(0x1_0000_0002, 2), Pieces.North)) ==
      Ok([Pieces.Cell(1, 2), Pieces.Cell(2, 2), Pieces.Cell(3, 2), Pieces.Cell(4, 2)])
    ensures Pieces.Cell(0x1_0000_0002, 2) !in OccupancyAsWritten(I(Pieces.Cell(0x1_0000_0002, 2), Pieces.North)).value
    ensures Occupancy(I(Pieces.Cell(0x1_0000_0002, 2), Pieces.North)).Err?
  {
    var p := I(Pieces.Cell(0x1_0000_0002, 2), Pieces.North);
    var dirs := Dirs(p);
    assert dirs == IShape[0];
    assert TruncI32(0x1_0000_0002) == 2;
    assert !WrappedNegative(p.cell, dirs[0]) && !WrappedNegative(p.cell, dirs[1]);
    assert !WrappedNegative(p.cell, dirs[2]) && !WrappedNegative(p.cell, dirs[3]);
  }

  /** The tests of the program: an I NORTH at (0, 0) reaches x = -1 and fails; at (2, 2) it fits. */
  lemma OccupancyTests()
    ensures Occupancy(I(Pieces.Cell(0, 0), Pieces.North)).Err?
    ensures OccupancyAsWritten(I(Pieces.Cell(0, 0), Pieces.North)).Err?
    ensures Occupancy(I(Pieces.Cell(2, 2), Pieces.North)) ==
      Ok([Pieces.Cell(1, 2), Pieces.Cell(2, 2), Pieces.Cell(3, 2), Pieces.Cell(4, 2)])
  {
    var p := I(Pieces.Cell(0, 0), Pieces.North);
    assert Dirs(p) == IShape[0];
    assert Pieces.LeavesRange(p.cell, Dirs(p)[0]);
    OccupancyCharacterised(p);
    AsWrittenAgreesInRange(p);
    var q := I(Pieces.Cell(2, 2), Pieces.North);
    assert Dirs(q) == IShape[0];
    assert TruncI32(2) == 2;
    assert OccupancyAsWritten(q) == Ok([Pieces.Cell(1, 2), Pieces.Cell(2, 2), Pieces.Cell(3, 2), Pieces.Cell(4, 2)]);
    AsWrittenAgreesInRange(q);
  }

  /** `Piece::get_occupancy` corrected: the loop of `get_occupancy` with checked conversions. */
  method GetOccupancy(p: Piece) returns (r: Result<seq<Cell>, Pieces.PieceError>)
    ensures r == Occupancy(p)
  {
    r := Pieces.GetRowOccupancy(p.cell, Dirs(p));
  }

  /** One pass of the loop of `get_occupancy` as written. */
  method WrappedOffsetCell(anchor: Cell, d: Dir) returns (r: Option<Cell>)
    requires Pieces.OffsetInRange(d)
    ensures r.None? <==> WrappedNegative(anchor, d)
    ensures r.Some? ==> r.value == WrappedCell(anchor, d)
  {
    var x := Pieces.AddI32(TruncI32(anchor.x), d.x);
    var y := Pieces.AddI32(TruncI32(anchor.y), d.y);
    if x < 0 || y < 0 {
      return None;
    }
    return Some(Pieces.Cell(x, y));
  }

  /** The four wrapped cells, when none is negative, are the result as written. */
  lemma AsWrittenFromCells(anchor: Cell, dirs: seq<Dir>, occupancy: seq<Cell>)
    requires Pieces.RowWellFormed(dirs) && |occupancy| == 4
    requires forall k :: 0 <= k < 4 ==> !WrappedNegative(anchor, dirs[k]) && occupancy[k] == WrappedCell(anchor, dirs[k])
    ensures RowOccupancyAsWritten(anchor, dirs) == Ok(occupancy)
  {
    Pieces.RowFacts(dirs);
    assert !SomeWrappedNegative(anchor, dirs);
    assert occupancy == [occupancy[0], occupancy[1], occupancy[2], occupancy[3]];
  }

  /** `Piece::get_occupancy` as written: fills four cells in turn, returning early at the first negative one. */
  method GetOccupancyAsWritten(p: Piece) returns (r: Result<seq<Cell>, Pieces.PieceError>)
    ensures r == OccupancyAsWritten(p)
  {
    var dirs := Dirs(p);
    Pieces.RowFacts(dirs);
    var occupancy: seq<Cell> := [];
    for i := 0 to 4
      invariant |occupancy| == i
      invariant forall k :: 0 <= k < i ==> !WrappedNegative(p.cell, dirs[k]) && occupancy[k] == WrappedCell(p.cell, dirs[k])
    {
      var cell := WrappedOffsetCell(p.cell, dirs[i]);
      if cell.None? {
        assert SomeWrappedNegative(p.cell, dirs);
        return Err(Pieces.NegativeOccupancy(dirs));
      }
      occupancy := occupancy + [cell.value];
    }
    AsWrittenFromCells(p.cell, dirs, occupancy);
    return Ok(occupancy);
  }
}
