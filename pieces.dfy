/**
 * Piece geometry of the board-construction engine: grid cells, the seven
 * tetrominoes in four orientations, the two single-cell garbage pieces, and
 * the translation of an anchor cell plus an orientation into absolute cells.
 */
module Pieces {
  import opened Wrappers

  /** A grid coordinate; both components are `usize` in the program. */
  datatype Cell = Cell(x: nat, y: nat)

  /** A relative offset from a piece's anchor cell (`i32` components). */
  datatype Dir = Dir(x: int, y: int)

  datatype Orientation = North | East | South | West

  /** The seven tetrominoes carry an anchor and an orientation; garbage only an anchor. */
  datatype Piece =
    | I(cell: Cell, orientation: Orientation)
    | O(cell: Cell, orientation: Orientation)
    | T(cell: Cell, orientation: Orientation)
    | L(cell: Cell, orientation: Orientation)
    | J(cell: Cell, orientation: Orientation)
    | S(cell: Cell, orientation: Orientation)
    | Z(cell: Cell, orientation: Orientation)
    | Gray(cell: Cell)
    | Black(cell: Cell)
  {
    predicate IsGarbage() { Gray? || Black? }
  }

  datatype PieceError =
    | NegativeOccupancy(dirs: seq<Dir>)  // some anchor + offset is negative as an i32
    | ConversionOverflow                 // the anchor does not fit in an i32

  const I32Max: int := 0x7fff_ffff

  const I32Min: int := -0x8000_0000

  /** The i32 sum `a + d` of the program, built without overflow checks: a sum
    * outside the i32 range wraps around by 2^32. */
  function AddI32(a: int, d: int): (r: int)
    requires I32Min <= a <= I32Max && I32Min <= d <= I32Max
    ensures I32Min <= r <= I32Max
    ensures I32Min <= a + d <= I32Max ==> r == a + d
  {
    var s := a + d;
    if s > I32Max then s - 0x1_0000_0000
    else if s < I32Min then s + 0x1_0000_0000
    else s
  }

  /** `AddI32` is addition modulo 2^32 into the i32 range. */
  lemma AddI32Wraps(a: int, d: int)
    requires I32Min <= a <= I32Max && I32Min <= d <= I32Max
    ensures (AddI32(a, d) - (a + d)) % 0x1_0000_0000 == 0
  {
  }

  /** For an anchor that fits in an i32 and a table offset, the wrapped sum is
    * negative exactly when the true sum leaves the range [0, i32::MAX]. */
  lemma AddI32Sign(a: int, d: int)
    requires 0 <= a <= I32Max && -3 <= d <= 3
    ensures AddI32(a, d) < 0 <==> (a + d < 0 || a + d > I32Max)
    ensures AddI32(a, d) >= 0 ==> AddI32(a, d) == a + d
  {
  }

  /** The derived `Ord` on `Cell`: lexicographic, comparing `x` first. */
  predicate CellLess(a: Cell, b: Cell)
  {
    a.x < b.x || (a.x == b.x && a.y < b.y)
  }

  /** `CellLess` is a strict total order. */
  lemma {:induction false} CellLessTotal(a: Cell, b: Cell)
    ensures !(CellLess(a, b) && CellLess(b, a))
    ensures a == b || CellLess(a, b) || CellLess(b, a)
    ensures !CellLess(a, a)
  {
    if a != b && a.x == b.x {
      assert a.y != b.y;
    }
  }

  // Offset tables: one row per orientation, in the order North, East, South, West.

  const IShape: seq<seq<Dir>> := [
    [Dir(0, 0), Dir(1, 0), Dir(2, 0), Dir(3, 0)],
    [Dir(0, 0), Dir(0, -1), Dir(0, -2), Dir(0, -3)],
    [Dir(0, 0), Dir(-1, 0), Dir(-2, 0), Dir(-3, 0)],
    [Dir(0, 0), Dir(0, 1), Dir(0, 2), Dir(0, 3)]
  ]

  const OShape: seq<seq<Dir>> := [
    [Dir(0, 0), Dir(-1, 0), Dir(0, -1), Dir(-1, -1)],
    [Dir(0, 0), Dir(0, -1), Dir(-1, 0), Dir(-1, -1)],
    [Dir(0, 0), Dir(-1, 0), Dir(0, -1), Dir(-1, -1)],
    [Dir(0, 0), Dir(0, -1), Dir(-1, 0), Dir(-1, -1)]
  ]

  const TShape: seq<seq<Dir>> := [
    [Dir(0, 1), Dir(-1, 0), Dir(0, 0), Dir(1, 0)],
    [Dir(0, 0), Dir(-1, 1), Dir(-1, 0), Dir(-1, -1)],
    [Dir(-1, -1), Dir(0, 0), Dir(-1, 0), Dir(-2, 0)],
    [Dir(-1, -1), Dir(0, -2), Dir(0, -1), Dir(0, 0)]
  ]

  const LShape: seq<seq<Dir>> := [
    [Dir(-2, -1), Dir(-1, -1), Dir(0, -1), Dir(0, 0)],
    [Dir(1, -1), Dir(0, 1), Dir(0, 0), Dir(0, -1)],
    [Dir(0, 0), Dir(-1, 0), Dir(-2, 0), Dir(-2, -1)],
    [Dir(-1, 0), Dir(0, 0), Dir(0, -1), Dir(0, -2)]
  ]

  const JShape: seq<seq<Dir>> := [
    [Dir(-1, 0), Dir(0, 0), Dir(1, 0), Dir(-1, -1)],
    [Dir(-1, -2), Dir(0, 0), Dir(0, -1), Dir(0, -2)],
    [Dir(0, 0), Dir(-1, 0), Dir(-2, 0), Dir(0, -1)],
    [Dir(0, 0), Dir(-1, -2), Dir(-1, -1), Dir(-1, 0)]
  ]

  const SShape: seq<seq<Dir>> := [
    [Dir(-2, -1), Dir(-1, -1), Dir(-1, 0), Dir(0, 0)],
    [Dir(0, 1), Dir(0, 0), Dir(1, 0), Dir(1, -1)],
    [Dir(0, 0), Dir(-1, 0), Dir(-1, -1), Dir(-2, -1)],
    [Dir(1, -1), Dir(1, 0), Dir(0, 0), Dir(0, 1)]
  ]

  const ZShape: seq<seq<Dir>> := [
    [Dir(1, 0), Dir(0, 0), Dir(0, 1), Dir(-1, 1)],
    [Dir(-1, -2), Dir(-1, -1), Dir(0, -1), Dir(0, 0)],
    [Dir(-1, 1), Dir(0, 1), Dir(0, 0), Dir(1, 0)],
    [Dir(0, 0), Dir(0, -1), Dir(-1, -1), Dir(-1, -2)]
  ]

  /** A shape row is well formed: four pairwise distinct offsets in [-3, 3]
    * that include the anchor offset (0, 0). */
  predicate RowWellFormed(row: seq<Dir>)
  {
    && |row| == 4
    && (row[0] == Dir(0, 0) || row[1] == Dir(0, 0) || row[2] == Dir(0, 0) || row[3] == Dir(0, 0))
    && row[0] != row[1] && row[0] != row[2] && row[0] != row[3]
    && row[1] != row[2] && row[1] != row[3] && row[2] != row[3]
    && OffsetInRange(row[0]) && OffsetInRange(row[1]) && OffsetInRange(row[2]) && OffsetInRange(row[3])
  }

  predicate OffsetInRange(d: Dir)
  {
    -3 <= d.x <= 3 && -3 <= d.y <= 3
  }

  /** The facts about a well-formed row, in quantified form. */
  lemma RowFacts(row: seq<Dir>)
    requires RowWellFormed(row)
    ensures Dir(0, 0) in row
    ensures forall i, j :: 0 <= i < j < 4 ==> row[i] != row[j]
    ensures forall i :: 0 <= i < 4 ==> OffsetInRange(row[i])
  {
  }

  predicate TableWellFormed(table: seq<seq<Dir>>)
  {
    |table| == 4 && forall o :: 0 <= o < 4 ==> RowWellFormed(table[o])
  }

  /** Every row of every offset table is well formed. */
  lemma ShapeTablesWellFormed()
    ensures TableWellFormed(IShape) && TableWellFormed(OShape) && TableWellFormed(TShape)
    ensures TableWellFormed(LShape) && TableWellFormed(JShape)
    ensures TableWellFormed(SShape) && TableWellFormed(ZShape)
  {
    IShapeWellFormed(); OShapeWellFormed(); TShapeWellFormed(); LShapeWellFormed();
    JShapeWellFormed(); SShapeWellFormed(); ZShapeWellFormed();
  }

  lemma IShapeWellFormed() ensures TableWellFormed(IShape)
  {
    assert RowWellFormed(IShape[0]);
    assert RowWellFormed(IShape[1]);
    assert RowWellFormed(IShape[2]);
    assert RowWellFormed(IShape[3]);
  }

  lemma OShapeWellFormed() ensures TableWellFormed(OShape)
  {
    assert RowWellFormed(OShape[0]);
    assert RowWellFormed(OShape[1]);
    assert RowWellFormed(OShape[2]);
    assert RowWellFormed(OShape[3]);
  }

  lemma TShapeWellFormed() ensures TableWellFormed(TShape)
  {
    assert RowWellFormed(TShape[0]);
    assert RowWellFormed(TShape[1]);
    assert RowWellFormed(TShape[2]);
    assert RowWellFormed(TShape[3]);
  }

  lemma LShapeWellFormed() ensures TableWellFormed(LShape)
  {
    assert RowWellFormed(LShape[0]);
    assert RowWellFormed(LShape[1]);
    assert RowWellFormed(LShape[2]);
    assert RowWellFormed(LShape[3]);
  }

  lemma JShapeWellFormed() ensures TableWellFormed(JShape)
  {
    assert RowWellFormed(JShape[0]);
    assert RowWellFormed(JShape[1]);
    assert RowWellFormed(JShape[2]);
    assert RowWellFormed(JShape[3]);
  }

  lemma SShapeWellFormed() ensures TableWellFormed(SShape)
  {
    assert RowWellFormed(SShape[0]);
    assert RowWellFormed(SShape[1]);
    assert RowWellFormed(SShape[2]);
    assert RowWellFormed(SShape[3]);
  }

  lemma ZShapeWellFormed() ensures TableWellFormed(ZShape)
  {
    assert RowWellFormed(ZShape[0]);
    assert RowWellFormed(ZShape[1]);
    assert RowWellFormed(ZShape[2]);
    assert RowWellFormed(ZShape[3]);
  }

  /** `Orientation::all`. */
  function AllOrientations(): (r: seq<Orientation>)
    ensures r == [North, East, South, West]
  {
    [North, East, South, West]
  }

  /** `Piece::all_normal`: the seven tetrominoes at one anchor and orientation. */
  function AllNormal(cell: Cell, orientation: Orientation): (r: seq<Piece>)
    ensures |r| == 7
    ensures forall k :: 0 <= k < 7 ==> !r[k].IsGarbage() && r[k].cell == cell && r[k].orientation == orientation
  {
    [I(cell, orientation), O(cell, orientation), T(cell, orientation), L(cell, orientation),
     J(cell, orientation), S(cell, orientation), Z(cell, orientation)]
  }

  /** `Piece::all_garbage`: Gray first, then Black. */
  function AllGarbage(cell: Cell): (r: seq<Piece>)
    ensures |r| == 2 && r[0] == Gray(cell) && r[1] == Black(cell)
  {
    [Gray(cell), Black(cell)]
  }

  /** `Piece::get_char`: the board character painted by a piece. */
  function GetChar(p: Piece): char
  {
    match p
    case I(_, _) => 'I'
    case O(_, _) => 'O'
    case T(_, _) => 'T'
    case L(_, _) => 'L'
    case J(_, _) => 'J'
    case S(_, _) => 'S'
    case Z(_, _) => 'Z'
    case Gray(_) => 'G'
    case Black(_) => 'B'
  }

  /** Two pieces of the same kind (constructor). */
  predicate SameKind(p: Piece, q: Piece)
  {
    (p.I? && q.I?) || (p.O? && q.O?) || (p.T? && q.T?) || (p.L? && q.L?) || (p.J? && q.J?)
    || (p.S? && q.S?) || (p.Z? && q.Z?) || (p.Gray? && q.Gray?) || (p.Black? && q.Black?)
  }

  /** `get_char` tells the nine kinds apart and never yields the empty cell ' '. */
  lemma GetCharDistinct(p: Piece, q: Piece)
    ensures GetChar(p) != ' '
    ensures GetChar(p) in "IOTLJSZGB"
    ensures GetChar(p) == GetChar(q) <==> SameKind(p, q)
  {
  }

  /** `Piece::get_orientation`; the program panics on garbage. */
  function GetOrientation(p: Piece): (o: Orientation)
    requires !p.IsGarbage()
    ensures exists c :: p in AllNormal(c, o)
  {
    assert p in AllNormal(p.cell, p.orientation);
    p.orientation
  }

  /** `Piece::get_cell`: the anchor. */
  function GetCell(p: Piece): (c: Cell)
    ensures p.IsGarbage() ==> p in AllGarbage(c)
    ensures !p.IsGarbage() ==> p in AllNormal(c, p.orientation)
  {
    assert !p.IsGarbage() ==> p in AllNormal(p.cell, p.orientation);
    p.cell
  }

  /** The offset table of a tetromino. */
  function ShapeTable(p: Piece): (t: seq<seq<Dir>>)
    requires !p.IsGarbage()
    ensures TableWellFormed(t)
  {
    ShapeTablesWellFormed();
    match p
    case I(_, _) => IShape
    case O(_, _) => OShape
    case T(_, _) => TShape
    case L(_, _) => LShape
    case J(_, _) => JShape
    case S(_, _) => SShape
    case Z(_, _) => ZShape
  }

  /** Row 0, 1, 2, 3 of a table for North, East, South, West. */
  function RowIndex(o: Orientation): (k: nat)
    ensures k < 4 && AllOrientations()[k] == o
  {
    match o
    case North => 0
    case East => 1
    case South => 2
    case West => 3
  }

  /** The four offsets a tetromino occupies. */
  function Dirs(p: Piece): (row: seq<Dir>)
    requires !p.IsGarbage()
    ensures RowWellFormed(row)
  {
    ShapeTable(p)[RowIndex(GetOrientation(p))]
  }

  /** True when one of the four offsets of a row takes the anchor outside [0, i32::MAX]. */
  predicate SomeNegative(anchor: Cell, dirs: seq<Dir>)
    requires |dirs| == 4
  {
    LeavesRange(anchor, dirs[0]) || LeavesRange(anchor, dirs[1]) ||
    LeavesRange(anchor, dirs[2]) || LeavesRange(anchor, dirs[3])
  }

  /** Anchor plus each offset, as cells. */
  function Translate(anchor: Cell, dirs: seq<Dir>): (cells: seq<Cell>)
    requires forall i :: 0 <= i < |dirs| ==> anchor.x + dirs[i].x >= 0 && anchor.y + dirs[i].y >= 0
    ensures |cells| == |dirs|
    ensures forall i :: 0 <= i < |dirs| ==> cells[i].x == anchor.x + dirs[i].x && cells[i].y == anchor.y + dirs[i].y
  {
    if dirs == [] then []
    else [Cell(anchor.x + dirs[0].x, anchor.y + dirs[0].y)] + Translate(anchor, dirs[1..])
  }

  /** Pairwise distinct elements. */
  predicate Distinct<X(==)>(s: seq<X>)
  {
    forall i, j :: 0 <= i < j < |s| ==> s[i] != s[j]
  }

  /** The cells of a row placed at an anchor none of whose offsets goes
    * negative: four distinct cells, one of them the anchor. */
  function OffsetCells(anchor: Cell, dirs: seq<Dir>): (cells: seq<Cell>)
    requires anchor.x <= I32Max && anchor.y <= I32Max && RowWellFormed(dirs)
    requires !SomeNegative(anchor, dirs)
    ensures |cells| == 4
    ensures forall i :: 0 <= i < 4 ==> cells[i] == Cell(anchor.x + dirs[i].x, anchor.y + dirs[i].y)
    ensures Distinct(cells) && anchor in cells
  {
    RowFacts(dirs);
    var cells := Translate(anchor, dirs);
    assert anchor in cells by {
      var k :| 0 <= k < 4 && dirs[k] == Dir(0, 0);
      assert cells[k] == anchor;
    }
    cells
  }

  /**
   * The occupancy of a tetromino anchored at `anchor` with offset row `dirs`:
   * it fails when the anchor does not fit in an i32 or a coordinate is
   * negative, and otherwise is anchor + offset for each of the four offsets.
   */
  function RowOccupancy(anchor: Cell, dirs: seq<Dir>): (r: Result<seq<Cell>, PieceError>)
    requires RowWellFormed(dirs)
    ensures r.Ok? ==> |r.value| == 4 && anchor in r.value && Distinct(r.value)
  {
    if anchor.x > I32Max || anchor.y > I32Max then Err(ConversionOverflow)
    else if SomeNegative(anchor, dirs) then Err(NegativeOccupancy(dirs))
    else Ok(OffsetCells(anchor, dirs))
  }

  /** `Piece::get_occupancy` as a value: garbage occupies its anchor; a
    * tetromino the cells of its orientation's row placed at its anchor. */
  function Occupancy(p: Piece): (r: Result<seq<Cell>, PieceError>)
    ensures p.IsGarbage() ==> r == Ok([p.cell])
    ensures r.Ok? ==> p.cell in r.value && Distinct(r.value)
    ensures r.Ok? ==> |r.value| == if p.IsGarbage() then 1 else 4
  {
    if p.IsGarbage() then Ok([p.cell]) else RowOccupancy(p.cell, Dirs(p))
  }

  /**
   * A row's occupancy fails exactly when the anchor does not fit in an i32,
   * or some anchor + offset leaves [0, i32::MAX] (a negative result, or an
   * i32 overflow that wraps to a negative one); otherwise cell k is the anchor
   * plus offset k.
   */
  lemma RowOccupancyCharacterised(anchor: Cell, dirs: seq<Dir>)
    requires RowWellFormed(dirs)
    ensures RowOccupancy(anchor, dirs).Err? <==>
      (anchor.x > I32Max || anchor.y > I32Max ||
       exists i :: 0 <= i < 4 && LeavesRange(anchor, dirs[i]))
    ensures RowOccupancy(anchor, dirs).Ok? ==> forall i :: 0 <= i < 4 ==>
      RowOccupancy(anchor, dirs).value[i] == Cell(anchor.x + dirs[i].x, anchor.y + dirs[i].y)
  {
    if anchor.x <= I32Max && anchor.y <= I32Max && SomeNegative(anchor, dirs) {
      RowFacts(dirs);
    }
  }

  /** Two rows holding the same offsets, in any order, occupy the same cells. */
  lemma RowOccupancySameOffsets(anchor: Cell, r1: seq<Dir>, r2: seq<Dir>)
    requires RowWellFormed(r1) && RowWellFormed(r2)
    requires forall d :: d in r1 <==> d in r2
    ensures RowOccupancy(anchor, r1).Ok? <==> RowOccupancy(anchor, r2).Ok?
    ensures RowOccupancy(anchor, r1).Ok? ==>
      (set k | k in RowOccupancy(anchor, r1).value) == (set k | k in RowOccupancy(anchor, r2).value)
  {
    RowOccupancyCharacterised(anchor, r1);
    RowOccupancyCharacterised(anchor, r2);
    RowFacts(r1);
    RowFacts(r2);
    assert (exists i :: 0 <= i < 4 && LeavesRange(anchor, r1[i])) <==> (exists i :: 0 <= i < 4 && LeavesRange(anchor, r2[i])) by {
      if exists i :: 0 <= i < 4 && LeavesRange(anchor, r1[i]) {
        var i :| 0 <= i < 4 && LeavesRange(anchor, r1[i]);
        assert r1[i] in r2;
        var j :| 0 <= j < 4 && r2[j] == r1[i];
      }
      if exists i :: 0 <= i < 4 && LeavesRange(anchor, r2[i]) {
        var i :| 0 <= i < 4 && LeavesRange(anchor, r2[i]);
        assert r2[i] in r1;
        var j :| 0 <= j < 4 && r1[j] == r2[i];
      }
    }
    if RowOccupancy(anchor, r1).Ok? {
      forall k ensures k in RowOccupancy(anchor, r1).value <==> k in RowOccupancy(anchor, r2).value {
        OffsetCellsMembers(anchor, r1, k);
        OffsetCellsMembers(anchor, r2, k);
      }
    }
  }

  /** Anchor + offset leaves the range [0, i32::MAX] in some coordinate. */
  predicate LeavesRange(anchor: Cell, d: Dir)
  {
    !(0 <= anchor.x + d.x <= I32Max && 0 <= anchor.y + d.y <= I32Max)
  }

  /** A cell is among a row's cells exactly when it is the anchor plus one of the row's offsets. */
  lemma OffsetCellsMembers(anchor: Cell, dirs: seq<Dir>, k: Cell)
    requires anchor.x <= I32Max && anchor.y <= I32Max && RowWellFormed(dirs)
    requires !SomeNegative(anchor, dirs)
    ensures k in OffsetCells(anchor, dirs) <==> exists d :: d in dirs && k.x == anchor.x + d.x && k.y == anchor.y + d.y
  {
    TranslatedMembers(anchor, dirs, OffsetCells(anchor, dirs), k);
  }

  /** Cells that are an anchor plus each offset hold exactly the anchor plus some offset. */
  lemma TranslatedMembers(anchor: Cell, dirs: seq<Dir>, s: seq<Cell>, k: Cell)
    requires |s| == |dirs|
    requires forall i :: 0 <= i < |dirs| ==> anchor.x + dirs[i].x >= 0 && anchor.y + dirs[i].y >= 0
    requires forall i :: 0 <= i < |dirs| ==> s[i] == Cell(anchor.x + dirs[i].x, anchor.y + dirs[i].y)
    ensures k in s <==> exists d :: d in dirs && k.x == anchor.x + d.x && k.y == anchor.y + d.y
  {
    if k in s {
      var i :| 0 <= i < |s| && s[i] == k;
      assert dirs[i] in dirs && k.x == anchor.x + dirs[i].x && k.y == anchor.y + dirs[i].y;
    } else {
      forall d | d in dirs ensures !(k.x == anchor.x + d.x && k.y == anchor.y + d.y) {
        var i :| 0 <= i < |dirs| && dirs[i] == d;
        assert s[i] == Cell(anchor.x + d.x, anchor.y + d.y);
      }
    }
  }

  /** Every row of the O table holds the same four offsets. */
  lemma ORowOffsets(c: Cell, o: Orientation)
    ensures forall d :: d in Dirs(O(c, o)) <==> d in {Dir(0, 0), Dir(-1, 0), Dir(0, -1), Dir(-1, -1)}
  {
  }

  /** All four O rows describe the same set of cells, so O's occupancy does not
    * depend on its orientation. */
  lemma OccupancyOIgnoresOrientation(c: Cell, o1: Orientation, o2: Orientation)
    ensures Occupancy(O(c, o1)).Ok? <==> Occupancy(O(c, o2)).Ok?
    ensures Occupancy(O(c, o1)).Ok? ==>
      (set k | k in Occupancy(O(c, o1)).value) == (set k | k in Occupancy(O(c, o2)).value)
  {
    var r1, r2 := Dirs(O(c, o1)), Dirs(O(c, o2));
    ORowOffsets(c, o1);
    ORowOffsets(c, o2);
    RowOccupancySameOffsets(c, r1, r2);
  }

  /**
   * `Piece::get_occupancy`: garbage occupies its anchor; a tetromino runs the
   * loop over the offsets of its orientation's row.
   */
  method GetOccupancy(p: Piece) returns (r: Result<seq<Cell>, PieceError>)
    ensures r == Occupancy(p)
  {
    if p.IsGarbage() {
      return Ok([p.cell]);
    }
    var dirs := Dirs(p);
    r := GetRowOccupancy(p.cell, dirs);
  }

  /**
   * One step of the loop of `get_occupancy`: the anchor plus one offset as
   * i32 sums, or nothing when a sum is negative. A sum past i32::MAX wraps to
   * a negative value, so the step fails exactly when the true sum leaves
   * [0, i32::MAX].
   */
  method OffsetCell(anchor: Cell, d: Dir) returns (r: Option<Cell>)
    requires anchor.x <= I32Max && anchor.y <= I32Max && OffsetInRange(d)
    ensures r.None? <==> LeavesRange(anchor, d)
    ensures r.Some? ==> r.value == Cell(anchor.x + d.x, anchor.y + d.y)
  {
    var x := AddI32(anchor.x, d.x);
    var y := AddI32(anchor.y, d.y);
    if x < 0 || y < 0 {
      return None;
    }
    AddI32Sign(anchor.x, d.x);
    AddI32Sign(anchor.y, d.y);
    return Some(Cell(x, y));
  }

  /** Appending keeps every earlier element in place and puts the new one last. */
  lemma SnocAt<T>(s: seq<T>, x: T)
    ensures |s + [x]| == |s| + 1 && (s + [x])[|s|] == x
    ensures forall k :: 0 <= k < |s| ==> (s + [x])[k] == s[k]
  {
  }

  /**
   * The loop of `get_occupancy`: converts the anchor to i32 (failing when it
   * does not fit), adds each offset in turn, and returns early on the first
   * negative coordinate.
   */
  method GetRowOccupancy(anchor: Cell, dirs: seq<Dir>) returns (r: Result<seq<Cell>, PieceError>)
    requires RowWellFormed(dirs)
    ensures r == RowOccupancy(anchor, dirs)
  {
    RowFacts(dirs);
    var occupancy: seq<Cell> := [];
    for i := 0 to 4
      invariant (anchor.x <= I32Max && anchor.y <= I32Max) || i == 0
      invariant forall k :: 0 <= k < i ==> !LeavesRange(anchor, dirs[k])
      invariant |occupancy| == i
      invariant forall k :: 0 <= k < i ==> occupancy[k] == Cell(anchor.x + dirs[k].x, anchor.y + dirs[k].y)
    {
      if anchor.x > I32Max || anchor.y > I32Max {
        return Err(ConversionOverflow);
      }
      var cell := OffsetCell(anchor, dirs[i]);
      if cell.None? {
        return Err(NegativeOccupancy(dirs));
      }
      SnocAt(occupancy, cell.value);
      occupancy := occupancy + [cell.value];
    }
    assert !SomeNegative(anchor, dirs);
    var cells := OffsetCells(anchor, dirs);
    assert occupancy == cells;
    return Ok(occupancy);
  }
}
