/**
 * The occupancy grid of the board-construction engine: a row-major vector of
 * cell characters with bounds-checked access, all-or-nothing placement, undo
 * and removal, and the invariant that ties the grid to the list of placed
 * pieces.
 */
module Boards {
  import opened Wrappers
  import opened Pieces

  const EmptyCell: char := ' '
  const BlockedCell: char := 'B'

  datatype BoardError =
    | OutOfBounds(cell: Cell)
    | NotEmpty(piece: Piece, cell: Cell)
    | PieceFailed(error: PieceError)
    | NoMoves

  predicate InBounds(width: nat, height: nat, c: Cell)
  {
    c.x < width && c.y < height
  }

  /** Row-major position of a cell: `y * width + x`. */
  function Index(width: nat, c: Cell): nat
  {
    c.y * width + c.x
  }

  /** Every in-bounds cell has a position inside the `width * height` vector. */
  lemma IndexInRange(width: nat, height: nat, c: Cell)
    requires InBounds(width, height, c)
    ensures Index(width, c) < width * height
  {
    calc {
      Index(width, c);
    <  c.y * width + width;
    == (c.y + 1) * width;
    <= { MulLeq(c.y + 1, height, width); } height * width;
    }
  }

  lemma MulLeq(a: nat, b: nat, k: nat)
    requires a <= b
    ensures a * k <= b * k
  {
  }

  /** Distinct in-bounds cells have distinct positions. */
  lemma IndexInjective(width: nat, height: nat, c: Cell, d: Cell)
    requires InBounds(width, height, c) && InBounds(width, height, d)
    requires Index(width, c) == Index(width, d)
    ensures c == d
  {
    if c.y < d.y {
      MulLeq(c.y + 1, d.y, width);
      assert false;
    } else if d.y < c.y {
      MulLeq(d.y + 1, c.y, width);
      assert false;
    }
  }

  /** Some cell of `occ` sits at position `j`. */
  predicate Covers(width: nat, occ: seq<Cell>, j: int)
  {
    exists k :: 0 <= k < |occ| && Index(width, occ[k]) == j
  }

  predicate AllInBounds(width: nat, height: nat, occ: seq<Cell>)
  {
    forall k :: 0 <= k < |occ| ==> InBounds(width, height, occ[k])
  }

  /** For cells in bounds, covering a cell's position means containing the cell. */
  lemma CoversCell(width: nat, height: nat, occ: seq<Cell>, c: Cell)
    requires AllInBounds(width, height, occ) && InBounds(width, height, c)
    ensures Covers(width, occ, Index(width, c)) <==> c in occ
  {
    if Covers(width, occ, Index(width, c)) {
      var k :| 0 <= k < |occ| && Index(width, occ[k]) == Index(width, c);
      IndexInjective(width, height, occ[k], c);
    }
    if c in occ {
      var k :| 0 <= k < |occ| && occ[k] == c;
    }
  }

  /** The grid after a run of `*get_mut(cell)? = v` writes, and whether every write happened. */
  datatype Written<T> = Written(cells: seq<T>, complete: bool)

  /**
   * Writes `v` at each cell of `occ` in order through the bounds-checked
   * slot, stopping at the first cell out of bounds; the writes made before it
   * stay.
   */
  function WriteCells<T>(s: seq<T>, width: nat, height: nat, occ: seq<Cell>, v: T): (r: Written<T>)
    requires |s| == width * height
    ensures |r.cells| == |s|
    ensures r.complete <==> AllInBounds(width, height, occ)
    ensures forall j :: 0 <= j < |s| && !Covers(width, occ, j) ==> r.cells[j] == s[j]
    ensures r.complete ==> forall j :: 0 <= j < |s| && Covers(width, occ, j) ==> r.cells[j] == v
    ensures forall j :: 0 <= j < |s| ==> r.cells[j] == v || r.cells[j] == s[j]
    decreases |occ|
  {
    if occ == [] then Written(s, true)
    else
      var init := occ[..|occ| - 1];
      var c := occ[|occ| - 1];
      var prev := WriteCells(s, width, height, init, v);
      assert forall j :: Covers(width, init, j) ==> Covers(width, occ, j) by {
        forall j | Covers(width, init, j) ensures Covers(width, occ, j) {
          var k :| 0 <= k < |init| && Index(width, init[k]) == j;
          assert occ[k] == init[k];
        }
      }
      assert forall j :: Covers(width, occ, j) ==> Covers(width, init, j) || j == Index(width, c) by {
        forall j | Covers(width, occ, j) ensures Covers(width, init, j) || j == Index(width, c) {
          var k :| 0 <= k < |occ| && Index(width, occ[k]) == j;
          if k < |init| {
            assert init[k] == occ[k];
          }
        }
      }
      if !prev.complete then prev
      else if !InBounds(width, height, c) then Written(prev.cells, false)
      else
        IndexInRange(width, height, c);
        assert AllInBounds(width, height, occ) by {
          forall k | 0 <= k < |occ| ensures InBounds(width, height, occ[k]) {
            if k < |init| {
              assert init[k] == occ[k];
            }
          }
        }
        Written(prev.cells[Index(width, c) := v], true)
  }

  /** Once a write fails, the remaining cells are not written. */
  lemma {:induction false} WriteCellsStops<T>(s: seq<T>, width: nat, height: nat, occ: seq<Cell>, v: T, i: nat)
    requires |s| == width * height
    requires i < |occ| && !WriteCells(s, width, height, occ[..i + 1], v).complete
    ensures WriteCells(s, width, height, occ, v) == WriteCells(s, width, height, occ[..i + 1], v)
    decreases |occ|
  {
    if i + 1 == |occ| {
      assert occ[..i + 1] == occ;
    } else {
      var init := occ[..|occ| - 1];
      assert init[..i + 1] == occ[..i + 1];
      WriteCellsStops(s, width, height, init, v, i);
    }
  }

  /** One more write on a grid whose earlier writes all happened. */
  lemma WriteCellsStep<T>(s: seq<T>, width: nat, height: nat, occ: seq<Cell>, v: T, i: nat)
    requires |s| == width * height
    requires i < |occ| && WriteCells(s, width, height, occ[..i], v).complete
    requires InBounds(width, height, occ[i])
    ensures Index(width, occ[i]) < |s|
    ensures WriteCells(s, width, height, occ[..i + 1], v) ==
      Written(WriteCells(s, width, height, occ[..i], v).cells[Index(width, occ[i]) := v], true)
  {
    IndexInRange(width, height, occ[i]);
    assert occ[..i + 1][..i] == occ[..i];
  }

  /** The grid holds `ch` at the cell's position. */
  predicate HoldsAt(cells: seq<char>, width: nat, c: Cell, ch: char)
  {
    Index(width, c) < |cells| && cells[Index(width, c)] == ch
  }

  /** Every cell of `occ` is in bounds and empty. */
  predicate Vacant(cells: seq<char>, width: nat, height: nat, occ: seq<Cell>)
  {
    AllInBounds(width, height, occ) && forall k :: 0 <= k < |occ| ==> HoldsAt(cells, width, occ[k], EmptyCell)
  }

  /** A piece that may be placed: its occupancy succeeds and every cell is in bounds and empty. */
  predicate Placeable(cells: seq<char>, width: nat, height: nat, p: Piece)
    requires |cells| == width * height
  {
    Occupancy(p).Ok? && Vacant(cells, width, height, Occupancy(p).value)
  }

  /** The piece's occupancy is written into the grid with its character. */
  predicate Occupies(cells: seq<char>, width: nat, height: nat, q: Piece)
    requires |cells| == width * height
  {
    && Occupancy(q).Ok?
    && AllInBounds(width, height, Occupancy(q).value)
    && forall k :: 0 <= k < |Occupancy(q).value| ==> HoldsAt(cells, width, Occupancy(q).value[k], GetChar(q))
  }

  /** No cell belongs to both pieces. */
  predicate DisjointPieces(q1: Piece, q2: Piece)
  {
    Occupancy(q1).Ok? && Occupancy(q2).Ok? ==>
      forall c :: c in Occupancy(q1).value ==> c !in Occupancy(q2).value
  }

  /** Position `j` is one of the piece's cells. */
  predicate Owns(width: nat, q: Piece, j: int)
  {
    Occupancy(q).Ok? && Covers(width, Occupancy(q).value, j)
  }

  /**
   * The grid agrees with the piece list: no piece is listed twice, every
   * listed piece is written into the grid with its character, no two listed
   * pieces share a cell, and every non-empty cell belongs to a listed piece.
   */
  ghost predicate Consistent(cells: seq<char>, pieces: seq<Piece>, width: nat, height: nat)
    requires |cells| == width * height
  {
    && Distinct(pieces)
    && (forall q :: q in pieces ==> Occupies(cells, width, height, q))
    && (forall q1, q2 :: q1 in pieces && q2 in pieces && q1 != q2 ==> DisjointPieces(q1, q2))
    && AllOwned(cells, pieces, width)
  }

  /** Every non-empty cell belongs to a listed piece. */
  ghost predicate AllOwned(cells: seq<char>, pieces: seq<Piece>, width: nat)
  {
    forall j :: 0 <= j < |cells| && cells[j] != EmptyCell ==> exists q :: q in pieces && Owns(width, q, j)
  }

  /** Cells written by a placement belong to the placed piece; all others keep their owner. */
  lemma PlacedOwned(cells: seq<char>, pieces: seq<Piece>, width: nat, height: nat, p: Piece)
    requires |cells| == width * height && Placeable(cells, width, height, p)
    requires AllOwned(cells, pieces, width)
    ensures AllOwned(PlacedCells(cells, width, height, p), pieces + [p], width)
  {
    var occ := Occupancy(p).value;
    var after := PlacedCells(cells, width, height, p);
    forall j | 0 <= j < |after| && after[j] != EmptyCell ensures exists q :: q in pieces + [p] && Owns(width, q, j) {
      if Covers(width, occ, j) {
        assert p in pieces + [p] && Owns(width, p, j);
      } else {
        assert cells[j] == after[j];
        var q :| q in pieces && Owns(width, q, j);
        assert q in pieces + [p];
      }
    }
  }

  /** A new board is consistent with its empty piece list. */
  lemma NewBoardConsistent(width: nat, height: nat)
    ensures Consistent(seq(width * height, _ => EmptyCell), [], width, height)
  {
  }

  /** Writing a piece's character into the occupied cells: the grid after a successful place. */
  function PlacedCells(cells: seq<char>, width: nat, height: nat, p: Piece): (r: seq<char>)
    requires |cells| == width * height && Placeable(cells, width, height, p)
    ensures |r| == |cells|
  {
    WriteCells(cells, width, height, Occupancy(p).value, GetChar(p)).cells
  }

  /** Blanking a piece's occupied cells. */
  function ClearedCells(cells: seq<char>, width: nat, height: nat, p: Piece): (r: seq<char>)
    requires |cells| == width * height && Occupancy(p).Ok?
    ensures |r| == |cells|
  {
    WriteCells(cells, width, height, Occupancy(p).value, EmptyCell).cells
  }

  /** A cell of a piece written into the grid is non-empty, so it is not among the cells of a placeable piece. */
  lemma OccupiedNotUnder(cells: seq<char>, width: nat, height: nat, p: Piece, q: Piece, c: Cell)
    requires |cells| == width * height
    requires Placeable(cells, width, height, p) && Occupies(cells, width, height, q)
    requires c in Occupancy(q).value
    ensures c !in Occupancy(p).value && !Covers(width, Occupancy(p).value, Index(width, c))
  {
    var occ := Occupancy(p).value;
    var k :| 0 <= k < |Occupancy(q).value| && Occupancy(q).value[k] == c;
    GetCharDistinct(q, q);
    assert HoldsAt(cells, width, c, GetChar(q));
    CoversCell(width, height, occ, c);
  }

  /** Writes that miss every cell of a piece keep it written into the grid. */
  lemma OccupiesAfterWrite(cells: seq<char>, width: nat, height: nat, occ: seq<Cell>, v: char, q: Piece)
    requires |cells| == width * height && Occupies(cells, width, height, q)
    requires forall c :: c in Occupancy(q).value ==> !Covers(width, occ, Index(width, c))
    ensures Occupies(WriteCells(cells, width, height, occ, v).cells, width, height, q)
  {
    var after := WriteCells(cells, width, height, occ, v).cells;
    var occQ := Occupancy(q).value;
    forall k | 0 <= k < |occQ| ensures HoldsAt(after, width, occQ[k], GetChar(q)) {
      assert occQ[k] in occQ;
      assert HoldsAt(cells, width, occQ[k], GetChar(q));
    }
  }

  /** A placed piece is written into the grid. */
  lemma PlacedOccupies(cells: seq<char>, width: nat, height: nat, p: Piece)
    requires |cells| == width * height && Placeable(cells, width, height, p)
    ensures Occupies(PlacedCells(cells, width, height, p), width, height, p)
  {
    var occ := Occupancy(p).value;
    var after := PlacedCells(cells, width, height, p);
    forall k | 0 <= k < |occ| ensures HoldsAt(after, width, occ[k], GetChar(p)) {
      assert HoldsAt(cells, width, occ[k], EmptyCell);
      assert Covers(width, occ, Index(width, occ[k]));
    }
  }

  /** Appending an element not in a list of distinct elements keeps them distinct. */
  lemma DistinctAppend<X>(s: seq<X>, x: X)
    requires Distinct(s) && x !in s
    ensures Distinct(s + [x])
  {
    var t := s + [x];
    forall i, j | 0 <= i < j < |t| ensures t[i] != t[j] {
      if j == |s| {
        assert t[i] == s[i];
      } else {
        assert t[i] == s[i] && t[j] == s[j];
      }
    }
  }

  /** After a placement every listed piece, old or new, is written into the grid. */
  lemma PlacedAllOccupy(cells: seq<char>, pieces: seq<Piece>, width: nat, height: nat, p: Piece)
    requires |cells| == width * height && Placeable(cells, width, height, p)
    requires forall q :: q in pieces ==> Occupies(cells, width, height, q)
    ensures forall q :: q in pieces + [p] ==> Occupies(PlacedCells(cells, width, height, p), width, height, q)
  {
    var occ := Occupancy(p).value;
    forall q | q in pieces + [p] ensures Occupies(PlacedCells(cells, width, height, p), width, height, q) {
      if q in pieces {
        forall c | c in Occupancy(q).value ensures !Covers(width, occ, Index(width, c)) {
          OccupiedNotUnder(cells, width, height, p, q, c);
        }
        OccupiesAfterWrite(cells, width, height, occ, GetChar(p), q);
      } else {
        PlacedOccupies(cells, width, height, p);
      }
    }
  }

  /** The placed piece shares no cell with a listed piece. */
  lemma PlacedDisjoint(cells: seq<char>, pieces: seq<Piece>, width: nat, height: nat, p: Piece)
    requires |cells| == width * height && Placeable(cells, width, height, p)
    requires forall q :: q in pieces ==> Occupies(cells, width, height, q)
    requires forall q1, q2 :: q1 in pieces && q2 in pieces && q1 != q2 ==> DisjointPieces(q1, q2)
    ensures p !in pieces
    ensures forall q1, q2 :: q1 in pieces + [p] && q2 in pieces + [p] && q1 != q2 ==> DisjointPieces(q1, q2)
  {
    var occ := Occupancy(p).value;
    if p in pieces {
      OccupiedNotUnder(cells, width, height, p, p, p.cell);
    }
    forall q | q in pieces ensures DisjointPieces(q, p) && DisjointPieces(p, q) {
      forall c | c in Occupancy(q).value ensures c !in occ {
        OccupiedNotUnder(cells, width, height, p, q, c);
      }
    }
    forall q1, q2 | q1 in pieces + [p] && q2 in pieces + [p] && q1 != q2 ensures DisjointPieces(q1, q2) {
      if q1 in pieces && q2 in pieces {
      } else if q1 in pieces {
        assert q2 == p;
      } else {
        assert q1 == p && q2 in pieces;
      }
    }
  }

  /** Placing a placeable piece keeps the grid consistent with the extended piece list. */
  lemma PlaceKeepsConsistent(cells: seq<char>, pieces: seq<Piece>, width: nat, height: nat, p: Piece)
    requires |cells| == width * height
    requires Consistent(cells, pieces, width, height) && Placeable(cells, width, height, p)
    ensures Consistent(PlacedCells(cells, width, height, p), pieces + [p], width, height)
  {
    PlacedAllOccupy(cells, pieces, width, height, p);
    PlacedDisjoint(cells, pieces, width, height, p);
    DistinctAppend(pieces, p);
    PlacedOwned(cells, pieces, width, height, p);
  }

  /** In a list of distinct pieces, the prefix without the last one holds every other piece. */
  lemma DropLast(pieces: seq<Piece>)
    requires Distinct(pieces) && pieces != []
    ensures Distinct(pieces[..|pieces| - 1])
    ensures forall q :: q in pieces[..|pieces| - 1] <==> q in pieces && q != pieces[|pieces| - 1]
  {
    var n := |pieces|;
    forall q ensures q in pieces[..n - 1] <==> q in pieces && q != pieces[n - 1] {
      if q in pieces && q != pieces[n - 1] {
        var k :| 0 <= k < n && pieces[k] == q;
        assert pieces[..n - 1][k] == q;
      }
      if q in pieces[..n - 1] {
        var k :| 0 <= k < n - 1 && pieces[..n - 1][k] == q;
        assert pieces[k] == q;
      }
    }
  }

  /** Blanking a listed piece's cells leaves every other listed piece written into the grid. */
  lemma ClearedAllOccupy(cells: seq<char>, pieces: seq<Piece>, width: nat, height: nat, p: Piece, rest: seq<Piece>)
    requires |cells| == width * height && p in pieces
    requires forall q :: q in pieces ==> Occupies(cells, width, height, q)
    requires forall q1, q2 :: q1 in pieces && q2 in pieces && q1 != q2 ==> DisjointPieces(q1, q2)
    requires forall q :: q in rest ==> q in pieces && q != p
    ensures Occupancy(p).Ok? && AllInBounds(width, height, Occupancy(p).value)
    ensures forall q :: q in rest ==> Occupies(ClearedCells(cells, width, height, p), width, height, q)
  {
    assert Occupies(cells, width, height, p);
    var occ := Occupancy(p).value;
    forall q | q in rest ensures Occupies(ClearedCells(cells, width, height, p), width, height, q) {
      assert Occupies(cells, width, height, q) && DisjointPieces(q, p);
      forall c | c in Occupancy(q).value ensures !Covers(width, occ, Index(width, c)) {
        var k :| 0 <= k < |Occupancy(q).value| && Occupancy(q).value[k] == c;
        CoversCell(width, height, occ, c);
      }
      OccupiesAfterWrite(cells, width, height, occ, EmptyCell, q);
    }
  }

  /** After blanking a piece's cells, every non-empty cell still belongs to one of the other pieces. */
  lemma ClearedOwned(cells: seq<char>, pieces: seq<Piece>, width: nat, height: nat, p: Piece, rest: seq<Piece>)
    requires |cells| == width * height
    requires Occupancy(p).Ok? && AllInBounds(width, height, Occupancy(p).value)
    requires AllOwned(cells, pieces, width)
    requires forall q :: q in pieces && q != p ==> q in rest
    ensures AllOwned(ClearedCells(cells, width, height, p), rest, width)
  {
    var occ := Occupancy(p).value;
    var after := ClearedCells(cells, width, height, p);
    forall j | 0 <= j < |after| && after[j] != EmptyCell ensures exists q :: q in rest && Owns(width, q, j) {
      assert !Covers(width, occ, j);
      var q :| q in pieces && Owns(width, q, j);
      assert q != p;
    }
  }

  /**
   * Blanking the cells of a listed piece and dropping it from the list keeps
   * the grid consistent; `rest` is the list without that piece.
   */
  lemma ClearKeepsConsistent(cells: seq<char>, pieces: seq<Piece>, width: nat, height: nat, p: Piece, rest: seq<Piece>)
    requires |cells| == width * height && Consistent(cells, pieces, width, height) && p in pieces
    requires Distinct(rest) && forall q :: q in rest <==> q in pieces && q != p
    ensures Occupancy(p).Ok? && AllInBounds(width, height, Occupancy(p).value)
    ensures Consistent(ClearedCells(cells, width, height, p), rest, width, height)
  {
    ClearedAllOccupy(cells, pieces, width, height, p, rest);
    ClearedOwned(cells, pieces, width, height, p, rest);
  }

  /** Writing `v` over cells that all held `blank`, then `blank` over the same cells, restores the grid. */
  lemma WriteTwiceRestores<T>(s: seq<T>, width: nat, height: nat, occ: seq<Cell>, v: T, blank: T)
    requires |s| == width * height && AllInBounds(width, height, occ)
    requires forall j :: 0 <= j < |s| && Covers(width, occ, j) ==> s[j] == blank
    ensures |WriteCells(s, width, height, occ, v).cells| == width * height
    ensures WriteCells(WriteCells(s, width, height, occ, v).cells, width, height, occ, blank).cells == s
  {
  }

  /** After placing a piece, blanking its cells restores the grid exactly. */
  lemma PlaceThenClear(cells: seq<char>, width: nat, height: nat, p: Piece)
    requires |cells| == width * height && Placeable(cells, width, height, p)
    ensures ClearedCells(PlacedCells(cells, width, height, p), width, height, p) == cells
  {
    var occ := Occupancy(p).value;
    forall j | 0 <= j < |cells| && Covers(width, occ, j) ensures cells[j] == EmptyCell {
      var k :| 0 <= k < |occ| && Index(width, occ[k]) == j;
      assert HoldsAt(cells, width, occ[k], EmptyCell);
    }
    WriteTwiceRestores(cells, width, height, occ, GetChar(p), EmptyCell);
  }

  /** A piece placed at an anchor blocks every later piece with the same anchor. */
  lemma SameAnchorBlocked(cells: seq<char>, width: nat, height: nat, p: Piece, q: Piece)
    requires |cells| == width * height && Placeable(cells, width, height, p)
    requires q.cell == p.cell
    ensures !Placeable(PlacedCells(cells, width, height, p), width, height, q)
  {
    var occ := Occupancy(p).value;
    var placed := PlacedCells(cells, width, height, p);
    GetCharDistinct(p, p);
    PlacedOccupies(cells, width, height, p);
    var m :| 0 <= m < |occ| && occ[m] == p.cell;
    assert HoldsAt(placed, width, occ[m], GetChar(p));
    if Occupancy(q).Ok? {
      FilledNotVacant(placed, width, height, Occupancy(q).value, q.cell);
    }
  }

  /** A cell of `occ` that is not empty makes `occ` not vacant. */
  lemma FilledNotVacant(cells: seq<char>, width: nat, height: nat, occ: seq<Cell>, c: Cell)
    requires c in occ && !HoldsAt(cells, width, c, EmptyCell)
    ensures !Vacant(cells, width, height, occ)
  {
    var k :| 0 <= k < |occ| && occ[k] == c;
  }

  /** Drops every entry equal to `x`, keeping the others in order (`Vec::retain`). */
  function Without<T(==,!new)>(s: seq<T>, x: T): (r: seq<T>)
    ensures forall y :: y in r <==> y in s && y != x
    ensures |r| <= |s|
    ensures x !in s ==> r == s
    ensures Distinct(s) ==> Distinct(r)
  {
    if s == [] then []
    else if s[0] == x then Without(s[1..], x)
    else
      var tail := Without(s[1..], x);
      assert Distinct(s) ==> s[0] !in s[1..];
      assert Distinct(s) ==> Distinct(s[1..]) by {
        if Distinct(s) {
          forall i, j | 0 <= i < j < |s[1..]| ensures s[1..][i] != s[1..][j] {
            assert s[1..][i] == s[i + 1] && s[1..][j] == s[j + 1];
          }
        }
      }
      [s[0]] + tail
  }

  /** The cells of an I lying North (horizontal) at (x, 0), for a small x. */
  lemma HorizontalI(x: nat)
    requires x <= 100
    ensures Occupancy(I(Cell(x, 0), North)) == Ok([Cell(x, 0), Cell(x + 1, 0), Cell(x + 2, 0), Cell(x + 3, 0)])
  {
    var p := I(Cell(x, 0), North);
    assert Dirs(p) == [Dir(0, 0), Dir(1, 0), Dir(2, 0), Dir(3, 0)];
    assert !SomeNegative(p.cell, Dirs(p));
    var cells := OffsetCells(p.cell, Dirs(p));
    assert cells == [Cell(x, 0), Cell(x + 1, 0), Cell(x + 2, 0), Cell(x + 3, 0)];
  }

  /** On a new board, every cell in bounds is empty. */
  lemma EmptyBoardVacant(width: nat, height: nat, occ: seq<Cell>)
    requires AllInBounds(width, height, occ)
    ensures Vacant(seq(width * height, _ => EmptyCell), width, height, occ)
  {
    forall k | 0 <= k < |occ| ensures HoldsAt(seq(width * height, _ => EmptyCell), width, occ[k], EmptyCell) {
      IndexInRange(width, height, occ[k]);
    }
  }

  /** The tests of the program on an empty 10 x 20 board: an I at (1, 0) fits. */
  lemma PlaceOnEmptyBoard()
    ensures Placeable(seq(200, _ => EmptyCell), 10, 20, I(Cell(1, 0), North))
  {
    HorizontalI(1);
    EmptyBoardVacant(10, 20, Occupancy(I(Cell(1, 0), North)).value);
  }

  /** An I at (8, 0) would reach x = 10, outside a board 10 wide. */
  lemma PlaceOutOfBoundsHigh()
    ensures !Placeable(seq(200, _ => EmptyCell), 10, 20, I(Cell(8, 0), North))
  {
    HorizontalI(8);
    assert !InBounds(10, 20, Occupancy(I(Cell(8, 0), North)).value[2]);
  }

  /** Placing the same I twice, or a T over it at the same anchor, fails the second time. */
  lemma PlaceOverlapTests()
    ensures Placeable(seq(200, _ => EmptyCell), 10, 20, I(Cell(2, 0), North))
    ensures !Placeable(PlacedCells(seq(200, _ => EmptyCell), 10, 20, I(Cell(2, 0), North)), 10, 20, I(Cell(2, 0), North))
    ensures !Placeable(PlacedCells(seq(200, _ => EmptyCell), 10, 20, I(Cell(2, 0), North)), 10, 20, T(Cell(2, 0), North))
  {
    var empty: seq<char> := seq(200, _ => EmptyCell);
    var p := I(Cell(2, 0), North);
    HorizontalI(2);
    EmptyBoardVacant(10, 20, Occupancy(p).value);
    SameAnchorBlocked(empty, 10, 20, p, p);
    SameAnchorBlocked(empty, 10, 20, p, T(Cell(2, 0), North));
  }

  /** The board of `approx_image`: a grid of characters and the pieces placed on it. */
  class Board {
    var cells: seq<char>
    var pieces: seq<Piece>
    const width: nat
    const height: nat

    ghost predicate Valid()
      reads this
    {
      |cells| == width * height
    }

    /** `Board::new`: an all-empty grid and no pieces. */
    constructor(w: nat, h: nat)
      ensures Valid() && width == w && height == h
      ensures cells == seq(w * h, _ => EmptyCell) && pieces == []
      ensures Consistent(cells, pieces, width, height)
    {
      width, height := w, h;
      cells := seq(w * h, _ => EmptyCell);
      pieces := [];
      NewBoardConsistent(w, h);
    }

    /** `Board::get`: the character at a cell, or an error out of bounds. */
    function Get(c: Cell): (r: Result<char, BoardError>)
      reads this
      requires Valid()
      ensures r.Err? <==> !InBounds(width, height, c)
      ensures r.Ok? ==> Index(width, c) < |cells| && r.value == cells[Index(width, c)]
    {
      if !(c.x < width && c.y < height) then Err(OutOfBounds(c))
      else
        IndexInRange(width, height, c);
        Ok(cells[c.y * width + c.x])
    }

    /** `Board::get_mut`: the position a write to the cell goes to, or an error out of bounds. */
    function GetMut(c: Cell): (r: Result<nat, BoardError>)
      reads this
      requires Valid()
      ensures r.Err? <==> !InBounds(width, height, c)
      ensures r.Ok? ==> r.value < |cells| && r.value == Index(width, c)
    {
      if !(c.x < width && c.y < height) then Err(OutOfBounds(c))
      else
        IndexInRange(width, height, c);
        Ok(c.y * width + c.x)
    }

    /** `Board::can_place`. */
    method CanPlace(p: Piece) returns (b: bool)
      requires Valid()
      ensures b == Placeable(cells, width, height, p)
    {
      var toOccupy := GetOccupancy(p);
      if toOccupy.Err? {
        return false;
      }
      var occ := toOccupy.value;
      for i := 0 to |occ|
        invariant forall k :: 0 <= k < i ==> InBounds(width, height, occ[k]) && HoldsAt(cells, width, occ[k], EmptyCell)
      {
        var curr := Get(occ[i]);
        if curr.Err? || curr.value != EmptyCell {
          return false;
        }
      }
      return true;
    }

    /** `Board::place`: all checks precede the writes, so a failure changes nothing. */
    method Place(p: Piece) returns (r: Result<Unit, BoardError>)
      requires Valid()
      modifies this
      ensures Valid()
      ensures r.Ok? <==> old(Placeable(cells, width, height, p))
      ensures r.Ok? ==> cells == PlacedCells(old(cells), width, height, p) && pieces == old(pieces) + [p]
      ensures r.Err? ==> cells == old(cells) && pieces == old(pieces)
      ensures Occupancy(p).Err? ==> r == Err(PieceFailed(Occupancy(p).error))
      ensures old(Consistent(cells, pieces, width, height)) ==> Consistent(cells, pieces, width, height)
    {
      var toOccupy := GetOccupancy(p);
      if toOccupy.Err? {
        return Err(PieceFailed(toOccupy.error));
      }
      var occ := toOccupy.value;
      var vacant := CheckVacant(p, occ);
      if vacant.Err? {
        return Err(vacant.error);
      }
      ghost var before := cells;
      var written := WriteThrough(occ, GetChar(p));
      if Consistent(before, pieces, width, height) {
        PlaceKeepsConsistent(before, pieces, width, height, p);
      }
      pieces := pieces + [p];
      return Ok(Unit);
    }

    /** The checking loop of `Board::place`: the first cell of `occ` out of bounds or already filled is an error. */
    method CheckVacant(p: Piece, occ: seq<Cell>) returns (r: Result<Unit, BoardError>)
      requires Valid()
      ensures r.Ok? <==> Vacant(cells, width, height, occ)
    {
      for i := 0 to |occ|
        invariant forall k :: 0 <= k < i ==> InBounds(width, height, occ[k]) && HoldsAt(cells, width, occ[k], EmptyCell)
      {
        var curr := Get(occ[i]);
        if curr.Err? {
          return Err(curr.error);
        }
        if curr.value != EmptyCell {
          return Err(NotEmpty(p, occ[i]));
        }
      }
      return Ok(Unit);
    }

    /** Writes `v` into each cell of `occ` through `get_mut`, returning early at the first cell out of bounds. */
    method WriteThrough(occ: seq<Cell>, v: char) returns (r: Result<Unit, BoardError>)
      requires Valid()
      modifies this
      ensures Valid() && pieces == old(pieces)
      ensures cells == WriteCells(old(cells), width, height, occ, v).cells
      ensures r.Ok? <==> AllInBounds(width, height, occ)
    {
      ghost var before := cells;
      for i := 0 to |occ|
        invariant |cells| == |before| && pieces == old(pieces)
        invariant WriteCells(before, width, height, occ[..i], v).complete
        invariant cells == WriteCells(before, width, height, occ[..i], v).cells
      {
        var slot := GetMut(occ[i]);
        if slot.Err? {
          assert !WriteCells(before, width, height, occ[..i + 1], v).complete by {
            assert occ[..i + 1][..i] == occ[..i];
          }
          assert WriteCells(before, width, height, occ[..i + 1], v).cells == cells by {
            assert occ[..i + 1][..i] == occ[..i];
          }
          WriteCellsStops(before, width, height, occ, v, i);
          return Err(slot.error);
        }
        WriteCellsStep(before, width, height, occ, v, i);
        cells := cells[slot.value := v];
      }
      assert occ[..|occ|] == occ;
      return Ok(Unit);
    }

    /** `Board::undo_last_move`: pops the last piece and blanks its cells. */
    method UndoLastMove() returns (r: Result<Unit, BoardError>)
      requires Valid()
      modifies this
      ensures Valid()
      ensures old(pieces) == [] ==> r == Err(NoMoves) && cells == old(cells) && pieces == old(pieces)
      ensures old(pieces) != [] ==> pieces == old(pieces[..|pieces| - 1])
      ensures old(pieces) != [] && Occupancy(old(pieces[|pieces| - 1])).Err? ==> r.Err? && cells == old(cells)
      ensures old(pieces) != [] && Occupancy(old(pieces[|pieces| - 1])).Ok? ==>
        var occ := Occupancy(old(pieces[|pieces| - 1])).value;
        cells == WriteCells(old(cells), width, height, occ, EmptyCell).cells &&
        (r.Ok? <==> AllInBounds(width, height, occ))
      ensures old(Consistent(cells, pieces, width, height)) && old(pieces) != [] ==>
        r.Ok? && Consistent(cells, pieces, width, height)
    {
      if |pieces| == 0 {
        return Err(NoMoves);
      }
      ghost var consistent := Consistent(cells, pieces, width, height);
      ghost var (before, listed) := (cells, pieces);
      var piece := pieces[|pieces| - 1];
      pieces := pieces[..|pieces| - 1];
      if consistent {
        DropLast(listed);
        ClearKeepsConsistent(before, listed, width, height, piece, pieces);
      }
      var toClear := GetOccupancy(piece);
      if toClear.Err? {
        return Err(PieceFailed(toClear.error));
      }
      r := WriteThrough(toClear.value, EmptyCell);
    }

    /** `Board::remove_piece`: blanks the piece's cells and drops every equal entry from the list. */
    method RemovePiece(p: Piece) returns (r: Result<Unit, BoardError>)
      requires Valid()
      modifies this
      ensures Valid()
      ensures Occupancy(p).Err? ==> r.Err? && cells == old(cells) && pieces == old(pieces)
      ensures Occupancy(p).Ok? ==>
        cells == WriteCells(old(cells), width, height, Occupancy(p).value, EmptyCell).cells &&
        (r.Ok? <==> AllInBounds(width, height, Occupancy(p).value)) &&
        pieces == if r.Ok? then Without(old(pieces), p) else old(pieces)
      ensures old(Consistent(cells, pieces, width, height)) && p in old(pieces) ==>
        r.Ok? && Consistent(cells, pieces, width, height)
    {
      var toClear := GetOccupancy(p);
      if toClear.Err? {
        return Err(PieceFailed(toClear.error));
      }
      ghost var consistent := Consistent(cells, pieces, width, height) && p in pieces;
      ghost var before := cells;
      r := WriteThrough(toClear.value, EmptyCell);
      if r.Ok? {
        if consistent {
          ClearKeepsConsistent(before, pieces, width, height, p, Without(pieces, p));
        }
        pieces := Without(pieces, p);
      } else if consistent {
        ClearKeepsConsistent(before, pieces, width, height, p, Without(pieces, p));
      }
    }
  }
}
