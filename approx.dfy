/**
 * The approximation loop of `approx_image`: cells come off a max-heap; at
 * each empty cell every skin and every candidate piece anchored there is
 * scored, and the first candidate with the smallest difference below
 * `f64::MAX` is placed with its skin.
 *
 * The score (`avg_piece_pixel_diff`) is a parameter of the model: it reads
 * the source image and the average pixel grid, which it captures, and the
 * board's cells and skin ids, which it is given.
 */
module Approx {
  import opened Wrappers
  import opened Pieces
  import opened Boards
  import opened Skins
  import opened CellHeaps

  /** `f64::MAX`, (2 - 2^-52) * 2^1023, written out exactly. */
  const F64Max: real := 179769313486231570814527423731704356798070567525844996598917476803157260780028538760589558632766878171540458953514382464234321326889464182768467546703537516986049910576551282076245490090389328944075868508455133942304583236903222948165808559332123348274797826204144723168738177180919299881250404026184124858368.0

  /** The difference of a piece drawn with a skin from the source image, or None where the program returns an error. */
  type Cost = (Piece, BlockSkin, seq<char>, seq<nat>) -> Option<real>

  datatype ApproxError = CostFailed | DimensionOverflow

  /** A piece to try, with the skin to draw it in. */
  datatype Candidate = Candidate(piece: Piece, skin: BlockSkin)

  /** `create_skins` numbers the skins by their position in the list, all below `usize::MAX`. */
  predicate SkinIdsValid(skins: seq<BlockSkin>)
  {
    forall s :: 0 <= s < |skins| ==> skins[s].id == s && s < InvalidSkinId
  }

  /** The seven tetrominoes at one anchor and orientation, in `all_normal` order, with a skin. */
  function OrientationCandidates(skin: BlockSkin, cell: Cell, o: Orientation): (r: seq<Candidate>)
    ensures |r| == 7
    ensures forall k :: 0 <= k < |r| ==> r[k].skin == skin && r[k].piece.cell == cell && !r[k].piece.IsGarbage()
  {
    var pieces := AllNormal(cell, o);
    seq(7, k requires 0 <= k < 7 => Candidate(pieces[k], skin))
  }

  /**
   * What `process_heap` tries with one skin: Gray then Black when garbage is
   * allowed, then the tetrominoes for North, East, South and West.
   */
  function SkinCandidates(skin: BlockSkin, cell: Cell, useGarbage: bool): (r: seq<Candidate>)
    ensures |r| == if useGarbage then 30 else 28
    ensures forall k :: 0 <= k < |r| ==> r[k].skin == skin && r[k].piece.cell == cell
    ensures forall k :: 0 <= k < |r| && r[k].piece.IsGarbage() ==> useGarbage
    ensures useGarbage ==> r[0] == Candidate(Gray(cell), skin)
  {
    var garbage := if useGarbage then [Candidate(Gray(cell), skin), Candidate(Black(cell), skin)] else [];
    garbage + OrientationCandidates(skin, cell, North) + OrientationCandidates(skin, cell, East)
      + OrientationCandidates(skin, cell, South) + OrientationCandidates(skin, cell, West)
  }

  /** Every candidate at a cell, skin by skin in list order. */
  function Candidates(skins: seq<BlockSkin>, cell: Cell, useGarbage: bool): (r: seq<Candidate>)
    ensures forall k :: 0 <= k < |r| ==> r[k].skin in skins && r[k].piece.cell == cell
    ensures forall k :: 0 <= k < |r| && r[k].piece.IsGarbage() ==> useGarbage
  {
    if skins == [] then []
    else
      var init := Candidates(skins[..|skins| - 1], cell, useGarbage);
      var last := SkinCandidates(skins[|skins| - 1], cell, useGarbage);
      assert forall s :: s in skins[..|skins| - 1] ==> s in skins;
      init + last
  }

  /** With garbage allowed, Gray in the first skin is among the candidates. */
  lemma {:induction false} GrayIsCandidate(skins: seq<BlockSkin>, cell: Cell)
    requires |skins| > 0
    ensures Candidate(Gray(cell), skins[0]) in Candidates(skins, cell, true)
  {
    if |skins| == 1 {
      assert Candidates(skins, cell, true)[0] == Candidate(Gray(cell), skins[0]);
    } else {
      var init := skins[..|skins| - 1];
      GrayIsCandidate(init, cell);
      assert init[0] == skins[0];
    }
  }

  /** A candidate is tried when it is garbage or `can_place` accepts it. */
  predicate Eligible(cells: seq<char>, width: nat, height: nat, cand: Candidate)
    requires |cells| == width * height
  {
    cand.piece.IsGarbage() || Placeable(cells, width, height, cand.piece)
  }

  /** The running choice: the best candidate so far and its difference. */
  datatype Best = Best(choice: Option<Candidate>, diff: real)

  /**
   * The pass over the candidates: each eligible candidate is scored, and
   * replaces the best one when its difference is strictly smaller; a score
   * that fails ends the pass with that error.
   */
  function Scan(cells: seq<char>, cellsSkin: seq<nat>, width: nat, height: nat, cost: Cost, cands: seq<Candidate>): (r: Result<Best, ApproxError>)
    requires |cells| == width * height
    ensures r.Err? ==> r.error == CostFailed
    ensures r.Ok? && r.value.choice.Some? ==>
      r.value.choice.value in cands && Eligible(cells, width, height, r.value.choice.value)
    decreases |cands|
  {
    if cands == [] then Ok(Best(None, F64Max))
    else
      var init := cands[..|cands| - 1];
      var cand := cands[|cands| - 1];
      match Scan(cells, cellsSkin, width, height, cost, init)
      case Err(e) => Err(e)
      case Ok(st) =>
        assert st.choice.Some? ==> st.choice.value in cands;
        if !Eligible(cells, width, height, cand) then Ok(st)
        else match cost(cand.piece, cand.skin, cells, cellsSkin)
          case None => Err(CostFailed)
          case Some(d) => Ok(if d < st.diff then Best(Some(cand), d) else st)
  }

  /** Every eligible candidate gets a score, and none scores below `diff`. */
  predicate AtMost(cells: seq<char>, cellsSkin: seq<nat>, width: nat, height: nat, cost: Cost, cands: seq<Candidate>, diff: real)
    requires |cells| == width * height
  {
    forall i :: 0 <= i < |cands| && Eligible(cells, width, height, cands[i]) ==>
      cost(cands[i].piece, cands[i].skin, cells, cellsSkin).Some? &&
      diff <= cost(cands[i].piece, cands[i].skin, cells, cellsSkin).value
  }

  /** Candidate b is eligible, scores `diff`, and every eligible candidate before it scores more. */
  predicate FirstWith(cells: seq<char>, cellsSkin: seq<nat>, width: nat, height: nat, cost: Cost, cands: seq<Candidate>, b: int, diff: real)
    requires |cells| == width * height
  {
    && 0 <= b < |cands|
    && Eligible(cells, width, height, cands[b])
    && cost(cands[b].piece, cands[b].skin, cells, cellsSkin) == Some(diff)
    && forall i :: 0 <= i < b && Eligible(cells, width, height, cands[i]) ==>
         cost(cands[i].piece, cands[i].skin, cells, cellsSkin).Some? &&
         diff < cost(cands[i].piece, cands[i].skin, cells, cellsSkin).value
  }

  /**
   * The pass picks the first candidate of least difference, if that
   * difference is below `f64::MAX`, and nothing otherwise.
   */
  lemma {:induction false} ScanChoosesFirstMinimum(cells: seq<char>, cellsSkin: seq<nat>, width: nat, height: nat, cost: Cost, cands: seq<Candidate>)
    requires |cells| == width * height
    requires Scan(cells, cellsSkin, width, height, cost, cands).Ok?
    ensures var st := Scan(cells, cellsSkin, width, height, cost, cands).value;
      && st.diff <= F64Max
      && AtMost(cells, cellsSkin, width, height, cost, cands, st.diff)
      && (st.choice.None? ==> st.diff == F64Max)
      && (st.choice.Some? ==>
            && st.diff < F64Max
            && exists b :: FirstWith(cells, cellsSkin, width, height, cost, cands, b, st.diff) && cands[b] == st.choice.value)
    decreases |cands|
  {
    if cands != [] {
      var init := cands[..|cands| - 1];
      var cand := cands[|cands| - 1];
      ScanChoosesFirstMinimum(cells, cellsSkin, width, height, cost, init);
      var st0 := Scan(cells, cellsSkin, width, height, cost, init).value;
      var st := Scan(cells, cellsSkin, width, height, cost, cands).value;
      assert forall i :: 0 <= i < |init| ==> init[i] == cands[i];
      assert st.diff <= st0.diff;
      assert Eligible(cells, width, height, cand) ==>
        cost(cand.piece, cand.skin, cells, cellsSkin).Some? && st.diff <= cost(cand.piece, cand.skin, cells, cellsSkin).value;
      AtMostExtend(cells, cellsSkin, width, height, cost, cands, st0.diff, st.diff);
      if st0.choice.Some? {
        var b :| FirstWith(cells, cellsSkin, width, height, cost, init, b, st0.diff) && init[b] == st0.choice.value;
        if st == st0 {
          assert FirstWith(cells, cellsSkin, width, height, cost, cands, b, st.diff);
        }
      }
      if st != st0 {
        assert FirstWith(cells, cellsSkin, width, height, cost, cands, |cands| - 1, st.diff);
      }
    }
  }

  /** A bound that holds for all but the last candidate, and for the last one, holds for all. */
  lemma AtMostExtend(cells: seq<char>, cellsSkin: seq<nat>, width: nat, height: nat, cost: Cost, cands: seq<Candidate>, d0: real, d: real)
    requires |cells| == width * height && cands != [] && d <= d0
    requires AtMost(cells, cellsSkin, width, height, cost, cands[..|cands| - 1], d0)
    requires var last := cands[|cands| - 1];
      Eligible(cells, width, height, last) ==>
        cost(last.piece, last.skin, cells, cellsSkin).Some? && d <= cost(last.piece, last.skin, cells, cellsSkin).value
    ensures AtMost(cells, cellsSkin, width, height, cost, cands, d)
  {
    var init := cands[..|cands| - 1];
    forall i | 0 <= i < |cands| && Eligible(cells, width, height, cands[i])
      ensures cost(cands[i].piece, cands[i].skin, cells, cellsSkin).Some? &&
        d <= cost(cands[i].piece, cands[i].skin, cells, cellsSkin).value
    {
      if i < |init| {
        assert cands[i] == init[i];
      }
    }
  }

  /** The pass fails exactly when some eligible candidate cannot be scored. */
  lemma {:induction false} ScanFailsIff(cells: seq<char>, cellsSkin: seq<nat>, width: nat, height: nat, cost: Cost, cands: seq<Candidate>)
    requires |cells| == width * height
    ensures Scan(cells, cellsSkin, width, height, cost, cands).Err? <==>
      exists i :: 0 <= i < |cands| && Eligible(cells, width, height, cands[i]) &&
        cost(cands[i].piece, cands[i].skin, cells, cellsSkin).None?
    decreases |cands|
  {
    if cands != [] {
      var init := cands[..|cands| - 1];
      ScanFailsIff(cells, cellsSkin, width, height, cost, init);
      assert forall i :: 0 <= i < |init| ==> init[i] == cands[i];
      if Scan(cells, cellsSkin, width, height, cost, cands).Ok? {
        ScanChoosesFirstMinimum(cells, cellsSkin, width, height, cost, cands);
      }
    }
  }

  /** A pass that scores some eligible candidate below `f64::MAX` chooses something. */
  lemma ScanChoosesWhenFinite(cells: seq<char>, cellsSkin: seq<nat>, width: nat, height: nat, cost: Cost, cands: seq<Candidate>, cand: Candidate)
    requires |cells| == width * height
    requires Scan(cells, cellsSkin, width, height, cost, cands).Ok?
    requires cand in cands && Eligible(cells, width, height, cand)
    requires cost(cand.piece, cand.skin, cells, cellsSkin).Some? && cost(cand.piece, cand.skin, cells, cellsSkin).value < F64Max
    ensures Scan(cells, cellsSkin, width, height, cost, cands).value.choice.Some?
  {
    ScanChoosesFirstMinimum(cells, cellsSkin, width, height, cost, cands);
    var i :| 0 <= i < |cands| && cands[i] == cand;
  }

  /** Garbage pieces always score, below `f64::MAX`. */
  ghost predicate GarbageFinite(cost: Cost)
  {
    forall p: Piece, skin: BlockSkin, cells: seq<char>, cellsSkin: seq<nat> ::
      p.IsGarbage() ==> cost(p, skin, cells, cellsSkin).Some? && cost(p, skin, cells, cellsSkin).value < F64Max
  }

  /** Cells that were filled stay as they were. */
  predicate OnlyFills(before: seq<char>, after: seq<char>)
  {
    |after| == |before| && forall j :: 0 <= j < |before| && before[j] != EmptyCell ==> after[j] == before[j]
  }

  /** No cell became gray or black. */
  predicate NoNewGarbage(before: seq<char>, after: seq<char>)
    requires |after| == |before|
  {
    forall j :: 0 <= j < |after| && (after[j] == 'G' || after[j] == 'B') ==> after[j] == before[j]
  }

  /** What holds of the board throughout: a valid grid agreeing with its pieces and its skin ids. */
  ghost predicate BoardSound(board: SkinnedBoard)
    reads board, board.board
  {
    && board.Valid() && SkinIdsValid(board.skins)
    && Consistent(board.board.cells, board.board.pieces, board.board.width, board.board.height)
    && SkinsAgree(board.board.cells, board.cellsSkin, |board.skins|)
  }

  /** How the grid may change: cells only fill, and without garbage none turns gray or black. */
  ghost predicate Progress(before: seq<char>, after: seq<char>, useGarbage: bool)
  {
    OnlyFills(before, after) && (!useGarbage ==> NoNewGarbage(before, after))
  }

  /** Every cell of `m` in bounds is filled. */
  ghost predicate Filled(cells: seq<char>, width: nat, height: nat, m: multiset<Cell>)
  {
    forall c :: c in m && InBounds(width, height, c) ==> !HoldsAt(cells, width, c, EmptyCell)
  }

  /** One more filled cell. */
  lemma FilledAdd(cells: seq<char>, width: nat, height: nat, m: multiset<Cell>, c: Cell)
    requires Filled(cells, width, height, m)
    requires InBounds(width, height, c) ==> !HoldsAt(cells, width, c, EmptyCell)
    ensures Filled(cells, width, height, m + multiset{c})
  {
  }

  /** Filling more cells keeps filled cells filled, and the garbage count bounded. */
  lemma FillsCompose(a: seq<char>, b: seq<char>, c: seq<char>, width: nat, height: nat, m: multiset<Cell>, useGarbage: bool)
    requires Progress(a, b, useGarbage) && Progress(b, c, useGarbage)
    ensures Progress(a, c, useGarbage)
    ensures Filled(b, width, height, m) ==> Filled(c, width, height, m)
  {
  }

  /** A placement only writes cells that were empty, and writes only the piece's letter. */
  lemma PlacedFills(cells: seq<char>, width: nat, height: nat, p: Piece)
    requires |cells| == width * height && Placeable(cells, width, height, p)
    ensures OnlyFills(cells, PlacedCells(cells, width, height, p))
    ensures !p.IsGarbage() ==> NoNewGarbage(cells, PlacedCells(cells, width, height, p))
  {
    var letter := GetChar(p);
    assert !p.IsGarbage() ==> letter != 'G' && letter != 'B' by {
      if !p.IsGarbage() {
        match p
        case I(_, _) =>
        case O(_, _) =>
        case T(_, _) =>
        case L(_, _) =>
        case J(_, _) =>
        case S(_, _) =>
        case Z(_, _) =>
      }
    }
    var occ := Occupancy(p).value;
    var w := WriteCells(cells, width, height, occ, letter);
    assert w.cells == PlacedCells(cells, width, height, p);
    forall j | 0 <= j < |cells| && cells[j] != EmptyCell ensures w.cells[j] == cells[j] {
      assert !Covers(width, occ, j);
    }
    if !p.IsGarbage() {
      forall j | 0 <= j < |cells| && (w.cells[j] == 'G' || w.cells[j] == 'B') ensures w.cells[j] == cells[j] {
        assert w.cells[j] == letter || w.cells[j] == cells[j];
      }
    }
  }

  /** After a placement, each cell of the piece is filled. */
  lemma PlacedCellFilled(cells: seq<char>, width: nat, height: nat, p: Piece, c: Cell)
    requires |cells| == width * height && Placeable(cells, width, height, p)
    requires c in Occupancy(p).value
    ensures InBounds(width, height, c) && !HoldsAt(PlacedCells(cells, width, height, p), width, c, EmptyCell)
  {
    PlacedOccupies(cells, width, height, p);
    var k :| 0 <= k < |Occupancy(p).value| && Occupancy(p).value[k] == c;
    assert HoldsAt(PlacedCells(cells, width, height, p), width, c, GetChar(p));
    GetCharDistinct(p, p);
  }

  /** A garbage piece fits on any empty cell in bounds. */
  lemma GarbagePlaceable(cells: seq<char>, width: nat, height: nat, p: Piece)
    requires |cells| == width * height && p.IsGarbage()
    requires InBounds(width, height, p.cell) && HoldsAt(cells, width, p.cell, EmptyCell)
    ensures Placeable(cells, width, height, p)
  {
  }

  /** Once a score has failed, scoring more candidates does not recover. */
  lemma {:induction false} ScanErrPersists(cells: seq<char>, cellsSkin: seq<nat>, width: nat, height: nat, cost: Cost, done: seq<Candidate>, more: seq<Candidate>)
    requires |cells| == width * height
    requires Scan(cells, cellsSkin, width, height, cost, done).Err?
    ensures Scan(cells, cellsSkin, width, height, cost, done + more).Err?
    decreases |more|
  {
    if more != [] {
      var init := more[..|more| - 1];
      ScanErrPersists(cells, cellsSkin, width, height, cost, done, init);
      assert (done + more)[..|done + more| - 1] == done + init;
    } else {
      assert done + more == done;
    }
  }

  /** Garbage is always tried; a tetromino only when `can_place` accepts it. */
  method IsEligible(board: SkinnedBoard, cand: Candidate) returns (b: bool)
    requires board.Valid()
    ensures b == Eligible(board.board.cells, board.board.width, board.board.height, cand)
  {
    b := cand.piece.IsGarbage();
    if !b {
      b := board.board.CanPlace(cand.piece);
    }
  }

  /**
   * One candidate of the scoring loops: skipped unless it can be placed,
   * scored otherwise, and kept when it scores strictly below the best so far.
   */
  method ScanOne(board: SkinnedBoard, cost: Cost, ghost prefix: seq<Candidate>, cand: Candidate, best: Best)
    returns (r: Result<Best, ApproxError>)
    requires board.Valid()
    requires Scan(board.board.cells, board.cellsSkin, board.board.width, board.board.height, cost, prefix) == Ok(best)
    ensures r == Scan(board.board.cells, board.cellsSkin, board.board.width, board.board.height, cost, prefix + [cand])
  {
    ghost var next := prefix + [cand];
    assert next[..|next| - 1] == prefix && next[|next| - 1] == cand;
    var eligible := IsEligible(board, cand);
    if !eligible {
      return Ok(best);
    }
    var diff := cost(cand.piece, cand.skin, board.board.cells, board.cellsSkin);
    if diff.None? {
      return Err(CostFailed);
    }
    if diff.value < best.diff {
      return Ok(Best(Some(cand), diff.value));
    }
    return Ok(best);
  }

  /**
   * The scoring loops of `process_heap` for one skin, continuing from the
   * choice made over the earlier candidates; it changes nothing.
   */
  method ScanSkin(board: SkinnedBoard, cost: Cost, ghost done: seq<Candidate>, tries: seq<Candidate>, best0: Best)
    returns (r: Result<Best, ApproxError>)
    requires board.Valid()
    requires Scan(board.board.cells, board.cellsSkin, board.board.width, board.board.height, cost, done) == Ok(best0)
    ensures r == Scan(board.board.cells, board.cellsSkin, board.board.width, board.board.height, cost, done + tries)
  {
    var best := best0;
    assert done + tries[..0] == done;
    for k := 0 to |tries|
      invariant Scan(board.board.cells, board.cellsSkin, board.board.width, board.board.height, cost, done + tries[..k]) == Ok(best)
    {
      var step := ScanOne(board, cost, done + tries[..k], tries[k], best);
      PrefixStep(done, tries, k);
      if step.Err? {
        ScanErrPersists(board.board.cells, board.cellsSkin, board.board.width, board.board.height, cost, done + tries[..k + 1], tries[k + 1..]);
        return step;
      }
      best := step.value;
    }
    assert tries[..|tries|] == tries;
    return Ok(best);
  }

  /** Growing a prefix of `tries` by one element, and completing it with the rest. */
  lemma PrefixStep<T>(done: seq<T>, tries: seq<T>, k: nat)
    requires k < |tries|
    ensures done + tries[..k] + [tries[k]] == done + tries[..k + 1]
    ensures done + tries[..k + 1] + tries[k + 1..] == done + tries
  {
    assert tries[..k + 1] == tries[..k] + [tries[k]];
    assert tries == tries[..k + 1] + tries[k + 1..];
  }

  /** The scoring pass of `process_heap` over every skin and candidate at a cell; it changes nothing. */
  method ChooseBest(board: SkinnedBoard, cell: Cell, cost: Cost, useGarbage: bool) returns (r: Result<Best, ApproxError>)
    requires board.Valid()
    ensures r == Scan(board.board.cells, board.cellsSkin, board.board.width, board.board.height, cost,
                      Candidates(board.skins, cell, useGarbage))
  {
    var skins := board.skins;
    var best := Best(None, F64Max);
    for s := 0 to |skins|
      invariant Scan(board.board.cells, board.cellsSkin, board.board.width, board.board.height, cost,
                     Candidates(skins[..s], cell, useGarbage)) == Ok(best)
    {
      assert skins[..s + 1][..s] == skins[..s];
      var step := ScanSkin(board, cost, Candidates(skins[..s], cell, useGarbage), SkinCandidates(skins[s], cell, useGarbage), best);
      if step.Err? {
        CandidatesExtend(skins, cell, useGarbage, s);
        ScanErrPersists(board.board.cells, board.cellsSkin, board.board.width, board.board.height, cost,
                        Candidates(skins[..s + 1], cell, useGarbage), Candidates(skins, cell, useGarbage)[|Candidates(skins[..s + 1], cell, useGarbage)|..]);
        return step;
      }
      best := step.value;
    }
    assert skins[..|skins|] == skins;
    return Ok(best);
  }

  /** The candidates of a prefix of the skins start the candidates of all of them. */
  lemma {:induction false} CandidatesExtend(skins: seq<BlockSkin>, cell: Cell, useGarbage: bool, s: nat)
    requires s < |skins|
    ensures var pre := Candidates(skins[..s + 1], cell, useGarbage);
      |pre| <= |Candidates(skins, cell, useGarbage)| &&
      Candidates(skins, cell, useGarbage) == pre + Candidates(skins, cell, useGarbage)[|pre|..]
    decreases |skins|
  {
    var init := skins[..|skins| - 1];
    if s + 1 < |skins| {
      assert init[..s + 1] == skins[..s + 1];
      CandidatesExtend(init, cell, useGarbage, s);
    } else {
      assert skins[..s + 1] == skins;
    }
  }

  /** The parts of a skinned board that the approximation changes: the grid, each cell's skin id, and the placed pieces. */
  datatype Snapshot = Snapshot(cells: seq<char>, cellsSkin: seq<nat>, pieces: seq<Piece>)

  /** What stays fixed while the heap is processed: the board size, the skins and the score. */
  datatype Setting = Setting(width: nat, height: nat, skins: seq<BlockSkin>, cost: Cost)

  /** The grid and the skin ids hold one entry per cell of the board. */
  predicate Sized(st: Setting, s: Snapshot)
  {
    |s.cells| == st.width * st.height && |s.cellsSkin| == st.width * st.height
  }

  /** The snapshot of a board. */
  function Snap(board: SkinnedBoard): Snapshot
    reads board, board.board
  {
    Snapshot(board.board.cells, board.cellsSkin, board.board.pieces)
  }

  /** The setting of a board scored with `cost`. */
  function SettingOf(board: SkinnedBoard, cost: Cost): Setting
    reads board
  {
    Setting(board.board.width, board.board.height, board.skins, cost)
  }

  /** The snapshot of `SkinnedBoard::new`: every cell empty and unpainted, and no piece. */
  function Blank(width: nat, height: nat): Snapshot
  {
    Snapshot(seq(width * height, _ => EmptyCell), seq(width * height, _ => InvalidSkinId), [])
  }

  /** What `SkinnedBoard::place` makes of a snapshot: the piece written into the grid, its cells painted with the skin id, the piece listed. */
  function Placed(width: nat, height: nat, s: Snapshot, cand: Candidate): (r: Snapshot)
    requires |s.cells| == width * height && |s.cellsSkin| == width * height
    requires Placeable(s.cells, width, height, cand.piece)
    ensures |r.cells| == width * height && |r.cellsSkin| == width * height
  {
    Snapshot(PlacedCells(s.cells, width, height, cand.piece),
             WriteCells(s.cellsSkin, width, height, Occupancy(cand.piece).value, cand.skin.id).cells,
             s.pieces + [cand.piece])
  }

  /**
   * One turn of `process_heap` at `cell`: a cell that is filled or off the
   * board is skipped; otherwise every candidate is scored, a failed score
   * is the error, and the chosen candidate, if there is one, is placed with
   * its skin. The placement cannot fail: the chosen piece is either garbage
   * on this empty cell or one `can_place` accepted.
   */
  function Turn(st: Setting, useGarbage: bool, s: Snapshot, cell: Cell): (r: Result<Snapshot, ApproxError>)
    requires Sized(st, s)
    ensures r.Err? ==> r.error == CostFailed
    ensures r.Ok? ==> Sized(st, r.value) && Progress(s.cells, r.value.cells, useGarbage)
  {
    if !(InBounds(st.width, st.height, cell) && HoldsAt(s.cells, st.width, cell, EmptyCell)) then Ok(s)
    else
      match Scan(s.cells, s.cellsSkin, st.width, st.height, st.cost, Candidates(st.skins, cell, useGarbage))
      case Err(e) => Err(e)
      case Ok(best) =>
        if best.choice.None? then Ok(s)
        else
          var p := best.choice.value.piece;
          assert Placeable(s.cells, st.width, st.height, p) by {
            if p.IsGarbage() {
              GarbagePlaceable(s.cells, st.width, st.height, p);
            }
          }
          PlacedFills(s.cells, st.width, st.height, p);
          Ok(Placed(st.width, st.height, s, best.choice.value))
  }

  /** With garbage allowed and always scorable, a turn at a cell on the board leaves that cell filled. */
  lemma TurnFills(st: Setting, s: Snapshot, cell: Cell)
    requires Sized(st, s) && |st.skins| > 0 && GarbageFinite(st.cost)
    requires InBounds(st.width, st.height, cell) && Turn(st, true, s, cell).Ok?
    ensures !HoldsAt(Turn(st, true, s, cell).value.cells, st.width, cell, EmptyCell)
  {
    if HoldsAt(s.cells, st.width, cell, EmptyCell) {
      var cands := Candidates(st.skins, cell, true);
      var gray := Candidate(Gray(cell), st.skins[0]);
      GrayIsCandidate(st.skins, cell);
      ScanChoosesWhenFinite(s.cells, s.cellsSkin, st.width, st.height, st.cost, cands, gray);
      var p := Scan(s.cells, s.cellsSkin, st.width, st.height, st.cost, cands).value.choice.value.piece;
      if p.IsGarbage() {
        GarbagePlaceable(s.cells, st.width, st.height, p);
      }
      PlacedCellFilled(s.cells, st.width, st.height, p, cell);
    }
  }

  /** The turns at `cells`, in order, from `s`; the first failed score ends the run with its error. */
  function Run(st: Setting, useGarbage: bool, s: Snapshot, cells: seq<Cell>): (r: Result<Snapshot, ApproxError>)
    requires Sized(st, s)
    ensures r.Err? ==> r.error == CostFailed
    ensures r.Ok? ==> Sized(st, r.value) && Progress(s.cells, r.value.cells, useGarbage)
    decreases |cells|
  {
    if cells == [] then Ok(s)
    else
      match Run(st, useGarbage, s, cells[..|cells| - 1])
      case Err(e) => Err(e)
      case Ok(t) =>
        var u := Turn(st, useGarbage, t, cells[|cells| - 1]);
        if u.Err? then u
        else
          FillsCompose(s.cells, t.cells, u.value.cells, st.width, st.height, multiset{}, useGarbage);
          u
  }

  /** A run one cell longer is the run followed by one more turn. */
  lemma RunStep(st: Setting, useGarbage: bool, s: Snapshot, cells: seq<Cell>, c: Cell)
    requires Sized(st, s) && Run(st, useGarbage, s, cells).Ok?
    ensures Run(st, useGarbage, s, cells + [c]) == Turn(st, useGarbage, Run(st, useGarbage, s, cells).value, c)
  {
    assert (cells + [c])[..|cells|] == cells;
  }

  /** With garbage allowed and always scorable, a run fills every cell it visits that lies on the board. */
  lemma {:induction false} RunFills(st: Setting, s: Snapshot, cells: seq<Cell>)
    requires Sized(st, s) && |st.skins| > 0 && GarbageFinite(st.cost)
    requires Run(st, true, s, cells).Ok?
    ensures Filled(Run(st, true, s, cells).value.cells, st.width, st.height, multiset(cells))
    decreases |cells|
  {
    if cells != [] {
      var init := cells[..|cells| - 1];
      var c := cells[|cells| - 1];
      assert cells == init + [c];
      RunStep(st, true, s, init, c);
      RunFills(st, s, init);
      var t := Run(st, true, s, init).value;
      var u := Turn(st, true, t, c).value;
      FillsCompose(s.cells, t.cells, u.cells, st.width, st.height, multiset(init), true);
      if InBounds(st.width, st.height, c) {
        TurnFills(st, t, c);
      }
      FilledAdd(u.cells, st.width, st.height, multiset(init), c);
    }
  }

  /**
   * A whole `process_heap` pass over the cells `queued`, from `s0`, ending
   * with `r` and the board at `s`: the cells were popped as `log`, largest
   * first, each one at least every cell still left in the heap. A pass that
   * succeeds popped every queued cell, and the board is what the turns at
   * `log` make of `s0`. A failed score stops the pass at the turn that
   * failed, with the board as the turns before it left it.
   */
  ghost predicate Processed(st: Setting, useGarbage: bool, s0: Snapshot, queued: multiset<Cell>, log: seq<Cell>, r: Result<Unit, ApproxError>, s: Snapshot)
    requires Sized(st, s0)
  {
    && NonIncreasing(log)
    && multiset(log) <= queued
    && (forall i, c :: 0 <= i < |log| && c in queued - multiset(log) ==> !CellLess(log[i], c))
    && (r.Ok? ==> multiset(log) == queued && Run(st, useGarbage, s0, log) == Ok(s))
    && (r.Err? ==>
          && r.error == CostFailed && |log| > 0
          && Run(st, useGarbage, s0, log) == Err(CostFailed)
          && Run(st, useGarbage, s0, log[..|log| - 1]) == Ok(s))
  }

  /**
   * `process_heap` between two turns: the cells popped so far form `log`,
   * largest first, each at least every cell `left` in the heap, and the
   * board at `s` is what the turns at `log` made of `s0`.
   */
  ghost predicate Popping(st: Setting, useGarbage: bool, s0: Snapshot, queued: multiset<Cell>, log: seq<Cell>, left: multiset<Cell>, s: Snapshot)
    requires Sized(st, s0)
  {
    && NonIncreasing(log)
    && queued == left + multiset(log)
    && (forall i, c :: 0 <= i < |log| && c in left ==> !CellLess(log[i], c))
    && Run(st, useGarbage, s0, log) == Ok(s)
  }

  /** Popping the largest cell left and taking the turn there keeps the pass going when the score does not fail. */
  lemma PoppingStep(st: Setting, useGarbage: bool, s0: Snapshot, queued: multiset<Cell>, log: seq<Cell>,
                    left: multiset<Cell>, rest: multiset<Cell>, s: Snapshot, c: Cell)
    requires Sized(st, s0) && Popping(st, useGarbage, s0, queued, log, left, s)
    requires IsMaximum(c, left) && left == rest + multiset{c}
    requires Sized(st, s) && Turn(st, useGarbage, s, c).Ok?
    ensures Popping(st, useGarbage, s0, queued, log + [c], rest, Turn(st, useGarbage, s, c).value)
  {
    PopKeepsOrder(log, c, left, rest);
    RunStep(st, useGarbage, s0, log, c);
  }

  /** A turn whose score fails at the largest cell left ends the pass, as `Processed` says. */
  lemma PoppingStops(st: Setting, useGarbage: bool, s0: Snapshot, queued: multiset<Cell>, log: seq<Cell>,
                     left: multiset<Cell>, rest: multiset<Cell>, s: Snapshot, c: Cell)
    requires Sized(st, s0) && Popping(st, useGarbage, s0, queued, log, left, s)
    requires IsMaximum(c, left) && left == rest + multiset{c}
    requires Sized(st, s) && Turn(st, useGarbage, s, c).Err?
    ensures Processed(st, useGarbage, s0, queued, log + [c], Err(CostFailed), s)
    ensures rest == queued - multiset(log + [c])
  {
    PopKeepsOrder(log, c, left, rest);
    RunStep(st, useGarbage, s0, log, c);
    assert (log + [c])[..|log|] == log;
    assert queued == rest + multiset(log + [c]);
    Cancel(rest, multiset(log + [c]));
  }

  /** The board a pass reaches between turns is sized, and only filled cells since its start. */
  lemma PoppingProgress(st: Setting, useGarbage: bool, s0: Snapshot, queued: multiset<Cell>, log: seq<Cell>, left: multiset<Cell>, s: Snapshot)
    requires Sized(st, s0) && Popping(st, useGarbage, s0, queued, log, left, s)
    ensures Sized(st, s) && Progress(s0.cells, s.cells, useGarbage)
  {
  }

  /** A pass whose heap ran empty popped every queued cell; the run it made is the whole pass. */
  lemma PoppingDone(st: Setting, useGarbage: bool, s0: Snapshot, queued: multiset<Cell>, log: seq<Cell>, s: Snapshot)
    requires Sized(st, s0) && Popping(st, useGarbage, s0, queued, log, multiset{}, s)
    ensures Processed(st, useGarbage, s0, queued, log, Ok(Unit), s)
    ensures multiset{} == queued - multiset(log)
    ensures Progress(s0.cells, s.cells, useGarbage)
    ensures useGarbage && |st.skins| > 0 && GarbageFinite(st.cost) ==> Filled(s.cells, st.width, st.height, queued)
  {
    assert multiset(log) == queued;
    Cancel(multiset{}, queued);
    if useGarbage && |st.skins| > 0 && GarbageFinite(st.cost) {
      RunFills(st, s0, log);
    }
  }

  /** A successful pass is determined by the queued cells: the order of its turns and the board it leaves. */
  lemma ProcessedDetermined(st: Setting, useGarbage: bool, s0: Snapshot, queued: multiset<Cell>,
                            log1: seq<Cell>, s1: Snapshot, log2: seq<Cell>, s2: Snapshot)
    requires Sized(st, s0)
    requires Processed(st, useGarbage, s0, queued, log1, Ok(Unit), s1)
    requires Processed(st, useGarbage, s0, queued, log2, Ok(Unit), s2)
    ensures log1 == log2 && s1 == s2
  {
    NonIncreasingUnique(log1, log2);
  }

  /**
   * One turn of `process_heap`: the board becomes what `Turn` makes of it,
   * and stays as it was when a score fails.
   */
  method ProcessCell(board: SkinnedBoard, cell: Cell, cost: Cost, useGarbage: bool) returns (r: Result<Unit, ApproxError>)
    requires BoardSound(board)
    modifies board, board.board
    ensures BoardSound(board)
    ensures var t := Turn(SettingOf(board, cost), useGarbage, old(Snap(board)), cell);
      && (r.Ok? <==> t.Ok?)
      && (t.Ok? ==> Snap(board) == t.value)
      && (r.Err? ==> r.error == CostFailed && Snap(board) == old(Snap(board)))
  {
    if !board.EmptyAt(cell) {
      return Ok(Unit);
    }
    var chosen := ChooseBest(board, cell, cost, useGarbage);
    if chosen.Err? {
      return Err(chosen.error);
    }
    var best := chosen.value;
    if best.choice.None? {
      return Ok(Unit);
    }
    var cand := best.choice.value;
    if cand.piece.IsGarbage() {
      GarbagePlaceable(board.board.cells, board.board.width, board.board.height, cand.piece);
    }
    PlaceChosen(board, cand);
    return Ok(Unit);
  }

  /**
   * The placement that ends a turn of `process_heap`: `board.place(..)?`
   * cannot fail for a candidate that is placeable, and the board keeps its
   * consistency and its skin agreement.
   */
  method PlaceChosen(board: SkinnedBoard, cand: Candidate)
    requires BoardSound(board)
    requires Placeable(board.board.cells, board.board.width, board.board.height, cand.piece)
    requires cand.skin in board.skins
    modifies board, board.board
    ensures BoardSound(board)
    ensures Snap(board) == Placed(board.board.width, board.board.height, old(Snap(board)), cand)
  {
    var s :| 0 <= s < |board.skins| && board.skins[s] == cand.skin;
    var placed := board.Place(cand.piece, cand.skin.id);
    assert placed.Ok?;
  }

  /**
   * `process_heap`: pops every cell, largest first, and processes it, as
   * `Processed` states. Cells only ever fill; without garbage no cell turns
   * gray or black; with garbage allowed and always scorable, every cell
   * that was in the heap ends up filled.
   */
  method ProcessHeap(heap: CellHeap, board: SkinnedBoard, cost: Cost, useGarbage: bool)
    returns (r: Result<Unit, ApproxError>, ghost log: seq<Cell>)
    requires heap.Valid() && BoardSound(board)
    modifies heap, board, board.board
    ensures heap.Valid() && BoardSound(board)
    ensures heap.Contents() == old(heap.Contents()) - multiset(log)
    ensures r.Ok? ==> heap.elems == []
    ensures r.Err? ==> r.error == CostFailed
    ensures Processed(SettingOf(board, cost), useGarbage, old(Snap(board)), old(heap.Contents()), log, r, Snap(board))
    ensures Progress(old(board.board.cells), board.board.cells, useGarbage)
    ensures r.Ok? && useGarbage && |board.skins| > 0 && GarbageFinite(cost) ==>
      Filled(board.board.cells, board.board.width, board.board.height, old(heap.Contents()))
  {
    ghost var st := SettingOf(board, cost);
    ghost var s0 := Snap(board);
    ghost var queued := heap.Contents();
    log := [];
    while true
      invariant heap.Valid() && BoardSound(board)
      invariant Popping(st, useGarbage, s0, queued, log, heap.Contents(), Snap(board))
      decreases |heap.elems|
    {
      var popped;
      popped, r, log := PopTurn(heap, board, cost, useGarbage, s0, queued, log);
      if !popped {
        break;
      }
      if r.Err? {
        return;
      }
    }
    assert heap.Contents() == multiset{};
    PoppingDone(st, useGarbage, s0, queued, log, Snap(board));
    r := Ok(Unit);
  }

  /**
   * One round of the loop of `process_heap`: pops the largest cell, if the
   * heap has one, and takes the turn there. The pass goes on, or, when the
   * score fails, ends as `Processed` says.
   */
  method PopTurn(heap: CellHeap, board: SkinnedBoard, cost: Cost, useGarbage: bool,
                 ghost s0: Snapshot, ghost queued: multiset<Cell>, ghost log: seq<Cell>)
    returns (popped: bool, r: Result<Unit, ApproxError>, ghost log': seq<Cell>)
    requires heap.Valid() && BoardSound(board) && Sized(SettingOf(board, cost), s0)
    requires Popping(SettingOf(board, cost), useGarbage, s0, queued, log, heap.Contents(), Snap(board))
    modifies heap, board, board.board
    ensures heap.Valid() && BoardSound(board)
    ensures !popped ==> r.Ok? && log' == log && heap.elems == old(heap.elems) == [] && Snap(board) == old(Snap(board))
    ensures popped ==> |heap.elems| < old(|heap.elems|)
    ensures popped && r.Ok? ==> Popping(SettingOf(board, cost), useGarbage, s0, queued, log', heap.Contents(), Snap(board))
    ensures r.Err? ==>
      && Processed(SettingOf(board, cost), useGarbage, s0, queued, log', r, Snap(board))
      && heap.Contents() == queued - multiset(log')
      && Progress(s0.cells, board.board.cells, useGarbage)
  {
    ghost var st := SettingOf(board, cost);
    ghost var left := heap.Contents();
    ghost var s := Snap(board);
    log' := log;
    var next := heap.Pop();
    if next.None? {
      return false, Ok(Unit), log;
    }
    var cell := next.value;
    PoppingProgress(st, useGarbage, s0, queued, log, left, s);
    r := ProcessCell(board, cell, cost, useGarbage);
    log' := log + [cell];
    popped := true;
    if r.Err? {
      PoppingStops(st, useGarbage, s0, queued, log, left, heap.Contents(), s, cell);
    } else {
      PoppingStep(st, useGarbage, s0, queued, log, left, heap.Contents(), s, cell);
    }
  }

  /** No cell of the board is empty. */
  ghost predicate Full(cells: seq<char>, width: nat, height: nat)
  {
    forall c :: InBounds(width, height, c) ==> !HoldsAt(cells, width, c, EmptyCell)
  }

  /** If every cell empty at some point was queued and the queue got filled, with nothing emptied since, the board is full. */
  lemma FullFromQueue(mid: seq<char>, cells: seq<char>, width: nat, height: nat, queued: multiset<Cell>)
    requires |mid| == width * height && OnlyFills(mid, cells)
    requires forall c :: InBounds(width, height, c) && HoldsAt(mid, width, c, EmptyCell) ==> c in queued
    requires Filled(cells, width, height, queued)
    ensures Full(cells, width, height)
  {
    forall c | InBounds(width, height, c) ensures !HoldsAt(cells, width, c, EmptyCell) {
      IndexInRange(width, height, c);
    }
  }

  /** On a full board every position of the grid is filled. */
  lemma FullHasNoEmptyCell(cells: seq<char>, width: nat, height: nat)
    requires |cells| == width * height && Full(cells, width, height)
    ensures forall j :: 0 <= j < |cells| ==> cells[j] != EmptyCell
  {
    forall j | 0 <= j < |cells| ensures cells[j] != EmptyCell {
      var c := Cell(j % width, j / width);
      DivFloor(j, width);
      MulLtCancel(j / width, height, width);
      assert InBounds(width, height, c) && Index(width, c) == j;
    }
  }

  /**
   * The two passes of `process_heap_prioritize`, from `s0` with `queued` in
   * the heap: a pass without garbage ends at `mid`; if it succeeded
   * (`reached`), the cells of `mid` still empty are queued and a pass with
   * garbage over exactly those ends with `r` at `s`; if it failed, its error
   * is `r` and the board stays at `mid`.
   */
  ghost predicate Prioritized(st: Setting, s0: Snapshot, queued: multiset<Cell>, first: seq<Cell>, mid: Snapshot,
                              reached: bool, second: seq<Cell>, r: Result<Unit, ApproxError>, s: Snapshot)
    requires Sized(st, s0)
  {
    && Processed(st, false, s0, queued, first, if reached then Ok(Unit) else r, mid)
    && (!reached ==> r.Err? && s == mid)
    && (reached ==>
          && Sized(st, mid)
          && Processed(st, true, mid, multiset(EmptyRows(mid.cells, st.width, st.height, 0)), second, r, s))
  }

  /**
   * `process_heap_prioritize`: a pass without garbage, then every cell still
   * empty is queued, the last row first, and a pass with garbage processes
   * them, as `Prioritized` states; when garbage always scores, the board
   * ends up full.
   */
  method ProcessHeapPrioritize(heap: CellHeap, board: SkinnedBoard, cost: Cost)
    returns (r: Result<Unit, ApproxError>, ghost first: seq<Cell>, ghost mid: Snapshot, ghost reached: bool, ghost second: seq<Cell>)
    requires heap.Valid() && BoardSound(board)
    modifies heap, board, board.board
    ensures heap.Valid() && BoardSound(board)
    ensures r.Ok? ==> heap.elems == []
    ensures r.Err? ==> r.error == CostFailed
    ensures Prioritized(SettingOf(board, cost), old(Snap(board)), old(heap.Contents()), first, mid, reached, second, r, Snap(board))
    ensures OnlyFills(old(board.board.cells), board.board.cells)
    ensures r.Ok? && |board.skins| > 0 && GarbageFinite(cost) ==>
      Full(board.board.cells, board.board.width, board.board.height)
  {
    r, first := ProcessHeap(heap, board, cost, false);
    mid := Snap(board);
    reached := r.Ok?;
    second := [];
    if r.Err? {
      return;
    }
    QueueEmpty(heap, board);
    ghost var queued := heap.Contents();
    r, second := ProcessHeap(heap, board, cost, true);
    if r.Ok? && |board.skins| > 0 && GarbageFinite(cost) {
      FullFromQueue(mid.cells, board.board.cells, board.board.width, board.board.height, queued);
    }
  }

  /** The queueing loop of `process_heap_prioritize`: every empty cell is pushed onto the empty heap, the last row first. */
  method QueueEmpty(heap: CellHeap, board: SkinnedBoard)
    requires heap.Valid() && board.Valid() && heap.elems == []
    modifies heap
    ensures heap.Valid()
    ensures heap.Contents() == multiset(EmptyRows(board.board.cells, board.board.width, board.board.height, 0))
  {
    var y: nat := board.board.height;
    while y > 0
      invariant heap.Valid() && y <= board.board.height
      invariant heap.Contents() == multiset(EmptyRows(board.board.cells, board.board.width, board.board.height, y))
    {
      y := y - 1;
      QueueRow(heap, board, y);
      EmptyRowsStep(board.board.cells, board.board.width, board.board.height, y);
    }
  }

  /** One row of the queueing loop of `process_heap_prioritize`: each empty cell of row `y` is pushed, and nothing else. */
  method QueueRow(heap: CellHeap, board: SkinnedBoard, y: nat)
    requires heap.Valid() && board.Valid()
    modifies heap
    ensures heap.Valid()
    ensures heap.Contents() == old(heap.Contents()) +
      multiset(EmptyRowCells(board.board.cells, board.board.width, board.board.height, y, board.board.width))
  {
    ghost var (cells, width, height) := (board.board.cells, board.board.width, board.board.height);
    ghost var pushed: seq<Cell> := [];
    for x := 0 to board.board.width
      invariant heap.Valid() && board.board.cells == cells
      invariant pushed == EmptyRowCells(cells, width, height, y, x)
      invariant heap.Contents() == old(heap.Contents()) + multiset(pushed)
    {
      var cell := Cell(x, y);
      var empty := board.EmptyAt(cell);
      assert EmptyRowCells(cells, width, height, y, x + 1) == pushed + if empty then [cell] else [];
      if empty {
        heap.Push(cell);
        assert multiset(pushed + [cell]) == multiset(pushed) + multiset{cell};
        pushed := pushed + [cell];
      }
    }
  }

  /** The empty cells among the first `n` of row `y`, left to right. */
  function EmptyRowCells(cells: seq<char>, width: nat, height: nat, y: nat, n: nat): (r: seq<Cell>)
    ensures forall c :: c in r <==> c.y == y && c.x < n && InBounds(width, height, c) && HoldsAt(cells, width, c, EmptyCell)
  {
    if n == 0 then []
    else
      var c := Cell(n - 1, y);
      EmptyRowCells(cells, width, height, y, n - 1) +
        (if InBounds(width, height, c) && HoldsAt(cells, width, c, EmptyCell) then [c] else [])
  }

  /** The empty cells of rows `y` and above in number, the last row first, as `process_heap_prioritize` queues them. */
  function EmptyRows(cells: seq<char>, width: nat, height: nat, y: nat): (r: seq<Cell>)
    ensures forall c :: c in r <==> y <= c.y && InBounds(width, height, c) && HoldsAt(cells, width, c, EmptyCell)
    decreases height - y
  {
    if y >= height then [] else EmptyRows(cells, width, height, y + 1) + EmptyRowCells(cells, width, height, y, width)
  }

  /** Queueing row `y` after the rows above it in number gives the empty cells of rows `y` and up. */
  lemma EmptyRowsStep(cells: seq<char>, width: nat, height: nat, y: nat)
    requires y < height
    ensures multiset(EmptyRows(cells, width, height, y)) ==
      multiset(EmptyRows(cells, width, height, y + 1)) + multiset(EmptyRowCells(cells, width, height, y, width))
  {
  }

  /** One row of the queueing loop of `approx`: every cell of row `y` is pushed, and nothing else. */
  method PushRow(heap: CellHeap, width: nat, y: nat)
    requires heap.Valid()
    modifies heap
    ensures heap.Valid()
    ensures heap.Contents() == old(heap.Contents()) + multiset(RowCells(width, y))
  {
    for x := 0 to width
      invariant heap.Valid()
      invariant heap.Contents() == old(heap.Contents()) + multiset(RowCells(x, y))
    {
      heap.Push(Cell(x, y));
      RowCellsStep(x, y);
    }
  }

  /** One more cell of the row adds exactly that cell. */
  lemma RowCellsStep(x: nat, y: nat)
    ensures multiset(RowCells(x + 1, y)) == multiset(RowCells(x, y)) + multiset{Cell(x, y)}
  {
    assert RowCells(x + 1, y) == RowCells(x, y) + [Cell(x, y)];
  }

  /** The first `width` cells of row `y`, left to right. */
  function RowCells(width: nat, y: nat): (r: seq<Cell>)
    ensures |r| == width
    ensures forall c :: c in r <==> c.y == y && c.x < width
  {
    var r := seq(width, x requires 0 <= x < width => Cell(x, y));
    assert forall c: Cell :: c.y == y && c.x < width ==> r[c.x] == c;
    r
  }

  /** Every cell of rows `y` and above in number, the last row first, as `approx` pushes them. */
  function GridRows(width: nat, height: nat, y: nat): (r: seq<Cell>)
    ensures forall c :: c in r <==> y <= c.y < height && c.x < width
    decreases height - y
  {
    if y >= height then [] else GridRows(width, height, y + 1) + RowCells(width, y)
  }

  /** A pass that popped its cells as `log` is a pass in some order. */
  lemma ProcessedSome(st: Setting, useGarbage: bool, s0: Snapshot, queued: multiset<Cell>, log: seq<Cell>, r: Result<Unit, ApproxError>, s: Snapshot)
    requires Sized(st, s0) && Processed(st, useGarbage, s0, queued, log, r, s)
    ensures exists l :: Processed(st, useGarbage, s0, queued, l, r, s)
  {
  }

  /** Prioritized passes that went through `first`, `mid` and `second` are prioritized passes through some such. */
  lemma PrioritizedSome(st: Setting, s0: Snapshot, queued: multiset<Cell>, first: seq<Cell>, mid: Snapshot,
                        reached: bool, second: seq<Cell>, r: Result<Unit, ApproxError>, s: Snapshot)
    requires Sized(st, s0) && Prioritized(st, s0, queued, first, mid, reached, second, r, s)
    ensures exists f, m, re, sc :: Prioritized(st, s0, queued, f, m, re, sc, r, s)
  {
  }

  /** Pushing row `y` after the rows above it in number gives every cell of rows `y` and up. */
  lemma GridRowsStep(width: nat, height: nat, y: nat)
    requires y < height
    ensures multiset(GridRows(width, height, y)) == multiset(GridRows(width, height, y + 1)) + multiset(RowCells(width, y))
  {
  }

  /** The queueing loop of `approx`: a new heap holding every cell of the board, pushed the last row first. */
  method QueueAll(width: nat, height: nat) returns (heap: CellHeap)
    ensures fresh(heap) && heap.Valid()
    ensures heap.Contents() == multiset(GridRows(width, height, 0))
  {
    heap := new CellHeap();
    var y: nat := height;
    while y > 0
      invariant fresh(heap) && heap.Valid() && y <= height
      invariant heap.Contents() == multiset(GridRows(width, height, y))
    {
      y := y - 1;
      PushRow(heap, width, y);
      GridRowsStep(width, height, y);
    }
  }

  /**
   * The `match` of `approx` on a new board with every cell queued: one pass
   * with garbage, or the prioritized passes. When garbage always scores, the
   * result is a full board that `draw_board` can render.
   */
  method RunPasses(heap: CellHeap, board: SkinnedBoard, cost: Cost, prioritize: bool,
                   ghost width: nat, ghost height: nat, ghost skins: seq<BlockSkin>)
    returns (r: Result<Unit, ApproxError>)
    requires heap.Valid() && BoardSound(board) && |skins| > 0
    requires board.board.width == width && board.board.height == height && board.skins == skins
    requires Snap(board) == Blank(width, height) && heap.Contents() == multiset(GridRows(width, height, 0))
    modifies heap, board, board.board
    ensures BoardSound(board)
    ensures r.Err? ==> r == Err(CostFailed)
    ensures !prioritize ==>
      exists log :: Processed(Setting(width, height, skins, cost), true, Blank(width, height),
                              multiset(GridRows(width, height, 0)), log, r, Snap(board))
    ensures prioritize ==>
      exists first, mid, reached, second :: Prioritized(Setting(width, height, skins, cost), Blank(width, height),
                              multiset(GridRows(width, height, 0)), first, mid, reached, second, r, Snap(board))
    ensures r.Ok? && GarbageFinite(cost) ==> Drawable(board.board.cells, board.cellsSkin, |skins|)
  {
    ghost var st := Setting(width, height, skins, cost);
    ghost var (start, queued) := (Snap(board), heap.Contents());
    if prioritize {
      ghost var first, mid, reached, second;
      r, first, mid, reached, second := ProcessHeapPrioritize(heap, board, cost);
      PrioritizedSome(st, start, queued, first, mid, reached, second, r, Snap(board));
    } else {
      ghost var log;
      r, log := ProcessHeap(heap, board, cost, true);
      ProcessedSome(st, true, start, queued, log, r, Snap(board));
      if r.Ok? && GarbageFinite(cost) {
        FullFromQueue(start.cells, board.board.cells, width, height, queued);
      }
    }
    if r.Ok? && GarbageFinite(cost) {
      FullHasNoEmptyCell(board.board.cells, width, height);
      FullBoardDrawable(board.board.cells, board.cellsSkin, board.board.pieces, width, height, |skins|);
    }
  }

  /**
   * `approx`: a new board, sized so the skins tile the source image; every
   * cell queued, the last row first; then one pass with garbage, or the
   * prioritized passes. A board side beyond `u32` is the one error before
   * the passes, and a failed score the only one after. When garbage always
   * scores, the result is a full board that `draw_board` can render.
   */
  method Approx(width: nat, height: nat, skins: seq<BlockSkin>, cost: Cost, prioritize: bool, imageWidth: nat, imageHeight: nat)
    returns (board: SkinnedBoard, r: Result<Unit, ApproxError>)
    requires SkinIdsValid(skins) && |skins| > 0
    requires width <= U32Max ==> width * skins[0].width == imageWidth
    requires width <= U32Max && height <= U32Max ==> height * skins[0].height == imageHeight
    ensures BoardSound(board) && board.skins == skins
    ensures board.board.width == width && board.board.height == height
    ensures (width > U32Max || height > U32Max) <==> r == Err(DimensionOverflow)
    ensures r.Err? ==> r == Err(DimensionOverflow) || r == Err(CostFailed)
    ensures width <= U32Max && height <= U32Max && !prioritize ==>
      exists log :: Processed(Setting(width, height, skins, cost), true, Blank(width, height),
                              multiset(GridRows(width, height, 0)), log, r, Snap(board))
    ensures width <= U32Max && height <= U32Max && prioritize ==>
      exists first, mid, reached, second :: Prioritized(Setting(width, height, skins, cost), Blank(width, height),
                              multiset(GridRows(width, height, 0)), first, mid, reached, second, r, Snap(board))
    ensures r.Ok? && GarbageFinite(cost) ==> Drawable(board.board.cells, board.cellsSkin, |skins|)
  {
    board := new SkinnedBoard(width, height, skins);
    if width > U32Max || height > U32Max {
      return board, Err(DimensionOverflow);
    }
    assert Snap(board) == Blank(width, height);
    var heap := QueueAll(width, height);
    r := RunPasses(heap, board, cost, prioritize, width, height, skins);
  }
}
