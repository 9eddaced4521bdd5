/**
 * Block skins and the skinned board: the nine tiles of a skin with their
 * average colours, the choice of tile for a piece or a board character, the
 * resizing of skins to the board's cell size, and a board that records which
 * skin painted each cell.
 */
module Skins {
  import opened Wrappers
  import opened Pieces
  import opened Boards

  newtype byte = x: int | 0 <= x < 256

  const U32Max: int := 0xffff_ffff

  /** `usize::MAX`, the skin id of a cell nothing has painted. */
  const InvalidSkinId: nat := 0xffff_ffff_ffff_ffff

  /** An `Rgba<u8>` pixel. */
  datatype Rgba = Rgba(r: byte, g: byte, b: byte, a: byte)

  /** Channel k (red, green, blue, alpha) of a pixel. */
  function Channel(p: Rgba, k: nat): (v: int)
    requires k < 4
    ensures 0 <= v <= 255
  {
    if k == 0 then p.r as int else if k == 1 then p.g as int else if k == 2 then p.b as int else p.a as int
  }

  /** Sum of channel k over a run of pixels. */
  function ChannelSum(pixels: seq<Rgba>, k: nat): (s: int)
    requires k < 4
    ensures 0 <= s <= 255 * |pixels|
  {
    if pixels == [] then 0 else ChannelSum(pixels[..|pixels| - 1], k) + Channel(pixels[|pixels| - 1], k)
  }

  /** Floor of the mean of channel k; at most 255 because every term is. */
  function ChannelMean(pixels: seq<Rgba>, k: nat): (m: byte)
    requires k < 4 && |pixels| > 0
    ensures m as int * |pixels| <= ChannelSum(pixels, k) < (m as int + 1) * |pixels|
  {
    var s := ChannelSum(pixels, k);
    DivFloor(s, |pixels|);
    MulLtCancel(s / |pixels|, 256, |pixels|);
    (s / |pixels|) as byte
  }

  lemma DivFloor(s: nat, n: nat)
    requires n > 0
    ensures (s / n) * n <= s < (s / n + 1) * n
  {
  }

  /** Multiplying by a positive count keeps a strict order, in reverse. */
  lemma MulLtCancel(a: int, c: int, n: nat)
    requires n > 0 && a * n < c * n
    ensures a < c
  {
  }

  lemma MulAddOne(a: int, n: nat)
    ensures (a + 1) * n == a * n + n
  {
  }

  lemma MulSucc(a: int, n: nat)
    ensures a * (n + 1) == a * n + a
  {
  }

  /** A tile of a skin: its size, and the average colour computed when it was loaded. */
  datatype BlockImage = BlockImage(width: nat, height: nat, avgPixel: Rgba)

  /**
   * `BlockImage::new`: the average pixel is the floor of each channel's sum
   * over the pixel count. The sums are `u32`, so the program needs them not to
   * overflow, and it divides by the pixel count, which must not be zero.
   */
  function NewBlockImage(width: nat, height: nat, pixels: seq<Rgba>): (img: BlockImage)
    requires |pixels| == width * height && width * height <= U32Max && |pixels| > 0
    requires forall k :: 0 <= k < 4 ==> ChannelSum(pixels, k) <= U32Max
    ensures img.width == width && img.height == height
    ensures forall k :: 0 <= k < 4 ==>
      Channel(img.avgPixel, k) * |pixels| <= ChannelSum(pixels, k) < (Channel(img.avgPixel, k) + 1) * |pixels|
  {
    BlockImage(width, height, MeanPixel(pixels))
  }

  /** The pixel whose every channel is the floor of that channel's mean. */
  function MeanPixel(pixels: seq<Rgba>): (m: Rgba)
    requires |pixels| > 0
    ensures forall k :: 0 <= k < 4 ==> Channel(m, k) == ChannelMean(pixels, k) as int
  {
    Rgba(ChannelMean(pixels, 0), ChannelMean(pixels, 1), ChannelMean(pixels, 2), ChannelMean(pixels, 3))
  }

  /** The mean of identical pixels is that pixel. */
  lemma MeanOfUniform(pixels: seq<Rgba>, p: Rgba)
    requires |pixels| > 0 && forall i :: 0 <= i < |pixels| ==> pixels[i] == p
    ensures MeanPixel(pixels) == p
  {
    forall k | 0 <= k < 4 ensures Channel(MeanPixel(pixels), k) == Channel(p, k) {
      MeanBetween(pixels, k, Channel(p, k), Channel(p, k));
    }
  }

  /** A channel sum lies between the count times the smallest and the largest value. */
  lemma {:induction false} ChannelSumBetween(pixels: seq<Rgba>, k: nat, lo: int, hi: int)
    requires k < 4
    requires forall i :: 0 <= i < |pixels| ==> lo <= Channel(pixels[i], k) <= hi
    ensures lo * |pixels| <= ChannelSum(pixels, k) <= hi * |pixels|
  {
    if pixels != [] {
      var n := |pixels| - 1;
      ChannelSumBetween(pixels[..n], k, lo, hi);
      MulSucc(lo, n);
      MulSucc(hi, n);
    }
  }

  /** A mean pixel lies between the darkest and the brightest pixel in every channel. */
  lemma MeanBetween(pixels: seq<Rgba>, k: nat, lo: int, hi: int)
    requires |pixels| > 0
    requires k < 4 && forall i :: 0 <= i < |pixels| ==> lo <= Channel(pixels[i], k) <= hi
    ensures lo <= Channel(MeanPixel(pixels), k) <= hi
  {
    ChannelSumBetween(pixels, k, lo, hi);
    var m := ChannelMean(pixels, k) as int;
    MulAddOne(m, |pixels|);
    MulAddOne(hi, |pixels|);
    MulLtCancel(lo, m + 1, |pixels|);
    MulLtCancel(m, hi + 1, |pixels|);
  }

  /** The nine tiles of a skin, its tile size, and its id. */
  datatype BlockSkin = BlockSkin(
    blackImg: BlockImage, grayImg: BlockImage,
    iImg: BlockImage, oImg: BlockImage, tImg: BlockImage, lImg: BlockImage,
    jImg: BlockImage, sImg: BlockImage, zImg: BlockImage,
    width: nat, height: nat, id: nat)
  {
    /** `as_array_ref`: black, gray, I, O, T, L, J, S, Z. */
    function Images(): (imgs: seq<BlockImage>)
      ensures |imgs| == 9
    {
      [blackImg, grayImg, iImg, oImg, tImg, lImg, jImg, sImg, zImg]
    }
  }

  /** `BlockSkin::block_image_from_piece`. */
  function BlockImageFromPiece(skin: BlockSkin, p: Piece): BlockImage
  {
    match p
    case I(_, _) => skin.iImg
    case O(_, _) => skin.oImg
    case T(_, _) => skin.tImg
    case L(_, _) => skin.lImg
    case J(_, _) => skin.jImg
    case S(_, _) => skin.sImg
    case Z(_, _) => skin.zImg
    case Gray(_) => skin.grayImg
    case Black(_) => skin.blackImg
  }

  /** `BlockSkin::block_image_from_char`: any character other than the eight letters gets the black tile. */
  function BlockImageFromChar(skin: BlockSkin, ch: char): BlockImage
  {
    match ch
    case 'I' => skin.iImg
    case 'O' => skin.oImg
    case 'T' => skin.tImg
    case 'L' => skin.lImg
    case 'J' => skin.jImg
    case 'S' => skin.sImg
    case 'Z' => skin.zImg
    case 'G' => skin.grayImg
    case _ => skin.blackImg
  }

  /** The tile chosen from a board character is the tile of the piece that wrote it. */
  lemma TileOfCharMatchesPiece(skin: BlockSkin, p: Piece)
    ensures BlockImageFromChar(skin, GetChar(p)) == BlockImageFromPiece(skin, p)
    ensures BlockImageFromPiece(skin, p) in skin.Images()
  {
  }

  /** `BlockImage::resize`: only an image of a different size is resampled; the stored average is kept. */
  function ResizeImage(img: BlockImage, width: nat, height: nat): (r: BlockImage)
    ensures r.width == width && r.height == height && r.avgPixel == img.avgPixel
    ensures img.width == width && img.height == height ==> r == img
  {
    if img.width != width || img.height != height then BlockImage(width, height, img.avgPixel) else img
  }

  /** `BlockSkin::resize`: every tile and the skin itself take the new size. */
  function ResizeSkin(skin: BlockSkin, width: nat, height: nat): (r: BlockSkin)
    ensures r.width == width && r.height == height && r.id == skin.id
    ensures forall i :: 0 <= i < 9 ==> r.Images()[i].width == width && r.Images()[i].height == height
    ensures forall i :: 0 <= i < 9 ==> r.Images()[i].avgPixel == skin.Images()[i].avgPixel
  {
    BlockSkin(
      ResizeImage(skin.blackImg, width, height), ResizeImage(skin.grayImg, width, height),
      ResizeImage(skin.iImg, width, height), ResizeImage(skin.oImg, width, height),
      ResizeImage(skin.tImg, width, height), ResizeImage(skin.lImg, width, height),
      ResizeImage(skin.jImg, width, height), ResizeImage(skin.sImg, width, height),
      ResizeImage(skin.zImg, width, height),
      width, height, skin.id)
  }

  datatype SkinError = SizeOverflow | ZeroSkinSize

  /**
   * The tile size `resize_skins` computes: image size over board size, after
   * converting the board size to `u32`. A board size of zero divides by zero
   * in the program, so it is excluded, unless the width conversion fails first.
   */
  function SkinDimensions(imageWidth: nat, imageHeight: nat, boardWidth: nat, boardHeight: nat): (r: Result<(nat, nat), SkinError>)
    requires boardWidth != 0 && (boardWidth > U32Max || boardHeight != 0)
  {
    if boardWidth > U32Max then Err(SizeOverflow)
    else
      var skinWidth := imageWidth / boardWidth;
      if boardHeight > U32Max then Err(SizeOverflow)
      else
        var skinHeight := imageHeight / boardHeight;
        if skinWidth == 0 || skinHeight == 0 then Err(ZeroSkinSize) else Ok((skinWidth, skinHeight))
  }

  /**
   * The tile size is found exactly when the board size fits in `u32` and the
   * image is at least one pixel per cell each way; the tiles then fill the
   * image as far as whole tiles go.
   */
  lemma SkinDimensionsCharacterised(imageWidth: nat, imageHeight: nat, boardWidth: nat, boardHeight: nat)
    requires boardWidth != 0 && (boardWidth > U32Max || boardHeight != 0)
    ensures SkinDimensions(imageWidth, imageHeight, boardWidth, boardHeight).Ok? <==>
      boardWidth <= U32Max && boardHeight <= U32Max && boardWidth <= imageWidth && boardHeight <= imageHeight
    ensures SkinDimensions(imageWidth, imageHeight, boardWidth, boardHeight).Ok? ==>
      var (w, h) := SkinDimensions(imageWidth, imageHeight, boardWidth, boardHeight).value;
      w * boardWidth <= imageWidth < (w + 1) * boardWidth &&
      h * boardHeight <= imageHeight < (h + 1) * boardHeight
  {
    if boardWidth <= U32Max && boardHeight <= U32Max {
      DivZero(imageWidth, boardWidth);
      DivZero(imageHeight, boardHeight);
    }
  }

  lemma DivZero(a: nat, b: nat)
    requires b > 0
    ensures a / b == 0 <==> a < b
    ensures (a / b) * b <= a < (a / b + 1) * b
  {
    DivFloor(a, b);
    var q := a / b;
    if q == 0 {
      assert (q + 1) * b == b;
      assert a < b;
    } else {
      MulAtLeast(q, b);
      assert a >= b;
    }
  }

  /** A positive multiple of b is at least b. */
  lemma {:induction false} MulAtLeast(q: nat, b: nat)
    requires q >= 1
    ensures q * b >= b
  {
    if q > 1 {
      MulAtLeast(q - 1, b);
      MulAddOne(q - 1, b);
    }
  }

  /** `resize_skins`: computes the tile size and, when it is positive, resizes every skin to it. */
  method ResizeSkins(skins: array<BlockSkin>, imageWidth: nat, imageHeight: nat, boardWidth: nat, boardHeight: nat)
    returns (r: Result<Unit, SkinError>)
    requires boardWidth != 0 && (boardWidth > U32Max || boardHeight != 0)
    modifies skins
    ensures SkinDimensions(imageWidth, imageHeight, boardWidth, boardHeight).Err? ==>
      r.Err? && skins[..] == old(skins[..])
    ensures SkinDimensions(imageWidth, imageHeight, boardWidth, boardHeight).Ok? ==>
      var (w, h) := SkinDimensions(imageWidth, imageHeight, boardWidth, boardHeight).value;
      r.Ok? && forall i :: 0 <= i < skins.Length ==> skins[i] == ResizeSkin(old(skins[i]), w, h)
  {
    var dims := SkinDimensions(imageWidth, imageHeight, boardWidth, boardHeight);
    if dims.Err? {
      return Err(dims.error);
    }
    var (w, h) := dims.value;
    for i := 0 to skins.Length
      invariant forall k :: 0 <= k < i ==> skins[k] == ResizeSkin(old(skins[k]), w, h)
      invariant forall k :: i <= k < skins.Length ==> skins[k] == old(skins[k])
    {
      skins[i] := ResizeSkin(skins[i], w, h);
    }
    return Ok(Unit);
  }

  /**
   * The skin ids agree with the grid: a cell is empty exactly when no skin
   * has painted it, and a painted cell's id indexes the skin list.
   */
  predicate SkinsAgree(cells: seq<char>, cellsSkin: seq<nat>, numSkins: nat)
    requires |cellsSkin| == |cells|
  {
    forall j :: 0 <= j < |cells| ==>
      (cells[j] == EmptyCell <==> cellsSkin[j] == InvalidSkinId) &&
      (cells[j] != EmptyCell ==> cellsSkin[j] < numSkins)
  }

  /** What `draw_board` needs: every cell holds one of the nine piece letters and a valid skin id. */
  predicate Drawable(cells: seq<char>, cellsSkin: seq<nat>, numSkins: nat)
    requires |cellsSkin| == |cells|
  {
    forall j :: 0 <= j < |cells| ==> cells[j] in "IOTLJSZGB" && cellsSkin[j] < numSkins
  }

  /** Painting a placed piece's cells with a valid skin id keeps the ids in agreement with the grid. */
  lemma PlaceKeepsSkinsAgree(cells: seq<char>, cellsSkin: seq<nat>, width: nat, height: nat, numSkins: nat, p: Piece, skinId: nat)
    requires |cells| == width * height && |cellsSkin| == |cells|
    requires SkinsAgree(cells, cellsSkin, numSkins) && Placeable(cells, width, height, p)
    requires skinId < numSkins && skinId != InvalidSkinId
    ensures SkinsAgree(PlacedCells(cells, width, height, p),
                       WriteCells(cellsSkin, width, height, Occupancy(p).value, skinId).cells, numSkins)
  {
    GetCharDistinct(p, p);
  }

  /** A cell owned by a piece written into the grid holds that piece's letter. */
  lemma OwnedCellIsLetter(cells: seq<char>, width: nat, height: nat, q: Piece, j: nat)
    requires |cells| == width * height && j < |cells|
    requires Occupies(cells, width, height, q) && Owns(width, q, j)
    ensures cells[j] == GetChar(q) && cells[j] in "IOTLJSZGB"
  {
    var occ := Occupancy(q).value;
    var k :| 0 <= k < |occ| && Index(width, occ[k]) == j;
    assert HoldsAt(cells, width, occ[k], GetChar(q));
    GetCharDistinct(q, q);
  }

  /** A consistent board with no empty cell and agreeing skin ids can be drawn. */
  lemma FullBoardDrawable(cells: seq<char>, cellsSkin: seq<nat>, pieces: seq<Piece>, width: nat, height: nat, numSkins: nat)
    requires |cells| == width * height && |cellsSkin| == |cells|
    requires Consistent(cells, pieces, width, height) && SkinsAgree(cells, cellsSkin, numSkins)
    requires forall j :: 0 <= j < |cells| ==> cells[j] != EmptyCell
    ensures Drawable(cells, cellsSkin, numSkins)
  {
    forall j | 0 <= j < |cells| ensures cells[j] in "IOTLJSZGB" {
      assert cells[j] != EmptyCell;
      assert AllOwned(cells, pieces, width);
      var q :| q in pieces && Owns(width, q, j);
      OwnedCellIsLetter(cells, width, height, q, j);
    }
  }

  /** A painted cell reads back the id it was painted with; other cells keep theirs. */
  lemma PaintedReadsBack(cellsSkin: seq<nat>, width: nat, height: nat, occ: seq<Cell>, skinId: nat, c: Cell)
    requires |cellsSkin| == width * height && AllInBounds(width, height, occ) && InBounds(width, height, c)
    ensures Index(width, c) < |cellsSkin|
    ensures WriteCells(cellsSkin, width, height, occ, skinId).cells[Index(width, c)] ==
      if c in occ then skinId else cellsSkin[Index(width, c)]
  {
    IndexInRange(width, height, c);
    CoversCell(width, height, occ, c);
  }

  /** The board of the image approximation, with the skin id that painted each cell. */
  class SkinnedBoard {
    const board: Board
    var cellsSkin: seq<nat>
    const skins: seq<BlockSkin>

    ghost predicate Valid()
      reads this, board
    {
      board.Valid() && |cellsSkin| == |board.cells|
    }

    /** `SkinnedBoard::new`: an empty board, and every cell unpainted. */
    constructor(width: nat, height: nat, skins: seq<BlockSkin>)
      ensures fresh(board) && Valid()
      ensures board.width == width && board.height == height && this.skins == skins
      ensures board.cells == seq(width * height, _ => EmptyCell) && board.pieces == []
      ensures cellsSkin == seq(width * height, _ => InvalidSkinId)
      ensures Consistent(board.cells, board.pieces, width, height)
      ensures SkinsAgree(board.cells, cellsSkin, |skins|)
    {
      board := new Board(width, height);
      cellsSkin := seq(width * height, _ => InvalidSkinId);
      this.skins := skins;
    }

    /** `SkinnedBoard::empty_at`: a cell out of bounds reads as blocked, hence not empty. */
    function EmptyAt(c: Cell): (b: bool)
      reads this, board
      requires Valid()
      ensures b <==> InBounds(board.width, board.height, c) && HoldsAt(board.cells, board.width, c, EmptyCell)
    {
      var ch := match board.Get(c) case Ok(ch) => ch case Err(_) => BlockedCell;
      ch == EmptyCell
    }

    /** `SkinnedBoard::get_cells_skin`: the id stored at the cell's position, which must exist. */
    function GetCellsSkin(c: Cell): (id: nat)
      reads this, board
      requires Valid() && Index(board.width, c) < |cellsSkin|
      ensures id == cellsSkin[Index(board.width, c)]
    {
      cellsSkin[c.y * board.width + c.x]
    }

    /**
     * `SkinnedBoard::place`: places the piece on the board, and only when that
     * succeeds paints its cells with the skin id.
     */
    method Place(p: Piece, skinId: nat) returns (r: Result<Unit, BoardError>)
      requires Valid()
      modifies this, board
      ensures Valid()
      ensures r.Ok? <==> old(Placeable(board.cells, board.width, board.height, p))
      ensures r.Ok? ==>
        board.cells == PlacedCells(old(board.cells), board.width, board.height, p) &&
        board.pieces == old(board.pieces) + [p] &&
        cellsSkin == WriteCells(old(cellsSkin), board.width, board.height, Occupancy(p).value, skinId).cells
      ensures r.Err? ==> board.cells == old(board.cells) && board.pieces == old(board.pieces) && cellsSkin == old(cellsSkin)
      ensures old(Consistent(board.cells, board.pieces, board.width, board.height)) ==>
        Consistent(board.cells, board.pieces, board.width, board.height)
      ensures old(SkinsAgree(board.cells, cellsSkin, |skins|)) && skinId < |skins| && skinId != InvalidSkinId ==>
        SkinsAgree(board.cells, cellsSkin, |skins|)
    {
      ghost var (cells0, skin0) := (board.cells, cellsSkin);
      r := board.Place(p);
      if r.Err? {
        return;
      }
      var toPaint := GetOccupancy(p);
      Paint(toPaint.value, skinId);
      if SkinsAgree(cells0, skin0, |skins|) && skinId < |skins| && skinId != InvalidSkinId {
        PlaceKeepsSkinsAgree(cells0, skin0, board.width, board.height, |skins|, p, skinId);
      }
    }

    /** The painting loop of `place`: writes the skin id at each cell's position. */
    method Paint(occ: seq<Cell>, skinId: nat)
      requires Valid() && AllInBounds(board.width, board.height, occ)
      modifies this
      ensures Valid()
      ensures cellsSkin == WriteCells(old(cellsSkin), board.width, board.height, occ, skinId).cells
    {
      ghost var skin0 := cellsSkin;
      var boardWidth := board.width;
      for i := 0 to |occ|
        invariant |cellsSkin| == |skin0|
        invariant WriteCells(skin0, board.width, board.height, occ[..i], skinId).complete
        invariant cellsSkin == WriteCells(skin0, board.width, board.height, occ[..i], skinId).cells
      {
        WriteCellsStep(skin0, board.width, board.height, occ, skinId, i);
        cellsSkin := cellsSkin[occ[i].y * boardWidth + occ[i].x := skinId];
      }
      assert occ[..|occ|] == occ;
    }
  }
}
