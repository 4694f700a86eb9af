/**
 * The Word exporter: a fixed grid of equal photos on a portrait A4 page,
 * laid out as a table whose photo cells are separated by spacer cells and
 * whose photo rows are separated by spacer rows.
 */
module DocxGenerator {
  import opened Types
  import StableSort

  const A4WidthMm: int := 210
  const A4HeightMm: int := 297
  const MarginMm: int := 10
  const GapMm: int := 2
  const CmToEmu: int := 360000

  /** Printable width and height: the page less a margin on each side. */
  const AvailableWidthMm: int := A4WidthMm - 2 * MarginMm
  const AvailableHeightMm: int := A4HeightMm - 2 * MarginMm

  /** Photo size in centimetres: 3x4 is 3 by 4, every other size is treated as 4 by 6. */
  function PhotoCm(size: PhotoSize): (int, int)
  {
    if size == Size3x4 then (3, 4) else (4, 6)
  }

  /**
   * `floor((available + gap) / (cell + gap))`: the largest number of cells,
   * with a gap between neighbours, that fits in `available`.
   */
  function FitCount(available: int, cell: int, gap: int): (n: nat)
    requires cell > 0 && gap >= 0 && available + gap >= 0
    ensures n * (cell + gap) - gap <= available
    ensures (n + 1) * (cell + gap) - gap > available
  {
    (available + gap) / (cell + gap)
  }

  function Cols(size: PhotoSize): nat
  {
    FitCount(AvailableWidthMm, PhotoCm(size).0 * 10, GapMm)
  }

  function Rows(size: PhotoSize): nat
  {
    FitCount(AvailableHeightMm, PhotoCm(size).1 * 10, GapMm)
  }

  /** 3x4 photos make a 6 by 6 grid; every other size a 4 by 4 grid. */
  lemma GridCounts(size: PhotoSize)
    ensures size == Size3x4 ==> Cols(size) == 6 && Rows(size) == 6
    ensures size != Size3x4 ==> Cols(size) == 4 && Rows(size) == 4
  {
    if size == Size3x4 {
      assert Cols(size) == FitCount(190, 30, 2) == 192 / 32 == 6;
      assert Rows(size) == FitCount(277, 40, 2) == 279 / 42 == 6;
    } else {
      assert Cols(size) == FitCount(190, 40, 2) == 192 / 42 == 4;
      assert Rows(size) == FitCount(277, 60, 2) == 279 / 62 == 4;
    }
  }

  /** Every size gets at least one row and one column. */
  lemma GridNonEmpty(size: PhotoSize)
    ensures Cols(size) >= 1 && Rows(size) >= 1
  {
    GridCounts(size);
  }

  /** The image used for slot `index`: cycled through in mixed mode, else always the first. */
  function SlotSource(images: seq<string>, isMixed: bool, index: nat): (src: string)
    requires |images| > 0
    ensures src in images
  {
    if isMixed then images[index % |images|] else images[0]
  }

  datatype Cell =
    | Photo(src: string, widthEmu: int, heightEmu: int)
    | EmptyCell
    | Spacer

  datatype Row = Row(cells: seq<Cell>, spacer: bool)

  /** A photo cell for a non-empty data URL, an empty placeholder otherwise. */
  function SlotCell(src: string, size: PhotoSize): Cell
  {
    if src != "" then Photo(src, PhotoCm(size).0 * CmToEmu, PhotoCm(size).1 * CmToEmu) else EmptyCell
  }

  /** Cell `i` of photo row `r`: photo slots at even positions, spacers between them. */
  function ExpectedCell(images: seq<string>, size: PhotoSize, isMixed: bool, r: nat, i: nat): Cell
    requires |images| > 0
  {
    if i % 2 == 0 then SlotCell(SlotSource(images, isMixed, r * Cols(size) + i / 2), size) else Spacer
  }

  function PhotoRow(images: seq<string>, size: PhotoSize, isMixed: bool, r: nat): Row
    requires |images| > 0
  {
    GridNonEmpty(size);
    Row(seq(2 * Cols(size) - 1, i requires 0 <= i => ExpectedCell(images, size, isMixed, r, i)), false)
  }

  function SpacerRow(size: PhotoSize): Row
  {
    GridNonEmpty(size);
    Row(seq(2 * Cols(size) - 1, i => Spacer), true)
  }

  /** Table row `j`: photo rows at even positions, spacer rows between them. */
  function ExpectedRow(images: seq<string>, size: PhotoSize, isMixed: bool, j: nat): Row
    requires |images| > 0
  {
    if j % 2 == 0 then PhotoRow(images, size, isMixed, j / 2) else SpacerRow(size)
  }

  /** The whole table the exporter builds. */
  function Table(images: seq<string>, size: PhotoSize, isMixed: bool): seq<Row>
    requires |images| > 0
  {
    GridNonEmpty(size);
    seq(2 * Rows(size) - 1, j requires 0 <= j => ExpectedRow(images, size, isMixed, j))
  }

  /** The photo cells of row `r` with their spacers, built cell by cell. */
  method BuildPhotoRow(images: seq<string>, size: PhotoSize, isMixed: bool, r: nat) returns (row: Row)
    requires |images| > 0
    ensures row == PhotoRow(images, size, isMixed, r)
  {
    GridNonEmpty(size);
    var cols := Cols(size);
    var cells: seq<Cell> := [];
    for c := 0 to cols
      invariant |cells| == if c < cols then 2 * c else 2 * cols - 1
      invariant forall i :: 0 <= i < |cells| ==> cells[i] == ExpectedCell(images, size, isMixed, r, i)
    {
      var index := r * cols + c;
      var src := SlotSource(images, isMixed, index);
      CellsAt(images, size, isMixed, r, c);
      cells := cells + [SlotCell(src, size)];
      if c < cols - 1 {
        cells := cells + [Spacer];
      }
    }
    row := Row(cells, false);
  }

  /** Position `2 * c` of photo row `r` holds slot `r * cols + c`; position `2 * c + 1` a spacer. */
  lemma CellsAt(images: seq<string>, size: PhotoSize, isMixed: bool, r: nat, c: nat)
    requires |images| > 0
    ensures ExpectedCell(images, size, isMixed, r, 2 * c)
      == SlotCell(SlotSource(images, isMixed, r * Cols(size) + c), size)
    ensures ExpectedCell(images, size, isMixed, r, 2 * c + 1) == Spacer
  {
    Halves(c);
  }

  /** Table row `2 * r` is photo row `r`; row `2 * r + 1` a spacer row. */
  lemma RowsAt(images: seq<string>, size: PhotoSize, isMixed: bool, r: nat)
    requires |images| > 0
    ensures ExpectedRow(images, size, isMixed, 2 * r) == PhotoRow(images, size, isMixed, r)
    ensures ExpectedRow(images, size, isMixed, 2 * r + 1) == SpacerRow(size)
  {
    Halves(r);
  }

  lemma Halves(c: nat)
    ensures (2 * c) % 2 == 0 && (2 * c) / 2 == c && (2 * c + 1) % 2 == 1
  {
  }

  /** A spacer row: as many empty cells as a photo row has. */
  method BuildSpacerRow(size: PhotoSize) returns (row: Row)
    ensures row == SpacerRow(size)
  {
    GridNonEmpty(size);
    var cols := Cols(size);
    var spacerCells: seq<Cell> := [];
    for i := 0 to 2 * cols - 1
      invariant spacerCells == seq(i, k => Spacer)
    {
      spacerCells := spacerCells + [Spacer];
    }
    row := Row(spacerCells, true);
  }

  /** `generateDocx` up to saving the document: nothing for no images, else the table. */
  method GenerateDocx(images: seq<string>, size: PhotoSize, isMixed: bool) returns (table: Option<seq<Row>>)
    ensures images == [] ==> table == None
    ensures images != [] ==> table == Some(Table(images, size, isMixed))
  {
    if |images| == 0 {
      return None;
    }
    GridNonEmpty(size);
    var rows := Rows(size);
    var tableRows: seq<Row> := [];
    for r := 0 to rows
      invariant |tableRows| == if r < rows then 2 * r else 2 * rows - 1
      invariant forall j :: 0 <= j < |tableRows| ==> tableRows[j] == ExpectedRow(images, size, isMixed, j)
    {
      var row := BuildPhotoRow(images, size, isMixed, r);
      RowsAt(images, size, isMixed, r);
      tableRows := tableRows + [row];
      if r < rows - 1 {
        var spacer := BuildSpacerRow(size);
        tableRows := tableRows + [spacer];
      }
    }
    assert tableRows == Table(images, size, isMixed);
    table := Some(tableRows);
  }

  /**
   * The table has 2 * rows - 1 rows: photo rows first, last and at every even
   * position, spacer rows only between them; every row has 2 * cols - 1 cells.
   */
  lemma TableShape(images: seq<string>, size: PhotoSize, isMixed: bool)
    requires |images| > 0
    ensures var t := Table(images, size, isMixed);
      && |t| == 2 * Rows(size) - 1
      && !t[0].spacer && !t[|t| - 1].spacer
      && forall j :: 0 <= j < |t| ==> |t[j].cells| == 2 * Cols(size) - 1 && (t[j].spacer <==> j % 2 == 1)
  {
    GridNonEmpty(size);
  }

  /** The cell of slot (r, c) shows the image the slot index r * cols + c selects. */
  lemma SlotCellAt(images: seq<string>, size: PhotoSize, isMixed: bool, r: nat, c: nat)
    requires |images| > 0 && r < Rows(size) && c < Cols(size)
    ensures var t := Table(images, size, isMixed);
      && 2 * r < |t| && 2 * c < |t[2 * r].cells|
      && t[2 * r].cells[2 * c] == SlotCell(SlotSource(images, isMixed, r * Cols(size) + c), size)
  {
    GridNonEmpty(size);
    var t := Table(images, size, isMixed);
    assert t[2 * r] == PhotoRow(images, size, isMixed, r);
    assert (2 * c) / 2 == c;
  }

  /** Slot (r, c) has an index below cols * rows, and that index gives back (r, c). */
  lemma {:induction false} SlotIndexDecodes(cols: nat, rows: nat, r: nat, c: nat)
    requires r < rows && c < cols
    ensures r * cols + c < cols * rows
    ensures (r * cols + c) / cols == r && (r * cols + c) % cols == c
  {
    assert r * cols + c < (r + 1) * cols;
    assert (r + 1) * cols <= rows * cols by {
      MultiplyMonotone(r + 1, rows, cols);
    }
    DivisionOfSlot(cols, r, c);
  }

  /** Every index below cols * rows is the index of exactly the slot (k / cols, k % cols). */
  lemma {:induction false} SlotIndexCovers(cols: nat, rows: nat, k: nat)
    requires k < cols * rows
    ensures cols > 0 && k / cols < rows && k % cols < cols && (k / cols) * cols + k % cols == k
  {
    assert cols > 0;
    if k / cols >= rows {
      MultiplyMonotone(rows, k / cols, cols);
      assert false;
    }
  }

  lemma MultiplyMonotone(a: nat, b: nat, m: nat)
    requires a <= b
    ensures a * m <= b * m
  {
  }

  lemma DivisionOfSlot(cols: nat, r: nat, c: nat)
    requires c < cols
    ensures (r * cols + c) / cols == r && (r * cols + c) % cols == c
  {
    DivModUnique(r * cols + c, cols, r, c);
  }

  /** Quotient and remainder are the only such pair. */
  lemma DivModUnique(a: int, d: int, q: int, m: int)
    requires d > 0 && 0 <= m < d && a == q * d + m
    ensures a / d == q && a % d == m
  {
    var q', m' := a / d, a % d;
    assert a == q' * d + m';
    if q' > q {
      assert q' * d >= (q + 1) * d by { MultiplyMonotoneInt(q + 1, q', d); }
      assert false;
    } else if q' < q {
      assert (q' + 1) * d <= q * d by { MultiplyMonotoneInt(q' + 1, q, d); }
      assert false;
    }
  }

  lemma MultiplyMonotoneInt(a: int, b: int, m: nat)
    requires a <= b
    ensures a * m <= b * m
  {
    assert b * m - a * m == (b - a) * m;
  }

  /** In mixed mode, slots cycle through the images: slot k + n shows what slot k shows. */
  lemma MixedCycles(images: seq<string>, k: nat)
    requires |images| > 0
    ensures SlotSource(images, true, k + |images|) == SlotSource(images, true, k)
    ensures k < |images| ==> SlotSource(images, true, k) == images[k]
  {
    var n := |images|;
    DivModUnique(k + n, n, k / n + 1, k % n);
    if k < n {
      DivModUnique(k, n, 0, k);
    }
  }

  /** Outside mixed mode every slot shows the first image; with one image the modes agree. */
  lemma SingleSourceModes(images: seq<string>, k: nat)
    requires |images| > 0
    ensures SlotSource(images, false, k) == images[0]
    ensures |images| == 1 ==> SlotSource(images, true, k) == SlotSource(images, false, k)
  {
  }
}
