/**
 * Shared vocabulary of the ID-photo application: the photo-size enumeration
 * and its millimetre table, the print configuration, the tone adjustment
 * records and the uploaded-image record.
 */
module Types {

  datatype Option<T> = None | Some(value: T)

  /** The nine print sizes, declared in catalogue order (smallest first). */
  datatype PhotoSize =
    | Size2x3 | Size3x4 | Size4x6 | Size6x9 | Size9x12
    | Size10x15 | Size13x18 | Size15x21 | Size20x30

  /** `Object.values(PhotoSize)`: the enumeration in declaration order. */
  const AllSizes: seq<PhotoSize> :=
    [Size2x3, Size3x4, Size4x6, Size6x9, Size9x12, Size10x15, Size13x18, Size15x21, Size20x30]

  /** The string value of each enumeration member; it is the key used in a print configuration. */
  function Label(s: PhotoSize): string
  {
    match s
    case Size2x3 => "2x3"
    case Size3x4 => "3x4"
    case Size4x6 => "4x6"
    case Size6x9 => "6x9"
    case Size9x12 => "9x12"
    case Size10x15 => "10x15"
    case Size13x18 => "13x18"
    case Size15x21 => "15x21"
    case Size20x30 => "20x30"
  }

  /** A string that is the key of some size. */
  ghost predicate IsSizeKey(key: string)
  {
    exists s: PhotoSize :: key == Label(s)
  }

  /** Position of a size in declaration order. */
  function SizeIndex(s: PhotoSize): (i: nat)
    ensures i < |AllSizes| && AllSizes[i] == s
  {
    match s
    case Size2x3 => 0
    case Size3x4 => 1
    case Size4x6 => 2
    case Size6x9 => 3
    case Size9x12 => 4
    case Size10x15 => 5
    case Size13x18 => 6
    case Size15x21 => 7
    case Size20x30 => 8
  }

  /** The enumeration lists every size exactly once, and distinct sizes have distinct keys. */
  lemma EnumerationIsExact()
    ensures |AllSizes| == 9
    ensures forall s: PhotoSize :: s in AllSizes
    ensures forall i, j :: 0 <= i < j < |AllSizes| ==> AllSizes[i] != AllSizes[j]
    ensures forall s, t: PhotoSize :: Label(s) == Label(t) ==> s == t
  {
    forall s: PhotoSize ensures s in AllSizes {
      assert AllSizes[SizeIndex(s)] == s;
    }
    forall i, j | 0 <= i < j < |AllSizes| ensures AllSizes[i] != AllSizes[j] {
      assert SizeIndex(AllSizes[i]) == i && SizeIndex(AllSizes[j]) == j;
    }
  }

  datatype Dims = Dims(width: int, height: int)

  /**
   * `getDimensions`: the size of a photo in millimetres, looked up by its
   * configuration key; a key that names no size falls back to 30 x 40.
   */
  function Dimensions(key: string): (d: Dims)
    ensures 0 < d.width < d.height
  {
    if key == "2x3" then Dims(20, 30)
    else if key == "3x4" then Dims(30, 40)
    else if key == "4x6" then Dims(40, 60)
    else if key == "6x9" then Dims(60, 90)
    else if key == "9x12" then Dims(90, 120)
    else if key == "10x15" then Dims(100, 150)
    else if key == "13x18" then Dims(130, 180)
    else if key == "15x21" then Dims(150, 210)
    else if key == "20x30" then Dims(200, 300)
    else Dims(30, 40)
  }

  /** Widths strictly increase along the enumeration order, and so do areas. */
  lemma WidthsIncrease()
    ensures forall i, j :: 0 <= i < j < |AllSizes| ==>
      Dimensions(Label(AllSizes[i])).width < Dimensions(Label(AllSizes[j])).width
    ensures forall i, j :: 0 <= i < j < |AllSizes| ==>
      Dimensions(Label(AllSizes[i])).width * Dimensions(Label(AllSizes[i])).height
      < Dimensions(Label(AllSizes[j])).width * Dimensions(Label(AllSizes[j])).height
  {
    SizeTable();
    TablesIncrease();
  }

  lemma TablesIncrease()
    ensures forall i, j :: 0 <= i < j < |Widths| ==> Widths[i] < Widths[j]
    ensures forall i, j :: 0 <= i < j < |Areas| ==> Areas[i] < Areas[j]
  {
    assert Widths[0] < Widths[1] < Widths[2] < Widths[3] < Widths[4] < Widths[5] < Widths[6] < Widths[7] < Widths[8];
    ChainIncreases(Widths);
    ChainIncreases(Areas);
  }

  const Widths: seq<int> := [20, 30, 40, 60, 90, 100, 130, 150, 200]
  const Areas: seq<int> := [600, 1200, 2400, 5400, 10800, 15000, 23400, 31500, 60000]

  /** The width and area of every enumeration member, in enumeration order. */
  lemma SizeTable()
    ensures |Widths| == |Areas| == |AllSizes|
    ensures forall k :: 0 <= k < |AllSizes| ==> Dimensions(Label(AllSizes[k])).width == Widths[k]
    ensures forall k :: 0 <= k < |AllSizes| ==>
      Dimensions(Label(AllSizes[k])).width * Dimensions(Label(AllSizes[k])).height == Areas[k]
  {
  }

  /** A sequence that grows from each element to the next grows between any two. */
  lemma {:induction false} ChainIncreases(s: seq<int>)
    requires forall k :: 0 < k < |s| ==> s[k - 1] < s[k]
    ensures forall i, j :: 0 <= i < j < |s| ==> s[i] < s[j]
  {
    if |s| > 1 {
      var front := s[..|s| - 1];
      ChainIncreases(front);
      forall i, j | 0 <= i < j < |s| ensures s[i] < s[j] {
        if j < |s| - 1 {
          assert front[i] < front[j];
        } else if i < j - 1 {
          assert front[i] < front[j - 1];
        }
      }
    }
  }

  /** A key outside the enumeration is drawn as a 3x4 photo. */
  lemma UnknownKeyFallsBack(key: string)
    requires forall s: PhotoSize :: key != Label(s)
    ensures Dimensions(key) == Dimensions(Label(Size3x4))
  {
    assert key != Label(Size2x3) && key != Label(Size4x6) && key != Label(Size6x9);
    assert key != Label(Size9x12) && key != Label(Size10x15) && key != Label(Size13x18);
    assert key != Label(Size15x21) && key != Label(Size20x30) && key != Label(Size3x4);
  }

  /** One `[key, quantity]` pair of `Object.entries(printConfig)`. */
  datatype Entry = Entry(key: string, qty: int)

  /** `PrintConfig`: the quantity per size, in the key order of the underlying object. */
  type PrintConfig = seq<Entry>

  /** The configuration maps every size, and its keys come in enumeration order. */
  predicate WellFormed(config: PrintConfig)
  {
    |config| == |AllSizes| && forall i :: 0 <= i < |config| ==> config[i].key == Label(AllSizes[i])
  }

  /** Every size at quantity 0 except `s`, at `qty`. */
  function SingleSizeConfig(s: PhotoSize, qty: int): (config: PrintConfig)
    ensures WellFormed(config)
  {
    seq(|AllSizes|, i requires 0 <= i < |AllSizes| => Entry(Label(AllSizes[i]), if AllSizes[i] == s then qty else 0))
  }

  /** Fill one page with the selected image, or lay out every image. */
  datatype LayoutMode = FillPage | Mixed

  datatype PaperOrientation = Portrait | Landscape

  /**
   * `ImageAdjustments`: brightness, contrast and saturation are percentages
   * (100 is neutral), shadows and highlights are signed amounts (0 is neutral).
   */
  datatype ImageAdjustments = ImageAdjustments(
    brightness: real, contrast: real, saturation: real, shadows: real, highlights: real)

  const NeutralAdjustments := ImageAdjustments(100.0, 100.0, 100.0, 0.0, 0.0)

  /** The ranges the sliders allow. */
  predicate InDocumentedRange(a: ImageAdjustments)
  {
    && 0.0 <= a.brightness <= 200.0
    && 0.0 <= a.contrast <= 200.0
    && 0.0 <= a.saturation <= 200.0
    && -100.0 <= a.shadows <= 100.0
    && -100.0 <= a.highlights <= 100.0
  }

  /**
   * `RegionalAdjustment`: the five adjustment fields of a spot edit, its
   * centre as fractions of the image width (x) and height (y), and its radius
   * as a fraction of the image width.
   */
  datatype RegionalAdjustment = RegionalAdjustment(
    id: string, x: real, y: real, radius: real,
    brightness: real, contrast: real, saturation: real, shadows: real, highlights: real)

  /** The adjustment fields a region shares with `ImageAdjustments`. */
  function RegionAdjustments(r: RegionalAdjustment): ImageAdjustments
  {
    ImageAdjustments(r.brightness, r.contrast, r.saturation, r.shadows, r.highlights)
  }

  predicate NormalisedCentre(r: RegionalAdjustment)
  {
    0.0 <= r.x <= 1.0 && 0.0 <= r.y <= 1.0
  }

  datatype ImageStatus = Pending | Processing | Done | Error

  /** `OutfitImage`: an outfit picture the user uploaded. */
  datatype OutfitImage = OutfitImage(id: string, original: string)

  /** `UploadedImage`; the image payloads are data URLs, kept as opaque strings. */
  datatype UploadedImage = UploadedImage(
    id: string,
    original: string,
    cropped: Option<string>,
    processed: Option<string>,
    status: ImageStatus,
    errorMessage: Option<string>,
    selectedOutfitId: Option<string>,
    usedColor: Option<string>,
    adjustments: ImageAdjustments,
    regionalAdjustments: seq<RegionalAdjustment>)
}
