/**
 * The sheet layout engine of the A4 preview (`A4Sheet`'s `pages` memo):
 * expand the print configuration into one request per copy, sort the
 * requests by ascending area (stable), walk a shelf cursor with row and page
 * wrapping, and group the placed photos by page.  The PDF export runs the
 * same walk; its model (module PdfGenerator) is proved equal to this one.
 */
module A4Sheet {
  import opened Types
  import StableSort

  /** Margin on every side and gap between photos, in millimetres. */
  const MarginMm: int := 10
  const GapMm: int := 2

  function Max(a: int, b: int): int
  {
    if a >= b then a else b
  }

  datatype Geometry = Geometry(pageWidth: int, pageHeight: int, margin: int, gap: int)
  {
    /** The right edge a photo may reach: only one margin is subtracted. */
    function MaxW(): int { pageWidth - margin }
    /** The bottom edge a photo may reach. */
    function MaxH(): int { pageHeight - margin }
  }

  /** An A4 sheet in the given orientation, with the fixed margin and gap. */
  function PageGeometry(orientation: PaperOrientation): Geometry
  {
    if orientation == Landscape then Geometry(297, 210, MarginMm, GapMm)
    else Geometry(210, 297, MarginMm, GapMm)
  }

  /**
   * Which catalogue sizes fit between the margins: every width but that of
   * 20x30 in portrait, every width in landscape; every height but that of
   * 20x30 in portrait, all but those of 15x21 and 20x30 in landscape.
   */
  lemma CatalogueFit(s: PhotoSize, o: PaperOrientation)
    ensures var g, d := PageGeometry(o), Dimensions(Label(s));
      && g.MaxW() == g.pageWidth - 10 && g.MaxH() == g.pageHeight - 10
      && (d.width <= g.MaxW() - g.margin <==> o == Landscape || s != Size20x30)
      && (d.height <= g.MaxH() - g.margin <==>
            if o == Portrait then s != Size20x30 else s != Size15x21 && s != Size20x30)
  {
    match s
    case Size2x3 => case Size3x4 => case Size4x6 => case Size6x9 => case Size9x12 =>
    case Size10x15 => case Size13x18 => case Size15x21 => case Size20x30 =>
  }

  /** One copy to draw: the image, its size in millimetres and its size key. */
  datatype Request = Request(src: string, w: int, h: int, sizeKey: string)

  /** The sort key: `w * h`. */
  function Area(r: Request): int
  {
    r.w * r.h
  }

  /** A placed photo. */
  datatype RenderItem = RenderItem(
    src: string, width: int, height: int, x: int, y: int, page: int, sizeKey: string)

  // ---------------------------------------------------------------------------
  // 1. Flatten the request

  /** `qty` copies of one entry's photo of image `img`; nothing unless `qty > 0`. */
  function Copies(img: string, e: Entry): seq<Request>
  {
    if e.qty > 0 then
      var d := Dimensions(e.key);
      seq(e.qty, _ => Request(img, d.width, d.height, e.key))
    else []
  }

  /** All copies of one image, in configuration key order. */
  function ExpandImage(img: string, entries: seq<Entry>): seq<Request>
  {
    if entries == [] then []
    else ExpandImage(img, entries[..|entries| - 1]) + Copies(img, entries[|entries| - 1])
  }

  /** The flattened request: image-major, then configuration key order. */
  function Expand(images: seq<string>, config: PrintConfig): seq<Request>
  {
    if images == [] then []
    else Expand(images[..|images| - 1], config) + ExpandImage(images[|images| - 1], config)
  }

  /** Sum of the positive quantities of a configuration. */
  function Demand(entries: seq<Entry>): nat
  {
    if entries == [] then 0
    else Demand(entries[..|entries| - 1]) + (if entries[|entries| - 1].qty > 0 then entries[|entries| - 1].qty else 0)
  }

  method Flatten(images: seq<string>, config: PrintConfig) returns (rawItems: seq<Request>)
    ensures rawItems == Expand(images, config)
  {
    rawItems := [];
    for n := 0 to |images|
      invariant rawItems == Expand(images[..n], config)
    {
      var img := images[n];
      ghost var done := rawItems;
      for m := 0 to |config|
        invariant rawItems == done + ExpandImage(img, config[..m])
      {
        var entry := config[m];
        ghost var before := rawItems;
        if entry.qty > 0 {
          var dims := Dimensions(entry.key);
          for i := 0 to entry.qty
            invariant rawItems == before + Copies(img, entry)[..i]
          {
            var r := Request(img, dims.width, dims.height, entry.key);
            CopiesStep(img, entry, i);
            StableSort.ConcatAssoc(before, Copies(img, entry)[..i], [r]);
            rawItems := rawItems + [r];
          }
        }
        CopiesWhole(img, entry);
        ExpandImageStep(img, config, m);
        StableSort.ConcatAssoc(done, ExpandImage(img, config[..m]), Copies(img, entry));
      }
      assert config[..|config|] == config;
      ExpandStep(images, config, n);
    }
    assert images[..|images|] == images;
  }

  /** One more copy extends the prefix of an entry's copies by one request. */
  lemma CopiesStep(img: string, e: Entry, i: nat)
    requires i < e.qty
    ensures Copies(img, e)[..i + 1]
      == Copies(img, e)[..i] + [Request(img, Dimensions(e.key).width, Dimensions(e.key).height, e.key)]
  {
  }

  lemma CopiesWhole(img: string, e: Entry)
    ensures |Copies(img, e)| == if e.qty > 0 then e.qty else 0
    ensures e.qty > 0 ==> Copies(img, e)[..e.qty] == Copies(img, e)
  {
  }

  lemma ExpandImageStep(img: string, entries: seq<Entry>, m: nat)
    requires m < |entries|
    ensures ExpandImage(img, entries[..m + 1]) == ExpandImage(img, entries[..m]) + Copies(img, entries[m])
  {
    assert entries[..m + 1][..m] == entries[..m];
  }

  lemma ExpandStep(images: seq<string>, config: PrintConfig, n: nat)
    requires n < |images|
    ensures Expand(images[..n + 1], config) == Expand(images[..n], config) + ExpandImage(images[n], config)
  {
    assert images[..n + 1][..n] == images[..n];
  }

  lemma {:induction false} ExpandImageLength(img: string, entries: seq<Entry>)
    ensures |ExpandImage(img, entries)| == Demand(entries)
  {
    if entries != [] {
      ExpandImageLength(img, entries[..|entries| - 1]);
    }
  }

  lemma MultiplyStep(n: int, d: int)
    ensures (n - 1) * d + d == n * d
  {
  }

  /** The flattened request holds `|images|` times the total positive quantity. */
  lemma {:induction false} ExpandLength(images: seq<string>, config: PrintConfig)
    ensures |Expand(images, config)| == |images| * Demand(config)
  {
    if images != [] {
      var n, d := |images|, Demand(config);
      ExpandLength(images[..n - 1], config);
      ExpandImageLength(images[n - 1], config);
      MultiplyStep(n, d);
    }
  }

  /** Flattening distributes over a split of the image list: image-major order. */
  lemma {:induction false} ExpandAppend(a: seq<string>, b: seq<string>, config: PrintConfig)
    ensures Expand(a + b, config) == Expand(a, config) + Expand(b, config)
  {
    if b == [] {
      assert a + b == a;
    } else {
      var b', last := b[..|b| - 1], b[|b| - 1];
      assert (a + b)[..|a + b| - 1] == a + b';
      assert (a + b)[|a + b| - 1] == last;
      ExpandAppend(a, b', config);
      StableSort.ConcatAssoc(Expand(a, config), Expand(b', config), ExpandImage(last, config));
    }
  }

  /** Every request has the positive size its key looks up. */
  lemma {:induction false} ExpandSizesPositive(images: seq<string>, config: PrintConfig)
    ensures forall r :: r in Expand(images, config) ==> r.w > 0 && r.h > 0 && r.w == Dimensions(r.sizeKey).width && r.h == Dimensions(r.sizeKey).height
  {
    if images != [] {
      ExpandSizesPositive(images[..|images| - 1], config);
      ExpandImageSizes(images[|images| - 1], config);
    }
  }

  lemma {:induction false} ExpandImageSizes(img: string, entries: seq<Entry>)
    ensures forall r :: r in ExpandImage(img, entries) ==> r.w > 0 && r.h > 0 && r.w == Dimensions(r.sizeKey).width && r.h == Dimensions(r.sizeKey).height
  {
    if entries != [] {
      ExpandImageSizes(img, entries[..|entries| - 1]);
      var last := entries[|entries| - 1];
      assert forall r :: r in Copies(img, last) ==> r.sizeKey == last.key;
    }
  }

  /** The requests that a well-formed configuration yields for `img`. */
  ghost predicate ValidRequest(r: Request, img: string)
  {
    && r.src == img
    && IsSizeKey(r.sizeKey)
    && r.w == Dimensions(r.sizeKey).width && r.h == Dimensions(r.sizeKey).height
  }

  /**
   * Each copy of one image carries that image, a size key of the enumeration
   * and the size's dimensions; a key with quantity `q > 0` gives `q` copies,
   * adjacent and in key order.
   */
  lemma {:induction false} ExpandImageContents(img: string, entries: seq<Entry>)
    requires forall i :: 0 <= i < |entries| ==> IsSizeKey(entries[i].key)
    ensures forall r :: r in ExpandImage(img, entries) ==> ValidRequest(r, img)
  {
    if entries != [] {
      var last := entries[|entries| - 1];
      ExpandImageContents(img, entries[..|entries| - 1]);
      assert forall r :: r in Copies(img, last) ==> r.sizeKey == last.key;
    }
  }

  /** Every request names one of the images and has positive dimensions. */
  lemma {:induction false} ExpandContents(images: seq<string>, config: PrintConfig)
    requires WellFormed(config)
    ensures forall r :: r in Expand(images, config) ==> r.src in images && ValidRequest(r, r.src)
    ensures forall r :: r in Expand(images, config) ==> r.w > 0 && r.h > 0
  {
    if images != [] {
      var img := images[|images| - 1];
      ExpandContents(images[..|images| - 1], config);
      forall i | 0 <= i < |config| ensures IsSizeKey(config[i].key) {
        assert config[i].key == Label(AllSizes[i]);
      }
      ExpandImageContents(img, config);
      forall r | r in Expand(images, config) ensures r.src in images {
        if r in Expand(images[..|images| - 1], config) {
          assert r.src in images[..|images| - 1];
        }
      }
    }
  }

  // ---------------------------------------------------------------------------
  // 3. The cursor walk

  datatype Cursor = Cursor(x: int, y: int, page: int, rowHeight: int)

  function Start(g: Geometry): Cursor
  {
    Cursor(g.margin, g.margin, 1, 0)
  }

  /**
   * `edge > limit + 0.1`: the 0.1 mm tolerance, written in tenths of a
   * millimetre so that it stays exact on whole millimetres.
   */
  predicate Overflows(edge: int, limit: int)
  {
    10 * edge > 10 * limit + 1
  }

  /** On whole millimetres the tolerance changes nothing. */
  lemma OverflowIsStrictExcess(edge: int, limit: int)
    ensures Overflows(edge, limit) <==> edge > limit
  {
  }

  /** Row wrap, then page wrap: the cursor at which a `w` x `h` photo is placed. */
  function Wrap(c: Cursor, w: int, h: int, g: Geometry): Cursor
  {
    var c1 := if Overflows(c.x + w, g.MaxW())
      then Cursor(g.margin, c.y + c.rowHeight + g.gap, c.page, 0)
      else c;
    if Overflows(c1.y + h, g.MaxH()) then Cursor(g.margin, g.margin, c1.page + 1, 0) else c1
  }

  /** After placing a `w` x `h` photo: move right by `w + gap` and grow the row height. */
  function Advance(c: Cursor, w: int, h: int, g: Geometry): Cursor
  {
    Cursor(c.x + w + g.gap, c.y, c.page, Max(c.rowHeight, h))
  }

  function Place(r: Request, at: Cursor): RenderItem
  {
    RenderItem(r.src, r.w, r.h, at.x, at.y, at.page, r.sizeKey)
  }

  /** The placed items and the cursor after a walk over a queue. */
  datatype Pass = Pass(items: seq<RenderItem>, cursor: Cursor)

  function Run(queue: seq<Request>, g: Geometry): (p: Pass)
    ensures |p.items| == |queue| && p.cursor.page >= 1
  {
    if queue == [] then Pass([], Start(g))
    else
      var prev := Run(queue[..|queue| - 1], g);
      var r := queue[|queue| - 1];
      var at := Wrap(prev.cursor, r.w, r.h, g);
      Pass(prev.items + [Place(r, at)], Advance(at, r.w, r.h, g))
  }

  // ---------------------------------------------------------------------------
  // 4. Group by page

  function PageOf(item: RenderItem): int
  {
    item.page
  }

  /** Page `p` (1-based) of the sheet: the items placed on it, in placement order. */
  function OnPage(items: seq<RenderItem>, p: int): seq<RenderItem>
  {
    StableSort.Filter(items, PageOf, p)
  }

  function Group(items: seq<RenderItem>, totalPages: nat): seq<seq<RenderItem>>
  {
    seq(totalPages, i requires 0 <= i < totalPages => OnPage(items, i + 1))
  }

  method GroupByPage(items: seq<RenderItem>, totalPages: nat) returns (groupedPages: seq<seq<RenderItem>>)
    requires forall i :: 0 <= i < |items| ==> 1 <= items[i].page <= totalPages
    ensures groupedPages == Group(items, totalPages)
  {
    groupedPages := seq(totalPages, _ => []);
    for k := 0 to |items|
      invariant |groupedPages| == totalPages
      invariant forall p :: 0 <= p < totalPages ==> groupedPages[p] == OnPage(items[..k], p + 1)
    {
      var item := items[k];
      groupedPages := groupedPages[item.page - 1 := groupedPages[item.page - 1] + [item]];
      assert items[..k + 1][..k] == items[..k];
      forall p | 0 <= p < totalPages ensures groupedPages[p] == OnPage(items[..k + 1], p + 1) {
        StableSort.DropLastClass(items[..k + 1], PageOf, p + 1);
      }
    }
    assert items[..|items|] == items;
  }

  // ---------------------------------------------------------------------------
  // The whole memo

  /** The sheet's pages for a set of images, a configuration and a geometry. */
  function SheetPages(images: seq<string>, config: PrintConfig, g: Geometry): seq<seq<RenderItem>>
  {
    var pass := Run(StableSort.Sort(Expand(images, config), Area), g);
    if pass.items == [] then [[]] else Group(pass.items, Max(1, pass.cursor.page))
  }

  /** Copy the requests into an array and sort it in place by ascending area. */
  method SortByArea(rawItems: seq<Request>) returns (queue: seq<Request>)
    ensures queue == StableSort.Sort(rawItems, Area)
  {
    var buffer := new Request[|rawItems|](i requires 0 <= i < |rawItems| => rawItems[i]);
    assert buffer[..] == rawItems;
    StableSort.InsertionSort(buffer, Area);
    queue := buffer[..];
  }

  /** The cursor walk: place every request of the sorted queue. */
  method PlaceAll(queue: seq<Request>, orientation: PaperOrientation)
    returns (computedItems: seq<RenderItem>, currentPage: int)
    ensures var p := Run(queue, PageGeometry(orientation));
      computedItems == p.items && currentPage == p.cursor.page
  {
    var g := PageGeometry(orientation);
    var startX, startY := MarginMm, MarginMm;
    var maxW, maxH := g.MaxW(), g.MaxH();
    var cursorX, cursorY, rowHeight := startX, startY, 0;
    currentPage := 1;
    computedItems := [];
    for k := 0 to |queue|
      invariant Run(queue[..k], g) == Pass(computedItems, Cursor(cursorX, cursorY, currentPage, rowHeight))
    {
      var item := queue[k];
      ghost var before := Cursor(cursorX, cursorY, currentPage, rowHeight);
      if Overflows(cursorX + item.w, maxW) {
        cursorX := startX;
        cursorY := cursorY + rowHeight + GapMm;
        rowHeight := 0;
      }
      if Overflows(cursorY + item.h, maxH) {
        currentPage := currentPage + 1;
        cursorX := startX;
        cursorY := startY;
        rowHeight := 0;
      }
      ghost var at := Cursor(cursorX, cursorY, currentPage, rowHeight);
      assert at == Wrap(before, item.w, item.h, g);
      computedItems := computedItems + [RenderItem(item.src, item.w, item.h, cursorX, cursorY, currentPage, item.sizeKey)];
      rowHeight := Max(rowHeight, item.h);
      cursorX := cursorX + item.w + GapMm;
      RunStep(queue, k, g);
    }
    assert queue[..|queue|] == queue;
  }

  /** The `pages` memo: flatten, sort, walk, group; one empty page when nothing is placed. */
  method ComputePages(images: seq<string>, config: PrintConfig, orientation: PaperOrientation)
    returns (pages: seq<seq<RenderItem>>)
    ensures pages == SheetPages(images, config, PageGeometry(orientation))
  {
    var rawItems := Flatten(images, config);
    var queue := SortByArea(rawItems);
    var computedItems, currentPage := PlaceAll(queue, orientation);

    var totalPages := Max(1, currentPage);
    SortedQueueNonNegative(images, config);
    PageSequence(queue, PageGeometry(orientation));
    pages := GroupByPage(computedItems, totalPages);
    if |computedItems| == 0 {
      pages := [[]];
    }
  }

  /** The sorted queue holds only photos of non-negative size. */
  lemma SortedQueueNonNegative(images: seq<string>, config: PrintConfig)
    ensures NonNegativeSizes(StableSort.Sort(Expand(images, config), Area))
  {
    var raw := Expand(images, config);
    var queue := StableSort.Sort(raw, Area);
    ExpandSizesPositive(images, config);
    StableSort.SortIsPermutation(raw, Area);
    forall i | 0 <= i < |queue| ensures queue[i].w >= 0 && queue[i].h >= 0 {
      assert queue[i] in multiset(raw);
    }
  }

  // ---------------------------------------------------------------------------
  // Properties of the walk

  /** The caller's guarantee: photos have non-negative sizes. */
  predicate NonNegativeSizes(queue: seq<Request>)
  {
    forall i :: 0 <= i < |queue| ==> queue[i].w >= 0 && queue[i].h >= 0
  }

  /** The page the cursor is on before item `i` is placed. */
  function PrevPage(items: seq<RenderItem>, i: nat): int
    requires i <= |items|
  {
    if i == 0 then 1 else items[i - 1].page
  }

  lemma RunStep(queue: seq<Request>, k: nat, g: Geometry)
    requires k < |queue|
    ensures var prev, r := Run(queue[..k], g), queue[k];
      var at := Wrap(prev.cursor, r.w, r.h, g);
      Run(queue[..k + 1], g) == Pass(prev.items + [Place(r, at)], Advance(at, r.w, r.h, g))
  {
    assert queue[..k + 1][..k] == queue[..k];
  }

  /** Walking a prefix of the queue places the prefix of the items. */
  lemma {:induction false} RunPrefix(queue: seq<Request>, k: nat, g: Geometry)
    requires k <= |queue|
    ensures Run(queue[..k], g).items == Run(queue, g).items[..k]
    decreases |queue|
  {
    if k < |queue| {
      var q' := queue[..|queue| - 1];
      assert queue[..k] == q'[..k];
      RunPrefix(q', k, g);
    } else {
      assert queue[..k] == queue;
    }
  }

  /** Item `i` is placed where the cursor left by the first `i` items wraps to. */
  lemma ItemAt(queue: seq<Request>, i: nat, g: Geometry)
    requires i < |queue|
    ensures Run(queue, g).items[i] == Place(queue[i], Wrap(Run(queue[..i], g).cursor, queue[i].w, queue[i].h, g))
  {
    RunPrefix(queue, i + 1, g);
    assert queue[..i + 1][..i] == queue[..i];
  }

  /** What the cursor looks like after any walk. */
  ghost predicate CursorShape(p: Pass, g: Geometry)
  {
    && p.cursor.x >= g.margin && p.cursor.y >= g.margin
    && p.cursor.rowHeight >= 0 && p.cursor.page >= 1
    && (forall i :: 0 <= i < |p.items| ==> 1 <= p.items[i].page <= p.cursor.page)
    && (p.items == [] ==> p.cursor == Start(g))
    && (p.items != [] ==>
          var last := p.items[|p.items| - 1];
          && p.cursor.page == last.page && p.cursor.y == last.y
          && p.cursor.x == last.x + last.width + g.gap)
  }

  lemma {:induction false} RunCursorShape(queue: seq<Request>, g: Geometry)
    requires g.gap >= 0 && NonNegativeSizes(queue)
    ensures CursorShape(Run(queue, g), g)
  {
    if queue != [] {
      var q' := queue[..|queue| - 1];
      RunCursorShape(q', g);
    }
  }

  /** The cursor before item `i` is the cursor after the first `i` items. */
  lemma CursorBefore(queue: seq<Request>, i: nat, g: Geometry)
    requires i <= |queue| && g.gap >= 0 && NonNegativeSizes(queue)
    ensures var c, items := Run(queue[..i], g).cursor, Run(queue, g).items;
      && c.x >= g.margin && c.y >= g.margin && c.rowHeight >= 0
      && c.page == PrevPage(items, i)
      && forall j :: 0 <= j < i ==> items[j].page <= c.page
  {
    RunPrefix(queue, i, g);
    RunCursorShape(queue[..i], g);
  }

  /** Every photo lies at or beyond the left and top margins. */
  lemma PlacedWithinMargins(queue: seq<Request>, g: Geometry)
    requires g.gap >= 0 && NonNegativeSizes(queue)
    ensures var items := Run(queue, g).items;
      forall i :: 0 <= i < |items| ==> items[i].x >= g.margin && items[i].y >= g.margin
  {
    var items := Run(queue, g).items;
    forall i | 0 <= i < |items| ensures items[i].x >= g.margin && items[i].y >= g.margin {
      ItemAt(queue, i, g);
      CursorBefore(queue, i, g);
    }
  }

  /**
   * Pages start at 1 and never decrease; between consecutive photos the page
   * rises by at most one, and a photo that opens a new page sits at
   * (margin, margin).
   */
  lemma PageSequence(queue: seq<Request>, g: Geometry)
    requires g.gap >= 0 && NonNegativeSizes(queue)
    ensures var items := Run(queue, g).items;
      forall i :: 0 <= i < |items| ==>
        && PrevPage(items, i) <= items[i].page <= PrevPage(items, i) + 1
        && (items[i].page == PrevPage(items, i) + 1 ==> items[i].x == g.margin && items[i].y == g.margin)
    ensures PagesAscend(Run(queue, g).items, Run(queue, g).cursor.page)
  {
    PageSteps(queue, g);
    RunPagesAscend(queue, g);
  }

  lemma PageSteps(queue: seq<Request>, g: Geometry)
    requires g.gap >= 0 && NonNegativeSizes(queue)
    ensures var items := Run(queue, g).items;
      forall i :: 0 <= i < |items| ==>
        && PrevPage(items, i) <= items[i].page <= PrevPage(items, i) + 1
        && (items[i].page == PrevPage(items, i) + 1 ==> items[i].x == g.margin && items[i].y == g.margin)
  {
    var items := Run(queue, g).items;
    forall i | 0 <= i < |items|
      ensures PrevPage(items, i) <= items[i].page <= PrevPage(items, i) + 1
      ensures items[i].page == PrevPage(items, i) + 1 ==> items[i].x == g.margin && items[i].y == g.margin
    {
      ItemAt(queue, i, g);
      CursorBefore(queue, i, g);
    }
  }

  lemma RunPagesAscend(queue: seq<Request>, g: Geometry)
    requires g.gap >= 0 && NonNegativeSizes(queue)
    ensures PagesAscend(Run(queue, g).items, Run(queue, g).cursor.page)
  {
    var items := Run(queue, g).items;
    forall i, j | 0 <= i < j < |items| ensures items[i].page <= items[j].page {
      ItemAt(queue, j, g);
      CursorBefore(queue, j, g);
    }
    RunCursorShape(queue, g);
  }

  /**
   * A photo that fits between the margins (`w <= maxW - margin`,
   * `h <= maxH - margin`) is placed inside the printable area.
   */
  lemma WrapFits(c: Cursor, w: int, h: int, g: Geometry)
    requires w <= g.MaxW() - g.margin && h <= g.MaxH() - g.margin
    ensures var at := Wrap(c, w, h, g); at.x + w <= g.MaxW() && at.y + h <= g.MaxH()
  {
  }

  lemma PlacedInsidePrintableArea(queue: seq<Request>, g: Geometry)
    ensures var items := Run(queue, g).items;
      forall i :: 0 <= i < |items| && queue[i].w <= g.MaxW() - g.margin && queue[i].h <= g.MaxH() - g.margin ==>
        items[i].x + items[i].width <= g.MaxW() && items[i].y + items[i].height <= g.MaxH()
  {
    var items := Run(queue, g).items;
    forall i | 0 <= i < |items| && queue[i].w <= g.MaxW() - g.margin && queue[i].h <= g.MaxH() - g.margin
      ensures items[i].x + items[i].width <= g.MaxW() && items[i].y + items[i].height <= g.MaxH()
    {
      ItemAt(queue, i, g);
      WrapFits(Run(queue[..i], g).cursor, queue[i].w, queue[i].h, g);
    }
  }

  /**
   * A photo taller than the printable height is still placed, always on a
   * freshly opened page at (margin, margin).
   */
  lemma OversizedOpensNewPage(queue: seq<Request>, g: Geometry)
    requires g.gap >= 0 && NonNegativeSizes(queue)
    ensures var items := Run(queue, g).items;
      forall i :: 0 <= i < |items| && queue[i].h > g.MaxH() - g.margin ==>
        items[i].page == PrevPage(items, i) + 1 && items[i].x == g.margin && items[i].y == g.margin
  {
    var items := Run(queue, g).items;
    forall i | 0 <= i < |items| && queue[i].h > g.MaxH() - g.margin
      ensures items[i].page == PrevPage(items, i) + 1 && items[i].x == g.margin && items[i].y == g.margin
    {
      ItemAt(queue, i, g);
      CursorBefore(queue, i, g);
    }
  }

  predicate PageUsed(items: seq<RenderItem>, n: int)
  {
    exists i :: 0 <= i < |items| && items[i].page == n
  }

  /** Every page after the first holds at least one photo. */
  lemma {:induction false} NoEmptyPageAfterFirst(queue: seq<Request>, g: Geometry)
    ensures forall n :: 2 <= n <= Run(queue, g).cursor.page ==> PageUsed(Run(queue, g).items, n)
  {
    if queue != [] {
      var q' := queue[..|queue| - 1];
      NoEmptyPageAfterFirst(q', g);
      var prev, p := Run(q', g), Run(queue, g);
      forall n | 2 <= n <= p.cursor.page ensures PageUsed(p.items, n) {
        if n <= prev.cursor.page {
          assert PageUsed(prev.items, n);
          var i :| 0 <= i < |prev.items| && prev.items[i].page == n;
          assert p.items[i] == prev.items[i];
        } else {
          assert p.items[|p.items| - 1].page == n;
          assert PageUsed(p.items, n);
        }
      }
    }
  }

  // No overlap

  /** The rectangles of two photos on the same page do not overlap. */
  predicate Disjoint(a: RenderItem, b: RenderItem)
  {
    || a.page != b.page
    || a.x + a.width <= b.x || b.x + b.width <= a.x
    || a.y + a.height <= b.y || b.y + b.height <= a.y
  }

  predicate NoOverlap(items: seq<RenderItem>)
  {
    forall i, j :: 0 <= i < j < |items| ==> Disjoint(items[i], items[j])
  }

  /**
   * Every placed photo lies on an earlier page, above the current row, or to
   * the left of the cursor within the current row.
   */
  predicate BehindCursor(item: RenderItem, c: Cursor)
  {
    || item.page < c.page
    || (item.page == c.page && item.y + item.height <= c.y)
    || (item.page == c.page && item.y == c.y && item.x + item.width <= c.x && item.height <= c.rowHeight)
  }

  lemma WrapKeepsBehind(item: RenderItem, c: Cursor, w: int, h: int, g: Geometry)
    requires g.gap >= 0 && c.rowHeight >= 0 && BehindCursor(item, c)
    ensures BehindCursor(item, Wrap(c, w, h, g))
  {
  }

  lemma AdvanceKeepsBehind(item: RenderItem, at: Cursor, r: Request, g: Geometry)
    requires g.gap >= 0 && r.w >= 0
    ensures BehindCursor(item, at) ==> BehindCursor(item, Advance(at, r.w, r.h, g))
    ensures BehindCursor(Place(r, at), Advance(at, r.w, r.h, g))
  {
  }

  lemma {:induction false} RunHasNoOverlap(queue: seq<Request>, g: Geometry)
    requires g.gap >= 0 && NonNegativeSizes(queue)
    ensures var p := Run(queue, g);
      NoOverlap(p.items) && forall i :: 0 <= i < |p.items| ==> BehindCursor(p.items[i], p.cursor)
  {
    if queue != [] {
      var q' := queue[..|queue| - 1];
      RunHasNoOverlap(q', g);
      RunCursorShape(q', g);
      var prev, r := Run(q', g), queue[|queue| - 1];
      var at := Wrap(prev.cursor, r.w, r.h, g);
      var p := Run(queue, g);
      forall i | 0 <= i < |prev.items| ensures BehindCursor(prev.items[i], at) {
        WrapKeepsBehind(prev.items[i], prev.cursor, r.w, r.h, g);
      }
      forall i | 0 <= i < |p.items| ensures BehindCursor(p.items[i], p.cursor) {
        if i < |prev.items| {
          AdvanceKeepsBehind(prev.items[i], at, r, g);
        } else {
          AdvanceKeepsBehind(Place(r, at), at, r, g);
        }
      }
      forall i, j | 0 <= i < j < |p.items| ensures Disjoint(p.items[i], p.items[j]) {
        if j == |prev.items| {
          assert BehindCursor(prev.items[i], at);
        }
      }
    }
  }

  // Rows

  /** The tallest photo in the row of the last placed photo. */
  function RowHeight(items: seq<RenderItem>): int
    requires items != []
  {
    var last := items[|items| - 1];
    if |items| == 1 then last.height
    else
      var before := items[|items| - 2];
      if before.page != last.page || before.y != last.y then last.height
      else Max(RowHeight(items[..|items| - 1]), last.height)
  }

  lemma {:induction false} RowHeightTracked(queue: seq<Request>, g: Geometry)
    requires g.gap > 0 && NonNegativeSizes(queue)
    ensures var p := Run(queue, g); p.items != [] ==> p.cursor.rowHeight == RowHeight(p.items)
  {
    if queue != [] {
      var q' := queue[..|queue| - 1];
      RowHeightTracked(q', g);
      RunCursorShape(q', g);
      var p := Run(queue, g);
      assert p.items[..|p.items| - 1] == Run(q', g).items;
    }
  }

  /**
   * Shelf structure: the photo after photo `i` either follows it in the same
   * row (`x` advances by width + gap), or starts the next row at the left
   * margin, `RowHeight + gap` below, or opens the next page at (margin, margin).
   */
  lemma ConsecutivePlacement(queue: seq<Request>, g: Geometry, i: nat)
    requires g.gap > 0 && NonNegativeSizes(queue)
    requires i + 1 < |queue|
    ensures var items := Run(queue, g).items;
      var a, b := items[i], items[i + 1];
      || (b.page == a.page && b.y == a.y && b.x == a.x + a.width + g.gap)
      || (b.page == a.page && b.x == g.margin && b.y == a.y + RowHeight(items[..i + 1]) + g.gap)
      || (b.page == a.page + 1 && b.x == g.margin && b.y == g.margin)
  {
    var items := Run(queue, g).items;
    var pre := Run(queue[..i + 1], g);
    assert NonNegativeSizes(queue[..i + 1]);
    RunPrefix(queue, i + 1, g);
    assert pre.items[i] == items[i];
    RunCursorShape(queue[..i + 1], g);
    RowHeightTracked(queue[..i + 1], g);
    ItemAt(queue, i + 1, g);
    WrapCases(pre.cursor, queue[i + 1].w, queue[i + 1].h, g);
  }

  /** The wrap keeps the cursor, starts the next row, or opens the next page at (margin, margin). */
  lemma WrapCases(c: Cursor, w: int, h: int, g: Geometry)
    ensures var at := Wrap(c, w, h, g);
      || at == c
      || at == Cursor(g.margin, c.y + c.rowHeight + g.gap, c.page, 0)
      || (at.page == c.page + 1 && at.x == g.margin && at.y == g.margin)
  {
  }

  // Grouping

  function Concat(pages: seq<seq<RenderItem>>): seq<RenderItem>
  {
    if pages == [] then [] else Concat(pages[..|pages| - 1]) + pages[|pages| - 1]
  }

  lemma {:induction false} ConcatOfEmpties(a: seq<seq<RenderItem>>)
    requires forall i :: 0 <= i < |a| ==> a[i] == []
    ensures Concat(a) == []
  {
    if a != [] {
      ConcatOfEmpties(a[..|a| - 1]);
    }
  }

  predicate PagesAscend(items: seq<RenderItem>, totalPages: nat)
  {
    && (forall i :: 0 <= i < |items| ==> 1 <= items[i].page <= totalPages)
    && (forall i, j :: 0 <= i < j < |items| ==> items[i].page <= items[j].page)
  }

  /** A page no photo is numbered with is empty. */
  lemma {:induction false} UnusedPageIsEmpty(items: seq<RenderItem>, n: int)
    requires forall i :: 0 <= i < |items| ==> items[i].page != n
    ensures OnPage(items, n) == []
  {
    if items != [] {
      UnusedPageIsEmpty(items[..|items| - 1], n);
    }
  }

  /**
   * Appending a photo on page `L`, the last page used, adds it to the end of
   * group `L` and leaves every later group empty.
   */
  lemma GroupSnoc(items: seq<RenderItem>, totalPages: nat)
    requires items != [] && PagesAscend(items, totalPages)
    ensures var rest, last := items[..|items| - 1], items[|items| - 1];
      var H := Group(rest, totalPages);
      && Group(items, totalPages) == H[last.page - 1 := H[last.page - 1] + [last]]
      && forall p :: last.page <= p < totalPages ==> H[p] == []
  {
    var rest, last := items[..|items| - 1], items[|items| - 1];
    var G, H := Group(items, totalPages), Group(rest, totalPages);
    forall p | 0 <= p < totalPages ensures G[p] == H[p] + (if p + 1 == last.page then [last] else []) {
      StableSort.DropLastClass(items, PageOf, p + 1);
    }
    forall p | last.page <= p < totalPages ensures H[p] == [] {
      UnusedPageIsEmpty(rest, p + 1);
    }
    var H' := H[last.page - 1 := H[last.page - 1] + [last]];
    assert |G| == |H'|;
    forall p | 0 <= p < totalPages ensures G[p] == H'[p] {
    }
  }

  /** Adding a photo to the last non-empty group adds it at the end of the concatenation. */
  lemma {:induction false} ConcatBump(H: seq<seq<RenderItem>>, L: int, last: RenderItem)
    requires 1 <= L <= |H| && forall p :: L <= p < |H| ==> H[p] == []
    ensures Concat(H[L - 1 := H[L - 1] + [last]]) == Concat(H) + [last]
  {
    var H' := H[L - 1 := H[L - 1] + [last]];
    if |H| == L {
      assert H'[..|H'| - 1] == H[..|H| - 1];
    } else {
      assert H'[..|H'| - 1] == H[..|H| - 1][L - 1 := H[L - 1] + [last]];
      ConcatBump(H[..|H| - 1], L, last);
    }
  }

  /**
   * Reading the pages one after another gives back the placement order:
   * every photo is on exactly one page and nothing is reordered.
   */
  lemma {:induction false} GroupPreservesOrder(items: seq<RenderItem>, totalPages: nat)
    requires PagesAscend(items, totalPages)
    ensures Concat(Group(items, totalPages)) == items
  {
    if items == [] {
      ConcatOfEmpties(Group(items, totalPages));
    } else {
      var rest, last := items[..|items| - 1], items[|items| - 1];
      GroupPreservesOrder(rest, totalPages);
      GroupSnoc(items, totalPages);
      ConcatBump(Group(rest, totalPages), last.page, last);
    }
  }
}

module A4SheetProperties {
  import opened Types
  import StableSort
  import opened A4Sheet

  /** The request a placed photo answers. */
  function Requested(item: RenderItem): Request
  {
    Request(item.src, item.width, item.height, item.sizeKey)
  }

  /** The walk places every request of the queue, once, in queue order. */
  lemma RunPlacesEveryRequest(queue: seq<Request>, g: Geometry)
    ensures StableSort.MapSeq(Requested, Run(queue, g).items) == queue
  {
    var items := Run(queue, g).items;
    forall i | 0 <= i < |queue| ensures Requested(items[i]) == queue[i] {
      ItemAt(queue, i, g);
    }
  }

  /** The queue the walk receives: sorted by area, with sizes taken from the table. */
  lemma QueueShape(images: seq<string>, config: PrintConfig)
    ensures var raw := Expand(images, config);
      var queue := StableSort.Sort(raw, Area);
      && multiset(queue) == multiset(raw)
      && StableSort.SortedBy(queue, Area)
      && NonNegativeSizes(queue)
  {
    var raw := Expand(images, config);
    var queue := StableSort.Sort(raw, Area);
    ExpandSizesPositive(images, config);
    StableSort.SortIsPermutation(raw, Area);
    StableSort.SortIsSorted(raw, Area);
    assert forall i :: 0 <= i < |queue| ==> queue[i] in multiset(raw);
  }

  /** There is at least one page, and page `k + 1` holds only photos numbered `k + 1`. */
  lemma SheetPagesNumbered(images: seq<string>, config: PrintConfig, g: Geometry)
    ensures var pages := SheetPages(images, config, g);
      && |pages| >= 1
      && (forall k, i :: 0 <= k < |pages| && 0 <= i < |pages[k]| ==> pages[k][i].page == k + 1)
  {
    var pass := Run(StableSort.Sort(Expand(images, config), Area), g);
    var pages: seq<seq<RenderItem>> := SheetPages(images, config, g);
    if pass.items != [] {
      forall k, i | 0 <= k < |pages| && 0 <= i < |pages[k]| ensures pages[k][i].page == k + 1 {
        StableSort.FilterMembers(pass.items, PageOf, k + 1);
        assert pages[k][i] in pages[k];
      }
    }
  }

  /** Read in order, the pages give back the walk's placements. */
  lemma SheetConcat(images: seq<string>, config: PrintConfig, g: Geometry)
    requires g.gap >= 0
    ensures Concat(SheetPages(images, config, g)) == Run(StableSort.Sort(Expand(images, config), Area), g).items
  {
    QueueShape(images, config);
    WalkGroupsConcat(StableSort.Sort(Expand(images, config), Area), g);
  }

  lemma WalkGroupsConcat(queue: seq<Request>, g: Geometry)
    requires g.gap >= 0 && NonNegativeSizes(queue)
    ensures var pass := Run(queue, g);
      pass.items != [] ==> Concat(Group(pass.items, Max(1, pass.cursor.page))) == pass.items
  {
    var pass := Run(queue, g);
    if pass.items != [] {
      RunCursorShape(queue, g);
      PageSequence(queue, g);
      GroupPreservesOrder(pass.items, pass.cursor.page);
    }
  }

  /**
   * Read in order, the pages hold exactly the flattened request sorted stably
   * by ascending area: every requested copy is drawn once.
   */
  lemma SheetOrder(images: seq<string>, config: PrintConfig, g: Geometry)
    requires g.gap >= 0
    ensures StableSort.MapSeq(Requested, Concat(SheetPages(images, config, g)))
      == StableSort.Sort(Expand(images, config), Area)
  {
    SheetConcat(images, config, g);
    RunPlacesEveryRequest(StableSort.Sort(Expand(images, config), Area), g);
  }

  lemma SheetIsSortedPermutation(images: seq<string>, config: PrintConfig, g: Geometry)
    requires g.gap >= 0
    ensures var drawn := StableSort.MapSeq(Requested, Concat(SheetPages(images, config, g)));
      multiset(drawn) == multiset(Expand(images, config)) && StableSort.SortedBy(drawn, Area)
  {
    SheetOrder(images, config, g);
    QueueShape(images, config);
  }

  /**
   * Among copies of equal area the sheet keeps request order: earlier images
   * first, and within one image configuration key order.
   */
  lemma SheetIsStable(images: seq<string>, config: PrintConfig, g: Geometry, area: int)
    requires g.gap >= 0
    ensures var drawn := StableSort.MapSeq(Requested, Concat(SheetPages(images, config, g)));
      StableSort.Filter(drawn, Area, area) == StableSort.Filter(Expand(images, config), Area, area)
  {
    SheetOrder(images, config, g);
    StableSort.SortIsStable(Expand(images, config), Area, area);
  }

  /** The sheet is the single empty page exactly when no copy is requested. */
  lemma EmptySheetIffNoDemand(images: seq<string>, config: PrintConfig, g: Geometry)
    requires g.gap >= 0
    ensures SheetPages(images, config, g) == [[]] <==> |images| * Demand(config) == 0
  {
    var raw := Expand(images, config);
    var queue := StableSort.Sort(raw, Area);
    ExpandLength(images, config);
    StableSort.SortIsPermutation(raw, Area);
    if queue != [] {
      SortedQueueNonNegative(images, config);
      LastPageUsed(queue, g);
    }
  }

  /** A non-empty walk never groups into a single empty page. */
  lemma LastPageUsed(queue: seq<Request>, g: Geometry)
    requires g.gap >= 0 && NonNegativeSizes(queue) && queue != []
    ensures var pass := Run(queue, g); Group(pass.items, Max(1, pass.cursor.page)) != [[]]
  {
    var pass := Run(queue, g);
    RunCursorShape(queue, g);
    var last := pass.items[|pass.items| - 1];
    StableSort.FilterMembers(pass.items, PageOf, pass.cursor.page);
    assert last in OnPage(pass.items, pass.cursor.page);
    var pages := Group(pass.items, Max(1, pass.cursor.page));
    assert |pages| == pass.cursor.page;
    assert pages[pass.cursor.page - 1] != [];
  }

  /** Under `SingleSizeConfig(s, qty)` one image yields `qty` copies of size `s` and nothing else. */
  lemma ExpandSingleSizeConfig(img: string, s: PhotoSize, qty: int)
    ensures ExpandImage(img, SingleSizeConfig(s, qty)) == Copies(img, Entry(Label(s), qty))
  {
    var config := SingleSizeConfig(s, qty);
    SingleSizePrefix(img, s, qty, |config|);
    assert config[..|config|] == config;
  }

  /** The first `k` entries contribute the copies of `s` once its entry is among them, else nothing. */
  lemma {:induction false} SingleSizePrefix(img: string, s: PhotoSize, qty: int, k: nat)
    requires k <= |AllSizes|
    ensures ExpandImage(img, SingleSizeConfig(s, qty)[..k])
      == if SizeIndex(s) < k then Copies(img, Entry(Label(s), qty)) else []
  {
    if k > 0 {
      var before := ExpandImage(img, SingleSizeConfig(s, qty)[..k - 1]);
      var after := ExpandImage(img, SingleSizeConfig(s, qty)[..k]);
      SingleSizePrefix(img, s, qty, k - 1);
      SingleSizeStep(img, s, qty, k - 1);
      if k - 1 == SizeIndex(s) {
        assert before == [];
        assert after == [] + Copies(img, Entry(Label(s), qty));
      } else {
        assert after == before + [];
      }
    }
  }

  lemma SingleSizeStep(img: string, s: PhotoSize, qty: int, k: nat)
    requires k < |AllSizes|
    ensures var config := SingleSizeConfig(s, qty);
      ExpandImage(img, config[..k + 1])
        == ExpandImage(img, config[..k]) + if k == SizeIndex(s) then Copies(img, Entry(Label(s), qty)) else []
  {
    var config := SingleSizeConfig(s, qty);
    assert config[..k + 1][..k] == config[..k];
    assert ExpandImage(img, config[..k + 1]) == ExpandImage(img, config[..k]) + Copies(img, config[k]);
    if k != SizeIndex(s) {
      EnumerationIsExact();
      assert AllSizes[k] != s;
    }
  }

  /** Sorting copies of one request changes nothing. */
  lemma SortCopies(r: Request, n: nat)
    ensures StableSort.Sort(seq(n, _ => r), Area) == seq(n, _ => r)
  {
    var c := seq(n, _ => r);
    StableSort.SortIsPermutation(c, Area);
    var t := StableSort.Sort(c, Area);
    forall i | 0 <= i < n ensures t[i] == r {
      assert t[i] in multiset(t);
    }
  }

  /** The walk's queue for one image and a single-size configuration. */
  lemma SingleSizeQueue(img: string, s: PhotoSize, qty: nat)
    ensures var d := Dimensions(Label(s));
      StableSort.Sort(Expand([img], SingleSizeConfig(s, qty)), Area) == seq(qty, _ => Request(img, d.width, d.height, Label(s)))
  {
    ExpandSingleSizeConfig(img, s, qty);
    assert [img][..0] == [];
    var d := Dimensions(Label(s));
    var c := seq(qty, _ => Request(img, d.width, d.height, Label(s)));
    assert Copies(img, Entry(Label(s), qty)) == c;
    assert Expand([img], SingleSizeConfig(s, qty)) == ExpandImage(img, SingleSizeConfig(s, qty));
    SortCopies(Request(img, d.width, d.height, Label(s)), qty);
  }

  lemma FourPassportRun(r: Request)
    requires r.w == 30 && r.h == 40
    ensures Run([r, r, r, r], PageGeometry(Portrait)) ==
      Pass([Place(r, Cursor(10, 10, 1, 0)), Place(r, Cursor(42, 10, 1, 40)),
            Place(r, Cursor(74, 10, 1, 40)), Place(r, Cursor(106, 10, 1, 40))],
           Cursor(138, 10, 1, 40))
  {
    var q, g := [r, r, r, r], PageGeometry(Portrait);
    assert q[..1] == [r] && [r][..0] == [];
    assert Run(q[..1], g) == Pass([Place(r, Cursor(10, 10, 1, 0))], Cursor(42, 10, 1, 40));
    assert q[..2][..1] == q[..1];
    assert Run(q[..2], g) == Pass([Place(r, Cursor(10, 10, 1, 0)), Place(r, Cursor(42, 10, 1, 40))], Cursor(74, 10, 1, 40));
    assert q[..3][..2] == q[..2];
    assert Run(q[..3], g) == Pass([Place(r, Cursor(10, 10, 1, 0)), Place(r, Cursor(42, 10, 1, 40)),
      Place(r, Cursor(74, 10, 1, 40))], Cursor(106, 10, 1, 40));
    assert q[..3] == q[..|q| - 1];
  }

  /** Four 3x4 photos of one image on a portrait sheet share the first row, 32 mm apart. */
  lemma FourPassportPhotos()
    ensures WellFormed(SingleSizeConfig(Size3x4, 4))
    ensures SheetPages(["a"], SingleSizeConfig(Size3x4, 4), PageGeometry(Portrait)) ==
      [[RenderItem("a", 30, 40, 10, 10, 1, "3x4"), RenderItem("a", 30, 40, 42, 10, 1, "3x4"),
        RenderItem("a", 30, 40, 74, 10, 1, "3x4"), RenderItem("a", 30, 40, 106, 10, 1, "3x4")]]
  {
    var r := Request("a", 30, 40, "3x4");
    assert Label(Size3x4) == "3x4";
    assert Dimensions("3x4") == Dims(30, 40);
    SingleSizeQueue("a", Size3x4, 4);
    assert seq(4, _ => r) == [r, r, r, r];
    FourPassportRun(r);
    OnePage(Run([r, r, r, r], PageGeometry(Portrait)).items);
  }

  /**
   * A single 20x30 print on a portrait sheet is too wide for the row and too
   * tall for the page: it lands alone on page 2, and page 1 stays empty.
   */
  lemma OversizedPrintLeavesFirstPageEmpty()
    ensures SheetPages(["a"], SingleSizeConfig(Size20x30, 1), PageGeometry(Portrait)) ==
      [[], [RenderItem("a", 200, 300, 10, 10, 2, "20x30")]]
  {
    var r := Request("a", 200, 300, "20x30");
    var it := RenderItem("a", 200, 300, 10, 10, 2, "20x30");
    assert Label(Size20x30) == "20x30";
    assert Dimensions("20x30") == Dims(200, 300);
    SingleSizeQueue("a", Size20x30, 1);
    assert seq(1, _ => r) == [r];
    assert StableSort.Sort(Expand(["a"], SingleSizeConfig(Size20x30, 1)), Area) == [r];
    OversizedRun(r);
    SecondPageSingleSizeConfig([it]);
    assert SheetPages(["a"], SingleSizeConfig(Size20x30, 1), PageGeometry(Portrait)) == Group([it], 2);
  }

  lemma SecondPageSingleSizeConfig(items: seq<RenderItem>)
    requires forall i :: 0 <= i < |items| ==> items[i].page == 2
    ensures Group(items, 2) == [[], items]
  {
    AllOnPage(items, 2);
    UnusedPageIsEmpty(items, 1);
  }

  lemma OversizedRun(r: Request)
    requires r == Request("a", 200, 300, "20x30")
    ensures Run([r], PageGeometry(Portrait)) ==
      Pass([RenderItem("a", 200, 300, 10, 10, 2, "20x30")], Cursor(212, 10, 2, 300))
  {
    var g := PageGeometry(Portrait);
    assert Wrap(Start(g), 200, 300, g) == Cursor(10, 10, 2, 0);
    assert [r][..0] == [];
  }

  lemma OnePage(items: seq<RenderItem>)
    requires forall i :: 0 <= i < |items| ==> items[i].page == 1
    ensures Group(items, 1) == [items]
  {
    AllOnPage(items, 1);
  }

  lemma {:induction false} AllOnPage(items: seq<RenderItem>, n: int)
    requires forall i :: 0 <= i < |items| ==> items[i].page == n
    ensures OnPage(items, n) == items
  {
    if items != [] {
      AllOnPage(items[..|items| - 1], n);
    }
  }
}
