/**
 * The PDF export (`generateSheetPDF`): phase 1 repeats the preview's layout
 * walk on its own queue records, which carry no size key; phase 2 renders
 * page after page, each page holding the items numbered with it, and draws
 * every photo with an object-fit "cover" crop.  Canvas drawing, image
 * loading and the jsPDF document are left out; what remains is the plan of
 * what is drawn where, and the crop geometry.
 */
module PdfGenerator {
  import opened Types
  import StableSort
  import A4Sheet
  import A4SheetProperties

  /** One entry of `rawQueue`. */
  datatype QueueItem = QueueItem(img: string, w: int, h: int)

  /** One entry of `itemsToRender`. */
  datatype PdfItem = PdfItem(img: string, w: int, h: int, x: int, y: int, page: int)

  function QueueArea(q: QueueItem): int
  {
    q.w * q.h
  }

  /** The queue record for a preview request: the size key is dropped. */
  function FromRequest(r: A4Sheet.Request): QueueItem
  {
    QueueItem(r.src, r.w, r.h)
  }

  /** A queue record seen as a request with no size key, to run the shared walk on it. */
  function ToRequest(q: QueueItem): A4Sheet.Request
  {
    A4Sheet.Request(q.img, q.w, q.h, "")
  }

  /** The render record for a photo the preview placed. */
  function FromPlaced(it: A4Sheet.RenderItem): PdfItem
  {
    PdfItem(it.src, it.width, it.height, it.x, it.y, it.page)
  }

  function PdfPage(it: PdfItem): int
  {
    it.page
  }

  /** What phase 2 is given: the placed items, `totalPages`, and the items of each page. */
  datatype PdfPlan = PdfPlan(itemsToRender: seq<PdfItem>, totalPages: int, pageItems: seq<seq<PdfItem>>)

  /**
   * The plan for non-empty `images`: the preview's walk over its sorted
   * request, re-recorded without size keys, and one page per page number
   * from 1 to the last.
   */
  function Plan(images: seq<string>, config: PrintConfig, g: A4Sheet.Geometry): PdfPlan
  {
    var pass := A4Sheet.Run(StableSort.Sort(A4Sheet.Expand(images, config), A4Sheet.Area), g);
    var items := StableSort.MapSeq(FromPlaced, pass.items);
    PdfPlan(items, pass.cursor.page, PageSplit(items, pass.cursor.page))
  }

  /** Pages 1 to `last`, each holding the items numbered with it. */
  function PageSplit(items: seq<PdfItem>, last: int): seq<seq<PdfItem>>
  {
    if last < 1 then [] else seq(last, k requires 0 <= k < last => StableSort.Filter(items, PdfPage, k + 1))
  }

  /** Phase 1, flattening: `rawQueue` is the preview's request without size keys. */
  method BuildQueue(images: seq<string>, config: PrintConfig) returns (rawQueue: seq<QueueItem>)
    ensures rawQueue == StableSort.MapSeq(FromRequest, A4Sheet.Expand(images, config))
  {
    rawQueue := [];
    ghost var requests: seq<A4Sheet.Request> := [];
    for n := 0 to |images|
      invariant requests == A4Sheet.Expand(images[..n], config)
      invariant rawQueue == StableSort.MapSeq(FromRequest, requests)
    {
      var img := images[n];
      ghost var done := requests;
      for m := 0 to |config|
        invariant requests == done + A4Sheet.ExpandImage(img, config[..m])
        invariant rawQueue == StableSort.MapSeq(FromRequest, requests)
      {
        var entry := config[m];
        ghost var before := requests;
        if entry.qty > 0 {
          var dims := Dimensions(entry.key);
          for i := 0 to entry.qty
            invariant requests == before + A4Sheet.Copies(img, entry)[..i]
            invariant rawQueue == StableSort.MapSeq(FromRequest, requests)
          {
            var r := A4Sheet.Request(img, dims.width, dims.height, entry.key);
            A4Sheet.CopiesStep(img, entry, i);
            StableSort.ConcatAssoc(before, A4Sheet.Copies(img, entry)[..i], [r]);
            StableSort.MapAppend(FromRequest, requests, r);
            rawQueue := rawQueue + [QueueItem(img, dims.width, dims.height)];
            requests := requests + [r];
          }
        }
        A4Sheet.CopiesWhole(img, entry);
        A4Sheet.ExpandImageStep(img, config, m);
        StableSort.ConcatAssoc(done, A4Sheet.ExpandImage(img, config[..m]), A4Sheet.Copies(img, entry));
      }
      assert config[..|config|] == config;
      A4Sheet.ExpandStep(images, config, n);
    }
    assert images[..|images|] == images;
  }

  /** Phase 1, sorting: an in-place stable sort of the queue by ascending area. */
  method SortQueue(rawQueue: seq<QueueItem>) returns (queue: seq<QueueItem>)
    ensures queue == StableSort.Sort(rawQueue, QueueArea)
  {
    var buffer := new QueueItem[|rawQueue|](i requires 0 <= i < |rawQueue| => rawQueue[i]);
    assert buffer[..] == rawQueue;
    StableSort.InsertionSort(buffer, QueueArea);
    queue := buffer[..];
  }

  /** Phase 1, the cursor walk, with the same wrap rules as the preview. */
  method PlaceQueue(queue: seq<QueueItem>, orientation: PaperOrientation)
    returns (itemsToRender: seq<PdfItem>, currentPage: int)
    ensures var pass := A4Sheet.Run(StableSort.MapSeq(ToRequest, queue), A4Sheet.PageGeometry(orientation));
      itemsToRender == StableSort.MapSeq(FromPlaced, pass.items) && currentPage == pass.cursor.page
  {
    var g := A4Sheet.PageGeometry(orientation);
    ghost var requests := StableSort.MapSeq(ToRequest, queue);
    var startX, startY := A4Sheet.MarginMm, A4Sheet.MarginMm;
    var maxW, maxH := g.MaxW(), g.MaxH();
    var cursorX, cursorY, rowHeight := startX, startY, 0;
    currentPage := 1;
    itemsToRender := [];
    assert maxW == g.MaxW() && maxH == g.MaxH() && startX == g.margin && A4Sheet.GapMm == g.gap;
    for k := 0 to |queue|
      invariant itemsToRender == StableSort.MapSeq(FromPlaced, A4Sheet.Run(requests[..k], g).items)
      invariant A4Sheet.Run(requests[..k], g).cursor == A4Sheet.Cursor(cursorX, cursorY, currentPage, rowHeight)
    {
      var item := queue[k];
      ghost var before := A4Sheet.Cursor(cursorX, cursorY, currentPage, rowHeight);
      if A4Sheet.Overflows(cursorX + item.w, maxW) {
        cursorX := startX;
        cursorY := cursorY + rowHeight + A4Sheet.GapMm;
        rowHeight := 0;
      }
      if A4Sheet.Overflows(cursorY + item.h, maxH) {
        currentPage := currentPage + 1;
        cursorX := startX;
        cursorY := startY;
        rowHeight := 0;
      }
      ghost var at := A4Sheet.Cursor(cursorX, cursorY, currentPage, rowHeight);
      assert at == A4Sheet.Wrap(before, item.w, item.h, g);
      PlaceStep(requests, k, g);
      assert requests[k] == ToRequest(item);
      itemsToRender := itemsToRender + [PdfItem(item.img, item.w, item.h, cursorX, cursorY, currentPage)];
      rowHeight := A4Sheet.Max(rowHeight, item.h);
      cursorX := cursorX + item.w + A4Sheet.GapMm;
      assert A4Sheet.Cursor(cursorX, cursorY, currentPage, rowHeight) == A4Sheet.Advance(at, item.w, item.h, g);
    }
    assert requests[..|queue|] == requests;
  }

  /** One step of the walk, seen through the PDF's render records. */
  lemma PlaceStep(requests: seq<A4Sheet.Request>, k: nat, g: A4Sheet.Geometry)
    requires k < |requests|
    ensures var prev, r := A4Sheet.Run(requests[..k], g), requests[k];
      var at := A4Sheet.Wrap(prev.cursor, r.w, r.h, g);
      var next := A4Sheet.Run(requests[..k + 1], g);
      && next.cursor == A4Sheet.Advance(at, r.w, r.h, g)
      && StableSort.MapSeq(FromPlaced, next.items)
         == StableSort.MapSeq(FromPlaced, prev.items) + [PdfItem(r.src, r.w, r.h, at.x, at.y, at.page)]
  {
    var prev, r := A4Sheet.Run(requests[..k], g), requests[k];
    var at := A4Sheet.Wrap(prev.cursor, r.w, r.h, g);
    A4Sheet.RunStep(requests, k, g);
    StableSort.MapAppend(FromPlaced, prev.items, A4Sheet.Place(r, at));
  }

  /** Phase 2's page loop: page `p` renders the items numbered `p`. */
  method SplitPages(itemsToRender: seq<PdfItem>, totalPages: int) returns (pageItems: seq<seq<PdfItem>>)
    ensures |pageItems| == if totalPages < 1 then 0 else totalPages
    ensures forall k :: 0 <= k < |pageItems| ==> pageItems[k] == StableSort.Filter(itemsToRender, PdfPage, k + 1)
    ensures pageItems == PageSplit(itemsToRender, totalPages)
  {
    pageItems := [];
    var p := 1;
    while p <= totalPages
      invariant 1 <= p <= if totalPages < 1 then 1 else totalPages + 1
      invariant |pageItems| == p - 1
      invariant forall k :: 0 <= k < |pageItems| ==> pageItems[k] == StableSort.Filter(itemsToRender, PdfPage, k + 1)
      decreases totalPages - p
    {
      pageItems := pageItems + [StableSort.Filter(itemsToRender, PdfPage, p)];
      p := p + 1;
    }
    assert pageItems == PageSplit(itemsToRender, totalPages);
  }

  /** The walk reads only sizes: requests with equal image and size give the same items and cursor. */
  lemma {:induction false} RunReadsOnlySizes(q1: seq<A4Sheet.Request>, q2: seq<A4Sheet.Request>, g: A4Sheet.Geometry)
    requires |q1| == |q2|
    requires forall i :: 0 <= i < |q1| ==> q1[i].src == q2[i].src && q1[i].w == q2[i].w && q1[i].h == q2[i].h
    ensures A4Sheet.Run(q1, g).cursor == A4Sheet.Run(q2, g).cursor
    ensures StableSort.MapSeq(FromPlaced, A4Sheet.Run(q1, g).items) == StableSort.MapSeq(FromPlaced, A4Sheet.Run(q2, g).items)
  {
    if q1 != [] {
      RunReadsOnlySizes(q1[..|q1| - 1], q2[..|q2| - 1], g);
      var p1, p2 := A4Sheet.Run(q1[..|q1| - 1], g), A4Sheet.Run(q2[..|q2| - 1], g);
      assert StableSort.MapSeq(FromPlaced, A4Sheet.Run(q1, g).items)
        == StableSort.MapSeq(FromPlaced, p1.items) + [FromPlaced(A4Sheet.Run(q1, g).items[|q1| - 1])];
      assert StableSort.MapSeq(FromPlaced, A4Sheet.Run(q2, g).items)
        == StableSort.MapSeq(FromPlaced, p2.items) + [FromPlaced(A4Sheet.Run(q2, g).items[|q2| - 1])];
    }
  }

  /** Phase 1 as a whole: flattening, sorting and walking give the plan's items and last page. */
  method LayoutPhase(images: seq<string>, config: PrintConfig, orientation: PaperOrientation)
    returns (itemsToRender: seq<PdfItem>, currentPage: int)
    ensures var plan := Plan(images, config, A4Sheet.PageGeometry(orientation));
      itemsToRender == plan.itemsToRender && currentPage == plan.totalPages
  {
    var rawQueue := BuildQueue(images, config);
    var queue := SortQueue(rawQueue);
    itemsToRender, currentPage := PlaceQueue(queue, orientation);
    var sorted := StableSort.Sort(A4Sheet.Expand(images, config), A4Sheet.Area);
    StableSort.SortMapCommutes(A4Sheet.Expand(images, config), A4Sheet.Area, FromRequest, QueueArea);
    RunReadsOnlySizes(StableSort.MapSeq(ToRequest, queue), sorted, A4Sheet.PageGeometry(orientation));
  }

  /**
   * `generateSheetPDF` without its I/O: nothing for no images, otherwise the
   * placed items, `totalPages = currentPage`, and the items of each page.
   */
  method GenerateSheetPdf(images: seq<string>, config: PrintConfig, orientation: PaperOrientation)
    returns (plan: Option<PdfPlan>)
    ensures plan == if images == [] then None else Some(Plan(images, config, A4Sheet.PageGeometry(orientation)))
  {
    if |images| == 0 {
      return None;
    }
    var itemsToRender, currentPage := LayoutPhase(images, config, orientation);
    var totalPages := currentPage;
    var pageItems := SplitPages(itemsToRender, totalPages);
    plan := Some(PdfPlan(itemsToRender, totalPages, pageItems));
  }

  /** The document has `totalPages >= 1` pages, and page `k + 1` renders only items numbered `k + 1`. */
  lemma PlanPagesNumbered(images: seq<string>, config: PrintConfig, g: A4Sheet.Geometry)
    ensures var plan := Plan(images, config, g);
      && plan.totalPages >= 1
      && |plan.pageItems| == plan.totalPages
      && (forall k, i :: 0 <= k < |plan.pageItems| && 0 <= i < |plan.pageItems[k]| ==> plan.pageItems[k][i].page == k + 1)
  {
    var plan := Plan(images, config, g);
    forall k, i | 0 <= k < |plan.pageItems| && 0 <= i < |plan.pageItems[k]| ensures plan.pageItems[k][i].page == k + 1 {
      StableSort.FilterMembers(plan.itemsToRender, PdfPage, k + 1);
      assert plan.pageItems[k][i] in plan.pageItems[k];
    }
  }

  /** Read in order, the pages give back every placed item once, in placement order. */
  lemma PlanPagesInOrder(images: seq<string>, config: PrintConfig, g: A4Sheet.Geometry)
    requires g.gap >= 0
    ensures var plan := Plan(images, config, g); Flatten(plan.pageItems) == plan.itemsToRender
  {
    var pages := A4Sheet.SheetPages(images, config, g);
    PlanMatchesPreview(images, config, g);
    FlattenMaps(pages);
    A4SheetProperties.SheetConcat(images, config, g);
  }

  /** Pages read one after another. */
  function Flatten(pages: seq<seq<PdfItem>>): seq<PdfItem>
  {
    if pages == [] then [] else Flatten(pages[..|pages| - 1]) + pages[|pages| - 1]
  }

  lemma {:induction false} FlattenMaps(pages: seq<seq<A4Sheet.RenderItem>>)
    ensures Flatten(StableSort.MapSeq(PdfPageOf, pages))
      == StableSort.MapSeq(FromPlaced, A4Sheet.Concat(pages))
  {
    var f := PdfPageOf;
    if pages != [] {
      var rest := pages[..|pages| - 1];
      FlattenMaps(rest);
      assert StableSort.MapSeq(f, pages)[..|pages| - 1] == StableSort.MapSeq(f, rest);
      assert StableSort.MapSeq(FromPlaced, A4Sheet.Concat(rest) + pages[|pages| - 1])
        == StableSort.MapSeq(FromPlaced, A4Sheet.Concat(rest)) + StableSort.MapSeq(FromPlaced, pages[|pages| - 1]);
    }
  }

  /** A preview page re-recorded for the PDF. */
  function PdfPageOf(page: seq<A4Sheet.RenderItem>): seq<PdfItem>
  {
    StableSort.MapSeq(FromPlaced, page)
  }

  /**
   * For non-empty images the PDF shows what the preview shows: the same
   * number of pages, and on each page the same photos at the same positions,
   * in the same order (a request with no copies gives one blank page in both).
   */
  lemma PlanMatchesPreview(images: seq<string>, config: PrintConfig, g: A4Sheet.Geometry)
    requires g.gap >= 0
    ensures var plan, pages := Plan(images, config, g), A4Sheet.SheetPages(images, config, g);
      && |plan.pageItems| == |pages|
      && plan.pageItems == StableSort.MapSeq(PdfPageOf, pages)
  {
    var pass := A4Sheet.Run(StableSort.Sort(A4Sheet.Expand(images, config), A4Sheet.Area), g);
    if pass.items == [] {
      EmptyWalkPlan(images, config, g);
    } else {
      WalkPlanPages(pass.items, pass.cursor.page);
    }
  }

  /** With nothing placed, both sides are a single empty page. */
  lemma EmptyWalkPlan(images: seq<string>, config: PrintConfig, g: A4Sheet.Geometry)
    requires A4Sheet.Run(StableSort.Sort(A4Sheet.Expand(images, config), A4Sheet.Area), g).items == []
    ensures Plan(images, config, g).pageItems == StableSort.MapSeq(PdfPageOf, A4Sheet.SheetPages(images, config, g))
  {
    var queue := StableSort.Sort(A4Sheet.Expand(images, config), A4Sheet.Area);
    assert queue == [];
    var plan := Plan(images, config, g);
    assert plan.totalPages == 1;
    assert StableSort.Filter(plan.itemsToRender, PdfPage, 1) == [];
  }

  /** Splitting the re-recorded items by page is re-recording the preview's pages. */
  lemma WalkPlanPages(items: seq<A4Sheet.RenderItem>, last: int)
    requires last >= 1
    ensures PageSplit(StableSort.MapSeq(FromPlaced, items), last)
      == StableSort.MapSeq(PdfPageOf, A4Sheet.Group(items, A4Sheet.Max(1, last)))
  {
    forall p | 1 <= p <= last
      ensures StableSort.Filter(StableSort.MapSeq(FromPlaced, items), PdfPage, p) == PdfPageOf(A4Sheet.OnPage(items, p))
    {
      StableSort.FilterMapCommutes(items, A4Sheet.PageOf, FromPlaced, PdfPage, p);
    }
  }

  // ---------------------------------------------------------------------------
  // Cover fit

  /** Size and offset at which an image is drawn inside its clipped target box. */
  datatype Fit = Fit(renderW: real, renderH: real, offsetX: real, offsetY: real)

  /**
   * Object-fit "cover" for an image of `imgW` x `imgH` pixels in a target of
   * `wPx` x `hPx` pixels: fill the height when the image is relatively wider,
   * otherwise fill the width; centre the overflow.
   */
  function CoverFit(imgW: real, imgH: real, wPx: real, hPx: real): (f: Fit)
    requires imgW > 0.0 && imgH > 0.0 && wPx > 0.0 && hPx > 0.0
    ensures f.renderW >= wPx && f.renderH >= hPx
    ensures f.renderW * imgH == f.renderH * imgW
    ensures f.renderW == wPx || f.renderH == hPx
    ensures f.offsetX == (wPx - f.renderW) / 2.0 <= 0.0
    ensures f.offsetY == (hPx - f.renderH) / 2.0 <= 0.0
  {
    var imgRatio := imgW / imgH;
    var targetRatio := wPx / hPx;
    if imgRatio > targetRatio then
      CrossMultiply(imgW, imgH, wPx, hPx);
      var renderW := hPx * imgRatio;
      Fit(renderW, hPx, (wPx - renderW) / 2.0, 0.0)
    else
      CrossMultiply(imgW, imgH, wPx, hPx);
      var renderH := wPx / imgRatio;
      Fit(wPx, renderH, 0.0, (hPx - renderH) / 2.0)
  }

  lemma CrossMultiply(imgW: real, imgH: real, wPx: real, hPx: real)
    requires imgW > 0.0 && imgH > 0.0 && wPx > 0.0 && hPx > 0.0
    ensures imgW / imgH > wPx / hPx <==> imgW * hPx > wPx * imgH
    ensures hPx * (imgW / imgH) * imgH == hPx * imgW
    ensures wPx / (imgW / imgH) == wPx * imgH / imgW
  {
    var r := imgW / imgH;
    assert r * imgH == imgW;
    assert wPx / hPx * hPx == wPx;
    if r > wPx / hPx {
      assert r * hPx > wPx / hPx * hPx;
      assert imgW * hPx == r * imgH * hPx;
    } else {
      assert r * hPx <= wPx / hPx * hPx;
      assert imgW * hPx == r * imgH * hPx;
    }
  }

  function MaxReal(a: real, b: real): real
  {
    if a >= b then a else b
  }

  /**
   * Cover fit is the uniform scaling of the image by the smaller factor that
   * still covers both target dimensions, `max(wPx / imgW, hPx / imgH)`.
   */
  lemma CoverFitIsCoveringScale(imgW: real, imgH: real, wPx: real, hPx: real)
    requires imgW > 0.0 && imgH > 0.0 && wPx > 0.0 && hPx > 0.0
    ensures var f, s := CoverFit(imgW, imgH, wPx, hPx), MaxReal(wPx / imgW, hPx / imgH);
      f.renderW == imgW * s && f.renderH == imgH * s
  {
    var f, s := CoverFit(imgW, imgH, wPx, hPx), MaxReal(wPx / imgW, hPx / imgH);
    CrossMultiply(imgW, imgH, wPx, hPx);
    assert wPx / imgW * imgW == wPx && hPx / imgH * imgH == hPx;
    if imgW * hPx > wPx * imgH {
      assert hPx / imgH > wPx / imgW by {
        assert hPx / imgH * (imgW * imgH) == hPx * imgW;
        assert wPx / imgW * (imgW * imgH) == wPx * imgH;
      }
      assert f.renderH == hPx;
      assert f.renderW * imgH == hPx * imgW;
    } else {
      assert wPx / imgW >= hPx / imgH by {
        assert hPx / imgH * (imgW * imgH) == hPx * imgW;
        assert wPx / imgW * (imgW * imgH) == wPx * imgH;
      }
      assert f.renderW == wPx;
      assert f.renderH * imgW == wPx * imgH;
    }
  }
}
