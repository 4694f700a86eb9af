# ID-photo sheet layout and tone grading, modelled in Dafny

The application prepares identification photographs for printing. Each print
sheet is built by one algorithm, used twice: once for the on-screen A4 preview
(`components/A4Sheet.tsx`) and once for the PDF export (`utils/pdfGenerator.ts`).

The algorithm is a greedy shelf packer:

- Expand the print configuration into one draw request per copy. Requests go image by image, and within an image size by size in `PhotoSize` order.
- Stable-sort the requests by ascending area.
- Walk a cursor over the page with a row-wrap test and a page-wrap test, each with a 0.1 mm tolerance.
- Group the placements by page.

Around that core the project also models:

- the per-pixel tone loop `applyImageFilters`, and the way a spot edit's values combine with the global ones;
- the editor's state handlers: images, outfits, spot-edit regions, quantities, and the images sent to the sheet;
- the cover-fit crop of the PDF renderer;
- the fixed grid of the Word exporter.

Modules, one per source file:

- `Types` (`types.dfy`): the enumerations and records of `types.ts`, plus the size table `getDimensions`. A print configuration is an ordered list of (key, quantity) entries, in `Object.entries` order. `WellFormed` says the keys are the nine size labels in enumeration order, which is how the editor builds the configuration.
- `StableSort` (`stable_sort.dfy`): the `Array.prototype.sort` the layout relies on. It has two parts:
  - a functional stable insertion sort, proved sorted, a permutation, and stable per key class, and proved to be the only sequence with those properties;
  - an in-place `InsertionSort` on an array, proved to compute it.
- `A4Sheet` and `A4SheetProperties` (`a4_sheet.dfy`): the `pages` memo of the preview. The imperative steps are methods (`Flatten`, `SortByArea`, `PlaceAll`, `GroupByPage`, `ComputePages`), each proved equal to a specification function (`Expand`, `Sort`, `Run`, `Group`, `SheetPages`). The layout properties are lemmas about those functions.
- `PdfGenerator` (`pdf_generator.dfy`): phase 1 of `generateSheetPDF`.
  - Its queue records carry no size key, yet it is proved to produce exactly the preview's coordinates and pages.
  - Its page loop is proved to hand page `p` exactly the items placed on page `p`.
  - The cover-fit computation is proved to cover the target, keep the image's ratio and centre the overflow.
- `ImageFilters` (`image_filters.dfy`): `clamp`, the stride-4 loop over an RGBA buffer (a method on an array), the four stages in their fixed order, and the combined regional adjustment.
- `EditorState` (`editor_state.dfy`): the `setImages` / `setPrintConfig` updaters of `PhotoEditor.tsx`. Each handler is a pure function from the old editor state to the new one.
- `DocxGenerator` (`docx_generator.dfy`): the grid of `generateDocx`. The nested loops that build the table are methods, proved equal to a table-valued specification function.

Lengths are whole millimetres. The source's test `edge > limit + 0.1` is kept with its tolerance, scaled to tenths of a millimetre: `10 * edge > 10 * limit + 1`.

Two consequences of the layout code worth knowing:

- Four 3x4 photos on a portrait page land in one row, at x = 10, 42, 74 and 106 (`A4SheetProperties.FourPassportPhotos`).
- The page limit is the page size less one margin. So a 20x30 photo (200 × 300 mm) starting at the margin overflows the portrait width (10 + 200 > 200.1) and every page height. It is placed at the margin of a fresh page, which leaves page 1 empty when it is the only photo (`A4SheetProperties.OversizedPrintLeavesFirstPageEmpty`).

## Model

| member | source | states |
|---|---|---|
| Types.SizeIndex | types.ts:2-12 | each size's position in declaration order picks that size out of the enumeration |
| Types.EnumerationIsExact | types.ts:2-12 | there are exactly nine sizes, each listed once, and distinct sizes have distinct string values |
| Types.Dimensions | components/A4Sheet.tsx:17-30 | every key, listed or not, maps to a positive width smaller than its height |
| Types.WidthsIncrease | utils/pdfGenerator.ts:6-19 | widths, and areas, strictly increase along the enumeration order |
| Types.UnknownKeyFallsBack | utils/pdfGenerator.ts:17 | a key that names no size is drawn as 30 × 40 mm, like 3x4 |
| Types.SingleSizeConfig | components/PhotoEditor.tsx:32-37 | a configuration with one non-zero size is keyed by all nine sizes in enumeration order |
| StableSort.MapSeq | components/A4Sheet.tsx:104-112 | mapping keeps the length and maps each position |
| StableSort.FilterAppend | components/A4Sheet.tsx:73 | taking one key class distributes over concatenation |
| StableSort.InsertFilter | components/A4Sheet.tsx:73 | inserting an element appends it to its own key class and leaves the other classes alone |
| StableSort.InsertMultiset | components/A4Sheet.tsx:73 | insertion adds exactly that element |
| StableSort.InsertSorted | components/A4Sheet.tsx:73 | insertion into a sorted sequence keeps it sorted |
| StableSort.SortIsSorted | components/A4Sheet.tsx:73 | the sort orders by ascending key |
| StableSort.SortIsPermutation | components/A4Sheet.tsx:73 | the sort is a permutation of its input |
| StableSort.SortIsStable | components/A4Sheet.tsx:73 | elements with equal keys keep their input order |
| StableSort.FilterMembers | components/A4Sheet.tsx:73 | a key class holds exactly the elements with that key |
| StableSort.StableSortIsUnique | components/A4Sheet.tsx:73 | any sorted sequence with the input's key classes is the sort's result, so every stable sort agrees with this one |
| StableSort.SortedWithSameClassesAreEqual | components/A4Sheet.tsx:73 | two sorted sequences with the same key classes are equal |
| StableSort.FilterMapCommutes | utils/pdfGenerator.ts:72 | re-labelling the elements, without changing their keys, commutes with taking a key class |
| StableSort.SortMapCommutes | utils/pdfGenerator.ts:72 | re-labelling the elements, without changing their keys, commutes with the sort |
| StableSort.InsertInPlace | components/A4Sheet.tsx:73 | shifting one element left in an array inserts it into the sorted prefix and leaves the rest of the array alone |
| StableSort.InsertionSort | components/A4Sheet.tsx:73 | the in-place array sort leaves the array equal to the stable sort of its old contents |
| A4Sheet.CatalogueFit | components/A4Sheet.tsx:45-47 | in portrait only 20x30 is too wide; it is also the only size too tall, while in landscape 15x21 is too tall as well |
| A4Sheet.Flatten | components/A4Sheet.tsx:52-70 | the nested loops build the request list image by image, size by size, copy by copy |
| A4Sheet.ExpandImageLength | components/A4Sheet.tsx:55-68 | one image contributes the sum of the positive quantities |
| A4Sheet.ExpandLength | components/A4Sheet.tsx:54-70 | the queue has images × demand entries, where the demand counts only positive quantities |
| A4Sheet.ExpandAppend | components/A4Sheet.tsx:54-70 | requests come image-major: more images append their requests after the earlier ones |
| A4Sheet.ExpandSizesPositive | components/A4Sheet.tsx:59-66 | every request has a positive size equal to its key's catalogue size |
| A4Sheet.ExpandContents | components/A4Sheet.tsx:54-70 | every request names one of the images and a catalogue size key with that key's dimensions |
| A4Sheet.OverflowIsStrictExcess | components/A4Sheet.tsx:90 | on whole millimetres the 0.1 mm tolerance test is a strict excess |
| A4Sheet.Run | components/A4Sheet.tsx:88-116 | the walk places every request once and its page counter is at least 1 |
| A4Sheet.GroupByPage | components/A4Sheet.tsx:119-124 | pushing each item into its page's list gives page p exactly the items on page p, in placement order |
| A4Sheet.SortByArea | components/A4Sheet.tsx:73 | sorting the copied array in place gives the stable ascending-area order |
| A4Sheet.PlaceAll | components/A4Sheet.tsx:83-116 | the cursor loop yields exactly the walk's placements and final page |
| A4Sheet.ComputePages | components/A4Sheet.tsx:50-131 | the memo is the flatten-sort-walk-group specification, with one empty page when nothing is placed |
| A4Sheet.RunPrefix | components/A4Sheet.tsx:88-116 | the walk over a prefix of the queue places exactly that prefix of the items |
| A4Sheet.ItemAt | components/A4Sheet.tsx:88-112 | each item sits at the wrapped cursor the earlier items left behind |
| A4Sheet.CursorBefore | components/A4Sheet.tsx:83-116 | the cursor never leaves the margins and its page is the last item's page |
| A4Sheet.PlacedWithinMargins | components/A4Sheet.tsx:88-112 | every item has x and y at least the margin |
| A4Sheet.PageSequence | components/A4Sheet.tsx:85-101 | pages start at 1, never decrease and rise by at most 1; an item on a new page sits at (margin, margin) |
| A4Sheet.WrapFits | components/A4Sheet.tsx:89-102 | an item no larger than the printable area ends within the limits after the two wraps |
| A4Sheet.PlacedInsidePrintableArea | components/A4Sheet.tsx:89-102 | every item that fits the printable area is placed with x + w and y + h within the limits |
| A4Sheet.OversizedOpensNewPage | components/A4Sheet.tsx:97-102 | an item taller than the printable height always starts a new page, at the margin |
| A4Sheet.NoEmptyPageAfterFirst | components/A4Sheet.tsx:97-101 | every page after the first holds at least one item |
| A4Sheet.AdvanceKeepsBehind | components/A4Sheet.tsx:114-115 | a placed item stays behind the advanced cursor, as do the earlier items |
| A4Sheet.RunHasNoOverlap | components/A4Sheet.tsx:88-116 | two items on the same page never overlap |
| A4Sheet.RowHeightTracked | components/A4Sheet.tsx:86-114 | the row height is the tallest item of the current row |
| A4Sheet.WrapCases | components/A4Sheet.tsx:89-102 | the two wrap tests leave the cursor where it is, move it to the start of the next row, or to (margin, margin) of the next page |
| A4Sheet.PageSteps | components/A4Sheet.tsx:85-101 | each photo is on the previous photo's page or the next one, and a photo that opens a page sits at (margin, margin) |
| A4Sheet.RunPagesAscend | components/A4Sheet.tsx:85-101 | page numbers run from 1 to the final page counter and never decrease along the walk |
| A4Sheet.ConsecutivePlacement | components/A4Sheet.tsx:88-115 | the next item sits w + gap to the right, or a row below by the tallest height plus gap, or at the margin of the next page |
| A4Sheet.GroupPreservesOrder | components/A4Sheet.tsx:119-124 | reading the pages in order gives back the placements in order |
| A4Sheet.UnusedPageIsEmpty | components/A4Sheet.tsx:122-124 | a page number nothing is placed on gets an empty list |
| A4SheetProperties.RunPlacesEveryRequest | components/A4Sheet.tsx:104-112 | each placement carries its request's image, size and key, in queue order |
| A4SheetProperties.QueueShape | components/A4Sheet.tsx:73 | the sorted queue is a permutation of the requests, in ascending area |
| A4SheetProperties.SheetPagesNumbered | components/A4Sheet.tsx:119-131 | there is at least one page and list k holds only items on page k + 1 |
| A4SheetProperties.SheetConcat | components/A4Sheet.tsx:119-131 | the pages, read in order, are exactly the placements |
| A4SheetProperties.SheetOrder | components/A4Sheet.tsx:50-131 | the drawn requests, page after page, are the stable area sort of the flattened requests |
| A4SheetProperties.SheetIsSortedPermutation | components/A4Sheet.tsx:54-73 | the sheet draws every requested copy once, in ascending area |
| A4SheetProperties.SheetIsStable | components/A4Sheet.tsx:73 | copies of equal area are drawn in enumeration order |
| A4SheetProperties.EmptySheetIffNoDemand | components/A4Sheet.tsx:126-129 | the sheet is one empty page exactly when there are no images or no positive quantity |
| A4SheetProperties.ExpandSingleSizeConfig | components/A4Sheet.tsx:54-70 | a configuration with one size expands to that size's copies |
| A4SheetProperties.SingleSizeQueue | components/A4Sheet.tsx:54-73 | one image at one size queues qty identical requests |
| A4SheetProperties.FourPassportPhotos | components/A4Sheet.tsx:50-131 | four 3x4 copies on portrait A4 make one page with a single row at x = 10, 42, 74, 106 and y = 10 |
| A4SheetProperties.OversizedPrintLeavesFirstPageEmpty | components/A4Sheet.tsx:97-131 | a single 20x30 copy gives an empty first page and the photo at (10, 10) on page 2 |
| PdfGenerator.BuildQueue | utils/pdfGenerator.ts:57-69 | the queue loop builds the preview's requests without their size keys |
| PdfGenerator.SortQueue | utils/pdfGenerator.ts:72 | the queue is stable-sorted by ascending area |
| PdfGenerator.PlaceQueue | utils/pdfGenerator.ts:74-106 | the cursor loop places the queue as the preview walk does |
| PdfGenerator.RunReadsOnlySizes | utils/pdfGenerator.ts:79-106 | the walk's coordinates and pages depend only on each item's image and size |
| PdfGenerator.SplitPages | utils/pdfGenerator.ts:128-144 | pages 1 to totalPages each get exactly the items placed on that page |
| PdfGenerator.LayoutPhase | utils/pdfGenerator.ts:56-109 | phase 1 yields the planned items and a final page of at least 1 |
| PdfGenerator.GenerateSheetPdf | utils/pdfGenerator.ts:35-144 | no images gives no work; otherwise the plan of the sheet |
| PdfGenerator.PlanPagesNumbered | utils/pdfGenerator.ts:109-144 | totalPages is at least 1 and page p renders only items on page p |
| PdfGenerator.PlanPagesInOrder | utils/pdfGenerator.ts:128-144 | the rendered pages, read in order, are all the placed items in placement order |
| PdfGenerator.PlanMatchesPreview | utils/pdfGenerator.ts:57-106 | for the same images, configuration and orientation, every PDF page holds the preview page's items with the same x, y and page |
| PdfGenerator.CoverFit | utils/pdfGenerator.ts:157-174 | the render covers the target, keeps the image ratio, matches one side exactly and centres the overflow with non-positive offsets |
| PdfGenerator.CoverFitIsCoveringScale | utils/pdfGenerator.ts:157-174 | the render is the image scaled by the larger of the two side ratios |
| ImageFilters.Clamp | components/PhotoEditor.tsx:270 | the result is in [0, 255], the value itself when already there, the nearest bound otherwise |
| ImageFilters.StoreByte | components/PhotoEditor.tsx:329-331 | storing a clamped channel gives a byte within half a unit, exact on whole values |
| ImageFilters.IdentityIffNeutral | components/PhotoEditor.tsx:278-285 | the identity factors arise exactly from the neutral adjustments |
| ImageFilters.SkipsChangeNothing | components/PhotoEditor.tsx:292-326 | skipping a stage whose factor is the identity gives the same pixel as applying it |
| ImageFilters.ToneMapShiftsUniformly | components/PhotoEditor.tsx:293-304 | tone mapping adds the same amount to all three channels |
| ImageFilters.ToneMapDirection | components/PhotoEditor.tsx:293-304 | non-negative shadows and highlights never darken any of r, g and b; non-positive ones never brighten them |
| ImageFilters.FixedPoints | components/PhotoEditor.tsx:307-318 | black is fixed by brightness and mid-grey 128 by contrast |
| ImageFilters.SaturationKeepsLuma | components/PhotoEditor.tsx:321-326 | the saturation stage keeps the gray value of the channels it is given |
| ImageFilters.GradePixel | components/PhotoEditor.tsx:287-332 | every written channel is a byte |
| ImageFilters.ForEachPixel | components/PhotoEditor.tsx:287-332 | the stride-4 loop leaves the buffer equal to the per-pixel map of its old contents |
| ImageFilters.ApplyImageFilters | components/PhotoEditor.tsx:274-334 | neutral adjustments leave the buffer untouched; otherwise it becomes the graded buffer |
| ImageFilters.FilteredShape | components/PhotoEditor.tsx:287-332 | the length and every alpha byte are unchanged, and every colour channel is in [0, 255] |
| ImageFilters.IdentityGradeKeepsBytes | components/PhotoEditor.tsx:278-285 | identity grading of a byte buffer returns it unchanged |
| ImageFilters.CombinedAdjustment | components/PhotoEditor.tsx:372-378 | combined shadows and highlights are in [-100, 100]; the three percentages multiply |
| ImageFilters.NeutralRegionKeepsGlobal | components/PhotoEditor.tsx:372-378 | a neutral region combines to the global adjustments when they are in range |
| ImageFilters.NeutralGlobalAppliesRegion | components/PhotoEditor.tsx:372-378 | neutral global values combine to the region's own values, clamped |
| ImageFilters.CombinedStaysInRange | components/PhotoEditor.tsx:372-378 | documented-range inputs combine to a percentage within 0 to 400 and tone values within range |
| EditorState.Without | components/PhotoEditor.tsx:128 | filtering out an id keeps exactly the elements with another id |
| EditorState.WithoutAppend | components/PhotoEditor.tsx:128 | filtering keeps the survivors in their order |
| EditorState.WithoutAbsent | components/PhotoEditor.tsx:215-218 | filtering out an id nothing carries changes nothing |
| EditorState.AppendThenRemove | components/PhotoEditor.tsx:210-222 | appending an element with a fresh id and then filtering that id out gives back the list |
| EditorState.UpdateWhereFrame | components/PhotoEditor.tsx:145-150 | a per-id update keeps the ids and changes only the images with that id |
| EditorState.FindById | components/PhotoEditor.tsx:64-66 | the selected image has the selected id; none means no image has it |
| EditorState.UploadImage | components/PhotoEditor.tsx:69-97 | one pending image is appended, and it becomes selected when it is the first and nothing is selected |
| EditorState.UploadOutfit | components/PhotoEditor.tsx:99-111 | one outfit is appended and nothing else changes |
| EditorState.DeleteImage | components/PhotoEditor.tsx:126-135 | exactly the images with that id go and the survivors keep their order; deleting the selected one selects the first remaining image, or none; the rest of the editor is unchanged |
| EditorState.UploadThenDelete | components/PhotoEditor.tsx:69-135 | uploading an image with a fresh id and deleting it restores the list |
| EditorState.DeleteOutfit | components/PhotoEditor.tsx:137-141 | the outfit goes and the others keep their order; images that had it selected lose only that selection, every other image and the rest of the editor are unchanged |
| EditorState.CropCompleteEffect | components/PhotoEditor.tsx:143-153 | the selected image gets the crop, loses its processed result and is pending again, keeping every other field; other images and the rest of the editor are unchanged; with no selection nothing changes |
| EditorState.ToggleTwice | components/PhotoEditor.tsx:155-164 | toggling the same outfit twice restores an image that had it, or none, selected |
| EditorState.SetAdjustmentFrame | components/PhotoEditor.tsx:170-173 | setting one adjustment field changes that field only |
| EditorState.UpdateGlobalAdjustmentEffect | components/PhotoEditor.tsx:166-177 | a global slider changes one field of the selected image's adjustments and nothing else in the image or the editor; with no selection nothing changes |
| EditorState.UpdateRegion | components/PhotoEditor.tsx:182-184 | a region update keeps the length and ids and changes only the matching region |
| EditorState.UpdateRegionalAdjustmentEffect | components/PhotoEditor.tsx:179-190 | a regional slider changes only the active region of the selected image; its other regions and fields, other images and the rest of the editor are unchanged; otherwise nothing changes |
| EditorState.ResetAdjustments | components/PhotoEditor.tsx:192-208 | global mode restores the neutral values, local mode removes every region, of the selected image only; the active region is cleared and the rest of the editor is unchanged; with no selection nothing changes |
| EditorState.FindHit | components/PhotoEditor.tsx:232-237 | the region found is hit and no earlier region is, so it is the first one the click falls in; none means no region is hit |
| EditorState.CanvasClickEffect | components/PhotoEditor.tsx:224-264 | a hit only selects the first region hit; a miss appends one region with radius 0.15 and values 100/100/100/0/0 at the click to the selected image, keeping its other fields, and selects it; nothing else changes |
| EditorState.ClickThenRemove | components/PhotoEditor.tsx:243-264 | a region added with a fresh id can be removed again, restoring the list |
| EditorState.AddFreshKeepsDistinct | components/PhotoEditor.tsx:243-261 | adding a region with a fresh id keeps region ids distinct |
| EditorState.RemoveAndUpdateKeepDistinct | components/PhotoEditor.tsx:179-222 | updating or removing regions keeps region ids distinct |
| EditorState.RemoveActiveRegionEffect | components/PhotoEditor.tsx:210-222 | the active region is removed from the selected image, the others stay in order, the image's other fields, other images and the rest of the editor are unchanged, and nothing is active |
| EditorState.SetEntryThenQuantity | components/PhotoEditor.tsx:623-629 | the stored count is read back and every other key keeps its count |
| EditorState.SetEntryKeepsKeys | components/PhotoEditor.tsx:626 | storing a present key keeps the key order |
| EditorState.SetEntrySameValue | components/PhotoEditor.tsx:626 | storing the count a key already has changes nothing |
| EditorState.SetEntryTwice | components/PhotoEditor.tsx:626 | the later of two stores wins |
| EditorState.UpdateQuantityEffect | components/PhotoEditor.tsx:623-629 | the size's count becomes max(0, old + delta), other counts stay, the configuration stays well formed and non-negative |
| EditorState.SetQuantityEffect | components/PhotoEditor.tsx:631-635 | the size's count becomes the parsed number when positive, otherwise 0 |
| EditorState.IncrementThenDecrement | components/PhotoEditor.tsx:623-629 | plus then minus restores the configuration |
| EditorState.DecrementAtZero | components/PhotoEditor.tsx:623-629 | minus on a zero count changes nothing |
| EditorState.InitialConfigContents | components/PhotoEditor.tsx:32-37 | the initial configuration is well formed, with four 3x4 photos and every other size at 0 |
| EditorState.ImagesForSheet | components/PhotoEditor.tsx:641-650 | fill-page mode gives at most the selected image's preferred version; mixed mode gives every image's preferred version, in order |
| EditorState.TotalIsDemand | components/PhotoEditor.tsx:602 | with no negative counts the plain total is the layout's demand |
| EditorState.DownloadedSheetIsNotEmpty | components/PhotoEditor.tsx:600-612 | when the download goes ahead, the sheet it lays out holds a photo |
| DocxGenerator.FitCount | utils/docxGenerator.ts:37-38 | the count is the largest n with n·(cell + gap) − gap within the available length |
| DocxGenerator.GridCounts | utils/docxGenerator.ts:19-38 | 3x4 gives a 6 by 6 grid, every other size 4 by 4 |
| DocxGenerator.SlotSource | utils/docxGenerator.ts:53-59 | each slot shows one of the given images |
| DocxGenerator.BuildPhotoRow | utils/docxGenerator.ts:46-114 | the cell loop builds photo cells interleaved with spacers |
| DocxGenerator.BuildSpacerRow | utils/docxGenerator.ts:119-135 | a spacer row has 2·cols − 1 empty cells |
| DocxGenerator.GenerateDocx | utils/docxGenerator.ts:11-136 | no images gives nothing; otherwise the nested loops build the specified table |
| DocxGenerator.TableShape | utils/docxGenerator.ts:106-135 | the table has 2·rows − 1 rows, photo rows at even positions including the first and last, each row with 2·cols − 1 cells |
| DocxGenerator.SlotCellAt | utils/docxGenerator.ts:45-104 | the cell of slot (r, c) shows the image the index r·cols + c selects |
| DocxGenerator.SlotIndexDecodes | utils/docxGenerator.ts:49 | each slot's index is below cols·rows and decodes back to the slot |
| DocxGenerator.SlotIndexCovers | utils/docxGenerator.ts:45-49 | every index below cols·rows is the index of a slot |
| DocxGenerator.MixedCycles | utils/docxGenerator.ts:53-55 | mixed mode cycles through the images with period \|images\|, and the first \|images\| slots show them in order |
| DocxGenerator.SingleSourceModes | utils/docxGenerator.ts:56-59 | outside mixed mode every slot shows the first image; with one image the modes agree |

## Specification functions

These functions compute what the source computes and carry no contract of
their own. Each one's properties are stated by the members listed after it,
which have rows in the table above.

- `A4Sheet.Expand` (components/A4Sheet.tsx:52-70): the request list. Stated by `A4Sheet.Flatten`, `A4Sheet.ExpandLength`, `A4Sheet.ExpandAppend`, `A4Sheet.ExpandContents`, `A4Sheet.ExpandSizesPositive` and `A4SheetProperties.ExpandSingleSizeConfig`.
- `A4Sheet.Wrap` (components/A4Sheet.tsx:89-102): the row and page wrap tests. Stated by `A4Sheet.WrapCases`, `A4Sheet.WrapFits` and `A4Sheet.OversizedOpensNewPage`.
- `A4Sheet.Advance` (components/A4Sheet.tsx:114-115): the cursor step after a placement. Stated by `A4Sheet.AdvanceKeepsBehind`, `A4Sheet.RowHeightTracked` and `A4Sheet.ConsecutivePlacement`.
- `A4Sheet.Group` (components/A4Sheet.tsx:119-124): the per-page lists. Stated by `A4Sheet.GroupByPage`, `A4Sheet.GroupPreservesOrder` and `A4Sheet.UnusedPageIsEmpty`.
- `A4Sheet.SheetPages` (components/A4Sheet.tsx:50-131): the whole memo. Stated by `A4Sheet.ComputePages`, `A4SheetProperties.SheetPagesNumbered`, `A4SheetProperties.SheetConcat`, `A4SheetProperties.SheetOrder` and `A4SheetProperties.EmptySheetIffNoDemand`.
- `PdfGenerator.Plan` (utils/pdfGenerator.ts:56-144): the placements and pages of the PDF. Stated by `PdfGenerator.LayoutPhase`, `PdfGenerator.GenerateSheetPdf`, `PdfGenerator.PlanPagesNumbered`, `PdfGenerator.PlanPagesInOrder` and `PdfGenerator.PlanMatchesPreview`.
- `PdfGenerator.PageSplit` (utils/pdfGenerator.ts:128-144): the items each page renders. Stated by `PdfGenerator.SplitPages` and `PdfGenerator.PlanPagesNumbered`.
- `ImageFilters.ToneMap`, `ImageFilters.Brighten`, `ImageFilters.Contrast`, `ImageFilters.Saturate` and `ImageFilters.Grade` (components/PhotoEditor.tsx:292-331): the four stages and their composition. Stated by `ImageFilters.SkipsChangeNothing`, `ImageFilters.ToneMapShiftsUniformly`, `ImageFilters.ToneMapDirection`, `ImageFilters.FixedPoints`, `ImageFilters.SaturationKeepsLuma`, `ImageFilters.GradePixel` and `ImageFilters.IdentityIffNeutral`.
- `ImageFilters.MapPixels` and `ImageFilters.Filtered` (components/PhotoEditor.tsx:287-332): the buffer after the loop. Stated by `ImageFilters.ForEachPixel`, `ImageFilters.ApplyImageFilters`, `ImageFilters.FilteredShape` and `ImageFilters.IdentityGradeKeepsBytes`.
- `EditorState.CropComplete` (components/PhotoEditor.tsx:143-153): stated by `EditorState.CropCompleteEffect`.
- `EditorState.ToggleOutfit` (components/PhotoEditor.tsx:155-164): stated by `EditorState.ToggleTwice`.
- `EditorState.UpdateGlobalAdjustment` (components/PhotoEditor.tsx:166-177): stated by `EditorState.UpdateGlobalAdjustmentEffect` and `EditorState.SetAdjustmentFrame`.
- `EditorState.UpdateRegionalAdjustment` (components/PhotoEditor.tsx:179-190): stated by `EditorState.UpdateRegionalAdjustmentEffect`, `EditorState.UpdateRegion` and `EditorState.RemoveAndUpdateKeepDistinct`.
- `EditorState.RemoveActiveRegion` (components/PhotoEditor.tsx:210-222): stated by `EditorState.RemoveActiveRegionEffect` and `EditorState.RemoveAndUpdateKeepDistinct`.
- `EditorState.CanvasClick` (components/PhotoEditor.tsx:224-264): stated by `EditorState.CanvasClickEffect`, `EditorState.ClickThenRemove` and `EditorState.AddFreshKeepsDistinct`.
- `EditorState.UpdateQuantity` (components/PhotoEditor.tsx:623-629): stated by `EditorState.UpdateQuantityEffect`, `EditorState.IncrementThenDecrement` and `EditorState.DecrementAtZero`.
- `EditorState.SetQuantity` (components/PhotoEditor.tsx:631-635): stated by `EditorState.SetQuantityEffect`.
- `DocxGenerator.PhotoCm` (utils/docxGenerator.ts:19-20): the photo size in centimetres, 3 × 4 for 3x4 and 4 × 6 otherwise. Stated by `DocxGenerator.GridCounts`.
- `DocxGenerator.Cols` and `DocxGenerator.Rows` (utils/docxGenerator.ts:37-38): stated by `DocxGenerator.FitCount` and `DocxGenerator.GridCounts`.
- `DocxGenerator.SlotCell` (utils/docxGenerator.ts:61-104): a photo cell, or an empty one for an empty source. Stated by `DocxGenerator.SlotCellAt`.
- `DocxGenerator.PhotoRow`, `DocxGenerator.SpacerRow` and `DocxGenerator.Table` (utils/docxGenerator.ts:45-136): the table. Stated by `DocxGenerator.BuildPhotoRow`, `DocxGenerator.BuildSpacerRow`, `DocxGenerator.GenerateDocx`, `DocxGenerator.TableShape` and `DocxGenerator.SlotCellAt`.

## Left out

- Browser and library I/O has no counterpart in the model: canvas drawing, `Image` loading, `FileReader`, `toDataURL`, `fetch`, jsPDF page assembly, the `docx` `Packer` and `file-saver`. Image data URLs are opaque strings.
- The millimetre-to-pixel conversion `Math.round(mm * PX_PER_MM)` of the PDF renderer is not modelled. `PdfGenerator.CoverFit` takes the pixel sizes as inputs.
- PdfGenerator.CoverFit: requires positive image and target sizes. The source would divide by zero for an empty image.
- The frame overlay and the pages' `Math.ceil` canvas sizes are drawing, not layout, and are left out.
- Floating-point arithmetic is modelled over reals. This covers the tone stages, `Math.pow(x, 3)` (written `x*x*x`), the combined percentages and the cover-fit ratios. Where float rounding matters, for example whether a neutral factor compares exactly equal to 1, the model can differ.
- ImageFilters.ApplyImageFilters: requires a buffer length divisible by 4. Canvas `ImageData` always has one.
- The radial-gradient mask and `destination-in` compositing of spot edits (`drawCompositeImage`) are canvas operations and are not modelled. Only the combined adjustment each region is graded with is modelled.
- EditorState.Hit: the hit test `sqrt(dx² + dy²) < radius / 2` is stated without the square root, as `4·(dx² + dy²) < radius²` with a positive radius. This is the same test on reals.
- `Math.random` identifiers, the parsed text of `parseInt`, and the normalised click position (x, y) are parameters. `None` stands for a `NaN` parse.
- React batching is not modelled. Each handler is the function its updater computes from the state it reads. The canvas reference that `handleCanvasClick` checks is assumed present.
- Not part of this model:
  - the AI processing calls `processIdPhoto` and `resizeForAI`;
  - the batch loop `handleGenerateAll`;
  - the frame upload;
  - zoom, colour palettes and other presentational state;
  - `components/ImageCropper.tsx`.
- `getDimensions` appears in both `components/A4Sheet.tsx` and `utils/pdfGenerator.ts` with the same table. It is modelled once, as `Types.Dimensions`.
- DocxGenerator.GenerateDocx: cell widths in twips (`mm * 56.7`) and the borders are formatting and are not modelled. Each photo cell records its image and its size in EMUs.
