/**
 * The editor's application state and the handlers that update it.  Every
 * handler is a pure function from the old state to the new one, as the
 * `setImages(prev => ...)` and `setPrintConfig(prev => ...)` updaters are;
 * identifiers, parsed numbers and click positions are parameters.
 */
module EditorState {
  import opened Types
  import A4Sheet
  import A4SheetProperties
  import StableSort

  datatype EditMode = GlobalEdit | LocalEdit

  datatype Editor = Editor(
    images: seq<UploadedImage>,
    outfits: seq<OutfitImage>,
    selectedImageId: Option<string>,
    activeRegionId: Option<string>,
    printConfig: PrintConfig,
    activeSize: PhotoSize,
    layoutMode: LayoutMode,
    editMode: EditMode)

  /** JavaScript truthiness of an optional string: present and not empty. */
  predicate Truthy(o: Option<string>)
  {
    o.Some? && o.value != ""
  }

  function Max(a: int, b: int): int
  {
    if a >= b then a else b
  }

  // ---------------------------------------------------------------------------
  // Generic list updates

  /** `list.filter(x => x.id !== id)`. */
  function Without<T(!new)>(s: seq<T>, idOf: T -> string, id: string): (r: seq<T>)
    ensures |r| <= |s|
    ensures forall x :: x in r <==> x in s && idOf(x) != id
  {
    if s == [] then []
    else Without(s[..|s| - 1], idOf, id) + (if idOf(s[|s| - 1]) != id then [s[|s| - 1]] else [])
  }

  /** Filtering a concatenation filters each part: the survivors keep their order. */
  lemma {:induction false} WithoutAppend<T(!new)>(a: seq<T>, b: seq<T>, idOf: T -> string, id: string)
    ensures Without(a + b, idOf, id) == Without(a, idOf, id) + Without(b, idOf, id)
  {
    if b == [] {
      assert a + b == a;
    } else {
      var b', last := b[..|b| - 1], b[|b| - 1];
      assert (a + b)[..|a + b| - 1] == a + b';
      assert (a + b)[|a + b| - 1] == last;
      WithoutAppend(a, b', idOf, id);
      StableSort.ConcatAssoc(Without(a, idOf, id), Without(b', idOf, id), if idOf(last) != id then [last] else []);
    }
  }

  /** Filtering out an id nothing carries changes nothing. */
  lemma {:induction false} WithoutAbsent<T(!new)>(s: seq<T>, idOf: T -> string, id: string)
    requires forall i :: 0 <= i < |s| ==> idOf(s[i]) != id
    ensures Without(s, idOf, id) == s
  {
    if s != [] {
      var s', last := s[..|s| - 1], s[|s| - 1];
      assert forall i :: 0 <= i < |s'| ==> idOf(s'[i]) != id by {
        forall i | 0 <= i < |s'| ensures idOf(s'[i]) != id {
          assert s'[i] == s[i];
        }
      }
      WithoutAbsent(s', idOf, id);
      assert idOf(last) != id;
      assert Without(s, idOf, id) == Without(s', idOf, id) + [last];
      StableSort.SplitLast(s);
    }
  }

  /** Adding an element with a fresh id and then removing that id gives back the list. */
  lemma AppendThenRemove<T(!new)>(s: seq<T>, x: T, idOf: T -> string)
    requires forall i :: 0 <= i < |s| ==> idOf(s[i]) != idOf(x)
    ensures Without(s + [x], idOf, idOf(x)) == s
  {
    WithoutAppend(s, [x], idOf, idOf(x));
    WithoutAbsent(s, idOf, idOf(x));
    assert [x][..0] == [];
  }

  function ImageId(img: UploadedImage): string
  {
    img.id
  }

  function RegionId(r: RegionalAdjustment): string
  {
    r.id
  }

  function OutfitId(o: OutfitImage): string
  {
    o.id
  }

  function Ids(images: seq<UploadedImage>): seq<string>
  {
    seq(|images|, i requires 0 <= i < |images| => images[i].id)
  }

  /** `images.map((img: UploadedImage) => img.id === id ? f(img) : img)`. */
  function UpdateWhere(images: seq<UploadedImage>, id: string, f: UploadedImage -> UploadedImage): seq<UploadedImage>
  {
    seq(|images|, i requires 0 <= i < |images| => if images[i].id == id then f(images[i]) else images[i])
  }

  /**
   * Updating the images with a given id keeps the list's length and its ids
   * (when `f` keeps the id), and leaves every other image untouched.
   */
  lemma UpdateWhereFrame(images: seq<UploadedImage>, id: string, f: UploadedImage -> UploadedImage)
    requires forall img :: f(img).id == img.id
    ensures var r := UpdateWhere(images, id, f);
      && Ids(r) == Ids(images)
      && (forall i :: 0 <= i < |images| && images[i].id != id ==> r[i] == images[i])
      && (forall i :: 0 <= i < |images| && images[i].id == id ==> r[i] == f(images[i]))
  {
  }

  /** `images.find((img: UploadedImage) => img.id === id)`. */
  function FindById(images: seq<UploadedImage>, id: string): (r: Option<UploadedImage>)
    ensures r.Some? ==> r.value in images && r.value.id == id
    ensures r.None? ==> forall i :: 0 <= i < |images| ==> images[i].id != id
  {
    if images == [] then None
    else if images[0].id == id then Some(images[0])
    else FindById(images[1..], id)
  }

  /** `selectedImage`: the first image whose id is the selected one. */
  function SelectedImage(st: Editor): Option<UploadedImage>
  {
    if st.selectedImageId.Some? then FindById(st.images, st.selectedImageId.value) else None
  }

  // ---------------------------------------------------------------------------
  // Images

  /** The record an uploaded file becomes. */
  function NewImage(id: string, dataUrl: string): UploadedImage
  {
    UploadedImage(id, dataUrl, None, None, Pending, None, None, None, NeutralAdjustments, [])
  }

  /** `handleFileUpload` for one file read as `dataUrl`, given the id drawn for it. */
  function UploadImage(st: Editor, id: string, dataUrl: string): (r: Editor)
    ensures r.images == st.images + [NewImage(id, dataUrl)]
    ensures r.selectedImageId == if !Truthy(st.selectedImageId) && st.images == [] then Some(id) else st.selectedImageId
    ensures r.(images := st.images, selectedImageId := st.selectedImageId) == st
  {
    var updated := st.images + [NewImage(id, dataUrl)];
    var sel := if !Truthy(st.selectedImageId) && |updated| == 1 then Some(id) else st.selectedImageId;
    st.(images := updated, selectedImageId := sel)
  }

  /** `handleOutfitUpload` for one file. */
  function UploadOutfit(st: Editor, id: string, dataUrl: string): (r: Editor)
    ensures r.outfits == st.outfits + [OutfitImage(id, dataUrl)]
    ensures r.(outfits := st.outfits) == st
  {
    st.(outfits := st.outfits + [OutfitImage(id, dataUrl)])
  }

  /** `deleteImage`: drop the image; if it was selected, select the first remaining one. */
  function DeleteImage(st: Editor, id: string): (r: Editor)
    ensures forall img :: img in r.images <==> img in st.images && img.id != id
    ensures r.images == Without(st.images, ImageId, id)
    ensures r.(images := st.images, selectedImageId := st.selectedImageId) == st
    ensures st.selectedImageId == Some(id) && r.images != [] ==> r.selectedImageId == Some(r.images[0].id)
    ensures st.selectedImageId == Some(id) && r.images == [] ==> r.selectedImageId == None
    ensures st.selectedImageId != Some(id) ==> r.selectedImageId == st.selectedImageId
  {
    var next := Without(st.images, ImageId, id);
    var sel := if st.selectedImageId == Some(id) then (if |next| > 0 then Some(next[0].id) else None)
               else st.selectedImageId;
    st.(images := next, selectedImageId := sel)
  }

  /** Uploading an image and deleting it again restores the list, when its id was fresh. */
  lemma UploadThenDelete(st: Editor, id: string, dataUrl: string)
    requires forall i :: 0 <= i < |st.images| ==> st.images[i].id != id
    ensures DeleteImage(UploadImage(st, id, dataUrl), id).images == st.images
  {
    AppendThenRemove(st.images, NewImage(id, dataUrl), ImageId);
  }

  /** `deleteOutfit`: drop the outfit and clear it from every image that had it selected. */
  function DeleteOutfit(st: Editor, id: string): (r: Editor)
    ensures Ids(r.images) == Ids(st.images)
    ensures forall i :: 0 <= i < |r.images| ==> r.images[i].selectedOutfitId != Some(id)
    ensures forall i :: 0 <= i < |st.images| ==>
      r.images[i] == if st.images[i].selectedOutfitId == Some(id) then st.images[i].(selectedOutfitId := None) else st.images[i]
    ensures forall o :: o in r.outfits <==> o in st.outfits && o.id != id
    ensures r.outfits == Without(st.outfits, OutfitId, id)
    ensures r.(images := st.images, outfits := st.outfits) == st
  {
    var images := seq(|st.images|, i requires 0 <= i < |st.images| =>
      var img := st.images[i];
      if img.selectedOutfitId == Some(id) then img.(selectedOutfitId := None) else img);
    st.(outfits := Without(st.outfits, OutfitId, id), images := images)
  }

  /** `handleCropComplete`: store the crop on the selected image and send it back to pending. */
  function CropComplete(st: Editor, croppedDataUrl: string): Editor
  {
    if Truthy(st.selectedImageId) then
      st.(images := UpdateWhere(st.images, st.selectedImageId.value,
        (img: UploadedImage) => img.(cropped := Some(croppedDataUrl), processed := None, status := Pending)))
    else st
  }

  /**
   * After a crop the selected image shows the new crop and no stale result,
   * and keeps every other field; every other image, the ids and the rest of
   * the editor are unchanged.  Without a selection nothing changes.
   */
  lemma CropCompleteEffect(st: Editor, croppedDataUrl: string)
    ensures var r := CropComplete(st, croppedDataUrl);
      && Ids(r.images) == Ids(st.images)
      && r.(images := st.images) == st
      && (!Truthy(st.selectedImageId) ==> r == st)
      && (Truthy(st.selectedImageId) ==> forall i :: 0 <= i < |st.images| ==>
            if st.images[i].id == st.selectedImageId.value then
              && r.images[i].cropped == Some(croppedDataUrl) && r.images[i].processed == None
              && r.images[i].status == Pending && r.images[i].original == st.images[i].original
              && r.images[i] == st.images[i].(cropped := Some(croppedDataUrl), processed := None, status := Pending)
            else r.images[i] == st.images[i])
  {
  }

  /** `toggleOutfitSelection`: select the outfit, or clear it if it is the current one. */
  function ToggleOutfit(st: Editor, outfitId: string): Editor
  {
    if Truthy(st.selectedImageId) then
      st.(images := UpdateWhere(st.images, st.selectedImageId.value,
        (img: UploadedImage) => img.(selectedOutfitId := if img.selectedOutfitId == Some(outfitId) then None else Some(outfitId))))
    else st
  }

  /** Toggling the same outfit twice restores an image that had it, or had none, selected. */
  lemma ToggleTwice(st: Editor, outfitId: string)
    requires forall i :: 0 <= i < |st.images| ==>
      st.images[i].selectedOutfitId == None || st.images[i].selectedOutfitId == Some(outfitId)
    ensures ToggleOutfit(ToggleOutfit(st, outfitId), outfitId) == st
  {
    var r := ToggleOutfit(ToggleOutfit(st, outfitId), outfitId);
    assert r.images == st.images;
  }

  // ---------------------------------------------------------------------------
  // Adjustments

  datatype AdjustmentField = Brightness | ContrastField | Saturation | Shadows | Highlights

  function SetAdjustment(a: ImageAdjustments, field: AdjustmentField, value: real): ImageAdjustments
  {
    match field
    case Brightness => a.(brightness := value)
    case ContrastField => a.(contrast := value)
    case Saturation => a.(saturation := value)
    case Shadows => a.(shadows := value)
    case Highlights => a.(highlights := value)
  }

  function GetAdjustment(a: ImageAdjustments, field: AdjustmentField): real
  {
    match field
    case Brightness => a.brightness
    case ContrastField => a.contrast
    case Saturation => a.saturation
    case Shadows => a.shadows
    case Highlights => a.highlights
  }

  /** Setting a field changes that field and no other. */
  lemma SetAdjustmentFrame(a: ImageAdjustments, field: AdjustmentField, value: real)
    ensures GetAdjustment(SetAdjustment(a, field, value), field) == value
    ensures forall other :: other != field ==> GetAdjustment(SetAdjustment(a, field, value), other) == GetAdjustment(a, other)
  {
  }

  /** `updateGlobalAdjustment`. */
  function UpdateGlobalAdjustment(st: Editor, field: AdjustmentField, value: real): Editor
  {
    if Truthy(st.selectedImageId) then
      st.(images := UpdateWhere(st.images, st.selectedImageId.value,
        (img: UploadedImage) => img.(adjustments := SetAdjustment(img.adjustments, field, value))))
    else st
  }

  /**
   * A global slider changes one field of the selected image's adjustments and
   * nothing else: the image's other fields, every other image and the rest of
   * the editor are unchanged.  Without a selection nothing changes.
   */
  lemma UpdateGlobalAdjustmentEffect(st: Editor, field: AdjustmentField, value: real, other: AdjustmentField)
    ensures var r := UpdateGlobalAdjustment(st, field, value);
      && Ids(r.images) == Ids(st.images)
      && r.(images := st.images) == st
      && (!Truthy(st.selectedImageId) ==> r == st)
      && (Truthy(st.selectedImageId) ==> forall i :: 0 <= i < |st.images| ==>
           if st.images[i].id == st.selectedImageId.value then
             && r.images[i] == st.images[i].(adjustments := r.images[i].adjustments)
             && GetAdjustment(r.images[i].adjustments, field) == value
             && (other != field ==> GetAdjustment(r.images[i].adjustments, other) == GetAdjustment(st.images[i].adjustments, other))
           else r.images[i] == st.images[i])
  {
  }

  /** The numeric fields of a region a slider can set. */
  datatype RegionField = RegionX | RegionY | Radius | RegionAdjustment(field: AdjustmentField)

  function SetRegionField(r: RegionalAdjustment, field: RegionField, value: real): RegionalAdjustment
  {
    match field
    case RegionX => r.(x := value)
    case RegionY => r.(y := value)
    case Radius => r.(radius := value)
    case RegionAdjustment(f) =>
      var a := SetAdjustment(RegionAdjustments(r), f, value);
      r.(brightness := a.brightness, contrast := a.contrast, saturation := a.saturation,
         shadows := a.shadows, highlights := a.highlights)
  }

  /** `regions.map(r => r.id === id ? { ...r, [field]: value } : r)`. */
  function UpdateRegion(regions: seq<RegionalAdjustment>, id: string, field: RegionField, value: real): (r: seq<RegionalAdjustment>)
    ensures |r| == |regions|
    ensures forall i :: 0 <= i < |regions| ==> r[i].id == regions[i].id
    ensures forall i :: 0 <= i < |regions| && regions[i].id != id ==> r[i] == regions[i]
  {
    seq(|regions|, i requires 0 <= i < |regions| =>
      if regions[i].id == id then SetRegionField(regions[i], field, value) else regions[i])
  }

  /** `updateRegionalAdjustment`: change one field of the active region of the selected image. */
  function UpdateRegionalAdjustment(st: Editor, field: RegionField, value: real): Editor
  {
    if Truthy(st.selectedImageId) && Truthy(st.activeRegionId) then
      st.(images := UpdateWhere(st.images, st.selectedImageId.value,
        (img: UploadedImage) => img.(regionalAdjustments := UpdateRegion(img.regionalAdjustments, st.activeRegionId.value, field, value))))
    else st
  }

  /**
   * A regional slider changes only the active region of the selected image:
   * every other region, the image's other fields, every other image, all ids
   * and the rest of the editor stay as they were.  Without a selected image
   * and an active region nothing changes.
   */
  lemma UpdateRegionalAdjustmentEffect(st: Editor, field: RegionField, value: real)
    ensures var r := UpdateRegionalAdjustment(st, field, value);
      && Ids(r.images) == Ids(st.images)
      && r.(images := st.images) == st
      && (!(Truthy(st.selectedImageId) && Truthy(st.activeRegionId)) ==> r == st)
      && (Truthy(st.selectedImageId) && Truthy(st.activeRegionId) ==>
         var sel, active := st.selectedImageId.value, st.activeRegionId.value;
         forall i :: 0 <= i < |st.images| ==>
           if st.images[i].id == sel then
             var before, after := st.images[i].regionalAdjustments, r.images[i].regionalAdjustments;
             && r.images[i] == st.images[i].(regionalAdjustments := after)
             && |after| == |before|
             && (forall k :: 0 <= k < |before| ==> after[k].id == before[k].id)
             && (forall k :: 0 <= k < |before| && before[k].id != active ==> after[k] == before[k])
             && (forall k :: 0 <= k < |before| && before[k].id == active ==> after[k] == SetRegionField(before[k], field, value))
           else r.images[i] == st.images[i])
  {
  }

  /** `resetAdjustments`: neutral global values, or no regions, for the selected image. */
  function ResetAdjustments(st: Editor): (r: Editor)
    ensures !Truthy(st.selectedImageId) ==> r == st
    ensures Truthy(st.selectedImageId) ==> r.activeRegionId == None
    ensures r.(images := st.images, activeRegionId := st.activeRegionId) == st
    ensures Ids(r.images) == Ids(st.images)
    ensures Truthy(st.selectedImageId) ==> forall i :: 0 <= i < |r.images| ==>
      if r.images[i].id != st.selectedImageId.value then r.images[i] == st.images[i]
      else if st.editMode == GlobalEdit
      then r.images[i] == st.images[i].(adjustments := NeutralAdjustments)
      else r.images[i] == st.images[i].(regionalAdjustments := [])
  {
    if Truthy(st.selectedImageId) then
      var images := UpdateWhere(st.images, st.selectedImageId.value,
        (img: UploadedImage) => if st.editMode == GlobalEdit then img.(adjustments := NeutralAdjustments) else img.(regionalAdjustments := []));
      st.(images := images, activeRegionId := None)
    else st
  }

  /** `removeActiveRegion`: drop the active region from the selected image and clear the selection. */
  function RemoveActiveRegion(st: Editor): Editor
  {
    if Truthy(st.selectedImageId) && Truthy(st.activeRegionId) then
      st.(images := UpdateWhere(st.images, st.selectedImageId.value,
            (img: UploadedImage) => img.(regionalAdjustments := Without(img.regionalAdjustments, RegionId, st.activeRegionId.value))),
          activeRegionId := None)
    else st
  }

  /** A new spot edit: radius 0.15 of the width, neutral values. */
  function NewRegion(id: string, x: real, y: real): RegionalAdjustment
  {
    RegionalAdjustment(id, x, y, 0.15, 100.0, 100.0, 100.0, 0.0, 0.0)
  }

  /**
   * The hit test `sqrt(dx*dx + dy*dy) < radius / 2`, compared in squares:
   * both sides of the comparison are non-negative when it can hold.
   */
  predicate Hit(r: RegionalAdjustment, x: real, y: real)
  {
    var dx, dy := r.x - x, r.y - y;
    r.radius > 0.0 && 4.0 * (dx * dx + dy * dy) < r.radius * r.radius
  }

  /** `regions.find(hit)`: the first region the click falls in. */
  function FindHit(regions: seq<RegionalAdjustment>, x: real, y: real): (r: Option<RegionalAdjustment>)
    ensures r.Some? ==> exists i :: 0 <= i < |regions| && regions[i] == r.value && Hit(regions[i], x, y) &&
                                    forall j :: 0 <= j < i ==> !Hit(regions[j], x, y)
    ensures r.None? ==> forall i :: 0 <= i < |regions| ==> !Hit(regions[i], x, y)
  {
    if regions == [] then None
    else if Hit(regions[0], x, y) then Some(regions[0])
    else FindHit(regions[1..], x, y)
  }

  /**
   * `handleCanvasClick` at normalised position (x, y): in local mode, select
   * the region under the click, or else append a new region there with the
   * id drawn for it and select that.
   */
  function CanvasClick(st: Editor, x: real, y: real, newId: string): Editor
  {
    if st.editMode != LocalEdit || !Truthy(st.selectedImageId) then st
    else
      var selected := SelectedImage(st);
      var existing := if selected.Some? then FindHit(selected.value.regionalAdjustments, x, y) else None;
      if existing.Some? then st.(activeRegionId := Some(existing.value.id))
      else
        st.(images := UpdateWhere(st.images, st.selectedImageId.value,
              (img: UploadedImage) => img.(regionalAdjustments := img.regionalAdjustments + [NewRegion(newId, x, y)])),
            activeRegionId := Some(newId))
  }

  /**
   * A click on existing regions only selects the first of them; a click
   * elsewhere appends exactly one region, at the click, to the end of the
   * selected image's list, keeps the image's other fields, and selects it.
   * Nothing else in the editor changes.
   */
  lemma CanvasClickEffect(st: Editor, x: real, y: real, newId: string)
    requires st.editMode == LocalEdit && Truthy(st.selectedImageId)
    ensures var r, sel := CanvasClick(st, x, y, newId), st.selectedImageId.value;
      && Ids(r.images) == Ids(st.images)
      && r.(images := st.images, activeRegionId := st.activeRegionId) == st
      && (forall i :: 0 <= i < |st.images| && st.images[i].id != sel ==> r.images[i] == st.images[i])
      && (!SelectedHit(st, x, y) ==>
            && r.activeRegionId == Some(newId)
            && forall i :: 0 <= i < |st.images| && st.images[i].id == sel ==>
                 r.images[i] == st.images[i].(regionalAdjustments := st.images[i].regionalAdjustments + [NewRegion(newId, x, y)]))
      && (SelectedHit(st, x, y) ==>
            && r.images == st.images
            && r.activeRegionId == Some(FindHit(SelectedImage(st).value.regionalAdjustments, x, y).value.id))
  {
  }

  /** The click falls in some region of the selected image. */
  predicate SelectedHit(st: Editor, x: real, y: real)
  {
    var selected := SelectedImage(st);
    selected.Some? && FindHit(selected.value.regionalAdjustments, x, y).Some?
  }

  /** A new region whose id is fresh can be removed again, restoring the list. */
  lemma ClickThenRemove(regions: seq<RegionalAdjustment>, x: real, y: real, newId: string)
    requires forall i :: 0 <= i < |regions| ==> regions[i].id != newId
    ensures Without(regions + [NewRegion(newId, x, y)], RegionId, newId) == regions
  {
    AppendThenRemove(regions, NewRegion(newId, x, y), RegionId);
  }

  /** Region ids stay distinct when a region with a fresh id is added. */
  predicate DistinctRegionIds(regions: seq<RegionalAdjustment>)
  {
    forall i, j :: 0 <= i < j < |regions| ==> regions[i].id != regions[j].id
  }

  lemma AddFreshKeepsDistinct(regions: seq<RegionalAdjustment>, x: real, y: real, newId: string)
    requires DistinctRegionIds(regions)
    requires forall i :: 0 <= i < |regions| ==> regions[i].id != newId
    ensures DistinctRegionIds(regions + [NewRegion(newId, x, y)])
  {
  }

  /** Removing a region keeps ids distinct, and updating a field never changes them. */
  lemma RemoveAndUpdateKeepDistinct(regions: seq<RegionalAdjustment>, id: string, field: RegionField, value: real)
    requires DistinctRegionIds(regions)
    ensures DistinctRegionIds(UpdateRegion(regions, id, field, value))
    ensures DistinctRegionIds(Without(regions, RegionId, id))
  {
    WithoutKeepsDistinct(regions, id);
  }

  lemma {:induction false} WithoutKeepsDistinct(regions: seq<RegionalAdjustment>, id: string)
    requires DistinctRegionIds(regions)
    ensures DistinctRegionIds(Without(regions, RegionId, id))
  {
    if regions != [] {
      var rest, last := regions[..|regions| - 1], regions[|regions| - 1];
      WithoutKeepsDistinct(rest, id);
      var w := Without(rest, RegionId, id);
      forall i | 0 <= i < |w| ensures w[i].id != last.id {
        assert w[i] in rest;
      }
    }
  }

  /**
   * After removal no region with that id is left, the others keep their
   * order, and the image's other fields, every other image and the rest of
   * the editor stay as they were.  Without a selected image and an active
   * region nothing changes.
   */
  lemma RemoveActiveRegionEffect(st: Editor)
    ensures var r := RemoveActiveRegion(st);
      && Ids(r.images) == Ids(st.images)
      && r.(images := st.images, activeRegionId := st.activeRegionId) == st
      && (!(Truthy(st.selectedImageId) && Truthy(st.activeRegionId)) ==> r == st)
      && (Truthy(st.selectedImageId) && Truthy(st.activeRegionId) ==>
         var sel, active := st.selectedImageId.value, st.activeRegionId.value;
         && r.activeRegionId == None
         && forall i :: 0 <= i < |st.images| ==>
           if st.images[i].id == sel then
             && r.images[i] == st.images[i].(regionalAdjustments := r.images[i].regionalAdjustments)
             && r.images[i].regionalAdjustments == Without(st.images[i].regionalAdjustments, RegionId, active)
             && forall reg :: reg in r.images[i].regionalAdjustments ==> reg.id != active
           else r.images[i] == st.images[i])
  {
  }

  // ---------------------------------------------------------------------------
  // Quantities

  /** The initial configuration: every size at 0, except four 3x4 photos. */
  function InitialConfig(): PrintConfig
  {
    SingleSizeConfig(Size3x4, 4)
  }

  /** `prev[key] || 0`: the stored quantity, 0 for a key that is not there. */
  function Quantity(config: PrintConfig, key: string): int
  {
    if config == [] then 0
    else if config[0].key == key then config[0].qty
    else Quantity(config[1..], key)
  }

  /** `{ ...prev, [key]: value }`: a present key keeps its position, a new key goes last. */
  function SetEntry(config: PrintConfig, key: string, value: int): PrintConfig
  {
    if config == [] then [Entry(key, value)]
    else if config[0].key == key then [Entry(key, value)] + config[1..]
    else [config[0]] + SetEntry(config[1..], key, value)
  }

  function Keys(config: PrintConfig): seq<string>
  {
    seq(|config|, i requires 0 <= i < |config| => config[i].key)
  }

  /** The stored value is read back; every other key keeps its value. */
  lemma {:induction false} SetEntryThenQuantity(config: PrintConfig, key: string, value: int, other: string)
    ensures Quantity(SetEntry(config, key, value), key) == value
    ensures other != key ==> Quantity(SetEntry(config, key, value), other) == Quantity(config, other)
  {
    if config != [] && config[0].key != key {
      SetEntryThenQuantity(config[1..], key, value, other);
    }
  }

  /** Setting a key that is present keeps the key order. */
  lemma {:induction false} SetEntryKeepsKeys(config: PrintConfig, key: string, value: int)
    requires key in Keys(config)
    ensures Keys(SetEntry(config, key, value)) == Keys(config)
  {
    if config[0].key != key {
      assert key in Keys(config[1..]) by {
        var i :| 0 <= i < |config| && config[i].key == key;
        assert Keys(config[1..])[i - 1] == key;
      }
      SetEntryKeepsKeys(config[1..], key, value);
      assert Keys(SetEntry(config, key, value)) == [config[0].key] + Keys(SetEntry(config[1..], key, value));
      assert Keys(config) == [config[0].key] + Keys(config[1..]);
    }
  }

  /** Storing the value a key already has changes nothing. */
  lemma {:induction false} SetEntrySameValue(config: PrintConfig, key: string)
    requires key in Keys(config)
    ensures SetEntry(config, key, Quantity(config, key)) == config
  {
    if config[0].key != key {
      assert key in Keys(config[1..]) by {
        var i :| 0 <= i < |config| && config[i].key == key;
        assert Keys(config[1..])[i - 1] == key;
      }
      SetEntrySameValue(config[1..], key);
    }
  }

  /** The later of two stores to a key wins. */
  lemma {:induction false} SetEntryTwice(config: PrintConfig, key: string, v: int, w: int)
    ensures SetEntry(SetEntry(config, key, v), key, w) == SetEntry(config, key, w)
  {
    if config != [] && config[0].key != key {
      SetEntryTwice(config[1..], key, v, w);
    }
  }

  predicate NonNegative(config: PrintConfig)
  {
    forall i :: 0 <= i < |config| ==> config[i].qty >= 0
  }

  lemma {:induction false} SetEntryKeepsNonNegative(config: PrintConfig, key: string, value: int)
    requires NonNegative(config) && value >= 0
    ensures NonNegative(SetEntry(config, key, value))
  {
    if config != [] && config[0].key != key {
      SetEntryKeepsNonNegative(config[1..], key, value);
    }
  }

  /** `updateQuantity`: add `delta` to a size's count, never going below 0, and make it the active size. */
  function UpdateQuantity(st: Editor, size: PhotoSize, delta: int): Editor
  {
    var newVal := Max(0, Quantity(st.printConfig, Label(size)) + delta);
    st.(printConfig := SetEntry(st.printConfig, Label(size), newVal), activeSize := size)
  }

  /** `setQuantity` with `parsed` the result of `parseInt` (`None` for NaN). */
  function SetQuantity(st: Editor, size: PhotoSize, parsed: Option<int>): Editor
  {
    var num := if parsed.Some? then parsed.value else 0;
    st.(printConfig := SetEntry(st.printConfig, Label(size), Max(0, num)), activeSize := size)
  }

  lemma WellFormedHasLabel(config: PrintConfig, size: PhotoSize)
    requires WellFormed(config)
    ensures Label(size) in Keys(config)
  {
    assert Keys(config)[SizeIndex(size)] == Label(size);
  }

  /**
   * A quantity update stores `max(0, old + delta)` for the size and nothing
   * else: the configuration stays well formed, and non-negative if it was.
   */
  lemma UpdateQuantityEffect(st: Editor, size: PhotoSize, delta: int, other: PhotoSize)
    requires WellFormed(st.printConfig)
    ensures var r := UpdateQuantity(st, size, delta);
      && WellFormed(r.printConfig) && r.activeSize == size
      && Quantity(r.printConfig, Label(size)) == Max(0, Quantity(st.printConfig, Label(size)) + delta) >= 0
      && (other != size ==> Quantity(r.printConfig, Label(other)) == Quantity(st.printConfig, Label(other)))
      && (NonNegative(st.printConfig) ==> NonNegative(r.printConfig))
  {
    var newVal := Max(0, Quantity(st.printConfig, Label(size)) + delta);
    StoreSize(st.printConfig, size, newVal, other);
  }

  /**
   * Storing a count for one size of a well-formed configuration: it is read
   * back, the other sizes keep theirs, and the key order is kept.
   */
  lemma StoreSize(config: PrintConfig, size: PhotoSize, value: int, other: PhotoSize)
    requires WellFormed(config)
    ensures var c := SetEntry(config, Label(size), value);
      && WellFormed(c)
      && Quantity(c, Label(size)) == value
      && (other != size ==> Quantity(c, Label(other)) == Quantity(config, Label(other)))
      && (NonNegative(config) && value >= 0 ==> NonNegative(c))
  {
    WellFormedHasLabel(config, size);
    SetEntryKeepsKeys(config, Label(size), value);
    if other != size {
      LabelsDiffer(size, other);
    }
    SetEntryThenQuantity(config, Label(size), value, Label(other));
    if NonNegative(config) && value >= 0 {
      SetEntryKeepsNonNegative(config, Label(size), value);
    }
    WellFormedFromKeys(config, SetEntry(config, Label(size), value));
  }

  lemma LabelsDiffer(s: PhotoSize, t: PhotoSize)
    requires s != t
    ensures Label(s) != Label(t)
  {
    EnumerationIsExact();
  }

  lemma WellFormedFromKeys(config: PrintConfig, config': PrintConfig)
    requires WellFormed(config) && Keys(config') == Keys(config)
    ensures WellFormed(config')
  {
    forall i | 0 <= i < |config'| ensures config'[i].key == Label(AllSizes[i]) {
      assert Keys(config')[i] == Keys(config)[i];
    }
  }

  /** `setQuantity` stores `max(0, parsed)`, or 0 when the text is not a number. */
  lemma SetQuantityEffect(st: Editor, size: PhotoSize, parsed: Option<int>, other: PhotoSize)
    requires WellFormed(st.printConfig)
    ensures var r := SetQuantity(st, size, parsed);
      && WellFormed(r.printConfig) && r.activeSize == size
      && Quantity(r.printConfig, Label(size)) == (if parsed.Some? && parsed.value > 0 then parsed.value else 0)
      && (other != size ==> Quantity(r.printConfig, Label(other)) == Quantity(st.printConfig, Label(other)))
      && (NonNegative(st.printConfig) ==> NonNegative(r.printConfig))
  {
    var num := if parsed.Some? then parsed.value else 0;
    StoreSize(st.printConfig, size, Max(0, num), other);
  }

  /** The plus button then the minus button give back the configuration. */
  lemma IncrementThenDecrement(st: Editor, size: PhotoSize)
    requires WellFormed(st.printConfig) && Quantity(st.printConfig, Label(size)) >= 0
    ensures UpdateQuantity(UpdateQuantity(st, size, 1), size, -1).printConfig == st.printConfig
  {
    var key := Label(size);
    var v := Quantity(st.printConfig, key);
    SetEntryThenQuantity(st.printConfig, key, v + 1, key);
    SetEntryTwice(st.printConfig, key, v + 1, v);
    WellFormedHasLabel(st.printConfig, size);
    SetEntrySameValue(st.printConfig, key);
  }

  /** The minus button on a size at 0 changes no count. */
  lemma DecrementAtZero(st: Editor, size: PhotoSize)
    requires WellFormed(st.printConfig) && Quantity(st.printConfig, Label(size)) == 0
    ensures UpdateQuantity(st, size, -1).printConfig == st.printConfig
  {
    WellFormedHasLabel(st.printConfig, size);
    SetEntrySameValue(st.printConfig, Label(size));
  }

  /** The initial configuration is well formed: four 3x4 photos and nothing else. */
  lemma InitialConfigContents(size: PhotoSize)
    ensures WellFormed(InitialConfig()) && NonNegative(InitialConfig())
    ensures Quantity(InitialConfig(), Label(size)) == if size == Size3x4 then 4 else 0
  {
    var c := InitialConfig();
    var i := SizeIndex(size);
    EnumerationIsExact();
    QuantityAt(c, i);
  }

  /** In a configuration with distinct keys, the quantity of the key at `i` is the entry at `i`. */
  lemma {:induction false} QuantityAt(config: PrintConfig, i: nat)
    requires i < |config|
    requires forall j, k :: 0 <= j < k < |config| ==> config[j].key != config[k].key
    ensures Quantity(config, config[i].key) == config[i].qty
  {
    if i > 0 {
      QuantityAt(config[1..], i - 1);
    }
  }

  // ---------------------------------------------------------------------------
  // Images for the sheet

  /** `processed || cropped || original`. */
  function Preferred(img: UploadedImage): string
  {
    if Truthy(img.processed) then img.processed.value
    else if Truthy(img.cropped) then img.cropped.value
    else img.original
  }

  /** `imagesForSheet`: the selected image alone when filling a page, else every image. */
  function ImagesForSheet(st: Editor): (r: seq<string>)
    ensures st.layoutMode == FillPage ==> |r| <= 1
    ensures st.layoutMode == FillPage && |r| == 1 ==> SelectedImage(st).Some? && r[0] == Preferred(SelectedImage(st).value)
    ensures st.layoutMode == FillPage && SelectedImage(st).Some? && Preferred(SelectedImage(st).value) != "" ==> |r| == 1
    ensures st.layoutMode == Mixed ==> |r| == |st.images| && forall i :: 0 <= i < |r| ==> r[i] == Preferred(st.images[i])
  {
    if st.layoutMode == FillPage then
      var selected := SelectedImage(st);
      if selected.Some? && Truthy(selected.value.processed) then [selected.value.processed.value]
      else if selected.Some? && Truthy(selected.value.cropped) then [selected.value.cropped.value]
      else if selected.Some? && selected.value.original != "" then [selected.value.original]
      else []
    else
      seq(|st.images|, i requires 0 <= i < |st.images| => Preferred(st.images[i]))
  }

  // ---------------------------------------------------------------------------
  // Download

  /** `Object.values(printConfig).reduce((sum, val) => sum + val, 0)`. */
  function Total(config: PrintConfig): int
  {
    if config == [] then 0 else Total(config[..|config| - 1]) + config[|config| - 1].qty
  }

  /** With no negative counts the plain total is the demand the layout expands. */
  lemma {:induction false} TotalIsDemand(config: PrintConfig)
    requires NonNegative(config)
    ensures Total(config) == A4Sheet.Demand(config)
  {
    if config != [] {
      TotalIsDemand(config[..|config| - 1]);
    }
  }

  /** `handleDownloadPDF` goes on to generate only with something to print and a non-zero total. */
  predicate DownloadProceeds(st: Editor)
  {
    |ImagesForSheet(st)| != 0 && Total(st.printConfig) != 0
  }

  /**
   * When the download goes ahead on a configuration reached through the
   * quantity handlers, the sheet it lays out holds at least one photo.
   */
  lemma DownloadedSheetIsNotEmpty(st: Editor, g: A4Sheet.Geometry)
    requires NonNegative(st.printConfig) && g.gap >= 0
    requires DownloadProceeds(st)
    ensures A4Sheet.SheetPages(ImagesForSheet(st), st.printConfig, g) != [[]]
  {
    TotalIsDemand(st.printConfig);
    A4SheetProperties.EmptySheetIffNoDemand(ImagesForSheet(st), st.printConfig, g);
  }
}
