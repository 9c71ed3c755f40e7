/**
 * The photo-wall page (`src/app/projects/astro/page.tsx`): pictures edited in
 * memory, files staged under `"<id>::<n>"` keys until the next publish, and
 * the handlers that upload, delete, save and cancel.
 */
module AstroPage {
  import opened Wrappers
  import Js
  import JsMap
  import opened Astro
  import opened Slots
  import opened GitHub
  import opened Auth
  import PushPictures

  const NoImagesMessage: string := "请至少选择一张图片"
  const AuthExpiredMessage: string := "认证已过期，请重新登录"
  const SavedMessage: string := "照片墙更新成功！"
  const SaveFailedMessage: string := "保存失败: "
  const SaveLabel: string := "保存"
  const NotAuthenticatedLabel: string := "未认证"

  datatype Toast = ErrorToast(text: string) | SuccessToast(text: string)

  /** The second argument of `handleDeleteSingleImage`: one image, or the whole picture. */
  datatype ImageIndex = Single | At(n: nat)

  // ---------------------------------------------------------------------------
  // Pictures
  // ---------------------------------------------------------------------------

  /** `description.trim() || undefined`. */
  function Description(description: string): (d: Option<string>)
    ensures d.Some? ==> d.value != "" && d.value == Js.Trim(description)
    ensures d.None? ==> Js.Trim(description) == ""
  {
    var t := Js.Trim(description);
    if t == "" then None else Some(t)
  }

  /** The picture an upload appends: the items' display URLs, no legacy `image`. */
  function NewPicture(id: string, now: string, description: string, images: seq<ImageItem>): Picture
  {
    Picture(id, now, Description(description), None,
            Some(seq(|images|, i requires 0 <= i < |images| => DisplayUrl(images[i]))))
  }

  /** The first picture with this id: the one a staged slot of that id belongs to. */
  function PictureOf(pics: seq<Picture>, id: string): (r: Option<Picture>)
    ensures r.Some? ==> r.value in pics && r.value.id == id
    ensures r.None? ==> forall p | p in pics :: p.id != id
  {
    if pics == [] then None
    else if pics[0].id == id then Some(pics[0])
    else PictureOf(pics[1..], id)
  }

  /** `images.filter((_, idx) => idx !== n)`. */
  function RemoveIndex(images: seq<string>, n: nat): (r: seq<string>)
    ensures |r| == if n < |images| then |images| - 1 else |images|
    ensures forall j | 0 <= j < |r| :: r[j] == images[if j < n then j else j + 1]
  {
    if n < |images| then images[..n] + images[n + 1..] else images
  }

  /** The `map` callback of `handleDeleteSingleImage`; `None` is the `null` the `filter` drops. */
  function EditPicture(p: Picture, pid: string, index: ImageIndex): Option<Picture>
  {
    if p.id != pid then Some(p)
    else match index
      case Single => None
      case At(n) =>
        if p.images.Some? && |p.images.value| > 0 then
          var remaining := RemoveIndex(p.images.value, n);
          if |remaining| == 0 then None else Some(p.(images := Some(remaining)))
        else Some(p)
  }

  /** `prev.map(...).filter(p => p !== null)` of `handleDeleteSingleImage`. */
  function WithoutImage(pics: seq<Picture>, pid: string, index: ImageIndex): seq<Picture>
  {
    if pics == [] then []
    else
      (match EditPicture(pics[0], pid, index) case Some(q) => [q] case None => []) +
      WithoutImage(pics[1..], pid, index)
  }

  /** `prev.filter(p => p.id !== id)` of `handleDeleteGroup`. */
  function WithoutGroup(pics: seq<Picture>, id: string): seq<Picture>
  {
    if pics == [] then []
    else (if pics[0].id != id then [pics[0]] else []) + WithoutGroup(pics[1..], id)
  }

  /** Deleting a group keeps exactly the pictures of the other ids, in order. */
  lemma {:induction false} WithoutGroupSpec(pics: seq<Picture>, id: string)
    ensures forall p | p in WithoutGroup(pics, id) :: p in pics && p.id != id
    ensures forall p | p in pics && p.id != id :: p in WithoutGroup(pics, id)
    ensures forall other | other != id :: PictureOf(WithoutGroup(pics, id), other) == PictureOf(pics, other)
    decreases |pics|
  {
    if pics != [] {
      var tail := pics[1..];
      WithoutGroupSpec(tail, id);
      assert forall p | p in pics :: p == pics[0] || p in tail;
      var r := WithoutGroup(pics, id);
      if pics[0].id != id {
        assert r == [pics[0]] + WithoutGroup(tail, id);
        assert r[1..] == WithoutGroup(tail, id);
      } else {
        assert r == WithoutGroup(tail, id);
      }
    }
  }

  /**
   * Deleting an image leaves every other id's pictures alone, and the first
   * picture of `pid`, when it survives the edit, is still the first of `pid`.
   */
  lemma WithoutImagePictureOf(pics: seq<Picture>, pid: string, index: ImageIndex)
    ensures forall other | other != pid :: PictureOf(WithoutImage(pics, pid, index), other) == PictureOf(pics, other)
    ensures PictureOf(pics, pid).Some? && EditPicture(PictureOf(pics, pid).value, pid, index).Some? ==>
              PictureOf(WithoutImage(pics, pid, index), pid) == EditPicture(PictureOf(pics, pid).value, pid, index)
  {
    forall other | other != pid
      ensures PictureOf(WithoutImage(pics, pid, index), other) == PictureOf(pics, other)
    {
      WithoutImageOther(pics, pid, index, other);
    }
    WithoutImageSame(pics, pid, index);
  }

  lemma {:induction false} WithoutImageOther(pics: seq<Picture>, pid: string, index: ImageIndex, other: string)
    requires other != pid
    ensures PictureOf(WithoutImage(pics, pid, index), other) == PictureOf(pics, other)
    decreases |pics|
  {
    if pics != [] {
      var tail := pics[1..];
      WithoutImageOther(tail, pid, index, other);
      var r := WithoutImage(pics, pid, index);
      var e := EditPicture(pics[0], pid, index);
      if e.Some? {
        assert e.value.id == pics[0].id;
        assert r == [e.value] + WithoutImage(tail, pid, index);
        assert r[1..] == WithoutImage(tail, pid, index);
      } else {
        assert r == WithoutImage(tail, pid, index);
      }
    }
  }

  lemma {:induction false} WithoutImageSame(pics: seq<Picture>, pid: string, index: ImageIndex)
    ensures PictureOf(pics, pid).Some? && EditPicture(PictureOf(pics, pid).value, pid, index).Some? ==>
              PictureOf(WithoutImage(pics, pid, index), pid) == EditPicture(PictureOf(pics, pid).value, pid, index)
    decreases |pics|
  {
    if pics != [] {
      var tail := pics[1..];
      var r := WithoutImage(pics, pid, index);
      var e := EditPicture(pics[0], pid, index);
      if pics[0].id == pid {
        if e.Some? {
          assert e.value.id == pid;
          assert r == [e.value] + WithoutImage(tail, pid, index);
        }
      } else {
        WithoutImageSame(tail, pid, index);
        assert r == [pics[0]] + WithoutImage(tail, pid, index);
        assert r[1..] == WithoutImage(tail, pid, index);
      }
    }
  }

  /** Appending a picture under a fresh id makes it the picture of that id and changes no other. */
  lemma {:induction false} PictureOfAppend(pics: seq<Picture>, q: Picture)
    ensures forall id | PictureOf(pics, id).Some? :: PictureOf(pics + [q], id) == PictureOf(pics, id)
    ensures PictureOf(pics, q.id).None? ==> PictureOf(pics + [q], q.id) == Some(q)
    decreases |pics|
  {
    if pics != [] {
      PictureOfAppend(pics[1..], q);
      assert (pics + [q])[1..] == pics[1..] + [q];
    } else {
      assert [] + [q] == [q];
    }
  }

  // ---------------------------------------------------------------------------
  // Staged files and the pictures that show them
  // ---------------------------------------------------------------------------

  /** The staged `item` under `key` is what the key's picture shows at the key's index. */
  predicate Shown(pics: seq<Picture>, key: string, item: ImageItem)
  {
    match PictureOf(pics, SlotId(key))
    case None => false
    case Some(p) =>
      SlotIndex(key) < |CurrentImages(p)| && CurrentImages(p)[SlotIndex(key)] == DisplayUrl(item)
  }

  /**
   * The page's working state: staged keys are slot keys in upload order, and
   * each staged file is shown, by its preview URL, at its slot of its picture.
   * This is what lets the publish replace `images[index]` of group `id` with
   * the uploaded file's URL.
   */
  predicate Consistent(pics: seq<Picture>, items: SlotMap)
  {
    WellKeyed(items) && forall i | 0 <= i < |items| :: Shown(pics, items[i].0, items[i].1)
  }

  /**
   * A consistent page hands the publish slots that point into the wall, so
   * its tree names every path once when the content hashes have one width.
   */
  lemma ConsistentOnWall(pics: seq<Picture>, items: SlotMap)
    requires Consistent(pics, items)
    ensures PushPictures.SlotsOnWall(pics, items)
  {
  }

  /** The ids a page creates: `Date.now()` and hex digits, so no colon, and not yet on the wall. */
  predicate FreshId(pics: seq<Picture>, items: SlotMap, id: string)
  {
    PlainId(id) && PictureOf(pics, id).None? && NoSlotsOf(items, id)
  }

  /** The value a well-keyed map binds to its `i`-th key. */
  lemma EntryGet(m: SlotMap, i: nat)
    requires WellKeyed(m) && i < |m|
    ensures JsMap.Get(m, m[i].0) == Some(m[i].1)
  {
    WellKeyedDistinct(m);
    JsMap.GetEntry(m, i);
  }

  /** Nothing staged is left without a picture: a bound key is shown. */
  lemma BoundShown(pics: seq<Picture>, items: SlotMap, k: string, v: ImageItem)
    requires Consistent(pics, items) && JsMap.Get(items, k) == Some(v)
    ensures Shown(pics, k, v)
  {
    var i :| 0 <= i < |items| && items[i] == (k, v);
  }

  /** An upload keeps the page consistent: its file items are shown at their own slots. */
  lemma UploadConsistent(pics: seq<Picture>, items: SlotMap, id: string, now: string, description: string, images: seq<ImageItem>)
    requires Consistent(pics, items) && FreshId(pics, items, id) && images != []
    ensures Consistent(pics + [NewPicture(id, now, description, images)], Staged(items, id, images))
  {
    var q := NewPicture(id, now, description, images);
    var pics' := pics + [q];
    var s := Staged(items, id, images);
    WellKeyedDistinct(items);
    StagedSpec(items, id, images);
    StagedFresh(items, id, images);
    PictureOfAppend(pics, q);
    forall i | 0 <= i < |s| ensures Shown(pics', s[i].0, s[i].1) {
      var k := s[i].0;
      EntryGet(s, i);
      PrefixMeansId(id, k);
      if Js.StartsWith(k, SlotPrefix(id)) {
        UploadedSlotShown(items, id, images, i);
      } else {
        BoundShown(pics, items, k, s[i].1);
      }
    }
  }

  /** A staged slot under the new id holds the file item shown at that index of the new picture. */
  lemma UploadedSlotShown(items: SlotMap, id: string, images: seq<ImageItem>, i: nat)
    requires WellKeyed(items) && PlainId(id) && NoSlotsOf(items, id)
    requires i < |Staged(items, id, images)| && Js.StartsWith(Staged(items, id, images)[i].0, SlotPrefix(id))
    ensures var e := Staged(items, id, images)[i];
      SlotId(e.0) == id && SlotIndex(e.0) < |images| && e.1 == images[SlotIndex(e.0)]
  {
    var s := Staged(items, id, images);
    var k := s[i].0;
    WellKeyedDistinct(items);
    StagedSpec(items, id, images);
    StagedFresh(items, id, images);
    EntryGet(s, i);
    PrefixMeansId(id, k);
    var j := SlotIndex(k);
    SlotKeyStartsWithPrefix(id, j);
    assert !JsMap.HasKey(items, SlotKey(id, j));
  }

  /** Deleting a group keeps the page consistent. */
  lemma DeleteGroupConsistent(pics: seq<Picture>, items: SlotMap, id: string)
    requires Consistent(pics, items) && PlainId(id)
    ensures Consistent(WithoutGroup(pics, id), RemoveSlots(items, id))
  {
    var r := RemoveSlots(items, id);
    RemoveSlotsSpec(items, id);
    WithoutGroupSpec(pics, id);
    forall i | 0 <= i < |r| ensures Shown(WithoutGroup(pics, id), r[i].0, r[i].1) {
      EntryGet(r, i);
      PrefixMeansId(id, r[i].0);
      BoundShown(pics, items, r[i].0, r[i].1);
    }
  }

  /** Deleting a whole picture through `handleDeleteSingleImage(id, 'single')` keeps the page consistent. */
  lemma DeleteSingleConsistent(pics: seq<Picture>, items: SlotMap, id: string)
    requires Consistent(pics, items) && PlainId(id)
    ensures Consistent(WithoutImage(pics, id, Single), RemoveSlots(items, id))
  {
    var r := RemoveSlots(items, id);
    RemoveSlotsSpec(items, id);
    WithoutImagePictureOf(pics, id, Single);
    forall i | 0 <= i < |r| ensures Shown(WithoutImage(pics, id, Single), r[i].0, r[i].1) {
      EntryGet(r, i);
      PrefixMeansId(id, r[i].0);
      BoundShown(pics, items, r[i].0, r[i].1);
    }
  }

  /**
   * Deleting image `n` of picture `pid` keeps the page consistent: the slots
   * above `n` move down exactly as the picture's images do.
   */
  lemma DeleteImageConsistent(pics: seq<Picture>, items: SlotMap, pid: string, n: nat)
    requires Consistent(pics, items) && PlainId(pid)
    ensures Consistent(WithoutImage(pics, pid, At(n)), Reindexed(items, pid, n))
  {
    var r := Reindexed(items, pid, n);
    ReindexSpec(items, pid, n);
    ReindexKeepsShape(items, pid, n);
    WithoutImagePictureOf(pics, pid, At(n));
    forall i | 0 <= i < |r| ensures Shown(WithoutImage(pics, pid, At(n)), r[i].0, r[i].1) {
      var k := r[i].0;
      EntryGet(r, i);
      PrefixMeansId(pid, k);
      if SlotId(k) == pid {
        MovedSlotShown(pics, items, pid, n, k, r[i].1);
      } else {
        BoundShown(pics, items, k, r[i].1);
      }
    }
  }

  /** One slot of `pid` after the re-index: it shows the same URL in the edited picture. */
  lemma MovedSlotShown(pics: seq<Picture>, items: SlotMap, pid: string, n: nat, k: string, v: ImageItem)
    requires Consistent(pics, items) && PlainId(pid)
    requires IsSlotKey(k) && SlotId(k) == pid
    requires JsMap.Get(items, SlotKey(pid, if SlotIndex(k) < n then SlotIndex(k) else SlotIndex(k) + 1)) == Some(v)
    ensures Shown(WithoutImage(pics, pid, At(n)), k, v)
  {
    var j := SlotIndex(k);
    var j' := if j < n then j else j + 1;
    var k' := SlotKey(pid, j');
    assert Shown(pics, k', v) by { BoundShown(pics, items, k', v); }
    assert SlotId(k') == pid && SlotIndex(k') == j' by { SlotKeyIs(pid, j'); }
    ShiftedShown(pics, pid, n, k, v);
  }

  /** The image at position `j` after removing position `n` is the one that was at `j` below `n`, at `j + 1` from `n` on. */
  lemma ShiftedShown(pics: seq<Picture>, pid: string, n: nat, k: string, v: ImageItem)
    requires SlotId(k) == pid && PictureOf(pics, pid).Some?
    requires var j := SlotIndex(k); var j' := if j < n then j else j + 1;
      var images := CurrentImages(PictureOf(pics, pid).value);
      j' < |images| && images[j'] == DisplayUrl(v)
    ensures Shown(WithoutImage(pics, pid, At(n)), k, v)
  {
    var j := SlotIndex(k);
    var p := PictureOf(pics, pid).value;
    WithoutImagePictureOf(pics, pid, At(n));
    if p.images.Some? && |p.images.value| > 0 {
      var remaining := RemoveIndex(p.images.value, n);
      assert j < |remaining|;
    }
  }

  // ---------------------------------------------------------------------------
  // The loops of the handlers
  // ---------------------------------------------------------------------------

  /** `images.forEach((item, index) => { if (item.type === 'file') newMap.set(`${id}::${index}`, item) })`. */
  method Stage(m: SlotMap, id: string, images: seq<ImageItem>) returns (r: SlotMap)
    ensures r == Staged(m, id, images)
  {
    r := m;
    for index := 0 to |images|
      invariant r == Staged(m, id, images[..index])
    {
      assert images[..index + 1][..index] == images[..index];
      if images[index].FileItem? {
        r := JsMap.Set(r, SlotKey(id, index), images[index]);
      }
    }
    assert images[..|images|] == images;
  }

  /** `for (const key of next.keys()) if (key.startsWith(`${id}::`)) next.delete(key)`. */
  method DropSlots(m: SlotMap, id: string) returns (r: SlotMap)
    ensures r == RemoveSlots(m, id)
  {
    var keys := JsMap.Keys(m);
    r := m;
    for i := 0 to |keys|
      invariant r == WithoutPrefixed(m, keys[..i], SlotPrefix(id))
    {
      assert keys[..i + 1][..i] == keys[..i];
      if Js.StartsWith(keys[i], SlotPrefix(id)) {
        r := JsMap.Delete(r, keys[i]);
      }
    }
    assert keys[..|keys|] == keys;
  }

  /** Phase one: collect `{ oldKey, newKey }` for every slot of `pid` above `n`. */
  method CollectRenames(m: SlotMap, pid: string, n: nat) returns (keysToUpdate: seq<(string, string)>)
    ensures keysToUpdate == Renames(JsMap.Keys(m), pid, n)
  {
    var keys := JsMap.Keys(m);
    keysToUpdate := [];
    for i := 0 to |keys|
      invariant keysToUpdate == Renames(keys[..i], pid, n)
    {
      assert keys[..i + 1][..i] == keys[..i];
      var key := keys[i];
      if Js.StartsWith(key, SlotPrefix(pid)) {
        var oldIndex := SlotNumber(key);
        if oldIndex.Some? && oldIndex.value > n {
          keysToUpdate := keysToUpdate + [(key, SlotKey(pid, oldIndex.value - 1))];
        }
      }
    }
    assert keys[..|keys|] == keys;
  }

  /** Phase two: move each bound old key's value to its new key. */
  method MoveSlots(m: SlotMap, keysToUpdate: seq<(string, string)>) returns (r: SlotMap)
    ensures r == ApplyRenames(m, keysToUpdate)
  {
    r := m;
    for i := 0 to |keysToUpdate|
      invariant r == ApplyRenames(m, keysToUpdate[..i])
    {
      assert keysToUpdate[..i + 1][..i] == keysToUpdate[..i];
      var (oldKey, newKey) := keysToUpdate[i];
      var value := JsMap.Get(r, oldKey);
      if value.Some? {
        r := JsMap.Set(r, newKey, value.value);
        r := JsMap.Delete(r, oldKey);
      }
    }
    assert keysToUpdate[..|keysToUpdate|] == keysToUpdate;
  }

  /** The label of the save button. */
  function ButtonText(store: ConfigStore): (text: string)
    reads store
    ensures text == SaveLabel <==> store.isHydrated && store.rawPem != ""
  {
    if store.isHydrated && store.rawPem != "" then SaveLabel else NotAuthenticatedLabel
  }

  /** The keyboard shortcut that enters edit mode: Ctrl or Cmd with `,`, outside edit mode. */
  predicate OpensEditMode(isEditMode: bool, ctrlKey: bool, metaKey: bool, key: string)
  {
    !isEditMode && (ctrlKey || metaKey) && key == ","
  }

  class AstroPageState {
    var pictures: seq<Picture>
    var originalPictures: seq<Picture>
    var isEditMode: bool
    var isSaving: bool
    var isUploadDialogOpen: bool
    var imageItems: SlotMap
    /** The last toast shown, if any. */
    var toast: Option<Toast>

    /** The page as it mounts: the wall loaded from `list.json`, nothing staged. */
    constructor (initialList: seq<Picture>)
      ensures pictures == initialList && originalPictures == initialList
      ensures !isEditMode && !isSaving && !isUploadDialogOpen && imageItems == [] && toast == None
    {
      pictures := initialList;
      originalPictures := initialList;
      isEditMode := false;
      isSaving := false;
      isUploadDialogOpen := false;
      imageItems := [];
      toast := None;
    }

    ghost predicate Valid()
      reads this
    {
      Consistent(pictures, imageItems)
    }

    /** `handleUploadSubmit`; `id` and `now` stand for the page's clock and random suffix. */
    method HandleUploadSubmit(images: seq<ImageItem>, description: string, id: string, now: string)
      modifies this
      ensures images == [] ==>
        toast == Some(ErrorToast(NoImagesMessage)) && pictures == old(pictures) &&
        imageItems == old(imageItems) && isUploadDialogOpen == old(isUploadDialogOpen)
      ensures images != [] ==>
        pictures == old(pictures) + [NewPicture(id, now, description, images)] &&
        imageItems == Staged(old(imageItems), id, images) && !isUploadDialogOpen && toast == old(toast)
      ensures originalPictures == old(originalPictures) && isEditMode == old(isEditMode) && isSaving == old(isSaving)
      ensures old(Valid()) && FreshId(old(pictures), old(imageItems), id) ==> Valid()
    {
      if |images| == 0 {
        toast := Some(ErrorToast(NoImagesMessage));
        return;
      }
      var newPicture := NewPicture(id, now, description, images);
      var newMap := Stage(imageItems, id, images);
      if Valid() && FreshId(pictures, imageItems, id) {
        UploadConsistent(pictures, imageItems, id, now, description, images);
      }
      pictures := pictures + [newPicture];
      imageItems := newMap;
      isUploadDialogOpen := false;
    }

    /** `handleDeleteSingleImage(pictureId, imageIndex)`. */
    method HandleDeleteSingleImage(pictureId: string, imageIndex: ImageIndex)
      modifies this
      ensures pictures == WithoutImage(old(pictures), pictureId, imageIndex)
      ensures imageItems == match imageIndex
        case Single => RemoveSlots(old(imageItems), pictureId)
        case At(n) => Reindexed(old(imageItems), pictureId, n)
      ensures originalPictures == old(originalPictures) && isEditMode == old(isEditMode)
      ensures isSaving == old(isSaving) && isUploadDialogOpen == old(isUploadDialogOpen) && toast == old(toast)
      ensures old(Valid()) && PlainId(pictureId) ==> Valid()
    {
      if Valid() && PlainId(pictureId) {
        match imageIndex
        case Single => DeleteSingleConsistent(pictures, imageItems, pictureId);
        case At(n) => DeleteImageConsistent(pictures, imageItems, pictureId, n);
      }
      pictures := WithoutImage(pictures, pictureId, imageIndex);
      var next := imageItems;
      match imageIndex {
        case Single =>
          next := DropSlots(next, pictureId);
        case At(n) =>
          next := JsMap.Delete(next, SlotKey(pictureId, n));
          var keysToUpdate := CollectRenames(next, pictureId, n);
          next := MoveSlots(next, keysToUpdate);
      }
      imageItems := next;
    }

    /** `handleDeleteGroup(picture)`; `confirmed` is the user's answer to the confirmation dialog. */
    method HandleDeleteGroup(picture: Picture, confirmed: bool)
      modifies this
      ensures !confirmed ==> pictures == old(pictures) && imageItems == old(imageItems)
      ensures confirmed ==>
        pictures == WithoutGroup(old(pictures), picture.id) && imageItems == RemoveSlots(old(imageItems), picture.id)
      ensures originalPictures == old(originalPictures) && isEditMode == old(isEditMode)
      ensures isSaving == old(isSaving) && isUploadDialogOpen == old(isUploadDialogOpen) && toast == old(toast)
      ensures old(Valid()) && PlainId(picture.id) ==> Valid()
    {
      if !confirmed {
        return;
      }
      if Valid() && PlainId(picture.id) {
        DeleteGroupConsistent(pictures, imageItems, picture.id);
      }
      pictures := WithoutGroup(pictures, picture.id);
      imageItems := DropSlots(imageItems, picture.id);
    }

    /**
     * `handleSave`: publish through `pushPictures` with the key in memory. On
     * success the edited wall becomes the saved one, the staged files are
     * dropped and edit mode ends; on failure nothing of the page changes but
     * the toast.
     */
    method HandleSave(o: PushPictures.Oracles, cache: TokenCache, store: ConfigStore, remote: Remote)
      returns (saved: bool)
      modifies this, cache, remote
      ensures store.rawPem == "" ==>
        !saved && toast == Some(ErrorToast(AuthExpiredMessage)) &&
        remote.trace == old(remote.trace) && remote.head == old(remote.head) && cache.token == old(cache.token)
      ensures saved ==>
        originalPictures == old(pictures) && imageItems == [] && !isEditMode && toast == Some(SuccessToast(SavedMessage)) &&
        PushPictures.Published(remote, old(remote.head), old(pictures), old(imageItems), o, old(remote.files))
      ensures !saved ==>
        originalPictures == old(originalPictures) && imageItems == old(imageItems) && isEditMode == old(isEditMode) &&
        remote.head == old(remote.head)
      ensures !saved && store.rawPem != "" ==> toast.Some? && toast.value.ErrorToast?
      ensures isSaving == (old(isSaving) && store.rawPem == "")
      ensures pictures == old(pictures) && isUploadDialogOpen == old(isUploadDialogOpen)
      ensures remote.files == old(remote.files)
    {
      if store.rawPem == "" {
        toast := Some(ErrorToast(AuthExpiredMessage));
        saved := false;
      } else {
        isSaving := true;
        var r := PushWall(o, cache, store, remote);
        saved := r.Ok?;
        SaveSettled(r);
      }
    }

    /** The push of the wall and the staged files, with the part of its contract the page relies on. */
    method PushWall(o: PushPictures.Oracles, cache: TokenCache, store: ConfigStore, remote: Remote)
      returns (r: Result<(), PushPictures.PushError>)
      modifies cache, remote
      ensures r.Ok? ==> PushPictures.Published(remote, old(remote.head), pictures, imageItems, o, old(remote.files))
      ensures r.Err? ==> remote.head == old(remote.head)
      ensures remote.files == old(remote.files)
    {
      r := PushPictures.Push(pictures, imageItems, o, cache, store, remote);
    }

    /** What follows the push: on success the wall is the saved one and nothing is staged; `isSaving` is reset. */
    method SaveSettled(r: Result<(), PushPictures.PushError>)
      modifies this
      ensures r.Ok? ==>
        originalPictures == old(pictures) && imageItems == [] && !isEditMode && toast == Some(SuccessToast(SavedMessage))
      ensures r.Err? ==>
        originalPictures == old(originalPictures) && imageItems == old(imageItems) && isEditMode == old(isEditMode) &&
        toast.Some? && toast.value.ErrorToast?
      ensures !isSaving && pictures == old(pictures) && isUploadDialogOpen == old(isUploadDialogOpen)
    {
      if r.Ok? {
        originalPictures := pictures;
        imageItems := [];
        isEditMode := false;
        toast := Some(SuccessToast(SavedMessage));
      } else {
        toast := Some(ErrorToast(SaveFailedMessage + ErrorText(r.error)));
      }
      isSaving := false;
    }

    /** `handleCancel`: back to the saved wall, nothing staged. */
    method HandleCancel()
      modifies this
      ensures pictures == old(originalPictures) && originalPictures == old(originalPictures)
      ensures imageItems == [] && !isEditMode && Valid()
      ensures isSaving == old(isSaving) && isUploadDialogOpen == old(isUploadDialogOpen) && toast == old(toast)
    {
      pictures := originalPictures;
      imageItems := [];
      isEditMode := false;
    }

    /** The `keydown` listener: returns whether it called `preventDefault`. */
    method HandleKeyDown(ctrlKey: bool, metaKey: bool, key: string) returns (prevented: bool)
      modifies this
      ensures prevented == OpensEditMode(old(isEditMode), ctrlKey, metaKey, key)
      ensures isEditMode == (old(isEditMode) || prevented)
      ensures pictures == old(pictures) && imageItems == old(imageItems) && originalPictures == old(originalPictures)
      ensures isSaving == old(isSaving) && isUploadDialogOpen == old(isUploadDialogOpen) && toast == old(toast)
    {
      prevented := false;
      if !isEditMode && (ctrlKey || metaKey) && key == "," {
        prevented := true;
        isEditMode := true;
      }
    }
  }

  const NoKeyMessage: string := "未检测到私钥，请先登录系统"
  const AuthFlowMessage: string := "GitHub 认证流程失败"
  const UnknownErrorMessage: string := "未知错误"

  /**
   * `error?.message || '未知错误'`: the broker's own messages for a missing
   * key and a failed exchange. The exchange's fixed message stands in for the
   * upstream message it forwards, and a failed remote call's message is not
   * modelled.
   */
  function ErrorText(e: PushPictures.PushError): (text: string)
    ensures text != ""
  {
    match e
    case AuthFailed(NotAuthenticated) => NoKeyMessage
    case AuthFailed(UpstreamAuthError) => AuthFlowMessage
    case RemoteFailed => UnknownErrorMessage
  }
}
