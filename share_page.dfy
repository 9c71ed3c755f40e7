/**
 * The share page: the list of shared links, the snapshot last published,
 * the logos waiting for upload keyed by share url, and the edit mode that
 * commits or discards the changes.
 */
module SharePage {
  import opened Wrappers
  import JsMap
  import UrlList
  import Auth
  import opened Feedback

  /**
   * A shared link. Only `name` and `url` are used by the page; the card's
   * other fields are carried along by name.
   */
  datatype Share = Share(name: string, url: string, fields: map<string, string>)

  function UrlOf(s: Share): string {
    s.url
  }

  /** What the logo dialog submits, shown by its preview url. */
  datatype LogoItem = LogoItem(previewUrl: string)

  /** The arguments of `pushShares({ shares, logoItems, privateKey })`. */
  datatype PushRequest = PushRequest(shares: seq<Share>, logoItems: JsMap.Entries<string, LogoItem>, key: string)

  /** The Ctrl/Cmd + `,` shortcut outside edit mode. */
  predicate ShortcutApplies(isEditMode: bool, ctrlKey: bool, metaKey: bool, key: string) {
    !isEditMode && (ctrlKey || metaKey) && key == ","
  }

  class SharePageState {
    var shares: seq<Share>
    var originalShares: seq<Share>
    var isEditMode: bool
    var isSaving: bool
    var editingShare: Option<Share>
    var isCreateDialogOpen: bool
    /** Logos chosen for shares, by share url, awaiting upload. */
    var logoItems: JsMap.Entries<string, LogoItem>
    var notice: Option<Notice>

    /** The page as it mounts with the bundled `list.json`. */
    constructor (initialList: seq<Share>)
      ensures shares == initialList && originalShares == initialList
      ensures !isEditMode && !isSaving && editingShare == None && !isCreateDialogOpen
      ensures logoItems == [] && notice == None
      ensures Valid()
    {
      shares := initialList;
      originalShares := initialList;
      isEditMode := false;
      isSaving := false;
      editingShare := None;
      isCreateDialogOpen := false;
      logoItems := [];
      notice := None;
    }

    /**
     * No handler ever sets a share to edit in the dialog; pending logos
     * have one entry per url; outside edit mode the list is the published one
     * and nothing waits for upload.
     */
    ghost predicate Valid()
      reads this
    {
      editingShare == None && JsMap.DistinctKeys(logoItems) &&
      (!isEditMode ==> shares == originalShares && logoItems == [])
    }

    /**
     * `handleUpdate`: every share with the old url becomes the updated one,
     * and a supplied logo is recorded under the updated url.
     */
    method HandleUpdate(updated: Share, oldShare: Share, logoItem: Option<LogoItem>)
      modifies this
      ensures shares == UrlList.ReplaceUrl(old(shares), UrlOf, oldShare.url, updated)
      ensures logoItem.None? ==> logoItems == old(logoItems)
      ensures logoItem.Some? ==> logoItems == JsMap.Set(old(logoItems), updated.url, logoItem.value)
      ensures originalShares == old(originalShares) && isEditMode == old(isEditMode) && isSaving == old(isSaving)
      ensures editingShare == old(editingShare) && isCreateDialogOpen == old(isCreateDialogOpen) && notice == old(notice)
      ensures old(Valid()) && isEditMode ==> Valid()
    {
      shares := UrlList.ReplaceUrl(shares, UrlOf, oldShare.url, updated);
      if logoItem.Some? {
        if JsMap.DistinctKeys(logoItems) {
          JsMap.SetSpec(logoItems, updated.url, logoItem.value);
        }
        logoItems := JsMap.Set(logoItems, updated.url, logoItem.value);
      }
    }

    /** `handleAdd`: the create dialog opens for a new share. */
    method HandleAdd()
      modifies this
      ensures editingShare == None && isCreateDialogOpen
      ensures shares == old(shares) && originalShares == old(originalShares) && isEditMode == old(isEditMode)
      ensures isSaving == old(isSaving) && logoItems == old(logoItems) && notice == old(notice)
      ensures old(Valid()) ==> Valid()
    {
      editingShare := None;
      isCreateDialogOpen := true;
    }

    /** `handleSaveShare`: replaces the share being edited, or appends a new one. */
    method HandleSaveShare(updated: Share)
      modifies this
      ensures old(editingShare).Some? ==>
        shares == UrlList.ReplaceUrl(old(shares), UrlOf, old(editingShare).value.url, updated)
      ensures old(editingShare).None? ==> shares == old(shares) + [updated]
      ensures originalShares == old(originalShares) && isEditMode == old(isEditMode) && isSaving == old(isSaving)
      ensures editingShare == old(editingShare) && isCreateDialogOpen == old(isCreateDialogOpen)
      ensures logoItems == old(logoItems) && notice == old(notice)
      ensures old(Valid()) && isEditMode ==> Valid()
    {
      if editingShare.Some? {
        shares := UrlList.ReplaceUrl(shares, UrlOf, editingShare.value.url, updated);
      } else {
        shares := shares + [updated];
      }
    }

    /** `handleDelete`: once confirmed, every share with that url goes. */
    method HandleDelete(share: Share, confirmed: bool)
      modifies this
      ensures shares == if confirmed then UrlList.RemoveUrl(old(shares), UrlOf, share.url) else old(shares)
      ensures originalShares == old(originalShares) && isEditMode == old(isEditMode) && isSaving == old(isSaving)
      ensures editingShare == old(editingShare) && isCreateDialogOpen == old(isCreateDialogOpen)
      ensures logoItems == old(logoItems) && notice == old(notice)
      ensures old(Valid()) && (isEditMode || !confirmed) ==> Valid()
    {
      if confirmed {
        shares := UrlList.RemoveUrl(shares, UrlOf, share.url);
      }
    }

    /**
     * `handleSave`. Without a key in memory it fails and changes nothing;
     * otherwise the request goes out and `pushSucceeds` is its outcome. A
     * success publishes the list, drops the pending logos and leaves edit
     * mode; a failure keeps every edit.
     */
    method HandleSave(store: Auth.ConfigStore, pushSucceeds: bool) returns (request: Option<PushRequest>)
      modifies this
      ensures request.Some? <==> store.rawPem != ""
      ensures request.Some? ==> request.value == PushRequest(old(shares), old(logoItems), store.rawPem)
      ensures store.rawPem == "" ==> notice == Some(Failure)
      ensures request.Some? && pushSucceeds ==>
        originalShares == old(shares) && logoItems == [] && !isEditMode && notice == Some(Success)
      ensures request.Some? && !pushSucceeds ==> notice == Some(Failure)
      ensures !(request.Some? && pushSucceeds) ==>
        originalShares == old(originalShares) && logoItems == old(logoItems) && isEditMode == old(isEditMode)
      ensures isSaving == (old(isSaving) && request.None?)
      ensures shares == old(shares) && editingShare == old(editingShare) && isCreateDialogOpen == old(isCreateDialogOpen)
      ensures old(Valid()) ==> Valid()
    {
      request := None;
      if store.rawPem == "" {
        notice := Some(Failure);
      } else {
        isSaving := true;
        request := Some(PushRequest(shares, logoItems, store.rawPem));
        if pushSucceeds {
          originalShares := shares;
          logoItems := [];
          isEditMode := false;
          notice := Some(Success);
        } else {
          notice := Some(Failure);
        }
        isSaving := false;
      }
    }

    /** `handleCancel`: the published list comes back and the pending logos are dropped. */
    method HandleCancel()
      modifies this
      ensures shares == originalShares && logoItems == [] && !isEditMode
      ensures originalShares == old(originalShares) && isSaving == old(isSaving)
      ensures editingShare == old(editingShare) && isCreateDialogOpen == old(isCreateDialogOpen) && notice == old(notice)
      ensures old(Valid()) ==> Valid()
    {
      shares := originalShares;
      logoItems := [];
      isEditMode := false;
    }

    /** The manage button: `setIsEditMode(true)`. */
    method EnterEditMode()
      modifies this
      ensures isEditMode
      ensures shares == old(shares) && originalShares == old(originalShares) && isSaving == old(isSaving)
      ensures editingShare == old(editingShare) && isCreateDialogOpen == old(isCreateDialogOpen)
      ensures logoItems == old(logoItems) && notice == old(notice)
      ensures old(Valid()) ==> Valid()
    {
      isEditMode := true;
    }

    /** The shortcut enters edit mode, and takes the key press, only when a key is in memory. */
    method HandleKeyDown(ctrlKey: bool, metaKey: bool, key: string, store: Auth.ConfigStore) returns (prevented: bool)
      modifies this
      ensures prevented == (ShortcutApplies(old(isEditMode), ctrlKey, metaKey, key) && store.rawPem != "")
      ensures isEditMode == (old(isEditMode) || prevented)
      ensures shares == old(shares) && originalShares == old(originalShares) && isSaving == old(isSaving)
      ensures editingShare == old(editingShare) && isCreateDialogOpen == old(isCreateDialogOpen)
      ensures logoItems == old(logoItems) && notice == old(notice)
      ensures old(Valid()) ==> Valid()
    {
      prevented := false;
      if ShortcutApplies(isEditMode, ctrlKey, metaKey, key) && store.rawPem != "" {
        prevented := true;
        isEditMode := true;
      }
    }
  }
}
