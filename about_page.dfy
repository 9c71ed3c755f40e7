/**
 * The about page: the title, description and markdown body being edited, the
 * copy last saved, and the edit / preview switches around them.
 */
module AboutPage {
  import opened Wrappers
  import Auth
  import opened Feedback

  /** The page's `list.json`. */
  datatype AboutData = AboutData(title: string, description: string, content: string)

  /** One keystroke in one of the three inputs: `setData({ ...data, <field>: value })`. */
  datatype Edit = SetTitle(title: string) | SetDescription(description: string) | SetContent(content: string)

  function Apply(d: AboutData, e: Edit): (r: AboutData)
    ensures e.SetTitle? ==> r.title == e.title && r.description == d.description && r.content == d.content
    ensures e.SetDescription? ==> r.description == e.description && r.title == d.title && r.content == d.content
    ensures e.SetContent? ==> r.content == e.content && r.title == d.title && r.description == d.description
  {
    match e
    case SetTitle(t) => d.(title := t)
    case SetDescription(s) => d.(description := s)
    case SetContent(c) => d.(content := c)
  }

  /** The Ctrl/Cmd + `,` shortcut outside edit mode. */
  predicate ShortcutApplies(isEditMode: bool, ctrlKey: bool, metaKey: bool, key: string) {
    !isEditMode && (ctrlKey || metaKey) && key == ","
  }

  /** The manage button is offered once the store has loaded, a key is in memory and the site does not hide it. */
  predicate EditButtonShown(isHydrated: bool, rawPem: string, hideEditButton: bool) {
    isHydrated && rawPem != "" && !hideEditButton
  }

  class AboutPageState {
    var data: AboutData
    var originalData: AboutData
    var isEditMode: bool
    var isSaving: bool
    var isPreviewMode: bool
    var notice: Option<Notice>

    /** The page as it mounts: both copies are the bundled data, nothing is being edited. */
    constructor (initialData: AboutData)
      ensures data == initialData && originalData == initialData
      ensures !isEditMode && !isSaving && !isPreviewMode && notice == None
      ensures Valid()
    {
      data := initialData;
      originalData := initialData;
      isEditMode := false;
      isSaving := false;
      isPreviewMode := false;
      notice := None;
    }

    /**
     * Preview is a sub-mode of editing; outside edit mode the page shows the
     * saved data; no save is in flight between handlers.
     */
    ghost predicate Valid()
      reads this
    {
      (isPreviewMode ==> isEditMode) && (!isEditMode ==> data == originalData) && !isSaving
    }

    /** `handleEnterEditMode`: edit on, preview off. */
    method HandleEnterEditMode()
      modifies this
      ensures isEditMode && !isPreviewMode
      ensures data == old(data) && originalData == old(originalData) && isSaving == old(isSaving) && notice == old(notice)
      ensures old(Valid()) ==> Valid()
    {
      isEditMode := true;
      isPreviewMode := false;
    }

    /** The preview button flips preview mode. */
    method TogglePreview()
      modifies this
      ensures isPreviewMode == !old(isPreviewMode)
      ensures data == old(data) && originalData == old(originalData) && isEditMode == old(isEditMode)
      ensures isSaving == old(isSaving) && notice == old(notice)
      ensures old(Valid()) && isEditMode ==> Valid()
    {
      isPreviewMode := !isPreviewMode;
    }

    /** An input's `onChange`. */
    method HandleEdit(e: Edit)
      modifies this
      ensures data == Apply(old(data), e)
      ensures originalData == old(originalData) && isEditMode == old(isEditMode) && isPreviewMode == old(isPreviewMode)
      ensures isSaving == old(isSaving) && notice == old(notice)
      ensures old(Valid()) && isEditMode ==> Valid()
    {
      data := Apply(data, e);
    }

    /**
     * `handleSave`. Without a key in memory it reports an error and changes
     * nothing else; otherwise `pushAbout(data, key)` goes out with
     * `pushSucceeds` as its outcome. A success makes the current data the
     * saved copy and leaves edit and preview; a failure keeps every edit and
     * both modes. The saving flag is always reset.
     */
    method HandleSave(store: Auth.ConfigStore, pushSucceeds: bool) returns (request: Option<(AboutData, string)>)
      modifies this
      ensures request.Some? <==> store.rawPem != ""
      ensures request.Some? ==> request.value == (old(data), store.rawPem)
      ensures store.rawPem == "" ==>
        notice == Some(Failure) && isSaving == old(isSaving) && originalData == old(originalData) &&
        isEditMode == old(isEditMode) && isPreviewMode == old(isPreviewMode)
      ensures request.Some? && pushSucceeds ==>
        originalData == old(data) && !isEditMode && !isPreviewMode && notice == Some(Success) && !isSaving
      ensures request.Some? && !pushSucceeds ==>
        originalData == old(originalData) && isEditMode == old(isEditMode) && isPreviewMode == old(isPreviewMode) &&
        notice == Some(Failure) && !isSaving
      ensures data == old(data)
      ensures old(Valid()) ==> Valid()
    {
      request := None;
      if store.rawPem == "" {
        notice := Some(Failure);
      } else {
        isSaving := true;
        request := Some((data, store.rawPem));
        if pushSucceeds {
          originalData := data;
          isEditMode := false;
          isPreviewMode := false;
          notice := Some(Success);
        } else {
          notice := Some(Failure);
        }
        isSaving := false;
      }
    }

    /**
     * Where the manage button shows (outside edit mode, store loaded, a key
     * in memory, button not hidden), Ctrl/Cmd + `,` does what a click on it
     * does: the key press is taken, edit mode goes on, preview off, and the
     * data, the saved copy and the notice stay as they were.
     */
    method ShortcutAsButton(ctrlKey: bool, metaKey: bool, store: Auth.ConfigStore, hideEditButton: bool) returns (prevented: bool)
      requires Valid() && !isEditMode && (ctrlKey || metaKey)
      requires EditButtonShown(store.isHydrated, store.rawPem, hideEditButton)
      modifies this
      ensures prevented && isEditMode && !isPreviewMode
      ensures data == old(data) && originalData == old(originalData) && isSaving == old(isSaving) && notice == old(notice)
      ensures Valid()
    {
      prevented := HandleKeyDown(ctrlKey, metaKey, ",", store);
    }

    /** `handleCancel`: the saved copy comes back and both modes are left. */
    method HandleCancel()
      modifies this
      ensures data == originalData && !isEditMode && !isPreviewMode
      ensures originalData == old(originalData) && isSaving == old(isSaving) && notice == old(notice)
      ensures old(Valid()) ==> Valid()
    {
      data := originalData;
      isEditMode := false;
      isPreviewMode := false;
    }

    /** The shortcut enters edit mode, and takes the key press, only outside edit mode and with a key in memory. */
    method HandleKeyDown(ctrlKey: bool, metaKey: bool, key: string, store: Auth.ConfigStore) returns (prevented: bool)
      modifies this
      ensures prevented == (ShortcutApplies(old(isEditMode), ctrlKey, metaKey, key) && store.rawPem != "")
      ensures prevented ==> isEditMode && !isPreviewMode
      ensures !prevented ==> isEditMode == old(isEditMode) && isPreviewMode == old(isPreviewMode)
      ensures data == old(data) && originalData == old(originalData) && isSaving == old(isSaving) && notice == old(notice)
      ensures old(Valid()) ==> Valid()
    {
      prevented := false;
      if ShortcutApplies(isEditMode, ctrlKey, metaKey, key) && store.rawPem != "" {
        prevented := true;
        isEditMode := true;
        isPreviewMode := false;
      }
    }
  }
}
